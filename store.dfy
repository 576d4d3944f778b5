/**
 * The selection store of the protocol maker: the repositories of the signed-in
 * user and the commit groups fetched for the selected ones, each entry carrying
 * a `selected` flag. Every operation builds a new sequence of the same shape
 * (the source's `map` and `filter` over immutable state slots).
 */
module SelectionStore {

  /** The fields of a provider repository record that the store reads. */
  datatype Repository = Repository(id: string, fullName: string)

  /** `RepoState`: a repository and its selection flag. */
  datatype RepoState = RepoState(repo: Repository, selected: bool)

  /** The fields of a provider commit record that the core reads: `sha` and `commit.message`. */
  datatype Commit = Commit(sha: string, message: string)

  /** One element of `CommitsState.commits`. */
  datatype CommitEntry = CommitEntry(commit: Commit, selected: bool)

  /** `CommitsState`: the commits fetched for one repository. */
  datatype CommitsState = CommitsState(repoFullName: string, commits: seq<CommitEntry>)

  // ---------------------------------------------------------------------------
  // Views that forget the flags: what the toggles must leave alone.

  /** The raw repositories, flags dropped. */
  function RawRepos(repos: seq<RepoState>): (r: seq<Repository>)
    ensures |r| == |repos|
  {
    seq(|repos|, i requires 0 <= i < |repos| => repos[i].repo)
  }

  /** The raw commits of one group, flags dropped. */
  function RawCommits(cs: seq<CommitEntry>): (r: seq<Commit>)
    ensures |r| == |cs|
  {
    seq(|cs|, j requires 0 <= j < |cs| => cs[j].commit)
  }

  /** Every group's name and raw commits, flags dropped. */
  function RawGroups(groups: seq<CommitsState>): (r: seq<(string, seq<Commit>)>)
    ensures |r| == |groups|
  {
    seq(|groups|, i requires 0 <= i < |groups| => (groups[i].repoFullName, RawCommits(groups[i].commits)))
  }

  /** Some entry has repository id `id`. */
  predicate HasRepo(repos: seq<RepoState>, id: string)
  {
    exists i :: 0 <= i < |repos| && repos[i].repo.id == id
  }

  /** Some group named `repo` holds a commit whose sha is `sha`. */
  predicate HasCommit(groups: seq<CommitsState>, repo: string, sha: string)
  {
    exists i, j :: 0 <= i < |groups| && 0 <= j < |groups[i].commits|
      && groups[i].repoFullName == repo && groups[i].commits[j].commit.sha == sha
  }

  // ---------------------------------------------------------------------------
  // Repositories

  /** `handleReposUpdated`: wrap freshly fetched repositories, none selected. */
  function ReposUpdated(raw: seq<Repository>): (r: seq<RepoState>)
    ensures RawRepos(r) == raw
    ensures forall i :: 0 <= i < |r| ==> !r[i].selected
  {
    seq(|raw|, i requires 0 <= i < |raw| => RepoState(raw[i], false))
  }

  /**
   * The shared body of `selectRepo` (flag true) and `unselectRepo` (flag false):
   * entries with the given id get a new state carrying `flag`, the others are
   * returned as they are.
   */
  function MarkRepo(repos: seq<RepoState>, id: string, flag: bool): (r: seq<RepoState>)
    ensures RawRepos(r) == RawRepos(repos)
    ensures forall i :: 0 <= i < |r| && repos[i].repo.id != id ==> r[i] == repos[i]
    ensures forall i :: 0 <= i < |r| && repos[i].repo.id == id ==> r[i].selected == flag
  {
    seq(|repos|, i requires 0 <= i < |repos| =>
      if repos[i].repo.id == id then RepoState(repos[i].repo, flag) else repos[i])
  }

  /** `selectRepo`: afterwards an entry is selected iff it was, or it has the id. */
  function SelectRepo(repos: seq<RepoState>, id: string): (r: seq<RepoState>)
    ensures RawRepos(r) == RawRepos(repos)
    ensures forall i :: 0 <= i < |r| ==> r[i].selected == (repos[i].selected || repos[i].repo.id == id)
  {
    MarkRepo(repos, id, true)
  }

  /** `unselectRepo`: afterwards an entry is selected iff it was and it has another id. */
  function UnselectRepo(repos: seq<RepoState>, id: string): (r: seq<RepoState>)
    ensures RawRepos(r) == RawRepos(repos)
    ensures forall i :: 0 <= i < |r| ==> r[i].selected == (repos[i].selected && repos[i].repo.id != id)
  {
    MarkRepo(repos, id, false)
  }

  /** Number of selected repository entries. */
  function CountSelectedRepos(repos: seq<RepoState>): (n: nat)
  {
    if repos == [] then 0
    else (if repos[0].selected then 1 else 0) + CountSelectedRepos(repos[1..])
  }

  /** `selectedReposFullName`: `repos.filter(r => r.selected).map(r => r.repo.full_name)`. */
  function SelectedReposFullName(repos: seq<RepoState>): (names: seq<string>)
    ensures |names| == CountSelectedRepos(repos)
    ensures forall x :: x in names ==> exists i :: 0 <= i < |repos| && repos[i].selected && repos[i].repo.fullName == x
  {
    if repos == [] then []
    else (if repos[0].selected then [repos[0].repo.fullName] else []) + SelectedReposFullName(repos[1..])
  }

  /** The view over a concatenation is the concatenation of the views: order is kept. */
  lemma {:induction false} SelectedReposFullNameAppend(a: seq<RepoState>, b: seq<RepoState>)
    ensures SelectedReposFullName(a + b) == SelectedReposFullName(a) + SelectedReposFullName(b)
  {
    if a == [] {
      assert a + b == b;
    } else {
      assert (a + b)[1..] == a[1..] + b;
      SelectedReposFullNameAppend(a[1..], b);
    }
  }

  /** Every selected entry's full name is in the view. */
  lemma {:induction false} SelectedReposFullNameComplete(repos: seq<RepoState>, i: nat)
    requires i < |repos| && repos[i].selected
    ensures repos[i].repo.fullName in SelectedReposFullName(repos)
  {
    if i > 0 {
      SelectedReposFullNameComplete(repos[1..], i - 1);
    }
  }

  /** With no entry selected the view is empty. */
  lemma {:induction false} NoSelectionEmptyView(repos: seq<RepoState>)
    requires forall i :: 0 <= i < |repos| ==> !repos[i].selected
    ensures SelectedReposFullName(repos) == []
  {
    if repos != [] {
      NoSelectionEmptyView(repos[1..]);
    }
  }

  /** Freshly fetched repositories have an empty selection view. */
  lemma NothingSelectedAfterUpdate(raw: seq<Repository>)
    ensures SelectedReposFullName(ReposUpdated(raw)) == []
  {
    NoSelectionEmptyView(ReposUpdated(raw));
  }

  /** Toggling an id that no entry has returns the input unchanged. */
  lemma UnknownRepoIsNoOp(repos: seq<RepoState>, id: string)
    requires !HasRepo(repos, id)
    ensures SelectRepo(repos, id) == repos
    ensures UnselectRepo(repos, id) == repos
  {
  }

  /** Selecting twice is selecting once; likewise for unselecting. */
  lemma RepoTogglesIdempotent(repos: seq<RepoState>, id: string)
    ensures SelectRepo(SelectRepo(repos, id), id) == SelectRepo(repos, id)
    ensures UnselectRepo(UnselectRepo(repos, id), id) == UnselectRepo(repos, id)
  {
  }

  /**
   * Select then unselect: the matching entries end unselected and the others are
   * untouched, i.e. the same as unselecting alone.
   */
  lemma SelectThenUnselectRepo(repos: seq<RepoState>, id: string)
    ensures UnselectRepo(SelectRepo(repos, id), id) == UnselectRepo(repos, id)
    ensures forall i :: 0 <= i < |repos| && repos[i].repo.id != id ==> UnselectRepo(SelectRepo(repos, id), id)[i] == repos[i]
  {
  }

  /** When the matching entries start unselected, select then unselect restores the input. */
  lemma SelectUnselectRepoRoundTrip(repos: seq<RepoState>, id: string)
    requires forall i :: 0 <= i < |repos| && repos[i].repo.id == id ==> !repos[i].selected
    ensures UnselectRepo(SelectRepo(repos, id), id) == repos
  {
  }

  // ---------------------------------------------------------------------------
  // Commits

  /** The inner `map` of `selectCommit`/`unselectCommit`: entries with the sha get `flag`. */
  function MarkEntries(cs: seq<CommitEntry>, sha: string, flag: bool): (r: seq<CommitEntry>)
    ensures RawCommits(r) == RawCommits(cs)
    ensures forall j :: 0 <= j < |r| && cs[j].commit.sha != sha ==> r[j] == cs[j]
    ensures forall j :: 0 <= j < |r| && cs[j].commit.sha == sha ==> r[j].selected == flag
  {
    seq(|cs|, j requires 0 <= j < |cs| =>
      if cs[j].commit.sha == sha then cs[j].(selected := flag) else cs[j])
  }

  /**
   * The shared body of `selectCommit` (flag true) and `unselectCommit` (flag
   * false): groups with another name are returned as they are; in groups named
   * `repo` the entries whose sha is `sha` get `flag`.
   */
  function MarkCommit(groups: seq<CommitsState>, repo: string, sha: string, flag: bool): (r: seq<CommitsState>)
    ensures RawGroups(r) == RawGroups(groups)
    ensures forall i :: 0 <= i < |r| ==> r[i].repoFullName == groups[i].repoFullName && |r[i].commits| == |groups[i].commits|
    ensures forall i :: 0 <= i < |r| && groups[i].repoFullName != repo ==> r[i] == groups[i]
    ensures forall i, j :: 0 <= i < |r| && groups[i].repoFullName == repo && 0 <= j < |groups[i].commits| ==>
      r[i].commits[j] == if groups[i].commits[j].commit.sha == sha then groups[i].commits[j].(selected := flag) else groups[i].commits[j]
  {
    seq(|groups|, i requires 0 <= i < |groups| =>
      if groups[i].repoFullName != repo then groups[i]
      else groups[i].(commits := MarkEntries(groups[i].commits, sha, flag)))
  }

  /** `selectCommit`: a commit is selected afterwards iff it was, or it is the target. */
  function SelectCommit(groups: seq<CommitsState>, repo: string, sha: string): (r: seq<CommitsState>)
    ensures RawGroups(r) == RawGroups(groups)
    ensures forall i :: 0 <= i < |r| ==> r[i].repoFullName == groups[i].repoFullName && |r[i].commits| == |groups[i].commits|
    ensures forall i, j :: 0 <= i < |r| && 0 <= j < |groups[i].commits| ==>
      r[i].commits[j].selected ==
        (groups[i].commits[j].selected || (groups[i].repoFullName == repo && groups[i].commits[j].commit.sha == sha))
  {
    MarkCommit(groups, repo, sha, true)
  }

  /** `unselectCommit`: a commit is selected afterwards iff it was and it is not the target. */
  function UnselectCommit(groups: seq<CommitsState>, repo: string, sha: string): (r: seq<CommitsState>)
    ensures RawGroups(r) == RawGroups(groups)
    ensures forall i :: 0 <= i < |r| ==> r[i].repoFullName == groups[i].repoFullName && |r[i].commits| == |groups[i].commits|
    ensures forall i, j :: 0 <= i < |r| && 0 <= j < |groups[i].commits| ==>
      r[i].commits[j].selected ==
        (groups[i].commits[j].selected && !(groups[i].repoFullName == repo && groups[i].commits[j].commit.sha == sha))
  {
    MarkCommit(groups, repo, sha, false)
  }

  /** Toggling a (repository, sha) pair that no group holds returns the input unchanged. */
  lemma UnknownCommitIsNoOp(groups: seq<CommitsState>, repo: string, sha: string)
    requires !HasCommit(groups, repo, sha)
    ensures SelectCommit(groups, repo, sha) == groups
    ensures UnselectCommit(groups, repo, sha) == groups
  {
    forall flag: bool ensures MarkCommit(groups, repo, sha, flag) == groups {
      var r := MarkCommit(groups, repo, sha, flag);
      forall i | 0 <= i < |groups| ensures r[i] == groups[i] {
        if groups[i].repoFullName == repo {
          assert r[i].commits == groups[i].commits;
        }
      }
    }
  }

  /** Selecting a commit twice is selecting it once; likewise for unselecting. */
  lemma CommitTogglesIdempotent(groups: seq<CommitsState>, repo: string, sha: string)
    ensures SelectCommit(SelectCommit(groups, repo, sha), repo, sha) == SelectCommit(groups, repo, sha)
    ensures UnselectCommit(UnselectCommit(groups, repo, sha), repo, sha) == UnselectCommit(groups, repo, sha)
  {
    forall flag: bool ensures MarkCommit(MarkCommit(groups, repo, sha, flag), repo, sha, flag) == MarkCommit(groups, repo, sha, flag) {
      var once := MarkCommit(groups, repo, sha, flag);
      var twice := MarkCommit(once, repo, sha, flag);
      forall i | 0 <= i < |groups| ensures twice[i] == once[i] {
        if groups[i].repoFullName == repo {
          assert twice[i].commits == once[i].commits;
        }
      }
    }
  }

  /**
   * Select then unselect a commit: the same as unselecting alone, so the target
   * ends unselected and every other entry and group is untouched.
   */
  lemma SelectThenUnselectCommit(groups: seq<CommitsState>, repo: string, sha: string)
    ensures UnselectCommit(SelectCommit(groups, repo, sha), repo, sha) == UnselectCommit(groups, repo, sha)
  {
    var direct := UnselectCommit(groups, repo, sha);
    var both := UnselectCommit(SelectCommit(groups, repo, sha), repo, sha);
    forall i | 0 <= i < |groups| ensures both[i] == direct[i] {
      if groups[i].repoFullName == repo {
        assert both[i].commits == direct[i].commits;
      }
    }
  }

  /** When the target starts unselected, select then unselect restores the input. */
  lemma SelectUnselectCommitRoundTrip(groups: seq<CommitsState>, repo: string, sha: string)
    requires forall i, j ::
      (0 <= i < |groups| && 0 <= j < |groups[i].commits| && groups[i].repoFullName == repo &&
       groups[i].commits[j].commit.sha == sha) ==> !groups[i].commits[j].selected
    ensures UnselectCommit(SelectCommit(groups, repo, sha), repo, sha) == groups
  {
    var both := UnselectCommit(SelectCommit(groups, repo, sha), repo, sha);
    forall i | 0 <= i < |groups| ensures both[i] == groups[i] {
      if groups[i].repoFullName == repo {
        assert both[i].commits == groups[i].commits;
      }
    }
  }
}
