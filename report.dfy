/**
 * `compileData`: the document payload built from the user's metadata and the
 * commit groups. Every selected commit, group by group and in stored order,
 * becomes a compiled record; unselected ones become `null` in the `flatMap`
 * and are removed by the final `filter`.
 */
module ReportCompiler {
  import opened Wrappers
  import opened SelectionStore
  import opened MessageParser

  /**
   * `DataInfo`: the user's metadata. A JavaScript `Date` is a time value
   * (milliseconds since the epoch); `null` is `None`.
   */
  datatype DataInfo = DataInfo(name: string, position: string, date: Option<int>, hours: real)

  /** The metadata as the document receives it, the date already formatted. */
  datatype UserData = UserData(name: string, position: string, date: string, hours: real)

  /** One row of the report. */
  datatype CompiledCommit = CompiledCommit(repo: string, sha: string, message: string, prNum: int)

  /** `DocumentData`: the payload handed to the document renderer. */
  datatype DocumentData = DocumentData(userData: UserData, commits: seq<CompiledCommit>)

  /** `sha.substring(0, 7)`: the first seven characters, or all of a shorter sha. */
  function ShortSha(sha: string): (r: string)
    ensures |r| == if |sha| < 7 then |sha| else 7
    ensures r <= sha
  {
    if |sha| <= 7 then sha else sha[..7]
  }

  /** The compiled record of a selected commit of group `repo`. */
  function CompileCommit(repo: string, c: Commit): (r: CompiledCommit)
    ensures r.repo == repo && r.sha <= c.sha
    ensures |r.sha| == if |c.sha| < 7 then |c.sha| else 7
    ensures r.message == Parse(c.message).title && r.prNum == Parse(c.message).prNum
    ensures r.prNum == -1 ==> r.message == c.message
    ensures r.prNum >= -1
  {
    var parsed := Parse(c.message);
    CompiledCommit(repo, ShortSha(c.sha), parsed.title, parsed.prNum)
  }

  /** The callback of the inner `map`: `null` for an unselected entry. */
  function CompileEntry(repo: string, e: CommitEntry): (r: Option<CompiledCommit>)
    ensures r.Some? <==> e.selected
  {
    if !e.selected then None else Some(CompileCommit(repo, e.commit))
  }

  /** `repoInfo.commits.map(...)` for one group. */
  function CompileGroup(g: CommitsState): (r: seq<Option<CompiledCommit>>)
    ensures |r| == |g.commits|
    ensures forall j :: 0 <= j < |r| ==> (r[j].Some? <==> g.commits[j].selected)
  {
    seq(|g.commits|, j requires 0 <= j < |g.commits| => CompileEntry(g.repoFullName, g.commits[j]))
  }

  /**
   * `commits.flatMap(...)`: the groups' results concatenated in order; its
   * non-null entries are exactly one per selected commit.
   */
  function FlatMapGroups(groups: seq<CommitsState>): (r: seq<Option<CompiledCommit>>)
    ensures |DropNulls(r)| == CountSelectedInGroups(groups)
  {
    if groups == [] then []
    else
      var head, tail := CompileGroup(groups[0]), FlatMapGroups(groups[1..]);
      DropNullsAppend(head, tail);
      GroupRowsLength(groups[0]);
      head + tail
  }

  /** `.filter(r => !!r)`: drop the `null`s (a compiled record is always truthy). */
  function DropNulls<T>(xs: seq<Option<T>>): (r: seq<T>)
    ensures |r| <= |xs|
  {
    if xs == [] then []
    else (if xs[0].Some? then [xs[0].value] else []) + DropNulls(xs[1..])
  }

  /** The `commits` field of the payload: one row per selected commit. */
  function CompileCommits(groups: seq<CommitsState>): (r: seq<CompiledCommit>)
    ensures |r| == CountSelectedInGroups(groups)
  {
    DropNulls(FlatMapGroups(groups))
  }

  /** Number of selected entries of one group. */
  function CountSelected(cs: seq<CommitEntry>): (n: nat)
  {
    if cs == [] then 0 else (if cs[0].selected then 1 else 0) + CountSelected(cs[1..])
  }

  /** Number of selected entries across all groups. */
  function CountSelectedInGroups(groups: seq<CommitsState>): (n: nat)
  {
    if groups == [] then 0 else CountSelected(groups[0].commits) + CountSelectedInGroups(groups[1..])
  }

  /**
   * `compileData`: the metadata with its date formatted by `formatMonth` (the
   * `format(date, 'MM/yyyy')` call) and the selected commits compiled.
   * `data.date!` makes a present date the caller's obligation.
   */
  function CompileData(data: DataInfo, groups: seq<CommitsState>, formatMonth: int -> string): (d: DocumentData)
    requires data.date.Some?
    ensures d.userData == UserData(data.name, data.position, formatMonth(data.date.value), data.hours)
    ensures d.commits == CompileCommits(groups)
    ensures |d.commits| == CountSelectedInGroups(groups)
    ensures d.commits == [] <==> CountSelectedInGroups(groups) == 0
    ensures forall i, j :: 0 <= i < |groups| && 0 <= j < |groups[i].commits| && groups[i].commits[j].selected ==>
      Rank(groups, i, j) < |d.commits| &&
      d.commits[Rank(groups, i, j)] == CompileCommit(groups[i].repoFullName, groups[i].commits[j].commit)
    ensures forall k :: 0 <= k < |d.commits| ==> FromSelected(groups, k)
  {
    CompileCommitsRanks(groups);
    DocumentData(UserData(data.name, data.position, formatMonth(data.date.value), data.hours), CompileCommits(groups))
  }

  // ---------------------------------------------------------------------------
  // Dropping nulls

  lemma {:induction false} DropNullsAppend<T>(xs: seq<Option<T>>, ys: seq<Option<T>>)
    ensures DropNulls(xs + ys) == DropNulls(xs) + DropNulls(ys)
  {
    if xs == [] {
      assert xs + ys == ys;
    } else {
      var head := if xs[0].Some? then [xs[0].value] else [];
      assert (xs + ys)[0] == xs[0];
      assert (xs + ys)[1..] == xs[1..] + ys;
      assert DropNulls(xs + ys) == head + DropNulls(xs[1..] + ys);
      DropNullsAppend(xs[1..], ys);
      assert DropNulls(xs) == head + DropNulls(xs[1..]);
    }
  }

  lemma DropNullsSingle<T>(x: Option<T>)
    ensures DropNulls([x]) == if x.Some? then [x.value] else []
  {
    assert [x][1..] == [];
  }

  // ---------------------------------------------------------------------------
  // One group

  /** The groups' results are concatenated in group order. */
  lemma {:induction false} FlatMapGroupsAppend(a: seq<CommitsState>, b: seq<CommitsState>)
    ensures FlatMapGroups(a + b) == FlatMapGroups(a) + FlatMapGroups(b)
  {
    if a == [] {
      assert a + b == b;
    } else {
      assert (a + b)[1..] == a[1..] + b;
      FlatMapGroupsAppend(a[1..], b);
    }
  }

  /** The compiled rows of one group, in its commit order. */
  function GroupRows(g: CommitsState): (rows: seq<CompiledCommit>)
  {
    DropNulls(CompileGroup(g))
  }

  /** A group's rows split where its commits split. */
  lemma GroupRowsAppend(repo: string, a: seq<CommitEntry>, b: seq<CommitEntry>)
    ensures GroupRows(CommitsState(repo, a + b)) == GroupRows(CommitsState(repo, a)) + GroupRows(CommitsState(repo, b))
  {
    assert CompileGroup(CommitsState(repo, a + b)) == CompileGroup(CommitsState(repo, a)) + CompileGroup(CommitsState(repo, b));
    DropNullsAppend(CompileGroup(CommitsState(repo, a)), CompileGroup(CommitsState(repo, b)));
  }

  /** A group's rows: its first commit's row, if selected, then the rows of the rest. */
  lemma GroupRowsCons(g: CommitsState)
    requires g.commits != []
    ensures GroupRows(g) ==
      (if g.commits[0].selected then [CompileCommit(g.repoFullName, g.commits[0].commit)] else []) +
      GroupRows(CommitsState(g.repoFullName, g.commits[1..]))
  {
    var repo, first := g.repoFullName, g.commits[0];
    assert g.commits == [first] + g.commits[1..];
    GroupRowsAppend(repo, [first], g.commits[1..]);
    assert CompileGroup(CommitsState(repo, [first])) == [CompileEntry(repo, first)];
    DropNullsSingle(CompileEntry(repo, first));
  }

  /** A group yields one row per selected commit. */
  lemma {:induction false} GroupRowsLength(g: CommitsState)
    ensures |GroupRows(g)| == CountSelected(g.commits)
    decreases |g.commits|
  {
    if g.commits != [] {
      var rest := CommitsState(g.repoFullName, g.commits[1..]);
      assert g.commits == [g.commits[0]] + g.commits[1..];
      GroupRowsAppend(g.repoFullName, [g.commits[0]], g.commits[1..]);
      assert CompileGroup(CommitsState(g.repoFullName, [g.commits[0]])) == [CompileEntry(g.repoFullName, g.commits[0])];
      DropNullsSingle(CompileEntry(g.repoFullName, g.commits[0]));
      GroupRowsLength(rest);
    }
  }

  /**
   * The selected commit at position `j` of a group is the row numbered by the
   * selected commits before it.
   */
  lemma GroupRowsAt(g: CommitsState, j: nat)
    requires j < |g.commits| && g.commits[j].selected
    ensures CountSelected(g.commits[..j]) < |GroupRows(g)|
    ensures GroupRows(g)[CountSelected(g.commits[..j])] == CompileCommit(g.repoFullName, g.commits[j].commit)
  {
    var repo := g.repoFullName;
    var pre, mid, post := g.commits[..j], [g.commits[j]], g.commits[j + 1..];
    assert g.commits == pre + mid + post;
    GroupRowsAppend(repo, pre + mid, post);
    GroupRowsAppend(repo, pre, mid);
    assert g == CommitsState(repo, pre + mid + post);
    GroupRowsLength(CommitsState(repo, pre));
    assert CompileGroup(CommitsState(repo, mid)) == [CompileEntry(repo, g.commits[j])];
  }

  /** The selected commit that row `k` of a group comes from: the one of rank `k`. */
  lemma {:induction false} GroupRowSource(g: CommitsState, k: nat) returns (j: nat)
    requires k < |GroupRows(g)|
    ensures j < |g.commits| && g.commits[j].selected && CountSelected(g.commits[..j]) == k
    ensures GroupRows(g)[k] == CompileCommit(g.repoFullName, g.commits[j].commit)
    decreases |g.commits|
  {
    var repo := g.repoFullName;
    var first := g.commits[0];
    var rest := CommitsState(repo, g.commits[1..]);
    var h := if first.selected then 1 else 0;
    GroupRowsCons(g);
    if first.selected && k == 0 {
      j := 0;
      assert CountSelected(g.commits[..0]) == 0;
    } else {
      assert GroupRows(g)[k] == GroupRows(rest)[k - h];
      var i := GroupRowSource(rest, k - h);
      j := i + 1;
      assert CountSelected(g.commits[..j]) == h + CountSelected(rest.commits[..i]) by {
        assert g.commits[..j][0] == first;
        assert g.commits[..j][1..] == rest.commits[..i];
      }
    }
  }

  /** Every row of a group comes from a selected commit of that group, numbered by its rank. */
  lemma GroupRowsOrigin(g: CommitsState, k: nat)
    requires k < |GroupRows(g)|
    ensures exists j ::
      (0 <= j < |g.commits| && g.commits[j].selected && CountSelected(g.commits[..j]) == k &&
       GroupRows(g)[k] == CompileCommit(g.repoFullName, g.commits[j].commit))
  {
    var j := GroupRowSource(g, k);
  }

  // ---------------------------------------------------------------------------
  // All groups

  /** The report is the groups' rows concatenated in group order. */
  lemma {:induction false} CompileCommitsAppend(a: seq<CommitsState>, b: seq<CommitsState>)
    ensures CompileCommits(a + b) == CompileCommits(a) + CompileCommits(b)
  {
    FlatMapGroupsAppend(a, b);
    DropNullsAppend(FlatMapGroups(a), FlatMapGroups(b));
  }

  /** A single group's report is its rows. */
  lemma CompileCommitsSingle(g: CommitsState)
    ensures CompileCommits([g]) == GroupRows(g)
  {
    assert [g][1..] == [];
    assert FlatMapGroups([g]) == CompileGroup(g) + [];
    assert CompileGroup(g) + [] == CompileGroup(g);
  }

  /** The rank of the entry at (group `i`, commit `j`) among the selected entries. */
  function Rank(groups: seq<CommitsState>, i: nat, j: nat): (n: nat)
    requires i < |groups| && j <= |groups[i].commits|
  {
    CountSelectedInGroups(groups[..i]) + CountSelected(groups[i].commits[..j])
  }

  /**
   * Each selected commit appears in the report, at its rank, as the record of
   * its own group: ordered by group, then by position in the group.
   */
  lemma CompileCommitsAt(groups: seq<CommitsState>, i: nat, j: nat)
    requires i < |groups| && j < |groups[i].commits| && groups[i].commits[j].selected
    ensures Rank(groups, i, j) < |CompileCommits(groups)|
    ensures CompileCommits(groups)[Rank(groups, i, j)] == CompileCommit(groups[i].repoFullName, groups[i].commits[j].commit)
  {
    var pre, g, post := groups[..i], groups[i], groups[i + 1..];
    assert groups == pre + [g] + post;
    CompileCommitsAppend(pre + [g], post);
    CompileCommitsAppend(pre, [g]);
    CompileCommitsSingle(g);
    GroupRowsAt(g, j);
  }

  /** The selected commit that row `k` of the report comes from: the one of rank `k`. */
  lemma {:induction false} CompileRowSource(groups: seq<CommitsState>, k: nat) returns (i: nat, j: nat)
    requires k < |CompileCommits(groups)|
    ensures i < |groups| && j < |groups[i].commits| && groups[i].commits[j].selected
    ensures Rank(groups, i, j) == k
    ensures CompileCommits(groups)[k] == CompileCommit(groups[i].repoFullName, groups[i].commits[j].commit)
    decreases |groups|
  {
    var g, rest := groups[0], groups[1..];
    assert groups == [g] + rest;
    CompileCommitsAppend([g], rest);
    CompileCommitsSingle(g);
    var h := |GroupRows(g)|;
    if k < h {
      i := 0;
      j := GroupRowSource(g, k);
      assert groups[..0] == [];
    } else {
      GroupRowsLength(g);
      assert CompileCommits(groups)[k] == CompileCommits(rest)[k - h];
      var i', j' := CompileRowSource(rest, k - h);
      i, j := i' + 1, j';
      assert groups[i] == rest[i'];
      assert CountSelectedInGroups(groups[..i]) == h + CountSelectedInGroups(rest[..i']) by {
        assert groups[..i][0] == g;
        assert groups[..i][1..] == rest[..i'];
      }
    }
  }

  /**
   * Row `k` of the report is the record of the selected commit `j` of group
   * `i`, the one of rank `k`.
   */
  predicate RowFrom(groups: seq<CommitsState>, k: int, i: int, j: int)
  {
    0 <= i < |groups| && 0 <= j < |groups[i].commits| && groups[i].commits[j].selected && Rank(groups, i, j) == k &&
    0 <= k < |CompileCommits(groups)| &&
    CompileCommits(groups)[k] == CompileCommit(groups[i].repoFullName, groups[i].commits[j].commit)
  }

  /** Row `k` of the report comes from some selected commit, the one of rank `k`. */
  predicate FromSelected(groups: seq<CommitsState>, k: int)
  {
    exists i, j :: 0 <= i < |groups| && 0 <= j < |groups[i].commits| && RowFrom(groups, k, i, j)
  }

  /** Every row of the report comes from a selected commit, at that commit's rank. */
  lemma CompileCommitsOrigin(groups: seq<CommitsState>, k: nat)
    requires k < |CompileCommits(groups)|
    ensures exists i, j ::
      (0 <= i < |groups| && 0 <= j < |groups[i].commits| && groups[i].commits[j].selected && Rank(groups, i, j) == k &&
       CompileCommits(groups)[k] == CompileCommit(groups[i].repoFullName, groups[i].commits[j].commit))
  {
    var i, j := CompileRowSource(groups, k);
  }

  lemma {:induction false} CountSelectedAppend(a: seq<CommitEntry>, b: seq<CommitEntry>)
    ensures CountSelected(a + b) == CountSelected(a) + CountSelected(b)
  {
    if a == [] {
      assert a + b == b;
    } else {
      assert (a + b)[1..] == a[1..] + b;
      CountSelectedAppend(a[1..], b);
    }
  }

  lemma {:induction false} CountSelectedInGroupsAppend(a: seq<CommitsState>, b: seq<CommitsState>)
    ensures CountSelectedInGroups(a + b) == CountSelectedInGroups(a) + CountSelectedInGroups(b)
  {
    if a == [] {
      assert a + b == b;
    } else {
      assert (a + b)[1..] == a[1..] + b;
      CountSelectedInGroupsAppend(a[1..], b);
    }
  }

  /** A selected commit at `j` counts among the selected commits of any longer prefix. */
  lemma CountSelectedPastSelected(cs: seq<CommitEntry>, j: nat, n: nat)
    requires j < n <= |cs| && cs[j].selected
    ensures CountSelected(cs[..j]) < CountSelected(cs[..n])
  {
    assert cs[..n] == cs[..j] + cs[j..n];
    CountSelectedAppend(cs[..j], cs[j..n]);
    assert CountSelected(cs[j..n]) >= 1;
  }

  /**
   * Ranks follow the order of groups, then of commits within a group: the
   * report lists selected commits in exactly that order.
   */
  lemma RankIncreases(groups: seq<CommitsState>, i: nat, j: nat, i2: nat, j2: nat)
    requires i < |groups| && j < |groups[i].commits| && groups[i].commits[j].selected
    requires i2 < |groups| && j2 <= |groups[i2].commits|
    requires i < i2 || (i == i2 && j < j2)
    ensures Rank(groups, i, j) < Rank(groups, i2, j2)
  {
    var cs := groups[i].commits;
    if i == i2 {
      CountSelectedPastSelected(cs, j, j2);
    } else {
      CountSelectedPastSelected(cs, j, |cs|);
      assert cs[..|cs|] == cs;
      assert groups[..i2] == groups[..i] + [groups[i]] + groups[i + 1..i2];
      CountSelectedInGroupsAppend(groups[..i] + [groups[i]], groups[i + 1..i2]);
      CountSelectedInGroupsAppend(groups[..i], [groups[i]]);
      assert CountSelectedInGroups([groups[i]]) == CountSelected(cs) by {
        assert [groups[i]][1..] == [];
      }
    }
  }

  /** A full sha is cut to its first seven characters. */
  lemma ShortShaExample()
    ensures ShortSha("abcdef1234567890") == "abcdef1"
    ensures ShortSha("abc") == "abc"
  {
  }

  /** The commit `Fix bug (#42)` of `org/a` compiles to its short sha, title and number. */
  lemma CompileCommitExample()
    ensures CompileCommit("org/a", Commit("1111111aaaa", "Fix bug (#42)")) == CompiledCommit("org/a", "1111111", "Fix bug", 42)
  {
    var c := Commit("1111111aaaa", "Fix bug (#42)");
    var r := CompileCommit("org/a", c);
    ParseExampleSquash();
    assert r.sha == "1111111" by {
      assert ShortSha(c.sha) == c.sha[..7];
    }
  }

  /** A report over one group holding one selected commit is that commit's row. */
  lemma CompileOneCommit(repo: string, c: Commit)
    ensures CompileCommits([CommitsState(repo, [CommitEntry(c, true)])]) == [CompileCommit(repo, c)]
  {
    var g := CommitsState(repo, [CommitEntry(c, true)]);
    assert CompileGroup(g) == [Some(CompileCommit(repo, c))];
    DropNullsSingle(Some(CompileCommit(repo, c)));
    CompileCommitsSingle(g);
  }

  /**
   * One repository `org/a` with one selected commit `Fix bug (#42)`: the report
   * has one row with the short sha, the title and the number.
   */
  lemma CompileExample()
    ensures CompileCommits([CommitsState("org/a", [CommitEntry(Commit("1111111aaaa", "Fix bug (#42)"), true)])])
      == [CompiledCommit("org/a", "1111111", "Fix bug", 42)]
  {
    CompileOneCommit("org/a", Commit("1111111aaaa", "Fix bug (#42)"));
    CompileCommitExample();
  }

  /**
   * The report, row by row: every selected commit is the row at its rank, and
   * every row is the selected commit of its rank.
   */
  lemma CompileCommitsRanks(groups: seq<CommitsState>)
    ensures forall i, j :: 0 <= i < |groups| && 0 <= j < |groups[i].commits| && groups[i].commits[j].selected ==>
      Rank(groups, i, j) < |CompileCommits(groups)| &&
      CompileCommits(groups)[Rank(groups, i, j)] == CompileCommit(groups[i].repoFullName, groups[i].commits[j].commit)
    ensures forall k :: 0 <= k < |CompileCommits(groups)| ==> FromSelected(groups, k)
  {
    forall i, j | 0 <= i < |groups| && 0 <= j < |groups[i].commits| && groups[i].commits[j].selected
      ensures Rank(groups, i, j) < |CompileCommits(groups)|
      ensures CompileCommits(groups)[Rank(groups, i, j)] == CompileCommit(groups[i].repoFullName, groups[i].commits[j].commit)
    {
      CompileCommitsAt(groups, i, j);
    }
    forall k | 0 <= k < |CompileCommits(groups)|
      ensures FromSelected(groups, k)
    {
      var i, j := CompileRowSource(groups, k);
      assert RowFrom(groups, k, i, j);
    }
  }
}
