/**
 * The commit-message parser of the report compiler: the JavaScript call
 * `message.match(/(?<title>.+) (\(#(?<num>\d+)\))/)` and the way its groups
 * become `title` and `prNum`.
 *
 * The pattern has no flags and no anchors. `.` matches every character except a
 * line terminator, `\d` is an ASCII digit, `.+` is greedy and `match` reports the
 * match with the leftmost start. So the title is the text from the start of the
 * first line that holds a marker ` (#digits)` after its first character, up to
 * the LAST such marker on that line; nothing is trimmed.
 */
module MessageParser {
  import opened Wrappers

  /** The characters JavaScript's `.` does not match without the `s` flag. */
  predicate IsLineTerminator(c: char)
  {
    c == '\n' || c == '\r' || c == '\U{2028}' || c == '\U{2029}'
  }

  /** JavaScript's `\d`. */
  predicate IsDigit(c: char)
  {
    '0' <= c <= '9'
  }

  predicate SingleLine(s: string)
  {
    forall k :: 0 <= k < |s| ==> !IsLineTerminator(s[k])
  }

  /** Length of the maximal run of digits starting at `i`: what greedy `\d+` tries first. */
  function DigitRun(m: string, i: nat): (n: nat)
    requires i <= |m|
    ensures i + n <= |m|
    ensures forall k :: i <= k < i + n ==> IsDigit(m[k])
    ensures i + n == |m| || !IsDigit(m[i + n])
    decreases |m| - i
  {
    if i < |m| && IsDigit(m[i]) then 1 + DigitRun(m, i + 1) else 0
  }

  /** The marker ` (#digits)` starts at index `p`; it takes at least five characters. */
  predicate IsMarkerAt(m: string, p: int)
    ensures IsMarkerAt(m, p) ==> 0 <= p && p + 4 < |m| && !IsLineTerminator(m[p + 4])
  {
    0 <= p && p + 3 < |m| && m[p] == ' ' && m[p + 1] == '(' && m[p + 2] == '#' &&
    var q := p + 3 + DigitRun(m, p + 3);
    q > p + 3 && q < |m| && m[q] == ')'
  }

  /**
   * The marker agrees with the pattern's own reading of ` (#\d+\)`: some
   * non-empty run of digits closed by `)`. (Backtracking to a shorter digit run
   * never helps, since a digit is not `)`.)
   */
  lemma MarkerAtIffPattern(m: string, p: int)
    ensures IsMarkerAt(m, p) <==>
      (0 <= p && p + 3 < |m| && m[p] == ' ' && m[p + 1] == '(' && m[p + 2] == '#' &&
       exists q :: p + 3 < q < |m| && m[q] == ')' && forall k :: p + 3 <= k < q ==> IsDigit(m[k]))
  {
    if 0 <= p && p + 3 < |m| && m[p] == ' ' && m[p + 1] == '(' && m[p + 2] == '#' {
      var d := p + 3 + DigitRun(m, p + 3);
      if IsMarkerAt(m, p) {
        assert p + 3 < d < |m| && m[d] == ')';
      }
      if q :| p + 3 < q < |m| && m[q] == ')' && forall k :: p + 3 <= k < q ==> IsDigit(m[k]) {
        assert d == q;
      }
    }
  }

  /** The digits of the marker at `p`: the `num` group. */
  function MarkerDigits(m: string, p: int): (ds: string)
    requires IsMarkerAt(m, p)
    ensures |ds| > 0 && forall k :: 0 <= k < |ds| ==> IsDigit(ds[k])
  {
    m[p + 3..p + 3 + DigitRun(m, p + 3)]
  }

  /**
   * JavaScript's unary `+` on a string of decimal digits. Leading zeros are
   * ignored: a numeral without them is the decimal numeral of its value.
   */
  function DigitsValue(ds: string): (n: nat)
    requires forall k :: 0 <= k < |ds| ==> IsDigit(ds[k])
    ensures (|ds| == 1 || (|ds| > 1 && ds[0] != '0')) ==> Decimal(n) == ds
  {
    if ds == [] then 0
    else
      var init, last := ds[..|ds| - 1], ds[|ds| - 1];
      assert IsDigit(last);
      var d := last as int - '0' as int;
      var v := DigitsValue(init);
      assert |ds| > 1 && ds[0] != '0' ==> init[0] == ds[0] && (|init| == 1 || init[0] != '0');
      assert |ds| > 1 && ds[0] != '0' ==> v > 0;
      assert (10 * v + d) / 10 == v && (10 * v + d) % 10 == d;
      assert ds == init + [last];
      10 * v + d
  }

  /** A leading zero does not change the value: `+"007"` is 7. */
  lemma {:induction false} DigitsValueLeadingZero(ds: string)
    requires forall k :: 0 <= k < |ds| ==> IsDigit(ds[k])
    ensures DigitsValue(['0'] + ds) == DigitsValue(ds)
  {
    if ds != [] {
      assert (['0'] + ds)[..|ds|] == ['0'] + ds[..|ds| - 1];
      DigitsValueLeadingZero(ds[..|ds| - 1]);
    } else {
      assert (['0'] + ds)[..0] == [];
    }
  }

  /** The decimal numeral of `n`, with no leading zeros. */
  function Decimal(n: nat): (ds: string)
    ensures |ds| > 0 && forall k :: 0 <= k < |ds| ==> IsDigit(ds[k])
  {
    var last := ['0' + ((n % 10) as char)];
    if n < 10 then last else Decimal(n / 10) + last
  }

  /** Reading the numeral of `n` gives `n` back. */
  lemma {:induction false} DigitsValueDecimal(n: nat)
    ensures DigitsValue(Decimal(n)) == n
  {
    var ds := Decimal(n);
    if n >= 10 {
      DigitsValueDecimal(n / 10);
      assert ds[..|ds| - 1] == Decimal(n / 10);
    }
  }

  /**
   * The pattern matches with the `title` group spanning `m[s..p]`: a non-empty
   * stretch without line terminators, followed by a marker.
   */
  predicate MatchesAt(m: string, s: int, p: int)
    ensures MatchesAt(m, s, p) ==> 0 <= s < p <= |m| && SingleLine(m[s..p]) && IsMarkerAt(m, p)
  {
    0 <= s < p <= |m| && (forall k :: s <= k < p ==> !IsLineTerminator(m[k])) && IsMarkerAt(m, p)
  }

  /** Where greedy `.+` started at `s` stops: the next line terminator, or the end. */
  function LineEnd(m: string, s: nat): (e: nat)
    requires s <= |m|
    ensures s <= e <= |m|
    ensures forall k :: s <= k < e ==> !IsLineTerminator(m[k])
    ensures e == |m| || IsLineTerminator(m[e])
    decreases |m| - s
  {
    if s == |m| || IsLineTerminator(m[s]) then s else LineEnd(m, s + 1)
  }

  /** The backtracking of `.+`: give back one character at a time until a marker follows. */
  function Backtrack(m: string, s: nat, p: nat): (r: Option<nat>)
    requires s <= p <= |m|
    ensures r.Some? ==> s < r.value <= p && IsMarkerAt(m, r.value)
    ensures r.Some? ==> forall k :: r.value < k <= p ==> !IsMarkerAt(m, k)
    ensures r.None? ==> forall k :: s < k <= p ==> !IsMarkerAt(m, k)
    decreases p
  {
    if p == s then None
    else if IsMarkerAt(m, p) then Some(p)
    else Backtrack(m, s, p - 1)
  }

  /** One attempt of the matcher at start `s`: the longest title that works, if any. */
  function TryAt(m: string, s: nat): (r: Option<nat>)
    requires s <= |m|
    ensures r.Some? ==> MatchesAt(m, s, r.value)
    ensures r.Some? ==> forall p :: r.value < p ==> !MatchesAt(m, s, p)
    ensures r.None? ==> forall p :: !MatchesAt(m, s, p)
  {
    var e := LineEnd(m, s);
    var r := Backtrack(m, s, e);
    r
  }

  /** `match` on a non-global pattern: try the starts `s`, `s + 1`, ... in order. */
  function Search(m: string, s: nat): (r: Option<(nat, nat)>)
    requires s <= |m|
    ensures r.Some? ==> s <= r.value.0 && MatchesAt(m, r.value.0, r.value.1)
    ensures r.Some? ==> forall a, p :: s <= a < r.value.0 ==> !MatchesAt(m, a, p)
    ensures r.Some? ==> forall p :: r.value.1 < p ==> !MatchesAt(m, r.value.0, p)
    ensures r.None? ==> forall a, p :: s <= a ==> !MatchesAt(m, a, p)
    decreases |m| - s
  {
    if s == |m| then None
    else match TryAt(m, s)
      case Some(p) => Some((s, p))
      case None => Search(m, s + 1)
  }

  /** The `title` and `prNum` that the report compiler takes from a message. */
  datatype MessageData = MessageData(title: string, prNum: int)

  /**
   * `messageData?.groups.title ?? message` and
   * `messageData?.groups.num ? +messageData?.groups.num : -1`.
   * A matched `num` is a non-empty digit string, hence truthy, so a match always
   * yields a number.
   */
  function Parse(message: string): (r: MessageData)
    ensures r.prNum >= -1
    ensures r.prNum == -1 ==> r.title == message
    ensures r.prNum >= 0 ==> 0 < |r.title| < |message| && SingleLine(r.title)
    ensures r.prNum >= 0 ==> exists s :: 0 <= s <= |message| && r.title <= message[s..]
  {
    match Search(message, 0)
    case None => MessageData(message, -1)
    case Some((s, p)) =>
      assert message[s..p] <= message[s..];
      MessageData(message[s..p], DigitsValue(MarkerDigits(message, p)))
  }

  /**
   * The regular-expression semantics of `Parse`: when a match starts at `s` with
   * the title ending at `p`, no match starts earlier and none at `s` has a longer
   * title, the title is `m[s..p]` and the number is the marker's digits.
   */
  lemma ParseLeftmostLongest(m: string, s: nat, p: nat)
    requires MatchesAt(m, s, p)
    requires forall a, q :: 0 <= a < s ==> !MatchesAt(m, a, q)
    requires forall q :: p < q ==> !MatchesAt(m, s, q)
    ensures Parse(m) == MessageData(m[s..p], DigitsValue(MarkerDigits(m, p)))
  {
    var r := Search(m, 0);
    assert r.Some?;
    var (s', p') := r.value;
    assert s' == s;
    assert p' == p;
  }

  /** A message the pattern does not match keeps its text and gets -1. */
  lemma ParseNoMatch(m: string)
    requires forall a, p :: !MatchesAt(m, a, p)
    ensures Parse(m) == MessageData(m, -1)
  {

  }

  /** `Parse` finds a number exactly when the pattern matches somewhere. */
  lemma ParseFindsNumberIffMatch(m: string)
    ensures Parse(m).prNum >= 0 <==> exists a, p :: MatchesAt(m, a, p)
  {
    if Search(m, 0).Some? {
      var (a, p) := Search(m, 0).value;
      assert MatchesAt(m, a, p);
    }
  }

  /**
   * On a single-line message with a marker at `i >= 1` and none after it, the
   * title is everything before `i` and the number is the marker's digits.
   */
  lemma ParseSingleLine(m: string, i: nat)
    requires SingleLine(m)
    requires 1 <= i && IsMarkerAt(m, i)
    requires forall j :: i < j ==> !IsMarkerAt(m, j)
    ensures Parse(m) == MessageData(m[..i], DigitsValue(MarkerDigits(m, i)))
    ensures Parse(m).prNum >= 0
  {
    assert MatchesAt(m, 0, i);
    ParseLeftmostLongest(m, 0, i);
  }

  /** A message with no marker after its first character keeps its text and gets -1. */
  lemma ParseNoMarker(m: string)
    requires forall i :: 1 <= i ==> !IsMarkerAt(m, i)
    ensures Parse(m) == MessageData(m, -1)
  {
    ParseNoMatch(m);
  }

  /** `DigitRun` measures exactly a run of `n` digits that a non-digit closes. */
  lemma {:induction false} DigitRunExact(m: string, i: nat, n: nat)
    requires i + n < |m| && !IsDigit(m[i + n])
    requires forall k :: i <= k < i + n ==> IsDigit(m[k])
    ensures DigitRun(m, i) == n
    decreases n
  {
    if n > 0 {
      DigitRunExact(m, i + 1, n - 1);
    }
  }

  /** The text of a squash-merge title with its number appended. */
  function SquashMessage(title: string, n: nat): (m: string)
    ensures |m| == |title| + |Decimal(n)| + 4
  {
    title + " (#" + Decimal(n) + ")"
  }

  /**
   * In `SquashMessage(title, n) + rest`, with no `#` in `rest`, the appended
   * marker is the last one and carries `Decimal(n)`.
   */
  lemma SquashMarker(title: string, n: nat, rest: string)
    requires forall k :: 0 <= k < |rest| ==> rest[k] != '#'
    ensures IsMarkerAt(SquashMessage(title, n) + rest, |title|)
    ensures MarkerDigits(SquashMessage(title, n) + rest, |title|) == Decimal(n)
    ensures forall j :: |title| < j ==> !IsMarkerAt(SquashMessage(title, n) + rest, j)
  {
    var ds := Decimal(n);
    var m := SquashMessage(title, n) + rest;
    var i := |title|;
    assert m[i] == ' ' && m[i + 1] == '(' && m[i + 2] == '#' && m[i + 3 + |ds|] == ')';
    forall k | i + 3 <= k < i + 3 + |ds| ensures m[k] == ds[k - i - 3] && IsDigit(m[k]) {
    }
    DigitRunExact(m, i + 3, |ds|);
    assert m[i + 3..i + 3 + |ds|] == ds;
    forall j | i < j < |m| ensures m[j] != ' ' || j + 2 >= |m| || m[j + 2] != '#' {
      if j < i + 4 + |ds| {
        if i + 3 <= j < i + 3 + |ds| {
          assert IsDigit(m[j]);
        }
      } else if j + 2 < |m| {
        assert m[j + 2] == rest[j + 2 - (i + 4 + |ds|)];
      }
    }
  }

  /** A squash-merge message followed by `rest` has a line terminator only where `title` or `rest` has one. */
  lemma SquashSingleLine(title: string, n: nat, rest: string)
    requires SingleLine(title) && SingleLine(rest)
    ensures SingleLine(SquashMessage(title, n) + rest)
  {
    var ds := Decimal(n);
    var m := SquashMessage(title, n) + rest;
    var i := |title|;
    forall k | 0 <= k < |m| ensures !IsLineTerminator(m[k]) {
      if k < i {
        assert m[k] == title[k];
      } else if i + 3 <= k < i + 3 + |ds| {
        assert m[k] == ds[k - i - 3];
      } else if k >= i + 4 + |ds| {
        assert m[k] == rest[k - (i + 4 + |ds|)];
      }
    }
  }

  /**
   * A squash-merge style message `title (#n)` on one line parses back to
   * `title` and `n`, whatever the title holds (even another marker).
   */
  lemma ParseSquashTitle(title: string, n: nat)
    requires 0 < |title| && SingleLine(title)
    ensures Parse(SquashMessage(title, n)) == MessageData(title, n)
  {
    ParseSquashThenText(title, n, []);
    assert SquashMessage(title, n) + [] == SquashMessage(title, n);
  }

  /**
   * The pattern is not anchored at the end: text after the marker, on the same
   * line and without `#`, is ignored and the marker is still taken.
   */
  lemma ParseSquashThenText(title: string, n: nat, rest: string)
    requires 0 < |title| && SingleLine(title)
    requires SingleLine(rest) && forall k :: 0 <= k < |rest| ==> rest[k] != '#'
    ensures Parse(SquashMessage(title, n) + rest) == MessageData(title, n)
  {
    var m := SquashMessage(title, n) + rest;
    SquashMarker(title, n, rest);
    SquashSingleLine(title, n, rest);
    ParseSingleLine(m, |title|);
    assert m[..|title|] == title;
    DigitsValueDecimal(n);
  }

  /** A message without `#` has no marker. */
  lemma NoHashNoMarker(m: string)
    requires forall k :: 0 <= k < |m| ==> m[k] != '#'
    ensures Parse(m) == MessageData(m, -1)
  {
    ParseNoMarker(m);
  }

  /** The squash-merge example: `Fix bug (#42)` gives `Fix bug` and 42. */
  lemma ParseExampleSquash()
    ensures Parse("Fix bug (#42)") == MessageData("Fix bug", 42)
  {
    assert Decimal(42) == "42";
    assert SquashMessage("Fix bug", 42) == "Fix bug (#42)";
    ParseSquashTitle("Fix bug", 42);
  }

  /** A message without a marker keeps its text: `Refactor module` gives -1. */
  lemma ParseExampleNoMarker()
    ensures Parse("Refactor module") == MessageData("Refactor module", -1)
  {
    NoHashNoMarker("Refactor module");
  }

  /** A marker in mid-message is taken: `Merge (#1) into main` gives `Merge` and 1. */
  lemma ParseExampleMidMessage()
    ensures Parse("Merge (#1) into main") == MessageData("Merge", 1)
  {
    assert Decimal(1) == "1";
    assert SquashMessage("Merge", 1) + " into main" == "Merge (#1) into main";
    ParseSquashThenText("Merge", 1, " into main");
  }
}
