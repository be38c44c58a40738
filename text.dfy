/** String derivations on single cells. */
module Text {
  import opened Wrappers

  /**
   * pandas `last + " " + first` on object columns: a missing operand makes
   * the result missing instead of raising.
   */
  function JoinName(last: Option<string>, first: Option<string>): (r: Option<string>)
    ensures r.Some? <==> last.Some? && first.Some?
    ensures r.Some? ==>
      && |r.value| == |last.value| + 1 + |first.value|
      && r.value[..|last.value|] == last.value
      && r.value[|last.value|] == ' '
      && r.value[|last.value| + 1..] == first.value
  {
    if last.Some? && first.Some? then Some(last.value + " " + first.value) else None
  }

  /** Number of leading copies of `c` in `s`. */
  function LeadingCount(s: string, c: char): (n: nat)
    ensures n <= |s|
    ensures forall k :: 0 <= k < n ==> s[k] == c
    ensures n < |s| ==> s[n] != c
  {
    if s == [] || s[0] != c then 0 else 1 + LeadingCount(s[1..], c)
  }

  /** Number of trailing copies of `c` in `s`. */
  function TrailingCount(s: string, c: char): (n: nat)
    ensures n <= |s|
    ensures forall k :: |s| - n <= k < |s| ==> s[k] == c
    ensures n < |s| ==> s[|s| - 1 - n] != c
  {
    if s == [] || s[|s| - 1] != c then 0 else 1 + TrailingCount(s[..|s| - 1], c)
  }

  /** `n` copies of `c`. */
  function Repeat(c: char, n: nat): (r: string)
    ensures |r| == n && forall k :: 0 <= k < n ==> r[k] == c
  {
    seq(n, _ => c)
  }

  /** No `c` at either end. */
  predicate Clean(s: string, c: char)
  {
    s == [] || (s[0] != c && s[|s| - 1] != c)
  }

  /**
   * Python's `s.strip(c)` for a single character: `s` is the result with
   * some copies of `c` before it and some after it, and the result has no
   * `c` at either end.
   */
  function Strip(s: string, c: char): (r: string)
    ensures Clean(r, c)
    ensures |r| + LeadingCount(s, c) <= |s|
    ensures s == Repeat(c, LeadingCount(s, c)) + r + Repeat(c, |s| - LeadingCount(s, c) - |r|)
  {
    var i := LeadingCount(s, c);
    var j := TrailingCount(s[i..], c);
    StripSplit(s, c, i, j);
    s[i..|s| - j]
  }

  lemma StripSplit(s: string, c: char, i: nat, j: nat)
    requires i == LeadingCount(s, c) && j == TrailingCount(s[i..], c)
    ensures Clean(s[i..|s| - j], c)
    ensures s == Repeat(c, i) + s[i..|s| - j] + Repeat(c, j)
  {
    StripClean(s, c, i, j);
    AllCopies(s[..i], c);
    TrailingRun(s, c, i, j);
    SplitThree(s, i, |s| - j);
  }

  /** The trailing run counted after the leading run is a run of `c` at the end of `s`. */
  lemma TrailingRun(s: string, c: char, i: nat, j: nat)
    requires i <= |s| && j == TrailingCount(s[i..], c)
    ensures s[|s| - j..] == Repeat(c, j)
  {
    assert forall k :: |s| - j <= k < |s| ==> s[i..][k - i] == s[k];
    AllCopies(s[|s| - j..], c);
  }

  /** Cutting at two points and gluing back gives the string. */
  lemma SplitThree(s: string, a: nat, b: nat)
    requires a <= b <= |s|
    ensures s == s[..a] + s[a..b] + s[b..]
  {
  }

  lemma StripClean(s: string, c: char, i: nat, j: nat)
    requires i == LeadingCount(s, c) && j == TrailingCount(s[i..], c)
    ensures Clean(s[i..|s| - j], c)
  {
    var r := s[i..|s| - j];
    assert r != [] ==> r[0] == s[i];
    assert r != [] ==> r[|r| - 1] == s[i..][|s| - i - 1 - j];
  }

  /** A string made only of `c` is a run of `c`. */
  lemma AllCopies(s: string, c: char)
    requires forall k :: 0 <= k < |s| ==> s[k] == c
    ensures s == Repeat(c, |s|)
  {
  }

  /** LeadingCount is pinned down by the first character that is not `c`. */
  lemma {:induction false} LeadingCountAt(s: string, c: char, n: nat)
    requires n <= |s| && (forall k :: 0 <= k < n ==> s[k] == c) && (n < |s| ==> s[n] != c)
    ensures LeadingCount(s, c) == n
  {
    if n > 0 {
      LeadingCountAt(s[1..], c, n - 1);
    }
  }

  /** TrailingCount is pinned down by the last character that is not `c`. */
  lemma {:induction false} TrailingCountAt(s: string, c: char, n: nat)
    requires n <= |s| && (forall k :: |s| - n <= k < |s| ==> s[k] == c) && (n < |s| ==> s[|s| - 1 - n] != c)
    ensures TrailingCount(s, c) == n
  {
    if n > 0 {
      TrailingCountAt(s[..|s| - 1], c, n - 1);
    }
  }

  /**
   * Strip undoes quoting: a clean string with any number of `c` added on
   * each side strips back to itself.
   */
  lemma {:induction false} StripUnquotes(x: string, c: char, left: nat, right: nat)
    requires Clean(x, c)
    ensures Strip(Repeat(c, left) + x + Repeat(c, right), c) == x
  {
    var q := Repeat(c, left) + x + Repeat(c, right);
    if x == [] {
      LeadingCountAt(q, c, |q|);
      assert q[|q|..] == [];
    } else {
      LeadingCountAt(q, c, left);
      var rest := q[left..];
      assert rest == x + Repeat(c, right);
      TrailingCountAt(rest, c, right);
      assert rest[..|rest| - right] == x;
    }
  }

  /** Stripping leaves nothing exactly when the string is made only of `c`. */
  lemma StripEmpty(s: string, c: char)
    ensures Strip(s, c) == [] <==> forall k :: 0 <= k < |s| ==> s[k] == c
  {
    var i := LeadingCount(s, c);
    if Strip(s, c) == [] {
      assert s == Repeat(c, i) + Repeat(c, |s| - i);
    }
    if forall k :: 0 <= k < |s| ==> s[k] == c {
      LeadingCountAt(s, c, |s|);
    }
  }

  /** Stripping twice strips nothing more. */
  lemma {:induction false} StripIdempotent(s: string, c: char)
    ensures Strip(Strip(s, c), c) == Strip(s, c)
  {
    var r := Strip(s, c);
    StripUnquotes(r, c, 0, 0);
    assert Repeat(c, 0) + r + Repeat(c, 0) == r;
  }
}
