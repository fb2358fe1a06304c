/** The string and optional-value vocabulary the other modules share. */
module Text {
  datatype Option<+T> = None | Some(value: T)

  /** `pat` stands at offset `i` of `s`. */
  predicate At(s: string, pat: string, i: int) {
    0 <= i <= |s| - |pat| && s[i..i + |pat|] == pat
  }

  /** The first offset at or after `from` where `pat` stands, or -1 (`String.indexOf`,
      which clamps `from` to the length of `s`). */
  function IndexOf(s: string, pat: string, from: nat): (r: int)
    ensures r == -1 || (At(s, pat, r) && (from <= r || r == |s|))
    ensures r == -1 ==> forall i | from <= i :: !At(s, pat, i)
    ensures r != -1 ==> forall i | from <= i < r :: !At(s, pat, i)
    decreases |s| - from
  {
    if from >= |s| then
      if pat == "" then |s| else -1
    else if At(s, pat, from) then from
    else IndexOf(s, pat, from + 1)
  }

  predicate Includes(s: string, pat: string) {
    IndexOf(s, pat, 0) != -1
  }

  /** The last offset of the character `c`, or -1 (`String.lastIndexOf`). */
  function LastIndexOf(s: string, c: char): (r: int)
    ensures -1 <= r < |s|
    ensures r == -1 <==> c !in s
    ensures r >= 0 ==> s[r] == c && c !in s[r + 1..]
  {
    if s == "" then -1
    else if s[|s| - 1] == c then |s| - 1
    else
      assert s == s[..|s| - 1] + [s[|s| - 1]];
      LastIndexOf(s[..|s| - 1], c)
  }

  lemma LastIndexOfSplit(a: string, b: string, c: char)
    requires c !in b
    ensures LastIndexOf(a + [c] + b, c) == |a|
    ensures (a + [c] + b)[|a| + 1..] == b
  {
    var s := a + [c] + b;
    var r := LastIndexOf(s, c);
    assert s[|a|] == c && s[|a| + 1..] == b;
  }

  predicate StartsWith(s: string, pre: string) {
    |pre| <= |s| && s[..|pre|] == pre
  }

  function Count(s: string, c: char): nat {
    if s == "" then 0 else (if s[0] == c then 1 else 0) + Count(s[1..], c)
  }

  lemma {:induction false} CountConcat(a: string, b: string, c: char)
    ensures Count(a + b, c) == Count(a, c) + Count(b, c)
  {
    if a == "" {
      assert a + b == b;
    } else {
      assert (a + b)[1..] == a[1..] + b;
      CountConcat(a[1..], b, c);
    }
  }

  lemma {:induction false} CountZero(a: string, c: char)
    ensures Count(a, c) == 0 <==> c !in a
  {
    if a != "" {
      CountZero(a[1..], c);
      assert a == [a[0]] + a[1..];
    }
  }
}
