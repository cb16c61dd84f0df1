/**
  * String.prototype.trim, which every input path of the to-do list applies
  * before validating a task name or a due date.
  */
module Text {

  /** The ECMAScript WhiteSpace and LineTerminator code points that trim removes. */
  predicate IsSpace(c: char) {
    var n := c as int;
    n == 0x09 || n == 0x0A || n == 0x0B || n == 0x0C || n == 0x0D || n == 0x20
    || n == 0xA0 || n == 0x1680 || (0x2000 <= n <= 0x200A) || n == 0x2028
    || n == 0x2029 || n == 0x202F || n == 0x205F || n == 0x3000 || n == 0xFEFF
  }

  predicate AllSpace(s: string) {
    forall i :: 0 <= i < |s| ==> IsSpace(s[i])
  }

  /** The first `n` characters of `s` are white space. */
  predicate SpaceBefore(s: string, n: nat)
    requires n <= |s|
  {
    forall k :: 0 <= k < n ==> IsSpace(s[k])
  }

  /** The characters of `s` from index `n` on are white space. */
  predicate SpaceFrom(s: string, n: nat)
    requires n <= |s|
  {
    forall k :: n <= k < |s| ==> IsSpace(s[k])
  }

  /** Where the text starts once the white space from index `i` on is skipped. */
  function StartIndex(s: string, i: nat): (k: nat)
    requires i <= |s|
    ensures i <= k <= |s|
    ensures forall m :: i <= m < k ==> IsSpace(s[m])
    ensures k < |s| ==> !IsSpace(s[k])
    decreases |s| - i
  {
    if i < |s| && IsSpace(s[i]) then StartIndex(s, i + 1) else i
  }

  /** Where the text ends once the white space before index `j`, down to `lo`, is dropped. */
  function EndIndex(s: string, lo: nat, j: nat): (k: nat)
    requires lo <= j <= |s|
    ensures lo <= k <= j
    ensures forall m :: k <= m < j ==> IsSpace(s[m])
    ensures k > lo ==> !IsSpace(s[k - 1])
  {
    if j > lo && IsSpace(s[j - 1]) then EndIndex(s, lo, j - 1) else j
  }

  /** `s.trim()`: what is left once the white space at both ends is removed. */
  function Trim(s: string): (r: string)
    ensures |r| <= |s|
    ensures r != [] ==> !IsSpace(r[0]) && !IsSpace(r[|r| - 1])
  {
    var i := StartIndex(s, 0);
    s[i..EndIndex(s, i, |s|)]
  }

  /** What trim keeps is the infix of `s` between its leading and its trailing white space. */
  lemma TrimInfix(s: string)
    ensures exists i, j :: 0 <= i <= j <= |s| && Trim(s) == s[i..j] && SpaceBefore(s, i) && SpaceFrom(s, j)
  {
    var i := StartIndex(s, 0);
    var j := EndIndex(s, i, |s|);
    assert SpaceBefore(s, i) && SpaceFrom(s, j);
  }

  /** A name that trims to empty is exactly a name made only of white space. */
  lemma {:induction false} TrimEmptyIff(s: string)
    ensures Trim(s) == "" <==> AllSpace(s)
  {
    var r := Trim(s);
    TrimInfix(s);
    var i, j :| 0 <= i <= j <= |s| && r == s[i..j] && SpaceBefore(s, i) && SpaceFrom(s, j);
    if r == "" {
      assert i == j;
    } else {
      assert !IsSpace(s[i]) by { assert r[0] == s[i]; }
    }
  }

  /** Trimming an already trimmed text changes nothing. */
  lemma TrimIdempotent(s: string)
    ensures Trim(Trim(s)) == Trim(s)
  {
    var r := Trim(s);
    if r != [] {
      assert StartIndex(r, 0) == 0;
      assert EndIndex(r, 0, |r|) == |r|;
    }
  }
}
