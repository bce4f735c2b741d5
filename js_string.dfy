/** `String.prototype.trim`: white space and line terminators (in the sense
    of sections 12.2 and 12.3 of ECMA-262) are removed from both ends. */
module JsString {

  /** WhiteSpace or LineTerminator code points. */
  predicate IsSpace(c: char)
  {
    var n := c as int;
    n == 0x09 || n == 0x0A || n == 0x0B || n == 0x0C || n == 0x0D || n == 0x20
    || n == 0xA0 || n == 0x1680 || (0x2000 <= n <= 0x200A) || n == 0x2028 || n == 0x2029
    || n == 0x202F || n == 0x205F || n == 0x3000 || n == 0xFEFF
  }

  /** The first index at or after `i` whose character is not white space,
      or `|s|` when there is none. */
  function SkipSpace(s: string, i: nat): (k: nat)
    requires i <= |s|
    ensures i <= k <= |s|
    ensures forall j :: i <= j < k ==> IsSpace(s[j])
    ensures k == |s| || !IsSpace(s[k])
    decreases |s| - i
  {
    if i == |s| || !IsSpace(s[i]) then i else SkipSpace(s, i + 1)
  }

  /** Walking back from `j` to no further than `lo`: the index just past the
      last character that is not white space, or `lo` when there is none. */
  function SkipSpaceBack(s: string, lo: nat, j: nat): (e: nat)
    requires lo <= j <= |s|
    ensures lo <= e <= j
    ensures forall m :: e <= m < j ==> IsSpace(s[m])
    ensures e == lo || !IsSpace(s[e - 1])
    decreases j - lo
  {
    if j == lo || !IsSpace(s[j - 1]) then j else SkipSpaceBack(s, lo, j - 1)
  }

  /** `s.trim()` */
  function Trim(s: string): (r: string)
    ensures r == [] || (!IsSpace(r[0]) && !IsSpace(r[|r| - 1]))
    ensures var k := SkipSpace(s, 0);
      && k + |r| <= |s| && r == s[k..k + |r|]
      && forall i :: 0 <= i < |s| && (i < k || k + |r| <= i) ==> IsSpace(s[i])
  {
    var k := SkipSpace(s, 0);
    s[k..SkipSpaceBack(s, k, |s|)]
  }

  /** Opposite ends of a run of white space determine where skipping stops. */
  lemma SkipSpaceIs(s: string, i: nat, k: nat)
    requires i <= k <= |s|
    requires forall j :: i <= j < k ==> IsSpace(s[j])
    requires k == |s| || !IsSpace(s[k])
    ensures SkipSpace(s, i) == k
  {
  }

  lemma SkipSpaceBackIs(s: string, lo: nat, j: nat, e: nat)
    requires lo <= e <= j <= |s|
    requires forall m :: e <= m < j ==> IsSpace(s[m])
    requires e == lo || !IsSpace(s[e - 1])
    ensures SkipSpaceBack(s, lo, j) == e
  {
  }

  /** The trim is the one piece of `s` with no white space at its ends and
      only white space around it. */
  lemma TrimUnique(s: string, k: nat, e: nat)
    requires k <= e <= |s|
    requires forall j :: 0 <= j < |s| && (j < k || e <= j) ==> IsSpace(s[j])
    requires k < e ==> !IsSpace(s[k]) && !IsSpace(s[e - 1])
    ensures Trim(s) == s[k..e]
  {
    if k < e {
      SkipSpaceIs(s, 0, k);
      SkipSpaceBackIs(s, k, |s|, e);
    } else {
      SkipSpaceIs(s, 0, |s|);
    }
  }

  /** A string with no white space at either end is its own trim. */
  lemma TrimOfTrimmed(s: string)
    requires s == [] || (!IsSpace(s[0]) && !IsSpace(s[|s| - 1]))
    ensures Trim(s) == s
  {
    TrimUnique(s, 0, |s|);
    assert s[0..|s|] == s;
  }

  /** Trimming twice is trimming once. */
  lemma TrimIdempotent(s: string)
    ensures Trim(Trim(s)) == Trim(s)
  {
    TrimOfTrimmed(Trim(s));
  }

  /** Padding of spaces on either side makes no difference to the trimmed value. */
  lemma TrimIgnoresPadding(s: string)
    ensures Trim([' '] + s + [' ']) == Trim(s)
  {
    var p := [' '] + s + [' '];
    var k := SkipSpace(s, 0);
    var e := k + |Trim(s)|;
    assert |p| == |s| + 2 && p[0] == ' ' && p[|s| + 1] == ' ';
    assert forall j :: 1 <= j <= |s| ==> p[j] == s[j - 1];
    assert IsSpace(' ');
    forall j | 0 <= j < |p| && (j < k + 1 || e + 1 <= j)
      ensures IsSpace(p[j])
    {
      if 1 <= j <= |s| { assert IsSpace(s[j - 1]); }
    }
    TrimUnique(p, k + 1, e + 1);
    PaddedSlice(s, k, e);
  }

  lemma PaddedSlice(s: string, k: nat, e: nat)
    requires k <= e <= |s|
    ensures ([' '] + s + [' '])[k + 1..e + 1] == s[k..e]
  {
    var p := [' '] + s + [' '];
    assert forall j :: 0 <= j < e - k ==> p[k + 1..e + 1][j] == s[k..e][j];
  }
}
