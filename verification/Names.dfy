/** Names as NUL-terminated signed characters, and the order the address book sorts by. */
module Names {

  /** A `char`, which is signed. */
  type schar = x: int | -128 <= x < 128

  /** The characters of a C string: no NUL among them. */
  type Name = s: seq<schar> | 0 !in s

  /** The string held in a buffer: everything before the first NUL. */
  function CString(buffer: seq<schar>): (r: Name)
    requires 0 in buffer
    ensures |r| < |buffer| && r == buffer[..|r|] && buffer[|r|] == 0
  {
    if buffer[0] == 0 then [] else [buffer[0]] + CString(buffer[1..])
  }

  /** The first character, where the end of the string reads as the value 0. */
  function First(s: Name): schar {
    if s == [] then 0 else s[0]
  }

  /** -1, 0 or 1 as `s` is smaller than, equal to or greater than `t`. */
  function Compare(s: Name, t: Name): int
    decreases |s|
  {
    if s == t then 0
    else if First(s) < First(t) then -1
    else if First(s) > First(t) then 1
    else Compare(s[1..], t[1..])
  }

  /** The order agrees with string equality and is antisymmetric. */
  lemma {:induction false} CompareSigns(s: Name, t: Name)
    ensures Compare(s, t) in {-1, 0, 1}
    ensures Compare(s, t) == 0 <==> s == t
    ensures Compare(t, s) == -Compare(s, t)
    decreases |s|
  {
    if s != t && First(s) == First(t) {
      CompareSigns(s[1..], t[1..]);
      assert s == [s[0]] + s[1..] && t == [t[0]] + t[1..];
    }
  }

  lemma {:induction false} CompareTransitive(s: Name, t: Name, u: Name)
    requires Compare(s, t) <= 0 && Compare(t, u) <= 0
    ensures Compare(s, u) <= 0
    ensures Compare(s, t) < 0 || Compare(t, u) < 0 ==> Compare(s, u) < 0
    decreases |s|
  {
    if s != t && t != u {
      if First(s) == First(t) == First(u) {
        CompareTransitive(s[1..], t[1..], u[1..]);
      }
      CompareSigns(s, u);
      CompareSigns(s, t);
      CompareSigns(t, u);
    }
  }

  /** Character `i` of a string, with 0 at its end. */
  function CharAt(s: Name, i: nat): schar
    requires i <= |s|
  {
    if i == |s| then 0 else s[i]
  }

  /** Smaller means: equal up to some position, where it has the smaller character. */
  lemma {:induction false} CompareIsFirstDifference(s: Name, t: Name)
    ensures Compare(s, t) < 0 <==>
      exists k: nat :: k <= |s| && k <= |t| && s[..k] == t[..k] && CharAt(s, k) < CharAt(t, k)
    decreases |s|
  {
    if s != t && First(s) == First(t) {
      CompareIsFirstDifference(s[1..], t[1..]);
      if k: nat :|
        && k <= |s[1..]| && k <= |t[1..]|
        && s[1..][..k] == t[1..][..k] && CharAt(s[1..], k) < CharAt(t[1..], k)
      {
        assert s[..k + 1] == [s[0]] + s[1..][..k] && t[..k + 1] == [t[0]] + t[1..][..k];
        assert CharAt(s, k + 1) < CharAt(t, k + 1);
      }
      if k: nat :| k <= |s| && k <= |t| && s[..k] == t[..k] && CharAt(s, k) < CharAt(t, k) {
        assert k > 0;
        assert s[1..][..k - 1] == s[..k][1..] && t[1..][..k - 1] == t[..k][1..];
        assert CharAt(s[1..], k - 1) < CharAt(t[1..], k - 1);
      }
    } else if s != t {
      assert s[..0] == t[..0];
      forall k: nat | 0 < k <= |s| && k <= |t|
        ensures s[..k] != t[..k]
      {
        assert s[..k][0] != t[..k][0];
      }
    }
  }

  /** compare_name, on the raw buffers: the loop ends at the first difference. */
  method CompareName(lhs: seq<schar>, rhs: seq<schar>) returns (r: int)
    requires 0 in lhs && 0 in rhs
    ensures r == Compare(CString(lhs), CString(rhs))
  {
    if CString(lhs) == CString(rhs) {
      return 0;
    }
    var i := 0;
    while true
      invariant 0 <= i < |lhs| && i < |rhs| && 0 in lhs[i..] && 0 in rhs[i..]
      invariant CString(lhs[i..]) != CString(rhs[i..])
      invariant Compare(CString(lhs), CString(rhs)) == Compare(CString(lhs[i..]), CString(rhs[i..]))
      decreases |lhs| - i
    {
      ghost var s, t := CString(lhs[i..]), CString(rhs[i..]);
      assert lhs[i..][0] == First(s) && rhs[i..][0] == First(t);
      if lhs[i] < rhs[i] {
        return -1;
      } else if lhs[i] > rhs[i] {
        return 1;
      }
      assert lhs[i..][1..] == lhs[i + 1..] && rhs[i..][1..] == rhs[i + 1..];
      assert lhs[i] != 0;
      i := i + 1;
      assert s == [s[0]] + CString(lhs[i..]) && t == [t[0]] + CString(rhs[i..]);
    }
  }
}
