/** Generic helpers over sequences: the "filter, then take the first element"
    and "filter, then count" shapes that the record-store queries use, and
    Python's substring test on strings. */
module Seqs {

  datatype Option<T> = None | Some(value: T)

  /** `k` is the position of the first element of `s` that satisfies `p`. */
  ghost predicate IsFirst<T>(s: seq<T>, k: int, p: T -> bool)
  {
    0 <= k < |s| && p(s[k]) && forall j :: 0 <= j < k ==> !p(s[j])
  }

  /** The position of the element that `[x for x in s if p(x)][0]` picks,
      or None when that list is empty. */
  function FirstIndex<T>(s: seq<T>, p: T -> bool): (r: Option<nat>)
    ensures r.Some? ==> IsFirst(s, r.value, p)
    ensures r.None? <==> forall j :: 0 <= j < |s| ==> !p(s[j])
    ensures forall k :: IsFirst(s, k, p) ==> r == Some(k)
    decreases |s|
  {
    if s == [] then None
    else if p(s[0]) then Some(0)
    else match FirstIndex(s[1..], p)
      case None => None
      case Some(k) => Some(k + 1)
  }

  /** Two filters that agree element by element pick the same position. */
  lemma {:induction false} FirstIndexAgrees<T, U>(s: seq<T>, p: T -> bool, t: seq<U>, q: U -> bool)
    requires |s| == |t|
    requires forall i :: 0 <= i < |s| ==> p(s[i]) == q(t[i])
    ensures FirstIndex(s, p) == FirstIndex(t, q)
    decreases |s|
  {
    if s != [] && !p(s[0]) {
      assert forall i :: 0 <= i < |s| - 1 ==> s[1..][i] == s[i + 1] && t[1..][i] == t[i + 1];
      FirstIndexAgrees(s[1..], p, t[1..], q);
    }
  }

  /** `len([x for x in s if p(x)])`. */
  function CountWhere<T>(s: seq<T>, p: T -> bool): (n: nat)
    ensures n <= |s|
    ensures n == 0 <==> forall j :: 0 <= j < |s| ==> !p(s[j])
    decreases |s|
  {
    if s == [] then 0
    else (if p(s[0]) then 1 else 0) + CountWhere(s[1..], p)
  }

  /** Exactly one match, and it sits at position `k`. */
  lemma {:induction false} CountIsOneIffOnlyMatch<T>(s: seq<T>, p: T -> bool, k: int)
    requires 0 <= k < |s| && p(s[k])
    ensures CountWhere(s, p) == 1 <==> forall j :: 0 <= j < |s| && j != k ==> !p(s[j])
    decreases |s|
  {
    if k == 0 {
      assert forall j :: 1 <= j < |s| ==> s[j] == s[1..][j - 1];
    } else {
      CountIsOneIffOnlyMatch(s[1..], p, k - 1);
      assert forall j :: 1 <= j < |s| ==> s[j] == s[1..][j - 1];
    }
  }

  /** Python's `sub in s` on two strings. */
  predicate HasSubstring(s: string, sub: string)
    decreases |s|
  {
    (|sub| <= |s| && s[..|sub|] == sub) || (|s| > 0 && HasSubstring(s[1..], sub))
  }

  /** `sub` occurs in `s` at offset `i`. */
  predicate OccursAt(s: string, sub: string, i: int)
  {
    0 <= i && i + |sub| <= |s| && s[i..i + |sub|] == sub
  }

  /** An occurrence at some offset makes `sub in s` hold. */
  lemma {:induction false} HasSubstringAt(s: string, sub: string, i: int)
    requires OccursAt(s, sub, i)
    ensures HasSubstring(s, sub)
    decreases i
  {
    if i > 0 {
      assert s[1..][i - 1..i - 1 + |sub|] == s[i..i + |sub|];
      HasSubstringAt(s[1..], sub, i - 1);
    }
  }

  /** Conversely, `sub in s` holds only when `sub` occurs at some offset. */
  lemma {:induction false} HasSubstringOnlyAt(s: string, sub: string)
    requires HasSubstring(s, sub)
    ensures exists i :: OccursAt(s, sub, i)
    decreases |s|
  {
    if |sub| <= |s| && s[..|sub|] == sub {
      assert OccursAt(s, sub, 0);
    } else {
      HasSubstringOnlyAt(s[1..], sub);
      var i :| OccursAt(s[1..], sub, i);
      assert s[1..][i..i + |sub|] == s[i + 1..i + 1 + |sub|];
      assert OccursAt(s, sub, i + 1);
    }
  }
}
