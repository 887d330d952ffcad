/**
 Where one string occurs in another, as `indexOf` and `lastIndexOf` find it: the first place or the last one, and
 -1 when there is none at all.
 */
module Strings {
  predicate OccursAt(s: string, t: string, i: int) {
    0 <= i <= |s| - |t| && s[i..i + |t|] == t
  }

  function LastIndexFrom(s: string, t: string, i: int): (r: int)
    requires i <= |s| - |t|
    ensures -1 <= r && (r >= 0 ==> OccursAt(s, t, r))
    ensures forall k | r < k <= i :: !OccursAt(s, t, k)
    decreases i + 1
  {
    if i < 0 then -1 else if OccursAt(s, t, i) then i else LastIndexFrom(s, t, i - 1)
  }

  function LastIndexOf(s: string, t: string): (r: int)
    ensures -1 <= r && (r >= 0 ==> OccursAt(s, t, r))
    ensures forall k | r < k :: !OccursAt(s, t, k)
  {
    LastIndexFrom(s, t, |s| - |t|)
  }

  function IndexFrom(s: string, t: string, i: int): (r: int)
    requires 0 <= i
    ensures -1 <= r && (r >= 0 ==> i <= r && OccursAt(s, t, r))
    ensures forall k | i <= k && (r < 0 || k < r) :: !OccursAt(s, t, k)
    decreases |s| - i
  {
    if i > |s| - |t| then -1 else if OccursAt(s, t, i) then i else IndexFrom(s, t, i + 1)
  }

  function IndexOf(s: string, t: string): (r: int)
    ensures -1 <= r && (r >= 0 ==> OccursAt(s, t, r))
    ensures forall k | 0 <= k && (r < 0 || k < r) :: !OccursAt(s, t, k)
  {
    IndexFrom(s, t, 0)
  }

  lemma {:induction false} IndexIs(s: string, t: string, i: int)
    requires OccursAt(s, t, i) && forall k | 0 <= k < i :: !OccursAt(s, t, k)
    ensures IndexOf(s, t) == i
  {
  }

  lemma {:induction false} LastIndexIs(s: string, t: string, i: int)
    requires OccursAt(s, t, i) && forall k | i < k :: !OccursAt(s, t, k)
    ensures LastIndexOf(s, t) == i
  {
  }

  /** A single character occurs where it stands. */
  lemma {:induction false} OneOccurs(s: string, c: char, i: int)
    ensures OccursAt(s, [c], i) <==> 0 <= i < |s| && s[i] == c
  {
    if 0 <= i < |s| {
      assert s[i..i + 1] == [s[i]];
    }
  }
}
