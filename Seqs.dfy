/**
 * Order-preserving de-duplication, the `seen`-set idiom the source repeats in
 * several places: keep an element the first time it is met, drop it afterwards.
 */
module Seqs {

  predicate NoDup<T(==)>(s: seq<T>) {
    forall i, j | 0 <= i < j < |s| :: s[i] != s[j]
  }

  /**
   * The first occurrences of the elements of `s`, in the order they are met.
   * Defined by growing the input one element at a time, as a loop over it does.
   */
  function Dedup<T(==)>(s: seq<T>): seq<T> {
    if |s| == 0 then []
    else
      var d := Dedup(s[..|s| - 1]);
      if s[|s| - 1] in d then d else d + [s[|s| - 1]]
  }

  /** The position of the first occurrence of `x` in `s`. */
  function FirstIndex<T(==)>(s: seq<T>, x: T): (k: nat)
    requires x in s
    ensures k < |s| && s[k] == x && x !in s[..k]
  {
    if s[0] == x then 0 else 1 + FirstIndex(s[1..], x)
  }

  /** De-duplication keeps exactly the elements of the input. */
  lemma {:induction false} DedupElements<T>(s: seq<T>)
    ensures forall x :: x in Dedup(s) <==> x in s
  {
    if |s| > 0 {
      var p := s[..|s| - 1];
      DedupElements(p);
      assert s == p + [s[|s| - 1]];
    }
  }

  /** De-duplication leaves no element twice. */
  lemma {:induction false} DedupNoDup<T>(s: seq<T>)
    ensures NoDup(Dedup(s))
  {
    if |s| > 0 {
      DedupNoDup(s[..|s| - 1]);
    }
  }

  /** The kept elements come in the order of their first occurrences in the input. */
  lemma {:induction false} DedupFirstOccurrenceOrder<T>(s: seq<T>)
    ensures forall i, j | 0 <= i < j < |Dedup(s)| ::
      Dedup(s)[i] in s && Dedup(s)[j] in s && FirstIndex(s, Dedup(s)[i]) < FirstIndex(s, Dedup(s)[j])
  {
    DedupElements(s);
    if |s| > 0 {
      var p := s[..|s| - 1];
      var x := s[|s| - 1];
      DedupFirstOccurrenceOrder(p);
      DedupElements(p);
      assert s == p + [x];
      var d := Dedup(s);
      forall y | y in p
        ensures FirstIndex(s, y) == FirstIndex(p, y)
      {
        FirstIndexPrefix(p, [x], y);
      }
      var dp := Dedup(p);
      if x !in dp {
        assert x !in p;
        FirstIndexLast(p, x);
        assert d == dp + [x];
        forall i, j | 0 <= i < j < |d|
          ensures FirstIndex(s, d[i]) < FirstIndex(s, d[j])
        {
          DedupMember(p, i);
          if j < |dp| {
            assert d[j] == dp[j];
          }
        }
      }
    }
  }

  lemma DedupMember<T>(p: seq<T>, i: nat)
    requires i < |Dedup(p)|
    ensures Dedup(p)[i] in p
  {
    DedupElements(p);
    assert Dedup(p)[i] in Dedup(p);
  }

  lemma {:induction false} FirstIndexPrefix<T>(p: seq<T>, q: seq<T>, y: T)
    requires y in p
    ensures FirstIndex(p + q, y) == FirstIndex(p, y)
  {
    if p[0] != y {
      assert (p + q)[1..] == p[1..] + q;
      FirstIndexPrefix(p[1..], q, y);
    }
  }

  lemma {:induction false} FirstIndexLast<T>(p: seq<T>, x: T)
    requires x !in p
    ensures FirstIndex(p + [x], x) == |p|
  {
    if |p| > 0 {
      assert (p + [x])[1..] == p[1..] + [x];
      FirstIndexLast(p[1..], x);
    }
  }

  /** On a sequence without duplicates de-duplication is the identity. */
  lemma {:induction false} DedupOfNoDup<T>(s: seq<T>)
    requires NoDup(s)
    ensures Dedup(s) == s
  {
    if |s| > 0 {
      var p := s[..|s| - 1];
      DedupOfNoDup(p);
      assert s == p + [s[|s| - 1]];
    }
  }

  /** De-duplicating twice is the same as de-duplicating once. */
  lemma DedupIdempotent<T>(s: seq<T>)
    ensures Dedup(Dedup(s)) == Dedup(s)
  {
    DedupNoDup(s);
    DedupOfNoDup(Dedup(s));
  }

  /** One step of the usual loop: append `x` unless it has been seen. */
  lemma DedupSnoc<T>(s: seq<T>, x: T)
    ensures Dedup(s + [x]) == if x in Dedup(s) then Dedup(s) else Dedup(s) + [x]
  {
    assert (s + [x])[..|s + [x]| - 1] == s;
  }

  /** `a` is `b` with some elements left out, the rest in their order. */
  predicate IsSubsequence<T(==)>(a: seq<T>, b: seq<T>)
    decreases |b|
  {
    if |a| == 0 then true
    else if |b| == 0 then false
    else (a[|a| - 1] == b[|b| - 1] && IsSubsequence(a[..|a| - 1], b[..|b| - 1])) || IsSubsequence(a, b[..|b| - 1])
  }

  lemma IsSubsequenceKeep<T>(a: seq<T>, b: seq<T>, x: T)
    requires IsSubsequence(a, b)
    ensures IsSubsequence(a + [x], b + [x])
  {
    assert (a + [x])[..|a|] == a;
    assert (b + [x])[..|b|] == b;
  }

  lemma IsSubsequenceSkip<T>(a: seq<T>, b: seq<T>, x: T)
    requires IsSubsequence(a, b)
    ensures IsSubsequence(a, b + [x])
  {
    assert (b + [x])[..|b|] == b;
  }
}
