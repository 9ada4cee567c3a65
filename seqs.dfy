/** Order-preserving deduplication, the behaviour of `Array.from(new Set(xs))`:
    each distinct element once, at the position of its first occurrence. */
module Seqs {

  predicate NoDup<T(==)>(s: seq<T>) {
    forall i, j :: 0 <= i < j < |s| ==> s[i] != s[j]
  }

  /** Defined from the right: adding one element to the input either adds it
      at the end of the result (first time seen) or changes nothing. */
  function Dedup<T(==)>(xs: seq<T>): (r: seq<T>)
    ensures forall i :: 0 <= i < |r| ==> r[i] in xs
    ensures |r| <= |xs|
  {
    if xs == [] then []
    else
      var init := xs[..|xs| - 1];
      var last := xs[|xs| - 1];
      assert xs == init + [last];
      var r0 := Dedup(init);
      if last in r0 then r0 else r0 + [last]
  }

  /** The result holds exactly the elements of the input. */
  lemma {:induction false} DedupHas<T>(xs: seq<T>, x: T)
    ensures x in Dedup(xs) <==> x in xs
  {
    if xs != [] {
      var init := xs[..|xs| - 1];
      assert xs == init + [xs[|xs| - 1]];
      DedupHas(init, x);
    }
  }

  /** No element occurs twice in the result. */
  lemma {:induction false} DedupNoDup<T>(xs: seq<T>)
    ensures NoDup(Dedup(xs))
  {
    if xs != [] {
      var init := xs[..|xs| - 1];
      assert xs == init + [xs[|xs| - 1]];
      DedupNoDup(init);
    }
  }

  lemma DedupSnoc<T>(xs: seq<T>, x: T)
    ensures Dedup(xs + [x]) == if x in xs then Dedup(xs) else Dedup(xs) + [x]
  {
    assert (xs + [x])[..|xs + [x]| - 1] == xs;
    DedupHas(xs, x);
  }

  /** Deduplicating a longer input only appends to the result. */
  lemma {:induction false} DedupPrefix<T>(a: seq<T>, b: seq<T>)
    ensures |Dedup(a)| <= |Dedup(a + b)|
    ensures Dedup(a + b)[..|Dedup(a)|] == Dedup(a)
    decreases |b|
  {
    if b == [] {
      assert a + b == a;
    } else {
      var b0 := b[..|b| - 1];
      var x := b[|b| - 1];
      assert a + b == (a + b0) + [x];
      DedupPrefix(a, b0);
      DedupSnoc(a + b0, x);
    }
  }

  /** Everything past the deduplicated prefix comes from the appended part
      and was not already in the prefix's input. */
  lemma DedupTail<T>(a: seq<T>, b: seq<T>)
    ensures |Dedup(a)| <= |Dedup(a + b)|
    ensures forall i :: |Dedup(a)| <= i < |Dedup(a + b)| ==>
              Dedup(a + b)[i] in b && Dedup(a + b)[i] !in a
  {
    DedupPrefix(a, b);
    DedupNoDup(a + b);
    var r := Dedup(a + b);
    var p := |Dedup(a)|;
    forall i | p <= i < |r|
      ensures r[i] in b && r[i] !in a
    {
      assert r[i] !in r[..p];
      DedupHas(a, r[i]);
      DedupHas(a + b, r[i]);
    }
  }

  /** An input without duplicates is returned as it is. */
  lemma {:induction false} DedupOfNoDup<T>(xs: seq<T>)
    requires NoDup(xs)
    ensures Dedup(xs) == xs
  {
    if xs != [] {
      var init := xs[..|xs| - 1];
      assert xs == init + [xs[|xs| - 1]];
      assert NoDup(init);
      DedupOfNoDup(init);
      DedupSnoc(init, xs[|xs| - 1]);
    }
  }

  /** When the two parts share no element, deduplicating the concatenation
      is deduplicating each part separately. */
  lemma {:induction false} DedupDisjoint<T>(a: seq<T>, b: seq<T>)
    requires forall x :: x in b ==> x !in a
    ensures Dedup(a + b) == Dedup(a) + Dedup(b)
    decreases |b|
  {
    if b == [] {
      assert a + b == a;
    } else {
      var b0 := b[..|b| - 1];
      var x := b[|b| - 1];
      assert b == b0 + [x];
      assert forall y :: y in b0 ==> y in b;
      DedupDisjoint(a, b0);
      DisjointStep(a, b0, x);
    }
  }

  lemma DisjointStep<T>(a: seq<T>, b0: seq<T>, x: T)
    requires x !in a
    requires Dedup(a + b0) == Dedup(a) + Dedup(b0)
    ensures Dedup(a + (b0 + [x])) == Dedup(a) + Dedup(b0 + [x])
  {
    AppendAssoc(a, b0, [x]);
    DedupSnoc(a + b0, x);
    DedupSnoc(b0, x);
    assert x in a + b0 <==> x in b0;
    AppendAssoc(Dedup(a), Dedup(b0), [x]);
  }

  lemma AppendAssoc<T>(p: seq<T>, q: seq<T>, r: seq<T>)
    ensures (p + q) + r == p + (q + r)
  {
  }
}
