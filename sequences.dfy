/** Sequence facts shared by the list transforms of the site: duplicate-free
    lists, first/last occurrence, order-preserving de-duplication (the order in
    which a JavaScript `Set` or a "push unless already there" loop yields
    elements) and subsequences. */
module Sequences {

  predicate Distinct<T(==)>(s: seq<T>) {
    forall i, j :: 0 <= i < j < |s| ==> s[i] != s[j]
  }

  /** Index of the first occurrence of `x` (JavaScript `findIndex` / `indexOf`). */
  function FirstIndex<T(==)>(xs: seq<T>, x: T): (i: nat)
    requires x in xs
    ensures i < |xs| && xs[i] == x && x !in xs[..i]
  {
    if xs[0] == x then 0 else 1 + FirstIndex(xs[1..], x)
  }

  /** Index of the last occurrence of `x`: what a left-to-right loop that
      overwrites `acc[x] = index` leaves behind. */
  function LastIndex<T(==)>(xs: seq<T>, x: T): (i: nat)
    requires x in xs
    ensures i < |xs| && xs[i] == x && x !in xs[i + 1..]
  {
    if xs[|xs| - 1] == x then |xs| - 1 else LastIndex(xs[..|xs| - 1], x)
  }

  /** Keeps the first occurrence of every element, in order of first occurrence. */
  function Dedup<T(==)>(xs: seq<T>): (r: seq<T>)
    ensures Distinct(r)
    ensures forall i :: 0 <= i < |xs| ==> xs[i] in r
    ensures forall i :: 0 <= i < |r| ==> r[i] in xs
    ensures |r| <= |xs|
  {
    if xs == [] then []
    else
      var p := Dedup(xs[..|xs| - 1]);
      assert xs == xs[..|xs| - 1] + [xs[|xs| - 1]];
      if xs[|xs| - 1] in p then p else p + [xs[|xs| - 1]]
  }

  /** One more element: appended exactly when it has not been seen. */
  lemma DedupSnoc<T>(xs: seq<T>, x: T)
    ensures Dedup(xs + [x]) == if x in Dedup(xs) then Dedup(xs) else Dedup(xs) + [x]
  {
    assert (xs + [x])[..|xs|] == xs;
  }

  /** A list without repetitions is its own de-duplication. */
  lemma {:induction false} DedupOfDistinct<T>(xs: seq<T>)
    requires Distinct(xs)
    ensures Dedup(xs) == xs
  {
    if xs != [] {
      var init := xs[..|xs| - 1];
      assert Distinct(init);
      DedupOfDistinct(init);
      assert xs[|xs| - 1] !in init;
    }
  }

  /** Elements already distinct at the front survive in place. */
  lemma {:induction false} DedupKeepsDistinctPrefix<T>(a: seq<T>, b: seq<T>)
    requires Distinct(a)
    ensures |a| <= |Dedup(a + b)| && Dedup(a + b)[..|a|] == a
  {
    if b == [] {
      assert a + b == a;
      DedupOfDistinct(a);
    } else {
      var init, x := b[..|b| - 1], b[|b| - 1];
      assert a + b == (a + init) + [x];
      DedupKeepsDistinctPrefix(a, init);
      DedupSnoc(a + init, x);
      var d := Dedup(a + init);
      if x !in d {
        assert Dedup(a + b) == d + [x];
        assert (d + [x])[..|a|] == d[..|a|];
      }
    }
  }

  /** The survivors keep the order of their first occurrences in the input. */
  lemma {:induction false} DedupFirstOccurrenceOrder<T>(xs: seq<T>)
    ensures forall i, j :: 0 <= i < j < |Dedup(xs)| ==>
              FirstIndex(xs, Dedup(xs)[i]) < FirstIndex(xs, Dedup(xs)[j])
  {
    if xs != [] {
      var init, x := xs[..|xs| - 1], xs[|xs| - 1];
      assert xs == init + [x];
      DedupOfSnoc(init, x);
      DedupFirstOccurrenceOrder(init);
      var p, r := Dedup(init), Dedup(xs);
      forall i, j | 0 <= i < j < |r| ensures FirstIndex(xs, r[i]) < FirstIndex(xs, r[j]) {
        assert r[i] == p[i] && r[i] in init;
        FirstIndexAppend(init, [x], r[i]);
        if j < |p| {
          assert r[j] == p[j] && r[j] in init;
          FirstIndexAppend(init, [x], r[j]);
        } else {
          assert r[j] == x && x !in init;
          FirstIndexAppend(init, [x], x);
        }
      }
    }
  }

  /** `DedupSnoc` for a list given as its front and last element. */
  lemma DedupOfSnoc<T>(init: seq<T>, x: T)
    ensures Dedup(init + [x]) == if x in Dedup(init) then Dedup(init) else Dedup(init) + [x]
    ensures x !in Dedup(init) <==> x !in init
  {
    DedupSnoc(init, x);
  }

  lemma {:induction false} FirstIndexAppend<T>(a: seq<T>, b: seq<T>, x: T)
    requires x in a + b
    ensures x in a ==> FirstIndex(a + b, x) == FirstIndex(a, x)
    ensures x !in a ==> x in b && FirstIndex(a + b, x) == |a| + FirstIndex(b, x)
  {
    if a != [] {
      assert (a + b)[1..] == a[1..] + b;
      if a[0] != x {
        FirstIndexAppend(a[1..], b, x);
      }
    } else {
      assert a + b == b;
    }
  }

  /** `a` is obtained from `b` by deleting elements (order is kept). */
  predicate IsSubsequence<T(==)>(a: seq<T>, b: seq<T>)
    decreases |b|
  {
    if a == [] then true
    else if b == [] then false
    else if a[0] == b[0] then IsSubsequence(a[1..], b[1..])
    else IsSubsequence(a, b[1..])
  }

  /** A subsequence of `c` is a subsequence of `c` with one more element in front. */
  lemma {:induction false} SubsequenceCons<T>(a: seq<T>, c: seq<T>, x: T)
    requires IsSubsequence(a, c)
    ensures IsSubsequence(a, [x] + c)
    decreases |c|, 1
  {
    if a != [] && a[0] == x {
      SubsequenceDropHead(a, c);
      assert ([x] + c)[1..] == c;
    } else if a != [] {
      assert ([x] + c)[1..] == c;
    }
  }

  /** Dropping the first element of a subsequence leaves a subsequence. */
  lemma {:induction false} SubsequenceDropHead<T>(a: seq<T>, c: seq<T>)
    requires a != [] && IsSubsequence(a, c)
    ensures IsSubsequence(a[1..], c)
    decreases |c|, 0
  {
    assert c != [];
    if a[0] == c[0] {
      SubsequenceCons(a[1..], c[1..], c[0]);
      assert [c[0]] + c[1..] == c;
    } else {
      SubsequenceDropHead(a, c[1..]);
      SubsequenceCons(a[1..], c[1..], c[0]);
      assert [c[0]] + c[1..] == c;
    }
  }

  /** Counts the occurrences of `x`. */
  function Count<T(==)>(s: seq<T>, x: T): (n: nat)
    ensures n <= |s|
    ensures n == 0 <==> x !in s
  {
    if s == [] then 0 else (if s[0] == x then 1 else 0) + Count(s[1..], x)
  }

  /** Pigeonhole: a sequence holding every number below `n` has at least `n`
      entries. */
  lemma {:induction false} CoversRange(n: nat, keys: seq<nat>)
    requires forall g :: 0 <= g < n ==> g in keys
    ensures n <= |keys|
  {
    if n > 0 {
      assert n - 1 in keys;
      var p :| 0 <= p < |keys| && keys[p] == n - 1;
      var rest := keys[..p] + keys[p + 1..];
      forall g | 0 <= g < n - 1 ensures g in rest {
        assert g in keys;
        var q :| 0 <= q < |keys| && keys[q] == g;
        if q < p {
          assert rest[q] == g;
        } else {
          assert rest[q - 1] == g;
        }
      }
      CoversRange(n - 1, rest);
    }
  }
}
