/**
 * Array#uniq and Array#compact, the two list operations the skeleton
 * directory list goes through.
 */
module Lists {

  import opened Wrappers

  predicate Distinct<T(==)>(xs: seq<T>) {
    forall i, j :: 0 <= i < j < |xs| ==> xs[i] != xs[j]
  }

  /** Position of the first occurrence of `x` in `xs`. */
  function FirstIndex<T(==)>(xs: seq<T>, x: T): (i: nat)
    requires x in xs
    ensures i < |xs| && xs[i] == x && x !in xs[..i]
  {
    if xs[0] == x then 0
    else
      var k := FirstIndex(xs[1..], x);
      assert xs[1..][..k] == xs[1..k + 1];
      1 + k
  }

  lemma FirstIndexPrefix<T>(a: seq<T>, b: seq<T>, x: T)
    requires x in a
    ensures x in a + b && FirstIndex(a + b, x) == FirstIndex(a, x)
  {
    var j := FirstIndex(a, x);
    assert (a + b)[j] == x;
    assert (a + b)[..j] == a[..j];
  }

  /** The elements of `ys` all occur in `xs`, and in the order of their first occurrences there. */
  ghost predicate InFirstOrder<T>(ys: seq<T>, xs: seq<T>) {
    forall i, j :: 0 <= i < j < |ys| ==> ys[i] in xs && ys[j] in xs && FirstIndex(xs, ys[i]) < FirstIndex(xs, ys[j])
  }

  /** Array#uniq: first occurrences, in order. */
  function Uniq<T(==)>(xs: seq<T>): seq<T>
    decreases |xs|
  {
    if xs == [] then []
    else
      var u := Uniq(xs[..|xs| - 1]);
      if xs[|xs| - 1] in u then u else u + [xs[|xs| - 1]]
  }

  /** Array#compact: the list without its nils. */
  function Compact<T>(xs: seq<Option<T>>): seq<T>
    decreases |xs|
  {
    if xs == [] then []
    else
      var c := Compact(xs[..|xs| - 1]);
      match xs[|xs| - 1]
      case None => c
      case Some(x) => c + [x]
  }

  /**
   * uniq keeps every element exactly once, and the kept elements appear in
   * the order of their first occurrences.
   */
  lemma {:induction false} UniqSpec<T>(xs: seq<T>)
    ensures Distinct(Uniq(xs))
    ensures forall x :: x in Uniq(xs) ==> x in xs
    ensures forall x :: x in xs ==> x in Uniq(xs)
    ensures InFirstOrder(Uniq(xs), xs)
    decreases |xs|
  {
    if xs != [] {
      var init, x := xs[..|xs| - 1], xs[|xs| - 1];
      assert xs == init + [x];
      UniqSpec(init);
      var u := Uniq(init);
      forall y | y in u ensures FirstIndex(xs, y) == FirstIndex(init, y) {
        assert y in init;
        FirstIndexPrefix(init, [x], y);
      }
      if x !in u {
        assert FirstIndex(xs, x) == |init|;
        var v := u + [x];
        forall i, j | 0 <= i < j < |v| ensures FirstIndex(xs, v[i]) < FirstIndex(xs, v[j]) {
          if j < |u| {
            assert v[i] == u[i] && v[j] == u[j];
          }
        }
      }
    }
  }

  /** compact keeps exactly the non-nil elements. */
  lemma {:induction false} CompactSpec<T>(xs: seq<Option<T>>)
    ensures forall x :: x in Compact(xs) ==> Some(x) in xs
    ensures forall x :: Some(x) in xs ==> x in Compact(xs)
    ensures |Compact(xs)| <= |xs|
    decreases |xs|
  {
    if xs != [] {
      var init := xs[..|xs| - 1];
      assert xs == init + [xs[|xs| - 1]];
      CompactSpec(init);
    }
  }

  /** compact works part by part, so it keeps the order of what it keeps. */
  lemma {:induction false} CompactAppend<T>(a: seq<Option<T>>, b: seq<Option<T>>)
    ensures Compact(a + b) == Compact(a) + Compact(b)
    decreases |b|
  {
    if b != [] {
      var init := b[..|b| - 1];
      assert (a + b)[..|a + b| - 1] == a + init;
      CompactAppend(a, init);
    } else {
      assert a + b == a;
    }
  }

  /** Dropping nils after uniq gives the same list as dropping them before. */
  lemma {:induction false} CompactUniq<T>(xs: seq<Option<T>>)
    ensures Compact(Uniq(xs)) == Uniq(Compact(xs))
    decreases |xs|
  {
    if xs != [] {
      var init, x := xs[..|xs| - 1], xs[|xs| - 1];
      CompactUniq(init);
      var u := Uniq(init);
      CompactAppend(u, [x]);
      if x.Some? {
        var c := Compact(init);
        assert Compact(xs) == c + [x.value];
        assert (c + [x.value])[..|c|] == c;
        CompactSpec(u);
        UniqSpec(init);
      }
    }
  }

  /**
   * uniq then compact: each non-nil element once, in the order of first
   * occurrence among the non-nil elements.
   */
  lemma CompactUniqSpec<T>(xs: seq<Option<T>>)
    ensures Distinct(Compact(Uniq(xs)))
    ensures forall x :: x in Compact(Uniq(xs)) ==> Some(x) in xs
    ensures forall x :: Some(x) in xs ==> x in Compact(Uniq(xs))
    ensures InFirstOrder(Compact(Uniq(xs)), Compact(xs))
  {
    CompactUniq(xs);
    UniqSpec(Compact(xs));
    CompactSpec(xs);
  }
}
