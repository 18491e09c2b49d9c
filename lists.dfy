/** Duplicate-free lists in first-seen order. The certificate code builds such
    lists by appending a value only when no element with the same key is already
    present (`appendEKU`, and `containString` / `containsIP` before an append).
    `DedupBy` is an independent reference definition of the same list, and
    `DedupBySnoc` connects the two. */
module Lists {

  function Id<T>(x: T): T { x }

  /** Some element of xs has key k. */
  predicate Occurs<T(==), K(==)>(xs: seq<T>, k: K, key: T -> K)
  {
    exists y :: y in xs && key(y) == k
  }

  /** Growing a prefix by one element. */
  lemma PrefixSnoc<T>(xs: seq<T>, i: nat)
    requires i < |xs|
    ensures xs[..i + 1] == xs[..i] + [xs[i]]
  {
  }

  /** The i-th element is the last one that satisfies p. */
  ghost predicate IsLastWhere<T>(xs: seq<T>, p: T -> bool, i: int)
  {
    0 <= i < |xs| && p(xs[i]) && forall j :: i < j < |xs| ==> !p(xs[j])
  }

  /** When some element satisfies p, one of them is the last. */
  lemma {:induction false} LastWhereExists<T>(xs: seq<T>, p: T -> bool)
    requires exists i :: 0 <= i < |xs| && p(xs[i])
    ensures exists i :: IsLastWhere(xs, p, i)
  {
    var init := xs[..|xs| - 1];
    if p(xs[|xs| - 1]) {
      assert IsLastWhere(xs, p, |xs| - 1);
    } else {
      var k :| 0 <= k < |xs| && p(xs[k]);
      assert init[k] == xs[k];
      LastWhereExists(init, p);
      var i :| IsLastWhere(init, p, i);
      assert IsLastWhere(xs, p, i);
    }
  }

  /** Splitting off the last element of the tail, with or without an inserted x. */
  lemma InsertSnoc<T>(before: seq<T>, x: T, after: seq<T>)
    requires after != []
    ensures var init, last := after[..|after| - 1], after[|after| - 1];
      before + [x] + after == (before + [x] + init) + [last] && before + after == (before + init) + [last]
  {
    assert after == after[..|after| - 1] + [after[|after| - 1]];
  }

  lemma OccursId<T>(xs: seq<T>, x: T)
    ensures Occurs(xs, x, Id) <==> x in xs
  {
    if x in xs {
      assert Id(x) == x;
    }
  }

  /** No two elements of xs share a key. */
  predicate NoDupBy<T(==), K(==)>(xs: seq<T>, key: T -> K)
  {
    forall i, j :: 0 <= i < j < |xs| ==> key(xs[i]) != key(xs[j])
  }

  /** Appends x unless an element with the same key is already present. */
  function AppendAbsent<T(==), K(==)>(xs: seq<T>, x: T, key: T -> K): (r: seq<T>)
    ensures Occurs(r, key(x), key)
    ensures NoDupBy(xs, key) ==> NoDupBy(r, key)
    ensures forall y :: y in r ==> y in xs || (y == x && !Occurs(xs, key(x), key))
    ensures forall y :: y in xs ==> y in r
    ensures !Occurs(xs, key(x), key) ==> r == xs + [x]
  {
    if Occurs(xs, key(x), key) then xs else xs + [x]
  }

  /** The elements of xs whose key differs from k, in order. */
  function Without<T(==), K(==)>(xs: seq<T>, k: K, key: T -> K): (r: seq<T>)
    ensures |r| <= |xs|
    ensures forall y :: y in r ==> y in xs && key(y) != k
    ensures forall y :: y in xs && key(y) != k ==> y in r
  {
    if xs == [] then []
    else (if key(xs[0]) == k then [] else [xs[0]]) + Without(xs[1..], k, key)
  }

  /** Reference definition: keep the first element, drop every later element with
      its key, and continue with what remains. */
  function DedupBy<T(==), K(==)>(xs: seq<T>, key: T -> K): (r: seq<T>)
    decreases |xs|
  {
    if xs == [] then [] else [xs[0]] + DedupBy(Without(xs[1..], key(xs[0]), key), key)
  }

  lemma {:induction false} WithoutAppend<T, K>(a: seq<T>, b: seq<T>, k: K, key: T -> K)
    ensures Without(a + b, k, key) == Without(a, k, key) + Without(b, k, key)
  {
    if a == [] {
      assert a + b == b;
    } else {
      var head := if key(a[0]) == k then [] else [a[0]];
      calc {
        Without(a + b, k, key);
        { assert (a + b)[0] == a[0] && (a + b)[1..] == a[1..] + b; }
        head + Without(a[1..] + b, k, key);
        { WithoutAppend(a[1..], b, k, key); }
        head + (Without(a[1..], k, key) + Without(b, k, key));
        (head + Without(a[1..], k, key)) + Without(b, k, key);
      }
    }
  }

  /** Every element DedupBy keeps comes from its input. */
  lemma {:induction false} DedupBySubset<T, K>(xs: seq<T>, key: T -> K)
    ensures forall y :: y in DedupBy(xs, key) ==> y in xs
    decreases |xs|
  {
    if xs != [] {
      var w := Without(xs[1..], key(xs[0]), key);
      DedupBySubset(w, key);
      forall y | y in DedupBy(xs, key) ensures y in xs {
        if y != xs[0] {
          assert y in DedupBy(w, key);
          assert y in xs[1..];
        }
      }
    }
  }

  /** Every key of the input survives in DedupBy. */
  lemma {:induction false} DedupByCovers<T, K>(xs: seq<T>, key: T -> K)
    ensures forall y :: y in xs ==> Occurs(DedupBy(xs, key), key(y), key)
    decreases |xs|
  {
    if xs != [] {
      var a := xs[0];
      var w := Without(xs[1..], key(a), key);
      DedupByCovers(w, key);
      var d := DedupBy(xs, key);
      assert a in d;
      forall y | y in xs ensures Occurs(d, key(y), key) {
        if key(y) != key(a) {
          assert y in xs[1..];
          assert y in w;
          var z :| z in DedupBy(w, key) && key(z) == key(y);
          assert z in d;
        }
      }
    }
  }

  /** DedupBy keeps exactly the keys of its input. */
  lemma DedupByMembers<T, K>(xs: seq<T>, key: T -> K)
    ensures forall y :: y in DedupBy(xs, key) ==> y in xs
    ensures forall k :: Occurs(DedupBy(xs, key), k, key) <==> Occurs(xs, k, key)
  {
    DedupBySubset(xs, key);
    DedupByCovers(xs, key);
  }

  /** The reference list never repeats a key. */
  lemma {:induction false} DedupByNoDup<T, K>(xs: seq<T>, key: T -> K)
    ensures NoDupBy(DedupBy(xs, key), key)
    decreases |xs|
  {
    if xs != [] {
      var w := Without(xs[1..], key(xs[0]), key);
      DedupByNoDup(w, key);
      DedupByMembers(w, key);
      var d := DedupBy(w, key);
      assert forall j :: 0 <= j < |d| ==> d[j] in w;
    }
  }

  /** Appending one element to the input of DedupBy is what the source's
      append-if-absent step does to its output: the source's loops compute DedupBy. */
  lemma {:induction false} DedupBySnoc<T, K>(xs: seq<T>, x: T, key: T -> K)
    ensures DedupBy(xs + [x], key) == AppendAbsent(DedupBy(xs, key), x, key)
    decreases |xs|
  {
    if xs == [] {
      assert [x][1..] == [];
    } else {
      var a, t := xs[0], xs[1..];
      assert (xs + [x])[0] == a && (xs + [x])[1..] == t + [x];
      WithoutAppend(t, [x], key(a), key);
      var w := Without(t, key(a), key);
      var d := DedupBy(w, key);
      assert DedupBy(xs, key) == [a] + d;
      if key(x) == key(a) {
        DedupBySnocSameKey(a, w, x, key);
      } else {
        DedupBySnoc(w, x, key);
        DedupBySnocOtherKey(a, w, x, key);
      }
    }
  }

  lemma DedupBySnocSameKey<T, K>(a: T, w: seq<T>, x: T, key: T -> K)
    requires key(x) == key(a)
    ensures [a] + DedupBy(w + Without([x], key(a), key), key) == AppendAbsent([a] + DedupBy(w, key), x, key)
  {
    assert Without([x], key(a), key) == [];
    assert w + [] == w;
    assert a in [a] + DedupBy(w, key);
  }

  lemma WithoutOne<T, K>(x: T, k: K, key: T -> K)
    ensures Without([x], k, key) == if key(x) == k then [] else [x]
  {
    assert [x][1..] == [];
  }

  lemma OccursCons<T, K>(a: T, d: seq<T>, k: K, key: T -> K)
    requires key(a) != k
    ensures Occurs([a] + d, k, key) <==> Occurs(d, k, key)
  {
    if Occurs([a] + d, k, key) {
      var y :| y in [a] + d && key(y) == k;
      assert y in d;
    }
    if Occurs(d, k, key) {
      var y :| y in d && key(y) == k;
      assert y in [a] + d;
    }
  }

  lemma DedupBySnocOtherKey<T, K>(a: T, w: seq<T>, x: T, key: T -> K)
    requires key(x) != key(a)
    requires DedupBy(w + [x], key) == AppendAbsent(DedupBy(w, key), x, key)
    ensures [a] + DedupBy(w + Without([x], key(a), key), key) == AppendAbsent([a] + DedupBy(w, key), x, key)
  {
    WithoutOne(x, key(a), key);
    assert w + Without([x], key(a), key) == w + [x];
    AppendAbsentCons(a, DedupBy(w, key), x, key);
  }

  /** Appending past a head with another key is appending behind that head. */
  lemma AppendAbsentCons<T, K>(a: T, d: seq<T>, x: T, key: T -> K)
    requires key(x) != key(a)
    ensures AppendAbsent([a] + d, x, key) == [a] + AppendAbsent(d, x, key)
  {
    OccursCons(a, d, key(x), key);
    if !Occurs(d, key(x), key) {
      assert [a] + (d + [x]) == ([a] + d) + [x];
    }
  }
}
