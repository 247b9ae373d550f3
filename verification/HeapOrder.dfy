/** Binary heaps as sequences, for any strict weak order `less`. */
module HeapOrder {

  type Order = (nat, nat) -> bool

  /** Irreflexive, transitive, and incomparability is transitive too. */
  ghost predicate StrictWeak(less: Order) {
    && (forall a: nat :: !less(a, a))
    && (forall a: nat, b: nat, c: nat :: less(a, b) && less(b, c) ==> less(a, c))
    && (forall a: nat, b: nat, c: nat :: !less(a, b) && !less(b, c) ==> !less(a, c))
  }

  lemma NotLessTrans(less: Order, a: nat, b: nat, c: nat)
    requires StrictWeak(less) && !less(a, b) && !less(b, c)
    ensures !less(a, c)
  {
  }

  lemma LessAsym(less: Order, a: nat, b: nat)
    requires StrictWeak(less) && less(a, b)
    ensures !less(b, a)
  {
    assert less(a, b) && less(b, a) ==> less(a, a);
  }

  function Parent(i: nat): nat
    requires i > 0
  {
    (i - 1) / 2
  }

  /** The element at `i` is not above its parent. */
  ghost predicate Edge(a: seq<nat>, less: Order, i: nat)
    requires i < |a|
  {
    i > 0 ==> !less(a[Parent(i)], a[i])
  }

  ghost predicate Heaped(a: seq<nat>, less: Order) {
    forall i :: 0 <= i < |a| ==> Edge(a, less, i)
  }

  /** Ordered but for the element at `k`, whose neighbours are in order. */
  ghost predicate LooseAt(a: seq<nat>, less: Order, k: nat) {
    && k < |a|
    && (forall i :: 0 <= i < |a| && i != k && (i > 0 ==> Parent(i) != k) ==> Edge(a, less, i))
    && (forall i :: 0 < i < |a| && Parent(i) == k && k > 0 ==> !less(a[Parent(k)], a[i]))
  }

  /** In addition the element at `k` is not above its parent. */
  ghost predicate LooseBelow(a: seq<nat>, less: Order, k: nat) {
    LooseAt(a, less, k) && Edge(a, less, k)
  }

  function Swapped(a: seq<nat>, i: nat, j: nat): (b: seq<nat>)
    requires i < |a| && j < |a|
    ensures |b| == |a| && b[i] == a[j] && b[j] == a[i]
    ensures forall k :: 0 <= k < |a| && k != i && k != j ==> b[k] == a[k]
    ensures multiset(b) == multiset(a)
  {
    a[i := a[j]][j := a[i]]
  }

  lemma UpStep(a: seq<nat>, less: Order, k: nat)
    requires StrictWeak(less) && LooseAt(a, less, k) && k > 0 && less(a[Parent(k)], a[k])
    ensures LooseAt(Swapped(a, k, Parent(k)), less, Parent(k))
  {
    hide StrictWeak, Swapped;
    var p := Parent(k);
    var b := Swapped(a, k, p);
    forall i | 0 <= i < |b| && i != p && (i > 0 ==> Parent(i) != p)
      ensures Edge(b, less, i)
    {
      if i > 0 && Parent(i) == k {
        assert !less(a[p], a[i]);
      } else {
        assert Edge(a, less, i);
      }
    }
    forall i | 0 < i < |b| && Parent(i) == p && p > 0
      ensures !less(b[Parent(p)], b[i])
    {
      assert Edge(a, less, p);
      if i != k {
        assert Edge(a, less, i);
        NotLessTrans(less, a[Parent(p)], a[p], a[i]);
      }
    }
  }

  lemma DownStep(a: seq<nat>, less: Order, k: nat, c: nat)
    requires StrictWeak(less) && LooseBelow(a, less, k) && 0 < c < |a| && Parent(c) == k
    requires less(a[k], a[c])
    requires forall s :: 0 < s < |a| && Parent(s) == k ==> !less(a[c], a[s])
    ensures LooseBelow(Swapped(a, k, c), less, c)
  {
    hide StrictWeak, Swapped;
    var b := Swapped(a, k, c);
    LessAsym(less, a[k], a[c]);
    assert Edge(b, less, c);
    forall i | 0 <= i < |b| && i != c && (i > 0 ==> Parent(i) != c)
      ensures Edge(b, less, i)
    {
      if i == k {
        if k > 0 {
          assert !less(a[Parent(k)], a[c]);
        }
      } else if i > 0 && Parent(i) == k {
        assert !less(a[c], a[i]);
      } else {
        assert Edge(a, less, i);
      }
    }
    forall i | 0 < i < |b| && Parent(i) == c
      ensures !less(b[Parent(c)], b[i])
    {
      assert Edge(a, less, i);
    }
  }

  lemma UpDone(a: seq<nat>, less: Order, k: nat)
    requires LooseAt(a, less, k) && (k > 0 ==> !less(a[Parent(k)], a[k]))
    ensures LooseBelow(a, less, k)
  {
  }

  lemma DownDone(a: seq<nat>, less: Order, k: nat)
    requires LooseBelow(a, less, k)
    requires forall s :: 0 < s < |a| && Parent(s) == k ==> !less(a[k], a[s])
    ensures Heaped(a, less)
  {
    forall i | 0 <= i < |a|
      ensures Edge(a, less, i)
    {
      if i > 0 && Parent(i) == k {
        assert !less(a[k], a[i]);
      }
    }
  }

  /** The first element of a heap is a maximum. */
  lemma {:induction false} FirstIsMaximal(a: seq<nat>, less: Order, i: nat)
    requires StrictWeak(less) && Heaped(a, less) && i < |a|
    ensures !less(a[0], a[i])
  {
    hide StrictWeak;
    if i == 0 {
      Irreflexive(less, a[0]);
    } else {
      assert Edge(a, less, i);
      FirstIsMaximal(a, less, Parent(i));
      NotLessTrans(less, a[0], a[Parent(i)], a[i]);
    }
  }

  lemma Irreflexive(less: Order, x: nat)
    requires StrictWeak(less)
    ensures !less(x, x)
  {
  }

  /** Appending leaves only the new last element loose. */
  lemma AppendLoose(a: seq<nat>, less: Order, e: nat)
    requires Heaped(a, less)
    ensures LooseAt(a + [e], less, |a|)
  {
    var b := a + [e];
    forall i | 0 <= i < |b| && i != |a|
      ensures Edge(b, less, i)
    {
      assert Edge(a, less, i);
    }
  }

  /** Moving the last element to the front leaves only the front loose. */
  lemma ReplaceFirst(a: seq<nat>, less: Order, b: seq<nat>)
    requires Heaped(a, less) && |b| + 1 == |a| && |b| > 0
    requires forall i :: 0 < i < |b| ==> b[i] == a[i]
    ensures LooseBelow(b, less, 0)
  {
    forall i | 0 < i < |b| && Parent(i) != 0
      ensures Edge(b, less, i)
    {
      assert Edge(a, less, i);
    }
  }

  /** `now` orders all elements but `e` as `before` does. */
  ghost predicate SameBut(now: Order, before: Order, e: nat) {
    forall x: nat, y: nat :: x != e && y != e ==> now(x, y) == before(x, y)
  }

  /** A changed key of one element leaves only that element loose. */
  lemma KeyChanged(a: seq<nat>, before: Order, now: Order, k: nat)
    requires StrictWeak(before) && Heaped(a, before) && k < |a| && SameBut(now, before, a[k])
    requires forall i, j :: 0 <= i < j < |a| ==> a[i] != a[j]
    ensures LooseAt(a, now, k)
  {
    hide StrictWeak;
    forall i | 0 <= i < |a| && i != k && (i > 0 ==> Parent(i) != k)
      ensures Edge(a, now, i)
    {
      assert Edge(a, before, i);
      if i > 0 {
        assert a[i] != a[k] && a[Parent(i)] != a[k];
        assert now(a[Parent(i)], a[i]) == before(a[Parent(i)], a[i]);
      }
    }
    forall i | 0 < i < |a| && Parent(i) == k && k > 0
      ensures !now(a[Parent(k)], a[i])
    {
      assert Edge(a, before, i) && Edge(a, before, k);
      NotLessTrans(before, a[Parent(k)], a[k], a[i]);
      assert a[i] != a[k] && a[Parent(k)] != a[k];
      assert now(a[Parent(k)], a[i]) == before(a[Parent(k)], a[i]);
    }
  }
}
