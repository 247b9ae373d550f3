/** The hash table of the checker: collision chains of clause references. */
module ClauseTable {
  import opened Logic
  import opened Clauses
  import opened Numbers

  const TWO_TO_THE_64: nat := 0x1_0000_0000_0000_0000

  /** `compute_hash`: the product wraps around at 64 bits. */
  function HashOf(nonces: seq<nat>, id: nat): nat
    requires |nonces| == 4
  {
    nonces[id % 4] * id % TWO_TO_THE_64
  }

  /** Folding a hash into an index.  The size is a power of two, so masking with
      `size - 1` is the remainder. */
  function ReduceFrom(res: nat, shift: nat, size: nat): (h: nat)
    requires size > 0
    ensures h < size
    decreases shift
  {
    if shift == 0 || Pow2(shift) <= size then res % size else ReduceFrom(Xor(res, Shifted(res, shift)), shift / 2, size)
  }

  function Quotient(a: nat, b: nat): nat
    requires b > 0
  {
    a / b
  }

  function Shifted(res: nat, shift: nat): nat {
    Quotient(res, Pow2(shift))
  }

  function Reduced(hash: nat, size: nat): (h: nat)
    requires size > 0
    ensures h < size
  {
    ReduceFrom(hash, 32, size)
  }

  /** `reduce_hash`. */
  method ReduceHash(hash: nat, size: nat) returns (res: nat)
    requires size > 0
    ensures res == Reduced(hash, size) < size
  {
    res := hash;
    var shift := 32;
    while shift > 0 && Pow2(shift) > size
      invariant 0 <= shift <= 32 && ReduceFrom(res, shift, size) == Reduced(hash, size)
    {
      res := Xor(res, Shifted(res, shift));
      shift := shift / 2;
    }
    res := res % size;
  }

  type Table = seq<seq<nat>>

  /** The clause is in the chain of its hash. */
  ghost predicate InChain(table: Table, hash: map<nat, nat>, r: nat) {
    r in hash && |table| > 0 && r in table[Reduced(hash[r], |table|)]
  }

  /** Exactly the live clauses are in the table, each in the chain of its hash and
      only once. */
  ghost predicate TableOk(table: Table, hash: map<nat, nat>, live: set<nat>) {
    && (|table| > 0 ==> PowerOfTwo(|table|)) && (forall r :: r in live ==> InChain(table, hash, r))
    && (forall h :: 0 <= h < |table| ==> ChainOk(table, hash, live, h))
  }

  ghost predicate ChainOk(table: Table, hash: map<nat, nat>, live: set<nat>, h: nat)
    requires h < |table|
  {
    NoDuplicates(table[h]) && forall r :: r in table[h] ==> r in live && r in hash && Reduced(hash[r], |table|) == h
  }

  lemma EmptyTable(hash: map<nat, nat>)
    ensures TableOk([], hash, {})
  {
  }

  /** A clause at the head of its chain. */
  lemma Insert(table: Table, hash: map<nat, nat>, live: set<nat>, r: nat, x: nat)
    requires TableOk(table, hash, live) && |table| > 0 && r !in live && r !in hash
    ensures var h := Reduced(x, |table|); TableOk(table[h := [r] + table[h]], hash[r := x], live + {r})
  {
    hide Reduced, PowerOfTwo;
    var h := Reduced(x, |table|);
    var now, hash1 := table[h := [r] + table[h]], hash[r := x];
    forall q | q in live + {r}
      ensures InChain(now, hash1, q)
    {
      assert q in live ==> InChain(table, hash, q);
    }
    forall k | 0 <= k < |now|
      ensures ChainOk(now, hash1, live + {r}, k)
    {
      assert ChainOk(table, hash, live, k);
    }
  }

  /** A clause leaves its chain. */
  lemma Remove(table: Table, hash: map<nat, nat>, live: set<nat>, h: nat, k: nat)
    requires TableOk(table, hash, live) && h < |table| && k < |table[h]|
    ensures var now := table[h := table[h][..k] + table[h][k+1..]];
            table[h][k] in live && TableOk(now, hash, live - {table[h][k]})
  {
    hide Reduced, PowerOfTwo;
    var r := table[h][k];
    var now := table[h := table[h][..k] + table[h][k+1..]];
    assert ChainOk(table, hash, live, h) && r in table[h];
    RemovedAt(table[h], k);
    forall q | q in live - {r}
      ensures InChain(now, hash, q)
    {
      assert InChain(table, hash, q);
    }
    forall j | 0 <= j < |now|
      ensures ChainOk(now, hash, live - {r}, j)
    {
      assert ChainOk(table, hash, live, j);
    }
  }

  lemma RemovedAt(s: seq<nat>, k: nat)
    requires k < |s| && NoDuplicates(s)
    ensures NoDuplicates(s[..k] + s[k+1..])
    ensures forall x :: x in s[..k] + s[k+1..] <==> x in s && x != s[k]
  {
    assert s == s[..k] + [s[k]] + s[k+1..];
    var t := s[..k] + s[k+1..];
    forall i, j | 0 <= i < j < |t|
      ensures t[i] != t[j]
    {
      assert t[i] == s[if i < k then i else i + 1];
      assert t[j] == s[if j < k then j else j + 1];
    }
    forall x | x in s && x != s[k]
      ensures x in s[..k] + s[k+1..]
    {
      var i :| 0 <= i < |s| && s[i] == x;
      assert i < k ==> s[..k][i] == x;
      assert i > k ==> s[k+1..][i - k - 1] == x;
    }
    forall x | x in s[..k] + s[k+1..]
      ensures x in s && x != s[k]
    {
      if x in s[..k] {
        var i :| 0 <= i < k && s[..k][i] == x;
      } else {
        var i :| 0 <= i < |s| - k - 1 && s[k+1..][i] == x;
        assert s[k + 1 + i] == x;
      }
    }
  }

  /** Moving clauses to a larger table: those before chain `i`, and the first `j` of
      that chain, are in `now`. */
  ghost predicate Moving(table: Table, now: Table, hash: map<nat, nat>, moved: set<nat>) {
    && |now| > 0 && (forall r :: r in moved ==> InChain(now, hash, r))
    && (forall h :: 0 <= h < |now| ==> ChainOk(now, hash, moved, h))
  }

  lemma MoveOne(table: Table, now: Table, hash: map<nat, nat>, moved: set<nat>, r: nat)
    requires Moving(table, now, hash, moved) && r !in moved && r in hash
    ensures var h := Reduced(hash[r], |now|); Moving(table, now[h := [r] + now[h]], hash, moved + {r})
  {
    hide Reduced;
    var h := Reduced(hash[r], |now|);
    var next := now[h := [r] + now[h]];
    forall q | q in moved + {r}
      ensures InChain(next, hash, q)
    {
      assert q in moved ==> InChain(now, hash, q);
    }
    forall k | 0 <= k < |next|
      ensures ChainOk(next, hash, moved + {r}, k)
    {
      assert ChainOk(now, hash, moved, k);
    }
  }

  /** `enlarge_clauses`: a table of twice the size with the same clauses. */
  method Enlarge(table: Table, hash: map<nat, nat>, ghost live: set<nat>) returns (now: Table)
    requires TableOk(table, hash, live)
    ensures TableOk(now, hash, live) && |now| == if |table| == 0 then 1 else 2 * |table|
  {
    hide Reduced, InChain, ChainOk, PowerOfTwo, TableOk, Moving, NoDuplicates;
    var newSize := if |table| > 0 then 2 * |table| else 1;
    now := seq(newSize, i => []);
    ghost var moved: set<nat> := {};
    StartMoving(table, now, hash);
    for i := 0 to |table|
      invariant |now| == newSize && Moving(table, now, hash, moved)
      invariant forall r :: r in moved <==> exists k :: 0 <= k < i && r in table[k]
    {
      ghost var moved0 := moved;
      ChainFacts(table, hash, live, i);
      for j := 0 to |table[i]|
        invariant |now| == newSize && Moving(table, now, hash, moved)
        invariant forall r :: r in moved <==> r in moved0 || r in table[i][..j]
      {
        var c := table[i][j];
        NotMoved(table, hash, live, i, j, moved0);
        assert table[i][..j+1] == table[i][..j] + [c];
        var h := ReduceHash(hash[c], newSize);
        MoveOne(table, now, hash, moved, c);
        now := now[h := [c] + now[h]];
        moved := moved + {c};
      }
      assert table[i][..|table[i]|] == table[i];
    }
    AllMoved(table, now, hash, live, moved);
  }

  lemma StartMoving(table: Table, now: Table, hash: map<nat, nat>)
    requires |now| > 0 && forall h :: 0 <= h < |now| ==> now[h] == []
    ensures Moving(table, now, hash, {})
  {
  }

  lemma ChainFacts(table: Table, hash: map<nat, nat>, live: set<nat>, h: nat)
    requires TableOk(table, hash, live) && h < |table|
    ensures NoDuplicates(table[h])
    ensures forall r :: r in table[h] ==> r in live && r in hash && Reduced(hash[r], |table|) == h
  {
    assert ChainOk(table, hash, live, h);
  }

  lemma AllInChains(table: Table, hash: map<nat, nat>, live: set<nat>)
    requires TableOk(table, hash, live)
    ensures forall r :: r in live ==> exists h :: 0 <= h < |table| && r in table[h]
  {
    forall r | r in live
      ensures exists h :: 0 <= h < |table| && r in table[h]
    {
      assert InChain(table, hash, r);
    }
  }

  lemma NotMoved(table: Table, hash: map<nat, nat>, live: set<nat>, i: nat, j: nat, moved0: set<nat>)
    requires TableOk(table, hash, live) && i < |table| && j < |table[i]|
    requires forall r :: r in moved0 <==> exists k :: 0 <= k < i && r in table[k]
    ensures table[i][j] in hash && table[i][j] !in moved0 && table[i][j] !in table[i][..j]
  {
    hide Reduced;
    ChainFacts(table, hash, live, i);
    assert table[i][j] in table[i];
    if table[i][j] in moved0 {
      var k :| 0 <= k < i && table[i][j] in table[k];
      ChainFacts(table, hash, live, k);
    }
  }

  lemma AllMoved(table: Table, now: Table, hash: map<nat, nat>, live: set<nat>, moved: set<nat>)
    requires TableOk(table, hash, live) && Moving(table, now, hash, moved)
    requires |now| == if |table| == 0 then 1 else 2 * |table|
    requires forall r :: r in moved <==> exists k :: 0 <= k < |table| && r in table[k]
    ensures TableOk(now, hash, live)
  {
    hide Reduced, PowerOfTwo;
    forall r
      ensures r in moved <==> r in live
    {
      if r in live {
        assert InChain(table, hash, r);
      }
      if r in moved {
        var k :| 0 <= k < |table| && r in table[k];
        ChainFacts(table, hash, live, k);
      }
    }
    assert moved == live;
    if |table| > 0 {
      PowerOfTwoDoubled(|table|);
    } else {
      OneIsPower();
    }
  }

  lemma OneIsPower()
    ensures PowerOfTwo(1)
  {
    assert Pow2(0) == 1;
  }
}
