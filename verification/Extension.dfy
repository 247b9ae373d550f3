/** The extension stack of `External`: entries written to one flat vector of
    ints, walked backward by `extend` and in both directions by the witness
    traversals. */
module Extension {
  import opened Logic
  import opened Reconstruction

  // ----------------------------------------------------------- 64-bit ids

  const TWO_31: int := 0x8000_0000
  const TWO_32: int := 0x1_0000_0000
  const TWO_64: int := 0x1_0000_0000_0000_0000

  /** The conversion of an unsigned number to a signed 32-bit int. */
  function ToInt32(x: nat): int {
    var low := x % TWO_32;
    if low < TWO_31 then low else low - TWO_32
  }

  /** The conversion of a signed int to an unsigned 64-bit number. */
  function ToUint64(x: int): nat {
    x % TWO_64
  }

  function ShiftLeft32(x: nat): nat {
    (x * TWO_32) % TWO_64
  }

  /** The two ints pushed for an id: the high one is taken from `id << 32`. */
  function HighBits(id: nat): int {
    ToInt32(ShiftLeft32(id))
  }

  function LowBits(id: nat): int {
    ToInt32(id % TWO_32)
  }

  /** How the traversals put an id together again. */
  function ReadId(high: int, low: int): nat {
    (ShiftLeft32(ToUint64(high)) + ToUint64(low)) % TWO_64
  }

  lemma HighBitsLost(id: nat)
    ensures HighBits(id) == 0
  {
    var k, r := (id * TWO_32) / TWO_64, (id * TWO_32) % TWO_64;
    assert r == TWO_32 * (id - k * TWO_32);
    assert r % TWO_32 == 0 by {
      MultipleMod(id - k * TWO_32);
    }
  }

  lemma MultipleMod(q: int)
    ensures (TWO_32 * q) % TWO_32 == 0
  {
  }

  /** An id comes back exactly when it fits 31 bits, or has all of its upper 33
      bits set so that the sign extension restores them. */
  lemma IdRoundTrip(id: nat)
    requires id < TWO_64
    ensures ReadId(HighBits(id), LowBits(id)) == id <==> id < TWO_31 || id >= TWO_64 - TWO_31
  {
    HighBitsLost(id);
    var low := id % TWO_32;
    assert LowBits(id) == if low < TWO_31 then low else low - TWO_32;
    assert ReadId(HighBits(id), LowBits(id)) == if low < TWO_31 then low else low - TWO_32 + TWO_64;
  }

  // ------------------------------------------------------------- encoding

  function Flat(c: seq<Lit>): (s: seq<int>)
    ensures |s| == |c| && forall i :: 0 <= i < |c| ==> s[i] == c[i]
  {
    seq(|c|, i requires 0 <= i < |c| => c[i] as int)
  }

  /** `0 witness 0 high low 0 clause` */
  function Encode(e: Entry): seq<int> {
    [0] + Flat(e.cube) + [0, HighBits(e.id), LowBits(e.id), 0] + Flat(e.clause)
  }

  function EncodeAll(es: seq<Entry>): seq<int> {
    if es == [] then [] else EncodeAll(es[..|es|-1]) + Encode(es[|es|-1])
  }

  lemma EncodeAppend(es: seq<Entry>, e: Entry)
    ensures EncodeAll(es + [e]) == EncodeAll(es) + Encode(e)
  {
    assert (es + [e])[..|es|] == es;
  }

  class External {
    const maxVar: nat
    var extension: seq<int>
    var vals: seq<bool>
    var witnesses: set<Lit>

    constructor (maxVar: nat)
      ensures this.maxVar == maxVar && extension == [] && vals == [] && witnesses == {}
    {
      this.maxVar := maxVar;
      extension, vals, witnesses := [], [], {};
    }

    method PushZero()
      modifies this`extension
      ensures extension == old(extension) + [0]
    {
      extension := extension + [0];
    }

    method PushId(id: nat)
      modifies this`extension
      ensures extension == old(extension) + [HighBits(id), LowBits(id)]
    {
      extension := extension + [HighBits(id)];
      extension := extension + [LowBits(id)];
    }

    method PushClauseLiteral(lit: Lit)
      modifies this`extension
      ensures extension == old(extension) + [lit]
    {
      extension := extension + [lit];
    }

    method PushWitnessLiteral(lit: Lit)
      modifies this`extension, this`witnesses
      ensures extension == old(extension) + [lit] && witnesses == old(witnesses) + {lit}
    {
      extension := extension + [lit];
      if lit in witnesses {
        return;
      }
      witnesses := witnesses + {lit};
    }

    /** Complete an entry whose witness cube has been pushed already. */
    method PushClause(id: nat, clause: Clause, ghost es: seq<Entry>, ghost cube: seq<Lit>)
      requires extension == EncodeAll(es) + [0] + Flat(cube)
      modifies this`extension
      ensures extension == EncodeAll(es + [Entry(cube, id, clause)])
    {
      hide HighBits, LowBits, EncodeAll;
      PushZero();
      PushId(id);
      PushZero();
      ghost var head := extension;
      for i := 0 to |clause|
        invariant extension == head + Flat(clause[..i])
      {
        PushClauseLiteral(clause[i]);
        assert Flat(clause[..i+1]) == Flat(clause[..i]) + [clause[i]];
      }
      assert clause[..|clause|] == clause;
      EncodeAppend(es, Entry(cube, id, clause));
    }

    method PushClauseOnPivot(id: nat, clause: Clause, pivot: Lit, ghost es: seq<Entry>)
      requires extension == EncodeAll(es)
      modifies this`extension, this`witnesses
      ensures extension == EncodeAll(es + [Entry([pivot], id, clause)])
      ensures witnesses == old(witnesses) + {pivot}
    {
      PushZero();
      PushWitnessLiteral(pivot);
      PushClause(id, clause, es, [pivot]);
    }

    method PushBinaryClause(id: nat, pivot: Lit, other: Lit, ghost es: seq<Entry>)
      requires extension == EncodeAll(es)
      modifies this`extension, this`witnesses
      ensures extension == EncodeAll(es + [Entry([pivot], id, [pivot, other])])
      ensures witnesses == old(witnesses) + {pivot}
    {
      hide HighBits, LowBits, EncodeAll;
      PushZero();
      PushWitnessLiteral(pivot);
      PushZero();
      PushId(id);
      PushZero();
      PushClauseLiteral(pivot);
      PushClauseLiteral(other);
      BinaryEncoded(EncodeAll(es), id, pivot, other);
      EncodeAppend(es, Entry([pivot], id, [pivot, other]));
    }

    // ------------------------------------------------------------- extend

    /** The variables that are true in the external assignment. */
    ghost function M(): Model
      reads this`vals
    {
      TrueVars(vals)
    }

    /** The value of an external literal; variables past the end are false. */
    function IsTrue(lit: Lit): (b: bool)
      reads this`vals
    {
      var v := Var(lit);
      var val := v <= maxVar && v < |vals| && vals[v];
      if lit < 0 then !val else val
    }

    method Flip(lit: Lit)
      modifies this`vals
      ensures M() == if Var(lit) in old(M()) then old(M()) - {Var(lit)} else old(M()) + {Var(lit)}
    {
      var idx := Var(lit);
      if idx >= |vals| {
        vals := vals + seq(idx + 1 - |vals|, _ => false);
      }
      vals := vals[idx := !vals[idx]];
      forall v
        ensures v in M() <==> v in if idx in old(M()) then old(M()) - {idx} else old(M()) + {idx}
      {
      }
    }

    /** Read the clause literals of the topmost entry below position `i`. */
    method ReadClause(i: nat, ghost base: nat, ghost e: Entry) returns (j: nat, satisfied: bool)
      requires InRange(e, maxVar) && EntryAt(extension, base, e) && i == base + |Encode(e)|
      ensures j == base + |e.cube| + 4
      ensures satisfied == SatClause(e.clause, M())
    {
      j, satisfied := i, false;
      ghost var start := base + |e.cube| + 5;
      while true
        invariant start <= j <= i
        invariant satisfied <==> exists k :: j - start <= k < |e.clause| && True(e.clause[k], M())
        decreases j
      {
        j := j - 1;
        if extension[j] == 0 {
          break;
        }
        assert j >= start && extension[j] == e.clause[j - start];
        var lit: Lit := extension[j];
        if !satisfied && IsTrue(lit) {
          satisfied := true;
        }
      }
    }

    /** Make the witness literals below position `i` true, last one first. */
    method FlipWitness(i: nat, ghost base: nat, ghost e: Entry) returns (j: nat)
      requires InRange(e, maxVar) && EntryAt(extension, base, e) && i == base + |e.cube| + 1
      modifies this`vals
      ensures j == base && M() == MakeTrue(e.cube, old(M()))
    {
      j := i;
      assert e.cube[..|e.cube|] == e.cube;
      while true
        invariant base + 1 <= j <= i
        invariant MakeTrue(e.cube[..j - base - 1], M()) == MakeTrue(e.cube, old(M()))
        decreases j
      {
        ghost var k := j - base - 1;
        j := j - 1;
        if extension[j] == 0 {
          break;
        }
        assert extension[j] == e.cube[k - 1] && e.cube[..k][..k-1] == e.cube[..k-1];
        var lit: Lit := extension[j];
        if !IsTrue(lit) {
          Flip(lit);
        }
        assert M() == SetTrue(lit, M());
      }
    }

    /** Skip the witness literals below position `i`. */
    method SkipWitness(i: nat, ghost base: nat, ghost e: Entry) returns (j: nat)
      requires EntryAt(extension, base, e) && i == base + |e.cube| + 1
      ensures j == base
    {
      j := i;
      while true
        invariant base + 1 <= j <= i
        decreases j
      {
        ghost var k := j - base - 1;
        j := j - 1;
        if extension[j] == 0 {
          break;
        }
        assert extension[j] == e.cube[k - 1];
      }
    }

    /** Copy the internal values of the variables that still have one. */
    method Import(internal: map<int, bool>)
      modifies this`vals
      ensures M() == Imported(internal, maxVar, old(M()))
    {
      ImportedNothing(internal, M());
      for i := 1 to maxVar + 1
        invariant M() == Imported(internal, i - 1, old(M()))
      {
        ghost var before := M();
        if i in internal {
          if i >= |vals| {
            vals := vals + seq(i + 1 - |vals|, _ => false);
          }
          assert M() == before;
          vals := vals[i := internal[i]];
          assert M() == if internal[i] then before + {i} else before - {i};
        }
        ImportedStep(internal, i, old(M()));
      }
    }

    /** `extend`: the final assignment is the replay of the pushed entries. */
    method Extend(internal: map<int, bool>, ghost es: seq<Entry>)
      requires extension == EncodeAll(es) && forall e :: e in es ==> InRange(e, maxVar)
      modifies this`vals
      ensures M() == Replay(es, Imported(internal, maxVar, old(M())))
    {
      hide HighBits, LowBits, Encode, InRange, ReplayEntry, MakeTrue, Imported;
      Import(internal);
      ghost var start := M();
      ghost var n: nat := |es|;
      var i := |extension|;
      assert es[..n] == es;
      EncodeAllNonempty(es);
      while i != 0
        invariant 0 <= i <= |extension| && n <= |es| && (i == 0 ==> n == 0)
        invariant i == |EncodeAll(es[..n])| && EncodeAll(es[..n]) == extension[..i]
        invariant Replay(es[..n], M()) == Replay(es, start)
        decreases i
      {
        ghost var e := es[n-1];
        assert es[..n][..n-1] == es[..n-1] && es[..n][n-1] == e;
        ghost var base := TopEntry(es[..n], extension, i);
        var satisfied;
        i, satisfied := ReadClause(i, base, e);
        i := i - 3;
        ReplayTop(es[..n], M(), satisfied);
        if satisfied {
          i := SkipWitness(i, base, e);
        } else {
          i := FlipWitness(i, base, e);
        }
        n := n - 1;
        EncodeAllNonempty(es[..n]);
      }
    }

    // ---------------------------------------------------------- traversals

    /** Read literals downward from position `i` to the next zero. */
    method ReadDown(i: nat, ghost start: nat, ghost c: seq<Lit>) returns (j: nat, lits: seq<Lit>)
      requires 0 < start && start + |c| == i <= |extension|
      requires extension[start-1] == 0 && extension[start..i] == Flat(c)
      ensures j == start - 1 && Reverse(lits) == c
    {
      j, lits := i, [];
      assert forall k :: start <= k < i ==> extension[k] == extension[start..i][k - start] == c[k - start];
      while true
        invariant start <= j <= i && lits == Reverse(c[j - start..])
        decreases j
      {
        j := j - 1;
        if extension[j] == 0 {
          break;
        }
        var lit: Lit := extension[j];
        ReverseCons(lit, c[j - start + 1..]);
        assert c[j - start..] == [lit] + c[j - start + 1..];
        lits := lits + [lit];
      }
      assert c[0..] == c;
      ReverseTwice(c);
    }

    /** Read literals upward from position `i` to the next zero or the end. */
    method ReadUp(i: nat, ghost c: seq<Lit>) returns (j: nat, lits: seq<Lit>)
      requires i + |c| <= |extension| && extension[i..i + |c|] == Flat(c)
      requires i + |c| < |extension| ==> extension[i + |c|] == 0
      ensures j == (if i + |c| < |extension| then i + |c| + 1 else i + |c|) && lits == c
    {
      j, lits := i, [];
      while j < |extension|
        invariant i <= j <= i + |c| && lits == c[..j - i]
      {
        var lit := extension[j];
        assert j < i + |c| ==> lit == extension[i..i + |c|][j - i];
        j := j + 1;
        if lit == 0 {
          break;
        }
        lits := lits + [lit];
      }
    }

    method ReadEntryDown(i: nat, ghost base: nat, ghost e: Entry) returns (j: nat, entry: Entry)
      requires EntryAt(extension, base, e) && i == base + |Encode(e)|
      ensures j == base && entry == ReadBack(e)
    {
      hide HighBits, LowBits, ReadId, Encode, Flat, Reverse;
      EntryParts(extension, base, e);
      var clause, cube;
      j, clause := ReadDown(i, base + |e.cube| + 5, e.clause);
      j := j - 1;
      var id := ReadId(extension[j-1], extension[j]);
      j := j - 2;
      j, cube := ReadDown(j, base + 1, e.cube);
      entry := Entry(Reverse(cube), id, Reverse(clause));
    }

    method ReadEntryUp(i: nat, ghost base: nat, ghost e: Entry) returns (j: nat, entry: Entry)
      requires EntryAt(extension, base, e) && i == base + 1
      requires base + |Encode(e)| < |extension| ==> extension[base + |Encode(e)|] == 0
      ensures j == base + |Encode(e)| + if base + |Encode(e)| < |extension| then 1 else 0
      ensures entry == ReadBack(e)
    {
      hide HighBits, LowBits, ReadId, Encode, Flat;
      EntryParts(extension, base, e);
      var clause, cube;
      j, cube := ReadUp(i, e.cube);
      var id := ReadId(extension[j], extension[j+1]);
      j := j + 3;
      j, clause := ReadUp(j, e.clause);
      entry := Entry(cube, id, clause);
    }

    /** The entries, last one first, until the iterator rejects one. */
    method TraverseBackward(unsat: bool, it: Entry -> bool, ghost es: seq<Entry>)
      returns (done: bool, visited: seq<Entry>)
      requires extension == EncodeAll(es)
      ensures unsat ==> done && visited == []
      ensures !unsat ==> visited == Visit(it, Reverse(Stored(es))) && done == Accepts(it, Reverse(Stored(es)))
    {
      if unsat {
        return true, [];
      }
      hide HighBits, LowBits, ReadId, Encode, EncodeAll, Flat, Pending, Reverse, Stored, Visit, Accepts, ReadBack,
           EntryAt;
      visited := [];
      ghost var all := Reverse(Stored(es));
      StartPending(it, all);
      var i := |extension|;
      ghost var n: nat := |es|;
      assert es[..n] == es;
      EncodeAllNonempty(es);
      while i != 0
        invariant 0 <= i <= |extension| && n <= |es| && (i == 0 ==> n == 0)
        invariant i == |EncodeAll(es[..n])| && EncodeAll(es[..n]) == extension[..i]
        invariant Pending(it, all, visited, Reverse(Stored(es[..n])))
        decreases i
      {
        ghost var base := TopAt(es, n, extension, i);
        ghost var e := es[n-1];
        StoredTop(es, n);
        var entry;
        i, entry := ReadEntryDown(i, base, e);
        StepPending(it, all, visited, entry, Reverse(Stored(es[..n-1])));
        visited := visited + [entry];
        if !it(entry) {
          return false, visited;
        }
        n := n - 1;
        EncodeAllNonempty(es[..n]);
      }
      EndPending(it, all, visited, es[..n]);
      return true, visited;
    }

    /** The entries in push order, until the iterator rejects one. */
    method TraverseForward(unsat: bool, it: Entry -> bool, ghost es: seq<Entry>)
      returns (done: bool, visited: seq<Entry>)
      requires extension == EncodeAll(es)
      ensures unsat ==> done && visited == []
      ensures !unsat ==> visited == Visit(it, Stored(es)) && done == Accepts(it, Stored(es))
    {
      visited := [];
      if unsat {
        return true, [];
      }
      hide HighBits, LowBits, ReadId, Encode, EncodeAll, Flat, Pending, Reverse, Stored, Visit, Accepts, ReadBack,
           EntryAt;
      ghost var all := Stored(es);
      StartPending(it, all);
      EncodeAllNonempty(es);
      if |extension| == 0 {
        EndPending(it, all, [], es);
        return true, [];
      }
      var i := 1;
      ghost var n: nat := 0;
      FirstEntry(es);
      assert es[..0] == [] && es[0..] == es;
      while true
        invariant n < |es| && i == |EncodeAll(es[..n])| + 1
        invariant Pending(it, all, visited, Stored(es[n..]))
        decreases |es| - n
      {
        ghost var base, e := |EncodeAll(es[..n])|, es[n];
        NthEntry(es, n);
        StoredNext(es, n);
        var entry;
        i, entry := ReadEntryUp(i, base, e);
        StepPending(it, all, visited, entry, Stored(es[n+1..]));
        visited := visited + [entry];
        if !it(entry) {
          return false, visited;
        }
        n := n + 1;
        if i == |extension| {
          break;
        }
      }
      assert es[n..] == [];
      EndPending(it, all, visited, es[n..]);
      return true, visited;
    }
  }

  function Reverse<T>(s: seq<T>): (r: seq<T>)
    ensures |r| == |s| && forall i :: 0 <= i < |s| ==> r[i] == s[|s| - 1 - i]
  {
    seq(|s|, i requires 0 <= i < |s| => s[|s| - 1 - i])
  }

  lemma ReverseCons<T>(x: T, s: seq<T>)
    ensures Reverse([x] + s) == Reverse(s) + [x]
  {
  }

  lemma ReverseTwice<T>(s: seq<T>)
    ensures Reverse(Reverse(s)) == s
  {
  }

  /** The entry as the traversals read it back. */
  function ReadBack(e: Entry): Entry {
    Entry(e.cube, ReadId(HighBits(e.id), LowBits(e.id)), e.clause)
  }

  function Stored(es: seq<Entry>): (s: seq<Entry>)
    ensures |s| == |es|
  {
    seq(|es|, i requires 0 <= i < |es| => ReadBack(es[i]))
  }

  function Visit(it: Entry -> bool, es: seq<Entry>): seq<Entry> {
    if es == [] then [] else if it(es[0]) then [es[0]] + Visit(it, es[1..]) else [es[0]]
  }

  predicate Accepts(it: Entry -> bool, es: seq<Entry>) {
    es == [] || (it(es[0]) && Accepts(it, es[1..]))
  }

  /** The traversal has visited `visited`, and `rest` is left of `all`. */
  ghost predicate Pending(it: Entry -> bool, all: seq<Entry>, visited: seq<Entry>, rest: seq<Entry>) {
    Visit(it, all) == visited + Visit(it, rest) && Accepts(it, all) == Accepts(it, rest)
  }

  lemma StartPending(it: Entry -> bool, all: seq<Entry>)
    ensures Pending(it, all, [], all)
  {
  }

  lemma StepPending(it: Entry -> bool, all: seq<Entry>, visited: seq<Entry>, e: Entry, rest: seq<Entry>)
    requires Pending(it, all, visited, [e] + rest)
    ensures it(e) ==> Pending(it, all, visited + [e], rest)
    ensures !it(e) ==> Visit(it, all) == visited + [e] && !Accepts(it, all)
  {
    assert ([e] + rest)[1..] == rest;
  }

  lemma EndPending(it: Entry -> bool, all: seq<Entry>, visited: seq<Entry>, es: seq<Entry>)
    requires es == [] && (Pending(it, all, visited, Stored(es)) || Pending(it, all, visited, Reverse(Stored(es))))
    ensures Visit(it, all) == visited && Accepts(it, all)
  {
  }

  /** With ids of at most 31 bits the traversals see exactly what was pushed. */
  lemma StoredIsPushed(es: seq<Entry>)
    requires forall e :: e in es ==> e.id < TWO_31
    ensures Stored(es) == es
  {
    forall i | 0 <= i < |es|
      ensures Stored(es)[i] == es[i]
    {
      assert es[i] in es;
      IdRoundTrip(es[i].id);
    }
  }

  ghost function TrueVars(vals: seq<bool>): Model {
    set v | 0 < v < |vals| && vals[v]
  }

  ghost predicate InRange(e: Entry, maxVar: nat) {
    (forall l :: l in e.cube ==> Var(l) <= maxVar) && (forall l :: l in e.clause ==> Var(l) <= maxVar)
  }

  /** `e` is written at position `base` of `s`. */
  ghost predicate EntryAt(s: seq<int>, base: nat, e: Entry) {
    base + |Encode(e)| <= |s| && s[base..base + |Encode(e)|] == Encode(e)
  }

  lemma BinaryEncoded(before: seq<int>, id: nat, pivot: Lit, other: Lit)
    ensures before + [0] + [pivot] + [0] + [HighBits(id), LowBits(id)] + [0] + [pivot] + [other] ==
      before + Encode(Entry([pivot], id, [pivot, other]))
  {
    assert Flat([pivot]) == [pivot] && Flat([pivot, other]) == [pivot, other];
  }

  ghost function Imported(internal: map<int, bool>, maxVar: nat, m: Model): Model {
    (set v | v in m && !(v in internal && 1 <= v <= maxVar)) +
      (set v | v in internal && 1 <= v <= maxVar && internal[v])
  }

  lemma ImportedStep(internal: map<int, bool>, i: nat, m: Model)
    requires i >= 1
    ensures Imported(internal, i, m) ==
      if i !in internal then Imported(internal, i - 1, m)
      else if internal[i] then Imported(internal, i - 1, m) + {i}
      else Imported(internal, i - 1, m) - {i}
  {
  }

  lemma ImportedNothing(internal: map<int, bool>, m: Model)
    ensures Imported(internal, 0, m) == m
  {
  }

  lemma EncodeAllNonempty(es: seq<Entry>)
    ensures EncodeAll(es) == [] <==> es == []
  {
  }

  /** The entry on top of the stack of length `i`. */
  lemma TopEntry(es: seq<Entry>, s: seq<int>, i: nat) returns (base: nat)
    requires i > 0 && i <= |s| && EncodeAll(es) == s[..i]
    ensures es != [] && base == |EncodeAll(es[..|es|-1])| && EncodeAll(es[..|es|-1]) == s[..base]
    ensures EntryAt(s, base, es[|es|-1]) && i == base + |Encode(es[|es|-1])|
    ensures base < i
  {
    var e := es[|es|-1];
    base := |EncodeAll(es[..|es|-1])|;
    assert s[..i] == s[..base] + s[base..i];
  }

  lemma TopAt(es: seq<Entry>, n: nat, s: seq<int>, i: nat) returns (base: nat)
    requires n <= |es| && 0 < i <= |s| && EncodeAll(es[..n]) == s[..i]
    ensures n > 0 && base < i && base == |EncodeAll(es[..n-1])| && EncodeAll(es[..n-1]) == s[..base]
    ensures EntryAt(s, base, es[n-1]) && i == base + |Encode(es[n-1])|
  {
    hide EncodeAll, Encode, EntryAt;
    base := TopEntry(es[..n], s, i);
    assert es[..n][..n-1] == es[..n-1] && es[..n][n-1] == es[n-1];
  }

  lemma ReplayTop(es: seq<Entry>, m: Model, satisfied: bool)
    requires es != [] && satisfied == SatClause(es[|es|-1].clause, m)
    ensures Replay(es, m) ==
      Replay(es[..|es|-1], if satisfied then m else MakeTrue(es[|es|-1].cube, m))
  {
  }

  lemma EntryParts(s: seq<int>, base: nat, e: Entry)
    requires EntryAt(s, base, e)
    ensures |Encode(e)| == |e.cube| + 5 + |e.clause|
    ensures var z := base + |e.cube| + 1;
            && s[base] == 0 && s[base+1..z] == Flat(e.cube) && s[z] == 0
            && s[z+1] == HighBits(e.id) && s[z+2] == LowBits(e.id) && s[z+3] == 0
            && s[z+4..z+4+|e.clause|] == Flat(e.clause)
  {
    hide HighBits, LowBits;
    var t := s[base..base + |Encode(e)|];
    assert forall i :: 0 <= i < |t| ==> s[base + i] == t[i];
    var z := |e.cube| + 1;
    assert t[1..z] == Flat(e.cube) && t[z+4..z+4+|e.clause|] == Flat(e.clause);
    assert s[base+1..base+z] == t[1..z] && s[base+z+4..base+z+4+|e.clause|] == t[z+4..z+4+|e.clause|];
  }

  lemma StoredTop(es: seq<Entry>, n: nat)
    requires 0 < n <= |es|
    ensures Reverse(Stored(es[..n])) == [ReadBack(es[n-1])] + Reverse(Stored(es[..n-1]))
  {
  }

  lemma StoredNext(es: seq<Entry>, n: nat)
    requires n < |es|
    ensures Stored(es[n..]) == [ReadBack(es[n])] + Stored(es[n+1..])
  {
  }

  lemma {:induction false} NthEntry(es: seq<Entry>, n: nat)
    requires n < |es|
    ensures EntryAt(EncodeAll(es), |EncodeAll(es[..n])|, es[n])
    ensures |EncodeAll(es[..n+1])| == |EncodeAll(es[..n])| + |Encode(es[n])| <= |EncodeAll(es)|
    ensures n + 1 < |es| <==> |EncodeAll(es[..n+1])| < |EncodeAll(es)|
    ensures n + 1 < |es| ==> |EncodeAll(es[..n+1])| + 1 < |EncodeAll(es)| && EncodeAll(es)[|EncodeAll(es[..n+1])|] == 0
    decreases |es|
  {
    hide HighBits, LowBits;
    var last := |es| - 1;
    if n == last {
      assert es[..n+1] == es;
    } else {
      NthEntry(es[..last], n);
      assert es[..last][..n] == es[..n] && es[..last][..n+1] == es[..n+1];
      var p := |EncodeAll(es[..n+1])|;
      if n + 1 == last {
        assert EncodeAll(es)[p] == Encode(es[last])[0];
      } else {
        assert EncodeAll(es)[p] == EncodeAll(es[..last])[p];
      }
    }
  }

  lemma FirstEntry(es: seq<Entry>)
    requires es != []
    ensures EncodeAll(es[..0]) == []
  {
  }
}
