/** Blocked clause elimination: the blocking test with its two in-place
    move-to-front schemes, the filters before it, and the removals. */
module Block {
  import opened Logic
  import opened Reconstruction
  import opened Extension
  import opened Clauses

  /** The first `l` elements moved one position up, `gap` filling the front. */
  function Shifted<T>(s: seq<T>, l: nat, gap: T): (r: seq<T>)
    requires l <= |s|
    ensures |r| == |s|
  {
    seq(|s|, i requires 0 <= i < |s| => if l == 0 || i >= l then s[i] else if i == 0 then gap else s[i-1])
  }

  lemma ShiftOne<T>(s: seq<T>, l: nat, gap: T)
    requires l < |s|
    ensures Shifted(s, l, gap)[l] == s[l]
    ensures Shifted(s, l, gap)[l := if l == 0 then gap else s[l-1]] == Shifted(s, l + 1, gap)
    ensures Shifted(s, l + 1, gap)[0 := s[l]] == MoveToFront(s, l)
    ensures Shifted(s, l + 1, gap)[l] == if l == 0 then gap else s[l-1]
    ensures Shifted(s, l + 1, gap)[l := s[l]] == Shifted(s, l, gap)
  {
  }

  lemma ShiftNone<T>(s: seq<T>, gap: T)
    ensures Shifted(s, 0, gap) == s
  {
  }

  /** A literal of `d` other than `skip` clashes with `c`, so that the resolvent
      of `c` and `d` on `skip` is a tautology. */
  ghost predicate Clashes(d: Clause, skip: Lit, c: set<Lit>) {
    exists k :: 0 <= k < |d| && d[k] != skip && Neg(d[k]) in c
  }

  /** All resolvents of `c` on `lit` with clauses of `f` are tautologies. */
  ghost predicate Blocked(c: set<Lit>, lit: Lit, f: Formula) {
    forall d :: d in f && Neg(lit) in d ==> exists k :: k in d && k != Neg(lit) && Neg(k) in c
  }

  /** A blocked clause may be removed: making the blocking literal true repairs
      every model of the others that falsifies the clause. */
  lemma BlockedIsRedundant(f: Formula, c: Clause, lit: Lit, id: nat)
    requires lit in c && Blocked(Lits(c), lit, f)
    ensures WitnessRedundant(f, Entry([lit], id, c))
  {
    forall m: Model | Models(m, f) && !SatClause(c, m)
      ensures Models(MakeTrue([lit], m), f) && SatClause(c, MakeTrue([lit], m))
    {
      var n := SetTrue(lit, m);
      assert [lit][..0] == [] && MakeTrue([lit], m) == MakeTrue([], n) == n;
      assert True(lit, n);
      forall d | d in f
        ensures SatLits(d, n)
      {
        var x :| x in d && True(x, m);
        if Neg(lit) in d {
          var k :| k in d && k != Neg(lit) && Neg(k) in Lits(c);
          assert !True(Neg(k), m) && True(k, m);
          assert True(k, n);
        } else {
          assert True(x, n);
        }
      }
    }
  }

  /** Look for a literal of `d` other than `skip` whose negation is marked, while
      moving the literals one position up; the one found goes to the front. */
  method ScanLiterals(d: Clause, skip: Lit, marked: set<Lit>) returns (found: bool, ghost at: nat, result: Clause)
    ensures found <==> Clashes(d, skip, marked)
    ensures found ==> at < |d| && d[at] != skip && Neg(d[at]) in marked && result == MoveToFront(d, at)
    ensures !found ==> result == d
  {
    hide Shifted, MoveToFront;
    var lits: seq<int> := Flat(d);
    ghost var before := lits;
    var prevOther := 0;
    var l := 0;
    found, at := false, 0;
    ShiftNone(before, 0);
    while l < |d|
      invariant 0 <= l <= |d| && lits == Shifted(before, l, 0)
      invariant prevOther == if l == 0 then 0 else before[l-1]
      invariant forall k :: 0 <= k < l ==> d[k] == skip || Neg(d[k]) !in marked
    {
      ShiftOne(before, l, 0);
      var other: Lit := lits[l];
      lits := lits[l := prevOther];
      prevOther := other;
      if other != skip && Neg(other) in marked {
        lits := lits[0 := other];
        found, at := true, l;
        break;
      }
      l := l + 1;
    }
    if !found {
      while l > 0
        invariant 0 <= l <= |d| && lits == Shifted(before, l, 0)
        invariant prevOther == if l == 0 then 0 else before[l-1]
      {
        l := l - 1;
        ShiftOne(before, l, 0);
        var other := lits[l];
        lits := lits[l := prevOther];
        prevOther := other;
      }
    } else {
      FlatMoveToFront(d, at);
    }
    result := FromFlat(lits, if found then MoveToFront(d, at) else d);
  }

  lemma FlatMoveToFront(c: Clause, i: nat)
    requires i < |c|
    ensures MoveToFront(Flat(c), i) == Flat(MoveToFront(c, i))
  {
  }

  /** The scanned literals are those of the clause again. */
  method FromFlat(lits: seq<int>, ghost c: Clause) returns (result: Clause)
    requires lits == Flat(c)
    ensures result == c
  {
    assert forall i :: 0 <= i < |lits| ==> lits[i] == c[i];
    result := ToClause(lits);
    FlatInjective(result, c);
  }

  lemma FlatInjective(c: Clause, d: Clause)
    requires Flat(c) == Flat(d)
    ensures c == d
  {
    forall i | 0 <= i < |c|
      ensures c[i] == d[i]
    {
      assert Flat(c)[i] == Flat(d)[i];
    }
  }

  function ToClause(s: seq<int>): (c: Clause)
    requires forall i :: 0 <= i < |s| ==> s[i] != 0
    ensures Flat(c) == s
  {
    seq(|s|, i requires 0 <= i < |s| => s[i])
  }

  // --------------------------------------------------------- clause database

  /** Clause references are nonzero, no clause is a tautology, and the
      occurrence lists reach every clause that is not garbage, once. */
  ghost predicate Connected(literals: map<nat, Clause>, garbage: set<nat>, occs: map<Lit, seq<nat>>) {
    && 0 !in literals
    && (forall r, l :: r in literals && l in literals[r] ==> Neg(l) !in literals[r])
    && (forall l :: l in occs ==> NoDuplicates(occs[l]))
    && (forall l, r :: l in occs && r in occs[l] ==> r in literals && l in literals[r])
    && (forall r, l :: r in literals && r !in garbage && l in literals[r] ==> l in occs && r in occs[l])
  }

  lemma ReorderedKeeps(now: map<nat, Clause>, before: map<nat, Clause>, garbage: set<nat>, occs: map<Lit, seq<nat>>)
    requires Reordered(now, before) && Connected(before, garbage, occs)
    ensures Connected(now, garbage, occs) && Live(now, garbage) == Live(before, garbage)
    ensures now.Keys == before.Keys
  {
    forall r | r in now
      ensures Lits(now[r]) == Lits(before[r]) && forall l :: l in now[r] <==> l in before[r]
    {
      ReorderedLits(now, before, r);
    }
    forall c
      ensures c in Live(now, garbage) <==> c in Live(before, garbage)
    {
    }
  }

  lemma ListedInClauses(literals: map<nat, Clause>, garbage: set<nat>, occs: map<Lit, seq<nat>>, l: Lit)
    requires Connected(literals, garbage, occs) && l in occs
    ensures NoDuplicates(occs[l]) && forall r :: r in occs[l] ==> r in literals && l in literals[r]
  {
  }

  lemma RelistedKeeps(literals: map<nat, Clause>, garbage: set<nat>, occs: map<Lit, seq<nat>>, l: Lit, os: seq<nat>)
    requires Connected(literals, garbage, occs) && l in occs && NoDuplicates(os)
    requires forall r :: r in os <==> r in occs[l]
    ensures Connected(literals, garbage, occs[l := os])
  {
  }

  lemma ReorderedOne(before: map<nat, Clause>, literals: map<nat, Clause>, r: nat, at: nat)
    requires Reordered(literals, before) && r in literals && at < |literals[r]|
    ensures Reordered(literals[r := MoveToFront(literals[r], at)], before)
  {
    MoveToFrontPermutes(literals[r], at);
  }

  /** The clauses listed for `-lit` decide whether `c` is blocked. */
  lemma BlockedByOccurrences(literals: map<nat, Clause>, garbage: set<nat>, occs: map<Lit, seq<nat>>, c: set<Lit>,
        lit: Lit)
    requires Connected(literals, garbage, occs)
    requires Neg(lit) in occs && forall r :: r in occs[Neg(lit)] ==> r !in garbage
    ensures Blocked(c, lit, Live(literals, garbage)) <==>
      forall r :: r in occs[Neg(lit)] ==> Clashes(literals[r], Neg(lit), c)
  {
    var f := Live(literals, garbage);
    if Blocked(c, lit, f) {
      forall r | r in occs[Neg(lit)]
        ensures Clashes(literals[r], Neg(lit), c)
      {
        assert Lits(literals[r]) in f && Neg(lit) in Lits(literals[r]);
        var k :| k in Lits(literals[r]) && k != Neg(lit) && Neg(k) in c;
        var i :| 0 <= i < |literals[r]| && literals[r][i] == k;
      }
    }
    if forall r :: r in occs[Neg(lit)] ==> Clashes(literals[r], Neg(lit), c) {
      forall d | d in f && Neg(lit) in d
        ensures exists k :: k in d && k != Neg(lit) && Neg(k) in c
      {
        var r :| r in literals && r !in garbage && Lits(literals[r]) == d;
        var i :| 0 <= i < |literals[r]| && literals[r][i] != Neg(lit) && Neg(literals[r][i]) in c;
        assert literals[r][i] in d;
      }
    }
  }

  ghost predicate ClashesWithSome(literals: map<nat, Clause>, c: nat, skip: Lit, rs: seq<nat>) {
    c in literals && exists r :: r in rs && r in literals && Clashes(literals[c], skip, Lits(literals[r]))
  }

  /** The extension stack gained `es`, which turns the models of what is left,
      `f`, into models of what was there, `f0`. */
  ghost predicate Removed(es: seq<Entry>, extension0: seq<Entry>, extension: seq<Entry>, f0: Formula, f: Formula) {
    extension == extension0 + es && f <= f0 && Reconstructs(f, es, f0)
  }

  class Blocker {
    const ids: map<nat, nat>
    var literals: map<nat, Clause>
    var garbage: set<nat>
    var occs: map<Lit, seq<nat>>
    var extension: seq<Entry> // the extension stack, entry by entry

    constructor (ids: map<nat, nat>, literals: map<nat, Clause>, garbage: set<nat>, occs: map<Lit, seq<nat>>)
      requires Connected(literals, garbage, occs) && literals.Keys <= ids.Keys
      ensures Valid() && this.literals == literals && this.garbage == garbage && extension == []
    {
      this.ids := ids;
      this.literals := literals;
      this.garbage := garbage;
      this.occs := occs;
      this.extension := [];
    }

    ghost predicate Valid()
      reads this
    {
      Connected(literals, garbage, occs) && literals.Keys <= ids.Keys
    }

    ghost function F(): Formula
      reads this`literals, this`garbage
    {
      Live(literals, garbage)
    }

    /** The list as it was before all its elements moved one place. */
    method ShiftBack(os0: seq<nat>, prevD0: nat, ghost list: seq<nat>) returns (os: seq<nat>)
      requires os0 == Shifted(list, |list|, 0) && |os0| == |list| && prevD0 == if list == [] then 0 else list[|list|-1]
      ensures os == list
    {
      hide Shifted;
      os := os0;
      var i, prevD := |os|, prevD0;
      while i != 0
        invariant 0 <= i <= |list| && os == Shifted(list, i, 0)
        invariant prevD == if i == 0 then 0 else list[i-1]
      {
        i := i - 1;
        ShiftOne(list, i, 0);
        var d := os[i];
        os := os[i := prevD];
        prevD := d;
      }
      ShiftNone(list, 0);
    }


    /** `is_blocked_clause`: the occurrence list of `-lit` is left as it was when
        `c` is blocked; otherwise the clause that refutes it moves to the front. */
    method IsBlockedClause(c: nat, lit: Lit) returns (res: bool, ghost at: nat)
      requires Valid() && c in literals && c !in garbage && lit in literals[c]
      requires Neg(lit) in occs && forall r :: r in occs[Neg(lit)] ==> r !in garbage
      modifies this`literals, this`occs
      ensures Valid() && F() == old(F()) && Reordered(literals, old(literals))
      ensures res <==> Blocked(Lits(old(literals)[c]), lit, F())
      ensures occs.Keys == old(occs).Keys && forall r :: r in occs[Neg(lit)] <==> r in old(occs)[Neg(lit)]
      ensures res ==> occs == old(occs)
      ensures !res ==> at < |old(occs)[Neg(lit)]| && occs == old(occs)[Neg(lit) := MoveToFront(old(occs)[Neg(lit)], at)]
    {
      hide Connected, Reordered, Shifted, Clashes, Blocked, Live, MoveToFront;
      var marks := Marks(literals[c]);
      ListedInClauses(literals, garbage, occs, Neg(lit));
      var os := occs[Neg(lit)];
      ghost var list := os;
      res, at := true, 0;
      var i, prevD := 0, 0;
      ShiftNone(list, 0);
      ReorderedSame(literals);
      while i < |os|
        invariant 0 <= i <= |list| && os == Shifted(list, i, 0)
        invariant prevD == if i == 0 then 0 else list[i-1]
        invariant occs == old(occs) && Reordered(literals, old(literals))
        invariant literals.Keys == old(literals).Keys
        invariant forall k :: 0 <= k < i ==> Clashes(old(literals)[list[k]], Neg(lit), marks)
      {
        ShiftOne(list, i, 0);
        var d := os[i];
        os := os[i := prevD];
        prevD := d;
        var found, k, scanned := ScanLiterals(literals[d], Neg(lit), marks);
        ClashesReordered(literals, old(literals), d, Neg(lit), marks);
        if found {
          ReorderedOne(old(literals), literals, d, k);
        } else {
          assert literals[d := scanned] == literals;
        }
        literals := literals[d := scanned];
        if !found {
          res, at := false, i;
          os := os[0 := d];
          break;
        }
        i := i + 1;
      }
      if res {
        os := ShiftBack(os, prevD, list);
      }
      occs := occs[Neg(lit) := os];
      assert res ==> occs == old(occs);
      ReorderedKeeps(literals, old(literals), garbage, old(occs));
      BlockedByOccurrences(old(literals), garbage, old(occs), marks, lit);
      if !res {
        MoveToFrontPermutes(list, at);
        RelistedKeeps(literals, garbage, old(occs), Neg(lit), os);
      }
    }

    /** Push a blocked clause on the extension stack and mark it garbage. */
    method Remove(c: nat, lit: Lit) returns (ghost e: Entry)
      requires Valid() && c in literals && c !in garbage && lit in literals[c]
      requires Blocked(Lits(literals[c]), lit, F())
      modifies this`garbage, this`extension
      ensures Valid() && garbage == old(garbage) + {c}
      ensures extension == old(extension) + [e] && Reconstructs(F(), [e], old(F()))
    {
      hide Blocked;
      e := Entry([lit], ids[c], literals[c]);
      extension := extension + [Entry([lit], ids[c], literals[c])];
      garbage := garbage + {c};
      LiveRemove(literals, old(garbage), c);
      BlockedInFewer(Lits(literals[c]), lit, F(), old(F()));
      BlockedIsRedundant(F(), literals[c], lit, ids[c]);
      WitnessReconstructs(F(), e);
    }

    /** Drop the garbage clauses from an occurrence list. */
    method Flush(l: Lit)
      requires Valid() && l in occs
      modifies this`occs
      ensures Valid() && occs.Keys == old(occs).Keys
      ensures forall k :: k in occs && k != l ==> occs[k] == old(occs)[k]
      ensures forall r :: r in occs[l] <==> r in old(occs)[l] && r !in garbage
    {
      var os, kept := occs[l], [];
      for i := 0 to |os|
        invariant NoDuplicates(kept) && forall r :: r in kept <==> r in os[..i] && r !in garbage
      {
        assert os[i] !in os[..i];
        if os[i] !in garbage {
          kept := kept + [os[i]];
        }
      }
      occs := occs[l := kept];
    }

    /** `block_candidates`: the clauses with `lit` of acceptable size that clash
        with some clause with `-lit` on another literal. */
    method BlockCandidates(lit: Lit, minSize: nat, maxSize: nat) returns (candidates: seq<nat>)
      requires Valid() && lit in occs && Neg(lit) in occs
      modifies this`occs
      ensures Valid() && occs.Keys == old(occs).Keys && occs[Neg(lit)] == old(occs)[Neg(lit)]
      ensures NoDuplicates(candidates)
      ensures forall c :: c in candidates <==>
        && c in old(occs)[lit] && c !in garbage && minSize <= |literals[c]| <= maxSize
        && ClashesWithSome(literals, c, lit, occs[Neg(lit)])
    {
      hide Connected;
      ListedInClauses(literals, garbage, occs, lit);
      ListedInClauses(literals, garbage, occs, Neg(lit));
      var marks := {};
      var pos, nos := occs[lit], occs[Neg(lit)];
      for i := 0 to |nos|
        invariant occs == old(occs)
        invariant forall l :: l in marks <==> exists j :: 0 <= j < i && l in literals[nos[j]]
      {
        var more := Marks(literals[nos[i]]);
        marks := marks + more;
      }
      candidates := [];
      for i := 0 to |pos|
        invariant occs == old(occs) && NoDuplicates(candidates)
        invariant forall c :: c in candidates <==>
          && c in pos[..i] && c in literals && c !in garbage && minSize <= |literals[c]| <= maxSize
          && Clashes(literals[c], lit, marks)
      {
        var c := pos[i];
        if c in garbage || |literals[c]| > maxSize || |literals[c]| < minSize {
          continue;
        }
        var found := FindClash(literals[c], lit, marks);
        assert c !in pos[..i];
        if found {
          candidates := candidates + [c];
        }
      }
      forall c | c in pos
        ensures Clashes(literals[c], lit, marks) <==> ClashesWithSome(literals, c, lit, nos)
      {
        ClashWithUnion(literals, nos, marks, c, lit);
      }
      Flush(lit);
    }

    /** `block_impossible`: a clause with `-lit` that clashes with no candidate on
        another literal, if there is one. */
    method BlockImpossible(lit: Lit, candidates: seq<nat>) returns (res: Option<nat>)
      requires Valid() && Neg(lit) in occs && forall c :: c in candidates ==> c in literals
      ensures res.Some? ==> res.value in occs[Neg(lit)]
      ensures res.Some? ==> forall c :: c in candidates ==> !Clashes(literals[res.value], Neg(lit), Lits(literals[c]))
      ensures res.None? ==>
        forall r :: r in occs[Neg(lit)] ==> ClashesWithSome(literals, r, Neg(lit), candidates)
    {
      hide Connected;
      ListedInClauses(literals, garbage, occs, Neg(lit));
      var marks := {};
      for i := 0 to |candidates|
        invariant forall l :: l in marks <==> exists j :: 0 <= j < i && l in literals[candidates[j]]
      {
        var more := Marks(literals[candidates[i]]);
        marks := marks + more;
      }
      res := None;
      var nos := occs[Neg(lit)];
      for i := 0 to |nos|
        invariant res.Some? ==> res.value in nos && !Clashes(literals[res.value], Neg(lit), marks)
        invariant res.None? ==> forall j :: 0 <= j < i ==> Clashes(literals[nos[j]], Neg(lit), marks)
      {
        var found := FindClash(literals[nos[i]], Neg(lit), marks);
        if !found {
          res := Some(nos[i]);
        }
      }
      forall r | r in nos
        ensures Clashes(literals[r], Neg(lit), marks) <==> ClashesWithSome(literals, r, Neg(lit), candidates)
      {
        ClashWithUnion(literals, candidates, marks, r, Neg(lit));
      }
    }

    lemma StillBlocked(c: set<Lit>, lit: Lit, f0: Formula, es: seq<Entry>, extension0: seq<Entry>)
      requires Removed(es, extension0, extension, f0, F())
      ensures Blocked(c, lit, f0) ==> Blocked(c, lit, F())
    {
      if Blocked(c, lit, f0) {
        BlockedInFewer(c, lit, F(), f0);
      }
    }

    lemma NothingRemoved()
      ensures Removed([], extension, extension, F(), F())
    {
    }

    /** Remove one more blocked clause. */
    method RemoveNext(c: nat, lit: Lit, ghost es0: seq<Entry>, ghost extension0: seq<Entry>, ghost f0: Formula)
      returns (ghost es: seq<Entry>)
      requires Valid() && c in literals && c !in garbage && lit in literals[c]
      requires Blocked(Lits(literals[c]), lit, F())
      requires Removed(es0, extension0, extension, f0, F())
      modifies this`garbage, this`extension
      ensures Valid() && garbage == old(garbage) + {c}
      ensures Removed(es, extension0, extension, f0, F())
    {
      hide Reconstructs, Blocked, Connected, Live;
      ghost var f := F();
      ghost var e := Remove(c, lit);
      LiveRemove(literals, old(garbage), c);
      es := es0 + [e];
      ReconstructsCompose(f0, es0, f, [e], F());
    }

    /** `lit` is pure: all clauses with it are blocked. */
    method BlockPure(lit: Lit) returns (ghost es: seq<Entry>)
      requires Valid() && lit in occs && Neg(lit) in occs && forall r :: r in occs[Neg(lit)] ==> r in garbage
      modifies this`garbage, this`occs, this`extension
      ensures Valid() && Removed(es, old(extension), extension, old(F()), F())
      ensures forall r :: r in garbage <==> r in old(garbage) || r in old(occs)[lit]
    {
      hide Connected, Removed, Live, Blocked;
      NothingRemoved();
      es := [];
      var pos := occs[lit];
      ListedInClauses(literals, garbage, occs, lit);
      for i := 0 to |pos|
        invariant Valid() && occs == old(occs) && old(garbage) <= garbage
        invariant Removed(es, old(extension), extension, old(F()), F())
        invariant forall r :: r in garbage <==> r in old(garbage) || r in pos[..i]
      {
        var c := pos[i];
        assert pos[..i+1] == pos[..i] + [c];
        if c in garbage {
          continue;
        }
        PureIsBlocked(literals, garbage, occs, Lits(literals[c]), lit);
        es := RemoveNext(c, lit, es, old(extension), old(F()));
      }
      assert pos[..|pos|] == pos;
      EmptiedList(literals, garbage, occs, lit);
      EmptiedList(literals, garbage, occs[lit := []], Neg(lit));
      occs := occs[lit := []][Neg(lit) := []];
    }

    /** The filters before the blocking test: they never drop a clause that
        should be removed. */
    method SelectCandidates(lit: Lit, minSize: nat, maxSize: nat) returns (candidates: seq<nat>)
      requires Valid() && lit in occs && Neg(lit) in occs
      requires exists r :: r in occs[Neg(lit)] && r !in garbage
      modifies this`occs
      ensures Valid() && lit in occs && Neg(lit) in occs && NoDuplicates(candidates)
      ensures forall r :: r in occs[Neg(lit)] ==> r !in garbage
      ensures forall c :: c in candidates ==> c in literals && c !in garbage && lit in literals[c]
      ensures forall c :: c in candidates && Blocked(Lits(literals[c]), lit, F()) ==>
        c in old(occs)[lit] && ShouldBlock(literals, garbage, old(occs), lit, c, minSize, maxSize)
      ensures forall c ::
        c in old(occs)[lit] && c !in garbage && ShouldBlock(literals, garbage, old(occs), lit, c, minSize, maxSize)
        ==> c in candidates
    {
      hide Connected, Live, Blocked, Clashes, ClashesWithSome, ShouldBlock;
      ListedInClauses(literals, garbage, occs, lit);
      ghost var os := occs;
      Flush(Neg(lit));
      ListedInClauses(literals, garbage, occs, Neg(lit));
      var tooLarge := AnyTooLarge(occs[Neg(lit)], maxSize);
      AllSmallEnough(literals, garbage, os, lit, minSize, maxSize);
      if tooLarge {
        TooLargeForAll(literals, garbage, os, lit, minSize, maxSize);
        return [];
      }
      candidates := BlockCandidates(lit, minSize, maxSize);
      NotFiltered(literals, garbage, os, occs, lit, minSize, maxSize, candidates);
      if |candidates| > 1 {
        var impossible := BlockImpossible(lit, candidates);
        if impossible != None {
          NoneBlocked(literals, garbage, os, occs, lit, minSize, maxSize, candidates, impossible.value);
          return [];
        }
      }
    }

    /** Several clauses with `-lit`: filter the candidates, then test each. */
    method BlockSeveral(lit: Lit, minSize: nat, maxSize: nat) returns (ghost es: seq<Entry>)
      requires Valid() && lit in occs && Neg(lit) in occs
      requires exists r :: r in occs[Neg(lit)] && r !in garbage
      modifies this`literals, this`garbage, this`occs, this`extension
      ensures Valid() && Removed(es, old(extension), extension, old(F()), F())
      ensures BlockedGone(garbage, old(literals), old(garbage), old(occs), old(occs)[lit], lit, minSize, maxSize)
    {
      hide Connected, Removed, Live, Blocked, Reordered, ShouldBlock;
      NothingRemoved();
      es := [];
      var candidates := SelectCandidates(lit, minSize, maxSize);
      if |candidates| == 0 {
        return;
      }
      ShouldBlockIsBlocked(literals, garbage, old(occs), lit, minSize, maxSize);
      es := RemoveBlocked(lit, candidates);
      Flush(lit);
    }

    /** Is clause `c` blocked by `lit`, given the literals of the only clause with
        the negated literal?  The clause is rearranged by the scan. */
    method ScanAgainst(c: nat, ghost d: nat, lit: Lit, marks: set<Lit>, ghost before: map<nat, Clause>)
      returns (blocked: bool)
      requires Valid() && c in literals && Reordered(literals, before) && d in before && marks == Lits(before[d])
      requires Neg(lit) in occs && occs[Neg(lit)] == [d] && d !in garbage
      modifies this`literals
      ensures Valid() && Reordered(literals, before) && literals.Keys == old(literals).Keys && F() == old(F())
      ensures c in literals && Lits(literals[c]) == Lits(old(literals)[c])
      ensures forall l :: l in literals[c] <==> l in old(literals)[c]
      ensures blocked <==> Blocked(Lits(literals[c]), lit, F())
    {
      hide Connected, Live, Blocked, Reordered, Clashes, MoveToFront;
      var found, at, scanned := ScanLiterals(literals[c], lit, marks);
      blocked := found;
      OneNegative(literals, garbage, occs, before, d, c, lit, marks);
      ScannedKeeps(literals, before, garbage, occs, c, at, found, scanned);
      assert forall l :: l in scanned <==> l in Lits(scanned);
      assert forall l :: l in literals[c] <==> l in Lits(literals[c]);
      literals := literals[c := scanned];
    }


    /** Test one candidate, and remove it if it is blocked. */
    method TestAgainst(c: nat, ghost d: nat, lit: Lit, marks: set<Lit>, ghost es0: seq<Entry>,
          ghost extension0: seq<Entry>, ghost literals0: map<nat, Clause>, ghost garbage0: set<nat>,
          ghost occs0: map<Lit, seq<nat>>)
      returns (blocked: bool, ghost es: seq<Entry>)
      requires Valid() && c in literals && c !in garbage && lit in literals[c]
      requires c in literals0 && Reordered(literals, literals0)
      requires Neg(lit) in occs && occs[Neg(lit)] == [d] && d !in garbage && d in literals0
      requires marks == Lits(literals0[d]) && Connected(literals0, garbage0, occs0) && garbage0 <= garbage
      requires forall r :: r in garbage && r !in garbage0 ==> r in literals0 && lit in literals0[r]
      requires Removed(es0, extension0, extension, Live(literals0, garbage0), F())
      modifies this`literals, this`garbage, this`extension
      ensures Valid() && Reordered(literals, literals0) && literals.Keys == old(literals).Keys
      ensures garbage == if blocked then old(garbage) + {c} else old(garbage)
      ensures Removed(es, extension0, extension, Live(literals0, garbage0), F())
      ensures blocked <==> Blocked(Lits(literals0[c]), lit, Live(literals0, garbage0))
    {
      hide Connected, Removed, Live, Blocked, Reordered, Clashes;
      es := es0;
      ReorderedLits(literals, literals0, c);
      StillBlocked(Lits(literals0[c]), lit, Live(literals0, garbage0), es, extension0);
      BlockedBefore(literals0, garbage0, occs0, literals, garbage, Lits(literals0[c]), lit);
      blocked := ScanAgainst(c, d, lit, marks, literals0);
      if blocked {
        es := RemoveNext(c, lit, es, extension0, Live(literals0, garbage0));
      }
    }

    /** One clause with `-lit`, so marking it once serves all candidates. */
    method BlockOneNegative(lit: Lit, minSize: nat, maxSize: nat) returns (ghost es: seq<Entry>)
      requires Valid() && lit in occs && Neg(lit) in occs
      requires exists d ::
        d in occs[Neg(lit)] && d !in garbage && forall r :: r in occs[Neg(lit)] && r !in garbage ==> r == d
      modifies this`literals, this`garbage, this`occs, this`extension
      ensures Valid() && Removed(es, old(extension), extension, old(F()), F())
      ensures BlockedGone(garbage, old(literals), old(garbage), old(occs), old(occs)[lit], lit, minSize, maxSize)
    {
      hide Connected, Removed, Live, Blocked, Reordered, ShouldBlock, Clashes, BlockedGone;
      NothingRemoved();
      es := [];
      ListedInClauses(literals, garbage, occs, lit);
      ListedInClauses(literals, garbage, occs, Neg(lit));
      Flush(Neg(lit));
      ListedInClauses(literals, garbage, occs, Neg(lit));
      var nos, pos := occs[Neg(lit)], occs[lit];
      NoneGone(literals, garbage, old(occs), pos, lit, minSize, maxSize);
      assert pos[..0] == [];
      var d := nos[0];
      OnlyElement(nos, d);
      if |literals[d]| > maxSize {
        TooLargeForAll(literals, garbage, old(occs), lit, minSize, maxSize);
        return;
      }
      ghost var os := occs;
      var marks := Marks(literals[d]);
      var kept := [];
      ReorderedSame(literals);
      for i := 0 to |pos|
        invariant Valid() && occs == os && Reordered(literals, old(literals)) && literals.Keys == old(literals).Keys
        invariant old(garbage) <= garbage && d !in garbage
        invariant Removed(es, old(extension), extension, old(F()), F())
        invariant NoDuplicates(kept) && forall r :: r in kept <==> r in pos[..i] && r !in garbage
        invariant forall j :: i <= j < |pos| ==> (pos[j] in garbage <==> pos[j] in old(garbage))
        invariant BlockedGone(garbage, old(literals), old(garbage), old(occs), pos[..i], lit, minSize, maxSize)
      {
        var c := pos[i];
        assert c !in pos[..i] && pos[..i+1] == pos[..i] + [c];
        GoneNext(garbage, old(literals), old(garbage), old(occs), pos, i, lit, minSize, maxSize);
        if c in garbage {
          continue;
        }
        OnlySmaller(old(literals), old(garbage), old(occs), lit, c, minSize, maxSize);
        ReorderedLits(literals, old(literals), c);
        if |literals[c]| > maxSize || |literals[c]| < minSize {
          SameSize(literals, old(literals), c);
          kept := kept + [c];
          continue;
        }
        NotListedTwice(literals, garbage, occs, c, lit);
        SameSize(literals, old(literals), c);
        SmallEnough(old(literals), old(garbage), old(occs), lit, c, d, minSize, maxSize);
        GoneHave(garbage, old(literals), old(garbage), old(occs), pos[..i], lit, minSize, maxSize);
        var blocked;
        blocked, es := TestAgainst(c, d, lit, marks, es, old(extension), old(literals), old(garbage), old(occs));
        if !blocked {
          kept := kept + [c];
        }
      }
      assert pos[..|pos|] == pos;
      KeptList(literals, garbage, occs, lit, kept);
      occs := occs[lit := kept];
    }

    method CountLive(l: Lit) returns (n: nat)
      requires l in occs && NoDuplicates(occs[l])
      ensures n == |LiveOf(occs[l], garbage)|
      ensures n == 0 <==> forall r :: r in occs[l] ==> r in garbage
      ensures n <= |occs[l]|
      ensures n == 1 ==>
        exists d :: d in occs[l] && d !in garbage && forall r :: r in occs[l] && r !in garbage ==> r == d
    {
      n := 0;
      var os := occs[l];
      ghost var d := 0;
      for i := 0 to |os|
        invariant n <= i && n == |LiveOf(os[..i], garbage)|
        invariant n == 0 ==> forall r :: r in os[..i] ==> r in garbage
        invariant n > 0 ==> d in os && d !in garbage
        invariant n == 1 ==> forall r :: r in os[..i] && r !in garbage ==> r == d
      {
        OneMoreLive(os, i, garbage);
        if os[i] !in garbage {
          n := n + 1;
          d := os[i];
        }
      }
      assert os[..|os|] == os;
    }

    /** Blocked clause elimination on one literal: what is removed is repaired by
        the entries pushed.  Within the occurrence limit a pure literal takes all
        its clauses along, and otherwise exactly the blocked ones go. */
    method BlockLiteral(lit: Lit, frozen: bool, occLimit: nat, minSize: nat, maxSize: nat)
      returns (ghost es: seq<Entry>)
      requires Valid() && lit in occs && Neg(lit) in occs
      modifies this`literals, this`garbage, this`occs, this`extension
      ensures Valid() && Removed(es, old(extension), extension, old(F()), F())
      ensures var negative := |LiveOf(old(occs)[Neg(lit)], old(garbage))|;
              if frozen || negative > occLimit then
                literals == old(literals) && garbage == old(garbage) && extension == old(extension)
              else if negative == 0 then
                forall r :: r in garbage <==> r in old(garbage) || r in old(occs)[lit]
              else
                BlockedGone(garbage, old(literals), old(garbage), old(occs), old(occs)[lit], lit, minSize, maxSize)
    {
      hide Connected, Removed, Live, ShouldBlock;
      NothingRemoved();
      es := [];
      if frozen {
        return;
      }
      ListsDistinct(literals, garbage, occs, lit);
      var positive := CountLive(lit);
      var negative := CountLive(Neg(lit));
      if negative > occLimit {
        return;
      }
      if negative == 0 {
        es := BlockPure(lit);
      } else if positive == 0 {
      } else if negative == 1 {
        es := BlockOneNegative(lit, minSize, maxSize);
      } else {
        es := BlockSeveral(lit, minSize, maxSize);
      }
    }

    method AnyTooLarge(nos: seq<nat>, maxSize: nat) returns (res: bool)
      requires forall r :: r in nos ==> r in literals
      ensures res <==> exists r :: r in nos && |literals[r]| > maxSize
    {
      var maxFound := 0;
      for i := 0 to |nos|
        invariant forall j :: 0 <= j < i ==> |literals[nos[j]]| <= maxFound
        invariant maxFound > 0 ==> exists j :: 0 <= j < i && |literals[nos[j]]| == maxFound
      {
        if |literals[nos[i]]| > maxFound {
          maxFound := |literals[nos[i]]|;
        }
      }
      res := maxFound > maxSize;
      if res {
        var j :| 0 <= j < |nos| && |literals[nos[j]]| == maxFound;
        assert nos[j] in nos;
      }
    }

    /** Test the candidates one by one; the blocked ones are removed. */
    method RemoveBlocked(lit: Lit, candidates: seq<nat>) returns (ghost es: seq<Entry>)
      requires Valid() && lit in occs && Neg(lit) in occs && NoDuplicates(candidates)
      requires forall r :: r in occs[Neg(lit)] ==> r !in garbage
      requires forall c :: c in candidates ==> c in literals && c !in garbage && lit in literals[c]
      modifies this`literals, this`garbage, this`occs, this`extension
      ensures Valid() && occs.Keys == old(occs).Keys && old(garbage) <= garbage
      ensures Removed(es, old(extension), extension, old(F()), F())
      ensures forall r :: r in garbage <==>
        r in old(garbage) || (r in candidates && Blocked(Lits(old(literals)[r]), lit, old(F())))
    {
      hide Connected, Removed, Live, Blocked, Reordered, MoveToFront;
      assert candidates[..0] == [];
      NothingRemoved();
      es := [];
      ReorderedSame(literals);
      for i := 0 to |candidates|
        invariant Valid() && occs.Keys == old(occs).Keys && Reordered(literals, old(literals))
        invariant literals.Keys == old(literals).Keys && old(garbage) <= garbage
        invariant forall r :: r in occs[Neg(lit)] ==> r !in garbage
        invariant Removed(es, old(extension), extension, old(F()), F())
        invariant forall j :: i <= j < |candidates| ==> candidates[j] !in garbage
        invariant forall r :: r in garbage <==>
          r in old(garbage) || (r in candidates[..i] && Blocked(Lits(old(literals)[r]), lit, old(F())))
      {
        var c := candidates[i];
        assert candidates[..i+1] == candidates[..i] + [c];
        ghost var before := literals;
        ReorderedLits(literals, old(literals), c);
        var blocked, at := IsBlockedClause(c, lit);
        ReorderedTrans(literals, before, old(literals));
        ReorderedLits(literals, old(literals), c);
        StillBlocked(Lits(old(literals)[c]), lit, old(F()), es, old(extension));
        BlockedBefore(old(literals), old(garbage), old(occs), literals, garbage, Lits(old(literals)[c]), lit);
        ListedInClauses(literals, garbage, occs, Neg(lit));
        NotListedTwice(literals, garbage, occs, c, lit);
        if blocked {
          es := RemoveNext(c, lit, es, old(extension), old(F()));
        }
      }
      assert candidates[..|candidates|] == candidates;
    }
  }

  /** A clause of acceptable size that is blocked on `lit`, when the clauses with
      `-lit` are not too large either. */
  ghost predicate ShouldBlock(literals: map<nat, Clause>, garbage: set<nat>, occs: map<Lit, seq<nat>>,
      lit: Lit, c: nat, minSize: nat, maxSize: nat)
  {
    && c in literals && minSize <= |literals[c]| <= maxSize
    && Neg(lit) in occs
    && (forall r :: r in occs[Neg(lit)] && r in literals && r !in garbage ==> |literals[r]| <= maxSize)
    && Blocked(Lits(literals[c]), lit, Live(literals, garbage))
  }

  /** Removing clauses with `lit` does not make others blocked on it. */
  lemma BlockedBefore(literals0: map<nat, Clause>, garbage0: set<nat>, occs0: map<Lit, seq<nat>>,
        literals: map<nat, Clause>, garbage: set<nat>, c: set<Lit>, lit: Lit)
    requires Connected(literals0, garbage0, occs0) && Reordered(literals, literals0)
    requires forall r :: r in garbage && r !in garbage0 ==> r in literals0 && lit in literals0[r]
    ensures Blocked(c, lit, Live(literals, garbage)) ==> Blocked(c, lit, Live(literals0, garbage0))
  {
    if Blocked(c, lit, Live(literals, garbage)) {
      forall d | d in Live(literals0, garbage0) && Neg(lit) in d
        ensures exists k :: k in d && k != Neg(lit) && Neg(k) in c
      {
        var r :| r in literals0 && r !in garbage0 && d == Lits(literals0[r]);
        ReorderedLits(literals, literals0, r);
        assert Neg(lit) in literals0[r];
        assert d in Live(literals, garbage);
      }
    }
  }

  lemma PureIsBlocked(literals: map<nat, Clause>, garbage: set<nat>, occs: map<Lit, seq<nat>>, c: set<Lit>, lit: Lit)
    requires Connected(literals, garbage, occs)
    requires Neg(lit) in occs && forall r :: r in occs[Neg(lit)] ==> r in garbage
    ensures Blocked(c, lit, Live(literals, garbage))
  {
  }

  lemma NotListedTwice(literals: map<nat, Clause>, garbage: set<nat>, occs: map<Lit, seq<nat>>, c: nat, lit: Lit)
    requires Connected(literals, garbage, occs) && Neg(lit) in occs && c in literals && lit in literals[c]
    ensures c !in occs[Neg(lit)]
  {
  }

  lemma SamePosition(s: seq<nat>, i: nat, j: nat)
    requires NoDuplicates(s) && i <= j < |s| && forall r, t :: r in s && t in s ==> r == t
    ensures i == j
  {
    assert s[i] in s && s[j] in s;
  }

  lemma OnlyElement(s: seq<nat>, d: nat)
    requires NoDuplicates(s) && d in s && forall r :: r in s ==> r == d
    ensures s == [d]
  {
    SamePosition(s, 0, |s| - 1);
    assert s[0] in s;
  }

  lemma OnlySmaller(literals: map<nat, Clause>, garbage: set<nat>, occs: map<Lit, seq<nat>>, lit: Lit, c: nat,
        minSize: nat, maxSize: nat)
    ensures ShouldBlock(literals, garbage, occs, lit, c, minSize, maxSize) ==>
      && c in literals && minSize <= |literals[c]| <= maxSize
      && Blocked(Lits(literals[c]), lit, Live(literals, garbage))
  {
  }

  /** The clauses of a list that are left. */
  ghost function LiveOf(os: seq<nat>, garbage: set<nat>): set<nat> {
    set r | r in os && r !in garbage
  }

  lemma OneMoreLive(os: seq<nat>, i: nat, garbage: set<nat>)
    requires i < |os| && NoDuplicates(os)
    ensures |LiveOf(os[..i+1], garbage)| == |LiveOf(os[..i], garbage)| + if os[i] in garbage then 0 else 1
  {
    assert os[..i+1] == os[..i] + [os[i]];
    assert LiveOf(os[..i+1], garbage) == LiveOf(os[..i], garbage) + if os[i] in garbage then {} else {os[i]};
  }

  lemma ListsDistinct(literals: map<nat, Clause>, garbage: set<nat>, occs: map<Lit, seq<nat>>, lit: Lit)
    requires Connected(literals, garbage, occs) && lit in occs && Neg(lit) in occs
    ensures NoDuplicates(occs[lit]) && NoDuplicates(occs[Neg(lit)])
  {
  }

  /** Of the clauses of a list exactly those that are blocked have gone. */
  ghost predicate BlockedGone(garbage: set<nat>, literals0: map<nat, Clause>, garbage0: set<nat>,
      occs0: map<Lit, seq<nat>>, os: seq<nat>, lit: Lit, minSize: nat, maxSize: nat)
  {
    forall r :: r in garbage <==>
      (r in garbage0 || (r in os && ShouldBlock(literals0, garbage0, occs0, lit, r, minSize, maxSize)))
  }

  lemma GoneNext(garbage: set<nat>, literals0: map<nat, Clause>, garbage0: set<nat>, occs0: map<Lit, seq<nat>>,
        os: seq<nat>, i: nat, lit: Lit, minSize: nat, maxSize: nat)
    requires i < |os| && BlockedGone(garbage, literals0, garbage0, occs0, os[..i], lit, minSize, maxSize)
    ensures BlockedGone(if ShouldBlock(literals0, garbage0, occs0, lit, os[i], minSize, maxSize)
      then garbage + {os[i]} else garbage, literals0, garbage0, occs0, os[..i+1], lit, minSize, maxSize)
    ensures os[i] in garbage ==> garbage + {os[i]} == garbage
  {
    hide ShouldBlock;
    assert os[..i+1] == os[..i] + [os[i]];
  }

  lemma GoneHave(garbage: set<nat>, literals0: map<nat, Clause>, garbage0: set<nat>, occs0: map<Lit, seq<nat>>,
        os: seq<nat>, lit: Lit, minSize: nat, maxSize: nat)
    requires BlockedGone(garbage, literals0, garbage0, occs0, os, lit, minSize, maxSize)
    requires forall r :: r in os ==> r in literals0 && lit in literals0[r]
    ensures forall r :: r in garbage && r !in garbage0 ==> r in literals0 && lit in literals0[r]
  {
    hide ShouldBlock;
  }

  lemma NoneGone(literals0: map<nat, Clause>, garbage0: set<nat>, occs0: map<Lit, seq<nat>>, os: seq<nat>, lit: Lit,
        minSize: nat, maxSize: nat)
    ensures BlockedGone(garbage0, literals0, garbage0, occs0, [], lit, minSize, maxSize)
    ensures (forall r :: r in os && r !in garbage0 ==>
      !ShouldBlock(literals0, garbage0, occs0, lit, r, minSize, maxSize)) ==>
      BlockedGone(garbage0, literals0, garbage0, occs0, os, lit, minSize, maxSize)
  {
    hide ShouldBlock;
  }

  lemma AllSmallEnough(literals: map<nat, Clause>, garbage: set<nat>, occs: map<Lit, seq<nat>>, lit: Lit, minSize: nat,
        maxSize: nat)
    requires Neg(lit) in occs
    ensures (forall r :: r in occs[Neg(lit)] && r in literals && r !in garbage ==> |literals[r]| <= maxSize) ==>
      forall c :: c in literals && minSize <= |literals[c]| <= maxSize ==>
        (Blocked(Lits(literals[c]), lit, Live(literals, garbage)) ==>
        ShouldBlock(literals, garbage, occs, lit, c, minSize, maxSize))
  {
  }

  lemma SmallEnough(literals: map<nat, Clause>, garbage: set<nat>, occs: map<Lit, seq<nat>>, lit: Lit, c: nat, d: nat,
        minSize: nat, maxSize: nat)
    requires c in literals && minSize <= |literals[c]| <= maxSize && d in literals && |literals[d]| <= maxSize
    requires Neg(lit) in occs && forall r :: r in occs[Neg(lit)] && r !in garbage ==> r == d
    ensures Blocked(Lits(literals[c]), lit, Live(literals, garbage)) ==>
      ShouldBlock(literals, garbage, occs, lit, c, minSize, maxSize)
  {
  }

  /** With `d` the only clause with `-lit`, clashing with it is being blocked. */
  lemma OneNegative(literals: map<nat, Clause>, garbage: set<nat>, occs: map<Lit, seq<nat>>, before: map<nat, Clause>,
      d: nat, c: nat, lit: Lit, marks: set<Lit>)
    requires Connected(literals, garbage, occs) && Reordered(literals, before)
    requires d in before && marks == Lits(before[d]) && c in literals
    requires Neg(lit) in occs && occs[Neg(lit)] == [d] && d !in garbage
    ensures Clashes(literals[c], lit, marks) <==> Blocked(Lits(literals[c]), lit, Live(literals, garbage))
  {
    ReorderedLits(literals, before, d);
    ClashSymmetric(literals[c], literals[d], lit);
    BlockedByOccurrences(literals, garbage, occs, Lits(literals[c]), lit);
    assert d in occs[Neg(lit)];
  }

  lemma ScannedKeeps(literals: map<nat, Clause>, before: map<nat, Clause>, garbage: set<nat>, occs: map<Lit, seq<nat>>,
      c: nat, at: nat, found: bool, scanned: Clause)
    requires Connected(literals, garbage, occs) && Reordered(literals, before) && c in literals
    requires found ==> at < |literals[c]| && scanned == MoveToFront(literals[c], at)
    requires !found ==> scanned == literals[c]
    ensures var now := literals[c := scanned];
            && Reordered(now, before) && Connected(now, garbage, occs)
            && Live(now, garbage) == Live(literals, garbage) && Lits(scanned) == Lits(literals[c])
  {
    hide Connected, Live;
    var now := literals[c := scanned];
    if found {
      ReorderedOne(before, literals, c, at);
      ReorderedOne(literals, literals, c, at);
    } else {
      assert now == literals;
    }
    ReorderedKeeps(now, literals, garbage, occs);
    ReorderedLits(now, literals, c);
  }

  lemma KeptList(literals: map<nat, Clause>, garbage: set<nat>, occs: map<Lit, seq<nat>>, l: Lit, kept: seq<nat>)
    requires Connected(literals, garbage, occs) && l in occs && NoDuplicates(kept)
    requires forall r :: r in kept <==> r in occs[l] && r !in garbage
    ensures Connected(literals, garbage, occs[l := kept])
  {
  }

  lemma EmptiedList(literals: map<nat, Clause>, garbage: set<nat>, occs: map<Lit, seq<nat>>, l: Lit)
    requires Connected(literals, garbage, occs) && l in occs && forall r :: r in occs[l] ==> r in garbage
    ensures Connected(literals, garbage, occs[l := []])
  {
  }

  /** No blocked clause of acceptable size is dropped by `block_candidates`. */
  lemma NotFiltered(literals: map<nat, Clause>, garbage: set<nat>, os: map<Lit, seq<nat>>, occs: map<Lit, seq<nat>>,
      lit: Lit, minSize: nat, maxSize: nat, candidates: seq<nat>)
    requires Connected(literals, garbage, os) && Connected(literals, garbage, occs) && lit in os
    requires Neg(lit) in occs && occs[Neg(lit)] != [] && forall r :: r in occs[Neg(lit)] ==> r !in garbage
    requires forall c :: c in candidates <==>
      && c in os[lit] && c !in garbage && minSize <= |literals[c]| <= maxSize
      && ClashesWithSome(literals, c, lit, occs[Neg(lit)])
    ensures forall c ::
      c in os[lit] && c !in garbage && ShouldBlock(literals, garbage, os, lit, c, minSize, maxSize) ==> c in candidates
  {
    forall c | c in os[lit] && c !in garbage && ShouldBlock(literals, garbage, os, lit, c, minSize, maxSize)
      ensures c in candidates
    {
      var r := occs[Neg(lit)][0];
      BlockedByOccurrences(literals, garbage, occs, Lits(literals[c]), lit);
      ClashSymmetric(literals[c], literals[r], lit);
      assert r in occs[Neg(lit)] && Clashes(literals[c], lit, Lits(literals[r]));
    }
  }

  /** When `block_impossible` finds a clause, no candidate is blocked. */
  lemma NoneBlocked(literals: map<nat, Clause>, garbage: set<nat>, os: map<Lit, seq<nat>>, occs: map<Lit, seq<nat>>,
      lit: Lit, minSize: nat, maxSize: nat, candidates: seq<nat>, r: nat)
    requires Connected(literals, garbage, occs)
    requires Neg(lit) in occs && r in occs[Neg(lit)] && forall d :: d in occs[Neg(lit)] ==> d !in garbage
    requires forall c :: c in candidates ==> c in literals && !Clashes(literals[r], Neg(lit), Lits(literals[c]))
    ensures forall c :: c in candidates ==> !ShouldBlock(literals, garbage, os, lit, c, minSize, maxSize)
  {
    forall c | c in candidates
      ensures !ShouldBlock(literals, garbage, os, lit, c, minSize, maxSize)
    {
      BlockedByOccurrences(literals, garbage, occs, Lits(literals[c]), lit);
    }
  }

  lemma TooLargeForAll(literals: map<nat, Clause>, garbage: set<nat>, os: map<Lit, seq<nat>>, lit: Lit, minSize: nat,
        maxSize: nat)
    requires Neg(lit) in os
    requires exists r :: r in os[Neg(lit)] && r in literals && r !in garbage && |literals[r]| > maxSize
    ensures forall c :: !ShouldBlock(literals, garbage, os, lit, c, minSize, maxSize)
  {
  }

  lemma ShouldBlockIsBlocked(literals: map<nat, Clause>, garbage: set<nat>, os: map<Lit, seq<nat>>, lit: Lit,
        minSize: nat, maxSize: nat)
    ensures forall c :: ShouldBlock(literals, garbage, os, lit, c, minSize, maxSize) ==>
      c in literals && Blocked(Lits(literals[c]), lit, Live(literals, garbage))
  {
  }

  method FindClash(c: Clause, skip: Lit, marks: set<Lit>) returns (found: bool)
    ensures found <==> Clashes(c, skip, marks)
  {
    for i := 0 to |c|
      invariant forall k :: 0 <= k < i ==> c[k] == skip || Neg(c[k]) !in marks
    {
      if c[i] != skip && Neg(c[i]) in marks {
        return true;
      }
    }
    return false;
  }

  lemma ClashWithUnion(literals: map<nat, Clause>, rs: seq<nat>, marks: set<Lit>, c: nat, skip: Lit)
    requires c in literals && forall r :: r in rs ==> r in literals
    requires forall l :: l in marks <==> exists j :: 0 <= j < |rs| && l in literals[rs[j]]
    ensures Clashes(literals[c], skip, marks) <==> ClashesWithSome(literals, c, skip, rs)
  {
    if Clashes(literals[c], skip, marks) {
      var k :| 0 <= k < |literals[c]| && literals[c][k] != skip && Neg(literals[c][k]) in marks;
      var j :| 0 <= j < |rs| && Neg(literals[c][k]) in literals[rs[j]];
      assert Neg(literals[c][k]) in Lits(literals[rs[j]]);
      assert rs[j] in rs && Clashes(literals[c], skip, Lits(literals[rs[j]]));
    }
    if ClashesWithSome(literals, c, skip, rs) {
      var r :| r in rs && r in literals && Clashes(literals[c], skip, Lits(literals[r]));
      var k :| 0 <= k < |literals[c]| && literals[c][k] != skip && Neg(literals[c][k]) in Lits(literals[r]);
      var j :| 0 <= j < |rs| && rs[j] == r;
      assert Neg(literals[c][k]) in marks;
    }
  }

  /** Clashing is symmetric in the two clauses. */
  lemma ClashSymmetric(c: Clause, d: Clause, lit: Lit)
    ensures Clashes(c, lit, Lits(d)) <==> Clashes(d, Neg(lit), Lits(c))
  {
    if Clashes(c, lit, Lits(d)) {
      ClashMirrored(c, d, lit);
    }
    if Clashes(d, Neg(lit), Lits(c)) {
      ClashMirrored(d, c, Neg(lit));
    }
  }

  lemma ClashMirrored(c: Clause, d: Clause, lit: Lit)
    requires Clashes(c, lit, Lits(d))
    ensures Clashes(d, Neg(lit), Lits(c))
  {
    var k :| 0 <= k < |c| && c[k] != lit && Neg(c[k]) in Lits(d);
    var j :| 0 <= j < |d| && d[j] == Neg(c[k]);
    assert Neg(d[j]) == c[k] && c[k] in Lits(c) && d[j] != Neg(lit);
  }

  lemma BlockedInFewer(c: set<Lit>, lit: Lit, fewer: Formula, f: Formula)
    requires Blocked(c, lit, f) && fewer <= f
    ensures Blocked(c, lit, fewer)
  {
  }

  lemma ClashesReordered(now: map<nat, Clause>, before: map<nat, Clause>, r: nat, skip: Lit, c: set<Lit>)
    requires Reordered(now, before) && r in now
    ensures Clashes(now[r], skip, c) <==> Clashes(before[r], skip, c)
  {
    ReorderedLits(now, before, r);
    if Clashes(now[r], skip, c) {
      var k :| 0 <= k < |now[r]| && now[r][k] != skip && Neg(now[r][k]) in c;
      assert now[r][k] in before[r];
    }
    if Clashes(before[r], skip, c) {
      var k :| 0 <= k < |before[r]| && before[r][k] != skip && Neg(before[r][k]) in c;
      assert before[r][k] in now[r];
    }
  }
}
