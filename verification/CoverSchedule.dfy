/** The schedule of a round of covered clause elimination (cover.cpp, class
    clause_covered_or_smaller and the first half of cover_round). */
module CoverSchedule {
  import opened Logic
  import opened Clauses

  /** What a round starts from. */
  datatype Setting = Setting(literals: map<nat, Clause>, garbage: set<nat>, root: map<int, bool>, frozen: set<int>,
    minSize: nat, maxSize: nat)

  ghost predicate OnlyFrozen(c: Clause, frozen: set<int>) {
    forall l :: l in c ==> Var(l) in frozen
  }

  /** A clause a round may try: not satisfied on the root level, of acceptable
      size, and with a literal that is not frozen. */
  ghost predicate Eligible(r: nat, s: Setting) {
    && r in s.literals
    && r !in s.garbage
    && !HasTrue(s.literals[r], s.root)
    && !OnlyFrozen(s.literals[r], s.frozen)
    && s.minSize <= |s.literals[r]| <= s.maxSize
  }

  ghost predicate AllTried(s: Setting, tried: set<nat>) {
    forall r :: Eligible(r, s) ==> r in tried
  }

  /** The clauses that count as tried in a round: if all eligible ones have been
      tried before they get another chance. */
  ghost function StillTried(s: Setting, tried: set<nat>): set<nat> {
    set r | r in tried && !(AllTried(s, tried) && Eligible(r, s))
  }

  ghost predicate ComesBefore(list: seq<nat>, a: nat, b: nat) {
    exists i, j :: 0 <= i < j < |list| && list[i] == a && list[j] == b
  }

  /** Which of two clauses a round tries first: the one not tried before, else the
      larger one, else the one later in the list. */
  ghost predicate TriedBefore(a: nat, b: nat, literals: map<nat, Clause>, tried: set<nat>, clauses: seq<nat>)
    requires a in literals && b in literals
  {
    if (a in tried) != (b in tried) then b in tried
    else if |literals[a]| != |literals[b]| then |literals[a]| > |literals[b]|
    else ComesBefore(clauses, b, a)
  }

  /** `clause_covered_or_smaller`. */
  predicate CoveredOrSmaller(a: nat, b: nat, literals: map<nat, Clause>, tried: set<nat>)
    requires a in literals && b in literals
  {
    if a in tried && b !in tried then true
    else if a !in tried && b in tried then false
    else |literals[a]| < |literals[b]|
  }

  /** Sorted for the comparison above, clauses of equal rank as in `list`. */
  ghost predicate StablySorted(s: seq<nat>, list: seq<nat>, literals: map<nat, Clause>, tried: set<nat>) {
    && (forall r :: r in s ==> r in literals)
    && forall i, j :: 0 <= i < j < |s| ==> TriedBefore(s[j], s[i], literals, tried, list)
  }

  lemma FurtherList(s: seq<nat>, list: seq<nat>, c: nat, literals: map<nat, Clause>, tried: set<nat>)
    requires StablySorted(s, list, literals, tried)
    ensures StablySorted(s, list + [c], literals, tried)
  {
    forall a, b | ComesBefore(list, a, b)
      ensures ComesBefore(list + [c], a, b)
    {
      var i, j :| 0 <= i < j < |list| && list[i] == a && list[j] == b;
      assert (list + [c])[i] == a && (list + [c])[j] == b;
    }
  }

  /** The place before which everything is not larger and after which everything
      is larger is where the next clause of the list belongs. */
  lemma Inserted(s: seq<nat>, k: nat, list: seq<nat>, c: nat, literals: map<nat, Clause>, tried: set<nat>)
    requires k <= |s| && c in literals && StablySorted(s, list, literals, tried)
    requires forall r :: r in s ==> r in list
    requires forall i :: k <= i < |s| ==> CoveredOrSmaller(c, s[i], literals, tried)
    requires k > 0 ==> !CoveredOrSmaller(c, s[k-1], literals, tried)
    ensures StablySorted(s[..k] + [c] + s[k..], list + [c], literals, tried)
  {
    FurtherList(s, list, c, literals, tried);
    var t := s[..k] + [c] + s[k..];
    forall i, j | 0 <= i < j < |t|
      ensures TriedBefore(t[j], t[i], literals, tried, list + [c])
    {
      if j == k {
        assert TriedBefore(s[k-1], s[i], literals, tried, list) || i == k - 1;
        assert s[i] in s && s[i] in list;
        var p :| 0 <= p < |list| && list[p] == s[i];
        assert (list + [c])[p] == s[i] && (list + [c])[|list|] == c;
        assert ComesBefore(list + [c], s[i], c);
      }
    }
  }

  lemma InsertedOnce(s: seq<nat>, k: nat, list: seq<nat>, c: nat)
    requires k <= |s| && NoDuplicates(s) && c !in list && forall r :: r in s <==> r in list
    ensures NoDuplicates(s[..k] + [c] + s[k..]) && forall r :: r in s[..k] + [c] + s[k..] <==> r in list + [c]
  {
    assert s == s[..k] + s[k..];
  }

  lemma NothingSorted(literals: map<nat, Clause>, tried: set<nat>)
    ensures StablySorted([], [], literals, tried) && NoDuplicates<nat>([])
  {
  }

  lemma NextOfList(list: seq<nat>, i: nat)
    requires NoDuplicates(list) && i < |list|
    ensures list[i] !in list[..i]
  {
  }

  /** `stable_sort` with `clause_covered_or_smaller`. */
  method StableSort(list: seq<nat>, literals: map<nat, Clause>, tried: set<nat>) returns (s: seq<nat>)
    requires NoDuplicates(list) && forall r :: r in list ==> r in literals
    ensures NoDuplicates(s) && forall r :: r in s <==> r in list
    ensures StablySorted(s, list, literals, tried)
  {
    hide NoDuplicates, StablySorted;
    s := [];
    NothingSorted(literals, tried);
    assert list[..0] == [];
    for i := 0 to |list|
      invariant NoDuplicates(s) && forall r :: r in s <==> r in list[..i]
      invariant StablySorted(s, list[..i], literals, tried)
    {
      assert forall r :: r in list[..i] ==> r in list;
      var k := |s|;
      NextOfList(list, i);
      while k > 0 && CoveredOrSmaller(list[i], s[k-1], literals, tried)
        invariant 0 <= k <= |s|
        invariant forall j :: k <= j < |s| ==> CoveredOrSmaller(list[i], s[j], literals, tried)
      {
        k := k - 1;
      }
      Inserted(s, k, list[..i], list[i], literals, tried);
      InsertedOnce(s, k, list[..i], list[i]);
      assert list[..i+1] == list[..i] + [list[i]];
      s := s[..k] + [list[i]] + s[k..];
    }
    assert list[..|list|] == list;
  }

  // ------------------------------------------------------------- collecting

  /** Clauses that have both been tried, or neither, are in the order of `list`. */
  ghost predicate ListOrder(s: seq<nat>, list: seq<nat>, tried: set<nat>) {
    forall i, j :: 0 <= i < j < |s| && (s[i] in tried <==> s[j] in tried) ==> ComesBefore(list, s[i], s[j])
  }

  lemma ListedNext(s: seq<nat>, list: seq<nat>, i: nat, tried: set<nat>)
    requires i < |list| && ListOrder(s, list, tried)
    requires forall r :: r in s && (r in tried <==> list[i] in tried) ==> r in list[..i]
    ensures ListOrder(s + [list[i]], list, tried)
  {
    var t := s + [list[i]];
    forall a, b | 0 <= a < b < |t| && (t[a] in tried <==> t[b] in tried)
      ensures ComesBefore(list, t[a], t[b])
    {
      if b == |s| {
        assert s[a] in s && s[a] in list[..i];
      }
    }
  }

  lemma SortedAsListed(s: seq<nat>, schedule: seq<nat>, list: seq<nat>, literals: map<nat, Clause>, tried: set<nat>)
    requires StablySorted(s, schedule, literals, tried) && ListOrder(schedule, list, tried)
    ensures StablySorted(s, list, literals, tried)
  {
    forall a, b | (a in tried <==> b in tried) && ComesBefore(schedule, a, b)
      ensures ComesBefore(list, a, b)
    {
    }
  }

  /** What the first pass over the clauses has found. */
  datatype Scan = Scan(garbage: set<nat>, untouched: set<nat>, schedule: seq<nat>)

  ghost predicate Scanned(list: seq<nat>, i: nat, s: Setting, tried: set<nat>, x: Scan)
    requires i <= |list|
  {
    && (forall r :: r in x.garbage <==>
          r in s.garbage || (r in list[..i] && r in s.literals && HasTrue(s.literals[r], s.root)))
    && (forall r :: r in x.untouched ==> r in s.literals && OnlyFrozen(s.literals[r], s.frozen))
    && (forall r :: r in list[..i] && r in s.literals && r !in x.garbage && OnlyFrozen(s.literals[r], s.frozen) ==>
          r in x.untouched)
    && (forall r :: r in x.schedule <==> r in list[..i] && r !in tried && Eligible(r, s))
    && NoDuplicates(x.schedule)
    && ListOrder(x.schedule, list, tried)
  }

  lemma ScannedNone(list: seq<nat>, s: Setting, tried: set<nat>)
    ensures Scanned(list, 0, s, tried, Scan(s.garbage, {}, []))
  {
  }

  lemma ScannedNext(list: seq<nat>, i: nat, c: nat, s: Setting, tried: set<nat>, x: Scan, y: Scan)
    requires i < |list| && c == list[i] && NoDuplicates(list) && c in s.literals && Scanned(list, i, s, tried, x)
    requires y ==
      if c in x.garbage then x
      else if HasTrue(s.literals[c], s.root) then x.(garbage := x.garbage + {c})
      else if OnlyFrozen(s.literals[c], s.frozen) then x.(untouched := x.untouched + {c})
      else if c in tried || !(s.minSize <= |s.literals[c]| <= s.maxSize) then x
      else x.(schedule := x.schedule + [c])
    ensures Scanned(list, i + 1, s, tried, y)
  {
    hide OnlyFrozen, HasTrue, ComesBefore;
    assert list[..i+1] == list[..i] + [c];
    assert c !in list[..i];
    if y.schedule != x.schedule {
      hide ListOrder;
      ListedNext(x.schedule, list, i, tried);
    }
  }

  ghost function RootSatisfied(literals: map<nat, Clause>, root: map<int, bool>): set<nat> {
    set r | r in literals && HasTrue(literals[r], root)
  }

  lemma EligibleLeft(s: Setting)
    ensures forall r :: Eligible(r, s) ==> r in s.literals && r !in s.garbage + RootSatisfied(s.literals, s.root)
  {
  }

  lemma ScannedGarbage(list: seq<nat>, s: Setting, tried: set<nat>, x: Scan)
    requires Scanned(list, |list|, s, tried, x) && forall r :: r in s.literals ==> r in list
    ensures x.garbage == s.garbage + RootSatisfied(s.literals, s.root)
  {
    assert list[..|list|] == list;
  }

  /** The tests of the second pass tell which clauses are eligible. */
  lemma ScannedAt(list: seq<nat>, i: nat, s: Setting, tried: set<nat>, x: Scan)
    requires i < |list| && list[i] in s.literals && Scanned(list, |list|, s, tried, x)
    ensures Eligible(list[i], s) <==>
      && list[i] !in x.garbage && list[i] !in x.untouched
      && s.minSize <= |s.literals[list[i]]| <= s.maxSize
  {
    assert list[..|list|] == list && list[i] in list;
  }

  /** What the second pass has done: the eligible clauses tried before join the
      schedule, and lose their flag if nothing else is on it. */
  ghost predicate Rescanned(list: seq<nat>, i: nat, s: Setting, tried0: set<nat>, tried: set<nat>, schedule: seq<nat>)
    requires i <= |list|
  {
    && (forall r :: r in schedule <==> Eligible(r, s) && (r !in tried0 || r in list[..i]))
    && (forall r :: r in tried <==> r in tried0 && !(AllTried(s, tried0) && r in list[..i] && Eligible(r, s)))
    && NoDuplicates(schedule)
    && ListOrder(schedule, list, tried)
  }

  lemma RescannedNone(list: seq<nat>, s: Setting, tried: set<nat>, x: Scan)
    requires Scanned(list, |list|, s, tried, x) && forall r :: r in s.literals ==> r in list
    ensures Rescanned(list, 0, s, tried, tried, x.schedule) && (x.schedule == [] <==> AllTried(s, tried))
  {
    assert list[..|list|] == list;
    if x.schedule != [] {
      assert x.schedule[0] in x.schedule;
    }
  }

  lemma RescannedNext(list: seq<nat>, i: nat, s: Setting, tried0: set<nat>, tried: set<nat>, schedule: seq<nat>)
    requires i < |list| && NoDuplicates(list) && Rescanned(list, i, s, tried0, tried, schedule)
    ensures !Eligible(list[i], s) ==> Rescanned(list, i + 1, s, tried0, tried, schedule)
    ensures Eligible(list[i], s) && AllTried(s, tried0) ==>
      Rescanned(list, i + 1, s, tried0, tried - {list[i]}, schedule + [list[i]])
    ensures Eligible(list[i], s) && !AllTried(s, tried0) ==> (list[i] in tried <==> list[i] in tried0)
    ensures Eligible(list[i], s) && !AllTried(s, tried0) ==>
      Rescanned(list, i + 1, s, tried0, tried, if list[i] in tried0 then schedule + [list[i]] else schedule)
  {
    hide Eligible, ComesBefore;
    var c := list[i];
    assert list[..i+1] == list[..i] + [c];
    assert c !in list[..i];
    if Eligible(c, s) && c in tried0 {
      var now := if AllTried(s, tried0) then tried - {c} else tried;
      assert ListOrder(schedule, list, now);
      hide ListOrder;
      ListedNext(schedule, list, i, now);
    }
  }

  lemma RescannedAll(list: seq<nat>, s: Setting, tried0: set<nat>, tried: set<nat>, schedule: seq<nat>)
    requires Rescanned(list, |list|, s, tried0, tried, schedule) && forall r :: r in s.literals ==> r in list
    ensures tried == StillTried(s, tried0) && forall r :: r in schedule <==> Eligible(r, s)
  {
    assert list[..|list|] == list;
    assert forall r :: Eligible(r, s) ==> r in list;
  }
}
