/** Tarjan's algorithm with explicit stacks: what every step keeps. */
module Tarjan {
  import opened Logic
  import opened Digraph

  /** A node that has been entered but not left, and those of its children that are
      still on the work stack above it. */
  datatype Frame = Frame(node: Lit, pending: seq<Lit>)

  /** Depth first search numbers, smallest numbers reached, completely traversed
      nodes, the component stack, and the work stack cut into frames. */
  datatype Search = Search(idx: map<Lit, nat>, low: map<Lit, nat>, done: set<Lit>, scc: seq<Lit>, frames: seq<Frame>)

  ghost function Flatten(fs: seq<Frame>): seq<Lit> {
    if fs == [] then [] else Flatten(fs[..|fs| - 1]) + [fs[|fs| - 1].node] + fs[|fs| - 1].pending
  }

  lemma FlattenMore(fs: seq<Frame>, f: Frame)
    ensures Flatten(fs + [f]) == Flatten(fs) + [f.node] + f.pending
  {
    assert (fs + [f])[..|fs|] == fs;
  }

  /** The work stack shrinks by its last element. */
  lemma FlattenPop(fs: seq<Frame>)
    requires fs != []
    ensures Flatten(fs) != []
    ensures var f, w, rest := fs[|fs| - 1], Flatten(fs), fs[..|fs| - 1];
            if f.pending == [] then w[|w| - 1] == f.node && w[..|w| - 1] == Flatten(rest)
            else w[|w| - 1] == f.pending[|f.pending| - 1] &&
                 w[..|w| - 1] == Flatten(rest + [Frame(f.node, f.pending[..|f.pending| - 1])])
  {
    var f, rest := fs[|fs| - 1], fs[..|fs| - 1];
    if f.pending != [] {
      var less := f.pending[..|f.pending| - 1];
      FlattenMore(rest, Frame(f.node, less));
      assert f.pending == less + [f.pending[|f.pending| - 1]];
    }
  }

  // ---------------------------------------------------------------- invariants

  ghost predicate IsOpen(s: Search, l: Lit) {
    exists i :: 0 <= i < |s.frames| && s.frames[i].node == l
  }

  /** The component stack holds the numbered nodes that are not done, in order. */
  ghost predicate Numbered(s: Search, n: nat) {
    && s.low.Keys == s.idx.Keys && s.done <= s.idx.Keys && (forall l :: l in s.idx ==> s.idx[l] <= n)
    && (forall l :: l in s.scc <==> l in s.idx && l !in s.done)
    && (forall i, j :: 0 <= i < j < |s.scc| ==> s.idx[s.scc[i]] < s.idx[s.scc[j]])
  }

  ghost predicate FrameOk(g: Graph, s: Search, i: nat)
    requires i < |s.frames|
  {
    var f := s.frames[i];
    && f.node in s.scc
    && (forall c :: c in f.pending ==> Edge(g, f.node, c))
    && (forall c :: Edge(g, f.node, c) ==> c in s.idx || c in f.pending)
    && (forall j :: 0 <= j <= i ==> s.frames[j].node !in f.pending)
  }

  /** The open nodes form a path, and their other children are still pending. */
  ghost predicate FramesOk(g: Graph, s: Search) {
    && (forall i :: 0 <= i < |s.frames| ==> FrameOk(g, s, i))
    && (forall i, j :: 0 <= i < j < |s.frames| && s.frames[i].node in s.idx && s.frames[j].node in s.idx ==>
      s.idx[s.frames[i].node] < s.idx[s.frames[j].node])
    && (forall i, j :: 0 <= i && j == i + 1 < |s.frames| ==> Edge(g, s.frames[i].node, s.frames[j].node))
  }

  /** Nodes that have been left have no children without a number. */
  ghost predicate Left(g: Graph, s: Search) {
    forall l, c :: l in s.idx && !IsOpen(s, l) && Edge(g, l, c) ==> c in s.idx
  }

  /** Open nodes reach all that is above them on the component stack. */
  ghost predicate ReachDown(g: Graph, s: Search) {
    forall i, y ::
      && 0 <= i < |s.frames|
      && s.frames[i].node in s.idx
      && y in s.scc
      && y in s.idx
      && s.idx[s.frames[i].node] <= s.idx[y] ==>
      Reaches(g, s.frames[i].node, y)
  }

  /** The node reaches an open node that is not above it. */
  ghost predicate ReachesOpen(g: Graph, s: Search, y: Lit) {
    exists i ::
      && 0 <= i < |s.frames|
      && s.frames[i].node in s.idx
      && y in s.idx
      && s.idx[s.frames[i].node] <= s.idx[y]
      && Reaches(g, y, s.frames[i].node)
  }

  ghost predicate ReachUp(g: Graph, s: Search) {
    forall y :: y in s.scc ==> ReachesOpen(g, s, y)
  }

  /** `m` is the number of a node on the stack, not above `y` and reached by `y`. */
  ghost predicate LowAt(g: Graph, s: Search, y: Lit, m: nat) {
    exists z :: z in s.scc && z in s.idx && s.idx[z] == m && y in s.idx && m <= s.idx[y] && Reaches(g, y, z)
  }

  ghost predicate LowOk(g: Graph, s: Search) {
    forall y :: y in s.scc ==> y in s.low && LowAt(g, s, y, s.low[y])
  }

  /** Some child of the open node that has been left has a low number at most `m`. */
  ghost predicate ChildLow(g: Graph, s: Search, x: Lit, m: nat) {
    exists w :: Edge(g, x, w) && w in s.scc && !IsOpen(s, w) && w in s.low && s.low[w] <= m
  }

  /** `y` was entered after the open node `i` and before the next one. */
  ghost predicate Segment(s: Search, i: nat, y: Lit) {
    && i < |s.frames| && s.frames[i].node in s.idx && y in s.idx && s.idx[s.frames[i].node] < s.idx[y]
    && (i + 1 < |s.frames| ==> s.frames[i + 1].node in s.idx && s.idx[y] < s.idx[s.frames[i + 1].node])
  }

  /** What left nodes reach in one step is known to the open node below them. */
  ghost predicate Covered(g: Graph, s: Search) {
    forall i: nat, y, z ::
      Segment(s, i, y) && y in s.scc && !IsOpen(s, y) && Edge(g, y, z) && z in s.scc && z in s.idx ==>
      ChildLow(g, s, s.frames[i].node, s.idx[z])
  }

  /** Nodes that have been left but are not done reach below themselves. */
  ghost predicate Strict(s: Search) {
    forall y :: y in s.scc && !IsOpen(s, y) && y in s.low && y in s.idx ==> s.low[y] < s.idx[y]
  }

  ghost predicate Inv(g: Graph, s: Search, n: nat) {
    && Strict(s) && Numbered(s, n) && FramesOk(g, s) && Left(g, s) && Closed(g, s.done)
    && ReachDown(g, s) && ReachUp(g, s) && LowOk(g, s) && Covered(g, s)
  }

  lemma FrameFacts(g: Graph, s: Search, i: nat)
    requires FramesOk(g, s) && i < |s.frames|
    ensures FrameOk(g, s, i)
  {
  }

  /** Two nodes on the stack with the same number are equal. */
  lemma SameNumber(s: Search, n: nat, x: Lit, y: Lit)
    requires Numbered(s, n) && x in s.scc && y in s.scc && s.idx[x] == s.idx[y]
    ensures x == y
  {
    var i :| 0 <= i < |s.scc| && s.scc[i] == x;
    var j :| 0 <= j < |s.scc| && s.scc[j] == y;
    assert i == j;
  }

  /** The last open node has the largest number of all open nodes. */
  lemma LastOpen(g: Graph, s: Search, i: nat)
    requires FramesOk(g, s) && i < |s.frames|
    ensures var k := |s.frames| - 1; s.frames[i].node in s.scc && s.frames[k].node in s.scc
    ensures var k := |s.frames| - 1; s.frames[i].node in s.idx && s.frames[k].node in s.idx ==>
      s.idx[s.frames[i].node] <= s.idx[s.frames[k].node]
  {
    FrameFacts(g, s, i);
    FrameFacts(g, s, |s.frames| - 1);
  }

  lemma LowIs(g: Graph, s: Search, y: Lit, z: Lit)
    requires z in s.scc && z in s.idx && y in s.idx && s.idx[z] <= s.idx[y] && Reaches(g, y, z)
    ensures LowAt(g, s, y, s.idx[z])
  {
  }

  lemma LowOf(g: Graph, s: Search, y: Lit, m: nat) returns (z: Lit)
    requires LowAt(g, s, y, m)
    ensures z in s.scc && z in s.idx && s.idx[z] == m && y in s.idx && m <= s.idx[y] && Reaches(g, y, z)
  {
    z :| z in s.scc && z in s.idx && s.idx[z] == m && y in s.idx && m <= s.idx[y] && Reaches(g, y, z);
  }

  lemma LowOkAt(g: Graph, s: Search, y: Lit)
    requires LowOk(g, s) && y in s.scc
    ensures y in s.low && LowAt(g, s, y, s.low[y])
  {
    hide LowAt;
  }

  lemma OpenOf(g: Graph, s: Search, y: Lit) returns (i: nat)
    requires ReachUp(g, s) && y in s.scc
    ensures i < |s.frames| && s.frames[i].node in s.idx && y in s.idx && s.idx[s.frames[i].node] <= s.idx[y]
    ensures Reaches(g, y, s.frames[i].node)
  {
    assert ReachesOpen(g, s, y);
    i :|
      && 0 <= i < |s.frames|
      && s.frames[i].node in s.idx
      && y in s.idx
      && s.idx[s.frames[i].node] <= s.idx[y]
      && Reaches(g, y, s.frames[i].node);
  }

  lemma OpenIs(g: Graph, s: Search, y: Lit, i: nat)
    requires i < |s.frames| && s.frames[i].node in s.idx && y in s.idx && s.idx[s.frames[i].node] <= s.idx[y]
    requires Reaches(g, y, s.frames[i].node)
    ensures ReachesOpen(g, s, y)
  {
  }

  /** Low numbers keep their meaning while stack and numbers stay. */
  lemma SameLow(g: Graph, s: Search, t: Search)
    requires LowOk(g, s) && t.scc == s.scc && t.idx == s.idx && t.low == s.low
    ensures LowOk(g, t)
  {
    hide Reaches, LowAt;
    forall y | y in t.scc
      ensures y in t.low && LowAt(g, t, y, t.low[y])
    {
      LowOkAt(g, s, y);
      var z := LowOf(g, s, y, s.low[y]);
      LowIs(g, t, y, z);
    }
  }

  ghost predicate SameNodes(s: Search, t: Search) {
    |t.frames| == |s.frames| && forall i :: 0 <= i < |s.frames| ==> t.frames[i].node == s.frames[i].node
  }

  lemma SameReaches(g: Graph, s: Search, t: Search)
    requires ReachUp(g, s) && ReachDown(g, s) && t.scc == s.scc && t.idx == s.idx && SameNodes(s, t)
    ensures ReachUp(g, t) && ReachDown(g, t)
  {
    hide Reaches, ReachesOpen;
    forall y | y in t.scc
      ensures ReachesOpen(g, t, y)
    {
      var i := OpenOf(g, s, y);
      OpenIs(g, t, y, i);
    }
  }

  // ----------------------------------------------------------- entering a node

  /** `c` gets the next number; its children without a number are pushed. */
  ghost function Enter(s: Search, c: Lit, n: nat, kids: seq<Lit>): Search {
    Search(s.idx[c := n], s.low[c := n], s.done, s.scc + [c], s.frames + [Frame(c, kids)])
  }

  /** The children of `c` that have no number, `c` having one. */
  ghost predicate Kids(g: Graph, s: Search, c: Lit, kids: seq<Lit>) {
    && (forall k :: k in kids ==> Edge(g, c, k) && k !in s.idx && k != c)
    && (forall k :: Edge(g, c, k) && k !in s.idx && k != c ==> k in kids)
  }

  /** `c` is a root, or a child of the last open node. */
  ghost predicate CanEnter(g: Graph, s: Search, c: Lit) {
    c !in s.idx && (s.frames != [] ==> Edge(g, s.frames[|s.frames| - 1].node, c))
  }

  lemma EnterOpen(s: Search, c: Lit, n: nat, kids: seq<Lit>)
    ensures forall l :: IsOpen(Enter(s, c, n, kids), l) <==> IsOpen(s, l) || l == c
  {
    var t := Enter(s, c, n, kids);
    forall l
      ensures IsOpen(t, l) <==> IsOpen(s, l) || l == c
    {
      if IsOpen(s, l) {
        var i :| 0 <= i < |s.frames| && s.frames[i].node == l;
        assert t.frames[i].node == l;
      }
      assert t.frames[|s.frames|].node == c;
    }
  }

  lemma EnterNumbered(s: Search, c: Lit, n: nat, kids: seq<Lit>)
    requires Numbered(s, n) && c !in s.idx
    ensures Numbered(Enter(s, c, n + 1, kids), n + 1)
  {
    var t := Enter(s, c, n + 1, kids);
    forall l
      ensures l in t.scc <==> l in t.idx && l !in t.done
    {
      assert l in t.scc <==> l in s.scc || l == c;
    }
    forall i, j | 0 <= i < j < |t.scc|
      ensures t.idx[t.scc[i]] < t.idx[t.scc[j]]
    {
      assert t.scc[i] == s.scc[i] && s.scc[i] in s.scc;
      assert j < |s.scc| ==> t.scc[j] == s.scc[j] && s.scc[j] in s.scc;
    }
  }

  lemma EnterFrames(g: Graph, s: Search, c: Lit, n: nat, kids: seq<Lit>)
    requires Numbered(s, n) && FramesOk(g, s) && CanEnter(g, s, c) && Kids(g, s, c, kids)
    ensures FramesOk(g, Enter(s, c, n + 1, kids))
  {
    hide Reaches;
    var t := Enter(s, c, n + 1, kids);
    forall i | 0 <= i < |t.frames|
      ensures FrameOk(g, t, i)
    {
      if i < |s.frames| {
        FrameFacts(g, s, i);
        assert t.frames[i] == s.frames[i];
        assert forall j :: 0 <= j <= i ==> t.frames[j] == s.frames[j];
      } else {
        forall j | 0 <= j <= i
          ensures t.frames[j].node !in kids
        {
          if j < |s.frames| {
            FrameFacts(g, s, j);
            assert t.frames[j].node in s.scc;
          }
        }
      }
    }
    forall i, j | 0 <= i < j < |t.frames|
      ensures t.frames[i].node in t.idx && t.frames[j].node in t.idx
      ensures t.idx[t.frames[i].node] < t.idx[t.frames[j].node]
    {
      FrameFacts(g, s, i);
      if j < |s.frames| {
        FrameFacts(g, s, j);
      }
    }
  }

  lemma EnterLeft(g: Graph, s: Search, c: Lit, n: nat, kids: seq<Lit>)
    requires Left(g, s)
    ensures Left(g, Enter(s, c, n, kids))
  {
    EnterOpen(s, c, n, kids);
  }

  lemma EnterReachDown(g: Graph, s: Search, c: Lit, n: nat, kids: seq<Lit>)
    requires Numbered(s, n) && FramesOk(g, s) && CanEnter(g, s, c) && ReachDown(g, s)
    ensures ReachDown(g, Enter(s, c, n + 1, kids))
  {
    var t := Enter(s, c, n + 1, kids);
    forall i, y |
      && 0 <= i < |t.frames| && t.frames[i].node in t.idx
      && y in t.scc && y in t.idx && t.idx[t.frames[i].node] <= t.idx[y]
      ensures Reaches(g, t.frames[i].node, y)
    {
      if i == |s.frames| {
        ReachesSelf(g, c);
        assert y in s.scc ==> y in s.idx;
      } else {
        FrameFacts(g, s, i);
        if y == c {
          var x := s.frames[|s.frames| - 1].node;
          LastOpen(g, s, i);
          assert Reaches(g, s.frames[i].node, x);
          ReachesStep(g, s.frames[i].node, x, c);
        } else {
          assert y in s.scc;
        }
      }
    }
  }

  lemma EnterReachUp(g: Graph, s: Search, c: Lit, n: nat, kids: seq<Lit>)
    requires Numbered(s, n) && FramesOk(g, s) && c !in s.idx && ReachUp(g, s)
    ensures ReachUp(g, Enter(s, c, n + 1, kids))
  {
    var t := Enter(s, c, n + 1, kids);
    forall y | y in t.scc
      ensures ReachesOpen(g, t, y)
    {
      if y == c {
        ReachesSelf(g, c);
        assert t.frames[|s.frames|].node == c;
      } else {
        assert y in s.scc;
        var i :|
          && 0 <= i < |s.frames|
          && s.frames[i].node in s.idx
          && y in s.idx
          && s.idx[s.frames[i].node] <= s.idx[y]
          && Reaches(g, y, s.frames[i].node);
        FrameFacts(g, s, i);
        assert t.frames[i].node == s.frames[i].node;
      }
    }
  }

  lemma EnterLow(g: Graph, s: Search, c: Lit, n: nat, kids: seq<Lit>)
    requires Numbered(s, n) && c !in s.idx && LowOk(g, s)
    ensures LowOk(g, Enter(s, c, n + 1, kids))
  {
    hide LowAt, Reaches;
    var t := Enter(s, c, n + 1, kids);
    forall y | y in t.scc
      ensures y in t.low && LowAt(g, t, y, t.low[y])
    {
      if y == c {
        ReachesSelf(g, c);
        LowIs(g, t, c, c);
      } else {
        assert y in s.scc;
        LowOkAt(g, s, y);
        var z := LowOf(g, s, y, s.low[y]);
        assert z in t.scc && t.idx[z] == s.idx[z];
        LowIs(g, t, y, z);
      }
    }
  }

  lemma EnterCovered(g: Graph, s: Search, c: Lit, n: nat, kids: seq<Lit>)
    requires Numbered(s, n) && FramesOk(g, s) && Left(g, s) && c !in s.idx && Covered(g, s)
    ensures Covered(g, Enter(s, c, n + 1, kids))
  {
    var t := Enter(s, c, n + 1, kids);
    EnterOpen(s, c, n + 1, kids);
    forall i: nat, y, z | Segment(t, i, y) && y in t.scc && !IsOpen(t, y) && Edge(g, y, z) && z in t.scc && z in t.idx
      ensures ChildLow(g, t, t.frames[i].node, t.idx[z])
    {
      assert y in s.scc && z in s.idx && z != c;
      assert i < |s.frames|;
      assert t.frames[i] == s.frames[i] && (i + 1 < |s.frames| ==> t.frames[i + 1] == s.frames[i + 1]);
      FrameFacts(g, s, i);
      if i + 1 < |s.frames| {
        FrameFacts(g, s, i + 1);
      }
      assert Segment(s, i, y);
      var w :| Edge(g, s.frames[i].node, w) && w in s.scc && !IsOpen(s, w) && w in s.low && s.low[w] <= s.idx[z];
      assert w in t.scc && t.low[w] == s.low[w];
    }
  }

  lemma EnterStrict(s: Search, c: Lit, n: nat, kids: seq<Lit>)
    requires Strict(s) && c !in s.idx
    ensures Strict(Enter(s, c, n, kids))
  {
    var t := Enter(s, c, n, kids);
    EnterOpen(s, c, n, kids);
    forall y | y in t.scc && !IsOpen(t, y) && y in t.low && y in t.idx
      ensures t.low[y] < t.idx[y]
    {
      assert y in s.scc;
    }
  }

  lemma EnterKeeps(g: Graph, s: Search, c: Lit, n: nat, kids: seq<Lit>)
    requires Inv(g, s, n) && CanEnter(g, s, c) && Kids(g, s, c, kids)
    ensures Inv(g, Enter(s, c, n + 1, kids), n + 1)
  {
    hide Strict, Numbered, FramesOk, Left, ReachDown, ReachUp, LowOk, Covered, Kids, Closed;
    EnterNumbered(s, c, n, kids);
    EnterStrict(s, c, n + 1, kids);
    EnterFrames(g, s, c, n, kids);
    EnterLeft(g, s, c, n + 1, kids);
    EnterReachDown(g, s, c, n, kids);
    EnterReachUp(g, s, c, n, kids);
    EnterLow(g, s, c, n, kids);
    EnterCovered(g, s, c, n, kids);
  }

  // ------------------------------------------------- dropping pending children

  /** The last pending child of an open node is dropped. */
  ghost function Drop(s: Search, k: nat): Search
    requires k < |s.frames| && s.frames[k].pending != []
  {
    var f := s.frames[k];
    s.(frames := s.frames[k := Frame(f.node, f.pending[..|f.pending| - 1])])
  }

  lemma DropNodes(s: Search, k: nat)
    requires k < |s.frames| && s.frames[k].pending != []
    ensures SameNodes(s, Drop(s, k))
    ensures forall l :: IsOpen(Drop(s, k), l) <==> IsOpen(s, l)
  {
    var t := Drop(s, k);
    assert forall i :: 0 <= i < |s.frames| ==> t.frames[i].node == s.frames[i].node;
    forall l
      ensures IsOpen(t, l) <==> IsOpen(s, l)
    {
      if IsOpen(s, l) {
        var i :| 0 <= i < |s.frames| && s.frames[i].node == l;
        assert t.frames[i].node == l;
      }
    }
  }

  lemma DropFrames(g: Graph, s: Search, k: nat)
    requires FramesOk(g, s) && k < |s.frames|
    requires var f := s.frames[k]; f.pending != [] && f.pending[|f.pending| - 1] in s.idx
    ensures FramesOk(g, Drop(s, k))
  {
    hide Reaches;
    var t := Drop(s, k);
    var pending := s.frames[k].pending;
    DropNodes(s, k);
    assert pending == pending[..|pending| - 1] + [pending[|pending| - 1]];
    forall i | 0 <= i < |t.frames|
      ensures FrameOk(g, t, i)
    {
      FrameFacts(g, s, i);
      assert i != k ==> t.frames[i] == s.frames[i];
    }
  }

  lemma DropKeeps(g: Graph, s: Search, n: nat, k: nat)
    requires Inv(g, s, n) && k < |s.frames|
    requires var f := s.frames[k]; f.pending != [] && f.pending[|f.pending| - 1] in s.idx
    ensures Inv(g, Drop(s, k), n)
  {
    hide FramesOk, Left, ReachDown, ReachUp, LowOk, Covered, Closed;
    DropFrames(g, s, k);
    DropNodes(s, k);
    DropLeft(g, s, k);
    SameReaches(g, s, Drop(s, k));
    SameLow(g, s, Drop(s, k));
    DropCovered(g, s, k);
  }

  lemma DropLeft(g: Graph, s: Search, k: nat)
    requires Left(g, s) && k < |s.frames| && s.frames[k].pending != []
    ensures Left(g, Drop(s, k))
  {
    DropNodes(s, k);
  }

  lemma DropCovered(g: Graph, s: Search, k: nat)
    requires Covered(g, s) && k < |s.frames| && s.frames[k].pending != []
    ensures Covered(g, Drop(s, k))
  {
    var t := Drop(s, k);
    DropNodes(s, k);
    forall i: nat, y, z | Segment(t, i, y) && y in t.scc && !IsOpen(t, y) && Edge(g, y, z) && z in t.scc && z in t.idx
      ensures ChildLow(g, t, t.frames[i].node, t.idx[z])
    {
      assert Segment(s, i, y);
      assert ChildLow(g, s, s.frames[i].node, s.idx[z]);
    }
  }

  // ------------------------------------------------------- a smaller low number

  ghost function Lower(s: Search, c: Lit, m: nat): Search {
    s.(low := s.low[c := m])
  }

  lemma LowerOpen(s: Search, c: Lit, m: nat)
    ensures forall l :: IsOpen(Lower(s, c, m), l) <==> IsOpen(s, l)
  {
    var t := Lower(s, c, m);
    assert t.frames == s.frames;
  }

  lemma LowerKeeps(g: Graph, s: Search, n: nat, c: Lit, m: nat)
    requires Inv(g, s, n) && c in s.scc && c in s.low && m <= s.low[c] && LowAt(g, s, c, m)
    ensures Inv(g, Lower(s, c, m), n)
  {
    hide FramesOk, Left, ReachDown, ReachUp, LowOk, Covered, Closed, Strict;
    LowerStrict(s, c, m);
    LowerFrames(g, s, c, m);
    LowerLeft(g, s, c, m);
    SameReaches(g, s, Lower(s, c, m));
    LowerLow(g, s, c, m);
    LowerCovered(g, s, c, m);
  }

  lemma LowerStrict(s: Search, c: Lit, m: nat)
    requires Strict(s) && (c in s.low ==> m <= s.low[c]) && (c in s.scc ==> c in s.low)
    ensures Strict(Lower(s, c, m))
  {
    LowerOpen(s, c, m);
  }

  lemma LowerLeft(g: Graph, s: Search, c: Lit, m: nat)
    requires Left(g, s)
    ensures Left(g, Lower(s, c, m))
  {
    LowerOpen(s, c, m);
  }

  lemma LowerLow(g: Graph, s: Search, c: Lit, m: nat)
    requires LowOk(g, s) && LowAt(g, s, c, m)
    ensures LowOk(g, Lower(s, c, m))
  {
    hide Reaches, LowAt;
    var t := Lower(s, c, m);
    forall y | y in t.scc
      ensures y in t.low && LowAt(g, t, y, t.low[y])
    {
      LowOkAt(g, s, y);
      var z := LowOf(g, s, y, t.low[y]);
      LowIs(g, t, y, z);
    }
  }

  lemma LowerFrames(g: Graph, s: Search, c: Lit, m: nat)
    requires FramesOk(g, s)
    ensures FramesOk(g, Lower(s, c, m))
  {
    forall i | 0 <= i < |s.frames|
      ensures FrameOk(g, Lower(s, c, m), i)
    {
      FrameFacts(g, s, i);
    }
  }

  lemma LowerCovered(g: Graph, s: Search, c: Lit, m: nat)
    requires Covered(g, s) && (c in s.low ==> m <= s.low[c])
    ensures Covered(g, Lower(s, c, m))
  {
    var t := Lower(s, c, m);
    LowerOpen(s, c, m);
    forall i: nat, y, z | Segment(t, i, y) && y in t.scc && !IsOpen(t, y) && Edge(g, y, z) && z in t.scc && z in t.idx
      ensures ChildLow(g, t, t.frames[i].node, t.idx[z])
    {
      assert Segment(s, i, y);
      var w :| Edge(g, s.frames[i].node, w) && w in s.scc && !IsOpen(s, w) && w in s.low && s.low[w] <= s.idx[z];
      assert t.low[w] <= t.idx[z];
    }
  }

  /** The minimum over a node and its children on the stack is a low number. */
  lemma MinimumIsLow(g: Graph, s: Search, n: nat, x: Lit, c: Lit)
    requires Inv(g, s, n) && x in s.scc && c in s.scc && x in s.low && c in s.low && Edge(g, x, c)
    requires s.low[c] <= s.low[x]
    ensures LowAt(g, s, x, s.low[c])
  {
    hide Edge, Reaches, FramesOk, ReachDown, ReachUp, Covered, Left, LowOk, LowAt, Numbered, Closed;
    LowOkAt(g, s, c);
    LowOkAt(g, s, x);
    var z := LowOf(g, s, c, s.low[c]);
    var y := LowOf(g, s, x, s.low[x]);
    ReachesEdge(g, x, c);
    ReachesTrans(g, x, c, z);
    LowIs(g, s, x, z);
  }

  // ------------------------------------------------------------ leaving a node

  /** The last open node is left; it stays on the component stack. */
  ghost function Leave(s: Search): Search
    requires s.frames != []
  {
    s.(frames := s.frames[..|s.frames| - 1])
  }

  /** The last open node has no pending children, and its low number is minimal. */
  ghost predicate Finished(g: Graph, s: Search) {
    && s.frames != []
    && var f := s.frames[|s.frames| - 1];
    && f.pending == [] && f.node in s.low && f.node in s.idx
    && forall w :: Edge(g, f.node, w) && w in s.scc && w in s.low ==> s.low[f.node] <= s.low[w]
  }

  lemma LeaveOpen(g: Graph, s: Search, n: nat)
    requires FramesOk(g, s) && s.frames != [] && Numbered(s, n)
    ensures forall l :: IsOpen(Leave(s), l) <==> IsOpen(s, l) && l != s.frames[|s.frames| - 1].node
  {
    hide Reaches;
    var t, k := Leave(s), |s.frames| - 1;
    FrameFacts(g, s, k);
    forall l
      ensures IsOpen(t, l) <==> IsOpen(s, l) && l != s.frames[k].node
    {
      if IsOpen(s, l) && l != s.frames[k].node {
        var i :| 0 <= i < |s.frames| && s.frames[i].node == l;
        assert t.frames[i].node == l;
      }
      if IsOpen(t, l) {
        var i :| 0 <= i < |t.frames| && t.frames[i].node == l;
        FrameFacts(g, s, i);
        assert s.frames[i].node == l;
      }
    }
  }

  lemma LeaveFrames(g: Graph, s: Search)
    requires FramesOk(g, s) && s.frames != []
    ensures FramesOk(g, Leave(s))
  {
    var t := Leave(s);
    forall i | 0 <= i < |t.frames|
      ensures FrameOk(g, t, i)
    {
      FrameFacts(g, s, i);
    }
  }

  lemma LeaveLeft(g: Graph, s: Search, n: nat)
    requires Numbered(s, n) && FramesOk(g, s) && Left(g, s) && Finished(g, s)
    ensures Left(g, Leave(s))
  {
    hide Reaches;
    LeaveOpen(g, s, n);
    FrameFacts(g, s, |s.frames| - 1);
  }

  /** Every node reaches an open node below the one that is left. */
  lemma LeaveUp(g: Graph, s: Search, n: nat)
    requires Numbered(s, n) && FramesOk(g, s) && ReachUp(g, s) && LowOk(g, s) && s.frames != []
    requires var x := s.frames[|s.frames| - 1].node; x in s.low && x in s.idx && s.low[x] < s.idx[x]
    ensures ReachUp(g, Leave(s))
  {
    hide Reaches, Numbered, FramesOk, ReachUp, LowOk, LowAt, ReachesOpen, Edge;
    var t, k := Leave(s), |s.frames| - 1;
    var x := s.frames[k].node;
    FrameFacts(g, s, k);
    LowOkAt(g, s, x);
    var z := LowOf(g, s, x, s.low[x]);
    var j := OpenOf(g, s, z);
    forall y | y in t.scc
      ensures ReachesOpen(g, t, y)
    {
      var i := OpenOf(g, s, y);
      if i == k {
        ReachesTrans(g, y, x, z);
        ReachesTrans(g, y, z, s.frames[j].node);
        assert j < k;
        OpenIs(g, t, y, j);
      } else {
        OpenIs(g, t, y, i);
      }
    }
    UpIs(g, t);
  }

  lemma UpIs(g: Graph, s: Search)
    requires forall y :: y in s.scc ==> ReachesOpen(g, s, y)
    ensures ReachUp(g, s)
  {
    hide ReachesOpen;
  }

  /** A node that cannot go on below itself is the first on the stack. */
  lemma NotTheRoot(g: Graph, s: Search, n: nat)
    requires Numbered(s, n) && FramesOk(g, s) && ReachUp(g, s) && LowOk(g, s) && s.frames != []
    requires var x := s.frames[|s.frames| - 1].node; x in s.low && x in s.idx && s.low[x] < s.idx[x]
    ensures |s.frames| >= 2
  {
    hide Reaches, Numbered, FramesOk, ReachUp, LowOk, LowAt, Edge;
    FrameFacts(g, s, |s.frames| - 1);
    var x := s.frames[|s.frames| - 1].node;
    LowOkAt(g, s, x);
    var z := LowOf(g, s, x, s.low[x]);
    var j := OpenOf(g, s, z);
    assert s.frames[j].node != x;
  }

  lemma LeaveCovered(g: Graph, s: Search, n: nat)
    requires Numbered(s, n) && FramesOk(g, s) && LowOk(g, s) && Covered(g, s) && Finished(g, s) && |s.frames| >= 2
    ensures Covered(g, Leave(s))
  {
    hide Reaches, FramesOk, Numbered, LowOk;
    var t, k := Leave(s), |s.frames| - 1;
    LeaveOpen(g, s, n);
    forall i: nat, y, z | Segment(t, i, y) && y in t.scc && !IsOpen(t, y) && Edge(g, y, z) && z in t.scc && z in t.idx
      ensures ChildLow(g, t, t.frames[i].node, t.idx[z])
    {
      LeaveCoveredAt(g, s, n, i, y, z);
    }
  }

  lemma LeaveCoveredAt(g: Graph, s: Search, n: nat, i: nat, y: Lit, z: Lit)
    requires Numbered(s, n) && FramesOk(g, s) && LowOk(g, s) && Covered(g, s) && Finished(g, s) && |s.frames| >= 2
    requires Segment(Leave(s), i, y) && y in s.scc && !IsOpen(Leave(s), y) && Edge(g, y, z) && z in s.scc && z in s.idx
    ensures ChildLow(g, Leave(s), Leave(s).frames[i].node, s.idx[z])
  {
    hide Reaches, Numbered, Covered, FramesOk, LowOk, Edge, IsOpen, ChildLow;
    var t, k := Leave(s), |s.frames| - 1;
    var x := s.frames[k].node;
    LeaveOpen(g, s, n);
    FrameFacts(g, s, k);
    FrameFacts(g, s, i);
    LastEdge(g, s);
    if y == x {
      LowBelow(g, s, z);
      OnlySegment(g, s, i, x);
      ChildIs(g, t, t.frames[i].node, x, s.idx[z]);
    } else if s.idx[x] < s.idx[y] {
      assert Segment(s, k, y);
      var w := CoveredBy(g, s, k, y, z);
      OnlySegment(g, s, i, y);
      ChildIs(g, t, t.frames[i].node, x, s.idx[z]);
    } else {
      DifferentNumbers(s, n, x, y);
      assert Segment(s, i, y);
      var w := CoveredBy(g, s, i, y, z);
      ChildIs(g, t, t.frames[i].node, w, s.idx[z]);
    }
  }

  lemma LastEdge(g: Graph, s: Search)
    requires FramesOk(g, s) && |s.frames| >= 2
    ensures Edge(g, s.frames[|s.frames| - 2].node, s.frames[|s.frames| - 1].node)
  {
    var i, j := |s.frames| - 2, |s.frames| - 1;
    assert j == i + 1;
  }

  lemma DifferentNumbers(s: Search, n: nat, x: Lit, y: Lit)
    requires Numbered(s, n) && x in s.scc && y in s.scc && x != y
    ensures s.idx[x] != s.idx[y]
  {
    if s.idx[x] == s.idx[y] {
      SameNumber(s, n, x, y);
    }
  }

  /** What is not below the node that is left is in the last segment afterwards. */
  lemma OnlySegment(g: Graph, s: Search, i: nat, y: Lit)
    requires FramesOk(g, s) && |s.frames| >= 2 && Segment(Leave(s), i, y)
    requires var x := s.frames[|s.frames| - 1].node; x in s.idx && y in s.idx && s.idx[x] <= s.idx[y]
    ensures i == |s.frames| - 2
  {
    var k := |s.frames| - 1;
    FrameFacts(g, s, k);
    assert forall j :: 0 <= j < k ==> Leave(s).frames[j] == s.frames[j];
  }

  lemma CoveredBy(g: Graph, s: Search, i: nat, y: Lit, z: Lit) returns (w: Lit)
    requires Covered(g, s) && Segment(s, i, y) && y in s.scc && !IsOpen(s, y) && Edge(g, y, z) && z in s.scc
    requires z in s.idx
    ensures Edge(g, s.frames[i].node, w) && w in s.scc && !IsOpen(s, w) && w in s.low && s.low[w] <= s.idx[z]
  {
    assert ChildLow(g, s, s.frames[i].node, s.idx[z]);
    w :| Edge(g, s.frames[i].node, w) && w in s.scc && !IsOpen(s, w) && w in s.low && s.low[w] <= s.idx[z];
  }

  lemma ChildIs(g: Graph, s: Search, x: Lit, w: Lit, m: nat)
    requires Edge(g, x, w) && w in s.scc && !IsOpen(s, w) && w in s.low && s.low[w] <= m
    ensures ChildLow(g, s, x, m)
  {
  }

  lemma LowBelow(g: Graph, s: Search, y: Lit)
    requires LowOk(g, s) && y in s.scc
    ensures y in s.low && y in s.idx && s.low[y] <= s.idx[y]
  {
    assert LowAt(g, s, y, s.low[y]);
  }

  lemma LeaveReaches(g: Graph, s: Search)
    requires ReachDown(g, s) && LowOk(g, s) && s.frames != []
    ensures ReachDown(g, Leave(s)) && LowOk(g, Leave(s))
  {
    hide Reaches, LowOk;
    SameLow(g, s, Leave(s));
    assert forall i :: 0 <= i < |Leave(s).frames| ==> Leave(s).frames[i].node == s.frames[i].node;
  }

  lemma LeaveKeeps(g: Graph, s: Search, n: nat)
    requires Inv(g, s, n) && Finished(g, s)
    requires var x := s.frames[|s.frames| - 1].node; s.low[x] < s.idx[x]
    ensures Inv(g, Leave(s), n)
  {
    hide Reaches, FramesOk, Left, ReachDown, ReachUp, LowOk, Covered, Closed, Edge;
    NotTheRoot(g, s, n);
    LeaveOpen(g, s, n);
    LeaveFrames(g, s);
    LeaveLeft(g, s, n);
    LeaveUp(g, s, n);
    LeaveCovered(g, s, n);
    LeaveReaches(g, s);
  }

  // ------------------------------------------------------ completing a component

  /** The last open node and all that is above it on the stack are done. */
  ghost function Complete(s: Search, k: nat): Search
    requires s.frames != [] && k < |s.scc|
  {
    s.(done := s.done + Lits(s.scc[k..]), scc := s.scc[..k], frames := s.frames[..|s.frames| - 1])
  }

  /** The last open node is at position `k` and reaches nothing below itself. */
  ghost predicate IsEntry(g: Graph, s: Search, k: nat) {
    && Finished(g, s) && s.frames != [] && k < |s.scc|
    && var x := s.frames[|s.frames| - 1].node;
    x == s.scc[k] && x in s.low && x in s.idx && s.low[x] == s.idx[x]
  }

  lemma Above(s: Search, n: nat, k: nat, l: Lit)
    requires Numbered(s, n) && k < |s.scc|
    ensures l in s.scc[k..] <==> l in s.scc && s.idx[s.scc[k]] <= s.idx[l]
    ensures l in s.scc[..k] <==> l in s.scc && s.idx[l] < s.idx[s.scc[k]]
  {
    assert s.scc == s.scc[..k] + s.scc[k..];
    if l in s.scc {
      var i :| 0 <= i < |s.scc| && s.scc[i] == l;
      assert i < k ==> s.idx[s.scc[i]] < s.idx[s.scc[k]];
      assert k < i ==> s.idx[s.scc[k]] < s.idx[s.scc[i]];
      assert i < k ==> s.scc[..k][i] == l;
      assert k <= i ==> s.scc[k..][i - k] == l;
    }
  }

  /** Nodes above the entry have been left, and belong to its segment. */
  lemma AboveLeft(g: Graph, s: Search, n: nat, k: nat, y: Lit)
    requires Numbered(s, n) && FramesOk(g, s) && IsEntry(g, s, k) && y in s.scc[k..] && y != s.scc[k]
    ensures y in s.scc && !IsOpen(s, y) && Segment(s, |s.frames| - 1, y)
  {
    hide Reaches, Edge;
    var x := s.scc[k];
    Above(s, n, k, y);
    assert x in s.scc;
    DifferentNumbers(s, n, x, y);
    forall i | 0 <= i < |s.frames|
      ensures s.frames[i].node != y
    {
      LastOpen(g, s, i);
    }
  }

  /** Edges do not lead from the component to nodes below it. */
  lemma NoneBelow(g: Graph, s: Search, n: nat, k: nat, y: Lit, z: Lit)
    requires Numbered(s, n) && FramesOk(g, s) && Left(g, s) && LowOk(g, s) && Covered(g, s) && IsEntry(g, s, k)
    requires y in s.scc[k..] && Edge(g, y, z)
    ensures z in s.done || z in s.scc[k..]
  {
    hide Reaches, Covered, LowOk, Left, FramesOk, IsOpen;
    var x := s.scc[k];
    Above(s, n, k, z);
    if y == x {
      FrameFacts(g, s, |s.frames| - 1);
      if z in s.scc {
        LowBelow(g, s, z);
      }
    } else {
      AboveLeft(g, s, n, k, y);
      HasNumber(g, s, y, z);
      if z in s.scc {
        var w := CoveredBy(g, s, |s.frames| - 1, y, z);
      }
    }
  }

  lemma HasNumber(g: Graph, s: Search, y: Lit, z: Lit)
    requires Left(g, s) && y in s.idx && !IsOpen(s, y) && Edge(g, y, z)
    ensures z in s.idx
  {
  }

  lemma CompleteClosed(g: Graph, s: Search, n: nat, k: nat)
    requires Inv(g, s, n) && IsEntry(g, s, k)
    ensures Closed(g, Complete(s, k).done)
  {
    hide Reaches, Covered, LowOk, Left, FramesOk, IsOpen, Numbered, ReachUp, ReachDown, Edge, Finished;
    forall a, b | a in Complete(s, k).done && Edge(g, a, b)
      ensures b in Complete(s, k).done
    {
      if a in s.scc[k..] {
        NoneBelow(g, s, n, k, a, b);
      }
    }
  }

  /** What is on the stack from the entry on is its strongly connected component. */
  lemma ComponentOf(g: Graph, s: Search, n: nat, k: nat, y: Lit)
    requires Inv(g, s, n) && IsEntry(g, s, k)
    ensures y in s.scc[k..] <==> Mutual(g, s.scc[k], y)
  {
    hide Reaches, Covered, LowOk, Left, FramesOk, IsOpen, ReachUp, ReachDown, Edge, Finished, Closed;
    var x, t := s.scc[k], Complete(s, k);
    CompleteClosed(g, s, n, k);
    Above(s, n, k, x);
    assert x in s.scc && x in t.done;
    if y in s.scc[k..] {
      Above(s, n, k, y);
      DownTo(g, s, y);
      var i := OpenOf(g, s, y);
      ReachesStays(g, t.done, y, s.frames[i].node);
      LastOpen(g, s, i);
      Above(s, n, k, s.frames[i].node);
      SameNumber(s, n, s.frames[i].node, x);
    }
    if Mutual(g, x, y) {
      ReachesStays(g, t.done, x, y);
      if y in s.done {
        ReachesStays(g, s.done, y, x);
      }
    }
  }

  lemma DownTo(g: Graph, s: Search, y: Lit)
    requires ReachDown(g, s) && s.frames != [] && y in s.scc && y in s.idx
    requires var x := s.frames[|s.frames| - 1].node; x in s.idx && s.idx[x] <= s.idx[y]
    ensures Reaches(g, s.frames[|s.frames| - 1].node, y)
  {
    hide Reaches;
  }

  // what completing a component keeps

  lemma CompleteNumbered(s: Search, n: nat, k: nat)
    requires Numbered(s, n) && s.frames != [] && k < |s.scc|
    ensures Numbered(Complete(s, k), n)
  {
    var t := Complete(s, k);
    forall l
      ensures l in t.scc <==> l in t.idx && l !in t.done
    {
      Above(s, n, k, l);
    }
    forall l | l in s.scc[k..]
      ensures l in s.idx
    {
      Above(s, n, k, l);
    }
  }

  lemma CompleteOpen(g: Graph, s: Search, n: nat, k: nat)
    requires Numbered(s, n) && FramesOk(g, s) && IsEntry(g, s, k)
    ensures forall l :: IsOpen(Complete(s, k), l) <==> IsOpen(s, l) && l != s.scc[k]
  {
    hide Reaches, FramesOk, Numbered, Edge;
    LeaveOpen(g, s, n);
    var t := Complete(s, k);
    assert t.frames == Leave(s).frames;
    forall l
      ensures IsOpen(t, l) <==> IsOpen(Leave(s), l)
    {
    }
  }

  lemma CompleteFrames(g: Graph, s: Search, n: nat, k: nat)
    requires Numbered(s, n) && FramesOk(g, s) && IsEntry(g, s, k)
    ensures FramesOk(g, Complete(s, k))
  {
    hide Reaches, Edge;
    var t := Complete(s, k);
    forall i | 0 <= i < |t.frames|
      ensures FrameOk(g, t, i)
    {
      FrameFacts(g, s, i);
      FrameFacts(g, s, |s.frames| - 1);
      assert t.frames[i] == s.frames[i];
      Above(s, n, k, s.frames[i].node);
    }
  }

  lemma CompleteLeft(g: Graph, s: Search, n: nat, k: nat)
    requires Numbered(s, n) && FramesOk(g, s) && Left(g, s) && IsEntry(g, s, k)
    ensures Left(g, Complete(s, k))
  {
    hide Reaches;
    CompleteOpen(g, s, n, k);
    FrameFacts(g, s, |s.frames| - 1);
  }

  lemma CompleteReaches(g: Graph, s: Search, n: nat, k: nat)
    requires Numbered(s, n) && FramesOk(g, s) && ReachDown(g, s) && ReachUp(g, s) && LowOk(g, s) && IsEntry(g, s, k)
    ensures ReachDown(g, Complete(s, k)) && ReachUp(g, Complete(s, k)) && LowOk(g, Complete(s, k))
  {
    hide Reaches, FramesOk, ReachUp, LowOk, LowAt, ReachesOpen, Numbered, Edge, Finished;
    var t := Complete(s, k);
    assert forall i :: 0 <= i < |t.frames| ==> t.frames[i].node == s.frames[i].node;
    assert s.scc[k] in s.scc;
    forall y | y in t.scc
      ensures ReachesOpen(g, t, y) && y in t.low && LowAt(g, t, y, t.low[y])
    {
      StackBelow(s, n, k, y);
      LowOkAt(g, s, y);
      var i := OpenOf(g, s, y);
      var z := LowOf(g, s, y, s.low[y]);
      StackBelow(s, n, k, z);
      OpenIs(g, t, y, i);
      LowIs(g, t, y, z);
    }
    DownKept(g, s, t);
    UpIs(g, t);
    LowOkIs(g, t);
  }

  lemma DownKept(g: Graph, s: Search, t: Search)
    requires ReachDown(g, s) && (forall y :: y in t.scc ==> y in s.scc) && t.idx == s.idx && |t.frames| <= |s.frames|
    requires forall i :: 0 <= i < |t.frames| ==> t.frames[i].node == s.frames[i].node
    ensures ReachDown(g, t)
  {
    hide Reaches;
  }

  lemma LowOkIs(g: Graph, s: Search)
    requires forall y :: y in s.scc ==> y in s.low && LowAt(g, s, y, s.low[y])
    ensures LowOk(g, s)
  {
    hide LowAt;
  }

  lemma StackBelow(s: Search, n: nat, k: nat, y: Lit)
    requires Numbered(s, n) && k < |s.scc|
    ensures s.scc[k] in s.scc && s.scc[k] in s.idx
    ensures y in s.scc[..k] <==> y in s.scc && y in s.idx && s.idx[y] < s.idx[s.scc[k]]
  {
    assert s.scc[k] in s.scc;
    Above(s, n, k, y);
  }

  lemma CompleteCovered(g: Graph, s: Search, n: nat, k: nat)
    requires Inv(g, s, n) && IsEntry(g, s, k)
    ensures Covered(g, Complete(s, k))
  {
    hide Reaches, FramesOk, ReachUp, LowOk, Numbered, Edge, Finished, Left, ReachDown, Closed, IsOpen, ChildLow;
    var t := Complete(s, k);
    CompleteOpen(g, s, n, k);
    forall i: nat, y, z | Segment(t, i, y) && y in t.scc && !IsOpen(t, y) && Edge(g, y, z) && z in t.scc && z in t.idx
      ensures ChildLow(g, t, t.frames[i].node, t.idx[z])
    {
      CompleteCoveredAt(g, s, n, k, i, y, z);
    }
  }

  lemma CompleteCoveredAt(g: Graph, s: Search, n: nat, k: nat, i: nat, y: Lit, z: Lit)
    requires Inv(g, s, n) && IsEntry(g, s, k) && Segment(Complete(s, k), i, y)
    requires y in s.scc[..k] && !IsOpen(Complete(s, k), y) && Edge(g, y, z) && z in s.scc[..k] && z in s.idx
    ensures ChildLow(g, Complete(s, k), s.frames[i].node, s.idx[z])
  {
    hide Reaches, FramesOk, ReachUp, LowOk, Numbered, Edge, Finished, Left, ReachDown, Closed, IsOpen, ChildLow,
         Covered, LowAt;
    var t, x := Complete(s, k), s.scc[k];
    CompleteOpen(g, s, n, k);
    StackBelow(s, n, k, y);
    StackBelow(s, n, k, z);
    assert Segment(s, i, y);
    var w := CoveredBy(g, s, i, y, z);
    CompleteClosed(g, s, n, k);
    if w in s.scc[k..] {
      LowOkAt(g, s, w);
      var v := LowOf(g, s, w, s.low[w]);
      ReachesStays(g, t.done, w, v);
      StackBelow(s, n, k, v);
      Above(s, n, k, v);
      OnStackNotDone(s, n, v);
    }
    SplitStack(s, k, w);
    ChildIs(g, t, s.frames[i].node, w, s.idx[z]);
  }

  lemma OnStackNotDone(s: Search, n: nat, v: Lit)
    requires Numbered(s, n) && v in s.scc
    ensures v !in s.done
  {
  }

  lemma SplitStack(s: Search, k: nat, w: Lit)
    requires k < |s.scc| && w in s.scc
    ensures w in s.scc[..k] || w in s.scc[k..]
  {
    assert s.scc == s.scc[..k] + s.scc[k..];
  }

  lemma CompleteStrict(g: Graph, s: Search, n: nat, k: nat)
    requires Numbered(s, n) && FramesOk(g, s) && IsEntry(g, s, k) && Strict(s)
    ensures Strict(Complete(s, k))
  {
    hide Reaches, FramesOk, Edge, Finished;
    CompleteOpen(g, s, n, k);
    forall y | y in s.scc[..k]
      ensures y in s.scc && y != s.scc[k]
    {
      StackBelow(s, n, k, y);
    }
  }

  lemma CompleteKeeps(g: Graph, s: Search, n: nat, k: nat)
    requires Inv(g, s, n) && IsEntry(g, s, k)
    ensures Inv(g, Complete(s, k), n)
  {
    hide Reaches, FramesOk, Left, ReachDown, ReachUp, LowOk, Covered, Closed, Edge, Numbered, Finished, Strict;
    CompleteStrict(g, s, n, k);
    CompleteNumbered(s, n, k);
    CompleteFrames(g, s, n, k);
    CompleteLeft(g, s, n, k);
    CompleteClosed(g, s, n, k);
    CompleteReaches(g, s, n, k);
    CompleteCovered(g, s, n, k);
  }

  /** When no node is open everything that has a number is done. */
  lemma NoneOpen(g: Graph, s: Search, n: nat)
    requires Inv(g, s, n) && s.frames == []
    ensures s.scc == [] && s.done == s.idx.Keys
  {
    if s.scc != [] {
      var i := OpenOf(g, s, s.scc[0]);
    }
    forall l
      ensures l in s.done <==> l in s.idx.Keys
    {
      assert l in s.scc <==> l in s.idx && l !in s.done;
    }
  }
}
