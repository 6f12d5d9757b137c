/**
 * The graph of juggling states (StateGraph.java).  Nodes are states
 * reachable from the root state, where the lowest `balls` positions are set;
 * each node maps to its children in ascending order of throw height.
 */
module StateGraphModel {
  import opened StateBits
  import opened Wrappers

  /** One entry of a node's TreeMap: throw height and the state it leads to. */
  datatype Edge = Edge(height: nat, dest: nat)

  /** All set positions lie in 1..maxHeight. */
  ghost predicate InWindow(s: nat, maxHeight: nat)
  {
    forall p: nat :: IsSet(s, p) ==> 1 <= p <= maxHeight
  }

  /** Labels strictly ascending: the TreeMap's iteration order. */
  ghost predicate Ascending(cs: seq<Edge>)
  {
    forall j, k :: 0 <= j < k < |cs| ==> cs[j].height < cs[k].height
  }

  ghost predicate DistinctDests(cs: seq<Edge>)
  {
    forall j, k :: 0 <= j < k < |cs| ==> cs[j].dest != cs[k].dest
  }

  ghost predicate HasLabel(cs: seq<Edge>, i: nat)
  {
    exists k :: 0 <= k < |cs| && cs[k].height == i
  }

  /** Positions 2..i of `s`, each moved down by one: the value of shiftLeft after its loop reached i. */
  function ShiftUpTo(s: nat, i: nat): (r: nat)
    ensures forall p: nat :: IsSet(r, p) <==> (1 <= p && p + 1 <= i && IsSet(s, p + 1))
  {
    if i < 2 then
      assert forall p: nat :: !IsSet(0, p) by {
        forall p: nat ensures !IsSet(0, p) { NothingSetInZero(p); }
      }
      0
    else
      var r := ShiftUpTo(s, i - 1);
      if IsSet(s, i) then SetBit(r, i - 1) else r
  }

  /** StateGraph.shiftLeft as a function: one beat passes. */
  function Shift(s: nat, maxHeight: nat): nat
  {
    ShiftUpTo(s, maxHeight)
  }

  /** Throws available from the shifted state `sh` with heights 1..hi-1, in ascending order. */
  function Throws(sh: nat, hi: nat): seq<Edge>
  {
    if hi <= 1 then []
    else
      var r := Throws(sh, hi - 1);
      var i := hi - 1;
      if IsSet(sh, i) then r
      else r + [Edge(i, SetBit(sh, i))]
  }

  /** Each throw is a free height below `hi` landing in SetBit(sh, height); every free height has one; heights ascend. */
  lemma ThrowsShape(sh: nat, hi: nat)
    ensures var r := Throws(sh, hi);
      && (forall k :: 0 <= k < |r| ==>
            1 <= r[k].height < hi && !IsSet(sh, r[k].height) && r[k].dest == SetBit(sh, r[k].height))
      && (forall i: nat :: HasLabel(r, i) <==> (1 <= i < hi && !IsSet(sh, i)))
      && Ascending(r)
  {
    ThrowsEntries(sh, hi);
    ThrowsLabels(sh, hi);
    ThrowsAscending(sh, hi);
  }

  /** Each throw is a free height below `hi` and lands in SetBit(sh, height). */
  lemma {:induction false} ThrowsEntries(sh: nat, hi: nat)
    ensures forall k :: 0 <= k < |Throws(sh, hi)| ==>
      && 1 <= Throws(sh, hi)[k].height < hi
      && !IsSet(sh, Throws(sh, hi)[k].height)
      && Throws(sh, hi)[k].dest == SetBit(sh, Throws(sh, hi)[k].height)
  {
    if hi > 1 {
      ThrowsEntries(sh, hi - 1);
      var r, i := Throws(sh, hi - 1), hi - 1;
      if !IsSet(sh, i) {
        var e := Edge(i, SetBit(sh, i));
        assert Throws(sh, hi) == r + [e];
        assert (r + [e])[|r|] == e;
        assert forall k :: 0 <= k < |r| ==> (r + [e])[k] == r[k];
      }
    }
  }

  /** Every free height below `hi`, and nothing else, is the height of a throw. */
  lemma {:induction false} ThrowsLabels(sh: nat, hi: nat)
    ensures forall i: nat :: HasLabel(Throws(sh, hi), i) <==> (1 <= i < hi && !IsSet(sh, i))
  {
    if hi > 1 {
      ThrowsLabels(sh, hi - 1);
      var i := hi - 1;
      if !IsSet(sh, i) {
        AppendLabel(Throws(sh, hi - 1), Edge(i, SetBit(sh, i)));
      }
    }
  }

  /** The throws come in ascending order of height. */
  lemma {:induction false} ThrowsAscending(sh: nat, hi: nat)
    ensures Ascending(Throws(sh, hi))
  {
    if hi > 1 {
      ThrowsAscending(sh, hi - 1);
      ThrowsEntries(sh, hi - 1);
      var r, i := Throws(sh, hi - 1), hi - 1;
      if !IsSet(sh, i) {
        var e := Edge(i, SetBit(sh, i));
        assert Throws(sh, hi) == r + [e];
        forall k | 0 <= k < |r|
          ensures (r + [e])[k] == r[k] && r[k].height < i
        {
          assert 1 <= r[k].height < hi - 1;
        }
      }
    }
  }

  lemma AppendLabel(r: seq<Edge>, e: Edge)
    ensures forall i: nat :: HasLabel(r + [e], i) <==> (HasLabel(r, i) || i == e.height)
  {
    var r' := r + [e];
    assert r'[|r|].height == e.height;
    forall i: nat ensures HasLabel(r', i) <==> (HasLabel(r, i) || i == e.height) {
      if HasLabel(r, i) {
        var k :| 0 <= k < |r| && r[k].height == i;
        assert r'[k].height == i;
      }
      if HasLabel(r', i) && i != e.height {
        var k :| 0 <= k < |r'| && r'[k].height == i;
        assert r[k].height == i;
      }
    }
  }

  /** The children generateChildren computes for `s`, in TreeMap order. */
  function ChildrenOf(s: nat, maxHeight: nat): seq<Edge>
  {
    var sh := Shift(s, maxHeight);
    if IsSet(s, 1) then Throws(sh, maxHeight + 1) else [Edge(0, sh)]
  }

  /** `k` is the first entry of `cs` that leads to `to`. */
  ghost predicate FirstMatch(cs: seq<Edge>, to: nat, k: int)
  {
    0 <= k < |cs| && cs[k].dest == to && forall j :: 0 <= j < k ==> cs[j].dest != to
  }

  /**
   * getNextChild's answer for a child list: the first child when `cur` is the
   * sentinel 0, otherwise the child listed after the first entry leading to
   * `cur`, and 0 when there is none.
   */
  function NextChild(cs: seq<Edge>, cur: nat): (r: nat)
    requires cur == 0 ==> |cs| > 0
    ensures cur == 0 ==> r == cs[0].dest
    ensures cur != 0 && (forall k :: 0 <= k < |cs| ==> cs[k].dest != cur) ==> r == 0
    ensures forall k :: cur != 0 && FirstMatch(cs, cur, k) ==>
      r == (if k + 1 < |cs| then cs[k + 1].dest else 0)
  {
    if cur == 0 then cs[0].dest else After(cs, cur)
  }

  function After(cs: seq<Edge>, cur: nat): (r: nat)
    ensures (forall k :: 0 <= k < |cs| ==> cs[k].dest != cur) ==> r == 0
    ensures forall k :: FirstMatch(cs, cur, k) ==>
      r == (if k + 1 < |cs| then cs[k + 1].dest else 0)
  {
    if |cs| == 0 then 0
    else if cs[0].dest == cur then (if |cs| > 1 then cs[1].dest else 0)
    else
      var r := After(cs[1..], cur);
      forall k | FirstMatch(cs, cur, k)
        ensures r == (if k + 1 < |cs| then cs[k + 1].dest else 0)
      {
        assert k >= 1;
        assert FirstMatch(cs[1..], cur, k - 1);
        assert k < |cs| - 1 ==> cs[1..][k] == cs[k + 1];
      }
      r
  }

  /** getLabel's answer: the label of the first entry leading to `to`, or -1 when none does. */
  function LabelOf(cs: seq<Edge>, to: nat): int
  {
    if |cs| == 0 then -1
    else if cs[0].dest == to then cs[0].height
    else LabelOf(cs[1..], to)
  }

  /** The label is -1 exactly when no entry leads to `to`, and otherwise the height of the first entry that does. */
  lemma {:induction false} LabelOfMeaning(cs: seq<Edge>, to: nat)
    ensures LabelOf(cs, to) == -1 <==> forall k :: 0 <= k < |cs| ==> cs[k].dest != to
    ensures forall k :: FirstMatch(cs, to, k) ==> LabelOf(cs, to) == cs[k].height
  {
    if |cs| > 0 && cs[0].dest != to {
      LabelOfMeaning(cs[1..], to);
      forall k | FirstMatch(cs, to, k) ensures LabelOf(cs, to) == cs[k].height {
        assert FirstMatch(cs[1..], to, k - 1);
      }
      assert forall k :: 1 <= k < |cs| ==> cs[k] == cs[1..][k - 1];
    }
  }

  /** The transition rule, stated edge by edge on the bits of the states. */
  lemma EdgeRule(s: nat, maxHeight: nat, k: nat)
    requires k < |ChildrenOf(s, maxHeight)|
    ensures var e := ChildrenOf(s, maxHeight)[k];
      && e.height <= maxHeight
      && (e.height > 0 <==> IsSet(s, 1))
      && (forall p: nat :: IsSet(e.dest, p) <==>
            ((1 <= p < maxHeight && IsSet(s, p + 1)) || (p == e.height && e.height > 0)))
      && (e.height > 0 ==> !(e.height < maxHeight && IsSet(s, e.height + 1)))
  {
    ThrowsShape(Shift(s, maxHeight), maxHeight + 1);
  }

  /** The children of a state: ascending labels, distinct states, and never empty when maxHeight >= 1. */
  lemma ChildrenShape(s: nat, maxHeight: nat)
    ensures var cs := ChildrenOf(s, maxHeight);
      Ascending(cs) && DistinctDests(cs) && (maxHeight >= 1 ==> |cs| > 0)
  {
    var cs := ChildrenOf(s, maxHeight);
    var sh := Shift(s, maxHeight);
    ThrowsShape(sh, maxHeight + 1);
    if IsSet(s, 1) {
      forall j, k | 0 <= j < k < |cs| ensures cs[j].dest != cs[k].dest {
        assert IsSet(cs[j].dest, cs[j].height);
        assert !IsSet(cs[k].dest, cs[j].height);
      }
      if maxHeight >= 1 {
        assert !IsSet(sh, maxHeight);
        assert HasLabel(cs, maxHeight);
      }
    }
  }

  /** Positions of the shifted state line up with the next positions of the original. */
  lemma {:induction false} ShiftCountWeight(s: nat, sh: nat, lo: nat, hi: nat)
    requires 1 <= lo
    requires forall p: nat :: lo <= p < hi ==> (IsSet(sh, p) <==> IsSet(s, p + 1))
    ensures Count(sh, lo, hi) == Count(s, lo + 1, hi + 1)
    ensures Weight(sh, lo, hi) + Count(sh, lo, hi) == Weight(s, lo + 1, hi + 1)
    decreases hi - lo
  {
    if lo < hi {
      ShiftCountWeight(s, sh, lo + 1, hi);
    }
  }

  /**
   * Every child of a state in the window 1..maxHeight is in the window, has
   * as many balls, and its total landing time is the parent's minus one beat
   * per ball plus the throw height.
   */
  lemma ChildBalance(s: nat, maxHeight: nat, k: nat)
    requires InWindow(s, maxHeight)
    requires k < |ChildrenOf(s, maxHeight)|
    ensures var e := ChildrenOf(s, maxHeight)[k];
      && InWindow(e.dest, maxHeight)
      && Count(e.dest, 1, maxHeight + 1) == Count(s, 1, maxHeight + 1)
      && Weight(e.dest, 1, maxHeight + 1) + Count(s, 1, maxHeight + 1) == Weight(s, 1, maxHeight + 1) + e.height
  {
    var e := ChildrenOf(s, maxHeight)[k];
    var sh := Shift(s, maxHeight);
    EdgeRule(s, maxHeight, k);
    var hi := maxHeight + 1;
    assert Count(sh, 1, hi) == Count(s, 2, hi) && Weight(sh, 1, hi) + Count(sh, 1, hi) == Weight(s, 2, hi) by {
      ShiftCountWeight(s, sh, 1, maxHeight);
      CountExtend(sh, 1, maxHeight, hi);
    }
    if e.height > 0 {
      ThrowsShape(sh, hi);
      assert e.dest == SetBit(sh, e.height);
      SetBitCount(sh, e.height, 1, hi);
    } else {
      assert e.dest == sh;
    }
  }

  /** The root state: exactly positions 1..balls. */
  function RootState(balls: nat): (r: nat)
    ensures forall p: nat :: IsSet(r, p) <==> 1 <= p <= balls
  {
    if balls == 0 then
      assert forall p: nat :: !IsSet(0, p) by {
        forall p: nat ensures !IsSet(0, p) { NothingSetInZero(p); }
      }
      0
    else SetBit(RootState(balls - 1), balls)
  }

  /** Positions 1..b set: the count is b. */
  lemma {:induction false} PrefixCount(s: nat, b: nat, lo: nat, hi: nat)
    requires 1 <= lo && b < hi
    requires forall p: nat :: lo <= p < hi ==> (IsSet(s, p) <==> p <= b)
    ensures Count(s, lo, hi) == if b >= lo then b - lo + 1 else 0
    decreases hi - lo
  {
    if lo < hi {
      PrefixCount(s, b, lo + 1, hi);
    }
  }

  /** A state with at least one ball in the window is not the sentinel 0. */
  lemma {:induction false} CountedNonZero(s: nat, lo: nat, hi: nat)
    requires Count(s, lo, hi) > 0
    ensures s != 0
    decreases hi - lo
  {
    if IsSet(s, lo) {
      if s == 0 { NothingSetInZero(lo); }
    } else {
      CountedNonZero(s, lo + 1, hi);
    }
  }

  /** StateGraph.shiftLeft: moves every position from 2 up to maxHeight down by one. */
  method ShiftLeft(maxHeight: nat, state: nat) returns (r: nat)
    ensures forall p: nat :: IsSet(r, p) <==> (1 <= p < maxHeight && IsSet(state, p + 1))
    ensures r == Shift(state, maxHeight)
  {
    r := 0;
    assert forall p: nat :: !IsSet(0, p) by {
      forall p: nat ensures !IsSet(0, p) { NothingSetInZero(p); }
    }
    var i := 2;
    while i <= maxHeight
      invariant 2 <= i <= if maxHeight < 2 then 2 else maxHeight + 1
      invariant r == ShiftUpTo(state, i - 1)
    {
      if IsSet(state, i) {
        r := SetBit(r, i - 1);
      }
      i := i + 1;
    }
  }

  /**
   * StateGraph.generateChildren: with position 1 set, one child per clear
   * position i of the shifted state (1 <= i <= maxHeight), keyed by i and
   * with position i set; otherwise the single child "shifted", keyed by 0.
   */
  method GenerateChildren(maxHeight: nat, node: nat) returns (ret: seq<Edge>)
    ensures ret == ChildrenOf(node, maxHeight)
    ensures Ascending(ret) && DistinctDests(ret)
    ensures IsSet(node, 1) ==> forall i: nat ::
      HasLabel(ret, i) <==> (1 <= i <= maxHeight && !IsSet(Shift(node, maxHeight), i))
    ensures IsSet(node, 1) ==> forall k :: 0 <= k < |ret| ==>
      ret[k].dest == SetBit(Shift(node, maxHeight), ret[k].height)
    ensures !IsSet(node, 1) ==> ret == [Edge(0, Shift(node, maxHeight))]
  {
    var shifted := ShiftLeft(maxHeight, node);
    if IsSet(node, 1) {
      ret := FreeThrows(maxHeight, shifted);
    } else {
      ret := [Edge(0, shifted)];
    }
    ChildrenShape(node, maxHeight);
    ThrowsShape(shifted, maxHeight + 1);
  }

  /** The loop of generateChildren: one child for each height 1..maxHeight free in the shifted state, in ascending order. */
  method FreeThrows(maxHeight: nat, shifted: nat) returns (ret: seq<Edge>)
    ensures ret == Throws(shifted, maxHeight + 1)
  {
    ret := [];
    var i := 1;
    while i <= maxHeight
      invariant 1 <= i <= maxHeight + 1
      invariant ret == Throws(shifted, i)
    {
      if !IsSet(shifted, i) {
        ret := ret + [Edge(i, SetBit(shifted, i))];
      }
      i := i + 1;
    }
  }

  /** The states below `n`: a finite bound on the states the closure can discover. */
  ghost function Below(n: nat): (r: set<nat>)
    ensures forall x: nat :: x in r <==> x < n
  {
    if n == 0 then {} else Below(n - 1) + {n - 1}
  }

  /** Targets of `cs` not yet in `seen`: what the constructor adds to its work list. */
  ghost function NewStates(cs: seq<Edge>, seen: set<nat>): set<nat>
  {
    if |cs| == 0 then {}
    else
      var last := cs[|cs| - 1].dest;
      NewStates(cs[..|cs| - 1], seen) + (if last in seen then {} else {last})
  }

  lemma NewStatesStep(cs: seq<Edge>, k: nat, seen: set<nat>)
    requires k < |cs|
    ensures NewStates(cs[..k + 1], seen) ==
      NewStates(cs[..k], seen) + (if cs[k].dest in seen then {} else {cs[k].dest})
  {
    assert cs[..k + 1][..k] == cs[..k];
  }

  lemma {:induction false} NewStatesMembers(cs: seq<Edge>, seen: set<nat>, x: nat)
    ensures x in NewStates(cs, seen) <==> x !in seen && exists k :: 0 <= k < |cs| && cs[k].dest == x
  {
    if |cs| > 0 {
      var init := cs[..|cs| - 1];
      NewStatesMembers(init, seen, x);
      if x in NewStates(init, seen) {
        var k :| 0 <= k < |init| && init[k].dest == x;
        assert cs[k].dest == x;
      }
      if x !in seen && exists k :: 0 <= k < |cs| && cs[k].dest == x {
        var k :| 0 <= k < |cs| && cs[k].dest == x;
        if k < |init| {
          assert init[k].dest == x;
        }
      }
    }
  }

  lemma {:induction false} NewStatesFresh(cs: seq<Edge>, seen: set<nat>)
    ensures NewStates(cs, seen) !! seen
  {
    if |cs| > 0 {
      NewStatesFresh(cs[..|cs| - 1], seen);
    }
  }

  /** The inner loop of the constructor: queue every child not yet seen. */
  method AddUnseen(undone: set<nat>, children: seq<Edge>, seen: set<nat>) returns (r: set<nat>)
    ensures r == undone + NewStates(children, seen)
  {
    r := undone;
    var k := 0;
    while k < |children|
      invariant 0 <= k <= |children|
      invariant r == undone + NewStates(children[..k], seen)
    {
      NewStatesStep(children, k, seen);
      if children[k].dest !in seen {
        r := r + {children[k].dest};
      }
      k := k + 1;
    }
    assert children[..k] == children;
  }

  /**
   * The constructor's loop invariant: `nodes` and the work list `undone`
   * are disjoint, the root is in one of them, every finished node has its
   * child list, those children are known, every known state other than the
   * root is a child of a finished node and lies in the window 1..maxHeight.
   */
  ghost predicate ClosureInv(nodes: set<nat>, undone: set<nat>, edges: map<nat, seq<Edge>>,
                             root: nat, maxHeight: nat, universe: set<nat>)
  {
    && nodes !! undone
    && root in nodes + undone
    && edges.Keys == nodes
    && (forall n :: n in nodes ==> edges[n] == ChildrenOf(n, maxHeight))
    && (forall n, k :: n in nodes && 0 <= k < |edges[n]| ==> edges[n][k].dest in nodes + undone)
    && (forall n :: n in nodes + undone && n != root ==> exists m :: m in nodes && Leads(edges[m], n))
    && (forall n :: n in nodes + undone && n != root ==> InWindow(n, maxHeight))
    && nodes + undone <= universe
  }

  /** `to` is the target of some entry of `cs`. */
  ghost predicate Leads(cs: seq<Edge>, to: nat)
  {
    exists k :: 0 <= k < |cs| && cs[k].dest == to
  }

  /** Children stay in the window and hence below 2^(top+1). */
  lemma ChildrenInUniverse(node: nat, maxHeight: nat, top: nat)
    requires maxHeight <= top
    ensures var cs := ChildrenOf(node, maxHeight);
      forall k :: 0 <= k < |cs| ==> InWindow(cs[k].dest, maxHeight) && cs[k].dest in Below(Pow2(top + 1))
  {
    var cs := ChildrenOf(node, maxHeight);
    forall k | 0 <= k < |cs|
      ensures InWindow(cs[k].dest, maxHeight) && cs[k].dest in Below(Pow2(top + 1))
    {
      EdgeRule(node, maxHeight, k);
      BelowPow2(cs[k].dest, top + 1);
    }
  }

  /** One round of the work-list loop keeps the invariant. */
  lemma ClosureStep(nodes: set<nat>, undone: set<nat>, edges: map<nat, seq<Edge>>,
                    root: nat, maxHeight: nat, top: nat, universe: set<nat>, node: nat)
    requires ClosureInv(nodes, undone, edges, root, maxHeight, universe)
    requires node in undone
    requires maxHeight <= top && universe == Below(Pow2(top + 1))
    ensures var cs := ChildrenOf(node, maxHeight);
      ClosureInv(nodes + {node}, (undone + NewStates(cs, nodes + {node})) - {node},
                 edges[node := cs], root, maxHeight, universe)
  {
    var cs := ChildrenOf(node, maxHeight);
    var nodes': set<nat> := nodes + {node};
    var edges': map<nat, seq<Edge>> := edges[node := cs];
    var undone' := (undone + NewStates(cs, nodes')) - {node};
    StepWindow(nodes, undone, edges, root, maxHeight, top, universe, node, undone');
    StepParents(nodes, undone, edges, root, node, cs, undone');
    StepClosed(nodes, undone, edges, node, cs, undone');
    assert forall n :: n in nodes' ==> edges'[n] == ChildrenOf(n, maxHeight);
    ClosureInvIntro(nodes', undone', edges', root, maxHeight, universe);
  }

  /** The invariant, conjunct by conjunct. */
  lemma ClosureInvIntro(nodes: set<nat>, undone: set<nat>, edges: map<nat, seq<Edge>>,
                        root: nat, maxHeight: nat, universe: set<nat>)
    requires nodes !! undone && root in nodes + undone && edges.Keys == nodes
    requires forall n :: n in nodes ==> edges[n] == ChildrenOf(n, maxHeight)
    requires forall n, k :: n in nodes && 0 <= k < |edges[n]| ==> edges[n][k].dest in nodes + undone
    requires forall n :: n in nodes + undone && n != root ==> exists m :: m in nodes && Leads(edges[m], n)
    requires forall n :: n in nodes + undone && n != root ==> InWindow(n, maxHeight)
    requires nodes + undone <= universe
    ensures ClosureInv(nodes, undone, edges, root, maxHeight, universe)
  {
  }

  lemma StepWindow(nodes: set<nat>, undone: set<nat>, edges: map<nat, seq<Edge>>,
                   root: nat, maxHeight: nat, top: nat, universe: set<nat>, node: nat, undone': set<nat>)
    requires ClosureInv(nodes, undone, edges, root, maxHeight, universe)
    requires node in undone
    requires maxHeight <= top && universe == Below(Pow2(top + 1))
    requires undone' == (undone + NewStates(ChildrenOf(node, maxHeight), nodes + {node})) - {node}
    ensures forall n :: n in nodes + {node} + undone' && n != root ==> InWindow(n, maxHeight)
    ensures nodes + {node} + undone' <= universe
    ensures (nodes + {node}) !! undone' && root in nodes + {node} + undone'
  {
    var cs := ChildrenOf(node, maxHeight);
    ChildrenInUniverse(node, maxHeight, top);
    NewStatesFresh(cs, nodes + {node});
    forall n | n in NewStates(cs, nodes + {node})
      ensures InWindow(n, maxHeight) && n in universe
    {
      NewStatesMembers(cs, nodes + {node}, n);
      var k :| 0 <= k < |cs| && cs[k].dest == n;
    }
  }

  /** Finishing `node` with child list `cs` keeps every listed child known. */
  lemma StepClosed(nodes: set<nat>, undone: set<nat>, edges: map<nat, seq<Edge>>,
                   node: nat, cs: seq<Edge>, undone': set<nat>)
    requires edges.Keys == nodes && node !in nodes
    requires forall n, k :: n in nodes && 0 <= k < |edges[n]| ==> edges[n][k].dest in nodes + undone
    requires undone' == (undone + NewStates(cs, nodes + {node})) - {node}
    ensures var edges' := edges[node := cs];
      forall n, k :: n in nodes + {node} && 0 <= k < |edges'[n]| ==> edges'[n][k].dest in nodes + {node} + undone'
  {
    var edges': map<nat, seq<Edge>> := edges[node := cs];
    forall n: nat, k: int | n in nodes + {node} && 0 <= k < |edges'[n]|
      ensures edges'[n][k].dest in nodes + {node} + undone'
    {
      if n != node {
        assert edges'[n] == edges[n];
      } else if cs[k].dest !in nodes + {node} {
        NewStatesMembers(cs, nodes + {node}, cs[k].dest);
      }
    }
  }

  /** Finishing `node` with child list `cs` keeps a finished parent for every known state. */
  lemma StepParents(nodes: set<nat>, undone: set<nat>, edges: map<nat, seq<Edge>>,
                    root: nat, node: nat, cs: seq<Edge>, undone': set<nat>)
    requires edges.Keys == nodes && node !in nodes && node in undone
    requires forall n :: n in nodes + undone && n != root ==> exists m :: m in nodes && Leads(edges[m], n)
    requires undone' == (undone + NewStates(cs, nodes + {node})) - {node}
    ensures var edges' := edges[node := cs];
      forall n :: n in nodes + {node} + undone' && n != root ==>
        exists m :: m in nodes + {node} && Leads(edges'[m], n)
  {
    var edges' := edges[node := cs];
    forall n | n in nodes + {node} + undone' && n != root
      ensures exists m :: m in nodes + {node} && Leads(edges'[m], n)
    {
      if n in nodes + undone {
        var m :| m in nodes && Leads(edges[m], n);
        assert edges'[m] == edges[m];
        assert m in nodes + {node} && Leads(edges'[m], n);
      } else {
        NewStatesMembers(cs, nodes + {node}, n);
        var k :| 0 <= k < |cs| && cs[k].dest == n;
        assert edges'[node] == cs;
        assert node in nodes + {node} && Leads(edges'[node], n);
      }
    }
  }

  /** With at least one ball the sentinel 0 is never a state; with none, 0 is the only state. */
  ghost predicate ZeroFree(root: nat, states: set<nat>)
  {
    (root != 0 ==> 0 !in states) && (root == 0 ==> states <= {0})
  }

  /** The empty state has the single child "empty", keyed by 0. */
  lemma ZeroChildren(maxHeight: nat)
    ensures ChildrenOf(0, maxHeight) == [Edge(0, 0)]
  {
    NothingSetInZero(1);
    var sh := Shift(0, maxHeight);
    forall p: nat ensures !IsSet(sh, p) {
      NothingSetInZero(p + 1);
    }
    forall p: nat ensures IsSet(sh, p) <==> IsSet(0, p) {
      NothingSetInZero(p);
    }
    SameBitsSameState(sh, 0);
  }

  /** A non-empty state that throws, or lies in the window, has no empty child. */
  lemma ChildNonZero(s: nat, maxHeight: nat, k: nat)
    requires s != 0 && (IsSet(s, 1) || InWindow(s, maxHeight))
    requires k < |ChildrenOf(s, maxHeight)|
    ensures ChildrenOf(s, maxHeight)[k].dest != 0
  {
    var e := ChildrenOf(s, maxHeight)[k];
    EdgeRule(s, maxHeight, k);
    if IsSet(s, 1) {
      assert IsSet(e.dest, e.height);
      if e.dest == 0 { NothingSetInZero(e.height); }
    } else {
      var p := SomethingSetInNonZero(s);
      assert 2 <= p <= maxHeight;
      assert IsSet(e.dest, p - 1);
      if e.dest == 0 { NothingSetInZero(p - 1); }
    }
  }

  /** One round of the work-list loop keeps ZeroFree. */
  lemma StepZero(nodes: set<nat>, undone: set<nat>, root: nat, maxHeight: nat, node: nat, undone': set<nat>)
    requires ZeroFree(root, nodes + undone)
    requires root != 0 ==> IsSet(root, 1)
    requires node in undone && (node != root ==> InWindow(node, maxHeight))
    requires undone' == (undone + NewStates(ChildrenOf(node, maxHeight), nodes + {node})) - {node}
    ensures ZeroFree(root, nodes + {node} + undone')
  {
    var cs := ChildrenOf(node, maxHeight);
    forall n | n in NewStates(cs, nodes + {node})
      ensures root != 0 ==> n != 0
      ensures root == 0 ==> n == 0
    {
      NewStatesMembers(cs, nodes + {node}, n);
      var k :| 0 <= k < |cs| && cs[k].dest == n;
      if root != 0 {
        ChildNonZero(node, maxHeight, k);
      } else {
        ZeroChildren(maxHeight);
      }
    }
  }

  /** When the root lies in the window, every state holds as many balls as the root. */
  ghost predicate SameBalls(root: nat, maxHeight: nat, states: set<nat>)
  {
    InWindow(root, maxHeight) ==>
      forall n :: n in states ==> Count(n, 1, maxHeight + 1) == Count(root, 1, maxHeight + 1)
  }

  /** One round of the work-list loop keeps SameBalls: each new state is a child, and a throw keeps the ball count. */
  lemma StepBalls(nodes: set<nat>, undone: set<nat>, edges: map<nat, seq<Edge>>,
                  root: nat, maxHeight: nat, universe: set<nat>, node: nat, undone': set<nat>)
    requires ClosureInv(nodes, undone, edges, root, maxHeight, universe)
    requires SameBalls(root, maxHeight, nodes + undone)
    requires node in undone
    requires undone' == (undone + NewStates(ChildrenOf(node, maxHeight), nodes + {node})) - {node}
    ensures SameBalls(root, maxHeight, nodes + {node} + undone')
  {
    if InWindow(root, maxHeight) {
      var cs := ChildrenOf(node, maxHeight);
      assert InWindow(node, maxHeight);
      forall n | n in nodes + {node} + undone'
        ensures Count(n, 1, maxHeight + 1) == Count(root, 1, maxHeight + 1)
      {
        if n !in nodes + undone {
          NewStatesMembers(cs, nodes + {node}, n);
          var k :| 0 <= k < |cs| && cs[k].dest == n;
          ChildBalance(node, maxHeight, k);
        }
      }
    }
  }

  /** With no more balls than the highest throw, every state the closure finds holds exactly `balls` balls. */
  lemma NodeBalls(root: nat, balls: nat, maxHeight: nat, states: set<nat>)
    requires forall p: nat :: IsSet(root, p) <==> 1 <= p <= balls
    requires SameBalls(root, maxHeight, states + {})
    ensures balls <= maxHeight ==> forall n :: n in states ==> Count(n, 1, maxHeight + 1) == balls
  {
    if balls <= maxHeight {
      PrefixCount(root, balls, 1, maxHeight + 1);
      assert InWindow(root, maxHeight);
      assert states + {} == states;
    }
  }

  /** `p` runs from `root` to `n`, each state a child of the one before under the transition rule. */
  ghost predicate ChildPath(root: nat, maxHeight: nat, p: seq<nat>, n: nat)
  {
    && |p| >= 1 && p[0] == root && p[|p| - 1] == n
    && forall i :: 0 <= i < |p| - 1 ==> Leads(ChildrenOf(p[i], maxHeight), p[i + 1])
  }

  /** `n` can be reached from `root` by a sequence of throws. */
  ghost predicate Reachable(root: nat, maxHeight: nat, n: nat)
  {
    exists p :: ChildPath(root, maxHeight, p, n)
  }

  /** A path to `m` followed by a child of `m` is a path to that child. */
  lemma ChildPathExtend(root: nat, maxHeight: nat, p: seq<nat>, m: nat, n: nat)
    requires ChildPath(root, maxHeight, p, m) && Leads(ChildrenOf(m, maxHeight), n)
    ensures ChildPath(root, maxHeight, p + [n], n)
  {
    var q := p + [n];
    forall i | 0 <= i < |q| - 1
      ensures Leads(ChildrenOf(q[i], maxHeight), q[i + 1])
    {
      if i < |p| - 1 {
        assert q[i] == p[i] && q[i + 1] == p[i + 1];
      } else {
        assert q[i] == m && q[i + 1] == n;
      }
    }
  }

  /** One round of the work-list loop keeps every known state reachable from the root: each new state is a child of the node just finished. */
  lemma StepReach(nodes: set<nat>, undone: set<nat>, root: nat, maxHeight: nat, node: nat, undone': set<nat>)
    requires forall n :: n in nodes + undone ==> Reachable(root, maxHeight, n)
    requires node in undone
    requires undone' == (undone + NewStates(ChildrenOf(node, maxHeight), nodes + {node})) - {node}
    ensures forall n :: n in nodes + {node} + undone' ==> Reachable(root, maxHeight, n)
  {
    forall n | n in nodes + {node} + undone'
      ensures Reachable(root, maxHeight, n)
    {
      if n !in nodes + undone {
        assert n in NewStates(ChildrenOf(node, maxHeight), nodes + {node});
        NewStatesMembers(ChildrenOf(node, maxHeight), nodes + {node}, n);
        assert Reachable(root, maxHeight, node);
        var p :| ChildPath(root, maxHeight, p, node);
        ChildPathExtend(root, maxHeight, p, node, n);
      }
    }
  }

  /** A set of states that holds the root and the children of each of its states holds every reachable state. */
  lemma {:induction false} ClosedHoldsReachable(root: nat, maxHeight: nat, nodes: set<nat>,
                                                edges: map<nat, seq<Edge>>, p: seq<nat>, n: nat)
    requires root in nodes && edges.Keys == nodes
    requires forall m :: m in nodes ==> edges[m] == ChildrenOf(m, maxHeight)
    requires forall m, k :: m in nodes && 0 <= k < |edges[m]| ==> edges[m][k].dest in nodes
    requires ChildPath(root, maxHeight, p, n)
    ensures n in nodes
    decreases |p|
  {
    if |p| > 1 {
      var m := p[|p| - 2];
      var q := p[..|p| - 1];
      assert ChildPath(root, maxHeight, q, m) by {
        forall i | 0 <= i < |q| - 1
          ensures Leads(ChildrenOf(q[i], maxHeight), q[i + 1])
        {
          assert q[i] == p[i] && q[i + 1] == p[i + 1];
        }
      }
      ClosedHoldsReachable(root, maxHeight, nodes, edges, q, m);
      assert Leads(ChildrenOf(m, maxHeight), n);
      var k :| 0 <= k < |edges[m]| && edges[m][k].dest == n;
    }
  }

  /**
   * The graph invariant: the root holds positions 1..balls and is a node,
   * every node carries the child list the transition rule gives it, the child
   * lists stay inside the graph, every node other than the root is some
   * node's child and uses only positions 1..maxHeight, and 0 is a node
   * exactly when it is the root.
   */
  ghost predicate GraphInv(balls: nat, maxHeight: nat, root: nat, nodes: set<nat>, edges: map<nat, seq<Edge>>)
  {
    && (forall p: nat :: IsSet(root, p) <==> 1 <= p <= balls)
    && root in nodes
    && edges.Keys == nodes
    && (forall n :: n in nodes ==> edges[n] == ChildrenOf(n, maxHeight))
    && (forall n, k :: n in nodes && 0 <= k < |edges[n]| ==> edges[n][k].dest in nodes)
    && (forall n :: n in nodes && n != root ==> exists m :: m in nodes && Leads(edges[m], n))
    && (forall n :: n in nodes && n != root ==> InWindow(n, maxHeight))
    && ZeroFree(root, nodes)
  }

  /** When the work list is empty the closure invariant is the graph invariant. */
  lemma ClosureDone(balls: nat, maxHeight: nat, root: nat, nodes: set<nat>, edges: map<nat, seq<Edge>>, universe: set<nat>)
    requires ClosureInv(nodes, {}, edges, root, maxHeight, universe)
    requires ZeroFree(root, nodes + {})
    requires forall p: nat :: IsSet(root, p) <==> 1 <= p <= balls
    ensures GraphInv(balls, maxHeight, root, nodes, edges)
  {
    assert nodes + {} == nodes;
  }

  /** The graph's states are exactly the states reachable from the root. */
  lemma NodesReachable(balls: nat, maxHeight: nat, root: nat, nodes: set<nat>, edges: map<nat, seq<Edge>>)
    requires GraphInv(balls, maxHeight, root, nodes, edges)
    requires forall n :: n in nodes ==> Reachable(root, maxHeight, n)
    ensures forall n :: n in nodes <==> Reachable(root, maxHeight, n)
  {
    forall n | Reachable(root, maxHeight, n)
      ensures n in nodes
    {
      var p :| ChildPath(root, maxHeight, p, n);
      ClosedHoldsReachable(root, maxHeight, nodes, edges, p, n);
    }
  }

  /** The children of the two states of three balls with throws of at most 2. */
  lemma ThreeBallsChildren()
    ensures ChildrenOf(14, 2) == [Edge(2, 6)]
    ensures ChildrenOf(6, 2) == [Edge(2, 6)]
  {
  }

  /** The ground state of three balls holds positions 1..3. */
  lemma ThreeBallsRoot()
    ensures RootState(3) == 14
  {
    assert !IsSet(0, 1);
    assert RootState(1) == 2;
    assert !IsSet(2, 2);
    assert RootState(2) == 6;
    assert !IsSet(6, 3);
  }

  /**
   * Three balls with throws of at most 2: from the root 14 (positions
   * 1..3) only the throw 2 is possible, to 6 (positions 1..2), which throws
   * 2 back to itself. The states 2 and 4 are never reached.
   */
  lemma ThreeBallsTwoHigh()
    ensures forall n :: Reachable(14, 2, n) <==> n == 14 || n == 6
  {
    forall n | Reachable(14, 2, n)
      ensures n == 14 || n == 6
    {
      var p :| ChildPath(14, 2, p, n);
      ThreeBallsChildren();
      PairClosed(14, 6, 2, p, n);
    }
    ThreeBallsChildren();
    assert ChildPath(14, 2, [14], 14);
    assert ChildPath(14, 2, [14, 6], 6) by {
      assert ChildrenOf(14, 2)[0].dest == 6;
    }
  }

  /** A path of throws from `a` never leaves {a, b} when the children of both stay in it. */
  lemma PairClosed(a: nat, b: nat, maxHeight: nat, p: seq<nat>, n: nat)
    requires forall k :: 0 <= k < |ChildrenOf(a, maxHeight)| ==> ChildrenOf(a, maxHeight)[k].dest in {a, b}
    requires forall k :: 0 <= k < |ChildrenOf(b, maxHeight)| ==> ChildrenOf(b, maxHeight)[k].dest in {a, b}
    requires ChildPath(a, maxHeight, p, n)
    ensures n == a || n == b
  {
    var edges := map[a := ChildrenOf(a, maxHeight), b := ChildrenOf(b, maxHeight)];
    ClosedHoldsReachable(a, maxHeight, {a, b}, edges, p, n);
  }

  /** The constructor's first loop: positions 1..balls set, one at a time. */
  method RootOf(balls: nat) returns (r: nat)
    ensures forall p: nat :: IsSet(r, p) <==> 1 <= p <= balls
    ensures r == 0 <==> balls == 0
    ensures r != 0 ==> IsSet(r, 1)
  {
    r := 0;
    var i := 1;
    assert forall p: nat :: !IsSet(0, p) by {
      forall p: nat ensures !IsSet(0, p) { NothingSetInZero(p); }
    }
    while i <= balls
      invariant 1 <= i <= balls + 1
      invariant forall p: nat :: IsSet(r, p) <==> 1 <= p < i
    {
      r := SetBit(r, i);
      i := i + 1;
    }
    if balls == 0 {
      assert r == 0 by {
        forall p: nat ensures IsSet(r, p) <==> IsSet(0, p) {}
        SameBitsSameState(r, 0);
      }
    } else {
      assert IsSet(r, 1);
      NothingSetInZero(1);
    }
  }

  /** The constructor's work-list loop: every state reachable from `r`, each with its child list. */
  method Closure(r: nat, maxHeight: nat, top: nat) returns (done: set<nat>, lists: map<nat, seq<Edge>>)
    requires maxHeight <= top && r < Pow2(top + 1)
    requires r != 0 ==> IsSet(r, 1)
    ensures ClosureInv(done, {}, lists, r, maxHeight, Below(Pow2(top + 1)))
    ensures ZeroFree(r, done + {})
    ensures SameBalls(r, maxHeight, done + {})
    ensures forall n :: n in done ==> Reachable(r, maxHeight, n)
  {
    ghost var universe := Below(Pow2(top + 1));
    done := {};
    lists := map[];
    var undone := {r};
    assert ChildPath(r, maxHeight, [r], r);
    while undone != {}
      invariant ClosureInv(done, undone, lists, r, maxHeight, universe)
      invariant ZeroFree(r, done + undone)
      invariant SameBalls(r, maxHeight, done + undone)
      invariant forall n :: n in done + undone ==> Reachable(r, maxHeight, n)
      decreases universe - done
    {
      var node :| node in undone;
      ghost var done0 := done;
      ghost var before := undone;
      done := done + {node};
      var children := GenerateChildren(maxHeight, node);
      undone := AddUnseen(undone, children, done);
      ClosureStep(done0, before, lists, r, maxHeight, top, universe, node);
      StepZero(done0, before, r, maxHeight, node, undone - {node});
      StepBalls(done0, before, lists, r, maxHeight, universe, node, undone - {node});
      StepReach(done0, before, r, maxHeight, node, undone - {node});
      lists := lists[node := children];
      undone := undone - {node};
    }
  }

  class StateGraph {
    const balls: nat
    const maxHeight: nat
    const root: nat
    var nodes: set<nat>
    var edges: map<nat, seq<Edge>>

    /**
     * The graph invariant: the root is a node, every node carries the child
     * list the transition rule gives it, the child lists stay inside the
     * graph, every node other than the root is some node's child, every
     * node other than the root uses only positions 1..maxHeight, and the
     * nodes are exactly the states reachable from the root.
     */
    ghost predicate Valid()
      reads this
    {
      && GraphInv(balls, maxHeight, root, nodes, edges)
      && (forall n :: n in nodes <==> Reachable(root, maxHeight, n))
    }

    /** The work-list closure from the root state. */
    constructor (balls: nat, maxHeight: nat)
      ensures this.balls == balls && this.maxHeight == maxHeight
      ensures Valid()
      ensures forall n :: n in nodes <==> Reachable(root, maxHeight, n)
      ensures balls <= maxHeight ==> forall n :: n in nodes ==> Count(n, 1, maxHeight + 1) == balls
    {
      this.balls := balls;
      this.maxHeight := maxHeight;
      var r := RootOf(balls);
      root := r;
      var top := if balls < maxHeight then maxHeight else balls;
      BelowPow2(r, top + 1);
      var done, lists := Closure(r, maxHeight, top);
      ClosureDone(balls, maxHeight, r, done, lists, Below(Pow2(top + 1)));
      NodeBalls(r, balls, maxHeight, done);
      NodesReachable(balls, maxHeight, r, done, lists);
      nodes := done;
      edges := lists;
    }

    /** StateGraph.getChildren: the child list of a node; `null` (None) for a state outside the graph. */
    function GetChildren(node: nat): (r: Option<seq<Edge>>)
      reads this
      requires Valid()
      ensures r.Some? <==> node in nodes
      ensures r.Some? ==> r.value == ChildrenOf(node, maxHeight)
    {
      if node in edges then Some(edges[node]) else None
    }

    /** StateGraph.getNodes: the states of the graph, which are exactly the states reachable from the root. */
    function GetNodes(): (r: set<nat>)
      reads this
      ensures Valid() ==> forall n :: n in r <==> Reachable(root, maxHeight, n)
      ensures Valid() ==> forall n :: n in r ==> GetChildren(n) == Some(ChildrenOf(n, maxHeight))
    {
      nodes
    }

    /**
     * StateGraph.getNextChild.  Java throws when `node` is not in the graph
     * (null map) or when asked for the first child of an empty list; both
     * are the requires.
     */
    method GetNextChild(node: nat, current: nat) returns (r: nat)
      requires node in edges
      requires current == 0 ==> |edges[node]| > 0
      ensures r == NextChild(edges[node], current)
    {
      var children := edges[node];
      if current == 0 {
        return children[0].dest;
      }
      var next := false;
      var i := 0;
      while i < |children|
        invariant 0 <= i <= |children|
        invariant !next ==> forall j :: 0 <= j < i ==> children[j].dest != current
        invariant next ==> 0 < i && children[i - 1].dest == current
        invariant next ==> forall j :: 0 <= j < i - 1 ==> children[j].dest != current
      {
        if next {
          assert FirstMatch(children, current, i - 1);
          return children[i].dest;
        }
        if children[i].dest == current {
          next := true;
        }
        i := i + 1;
      }
      if next {
        assert FirstMatch(children, current, |children| - 1);
      } else {
        assert forall k :: 0 <= k < |children| ==> children[k].dest != current;
      }
      return 0;
    }

    /** StateGraph.getLabel: the label of the edge from -> to, or -1. */
    method GetLabel(from: nat, to: nat) returns (r: int)
      requires from in edges
      ensures r == LabelOf(edges[from], to)
      ensures r == -1 <==> forall k :: 0 <= k < |edges[from]| ==> edges[from][k].dest != to
    {
      var children := edges[from];
      LabelOfMeaning(children, to);
      var i := 0;
      while i < |children|
        invariant 0 <= i <= |children|
        invariant LabelOf(children[i..], to) == LabelOf(children, to)
        invariant forall j :: 0 <= j < i ==> children[j].dest != to
      {
        if children[i].dest == to {
          return children[i].height;
        }
        assert children[i..][1..] == children[i + 1..];
        i := i + 1;
      }
      return -1;
    }
  }
}
