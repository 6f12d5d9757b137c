/**
 * The cycle enumerator (Generator.java).  For a period n the generator
 * walks every path of n + 1 states from every state of the graph, in
 * lexicographic order of the path labels, and reports the label sequence
 * of each path that ends where it started, once its canonical form has
 * length n.  The handler is modelled as the list of siteswaps it was given.
 */
module GeneratorModel {
  import opened Wrappers
  import opened Lex
  import opened StateBits
  import opened StateGraphModel
  import opened Walks
  import opened Canonical
  import opened Utils
  import opened SiteswapModel
  import Cycles

  // ---------------------------------------------------------------------
  // What one call of generate finds and reports
  // ---------------------------------------------------------------------

  /** A path of P states from `root`: one of the paths the search visits. */
  ghost predicate WalkFrom(E: map<nat, seq<Edge>>, root: nat, P: nat, w: seq<nat>)
  {
    IsWalk(E, w) && |w| == P && w[0] == root
  }

  /** A path of P states whose first and last states agree: a cycle of P - 1 throws. */
  ghost predicate Cycle(E: map<nat, seq<Edge>>, P: nat, w: seq<nat>)
  {
    IsWalk(E, w) && |w| == P && w[0] == w[P - 1]
  }

  /**
   * The patterns handed to the handler, in order, out of the canonical
   * forms `ns` met one after the other: those of length `period`.
   */
  function Kept(ns: seq<seq<nat>>, period: nat): (r: seq<seq<nat>>)
    ensures |r| <= |ns|
  {
    if |ns| == 0 then []
    else
      var last := ns[|ns| - 1];
      Kept(ns[..|ns| - 1], period) + (if |last| == period then [last] else [])
  }

  /** Exactly the canonical forms of length `period` are kept. */
  lemma {:induction false} KeptMember(ns: seq<seq<nat>>, period: nat, s: seq<nat>)
    ensures s in Kept(ns, period) <==> s in ns && |s| == period
  {
    if |ns| > 0 {
      var front := ns[..|ns| - 1];
      KeptMember(front, period, s);
      assert ns == front + [ns[|ns| - 1]];
    }
  }

  /** Keeping from a concatenation keeps from the first list, then from the second. */
  lemma {:induction false} KeptConcat(a: seq<seq<nat>>, b: seq<seq<nat>>, period: nat)
    ensures Kept(a + b, period) == Kept(a, period) + Kept(b, period)
  {
    if |b| > 0 {
      var b' := b[..|b| - 1];
      var last := b[|b| - 1];
      KeptConcat(a, b', period);
      assert (a + b)[..|a + b| - 1] == a + b';
      assert (a + b)[|a + b| - 1] == last;
      var one := if |last| == period then [last] else [];
      assert Kept(a + b, period) == Kept(a + b', period) + one;
      assert Kept(b, period) == Kept(b', period) + one;
      assert Kept(a + b', period) + one == Kept(a, period) + (Kept(b', period) + one);
    } else {
      assert a + b == a;
    }
  }

  /** `f` applied to each element, in order. */
  function MapSeq<A, B>(f: A -> B, xs: seq<A>): (r: seq<B>)
    ensures |r| == |xs|
  {
    if |xs| == 0 then [] else MapSeq(f, xs[..|xs| - 1]) + [f(xs[|xs| - 1])]
  }

  /** Mapping a concatenation maps the first list, then the second. */
  lemma {:induction false} MapSeqConcat<A, B>(f: A -> B, xs: seq<A>, ys: seq<A>)
    ensures MapSeq(f, xs + ys) == MapSeq(f, xs) + MapSeq(f, ys)
    decreases |ys|
  {
    if |ys| == 0 {
      assert xs + ys == xs;
    } else {
      var m := |ys| - 1;
      MapSeqConcat(f, xs, ys[..m]);
      assert (xs + ys)[..|xs + ys| - 1] == xs + ys[..m];
    }
  }

  /** Element i of the mapped list is `f` of element i. */
  lemma {:induction false} MapSeqAt<A, B>(f: A -> B, xs: seq<A>, i: nat)
    requires i < |xs|
    ensures MapSeq(f, xs)[i] == f(xs[i])
    decreases |xs|
  {
    var n := |xs| - 1;
    if i < n {
      MapSeqAt(f, xs[..n], i);
    }
  }

  /** The pattern generate reads off a walk: the canonical form of its labels. */
  ghost function PatternOf(E: map<nat, seq<Edge>>): seq<nat> -> seq<nat>
  {
    w => if IsWalk(E, w) then Normal(Labels(E, w)) else []
  }

  /** `pats` lists, in order, the canonical forms of the labels of the walks `ws`. */
  ghost predicate Canonicals(E: map<nat, seq<Edge>>, ws: seq<seq<nat>>, pats: seq<seq<nat>>)
  {
    pats == MapSeq(PatternOf(E), ws)
  }

  /** One more walk adds its canonical form. */
  lemma CanonicalsSnoc(E: map<nat, seq<Edge>>, ws: seq<seq<nat>>, pats: seq<seq<nat>>, w: seq<nat>, n: seq<nat>)
    ensures Canonicals(E, ws, pats) && IsWalk(E, w) && n == Normal(Labels(E, w)) ==>
      Canonicals(E, ws + [w], pats + [n])
  {
    MapSeqConcat(PatternOf(E), ws, [w]);
    assert MapSeq(PatternOf(E), [w]) == [PatternOf(E)(w)];
  }

  /** The canonical forms of two lists of walks, one after the other. */
  lemma CanonicalsJoin(E: map<nat, seq<Edge>>, ws: seq<seq<nat>>, pats: seq<seq<nat>>,
                       more: seq<seq<nat>>, morePats: seq<seq<nat>>)
    ensures Canonicals(E, ws, pats) && Canonicals(E, more, morePats) ==> Canonicals(E, ws + more, pats + morePats)
  {
    MapSeqConcat(PatternOf(E), ws, more);
  }

  /** Entry i of `pats` is the canonical form of the labels of walk i. */
  lemma CanonicalsAt(E: map<nat, seq<Edge>>, ws: seq<seq<nat>>, pats: seq<seq<nat>>, i: nat)
    requires Canonicals(E, ws, pats) && i < |ws| && IsWalk(E, ws[i])
    ensures |pats| == |ws| && pats[i] == Normal(Labels(E, ws[i]))
  {
    MapSeqAt(PatternOf(E), ws, i);
  }

  /**
   * Every pattern kept out of the canonical forms of cycles of a graph that
   * follows the transition rule is a valid siteswap in canonical form whose
   * length is the period: the default handler's "shouldn't have happened"
   * branch is never taken.
   */
  lemma KeptValid(E: map<nat, seq<Edge>>, maxHeight: nat, ws: seq<seq<nat>>, pats: seq<seq<nat>>,
                  period: nat, s: seq<nat>)
    requires GraphOk(E) && Juggles(E, maxHeight) && period >= 1
    requires forall i :: 0 <= i < |ws| ==> Cycle(E, period + 1, ws[i])
    requires Canonicals(E, ws, pats) && s in Kept(pats, period)
    ensures IsValidSeq(s) && |s| == period && Normal(s) == s
  {
    KeptMember(pats, period, s);
    var i :| 0 <= i < |pats| && s == pats[i];
    CanonicalsAt(E, ws, pats, i);
    CycleCanonicalValid(E, maxHeight, ws[i], period);
  }

  /** The canonical form of the labels of a cycle, when it keeps the full period, is a valid siteswap in canonical form. */
  lemma CycleCanonicalValid(E: map<nat, seq<Edge>>, maxHeight: nat, w: seq<nat>, period: nat)
    requires GraphOk(E) && Juggles(E, maxHeight) && period >= 1 && Cycle(E, period + 1, w)
    ensures |Normal(Labels(E, w))| == period ==>
      IsValidSeq(Normal(Labels(E, w))) && Normal(Normal(Labels(E, w))) == Normal(Labels(E, w))
  {
    var L := Labels(E, w);
    assert Cycles.ClosedWalk(E, w);
    Cycles.ClosedWalkValid(E, maxHeight, w);
    if |Normal(L)| == period {
      NormalValid(L);
    }
    NormalIdempotent(L);
  }

  /** A pattern of smaller period is not handed over: the cycle 3 3 3 has pattern 3, dropped at period 3 and kept at period 1. */
  lemma ShorterPeriodDropped(E: map<nat, seq<Edge>>, w: seq<nat>)
    requires IsWalk(E, w) && Labels(E, w) == [3, 3, 3]
    ensures Kept([Normal(Labels(E, w))], 3) == [] && Kept([Normal(Labels(E, w))], 1) == [[3]]
  {
    NormalThree();
    var ns: seq<seq<nat>> := [[3]];
    assert ns[..0] == [];
  }

  // ---------------------------------------------------------------------
  // The search from one root
  // ---------------------------------------------------------------------

  /** `w` comes before the current path in label order (every path does once the search is over). */
  ghost predicate Earlier(E: map<nat, seq<Edge>>, w: seq<nat>, cur: Option<seq<nat>>)
  {
    cur.None? ||
    (IsWalk(E, w) && IsWalk(E, cur.value) && |w| == |cur.value| && Cmp(Labels(E, w), Labels(E, cur.value)) == -1)
  }

  /** Every listed walk is a cycle from `root` before the current path. */
  ghost predicate Listed(E: map<nat, seq<Edge>>, root: nat, P: nat, found: seq<seq<nat>>, cur: Option<seq<nat>>)
  {
    forall i :: 0 <= i < |found| ==> Cycle(E, P, found[i]) && found[i][0] == root && Earlier(E, found[i], cur)
  }

  /** Every cycle from `root` before the current path is listed. */
  ghost predicate Covered(E: map<nat, seq<Edge>>, root: nat, P: nat, found: seq<seq<nat>>, cur: Option<seq<nat>>)
  {
    forall w :: Cycle(E, P, w) && w[0] == root && Earlier(E, w, cur) ==> w in found
  }

  /** The list is in strictly increasing label order. */
  ghost predicate Increasing(E: map<nat, seq<Edge>>, found: seq<seq<nat>>)
  {
    forall i, j :: 0 <= i < j < |found| ==>
      IsWalk(E, found[i]) && IsWalk(E, found[j]) && |found[i]| == |found[j]| &&
      Cmp(Labels(E, found[i]), Labels(E, found[j])) == -1
  }

  /**
   * The search from `root` at the current path `cur`: `found` lists, in
   * increasing label order, exactly the cycles from `root` that come before
   * `cur`.
   */
  ghost predicate Visited(E: map<nat, seq<Edge>>, root: nat, P: nat, found: seq<seq<nat>>, cur: Option<seq<nat>>)
  {
    && (cur.Some? ==> WalkFrom(E, root, P, cur.value))
    && Listed(E, root, P, found, cur)
    && Covered(E, root, P, found, cur)
    && Increasing(E, found)
  }

  /** The first path, all first children, comes before no other path from its root. */
  lemma VisitStart(E: map<nat, seq<Edge>>, root: nat, P: nat)
    requires GraphOk(E) && root in E && P >= 1
    ensures IsWalk(E, [root])
    ensures Visited(E, root, P, [], Some(Descend(E, [root], P)))
  {
    var first := Descend(E, [root], P);
    forall w | Cycle(E, P, w) && w[0] == root
      ensures !Earlier(E, w, Some(first))
    {
      assert w[..1] == [root];
      DescendMin(E, [root], w, P);
      CmpAntisym(Labels(E, first), Labels(E, w));
    }
  }

  /** A cycle visited before the current path also comes before its successor. */
  lemma EarlierStays(E: map<nat, seq<Edge>>, w: seq<nat>, p: seq<nat>, next: Option<seq<nat>>)
    requires Earlier(E, w, Some(p))
    requires next.Some? ==> NextWalk(E, p, next.value)
    ensures Earlier(E, w, next)
  {
    if next.Some? {
      var r := next.value;
      CmpAntisym(Labels(E, w), Labels(E, p));
      CmpAntisym(Labels(E, p), Labels(E, r));
      CmpTrans(Labels(E, r), Labels(E, p), Labels(E, w));
      CmpAntisym(Labels(E, w), Labels(E, r));
    }
  }

  /** A cycle before the successor of `p` was visited before `p`, or is `p`. */
  lemma EarlierThanNext(E: map<nat, seq<Edge>>, root: nat, P: nat, w: seq<nat>, p: seq<nat>, next: Option<seq<nat>>)
    requires GraphOk(E) && WalkFrom(E, root, P, p) && Cycle(E, P, w) && w[0] == root
    requires next.None? ==> LastWalk(E, p)
    requires next.Some? ==> NextWalk(E, p, next.value)
    requires Earlier(E, w, next)
    ensures w == p || Earlier(E, w, Some(p))
  {
    var c := Cmp(Labels(E, w), Labels(E, p));
    if c == 0 {
      SameLabelsSameWalk(E, w, p);
    }
  }

  /** After one step every listed cycle still comes before the current path. */
  lemma VisitKeeps(E: map<nat, seq<Edge>>, root: nat, P: nat, found: seq<seq<nat>>, p: seq<nat>, next: Option<seq<nat>>)
    requires Visited(E, root, P, found, Some(p))
    requires next.Some? ==> NextWalk(E, p, next.value)
    ensures Listed(E, root, P, if p[0] == p[P - 1] then found + [p] else found, next)
  {
    var found' := if p[0] == p[P - 1] then found + [p] else found;
    forall i | 0 <= i < |found'|
      ensures Cycle(E, P, found'[i]) && found'[i][0] == root && Earlier(E, found'[i], next)
    {
      if i < |found| {
        assert found'[i] == found[i];
        EarlierStays(E, found[i], p, next);
      } else if next.Some? {
        CmpAntisym(Labels(E, p), Labels(E, next.value));
      }
    }
  }

  /** After one step every cycle before the current path is listed. */
  lemma VisitCovers(E: map<nat, seq<Edge>>, root: nat, P: nat, found: seq<seq<nat>>, p: seq<nat>, next: Option<seq<nat>>)
    requires GraphOk(E) && Visited(E, root, P, found, Some(p))
    requires next.None? ==> LastWalk(E, p)
    requires next.Some? ==> NextWalk(E, p, next.value)
    ensures Covered(E, root, P, if p[0] == p[P - 1] then found + [p] else found, next)
  {
    var found' := if p[0] == p[P - 1] then found + [p] else found;
    forall w | Cycle(E, P, w) && w[0] == root && Earlier(E, w, next)
      ensures w in found'
    {
      EarlierThanNext(E, root, P, w, p, next);
    }
  }

  /** The current path comes after every listed cycle, so appending it keeps the list increasing. */
  lemma VisitOrdered(E: map<nat, seq<Edge>>, root: nat, P: nat, found: seq<seq<nat>>, p: seq<nat>)
    requires Visited(E, root, P, found, Some(p))
    ensures Increasing(E, if p[0] == p[P - 1] then found + [p] else found)
  {
    var found' := if p[0] == p[P - 1] then found + [p] else found;
    forall i, j | 0 <= i < j < |found'|
      ensures IsWalk(E, found'[i]) && IsWalk(E, found'[j]) && |found'[i]| == |found'[j]|
      ensures Cmp(Labels(E, found'[i]), Labels(E, found'[j])) == -1
    {
      assert found'[i] == found[i];
      assert Earlier(E, found[i], Some(p));
    }
  }

  /** One step of the search: handle the current path, move to its successor. */
  lemma VisitStep(E: map<nat, seq<Edge>>, root: nat, P: nat, found: seq<seq<nat>>, p: seq<nat>, next: Option<seq<nat>>)
    requires GraphOk(E) && Visited(E, root, P, found, Some(p))
    requires next.None? ==> LastWalk(E, p)
    requires next.Some? ==> NextWalk(E, p, next.value)
    ensures Visited(E, root, P, if p[0] == p[P - 1] then found + [p] else found, next)
  {
    VisitKeeps(E, root, P, found, p, next);
    VisitCovers(E, root, P, found, p, next);
    VisitOrdered(E, root, P, found, p);
  }

  // ---------------------------------------------------------------------
  // Descent, one state at a time
  // ---------------------------------------------------------------------

  /** Descending one state further appends the first child of the last state. */
  lemma {:induction false} DescendStep(E: map<nat, seq<Edge>>, q: seq<nat>, n: nat)
    requires GraphOk(E) && IsWalk(E, q) && |q| <= n
    ensures Descend(E, q, n + 1) == Descend(E, q, n) + [E[Descend(E, q, n)[n - 1]][0].dest]
    decreases n - |q|
  {
    WalkExtend(E, q, 0);
    if |q| < n {
      DescendStep(E, q + [E[q[|q| - 1]][0].dest], n);
    }
  }

  // ---------------------------------------------------------------------
  // The boxed comparison of Generator.java:86
  // ---------------------------------------------------------------------

  /**
   * `path.get(i) == path.get(j)` on a LinkedList<Long>: reference identity.
   * The same element is identical to itself; two elements boxed separately
   * are identical only when Long.valueOf returned its cached instance, that
   * is for values up to 127.
   */
  predicate BoxedSame(path: seq<nat>, i: nat, j: nat)
    requires i < |path| && j < |path|
  {
    i == j || (path[i] == path[j] && path[i] <= 127)
  }

  /** No throw is available when every height below `hi` is taken. */
  lemma {:induction false} NoFreeHeight(sh: nat, hi: nat)
    requires forall p: nat :: 1 <= p < hi ==> IsSet(sh, p)
    ensures Throws(sh, hi) == []
  {
    if hi > 1 {
      NoFreeHeight(sh, hi - 1);
    }
  }

  /** With b balls, the root has position 1 set, is at least 2^b, and shifted by one beat it holds b - 1 balls at heights 1..b-1. */
  lemma RootShift(b: nat)
    requires b >= 1
    ensures IsSet(RootState(b), 1) && RootState(b) >= Pow2(b)
    ensures forall p: nat :: IsSet(Shift(RootState(b), b), p) <==> 1 <= p < b
  {
    var root := RootState(b);
    assert IsSet(root, b) && IsSet(root, 1);
    SetBitBound(root, b);
  }

  /** When every height below b is taken and b is free, the throws up to b are the single throw b. */
  lemma OnlyTopThrow(sh: nat, b: nat)
    requires b >= 1 && !IsSet(sh, b)
    requires forall p: nat :: 1 <= p < b ==> IsSet(sh, p)
    ensures Throws(sh, b + 1) == [Edge(b, SetBit(sh, b))]
  {
    NoFreeHeight(sh, b);
    assert Throws(sh, b + 1) == Throws(sh, b) + [Edge(b, SetBit(sh, b))];
  }

  /** With as many balls as the highest throw, the root's only throw is the highest one, back to the root. */
  lemma FullRootSelfLoop(b: nat)
    requires b >= 1
    ensures ChildrenOf(RootState(b), b) == [Edge(b, RootState(b))]
    ensures RootState(b) >= Pow2(b)
  {
    var root := RootState(b);
    var sh := Shift(root, b);
    RootShift(b);
    OnlyTopThrow(sh, b);
    var top := SetBit(sh, b);
    assert forall p: nat :: IsSet(top, p) <==> IsSet(root, p);
    SameBitsSameState(top, root);
  }

  /** A single state whose only throw of height h leads back to it: the path [r, r] is a cycle with pattern h. */
  lemma SelfLoop(E: map<nat, seq<Edge>>, r: nat, h: nat)
    requires E == map[r := [Edge(h, r)]]
    ensures Cycle(E, 2, [r, r]) && Labels(E, [r, r]) == [h] && Kept([Normal(Labels(E, [r, r]))], 1) == [[h]]
  {
    var p: seq<nat> := [r, r];
    var ns: seq<seq<nat>> := [[h]];
    assert StepLabel(E, p, 0) == h;
    assert Labels(E, p) == [h];
    assert Periodic([h], 1);
    NormalIsRotation([h]);
    RotZero([h]);
    assert Normal([h]) == [h];
    assert ns[..0] == [];
  }

  /**
   * b balls, throws up to b, period 1, for any b >= 7: the root (state 254
   * for b = 7) throws b back to itself, so the path [root, root] is a cycle
   * whose pattern b is due to be reported, yet its two boxed ends are
   * different objects, so line 86 skips it.
   */
  lemma BoxedMissesFullRoot(b: nat, E: map<nat, seq<Edge>>, r: nat)
    requires b >= 7 && r == RootState(b) && E == map[r := [Edge(b, r)]]
    ensures E == map[r := ChildrenOf(r, b)]
    ensures Cycle(E, 2, [r, r]) && Kept([Normal(Labels(E, [r, r]))], 1) == [[b]]
    ensures !BoxedSame([r, r], 0, 1)
  {
    FullRootSelfLoop(b);
    Pow2Mono(7, b);
    assert Pow2(7) == 128;
    SelfLoop(E, r, b);
  }

  // ---------------------------------------------------------------------
  // The generator
  // ---------------------------------------------------------------------

  /**
   * How many paths from the same state are still ahead of the current one,
   * reading the labels as a number in base maxHeight + 1: the search from
   * one root ends because this decreases.
   */
  ghost function Remaining(E: map<nat, seq<Edge>>, maxHeight: nat, cur: Option<seq<nat>>): int
    requires cur.Some? ==> IsWalk(E, cur.value)
  {
    if cur.None? then 0 else Pow(maxHeight + 1, |cur.value| - 1) - Val(Labels(E, cur.value), maxHeight + 1)
  }

  /** The first path leaves a positive number of paths ahead. */
  lemma RemainingStart(E: map<nat, seq<Edge>>, maxHeight: nat, p: seq<nat>)
    requires GraphOk(E) && Juggles(E, maxHeight) && IsWalk(E, p)
    ensures Remaining(E, maxHeight, Some(p)) > 0
  {
    LabelsBounded(E, maxHeight, p);
    ValBound(Labels(E, p), maxHeight + 1);
  }

  /** Moving to the next path, or ending the search, leaves fewer paths ahead. */
  lemma RemainingShrinks(E: map<nat, seq<Edge>>, maxHeight: nat, p: seq<nat>, next: Option<seq<nat>>)
    requires GraphOk(E) && Juggles(E, maxHeight) && IsWalk(E, p) && Remaining(E, maxHeight, Some(p)) > 0
    requires next.Some? ==> NextWalk(E, p, next.value)
    ensures next.Some? ==> IsWalk(E, next.value)
    ensures 0 <= Remaining(E, maxHeight, next) < Remaining(E, maxHeight, Some(p))
    ensures next.Some? ==> Remaining(E, maxHeight, next) > 0
  {
    if next.Some? {
      SuccessorGrows(E, maxHeight, p, next.value);
    }
  }

  /** Handing over one more canonical form exactly when it keeps the period extends what was kept. */
  lemma KeptSnoc(before: seq<seq<nat>>, h: seq<seq<nat>>, pats: seq<seq<nat>>, n: seq<nat>, period: nat)
    ensures h == before + Kept(pats, period) ==>
      before + Kept(pats + [n], period) == if |n| == period then h + [n] else h
  {
    if h != before + Kept(pats, period) {
      return;
    }
    var ns := pats + [n];
    assert ns[..|ns| - 1] == pats;
    if |n| == period {
      assert before + Kept(ns, period) == before + (Kept(pats, period) + [n]);
    } else {
      assert before + Kept(ns, period) == before + (Kept(pats, period) + []);
    }
  }

  /** Two stretches of handling in a row hand over what is kept from the two lists, one after the other. */
  lemma KeptJoin(a: seq<seq<nat>>, b: seq<seq<nat>>, c: seq<seq<nat>>,
                 pats: seq<seq<nat>>, more: seq<seq<nat>>, period: nat)
    ensures b == a + Kept(pats, period) && c == b + Kept(more, period) ==> c == a + Kept(pats + more, period)
  {
    if !(b == a + Kept(pats, period) && c == b + Kept(more, period)) {
      return;
    }
    KeptConcat(pats, more, period);
    assert c == a + (Kept(pats, period) + Kept(more, period));
  }

  /**
   * Every pattern handed over for cycles of a juggling graph is a valid
   * siteswap in canonical form of exactly the period asked for.
   */
  lemma HandledValid(E: map<nat, seq<Edge>>, maxHeight: nat, base: seq<seq<nat>>, hs: seq<seq<nat>>,
                     found: seq<seq<nat>>, pats: seq<seq<nat>>, period: nat)
    requires GraphOk(E) && Juggles(E, maxHeight) && period >= 1
    requires forall i :: 0 <= i < |found| ==> Cycle(E, period + 1, found[i])
    requires Canonicals(E, found, pats) && hs == base + Kept(pats, period)
    ensures forall i :: |base| <= i < |hs| ==>
      IsValidSeq(hs[i]) && Normal(hs[i]) == hs[i] && |hs[i]| == period
  {
    forall i | |base| <= i < |hs|
      ensures IsValidSeq(hs[i]) && Normal(hs[i]) == hs[i] && |hs[i]| == period
    {
      var kept := Kept(pats, period);
      assert hs[i] == kept[i - |base|];
      KeptValid(E, maxHeight, found, pats, period, hs[i]);
    }
  }

  /** No walk is listed twice. */
  ghost predicate Distinct(ws: seq<seq<nat>>)
  {
    forall i, j :: 0 <= i < j < |ws| ==> ws[i] != ws[j]
  }

  /** After the searches from the states in `done`: `found` lists, once each, exactly the cycles of P states starting there. */
  ghost predicate FoundFrom(E: map<nat, seq<Edge>>, P: nat, done: set<nat>, found: seq<seq<nat>>)
  {
    && (forall i :: 0 <= i < |found| ==> Cycle(E, P, found[i]) && found[i][0] in done)
    && (forall w :: Cycle(E, P, w) && w[0] in done ==> w in found)
    && Distinct(found)
  }

  /** The search from one more state adds exactly the cycles through it, none listed before. */
  lemma FoundStep(E: map<nat, seq<Edge>>, P: nat, done: set<nat>, found: seq<seq<nat>>, root: nat, more: seq<seq<nat>>)
    requires FoundFrom(E, P, done, found) && root !in done
    requires Visited(E, root, P, more, None)
    ensures FoundFrom(E, P, done + {root}, found + more)
  {
    var all := found + more;
    forall i | 0 <= i < |all|
      ensures Cycle(E, P, all[i]) && all[i][0] in done + {root}
    {
      if i >= |found| {
        assert all[i] == more[i - |found|];
      }
    }
    forall w | Cycle(E, P, w) && w[0] in done + {root}
      ensures w in all
    {
      if w[0] == root {
        assert Earlier(E, w, None);
      }
    }
    forall i, j | 0 <= i < j < |all|
      ensures all[i] != all[j]
    {
      if i >= |found| {
        assert Cmp(Labels(E, more[i - |found|]), Labels(E, more[j - |found|])) == -1;
      } else if j >= |found| {
        assert all[j] == more[j - |found|];
      }
    }
  }

  /** The list holds exactly the cycles of P states of the graph. */
  ghost predicate AllCycles(E: map<nat, seq<Edge>>, P: nat, found: seq<seq<nat>>)
  {
    forall w :: w in found <==> Cycle(E, P, w)
  }

  /** Once every state is searched, the list holds every cycle of P states, each once. */
  lemma AllFound(E: map<nat, seq<Edge>>, P: nat, nodes: set<nat>, found: seq<seq<nat>>)
    requires FoundFrom(E, P, nodes, found) && E.Keys == nodes
    ensures Distinct(found) && AllCycles(E, P, found)
  {
    forall w | Cycle(E, P, w)
      ensures w in found
    {
      assert w[0] in E;
    }
  }

  /** A constructed graph on which every state has a first child. */
  lemma GraphReady(g: StateGraph)
    requires g.Valid() && (g.maxHeight >= 1 || g.balls == 0)
    ensures GraphOk(g.edges) && Juggles(g.edges, g.maxHeight) && g.edges.Keys == g.nodes
  {
    GraphOkFromInv(g.balls, g.maxHeight, g.root, g.nodes, g.edges);
  }

  class Generator {
    const balls: nat
    const maxHeight: nat
    /** The state graph, built by the first call of generate. */
    var graph: StateGraph?
    /** The pattern of every siteswap handed to the handler so far, in order. */
    var handled: seq<seq<nat>>

    /** A built graph is the one for this generator's balls and height. */
    ghost predicate Valid()
      reads this, graph
    {
      graph != null ==> graph.Valid() && graph.balls == balls && graph.maxHeight == maxHeight
    }

    /** The graph is built and every state has a first child, as the searches need. */
    ghost predicate Ready()
      reads this, graph
    {
      graph != null && Valid() && (maxHeight >= 1 || balls == 0)
    }

    /** Generator(balls, max_height, handler): no graph yet, nothing handled. */
    constructor (balls: nat, maxHeight: nat)
      ensures this.balls == balls && this.maxHeight == maxHeight
      ensures graph == null && handled == [] && Valid()
    {
      this.balls := balls;
      this.maxHeight := maxHeight;
      graph := null;
      handled := [];
    }

    /**
     * The descent loops of generate and getNextPath: append `node`, then the
     * first child of the last state, until the path has P states.
     */
    method Fill(path: seq<nat>, node: nat, P: nat) returns (r: seq<nat>)
      requires graph != null && GraphOk(graph.edges)
      requires IsWalk(graph.edges, path + [node]) && |path| < P
      ensures r == Descend(graph.edges, path + [node], P)
    {
      ghost var E := graph.edges;
      ghost var q := path + [node];
      r := path;
      var n := node;
      while |r| < P
        invariant |r| <= P && |q| <= |r| + 1
        invariant r + [n] == Descend(E, q, |r| + 1)
      {
        DescendStep(E, q, |r| + 1);
        r := r + [n];
        n := graph.GetNextChild(n, 0);
      }
      DescendStep(E, q, P);
      assert r == (r + [n])[..P];
    }

    /**
     * Generator.getNextPath on the path `p` of P states, of which `path` is
     * what is left after backtracking: drop the last state; if it was its
     * parent's last child, backtrack further (None once one state is left);
     * otherwise take the next child and descend.  The answer is the next
     * path from the same state in label order, or None when `p` is the last.
     */
    method GetNextPath(path: seq<nat>, P: nat, ghost p: seq<nat>) returns (r: Option<seq<nat>>)
      requires graph != null && GraphOk(graph.edges)
      requires IsWalk(graph.edges, p) && |p| == P && 1 <= |path| <= P && path == p[..|path|]
      requires MaxAbove(graph.edges, p, path)
      ensures r.None? ==> LastWalk(graph.edges, p)
      ensures r.Some? ==> NextWalk(graph.edges, p, r.value)
      decreases |path|
    {
      ghost var E := graph.edges;
      var m := |path|;
      if m < 2 {
        assert path == p[..1];
        MaxAboveStart(E, p);
        return None;
      }
      var pop := path[m - 1];
      var rest := path[..m - 1];
      var pop2 := rest[m - 2];
      assert pop == p[m - 1] && pop2 == p[m - 2];
      assert StepLabel(E, p, m - 2) >= 0;
      var nextChild := graph.GetNextChild(pop2, pop);
      ghost var j := NextChildMeaning(E, pop2, pop);
      assert rest == p[..m - 1];
      if nextChild == 0 {
        Backtrack(E, p, m, j);
        r := GetNextPath(rest, P, p);
        return;
      }
      Advance(E, p, m, j);
      var next := Fill(rest, nextChild, P);
      return Some(next);
    }

    /**
     * The labels loop of generate: throw i is the label of the edge from
     * state i to state i + 1 of the path.
     */
    method ReadLabels(p: seq<nat>) returns (siteswap: seq<nat>)
      requires graph != null && IsWalk(graph.edges, p)
      ensures siteswap == Labels(graph.edges, p)
    {
      ghost var E := graph.edges;
      var a := new nat[|p| - 1];
      for i := 0 to |p| - 1
        invariant a[..i] == Labels(E, p)[..i]
      {
        var height := graph.GetLabel(p[i], p[i + 1]);
        assert height == StepLabel(E, p, i);
        a[i] := height as nat;
        assert a[..i + 1] == a[..i] + [a[i]];
      }
      siteswap := a[..];
      assert siteswap == a[..|p| - 1];
    }

    /**
     * The body of generate's check for a cycle: read the labels of the
     * path, build the siteswap, and hand it to the handler only when its
     * canonical form keeps the full period.
     */
    method HandleCycle(p: seq<nat>) returns (ghost pattern: seq<nat>)
      requires graph != null && IsWalk(graph.edges, p)
      modifies this
      ensures graph == old(graph) && pattern == Normal(Labels(graph.edges, p))
      ensures handled == if |pattern| == |p| - 1 then old(handled) + [pattern] else old(handled)
    {
      var canonical, full := ReadPattern(graph.edges, p);
      if full {
        handled := handled + [canonical];
      }
      pattern := canonical;
    }

    /**
     * The siteswap built from the labels of the path `p`: its pattern (the
     * canonical form of the labels), and whether that keeps the full
     * period |p| - 1.
     */
    method ReadPattern(ghost E: map<nat, seq<Edge>>, p: seq<nat>) returns (pattern: seq<nat>, full: bool)
      requires graph != null && E == graph.edges && IsWalk(E, p)
      ensures pattern == Normal(Labels(E, p))
      ensures full == (|pattern| == |p| - 1)
    {
      var labels := ReadLabels(p);
      var s := new Siteswap(labels);
      pattern := s.GetSequence();
      full := |pattern| == |p| - 1;
    }

    /**
     * The first path from `root`: `root` followed by first children until
     * the path has P states.  No path from `root` comes before it.
     */
    method FirstPath(root: nat, P: nat) returns (first: seq<nat>)
      requires graph != null && GraphOk(graph.edges) && Juggles(graph.edges, maxHeight)
      requires root in graph.edges && P >= 1
      ensures Visited(graph.edges, root, P, [], Some(first))
      ensures Remaining(graph.edges, maxHeight, Some(first)) > 0
    {
      VisitStart(graph.edges, root, P);
      var none: seq<nat> := [];
      assert none + [root] == [root];
      first := Fill(none, root, P);
      RemainingStart(graph.edges, maxHeight, first);
    }

    /**
     * The check of generate's inner loop: a path whose first and last
     * states agree is a cycle; it is counted and handed to HandleCycle.
     * `found` lists the cycles met so far and grows by this one.
     */
    method CheckPath(ghost before: seq<seq<nat>>, P: nat, p: seq<nat>,
                     ghost found: seq<seq<nat>>, ghost pats: seq<seq<nat>>)
      returns (cycle: bool, ghost found': seq<seq<nat>>, ghost pats': seq<seq<nat>>)
      requires graph != null && IsWalk(graph.edges, p) && |p| == P
      requires Canonicals(graph.edges, found, pats) && handled == before + Kept(pats, P - 1)
      modifies this
      ensures graph == old(graph) && cycle == (p[0] == p[P - 1])
      ensures found' == if cycle then found + [p] else found
      ensures Canonicals(graph.edges, found', pats') && handled == before + Kept(pats', P - 1)
    {
      cycle := p[0] == p[P - 1];
      found', pats' := found, pats;
      if cycle {
        ghost var E, h := graph.edges, handled;
        var pattern := HandleCycle(p);
        found', pats' := found + [p], pats + [pattern];
        assert handled == before + Kept(pats', P - 1) by {
          KeptSnoc(before, h, pats, pattern, P - 1);
        }
        assert Canonicals(E, found', pats') by {
          CanonicalsSnoc(E, found, pats, p, pattern);
        }
      }
    }

    /**
     * One turn of generate's inner loop on the path `p` from `root`: handle
     * it if it is a cycle, then move to the next path.
     */
    method VisitPath(ghost root: nat, P: nat, p: seq<nat>, ghost before: seq<seq<nat>>,
                     ghost found: seq<seq<nat>>, ghost pats: seq<seq<nat>>)
      returns (next: Option<seq<nat>>, cycle: bool, ghost found': seq<seq<nat>>, ghost pats': seq<seq<nat>>)
      requires graph != null && GraphOk(graph.edges) && Juggles(graph.edges, maxHeight)
      requires Visited(graph.edges, root, P, found, Some(p)) && Remaining(graph.edges, maxHeight, Some(p)) > 0
      requires Canonicals(graph.edges, found, pats) && handled == before + Kept(pats, P - 1)
      modifies this
      ensures graph == old(graph) && |found'| == |found| + (if cycle then 1 else 0)
      ensures Visited(graph.edges, root, P, found', next)
      ensures Canonicals(graph.edges, found', pats') && handled == before + Kept(pats', P - 1)
      ensures 0 <= Remaining(graph.edges, maxHeight, next) < Remaining(graph.edges, maxHeight, Some(p))
      ensures next.Some? ==> Remaining(graph.edges, maxHeight, next) > 0
    {
      cycle, found', pats' := CheckPath(before, P, p, found, pats);
      next := NextPath(root, P, p, found);
    }

    /**
     * The move at the end of generate's inner loop: getNextPath on the whole
     * path `p`.  The search state advances past `p`, and fewer paths remain.
     */
    method NextPath(ghost root: nat, P: nat, p: seq<nat>, ghost found: seq<seq<nat>>) returns (next: Option<seq<nat>>)
      requires graph != null && GraphOk(graph.edges) && Juggles(graph.edges, maxHeight)
      requires Visited(graph.edges, root, P, found, Some(p)) && Remaining(graph.edges, maxHeight, Some(p)) > 0
      ensures Visited(graph.edges, root, P, if p[0] == p[P - 1] then found + [p] else found, next)
      ensures 0 <= Remaining(graph.edges, maxHeight, next) < Remaining(graph.edges, maxHeight, Some(p))
      ensures next.Some? ==> Remaining(graph.edges, maxHeight, next) > 0
    {
      ghost var E := graph.edges;
      assert WalkFrom(E, root, P, p);
      MaxAboveWhole(E, p);
      assert p == p[..P];
      next := GetNextPath(p, P, p);
      RemainingShrinks(E, maxHeight, p, next);
      VisitStep(E, root, P, found, p, next);
    }

    /**
     * The body of generate's loop over the roots: descend to the first
     * path of P states from `root`, then visit every path in label order;
     * each cycle is counted and handled.  `found` lists the cycles in
     * visiting order.
     */
    method FromRoot(root: nat, P: nat) returns (count: nat, ghost found: seq<seq<nat>>, ghost pats: seq<seq<nat>>)
      requires graph != null && GraphOk(graph.edges) && Juggles(graph.edges, maxHeight)
      requires root in graph.edges && P >= 1
      modifies this
      ensures graph == old(graph) && Visited(graph.edges, root, P, found, None)
      ensures count == |found| && Canonicals(graph.edges, found, pats)
      ensures handled == old(handled) + Kept(pats, P - 1)
    {
      ghost var E := graph.edges;
      var first := FirstPath(root, P);
      var path: Option<seq<nat>> := Some(first);
      count := 0;
      found, pats := [], [];
      assert handled == old(handled) + [];
      while path.Some?
        invariant graph == old(graph) && E == graph.edges
        invariant Visited(E, root, P, found, path)
        invariant path.Some? ==> Remaining(E, maxHeight, path) > 0
        invariant count == |found|
        invariant Canonicals(E, found, pats) && handled == old(handled) + Kept(pats, P - 1)
        decreases Remaining(E, maxHeight, path)
      {
        var next, cycle, more, morePats := VisitPath(root, P, path.value, old(handled), found, pats);
        if cycle {
          count := count + 1;
        }
        found, pats := more, morePats;
        path := next;
      }
    }
  
    /** The lazy construction at the start of generate: build the graph if there is none yet. */
    method BuildGraph()
      requires Valid() && (maxHeight >= 1 || balls == 0)
      modifies this
      ensures Ready() && handled == old(handled) && (old(graph) != null ==> graph == old(graph))
      ensures GraphOk(graph.edges) && Juggles(graph.edges, maxHeight) && graph.edges.Keys == graph.nodes
    {
      if graph == null {
        graph := new StateGraph(balls, maxHeight);
      }
      GraphReady(graph);
    }

    /**
     * The loop of generate over the states of the graph, taken in any
     * order: search the paths of period + 1 states from each.
     */
    method FromEveryRoot(period: nat) returns (patterns: nat, ghost found: seq<seq<nat>>, ghost pats: seq<seq<nat>>)
      requires graph != null && GraphOk(graph.edges) && Juggles(graph.edges, maxHeight)
      requires graph.edges.Keys == graph.nodes
      modifies this
      ensures graph == old(graph)
      ensures patterns == |found| && Distinct(found) && AllCycles(graph.edges, period + 1, found)
      ensures Canonicals(graph.edges, found, pats) && handled == old(handled) + Kept(pats, period)
    {
      ghost var E := graph.edges;
      var P := period + 1;
      assert handled == old(handled) + [];
      patterns := 0;
      found, pats := [], [];
      ghost var done: set<nat> := {};
      var todo := graph.GetNodes();
      while todo != {}
        invariant graph == old(graph) && E == graph.edges
        invariant todo + done == graph.nodes && todo !! done
        invariant FoundFrom(E, P, done, found) && patterns == |found|
        invariant Canonicals(E, found, pats) && handled == old(handled) + Kept(pats, period)
        decreases todo
      {
        var root :| root in todo;
        ghost var h := handled;
        var count, more, morePats := FromRoot(root, P);
        KeptJoin(old(handled), h, handled, pats, morePats, period);
        CanonicalsJoin(E, found, pats, more, morePats);
        FoundStep(E, P, done, found, root, more);
        patterns := patterns + count;
        found, pats := found + more, pats + morePats;
        done := done + {root};
        todo := todo - {root};
      }
      AllFound(E, P, graph.nodes, found);
    }

    /**
     * Generator.generate(period): build the graph on the first call, then
     * search every path of period + 1 states from every state.  The answer
     * counts every cycle of `period` throws, once per starting state; the
     * handler receives the canonical form of each whose canonical form keeps
     * the full period.
     */
    method Generate(period: nat) returns (patterns: nat, ghost found: seq<seq<nat>>, ghost pats: seq<seq<nat>>)
      requires Valid() && (maxHeight >= 1 || balls == 0)
      modifies this
      ensures Ready() && (old(graph) != null ==> graph == old(graph))
      ensures patterns == |found| && Distinct(found) && AllCycles(graph.edges, period + 1, found)
      ensures Canonicals(graph.edges, found, pats) && handled == old(handled) + Kept(pats, period)
      ensures period >= 1 ==> forall i :: |old(handled)| <= i < |handled| ==>
        IsValidSeq(handled[i]) && Normal(handled[i]) == handled[i] && |handled[i]| == period
      ensures |handled| <= |old(handled)| + patterns
      ensures forall n :: n in graph.nodes <==> Reachable(graph.root, maxHeight, n)
    {
      BuildGraph();
      ghost var E := graph.edges;
      patterns, found, pats := FromEveryRoot(period);
      assert |pats| == |found|;
      if period >= 1 {
        HandledValid(E, maxHeight, old(handled), handled, found, pats, period);
      }
    }
  }
}
