/**
 * Walks through the state graph, the way Generator.java enumerates them: a
 * walk is a list of states, each a child of the one before, and its labels
 * are the throws getLabel reads off the edges.  Walks from one state are
 * visited in lexicographic order of their labels; this module defines that
 * order's building blocks (first-child descent, backtracking, the successor)
 * and the facts the generator's proofs rest on.
 */
module Walks {
  import opened StateBits
  import opened StateGraphModel
  import opened Lex

  /** The transition rule for one entry `e` of the child list of `s`, on the bits of the states. */
  ghost predicate Transition(s: nat, e: Edge, maxHeight: nat)
  {
    && e.height <= maxHeight
    && (e.height > 0 <==> IsSet(s, 1))
    && (forall p: nat :: IsSet(e.dest, p) <==>
          ((1 <= p < maxHeight && IsSet(s, p + 1)) || (p == e.height && e.height > 0)))
    && (e.height > 0 ==> !(e.height < maxHeight && IsSet(s, e.height + 1)))
  }

  /**
   * A state graph as the generator walks it: every node has a non-empty
   * child list in ascending label order with distinct children, each child
   * is a node, and the sentinel 0 is a node only in the ball-less graph
   * {0 -> 0}.
   */
  ghost predicate GraphOk(E: map<nat, seq<Edge>>)
  {
    && (forall n {:trigger E[n]} :: n in E ==> |E[n]| > 0 && Ascending(E[n]) && DistinctDests(E[n]))
    && (forall n, k :: n in E && 0 <= k < |E[n]| ==> E[n][k].dest in E)
    && (0 in E ==> E.Keys == {0} && E[0] == [Edge(0, 0)])
  }

  /** Every entry of the graph follows the transition rule. */
  ghost predicate Juggles(E: map<nat, seq<Edge>>, maxHeight: nat)
  {
    forall n, k :: n in E && 0 <= k < |E[n]| ==> Transition(n, E[n][k], maxHeight)
  }

  /**
   * A constructed StateGraph is fit for the generator when it has a height
   * to throw to, or no balls at all (otherwise the root has no child and
   * getNextChild fails).
   */
  lemma GraphOkFromInv(balls: nat, maxHeight: nat, root: nat, nodes: set<nat>, edges: map<nat, seq<Edge>>)
    requires GraphInv(balls, maxHeight, root, nodes, edges)
    requires maxHeight >= 1 || balls == 0
    ensures GraphOk(edges) && Juggles(edges, maxHeight)
  {
    if maxHeight == 0 {
      forall p: nat
        ensures IsSet(root, p) <==> IsSet(0, p)
      {
        NothingSetInZero(p);
      }
      SameBitsSameState(root, 0);
    }
    ZeroChildren(maxHeight);
    forall n | n in edges
      ensures |edges[n]| > 0 && Ascending(edges[n]) && DistinctDests(edges[n])
    {
      ChildrenShape(n, maxHeight);
    }
    JugglesFromInv(balls, maxHeight, root, nodes, edges);
  }

  lemma JugglesFromInv(balls: nat, maxHeight: nat, root: nat, nodes: set<nat>, edges: map<nat, seq<Edge>>)
    requires GraphInv(balls, maxHeight, root, nodes, edges)
    ensures Juggles(edges, maxHeight)
  {
    forall n, k | n in edges && 0 <= k < |edges[n]|
      ensures Transition(n, edges[n][k], maxHeight)
    {
      EdgeRule(n, maxHeight, k);
    }
  }

  /** getLabel for step i of `p`: the label of the edge p[i] -> p[i+1], or -1. */
  function StepLabel(E: map<nat, seq<Edge>>, p: seq<nat>, i: nat): int
  {
    if i + 1 < |p| && p[i] in E then LabelOf(E[p[i]], p[i + 1]) else -1
  }

  /** A non-empty list of nodes, each one a child of the one before. */
  ghost predicate IsWalk(E: map<nat, seq<Edge>>, p: seq<nat>)
  {
    && |p| > 0
    && (forall i :: 0 <= i < |p| ==> p[i] in E)
    && (forall i :: 0 <= i < |p| - 1 ==> StepLabel(E, p, i) >= 0)
  }

  /** The throws along a walk: the array the generator fills from getLabel. */
  function Labels(E: map<nat, seq<Edge>>, p: seq<nat>): (L: seq<nat>)
    requires IsWalk(E, p)
    ensures |L| == |p| - 1
    ensures forall i :: 0 <= i < |L| ==> L[i] == StepLabel(E, p, i)
  {
    seq(|p| - 1, i requires 0 <= i < |p| - 1 => StepLabel(E, p, i) as nat)
  }

  /** In a list with distinct targets, entry k is the first one leading to its target. */
  lemma LabelOfIndex(cs: seq<Edge>, k: nat)
    requires DistinctDests(cs) && k < |cs|
    ensures FirstMatch(cs, cs[k].dest, k)
    ensures LabelOf(cs, cs[k].dest) == cs[k].height
  {
    LabelOfMeaning(cs, cs[k].dest);
  }

  /** Step i of a walk is entry k of the child list of p[i]. */
  lemma StepIndex(E: map<nat, seq<Edge>>, p: seq<nat>, i: nat) returns (k: nat)
    requires GraphOk(E) && IsWalk(E, p) && i + 1 < |p|
    ensures k < |E[p[i]]| && E[p[i]][k] == Edge(Labels(E, p)[i], p[i + 1])
    ensures FirstMatch(E[p[i]], p[i + 1], k)
  {
    var cs := E[p[i]];
    assert StepLabel(E, p, i) >= 0;
    assert LabelOf(cs, p[i + 1]) != -1;
    LabelOfMeaning(cs, p[i + 1]);
    k :| 0 <= k < |cs| && cs[k].dest == p[i + 1];
    LabelOfIndex(cs, k);
  }

  /** Appending a child of the last node gives a walk whose labels gain that child's label. */
  lemma WalkExtend(E: map<nat, seq<Edge>>, p: seq<nat>, k: nat)
    requires GraphOk(E) && IsWalk(E, p) && k < |E[p[|p| - 1]]|
    ensures var e := E[p[|p| - 1]][k];
      IsWalk(E, p + [e.dest]) && Labels(E, p + [e.dest]) == Labels(E, p) + [e.height]
  {
    var last := p[|p| - 1];
    var e := E[last][k];
    var q := p + [e.dest];
    LabelOfIndex(E[last], k);
    assert StepLabel(E, q, |p| - 1) == e.height;
    assert forall i :: 0 <= i < |p| - 1 ==> StepLabel(E, q, i) == StepLabel(E, p, i);
    assert IsWalk(E, q);
    assert Labels(E, q) == Labels(E, p) + [e.height];
  }

  /** A prefix of a walk is a walk, and its labels are a prefix of the labels. */
  lemma LabelsPrefix(E: map<nat, seq<Edge>>, p: seq<nat>, m: nat)
    requires IsWalk(E, p) && 1 <= m <= |p|
    ensures IsWalk(E, p[..m]) && Labels(E, p[..m]) == Labels(E, p)[..m - 1]
  {
    var q := p[..m];
    assert forall i :: 0 <= i < m - 1 ==> StepLabel(E, q, i) == StepLabel(E, p, i);
    assert IsWalk(E, q);
  }

  /** Labels of one child list are distinct: a label names one child. */
  lemma SameLabelSameChild(cs: seq<Edge>, a: nat, b: nat)
    requires Ascending(cs) && DistinctDests(cs)
    requires LabelOf(cs, a) >= 0 && LabelOf(cs, a) == LabelOf(cs, b)
    ensures a == b
  {
    LabelOfMeaning(cs, a);
    LabelOfMeaning(cs, b);
    var ka :| 0 <= ka < |cs| && cs[ka].dest == a;
    var kb :| 0 <= kb < |cs| && cs[kb].dest == b;
    LabelOfIndex(cs, ka);
    LabelOfIndex(cs, kb);
  }

  /** Walks from the same state with the same first t labels share their first t+1 nodes. */
  lemma {:induction false} LabelsDetermine(E: map<nat, seq<Edge>>, p: seq<nat>, q: seq<nat>, t: nat)
    requires GraphOk(E) && IsWalk(E, p) && IsWalk(E, q)
    requires |p| == |q| && p[0] == q[0] && t < |p|
    requires Labels(E, p)[..t] == Labels(E, q)[..t]
    ensures p[..t + 1] == q[..t + 1]
  {
    if t > 0 {
      var Lp, Lq := Labels(E, p), Labels(E, q);
      assert Lp[..t - 1] == Lq[..t - 1] by {
        assert Lp[..t - 1] == Lp[..t][..t - 1];
        assert Lq[..t - 1] == Lq[..t][..t - 1];
      }
      LabelsDetermine(E, p, q, t - 1);
      assert Lp[t - 1] == Lq[t - 1] by {
        assert Lp[t - 1] == Lp[..t][t - 1];
        assert Lq[t - 1] == Lq[..t][t - 1];
      }
      SameStepSameNext(E, p, q, t);
    }
  }

  /** Equal prefixes and an equal label at the next step give the next node too. */
  lemma SameStepSameNext(E: map<nat, seq<Edge>>, p: seq<nat>, q: seq<nat>, t: nat)
    requires GraphOk(E) && IsWalk(E, p) && IsWalk(E, q)
    requires |p| == |q| && 0 < t < |p| && p[..t] == q[..t]
    requires Labels(E, p)[t - 1] == Labels(E, q)[t - 1]
    ensures p[..t + 1] == q[..t + 1]
  {
    assert p[t - 1] == q[t - 1] by {
      assert p[t - 1] == p[..t][t - 1];
      assert q[t - 1] == q[..t][t - 1];
    }
    var cs := E[p[t - 1]];
    assert LabelOf(cs, p[t]) == LabelOf(cs, q[t]) >= 0;
    SameLabelSameChild(cs, p[t], q[t]);
    PrefixGrow(p, q, t);
  }

  lemma PrefixGrow(p: seq<nat>, q: seq<nat>, t: nat)
    requires t < |p| && t < |q| && p[..t] == q[..t]
    ensures p[t] == q[t] ==> p[..t + 1] == q[..t + 1]
  {
    assert p[..t + 1] == p[..t] + [p[t]];
    assert q[..t + 1] == q[..t] + [q[t]];
  }

  /** Walks from the same state with the same labels are the same walk. */
  lemma SameLabelsSameWalk(E: map<nat, seq<Edge>>, p: seq<nat>, q: seq<nat>)
    requires GraphOk(E) && IsWalk(E, p) && IsWalk(E, q)
    requires |p| == |q| && p[0] == q[0] && Labels(E, p) == Labels(E, q)
    ensures p == q
  {
    var L := Labels(E, p);
    assert L[..|p| - 1] == L;
    assert Labels(E, q)[..|p| - 1] == Labels(E, q);
    LabelsDetermine(E, p, q, |p| - 1);
    assert p[..|p|] == p && q[..|q|] == q;
  }

  // ---------------------------------------------------------------------
  // First-child descent
  // ---------------------------------------------------------------------

  /** `q` extended by first children until it has P nodes: the loops "get the first child all the way down". */
  ghost function Descend(E: map<nat, seq<Edge>>, q: seq<nat>, P: nat): (r: seq<nat>)
    requires GraphOk(E) && IsWalk(E, q) && |q| <= P
    ensures IsWalk(E, r) && |r| == P && r[..|q|] == q
    decreases P - |q|
  {
    if |q| == P then q
    else
      WalkExtend(E, q, 0);
      var q' := q + [E[q[|q| - 1]][0].dest];
      var r := Descend(E, q', P);
      assert r[..|q|] == r[..|q'|][..|q|];
      r
  }

  /** The descent is the lexicographically least walk of its length extending `q`. */
  lemma {:induction false} DescendMin(E: map<nat, seq<Edge>>, q: seq<nat>, w: seq<nat>, P: nat)
    requires GraphOk(E) && IsWalk(E, q) && |q| <= P
    requires IsWalk(E, w) && |w| == P && w[..|q|] == q
    ensures Cmp(Labels(E, Descend(E, q, P)), Labels(E, w)) <= 0
    decreases P - |q|
  {
    var r := Descend(E, q, P);
    if |q| == P {
      assert w == w[..|q|];
    } else {
      var last := q[|q| - 1];
      var cs := E[last];
      var q' := q + [cs[0].dest];
      WalkExtend(E, q, 0);
      assert r == Descend(E, q', P);
      var c := w[|q|];
      if c == cs[0].dest {
        assert w[..|q'|] == w[..|q|] + [c];
        DescendMin(E, q', w, P);
      } else {
        var i := |q| - 1;
        assert w[i] == last;
        var k := StepIndex(E, w, i);
        assert k > 0;
        LabelsPrefix(E, w, |q|);
        LabelsPrefix(E, r, |q|);
        LabelsPrefix(E, r, |q'|);
        assert r[..|q'|] == q';
        assert Labels(E, r)[i] == Labels(E, q')[i] == cs[0].height;
        CmpAt(Labels(E, r), Labels(E, w), i);
      }
    }
  }

  // ---------------------------------------------------------------------
  // Backtracking and the successor
  // ---------------------------------------------------------------------

  /** `p` is the lexicographically greatest walk of its length that extends `path`. */
  ghost predicate MaxAbove(E: map<nat, seq<Edge>>, p: seq<nat>, path: seq<nat>)
  {
    IsWalk(E, p) && |path| <= |p| &&
    forall w :: IsWalk(E, w) && |w| == |p| && w[..|path|] == path ==> Cmp(Labels(E, w), Labels(E, p)) <= 0
  }

  /** `r` is the walk getNextPath should answer for `p`: the next one, from the same state, in label order. */
  ghost predicate NextWalk(E: map<nat, seq<Edge>>, p: seq<nat>, r: seq<nat>)
  {
    && IsWalk(E, p) && IsWalk(E, r) && |r| == |p| && r[0] == p[0]
    && Cmp(Labels(E, r), Labels(E, p)) == 1
    && forall w :: IsWalk(E, w) && |w| == |p| && w[0] == p[0] && Cmp(Labels(E, w), Labels(E, p)) == 1 ==>
         Cmp(Labels(E, w), Labels(E, r)) >= 0
  }

  /** No walk of the same length from the same state comes after `p`. */
  ghost predicate LastWalk(E: map<nat, seq<Edge>>, p: seq<nat>)
  {
    IsWalk(E, p) &&
    forall w :: IsWalk(E, w) && |w| == |p| && w[0] == p[0] ==> Cmp(Labels(E, w), Labels(E, p)) <= 0
  }

  /** Every walk is the greatest among its own extensions. */
  lemma MaxAboveWhole(E: map<nat, seq<Edge>>, p: seq<nat>)
    requires IsWalk(E, p)
    ensures MaxAbove(E, p, p)
  {
    forall w | IsWalk(E, w) && |w| == |p| && w[..|p|] == p
      ensures Cmp(Labels(E, w), Labels(E, p)) <= 0
    {
      assert w == w[..|p|];
    }
  }

  /** Backtracked to the start: nothing comes after `p`. */
  lemma MaxAboveStart(E: map<nat, seq<Edge>>, p: seq<nat>)
    requires IsWalk(E, p) && MaxAbove(E, p, p[..1])
    ensures LastWalk(E, p)
  {
    forall w | IsWalk(E, w) && |w| == |p| && w[0] == p[0]
      ensures Cmp(Labels(E, w), Labels(E, p)) <= 0
    {
      assert w[..1] == [w[0]] == p[..1];
    }
  }

  /**
   * getNextChild's answer on a step of a walk: 0 exactly when the step takes
   * the last child, and otherwise the next child.  The sentinel cannot be
   * mistaken for a state because 0 is a state only in the graph {0 -> 0}.
   */
  lemma NextChildMeaning(E: map<nat, seq<Edge>>, from: nat, to: nat) returns (j: nat)
    requires GraphOk(E) && from in E && LabelOf(E[from], to) >= 0
    ensures j < |E[from]| && FirstMatch(E[from], to, j)
    ensures NextChild(E[from], to) == 0 <==> j + 1 == |E[from]|
    ensures j + 1 < |E[from]| ==> NextChild(E[from], to) == E[from][j + 1].dest
  {
    var cs := E[from];
    LabelOfMeaning(cs, to);
    j :| 0 <= j < |cs| && cs[j].dest == to;
    LabelOfIndex(cs, j);
  }

  /** Labels of two walks that share their first m nodes agree on the first m-1 labels. */
  lemma SharedPrefixLabels(E: map<nat, seq<Edge>>, p: seq<nat>, q: seq<nat>, m: nat)
    requires IsWalk(E, p) && IsWalk(E, q) && 1 <= m <= |p| && m <= |q| && p[..m] == q[..m]
    ensures Labels(E, p)[..m - 1] == Labels(E, q)[..m - 1]
  {
    LabelsPrefix(E, p, m);
    LabelsPrefix(E, q, m);
  }

  /** Dropping a last child: the greatest walk above `path` is also the greatest above its parent prefix. */
  lemma Backtrack(E: map<nat, seq<Edge>>, p: seq<nat>, m: nat, j: nat)
    requires GraphOk(E) && 2 <= m <= |p| && MaxAbove(E, p, p[..m])
    requires j + 1 == |E[p[m - 2]]| && FirstMatch(E[p[m - 2]], p[m - 1], j)
    ensures MaxAbove(E, p, p[..m - 1])
  {
    forall w | IsWalk(E, w) && |w| == |p| && w[..m - 1] == p[..m - 1]
      ensures Cmp(Labels(E, w), Labels(E, p)) <= 0
    {
      BacktrackOne(E, p, m, j, w);
    }
  }

  lemma BacktrackOne(E: map<nat, seq<Edge>>, p: seq<nat>, m: nat, j: nat, w: seq<nat>)
    requires GraphOk(E) && 2 <= m <= |p| && MaxAbove(E, p, p[..m])
    requires j + 1 == |E[p[m - 2]]| && FirstMatch(E[p[m - 2]], p[m - 1], j)
    requires IsWalk(E, w) && |w| == |p| && w[..m - 1] == p[..m - 1]
    ensures Cmp(Labels(E, w), Labels(E, p)) <= 0
  {
    if w[m - 1] == p[m - 1] {
      PrefixGrow(w, p, m - 1);
    } else {
      EarlierSibling(E, p, m, j, w);
    }
  }

  /** A walk that leaves p[m-2] by an earlier child than `p` does comes before `p`. */
  lemma EarlierSibling(E: map<nat, seq<Edge>>, p: seq<nat>, m: nat, j: nat, w: seq<nat>)
    requires GraphOk(E) && IsWalk(E, p) && 2 <= m <= |p|
    requires j + 1 == |E[p[m - 2]]| && FirstMatch(E[p[m - 2]], p[m - 1], j)
    requires IsWalk(E, w) && |w| == |p| && w[..m - 1] == p[..m - 1] && w[m - 1] != p[m - 1]
    ensures Cmp(Labels(E, w), Labels(E, p)) == -1
  {
    assert w[m - 2] == p[m - 2] by {
      assert w[m - 2] == w[..m - 1][m - 2];
      assert p[m - 2] == p[..m - 1][m - 2];
    }
    var k := StepIndex(E, w, m - 2);
    var k' := StepIndex(E, p, m - 2);
    assert k < j;
    LaterChild(E, p, w, m - 2);
    CmpAntisym(Labels(E, p), Labels(E, w));
  }

  /** Walks that share their first i+1 nodes compare as their labels at step i do. */
  lemma LaterChild(E: map<nat, seq<Edge>>, p: seq<nat>, w: seq<nat>, i: nat)
    requires IsWalk(E, w) && IsWalk(E, p) && |w| == |p| && i + 1 < |p| && w[..i + 1] == p[..i + 1]
    requires Labels(E, p)[i] > Labels(E, w)[i]
    ensures Cmp(Labels(E, p), Labels(E, w)) == 1
  {
    SharedPrefixLabels(E, p, w, i + 1);
    CmpAt(Labels(E, p), Labels(E, w), i);
  }

  /**
   * Moving to the next sibling and descending gives the successor of `p`:
   * it comes after `p`, and no walk from the same state lies strictly between.
   */
  lemma Advance(E: map<nat, seq<Edge>>, p: seq<nat>, m: nat, j: nat)
    requires GraphOk(E) && 2 <= m <= |p| && MaxAbove(E, p, p[..m])
    requires j + 1 < |E[p[m - 2]]| && FirstMatch(E[p[m - 2]], p[m - 1], j)
    ensures IsWalk(E, p[..m - 1] + [E[p[m - 2]][j + 1].dest])
    ensures NextWalk(E, p, Descend(E, p[..m - 1] + [E[p[m - 2]][j + 1].dest], |p|))
  {
    var cs := E[p[m - 2]];
    var pre := p[..m - 1];
    LabelsPrefix(E, p, m - 1);
    assert pre[|pre| - 1] == p[m - 2];
    WalkExtend(E, pre, j + 1);
    var q := pre + [cs[j + 1].dest];
    var r := Descend(E, q, |p|);
    var i := m - 2;
    // r comes after p: they agree on the first m-1 nodes and r takes a later child at step m-2.
    assert r[..m - 1] == pre by {
      assert r[..m - 1] == r[..m][..m - 1];
    }
    SharedPrefixLabels(E, r, p, m - 1);
    assert Labels(E, r)[..m - 2] == Labels(E, p)[..m - 2];
    var kp := StepIndex(E, p, i);
    assert kp == j;
    var kr := StepIndex(E, r, i);
    assert r[i + 1] == r[..m][i + 1] == cs[j + 1].dest;
    assert kr == j + 1;
    CmpAt(Labels(E, r), Labels(E, p), i);
    assert r[0] == p[0] by {
      assert r[0] == r[..m - 1][0];
    }
    forall w | IsWalk(E, w) && |w| == |p| && w[0] == p[0] && Cmp(Labels(E, w), Labels(E, p)) == 1
      ensures Cmp(Labels(E, w), Labels(E, r)) >= 0
    {
      if w[..m] == p[..m] {
        assert false;
      } else {
        AdvanceSplit(E, p, r, w, m);
        if Cmp(Labels(E, w), Labels(E, r)) != 1 {
          AdvanceNear(E, p, m, j, r, w);
        }
      }
    }
  }

  /** A walk after `p` either leaves p before step m-2, and so comes after `r` too, or shares p[..m-1]. */
  lemma AdvanceSplit(E: map<nat, seq<Edge>>, p: seq<nat>, r: seq<nat>, w: seq<nat>, m: nat)
    requires GraphOk(E) && IsWalk(E, p) && IsWalk(E, r) && IsWalk(E, w)
    requires |r| == |p| && |w| == |p| && w[0] == p[0] && 2 <= m <= |p|
    requires Labels(E, r)[..m - 2] == Labels(E, p)[..m - 2]
    requires Cmp(Labels(E, w), Labels(E, p)) == 1
    ensures Cmp(Labels(E, w), Labels(E, r)) == 1 || w[..m - 1] == p[..m - 1]
  {
    var Lw, Lp := Labels(E, w), Labels(E, p);
    var d := CmpWitness(Lw, Lp);
    if d < m - 2 {
      CmpAgreeingPrefix(Lw, Lp, Labels(E, r), d, m - 2);
    } else {
      assert Lw[..m - 2] == Lp[..m - 2] by {
        assert Lw[..m - 2] == Lw[..d][..m - 2];
        assert Lp[..m - 2] == Lp[..d][..m - 2];
      }
      LabelsDetermine(E, w, p, m - 2);
    }
  }

  /** Sharing p[..m-1]: the child `w` takes at step m-2 decides. */
  lemma AdvanceNear(E: map<nat, seq<Edge>>, p: seq<nat>, m: nat, j: nat, r: seq<nat>, w: seq<nat>)
    requires GraphOk(E) && IsWalk(E, p) && 2 <= m <= |p|
    requires j + 1 < |E[p[m - 2]]| && FirstMatch(E[p[m - 2]], p[m - 1], j)
    requires IsWalk(E, p[..m - 1] + [E[p[m - 2]][j + 1].dest])
    requires r == Descend(E, p[..m - 1] + [E[p[m - 2]][j + 1].dest], |p|)
    requires r[..m - 1] == p[..m - 1]
    requires IsWalk(E, w) && |w| == |p| && w[..m - 1] == p[..m - 1] && w[..m] != p[..m]
    requires Cmp(Labels(E, w), Labels(E, p)) == 1
    ensures Cmp(Labels(E, w), Labels(E, r)) >= 0
  {
    var i := m - 2;
    assert w[i] == p[i] by {
      assert w[i] == w[..m - 1][i];
      assert p[i] == p[..m - 1][i];
    }
    var k := StepIndex(E, w, i);
    var kp := StepIndex(E, p, i);
    NearEarlier(E, p, w, i, k, kp);
    PrefixGrow(w, p, m - 1);
    if k < j {
      assert false;
    } else if k == j {
      assert false;
    } else if k == j + 1 {
      NearDescend(E, p, m, j, r, w);
    } else {
      NearLater(E, p, m, j, r, w, k);
    }
  }

  /** A walk through an earlier sibling comes before `p`. */
  lemma NearEarlier(E: map<nat, seq<Edge>>, p: seq<nat>, w: seq<nat>, i: nat, kw: nat, kp: nat)
    requires GraphOk(E) && IsWalk(E, p) && IsWalk(E, w) && |w| == |p| && i + 1 < |p|
    requires w[..i + 1] == p[..i + 1]
    requires kw < |E[p[i]]| && kp < |E[p[i]]|
    requires E[p[i]][kw].height == Labels(E, w)[i] && E[p[i]][kp].height == Labels(E, p)[i]
    ensures kw < kp ==> Cmp(Labels(E, w), Labels(E, p)) == -1
  {
    if kw < kp {
      assert Ascending(E[p[i]]);
      LaterChild(E, p, w, i);
      CmpAntisym(Labels(E, p), Labels(E, w));
    }
  }

  /** A walk through the next sibling is not before that sibling's first-child descent. */
  lemma NearDescend(E: map<nat, seq<Edge>>, p: seq<nat>, m: nat, j: nat, r: seq<nat>, w: seq<nat>)
    requires GraphOk(E) && IsWalk(E, p) && 2 <= m <= |p|
    requires j + 1 < |E[p[m - 2]]|
    requires IsWalk(E, p[..m - 1] + [E[p[m - 2]][j + 1].dest])
    requires r == Descend(E, p[..m - 1] + [E[p[m - 2]][j + 1].dest], |p|)
    requires IsWalk(E, w) && |w| == |p| && w[..m - 1] == p[..m - 1]
    requires w[m - 1] == E[p[m - 2]][j + 1].dest
    ensures Cmp(Labels(E, w), Labels(E, r)) >= 0
  {
    var q := p[..m - 1] + [E[p[m - 2]][j + 1].dest];
    assert q[..m - 1] == p[..m - 1];
    PrefixGrow(w, q, m - 1);
    assert q[..m] == q;
    DescendMin(E, q, w, |p|);
    CmpAntisym(Labels(E, r), Labels(E, w));
  }

  /** A walk through a later sibling comes after the descent through the next sibling. */
  lemma NearLater(E: map<nat, seq<Edge>>, p: seq<nat>, m: nat, j: nat, r: seq<nat>, w: seq<nat>, k: nat)
    requires GraphOk(E) && IsWalk(E, p) && 2 <= m <= |p|
    requires j + 1 < k < |E[p[m - 2]]|
    requires IsWalk(E, p[..m - 1] + [E[p[m - 2]][j + 1].dest])
    requires r == Descend(E, p[..m - 1] + [E[p[m - 2]][j + 1].dest], |p|)
    requires r[..m - 1] == p[..m - 1]
    requires IsWalk(E, w) && |w| == |p| && w[..m - 1] == p[..m - 1]
    requires E[p[m - 2]][k].height == Labels(E, w)[m - 2]
    ensures Cmp(Labels(E, w), Labels(E, r)) >= 0
  {
    var i := m - 2;
    var q := p[..m - 1] + [E[p[m - 2]][j + 1].dest];
    assert r[i] == p[i] by {
      assert r[i] == r[..m - 1][i];
      assert p[i] == p[..m - 1][i];
    }
    assert r[m - 1] == q[m - 1] by {
      assert r[..m] == q;
    }
    var kr := StepIndex(E, r, i);
    assert kr == j + 1;
    assert Ascending(E[p[i]]);
    LaterChild(E, w, r, i);
  }

  // ---------------------------------------------------------------------
  // A bounded measure for the enumeration
  // ---------------------------------------------------------------------

  /** The labels read as a number in base B, most significant first. */
  ghost function Val(L: seq<nat>, B: nat): int
  {
    if |L| == 0 then 0 else L[0] * Pow(B, |L| - 1) + Val(L[1..], B)
  }

  lemma {:induction false} PowPositive(B: nat, n: nat)
    requires B > 0
    ensures Pow(B, n) > 0
  {
    if n > 0 {
      PowPositive(B, n - 1);
      Arith.MulAtLeast(B, Pow(B, n - 1));
    }
  }

  /** Digits below B make a number in [0, B^|L|). */
  lemma {:induction false} ValBound(L: seq<nat>, B: nat)
    requires B > 0 && forall i :: 0 <= i < |L| ==> L[i] < B
    ensures 0 <= Val(L, B) < Pow(B, |L|)
  {
    if |L| > 0 {
      var n := |L|;
      var P := Pow(B, n - 1);
      ValBound(L[1..], B);
      PowPositive(B, n - 1);
      Arith.MulMono(P, L[0], B - 1);
      assert Pow(B, n) == P * B;
      assert P * (B - 1) + P == P * B;
    }
  }

  /** A greater leading digit outweighs whatever follows it. */
  lemma LeadingDigit(a: nat, b: nat, P: int, u: int, v: int)
    requires a > b && 0 <= u && 0 <= v < P
    ensures a * P + u > b * P + v
  {
    Arith.MulMono(P, b + 1, a);
    assert P * (b + 1) == P * b + P;
  }

  /** The number grows with the lexicographic order. */
  lemma {:induction false} ValMono(x: seq<nat>, y: seq<nat>, B: nat)
    requires |x| == |y| && B > 0
    requires forall i :: 0 <= i < |x| ==> x[i] < B && y[i] < B
    requires Cmp(x, y) == 1
    ensures Val(x, B) > Val(y, B)
  {
    var n := |x|;
    if x[0] == y[0] {
      ValMono(x[1..], y[1..], B);
    } else {
      ValBound(y[1..], B);
      ValBound(x[1..], B);
      LeadingDigit(x[0], y[0], Pow(B, n - 1), Val(x[1..], B), Val(y[1..], B));
    }
  }

  /** Every label of a walk is a throw height in 0..maxHeight. */
  lemma LabelsBounded(E: map<nat, seq<Edge>>, maxHeight: nat, p: seq<nat>)
    requires GraphOk(E) && Juggles(E, maxHeight) && IsWalk(E, p)
    ensures forall i :: 0 <= i < |p| - 1 ==> Labels(E, p)[i] <= maxHeight
  {
    forall i | 0 <= i < |p| - 1
      ensures Labels(E, p)[i] <= maxHeight
    {
      var k := StepIndex(E, p, i);
      assert Transition(p[i], E[p[i]][k], maxHeight);
    }
  }

  /** The measure that bounds the enumeration from one root: it grows with every successor. */
  lemma SuccessorGrows(E: map<nat, seq<Edge>>, maxHeight: nat, p: seq<nat>, r: seq<nat>)
    requires GraphOk(E) && Juggles(E, maxHeight) && NextWalk(E, p, r)
    ensures Val(Labels(E, p), maxHeight + 1) < Val(Labels(E, r), maxHeight + 1) < Pow(maxHeight + 1, |p| - 1)
  {
    LabelsBounded(E, maxHeight, p);
    LabelsBounded(E, maxHeight, r);
    ValMono(Labels(E, r), Labels(E, p), maxHeight + 1);
    ValBound(Labels(E, r), maxHeight + 1);
  }
}
