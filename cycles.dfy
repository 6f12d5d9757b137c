/**
 * Closed walks of the state graph are valid siteswaps.  Generator.java
 * reports the labels of every walk that starts and ends on the same state;
 * this module proves that such a label sequence always passes Utils.isValid:
 * its sum is a multiple of its length (each beat keeps the ball count and
 * moves the landing total by the throw minus the ball count), and no two
 * throws land on the same beat (a throw only goes to a height that is free
 * in the state, and a ball that lands is thrown again).
 *
 * Beat t of the repeated pattern is step t % n of the walk, n = |p| - 1.
 */
module Cycles {
  import opened StateBits
  import opened StateGraphModel
  import opened Walks
  import opened Utils
  import Arith

  /** A walk of at least one step that ends on the state it started from. */
  ghost predicate ClosedWalk(E: map<nat, seq<Edge>>, p: seq<nat>)
  {
    IsWalk(E, p) && |p| >= 2 && p[0] == p[|p| - 1]
  }

  /** The state at beat t of the repeated walk. */
  function At(p: seq<nat>, t: nat): nat
    requires |p| >= 2
  {
    p[t % (|p| - 1)]
  }

  /** The throw made at beat t of the repeated walk. */
  function ThrowAt(L: seq<nat>, t: nat): nat
    requires |L| > 0
  {
    L[t % |L|]
  }

  /** The beat after t, reduced modulo n, wraps from n - 1 back to 0. */
  lemma NextBeat(t: nat, n: nat)
    requires n > 0
    ensures (t + 1) % n == if t % n + 1 < n then t % n + 1 else 0
  {
    Arith.ModAdd(t, 1, n);
    if t % n + 1 < n {
      Arith.ModSmall(t % n + 1, n);
    } else {
      Arith.ModAddMultiple(0, n, 1);
    }
  }

  /** Every state a transition leads to has its balls within heights 1..maxHeight. */
  lemma DestInWindow(s: nat, e: Edge, maxHeight: nat)
    requires Transition(s, e, maxHeight)
    ensures InWindow(e.dest, maxHeight)
  {
    forall q: nat | IsSet(e.dest, q) ensures 1 <= q <= maxHeight {
      assert (1 <= q < maxHeight && IsSet(s, q + 1)) || (q == e.height && e.height > 0);
    }
  }

  /** Each step of a walk is an edge that follows the transition rule. */
  lemma StepTransition(E: map<nat, seq<Edge>>, maxHeight: nat, p: seq<nat>, i: nat)
    requires GraphOk(E) && Juggles(E, maxHeight) && IsWalk(E, p) && i + 1 < |p|
    ensures Transition(p[i], Edge(Labels(E, p)[i], p[i + 1]), maxHeight)
  {
    var k := StepIndex(E, p, i);
    assert Transition(p[i], E[p[i]][k], maxHeight);
  }

  /** Every state of a closed walk is in the window: each one is reached by a step. */
  lemma NodeInWindow(E: map<nat, seq<Edge>>, maxHeight: nat, p: seq<nat>, i: nat)
    requires GraphOk(E) && Juggles(E, maxHeight) && ClosedWalk(E, p) && i < |p|
    ensures InWindow(p[i], maxHeight)
  {
    var L := Labels(E, p);
    var j := if i == 0 then |p| - 2 else i - 1;
    StepTransition(E, maxHeight, p, j);
    DestInWindow(p[j], Edge(L[j], p[j + 1]), maxHeight);
  }

  /** Beat t of the repeated walk follows the transition rule into beat t + 1. */
  lemma StepRule(E: map<nat, seq<Edge>>, maxHeight: nat, p: seq<nat>, t: nat)
    requires GraphOk(E) && Juggles(E, maxHeight) && ClosedWalk(E, p)
    ensures Transition(At(p, t), Edge(ThrowAt(Labels(E, p), t), At(p, t + 1)), maxHeight)
    ensures InWindow(At(p, t), maxHeight)
  {
    var n := |p| - 1;
    var i := t % n;
    NextBeat(t, n);
    StepTransition(E, maxHeight, p, i);
    NodeInWindow(E, maxHeight, p, i);
  }

  /**
   * A ball thrown to height h > 0 at beat u sits at height h - k + 1 at
   * beat u + k, for every k from 1 to h: it comes down by one each beat.
   */
  lemma {:induction false} InFlight(E: map<nat, seq<Edge>>, maxHeight: nat, p: seq<nat>, u: nat, k: nat)
    requires GraphOk(E) && Juggles(E, maxHeight) && ClosedWalk(E, p)
    requires ThrowAt(Labels(E, p), u) > 0
    requires 1 <= k <= ThrowAt(Labels(E, p), u)
    ensures IsSet(At(p, u + k), ThrowAt(Labels(E, p), u) - k + 1)
  {
    var h := ThrowAt(Labels(E, p), u);
    if k == 1 {
      StepRule(E, maxHeight, p, u);
    } else {
      InFlight(E, maxHeight, p, u, k - 1);
      StepRule(E, maxHeight, p, u + k - 1);
      assert IsSet(At(p, u + k - 1), (h - k + 1) + 1);
    }
  }

  /** The beat on which a ball lands is a beat on which a ball is thrown. */
  lemma LandingThrows(E: map<nat, seq<Edge>>, maxHeight: nat, p: seq<nat>, u: nat)
    requires GraphOk(E) && Juggles(E, maxHeight) && ClosedWalk(E, p)
    requires ThrowAt(Labels(E, p), u) > 0
    ensures ThrowAt(Labels(E, p), u + ThrowAt(Labels(E, p), u)) > 0
  {
    var h := ThrowAt(Labels(E, p), u);
    InFlight(E, maxHeight, p, u, h);
    StepRule(E, maxHeight, p, u + h);
  }

  /** A ball thrown at u is still in the air when the ball thrown at a later beat v lands, or lands first. */
  lemma LaterThrowFree(E: map<nat, seq<Edge>>, maxHeight: nat, p: seq<nat>, u: nat, v: nat)
    requires GraphOk(E) && Juggles(E, maxHeight) && ClosedWalk(E, p)
    requires u < v && ThrowAt(Labels(E, p), u) > 0 && ThrowAt(Labels(E, p), v) > 0
    ensures u + ThrowAt(Labels(E, p), u) != v + ThrowAt(Labels(E, p), v)
  {
    var L := Labels(E, p);
    var hu, hv := ThrowAt(L, u), ThrowAt(L, v);
    if u + hu == v + hv {
      // The ball thrown at u is still in the air at v, at height hv + 1.
      InFlight(E, maxHeight, p, u, v - u);
      StepRule(E, maxHeight, p, v);
      assert false;
    }
  }

  /** Two balls thrown on different beats never land on the same beat. */
  lemma NoCatchCollision(E: map<nat, seq<Edge>>, maxHeight: nat, p: seq<nat>, u: nat, v: nat)
    requires GraphOk(E) && Juggles(E, maxHeight) && ClosedWalk(E, p)
    requires u != v && ThrowAt(Labels(E, p), u) > 0 && ThrowAt(Labels(E, p), v) > 0
    ensures u + ThrowAt(Labels(E, p), u) != v + ThrowAt(Labels(E, p), v)
  {
    if u < v {
      LaterThrowFree(E, maxHeight, p, u, v);
    } else {
      LaterThrowFree(E, maxHeight, p, v, u);
    }
  }

  /** Beats with equal landing residues, moved to one time line where they land together. */
  lemma Realign(L: seq<nat>, i: nat, j: nat) returns (v: nat)
    requires i < |L| && j < |L| && i + L[i] >= j + L[j]
    requires Landing(L, i) == Landing(L, j)
    ensures v % |L| == j && v + L[j] == i + L[i]
  {
    var n := |L|;
    var a, b := i + L[i], j + L[j];
    var c := a / n - b / n;
    assert a == (a / n) * n + a % n && b == (b / n) * n + b % n;
    assert c * n == a - b;
    assert c >= 0 by {
      if c < 0 { Arith.MulAtLeast(-c, n); }
    }
    v := j + c * n;
    Arith.ModAddMultiple(j, n, c);
    Arith.ModSmall(j, n);
  }

  /** The throws of a closed walk land on pairwise different beats of the period. */
  lemma DistinctLandings(E: map<nat, seq<Edge>>, maxHeight: nat, p: seq<nat>, i: nat, j: nat)
    requires GraphOk(E) && Juggles(E, maxHeight) && ClosedWalk(E, p)
    requires i < j < |p| - 1
    ensures Landing(Labels(E, p), i) != Landing(Labels(E, p), j)
  {
    var L := Labels(E, p);
    var n := |L|;
    Arith.ModSmall(i, n);
    Arith.ModSmall(j, n);
    if Landing(L, i) == Landing(L, j) {
      assert ThrowAt(L, i) == L[i] && ThrowAt(L, j) == L[j];
      if L[i] == 0 && L[j] == 0 {
        assert false;
      } else if L[i] == 0 || L[j] == 0 {
        var z, t := if L[i] == 0 then i else j, if L[i] == 0 then j else i;
        assert (t + L[t]) % n == z;
        LandingThrows(E, maxHeight, p, t);
        assert false;
      } else if i + L[i] >= j + L[j] {
        var v := Realign(L, i, j);
        NoCatchCollision(E, maxHeight, p, i, v);
        assert false;
      } else {
        var v := Realign(L, j, i);
        NoCatchCollision(E, maxHeight, p, j, v);
        assert false;
      }
    }
  }

  /**
   * One beat keeps the number of balls and changes the landing total (the
   * sum of the set heights) by the throw minus the number of balls.
   */
  lemma TransitionBalance(s: nat, e: Edge, maxHeight: nat)
    requires InWindow(s, maxHeight) && Transition(s, e, maxHeight)
    ensures Count(e.dest, 1, maxHeight + 1) == Count(s, 1, maxHeight + 1)
    ensures Weight(e.dest, 1, maxHeight + 1) + Count(s, 1, maxHeight + 1)
      == Weight(s, 1, maxHeight + 1) + e.height
  {
    var sh := Shift(s, maxHeight);
    var hi := maxHeight + 1;
    ShiftCountWeight(s, sh, 1, maxHeight);
    CountExtend(sh, 1, maxHeight, hi);
    if e.height > 0 {
      assert !IsSet(sh, e.height);
      SetBitCount(sh, e.height, 1, hi);
      AgreeSameCount(e.dest, SetBit(sh, e.height), 1, hi);
    } else {
      AgreeSameCount(e.dest, sh, 1, hi);
    }
  }

  /** Step i of a closed walk keeps the ball count and moves the landing total by its throw minus that count. */
  lemma StepBalance(E: map<nat, seq<Edge>>, maxHeight: nat, p: seq<nat>, i: nat)
    requires GraphOk(E) && Juggles(E, maxHeight) && ClosedWalk(E, p)
    requires i + 1 < |p|
    ensures Count(p[i + 1], 1, maxHeight + 1) == Count(p[i], 1, maxHeight + 1)
    ensures Weight(p[i + 1], 1, maxHeight + 1) + Count(p[i], 1, maxHeight + 1)
      == Weight(p[i], 1, maxHeight + 1) + Labels(E, p)[i]
  {
    StepTransition(E, maxHeight, p, i);
    NodeInWindow(E, maxHeight, p, i);
    TransitionBalance(p[i], Edge(Labels(E, p)[i], p[i + 1]), maxHeight);
  }

  /** Extending a prefix by one element adds that element to its sum. */
  lemma SumPrefixStep(L: seq<nat>, k: nat)
    requires 0 < k <= |L|
    ensures Sum(L[..k]) == Sum(L[..k - 1]) + L[k - 1]
  {
    assert L[..k][..k - 1] == L[..k - 1];
  }

  /** The bookkeeping of one telescoping step, on plain numbers. */
  lemma TelescopeArith(w0: int, w: int, w': int, c: int, s: int, h: int, k: int)
    requires w + (k - 1) * c == w0 + s
    requires w' + c == w + h
    ensures w' + k * c == w0 + (s + h)
  {
    assert k * c == (k - 1) * c + c;
  }

  /**
   * After k steps of a closed walk the ball count is the one at the start,
   * and the landing total has moved by the throws minus k times the count.
   */
  lemma {:induction false} Telescope(E: map<nat, seq<Edge>>, maxHeight: nat, p: seq<nat>, k: nat)
    requires GraphOk(E) && Juggles(E, maxHeight) && ClosedWalk(E, p)
    requires k < |p|
    ensures Count(p[k], 1, maxHeight + 1) == Count(p[0], 1, maxHeight + 1)
    ensures Weight(p[k], 1, maxHeight + 1) + k * Count(p[0], 1, maxHeight + 1)
      == Weight(p[0], 1, maxHeight + 1) + Sum(Labels(E, p)[..k])
  {
    if k > 0 {
      var L := Labels(E, p);
      var hi := maxHeight + 1;
      Telescope(E, maxHeight, p, k - 1);
      StepBalance(E, maxHeight, p, k - 1);
      SumPrefixStep(L, k);
      TelescopeArith(Weight(p[0], 1, hi), Weight(p[k - 1], 1, hi), Weight(p[k], 1, hi),
        Count(p[0], 1, hi), Sum(L[..k - 1]), L[k - 1], k);
    }
  }

  /** The throws of a closed walk add up to its length times its ball count. */
  lemma BallSum(E: map<nat, seq<Edge>>, maxHeight: nat, p: seq<nat>)
    requires GraphOk(E) && Juggles(E, maxHeight) && ClosedWalk(E, p)
    ensures Sum(Labels(E, p)) == (|p| - 1) * Count(p[0], 1, maxHeight + 1)
  {
    var L := Labels(E, p);
    Telescope(E, maxHeight, p, |p| - 1);
    assert L[..|p| - 1] == L;
  }

  /** A sum that is a whole multiple of the length passes the average test. */
  lemma MultipleOfLength(L: seq<nat>, c: nat)
    requires |L| > 0 && Sum(L) == |L| * c
    ensures Sum(L) % |L| == 0
  {
    Arith.DivModUnique(Sum(L), |L|, c, 0);
  }

  /** The labels of every closed walk form a valid siteswap. */
  lemma ClosedWalkValid(E: map<nat, seq<Edge>>, maxHeight: nat, p: seq<nat>)
    requires GraphOk(E) && Juggles(E, maxHeight) && ClosedWalk(E, p)
    ensures IsValidSeq(Labels(E, p))
  {
    var L := Labels(E, p);
    var n := |L|;
    BallSum(E, maxHeight, p);
    MultipleOfLength(L, Count(p[0], 1, maxHeight + 1));
    forall i, j | 0 <= i < j < n ensures Landing(L, i) != Landing(L, j) {
      DistinctLandings(E, maxHeight, p, i, j);
    }
  }
}
