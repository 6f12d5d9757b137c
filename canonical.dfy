/**
 * The canonical form of a throw sequence: the shortest block whose
 * repetition gives the sequence, turned to its lexicographically greatest
 * rotation.  These are the specification functions of Utils.normalize,
 * Utils.order and Utils.compare_shift, and the facts Siteswap.equals relies on.
 */
module Canonical {
  import opened Lex
  import Arith

  /** `a` shifted left by `k` positions: position i holds a[(i + k) % |a|]. */
  function Rot(a: seq<nat>, k: nat): (r: seq<nat>)
    requires k <= |a|
    ensures |r| == |a|
  {
    seq(|a|, i requires 0 <= i < |a| => a[(i + k) % |a|])
  }

  /** The shift is the tail from k followed by the head before k. */
  lemma RotSplit(a: seq<nat>, k: nat)
    requires k <= |a|
    ensures Rot(a, k) == a[k..] + a[..k]
  {
    forall i | 0 <= i < |a|
      ensures Rot(a, k)[i] == (a[k..] + a[..k])[i]
    {
      if i + k < |a| {
        Arith.ModSmall(i + k, |a|);
      } else {
        Arith.ModAddMultiple(i + k - |a|, |a|, 1);
        Arith.ModSmall(i + k - |a|, |a|);
      }
    }
  }

  lemma RotZero(a: seq<nat>)
    ensures Rot(a, 0) == a
  {
    forall i | 0 <= i < |a|
      ensures Rot(a, 0)[i] == a[i]
    {
      Arith.ModSmall(i, |a|);
    }
  }

  /** Two shifts make one. */
  lemma RotRot(a: seq<nat>, j: nat, k: nat)
    requires j < |a| && k < |a|
    ensures Rot(Rot(a, j), k) == Rot(a, (j + k) % |a|)
  {
    var n := |a|;
    forall i | 0 <= i < n
      ensures Rot(Rot(a, j), k)[i] == Rot(a, (j + k) % n)[i]
    {
      Arith.ModAdd(i + k, j, n);
      Arith.ModAdd(j + k, i, n);
    }
  }

  /** Shifting on by the remaining distance restores `a`. */
  lemma RotBack(a: seq<nat>, k: nat)
    requires k < |a|
    ensures Rot(Rot(a, k), (|a| - k) % |a|) == a
  {
    var t := (|a| - k) % |a|;
    calc {
      Rot(Rot(a, k), t);
      { RotRot(a, k, t); }
      Rot(a, (k + t) % |a|);
      { Arith.ModComplement(k, |a|); }
      Rot(a, 0);
      { RotZero(a); }
      a;
    }
  }

  /** Shift `j` of `p` is a shift of `Rot(p, k)`. */
  lemma RotOfRot(p: seq<nat>, k: nat, j: nat)
    requires k < |p| && j < |p|
    ensures Rot(p, j) == Rot(Rot(p, k), (j + |p| - k) % |p|)
  {
    var n := |p|;
    var t := (j + n - k) % n;
    Arith.ModAdd(j + n - k, k, n);
    Arith.ModAddMultiple(j, n, 1);
    Arith.ModSmall(j, n);
    assert (k + t) % n == j;
    RotRot(p, k, t);
  }

  /** `a` is its first `d` elements repeated. */
  ghost predicate Periodic(a: seq<nat>, d: nat)
  {
    0 < d <= |a| && |a| % d == 0 && forall m :: 0 <= m < |a| ==> a[m] == a[m % d]
  }

  lemma PeriodicWhole(a: seq<nat>)
    requires |a| > 0
    ensures Periodic(a, |a|)
  {
    Arith.ModAddMultiple(0, |a|, 1);
    forall m | 0 <= m < |a| ensures a[m] == a[m % |a|] {
      Arith.ModSmall(m, |a|);
    }
  }

  /** The first period among i..|a|, where |a| itself always is one. */
  ghost function FirstPeriod(a: seq<nat>, i: nat): (d: nat)
    requires 1 <= i <= |a|
    ensures i <= d <= |a| && Periodic(a, d)
    ensures forall e :: i <= e < d ==> !Periodic(a, e)
    decreases |a| - i
  {
    if i == |a| then
      PeriodicWhole(a);
      i
    else if Periodic(a, i) then i
    else FirstPeriod(a, i + 1)
  }

  /** The smallest period of `a` (0 for the empty sequence). */
  ghost function MinPeriod(a: seq<nat>): (d: nat)
    ensures d <= |a| && (d == 0 <==> |a| == 0)
    ensures |a| > 0 ==> Periodic(a, d)
    ensures forall e :: 0 < e < d ==> !Periodic(a, e)
  {
    if |a| == 0 then 0 else FirstPeriod(a, 1)
  }

  /**
   * The shift chosen among 0..n-1: as great as every other, and strictly
   * greater than every earlier one, so ties keep the smallest shift.
   */
  function BestShift(a: seq<nat>, n: nat): (b: nat)
    requires 1 <= n <= |a|
    ensures b < n
    ensures forall j {:trigger Cmp(Rot(a, b), Rot(a, j))} :: 0 <= j < n ==> Cmp(Rot(a, b), Rot(a, j)) >= 0
    ensures forall j {:trigger Cmp(Rot(a, b), Rot(a, j))} :: 0 <= j < b ==> Cmp(Rot(a, b), Rot(a, j)) == 1
  {
    if n == 1 then 0
    else
      var b := BestShift(a, n - 1);
      if Cmp(Rot(a, n - 1), Rot(a, b)) == 1 then
        NewBestShift(a, n, b);
        n - 1
      else
        KeepBestShift(a, n, b);
        b
  }

  /** A shift that does not beat the best of the earlier shifts leaves it the best. */
  lemma KeepBestShift(a: seq<nat>, n: nat, b: nat)
    requires 2 <= n <= |a| && b < n - 1
    requires forall j {:trigger Cmp(Rot(a, b), Rot(a, j))} :: 0 <= j < n - 1 ==> Cmp(Rot(a, b), Rot(a, j)) >= 0
    requires Cmp(Rot(a, n - 1), Rot(a, b)) != 1
    ensures forall j {:trigger Cmp(Rot(a, b), Rot(a, j))} :: 0 <= j < n ==> Cmp(Rot(a, b), Rot(a, j)) >= 0
  {
    CmpAntisym(Rot(a, n - 1), Rot(a, b));
  }

  /** A shift that beats the best of the earlier shifts beats all of them. */
  lemma NewBestShift(a: seq<nat>, n: nat, b: nat)
    requires 2 <= n <= |a| && b < n - 1
    requires forall j {:trigger Cmp(Rot(a, b), Rot(a, j))} :: 0 <= j < n - 1 ==> Cmp(Rot(a, b), Rot(a, j)) >= 0
    requires Cmp(Rot(a, n - 1), Rot(a, b)) == 1
    ensures forall j {:trigger Cmp(Rot(a, n - 1), Rot(a, j))} :: 0 <= j < n - 1 ==> Cmp(Rot(a, n - 1), Rot(a, j)) == 1
  {
    forall j | 0 <= j < n - 1
      ensures Cmp(Rot(a, n - 1), Rot(a, j)) == 1
    {
      CmpTrans(Rot(a, n - 1), Rot(a, b), Rot(a, j));
    }
  }

  /** The lexicographically greatest rotation. */
  function MaxRot(a: seq<nat>): (r: seq<nat>)
    ensures |r| == |a|
    ensures forall j {:trigger Cmp(r, Rot(a, j))} :: 0 <= j < |a| ==> Cmp(r, Rot(a, j)) >= 0
  {
    if |a| == 0 then a else Rot(a, BestShift(a, |a|))
  }

  /** A rotation that is at least every rotation is the greatest rotation. */
  lemma MaxRotUnique(a: seq<nat>, k: nat)
    requires k < |a|
    requires forall j {:trigger Cmp(Rot(a, k), Rot(a, j))} :: 0 <= j < |a| ==> Cmp(Rot(a, k), Rot(a, j)) >= 0
    ensures MaxRot(a) == Rot(a, k)
  {
    var b := BestShift(a, |a|);
    CmpAntisym(Rot(a, k), Rot(a, b));
  }

  /** Turning the input first does not change its greatest rotation. */
  lemma MaxRotOfRotation(p: seq<nat>, k: nat)
    requires k < |p|
    ensures MaxRot(Rot(p, k)) == MaxRot(p)
  {
    var n := |p|;
    var q := Rot(p, k);
    var b := BestShift(q, n);
    RotRot(p, k, b);
    var c := (k + b) % n;
    forall j | 0 <= j < n
      ensures Cmp(Rot(p, c), Rot(p, j)) >= 0
    {
      RotOfRot(p, k, j);
    }
    MaxRotUnique(p, c);
  }

  /** Periods survive rotation. */
  lemma RotPeriodic(a: seq<nat>, k: nat, e: nat)
    requires k < |a| && Periodic(a, e)
    ensures Periodic(Rot(a, k), e)
  {
    var n := |a|;
    var r := Rot(a, k);
    forall m | 0 <= m < n
      ensures r[m] == r[m % e]
    {
      Arith.ModModDivisor(m + k, n, e);
      Arith.ModModDivisor(m % e + k, n, e);
      Arith.ModAdd(m, k, e);
    }
  }

  /** A sequence and its rotations have the same smallest period. */
  lemma MinPeriodRot(a: seq<nat>, k: nat)
    requires k < |a|
    ensures MinPeriod(Rot(a, k)) == MinPeriod(a)
  {
    var n := |a|;
    var d := MinPeriod(a);
    var d' := MinPeriod(Rot(a, k));
    RotPeriodic(a, k, d);
    RotBack(a, k);
    RotPeriodic(Rot(a, k), (n - k) % n, d');
  }

  /** The first `d` positions of a rotation of a d-periodic sequence are a rotation of its first block. */
  lemma RotBlock(a: seq<nat>, k: nat, d: nat)
    requires k < |a| && Periodic(a, d)
    ensures Rot(a, k)[..d] == Rot(a[..d], k % d)
  {
    var n := |a|;
    forall i | 0 <= i < d
      ensures Rot(a, k)[i] == Rot(a[..d], k % d)[i]
    {
      Arith.ModModDivisor(i + k, n, d);
      Arith.ModAdd(k, i, d);
    }
  }

  /** The block of smallest period is primitive: it has no shorter period of its own. */
  lemma BlockPrimitive(a: seq<nat>)
    requires |a| > 0
    ensures MinPeriod(a[..MinPeriod(a)]) == MinPeriod(a)
  {
    var n := |a|;
    var d := MinPeriod(a);
    var p := a[..d];
    var e := MinPeriod(p);
    if e < d {
      forall m | 0 <= m < n
        ensures a[m] == a[m % e]
      {
        Arith.ModModDivisor(m, d, e);
      }
      Arith.ModModDivisor(n, d, e);
      assert Periodic(a, e);
      assert false;
    }
  }

  /** The canonical form that Utils.normalize computes. */
  ghost function Normal(a: seq<nat>): (r: seq<nat>)
    ensures |r| == MinPeriod(a)
    ensures forall j {:trigger Cmp(r, Rot(a[..|r|], j))} :: 0 <= j < |r| ==> Cmp(r, Rot(a[..|r|], j)) >= 0
  {
    MaxRot(a[..MinPeriod(a)])
  }

  /** The canonical form is a rotation of the block of smallest period. */
  lemma NormalIsRotation(a: seq<nat>)
    requires |a| > 0
    ensures exists k :: 0 <= k < MinPeriod(a) && Normal(a) == Rot(a[..MinPeriod(a)], k)
  {
    var p := a[..MinPeriod(a)];
    assert Normal(a) == Rot(p, BestShift(p, |p|));
  }

  /** Normalizing twice is normalizing once. */
  lemma NormalIdempotent(a: seq<nat>)
    ensures Normal(Normal(a)) == Normal(a)
  {
    if |a| > 0 {
      var d := MinPeriod(a);
      var p := a[..d];
      var b := BestShift(p, d);
      var r := Normal(a);
      assert r == Rot(p, b);
      BlockPrimitive(a);
      MinPeriodRot(p, b);
      assert r[..d] == r;
      MaxRotOfRotation(p, b);
    }
  }

  /** Every rotation of a sequence has the same canonical form. */
  lemma NormalRotation(a: seq<nat>, k: nat)
    requires k < |a|
    ensures Normal(Rot(a, k)) == Normal(a)
  {
    var d := MinPeriod(a);
    MinPeriodRot(a, k);
    RotBlock(a, k, d);
    MaxRotOfRotation(a[..d], k % d);
  }
}
