/**
 * Juggling states as bit masks (StateGraph.java).  A state is a natural
 * number; position p is set when bit p of the number is one, which means a
 * ball is due p beats from now.  Bit 0 is never used by the graph.
 */
module StateBits {
  import Arith

  /** 2^p. */
  function Pow2(p: nat): (r: nat)
    ensures r >= 1
  {
    if p == 0 then 1 else 2 * Pow2(p - 1)
  }

  /** a^n, the value `power(a, n)` computes. */
  function Pow(a: int, n: nat): int
  {
    if n == 0 then 1 else Pow(a, n - 1) * a
  }

  /** Bit `p` of `s`, defined one halving at a time. */
  predicate IsSet(s: nat, p: nat)
  {
    if p == 0 then s % 2 == 1 else IsSet(s / 2, p - 1)
  }

  /** StateGraph.power: the product of `n` factors `a`, by repeated multiplication. */
  method Power(a: int, n: nat) returns (r: int)
    ensures r == Pow(a, n)
    ensures a == 2 ==> r == Pow2(n)
  {
    r := 1;
    var i := 0;
    while i < n
      invariant 0 <= i <= n
      invariant r == Pow(a, i)
    {
      r := r * a;
      i := i + 1;
    }
    if a == 2 {
      PowTwo(n);
    }
  }

  lemma {:induction false} PowTwo(n: nat)
    ensures Pow(2, n) == Pow2(n)
  {
    if n > 0 {
      PowTwo(n - 1);
    }
  }

  /**
   * The recursive bit test agrees with the mask test of StateGraph.isSet,
   * `(state & 2^p) != 0`, written arithmetically as `(s / 2^p) % 2 == 1`.
   */
  lemma {:induction false} IsSetByDivision(s: nat, p: nat)
    ensures IsSet(s, p) <==> (s / Pow2(p)) % 2 == 1
  {
    if p > 0 {
      IsSetByDivision(s / 2, p - 1);
      Arith.DivTwice(s, Pow2(p - 1));
    }
  }

  /** No position of the empty state is set. */
  lemma {:induction false} NothingSetInZero(p: nat)
    ensures !IsSet(0, p)
  {
    if p > 0 {
      NothingSetInZero(p - 1);
    }
  }

  /** A non-zero state has some position set. */
  lemma {:induction false} SomethingSetInNonZero(s: nat) returns (p: nat)
    requires s != 0
    ensures IsSet(s, p)
  {
    if s % 2 == 1 {
      p := 0;
    } else {
      var q := SomethingSetInNonZero(s / 2);
      p := q + 1;
    }
  }

  /** Adding 2^p to a state whose position p is clear sets exactly position p. */
  lemma {:induction false} AddBit(s: nat, p: nat, q: nat)
    requires !IsSet(s, p)
    ensures IsSet(s + Pow2(p), q) <==> (q == p || IsSet(s, q))
  {
    if p == 0 {
      assert (s + 1) / 2 == s / 2;
      if q > 0 {
        assert IsSet(s + 1, q) == IsSet((s + 1) / 2, q - 1);
      }
    } else {
      var k := Pow2(p - 1);
      assert (s + 2 * k) % 2 == s % 2;
      assert (s + 2 * k) / 2 == s / 2 + k;
      if q > 0 {
        AddBit(s / 2, p - 1, q - 1);
      }
    }
  }

  /** A set position p means the state is at least 2^p. */
  lemma {:induction false} SetBitBound(s: nat, p: nat)
    requires IsSet(s, p)
    ensures s >= Pow2(p)
  {
    if p > 0 {
      SetBitBound(s / 2, p - 1);
    }
  }

  /** Subtracting 2^p from a state whose position p is set clears exactly position p. */
  lemma {:induction false} RemoveBit(s: nat, p: nat, q: nat)
    requires IsSet(s, p)
    ensures s >= Pow2(p)
    ensures IsSet(s - Pow2(p), q) <==> (q != p && IsSet(s, q))
  {
    ClearedBelow(s, p);
    AddBit(s - Pow2(p), p, q);
  }

  /** Removing a set position p leaves position p clear. */
  lemma {:induction false} ClearedBelow(s: nat, p: nat)
    requires IsSet(s, p)
    ensures s >= Pow2(p) && !IsSet(s - Pow2(p), p)
  {
    SetBitBound(s, p);
    if p == 0 {
    } else {
      ClearedBelow(s / 2, p - 1);
      var k := Pow2(p - 1);
      assert (s - 2 * k) / 2 == s / 2 - k;
    }
  }

  /** A state is determined by its set positions. */
  lemma {:induction false} SameBitsSameState(a: nat, b: nat)
    requires forall p: nat :: IsSet(a, p) <==> IsSet(b, p)
    ensures a == b
    decreases a + b
  {
    assert IsSet(a, 0) <==> IsSet(b, 0);
    if a != 0 && b != 0 {
      forall p: nat
        ensures IsSet(a / 2, p) <==> IsSet(b / 2, p)
      {
        assert IsSet(a, p + 1) <==> IsSet(b, p + 1);
      }
      SameBitsSameState(a / 2, b / 2);
    } else if a != 0 {
      var p := SomethingSetInNonZero(a);
      NothingSetInZero(p);
    } else if b != 0 {
      var p := SomethingSetInNonZero(b);
      NothingSetInZero(p);
    }
  }

  /** A state with no position at or above `n` is below 2^n. */
  lemma {:induction false} BelowPow2(s: nat, n: nat)
    requires forall p: nat :: p >= n ==> !IsSet(s, p)
    ensures s < Pow2(n)
  {
    if n == 0 {
      if s != 0 {
        var p := SomethingSetInNonZero(s);
      }
    } else {
      forall p: nat | p >= n - 1
        ensures !IsSet(s / 2, p)
      {
        assert !IsSet(s, p + 1);
      }
      BelowPow2(s / 2, n - 1);
    }
  }

  /** Higher positions weigh more. */
  lemma {:induction false} Pow2Mono(a: nat, b: nat)
    requires a <= b
    ensures Pow2(a) <= Pow2(b)
    decreases b - a
  {
    if a < b {
      Pow2Mono(a + 1, b);
    }
  }

  /** StateGraph.set: the state with position `p` set as well. */
  function SetBit(s: nat, p: nat): (r: nat)
    ensures forall q: nat :: IsSet(r, q) <==> (q == p || IsSet(s, q))
    ensures IsSet(s, p) ==> r == s
  {
    if IsSet(s, p) then s
    else
      var r := s + Pow2(p);
      assert forall q: nat :: IsSet(r, q) <==> (q == p || IsSet(s, q)) by {
        forall q: nat ensures IsSet(r, q) <==> (q == p || IsSet(s, q)) {
          AddBit(s, p, q);
        }
      }
      r
  }

  /** StateGraph.unset: the state with position `p` cleared. */
  function UnsetBit(s: nat, p: nat): (r: nat)
    ensures forall q: nat :: IsSet(r, q) <==> (q != p && IsSet(s, q))
    ensures !IsSet(s, p) ==> r == s
  {
    if !IsSet(s, p) then s
    else
      RemoveBit(s, p, 0);
      var r := s - Pow2(p);
      assert forall q: nat :: IsSet(r, q) <==> (q != p && IsSet(s, q)) by {
        forall q: nat ensures IsSet(r, q) <==> (q != p && IsSet(s, q)) {
          RemoveBit(s, p, q);
        }
      }
      r
  }

  /** Setting then clearing a clear position gives the state back. */
  lemma UnsetUndoesSet(s: nat, p: nat)
    requires !IsSet(s, p)
    ensures UnsetBit(SetBit(s, p), p) == s
  {
    var t := UnsetBit(SetBit(s, p), p);
    SameBitsSameState(t, s);
  }

  /** Number of set positions in [lo, hi). */
  function Count(s: nat, lo: nat, hi: nat): nat
    decreases hi - lo
  {
    if lo >= hi then 0 else (if IsSet(s, lo) then 1 else 0) + Count(s, lo + 1, hi)
  }

  /** Sum of the set positions in [lo, hi): the total time until every ball lands. */
  function Weight(s: nat, lo: nat, hi: nat): nat
    decreases hi - lo
  {
    if lo >= hi then 0 else (if IsSet(s, lo) then lo else 0) + Weight(s, lo + 1, hi)
  }

  /** States that agree on [lo, hi) have the same count and weight there. */
  lemma {:induction false} AgreeSameCount(a: nat, b: nat, lo: nat, hi: nat)
    requires forall p: nat :: lo <= p < hi ==> (IsSet(a, p) <==> IsSet(b, p))
    ensures Count(a, lo, hi) == Count(b, lo, hi)
    ensures Weight(a, lo, hi) == Weight(b, lo, hi)
    decreases hi - lo
  {
    if lo < hi {
      AgreeSameCount(a, b, lo + 1, hi);
    }
  }

  /** Setting one clear position in range adds one to the count and the position to the weight. */
  lemma {:induction false} SetBitCount(s: nat, i: nat, lo: nat, hi: nat)
    requires lo <= i < hi && !IsSet(s, i)
    ensures Count(SetBit(s, i), lo, hi) == Count(s, lo, hi) + 1
    ensures Weight(SetBit(s, i), lo, hi) == Weight(s, lo, hi) + i
    decreases hi - lo
  {
    if lo < i {
      SetBitCount(s, i, lo + 1, hi);
    } else {
      AgreeSameCount(SetBit(s, i), s, lo + 1, hi);
    }
  }

  /** A state with only positions in [lo, hi) set has its full count inside that window. */
  lemma {:induction false} CountExtend(s: nat, lo: nat, hi: nat, hi': nat)
    requires hi <= hi'
    requires forall p: nat :: hi <= p < hi' ==> !IsSet(s, p)
    ensures Count(s, lo, hi') == Count(s, lo, hi)
    ensures Weight(s, lo, hi') == Weight(s, lo, hi)
    decreases hi' - lo
  {
    if lo < hi' {
      CountExtend(s, lo + 1, hi, hi');
    }
  }
}
