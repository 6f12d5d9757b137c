/**
 * Lexicographic order on equal-length sequences of throw heights.  The
 * canonical rotation of a pattern and the order in which the generator
 * visits walks are both stated with it.
 */
module Lex {

  /** Three-way comparison: 1 when `x` is lexicographically greater, 0 when equal, -1 when smaller. */
  function Cmp(x: seq<nat>, y: seq<nat>): (r: int)
    requires |x| == |y|
    ensures -1 <= r <= 1
    ensures r == 0 <==> x == y
  {
    if |x| == 0 then 0
    else if x[0] > y[0] then 1
    else if x[0] < y[0] then -1
    else
      var r := Cmp(x[1..], y[1..]);
      assert x == [x[0]] + x[1..] && y == [y[0]] + y[1..];
      r
  }

  /** A common prefix does not take part in the comparison. */
  lemma {:induction false} CmpPrefix(x: seq<nat>, y: seq<nat>, i: nat)
    requires |x| == |y| && i <= |x|
    requires x[..i] == y[..i]
    ensures Cmp(x, y) == Cmp(x[i..], y[i..])
  {
    if i > 0 {
      assert x[0] == x[..i][0] && y[0] == y[..i][0];
      assert x[1..][..i - 1] == x[1..i] == y[1..][..i - 1];
      CmpPrefix(x[1..], y[1..], i - 1);
      assert x[1..][i - 1..] == x[i..] && y[1..][i - 1..] == y[i..];
    }
  }

  /** The first differing position decides the comparison. */
  lemma CmpAt(x: seq<nat>, y: seq<nat>, i: nat)
    requires |x| == |y| && i < |x|
    requires x[..i] == y[..i] && x[i] != y[i]
    ensures Cmp(x, y) == if x[i] > y[i] then 1 else -1
  {
    CmpPrefix(x, y, i);
    assert x[i..][0] == x[i] && y[i..][0] == y[i];
  }

  /** A non-zero comparison has a first differing position that decides it. */
  lemma {:induction false} CmpWitness(x: seq<nat>, y: seq<nat>) returns (i: nat)
    requires |x| == |y| && x != y
    ensures i < |x| && x[..i] == y[..i] && x[i] != y[i]
    ensures Cmp(x, y) == if x[i] > y[i] then 1 else -1
  {
    if x[0] != y[0] {
      i := 0;
    } else {
      assert x == [x[0]] + x[1..] && y == [y[0]] + y[1..];
      var j := CmpWitness(x[1..], y[1..]);
      i := j + 1;
      assert x[..i] == [x[0]] + x[1..][..j];
      assert y[..i] == [y[0]] + y[1..][..j];
    }
  }

  /** Swapping the arguments negates the answer. */
  lemma {:induction false} CmpAntisym(x: seq<nat>, y: seq<nat>)
    requires |x| == |y|
    ensures Cmp(y, x) == -Cmp(x, y)
  {
    if |x| > 0 && x[0] == y[0] {
      CmpAntisym(x[1..], y[1..]);
    }
  }

  /** The order is transitive, and strict as soon as one step is strict. */
  lemma {:induction false} CmpTrans(x: seq<nat>, y: seq<nat>, z: seq<nat>)
    requires |x| == |y| == |z|
    requires Cmp(x, y) >= 0 && Cmp(y, z) >= 0
    ensures Cmp(x, z) >= 0
    ensures Cmp(x, y) == 1 || Cmp(y, z) == 1 ==> Cmp(x, z) == 1
  {
    if |x| > 0 && x[0] == y[0] && y[0] == z[0] {
      CmpTrans(x[1..], y[1..], z[1..]);
    }
  }

  /** Comparing concatenations: the first halves decide unless they are equal. */
  lemma CmpConcat(x: seq<nat>, u: seq<nat>, y: seq<nat>, v: seq<nat>)
    requires |x| == |y| && |u| == |v|
    ensures Cmp(x + u, y + v) == if x == y then Cmp(u, v) else Cmp(x, y)
  {
    if x == y {
      assert (x + u)[..|x|] == (y + v)[..|x|];
      CmpPrefix(x + u, y + v, |x|);
      assert (x + u)[|x|..] == u && (y + v)[|x|..] == v;
    } else {
      var i := CmpWitness(x, y);
      assert (x + u)[..i] == x[..i] && (y + v)[..i] == y[..i];
      CmpAt(x + u, y + v, i);
    }
  }

  /** `x` beats `y` at position d; a `z` that agrees with `y` beyond d is beaten at d too. */
  lemma CmpAgreeingPrefix(x: seq<nat>, y: seq<nat>, z: seq<nat>, d: nat, e: nat)
    requires |x| == |y| == |z| && d < e <= |y|
    requires x[..d] == y[..d] && x[d] > y[d] && z[..e] == y[..e]
    ensures Cmp(x, z) == 1
  {
    assert z[..d] == z[..e][..d];
    assert y[..d] == y[..e][..d];
    assert z[d] == z[..e][d];
    assert y[d] == y[..e][d];
    CmpAt(x, z, d);
  }
}
