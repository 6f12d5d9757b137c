/**
 * Siteswap.java: a throw sequence stored in canonical form, its validity,
 * the equality that puts all invalid sequences in one class, its hash and
 * the classification tests.
 */
module SiteswapModel {
  import opened Wrappers
  import opened Canonical
  import opened Utils
  import Arith
  import Lex

  // ---------------------------------------------------------------------
  // Specification functions on throw sequences
  // ---------------------------------------------------------------------

  /**
   * What Siteswap.equals decides for two stored sequences: both invalid, or
   * both valid with the same canonical form.
   */
  ghost predicate Same(s: seq<nat>, t: seq<nat>)
  {
    (!IsValidSeq(s) && !IsValidSeq(t)) || (IsValidSeq(s) && IsValidSeq(t) && Normal(s) == Normal(t))
  }

  /** The fold of Siteswap.hashCode: hc := (hc + 42) * x for each height in order. */
  function HashFold(s: seq<nat>): nat
  {
    if |s| == 0 then 0 else (HashFold(s[..|s| - 1]) + 42) * s[|s| - 1]
  }

  /** The throw after throw i, going round the end. */
  function Next(s: seq<nat>, i: nat): nat
    requires i < |s|
  {
    s[(i + 1) % |s|]
  }

  /** The throw before throw i, going round the start. */
  function Prev(s: seq<nat>, i: nat): nat
    requires i < |s|
  {
    s[(|s| + i - 1) % |s|]
  }

  /** A 1 immediately followed (cyclically) by a throw of 4 or more. */
  ghost predicate OneBeforeHigh(s: seq<nat>)
  {
    exists i :: 0 <= i < |s| && s[i] == 1 && Next(s, i) >= 4
  }

  /** Every throw of 4 or more comes (cyclically) right after a 1. */
  ghost predicate HighAfterOne(s: seq<nat>)
  {
    forall i :: 0 <= i < |s| && s[i] >= 4 ==> Prev(s, i) == 1
  }

  /** How often `x` occurs in `s`. */
  function CountOf(s: seq<nat>, x: nat): (r: nat)
    ensures r <= |s|
    ensures r == 0 <==> forall i :: 0 <= i < |s| ==> s[i] != x
  {
    if |s| == 0 then 0
    else
      var r := CountOf(s[..|s| - 1], x);
      assert forall i :: 0 <= i < |s| - 1 ==> s[..|s| - 1][i] == s[i];
      r + if s[|s| - 1] == x then 1 else 0
  }

  /** `d` is a positive divisor of `x`. */
  ghost predicate Divides(d: int, x: int)
  {
    d > 0 && x % d == 0
  }

  /** No common divisor but 1. */
  ghost predicate Coprime(a: nat, b: nat)
  {
    forall d :: Divides(d, a) && Divides(d, b) ==> d == 1
  }

  /**
   * Nikolaj Beluhov's class for a stored sequence of length n: odd and not a
   * multiple of 3, no 1s, every throw above 2 coprime with n, and fewer than
   * 2 (for n < 6) or 3 (for n >= 6) throws that are 0 or 2.
   */
  ghost predicate NikolajClass(s: seq<nat>)
  {
    var n := |s|;
    && n % 3 != 0 && n % 2 != 0
    && (forall i :: 0 <= i < n ==> s[i] != 1)
    && (forall i :: 0 <= i < n && s[i] > 2 ==> Coprime(s[i], n))
    && CountOf(s, 0) + CountOf(s, 2) < (if n < 6 then 2 else 3)
  }

  /** The sequence read backwards. */
  function Reverse(s: seq<nat>): (r: seq<nat>)
    ensures |r| == |s| && forall i :: 0 <= i < |s| ==> r[i] == s[|s| - 1 - i]
  {
    if |s| == 0 then [] else [s[|s| - 1]] + Reverse(s[..|s| - 1])
  }

  /** The decimal digits of n, as StringBuilder.append(int) writes them. */
  function Decimal(n: nat): (r: string)
    ensures |r| >= 1 && forall i :: 0 <= i < |r| ==> '0' <= r[i] <= '9'
    ensures n < 10 <==> |r| == 1
  {
    if n < 10 then [('0' as int + n) as char] else Decimal(n / 10) + [('0' as int + n % 10) as char]
  }

  /** The decimal renderings of the heights, one after another. */
  function DecimalAll(s: seq<nat>): string
  {
    if |s| == 0 then [] else DecimalAll(s[..|s| - 1]) + Decimal(s[|s| - 1])
  }

  // ---------------------------------------------------------------------
  // Lemmas about the specification
  // ---------------------------------------------------------------------

  lemma DividesDiff(d: int, a: int, b: int)
    requires Divides(d, a) && Divides(d, b)
    ensures Divides(d, a - b) && Divides(d, a + b)
  {
    assert a == (a / d) * d && b == (b / d) * d;
    assert a - b == (a / d - b / d) * d;
    assert a + b == (a / d + b / d) * d;
    Arith.ModAddMultiple(0, d, a / d - b / d);
    Arith.ModAddMultiple(0, d, a / d + b / d);
  }

  /** Stored sequences are canonical, so two valid instances are equal exactly when their stored sequences are. */
  lemma SameCanonical(a: seq<nat>, b: seq<nat>)
    ensures Same(Normal(a), Normal(b)) <==>
      (IsValidSeq(Normal(a)) <==> IsValidSeq(Normal(b))) && (IsValidSeq(Normal(a)) ==> Normal(a) == Normal(b))
  {
    NormalIdempotent(a);
    NormalIdempotent(b);
  }

  /** Siteswap.equals is an equivalence relation on stored sequences. */
  lemma SameEquivalence(s: seq<nat>, t: seq<nat>, u: seq<nat>)
    ensures Same(s, s)
    ensures Same(s, t) ==> Same(t, s)
    ensures Same(s, t) && Same(t, u) ==> Same(s, u)
  {
  }

  /** Two instances built from rotations of one sequence are equal. */
  lemma SameForRotations(a: seq<nat>, k: nat)
    requires k < |a|
    ensures Same(Normal(a), Normal(Rot(a, k)))
  {
    NormalRotation(a, k);
  }

  /** Equal valid instances have the same hash. */
  lemma HashAgreesOnValid(a: seq<nat>, b: seq<nat>)
    requires IsValidSeq(Normal(a)) && Same(Normal(a), Normal(b))
    ensures HashFold(Normal(a)) == HashFold(Normal(b))
  {
    SameCanonical(a, b);
  }

  /** 41 and 21 are both invalid, hence equal, yet hash to 210 and 126. */
  lemma HashDisagreesOnInvalid()
    ensures Normal([4, 1]) == [4, 1] && Normal([2, 1]) == [2, 1]
    ensures Same([4, 1], [2, 1])
    ensures HashFold([4, 1]) == 210 && HashFold([2, 1]) == 126
  {
    PairNormal(4, 1);
    PairNormal(2, 1);
    ValidExamples();
    TwoOneInvalid();
    PairHash(4, 1);
    PairHash(2, 1);
  }

  lemma TwoOneInvalid()
    ensures !IsValidSeq([2, 1])
  {
    assert [2, 1][..1] == [2] && [2][..0] == [];
    assert Sum([2, 1]) == 3;
  }

  lemma PairHash(x: nat, y: nat)
    ensures HashFold([x, y]) == (42 * x + 42) * y
  {
    assert HashFold([x]) == 42 * x by {
      assert [x][..0] == [];
    }
    assert [x, y][..1] == [x];
    assert HashFold([x, y]) == (HashFold([x]) + 42) * y;
  }

  /** A pair whose first throw is higher is its own canonical form. */
  lemma PairNormal(x: nat, y: nat)
    requires x > y
    ensures Normal([x, y]) == [x, y]
  {
    var a := [x, y];
    assert a[1] != a[1 % 1];
    assert !Periodic(a, 1);
    PeriodicWhole(a);
    assert MinPeriod(a) == 2;
    assert a[..2] == a;
    RotZero(a);
    assert Rot(a, 1) == [y, x] by {
      assert a[1..] + a[..1] == [y, x];
    }
    assert Lex.Cmp([y, x], [x, y]) == -1;
    assert BestShift(a, 2) == 0;
  }

  /**
   * The hash the source's equality calls for: equal instances share it,
   * because every invalid instance hashes to 0.
   */
  ghost function ConsistentHash(s: seq<nat>): nat
  {
    if IsValidSeq(s) then HashFold(s) else 0
  }

  lemma ConsistentHashAgrees(a: seq<nat>, b: seq<nat>)
    requires Same(Normal(a), Normal(b))
    ensures ConsistentHash(Normal(a)) == ConsistentHash(Normal(b))
  {
    SameCanonical(a, b);
  }

  /** Siteswap.gcd: subtraction until both arguments agree. */
  function Gcd(a: nat, b: nat): (g: nat)
    requires a > 0 && b > 0
    ensures Divides(g, a) && Divides(g, b)
    ensures forall d :: Divides(d, a) && Divides(d, b) ==> Divides(d, g)
    decreases a + b
  {
    if a == b then
      Arith.ModAddMultiple(0, a, 1);
      a
    else if a > b then
      var g := Gcd(b, a - b);
      DividesDiff(g, a - b, b);
      forall d | Divides(d, a) && Divides(d, b) ensures Divides(d, g) {
        DividesDiff(d, a, b);
      }
      g
    else
      var g := Gcd(a, b - a);
      DividesDiff(g, b - a, a);
      forall d | Divides(d, a) && Divides(d, b) ensures Divides(d, g) {
        DividesDiff(d, b, a);
      }
      g
  }

  /** The gcd is 1 exactly for coprime arguments. */
  lemma GcdOneCoprime(a: nat, b: nat)
    requires a > 0 && b > 0
    ensures Gcd(a, b) == 1 <==> Coprime(a, b)
  {
    var g := Gcd(a, b);
    if g == 1 {
      forall d | Divides(d, a) && Divides(d, b) ensures d == 1 {
        if d > 1 {
          Arith.ModSmall(1, d);
        }
      }
    }
    if Coprime(a, b) {
      assert Divides(g, a) && Divides(g, b);
    }
  }

  /** With heights below 10 the decimal rendering is the siteswap notation. */
  lemma {:induction false} DecimalIsNotation(s: seq<nat>)
    requires forall i :: 0 <= i < |s| ==> s[i] < 10
    ensures EncodeAll(s) == Some(DecimalAll(s))
  {
    if |s| > 0 {
      DecimalIsNotation(s[..|s| - 1]);
    }
  }

  /** 51 is its own canonical form, a valid siteswap, and in both Interesting classes. */
  lemma FiftyOne()
    ensures Normal([5, 1]) == [5, 1] && IsValidSeq([5, 1])
    ensures OneBeforeHigh([5, 1]) && HighAfterOne([5, 1])
  {
    PairNormal(5, 1);
    ValidExamples();
    var s := [5, 1];
    assert s[1] == 1 && Next(s, 1) >= 4;
    assert Prev(s, 0) == 1;
  }

  /** 3 is in Nikolaj Beluhov's class; 51, of even length, is not. */
  lemma NikolajExamples()
    ensures NikolajClass([3]) && !NikolajClass([5, 1])
  {
    GcdOneCoprime(3, 1);
    assert Gcd(3, 1) == 1;
    assert [3][..0] == [];
  }

  lemma SumThree(x: nat, y: nat, z: nat)
    ensures Sum([x, y, z]) == x + y + z
  {
    assert Sum([x]) == x by {
      assert [x][..0] == [];
    }
    assert Sum([x, y]) == x + y by {
      assert [x, y][..1] == [x];
    }
    assert [x, y, z][..2] == [x, y];
  }

  /** 531 is valid but its reverse 135 is not; 441 and its reverse 144 are both valid. */
  lemma ReverseExamples()
    ensures IsValidSeq([5, 3, 1]) && !IsValidSeq(Reverse([5, 3, 1]))
    ensures IsValidSeq([4, 4, 1]) && IsValidSeq(Reverse([4, 4, 1]))
  {
    assert Reverse([5, 3, 1]) == [1, 3, 5];
    assert Landing([1, 3, 5], 0) == Landing([1, 3, 5], 1);
    assert Reverse([4, 4, 1]) == [1, 4, 4];
    SumThree(5, 3, 1);
    SumThree(4, 4, 1);
    SumThree(1, 4, 4);
  }

  /** The loop of the Siteswap constructor that fills `pb`. */
  method PeriodBase(s: seq<nat>) returns (pb: seq<nat>)
    ensures |pb| == |s| && forall i :: 0 <= i < |s| ==> pb[i] == s[i] % |s|
  {
    var n := |s|;
    var base := new nat[n];
    for i := 0 to n
      invariant forall j :: 0 <= j < i ==> base[j] == s[j] % n
    {
      base[i] := s[i] % n;
    }
    return base[..];
  }

  // ---------------------------------------------------------------------
  // The class
  // ---------------------------------------------------------------------

  class Siteswap {
    /** The field `siteswap`: the canonical form of the constructor's argument. */
    const sequence: seq<nat>
    /** The field `pb` (period base): each height modulo the length. */
    const pb: seq<nat>
    const len: nat

    /** What every constructed instance satisfies: matching lengths and the period base. */
    ghost predicate Wellformed()
    {
      && len == |sequence| == |pb|
      && (forall i :: 0 <= i < len ==> pb[i] == sequence[i] % len)
    }

    /** The stored sequence is its own canonical form. */
    ghost predicate Canonical()
    {
      Normal(sequence) == sequence
    }

    /** Siteswap.sanityCheck: a non-empty sequence with matching lengths. */
    predicate SanityCheck()
    {
      |sequence| != 0 && |sequence| == |pb| && |sequence| == len
    }

    /** The instance is a valid siteswap. */
    ghost predicate ValidPattern()
    {
      SanityCheck() && IsValidSeq(sequence)
    }

    /** Siteswap(int[]): stores the canonical form and the period base. */
    constructor (a: seq<nat>)
      ensures sequence == Normal(a) && len == |sequence|
      ensures Wellformed() && Canonical()
    {
      var normalized := Normalize(a);
      NormalIdempotent(a);
      var base := PeriodBase(normalized);
      sequence := normalized;
      len := |normalized|;
      pb := base;
    }

    /** Siteswap(String): `None` where the source passes `null` on and fails with a NullPointerException. */
    static method FromString(str: string) returns (r: Option<Siteswap>)
      ensures r.None? <==> DecodeAll(str).None?
      ensures r.Some? ==> fresh(r.value) && r.value.Wellformed() && r.value.Canonical() && r.value.sequence == Normal(DecodeAll(str).value)
    {
      var a := StringToArray(str);
      if a.None? {
        return None;
      }
      var s := new Siteswap(a.value);
      return Some(s);
    }

    /** Under the constructor's guarantees the sanity check only rules out the empty sequence. */
    lemma SanityMeansNonEmpty()
      requires Wellformed()
      ensures SanityCheck() <==> len > 0
    {
    }

    /** Siteswap.isValid. */
    method IsValid() returns (b: bool)
      ensures b == ValidPattern()
    {
      if !SanityCheck() {
        return false;
      }
      b := Utils.IsValid(sequence);
    }

    /**
     * Siteswap.getSequence: the stored sequence. For a constructed instance
     * it has no shorter period and is its own greatest rotation.
     */
    function GetSequence(): (r: seq<nat>)
      ensures r == sequence
      ensures Canonical() ==> MinPeriod(r) == |r|
      ensures Canonical() ==> forall j :: 0 <= j < |r| ==> Lex.Cmp(r, Rot(r, j)) >= 0
    {
      assert sequence[..|sequence|] == sequence;
      sequence
    }

    /** Siteswap.equals: `null` is never equal; invalid instances are all equal; valid ones compare canonical forms. */
    method Equals(o: Siteswap?) returns (b: bool)
      requires Wellformed() && Canonical() && (o != null ==> o.Wellformed() && o.Canonical())
      ensures b <==> o != null && Same(sequence, o.sequence)
      ensures b <==> o != null && (ValidPattern() <==> o.ValidPattern()) && (ValidPattern() ==> sequence == o.sequence)
    {
      if o == null {
        return false;
      }
      var v := IsValid();
      var w := o.IsValid();
      if !v && !w {
        return true;
      }
      if !v && w {
        return false;
      }
      if v && !w {
        return false;
      }
      var x := Normalize(sequence);
      var y := Normalize(o.GetSequence());
      return x == y;
    }

    /** Siteswap.hashCode: folds the stored sequence, whether or not it is valid. */
    method HashCode() returns (hc: nat)
      ensures hc == HashFold(sequence)
    {
      hc := 0;
      for i := 0 to |sequence|
        invariant hc == HashFold(sequence[..i])
      {
        assert sequence[..i + 1][..i] == sequence[..i];
        hc := hc + 42;
        hc := hc * sequence[i];
      }
      assert sequence[..|sequence|] == sequence;
    }

    /** Siteswap.isInteresting1: valid, and some 1 is followed by a throw of 4 or more. */
    method IsInteresting1() returns (b: bool)
      requires Wellformed()
      ensures b <==> ValidPattern() && OneBeforeHigh(sequence)
    {
      var v := IsValid();
      if !v {
        return false;
      }
      for i := 0 to len
        invariant forall j :: 0 <= j < i ==> !(sequence[j] == 1 && Next(sequence, j) >= 4)
      {
        if sequence[i] == 1 && sequence[(i + 1) % len] >= 4 {
          assert Next(sequence, i) >= 4;
          return true;
        }
      }
      return false;
    }

    /** Siteswap.isInteresting2: valid, and every throw of 4 or more follows a 1. */
    method IsInteresting2() returns (b: bool)
      requires Wellformed()
      ensures b <==> ValidPattern() && HighAfterOne(sequence)
    {
      var v := IsValid();
      if !v {
        return false;
      }
      for i := 0 to len
        invariant forall j :: 0 <= j < i && sequence[j] >= 4 ==> Prev(sequence, j) == 1
      {
        if sequence[i] >= 4 && sequence[(len + i - 1) % len] != 1 {
          assert Prev(sequence, i) != 1;
          return false;
        }
      }
      return true;
    }

    /** Siteswap.isReverseValid: only the sanity check, then validity of the reversed sequence. */
    method IsReverseValid() returns (b: bool)
      requires Wellformed()
      ensures b <==> SanityCheck() && IsValidSeq(Reverse(sequence))
    {
      if !SanityCheck() {
        return false;
      }
      var reverse := new nat[len];
      for i := 0 to len
        invariant forall j :: 0 <= j < i ==> reverse[j] == sequence[len - j - 1]
      {
        reverse[i] := sequence[len - i - 1];
      }
      assert reverse[..] == Reverse(sequence);
      b := Utils.IsValid(reverse[..]);
    }

    /** Siteswap.contains: the sanity check holds and `x` occurs. */
    method Contains(x: int) returns (b: bool)
      ensures b <==> SanityCheck() && exists i :: 0 <= i < |sequence| && sequence[i] == x
    {
      if !SanityCheck() {
        return false;
      }
      for i := 0 to len
        invariant forall j :: 0 <= j < i ==> sequence[j] != x
      {
        if sequence[i] == x {
          return true;
        }
      }
      return false;
    }

    /** Siteswap.isInterestingNikolaj: valid and in Nikolaj Beluhov's class. */
    method IsInterestingNikolaj() returns (b: bool)
      requires Wellformed()
      ensures b <==> ValidPattern() && NikolajClass(sequence)
    {
      var v := IsValid();
      if !v {
        return false;
      }
      if len % 3 == 0 || len % 2 == 0 {
        return false;
      }
      var one := Contains(1);
      if one {
        return false;
      }
      var coprime, zerosAndTwos := ScanNikolaj();
      if !coprime {
        return false;
      }
      if (len < 6 && zerosAndTwos >= 2) || (len >= 6 && zerosAndTwos >= 3) {
        return false;
      }
      return true;
    }

    /**
     * The loop of isInterestingNikolaj: every throw above 2 must be coprime
     * with the length (the loop stops at the first that is not), and the
     * throws 0 and 2 are counted.
     */
    method ScanNikolaj() returns (coprime: bool, zerosAndTwos: nat)
      requires len == |sequence| && len > 0
      ensures coprime <==> forall j :: 0 <= j < len && sequence[j] > 2 ==> Coprime(sequence[j], len)
      ensures coprime ==> zerosAndTwos == CountOf(sequence, 0) + CountOf(sequence, 2)
    {
      var count0 := 0;
      var count2 := 0;
      for i := 0 to len
        invariant count0 == CountOf(sequence[..i], 0) && count2 == CountOf(sequence[..i], 2)
        invariant forall j :: 0 <= j < i && sequence[j] > 2 ==> Coprime(sequence[j], len)
      {
        assert sequence[..i + 1][..i] == sequence[..i];
        if sequence[i] > 2 && Gcd(sequence[i], len) != 1 {
          GcdOneCoprime(sequence[i], len);
          return false, 0;
        }
        if sequence[i] > 2 {
          GcdOneCoprime(sequence[i], len);
        }
        if sequence[i] == 0 {
          count0 := count0 + 1;
        }
        if sequence[i] == 2 {
          count2 := count2 + 1;
        }
      }
      assert sequence[..len] == sequence;
      return true, count0 + count2;
    }

    /** Siteswap.toString: "" for an invalid instance, otherwise each height in decimal. */
    method ToString() returns (str: string)
      ensures str == if ValidPattern() then DecimalAll(sequence) else ""
    {
      var v := IsValid();
      if !v {
        return "";
      }
      var sb: string := "";
      for i := 0 to len
        invariant sb == DecimalAll(sequence[..i])
      {
        assert sequence[..i + 1][..i] == sequence[..i];
        sb := sb + Decimal(sequence[i]);
      }
      assert sequence[..len] == sequence;
      return sb;
    }
  }
}
