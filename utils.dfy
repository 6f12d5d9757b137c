/**
 * Utils.java: the 36-symbol siteswap alphabet, the canonical form of a
 * throw sequence and the vanilla-siteswap validity test.  Throw heights are
 * naturals; Java `null` results are `None`.
 */
module Utils {
  import opened Wrappers
  import opened Lex
  import opened Canonical
  import Arith

  // ---------------------------------------------------------------------
  // The alphabet 0-9, a-z (A-Z read as a-z)
  // ---------------------------------------------------------------------

  predicate IsSymbol(c: char)
  {
    '0' <= c <= '9' || 'a' <= c <= 'z' || 'A' <= c <= 'Z'
  }

  /** Utils.charToInt: `None` is the "not allowed char" exception. */
  function CharToInt(c: char): (r: Option<nat>)
    ensures r.Some? <==> IsSymbol(c)
    ensures r.Some? ==> r.value < 36
    ensures r.Some? ==> (r.value < 10 <==> '0' <= c <= '9')
  {
    if '0' <= c <= '9' then Some(c as int - '0' as int)
    else if 'a' <= c <= 'z' then Some(c as int - 'a' as int + 10)
    else if 'A' <= c <= 'Z' then Some(c as int - 'A' as int + 10)
    else None
  }

  /**
   * Utils.intToChar as written: the digit branch stops at 8, so 9 falls into
   * the letter branch and is sent to the character before 'a'.
   */
  function IntToChar(i: int): (r: Option<char>)
    ensures r.Some? <==> 0 <= i <= 35
  {
    if i < 0 || i > 35 then None
    else if i < 9 then Some(('0' as int + i) as char)
    else Some(('a' as int + i - 10) as char)
  }

  /** Every height other than 9 survives the round trip through IntToChar. */
  lemma IntToCharRoundTrip(i: int)
    requires 0 <= i <= 35 && i != 9
    ensures CharToInt(IntToChar(i).value) == Some(i)
  {
  }

  /** Height 9 is encoded as '`', which the decoder rejects. */
  lemma IntToCharNine()
    ensures IntToChar(9) == Some('`')
    ensures CharToInt(IntToChar(9).value) == None
  {
  }

  /** The encoder as documented: digits for 0..9, lower-case letters for 10..35. */
  function EncodeHeight(i: int): (r: Option<char>)
    ensures r.Some? <==> 0 <= i <= 35
  {
    if i < 0 || i > 35 then None
    else if i < 10 then Some(('0' as int + i) as char)
    else Some(('a' as int + i - 10) as char)
  }

  /** Every height 0..35 survives the round trip, and every digit or lower-case letter is re-encoded as itself. */
  lemma EncodeHeightRoundTrip(i: int, c: char)
    ensures 0 <= i <= 35 ==> CharToInt(EncodeHeight(i).value) == Some(i)
    ensures ('0' <= c <= '9' || 'a' <= c <= 'z') ==> EncodeHeight(CharToInt(c).value) == Some(c)
  {
  }

  /** The symbols for a whole sequence; `None` as soon as one height is outside 0..35. */
  function EncodeAll(s: seq<int>): (r: Option<string>)
    ensures r.Some? <==> forall i :: 0 <= i < |s| ==> 0 <= s[i] <= 35
    ensures r.Some? ==> |r.value| == |s|
  {
    if |s| == 0 then Some([])
    else
      var last := EncodeHeight(s[|s| - 1]);
      var init := EncodeAll(s[..|s| - 1]);
      if last.None? || init.None? then None else Some(init.value + [last.value])
  }

  /** The heights of a string of symbols; `None` as soon as one character is not a symbol. */
  function DecodeChars(str: string): (r: Option<seq<nat>>)
    ensures r.Some? <==> forall i :: 0 <= i < |str| ==> IsSymbol(str[i])
    ensures r.Some? ==> |r.value| == |str| && forall i :: 0 <= i < |str| ==> CharToInt(str[i]) == Some(r.value[i])
  {
    if |str| == 0 then Some([])
    else
      var last := CharToInt(str[|str| - 1]);
      var init := DecodeChars(str[..|str| - 1]);
      if last.None? || init.None? then None else Some(init.value + [last.value])
  }

  /** What Utils.stringToArray returns: `None` for the empty string too. */
  function DecodeAll(str: string): (r: Option<seq<nat>>)
  {
    if |str| == 0 then None else DecodeChars(str)
  }

  /** Utils.arrayToString: one symbol per height, `None` when a height has no symbol. */
  method ArrayToString(s: seq<int>) returns (r: Option<string>)
    ensures r == EncodeAll(s)
    ensures r.None? <==> exists i :: 0 <= i < |s| && !(0 <= s[i] <= 35)
  {
    var sb: string := [];
    for i := 0 to |s|
      invariant EncodeAll(s[..i]) == Some(sb)
    {
      assert s[..i + 1][..i] == s[..i];
      var c := EncodeHeight(s[i]);
      if c.None? {
        assert EncodeAll(s[..i + 1]) == None;
        assert s[..i + 1][i] == s[i];
        return None;
      }
      sb := sb + [c.value];
    }
    assert s[..|s|] == s;
    return Some(sb);
  }

  /** A negative height has no symbol, so arrayToString answers null as soon as one occurs. */
  lemma NegativeHeightUnencoded(s: seq<int>, i: nat)
    requires i < |s| && s[i] < 0
    ensures EncodeAll(s) == None
  {
  }

  /** Utils.stringToArray: `None` for the empty string and for a character outside the alphabet. */
  method StringToArray(str: string) returns (r: Option<seq<nat>>)
    ensures r == DecodeAll(str)
    ensures r.None? <==> |str| == 0 || exists i :: 0 <= i < |str| && !IsSymbol(str[i])
    ensures r.Some? ==> |r.value| == |str| && forall i :: 0 <= i < |str| ==> CharToInt(str[i]) == Some(r.value[i])
  {
    if |str| == 0 {
      return None;
    }
    var ret := new nat[|str|];
    for i := 0 to |str|
      invariant DecodeChars(str[..i]) == Some(ret[..i])
    {
      assert str[..i + 1][..i] == str[..i];
      var v := CharToInt(str[i]);
      if v.None? {
        assert str[..i + 1][i] == str[i];
        assert DecodeChars(str[..i + 1]) == None;
        return None;
      }
      ret[i] := v.value;
      assert ret[..i + 1] == ret[..i] + [v.value];
    }
    assert str[..|str|] == str && ret[..] == ret[..|str|];
    return Some(ret[..]);
  }

  /** Writing a non-empty sequence of heights 0..35 and reading it back gives the sequence. */
  lemma {:induction false} CodecRoundTrip(s: seq<nat>)
    requires forall i :: 0 <= i < |s| ==> s[i] <= 35
    ensures EncodeAll(s).Some?
    ensures DecodeChars(EncodeAll(s).value) == Some(s)
    ensures |s| > 0 ==> DecodeAll(EncodeAll(s).value) == Some(s)
  {
    if |s| > 0 {
      var init := s[..|s| - 1];
      CodecRoundTrip(init);
      var str := EncodeAll(s).value;
      EncodeHeightRoundTrip(s[|s| - 1], ' ');
      assert str[..|str| - 1] == EncodeAll(init).value;
      assert s == init + [s[|s| - 1]];
    }
  }

  // ---------------------------------------------------------------------
  // Canonical form
  // ---------------------------------------------------------------------

  /** Utils.compare_shift: how the rotations by s1 and by s2 compare. */
  method CompareShift(a: seq<nat>, s1: nat, s2: nat) returns (r: int)
    requires s1 < |a| && s2 < |a|
    ensures r == Cmp(Rot(a, s1), Rot(a, s2))
  {
    var len := |a|;
    ghost var x, y := Rot(a, s1), Rot(a, s2);
    var i := 0;
    while i < len
      invariant 0 <= i <= len
      invariant x[..i] == y[..i]
    {
      if a[(i + s1) % len] > a[(i + s2) % len] {
        CmpAt(x, y, i);
        return 1;
      } else if a[(i + s1) % len] < a[(i + s2) % len] {
        CmpAt(x, y, i);
        return -1;
      }
      assert x[..i + 1] == x[..i] + [x[i]] && y[..i + 1] == y[..i] + [y[i]];
      i := i + 1;
    }
    assert x == x[..len] && y == y[..len];
    return 0;
  }

  /** Utils.order: the greatest rotation, the earliest shift winning ties. */
  method Order(a: seq<nat>) returns (r: seq<nat>)
    ensures r == MaxRot(a)
  {
    var bestShift := ScanShifts(a);
    if bestShift == 0 {
      if |a| > 0 {
        RotZero(a);
      }
      return a;
    }
    r := Rotated(a, bestShift);
  }

  /** The loop of Utils.order: a shift replaces the best so far only when its rotation is strictly greater. */
  method ScanShifts(a: seq<nat>) returns (bestShift: nat)
    ensures |a| == 0 ==> bestShift == 0
    ensures |a| > 0 ==> bestShift == BestShift(a, |a|)
  {
    bestShift := 0;
    var len := |a|;
    var i := 1;
    while i < len
      invariant 1 <= i <= if len == 0 then 1 else len
      invariant bestShift < i
      invariant len > 0 ==> bestShift == BestShift(a, i)
    {
      var c := CompareShift(a, i, bestShift);
      assert BestShift(a, i + 1) == if c == 1 then i else bestShift;
      if c == 1 {
        bestShift := i;
      }
      i := i + 1;
    }
  }

  /** The copy at the end of Utils.order: position i takes a[(i + k) % len]. */
  method Rotated(a: seq<nat>, k: nat) returns (r: seq<nat>)
    requires k < |a|
    ensures r == Rot(a, k)
  {
    var len := |a|;
    ghost var rot := Rot(a, k);
    var aa := new nat[len];
    for i := 0 to len
      invariant aa[..i] == rot[..i]
    {
      aa[i] := a[(i + k) % len];
      assert aa[..i + 1] == rot[..i] + [rot[i]];
    }
    assert aa[..] == aa[..len];
    return aa[..];
  }

  /** Position j agrees with the same position k blocks of length i further on (cyclically, as the source indexes). */
  ghost predicate BlockAgrees(a: seq<nat>, i: nat, j: nat, k: nat)
  {
    |a| > 0 && j < |a| && a[j] == a[(j + i * k) % |a|]
  }

  /** A disagreement rules out period i. */
  lemma MismatchNotPeriodic(a: seq<nat>, i: nat, j: nat, k: nat)
    requires 0 < i && |a| % i == 0 && j < i && 1 <= k < |a| / i
    requires !BlockAgrees(a, i, j, k)
    ensures !Periodic(a, i)
  {
    var len := |a|;
    var m := j + i * k;
    Arith.BlockBound(i, len / i, j, k);
    assert i * (len / i) == len by {
      assert len == (len / i) * i + len % i;
    }
    Arith.ModSmall(m, len);
    Arith.ModAddMultiple(j, i, k);
    Arith.ModSmall(j, i);
    assert m < len && m % i == j && a[m] != a[j];
  }

  /** Agreement of every position of the first block with every later block is period i. */
  lemma AgreementPeriodic(a: seq<nat>, i: nat)
    requires 0 < i < |a| && |a| % i == 0
    requires forall j, k :: 0 <= j < i && 1 <= k < |a| / i ==> BlockAgrees(a, i, j, k)
    ensures Periodic(a, i)
  {
    var len := |a|;
    var q := len / i;
    forall m | 0 <= m < len
      ensures a[m] == a[m % i]
    {
      var j, k := Arith.BlockOf(m, i, len);
      if k >= 1 {
        assert BlockAgrees(a, i, j, k);
        Arith.ModSmall(m, len);
      }
    }
  }

  /**
   * The block check inside Utils.normalize: compares every position of the
   * first block of length i with the same position in each later block,
   * leaving both loops at the first disagreement.
   */
  method CannotBeCut(a: seq<nat>, i: nat) returns (cannotBeCut: bool)
    requires 0 < i < |a| && |a| % i == 0
    ensures cannotBeCut == !Periodic(a, i)
  {
    var len := |a|;
    cannotBeCut := false;
    var j := 0;
    while j < i
      invariant 0 <= j <= i
      invariant !cannotBeCut
      invariant forall jj, kk :: 0 <= jj < j && 1 <= kk < len / i ==> BlockAgrees(a, i, jj, kk)
    {
      var k := 1;
      while k < len / i
        invariant 1 <= k
        invariant forall kk :: 1 <= kk < k ==> BlockAgrees(a, i, j, kk)
      {
        if a[j] != a[(j + i * k) % len] {
          MismatchNotPeriodic(a, i, j, k);
          cannotBeCut := true;
          break;
        }
        k := k + 1;
      }
      if cannotBeCut {
        break;
      }
      j := j + 1;
    }
    if !cannotBeCut {
      AgreementPeriodic(a, i);
    }
  }

  /**
   * Utils.normalize: the first divisor i of the length whose first block
   * repeats throughout, its block ordered; the whole sequence ordered when
   * there is none.
   */
  method Normalize(a: seq<nat>) returns (r: seq<nat>)
    ensures r == Normal(a)
  {
    var len := |a|;
    var i := 1;
    while i < len
      invariant 1 <= i
      invariant len > 0 ==> i <= len
      invariant forall e :: 0 < e < i ==> !Periodic(a, e)
    {
      if len % i == 0 {
        var cannotBeCut := CannotBeCut(a, i);
        if !cannotBeCut {
          assert MinPeriod(a) == i;
          var aa := new nat[i];
          for j := 0 to i
            invariant aa[..j] == a[..j]
          {
            aa[j] := a[j];
          }
          assert aa[..] == aa[..i];
          r := Order(aa[..]);
          return;
        }
      }
      i := i + 1;
    }
    assert a[..MinPeriod(a)] == a;
    r := Order(a);
  }

  // ---------------------------------------------------------------------
  // Validity
  // ---------------------------------------------------------------------

  function Sum(s: seq<nat>): (r: nat)
    ensures |s| > 0 ==> r >= s[|s| - 1]
  {
    if |s| == 0 then 0 else Sum(s[..|s| - 1]) + s[|s| - 1]
  }

  /** The beat, modulo the period, on which the throw made at beat i lands. */
  function Landing(s: seq<nat>, i: nat): nat
    requires i < |s|
  {
    (i + s[i]) % |s|
  }

  /**
   * A vanilla siteswap: non-empty, average throw height a whole number
   * (the number of balls), and no two throws landing on the same beat.
   */
  ghost predicate IsValidSeq(s: seq<nat>)
  {
    && |s| > 0
    && Sum(s) % |s| == 0
    && forall i, j :: 0 <= i < j < |s| ==> Landing(s, i) != Landing(s, j)
  }

  /** How many of the first n throws land on beat x. */
  function Hits(s: seq<nat>, n: nat, x: nat): nat
    requires n <= |s|
  {
    if n == 0 then 0 else Hits(s, n - 1, x) + (if Landing(s, n - 1) == x then 1 else 0)
  }

  lemma {:induction false} HitsOne(s: seq<nat>, n: nat, i: nat)
    requires i < n <= |s|
    ensures Hits(s, n, Landing(s, i)) >= 1
  {
    if i < n - 1 {
      HitsOne(s, n - 1, i);
    }
  }

  /** Two throws landing together make two hits on their beat. */
  lemma {:induction false} HitsTwo(s: seq<nat>, n: nat, i: nat, j: nat)
    requires i < j < n <= |s| && Landing(s, i) == Landing(s, j)
    ensures Hits(s, n, Landing(s, i)) >= 2
  {
    if j == n - 1 {
      HitsOne(s, n - 1, i);
    } else {
      HitsTwo(s, n - 1, i, j);
    }
  }

  lemma {:induction false} HitsWitnessOne(s: seq<nat>, n: nat, x: nat) returns (i: nat)
    requires n <= |s| && Hits(s, n, x) >= 1
    ensures i < n && Landing(s, i) == x
  {
    if Landing(s, n - 1) == x {
      i := n - 1;
    } else {
      i := HitsWitnessOne(s, n - 1, x);
    }
  }

  /** Two hits on a beat come from two throws landing together. */
  lemma {:induction false} HitsWitnessTwo(s: seq<nat>, n: nat, x: nat) returns (i: nat, j: nat)
    requires n <= |s| && Hits(s, n, x) >= 2
    ensures i < j < n && Landing(s, i) == x && Landing(s, j) == x
  {
    if Landing(s, n - 1) == x {
      i := HitsWitnessOne(s, n - 1, x);
      j := n - 1;
    } else {
      i, j := HitsWitnessTwo(s, n - 1, x);
    }
  }

  /** Utils.isValid: sums the heights and counts the landings per beat in an array. */
  method IsValid(s: seq<nat>) returns (b: bool)
    ensures b == IsValidSeq(s)
  {
    if |s| == 0 {
      return false;
    }
    var len := |s|;
    var sum := 0;
    var landing := new nat[len](_ => 0);
    for i := 0 to len
      invariant sum == Sum(s[..i])
      invariant forall x :: 0 <= x < len ==> landing[x] == Hits(s, i, x)
    {
      assert s[..i + 1][..i] == s[..i];
      sum := sum + s[i];
      landing[(i + s[i]) % len] := landing[(i + s[i]) % len] + 1;
    }
    assert s[..len] == s;
    if sum % len != 0 {
      return false;
    }
    for i := 0 to len
      invariant forall x :: 0 <= x < i ==> landing[x] <= 1
    {
      if landing[i] > 1 {
        var p, q := HitsWitnessTwo(s, len, i);
        return false;
      }
    }
    forall p, q | 0 <= p < q < len
      ensures Landing(s, p) != Landing(s, q)
    {
      if Landing(s, p) == Landing(s, q) {
        HitsTwo(s, len, p, q);
      }
    }
    return true;
  }

  lemma {:induction false} SumConcat(x: seq<nat>, y: seq<nat>)
    ensures Sum(x + y) == Sum(x) + Sum(y)
  {
    if |y| > 0 {
      assert (x + y)[..|x + y| - 1] == x + y[..|y| - 1];
      SumConcat(x, y[..|y| - 1]);
    } else {
      assert x + y == x;
    }
  }

  /** The shift by k sends distinct beats to distinct beats. */
  lemma ShiftInjective(i: nat, j: nat, k: nat, n: nat)
    requires i < n && j < n && (i + k) % n == (j + k) % n
    ensures i == j
  {
    Arith.ModShift(i + k, j + k, n - k % n, n);
    Arith.ModAdd(k, i + n, n);
    Arith.ModAdd(k, j + n, n);
    Arith.ModAddMultiple(i, n, 1);
    Arith.ModAddMultiple(j, n, 1);
    Arith.ModSmall(i, n);
    Arith.ModSmall(j, n);
    assert (i + k) + (n - k % n) == (i + n) + (k - k % n);
    assert k - k % n == (k / n) * n;
    Arith.ModAddMultiple(i + n, n, k / n);
    Arith.ModAddMultiple(j + n, n, k / n);
    assert (j + k) + (n - k % n) == (j + n) + (k - k % n);
  }

  /** A throw of the rotated pattern lands where its original lands, shifted back by k. */
  lemma RotLanding(s: seq<nat>, k: nat, i: nat)
    requires k < |s| && i < |s|
    ensures (Landing(Rot(s, k), i) + k) % |s| == Landing(s, (i + k) % |s|)
  {
    var n := |s|;
    var v := s[(i + k) % n];
    assert Rot(s, k)[i] == v;
    Arith.ModAddSwap(i, v, k, n);
  }

  lemma RotCollisionFree(s: seq<nat>, k: nat)
    requires k < |s|
    requires forall i, j :: 0 <= i < j < |s| ==> Landing(s, i) != Landing(s, j)
    ensures forall i, j :: 0 <= i < j < |s| ==> Landing(Rot(s, k), i) != Landing(Rot(s, k), j)
  {
    var n := |s|;
    var r := Rot(s, k);
    forall i, j | 0 <= i < j < n
      ensures Landing(r, i) != Landing(r, j)
    {
      RotLanding(s, k, i);
      RotLanding(s, k, j);
      var i', j' := (i + k) % n, (j + k) % n;
      if i' == j' {
        ShiftInjective(i, j, k, n);
      }
      if i' < j' {
        assert Landing(s, i') != Landing(s, j');
      } else {
        assert Landing(s, j') != Landing(s, i');
      }
    }
  }

  lemma RotValidOneWay(s: seq<nat>, k: nat)
    requires k < |s| && IsValidSeq(s)
    ensures IsValidSeq(Rot(s, k))
  {
    assert s == s[..k] + s[k..];
    RotSplit(s, k);
    SumConcat(s[..k], s[k..]);
    SumConcat(s[k..], s[..k]);
    RotCollisionFree(s, k);
  }

  /** Validity does not depend on where the pattern starts. */
  lemma ValidRotation(s: seq<nat>, k: nat)
    requires k < |s|
    ensures IsValidSeq(Rot(s, k)) <==> IsValidSeq(s)
  {
    if IsValidSeq(s) {
      RotValidOneWay(s, k);
    }
    if IsValidSeq(Rot(s, k)) {
      RotBack(s, k);
      RotValidOneWay(Rot(s, k), (|s| - k) % |s|);
    }
  }

  /** A sequence with no shorter period has a canonical form that is valid exactly when it is. */
  lemma NormalValid(a: seq<nat>)
    requires |a| > 0 && MinPeriod(a) == |a|
    ensures IsValidSeq(Normal(a)) <==> IsValidSeq(a)
  {
    assert a[..MinPeriod(a)] == a;
    ValidRotation(a, BestShift(a, |a|));
  }

  /** The documented normalization examples: 333 becomes 3 and 144144 becomes 441. */
  lemma NormalExamples()
    ensures Normal([3, 3, 3]) == [3]
    ensures Normal([1, 4, 4, 1, 4, 4]) == [4, 4, 1]
  {
    NormalThree();
    NormalSix();
  }

  lemma NormalThree()
    ensures Normal([3, 3, 3]) == [3]
  {
    var a := [3, 3, 3];
    assert a[0] == a[0 % 1] && a[1] == a[1 % 1] && a[2] == a[2 % 1];
    assert Periodic(a, 1);
    assert MinPeriod(a) == 1;
    assert a[..1] == [3];
    RotZero([3]);
  }

  lemma NormalSix()
    ensures Normal([1, 4, 4, 1, 4, 4]) == [4, 4, 1]
  {
    var b := [1, 4, 4, 1, 4, 4];
    assert b[1] != b[1 % 1];
    assert b[2] != b[2 % 2];
    assert b[3] == b[3 % 3] && b[4] == b[4 % 3] && b[5] == b[5 % 3];
    assert Periodic(b, 3);
    assert MinPeriod(b) == 3;
    var p := b[..3];
    assert p == [1, 4, 4];
    RotZero(p);
    RotExamples();
    assert Cmp([4, 4, 1], [1, 4, 4]) == 1;
    assert Cmp([4, 1, 4], [4, 4, 1]) == -1;
    assert BestShift(p, 2) == 1;
    assert BestShift(p, 3) == 1;
  }

  lemma RotExamples()
    ensures Rot([1, 4, 4], 1) == [4, 4, 1] && Rot([1, 4, 4], 2) == [4, 1, 4]
  {
    assert [1, 4, 4][1..] + [1, 4, 4][..1] == [4, 4, 1];
    assert [1, 4, 4][2..] + [1, 4, 4][..2] == [4, 1, 4];
  }

  /** The documented validity examples: 3 and 51 are siteswaps, 41 is not. */
  lemma ValidExamples()
    ensures IsValidSeq([3]) && IsValidSeq([5, 1]) && !IsValidSeq([4, 1])
  {
    assert Landing([4, 1], 0) == Landing([4, 1], 1);
  }
}
