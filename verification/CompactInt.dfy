/** Compact 256-bit numbers, after src/compact_int.c: an exponent byte and three mantissa bytes. */
module CompactInt {
  import opened Bytes

  const WIDTH := 32

  datatype Compact = Compact(mantissa: seq<byte>, exp: byte)

  function Ones(n: nat): (s: seq<byte>)
    ensures |s| == n
  {
    seq(n, _ => 0xFF)
  }

  const COMPACT_NAN := Compact(Ones(3), 0xFF)

  // ----- Encoding and decoding -----

  /** The number of bytes up to the last one that is not zero. */
  function Significant(t: seq<byte>): (n: nat)
    ensures n <= |t| && (forall i :: n <= i < |t| ==> t[i] == 0) && (n > 0 ==> t[n - 1] != 0)
  {
    if t == [] then 0 else if t[|t| - 1] != 0 then |t| else Significant(t[..|t| - 1])
  }

  /** One more than the significant bytes if the last of them would make the mantissa negative. */
  function Exponent(t: seq<byte>): nat {
    var n := Significant(t);
    if n > 0 && t[n - 1] >= 0x80 then n + 1 else n
  }

  /** How many bytes the encoder keeps. */
  function Kept(exp: nat): (k: nat)
    requires exp <= WIDTH
    ensures k <= 3 && k <= exp
    ensures exp <= 29 ==> k == if exp < 3 then exp else 3
  {
    var k := if exp + 3 >= WIDTH then WIDTH - exp else 3;
    if WIDTH - exp + k >= WIDTH then exp else k
  }

  function Encoded(t: seq<byte>): (c: Compact)
    requires |t| == WIDTH
    ensures |c.mantissa| == 3
  {
    var exp := Exponent(t);
    if exp == 0 then Compact(Zeros(3), 0)
    else if exp > WIDTH then COMPACT_NAN
    else Compact(t[exp - Kept(exp)..exp] + Zeros(3 - Kept(exp)), exp)
  }

  /** The end of the significant bytes. */
  method CountDown(target: seq<byte>) returns (end: nat)
    requires |target| == WIDTH
    ensures end == Significant(target)
  {
    end := WIDTH;
    assert target[..end] == target;
    while end > 0 && target[end - 1] == 0
      invariant end <= WIDTH && Significant(target) == Significant(target[..end])
    {
      assert target[..end][..end - 1] == target[..end - 1];
      end := end - 1;
    }
  }

  /** uint256_to_compact. */
  method Encode(target: seq<byte>) returns (c: Compact)
    requires |target| == WIDTH
    ensures c == Encoded(target)
  {
    var end := CountDown(target);
    var numZeros := WIDTH - end;
    if numZeros == WIDTH { return Compact(Zeros(3), 0); }
    if target[end - 1] >= 0x80 {
      if numZeros == 0 { return COMPACT_NAN; }
      end := end + 1;
      numZeros := numZeros - 1;
    }
    var numBytes := 3;
    var exp := WIDTH - numZeros;
    if exp + numBytes >= WIDTH { numBytes := WIDTH - exp; }
    if numZeros + numBytes >= WIDTH { numBytes := WIDTH - numZeros; }
    return Compact(target[end - numBytes..end] + Zeros(3 - numBytes), exp);
  }

  /** compact_to_uint256. */
  function Decoded(c: Compact): (t: seq<byte>)
    requires |c.mantissa| == 3
    ensures |t| == WIDTH
  {
    if c.exp > WIDTH then Ones(WIDTH)
    else
      var k := if c.exp < 3 then c.exp else 3;
      Zeros(c.exp - k) + c.mantissa[..k] + Zeros(WIDTH - c.exp)
  }

  // ----- Values -----

  lemma {:induction false} SplitLE(s: seq<byte>, k: nat)
    requires k <= |s|
    ensures FromLE(s) == FromLE(s[..k]) + Pow256(k) * FromLE(s[k..])
  {
    if k > 0 {
      SplitLE(s[1..], k - 1);
      assert s[1..][..k - 1] == s[..k][1..];
      assert s[1..][k - 1..] == s[k..];
      Distribute(Pow256(k - 1), FromLE(s[..k][1..]), FromLE(s[k..]));
    } else {
      assert s[..0] == [] && s[0..] == s;
    }
  }

  lemma Distribute(p: nat, a: nat, b: nat)
    ensures 256 * (a + p * b) == 256 * a + (256 * p) * b
  {
  }

  lemma {:induction false} ZerosValue(s: seq<byte>)
    requires forall i :: 0 <= i < |s| ==> s[i] == 0
    ensures FromLE(s) == 0
  {
    if s != [] { ZerosValue(s[1..]); }
  }

  /** Clearing the first `k` bytes takes away less than 256^k. */
  lemma ClearLow(t: seq<byte>, k: nat)
    requires k <= |t|
    ensures FromLE(Zeros(k) + t[k..]) <= FromLE(t) < FromLE(Zeros(k) + t[k..]) + Pow256(k)
  {
    var d := Zeros(k) + t[k..];
    SplitLE(t, k);
    SplitLE(d, k);
    assert d[..k] == Zeros(k) && d[k..] == t[k..];
    ZerosValue(Zeros(k));
  }

  /** Below 2^231 the exponent is at most 29. */
  const LIMIT_BYTES := 29

  /** Below the limit, encoding and decoding clears the bytes below the mantissa and keeps all others. */
  lemma DecodedBytes(t: seq<byte>)
    requires |t| == WIDTH && Exponent(t) <= LIMIT_BYTES
    ensures var exp := Exponent(t);
      var k := if exp < 3 then 0 else exp - 3;
      Encoded(t).exp == exp && Decoded(Encoded(t)) == Zeros(k) + t[k..]
  {
    var exp := Exponent(t);
    var k := if exp < 3 then 0 else exp - 3;
    assert forall i :: exp <= i < WIDTH ==> t[i] == 0;
    if exp >= 3 {
      assert Encoded(t).mantissa[..3] == t[k..exp];
    } else {
      assert Encoded(t).mantissa[..exp] == t[0..exp];
    }
    assert t[k..] == t[k..exp] + t[exp..];
    assert t[exp..] == Zeros(WIDTH - exp);
  }

  /** Below 2^231 the decoded value is at most the encoded one, and less than 256^(exp-3) away from it. */
  lemma RoundsDown(t: seq<byte>)
    requires |t| == WIDTH && Exponent(t) <= LIMIT_BYTES
    ensures var exp := Exponent(t); var d := FromLE(Decoded(Encoded(t)));
      d <= FromLE(t) < d + Pow256(if exp < 3 then 0 else exp - 3)
  {
    DecodedBytes(t);
    var exp := Exponent(t);
    ClearLow(t, if exp < 3 then 0 else exp - 3);
  }

  // ----- The limit -----

  function Five(a: nat, b: nat, c: nat, d: nat, e: nat): nat {
    a + 0x100 * b + 0x1_0000 * c + 0x100_0000 * d + 0x1_0000_0000 * e
  }

  lemma FiveBytes(s: seq<byte>)
    requires |s| == 5
    ensures FromLE(s) == Five(s[0], s[1], s[2], s[3], s[4])
  {
    assert FromLE(s[4..]) == s[4];
    assert FromLE(s[3..]) == s[3] + 256 * FromLE(s[3..][1..]) && s[3..][1..] == s[4..];
    assert FromLE(s[2..]) == s[2] + 256 * FromLE(s[2..][1..]) && s[2..][1..] == s[3..];
    assert FromLE(s[1..]) == s[1] + 256 * FromLE(s[1..][1..]) && s[1..][1..] == s[2..];
  }

  /** The bytes from the 28th on, as a number. */
  function High(t: seq<byte>): nat
    requires |t| == WIDTH
  {
    Five(t[27], t[28], t[29], t[30], t[31])
  }

  lemma HighValue(t: seq<byte>)
    requires |t| == WIDTH
    ensures FromLE(t) == FromLE(t[..27]) + Pow256(27) * High(t) && FromLE(t[..27]) < Pow256(27)
  {
    hide FromLE, Pow256, Five;
    SplitLE(t, 27);
    FiveBytes(t[27..]);
  }

  /** Exponents above 29 belong to the numbers from 2^231 = 0x8000 * 256^27 on. */
  lemma ExponentLimit(t: seq<byte>)
    requires |t| == WIDTH
    ensures FromLE(t) < 0x8000 * Pow256(27) <==> Exponent(t) <= LIMIT_BYTES
  {
    hide FromLE, Pow256, High, Exponent;
    HighValue(t);
    HighLimit(t);
    Compare27(FromLE(t[..27]), Pow256(27), High(t), 0x8000);
  }

  lemma HighLimit(t: seq<byte>)
    requires |t| == WIDTH
    ensures High(t) < 0x8000 <==> Exponent(t) <= LIMIT_BYTES
  {
    FiveLimit(t[27], t[28], t[29], t[30], t[31]);
    hide Five;
    hide Significant;
    var n := Significant(t);
    assert n <= 29 ==> t[29] == t[30] == t[31] == 0;
    assert n <= 28 ==> t[28] == 0;
    assert n == 30 ==> t[29] != 0;
    assert n == 31 ==> t[30] != 0;
    assert n == 32 ==> t[31] != 0;
  }

  lemma FiveLimit(a: nat, b: nat, c: nat, d: nat, e: nat)
    requires a < 256
    ensures Five(a, b, c, d, e) < 0x8000 <==> b < 0x80 && c == d == e == 0
  {
  }

  lemma Times(p: nat, a: nat, b: nat)
    requires a <= b
    ensures p * a <= b * p && a * p <= p * b && (a > 0 ==> p * a == p * (a - 1) + p)
  {
  }

  lemma Compare27(low: nat, p: nat, high: nat, limit: nat)
    requires low < p
    ensures low + p * high < limit * p <==> high < limit
  {
    if high < limit { Times(p, high + 1, limit); } else { Times(p, limit, high); }
  }

  /** Above the limit too few mantissa bytes are kept, and they are decoded at the wrong place. */
  lemma CutTooShort(t: seq<byte>)
    requires |t| == WIDTH && LIMIT_BYTES < Exponent(t) <= WIDTH
    ensures FromLE(Decoded(Encoded(t))) + Pow256(Exponent(t) - 3) <= FromLE(t)
  {
    hide FromLE, Five, Encoded, Decoded, Significant, High, Pow256;
    var d := Decoded(Encoded(t));
    var exp := Exponent(t);
    HighValue(t);
    HighValue(d);
    HighLoss(t);
    ZerosValue(d[..27]);
    NextPowers();
    var lost := if exp == 30 then 1 else if exp == 31 then 0x100 else 0x1_0000;
    Scale(Pow256(27), High(d), lost, High(t));
  }

  lemma NextPowers()
    ensures Pow256(28) == 0x100 * Pow256(27) && Pow256(29) == 0x1_0000 * Pow256(27)
  {
  }

  lemma Scale(p: nat, a: nat, b: nat, c: nat)
    requires a + b <= c
    ensures p * a + b * p <= p * c
  {
  }

  lemma DecodedTop(c: Compact)
    requires |c.mantissa| == 3 && 30 <= c.exp <= WIDTH
    ensures var d := Decoded(c); var m := c.mantissa;
      && (forall i :: 0 <= i < 27 ==> d[i] == 0)
      && d[27..] == (if c.exp == 30 then [m[0], m[1], m[2], 0, 0]
                     else if c.exp == 31 then [0, m[0], m[1], m[2], 0] else [0, 0, m[0], m[1], m[2]])
  {
    assert c.mantissa == [c.mantissa[0], c.mantissa[1], c.mantissa[2]];
    assert Decoded(c)[27..] == Zeros(c.exp - 30) + c.mantissa + Zeros(WIDTH - c.exp);
  }

  /** What is decoded from the mantissa of a number that is cut too short. */
  lemma CutBytes(t: seq<byte>)
    requires |t| == WIDTH && LIMIT_BYTES < Exponent(t) <= WIDTH
    ensures var d := Decoded(Encoded(t)); var exp := Exponent(t);
      && (forall i :: 0 <= i < 27 ==> d[i] == 0)
      && (exp == 30 ==> d[27..] == [t[28], t[29], 0, 0, 0])
      && (exp == 31 ==> d[27..] == [0, t[30], 0, 0, 0])
      && (exp == 32 ==> d[27..] == [0, 0, 0, 0, 0])
  {
    hide Decoded;
    var exp := Exponent(t);
    DecodedTop(Encoded(t));
    if exp == 30 {
      assert Encoded(t).mantissa == [t[28], t[29], 0];
    } else if exp == 31 {
      assert Encoded(t).mantissa == [t[30], 0, 0];
    } else {
      assert Encoded(t).mantissa == [0, 0, 0];
    }
  }

  lemma TopBytes(t: seq<byte>)
    requires |t| == WIDTH && LIMIT_BYTES < Exponent(t) <= WIDTH
    ensures var exp := Exponent(t);
      && (exp == 30 ==> t[28] > 0 || t[29] > 0)
      && (exp == 31 ==> t[29] > 0 || t[30] > 0)
      && (exp == 32 ==> t[30] > 0 || t[31] > 0)
  {
    hide Significant;
    var n := Significant(t);
    assert n == Exponent(t) ==> t[n - 1] != 0;
    assert n != Exponent(t) ==> n == Exponent(t) - 1 && t[n - 1] >= 0x80;
  }

  lemma LossOfOne(a: nat, b: nat, c: nat, d: nat, e: nat)
    requires b + c > 0
    ensures Five(b, c, 0, 0, 0) + 1 <= Five(a, b, c, d, e)
  {
    assert 0x100 * (b + 0x100 * c) >= (b + 0x100 * c) + 1;
  }

  lemma LossOfTwo(a: nat, b: nat, c: nat, d: nat, e: nat)
    requires c + d > 0
    ensures Five(0, d, 0, 0, 0) + 0x100 <= Five(a, b, c, d, e)
  {
    assert 0x1_0000 * (c + 0x100 * d) >= 0x100 * d + 0x100;
  }

  lemma LossOfThree(a: nat, b: nat, c: nat, d: nat, e: nat)
    requires d + e > 0
    ensures Five(0, 0, 0, 0, 0) + 0x1_0000 <= Five(a, b, c, d, e)
  {
    assert 0x100_0000 * (d + e) >= 0x1_0000;
  }

  lemma HighLoss(t: seq<byte>)
    requires |t| == WIDTH && LIMIT_BYTES < Exponent(t) <= WIDTH
    ensures var d := Decoded(Encoded(t)); var exp := Exponent(t);
      && (forall i :: 0 <= i < 27 ==> d[i] == 0)
      && High(d) + (if exp == 30 then 1 else if exp == 31 then 0x100 else 0x1_0000) <= High(t)
  {
    hide Five, Exponent, Encoded, Decoded;
    CutBytes(t);
    TopBytes(t);
    if Exponent(t) == 30 {
      LossOfOne(t[27], t[28], t[29], t[30], t[31]);
    } else if Exponent(t) == 31 {
      LossOfTwo(t[27], t[28], t[29], t[30], t[31]);
    } else {
      LossOfThree(t[27], t[28], t[29], t[30], t[31]);
    }
    var d := Decoded(Encoded(t));
    assert d[27] == d[27..][0] && d[28] == d[27..][1] && d[29] == d[27..][2];
    assert d[30] == d[27..][3] && d[31] == d[27..][4];
  }

  lemma {:induction false} OnesValue(n: nat)
    ensures FromLE(Ones(n)) == Pow256(n) - 1
  {
    if n > 0 {
      assert Ones(n)[1..] == Ones(n - 1);
      OnesValue(n - 1);
    }
  }

  /** What has no encoding is decoded to the largest number of all. */
  lemma NotANumber(t: seq<byte>)
    requires |t| == WIDTH && Exponent(t) > WIDTH
    ensures Encoded(t) == COMPACT_NAN == Compact([0xFF, 0xFF, 0xFF], 0xFF) && Decoded(Encoded(t)) == Ones(WIDTH)
    ensures FromLE(t) <= FromLE(Ones(WIDTH)) && (FromLE(t) == FromLE(Ones(WIDTH)) <==> t == Ones(WIDTH))
    ensures FromLE(t) >= 0x8000 * Pow256(27)
  {
    hide FromLE, Pow256, Exponent;
    OnesValue(WIDTH);
    ToFromLE(t);
    ToFromLE(Ones(WIDTH));
    ExponentLimit(t);
  }

  /** Encoding and decoding loses only what is below the mantissa exactly for the numbers below 2^231, and for the one
      number that happens to be what the mark for a missing encoding is decoded to. */
  lemma RoundsDownExactly(t: seq<byte>)
    requires |t| == WIDTH
    ensures var exp := Exponent(t); var d := FromLE(Decoded(Encoded(t)));
      (d <= FromLE(t) < d + Pow256(if exp < 3 then 0 else exp - 3))
      <==> FromLE(t) < 0x8000 * Pow256(27) || t == Ones(WIDTH)
  {
    hide FromLE, Pow256, Decoded, Encoded, Significant;
    ExponentLimit(t);
    if Exponent(t) <= LIMIT_BYTES {
      RoundsDown(t);
    } else if Exponent(t) <= WIDTH {
      CutTooShort(t);
      OnesExponent(t);
    } else {
      NotANumber(t);
    }
  }

  lemma OnesExponent(t: seq<byte>)
    requires |t| == WIDTH
    ensures t == Ones(WIDTH) ==> Exponent(t) > WIDTH
  {
    if t == Ones(WIDTH) { assert t[WIDTH - 1] == 0xFF; }
  }

  // ----- Comparison -----

  function MantissaValue(c: Compact): nat
    requires |c.mantissa| == 3
  {
    Five(c.mantissa[0], c.mantissa[1], c.mantissa[2], 0, 0)
  }

  /** A mantissa that was padded with a zero byte. */
  predicate Padded(c: Compact)
    requires |c.mantissa| == 3
  {
    c.mantissa[2] == 0 && c.mantissa[1] >= 0x80
  }

  /** Exponent and mantissa as the comparison sees them. */
  function SeenExp(c: Compact): int
    requires |c.mantissa| == 3
  {
    if Padded(c) then c.exp as int - 1 else c.exp as int
  }

  function SeenValue(c: Compact): nat
    requires |c.mantissa| == 3
  {
    if Padded(c) then MantissaValue(c) * 0x100 else MantissaValue(c)
  }

  /** compact_uint256_compare. */
  function Compare(a: Compact, b: Compact): int
    requires |a.mantissa| == 3 && |b.mantissa| == 3
  {
    if SeenExp(a) == SeenExp(b) then SeenValue(a) - SeenValue(b) else SeenExp(a) - SeenExp(b)
  }

  /** What exponent and mantissa of an encoding, without the padding, say about the number `d` that is decoded. */
  predicate Describes(exp: int, value: int, d: nat) {
    if exp >= 3 then 0x1_0000 <= value < 0x100_0000 && d == value * Pow256(exp - 3)
    else if exp == 2 then
      (value == d && 0x80 <= d < 0x8000) || (value == 0x100 * d && 0x8000 <= d < 0x1_0000)
    else if exp == 1 then value == d && 1 <= d < 0x80
    else exp == 0 && value == 0 && d == 0
  }

  lemma PowMonotone(m: nat, n: nat)
    requires m <= n
    ensures Pow256(m) <= Pow256(n)
  {
    if m < n { PowMonotone(m, n - 1); }
  }

  lemma ScaledBounds(value: nat, p: nat)
    requires 0x1_0000 <= value < 0x100_0000
    ensures 0x1_0000 * p <= value * p
    ensures p > 0 ==> value * p < 0x100_0000 * p
  {
  }

  /** The decoded number lies between the powers of 256 that the exponent gives. */
  lemma DescribedBounds(exp: int, value: int, d: nat)
    requires Describes(exp, value, d)
    ensures exp >= 0 && d < Pow256(exp) && (exp >= 3 ==> Pow256(exp - 1) <= d)
  {
    assert Pow256(1) == 0x100 && Pow256(2) == 0x1_0000;
    if exp >= 3 {
      assert Pow256(exp) == 0x100_0000 * Pow256(exp - 3) && Pow256(exp - 1) == 0x1_0000 * Pow256(exp - 3);
      ScaledBounds(value, Pow256(exp - 3));
    }
  }

  lemma LargerExponent(expA: int, valueA: int, a: nat, expB: int, valueB: int, b: nat)
    requires Describes(expA, valueA, a) && Describes(expB, valueB, b) && expA < expB
    ensures a < b
  {
    DescribedBounds(expA, valueA, a);
    DescribedBounds(expB, valueB, b);
    if expB >= 3 { PowMonotone(expA, expB - 1); }
  }

  lemma SameExponent(exp: int, valueA: int, a: nat, valueB: int, b: nat)
    requires Describes(exp, valueA, a) && Describes(exp, valueB, b) && valueA < valueB
    ensures a < b
  {
    if exp >= 3 { ScaleLess(valueA, valueB, Pow256(exp - 3)); }
  }

  lemma ScaleLess(a: nat, b: nat, p: nat)
    requires a < b && p > 0
    ensures a * p < b * p
  {
    assert (a + 1) * p <= b * p;
  }

  lemma EncodedMantissa(t: seq<byte>)
    requires |t| == WIDTH && Exponent(t) <= LIMIT_BYTES
    ensures var c := Encoded(t); var exp := Exponent(t); var n := Significant(t); var m := c.mantissa;
      && c.exp == exp
      && (exp >= 3 ==> m == t[exp - 3..exp] && (if n < exp then Padded(c) else 0 < m[2] < 0x80))
      && (exp == 2 ==> m == [t[0], t[1], 0] && (if n < exp then m[1] == 0 && m[0] >= 0x80 else 0 < m[1] < 0x80))
      && (exp == 1 ==> m == [t[0], 0, 0] && 0 < m[0] < 0x80)
      && (exp == 0 ==> m == [0, 0, 0])
  {
  }

  lemma MantissaBytes(t: seq<byte>)
    requires |t| == WIDTH && Exponent(t) <= LIMIT_BYTES
    ensures var k := if Exponent(t) < 3 then 0 else Exponent(t) - 3;
      Encoded(t).mantissa == t[k..k + 3] && forall i :: k + 3 <= i < WIDTH ==> t[i] == 0
  {
    EncodedMantissa(t);
  }

  lemma ThreeBytes(s: seq<byte>)
    requires |s| == 3
    ensures FromLE(s) == Five(s[0], s[1], s[2], 0, 0)
  {
    assert FromLE(s[2..]) == s[2];
    assert FromLE(s[1..]) == s[1] + 256 * FromLE(s[1..][1..]) && s[1..][1..] == s[2..];
  }

  /** The decoded number is the mantissa, scaled. */
  lemma DecodedValue(t: seq<byte>)
    requires |t| == WIDTH && Exponent(t) <= LIMIT_BYTES
    ensures FromLE(Decoded(Encoded(t)))
         == MantissaValue(Encoded(t)) * Pow256(if Exponent(t) < 3 then 0 else Exponent(t) - 3)
  {
    hide FromLE, Pow256, Encoded, Decoded, Exponent, Five;
    var k := if Exponent(t) < 3 then 0 else Exponent(t) - 3;
    DecodedBytes(t);
    MantissaBytes(t);
    var d := Zeros(k) + t[k..];
    SplitLE(d, k);
    assert d[..k] == Zeros(k) && d[k..] == t[k..];
    ZerosValue(Zeros(k));
    SplitLE(t[k..], 3);
    assert t[k..][..3] == t[k..k + 3];
    ZerosValue(t[k..][3..]);
    ThreeBytes(t[k..k + 3]);
  }

  lemma EncodingDescribed(t: seq<byte>)
    requires |t| == WIDTH && Exponent(t) <= LIMIT_BYTES
    ensures Describes(SeenExp(Encoded(t)), SeenValue(Encoded(t)), FromLE(Decoded(Encoded(t))))
  {
    hide FromLE, Encoded, Decoded, Exponent, Describes, Pow256, Five;
    EncodedMantissa(t);
    DecodedValue(t);
    var m := Encoded(t).mantissa;
    BytesDescribed(m[0], m[1], m[2], Exponent(t), FromLE(Decoded(Encoded(t))));
  }

  lemma BytesDescribed(m0: nat, m1: nat, m2: nat, exp: nat, d: nat)
    requires m0 < 256 && m1 < 256
    requires d == Five(m0, m1, m2, 0, 0) * Pow256(if exp < 3 then 0 else exp - 3)
    requires exp >= 3 ==> (m2 == 0 && m1 >= 0x80) || 0 < m2 < 0x80
    requires exp == 2 ==> m2 == 0 && ((m1 == 0 && m0 >= 0x80) || 0 < m1 < 0x80)
    requires exp == 1 ==> m2 == m1 == 0 && 0 < m0 < 0x80
    requires exp == 0 ==> m2 == m1 == m0 == 0
    ensures var v := Five(m0, m1, m2, 0, 0);
      if m2 == 0 && m1 >= 0x80 then Describes(exp - 1, v * 0x100, d) else Describes(exp, v, d)
  {
    hide Five, Pow256;
    var v := Five(m0, m1, m2, 0, 0);
    ThreeRange(m0, m1, m2);
    if exp <= 3 {
      PowUnfold(0);
      assert d == v;
    } else {
      PowUnfold(exp - 3);
      PaddedScale(v, Pow256(exp - 4));
    }
  }

  lemma PowUnfold(n: nat)
    ensures if n == 0 then Pow256(n) == 1 else Pow256(n) == 256 * Pow256(n - 1)
  {
  }

  lemma ThreeRange(m0: nat, m1: nat, m2: nat)
    requires m0 < 256 && m1 < 256
    ensures var v := Five(m0, m1, m2, 0, 0);
      && (0 < m2 < 0x80 ==> 0x1_0000 <= v < 0x80_0000)
      && (m2 == 0 ==> v < 0x1_0000 && (v >= 0x8000 <==> m1 >= 0x80) && (v >= 0x100 <==> m1 > 0))
      && (m2 == 0 && m1 == 0 ==> v == m0)
  {
  }

  lemma PaddedScale(v: nat, p: nat)
    ensures v * (256 * p) == (v * 0x100) * p
  {
  }

  /** Comparing the encodings has the sign of comparing the numbers that they are decoded to. */
  predicate Agrees(s: seq<byte>, t: seq<byte>)
    requires |s| == WIDTH && |t| == WIDTH
  {
    var a, b := FromLE(Decoded(Encoded(s))), FromLE(Decoded(Encoded(t)));
    var r := Compare(Encoded(s), Encoded(t));
    (r < 0 <==> a < b) && (r > 0 <==> a > b)
  }

  lemma CompareSign(s: seq<byte>, t: seq<byte>)
    requires |s| == WIDTH && Exponent(s) <= LIMIT_BYTES && |t| == WIDTH && Exponent(t) <= LIMIT_BYTES
    ensures Agrees(s, t)
  {
    hide FromLE, Encoded, Decoded, Exponent, Describes, Padded, MantissaValue;
    EncodingDescribed(s);
    EncodingDescribed(t);
    var a, b := FromLE(Decoded(Encoded(s))), FromLE(Decoded(Encoded(t)));
    var c, d := Encoded(s), Encoded(t);
    if SeenExp(c) < SeenExp(d) { LargerExponent(SeenExp(c), SeenValue(c), a, SeenExp(d), SeenValue(d), b); }
    if SeenExp(d) < SeenExp(c) { LargerExponent(SeenExp(d), SeenValue(d), b, SeenExp(c), SeenValue(c), a); }
    if SeenExp(c) == SeenExp(d) {
      if SeenValue(c) < SeenValue(d) { SameExponent(SeenExp(c), SeenValue(c), a, SeenValue(d), b); }
      if SeenValue(d) < SeenValue(c) { SameExponent(SeenExp(c), SeenValue(d), b, SeenValue(c), a); }
      if SeenValue(c) == SeenValue(d) { SameNumber(SeenExp(c), SeenValue(c), a, b); }
    }
  }

  lemma SameNumber(exp: int, value: int, a: nat, b: nat)
    requires Describes(exp, value, a) && Describes(exp, value, b)
    ensures a == b
  {
  }

  /** The largest number of exponent 29 with nothing below its mantissa. */
  function Largest(): (t: seq<byte>)
    ensures |t| == WIDTH
  {
    Zeros(26) + [0xFF, 0xFF, 0x7F] + Zeros(3)
  }

  lemma LargestValue()
    ensures Exponent(Largest()) == LIMIT_BYTES && SeenExp(Encoded(Largest())) == LIMIT_BYTES
    ensures FromLE(Decoded(Encoded(Largest()))) > 0x7FFF * Pow256(27)
  {
    hide FromLE, Pow256, Significant;
    var t := Largest();
    assert t[28] == 0x7F;
    LastByte(t, 28);
    DecodedBytes(t);
    EncodedMantissa(t);
    assert Zeros(26) + t[26..] == t;
    HighValue(t);
    SplitLE(t[..27], 26);
    assert t[..27][26..] == [0xFF] && FromLE([0xFF]) > 0 by { ByteValue(0xFF); }
    PowerPositive(26);
  }

  lemma LastByte(t: seq<byte>, k: nat)
    requires k < |t| && t[k] != 0 && forall i :: k < i < |t| ==> t[i] == 0
    ensures Significant(t) == k + 1
  {
    hide Significant;
    assert Significant(t) > k;
  }

  lemma ByteValue(b: byte)
    ensures FromLE([b]) == b
  {
    assert [b][1..] == [];
  }

  lemma {:induction false} PowerPositive(n: nat)
    ensures Pow256(n) > 0
  {
    if n > 0 { PowerPositive(n - 1); }
  }

  /** What is cut too short looks larger than the largest number below, and is decoded to less. */
  lemma CutDisagrees(s: seq<byte>)
    requires |s| == WIDTH && LIMIT_BYTES < Exponent(s) <= WIDTH
    ensures Compare(Encoded(s), Encoded(Largest())) > 0
    ensures FromLE(Decoded(Encoded(s))) < FromLE(Decoded(Encoded(Largest())))
    ensures !Agrees(s, Largest())
  {
    hide FromLE, Pow256, Significant, Largest;
    CutSeen(s);
    LargestValue();
    var d := Decoded(Encoded(s));
    HighValue(d);
    ZerosValue(d[..27]);
    Times(Pow256(27), High(d), 0x7FFF);
  }

  lemma CutSeen(s: seq<byte>)
    requires |s| == WIDTH && LIMIT_BYTES < Exponent(s) <= WIDTH
    ensures SeenExp(Encoded(s)) == Exponent(s)
    ensures var d := Decoded(Encoded(s)); (forall i :: 0 <= i < 27 ==> d[i] == 0) && High(d) <= 0x7FFF
  {
    hide Decoded;
    var n, exp, d := Significant(s), Exponent(s), Decoded(Encoded(s));
    CutBytes(s);
    assert n == exp ==> s[n - 1] < 0x80;
    assert n < exp ==> n == exp - 1 && s[exp - 1] == 0;
    if exp == 30 {
      assert Encoded(s).mantissa == [s[28], s[29], 0];
    } else if exp == 31 {
      assert Encoded(s).mantissa == [s[30], 0, 0];
    } else {
      assert Encoded(s).mantissa == [0, 0, 0];
    }
    assert d[27] == d[27..][0] && d[28] == d[27..][1] && d[29] == d[27..][2];
    assert d[30] == d[27..][3] && d[31] == d[27..][4];
  }

  lemma MarkSeen()
    ensures SeenExp(COMPACT_NAN) == 0xFF
  {
  }

  lemma SmallExponent(t: seq<byte>)
    requires |t| == WIDTH && Exponent(t) <= LIMIT_BYTES
    ensures SeenExp(Encoded(t)) <= LIMIT_BYTES
  {
    hide Encoded, Exponent;
    EncodedMantissa(t);
  }

  lemma BelowOnes(exp: int, value: int, d: nat)
    requires Describes(exp, value, d) && exp <= LIMIT_BYTES
    ensures d < FromLE(Ones(WIDTH))
  {
    hide FromLE, Pow256, Describes, Ones;
    DescribedBounds(exp, value, d);
    OnesValue(WIDTH);
    PowMonotone(exp, 31);
    PowerPositive(31);
    PowUnfold(32);
  }

  /** The mark for a missing encoding looks largest and is decoded to the largest number. */
  lemma MarkAgrees(s: seq<byte>, t: seq<byte>)
    requires |s| == WIDTH && WIDTH < Exponent(s) && |t| == WIDTH && Exponent(t) <= LIMIT_BYTES
    ensures Agrees(s, t)
  {
    hide FromLE, Pow256, Exponent, Describes, Decoded, Encoded, SeenExp, SeenValue, Padded, Ones;
    NotANumber(s);
    MarkSeen();
    SmallExponent(t);
    EncodingDescribed(t);
    BelowOnes(SeenExp(Encoded(t)), SeenValue(Encoded(t)), FromLE(Decoded(Encoded(t))));
  }

  /** A number compares as it is decoded with all numbers below 2^231 exactly when it is one of them or has no
      encoding at all. */
  lemma ComparesExactly(s: seq<byte>)
    requires |s| == WIDTH
    ensures (forall t :: |t| == WIDTH && Exponent(t) <= LIMIT_BYTES ==> Agrees(s, t))
        <==> Exponent(s) <= LIMIT_BYTES || Exponent(s) > WIDTH
  {
    hide Agrees, Exponent, Largest, FromLE, Pow256, Encoded, Decoded, SeenExp;
    if Exponent(s) <= LIMIT_BYTES {
      forall t | |t| == WIDTH && Exponent(t) <= LIMIT_BYTES ensures Agrees(s, t) { CompareSign(s, t); }
    } else if Exponent(s) > WIDTH {
      forall t | |t| == WIDTH && Exponent(t) <= LIMIT_BYTES ensures Agrees(s, t) { MarkAgrees(s, t); }
    } else {
      LargestValue();
      CutDisagrees(s);
    }
  }

  // ----- Comparing 256-bit numbers -----

  function Word(a: seq<byte>, i: nat): nat
    requires |a| == WIDTH && i < 4
  {
    FromLE(a[8 * i..8 * i + 8])
  }

  /** The words from the `i`th on are the same. */
  ghost predicate SameFrom(a: seq<byte>, b: seq<byte>, i: nat) {
    |a| == |b| == WIDTH && i <= 4 && a[8 * i..] == b[8 * i..]
  }

  lemma WordOrder(a: seq<byte>, b: seq<byte>, i: nat)
    requires |a| == WIDTH && |b| == WIDTH && i < 4 && SameFrom(a, b, i + 1)
    ensures Word(a, i) > Word(b, i) ==> FromLE(a) > FromLE(b)
    ensures Word(a, i) < Word(b, i) ==> FromLE(a) < FromLE(b)
    ensures Word(a, i) == Word(b, i) ==> SameFrom(a, b, i)
  {
    hide FromLE, Pow256;
    var k := 8 * i;
    SplitLE(a, k + 8);
    SplitLE(b, k + 8);
    SplitLE(a[..k + 8], k);
    SplitLE(b[..k + 8], k);
    assert a[..k + 8][k..] == a[k..k + 8] && b[..k + 8][k..] == b[k..k + 8];
    assert a[..k + 8][..k] == a[..k] && b[..k + 8][..k] == b[..k];
    if Word(a, i) > Word(b, i) {
      Dominates(FromLE(a[..k]), Word(a, i), FromLE(b[..k]), Word(b, i), Pow256(k));
    } else if Word(a, i) < Word(b, i) {
      Dominates(FromLE(b[..k]), Word(b, i), FromLE(a[..k]), Word(a, i), Pow256(k));
    } else {
      ToFromLE(a[k..k + 8]);
      ToFromLE(b[k..k + 8]);
      assert a[k..] == a[k..k + 8] + a[k + 8..] && b[k..] == b[k..k + 8] + b[k + 8..];
    }
  }

  lemma Dominates(low: nat, high: nat, low': nat, high': nat, p: nat)
    requires low' < p && high > high'
    ensures low + p * high > low' + p * high'
  {
    assert p * high >= p * (high' + 1);
  }

  /** uint256_compare: from the most significant 64-bit word down. */
  method CompareWords(a: seq<byte>, b: seq<byte>) returns (r: int)
    requires |a| == WIDTH && |b| == WIDTH
    ensures r == if FromLE(a) > FromLE(b) then 1 else if FromLE(a) < FromLE(b) then -1 else 0
    ensures r == 0 <==> a == b
  {
    hide FromLE, Word;
    var i := 3;
    while i >= 0
      invariant -1 <= i <= 3 && SameFrom(a, b, i + 1)
    {
      hide SameFrom;
      WordOrder(a, b, i);
      if Word(a, i) != Word(b, i) {
        return if Word(a, i) > Word(b, i) then 1 else -1;
      }
      i := i - 1;
    }
    assert a[0..] == a && b[0..] == b;
    return 0;
  }
}
