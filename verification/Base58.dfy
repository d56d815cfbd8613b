/** Base58 text, after src/base58.c. A byte is a number below 256. */
module Base58 {
  import opened Radix

  const INVALID: nat := 0xFF

  /** The digits in order: six runs of consecutive characters. */
  const DIGITS: string := "123456789" + "ABCDEFGH" + "JKLMN" + "PQRSTUVWXYZ" + "abcdefghijk" + "mnopqrstuvwxyz"

  /** The lookup table: the digit a character stands for, or INVALID. */
  function Lookup(c: char): nat {
    if '1' <= c <= '9' then c as int - '1' as int
    else if 'A' <= c <= 'H' then c as int - 'A' as int + 9
    else if 'J' <= c <= 'N' then c as int - 'J' as int + 17
    else if 'P' <= c <= 'Z' then c as int - 'P' as int + 22
    else if 'a' <= c <= 'k' then c as int - 'a' as int + 33
    else if 'm' <= c <= 'z' then c as int - 'm' as int + 44
    else INVALID
  }

  ghost predicate Consecutive(run: string, first: char) {
    forall i :: 0 <= i < |run| ==> run[i] as int == first as int + i
  }

  lemma Runs()
    ensures Consecutive("123456789", '1') && Consecutive("ABCDEFGH", 'A') && Consecutive("JKLMN", 'J')
    ensures Consecutive("PQRSTUVWXYZ", 'P') && Consecutive("abcdefghijk", 'a')
    ensures Consecutive("mnopqrstuvwxyz", 'm')
  {
  }

  lemma DigitPlace(d: nat)
    requires d < 58
    ensures |DIGITS| == 58
    ensures DIGITS[d] as int - d ==
      (if d < 9 then '1' as int else if d < 17 then 'A' as int - 9 else if d < 22 then 'J' as int - 17
       else if d < 33 then 'P' as int - 22 else if d < 44 then 'a' as int - 33 else 'm' as int - 44)
  {
    Runs();
  }

  /** The table undoes the digit string. */
  lemma DigitLookup(d: nat)
    requires d < 58
    ensures |DIGITS| == 58 && Lookup(DIGITS[d]) == d
  {
    DigitPlace(d);
  }

  /** Every character the table accepts is the digit the table gives. */
  lemma LookupDigit(c: char)
    requires Lookup(c) != INVALID
    ensures |DIGITS| == 58 && Lookup(c) < 58 && DIGITS[Lookup(c)] == c
  {
    DigitPlace(Lookup(c));
  }

  // ----- Specification -----

  /** The number of leading elements equal to `e`. */
  function Leading<T(==)>(s: seq<T>, e: T): (n: nat)
    ensures n <= |s| && (forall i :: 0 <= i < n ==> s[i] == e) && (n < |s| ==> s[n] != e)
  {
    if s == [] || s[0] != e then 0 else 1 + Leading(s[1..], e)
  }

  function Copies<T>(e: T, n: nat): (s: seq<T>)
    ensures |s| == n && forall i :: 0 <= i < n ==> s[i] == e
  {
    seq(n, i => e)
  }

  function Characters(digits: seq<nat>): (s: string)
    requires Digital(digits, 58)
    ensures |s| == |digits|
  {
    if digits == [] then "" else (DigitLookup(digits[0]); [DIGITS[digits[0]]]) + Characters(digits[1..])
  }

  /** The table entries of a text. */
  function Lookups(s: string): (r: seq<nat>)
    ensures |r| == |s|
  {
    if s == [] then [] else [Lookup(s[0])] + Lookups(s[1..])
  }

  /** The digits of the value of `s`, which is read in base `from`, most significant first. */
  function Converted(s: seq<nat>, from: nat, to: nat): seq<nat>
    requires to > 1
  {
    Reverse(Digits(BigEndian(s, from), to))
  }

  lemma ConvertedDigital(s: seq<nat>, from: nat, to: nat)
    requires to > 1
    ensures Digital(Converted(s, from, to), to) && Converted(s, from, to) != []
    ensures BigEndian(Converted(s, from, to), to) == BigEndian(s, from)
  {
    var d := Digits(BigEndian(s, from), to);
    DigitsCanonical(BigEndian(s, from), to);
    BigEndianReverse(Reverse(d), to);
    ReverseTwice(d);
  }

  /** What encoding makes of some bytes: a '1' for each leading zero byte, then the rest converted. */
  function Encoded(data: seq<nat>): string
    requires Digital(data, 256)
  {
    if data == [] then ""
    else
      var z := Leading(data, 0);
      ConvertedDigital(data[z..], 256, 58);
      Copies('1', z) + Characters(Converted(data[z..], 256, 58))
  }

  datatype Decoding = Bytes(data: seq<nat>) | Invalid

  /** What decoding makes of a text: a zero byte for each leading '1', then the rest converted. */
  function Decoded(text: string): Decoding {
    if text == "" then Bytes([])
    else
      var z := Leading(text, '1');
      var digits := Lookups(text[z..]);
      if INVALID in digits then Invalid else Bytes(Copies(0, z) + Converted(digits, 58, 256))
  }

  /** One byte, 97 == 1 * 58 + 39. */
  lemma EncodedExample()
    ensures Digital([97], 256) && Encoded([97]) == "2g"
  {
    hide Characters;
    assert BigEndian([97], 256) == 97 by { assert [97][..0] == []; }
    assert Quotient(97, 58) == 1 && Remainder(97, 58) == 39;
    assert Digits(97, 58) == [39] + Digits(1, 58) == [39, 1];
    TwoDigits();
    assert Reverse([39, 1]) == [1, 39];
    assert [97][0..] == [97] && Leading([97], 0) == 0;
  }

  lemma TwoDigits()
    ensures Digital([1, 39], 58) && Characters([1, 39]) == "2g"
  {
    DigitPlace(1);
    DigitPlace(39);
    assert [1, 39][1..] == [39] && [39][1..] == [];
    assert DIGITS[1] == '2' && DIGITS[39] == 'g';
  }

  // ----- Round trips -----

  lemma {:induction false} CharactersLookups(digits: seq<nat>)
    requires Digital(digits, 58)
    ensures Lookups(Characters(digits)) == digits
  {
    if digits != [] {
      CharactersLookups(digits[1..]);
      DigitLookup(digits[0]);
      assert Characters(digits)[1..] == Characters(digits[1..]);
    }
  }

  lemma {:induction false} LookupsCharacters(s: string)
    requires INVALID !in Lookups(s)
    ensures Digital(Lookups(s), 58) && Characters(Lookups(s)) == s
  {
    if s != "" {
      LookupDigit(s[0]);
      assert Lookups(s)[1..] == Lookups(s[1..]);
      LookupsCharacters(s[1..]);
    }
  }

  /** Converting back a string without leading zero gives it back. */
  lemma ConvertBack(s: seq<nat>, from: nat, to: nat)
    requires to > 1 && from > 1 && Digital(s, from) && s != [] && s[0] != 0
    ensures Converted(Converted(s, from, to), to, from) == s
    ensures Converted(s, from, to)[0] != 0
  {
    var v := BigEndian(s, from);
    ConvertedDigital(s, from, to);
    BigEndianReverse(s, from);
    ReverseTwice(s);
    CanonicalUnique(Reverse(s), from);
    PositiveValue(Reverse(s), from);
    DigitsCanonical(v, to);
    var d := Digits(v, to);
    assert Converted(s, from, to)[0] == d[|d| - 1];
    assert |d| == 1 ==> Val(d, to) == d[0] + to * Val(d[1..], to);
  }

  lemma {:induction false} LeadingCopies<T>(e: T, n: nat, rest: seq<T>)
    requires rest == [] || rest[0] != e
    ensures Leading(Copies(e, n) + rest, e) == n
  {
    if n == 0 {
      assert Copies(e, n) + rest == rest;
    } else {
      LeadingCopies(e, n - 1, rest);
      assert (Copies(e, n) + rest)[1..] == Copies(e, n - 1) + rest;
    }
  }

  lemma AllLeading<T>(s: seq<T>, e: T)
    requires Leading(s, e) == |s|
    ensures s == Copies(e, |s|)
  {
  }

  lemma FirstCharacter(digits: seq<nat>)
    requires Digital(digits, 58) && digits != []
    ensures Characters(digits)[0] == '1' <==> digits[0] == 0
  {
    DigitLookup(digits[0]);
    DigitPlace(0);
    assert Characters(digits)[0] == DIGITS[digits[0]];
  }

  lemma EncodedShape(data: seq<nat>)
    requires Digital(data, 256) && Leading(data, 0) < |data|
    ensures var z := Leading(data, 0);
      && Encoded(data) != "" && Leading(Encoded(data), '1') == z
      && INVALID !in Lookups(Encoded(data)[z..])
      && Lookups(Encoded(data)[z..]) == Converted(data[z..], 256, 58)
  {
    hide Leading, Lookup, Lookups, Characters, Converted, DIGITS;
    var z := Leading(data, 0);
    var digits := Converted(data[z..], 256, 58);
    ConvertedDigital(data[z..], 256, 58);
    ConvertBack(data[z..], 256, 58);
    FirstCharacter(digits);
    LeadingCopies('1', z, Characters(digits));
    CharactersLookups(digits);
    assert Encoded(data)[z..] == Characters(digits);
    assert INVALID !in digits;
  }

  lemma ZeroConverted(from: nat, to: nat)
    requires to > 1
    ensures Converted([], from, to) == [0]
  {
  }

  lemma {:induction false} ZerosEncoded(n: nat)
    requires n > 0
    ensures Encoded(Copies(0, n)) == Copies('1', n + 1)
  {
    var data := Copies<nat>(0, n);
    LeadingCopies<nat>(0, n, []);
    assert data + [] == data && data[n..] == [];
    ZeroConverted(256, 58);
    OnesText(n);
  }

  lemma OnesText(n: nat)
    ensures Copies('1', n) + Characters([0]) == Copies('1', n + 1)
  {
    FirstCharacter([0]);
    assert Characters([0]) == "1";
  }

  lemma {:induction false} OnesDecoded(n: nat)
    requires n > 0
    ensures Decoded(Copies('1', n)) == Bytes(Copies(0, n + 1))
  {
    var text := Copies('1', n);
    LeadingCopies('1', n, "");
    assert text + "" == text && text[n..] == "";
    ZeroConverted(58, 256);
    assert Copies<nat>(0, n) + [0] == Copies(0, n + 1);
  }

  lemma DecodeEncodedNonZero(data: seq<nat>)
    requires Digital(data, 256) && Leading(data, 0) < |data|
    ensures Decoded(Encoded(data)) == Bytes(data)
  {
    hide Leading, Lookups, Lookup, Characters, Converted, Encoded;
    EncodedShape(data);
    ConvertBack(data[Leading(data, 0)..], 256, 58);
    assert Copies(0, Leading(data, 0)) + data[Leading(data, 0)..] == data;
  }

  /** Decoding undoes encoding exactly on inputs that are empty or have a non-zero byte. */
  lemma DecodeEncoded(data: seq<nat>)
    requires Digital(data, 256)
    ensures Decoded(Encoded(data)) == Bytes(data) <==> data == [] || exists i :: 0 <= i < |data| && data[i] != 0
  {
    var z := Leading(data, 0);
    if data != [] {
      hide Leading, Lookups, Lookup, Characters, Converted, Encoded, Decoded;
      if z == |data| {
        AllLeading(data, 0);
        ZerosEncoded(z);
        OnesDecoded(z + 1);
      } else {
        DecodeEncodedNonZero(data);
      }
    }
  }

  /** A leading zero byte becomes a leading '1', one for one. */
  lemma LeadingZeros(data: seq<nat>)
    requires Digital(data, 256) && exists i :: 0 <= i < |data| && data[i] != 0
    ensures Leading(Encoded(data), '1') == Leading(data, 0)
  {
    EncodedShape(data);
  }

  lemma DecodedDigital(text: string)
    requires Decoded(text).Bytes?
    ensures Digital(Decoded(text).data, 256)
  {
    if text != "" {
      ConvertedDigital(Lookups(text[Leading(text, '1')..]), 58, 256);
    }
  }

  lemma DecodedShape(text: string)
    requires Leading(text, '1') < |text| && Decoded(text).Bytes?
    ensures var z := Leading(text, '1'); var data := Decoded(text).data;
      && Digital(data, 256) && data != []
      && Leading(data, 0) == z
      && data[z..] == Converted(Lookups(text[z..]), 58, 256)
      && Converted(data[z..], 256, 58) == Lookups(text[z..])
      && INVALID !in Lookups(text[z..])
  {
    hide Leading, Lookup, Lookups, Characters, Converted, Digital;
    DecodedDigital(text);
    var z := Leading(text, '1');
    var rest := text[z..];
    var digits := Lookups(rest);
    LookupsCharacters(rest);
    FirstCharacter(digits);
    ConvertBack(digits, 58, 256);
    ConvertedDigital(digits, 58, 256);
    LeadingCopies(0, z, Converted(digits, 58, 256));
  }

  lemma EncodeDecodedShape(text: string)
    requires Leading(text, '1') < |text| && Decoded(text).Bytes?
    ensures Digital(Decoded(text).data, 256)
    ensures Encoded(Decoded(text).data) == text
  {
    hide Leading, Lookup, Lookups, Characters, Converted, Digital, Copies, Decoded;
    DecodedShape(text);
    var z := Leading(text, '1');
    LookupsCharacters(text[z..]);
    OnesThenRest(text);
  }

  lemma OnesThenRest(text: string)
    ensures var z := Leading(text, '1'); Copies('1', z) + text[z..] == text
  {
    hide Leading;
  }

  /** Encoding undoes decoding exactly on valid texts that are empty or have a character other than '1'. */
  lemma EncodeDecoded(text: string)
    requires Decoded(text).Bytes?
    ensures Digital(Decoded(text).data, 256)
    ensures Encoded(Decoded(text).data) == text <==> text == "" || exists i :: 0 <= i < |text| && text[i] != '1'
  {
    DecodedDigital(text);
    var z := Leading(text, '1');
    if text != "" {
      if z == |text| {
        AllLeading(text, '1');
        OnesDecoded(z);
        ZerosEncoded(z + 1);
      } else {
        EncodeDecodedShape(text);
      }
    }
  }

  // ----- The buffer loops -----

  /** The digit that stays in place and the carry that goes on. */
  function Kept(digit: nat, factor: nat, carry: nat, base: nat): nat
    requires base > 1
  {
    (carry + digit * factor) % base
  }

  function Carried(digit: nat, factor: nat, carry: nat, base: nat): nat
    requires base > 1
  {
    (carry + digit * factor) / base
  }

  /** Long multiplication: `factor * digits + carry` in place, least significant digit first. */
  function Shifted(digits: seq<nat>, factor: nat, carry: nat, base: nat): seq<nat>
    requires base > 1
    decreases |digits|, carry
  {
    if digits != [] then
      [Kept(digits[0], factor, carry, base)]
      + Shifted(digits[1..], factor, Carried(digits[0], factor, carry, base), base)
    else if carry != 0 then
      assert Carried(0, factor, carry, base) < carry by { DivideDown(carry, base); }
      [Kept(0, factor, carry, base)] + Shifted([], factor, Carried(0, factor, carry, base), base)
    else []
  }

  lemma DivideDown(v: nat, b: nat)
    requires b > 1 && v > 0
    ensures 0 <= v / b < v
  {
    if v >= b { DivSmaller(v, b); }
  }

  /** The carry stays below the factor: at most 255 when encoding and 57 when decoding. */
  lemma CarryBound(digit: nat, carry: nat, factor: nat, base: nat)
    requires base > 1 && digit < base && carry < factor
    ensures Carried(digit, factor, carry, base) < factor
  {
    var total := carry + digit * factor;
    StepBound(factor, digit, base, carry);
    var q := total / base;
    assert total == base * q + total % base;
    if q >= factor { MulMonotone(base, factor, q); }
  }

  lemma {:induction false} ShiftedValue(digits: seq<nat>, factor: nat, carry: nat, base: nat)
    requires base > 1
    ensures Val(Shifted(digits, factor, carry, base), base) == factor * Val(digits, base) + carry
    decreases |digits|, carry
  {
    hide Kept, Carried;
    if digits != [] {
      ShiftedValue(digits[1..], factor, Carried(digits[0], factor, carry, base), base);
      ShiftStep(factor, digits[0], base, Val(digits[1..], base), carry);
    } else if carry != 0 {
      DivideDown(carry, base);
      CarryOnly(factor, carry, base);
      ShiftedValue([], factor, Carried(0, factor, carry, base), base);
    }
  }

  lemma CarryOnly(factor: nat, carry: nat, base: nat)
    requires base > 1
    ensures carry > 0 ==> Carried(0, factor, carry, base) < carry
    ensures Kept(0, factor, carry, base) + base * Carried(0, factor, carry, base) == carry
  {
    if carry > 0 { DivideDown(carry, base); }
    assert carry == base * (carry / base) + carry % base;
  }

  lemma ShiftStep(factor: nat, d: nat, base: nat, v: nat, carry: nat)
    requires base > 1
    ensures Kept(d, factor, carry, base) + base * (factor * v + Carried(d, factor, carry, base)) ==
      factor * (d + base * v) + carry
  {
    var total := carry + d * factor;
    assert total == base * (total / base) + total % base;
    MulDistributes(base, factor * v, total / base);
    MulDistributes(factor, d, base * v);
    MulAssociative(factor, base, v);
    MulAssociative(base, factor, v);
  }

  lemma ShiftedLast(digits: seq<nat>, factor: nat, carry: nat, base: nat)
    requires base > 1 && factor > 0 && Digital(digits, base) && (digits == [] || digits[|digits| - 1] != 0)
    ensures var r := Shifted(digits, factor, carry, base);
      Digital(r, base) && (r == [] || r[|r| - 1] != 0)
    decreases |digits|, carry
  {
    hide Carried;
    var d := if digits == [] then 0 else digits[0];
    CarryOnly(factor, carry, base);
    LastDigit(d, factor, carry, base);
    if digits != [] {
      ShiftedLast(digits[1..], factor, Carried(d, factor, carry, base), base);
    } else if carry != 0 {
      ShiftedLast([], factor, Carried(0, factor, carry, base), base);
    }
  }

  lemma LastDigit(d: nat, factor: nat, carry: nat, base: nat)
    requires base > 1 && factor > 0
    ensures (d > 0 || carry > 0) && Carried(d, factor, carry, base) == 0 ==> Kept(d, factor, carry, base) != 0
  {
  }

  /** On the digits of a number, long multiplication gives the digits of the product. */
  lemma ShiftedDigits(digits: seq<nat>, factor: nat, carry: nat, base: nat)
    requires base > 1 && factor > 0 && Canonical(digits, base)
    ensures Shifted(digits, factor, carry, base) == Digits(factor * Val(digits, base) + carry, base)
  {
    hide Kept, Carried;
    var r := Shifted(digits, factor, carry, base);
    ShiftedValue(digits, factor, carry, base);
    if digits[|digits| - 1] != 0 {
      ShiftedLast(digits, factor, carry, base);
    } else {
      ShiftedLast([], factor, Carried(0, factor, carry, base), base);
    }
    KeptBound(digits[0], factor, carry, base);
    CanonicalUnique(r, base);
  }

  lemma KeptBound(d: nat, factor: nat, carry: nat, base: nat)
    requires base > 1
    ensures Kept(d, factor, carry, base) < base
  {
  }

  lemma KeepStep(done: seq<nat>, digits: seq<nat>, factor: nat, carry: nat, base: nat)
    requires base > 1 && (digits != [] || carry != 0)
    ensures var d := if digits == [] then 0 else digits[0];
      done + Shifted(digits, factor, carry, base) ==
      done + [Kept(d, factor, carry, base)] +
      Shifted(if digits == [] then [] else digits[1..], factor, Carried(d, factor, carry, base), base)
  {
    hide Kept, Carried;
    CarryOnly(factor, carry, base);
  }

  lemma StepUp(before: seq<nat>, after: seq<nat>, start: nat, index: nat)
    requires |before| == |after| && start <= index < |before|
    requires forall k :: 0 <= k < |before| && k != index ==> after[k] == before[k]
    ensures after[start..index + 1] == before[start..index] + [after[index]]
  {
  }

  /** The first inner loop: over the digits that are there. */
  method ShiftDigits(dst: array<nat>, start: nat, count: nat, factor: nat, digit: nat, base: nat)
    returns (carry: nat)
    requires base > 1 && start + count <= dst.Length
    requires digit < factor && Digital(dst[start..start + count], base)
    modifies dst
    ensures carry < factor
    ensures dst[start..start + count] + Shifted([], factor, carry, base)
         == Shifted(old(dst[start..start + count]), factor, digit, base)
    ensures forall k :: 0 <= k < start || start + count <= k < dst.Length ==> dst[k] == old(dst[k])
  {
    hide Kept, Carried, Shifted;
    ghost var digits := dst[start..start + count];
    ghost var result := Shifted(digits, factor, digit, base);
    carry := digit;
    var index := 0;
    while index < count
      invariant index <= count && carry < factor
      invariant forall k :: start + index <= k < start + count ==> dst[k] == digits[k - start]
      invariant dst[start..start + index] + Shifted(digits[index..], factor, carry, base) == result
      invariant forall k :: 0 <= k < start || start + count <= k < dst.Length ==> dst[k] == old(dst[k])
    {
      ghost var before := dst[..];
      var d := dst[start + index];
      KeepStep(dst[start..start + index], digits[index..], factor, carry, base);
      assert digits[index..][1..] == digits[index + 1..];
      assert d == digits[index];
      CarryBound(d, carry, factor, base);
      dst[start + index] := Kept(d, factor, carry, base);
      carry := Carried(d, factor, carry, base);
      StepUp(before, dst[..], start, start + index);
      index := index + 1;
    }
    assert digits[index..] == [];
  }

  /** The second inner loop: as long as there is a carry, into cells that are still zero. */
  method ShiftCarry(dst: array<nat>, start: nat, count: nat, room: nat, factor: nat, carry0: nat, base: nat)
    returns (length: nat)
    requires base > 1 && carry0 < factor && count <= room && start + room <= dst.Length
    requires forall k :: start + count <= k < start + room ==> dst[k] == 0
    requires count + |Shifted([], factor, carry0, base)| <= room
    modifies dst
    ensures length <= room
    ensures dst[start..start + length] == old(dst[start..start + count]) + Shifted([], factor, carry0, base)
    ensures forall k :: start + length <= k < start + room ==> dst[k] == 0
    ensures forall k :: 0 <= k < start || start + room <= k < dst.Length ==> dst[k] == old(dst[k])
  {
    hide Kept, Carried;
    length := count;
    var carry: nat := carry0;
    ghost var result := dst[start..start + count] + Shifted([], factor, carry0, base);
    while carry != 0
      invariant count <= length <= room && carry < factor
      invariant dst[start..start + length] + Shifted([], factor, carry, base) == result
      invariant forall k :: start + length <= k < start + room ==> dst[k] == 0
      invariant forall k :: 0 <= k < start || start + room <= k < dst.Length ==> dst[k] == old(dst[k])
      decreases carry
    {
      CarryOnly(factor, carry, base);
      KeepStep(dst[start..start + length], [], factor, carry, base);
      assert length < room;
      ghost var before := dst[..];
      var d := dst[start + length];
      dst[start + length] := Kept(d, factor, carry, base);
      carry := Carried(d, factor, carry, base);
      StepUp(before, dst[..], start, start + length);
      length := length + 1;
    }
  }

  lemma CanonicalDigital(s: seq<nat>, base: nat)
    requires Canonical(s, base)
    ensures Digital(s, base)
  {
  }

  /**
   * One round of encoding or decoding: the buffer holds the digits of a number from `start` on, and becomes
   * the digits of `factor` times that number plus `digit`.
   */
  method Shift(dst: array<nat>, start: nat, count: nat, room: nat, factor: nat, digit: nat, base: nat)
    returns (length: nat)
    requires base > 1 && digit < factor
    requires 0 < count <= room && start + room <= dst.Length
    requires forall k :: start + count <= k < start + room ==> dst[k] == 0
    requires Canonical(dst[start..start + count], base)
    requires |Digits(factor * Val(dst[start..start + count], base) + digit, base)| <= room
    modifies dst
    ensures length <= room
    ensures dst[start..start + length] == Digits(factor * old(Val(dst[start..start + count], base)) + digit, base)
    ensures forall k :: start + length <= k < start + room ==> dst[k] == 0
    ensures forall k :: 0 <= k < start || start + room <= k < dst.Length ==> dst[k] == old(dst[k])
  {
    hide Kept, Carried, Canonical, Digits, Val, Shifted;
    CanonicalDigital(dst[start..start + count], base);
    ShiftedDigits(dst[start..start + count], factor, digit, base);
    var carry := ShiftDigits(dst, start, count, factor, digit, base);
    length := ShiftCarry(dst, start, count, room, factor, carry, base);
  }

  // ----- Buffer sizes -----

  lemma SmallPowers()
    ensures Pow(256, 8) <= Pow(58, 11) && Pow(256, 4) <= Pow(58, 6)
  {
    assert Pow(256, 1) == 256;
    assert Pow(256, 2) == 65536;
    assert Pow(256, 3) == 16777216;
    assert Pow(256, 4) == 4294967296;
    assert Pow(256, 5) == 1099511627776;
    assert Pow(256, 6) == 281474976710656;
    assert Pow(256, 7) == 72057594037927936;
    assert Pow(256, 8) == 18446744073709551616;
    assert Pow(58, 1) == 58;
    assert Pow(58, 2) == 3364;
    assert Pow(58, 3) == 195112;
    assert Pow(58, 4) == 11316496;
    assert Pow(58, 5) == 656356768;
    assert Pow(58, 6) == 38068692544;
    assert Pow(58, 7) == 2207984167552;
    assert Pow(58, 8) == 128063081718016;
    assert Pow(58, 9) == 7427658739644928;
    assert Pow(58, 10) == 430804206899405824;
    assert Pow(58, 11) == 24986644000165537792;
  }

  /** 256^100 <= 58^138, the reason for the factor 138/100. */
  lemma HundredBytes()
    ensures Pow(256, 100) <= Pow(58, 138)
  {
    hide Pow;
    SmallPowers();
    PowMul(256, 8, 12);
    PowMul(58, 11, 12);
    PowMonotone(Pow(256, 8), Pow(58, 11), 12);
    PowAdd(256, 96, 4);
    PowAdd(58, 132, 6);
    MulMonotone(Pow(256, 96), Pow(256, 4), Pow(58, 6));
    MulMonotone(Pow(58, 6), Pow(256, 96), Pow(58, 132));
  }

  /** A number of `n` bytes is below 58 to the size of the buffer that encoding allocates for them. */
  lemma EncodeRoom(n: nat)
    ensures Pow(256, n) <= Pow(58, n * 138 / 100 + 1)
  {
    hide Pow;
    var m := n * 138 / 100 + 1;
    HundredBytes();
    PowMul(256, 100, n);
    PowMul(256, n, 100);
    PowMonotone(Pow(256, 100), Pow(58, 138), n);
    PowMul(58, 138, n);
    PowMul(58, m, 100);
    PowGrows(58, 138 * n, m * 100);
    if Pow(58, m) < Pow(256, n) {
      PowStrict(Pow(58, m), Pow(256, n), 100);
    }
  }

  lemma EncodeFits(data: seq<nat>, n: nat)
    requires Digital(data, 256) && |data| <= n
    ensures |Digits(BigEndian(data, 256), 58)| <= n * 138 / 100 + 1
  {
    hide Pow, Digits, BigEndian;
    BigEndianBound(data, 256);
    PowGrows(256, |data|, n);
    EncodeRoom(n);
    DigitsLength(BigEndian(data, 256), 58, n * 138 / 100 + 1);
  }

  /** Decoding needs at most one byte per character. */
  lemma DecodeFits(digits: seq<nat>)
    requires Digital(digits, 58) && digits != []
    ensures |Digits(BigEndian(digits, 58), 256)| <= |digits|
  {
    hide Pow, Digits, BigEndian;
    BigEndianBound(digits, 58);
    PowMonotone(58, 256, |digits|);
    DigitsLength(BigEndian(digits, 58), 256, |digits|);
  }

  // ----- Encoding and decoding -----

  method CountLeading<T(==)>(s: seq<T>, e: T) returns (n: nat)
    ensures n == Leading(s, e)
  {
    n := 0;
    while n < |s| && s[n] == e
      invariant n <= |s| && forall i :: 0 <= i < n ==> s[i] == e
    {
      n := n + 1;
    }
    assert s[..n] == Copies(e, n);
    LeadingCopies(e, n, s[n..]);
    assert s[..n] + s[n..] == s;
  }

  /** The digits of `src`, in base 58, least significant first. */
  method EncodeDigits(src: seq<nat>, dst: array<nat>) returns (length: nat)
    requires Digital(src, 256)
    requires dst.Length > 0 && forall k :: 0 <= k < dst.Length ==> dst[k] == 0
    requires forall i :: 0 <= i <= |src| ==> |Digits(BigEndian(src[..i], 256), 58)| <= dst.Length
    modifies dst
    ensures length <= dst.Length && dst[..length] == Digits(BigEndian(src, 256), 58)
  {
    hide Digits, BigEndian, Digital, Val;
    ZeroDigits(256, 58);
    length := 1;
    assert dst[..1] == [0];
    assert src[..0] == [];
    var i := 0;
    while i < |src|
      invariant i <= |src| && 1 <= length <= dst.Length
      invariant dst[..length] == Digits(BigEndian(src[..i], 256), 58)
      invariant forall k :: length <= k < dst.Length ==> dst[k] == 0
    {
      DigitsCanonical(BigEndian(src[..i], 256), 58);
      BigEndianStep(src, i, 256);
      assert dst[0..0 + length] == dst[..length];
      DigitBelow(src, i, 256);
      length := Shift(dst, 0, length, dst.Length, 256, src[i], 58);
      DigitsCanonical(BigEndian(src[..i + 1], 256), 58);
      assert dst[0..0 + length] == dst[..length];
      i := i + 1;
    }
    assert src[..i] == src;
  }

  lemma DigitBelow(s: seq<nat>, i: nat, base: nat)
    requires Digital(s, base) && i < |s|
    ensures s[i] < base
  {
  }

  lemma ZeroDigits(from: nat, to: nat)
    requires to > 1
    ensures Digits(BigEndian([], from), to) == [0]
  {
  }

  lemma FirstOfCharacters(digits: seq<nat>)
    requires Digital(digits, 58) && digits != []
    ensures Digital(digits[1..], 58) && |DIGITS| == 58
    ensures Characters(digits) == [DIGITS[digits[0]]] + Characters(digits[1..])
  {
    hide Lookup, DIGITS;
    DigitLookup(digits[0]);
  }

  lemma {:induction false} CharacterAt(digits: seq<nat>, i: nat)
    requires Digital(digits, 58) && i < |digits|
    ensures |DIGITS| == 58 && Characters(digits)[i] == DIGITS[digits[i]]
  {
    hide Lookup, DIGITS, Characters;
    FirstOfCharacters(digits);
    if i > 0 { CharacterAt(digits[1..], i - 1); }
  }

  /** The text: the leading '1's, then the digits from the last to the first, and the closing NUL. */
  method WriteText(zeros: nat, dst: array<nat>, length: nat) returns (b58: array<char>)
    requires length <= dst.Length && Digital(dst[..length], 58)
    ensures fresh(b58) && b58.Length == zeros + length + 1 && b58[zeros + length] == '\0'
    ensures Digital(Reverse(dst[..length]), 58)
    ensures b58[..zeros + length] == Copies('1', zeros) + Characters(Reverse(dst[..length]))
  {
    hide Characters, Lookup, Reverse, DIGITS;
    ghost var digits := Reverse(dst[..length]);
    ghost var text := Characters(digits);
    b58 := new char[zeros + length + 1](_ => '\0');
    var i := 0;
    while i < zeros
      invariant i <= zeros
      invariant forall k :: 0 <= k < i ==> b58[k] == '1'
      invariant b58[zeros + length] == '\0'
    {
      b58[i] := '1';
      i := i + 1;
    }
    i := 0;
    while i < length
      invariant i <= length
      invariant forall k :: 0 <= k < zeros ==> b58[k] == '1'
      invariant forall k :: 0 <= k < i ==> b58[zeros + k] == text[k]
      invariant b58[zeros + length] == '\0'
    {
      CharacterAt(digits, i);
      assert dst[length - i - 1] == digits[i];
      b58[zeros + i] := DIGITS[dst[length - i - 1]];
      i := i + 1;
    }
    TwoParts(b58[..zeros + length], zeros, text);
  }

  lemma TwoParts(s: string, zeros: nat, text: string)
    requires |s| == zeros + |text|
    requires forall k :: 0 <= k < zeros ==> s[k] == '1'
    requires forall k :: 0 <= k < |text| ==> s[zeros + k] == text[k]
    ensures s == Copies('1', zeros) + text
  {
  }

  method Encode(data: seq<nat>) returns (b58: array<char>, written: nat)
    requires Digital(data, 256)
    ensures written == |Encoded(data)|
    ensures data != [] ==> b58.Length == written + 1 && b58[..written] == Encoded(data) && b58[written] == '\0'
  {
    hide Leading, Digits, BigEndian, Digital, Reverse, Characters, Val;
    if data == [] {
      b58 := new char[0];
      return b58, 0;
    }
    var zeros := CountLeading(data, 0);
    var src := data[zeros..];
    var dst := new nat[|data| * 138 / 100 + 1](_ => 0);
    PrefixesFit(data, zeros);
    var length := EncodeDigits(src, dst);
    DigitsCanonical(BigEndian(src, 256), 58);
    b58 := WriteText(zeros, dst, length);
    written := length + zeros;
  }

  lemma PrefixesFit(data: seq<nat>, z: nat)
    requires Digital(data, 256) && z <= |data|
    ensures Digital(data[z..], 256)
    ensures forall i :: 0 <= i <= |data| - z ==>
      |Digits(BigEndian(data[z..][..i], 256), 58)| <= |data| * 138 / 100 + 1
  {
    hide Digits, BigEndian;
    forall i | 0 <= i <= |data| - z
      ensures |Digits(BigEndian(data[z..][..i], 256), 58)| <= |data| * 138 / 100 + 1
    {
      EncodeFits(data[z..][..i], |data|);
    }
  }

  lemma LookupsAt(s: string, i: nat)
    requires i < |s|
    ensures Lookups(s)[i] == Lookup(s[i])
  {
    hide Lookup;
    if i > 0 { LookupsAt(s[1..], i - 1); }
  }

  /** The cells hold the bytes of the number that the base-58 `digits` stand for, and zeros around them. */
  ghost predicate Holds(cells: seq<nat>, start: nat, length: nat, digits: seq<nat>) {
    && start + length <= |cells|
    && cells[start..start + length] == Digits(BigEndian(digits, 58), 256)
    && (forall k :: start + length <= k < |cells| ==> cells[k] == 0)
    && (forall k :: 0 <= k < start ==> cells[k] == 0)
  }

  lemma DigitAdded(digits: seq<nat>, digit: nat)
    requires Digital(digits, 58) && digit < 58
    ensures BigEndian(digits + [digit], 58) == 58 * BigEndian(digits, 58) + digit
    ensures 0 < |Digits(58 * BigEndian(digits, 58) + digit, 256)| <= |digits| + 1
  {
    hide Digits;
    var longer := digits + [digit];
    BigEndianStep(longer, |digits|, 58);
    assert longer[..|digits| + 1] == longer && longer[..|digits|] == digits;
    DecodeFits(longer);
    DigitsCanonical(BigEndian(longer, 58), 256);
  }

  /** One character; at most one byte per character is in use, which the source asserts. */
  method DecodeDigit(dst: array<nat>, start: nat, count: nat, room: nat, ghost digits: seq<nat>, digit: nat)
    returns (length: nat)
    requires start + room < dst.Length && 0 < count <= room && |digits| < room
    requires Digital(digits, 58) && digit < 58
    requires Holds(dst[..], start, count, digits)
    modifies dst
    ensures 0 < length <= |digits| + 1 && Holds(dst[..], start, length, digits + [digit])
  {
    hide Digits, Val, Digital, Canonical, BigEndian;
    DigitsCanonical(BigEndian(digits, 58), 256);
    DigitAdded(digits, digit);
    assert dst[..][start..start + count] == dst[start..start + count];
    length := Shift(dst, start, count, room, 58, digit, 256);
    assert dst[..][start..start + length] == dst[start..start + length];
  }

  /** The bytes of `src`, least significant first, from `start` on; -1 for a character outside the alphabet. */
  method DecodeDigits(src: string, dst: array<nat>, start: nat) returns (length: int)
    requires start + |src| < dst.Length && forall k :: 0 <= k < dst.Length ==> dst[k] == 0
    modifies dst
    ensures length == -1 <==> INVALID in Lookups(src)
    ensures length != -1 ==> 0 < length <= dst.Length - start && Holds(dst[..], start, length, Lookups(src))
  {
    hide Digits, BigEndian, Lookup;
    ghost var digits := Lookups(src);
    ZeroDigits(58, 256);
    length := 1;
    assert dst[..][start..start + 1] == [0];
    assert digits[..0] == [];
    var i := 0;
    while i < |src|
      invariant i <= |src| && 1 <= length && (length <= |src| || i == |src| == 0)
      invariant INVALID !in digits[..i] && Digital(digits[..i], 58)
      invariant Holds(dst[..], start, length, digits[..i])
    {
      var digit := Lookup(src[i]);
      LookupsAt(src, i);
      if digit == INVALID { return -1; }
      LookupDigit(src[i]);
      length := DecodeDigit(dst, start, length, |src|, digits[..i], digit);
      assert digits[..i + 1] == digits[..i] + [digit];
      i := i + 1;
    }
    assert digits[..i] == digits;
  }

  /** The state of the reversing loop after `i` exchanges. */
  ghost predicate HalfReversed(s: seq<nat>, was: seq<nat>, i: nat) {
    && |s| == |was| && 2 * i <= |s|
    && (forall k :: i <= k < |s| - i ==> s[k] == was[k])
    && (forall k :: 0 <= k < i || |s| - i <= k < |s| ==> s[k] == was[|s| - 1 - k])
  }

  lemma ExchangeStep(s: seq<nat>, was: seq<nat>, i: nat)
    requires HalfReversed(s, was, i) && i < |s| / 2
    ensures HalfReversed(s[i := s[|s| - i - 1]][|s| - i - 1 := s[i]], was, i + 1)
  {
  }

  method ReverseIn(dst: array<nat>, start: nat, length: nat)
    requires start + length <= dst.Length
    modifies dst
    ensures dst[start..start + length] == Reverse(old(dst[start..start + length]))
    ensures forall k :: 0 <= k < start || start + length <= k < dst.Length ==> dst[k] == old(dst[k])
  {
    hide Reverse;
    ghost var was := dst[start..start + length];
    var i := 0;
    while i < length / 2
      invariant i <= length / 2
      invariant HalfReversed(dst[start..start + length], was, i)
      invariant forall k :: 0 <= k < start || start + length <= k < dst.Length ==> dst[k] == old(dst[k])
    {
      ghost var before := dst[start..start + length];
      dst[start + i], dst[start + length - i - 1] := dst[start + length - i - 1], dst[start + i];
      assert dst[start..start + length]
        == before[i := before[|before| - i - 1]][|before| - i - 1 := before[i]];
      ExchangeStep(before, was, i);
      i := i + 1;
    }
  }

  method Decode(text: string) returns (dst: array<nat>, written: int)
    requires forall i :: 0 <= i < |text| ==> 0 < text[i] as int < 128
    ensures written == -1 <==> Decoded(text).Invalid?
    ensures written != -1 ==> 0 <= written <= dst.Length && dst[..written] == Decoded(text).data
  {
    hide Leading, Digits, BigEndian, Lookups, Lookup, Reverse, DIGITS, Copies;
    dst := new nat[|text| + 1](_ => 0);
    if text == "" { return dst, 0; }
    var offset := CountLeading(text, '1');
    var length := DecodeDigits(text[offset..], dst, offset);
    if length == -1 { return dst, -1; }
    ReverseIn(dst, offset, length);
    written := length + offset;
    OnlyCopies(dst[..offset], 0);
    Halves(dst[..], offset, length);
  }

  lemma OnlyCopies<T>(s: seq<T>, e: T)
    requires forall i :: 0 <= i < |s| ==> s[i] == e
    ensures s == Copies(e, |s|)
  {
  }

  lemma Halves<T>(s: seq<T>, a: nat, b: nat)
    requires a + b <= |s|
    ensures s[..a + b] == s[..a] + s[a..a + b]
  {
  }
}
