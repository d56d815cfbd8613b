/** The pieces of the wire format, after src/satoshi-types.c: variable-length integers and strings, and
    lists of records. A parser reads a prefix of the bytes that are left. */
module Wire {
  import opened Bytes

  /** `n` bytes were read; or the input is malformed; or the process stops at a failed assertion. */
  datatype Parsed<T> = Ok(v: T, n: nat) | Reject | Halt

  const TWO_63: int := 0x8000_0000_0000_0000
  const TWO_64: int := 0x1_0000_0000_0000_0000

  // ----- Variable-length integers -----

  function VarintSize(v: nat): (k: nat) {
    if v < 0xFD then 1 else if v <= 0xFFFF then 3 else if v <= 0xFFFF_FFFF then 5 else 9
  }

  /** The size that the first byte announces. */
  function SizeByTag(tag: byte): (k: nat)
    ensures k == 1 || k == 3 || k == 5 || k == 9
  {
    if tag < 0xFD then 1 else if tag == 0xFD then 3 else if tag == 0xFE then 5 else 9
  }

  function Varint(v: nat): (s: seq<byte>)
    ensures |s| == VarintSize(v)
  {
    if v < 0xFD then [v]
    else if v <= 0xFFFF then [0xFD] + ToLE(v, 2)
    else if v <= 0xFFFF_FFFF then [0xFE] + ToLE(v, 4)
    else [0xFF] + ToLE(v, 8)
  }

  function ParseVarint(s: seq<byte>): (r: Parsed<nat>)
    ensures !r.Halt? && (r.Ok? ==> 0 < r.n <= |s| && r.n == SizeByTag(s[0]) && r.v < TWO_64)
  {
    if s == [] || |s| < SizeByTag(s[0]) then Reject
    else
      var k := SizeByTag(s[0]);
      WidthBound(s[1..k]);
      Ok(if k == 1 then s[0] else FromLE(s[1..k]), k)
  }

  lemma Widths()
    ensures Pow256(1) == 0x100 && Pow256(2) == 0x1_0000
    ensures Pow256(4) == 0x1_0000_0000 && Pow256(8) == TWO_64
  {
    assert Pow256(3) == 0x100_0000;
    assert Pow256(5) == 0x100_0000_0000;
    assert Pow256(6) == 0x1_0000_0000_0000;
    assert Pow256(7) == 0x100_0000_0000_0000;
  }

  lemma WidthBound(s: seq<byte>)
    requires |s| in {0, 2, 4, 8}
    ensures FromLE(s) < TWO_64
    ensures |s| == 2 ==> FromLE(s) <= 0xFFFF
    ensures |s| == 4 ==> FromLE(s) <= 0xFFFF_FFFF
  {
    Widths();
  }

  /** A number is read back from its encoding, whatever follows. */
  lemma VarintRoundTrip(v: nat, rest: seq<byte>)
    requires v < TWO_64
    ensures ParseVarint(Varint(v) + rest) == Ok(v, VarintSize(v))
  {
    hide FromLE, ToLE, Pow256;
    Widths();
    var k := VarintSize(v);
    var s := Varint(v) + rest;
    assert s[0] == Varint(v)[0];
    assert k > 1 ==> s[1..k] == ToLE(v, k - 1);
    if k > 1 { FromToLE(v, k - 1); }
  }

  /** The number was written in as few bytes as possible. */
  predicate Minimal(s: seq<byte>) {
    var r := ParseVarint(s);
    r.Ok? && r.n == VarintSize(r.v)
  }

  /** Re-encoding a number never takes more bytes, and gives the bytes read exactly when they were minimal. */
  lemma VarintReencoded(s: seq<byte>)
    requires ParseVarint(s).Ok?
    ensures var r := ParseVarint(s);
      VarintSize(r.v) <= r.n && (Varint(r.v) == s[..r.n] <==> Minimal(s))
  {
    hide FromLE, ToLE, Pow256;
    var r := ParseVarint(s);
    var k := r.n;
    WidthBound(s[1..k]);
    if k == VarintSize(r.v) {
      if k > 1 { ToFromLE(s[1..k]); }
      assert s[..k] == [s[0]] + s[1..k];
    }
  }

  // ----- Variable-length strings -----

  /**
   * A string keeps its length prefix. A size of 2^63 or more is negative as a signed number and passes
   * the length check, and the assertion on the copy's size then stops the process.
   */
  function ParseVarstr(s: seq<byte>): (r: Parsed<seq<byte>>)
    ensures r.Ok? ==> r.n <= |s| && r.v == s[..r.n]
  {
    var c := ParseVarint(s);
    if !c.Ok? then Reject
    else if c.n + c.v >= TWO_63 then Halt
    else if |s| < c.n + c.v then Reject
    else Ok(s[..c.n + c.v], c.n + c.v)
  }

  /** A string with its prefix: what parsing yields. */
  predicate Varstr(v: seq<byte>) {
    ParseVarstr(v) == Ok(v, |v|)
  }

  lemma PrefixVarint(s: seq<byte>, rest: seq<byte>)
    requires ParseVarint(s).Ok?
    ensures ParseVarint(s + rest) == ParseVarint(s)
  {
    hide FromLE;
    assert (s + rest)[0] == s[0];
    assert (s + rest)[1..SizeByTag(s[0])] == s[1..SizeByTag(s[0])];
  }

  lemma VarstrRoundTrip(v: seq<byte>, rest: seq<byte>)
    requires Varstr(v)
    ensures v != [] && ParseVarstr(v + rest) == Ok(v, |v|)
  {
    PrefixVarint(v, rest);
    assert (v + rest)[..|v|] == v;
  }

  lemma ParsedVarstr(s: seq<byte>)
    requires ParseVarstr(s).Ok?
    ensures Varstr(ParseVarstr(s).v) && ParseVarstr(s).n > 0
  {
    hide FromLE;
    var r := ParseVarstr(s);
    var k := ParseVarint(s).n;
    var t := s[..r.n];
    assert t[0] == s[0];
    assert t[1..k] == s[1..k];
    assert t[..|t|] == t;
  }

  /** varstr_new: the prefix is minimal. */
  function NewVarstr(data: seq<byte>): (v: seq<byte>)
  {
    Varint(|data|) + data
  }

  lemma NewVarstrParsed(data: seq<byte>)
    requires |data| + 9 < TWO_63
    ensures Varstr(NewVarstr(data)) && Content(NewVarstr(data)) == data
  {
    VarintRoundTrip(|data|, data);
    var v := NewVarstr(data);
    assert v[..|v|] == v;
  }

  /** The bytes after the prefix. */
  function Content(v: seq<byte>): seq<byte>
    requires Varstr(v)
  {
    v[ParseVarint(v).n..]
  }

  // ----- Lists -----

  /** `n` records one after the other. */
  function ParseMany<T>(f: seq<byte> -> Parsed<T>, s: seq<byte>, n: nat): (r: Parsed<seq<T>>)
    decreases n
  {
    if n == 0 then Ok([], 0)
    else
      match f(s)
      case Reject => Reject
      case Halt => Halt
      case Ok(v, k) =>
        if k > |s| then Reject
        else
          match ParseMany(f, s[k..], n - 1)
          case Reject => Reject
          case Halt => Halt
          case Ok(vs, m) => Ok([v] + vs, k + m)
  }

  function PrintMany<T>(g: T -> seq<byte>, xs: seq<T>): seq<byte> {
    if xs == [] then [] else g(xs[0]) + PrintMany(g, xs[1..])
  }

  lemma FirstParsed<T>(f: seq<byte> -> Parsed<T>, x: T, first: seq<byte>, tail: seq<byte>, n: nat)
    requires n > 0 && f(first + tail) == Ok(x, |first|) && ParseMany(f, tail, n - 1).Ok?
    ensures var r := ParseMany(f, tail, n - 1);
      ParseMany(f, first + tail, n) == Ok([x] + r.v, |first| + r.n)
  {
    assert (first + tail)[|first|..] == tail;
  }

  lemma {:induction false} ManyRoundTrip<T>(f: seq<byte> -> Parsed<T>, g: T -> seq<byte>, xs: seq<T>, rest: seq<byte>)
    requires forall x, r :: x in xs ==> f(g(x) + r) == Ok(x, |g(x)|)
    ensures ParseMany(f, PrintMany(g, xs) + rest, |xs|) == Ok(xs, |PrintMany(g, xs)|)
  {
    if xs != [] {
      var tail := PrintMany(g, xs[1..]) + rest;
      ManyRoundTrip(f, g, xs[1..], rest);
      hide ParseMany;
      assert xs[0] in xs;
      assert PrintMany(g, xs) + rest == g(xs[0]) + tail;
      FirstParsed(f, xs[0], g(xs[0]), tail, |xs|);
      assert [xs[0]] + xs[1..] == xs;
    }
  }

  /** Every record satisfies `min` where it starts. */
  ghost predicate AllMinimal<T>(f: seq<byte> -> Parsed<T>, min: seq<byte> -> bool, s: seq<byte>, n: nat)
    decreases n
  {
    n > 0 && f(s).Ok? && f(s).n <= |s| ==> min(s) && AllMinimal(f, min, s[f(s).n..], n - 1)
  }

  /** Printing what was parsed never takes more bytes, and gives the bytes read exactly when they satisfy `min`. */
  ghost predicate Reprints<T>(f: seq<byte> -> Parsed<T>, g: T -> seq<byte>, min: seq<byte> -> bool) {
    forall s :: f(s).Ok? ==>
      && f(s).n <= |s| && |g(f(s).v)| <= f(s).n
      && (g(f(s).v) == s[..f(s).n] <==> min(s))
      && (|g(f(s).v)| == f(s).n ==> min(s))
  }

  lemma {:induction false} ManyReprints<T>(f: seq<byte> -> Parsed<T>, g: T -> seq<byte>, min: seq<byte> -> bool,
                                           s: seq<byte>, n: nat)
    requires Reprints(f, g, min) && ParseMany(f, s, n).Ok?
    ensures var r := ParseMany(f, s, n);
      && |r.v| == n && r.n <= |s| && |PrintMany(g, r.v)| <= r.n
      && (PrintMany(g, r.v) == s[..r.n] <==> AllMinimal(f, min, s, n))
      && (|PrintMany(g, r.v)| == r.n ==> AllMinimal(f, min, s, n))
    decreases n
  {
    if n > 0 {
      var k := f(s).n;
      ManyReprints(f, g, min, s[k..], n - 1);
      var r, t := ParseMany(f, s, n), ParseMany(f, s[k..], n - 1);
      assert r.v[1..] == t.v && r.v[0] == f(s).v;
      assert s[..r.n] == s[..k] + s[k..][..t.n];
    }
  }
}
