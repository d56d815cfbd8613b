/** Transactions on the wire, after src/satoshi-types.c and src/satoshi-tx.c. */
module Tx {
  import opened Bytes
  import opened Wire

  const OUTPOINT_SIZE := 36
  const MAX_SIZE := 4_000_000

  /** `scripts` keeps its length prefix. */
  datatype Txin = Txin(outpoint: seq<byte>, isCoinbase: bool, scripts: seq<byte>, cbScripts: nat, sequence: nat)
  datatype Txout = Txout(value: nat, scripts: seq<byte>)

  /** `numItems` is a signed number; `items` is empty unless it is positive. */
  datatype Witness = Witness(numItems: int, items: seq<seq<byte>>)

  /** `version` and the output values are the unsigned readings of their bytes. */
  datatype Transaction = Transaction(
    version: nat, hasFlag: bool, txins: seq<Txin>, txouts: seq<Txout>,
    cbWitnesses: nat, witnesses: seq<Witness>, lockTime: nat,
    txid: seq<byte>, wtxid: seq<byte>)

  type Hash = seq<byte> -> seq<byte>

  function Twice(sha: Hash, data: seq<byte>): seq<byte> {
    sha(sha(data))
  }

  // ----- Inputs -----

  function CoinbaseOutpoint(): seq<byte> {
    Zeros(32) + [0xFF, 0xFF, 0xFF, 0xFF]
  }

  ghost predicate ValidTxin(t: Txin) {
    && |t.outpoint| == OUTPOINT_SIZE && t.isCoinbase == (t.outpoint == CoinbaseOutpoint())
    && Varstr(t.scripts) && t.cbScripts == |Content(t.scripts)|
    && t.sequence < 0x1_0000_0000
  }

  function ParseTxin(s: seq<byte>): Parsed<Txin> {
    if |s| < OUTPOINT_SIZE then Reject
    else
      match ParseVarstr(s[OUTPOINT_SIZE..])
      case Reject => Reject
      case Halt => Halt
      case Ok(v, k) =>
        var rest := s[OUTPOINT_SIZE..][k..];
        if |rest| < 4 then Reject
        else
          ParsedVarstr(s[OUTPOINT_SIZE..]);
          var o := s[..OUTPOINT_SIZE];
          Ok(Txin(o, o == CoinbaseOutpoint(), v, |Content(v)|, FromLE(rest[..4])), OUTPOINT_SIZE + k + 4)
  }

  function PrintTxin(t: Txin): seq<byte> {
    t.outpoint + t.scripts + ToLE(t.sequence, 4)
  }

  lemma TxinRoundTrip(t: Txin, rest: seq<byte>)
    requires ValidTxin(t)
    ensures ParseTxin(PrintTxin(t) + rest) == Ok(t, |PrintTxin(t)|)
  {
    hide ParseVarint, FromLE, ToLE, Pow256, Content, ParseVarstr, CoinbaseOutpoint;
    var s := PrintTxin(t) + rest;
    var tail := ToLE(t.sequence, 4) + rest;
    assert s[..OUTPOINT_SIZE] == t.outpoint;
    assert s[OUTPOINT_SIZE..] == t.scripts + tail;
    VarstrRoundTrip(t.scripts, tail);
    assert (t.scripts + tail)[|t.scripts|..] == tail;
    assert tail[..4] == ToLE(t.sequence, 4);
    Widths();
    FromToLE(t.sequence, 4);
  }

  predicate Anything(s: seq<byte>) {
    true
  }

  lemma TxinReprinted(s: seq<byte>)
    requires ParseTxin(s).Ok?
    ensures var r := ParseTxin(s);
      ValidTxin(r.v) && r.n <= |s| && PrintTxin(r.v) == s[..r.n]
  {
    hide FromLE, ToLE, Pow256, Content, CoinbaseOutpoint, ParseVarint;
    var r := ParseTxin(s);
    var t := s[OUTPOINT_SIZE..];
    ParsedVarstr(t);
    var k := ParseVarstr(t).n;
    ToFromLE(t[k..][..4]);
    Widths();
    assert s[..r.n] == s[..OUTPOINT_SIZE] + t[..k] + t[k..][..4];
  }

  /** Where the fields of an input lie. It is a coinbase input exactly for 32 zero bytes and the index 0xFFFFFFFF. */
  lemma TxinFields(s: seq<byte>)
    requires ParseTxin(s).Ok?
    ensures var r := ParseTxin(s); var t := r.v;
      && 41 <= r.n <= |s|
      && t.outpoint == s[..36]
      && (t.isCoinbase <==> (forall k :: 0 <= k < 32 ==> s[k] == 0) && FromLE(s[32..36]) == 0xFFFF_FFFF)
      && t.scripts == s[36..r.n - 4] && |t.scripts| == ParseVarint(s[36..]).n + t.cbScripts
      && t.sequence == FromLE(s[r.n - 4..r.n])
  {
    hide FromLE;
    var r := ParseTxin(s);
    ParsedVarstr(s[36..]);
    var k := ParseVarstr(s[36..]).n;
    assert s[36..][..k] == s[36..r.n - 4] && s[36..][k..][..4] == s[r.n - 4..r.n];
    LastIndex(s[32..36]);
    var o := s[..36];
    assert o[..32] + o[32..] == o && o[32..] == s[32..36];
    assert CoinbaseOutpoint()[..32] == Zeros(32) && CoinbaseOutpoint()[32..] == [0xFF, 0xFF, 0xFF, 0xFF];
    if forall k :: 0 <= k < 32 ==> s[k] == 0 { assert o[..32] == Zeros(32); }
    if o == CoinbaseOutpoint() { assert forall k :: 0 <= k < 32 ==> s[k] == o[k] == CoinbaseOutpoint()[..32][k]; }
  }

  lemma LastIndex(s: seq<byte>)
    requires |s| == 4
    ensures FromLE(s) == 0xFFFF_FFFF <==> s == [0xFF, 0xFF, 0xFF, 0xFF]
  {
    assert FromLE(s) == s[0] + 256 * FromLE(s[1..]);
    assert FromLE(s[1..]) == s[1] + 256 * FromLE(s[2..]) && s[1..][1..] == s[2..];
    assert FromLE(s[2..]) == s[2] + 256 * FromLE(s[3..]) && s[2..][1..] == s[3..];
    assert FromLE(s[3..]) == s[3] + 256 * FromLE([]) && s[3..][1..] == [];
    assert s == [s[0], s[1], s[2], s[3]];
  }

  // ----- Outputs -----

  ghost predicate ValidTxout(t: Txout) {
    t.value < TWO_64 && Varstr(t.scripts)
  }

  function ParseTxout(s: seq<byte>): Parsed<Txout> {
    if |s| < 8 then Reject
    else
      match ParseVarstr(s[8..])
      case Reject => Reject
      case Halt => Halt
      case Ok(v, k) => Ok(Txout(FromLE(s[..8]), v), 8 + k)
  }

  function PrintTxout(t: Txout): seq<byte> {
    ToLE(t.value, 8) + t.scripts
  }

  lemma TxoutRoundTrip(t: Txout, rest: seq<byte>)
    requires ValidTxout(t)
    ensures ParseTxout(PrintTxout(t) + rest) == Ok(t, |PrintTxout(t)|)
  {
    hide ParseVarint, FromLE, ToLE, Pow256, ParseVarstr;
    var s := PrintTxout(t) + rest;
    assert s[..8] == ToLE(t.value, 8);
    assert s[8..] == t.scripts + rest;
    VarstrRoundTrip(t.scripts, rest);
    Widths();
    FromToLE(t.value, 8);
  }

  lemma TxoutReprinted(s: seq<byte>)
    requires ParseTxout(s).Ok?
    ensures var r := ParseTxout(s);
      ValidTxout(r.v) && r.n <= |s| && PrintTxout(r.v) == s[..r.n]
  {
    hide FromLE, ToLE, Pow256, ParseVarint;
    var r := ParseTxout(s);
    ParsedVarstr(s[8..]);
    ToFromLE(s[..8]);
    Widths();
    assert s[..r.n] == s[..8] + s[8..][..r.n - 8];
  }

  // ----- Witnesses -----

  function Signed(v: nat): int {
    if v < TWO_63 then v else v - TWO_64
  }

  function Unsigned(v: int): nat
    requires v >= -TWO_63
  {
    if v >= 0 then v else v + TWO_64
  }

  ghost predicate ValidWitness(w: Witness) {
    -TWO_63 <= w.numItems < TWO_63 && |w.items| == (if w.numItems > 0 then w.numItems else 0)
    && forall v :: v in w.items ==> Varstr(v)
  }

  function ParseWitness(s: seq<byte>): Parsed<Witness> {
    match ParseVarint(s)
    case Reject => Reject
    case Halt => Halt
    case Ok(c, k) =>
      if Signed(c) <= 0 then Ok(Witness(Signed(c), []), k)
      else
        match ParseMany(ParseVarstr, s[k..], c)
        case Reject => Reject
        case Halt => Halt
        case Ok(items, m) => Ok(Witness(c, items), k + m)
  }

  function Itself(s: seq<byte>): seq<byte> {
    s
  }

  function PrintWitness(w: Witness): seq<byte>
    requires w.numItems >= -TWO_63
  {
    Varint(Unsigned(w.numItems)) + PrintMany(Itself, w.items)
  }

  lemma WitnessRoundTrip(w: Witness, rest: seq<byte>)
    requires ValidWitness(w)
    ensures ParseWitness(PrintWitness(w) + rest) == Ok(w, |PrintWitness(w)|)
  {
    hide ParseVarint, Varint, ParseVarstr;
    var c := Unsigned(w.numItems);
    var tail := PrintMany(Itself, w.items) + rest;
    VarintRoundTrip(c, tail);
    assert PrintWitness(w) + rest == Varint(c) + tail;
    assert (Varint(c) + tail)[|Varint(c)|..] == tail;
    forall v, r | v in w.items ensures ParseVarstr(Itself(v) + r) == Ok(v, |Itself(v)|) {
      VarstrRoundTrip(v, r);
    }
    ManyRoundTrip(ParseVarstr, Itself, w.items, rest);
  }

  lemma VarstrReprints()
    ensures Reprints(ParseVarstr, Itself, Anything)
  {
  }

  lemma {:induction false} ManyVarstrs(s: seq<byte>, n: nat)
    requires ParseMany(ParseVarstr, s, n).Ok?
    ensures forall v :: v in ParseMany(ParseVarstr, s, n).v ==> Varstr(v)
    decreases n
  {
    hide ParseVarint;
    if n > 0 {
      ParsedVarstr(s);
      ManyVarstrs(s[ParseVarstr(s).n..], n - 1);
    }
  }

  lemma {:induction false} AllAnything<T>(f: seq<byte> -> Parsed<T>, s: seq<byte>, n: nat)
    ensures AllMinimal(f, Anything, s, n)
    decreases n
  {
    if n > 0 && f(s).Ok? && f(s).n <= |s| {
      AllAnything(f, s[f(s).n..], n - 1);
    }
  }

  /** Two parts, of which the second is printed exactly. */
  lemma JoinParts(a: seq<byte>, b: seq<byte>, s: seq<byte>, k: nat, m: nat)
    requires k + m <= |s| && |a| <= k && b == s[k..][..m]
    ensures (a + b == s[..k + m] <==> a == s[..k]) && |a + b| <= k + m
  {
    assert s[..k + m] == s[..k] + s[k..][..m];
    assert a + b == s[..k + m] ==> |a| == k && (a + b)[..k] == s[..k + m][..k] == s[..k];
  }

  lemma ParsedItems(s: seq<byte>, n: nat)
    requires ParseMany(ParseVarstr, s, n).Ok?
    ensures var r := ParseMany(ParseVarstr, s, n);
      && |r.v| == n && r.n <= |s| && PrintMany(Itself, r.v) == s[..r.n]
      && forall v :: v in r.v ==> Varstr(v)
  {
    hide ParseVarint;
    VarstrReprints();
    ManyReprints(ParseVarstr, Itself, Anything, s, n);
    AllAnything(ParseVarstr, s, n);
    ManyVarstrs(s, n);
  }

  lemma WitnessReprinted(s: seq<byte>)
    requires ParseWitness(s).Ok?
    ensures var r := ParseWitness(s);
      && ValidWitness(r.v) && r.n <= |s| && |PrintWitness(r.v)| <= r.n
      && (PrintWitness(r.v) == s[..r.n] <==> Minimal(s))
      && (|PrintWitness(r.v)| == r.n ==> Minimal(s))
  {
    hide Varint, ParseVarstr, ParseVarint, ParseMany, PrintMany, Varstr, VarintSize;
    var r, c := ParseWitness(s), ParseVarint(s);
    VarintReencoded(s);
    assert Unsigned(r.v.numItems) == c.v;
    if Signed(c.v) > 0 {
      ParsedItems(s[c.n..], c.v);
    } else {
      assert PrintMany(Itself, []) == s[c.n..][..0] by { NoItems(); }
    }
    JoinParts(Varint(c.v), PrintMany(Itself, r.v.items), s, c.n, r.n - c.n);
  }

  lemma NoItems()
    ensures PrintMany(Itself, []) == []
  {
  }

  // ----- The parts of a transaction -----

  /** A count, which must be positive as a signed number, and that many records. */
  function Counted<T>(f: seq<byte> -> Parsed<T>, s: seq<byte>): Parsed<seq<T>> {
    match ParseVarint(s)
    case Reject => Reject
    case Halt => Halt
    case Ok(c, k) =>
      if Signed(c) <= 0 then Reject
      else
        match ParseMany(f, s[k..], c)
        case Reject => Reject
        case Halt => Halt
        case Ok(vs, m) => Ok(vs, k + m)
  }

  function PrintCounted<T>(g: T -> seq<byte>, xs: seq<T>): seq<byte> {
    Varint(|xs|) + PrintMany(g, xs)
  }

  lemma CountedRoundTrip<T>(f: seq<byte> -> Parsed<T>, g: T -> seq<byte>, xs: seq<T>, rest: seq<byte>)
    requires 0 < |xs| < TWO_63
    requires forall x, r :: x in xs ==> f(g(x) + r) == Ok(x, |g(x)|)
    ensures Counted(f, PrintCounted(g, xs) + rest) == Ok(xs, |PrintCounted(g, xs)|)
  {
    hide ParseVarint, Varint;
    var tail := PrintMany(g, xs) + rest;
    VarintRoundTrip(|xs|, tail);
    assert PrintCounted(g, xs) + rest == Varint(|xs|) + tail;
    assert (Varint(|xs|) + tail)[|Varint(|xs|)|..] == tail;
    ManyRoundTrip(f, g, xs, rest);
  }

  lemma CountedReprinted<T>(f: seq<byte> -> Parsed<T>, g: T -> seq<byte>, s: seq<byte>)
    requires Reprints(f, g, Anything) && Counted(f, s).Ok?
    ensures var r := Counted(f, s);
      && r.n <= |s| && |PrintCounted(g, r.v)| <= r.n && 0 < |r.v| < TWO_63
      && (PrintCounted(g, r.v) == s[..r.n] <==> Minimal(s))
      && (|PrintCounted(g, r.v)| == r.n <==> Minimal(s))
  {
    hide Varint, ParseVarint, PrintMany;
    var r, c := Counted(f, s), ParseVarint(s);
    VarintReencoded(s);
    ManyReprints(f, g, Anything, s[c.n..], c.v);
    AllAnything(f, s[c.n..], c.v);
    JoinParts(Varint(c.v), PrintMany(g, r.v), s, c.n, r.n - c.n);
  }

  datatype Tail = Tail(cbWitnesses: nat, witnesses: seq<Witness>, lockTime: nat)

  /** The witnesses, if there are more bytes than a lock time takes, and the lock time. */
  function ParseTail(s: seq<byte>, count: nat, hasFlag: bool): Parsed<Tail> {
    match if hasFlag && |s| > 4 then ParseMany(ParseWitness, s, count) else Ok([], 0)
    case Reject => Reject
    case Halt => Halt
    case Ok(ws, k) =>
      if |s| < k + 4 then Reject else Ok(Tail(k, ws, FromLE(s[k..][..4])), k + 4)
  }

  ghost predicate ValidWitnesses(ws: seq<Witness>) {
    forall w :: w in ws ==> ValidWitness(w)
  }

  function WitnessBytes(w: Witness): seq<byte> {
    if w.numItems >= -TWO_63 then PrintWitness(w) else []
  }

  function PrintTail(t: Tail, hasFlag: bool): seq<byte> {
    (if hasFlag then PrintMany(WitnessBytes, t.witnesses) else []) + ToLE(t.lockTime, 4)
  }

  lemma WitnessesTakeSpace(ws: seq<Witness>)
    requires ws != [] && ValidWitnesses(ws)
    ensures |PrintMany(WitnessBytes, ws)| > 0
  {
    assert ValidWitness(ws[0]);
    assert |WitnessBytes(ws[0])| > 0;
  }

  lemma TailRoundTrip(t: Tail, hasFlag: bool, count: nat, rest: seq<byte>)
    requires t.lockTime < 0x1_0000_0000 && ValidWitnesses(t.witnesses) && count > 0
    requires if hasFlag then |t.witnesses| == count && t.cbWitnesses == |PrintMany(WitnessBytes, t.witnesses)|
             else t.witnesses == [] && t.cbWitnesses == 0
    ensures ParseTail(PrintTail(t, hasFlag) + rest, count, hasFlag) == Ok(t, |PrintTail(t, hasFlag)|)
  {
    hide FromLE, ToLE, Pow256, ParseWitness, PrintWitness, ValidWitness, ParseMany, PrintMany;
    var ws := if hasFlag then PrintMany(WitnessBytes, t.witnesses) else [];
    var lock := ToLE(t.lockTime, 4);
    var s := PrintTail(t, hasFlag) + rest;
    assert s == ws + (lock + rest);
    assert s[|ws|..] == lock + rest && (lock + rest)[..4] == lock;
    Widths();
    FromToLE(t.lockTime, 4);
    if hasFlag {
      forall w, r | w in t.witnesses ensures ParseWitness(WitnessBytes(w) + r) == Ok(w, |WitnessBytes(w)|) {
        assert WitnessBytes(w) == PrintWitness(w) by { assert ValidWitness(w); NumItemsInRange(w); }
        WitnessRoundTrip(w, r);
      }
      WitnessesTakeSpace(t.witnesses);
      ManyRoundTrip(ParseWitness, WitnessBytes, t.witnesses, lock + rest);
    }
  }

  lemma NumItemsInRange(w: Witness)
    requires ValidWitness(w)
    ensures -TWO_63 <= w.numItems
  {
  }

  lemma WitnessesReprint()
    ensures Reprints(ParseWitness, WitnessBytes, Minimal)
  {
    hide ParseWitness, PrintWitness, Minimal;
    forall s | ParseWitness(s).Ok?
      ensures var r := ParseWitness(s);
        && r.n <= |s| && |WitnessBytes(r.v)| <= r.n
        && (WitnessBytes(r.v) == s[..r.n] <==> Minimal(s))
        && (|WitnessBytes(r.v)| == r.n ==> Minimal(s))
    {
      WitnessReprinted(s);
    }
  }

  lemma {:induction false} ParsedWitnesses(s: seq<byte>, n: nat)
    requires ParseMany(ParseWitness, s, n).Ok?
    ensures ValidWitnesses(ParseMany(ParseWitness, s, n).v)
    decreases n
  {
    hide ParseWitness, ValidWitness;
    if n > 0 {
      WitnessReprinted(s);
      ParsedWitnesses(s[ParseWitness(s).n..], n - 1);
    }
  }

  /** The tail holds witnesses. */
  predicate HasWitnesses(s: seq<byte>, hasFlag: bool) {
    hasFlag && |s| > 4
  }

  lemma TailReprinted(s: seq<byte>, count: nat, hasFlag: bool)
    requires count > 0 && ParseTail(s, count, hasFlag).Ok?
    ensures var r := ParseTail(s, count, hasFlag);
      var minimal := AllMinimal(ParseWitness, Minimal, s, count);
      && r.n <= |s| && ValidWitnesses(r.v.witnesses) && r.v.lockTime < 0x1_0000_0000
      && |r.v.witnesses| == (if HasWitnesses(s, hasFlag) then count else 0)
      && (HasWitnesses(s, hasFlag) ==> (|PrintMany(WitnessBytes, r.v.witnesses)| == r.v.cbWitnesses <==> minimal))
      && (!HasWitnesses(s, hasFlag) || minimal ==> PrintTail(r.v, hasFlag) == s[..r.n])
      && (r.v.cbWitnesses > 0 <==> HasWitnesses(s, hasFlag))
      && |PrintMany(WitnessBytes, r.v.witnesses)| <= r.v.cbWitnesses
      && s[r.n - 4..r.n] == ToLE(r.v.lockTime, 4)
  {
    hide ParseWitness, WitnessBytes, Minimal, ValidWitness, FromLE, ToLE, Pow256, AllMinimal;
    var r := ParseTail(s, count, hasFlag);
    var k := r.n - 4;
    Widths();
    ToFromLE(s[k..][..4]);
    assert s[..r.n] == s[..k] + s[k..][..4];
    assert s[k..][..4] == s[k..r.n];
    if HasWitnesses(s, hasFlag) {
      hide ParseMany, PrintMany;
      WitnessesReprint();
      ManyReprints(ParseWitness, WitnessBytes, Minimal, s, count);
      ParsedWitnesses(s, count);
      WitnessesNotEmpty(s, count);
    } else {
      assert s[..0] == [];
    }
  }

  lemma WitnessesNotEmpty(s: seq<byte>, n: nat)
    requires n > 0 && ParseMany(ParseWitness, s, n).Ok?
    ensures ParseMany(ParseWitness, s, n).n > 0
  {
    assert ParseWitness(s).n > 0;
  }

  /** What follows the version and the flag. `hashed` is what the transaction id is computed from. */
  datatype Body = Body(txins: seq<Txin>, txouts: seq<Txout>, tail: Tail, hashed: seq<byte>)

  function ParseBody(s: seq<byte>, hasFlag: bool): Parsed<Body> {
    match Counted(ParseTxin, s)
    case Reject => Reject
    case Halt => Halt
    case Ok(ins, a) =>
      if a > |s| then Reject
      else
        match Counted(ParseTxout, s[a..])
        case Reject => Reject
        case Halt => Halt
        case Ok(outs, b) =>
          if b > |s[a..]| then Reject
          else
            match ParseTail(s[a..][b..], |ins|, hasFlag)
            case Reject => Reject
            case Halt => Halt
            case Ok(t, c) =>
              Ok(Body(ins, outs, t, s[..a] + s[a..][..b] + ToLE(t.lockTime, 4)), a + b + c)
  }

  function PrintInputs(ins: seq<Txin>): seq<byte> {
    PrintCounted(PrintTxin, ins)
  }

  function PrintOutputs(outs: seq<Txout>): seq<byte> {
    PrintCounted(PrintTxout, outs)
  }

  function PrintBody(b: Body, hasFlag: bool): seq<byte> {
    PrintInputs(b.txins) + (PrintOutputs(b.txouts) + PrintTail(b.tail, hasFlag))
  }

  ghost predicate ValidBody(b: Body, hasFlag: bool) {
    && 0 < |b.txins| < TWO_63 && (forall t :: t in b.txins ==> ValidTxin(t))
    && 0 < |b.txouts| < TWO_63 && (forall t :: t in b.txouts ==> ValidTxout(t))
    && ValidWitnesses(b.tail.witnesses) && b.tail.lockTime < 0x1_0000_0000
    && if hasFlag then
         |b.tail.witnesses| == |b.txins| && b.tail.cbWitnesses == |PrintMany(WitnessBytes, b.tail.witnesses)|
       else b.tail.witnesses == [] && b.tail.cbWitnesses == 0
  }

  lemma BodyRoundTrip(b: Body, hasFlag: bool, rest: seq<byte>)
    requires ValidBody(b, hasFlag)
    requires b.hashed == PrintInputs(b.txins) + PrintOutputs(b.txouts) + ToLE(b.tail.lockTime, 4)
    ensures ParseBody(PrintBody(b, hasFlag) + rest, hasFlag) == Ok(b, |PrintBody(b, hasFlag)|)
  {
    hide ParseTail, PrintTail, Counted, PrintCounted, ToLE, ValidTxin, ValidTxout, ValidWitnesses, PrintMany;
    var tail := PrintTail(b.tail, hasFlag) + rest;
    var outs := PrintOutputs(b.txouts) + tail;
    var s := PrintBody(b, hasFlag) + rest;
    assert s == PrintInputs(b.txins) + outs;
    forall t, r | t in b.txins ensures ParseTxin(PrintTxin(t) + r) == Ok(t, |PrintTxin(t)|) {
      TxinRoundTrip(t, r);
    }
    forall t, r | t in b.txouts ensures ParseTxout(PrintTxout(t) + r) == Ok(t, |PrintTxout(t)|) {
      TxoutRoundTrip(t, r);
    }
    CountedRoundTrip(ParseTxin, PrintTxin, b.txins, outs);
    CountedRoundTrip(ParseTxout, PrintTxout, b.txouts, tail);
    TailRoundTrip(b.tail, hasFlag, |b.txins|, rest);
    var a, c := |PrintInputs(b.txins)|, |PrintOutputs(b.txouts)|;
    assert s[a..] == outs && s[..a] == PrintInputs(b.txins);
    assert outs[c..] == tail && outs[..c] == PrintOutputs(b.txouts);
  }

  /** Every count that the bytes hold is written in as few bytes as possible. */
  ghost predicate MinimalBody(s: seq<byte>, hasFlag: bool)
    requires ParseBody(s, hasFlag).Ok?
  {
    var ins := Counted(ParseTxin, s);
    var outs := Counted(ParseTxout, s[ins.n..]);
    var t := s[ins.n..][outs.n..];
    && Minimal(s) && Minimal(s[ins.n..])
    && (HasWitnesses(t, hasFlag) ==> AllMinimal(ParseWitness, Minimal, t, |ins.v|))
  }

  lemma ListsReprint()
    ensures Reprints(ParseTxin, PrintTxin, Anything) && Reprints(ParseTxout, PrintTxout, Anything)
  {
    hide ParseTxin, PrintTxin, ParseTxout, PrintTxout;
    forall s | ParseTxin(s).Ok?
      ensures ParseTxin(s).n <= |s| && PrintTxin(ParseTxin(s).v) == s[..ParseTxin(s).n]
    {
      TxinReprinted(s);
    }
    forall s | ParseTxout(s).Ok?
      ensures ParseTxout(s).n <= |s| && PrintTxout(ParseTxout(s).v) == s[..ParseTxout(s).n]
    {
      TxoutReprinted(s);
    }
  }

  lemma {:induction false} ParsedInputs(s: seq<byte>, n: nat)
    requires ParseMany(ParseTxin, s, n).Ok?
    ensures forall t :: t in ParseMany(ParseTxin, s, n).v ==> ValidTxin(t)
    decreases n
  {
    hide ParseTxin, ValidTxin;
    if n > 0 {
      TxinReprinted(s);
      ParsedInputs(s[ParseTxin(s).n..], n - 1);
    }
  }

  lemma {:induction false} ParsedOutputs(s: seq<byte>, n: nat)
    requires ParseMany(ParseTxout, s, n).Ok?
    ensures forall t :: t in ParseMany(ParseTxout, s, n).v ==> ValidTxout(t)
    decreases n
  {
    hide ParseTxout, ValidTxout;
    if n > 0 {
      TxoutReprinted(s);
      ParsedOutputs(s[ParseTxout(s).n..], n - 1);
    }
  }

  /** Where the three parts of a parsed body lie. */
  lemma BodyParts(s: seq<byte>, hasFlag: bool)
    requires ParseBody(s, hasFlag).Ok?
    ensures var r := ParseBody(s, hasFlag);
      var ins := Counted(ParseTxin, s);
      var outs := Counted(ParseTxout, s[ins.n..]);
      var tail := ParseTail(s[ins.n..][outs.n..], |ins.v|, hasFlag);
      && ins.n <= |s| && outs.n <= |s[ins.n..]| && 0 < |ins.v|
      && |PrintInputs(ins.v)| <= ins.n && |PrintOutputs(outs.v)| <= outs.n
      && (PrintInputs(ins.v) == s[..ins.n] <==> Minimal(s))
      && (PrintOutputs(outs.v) == s[ins.n..][..outs.n] <==> Minimal(s[ins.n..]))
      && (|PrintInputs(ins.v)| == ins.n <==> Minimal(s))
      && (|PrintOutputs(outs.v)| == outs.n <==> Minimal(s[ins.n..]))
      && tail.n >= 4 && r.n == ins.n + outs.n + tail.n <= |s|
      && s[..r.n] == s[..ins.n] + (s[ins.n..][..outs.n] + s[ins.n..][outs.n..][..tail.n])
      && s[r.n - 4..r.n] == ToLE(r.v.tail.lockTime, 4)
  {
    hide ParseTail, Counted, Minimal, AllMinimal, ToLE, FromLE, PrintCounted, PrintTail, PrintMany;
    ListsReprint();
    CountedReprinted(ParseTxin, PrintTxin, s);
    var a := Counted(ParseTxin, s);
    CountedReprinted(ParseTxout, PrintTxout, s[a.n..]);
    var b := Counted(ParseTxout, s[a.n..]);
    var t := s[a.n..][b.n..];
    TailReprinted(t, |a.v|, hasFlag);
    TailNonEmpty(t, |a.v|, hasFlag);
    Segments(s, a.n, b.n, ParseTail(t, |a.v|, hasFlag).n);
  }

  lemma Segments(s: seq<byte>, a: nat, b: nat, c: nat)
    requires a + b + c <= |s| && c >= 4
    ensures s[..a + b + c] == s[..a] + (s[a..][..b] + s[a..][b..][..c])
    ensures s[a + b + c - 4..a + b + c] == s[a..][b..][c - 4..c]
  {
    assert s[a..][..b] == s[a..a + b];
    assert s[a..][b..] == s[a + b..];
    assert s[a + b..][..c] == s[a + b..a + b + c];
    assert s[a + b..][c - 4..c] == s[a + b + c - 4..a + b + c];
    assert s[..a + b + c] == s[..a + b] + s[a + b..a + b + c];
    assert s[..a + b] == s[..a] + s[a..a + b];
  }

  lemma TailNonEmpty(s: seq<byte>, count: nat, hasFlag: bool)
    requires ParseTail(s, count, hasFlag).Ok?
    ensures ParseTail(s, count, hasFlag).n >= 4
  {
  }

  lemma BodyIsValid(s: seq<byte>, hasFlag: bool)
    requires ParseBody(s, hasFlag).Ok?
    ensures var b := ParseBody(s, hasFlag).v;
      && 0 < |b.txins| < TWO_63 && (forall t :: t in b.txins ==> ValidTxin(t))
      && 0 < |b.txouts| < TWO_63 && (forall t :: t in b.txouts ==> ValidTxout(t))
      && ValidWitnesses(b.tail.witnesses) && b.tail.lockTime < 0x1_0000_0000
      && |b.tail.witnesses| == (if b.tail.cbWitnesses > 0 then |b.txins| else 0)
      && (b.tail.cbWitnesses > 0 ==> hasFlag)
      && |PrintMany(WitnessBytes, b.tail.witnesses)| <= b.tail.cbWitnesses
  {
    hide ParseTail, Minimal, AllMinimal, ToLE, PrintTail, ParseMany, ValidTxin, ValidTxout, PrintMany, ParseVarint;
    var a := Counted(ParseTxin, s);
    var b := Counted(ParseTxout, s[a.n..]);
    ListsReprint();
    CountedReprinted(ParseTxin, PrintTxin, s);
    CountedReprinted(ParseTxout, PrintTxout, s[a.n..]);
    TailReprinted(s[a.n..][b.n..], |a.v|, hasFlag);
    ParsedInputs(s[ParseVarint(s).n..], ParseVarint(s).v);
    ParsedOutputs(s[a.n..][ParseVarint(s[a.n..]).n..], ParseVarint(s[a.n..]).v);
  }

  // ----- Whole transactions -----

  function BodyAt(s: seq<byte>, hasFlag: bool): (b: seq<byte>)
    requires |s| >= 6
  {
    if hasFlag then s[6..] else s[4..]
  }

  function ParseTx(sha: Hash, s: seq<byte>): Parsed<Transaction> {
    if |s| == 0 || |s| > MAX_SIZE then Halt
    else if |s| < 6 || (s[4] == 0 && s[5] != 1) then Reject
    else
      var hasFlag := s[4] == 0;
      match ParseBody(BodyAt(s, hasFlag), hasFlag)
      case Reject => Reject
      case Halt => Halt
      case Ok(b, k) =>
        var n := k + if hasFlag then 6 else 4;
        if n > |s| then Reject
        else Ok(Transaction(FromLE(s[..4]), hasFlag, b.txins, b.txouts,
                            b.tail.cbWitnesses, b.tail.witnesses, b.tail.lockTime,
                            Twice(sha, s[..4] + b.hashed), if hasFlag then Twice(sha, s[..n]) else Zeros(32)), n)
  }

  function TailOf(tx: Transaction): Tail {
    Tail(tx.cbWitnesses, tx.witnesses, tx.lockTime)
  }

  /** What the transaction id is the double hash of: the serialization without flag and witnesses. */
  function Legacy(tx: Transaction): seq<byte> {
    ToLE(tx.version, 4) + Hashed(tx)
  }

  function Hashed(tx: Transaction): seq<byte> {
    PrintInputs(tx.txins) + PrintOutputs(tx.txouts) + ToLE(tx.lockTime, 4)
  }

  function BodyOf(tx: Transaction): Body {
    Body(tx.txins, tx.txouts, TailOf(tx), Hashed(tx))
  }

  function Flag(hasFlag: bool): seq<byte> {
    if hasFlag then [0, 1] else []
  }

  function PrintTx(tx: Transaction): seq<byte> {
    ToLE(tx.version, 4) + (Flag(tx.hasFlag) + PrintBody(BodyOf(tx), tx.hasFlag))
  }

  datatype Printed = Bytes(s: seq<byte>) | Aborted

  /** Serialization stops at an assertion when the flag is set and the witnesses are absent, have an item
      count that is negative, or do not take the space that was recorded when they were parsed. */
  predicate Serializable(tx: Transaction) {
    tx.hasFlag ==>
      && tx.cbWitnesses > 0 && |tx.witnesses| == |tx.txins|
      && (forall i :: 0 <= i < |tx.witnesses| ==> tx.witnesses[i].numItems >= 0)
      && |PrintMany(WitnessBytes, tx.witnesses)| == tx.cbWitnesses
  }

  function SerializeTx(tx: Transaction): Printed {
    if Serializable(tx) then Bytes(PrintTx(tx)) else Aborted
  }

  ghost predicate ValidTx(sha: Hash, tx: Transaction) {
    && tx.version < 0x1_0000_0000
    && ValidBody(BodyOf(tx), tx.hasFlag)
    && (forall w :: w in tx.witnesses ==> w.numItems >= 0)
    && tx.txid == Twice(sha, Legacy(tx))
    && tx.wtxid == if tx.hasFlag then Twice(sha, PrintTx(tx)) else Zeros(32)
  }

  lemma FirstInputByte(ins: seq<Txin>)
    requires ins != []
    ensures PrintInputs(ins) != [] && PrintInputs(ins)[0] != 0
  {
  }

  /** Where version, flag and body lie. */
  lemma LayOut(version: seq<byte>, hasFlag: bool, body: seq<byte>, rest: seq<byte>)
    requires |version| == 4 && |body| >= 2 && body[0] != 0
    ensures var printed := version + (Flag(hasFlag) + body);
      var s := printed + rest;
      && |s| >= 6 && s[..4] == version && (s[4] == 0 <==> hasFlag) && (hasFlag ==> s[5] == 1)
      && BodyAt(s, hasFlag) == body + rest
      && |printed| == |body| + (if hasFlag then 6 else 4) && s[..|printed|] == printed
  {
  }

  /** A well-formed transaction is read back from its serialization, whatever follows, over its exact length. */
  lemma TxRoundTrip(sha: Hash, tx: Transaction, rest: seq<byte>)
    requires ValidTx(sha, tx) && |PrintTx(tx)| + |rest| <= MAX_SIZE
    ensures SerializeTx(tx) == Bytes(PrintTx(tx))
    ensures ParseTx(sha, PrintTx(tx) + rest) == Ok(tx, |PrintTx(tx)|)
  {
    hide ToLE, FromLE, Pow256, ParseBody, PrintBody, PrintInputs, PrintOutputs, PrintMany, Twice, BodyAt, Flag,
      ValidWitnesses, ValidTxin, ValidTxout, WitnessBytes, Zeros, Hashed;
    if tx.hasFlag { WitnessesTakeSpace(tx.witnesses); }
    BodyRoundTripOf(tx, rest);
    BodyStart(tx);
    Widths();
    FromToLE(tx.version, 4);
    LayOut(ToLE(tx.version, 4), tx.hasFlag, PrintBody(BodyOf(tx), tx.hasFlag), rest);
  }

  lemma BodyRoundTripOf(tx: Transaction, rest: seq<byte>)
    requires ValidBody(BodyOf(tx), tx.hasFlag)
    ensures ParseBody(PrintBody(BodyOf(tx), tx.hasFlag) + rest, tx.hasFlag)
         == Ok(BodyOf(tx), |PrintBody(BodyOf(tx), tx.hasFlag)|)
  {
    BodyRoundTrip(BodyOf(tx), tx.hasFlag, rest);
  }

  lemma BodyStart(tx: Transaction)
    requires tx.txins != []
    ensures var b := PrintBody(BodyOf(tx), tx.hasFlag); |b| >= 2 && b[0] != 0
  {
    hide PrintInputs, PrintMany;
    FirstInputByte(tx.txins);
    assert |ToLE(tx.lockTime, 4)| == 4;
  }

  /** All counts in the bytes of a transaction are minimal. */
  ghost predicate MinimalTx(sha: Hash, s: seq<byte>)
    requires ParseTx(sha, s).Ok?
  {
    MinimalBody(BodyAt(s, s[4] == 0), s[4] == 0)
  }

  lemma BodyReprinted(s: seq<byte>, hasFlag: bool)
    requires ParseBody(s, hasFlag).Ok?
    ensures var r := ParseBody(s, hasFlag);
      var kept := hasFlag ==> r.v.tail.cbWitnesses == |PrintMany(WitnessBytes, r.v.tail.witnesses)|;
      && r.n <= |s|
      && (kept ==> (PrintBody(r.v, hasFlag) == s[..r.n] <==> MinimalBody(s, hasFlag)))
      && (MinimalBody(s, hasFlag) && (hasFlag ==> r.v.tail.cbWitnesses > 0) ==> kept)
  {
    hide ParseTail, Counted, Minimal, AllMinimal, ToLE, FromLE, PrintTail, PrintMany, PrintInputs, PrintOutputs;
    BodyParts(s, hasFlag);
    var a := Counted(ParseTxin, s);
    var b := Counted(ParseTxout, s[a.n..]);
    var t := s[a.n..][b.n..];
    var c := ParseTail(t, |a.v|, hasFlag);
    TailReprinted(t, |a.v|, hasFlag);
    TailLength(c.v, hasFlag);
    var v := ParseBody(s, hasFlag).v;
    SplitEqual(PrintInputs(v.txins), PrintOutputs(v.txouts) + PrintTail(v.tail, hasFlag),
               s[..a.n], s[a.n..][..b.n] + t[..c.n]);
    SplitEqual(PrintOutputs(v.txouts), PrintTail(v.tail, hasFlag), s[a.n..][..b.n], t[..c.n]);
  }

  lemma TailLength(t: Tail, hasFlag: bool)
    ensures |PrintTail(t, hasFlag)| == 4 + if hasFlag then |PrintMany(WitnessBytes, t.witnesses)| else 0
  {
  }

  /** Equal halves make equal wholes, and conversely when neither first half and neither second half is longer. */
  lemma SplitEqual(a: seq<byte>, b: seq<byte>, a': seq<byte>, b': seq<byte>)
    ensures a == a' && b == b' ==> a + b == a' + b'
    ensures |a| <= |a'| && |b| <= |b'| && a + b == a' + b' ==> a == a' && b == b'
  {
    if |a| <= |a'| && |b| <= |b'| && a + b == a' + b' {
      assert a == (a + b)[..|a|] && a' == (a' + b')[..|a'|];
      assert b == (a + b)[|a|..] && b' == (a' + b')[|a'|..];
    }
  }

  /** Serializing a parsed transaction gives back the bytes read exactly when all counts were minimal, and
      under the flag the witnesses were there and no item count was negative. */
  lemma TxReserialized(sha: Hash, s: seq<byte>)
    requires ParseTx(sha, s).Ok?
    ensures var r := ParseTx(sha, s);
      && r.n <= |s|
      && ValidWitnesses(r.v.witnesses) && |r.v.witnesses| in {0, |r.v.txins|}
      && |PrintMany(WitnessBytes, r.v.witnesses)| <= r.v.cbWitnesses
      && (SerializeTx(r.v) == Bytes(s[..r.n]) <==>
          && MinimalTx(sha, s)
          && (r.v.hasFlag ==> r.v.cbWitnesses > 0)
          && (forall w :: w in r.v.witnesses ==> w.numItems >= 0))
  {
    hide ParseBody, MinimalBody, ToLE, FromLE, Pow256, PrintBody, PrintMany, Twice;
    var r := ParseTx(sha, s);
    var flag := r.v.hasFlag;
    var t := BodyAt(s, flag);
    var b := ParseBody(t, flag);
    BodyReprinted(t, flag);
    BodyIsValid(t, flag);
    ToFromLE(s[..4]);
    assert s[..r.n] == s[..4] + (Flag(flag) + t[..b.n]);
    PrintBodyOf(r.v, b.v);
    SplitEqual(ToLE(r.v.version, 4), Flag(flag) + PrintBody(b.v, flag), s[..4], Flag(flag) + t[..b.n]);
    SplitEqual(Flag(flag), PrintBody(b.v, flag), Flag(flag), t[..b.n]);
  }

  lemma PrintBodyOf(tx: Transaction, b: Body)
    requires b.txins == tx.txins && b.txouts == tx.txouts && b.tail == TailOf(tx)
    ensures PrintBody(BodyOf(tx), tx.hasFlag) == PrintBody(b, tx.hasFlag)
  {
  }

  /** The input count and the output count are minimal. */
  ghost predicate MinimalLists(sha: Hash, s: seq<byte>)
    requires ParseTx(sha, s).Ok?
  {
    var t := BodyAt(s, s[4] == 0);
    Minimal(t) && Minimal(t[Counted(ParseTxin, t).n..])
  }

  /** The bytes of the two lists, as they were read. */
  ghost function Lists(t: seq<byte>, hasFlag: bool): seq<byte>
    requires ParseBody(t, hasFlag).Ok?
  {
    BodyParts(t, hasFlag);
    var i := Counted(ParseTxin, t).n;
    t[..i + Counted(ParseTxout, t[i..]).n]
  }

  /** What is hashed of a body: the lists as they were read, and the lock time. */
  lemma BodyHashed(t: seq<byte>, hasFlag: bool)
    requires ParseBody(t, hasFlag).Ok?
    ensures var b := ParseBody(t, hasFlag);
      4 <= b.n <= |t| && b.v.hashed == Lists(t, hasFlag) + t[b.n - 4..b.n]
  {
    hide Counted, ToLE, FromLE, ParseTail, Minimal, PrintInputs, PrintOutputs;
    BodyParts(t, hasFlag);
    var i := Counted(ParseTxin, t).n;
    var o := Counted(ParseTxout, t[i..]).n;
    assert t[..i] + t[i..][..o] == t[..i + o];
  }

  /** What a parsed transaction keeps of the bytes and of its body. */
  lemma TxParts(sha: Hash, s: seq<byte>)
    requires ParseTx(sha, s).Ok?
    ensures var r := ParseTx(sha, s); var flag := s[4] == 0; var t := BodyAt(s, flag); var b := ParseBody(t, flag);
      && |s| >= 6 && r.v.hasFlag == flag && b.Ok? && r.n == b.n + (if flag then 6 else 4) <= |s|
      && r.v.txid == Twice(sha, s[..4] + b.v.hashed)
      && t == s[if flag then 6 else 4..]
  {
    hide ParseBody;
  }

  /** The transaction id is the double hash of the version, the two lists as they were read, and the lock time. */
  lemma IdOfBytes(sha: Hash, s: seq<byte>)
    requires ParseTx(sha, s).Ok?
    ensures var r := ParseTx(sha, s); var t := BodyAt(s, r.v.hasFlag);
      && ParseBody(t, r.v.hasFlag).Ok? && 4 <= r.n <= |s|
      && r.v.txid == Twice(sha, s[..4] + Lists(t, r.v.hasFlag) + s[r.n - 4..r.n])
  {
    hide ParseTx, ParseBody, Lists, Twice, BodyAt;
    TxParts(sha, s);
    var r := ParseTx(sha, s);
    var t := BodyAt(s, r.v.hasFlag);
    var b := ParseBody(t, r.v.hasFlag);
    BodyHashed(t, r.v.hasFlag);
    LastFour(s, r.n - b.n, b.n);
    GroupThree(s[..4], Lists(t, r.v.hasFlag), s[r.n - 4..r.n]);
  }

  lemma LastFour(s: seq<byte>, k: nat, n: nat)
    requires 4 <= n && k + n <= |s|
    ensures s[k + n - 4..k + n] == s[k..][n - 4..n]
  {
  }

  lemma GroupThree(a: seq<byte>, b: seq<byte>, c: seq<byte>)
    ensures a + (b + c) == a + b + c
  {
  }

  /** The same for the lists printed with minimal counts, and the witness id for what has marker and flag. */
  lemma IdOfLists(sha: Hash, s: seq<byte>)
    requires ParseTx(sha, s).Ok?
    ensures var r := ParseTx(sha, s);
      && r.n <= |s|
      && (MinimalLists(sha, s) ==> r.v.txid == Twice(sha, Legacy(r.v)))
      && (r.v.hasFlag ==> r.v.wtxid == Twice(sha, s[..r.n]))
  {
    hide ParseTail, Counted, Minimal, ToLE, FromLE, PrintTail, PrintMany, PrintInputs, PrintOutputs, Twice;
    var r := ParseTx(sha, s);
    var flag := r.v.hasFlag;
    var t := BodyAt(s, flag);
    var b := ParseBody(t, flag);
    BodyParts(t, flag);
    ToFromLE(s[..4]);
  }

  lemma IdUnflagged(sha: Hash, s: seq<byte>)
    requires var r := ParseTx(sha, s); r.Ok? && !r.v.hasFlag
    ensures var r := ParseTx(sha, s); r.n <= |s| && r.v.txid == Twice(sha, s[..r.n])
  {
    hide ParseBody, ToLE, FromLE, Twice;
    var r, t := ParseTx(sha, s), BodyAt(s, false);
    var b := ParseBody(t, false);
    ToFromLE(s[..4]);
    UnflaggedTail(t, b.v);
    assert s[..r.n] == s[..4] + t[..b.n];
  }

  /** The transaction id leaves out marker, flag and witnesses; the witness id covers everything. */
  lemma TransactionIds(sha: Hash, s: seq<byte>)
    requires ParseTx(sha, s).Ok?
    ensures var r := ParseTx(sha, s); var t := BodyAt(s, r.v.hasFlag);
      && ParseBody(t, r.v.hasFlag).Ok? && 4 <= r.n <= |s|
      && r.v.txid == sha(sha(s[..4] + Lists(t, r.v.hasFlag) + s[r.n - 4..r.n]))
      && (MinimalLists(sha, s) ==> r.v.txid == sha(sha(Legacy(r.v))))
      && (!r.v.hasFlag ==> r.v.txid == sha(sha(s[..r.n])))
      && (r.v.hasFlag ==> r.v.wtxid == sha(sha(s[..r.n])))
  {
    hide ParseTx, ParseBody, Lists, BodyAt, MinimalLists, Legacy;
    TxParts(sha, s);
    IdOfBytes(sha, s);
    IdOfLists(sha, s);
    if !ParseTx(sha, s).v.hasFlag { IdUnflagged(sha, s); }
  }

  lemma UnflaggedTail(t: seq<byte>, b: Body)
    requires ParseBody(t, false).Ok? && b == ParseBody(t, false).v
    ensures ParseBody(t, false).n <= |t| && b.hashed == t[..ParseBody(t, false).n]
  {
    hide Counted, ToLE, FromLE, PrintTail, Minimal, PrintInputs, PrintOutputs;
    BodyParts(t, false);
    var a := Counted(ParseTxin, t);
    var c := Counted(ParseTxout, t[a.n..]);
    var u := t[a.n..][c.n..];
    TailReprinted(u, |a.v|, false);
    assert u[..4] == u[4 - 4..4];
  }

  /** What parsing yields under those conditions is well formed. */
  lemma ParsedIsValid(sha: Hash, s: seq<byte>)
    requires ParseTx(sha, s).Ok? && MinimalTx(sha, s)
    requires var tx := ParseTx(sha, s).v;
      (tx.hasFlag ==> tx.cbWitnesses > 0) && forall w :: w in tx.witnesses ==> w.numItems >= 0
    ensures ValidTx(sha, ParseTx(sha, s).v)
  {
    hide Minimal, ToLE, FromLE, PrintTail, PrintMany, PrintInputs, PrintOutputs, Twice, ParseBody, PrintBody,
      Counted, AllMinimal, Pow256;
    var r := ParseTx(sha, s);
    var t := BodyAt(s, r.v.hasFlag);
    TxReserialized(sha, s);
    IdOfLists(sha, s);
    BodyIsValid(t, r.v.hasFlag);
    BodyReprinted(t, r.v.hasFlag);
    Widths();
  }

  /** Printing a parsed transaction takes no more bytes than were read, and the same number only for the same bytes. */
  lemma PrintedNoLonger(sha: Hash, s: seq<byte>)
    requires ParseTx(sha, s).Ok?
    ensures var r := ParseTx(sha, s);
      && r.n <= |s| && |PrintTx(r.v)| <= r.n
      && (|PrintTx(r.v)| == r.n ==> PrintTx(r.v) == s[..r.n])
  {
    hide ParseBody, MinimalBody, ToLE, FromLE, Pow256, PrintBody, PrintMany, Twice, ValidWitnesses;
    var r := ParseTx(sha, s);
    var flag := r.v.hasFlag;
    var t := BodyAt(s, flag);
    var b := ParseBody(t, flag);
    BodyNoLonger(t, flag);
    ToFromLE(s[..4]);
    assert s[..r.n] == s[..4] + (Flag(flag) + t[..b.n]);
    PrintBodyOf(r.v, b.v);
  }

  lemma BodyNoLonger(s: seq<byte>, hasFlag: bool)
    requires ParseBody(s, hasFlag).Ok?
    ensures var r := ParseBody(s, hasFlag);
      && r.n <= |s| && |PrintBody(r.v, hasFlag)| <= r.n
      && (|PrintBody(r.v, hasFlag)| == r.n ==> PrintBody(r.v, hasFlag) == s[..r.n])
  {
    hide ParseTail, Counted, Minimal, AllMinimal, ToLE, FromLE, PrintTail, PrintMany, PrintInputs, PrintOutputs,
      ValidWitnesses, MinimalBody;
    BodyParts(s, hasFlag);
    var a := Counted(ParseTxin, s);
    var b := Counted(ParseTxout, s[a.n..]);
    var t := s[a.n..][b.n..];
    var c := ParseTail(t, |a.v|, hasFlag);
    TailReprinted(t, |a.v|, hasFlag);
    TailLength(c.v, hasFlag);
    TailRead(t, |a.v|, hasFlag);
  }

  lemma TailRead(s: seq<byte>, count: nat, hasFlag: bool)
    requires ParseTail(s, count, hasFlag).Ok?
    ensures var r := ParseTail(s, count, hasFlag);
      r.n == r.v.cbWitnesses + 4 && (r.v.cbWitnesses > 0 ==> hasFlag)
  {
  }
}
