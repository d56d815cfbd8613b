/** Signature digests of version 0 witness programs, after src/segwit-tx.c and src/satoshi-tx.c.
    A SHA-256 state is the bytes it has been fed. */
module Sighash {
  import opened Bytes
  import opened Wire
  import opened Tx

  const ALL := 1
  const NONE := 2
  const SINGLE := 3
  const ANYONE_CAN_PAY := 0x80

  predicate AnyoneCanPay(kind: nat) {
    kind / ANYONE_CAN_PAY % 2 == 1
  }

  function Base(kind: nat): nat {
    kind % 0x20
  }

  // ----- The preimage of section "Specification" of BIP 143 -----

  function OutpointOf(t: Txin): seq<byte> {
    t.outpoint
  }

  function SequenceOf(t: Txin): seq<byte> {
    ToLE(t.sequence, 4)
  }

  function HashPrevouts(sha: Hash, tx: Transaction, kind: nat): seq<byte> {
    if AnyoneCanPay(kind) then Zeros(32) else Twice(sha, PrintMany(OutpointOf, tx.txins))
  }

  function HashSequence(sha: Hash, tx: Transaction, kind: nat): seq<byte> {
    if AnyoneCanPay(kind) || Base(kind) == SINGLE || Base(kind) == NONE then Zeros(32)
    else Twice(sha, PrintMany(SequenceOf, tx.txins))
  }

  function HashOutputs(sha: Hash, tx: Transaction, i: nat, kind: nat): seq<byte> {
    if Base(kind) != SINGLE && Base(kind) != NONE then Twice(sha, PrintMany(PrintTxout, tx.txouts))
    else if Base(kind) == SINGLE && i < |tx.txouts| then Twice(sha, PrintTxout(tx.txouts[i]))
    else Zeros(32)
  }

  /** The fields from the outpoint on. */
  function Rest(sha: Hash, tx: Transaction, i: nat, scriptCode: seq<byte>, value: nat, kind: nat): seq<byte>
    requires i < |tx.txins|
  {
    tx.txins[i].outpoint + scriptCode + ToLE(value, 8) + ToLE(tx.txins[i].sequence, 4)
    + HashOutputs(sha, tx, i, kind) + ToLE(tx.lockTime, 4) + ToLE(kind, 4)
  }

  /** The ten fields. `scriptCode` is a string with its length prefix. */
  function Preimage(sha: Hash, tx: Transaction, i: nat, scriptCode: seq<byte>, value: nat, kind: nat): seq<byte>
    requires i < |tx.txins|
  {
    ToLE(tx.version, 4) + HashPrevouts(sha, tx, kind) + HashSequence(sha, tx, kind)
    + Rest(sha, tx, i, scriptCode, value, kind)
  }

  /** The redeem script of an input, a string with its prefix, and the position after the last executed
      code separator. */
  datatype Redeem = NoRedeem | Redeem(scripts: seq<byte>, start: nat)

  predicate ValidRedeem(r: Redeem) {
    r.Redeem? ==> Varstr(r.scripts)
  }

  /** What remains of the redeem script, or nothing. */
  function Remaining(r: Redeem): seq<byte>
    requires ValidRedeem(r)
  {
    if r.NoRedeem? || r.start >= |Content(r.scripts)| then [] else Content(r.scripts)[r.start..]
  }

  /** Of a script with a minimal prefix exactly the bytes from the separator on remain. */
  lemma RemainingBytes(script: seq<byte>, start: nat)
    requires |script| < 0x7FFF_FFFF_FFFF_0000
    ensures var r := Redeem(Varint(|script|) + script, start);
      ValidRedeem(r) && Remaining(r) == if start >= |script| then [] else script[start..]
  {
    NewVarstrParsed(script);
    assert NewVarstr(script) == Varint(|script|) + script;
  }

  // ----- Pre-hashing -----

  /** The hash of all outpoints, or zeros for no inputs, is fed to `ctx`. */
  method PrehashPrevouts(sha: Hash, ctx: seq<byte>, txins: seq<Txin>) returns (fed: seq<byte>)
    ensures fed == ctx + if txins == [] then Zeros(32) else Twice(sha, PrintMany(OutpointOf, txins))
  {
    if txins == [] { return ctx + Zeros(32); }
    var temp := FeedAll(OutpointOf, txins);
    var hash := sha(temp);
    return ctx + sha(hash);
  }

  method PrehashSequences(sha: Hash, ctx: seq<byte>, txins: seq<Txin>) returns (fed: seq<byte>)
    ensures fed == ctx + if txins == [] then Zeros(32) else Twice(sha, PrintMany(SequenceOf, txins))
  {
    if txins == [] { return ctx + Zeros(32); }
    var temp := FeedAll(SequenceOf, txins);
    var hash := sha(temp);
    return ctx + sha(hash);
  }

  /** The loops that feed one field of every record to a fresh state. */
  method FeedAll<T>(g: T -> seq<byte>, xs: seq<T>) returns (fed: seq<byte>)
    ensures fed == PrintMany(g, xs)
  {
    fed := [];
    var i := 0;
    assert xs[0..] == xs;
    while i < |xs|
      invariant i <= |xs| && fed + PrintMany(g, xs[i..]) == PrintMany(g, xs)
    {
      assert xs[i..][1..] == xs[i + 1..];
      assert fed + (g(xs[i]) + PrintMany(g, xs[i + 1..])) == (fed + g(xs[i])) + PrintMany(g, xs[i + 1..]);
      fed := fed + g(xs[i]);
      i := i + 1;
    }
    assert xs[i..] == [];
  }

  /** The hash of all outputs, or of the one at `only` unless that is negative. */
  method HashOfOutputs(sha: Hash, txouts: seq<Txout>, only: int) returns (hash: seq<byte>)
    requires txouts != [] && only < |txouts|
    ensures hash == Twice(sha, if only < 0 then PrintMany(PrintTxout, txouts) else PrintTxout(txouts[only]))
  {
    var temp;
    if only < 0 {
      temp := FeedAll(PrintTxout, txouts);
    } else {
      temp := PrintTxout(txouts[only]);
    }
    hash := sha(temp);
    hash := sha(hash);
  }

  // ----- The cache -----

  class RawTx {
    var tx: Transaction
    var midstate: seq<byte>
    var txoutsHash: seq<byte>

    /** The pre-hashed state holds the first three fields for type ALL. */
    ghost predicate Attached(sha: Hash)
      reads this
    {
      && tx.txins != [] && tx.txouts != []
      && midstate == ToLE(tx.version, 4) + HashPrevouts(sha, tx, ALL) + HashSequence(sha, tx, ALL)
      && txoutsHash == HashOutputs(sha, tx, 0, ALL)
    }

    constructor ()
    {
      tx := Transaction(0, false, [], [], 0, [], 0, Zeros(32), Zeros(32));
      midstate, txoutsHash := [], Zeros(32);
    }

    method Attach(sha: Hash, t: Transaction)
      requires t.hasFlag && t.txins != [] && t.txouts != []
      modifies this
      ensures Attached(sha) && tx == t
    {
      tx := t;
      var ctx := ToLE(t.version, 4);
      ctx := PrehashPrevouts(sha, ctx, t.txins);
      ctx := PrehashSequences(sha, ctx, t.txins);
      midstate := ctx;
      txoutsHash := HashOfOutputs(sha, t.txouts, -1);
    }

    /** The first three fields, from the cache or afresh. */
    method Start(sha: Hash, kind: nat) returns (ctx: seq<byte>)
      requires Attached(sha) && Base(kind) in {ALL, NONE, SINGLE}
      ensures var anyone := kind / 0x80 % 2 == 1;
        ctx == ToLE(tx.version, 4)
          + (if anyone then Zeros(32) else sha(sha(PrintMany(OutpointOf, tx.txins))))
          + (if anyone || kind % 0x20 != 1 then Zeros(32) else sha(sha(PrintMany(SequenceOf, tx.txins))))
      ensures ctx == ToLE(tx.version, 4) + HashPrevouts(sha, tx, kind) + HashSequence(sha, tx, kind)
    {
      if !AnyoneCanPay(kind) {
        if Base(kind) == ALL { return midstate; }
        ctx := ToLE(tx.version, 4);
        ctx := PrehashPrevouts(sha, ctx, tx.txins);
        if Base(kind) == NONE || Base(kind) == SINGLE {
          ctx := ctx + Zeros(32);
        } else {
          ctx := PrehashSequences(sha, ctx, tx.txins);
        }
      } else {
        ctx := ToLE(tx.version, 4);
        ctx := ctx + Zeros(32);
        ctx := ctx + Zeros(32);
      }
    }

    method Outputs(sha: Hash, i: nat, kind: nat) returns (hash: seq<byte>)
      requires Attached(sha) && Base(kind) in {ALL, NONE, SINGLE}
      ensures hash ==
        if kind % 0x20 == 1 then sha(sha(PrintMany(PrintTxout, tx.txouts)))
        else if kind % 0x20 == 3 && i < |tx.txouts| then sha(sha(PrintTxout(tx.txouts[i])))
        else Zeros(32)
      ensures hash == HashOutputs(sha, tx, i, kind)
    {
      if Base(kind) == ALL { return txoutsHash; }
      if Base(kind) == NONE || i >= |tx.txouts| { return Zeros(32); }
      hash := HashOfOutputs(sha, tx.txouts, i);
    }

    /**
     * The digest for input `i`, which spends an output of `value` and whose redeem script is `redeem` at the
     * time of the call. The process stops if nothing is left of the script or the type is unknown.
     */
    method GetDigest(sha: Hash, i: nat, kind: nat, redeem: Redeem, value: nat) returns (ok: bool, digest: seq<byte>)
      requires Attached(sha) && i < |tx.txins| && ValidRedeem(redeem)
      ensures ok <==> Remaining(redeem) != [] && 1 <= kind % 0x20 <= 3
      ensures ok ==>
        var written := kind % 0x20 + if kind / 0x80 % 2 == 1 then 0x80 else 0;
        && written in {1, 2, 3, 0x81, 0x82, 0x83}
        && digest == sha(sha(Preimage(sha, tx, i, NewVarstr(Remaining(redeem)), value, written)))
    {
      var code := Remaining(redeem);
      if code == [] || Base(kind) !in {ALL, NONE, SINGLE} { return false, []; }
      var ctx := Start(sha, kind);
      ctx := ctx + tx.txins[i].outpoint;
      ctx := ctx + NewVarstr(code);
      ctx := ctx + ToLE(value, 8);
      ctx := ctx + ToLE(tx.txins[i].sequence, 4);
      var outputs := Outputs(sha, i, kind);
      ctx := ctx + outputs;
      ctx := ctx + ToLE(tx.lockTime, 4);
      var written := Base(kind) + if AnyoneCanPay(kind) then ANYONE_CAN_PAY else 0;
      ctx := ctx + ToLE(written, 4);
      MaskedKind(kind);
      MaskedFields(sha, tx, i, kind);
      JoinFields(ToLE(tx.version, 4) + HashPrevouts(sha, tx, kind) + HashSequence(sha, tx, kind),
                 tx.txins[i].outpoint, NewVarstr(code), ToLE(value, 8), ToLE(tx.txins[i].sequence, 4),
                 outputs, ToLE(tx.lockTime, 4), ToLE(written, 4));
      digest := sha(ctx);
      digest := sha(digest);
      ok := true;
    }
  }

  lemma JoinFields(s: seq<byte>, a: seq<byte>, b: seq<byte>, c: seq<byte>, d: seq<byte>, e: seq<byte>, f: seq<byte>,
                   g: seq<byte>)
    ensures s + a + b + c + d + e + f + g == s + (a + b + c + d + e + f + g)
  {
  }

  /** The type that is hashed: all bits but the base type and the flag are dropped. */
  function Masked(kind: nat): nat {
    Base(kind) + if AnyoneCanPay(kind) then ANYONE_CAN_PAY else 0
  }

  lemma MaskedKind(kind: nat)
    ensures Base(Masked(kind)) == Base(kind) && AnyoneCanPay(Masked(kind)) == AnyoneCanPay(kind)
    ensures Masked(kind) < 0x1_0000_0000
  {
  }

  lemma MaskedFields(sha: Hash, tx: Transaction, i: nat, kind: nat)
    ensures HashPrevouts(sha, tx, Masked(kind)) == HashPrevouts(sha, tx, kind)
    ensures HashSequence(sha, tx, Masked(kind)) == HashSequence(sha, tx, kind)
    ensures HashOutputs(sha, tx, i, Masked(kind)) == HashOutputs(sha, tx, i, kind)
  {
    hide Masked, Base, AnyoneCanPay, Twice, PrintMany, PrintTxout;
    MaskedKind(kind);
  }

  // ----- The fields of the preimage -----

  lemma {:induction false} PrintsAlike<T>(f: T -> seq<byte>, g: T -> seq<byte>, xs: seq<T>)
    requires forall x :: f(x) == g(x)
    ensures PrintMany(f, xs) == PrintMany(g, xs)
  {
    if xs != [] { PrintsAlike(f, g, xs[1..]); }
  }

  /** The ten fields for each of the six standard types: ALL, NONE and SINGLE, alone or with ANYONECANPAY. */
  lemma StandardPreimage(sha: Hash, tx: Transaction, i: nat, scriptCode: seq<byte>, value: nat, kind: nat)
    requires i < |tx.txins| && kind in {1, 2, 3, 0x81, 0x82, 0x83}
    ensures Preimage(sha, tx, i, scriptCode, value, kind)
         == ToLE(tx.version, 4)
          + (if kind <= 3 then sha(sha(PrintMany((t: Txin) => t.outpoint, tx.txins))) else Zeros(32))
          + (if kind == 1 then sha(sha(PrintMany((t: Txin) => ToLE(t.sequence, 4), tx.txins))) else Zeros(32))
          + (tx.txins[i].outpoint + scriptCode + ToLE(value, 8) + ToLE(tx.txins[i].sequence, 4)
             + (if kind in {1, 0x81} then
                  sha(sha(PrintMany((t: Txout) => ToLE(t.value, 8) + t.scripts, tx.txouts)))
                else if kind in {3, 0x83} && i < |tx.txouts| then
                  sha(sha(ToLE(tx.txouts[i].value, 8) + tx.txouts[i].scripts))
                else Zeros(32))
             + ToLE(tx.lockTime, 4) + ToLE(kind, 4))
  {
    hide ToLE, PrintMany, HashPrevouts, HashSequence, HashOutputs;
    StandardHashes(sha, tx, i, kind);
    PrintsAlike(OutpointOf, (t: Txin) => t.outpoint, tx.txins);
    PrintsAlike(SequenceOf, (t: Txin) => ToLE(t.sequence, 4), tx.txins);
    PrintsAlike(PrintTxout, (t: Txout) => ToLE(t.value, 8) + t.scripts, tx.txouts);
  }

  lemma StandardHashes(sha: Hash, tx: Transaction, i: nat, kind: nat)
    requires kind in {1, 2, 3, 0x81, 0x82, 0x83}
    ensures HashPrevouts(sha, tx, kind)
         == if kind <= 3 then sha(sha(PrintMany(OutpointOf, tx.txins))) else Zeros(32)
    ensures HashSequence(sha, tx, kind)
         == if kind == 1 then sha(sha(PrintMany(SequenceOf, tx.txins))) else Zeros(32)
    ensures HashOutputs(sha, tx, i, kind)
         == if kind in {1, 0x81} then sha(sha(PrintMany(PrintTxout, tx.txouts)))
            else if kind in {3, 0x83} && i < |tx.txouts| then sha(sha(PrintTxout(tx.txouts[i])))
            else Zeros(32)
  {
  }

  /** Where the three hashes lie, for a hash of 32 bytes. */
  lemma PreimageSlices(sha: Hash, tx: Transaction, i: nat, scriptCode: seq<byte>, value: nat, kind: nat)
    requires i < |tx.txins| && kind in {1, 2, 3, 0x81, 0x82, 0x83}
    requires forall s :: |sha(s)| == 32
    ensures var p := Preimage(sha, tx, i, scriptCode, value, kind);
      && |p| >= 116 && p[..4] == ToLE(tx.version, 4)
      && p[4..36] == (if kind <= 3 then sha(sha(PrintMany(OutpointOf, tx.txins))) else Zeros(32))
      && p[36..68] == (if kind == 1 then sha(sha(PrintMany(SequenceOf, tx.txins))) else Zeros(32))
      && p[|p| - 40..|p| - 8]
         == (if kind in {1, 0x81} then sha(sha(PrintMany(PrintTxout, tx.txouts)))
             else if kind in {3, 0x83} && i < |tx.txouts| then sha(sha(PrintTxout(tx.txouts[i])))
             else Zeros(32))
      && p[|p| - 8..|p| - 4] == ToLE(tx.lockTime, 4) && p[|p| - 4..] == ToLE(kind, 4)
  {
    hide ToLE, PrintMany, PrintTxout, HashPrevouts, HashSequence, HashOutputs;
    StandardHashes(sha, tx, i, kind);
    var d := tx.txins[i].outpoint + scriptCode + ToLE(value, 8) + ToLE(tx.txins[i].sequence, 4);
    FieldSlices(ToLE(tx.version, 4), HashPrevouts(sha, tx, kind), HashSequence(sha, tx, kind), d,
                HashOutputs(sha, tx, i, kind), ToLE(tx.lockTime, 4), ToLE(kind, 4));
  }

  lemma FieldSlices(a: seq<byte>, b: seq<byte>, c: seq<byte>, d: seq<byte>, e: seq<byte>, f: seq<byte>, g: seq<byte>)
    requires |a| == |f| == |g| == 4 && |b| == |c| == |e| == 32 && |d| >= 8
    ensures var p := a + b + c + (d + e + f + g);
      && |p| >= 116 && p[..4] == a && p[4..36] == b && p[36..68] == c
      && p[|p| - 40..|p| - 8] == e && p[|p| - 8..|p| - 4] == f && p[|p| - 4..] == g
  {
  }

  // ----- Agreement with the specification and with the direct form -----

  /** The preimage that is hashed is the specified one exactly when the type has no other bits; so it is for the
      six standard types. */
  lemma MaskedPreimage(sha: Hash, tx: Transaction, i: nat, scriptCode: seq<byte>, value: nat, kind: nat)
    requires i < |tx.txins| && kind < 0x1_0000_0000
    ensures Preimage(sha, tx, i, scriptCode, value, Masked(kind)) == Preimage(sha, tx, i, scriptCode, value, kind)
            <==> Masked(kind) == kind
    ensures kind in {1, 2, 3, 0x81, 0x82, 0x83} ==> Masked(kind) == kind
  {
    hide ToLE, FromLE, Pow256, HashPrevouts, HashSequence, HashOutputs;
    var a := Preimage(sha, tx, i, scriptCode, value, Masked(kind));
    var b := Preimage(sha, tx, i, scriptCode, value, kind);
    MaskedFields(sha, tx, i, kind);
    LastField(sha, tx, i, scriptCode, value, Masked(kind));
    LastField(sha, tx, i, scriptCode, value, kind);
    MaskedKind(kind);
    Widths();
    FromToLE(kind, 4);
    FromToLE(Masked(kind), 4);
  }

  /** Type 0x41 is hashed as if it were ALL. */
  lemma UnusedBitExample(sha: Hash, tx: Transaction, scriptCode: seq<byte>, value: nat)
    requires tx.txins != []
    ensures Masked(0x41) == ALL
    ensures Preimage(sha, tx, 0, scriptCode, value, Masked(0x41)) != Preimage(sha, tx, 0, scriptCode, value, 0x41)
  {
    hide Preimage;
    MaskedPreimage(sha, tx, 0, scriptCode, value, 0x41);
  }

  lemma LastField(sha: Hash, tx: Transaction, i: nat, scriptCode: seq<byte>, value: nat, kind: nat)
    requires i < |tx.txins|
    ensures var s := Preimage(sha, tx, i, scriptCode, value, kind);
      |s| >= 4 && s[|s| - 4..] == ToLE(kind, 4)
  {
    hide ToLE, HashPrevouts, HashSequence, HashOutputs;
  }

  /** What the direct form hashes: everything is committed to, and the redeem script is taken as it is. */
  function Direct(sha: Hash, tx: Transaction, i: nat, scripts: seq<byte>, value: nat, kind: nat): seq<byte>
    requires i < |tx.txins|
  {
    ToLE(tx.version, 4) + Twice(sha, PrintMany(OutpointOf, tx.txins)) + Twice(sha, PrintMany(SequenceOf, tx.txins))
    + (tx.txins[i].outpoint + scripts + ToLE(value, 8) + ToLE(tx.txins[i].sequence, 4)
       + Twice(sha, PrintMany(PrintTxout, tx.txouts)) + ToLE(tx.lockTime, 4) + ToLE(kind, 4))
  }

  /** segwit_v0_generate_preimage. */
  method GeneratePreimage(sha: Hash, tx: Transaction, i: nat, kind: nat, scripts: seq<byte>, value: nat)
    returns (ok: bool, image: seq<byte>)
    requires i < |tx.txins|
    ensures ok <==> 1 <= kind % 0x80 <= 3
    ensures ok ==> image == Direct(sha, tx, i, scripts, value, kind)
  {
    var p := ToLE(tx.version, 4);
    var hash := FeedAll(OutpointOf, tx.txins);
    hash := sha(hash);
    p := p + sha(hash);
    hash := FeedAll(SequenceOf, tx.txins);
    hash := sha(hash);
    p := p + sha(hash);
    ghost var start := p;
    p := p + tx.txins[i].outpoint;
    p := p + scripts;
    p := p + ToLE(value, 8);
    p := p + ToLE(tx.txins[i].sequence, 4);
    hash := FeedAll(PrintTxout, tx.txouts);
    hash := sha(hash);
    p := p + sha(hash);
    p := p + ToLE(tx.lockTime, 4);
    if !(1 <= kind % 0x80 <= 3) { return false, p; }
    p := p + ToLE(kind, 4);
    JoinFields(start, tx.txins[i].outpoint, scripts, ToLE(value, 8), ToLE(tx.txins[i].sequence, 4),
               Twice(sha, PrintMany(PrintTxout, tx.txouts)), ToLE(tx.lockTime, 4), ToLE(kind, 4));
    return true, p;
  }

  /** For type ALL the direct form agrees with the cached one exactly when no code separator has been executed
      and the redeem script's length prefix is minimal. */
  lemma DirectAgrees(sha: Hash, tx: Transaction, i: nat, redeem: Redeem, value: nat)
    requires i < |tx.txins| && redeem.Redeem? && ValidRedeem(redeem) && Remaining(redeem) != []
    ensures Direct(sha, tx, i, redeem.scripts, value, ALL)
            == Preimage(sha, tx, i, NewVarstr(Remaining(redeem)), value, ALL)
            <==> redeem.start == 0 && Minimal(redeem.scripts)
  {
    hide ToLE, Minimal, Twice, PrintMany, NewVarstr, Remaining, ValidRedeem;
    assert !AnyoneCanPay(ALL) && Base(ALL) == ALL;
    MiddleField(ToLE(tx.version, 4) + HashPrevouts(sha, tx, ALL) + HashSequence(sha, tx, ALL), tx.txins[i].outpoint,
                redeem.scripts, NewVarstr(Remaining(redeem)), ToLE(value, 8), ToLE(tx.txins[i].sequence, 4),
                HashOutputs(sha, tx, i, ALL), ToLE(tx.lockTime, 4), ToLE(ALL, 4));
    ReencodedScript(redeem);
  }

  /** One opcode has been passed by a code separator: the direct form still hashes it. */
  lemma SeparatorIgnoredExample(sha: Hash, tx: Transaction, value: nat)
    requires tx.txins != []
    ensures var redeem := Redeem(NewVarstr([0x61, 0xAC]), 1);
      && ValidRedeem(redeem) && Remaining(redeem) == [0xAC]
      && Direct(sha, tx, 0, redeem.scripts, value, ALL)
         != Preimage(sha, tx, 0, NewVarstr(Remaining(redeem)), value, ALL)
  {
    hide Direct, Preimage, Varstr, Content;
    NewVarstrParsed([0x61, 0xAC]);
    DirectAgrees(sha, tx, 0, Redeem(NewVarstr([0x61, 0xAC]), 1), value);
  }

  lemma MiddleField(s: seq<byte>, a: seq<byte>, b: seq<byte>, b': seq<byte>, c: seq<byte>, d: seq<byte>, e: seq<byte>,
                    f: seq<byte>, g: seq<byte>)
    ensures s + (a + b + c + d + e + f + g) == s + (a + b' + c + d + e + f + g) <==> b == b'
  {
    var x, y := s + (a + b + c + d + e + f + g), s + (a + b' + c + d + e + f + g);
    var k, m := |s| + |a|, |c| + |d| + |e| + |f| + |g|;
    assert x[k..|x| - m] == b && y[k..|y| - m] == b';
  }

  lemma ReencodedScript(redeem: Redeem)
    requires redeem.Redeem? && ValidRedeem(redeem) && Remaining(redeem) != []
    ensures redeem.scripts == NewVarstr(Remaining(redeem)) <==> redeem.start == 0 && Minimal(redeem.scripts)
  {
    hide Varint;
    var v := redeem.scripts;
    var r := ParseVarint(v);
    VarintReencoded(v);
    var code := Remaining(redeem);
    assert v == v[..r.n] + Content(v);
    if v == NewVarstr(code) {
      VarintRoundTrip(|code|, code);
    }
  }
}
