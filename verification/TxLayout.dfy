/** A transaction from its contents: which bytes stand for it, and that they are read as exactly that. */
module TxLayout {
  import opened Bytes
  import opened Wire
  import opened Tx

  const LIMIT := 0x7FFF_FFFF_FFFF_0000

  /** An input: the output that it spends, its script without the length, and its sequence number. */
  datatype Spend = Spend(id: seq<byte>, index: nat, script: seq<byte>, sequence: nat)

  datatype Payment = Payment(value: nat, script: seq<byte>)

  predicate ValidSpend(i: Spend) {
    |i.id| == 32 && i.index < 0x1_0000_0000 && |i.script| < LIMIT && i.sequence < 0x1_0000_0000
  }

  predicate ValidPayment(o: Payment) {
    o.value < 0x1_0000_0000_0000_0000 && |o.script| < LIMIT
  }

  /** The items of the witness of one input. */
  predicate ValidStack(items: seq<seq<byte>>) {
    |items| < LIMIT && forall i :: 0 <= i < |items| ==> |items[i]| < LIMIT
  }

  function Prefixed(s: seq<byte>): seq<byte> {
    Varint(|s|) + s
  }

  function SpendBytes(i: Spend): seq<byte> {
    i.id + ToLE(i.index, 4) + Prefixed(i.script) + ToLE(i.sequence, 4)
  }

  function PaymentBytes(o: Payment): seq<byte> {
    ToLE(o.value, 8) + Prefixed(o.script)
  }

  function StackBytes(items: seq<seq<byte>>): seq<byte> {
    Varint(|items|) + PrintMany(Prefixed, items)
  }

  /** What is read for them. */
  function Input(i: Spend): Txin {
    Txin(i.id + ToLE(i.index, 4), i.id == Zeros(32) && i.index == 0xFFFF_FFFF,
         Prefixed(i.script), |i.script|, i.sequence)
  }

  function Output(o: Payment): Txout {
    Txout(o.value, Prefixed(o.script))
  }

  function Stack(items: seq<seq<byte>>): Witness {
    Witness(|items|, Map(Prefixed, items))
  }

  function Map<A, B>(f: A -> B, xs: seq<A>): (ys: seq<B>)
    ensures |ys| == |xs| && forall i :: 0 <= i < |xs| ==> ys[i] == f(xs[i])
  {
    seq(|xs|, i requires 0 <= i < |xs| => f(xs[i]))
  }

  lemma {:induction false} PrintedMap<A, B>(g: B -> seq<byte>, f: A -> B, p: A -> seq<byte>, xs: seq<A>)
    requires forall i :: 0 <= i < |xs| ==> g(f(xs[i])) == p(xs[i])
    ensures PrintMany(g, Map(f, xs)) == PrintMany(p, xs)
  {
    if xs != [] {
      PrintedMap(g, f, p, xs[1..]);
      assert Map(f, xs)[1..] == Map(f, xs[1..]);
    }
  }

  lemma ScriptString(s: seq<byte>)
    requires |s| < LIMIT
    ensures Varstr(Prefixed(s)) && Content(Prefixed(s)) == s
  {
    NewVarstrParsed(s);
    assert Prefixed(s) == NewVarstr(s);
  }

  // ----- One record -----

  lemma InputValid(i: Spend)
    requires ValidSpend(i)
    ensures ValidTxin(Input(i)) && PrintTxin(Input(i)) == SpendBytes(i)
  {
    hide Varstr, Prefixed, ToLE, FromLE;
    ScriptString(i.script);
    CoinbaseBytes(i.id, i.index);
  }

  lemma CoinbaseBytes(id: seq<byte>, index: nat)
    requires |id| == 32 && index < 0x1_0000_0000
    ensures id + ToLE(index, 4) == CoinbaseOutpoint() <==> id == Zeros(32) && index == 0xFFFF_FFFF
  {
    hide ToLE, FromLE;
    var o, c := id + ToLE(index, 4), CoinbaseOutpoint();
    Widths();
    FromToLE(index, 4);
    LastIndex(ToLE(index, 4));
    assert o[..32] == id && o[32..] == ToLE(index, 4);
    assert c[..32] == Zeros(32) && c[32..] == [0xFF, 0xFF, 0xFF, 0xFF];
    assert o == o[..32] + o[32..] && c == c[..32] + c[32..];
  }

  /** Id, index, script with its length, and sequence number are read back, whatever follows. */
  lemma SpendRead(i: Spend, rest: seq<byte>)
    requires ValidSpend(i)
    ensures ParseTxin(SpendBytes(i) + rest) == Ok(Input(i), |SpendBytes(i)|)
  {
    InputValid(i);
    TxinRoundTrip(Input(i), rest);
  }

  lemma OutputValid(o: Payment)
    requires ValidPayment(o)
    ensures ValidTxout(Output(o)) && PrintTxout(Output(o)) == PaymentBytes(o)
  {
    ScriptString(o.script);
  }

  lemma PaymentRead(o: Payment, rest: seq<byte>)
    requires ValidPayment(o)
    ensures ParseTxout(PaymentBytes(o) + rest) == Ok(Output(o), |PaymentBytes(o)|)
  {
    OutputValid(o);
    TxoutRoundTrip(Output(o), rest);
  }

  lemma StackValid(items: seq<seq<byte>>)
    requires ValidStack(items)
    ensures ValidWitness(Stack(items)) && WitnessBytes(Stack(items)) == StackBytes(items)
  {
    hide Varstr, Prefixed, Varint, PrintMany;
    forall i | 0 <= i < |items| ensures Varstr(Map(Prefixed, items)[i]) { ScriptString(items[i]); }
    PrintedMap(Itself, Prefixed, Prefixed, items);
  }

  lemma StackRead(items: seq<seq<byte>>, rest: seq<byte>)
    requires ValidStack(items)
    ensures ParseWitness(StackBytes(items) + rest) == Ok(Stack(items), |StackBytes(items)|)
  {
    StackValid(items);
    WitnessRoundTrip(Stack(items), rest);
  }

  // ----- The whole transaction -----

  /** `stacks` is there only under the flag. */
  datatype Contents = Contents(version: nat, hasFlag: bool, spends: seq<Spend>, payments: seq<Payment>,
                               stacks: seq<seq<seq<byte>>>, lockTime: nat)

  predicate ValidContents(c: Contents) {
    && c.version < 0x1_0000_0000 && c.lockTime < 0x1_0000_0000
    && 0 < |c.spends| < LIMIT && (forall i :: 0 <= i < |c.spends| ==> ValidSpend(c.spends[i]))
    && 0 < |c.payments| < LIMIT && (forall i :: 0 <= i < |c.payments| ==> ValidPayment(c.payments[i]))
    && |c.stacks| == (if c.hasFlag then |c.spends| else 0)
    && (forall i :: 0 <= i < |c.stacks| ==> ValidStack(c.stacks[i]))
  }

  /** The two lists, each behind its count. */
  function ListBytes(c: Contents): seq<byte> {
    Varint(|c.spends|) + PrintMany(SpendBytes, c.spends) + (Varint(|c.payments|) + PrintMany(PaymentBytes, c.payments))
  }

  /** Version, marker and flag, the lists, the witnesses, and the lock time. */
  function ContentsBytes(c: Contents): seq<byte> {
    ToLE(c.version, 4) + (if c.hasFlag then [0, 1] else []) + ListBytes(c)
    + (if c.hasFlag then PrintMany(StackBytes, c.stacks) else []) + ToLE(c.lockTime, 4)
  }

  function Contained(sha: Hash, c: Contents): Transaction {
    Transaction(c.version, c.hasFlag, Map(Input, c.spends), Map(Output, c.payments),
                if c.hasFlag then |PrintMany(StackBytes, c.stacks)| else 0, Map(Stack, c.stacks), c.lockTime,
                sha(sha(ToLE(c.version, 4) + ListBytes(c) + ToLE(c.lockTime, 4))),
                if c.hasFlag then sha(sha(ContentsBytes(c))) else Zeros(32))
  }

  lemma ListsPrinted(sha: Hash, c: Contents)
    requires ValidContents(c)
    ensures var tx := Contained(sha, c);
      && PrintInputs(tx.txins) + PrintOutputs(tx.txouts) == ListBytes(c)
      && PrintMany(WitnessBytes, tx.witnesses) == PrintMany(StackBytes, c.stacks)
      && (forall t :: t in tx.txins ==> ValidTxin(t)) && (forall t :: t in tx.txouts ==> ValidTxout(t))
      && (forall w :: w in tx.witnesses ==> ValidWitness(w) && w.numItems >= 0)
  {
    hide PrintMany, Varint, SpendBytes, PaymentBytes, StackBytes, ValidTxin, ValidTxout, ValidWitness, PrintTxin,
      PrintTxout, WitnessBytes, Input, Output, ValidSpend, ValidPayment, ValidStack, ContentsBytes, ListBytes;
    InputsPrinted(c.spends);
    OutputsPrinted(c.payments);
    StacksPrinted(c.stacks);
    ListParts(c, Map(Input, c.spends), Map(Output, c.payments));
  }

  lemma ListParts(c: Contents, ins: seq<Txin>, outs: seq<Txout>)
    requires |ins| == |c.spends| && PrintMany(PrintTxin, ins) == PrintMany(SpendBytes, c.spends)
    requires |outs| == |c.payments| && PrintMany(PrintTxout, outs) == PrintMany(PaymentBytes, c.payments)
    ensures PrintInputs(ins) + PrintOutputs(outs) == ListBytes(c)
  {
    hide PrintMany, Varint;
  }

  lemma InputsPrinted(xs: seq<Spend>)
    requires forall i :: 0 <= i < |xs| ==> ValidSpend(xs[i])
    ensures PrintMany(PrintTxin, Map(Input, xs)) == PrintMany(SpendBytes, xs)
    ensures forall t :: t in Map(Input, xs) ==> ValidTxin(t)
  {
    hide PrintMany, PrintTxin, SpendBytes, ValidTxin, ValidSpend, Input;
    forall i | 0 <= i < |xs| ensures PrintTxin(Input(xs[i])) == SpendBytes(xs[i]) && ValidTxin(Map(Input, xs)[i]) {
      InputValid(xs[i]);
    }
    PrintedMap(PrintTxin, Input, SpendBytes, xs);
  }

  lemma OutputsPrinted(xs: seq<Payment>)
    requires forall i :: 0 <= i < |xs| ==> ValidPayment(xs[i])
    ensures PrintMany(PrintTxout, Map(Output, xs)) == PrintMany(PaymentBytes, xs)
    ensures forall t :: t in Map(Output, xs) ==> ValidTxout(t)
  {
    hide PrintMany, PrintTxout, PaymentBytes, ValidTxout, ValidPayment, Output;
    forall i | 0 <= i < |xs|
      ensures PrintTxout(Output(xs[i])) == PaymentBytes(xs[i]) && ValidTxout(Map(Output, xs)[i])
    {
      OutputValid(xs[i]);
    }
    PrintedMap(PrintTxout, Output, PaymentBytes, xs);
  }

  lemma StacksPrinted(xs: seq<seq<seq<byte>>>)
    requires forall i :: 0 <= i < |xs| ==> ValidStack(xs[i])
    ensures PrintMany(WitnessBytes, Map(Stack, xs)) == PrintMany(StackBytes, xs)
    ensures forall w :: w in Map(Stack, xs) ==> ValidWitness(w) && w.numItems >= 0
  {
    hide PrintMany, WitnessBytes, StackBytes, ValidWitness, ValidStack;
    forall i | 0 <= i < |xs|
      ensures WitnessBytes(Stack(xs[i])) == StackBytes(xs[i]) && ValidWitness(Map(Stack, xs)[i])
    {
      StackValid(xs[i]);
    }
    PrintedMap(WitnessBytes, Stack, StackBytes, xs);
  }

  lemma FiveParts(a: seq<byte>, b: seq<byte>, x: seq<byte>, y: seq<byte>, d: seq<byte>, e: seq<byte>)
    ensures a + (b + (x + (y + (d + e)))) == a + b + (x + y) + d + e
    ensures a + (x + y + e) == a + (x + y) + e
  {
  }

  lemma ContainedPrinted(sha: Hash, c: Contents)
    requires ValidContents(c)
    ensures var tx := Contained(sha, c); PrintTx(tx) == ContentsBytes(c) && ValidTx(sha, tx)
  {
    hide PrintMany, PrintInputs, PrintOutputs, ListBytes, ToLE, ValidTxin, ValidTxout, ValidWitness, Map, Input, Output,
      Stack, SpendBytes, PaymentBytes, StackBytes, ValidSpend, ValidPayment, ValidStack;
    ListsPrinted(sha, c);
    var tx := Contained(sha, c);
    FiveParts(ToLE(c.version, 4), if c.hasFlag then [0, 1] else [], PrintInputs(tx.txins), PrintOutputs(tx.txouts),
              if c.hasFlag then PrintMany(StackBytes, c.stacks) else [], ToLE(c.lockTime, 4));
  }

  /** The bytes of any contents are read as these contents, over exactly their length, whatever follows; the id is the
      double hash of everything but marker, flag and witnesses. Beyond 4,000,000 bytes nothing is read. */
  lemma ContentsRead(sha: Hash, c: Contents, rest: seq<byte>)
    requires ValidContents(c)
    ensures ParseTx(sha, ContentsBytes(c) + rest) ==
      if |ContentsBytes(c)| + |rest| <= 4_000_000 then Ok(Contained(sha, c), |ContentsBytes(c)|) else Halt
  {
    hide ContentsBytes, Contained, ValidContents, ParseBody;
    ContainedPrinted(sha, c);
    if |ContentsBytes(c)| + |rest| <= 4_000_000 { TxRoundTrip(sha, Contained(sha, c), rest); }
  }
}
