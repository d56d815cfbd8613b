/** Bytes that parse as a transaction but are not what serialization makes of it. */
module TxExamples {
  import opened Bytes
  import opened Wire
  import opened Tx

  function Input(): Txin {
    Txin(Zeros(36), false, [0], 0, 0)
  }

  function Output(): Txout {
    Txout(0, [0])
  }

  /** The outputs and the lock time. */
  function Ending(): seq<byte> {
    PrintOutputs([Output()]) + ToLE(0, 4)
  }

  lemma ValidParts()
    ensures ValidTxin(Input()) && ValidTxout(Output())
  {
    NewVarstrParsed([]);
    assert NewVarstr([]) == [0];
    assert Zeros(36)[35] == 0 && CoinbaseOutpoint()[35] == 0xFF;
  }

  lemma OneInput(rest: seq<byte>)
    ensures ParseMany(ParseTxin, PrintTxin(Input()) + rest, 1) == Ok([Input()], |PrintTxin(Input())|)
  {
    hide ParseTxin, PrintTxin;
    ValidParts();
    forall r ensures ParseTxin(PrintTxin(Input()) + r) == Ok(Input(), |PrintTxin(Input())|) {
      TxinRoundTrip(Input(), r);
    }
    assert PrintMany(PrintTxin, [Input()][1..]) == [];
    assert PrintMany(PrintTxin, [Input()]) == PrintTxin(Input());
    ManyRoundTrip(ParseTxin, PrintTxin, [Input()], rest);
  }

  lemma OneOutput(rest: seq<byte>)
    ensures Counted(ParseTxout, PrintOutputs([Output()]) + rest) == Ok([Output()], |PrintOutputs([Output()])|)
  {
    hide ParseTxout, PrintTxout;
    ValidParts();
    forall r ensures ParseTxout(PrintTxout(Output()) + r) == Ok(Output(), |PrintTxout(Output())|) {
      TxoutRoundTrip(Output(), r);
    }
    CountedRoundTrip(ParseTxout, PrintTxout, [Output()], rest);
  }

  /** The bytes of the count, and the input. */
  function Inputs(count: seq<byte>): seq<byte> {
    count + PrintTxin(Input())
  }

  lemma CountedInput(count: seq<byte>)
    requires ParseVarint(Inputs(count) + Ending()) == Ok(1, |count|)
    ensures Counted(ParseTxin, Inputs(count) + Ending()) == Ok([Input()], |Inputs(count)|)
  {
    hide ParseTxin, PrintTxin, ParseVarint, PrintOutputs;
    var s := Inputs(count) + Ending();
    assert s[|count|..] == PrintTxin(Input()) + Ending();
    OneInput(Ending());
  }

  lemma EndingParsed(count: seq<byte>, hasFlag: bool)
    requires ParseVarint(Inputs(count) + Ending()) == Ok(1, |count|)
    ensures var r := ParseBody(Inputs(count) + Ending(), hasFlag);
      && r.Ok? && r.v.txins == [Input()] && r.v.txouts == [Output()] && r.v.tail == Tail(0, [], 0)
      && r.n == |Inputs(count) + Ending()|
  {
    hide Counted, ParseVarint, PrintOutputs, PrintTxin, ToLE, FromLE;
    var s := Inputs(count) + Ending();
    CountedInput(count);
    OneOutput(ToLE(0, 4));
    assert s[|Inputs(count)|..] == Ending();
    assert Ending()[|PrintOutputs([Output()])|..] == ToLE(0, 4);
    Lock();
  }

  lemma Lock()
    ensures FromLE(ToLE(0, 4)[..4]) == 0 && |ToLE(0, 4)| == 4
  {
    assert ToLE(0, 4)[..4] == ToLE(0, 4);
    FromToLE(0, 4);
  }

  /** A transaction of one input and one output, the input counted in the given bytes. */
  function Message(count: seq<byte>, hasFlag: bool): seq<byte> {
    ToLE(1, 4) + (Flag(hasFlag) + (Inputs(count) + Ending()))
  }

  lemma MessageParsed(sha: Hash, count: seq<byte>, hasFlag: bool)
    requires count != [] && count[0] != 0
    requires ParseVarint(Inputs(count) + Ending()) == Ok(1, |count|)
    ensures var s := Message(count, hasFlag); var r := ParseTx(sha, s);
      && r.Ok? && r.n == |s| && r.v.hasFlag == hasFlag && r.v.cbWitnesses == 0 && r.v.witnesses == []
      && |s| >= 6 && BodyAt(s, s[4] == 0) == Inputs(count) + Ending()
  {
    hide ParseBody, ParseVarint, PrintTxin, ToLE, FromLE, Twice;
    var body := Inputs(count) + Ending();
    EndingParsed(count, hasFlag);
    PrintedInput();
    LayOut(ToLE(1, 4), hasFlag, body, []);
    assert Message(count, hasFlag) + [] == Message(count, hasFlag);
    assert body + [] == body;
  }

  lemma PrintedInput()
    ensures |PrintTxin(Input())| == 41 && |Ending()| >= 4 && |Message([1], false)| <= |Message([1], true)| <= 100
    ensures |Message([0xFD, 1, 0], false)| <= 100
  {
  }

  /** Marker and flag, but no witnesses: what is parsed cannot be serialized. */
  lemma FlagWithoutWitnesses(sha: Hash)
    ensures var s := Message([1], true); var r := ParseTx(sha, s);
      r.Ok? && r.n == |s| && SerializeTx(r.v) == Aborted
  {
    hide ParseTx, Message, ParseBody;
    assert ParseVarint(Inputs([1]) + Ending()) == Ok(1, 1);
    MessageParsed(sha, [1], true);
  }

  /** An input count of one in three bytes: what is parsed is serialized to other bytes. */
  lemma WideCount(sha: Hash)
    ensures var s := Message([0xFD, 1, 0], false); var r := ParseTx(sha, s);
      r.Ok? && r.n == |s| && SerializeTx(r.v).Bytes? && SerializeTx(r.v) != Bytes(s)
  {
    hide ParseTx, ParseBody, PrintTx;
    var count := [0xFD, 1, 0];
    var body := Inputs(count) + Ending();
    WideOne(body);
    MessageParsed(sha, count, false);
    TxReserialized(sha, Message(count, false));
    assert Message(count, false)[..|Message(count, false)|] == Message(count, false);
  }

  lemma WideOne(s: seq<byte>)
    requires |s| >= 3 && s[..3] == [0xFD, 1, 0]
    ensures ParseVarint(s) == Ok(1, 3) && !Minimal(s)
  {
    assert s[1..3] == [1, 0];
    assert FromLE([1, 0]) == 1 + 256 * FromLE([1, 0][1..]) && [1, 0][1..] == [0];
    assert FromLE([0]) == 0 + 256 * FromLE([0][1..]);
  }
}
