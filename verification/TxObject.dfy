/** The transaction object: parsing fills its fields, serialization fills a buffer. */
module TxObject {
  import opened Bytes
  import opened Wire
  import opened Tx

  // ----- Loops over records -----

  function Resume<T>(done: seq<T>, k: nat, r: Parsed<seq<T>>): Parsed<seq<T>> {
    match r
    case Reject => Reject
    case Halt => Halt
    case Ok(vs, m) => Ok(done + vs, k + m)
  }

  /** How the rest of a list goes on after the record at `p`. */
  lemma ManyStep<T>(f: seq<byte> -> Parsed<T>, s: seq<byte>, done: seq<T>, p: nat, n: nat)
    requires p <= |s| && n > 0 && (f(s[p..]).Ok? ==> f(s[p..]).n <= |s| - p)
    ensures var r := f(s[p..]); var whole := Resume(done, p, ParseMany(f, s[p..], n));
      && (r.Reject? ==> whole == Reject)
      && (r.Halt? ==> whole == Halt)
      && (r.Ok? ==> whole == Resume(done + [r.v], p + r.n, ParseMany(f, s[p + r.n..], n - 1)))
  {
    var r := f(s[p..]);
    if r.Ok? {
      assert s[p..][r.n..] == s[p + r.n..];
      var t := ParseMany(f, s[p + r.n..], n - 1);
      if t.Ok? { assert done + ([r.v] + t.v) == (done + [r.v]) + t.v; }
    }
  }

  lemma ManyStart<T>(f: seq<byte> -> Parsed<T>, s: seq<byte>, n: nat)
    ensures ParseMany(f, s, n) == Resume([], 0, ParseMany(f, s[0..], n))
  {
    assert s[0..] == s;
    var t := ParseMany(f, s, n);
    if t.Ok? { assert [] + t.v == t.v; }
  }

  lemma ManyEnd<T>(f: seq<byte> -> Parsed<T>, s: seq<byte>, done: seq<T>, p: nat)
    ensures Resume(done, p, ParseMany(f, s, 0)) == Ok(done, p)
  {
    assert done + [] == done;
  }

  ghost predicate Bounded<T>(f: seq<byte> -> Parsed<T>) {
    f([]) == Reject && forall s :: f(s).Ok? ==> f(s).n <= |s|
  }

  /** The loop shared by inputs, outputs and witness items: `n` records from `start` on. */
  method ParseRecords<T>(f: seq<byte> -> Parsed<T>, payload: seq<byte>, start: nat, n: nat)
    returns (r: Parsed<seq<T>>)
    requires start <= |payload| && Bounded(f)
    ensures r == ParseMany(f, payload[start..], n)
    ensures r.Ok? ==> start + r.n <= |payload|
  {
    hide ParseMany, Resume;
    ghost var s := payload[start..];
    var done: seq<T>, p: nat, i: nat := [], start, 0;
    ManyStart(f, s, n);
    while i < n
      invariant i <= n && start <= p <= |payload|
      invariant ParseMany(f, s, n) == Resume(done, p - start, ParseMany(f, s[p - start..], n - i))
    {
      assert s[p - start..] == payload[p..];
      ManyStep(f, s, done, p - start, n - i);
      if p >= |payload| {
        assert payload[p..] == [];
        return Reject;
      }
      match f(payload[p..])
      case Reject => return Reject;
      case Halt => return Halt;
      case Ok(v, k) => done, p, i := done + [v], p + k, i + 1;
    }
    ManyEnd(f, s[p - start..], done, p - start);
    r := Ok(done, p - start);
  }

  lemma RecordsBounded()
    ensures Bounded(ParseTxin) && Bounded(ParseTxout) && Bounded(ParseVarstr)
  {
    ListsReprint();
    VarstrReprints();
  }

  method ParseWitnessAt(payload: seq<byte>, p: nat) returns (r: Parsed<Witness>)
    requires p < |payload|
    ensures r == ParseWitness(payload[p..])
    ensures r.Ok? ==> p + r.n <= |payload|
  {
    hide ParseVarint, ParseVarstr, ParseMany, ParseTxin, ParseTxout;
    RecordsBounded();
    match ParseVarint(payload[p..])
    case Reject => return Reject;
    case Halt => return Halt;
    case Ok(c, k) =>
      var numItems := Signed(c);
      if numItems <= 0 { return Ok(Witness(numItems, []), k); }
      assert payload[p..][k..] == payload[p + k..];
      var items := ParseRecords(ParseVarstr, payload, p + k, numItems);
      match items
      case Reject => return Reject;
      case Halt => return Halt;
      case Ok(vs, m) => return Ok(Witness(numItems, vs), k + m);
  }

  lemma NoWitness()
    ensures ParseWitness([]) == Reject
  {
  }

  /** One witness for each input. */
  method ParseWitnesses(payload: seq<byte>, start: nat, n: nat) returns (r: Parsed<seq<Witness>>)
    requires start <= |payload|
    ensures r == ParseMany(ParseWitness, payload[start..], n)
    ensures r.Ok? ==> start + r.n <= |payload|
  {
    hide ParseMany, Resume, ParseWitness;
    ghost var s := payload[start..];
    var done: seq<Witness>, p: nat, i: nat := [], start, 0;
    ManyStart(ParseWitness, s, n);
    while i < n
      invariant i <= n && start <= p <= |payload|
      invariant ParseMany(ParseWitness, s, n) == Resume(done, p - start, ParseMany(ParseWitness, s[p - start..], n - i))
    {
      assert s[p - start..] == payload[p..];
      if p >= |payload| {
        NoWitness();
        assert payload[p..] == [];
        ManyStep(ParseWitness, s, done, p - start, n - i);
        return Reject;
      }
      var w := ParseWitnessAt(payload, p);
      ManyStep(ParseWitness, s, done, p - start, n - i);
      match w
      case Reject => return Reject;
      case Halt => return Halt;
      case Ok(v, k) => done, p, i := done + [v], p + k, i + 1;
    }
    ManyEnd(ParseWitness, s[p - start..], done, p - start);
    r := Ok(done, p - start);
  }

  /** A positive count and that many records. */
  method ParseCounted<T>(f: seq<byte> -> Parsed<T>, payload: seq<byte>, start: nat) returns (r: Parsed<seq<T>>)
    requires start <= |payload| && Bounded(f)
    ensures r == Counted(f, payload[start..])
    ensures r.Ok? ==> start + r.n <= |payload|
  {
    hide ParseVarint, ParseMany;
    match ParseVarint(payload[start..])
    case Reject => return Reject;
    case Halt => return Halt;
    case Ok(c, k) =>
      if Signed(c) <= 0 { return Reject; }
      assert payload[start..][k..] == payload[start + k..];
      var records := ParseRecords(f, payload, start + k, c);
      match records
      case Reject => return Reject;
      case Halt => return Halt;
      case Ok(vs, m) => return Ok(vs, k + m);
  }

  // ----- Writing -----

  /** Copies bytes to position `p` and returns the position after them. */
  method Put(buffer: array<byte>, p: nat, data: seq<byte>) returns (q: nat)
    requires p + |data| <= buffer.Length
    modifies buffer
    ensures q == p + |data| && buffer[..q] == old(buffer[..p]) + data
  {
    var i := 0;
    while i < |data|
      invariant i <= |data|
      invariant buffer[..p] == old(buffer[..p])
      invariant forall k :: 0 <= k < i ==> buffer[p + k] == data[k]
    {
      buffer[p + i] := data[i];
      i := i + 1;
    }
    q := p + |data|;
    assert buffer[p..q] == data;
    assert buffer[..q] == buffer[..p] + buffer[p..q];
  }

  lemma {:induction false} PrintNext<T>(g: T -> seq<byte>, xs: seq<T>, i: nat)
    requires i < |xs|
    ensures PrintMany(g, xs[..i + 1]) == PrintMany(g, xs[..i]) + g(xs[i])
    ensures PrintMany(g, xs[..i]) + (g(xs[i]) + PrintMany(g, xs[i + 1..])) == PrintMany(g, xs)
  {
    PrintSplit(g, xs[..i], xs[i..]);
    PrintSplit(g, xs[..i], [xs[i]]);
    assert xs[..i] + xs[i..] == xs && xs[..i] + [xs[i]] == xs[..i + 1];
    assert xs[i..][1..] == xs[i + 1..];
    assert PrintMany(g, [xs[i]]) == g(xs[i]) + PrintMany(g, []);
  }

  lemma {:induction false} PrintSplit<T>(g: T -> seq<byte>, a: seq<T>, b: seq<T>)
    ensures PrintMany(g, a + b) == PrintMany(g, a) + PrintMany(g, b)
  {
    if a == [] {
      assert a + b == b;
    } else {
      PrintSplit(g, a[1..], b);
      assert (a + b)[0] == a[0] && (a + b)[1..] == a[1..] + b;
      ThreeParts(g(a[0]), PrintMany(g, a[1..]), PrintMany(g, b));
    }
  }

  lemma ThreeParts(a: seq<byte>, b: seq<byte>, c: seq<byte>)
    ensures a + (b + c) == a + b + c
  {
  }

  /** The loop shared by inputs, outputs and witness items: records one after the other. */
  method PutMany<T>(buffer: array<byte>, p: nat, g: T -> seq<byte>, xs: seq<T>) returns (q: nat)
    requires p + |PrintMany(g, xs)| <= buffer.Length
    modifies buffer
    ensures q == p + |PrintMany(g, xs)| && buffer[..q] == old(buffer[..p]) + PrintMany(g, xs)
  {
    hide PrintMany;
    q := p;
    var i := 0;
    ghost var before := buffer[..p];
    NothingPrinted(g);
    assert xs[..0] == [] && before + [] == before;
    while i < |xs|
      invariant i <= |xs| && q == p + |PrintMany(g, xs[..i])| <= buffer.Length
      invariant buffer[..q] == before + PrintMany(g, xs[..i])
    {
      PrintNext(g, xs, i);
      q := Put(buffer, q, g(xs[i]));
      i := i + 1;
    }
    assert xs[..i] == xs;
  }

  lemma NothingPrinted<T>(g: T -> seq<byte>)
    ensures PrintMany(g, []) == []
  {
  }

  // ----- The object -----

  /** The number of bytes, or -1; or the process has stopped. */
  datatype Code = Length(n: nat) | Failed | Stopped

  class SatoshiTx {
    var version: nat
    var hasFlag: bool
    var txins: seq<Txin>
    var txouts: seq<Txout>
    var cbWitnesses: nat
    var witnesses: seq<Witness>
    var lockTime: nat
    var txid: seq<byte>
    var wtxid: seq<byte>

    constructor ()
      ensures Blank()
    {
      version, hasFlag, txins, txouts, cbWitnesses, witnesses, lockTime := 0, false, [], [], 0, [], 0;
      txid, wtxid := Zeros(32), Zeros(32);
    }

    function Contents(): Transaction
      reads this
    {
      Transaction(version, hasFlag, txins, txouts, cbWitnesses, witnesses, lockTime, txid, wtxid)
    }

    /** Zeroed memory. */
    predicate Blank()
      reads this
    {
      Contents() == Transaction(0, false, [], [], 0, [], 0, Zeros(32), Zeros(32))
    }

    method Cleanup()
      modifies this
      ensures txins == [] && txouts == [] && witnesses == []
    {
      txins, txouts, witnesses := [], [], [];
    }

    /** Inputs and outputs, and the bytes that are hashed so far. */
    method ParseLists(payload: seq<byte>, start: nat) returns (r: Code)
      requires start <= |payload|
      modifies this`txins, this`txouts
      ensures var t := payload[start..]; var ins := Counted(ParseTxin, t);
        match ins
        case Reject => r == Failed
        case Halt => r == Stopped
        case Ok(vs, a) =>
          a <= |t| && match Counted(ParseTxout, t[a..])
            case Reject => r == Failed
            case Halt => r == Stopped
            case Ok(us, b) => b <= |t[a..]| && r == Length(a + b) && txins == vs && txouts == us
    {
      hide Counted, ParseTxin, ParseTxout, Bounded, ParseVarstr, ParseVarint;
      RecordsBounded();
      var ins := ParseCounted(ParseTxin, payload, start);
      match ins
      case Reject => return Failed;
      case Halt => return Stopped;
      case Ok(vs, a) =>
        txins := vs;
        assert payload[start..][a..] == payload[start + a..];
        var outs := ParseCounted(ParseTxout, payload, start + a);
        match outs
        case Reject => return Failed;
        case Halt => return Stopped;
        case Ok(us, b) =>
          txouts := us;
          return Length(a + b);
    }

    /** The witnesses, if any, and the lock time. */
    method ParseRest(payload: seq<byte>, start: nat) returns (r: Code)
      requires start <= |payload| && witnesses == []
      modifies this`witnesses, this`cbWitnesses, this`lockTime
      ensures match ParseTail(payload[start..], |txins|, hasFlag)
        case Reject => r == Failed
        case Halt => r == Stopped
        case Ok(t, n) =>
          && r == Length(n) && 4 <= n <= |payload| - start && TailOf(Contents()) == t
          && payload[start + n - 4..start + n] == ToLE(lockTime, 4)
    {
      hide ParseMany, FromLE, ToLE;
      var p := start;
      cbWitnesses := 0;
      if hasFlag && p + 4 < |payload| {
        var ws := ParseWitnesses(payload, start, |txins|);
        match ws
        case Reject => return Failed;
        case Halt => return Stopped;
        case Ok(vs, k) =>
          witnesses := vs;
          p := p + k;
          cbWitnesses := k;
      }
      if p + 4 > |payload| { return Failed; }
      assert payload[start..][p - start..] == payload[p..];
      lockTime := FromLE(payload[p..][..4]);
      ToFromLE(payload[p..][..4]);
      assert payload[p..p + 4] == payload[p..][..4];
      return Length(p + 4 - start);
    }

    /** Everything after version and flag, and what is hashed of it. */
    method ParseAll(payload: seq<byte>, start: nat) returns (r: Code, fed: seq<byte>)
      requires start <= |payload| && witnesses == []
      modifies this`txins, this`txouts, this`witnesses, this`cbWitnesses, this`lockTime
      ensures match ParseBody(payload[start..], hasFlag)
        case Reject => r == Failed
        case Halt => r == Stopped
        case Ok(b, n) =>
          && r == Length(n) && n <= |payload| - start
          && txins == b.txins && txouts == b.txouts && TailOf(Contents()) == b.tail && fed == b.hashed
    {
      hide ParseTail, Counted, FromLE, ToLE;
      ghost var t := payload[start..];
      ghost var a := Counted(ParseTxin, t);
      r := ParseLists(payload, start);
      fed := [];
      if r.Length? {
        ghost var b := Counted(ParseTxout, t[a.n..]);
        Slices(payload, start, a.n, b.n);
        fed := payload[start..start + r.n];
        var lists := start + r.n;
        r := ParseRest(payload, lists);
        if r.Length? { fed := fed + payload[lists + r.n - 4..lists + r.n]; r := Length(lists + r.n - start); }
      }
    }

    /** Parses a payload into a blank object; on failure nothing of the lists is kept. */
    method Parse(sha: Hash, payload: seq<byte>) returns (r: Code)
      requires Blank()
      modifies this
      ensures match ParseTx(sha, payload)
        case Reject => r == Failed && txins == [] && txouts == [] && witnesses == []
        case Halt => r == Stopped
        case Ok(tx, n) => r == Length(n) && Contents() == tx
    {
      hide ParseBody, FromLE, Twice, ToLE;
      if |payload| == 0 || |payload| > MAX_SIZE { return Stopped; }
      var p := 0;
      if p + 4 > |payload| { return Failed; }
      version := FromLE(payload[..4]);
      p := p + 4;
      if p + 2 > |payload| { return Failed; }
      if payload[p] == 0 {
        if payload[p + 1] != 1 { return Failed; }
        hasFlag := true;
        p := p + 2;
      }
      var fed;
      r, fed := ParseAll(payload, p);
      if r.Failed? { Cleanup(); }
      if r.Length? {
        p := p + r.n;
        txid := Twice(sha, payload[..4] + fed);
        if hasFlag { wtxid := Twice(sha, payload[..p]); }
        r := Length(p);
      }
    }

    /** The number of bytes to allocate, from the recorded size of the witnesses. */
    function SerializedSize(): nat
      reads this
    {
      4 + |Flag(hasFlag)| + |PrintInputs(txins)| + |PrintOutputs(txouts)| + (if hasFlag then cbWitnesses else 0) + 4
    }

    /** Item counts and items; false when an item count is negative, since there are no items then. */
    method PutWitnesses(buffer: array<byte>, p: nat) returns (ok: bool, q: nat)
      requires ValidWitnesses(witnesses) && p + |PrintMany(WitnessBytes, witnesses)| <= buffer.Length
      modifies buffer
      ensures ok <==> forall i :: 0 <= i < |witnesses| ==> witnesses[i].numItems >= 0
      ensures ok ==> q == p + |PrintMany(WitnessBytes, witnesses)| <= buffer.Length
      ensures ok ==> buffer[..q] == old(buffer[..p]) + PrintMany(WitnessBytes, witnesses)
    {
      hide PrintMany, ValidWitness, WitnessBytes;
      ok, q := true, p;
      var i := 0;
      ghost var before := buffer[..p];
      NothingPrinted(WitnessBytes);
      assert witnesses[..0] == [] && before + [] == before;
      while i < |witnesses|
        invariant i <= |witnesses| && q == p + |PrintMany(WitnessBytes, witnesses[..i])| <= buffer.Length
        invariant buffer[..q] == before + PrintMany(WitnessBytes, witnesses[..i])
        invariant forall k :: 0 <= k < i ==> witnesses[k].numItems >= 0
      {
        var w := witnesses[i];
        if w.numItems < 0 { return false, q; }
        PrintNext(WitnessBytes, witnesses, i);
        q := PutWitness(buffer, q, w);
        i := i + 1;
      }
      assert witnesses[..i] == witnesses;
    }

    static method PutWitness(buffer: array<byte>, p: nat, w: Witness) returns (q: nat)
      requires w.numItems >= 0 && p + |WitnessBytes(w)| <= buffer.Length
      modifies buffer
      ensures q == p + |WitnessBytes(w)| && buffer[..q] == old(buffer[..p]) + WitnessBytes(w)
    {
      hide PrintMany, Varint;
      ghost var before := buffer[..p];
      q := Put(buffer, p, Varint(w.numItems));
      q := PutMany(buffer, q, Itself, w.items);
      assert before + (Varint(w.numItems) + PrintMany(Itself, w.items))
          == before + Varint(w.numItems) + PrintMany(Itself, w.items);
    }

    /** Marker, flag and the two lists. */
    method PutLists(buffer: array<byte>) returns (q: nat)
      requires buffer.Length >= 4 + |Flag(hasFlag)| + |PrintInputs(txins)| + |PrintOutputs(txouts)|
      modifies buffer
      ensures q == 4 + |Flag(hasFlag)| + |PrintInputs(txins)| + |PrintOutputs(txouts)|
      ensures buffer[..q] == ToLE(version, 4) + (Flag(hasFlag) + (PrintInputs(txins) + PrintOutputs(txouts)))
    {
      hide PrintMany, Varint, ToLE, PrintTxin, PrintTxout;
      q := Put(buffer, 0, ToLE(version, 4));
      assert buffer[..0] == [] && [] + ToLE(version, 4) == ToLE(version, 4);
      q := Put(buffer, q, Flag(hasFlag));
      q := Put(buffer, q, Varint(|txins|));
      q := PutMany(buffer, q, PrintTxin, txins);
      q := Put(buffer, q, Varint(|txouts|));
      q := PutMany(buffer, q, PrintTxout, txouts);
      Reassociate(ToLE(version, 4), Flag(hasFlag), Varint(|txins|), PrintMany(PrintTxin, txins),
                  Varint(|txouts|), PrintMany(PrintTxout, txouts));
    }

    /** Serializes into a new buffer, or stops at an assertion. The witnesses must not take more space
        than was recorded, as is so after parsing. */
    method Serialize() returns (ok: bool, payload: array<byte>)
      requires ValidWitnesses(witnesses) && |witnesses| in {0, |txins|}
      requires |PrintMany(WitnessBytes, witnesses)| <= cbWitnesses
      ensures ok <==> Serializable(Contents())
      ensures ok ==> payload[..] == PrintTx(Contents())
    {
      hide PrintMany, Varint, ToLE, PrintInputs, PrintOutputs, Flag, ValidWitness;
      payload := new byte[SerializedSize()](_ => 0);
      var p := PutLists(payload);
      ghost var tail: seq<byte> := [];
      if hasFlag {
        if !(cbWitnesses > 0 && witnesses != []) {
          NothingPrinted(WitnessBytes);
          return false, payload;
        }
        var start := p;
        ok, p := PutWitnesses(payload, p);
        if !ok || start + cbWitnesses != p { return false, payload; }
        tail := PrintMany(WitnessBytes, witnesses);
      }
      ghost var lists := Flag(hasFlag) + (PrintInputs(txins) + PrintOutputs(txouts));
      assert payload[..p] == ToLE(version, 4) + lists + tail;
      p := Put(payload, p, ToLE(lockTime, 4));
      ok := true;
      assert payload[..] == payload[..p];
      RegroupTx(ToLE(version, 4), Flag(hasFlag), PrintInputs(txins), PrintOutputs(txouts), tail, ToLE(lockTime, 4));
    }
  }

  lemma Reassociate(v: seq<byte>, f: seq<byte>, a: seq<byte>, b: seq<byte>, c: seq<byte>, d: seq<byte>)
    ensures v + f + a + b + c + d == v + (f + ((a + b) + (c + d)))
  {
    assert (a + b) + (c + d) == a + b + c + d;
    assert f + (a + b + c + d) == f + a + b + c + d;
    assert v + (f + a + b + c + d) == v + f + a + b + c + d;
  }

  lemma RegroupTx(v: seq<byte>, f: seq<byte>, a: seq<byte>, b: seq<byte>, w: seq<byte>, l: seq<byte>)
    ensures v + (f + (a + b)) + w + l == v + (f + (a + (b + (w + l))))
  {
    assert f + (a + (b + (w + l))) == (f + (a + b)) + (w + l);
    assert v + ((f + (a + b)) + (w + l)) == v + (f + (a + b)) + w + l;
  }

  lemma Slices(s: seq<byte>, p: nat, a: nat, b: nat)
    requires p + a + b <= |s|
    ensures s[p..][..a] + s[p..][a..][..b] == s[p..p + (a + b)]
    ensures s[p..][a..][b..] == s[p + (a + b)..]
  {
  }
}
