/** Blocks on the wire, after src/satoshi-block.c. */
module Block {
  import opened Bytes
  import opened Wire
  import opened Tx
  import opened TxObject
  import M = MerkleTree

  const HEADER_SIZE := 80

  /** Without transactions a block is just a header. */
  datatype BlockData = BlockData(hdr: seq<byte>, txs: seq<Transaction>, hash: seq<byte>)

  function HeaderRoot(hdr: seq<byte>): seq<byte>
    requires |hdr| == HEADER_SIZE
  {
    hdr[36..68]
  }

  function PairHash(sha: Hash): M.HashFunction {
    data => Twice(sha, data)
  }

  function TxIds(txs: seq<Transaction>): (ids: seq<seq<byte>>)
    ensures |ids| == |txs|
  {
    if txs == [] then [] else [txs[0].txid] + TxIds(txs[1..])
  }

  /** The transaction where the next one should start. */
  function NextTx(sha: Hash): seq<byte> -> Parsed<Transaction> {
    s => if s == [] then Reject else ParseTx(sha, s)
  }

  /** `accepts` is the proof-of-work verdict on a header. */
  function ParseBlock(sha: Hash, accepts: seq<byte> -> bool, s: seq<byte>): Parsed<BlockData> {
    if s == [] then Halt
    else if |s| < HEADER_SIZE || !accepts(s[..HEADER_SIZE]) then Reject
    else
      var hdr := s[..HEADER_SIZE];
      if |s| == HEADER_SIZE then Ok(BlockData(hdr, [], Twice(sha, hdr)), HEADER_SIZE)
      else
        match Counted(NextTx(sha), s[HEADER_SIZE..])
        case Reject => Reject
        case Halt => Halt
        case Ok(txs, n) =>
          if txs == [] || M.Root(PairHash(sha), TxIds(txs)) != HeaderRoot(hdr) then Reject
          else if HEADER_SIZE + n > MAX_SIZE then Halt
          else Ok(BlockData(hdr, txs, Twice(sha, hdr)), HEADER_SIZE + n)
  }

  function PrintBlock(b: BlockData): seq<byte> {
    b.hdr + if b.txs == [] then [] else PrintCounted(PrintTx, b.txs)
  }

  function SerializeBlock(b: BlockData): Printed {
    if (forall i :: 0 <= i < |b.txs| ==> Serializable(b.txs[i])) && |PrintBlock(b)| <= MAX_SIZE
    then Tx.Bytes(PrintBlock(b)) else Aborted
  }

  ghost predicate ValidBlock(sha: Hash, accepts: seq<byte> -> bool, b: BlockData) {
    && |b.hdr| == HEADER_SIZE && accepts(b.hdr) && b.hash == Twice(sha, b.hdr)
    && (forall tx :: tx in b.txs ==> ValidTx(sha, tx))
    && (b.txs != [] ==> M.Root(PairHash(sha), TxIds(b.txs)) == HeaderRoot(b.hdr))
  }

  /** The six fields of a header. */
  lemma HeaderFields(version: nat, prev: seq<byte>, root: seq<byte>, time: nat, bits: nat, nonce: nat)
    requires |prev| == |root| == 32
    ensures var hdr := ToLE(version, 4) + prev + root + ToLE(time, 4) + ToLE(bits, 4) + ToLE(nonce, 4);
      |hdr| == 80 && HeaderRoot(hdr) == root
  {
    hide ToLE;
    ThirdField(ToLE(version, 4), prev, root, ToLE(time, 4), ToLE(bits, 4), ToLE(nonce, 4));
  }

  lemma ThirdField(a: seq<byte>, b: seq<byte>, c: seq<byte>, d: seq<byte>, e: seq<byte>, f: seq<byte>)
    requires |a| == |d| == |e| == |f| == 4 && |b| == |c| == 32
    ensures var s := a + b + c + d + e + f; |s| == 80 && s[36..68] == c
  {
    var s := a + b + c;
    assert (s + d + e + f)[..68] == s && s[36..68] == c;
  }

  lemma {:induction false} IdsInOrder(txs: seq<Transaction>)
    ensures TxIds(txs) == seq(|txs|, i requires 0 <= i < |txs| => txs[i].txid)
  {
    if txs != [] { IdsInOrder(txs[1..]); }
  }

  /** A header with something behind it: the block is accepted exactly when the verdict on the header is, the
      transactions can be read, the pairwise double hash of their ids is the third field of the header, and the whole
      is no larger than 4,000,000 bytes. */
  lemma AcceptedExactly(sha: Hash, accepts: seq<byte> -> bool, version: nat, prev: seq<byte>, root: seq<byte>,
                        time: nat, bits: nat, nonce: nat, body: seq<byte>)
    requires |prev| == |root| == 32 && body != []
    ensures var hdr := ToLE(version, 4) + prev + root + ToLE(time, 4) + ToLE(bits, 4) + ToLE(nonce, 4);
      var r, t := ParseBlock(sha, accepts, hdr + body), Counted(NextTx(sha), body);
      && (r.Ok? <==>
           && accepts(hdr) && t.Ok? && t.v != [] && 80 + t.n <= 4_000_000
           && M.Root(d => sha(sha(d)), seq(|t.v|, i requires 0 <= i < |t.v| => t.v[i].txid)) == root)
      && (r.Ok? ==> r == Ok(BlockData(hdr, t.v, sha(sha(hdr))), 80 + t.n))
  {
    hide Counted, ToLE, M.Root, TxIds, HeaderRoot, ParseBlock;
    HeaderFields(version, prev, root, time, bits, nonce);
    ParsedBehind(sha, accepts, ToLE(version, 4) + prev + root + ToLE(time, 4) + ToLE(bits, 4) + ToLE(nonce, 4), body);
    var t := Counted(NextTx(sha), body);
    if t.Ok? && t.v != [] { RootOfIds(sha, t.v); }
  }

  lemma RootOfIds(sha: Hash, txs: seq<Transaction>)
    requires txs != []
    ensures M.Root(PairHash(sha), TxIds(txs))
         == M.Root(d => sha(sha(d)), seq(|txs|, i requires 0 <= i < |txs| => txs[i].txid))
  {
    IdsInOrder(txs);
    hide TxIds;
    M.RootAlike(PairHash(sha), d => sha(sha(d)), TxIds(txs));
  }

  lemma ParsedBehind(sha: Hash, accepts: seq<byte> -> bool, hdr: seq<byte>, body: seq<byte>)
    requires |hdr| == 80 && body != []
    ensures var r, t := ParseBlock(sha, accepts, hdr + body), Counted(NextTx(sha), body);
      && (r.Ok? <==>
           && accepts(hdr) && t.Ok? && t.v != [] && 80 + t.n <= 4_000_000
           && M.Root(PairHash(sha), TxIds(t.v)) == HeaderRoot(hdr))
      && (r.Ok? ==> r == Ok(BlockData(hdr, t.v, sha(sha(hdr))), 80 + t.n))
  {
    hide Counted, M.Root, TxIds, HeaderRoot;
    assert (hdr + body)[..80] == hdr && (hdr + body)[80..] == body;
  }

  /** A well-formed block is read back from its serialization, whatever follows. A bare header must be followed
      by nothing. */
  lemma BlockRoundTrip(sha: Hash, accepts: seq<byte> -> bool, b: BlockData, rest: seq<byte>)
    requires ValidBlock(sha, accepts, b) && |PrintBlock(b)| + |rest| <= MAX_SIZE
    requires b.txs != [] || rest == []
    ensures SerializeBlock(b) == Tx.Bytes(PrintBlock(b))
    ensures ParseBlock(sha, accepts, PrintBlock(b) + rest) == Ok(b, |PrintBlock(b)|)
  {
    hide PrintTx, ParseTx, ValidTx, PrintCounted, Counted, Twice;
    var s := PrintBlock(b) + rest;
    assert s[..HEADER_SIZE] == b.hdr;
    forall tx | tx in b.txs ensures Serializable(tx) { ValidSerializable(sha, tx); }
    if b.txs != [] {
      var body := PrintCounted(PrintTx, b.txs) + rest;
      assert s[HEADER_SIZE..] == body;
      TxsRoundTrip(sha, b.txs, rest);
    }
  }

  lemma ValidSerializable(sha: Hash, tx: Transaction)
    requires ValidTx(sha, tx)
    ensures Serializable(tx)
  {
    hide PrintMany, PrintTx, Legacy;
    if tx.hasFlag { WitnessesTakeSpace(tx.witnesses); }
  }

  lemma TxsRoundTrip(sha: Hash, txs: seq<Transaction>, rest: seq<byte>)
    requires txs != [] && forall tx :: tx in txs ==> ValidTx(sha, tx)
    requires |PrintCounted(PrintTx, txs)| + |rest| <= MAX_SIZE - HEADER_SIZE
    ensures PrintCounted(PrintTx, txs) + rest != []
    ensures Counted(NextTx(sha), PrintCounted(PrintTx, txs) + rest) == Ok(txs, |PrintCounted(PrintTx, txs)|)
  {
    hide PrintTx, ParseTx, ValidTx, Varint;
    CountFits(txs);
    var s := PrintCounted(PrintTx, txs) + rest;
    var tail := PrintMany(PrintTx, txs) + rest;
    VarintRoundTrip(|txs|, tail);
    assert s == Varint(|txs|) + tail;
    assert s[|Varint(|txs|)|..] == tail;
    ManyTxs(sha, txs, rest);
  }

  lemma {:induction false} CountFits(txs: seq<Transaction>)
    ensures |txs| <= |PrintMany(PrintTx, txs)|
  {
    hide PrintBody, Flag;
    if txs != [] { CountFits(txs[1..]); }
  }

  lemma {:induction false} ManyTxs(sha: Hash, txs: seq<Transaction>, rest: seq<byte>)
    requires forall tx :: tx in txs ==> ValidTx(sha, tx)
    requires |PrintMany(PrintTx, txs)| + |rest| <= MAX_SIZE
    ensures ParseMany(NextTx(sha), PrintMany(PrintTx, txs) + rest, |txs|) == Ok(txs, |PrintMany(PrintTx, txs)|)
  {
    hide PrintTx, ParseTx, ValidTx;
    if txs != [] {
      var tail := PrintMany(PrintTx, txs[1..]) + rest;
      ManyTxs(sha, txs[1..], rest);
      var s := PrintMany(PrintTx, txs) + rest;
      assert s == PrintTx(txs[0]) + tail;
      assert s[|PrintTx(txs[0])|..] == tail;
      assert txs[0] in txs;
      TxRoundTrip(sha, txs[0], tail);
      assert s != [] by { PrintedNonEmpty(txs[0]); }
      assert [txs[0]] + txs[1..] == txs;
    }
  }

  lemma PrintedNonEmpty(tx: Transaction)
    ensures PrintTx(tx) != []
  {
    hide PrintBody, Flag;
  }

  // ----- Re-serialization -----

  /** The transaction at the start of `s` is printed as it was read. */
  ghost predicate Reread(sha: Hash, s: seq<byte>) {
    var r := NextTx(sha)(s);
    r.Ok? && r.n <= |s| && PrintTx(r.v) == s[..r.n]
  }

  /** The transaction at the start of `s` is serialized to the bytes that were read. */
  ghost predicate Exact(sha: Hash, s: seq<byte>) {
    var r := NextTx(sha)(s);
    r.Ok? && r.n <= |s| && SerializeTx(r.v) == Tx.Bytes(s[..r.n])
  }

  lemma NextTxReprints(sha: Hash)
    ensures Reprints(NextTx(sha), PrintTx, s => Reread(sha, s))
  {
    hide ParseTx, PrintTx;
    forall s | NextTx(sha)(s).Ok?
      ensures var r := NextTx(sha)(s);
        && r.n <= |s| && |PrintTx(r.v)| <= r.n && (|PrintTx(r.v)| == r.n ==> PrintTx(r.v) == s[..r.n])
    {
      PrintedNoLonger(sha, s);
    }
  }

  /** All transactions are exact where they start when all are printed as read and none stops the process. */
  lemma {:induction false} ManyExact(sha: Hash, s: seq<byte>, n: nat)
    requires ParseMany(NextTx(sha), s, n).Ok?
    ensures AllMinimal(NextTx(sha), t => Exact(sha, t), s, n) <==>
      && AllMinimal(NextTx(sha), t => Reread(sha, t), s, n)
      && forall tx :: tx in ParseMany(NextTx(sha), s, n).v ==> Serializable(tx)
    decreases n
  {
    hide ParseTx, PrintTx, Serializable;
    if n > 0 {
      var r := NextTx(sha)(s);
      ManyExact(sha, s[r.n..], n - 1);
      assert forall tx :: tx in ParseMany(NextTx(sha), s, n).v <==>
        tx == r.v || tx in ParseMany(NextTx(sha), s[r.n..], n - 1).v;
    }
  }

  /** Serializing a parsed block gives back the bytes read exactly when the transaction count was minimal and
      every transaction is serialized to the bytes it was read from. */
  lemma BlockReserialized(sha: Hash, accepts: seq<byte> -> bool, s: seq<byte>)
    requires ParseBlock(sha, accepts, s).Ok?
    ensures var r := ParseBlock(sha, accepts, s);
      var t := s[HEADER_SIZE..];
      && r.n <= |s| && r.n <= MAX_SIZE
      && (SerializeBlock(r.v) == Tx.Bytes(s[..r.n]) <==>
          r.v.txs == [] || (
            && Minimal(t)
            && AllMinimal(NextTx(sha), u => Exact(sha, u), t[ParseVarint(t).n..], |r.v.txs|)))
  {
    hide ParseTx, PrintTx, Serializable, Minimal, AllMinimal, Exact, ParseVarint, Varint, PrintMany, ParseMany;
    var r := ParseBlock(sha, accepts, s);
    var t := s[HEADER_SIZE..];
    if r.v.txs == [] {
      assert s[..HEADER_SIZE] + [] == s[..HEADER_SIZE];
    } else {
      BlockParts(sha, accepts, s);
      hide ParseBlock, PrintCounted;
      var c := ParseVarint(t);
      var m := r.n - HEADER_SIZE - c.n;
      TxsReprinted(sha, t);
      ManyExact(sha, t[c.n..], |r.v.txs|);
      SplitEqual(s[..HEADER_SIZE], PrintCounted(PrintTx, r.v.txs), s[..HEADER_SIZE], t[..c.n + m]);
      assert s[..r.n] == s[..HEADER_SIZE] + t[..c.n + m];
    }
  }

  lemma BlockParts(sha: Hash, accepts: seq<byte> -> bool, s: seq<byte>)
    requires var r := ParseBlock(sha, accepts, s); r.Ok? && r.v.txs != []
    ensures var r := ParseBlock(sha, accepts, s);
      && HEADER_SIZE <= r.n <= MAX_SIZE && |s| > HEADER_SIZE && r.v.hdr == s[..HEADER_SIZE]
      && Counted(NextTx(sha), s[HEADER_SIZE..]) == Ok(r.v.txs, r.n - HEADER_SIZE)
  {
  }

  lemma TxsReprinted(sha: Hash, t: seq<byte>)
    requires Counted(NextTx(sha), t).Ok?
    ensures var r := Counted(NextTx(sha), t); var k := ParseVarint(t).n;
      && k <= r.n <= |t| && |PrintCounted(PrintTx, r.v)| <= r.n
      && ParseMany(NextTx(sha), t[k..], |r.v|) == Ok(r.v, r.n - k)
      && (PrintCounted(PrintTx, r.v) == t[..r.n] <==>
          Minimal(t) && AllMinimal(NextTx(sha), u => Reread(sha, u), t[k..], |r.v|))
  {
    hide ParseTx, PrintTx, ParseVarint, Varint, PrintMany, ParseMany, Minimal, AllMinimal, Reprints;
    var r, c := Counted(NextTx(sha), t), ParseVarint(t);
    NextTxReprints(sha);
    VarintReencoded(t);
    ManyReprints(NextTx(sha), PrintTx, u => Reread(sha, u), t[c.n..], c.v);
    SplitEqual(Varint(c.v), PrintMany(PrintTx, r.v), t[..c.n], t[c.n..][..r.n - c.n]);
    assert t[..r.n] == t[..c.n] + t[c.n..][..r.n - c.n];
  }

  // ----- The block object -----

  lemma {:induction false} TxIdsAppend(txs: seq<Transaction>, tx: Transaction)
    ensures TxIds(txs + [tx]) == TxIds(txs) + [tx.txid]
  {
    if txs != [] {
      TxIdsAppend(txs[1..], tx);
      assert (txs + [tx])[1..] == txs[1..] + [tx];
    }
  }

  lemma {:induction false} CountBounded(sha: Hash, s: seq<byte>, n: nat)
    requires ParseMany(NextTx(sha), s, n).Ok?
    ensures n <= ParseMany(NextTx(sha), s, n).n <= |s| && (n > 0 ==> |s| <= MAX_SIZE)
    decreases n
  {
    hide ParseTx;
    if n > 0 {
      var r := NextTx(sha)(s);
      ReadsSome(sha, s);
      CountBounded(sha, s[r.n..], n - 1);
    }
  }

  lemma ReadsSome(sha: Hash, s: seq<byte>)
    requires ParseTx(sha, s).Ok?
    ensures 0 < ParseTx(sha, s).n <= |s| <= MAX_SIZE
  {
    hide ParseBody;
  }

  method ParseNext(sha: Hash, payload: seq<byte>, p: nat) returns (r: Parsed<Transaction>)
    requires p < |payload|
    ensures r == NextTx(sha)(payload[p..])
    ensures r.Ok? ==> 0 < r.n <= |payload| - p
  {
    hide ParseTx;
    var tx := new SatoshiTx();
    var code := tx.Parse(sha, payload[p..]);
    match code
    case Failed => return Reject;
    case Stopped => return Halt;
    case Length(n) =>
      ReadsSome(sha, payload[p..]);
      return Ok(tx.Contents(), n);
  }

  lemma {:induction false} ManyLength<T>(f: seq<byte> -> Parsed<T>, s: seq<byte>, n: nat)
    requires ParseMany(f, s, n).Ok?
    ensures |ParseMany(f, s, n).v| == n
    decreases n
  {
    if n > 0 { ManyLength(f, s[f(s).n..], n - 1); }
  }

  class SatoshiBlock {
    var hdr: seq<byte>
    var txs: seq<Transaction>
    var hash: seq<byte>

    constructor ()
    {
      hdr, txs, hash := Zeros(HEADER_SIZE), [], Zeros(32);
    }

    function Contents(): BlockData
      reads this
    {
      BlockData(hdr, txs, hash)
    }

    /** The transaction loop, which also fills the Merkle tree with the transaction ids. */
    method ParseTxs(sha: Hash, payload: seq<byte>, start: nat, n: nat, tree: M.MerkleTree)
      returns (r: Parsed<seq<Transaction>>)
      requires start <= |payload| && tree.Valid() && tree.Contents() == []
      modifies tree
      ensures r == ParseMany(NextTx(sha), payload[start..], n)
      ensures r.Ok? ==> start + r.n <= |payload| && tree.Valid() && tree.Contents() == TxIds(r.v)
    {
      hide ParseTx, ParseMany, Resume;
      ghost var f := NextTx(sha);
      ghost var s := payload[start..];
      var done: seq<Transaction>, p: nat, i: nat := [], start, 0;
      ManyStart(f, s, n);
      while i < n
        invariant i <= n && start <= p <= |payload|
        invariant ParseMany(f, s, n) == Resume(done, p - start, ParseMany(f, s[p - start..], n - i))
        invariant tree.Valid() && tree.Contents() == TxIds(done)
      {
        assert s[p - start..] == payload[p..];
        if p >= |payload| {
          assert payload[p..] == [];
          ManyStep(f, s, done, p - start, n - i);
          return Reject;
        }
        var tx := ParseNext(sha, payload, p);
        ManyStep(f, s, done, p - start, n - i);
        match tx
        case Reject => return Reject;
        case Halt => return Halt;
        case Ok(v, k) =>
          tree.Add([v.txid]);
          TxIdsAppend(done, v);
          done, p, i := done + [v], p + k, i + 1;
      }
      ManyEnd(f, s[p - start..], done, p - start);
      r := Ok(done, p - start);
    }

    /** The transactions and the root of their ids. */
    method ParseBody(sha: Hash, payload: seq<byte>, start: nat, n: nat)
      returns (r: Parsed<seq<Transaction>>, root: seq<byte>)
      requires start <= |payload| && n > 0
      ensures r == ParseMany(NextTx(sha), payload[start..], n)
      ensures r.Ok? ==> r.v != [] && root == M.Root(PairHash(sha), TxIds(r.v))
    {
      hide ParseTx, ParseMany, M.Root;
      var tree := new M.MerkleTree(PairHash(sha), n);
      root := M.Zero();
      r := ParseTxs(sha, payload, start, n, tree);
      if r.Ok? {
        CountBounded(sha, payload[start..], n);
        ManyLength(NextTx(sha), payload[start..], n);
        tree.Recalc(0, -1);
        root := tree.merkleRoot;
      }
    }

    method Parse(sha: Hash, accepts: seq<byte> -> bool, payload: seq<byte>) returns (r: Code)
      modifies this
      ensures match ParseBlock(sha, accepts, payload)
        case Reject => r == Failed && txs == []
        case Halt => r == Stopped
        case Ok(b, n) => r == Length(n) && Contents() == b
    {
      hide ParseTx, ParseMany, ParseVarint, M.Root, TxIds;
      if payload == [] { return Stopped; }
      txs := [];
      if HEADER_SIZE > |payload| { return Failed; }
      hdr := payload[..HEADER_SIZE];
      hash := Twice(sha, hdr);
      if !accepts(hdr) { return Failed; }
      if |payload| == HEADER_SIZE { return Length(HEADER_SIZE); }
      ghost var t := payload[HEADER_SIZE..];
      var count := ParseVarint(payload[HEADER_SIZE..]);
      if !count.Ok? || Signed(count.v) <= 0 { return Failed; }
      var p := HEADER_SIZE + count.n;
      assert t[count.n..] == payload[p..];
      var body, root;
      body, root := ParseBody(sha, payload, p, count.v);
      match body
      case Reject => return Failed;
      case Halt => return Stopped;
      case Ok(parsed, n) =>
        if root != HeaderRoot(hdr) { return Failed; }
        if p + n > MAX_SIZE { return Stopped; }
        txs := parsed;
        return Length(p + n);
    }

    method PutTxs(payload: array<byte>, start: nat) returns (ok: bool, p: nat)
      requires start + |PrintMany(PrintTx, txs)| <= payload.Length
      modifies payload
      ensures ok <==> forall i :: 0 <= i < |txs| ==> Serializable(txs[i])
      ensures ok ==> p == start + |PrintMany(PrintTx, txs)| <= payload.Length
      ensures ok ==> payload[..p] == old(payload[..start]) + PrintMany(PrintTx, txs)
    {
      hide PrintTx, Serializable, PrintMany;
      p := start;
      ghost var front := payload[..p];
      var i := 0;
      NothingPrinted(PrintTx);
      assert txs[..0] == [] && front + [] == front;
      while i < |txs|
        invariant i <= |txs| && p == start + |PrintMany(PrintTx, txs[..i])| <= payload.Length
        invariant payload[..p] == front + PrintMany(PrintTx, txs[..i])
        invariant forall k :: 0 <= k < i ==> Serializable(txs[k])
      {
        if !Serializable(txs[i]) { return false, p; }
        PrintNext(PrintTx, txs, i);
        p := Put(payload, p, PrintTx(txs[i]));
        i := i + 1;
      }
      assert txs[..i] == txs;
      ok := true;
    }

    /** Serializes into a new buffer, or stops at an assertion. */
    method Serialize() returns (ok: bool, payload: array<byte>)
      requires |hdr| == HEADER_SIZE
      ensures SerializeBlock(Contents()) == if ok then Tx.Bytes(payload[..]) else Aborted
    {
      hide PrintTx, Serializable, PrintMany, Varint;
      var size := |PrintBlock(Contents())|;
      payload := new byte[size](_ => 0);
      if size > MAX_SIZE { return false, payload; }
      var p := Put(payload, 0, hdr);
      assert payload[..0] == [] && [] + hdr == hdr;
      ok := true;
      if txs == [] {
        assert hdr + [] == hdr;
      } else {
        p := Put(payload, p, Varint(|txs|));
        ok, p := PutTxs(payload, p);
        assert hdr + (Varint(|txs|) + PrintMany(PrintTx, txs)) == hdr + Varint(|txs|) + PrintMany(PrintTx, txs);
      }
      assert ok ==> payload[..] == payload[..p];
    }
  }
}
