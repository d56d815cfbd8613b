/** Cutting the byte stream of a peer into messages, after the read handler of src/spv-node.c. */
module Framing {
  import opened Bytes
  import opened AutoBuffer

  const HEADER_SIZE := 24
  const READ_SIZE := 4096

  /** A message with its header. */
  type Frame = seq<byte>

  /** What the node does with messages: `parse` is the return code for a frame, `handle` the return code of
      the handler for the last of the messages delivered so far. */
  datatype Peer = Peer(magic: nat, parse: Frame -> int, handle: seq<Frame> -> int)

  /** The length that the header announces, with the header. */
  function FrameLength(s: seq<byte>): (n: nat)
    requires |s| >= HEADER_SIZE
    ensures n >= HEADER_SIZE
  {
    HEADER_SIZE + FromLE(s[16..20])
  }

  predicate Complete(s: seq<byte>) {
    |s| >= HEADER_SIZE && FrameLength(s) <= |s|
  }

  predicate RightMagic(peer: Peer, s: seq<byte>)
    requires |s| >= HEADER_SIZE
  {
    FromLE(s[..4]) == peer.magic
  }

  // ----- Specification -----

  /** The messages delivered, the bytes left over, and the return code. */
  datatype Outcome = Outcome(delivered: seq<Frame>, rest: seq<byte>, rc: int)

  /** All that can be done with the bytes at hand. The code of a handler counts only for the last frame. */
  function Scan(peer: Peer, done: seq<Frame>, s: seq<byte>, rc: int): (o: Outcome)
    ensures |o.rest| <= |s|
    decreases |s|
  {
    if !Complete(s) then Outcome(done, s, rc)
    else if !RightMagic(peer, s) then Outcome(done, s, -1)
    else
      var frame := s[..FrameLength(s)];
      if peer.parse(frame) != 0 then Outcome(done, s, peer.parse(frame))
      else Scan(peer, done + [frame], s[FrameLength(s)..], peer.handle(done + [frame]))
  }

  /** Reads until one would block, the connection is closed, or a code is not zero. */
  function Reads(peer: Peer, done: seq<Frame>, buffer: seq<byte>, pieces: seq<seq<byte>>, closed: bool): Outcome
    decreases |pieces|
  {
    if pieces == [] then Outcome(done, buffer, if closed then -1 else 0)
    else
      var o := Scan(peer, done, buffer + pieces[0], 0);
      if o.rc != 0 then o else Reads(peer, o.delivered, o.rest, pieces[1..], closed)
  }

  function Concat(parts: seq<seq<byte>>): seq<byte> {
    if parts == [] then [] else parts[0] + Concat(parts[1..])
  }

  /** Every complete frame has the right magic number and is accepted by parser and handler. */
  predicate Accepted(peer: Peer, done: seq<Frame>, s: seq<byte>)
    decreases |s|
  {
    Complete(s) ==>
      && RightMagic(peer, s)
      && var frame := s[..FrameLength(s)];
      && peer.parse(frame) == 0 && peer.handle(done + [frame]) == 0
      && Accepted(peer, done + [frame], s[FrameLength(s)..])
  }

  // ----- The way the stream is cut does not matter -----

  lemma FirstFrame(a: seq<byte>, b: seq<byte>)
    requires Complete(a)
    ensures Complete(a + b) && FrameLength(a + b) == FrameLength(a)
    ensures (a + b)[..FrameLength(a)] == a[..FrameLength(a)]
    ensures (a + b)[FrameLength(a)..] == a[FrameLength(a)..] + b
    ensures (a + b)[..4] == a[..4]
  {
    hide FromLE;
    assert (a + b)[16..20] == a[16..20];
  }

  /** Scanning what is there first and then the leftover with the rest gives the same as scanning everything. */
  lemma {:induction false} ScanInParts(peer: Peer, done: seq<Frame>, a: seq<byte>, b: seq<byte>)
    requires Accepted(peer, done, a + b)
    ensures var o := Scan(peer, done, a, 0);
      && o.rc == 0
      && Scan(peer, done, a + b, 0) == Scan(peer, o.delivered, o.rest + b, 0)
      && Accepted(peer, o.delivered, o.rest + b)
    decreases |a|
  {
    hide FromLE;
    if Complete(a) {
      FirstFrame(a, b);
      var n := FrameLength(a);
      ScanInParts(peer, done + [a[..n]], a[n..], b);
    }
  }

  /** However the stream is cut into reads, the same messages are delivered in the same order and the same
      bytes are left over as when the whole stream is framed at once. */
  lemma {:induction false} CutIndependence(peer: Peer, done: seq<Frame>, buffer: seq<byte>, pieces: seq<seq<byte>>,
                                           closed: bool)
    requires Accepted(peer, done, buffer + Concat(pieces)) && !Complete(buffer)
    ensures var whole := Scan(peer, done, buffer + Concat(pieces), 0);
      Reads(peer, done, buffer, pieces, closed) == Outcome(whole.delivered, whole.rest, if closed then -1 else 0)
    decreases |pieces|
  {
    hide Complete, RightMagic;
    if pieces == [] {
      assert buffer + [] == buffer;
      Incomplete(peer, done, buffer);
    } else {
      var first := buffer + pieces[0];
      assert buffer + Concat(pieces) == first + Concat(pieces[1..]);
      ScanInParts(peer, done, first, Concat(pieces[1..]));
      var o := Scan(peer, done, first, 0);
      LeftIncomplete(peer, done, first, 0);
      CutIndependence(peer, o.delivered, o.rest, pieces[1..], closed);
    }
  }

  lemma Incomplete(peer: Peer, done: seq<Frame>, s: seq<byte>)
    requires !Complete(s)
    ensures Scan(peer, done, s, 0) == Outcome(done, s, 0)
  {
  }

  lemma {:induction false} LeftIncomplete(peer: Peer, done: seq<Frame>, s: seq<byte>, rc: int)
    requires Scan(peer, done, s, rc).rc == 0
    ensures !Complete(Scan(peer, done, s, rc).rest)
    decreases |s|
  {
    hide FromLE;
    if Complete(s) && RightMagic(peer, s) && peer.parse(s[..FrameLength(s)]) == 0 {
      var n := FrameLength(s);
      LeftIncomplete(peer, done + [s[..n]], s[n..], peer.handle(done + [s[..n]]));
    }
  }

  /** The same over several calls, each of which reads until it would block. */
  function Calls(peer: Peer, done: seq<Frame>, buffer: seq<byte>, calls: seq<seq<seq<byte>>>): Outcome
    decreases |calls|
  {
    if calls == [] then Outcome(done, buffer, 0)
    else
      var o := Reads(peer, done, buffer, calls[0], false);
      if o.rc != 0 then o else Calls(peer, o.delivered, o.rest, calls[1..])
  }

  function ConcatAll(calls: seq<seq<seq<byte>>>): seq<byte> {
    if calls == [] then [] else Concat(calls[0]) + ConcatAll(calls[1..])
  }

  lemma {:induction false} CallIndependence(peer: Peer, done: seq<Frame>, buffer: seq<byte>, calls: seq<seq<seq<byte>>>)
    requires Accepted(peer, done, buffer + ConcatAll(calls)) && !Complete(buffer)
    ensures Calls(peer, done, buffer, calls) == Scan(peer, done, buffer + ConcatAll(calls), 0)
    decreases |calls|
  {
    hide Complete, RightMagic;
    if calls == [] {
      assert buffer + [] == buffer;
      Incomplete(peer, done, buffer);
    } else {
      var first := buffer + Concat(calls[0]);
      assert buffer + ConcatAll(calls) == first + ConcatAll(calls[1..]);
      ScanInParts(peer, done, first, ConcatAll(calls[1..]));
      AcceptedPrefix(peer, done, first, ConcatAll(calls[1..]));
      CutIndependence(peer, done, buffer, calls[0], false);
      LeftIncomplete(peer, done, first, 0);
      var o := Scan(peer, done, first, 0);
      CallIndependence(peer, o.delivered, o.rest, calls[1..]);
    }
  }

  lemma {:induction false} AcceptedPrefix(peer: Peer, done: seq<Frame>, a: seq<byte>, b: seq<byte>)
    requires Accepted(peer, done, a + b)
    ensures Accepted(peer, done, a)
    decreases |a|
  {
    hide FromLE;
    if Complete(a) {
      FirstFrame(a, b);
      var n := FrameLength(a);
      AcceptedPrefix(peer, done + [a[..n]], a[n..], b);
    }
  }

  /** A code that a handler returns is lost when another frame that is accepted follows in the same buffer. */
  lemma HandlerCodeLost(peer: Peer, done: seq<Frame>, a: seq<byte>, b: seq<byte>)
    requires Complete(a) && FrameLength(a) == |a| && RightMagic(peer, a) && peer.parse(a) == 0
    requires Complete(b) && FrameLength(b) == |b| && RightMagic(peer, b) && peer.parse(b) == 0
    requires peer.handle(done + [a] + [b]) == 0
    ensures Scan(peer, done, a, 0).rc == peer.handle(done + [a])
    ensures Scan(peer, done, a + b, 0) == Outcome(done + [a] + [b], [], 0)
  {
    hide FromLE;
    FirstFrame(a, b);
    assert a[..|a|] == a && a[|a|..] == [] && [] + b == b;
    assert b[..|b|] == b && b[|b|..] == [];
    assert Scan(peer, done + [a], b, peer.handle(done + [a])) == Outcome(done + [a] + [b], [], 0);
  }

  // ----- What happens to a code that a handler returns -----

  /** Every complete frame has the right magic number and is accepted by the parser, whatever its handler says. */
  predicate Parsable(peer: Peer, s: seq<byte>)
    decreases |s|
  {
    Complete(s) ==>
      RightMagic(peer, s) && peer.parse(s[..FrameLength(s)]) == 0 && Parsable(peer, s[FrameLength(s)..])
  }

  /** The complete frames at the front of some bytes, and what is behind them. */
  function Frames(s: seq<byte>): (fs: seq<Frame>)
    ensures fs == [] <==> !Complete(s)
    decreases |s|
  {
    if Complete(s) then [s[..FrameLength(s)]] + Frames(s[FrameLength(s)..]) else []
  }

  function Leftover(s: seq<byte>): (rest: seq<byte>)
    ensures !Complete(rest)
    decreases |s|
  {
    if Complete(s) then Leftover(s[FrameLength(s)..]) else s
  }

  /** All frames are delivered, and only the code for the last one survives. */
  lemma {:induction false} ScanParsable(peer: Peer, done: seq<Frame>, s: seq<byte>, rc: int)
    requires Parsable(peer, s)
    ensures Scan(peer, done, s, rc) ==
      Outcome(done + Frames(s), Leftover(s), if Complete(s) then peer.handle(done + Frames(s)) else rc)
    decreases |s|
  {
    hide FromLE, Scan;
    ScanStep(peer, done, s, rc);
    if !Complete(s) {
      assert done + [] == done;
    } else {
      var frame, t := s[..FrameLength(s)], s[FrameLength(s)..];
      assert Frames(s) == [frame] + Frames(t) && Leftover(s) == Leftover(t);
      ScanParsable(peer, done + [frame], t, peer.handle(done + [frame]));
      assert done + [frame] + Frames(t) == done + Frames(s);
      assert Frames(t) == [] ==> done + Frames(s) == done + [frame];
    }
  }

  /** Scanning succeeds exactly when every complete frame parses and the last code, if there is one, is zero. */
  lemma {:induction false} ScanSucceeds(peer: Peer, done: seq<Frame>, s: seq<byte>, rc: int)
    ensures Scan(peer, done, s, rc).rc == 0 <==>
      Parsable(peer, s) && (if Complete(s) then peer.handle(done + Frames(s)) else rc) == 0
    decreases |s|
  {
    hide FromLE, Scan;
    ScanStep(peer, done, s, rc);
    if Parsable(peer, s) {
      ScanParsable(peer, done, s, rc);
    } else if RightMagic(peer, s) && peer.parse(s[..FrameLength(s)]) == 0 {
      var frame := s[..FrameLength(s)];
      ScanSucceeds(peer, done + [frame], s[FrameLength(s)..], peer.handle(done + [frame]));
    }
  }

  /** The handler of some frame returns a code that is not zero. */
  ghost predicate HandlerFails(peer: Peer, done: seq<Frame>, frames: seq<Frame>) {
    exists fs: seq<Frame> :: [] < fs <= frames && peer.handle(done + fs) != 0
  }

  /** A failure in a buffer is seen exactly when the handler of the last complete frame fails too. */
  lemma FailureSeen(peer: Peer, done: seq<Frame>, s: seq<byte>)
    requires Parsable(peer, s) && HandlerFails(peer, done, Frames(s))
    ensures Scan(peer, done, s, 0).rc != 0 <==> peer.handle(done + Frames(s)) != 0
  {
    ScanParsable(peer, done, s, 0);
  }

  lemma {:induction false} FramesInParts(a: seq<byte>, b: seq<byte>)
    ensures Frames(a + b) == Frames(a) + Frames(Leftover(a) + b)
    ensures Leftover(a + b) == Leftover(Leftover(a) + b)
    decreases |a|
  {
    hide FromLE;
    if Complete(a) {
      FirstFrame(a, b);
      FramesInParts(a[FrameLength(a)..], b);
    }
  }

  lemma {:induction false} ParsableInParts(peer: Peer, a: seq<byte>, b: seq<byte>)
    requires Parsable(peer, a + b)
    ensures Parsable(peer, a) && Parsable(peer, Leftover(a) + b)
    decreases |a|
  {
    hide FromLE;
    if Complete(a) {
      FirstFrame(a, b);
      ParsableInParts(peer, a[FrameLength(a)..], b);
    }
  }

  /** The bytes there are after `k` reads. */
  function Upto(buffer: seq<byte>, pieces: seq<seq<byte>>, k: nat): seq<byte>
    requires k <= |pieces|
  {
    buffer + Concat(pieces[..k])
  }

  /** The `k`th read completes a frame, and the handler of the last frame that it completes fails. */
  ghost predicate FailsAt(peer: Peer, done: seq<Frame>, buffer: seq<byte>, pieces: seq<seq<byte>>, k: nat) {
    && 0 < k <= |pieces|
    && |Frames(Upto(buffer, pieces, k - 1))| < |Frames(Upto(buffer, pieces, k))|
    && peer.handle(done + Frames(Upto(buffer, pieces, k))) != 0
  }

  /** Without the first read, counting from what it leaves behind. */
  lemma LaterRead(peer: Peer, done: seq<Frame>, buffer: seq<byte>, pieces: seq<seq<byte>>, k: nat)
    requires 0 < k <= |pieces|
    ensures var first := buffer + pieces[0];
      && Frames(Upto(buffer, pieces, k)) == Frames(first) + Frames(Upto(Leftover(first), pieces[1..], k - 1))
      && Leftover(Upto(buffer, pieces, k)) == Leftover(Upto(Leftover(first), pieces[1..], k - 1))
      && done + Frames(Upto(buffer, pieces, k))
         == (done + Frames(first)) + Frames(Upto(Leftover(first), pieces[1..], k - 1))
  {
    hide Frames, Leftover;
    var first := buffer + pieces[0];
    assert pieces[..k][1..] == pieces[1..][..k - 1];
    assert Upto(buffer, pieces, k) == first + Concat(pieces[1..][..k - 1]);
    FramesInParts(first, Concat(pieces[1..][..k - 1]));
  }

  lemma FirstRead(buffer: seq<byte>, pieces: seq<seq<byte>>)
    requires pieces != [] && !Complete(buffer)
    ensures Frames(Upto(buffer, pieces, 0)) == [] && Upto(buffer, pieces, 1) == buffer + pieces[0]
  {
    assert Upto(buffer, pieces, 0) == buffer;
    assert pieces[..1][1..] == [];
  }

  lemma FailsLater(peer: Peer, done: seq<Frame>, buffer: seq<byte>, pieces: seq<seq<byte>>, k: nat)
    requires 1 < k <= |pieces|
    ensures var first := buffer + pieces[0];
      FailsAt(peer, done, buffer, pieces, k)
      <==> FailsAt(peer, done + Frames(first), Leftover(first), pieces[1..], k - 1)
  {
    hide Frames, Leftover;
    LaterRead(peer, done, buffer, pieces, k);
    LaterRead(peer, done, buffer, pieces, k - 1);
  }

  lemma FirstScan(peer: Peer, done: seq<Frame>, buffer: seq<byte>, pieces: seq<seq<byte>>)
    requires pieces != [] && Parsable(peer, buffer + pieces[0]) && !Complete(buffer)
    ensures var first := buffer + pieces[0]; var o := Scan(peer, done, first, 0);
      && o.delivered == done + Frames(first) && o.rest == Leftover(first)
      && o.rc == (if FailsAt(peer, done, buffer, pieces, 1) then peer.handle(done + Frames(first)) else 0)
      && (FailsAt(peer, done, buffer, pieces, 1) ==> o.rc != 0)
  {
    hide Frames, Leftover, Scan, Complete, Parsable;
    FirstRead(buffer, pieces);
    ScanParsable(peer, done, buffer + pieces[0], 0);
  }

  /** As long as no read ends with a handler that fails, everything is delivered, whatever codes were lost. */
  lemma {:induction false} NoFailureSeen(peer: Peer, done: seq<Frame>, buffer: seq<byte>, pieces: seq<seq<byte>>,
                                         closed: bool)
    requires Parsable(peer, buffer + Concat(pieces)) && !Complete(buffer)
    requires forall k :: !FailsAt(peer, done, buffer, pieces, k)
    ensures var s := buffer + Concat(pieces);
      Reads(peer, done, buffer, pieces, closed) == Outcome(done + Frames(s), Leftover(s), if closed then -1 else 0)
    decreases |pieces|
  {
    hide Frames, Leftover, Scan, Complete, Parsable, FailsAt;
    if pieces == [] {
      assert buffer + Concat(pieces) == buffer;
      NothingComplete(buffer);
      assert done + [] == done;
    } else {
      var first := buffer + pieces[0];
      assert buffer + Concat(pieces) == first + Concat(pieces[1..]);
      ParsableInParts(peer, first, Concat(pieces[1..]));
      FramesInParts(first, Concat(pieces[1..]));
      FirstScan(peer, done, buffer, pieces);
      forall k ensures !FailsAt(peer, done + Frames(first), Leftover(first), pieces[1..], k) {
        RestFails(peer, done, buffer, pieces, k);
      }
      NoFailureSeen(peer, done + Frames(first), Leftover(first), pieces[1..], closed);
    }
  }

  lemma NothingComplete(s: seq<byte>)
    requires !Complete(s)
    ensures Frames(s) == [] && Leftover(s) == s
  {
  }

  lemma RestFails(peer: Peer, done: seq<Frame>, buffer: seq<byte>, pieces: seq<seq<byte>>, k: nat)
    requires pieces != []
    ensures var first := buffer + pieces[0];
      FailsAt(peer, done + Frames(first), Leftover(first), pieces[1..], k) ==>
        FailsAt(peer, done, buffer, pieces, k + 1)
  {
    hide Frames, Leftover;
    if 0 < k < |pieces| { FailsLater(peer, done, buffer, pieces, k + 1); }
  }

  /** The first read that ends with a handler that fails is the last one, and its code is returned. */
  lemma {:induction false} FirstFailureSeen(peer: Peer, done: seq<Frame>, buffer: seq<byte>, pieces: seq<seq<byte>>,
                                            closed: bool, k: nat)
    requires Parsable(peer, buffer + Concat(pieces)) && !Complete(buffer)
    requires FailsAt(peer, done, buffer, pieces, k)
    requires forall j :: 0 <= j < k ==> !FailsAt(peer, done, buffer, pieces, j)
    ensures var s := Upto(buffer, pieces, k);
      && peer.handle(done + Frames(s)) != 0
      && Reads(peer, done, buffer, pieces, closed)
         == Outcome(done + Frames(s), Leftover(s), peer.handle(done + Frames(s)))
    decreases |pieces|
  {
    hide Frames, Leftover, Scan, Complete, Parsable;
    var first := buffer + pieces[0];
    assert buffer + Concat(pieces) == first + Concat(pieces[1..]);
    ParsableInParts(peer, first, Concat(pieces[1..]));
    FirstScan(peer, done, buffer, pieces);
    FirstRead(buffer, pieces);
    if k > 1 {
      hide FailsAt;
      FailsLater(peer, done, buffer, pieces, k);
      LaterRead(peer, done, buffer, pieces, k);
      forall j | 0 <= j < k - 1 ensures !FailsAt(peer, done + Frames(first), Leftover(first), pieces[1..], j) {
        RestFails(peer, done, buffer, pieces, j);
      }
      FirstFailureSeen(peer, done + Frames(first), Leftover(first), pieces[1..], closed, k - 1);
    }
  }

  /** Reading fails exactly when some read ends with a frame whose handler fails; every other code is lost. */
  lemma FailureSeenByReads(peer: Peer, done: seq<Frame>, buffer: seq<byte>, pieces: seq<seq<byte>>)
    requires Parsable(peer, buffer + Concat(pieces)) && !Complete(buffer)
    ensures Reads(peer, done, buffer, pieces, false).rc != 0 <==> exists k :: FailsAt(peer, done, buffer, pieces, k)
  {
    hide Frames, Leftover, Reads, FailsAt, Parsable, Complete;
    if k: nat :| FailsAt(peer, done, buffer, pieces, k) {
      var least := LeastFailure(peer, done, buffer, pieces, k);
      FirstFailureSeen(peer, done, buffer, pieces, false, least);
    } else {
      NoFailureSeen(peer, done, buffer, pieces, false);
    }
  }

  lemma {:induction false} ParsableJoin(peer: Peer, a: seq<byte>, b: seq<byte>)
    requires Parsable(peer, a) && Parsable(peer, Leftover(a) + b)
    ensures Parsable(peer, a + b)
    decreases |a|
  {
    hide FromLE;
    if Complete(a) {
      FirstFrame(a, b);
      ParsableJoin(peer, a[FrameLength(a)..], b);
    }
  }

  lemma {:induction false} ReadsParse(peer: Peer, done: seq<Frame>, buffer: seq<byte>, pieces: seq<seq<byte>>)
    requires !Complete(buffer) && Reads(peer, done, buffer, pieces, false).rc == 0
    ensures Parsable(peer, buffer + Concat(pieces))
    decreases |pieces|
  {
    hide Frames, Leftover, Scan, Complete;
    if pieces == [] {
      assert buffer + Concat(pieces) == buffer;
    } else {
      var first := buffer + pieces[0];
      assert buffer + Concat(pieces) == first + Concat(pieces[1..]);
      ScanSucceeds(peer, done, first, 0);
      ScanParsable(peer, done, first, 0);
      ReadsParse(peer, done + Frames(first), Leftover(first), pieces[1..]);
      ParsableJoin(peer, first, Concat(pieces[1..]));
    }
  }

  /** Any stream at all: reading succeeds exactly when every complete frame parses and no read ends with a frame whose
      handler fails. */
  lemma ReadsSucceed(peer: Peer, done: seq<Frame>, buffer: seq<byte>, pieces: seq<seq<byte>>)
    requires !Complete(buffer)
    ensures Reads(peer, done, buffer, pieces, false).rc == 0 <==>
      Parsable(peer, buffer + Concat(pieces)) && forall k :: !FailsAt(peer, done, buffer, pieces, k)
  {
    hide Frames, Leftover, Reads, FailsAt, Parsable, Complete;
    if Reads(peer, done, buffer, pieces, false).rc == 0 { ReadsParse(peer, done, buffer, pieces); }
    if Parsable(peer, buffer + Concat(pieces)) { FailureSeenByReads(peer, done, buffer, pieces); }
  }

  lemma LeastFailure(peer: Peer, done: seq<Frame>, buffer: seq<byte>, pieces: seq<seq<byte>>, k: nat)
    returns (least: nat)
    requires FailsAt(peer, done, buffer, pieces, k)
    ensures FailsAt(peer, done, buffer, pieces, least)
    ensures forall j :: 0 <= j < least ==> !FailsAt(peer, done, buffer, pieces, j)
  {
    hide FailsAt;
    if j: nat :| j < k && FailsAt(peer, done, buffer, pieces, j) {
      least := LeastFailure(peer, done, buffer, pieces, j);
    } else {
      least := k;
    }
  }

  /** A message of a header alone: no magic number and no payload. */
  function EmptyFrame(): Frame {
    Zeros(HEADER_SIZE)
  }

  /** A node whose handler fails for the first message only. */
  function FailsOnce(): Peer {
    Peer(0, _ => 0, frames => if |frames| == 1 then 7 else 0)
  }

  /** One message at a time the code 7 is seen; two in one read give 0. */
  lemma HandlerCodeLostExample()
    ensures var a := EmptyFrame(); var peer := FailsOnce();
      && Reads(peer, [], [], [a, a], false) == Outcome([a], [], 7)
      && Reads(peer, [], [], [a + a], false) == Outcome([a, a], [], 0)
  {
    hide Scan, Frames;
    var a, peer := EmptyFrame(), FailsOnce();
    AllZero(a[..4]);
    AllZero(a[16..20]);
    HandlerCodeLost(peer, [], a, a);
    assert [] + a == a && [] + (a + a) == a + a;
    assert [] + [a] == [a] && [a] + [a] == [a, a];
    ScanParsable(peer, [], a, 0);
    OneFrame(a);
    assert [a + a][1..] == [];
  }

  lemma {:induction false} AllZero(s: seq<byte>)
    requires forall i :: 0 <= i < |s| ==> s[i] == 0
    ensures FromLE(s) == 0
  {
    if s != [] { AllZero(s[1..]); }
  }

  lemma OneFrame(a: seq<byte>)
    requires Complete(a) && FrameLength(a) == |a|
    ensures Frames(a) == [a] && Leftover(a) == []
  {
    assert a[..|a|] == a && a[|a|..] == [];
  }

  // ----- Messages as a peer writes them -----

  datatype Message = Message(command: seq<byte>, checksum: seq<byte>, payload: seq<byte>)

  predicate ValidMessage(m: Message) {
    |m.command| == 12 && |m.checksum| == 4 && |m.payload| < 0x1_0000_0000
  }

  /** The header and what it announces. */
  function Written(magic: nat, m: Message): Frame {
    ToLE(magic, 4) + m.command + ToLE(|m.payload|, 4) + m.checksum + m.payload
  }

  function AllWritten(magic: nat, ms: seq<Message>): seq<byte> {
    if ms == [] then [] else Written(magic, ms[0]) + AllWritten(magic, ms[1..])
  }

  function WrittenFrames(magic: nat, ms: seq<Message>): seq<Frame> {
    seq(|ms|, i requires 0 <= i < |ms| => Written(magic, ms[i]))
  }

  lemma FourBytes()
    ensures Pow256(4) == 0x1_0000_0000
  {
    assert Pow256(2) == 0x1_0000 && Pow256(3) == 0x100_0000;
  }

  lemma HeaderSlices(a: seq<byte>, b: seq<byte>, c: seq<byte>, d: seq<byte>, e: seq<byte>, rest: seq<byte>)
    requires |a| == |c| == |d| == 4 && |b| == 12
    ensures var f := a + b + c + d + e; var s := f + rest;
      && |f| == 24 + |e| && s[..4] == a && s[16..20] == c && s[..24 + |e|] == f && s[24 + |e|..] == rest
  {
    var f := a + b + c + d + e;
    var s := f + rest;
    assert s[..4] == f[..4] == a;
    assert s[16..20] == f[16..20] == c;
  }

  /** Whatever follows it, a written message is cut off at its end. */
  lemma WrittenFrame(peer: Peer, magic: nat, m: Message, rest: seq<byte>)
    requires ValidMessage(m) && magic < 0x1_0000_0000
    ensures var frame := Written(magic, m); var s := frame + rest;
      && Complete(s) && FrameLength(s) == |frame| && s[..|frame|] == frame && s[|frame|..] == rest
      && (RightMagic(peer, s) <==> peer.magic == magic)
      && Frames(s) == [frame] + Frames(rest) && Leftover(s) == Leftover(rest)
  {
    hide ToLE, FromLE, Pow256;
    HeaderSlices(ToLE(magic, 4), m.command, ToLE(|m.payload|, 4), m.checksum, m.payload, rest);
    FourBytes();
    FromToLE(magic, 4);
    FromToLE(|m.payload|, 4);
  }

  lemma {:induction false} WrittenScan(peer: Peer, done: seq<Frame>, ms: seq<Message>, rest: seq<byte>)
    requires peer.magic < 0x1_0000_0000 && !Complete(rest)
    requires forall m :: m in ms ==> ValidMessage(m) && peer.parse(Written(peer.magic, m)) == 0
    requires forall k :: 0 < k <= |ms| ==> peer.handle(done + WrittenFrames(peer.magic, ms)[..k]) == 0
    ensures Accepted(peer, done, AllWritten(peer.magic, ms) + rest)
    ensures Scan(peer, done, AllWritten(peer.magic, ms) + rest, 0)
         == Outcome(done + WrittenFrames(peer.magic, ms), rest, 0)
    decreases |ms|
  {
    hide Complete, RightMagic, Written, FrameLength, ValidMessage;
    var frames := WrittenFrames(peer.magic, ms);
    if ms == [] {
      assert AllWritten(peer.magic, ms) + rest == rest && done + frames == done;
    } else {
      var f, later := Written(peer.magic, ms[0]), ms[1..];
      var tail, s := AllWritten(peer.magic, later) + rest, AllWritten(peer.magic, ms) + rest;
      assert s == f + tail && ms[0] in ms;
      WrittenFrame(peer, peer.magic, ms[0], tail);
      assert frames == [f] + WrittenFrames(peer.magic, later);
      forall k | 0 < k <= |later|
        ensures peer.handle(done + [f] + WrittenFrames(peer.magic, later)[..k]) == 0
      {
        assert done + [f] + WrittenFrames(peer.magic, later)[..k] == done + frames[..k + 1];
      }
      assert done + frames[..1] == done + [f];
      WrittenScan(peer, done + [f], later, rest);
      assert done + [f] + WrittenFrames(peer.magic, later) == done + frames;
    }
  }

  /** Messages that a peer writes one after the other, cut into reads in any way, are delivered as exactly these
      messages, and the beginning of one that is still incomplete is kept. */
  lemma MessagesDelivered(peer: Peer, done: seq<Frame>, ms: seq<Message>, rest: seq<byte>, pieces: seq<seq<byte>>)
    requires peer.magic < 0x1_0000_0000 && !Complete(rest)
    requires forall m :: m in ms ==> ValidMessage(m) && peer.parse(Written(peer.magic, m)) == 0
    requires forall k :: 0 < k <= |ms| ==> peer.handle(done + WrittenFrames(peer.magic, ms)[..k]) == 0
    requires Concat(pieces) == AllWritten(peer.magic, ms) + rest
    ensures Reads(peer, done, [], pieces, false) == Outcome(done + WrittenFrames(peer.magic, ms), rest, 0)
  {
    hide Written, WrittenFrames, Accepted, Scan, Reads;
    WrittenScan(peer, done, ms, rest);
    assert [] + Concat(pieces) == Concat(pieces);
    CutIndependence(peer, done, [], pieces, false);
  }

  // ----- The node -----

  /** memmove to the front of the array. */
  method MoveDown(a: array<byte>, from: nat, n: nat)
    requires from + n <= a.Length
    modifies a
    ensures a[..n] == old(a[from..from + n])
  {
    ghost var was := a[..];
    var i := 0;
    while i < n
      invariant i <= n
      invariant forall k :: 0 <= k < i ==> a[k] == was[from + k]
      invariant forall k :: i <= k < a.Length ==> a[k] == was[k]
    {
      a[i] := a[from + i];
      i := i + 1;
    }
    assert a[..n] == was[from..from + n];
  }

  class Node {
    const inBuf: Buffer
    var delivered: seq<Frame>

    ghost predicate Valid()
      reads this, inBuf
    {
      inBuf.Valid()
    }

    constructor ()
      ensures Valid() && fresh(inBuf) && fresh(inBuf.data) && inBuf.Contents() == [] && delivered == []
    {
      inBuf := new Buffer(0);
      delivered := [];
    }

    /** The inner loop: delivers the complete frames of the buffer and moves what is left to its front. */
    method Deliver(peer: Peer) returns (rc: int)
      requires Valid()
      modifies this`delivered, inBuf`startPos, inBuf`length, inBuf.data
      ensures Valid() && inBuf.data == old(inBuf.data) && inBuf.startPos == 0
      ensures Outcome(delivered, inBuf.Contents(), rc) == Scan(peer, old(delivered), old(inBuf.Contents()), 0)
    {
      hide FromLE, Scan;
      ghost var whole := Scan(peer, delivered, inBuf.Contents(), 0);
      var p, end := inBuf.startPos, inBuf.startPos + inBuf.length;
      rc := 0;
      var more := true;
      while p < end && more
        invariant inBuf.startPos <= p <= end
        invariant more ==> Scan(peer, delivered, inBuf.data[p..end], rc) == whole
        invariant !more ==> Outcome(delivered, inBuf.data[p..end], rc) == whole
        decreases end - p, more
      {
        ScanStep(peer, delivered, inBuf.data[p..end], rc);
        var s := inBuf.data[p..end];
        if !Complete(s) {
          more := false;
        } else if !RightMagic(peer, s) {
          rc := -1;
          more := false;
        } else {
          var n := FrameLength(s);
          var frame := s[..n];
          rc := peer.parse(frame);
          if rc != 0 {
            more := false;
          } else {
            delivered := delivered + [frame];
            rc := peer.handle(delivered);
            p := p + n;
            assert s[n..] == inBuf.data[p..end];
          }
        }
      }
      if more { ScanStep(peer, delivered, inBuf.data[p..end], rc); }
      if p < end { MoveDown(inBuf.data, p, end - p); }
      inBuf.startPos := 0;
      inBuf.length := end - p;
    }

    /** on_read: `pieces` are what the calls of read return until one would block or the peer has closed. */
    method OnRead(peer: Peer, pieces: seq<seq<byte>>, closed: bool) returns (rc: int)
      requires Valid() && forall i :: 0 <= i < |pieces| ==> 0 < |pieces[i]| <= READ_SIZE
      requires inBuf.startPos + inBuf.length + |Concat(pieces)| <= SIZE_LIMIT - ALLOC_SIZE
      modifies this, inBuf, inBuf.data
      ensures Valid() && (inBuf.data == old(inBuf.data) || fresh(inBuf.data))
      ensures Outcome(delivered, inBuf.Contents(), rc)
           == Reads(peer, old(delivered), old(inBuf.Contents()), pieces, closed)
    {
      hide Scan, Concat;
      ghost var whole := Reads(peer, delivered, inBuf.Contents(), pieces, closed);
      var i := 0;
      rc := 0;
      assert pieces[0..] == pieces;
      while rc == 0
        invariant i <= |pieces| && Valid() && (inBuf.data == old(inBuf.data) || fresh(inBuf.data))
        invariant inBuf.startPos + inBuf.length + |Concat(pieces[i..])| <= SIZE_LIMIT - ALLOC_SIZE
        invariant rc == 0 ==> Reads(peer, delivered, inBuf.Contents(), pieces[i..], closed) == whole
        invariant rc != 0 ==> Outcome(delivered, inBuf.Contents(), rc) == whole
        decreases |pieces| - i, rc == 0
      {
        if i == |pieces| {
          if !closed { break; }
          rc := -1;
          break;
        }
        FirstPiece(pieces, i);
        var pushed := inBuf.Push(pieces[i]);
        i := i + 1;
        if inBuf.length < HEADER_SIZE {
          Incomplete(peer, delivered, inBuf.Contents());
          continue;
        }
        rc := Deliver(peer);
      }
    }
  }

  lemma FirstPiece(pieces: seq<seq<byte>>, i: nat)
    requires i < |pieces|
    ensures var s := pieces[i..];
      s != [] && s[0] == pieces[i] && s[1..] == pieces[i + 1..] && Concat(s) == pieces[i] + Concat(pieces[i + 1..])
  {
  }

  lemma ScanStep(peer: Peer, done: seq<Frame>, s: seq<byte>, rc: int)
    ensures !Complete(s) ==> Scan(peer, done, s, rc) == Outcome(done, s, rc)
    ensures Complete(s) && !RightMagic(peer, s) ==> Scan(peer, done, s, rc) == Outcome(done, s, -1)
    ensures Complete(s) && RightMagic(peer, s) ==>
      var frame := s[..FrameLength(s)];
      Scan(peer, done, s, rc) ==
      if peer.parse(frame) != 0 then Outcome(done, s, peer.parse(frame))
      else Scan(peer, done + [frame], s[FrameLength(s)..], peer.handle(done + [frame]))
  {
    hide FromLE;
  }
}
