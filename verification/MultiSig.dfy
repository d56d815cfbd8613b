/** CHECKMULTISIG: one pass over the signatures with a key index that never moves back. */
module MultiSig {
  import opened Bytes
  import opened Script

  /** What the opcode takes from outside. `count` is the signed byte that an item shows when read as a
      number, `stale` the content of the digest before any digest has been computed. */
  datatype Crypto = Crypto(
    count: Item -> int,
    keyOk: seq<byte> -> bool,
    sigOk: seq<byte> -> bool,
    digestOk: byte -> bool,
    digest: byte -> int,
    stale: int,
    verify: (int, seq<byte>, seq<byte>) -> bool)

  /** The opcode pushes its verdict on what is left of the stack; or it returns early, with success although nothing
      is pushed, or with the error `rc`; or it reads signature bytes of an item that has none. */
  datatype Result = Pushed(ok: bool, rest: seq<Item>) | Silent(rest: seq<Item>) | Error(rc: int) | Undefined

  datatype Keys = NoKeys | SomeKeys(keys: seq<seq<byte>>, rest: seq<Item>)

  predicate IsKey(c: Crypto, x: Item) {
    x.Data? && (|x.d| == 33 || |x.d| == 65) && c.keyOk(x.d)
  }

  /** `n` keys from the top of the stack, the topmost first. */
  function PopKeys(c: Crypto, s: seq<Item>, n: nat): (r: Keys)
    ensures r.SomeKeys? ==> |r.keys| == n && |r.rest| + n == |s| && r.rest == s[..|s| - n]
    ensures r.SomeKeys? ==> forall j :: 0 <= j < n ==> s[|s| - 1 - j] == Data(r.keys[j])
  {
    if n == 0 then SomeKeys([], s)
    else if s == [] || !IsKey(c, Top(s)) then NoKeys
    else
      var r := PopKeys(c, Rest(s), n - 1);
      if r.NoKeys? then NoKeys else SomeKeys([Top(s).d] + r.keys, r.rest)
  }

  /** The state of the pass: the type of the last digest, the digest, the key index, the number of
      verified signatures and the last return code. */
  datatype Pass = Pass(prev: byte, digest: int, index: nat, verified: nat, rc: int)

  /** The first key at or after `k` that verifies, or the number of keys. */
  function FirstKey(c: Crypto, keys: seq<seq<byte>>, digest: int, sig: seq<byte>, k: nat): (r: nat)
    requires k <= |keys|
    ensures k <= r <= |keys|
    ensures r < |keys| ==> c.verify(digest, keys[r], sig)
    ensures forall j :: k <= j < r ==> !c.verify(digest, keys[j], sig)
    decreases |keys| - k
  {
    if k == |keys| || c.verify(digest, keys[k], sig) then k else FirstKey(c, keys, digest, sig, k + 1)
  }

  function DigestAfter(c: Crypto, p: Pass, kind: byte): int {
    if kind != p.prev then c.digest(kind) else p.digest
  }

  /** One well-formed signature. */
  function PassOne(c: Crypto, keys: seq<seq<byte>>, sig: seq<byte>, kind: byte, p: Pass): (p': Pass)
    requires p.index <= |keys|
    ensures p'.index <= |keys|
  {
    var d := DigestAfter(c, p, kind);
    var k := FirstKey(c, keys, d, sig, p.index);
    Pass(kind, d, k, if k < |keys| then p.verified + 1 else p.verified, if k < |keys| then 0 else -1)
  }

  function LastByte(d: seq<byte>): byte
    requires d != []
  {
    d[|d| - 1]
  }

  /** The return before the end: the code of the last signature, after the item that cannot be read is popped. */
  function Early(rc: int, rest: seq<Item>): Result {
    if rc == 0 then Silent(rest) else Error(rc)
  }

  /** The remaining `n` signatures out of `total`. */
  function PassAll(c: Crypto, keys: seq<seq<byte>>, s: seq<Item>, n: nat, total: nat, p: Pass): Result
    requires p.index <= |keys|
    decreases n
  {
    if n == 0 then Pushed(p.verified == total, s)
    else if s == [] || Top(s) == Data([]) || Top(s) == Hash([]) then Early(p.rc, AfterVerify(s))
    else if !Top(s).Data? then Undefined
    else
      var sig, kind := Top(s).d[..|Top(s).d| - 1], LastByte(Top(s).d);
      if !c.sigOk(sig) then Early(p.rc, Rest(s))
      else if kind != p.prev && !c.digestOk(kind) then Error(-1)
      else PassAll(c, keys, Rest(s), n - 1, total, PassOne(c, keys, sig, kind, p))
  }

  const START_RC := -1

  /** The whole opcode. */
  function CheckMultisig(c: Crypto, s: seq<Item>): Result {
    if s == [] || !(1 <= c.count(Top(s)) <= 16) then Error(-1)
    else
      var k := PopKeys(c, Rest(s), c.count(Top(s)));
      if k.NoKeys? || k.rest == [] then Error(-1)
      else
        var m := c.count(Top(k.rest));
        if m < 0 || m > |k.keys| then Error(-1)
        else PassAll(c, k.keys, Rest(k.rest), m, m, Pass(0, c.stale, 0, 0, START_RC))
  }

  // ----- How far the signatures can be read -----

  /** Either every signature is readable, or the first one that is not, counted from the top, is missing
      or malformed, has no digest, or is not a byte string at all. */
  datatype Reading = Complete | Malformed(k: nat) | NoDigest(k: nat) | NotBytes(k: nat)

  function Later(r: Reading): Reading {
    match r
    case Complete => r
    case Malformed(k) => Malformed(k + 1)
    case NoDigest(k) => NoDigest(k + 1)
    case NotBytes(k) => NotBytes(k + 1)
  }

  function Read(c: Crypto, s: seq<Item>, n: nat, prev: byte): (r: Reading)
    ensures !r.Complete? ==> r.k < n
    decreases n
  {
    if n == 0 then Complete
    else if s == [] || Top(s) == Data([]) || Top(s) == Hash([]) then Malformed(0)
    else if !Top(s).Data? then NotBytes(0)
    else if !c.sigOk(Top(s).d[..|Top(s).d| - 1]) then Malformed(0)
    else
      var kind := LastByte(Top(s).d);
      if kind != prev && !c.digestOk(kind) then NoDigest(0)
      else Later(Read(c, Rest(s), n - 1, kind))
  }

  /** The `n` topmost items are non-empty byte strings. */
  ghost predicate ByteItems(s: seq<Item>, n: nat) {
    n <= |s| && forall i :: |s| - n <= i < |s| ==> s[i].Data? && s[i].d != []
  }

  function ReadCount(r: Reading, n: nat): nat {
    if r.Complete? then n else r.k
  }

  lemma {:induction false} ReadBytes(c: Crypto, s: seq<Item>, n: nat, prev: byte)
    ensures ByteItems(s, ReadCount(Read(c, s, n, prev), n))
    decreases n
  {
    if n > 0 && s != [] && Top(s).Data? && Top(s).d != [] {
      ReadBytes(c, Rest(s), n - 1, LastByte(Top(s).d));
    }
  }

  // ----- What a completed pass decides -----

  /** The signatures in the order in which they are popped, each with the digest that it is checked against. */
  datatype Signature = Signature(sig: seq<byte>, digest: int)

  function Signatures(c: Crypto, s: seq<Item>, n: nat, prev: byte, digest: int): (r: seq<Signature>)
    requires n <= |s| && (forall i :: |s| - n <= i < |s| ==> s[i].Data? && s[i].d != [])
    ensures |r| == n
    decreases n
  {
    if n == 0 then []
    else
      var d := Top(s).d;
      var kind := LastByte(d);
      var dg := if kind != prev then c.digest(kind) else digest;
      [Signature(d[..|d| - 1], dg)] + Signatures(c, Rest(s), n - 1, kind, dg)
  }

  ghost predicate Verifies(c: Crypto, keys: seq<seq<byte>>, sigs: seq<Signature>, i: nat, j: nat)
    requires i < |sigs|
  {
    j < |keys| && c.verify(sigs[i].digest, keys[j], sigs[i].sig)
  }

  /** An assignment of every signature to a key that verifies it, in order, starting at key `from`. The
      same key may serve several signatures. */
  ghost predicate Assignment(c: Crypto, keys: seq<seq<byte>>, sigs: seq<Signature>, from: nat, f: seq<nat>) {
    && |f| == |sigs|
    && (forall i :: 0 <= i < |f| ==> f[i] >= from && Verifies(c, keys, sigs, i, f[i]))
    && (forall i, j :: 0 <= i < j < |f| ==> f[i] <= f[j])
  }

  ghost predicate Assignable(c: Crypto, keys: seq<seq<byte>>, sigs: seq<Signature>, from: nat) {
    exists f :: Assignment(c, keys, sigs, from, f)
  }

  /** The exchange argument: the first signature may as well take the first key that verifies it. */
  lemma GreedyFirst(c: Crypto, keys: seq<seq<byte>>, sigs: seq<Signature>, from: nat)
    requires sigs != [] && from <= |keys|
    ensures var k := FirstKey(c, keys, sigs[0].digest, sigs[0].sig, from);
            Assignable(c, keys, sigs, from) <==> k < |keys| && Assignable(c, keys, sigs[1..], k)
  {
    var k := FirstKey(c, keys, sigs[0].digest, sigs[0].sig, from);
    if Assignable(c, keys, sigs, from) {
      var f :| Assignment(c, keys, sigs, from, f);
      assert Verifies(c, keys, sigs, 0, f[0]);
      assert k <= f[0];
      var g := f[1..];
      forall i | 0 <= i < |g| ensures g[i] >= k && Verifies(c, keys, sigs[1..], i, g[i]) {
        assert f[0] <= f[i + 1] && Verifies(c, keys, sigs, i + 1, f[i + 1]);
      }
      assert Assignment(c, keys, sigs[1..], k, g);
    }
    if k < |keys| && Assignable(c, keys, sigs[1..], k) {
      var g :| Assignment(c, keys, sigs[1..], k, g);
      var f := [k] + g;
      forall i | 0 <= i < |f| ensures f[i] >= from && Verifies(c, keys, sigs, i, f[i]) {
        if i > 0 { assert Verifies(c, keys, sigs[1..], i - 1, g[i - 1]); }
      }
      assert Assignment(c, keys, sigs, from, f);
    }
  }

  lemma NoSignatures(c: Crypto, keys: seq<seq<byte>>, from: nat)
    ensures Assignable(c, keys, [], from)
  {
    assert Assignment(c, keys, [], from, []);
  }

  lemma NothingAfterLastKey(c: Crypto, keys: seq<seq<byte>>, sigs: seq<Signature>)
    requires sigs != []
    ensures !Assignable(c, keys, sigs, |keys|)
  {
    forall f | |f| == |sigs| && f[0] >= |keys|
      ensures !Assignment(c, keys, sigs, |keys|, f)
    {
      assert !Verifies(c, keys, sigs, 0, f[0]);
    }
  }

  /** The verdict that `n` readable signatures from state `p` lead to, by assignments alone. */
  ghost predicate Accepted(c: Crypto, keys: seq<seq<byte>>, s: seq<Item>, n: nat, p: Pass)
    requires ByteItems(s, n)
  {
    Assignable(c, keys, Signatures(c, s, n, p.prev, p.digest), p.index)
  }

  /** One signature of the pass moves the question on to the signatures below it. */
  lemma AcceptedStep(c: Crypto, keys: seq<seq<byte>>, s: seq<Item>, n: nat, p: Pass)
    requires n > 0 && ByteItems(s, n) && p.index <= |keys|
    ensures var p' := PassOne(c, keys, Top(s).d[..|Top(s).d| - 1], LastByte(Top(s).d), p);
            && ByteItems(Rest(s), n - 1)
            && (Accepted(c, keys, s, n, p) <==> p'.index < |keys| && Accepted(c, keys, Rest(s), n - 1, p'))
  {
    var p' := PassOne(c, keys, Top(s).d[..|Top(s).d| - 1], LastByte(Top(s).d), p);
    var sigs := Signatures(c, s, n, p.prev, p.digest);
    assert sigs[1..] == Signatures(c, Rest(s), n - 1, p'.prev, p'.digest);
    GreedyFirst(c, keys, sigs, p.index);
  }

  lemma AcceptedNone(c: Crypto, keys: seq<seq<byte>>, s: seq<Item>, p: Pass)
    ensures Accepted(c, keys, s, 0, p)
  {
    NoSignatures(c, keys, p.index);
  }

  /** What is left when `k` signatures and, if there is one, the item below them are gone. */
  function Below(s: seq<Item>, k: nat): seq<Item>
    requires k <= |s|
  {
    if k == |s| then [] else s[..|s| - k - 1]
  }

  /** What `n` signatures from state `p` return, from how far they can be read and from assignments. */
  ghost function Verdict(c: Crypto, keys: seq<seq<byte>>, s: seq<Item>, n: nat, total: nat, p: Pass): Result
  {
    var r := Read(c, s, n, p.prev);
    ReadBytes(c, s, n, p.prev);
    match r
    case Complete => Pushed(p.verified + n == total && Accepted(c, keys, s, n, p), s[..|s| - n])
    case Malformed(k) => Early(if k == 0 then p.rc else if Accepted(c, keys, s, k, p) then 0 else -1, Below(s, k))
    case NoDigest(_) => Error(-1)
    case NotBytes(_) => Undefined
  }

  /** Every signature so far has been verified, or a key has been exhausted for good. */
  ghost predicate OnTrack(p: Pass, keys: seq<seq<byte>>, n: nat, total: nat) {
    && p.index <= |keys| && p.verified + n <= total
    && (p.index < |keys| ==> p.verified + n == total)
  }

  /** Where the signature on top can be read: which one it is and of what kind. */
  predicate Readable(c: Crypto, s: seq<Item>, prev: byte) {
    && s != [] && Top(s).Data? && Top(s).d != [] && c.sigOk(Top(s).d[..|Top(s).d| - 1])
    && (LastByte(Top(s).d) == prev || c.digestOk(LastByte(Top(s).d)))
  }

  /** Reading one signature leaves the verdict to the rest. */
  lemma VerdictStep(c: Crypto, keys: seq<seq<byte>>, s: seq<Item>, n: nat, total: nat, p: Pass)
    requires OnTrack(p, keys, n, total) && n > 0 && Readable(c, s, p.prev)
    ensures var p' := PassOne(c, keys, Top(s).d[..|Top(s).d| - 1], LastByte(Top(s).d), p);
            && OnTrack(p', keys, n - 1, total)
            && Verdict(c, keys, s, n, total, p) == Verdict(c, keys, Rest(s), n - 1, total, p')
  {
    var kind := LastByte(Top(s).d);
    var p' := PassOne(c, keys, Top(s).d[..|Top(s).d| - 1], kind, p);
    ReadBytes(c, s, n, p.prev);
    ReadBytes(c, Rest(s), n - 1, kind);
    var r := Read(c, Rest(s), n - 1, kind);
    assert Read(c, s, n, p.prev) == Later(r);
    AcceptedStep(c, keys, s, ReadCount(r, n - 1) + 1, p);
    match r
    case Complete => assert s[..|s| - n] == Rest(s)[..|Rest(s)| - (n - 1)];
    case Malformed(k) =>
      assert Below(s, k + 1) == Below(Rest(s), k);
      if k == 0 {
        AcceptedNone(c, keys, Rest(s), p');
      } else if p'.index == |keys| {
        NothingAfterLastKey(c, keys, Signatures(c, Rest(s), k, p'.prev, p'.digest));
      }
    case NoDigest(_) =>
    case NotBytes(_) =>
  }

  /** The pass computes its verdict: true exactly when all signatures can be assigned in order. */
  lemma {:induction false} PassDecides(c: Crypto, keys: seq<seq<byte>>, s: seq<Item>, n: nat, total: nat, p: Pass)
    requires OnTrack(p, keys, n, total)
    ensures PassAll(c, keys, s, n, total, p) == Verdict(c, keys, s, n, total, p)
    decreases n
  {
    if n == 0 {
      AcceptedNone(c, keys, s, p);
      assert s[..|s| - n] == s;
    } else if Readable(c, s, p.prev) {
      VerdictStep(c, keys, s, n, total, p);
      PassDecides(c, keys, Rest(s), n - 1, total, PassOne(c, keys, Top(s).d[..|Top(s).d| - 1], LastByte(Top(s).d), p));
    }
  }

  // ----- The opcode -----

  /** The pass and its verdict, once the keys have been read. */
  lemma DecidesByKeys(c: Crypto, s: seq<Item>)
    ensures var n := if s == [] then 0 else c.count(Top(s));
            var k := if 1 <= n <= 16 then PopKeys(c, Rest(s), n) else NoKeys;
            var m := if k.NoKeys? || k.rest == [] then -1 else c.count(Top(k.rest));
            CheckMultisig(c, s) ==
            if 0 <= m <= n then Verdict(c, k.keys, Rest(k.rest), m, m, Pass(0, c.stale, 0, 0, START_RC)) else Error(-1)
  {
    if s != [] && 1 <= c.count(Top(s)) <= 16 {
      var k := PopKeys(c, Rest(s), c.count(Top(s)));
      if k.SomeKeys? && k.rest != [] {
        var m := c.count(Top(k.rest));
        if 0 <= m <= |k.keys| {
          PassDecides(c, k.keys, Rest(k.rest), m, m, Pass(0, c.stale, 0, 0, START_RC));
        }
      }
    }
  }

  /** The `n` topmost items are strings of 33 or 65 bytes that are keys. */
  predicate KeysOnTop(c: Crypto, s: seq<Item>, n: nat) {
    && n <= |s|
    && forall i :: |s| - n <= i < |s| ==> s[i].Data? && (|s[i].d| == 33 || |s[i].d| == 65) && c.keyOk(s[i].d)
  }

  /** The strings of the `n` topmost items, from the top. */
  function Strings(s: seq<Item>, n: nat): (d: seq<seq<byte>>)
    requires n <= |s| && forall i :: |s| - n <= i < |s| ==> s[i].Data?
    ensures |d| == n
  {
    seq(n, j requires 0 <= j < n => s[|s| - 1 - j].d)
  }

  /** The keys are read exactly when there are so many of them on top, and nothing else decides. */
  lemma {:induction false} PopKeysExactly(c: Crypto, s: seq<Item>, n: nat)
    ensures if KeysOnTop(c, s, n) then PopKeys(c, s, n) == SomeKeys(Strings(s, n), s[..|s| - n])
            else PopKeys(c, s, n).NoKeys?
    decreases n
  {
    if n == 0 {
      assert s[..|s|] == s;
    } else if s != [] {
      var t := Rest(s);
      PopKeysExactly(c, t, n - 1);
      if KeysOnTop(c, s, n) {
        assert Strings(s, n) == [Top(s).d] + Strings(t, n - 1);
        assert t[..|t| - (n - 1)] == s[..|s| - n];
      } else if KeysOnTop(c, t, n - 1) {
        assert forall i :: |s| - n <= i < |t| ==> s[i] == t[i];
      }
    }
  }

  /** The outcome of the opcode for every stack: too few items, bad counts and bad keys return -1;
      otherwise the signatures decide, and true is pushed exactly when an order-preserving assignment of
      the signatures to verifying keys exists. */
  lemma CheckMultisigDecides(c: Crypto, s: seq<Item>)
    ensures var n := if s == [] then 0 else c.count(s[|s| - 1]);
      if 1 <= n <= 16 && KeysOnTop(c, s[..|s| - 1], n) && n + 1 < |s| then
        var m := c.count(s[|s| - 2 - n]);
        CheckMultisig(c, s) ==
        if 0 <= m <= n then
          Verdict(c, Strings(s[..|s| - 1], n), s[..|s| - 2 - n], m, m, Pass(0, c.stale, 0, 0, START_RC))
        else Error(-1)
      else CheckMultisig(c, s) == Error(-1)
  {
    hide Verdict, KeysOnTop, Strings, PopKeys, CheckMultisig;
    DecidesByKeys(c, s);
    if s != [] && 1 <= c.count(Top(s)) <= 16 {
      var n := c.count(Top(s));
      PopKeysExactly(c, Rest(s), n);
      var k := PopKeys(c, Rest(s), n);
      if k.SomeKeys? && k.rest != [] {
        assert Rest(k.rest) == s[..|s| - 2 - n] && Top(k.rest) == s[|s| - 2 - n];
      }
    }
  }

  // ----- The opcode, by positions -----

  function Items(ds: seq<seq<byte>>): (s: seq<Item>)
    ensures |s| == |ds|
  {
    seq(|ds|, i requires 0 <= i < |ds| => Data(ds[i]))
  }

  /** All signatures from the `i`th on, counted from the bottom, have the digest type `kind`. */
  predicate OfKind(sigs: seq<seq<byte>>, i: nat, kind: byte) {
    forall j :: i <= j < |sigs| ==> sigs[j] != [] && sigs[j][|sigs[j]| - 1] == kind
  }

  /** Every signature can be read, and its digest be computed unless nothing above it differs from `prev`. */
  predicate AllReadable(c: Crypto, sigs: seq<seq<byte>>, prev: byte) {
    forall i :: 0 <= i < |sigs| ==>
      var d := sigs[i];
      && d != [] && c.sigOk(d[..|d| - 1])
      && (OfKind(sigs, i, prev) || c.digestOk(d[|d| - 1]))
  }

  /** What the `i`th signature from the bottom is checked against. */
  function DigestOf(c: Crypto, sigs: seq<seq<byte>>, i: nat, prev: byte, digest: int): int
    requires i < |sigs| && sigs[i] != []
  {
    if OfKind(sigs, i, prev) then digest else c.digest(sigs[i][|sigs[i]| - 1])
  }

  lemma KindBelow(sigs: seq<seq<byte>>, i: nat, kind: byte)
    requires i < |sigs| && sigs[|sigs| - 1] != []
    ensures OfKind(sigs, i, kind) <==>
      sigs[|sigs| - 1][|sigs[|sigs| - 1]| - 1] == kind && OfKind(sigs[..|sigs| - 1], i, kind)
  {
  }

  lemma TopItem(s: seq<Item>, sigs: seq<seq<byte>>)
    requires sigs != []
    ensures var t, below := s + Items(sigs), sigs[..|sigs| - 1];
      t != [] && Top(t) == Data(sigs[|sigs| - 1]) && Rest(t) == s + Items(below)
  {
  }

  lemma {:induction false} ReadAll(c: Crypto, s: seq<Item>, sigs: seq<seq<byte>>, prev: byte)
    requires AllReadable(c, sigs, prev)
    ensures Read(c, s + Items(sigs), |sigs|, prev).Complete?
    decreases |sigs|
  {
    if sigs != [] {
      var below, top := sigs[..|sigs| - 1], sigs[|sigs| - 1];
      var kind := LastByte(top);
      TopItem(s, sigs);
      forall i | 0 <= i < |below| ensures OfKind(below, i, kind) || c.digestOk(below[i][|below[i]| - 1]) {
        KindBelow(sigs, i, prev);
      }
      ReadAll(c, s, below, kind);
    }
  }

  /** The signatures as the pass sees them, topmost first. */
  lemma {:induction false} SignatureAt(c: Crypto, s: seq<Item>, sigs: seq<seq<byte>>, prev: byte, digest: int, i: nat)
    requires i < |sigs| && forall j :: 0 <= j < |sigs| ==> sigs[j] != []
    ensures ByteItems(s + Items(sigs), |sigs|)
    ensures Signatures(c, s + Items(sigs), |sigs|, prev, digest)[|sigs| - 1 - i]
         == Signature(sigs[i][..|sigs[i]| - 1], DigestOf(c, sigs, i, prev, digest))
    decreases |sigs|
  {
    var below, top := sigs[..|sigs| - 1], sigs[|sigs| - 1];
    var kind := LastByte(top);
    TopItem(s, sigs);
    KindBelow(sigs, i, prev);
    if i < |below| {
      SignatureAt(c, s, below, kind, if kind != prev then c.digest(kind) else digest, i);
      KindBelow(sigs, i, kind);
    }
  }

  /** An assignment by positions from the bottom: a key for every signature, in the same order. */
  ghost predicate InOrder(c: Crypto, keys: seq<seq<byte>>, sigs: seq<seq<byte>>, f: seq<nat>)
    requires forall i :: 0 <= i < |sigs| ==> sigs[i] != []
  {
    && |f| == |sigs|
    && (forall i :: 0 <= i < |f| ==> f[i] < |keys|)
    && (forall i :: 0 <= i < |f| ==>
          c.verify(DigestOf(c, sigs, i, 0, c.stale), keys[f[i]], sigs[i][..|sigs[i]| - 1]))
    && (forall i, j :: 0 <= i < j < |f| ==> f[i] <= f[j])
  }

  function Reversed<T>(s: seq<T>): (r: seq<T>)
    ensures |r| == |s| && forall i :: 0 <= i < |s| ==> r[i] == s[|s| - 1 - i]
  {
    seq(|s|, i requires 0 <= i < |s| => s[|s| - 1 - i])
  }

  /** The same assignment counted from the other end. */
  function Mirrored(f: seq<nat>, n: nat): (g: seq<nat>)
    requires forall i :: 0 <= i < |f| ==> f[i] < n
    ensures |g| == |f| && forall i :: 0 <= i < |f| ==> g[i] == n - 1 - f[|f| - 1 - i]
  {
    seq(|f|, i requires 0 <= i < |f| => n - 1 - f[|f| - 1 - i])
  }

  /** The signatures in the order in which they are popped. */
  function Popped(c: Crypto, sigs: seq<seq<byte>>): (r: seq<Signature>)
    requires forall i :: 0 <= i < |sigs| ==> sigs[i] != []
    ensures |r| == |sigs| && forall i :: 0 <= i < |sigs| ==> r[i] == PoppedAt(c, sigs, |sigs| - 1 - i)
  {
    seq(|sigs|, i requires 0 <= i < |sigs| => PoppedAt(c, sigs, |sigs| - 1 - i))
  }

  function PoppedAt(c: Crypto, sigs: seq<seq<byte>>, i: nat): Signature
    requires i < |sigs| && sigs[i] != []
  {
    Signature(sigs[i][..|sigs[i]| - 1], DigestOf(c, sigs, i, 0, c.stale))
  }

  lemma SignaturesPopped(c: Crypto, s: seq<Item>, sigs: seq<seq<byte>>)
    requires forall i :: 0 <= i < |sigs| ==> sigs[i] != []
    requires ByteItems(s + Items(sigs), |sigs|)
    ensures Signatures(c, s + Items(sigs), |sigs|, 0, c.stale) == Popped(c, sigs)
  {
    hide DigestOf, Signatures, Items, Popped;
    var m := |sigs|;
    var r := Signatures(c, s + Items(sigs), m, 0, c.stale);
    forall i | 0 <= i < m ensures r[i] == Popped(c, sigs)[i] {
      var k := m - 1 - i;
      SignatureAt(c, s, sigs, 0, c.stale, k);
      assert r[m - 1 - k] == PoppedAt(c, sigs, k);
    }
  }

  lemma InOrderAssigned(c: Crypto, keys: seq<seq<byte>>, sigs: seq<seq<byte>>, f: seq<nat>)
    requires forall i :: 0 <= i < |sigs| ==> sigs[i] != []
    requires InOrder(c, keys, sigs, f)
    ensures Assignment(c, Reversed(keys), Popped(c, sigs), 0, Mirrored(f, |keys|))
  {
    hide DigestOf;
    var m, g := |sigs|, Mirrored(f, |keys|);
    forall i | 0 <= i < m ensures Verifies(c, Reversed(keys), Popped(c, sigs), i, g[i]) {
      var k := m - 1 - i;
      assert f[k] < |keys| && g[i] == |keys| - 1 - f[k];
      assert Reversed(keys)[g[i]] == keys[f[k]];
      assert Popped(c, sigs)[i] == PoppedAt(c, sigs, k);
      assert c.verify(DigestOf(c, sigs, k, 0, c.stale), keys[f[k]], sigs[k][..|sigs[k]| - 1]);
    }
  }

  lemma AssignedInOrder(c: Crypto, keys: seq<seq<byte>>, sigs: seq<seq<byte>>, g: seq<nat>)
    requires forall i :: 0 <= i < |sigs| ==> sigs[i] != []
    requires Assignment(c, Reversed(keys), Popped(c, sigs), 0, g)
    ensures (forall i :: 0 <= i < |g| ==> g[i] < |keys|) && InOrder(c, keys, sigs, Mirrored(g, |keys|))
  {
    hide DigestOf;
    var m, n := |sigs|, |keys|;
    assert forall i :: 0 <= i < m ==> Verifies(c, Reversed(keys), Popped(c, sigs), i, g[i]);
    var f := Mirrored(g, n);
    forall i | 0 <= i < m
      ensures f[i] < n && c.verify(DigestOf(c, sigs, i, 0, c.stale), keys[f[i]], sigs[i][..|sigs[i]| - 1])
    {
      var k := m - 1 - i;
      assert Verifies(c, Reversed(keys), Popped(c, sigs), k, g[k]);
      assert Reversed(keys)[g[k]] == keys[f[i]];
      assert Popped(c, sigs)[k] == PoppedAt(c, sigs, i);
    }
  }

  lemma AcceptedInOrder(c: Crypto, s: seq<Item>, keys: seq<seq<byte>>, sigs: seq<seq<byte>>)
    requires forall i :: 0 <= i < |sigs| ==> sigs[i] != []
    requires ByteItems(s + Items(sigs), |sigs|)
    ensures Accepted(c, Reversed(keys), s + Items(sigs), |sigs|, Pass(0, c.stale, 0, 0, START_RC))
        <==> exists f :: InOrder(c, keys, sigs, f)
  {
    hide InOrder, Assignment, Popped, Items;
    SignaturesPopped(c, s, sigs);
    if f :| InOrder(c, keys, sigs, f) { InOrderAssigned(c, keys, sigs, f); }
    if g :| Assignment(c, Reversed(keys), Popped(c, sigs), 0, g) { AssignedInOrder(c, keys, sigs, g); }
  }

  /** With well-formed keys and signatures on the stack, bottom first: signatures, their number, keys, their number.
      All of it is replaced by true exactly when there is a key for every signature that verifies it, in the same
      order. */
  lemma MultisigByPosition(c: Crypto, s: seq<Item>, sigs: seq<seq<byte>>, m: Item, keys: seq<seq<byte>>, n: Item)
    requires 1 <= c.count(n) == |keys| <= 16 && c.count(m) == |sigs| <= |keys|
    requires forall k :: k in keys ==> (|k| == 33 || |k| == 65) && c.keyOk(k)
    requires AllReadable(c, sigs, 0)
    ensures CheckMultisig(c, s + Items(sigs) + [m] + Items(keys) + [n])
         == Pushed(exists f :: InOrder(c, keys, sigs, f), s)
  {
    var signed := s + Items(sigs);
    var whole := signed + [m] + Items(keys) + [n];
    hide AllReadable, Verdict, InOrder, CheckMultisig, KeysOnTop, Strings, Items, OfKind;
    CheckMultisigDecides(c, whole);
    KeysLieOnTop(c, signed + [m], keys);
    StackParts(signed, m, Items(keys), n);
    Readables(c, sigs, 0);
    VerdictInOrder(c, s, keys, sigs);
  }

  lemma VerdictInOrder(c: Crypto, s: seq<Item>, keys: seq<seq<byte>>, sigs: seq<seq<byte>>)
    requires AllReadable(c, sigs, 0) && forall i :: 0 <= i < |sigs| ==> sigs[i] != []
    ensures Verdict(c, Reversed(keys), s + Items(sigs), |sigs|, |sigs|, Pass(0, c.stale, 0, 0, START_RC))
         == Pushed(exists f :: InOrder(c, keys, sigs, f), s)
  {
    hide AllReadable, Read, Accepted, InOrder, OfKind;
    var signed := s + Items(sigs);
    ReadAll(c, s, sigs, 0);
    ReadBytes(c, signed, |sigs|, 0);
    AcceptedInOrder(c, s, keys, sigs);
    assert signed[..|signed| - |sigs|] == s;
  }

  lemma KeysLieOnTop(c: Crypto, s: seq<Item>, keys: seq<seq<byte>>)
    requires forall k :: k in keys ==> (|k| == 33 || |k| == 65) && c.keyOk(k)
    ensures var t := s + Items(keys);
      && KeysOnTop(c, t, |keys|) && (forall i :: |t| - |keys| <= i < |t| ==> t[i].Data?)
      && Strings(t, |keys|) == Reversed(keys)
  {
    var t := s + Items(keys);
    forall i | |s| <= i < |t| ensures t[i] == Data(keys[i - |s|]) && keys[i - |s|] in keys {}
  }

  lemma StackParts(s: seq<Item>, m: Item, keys: seq<Item>, n: Item)
    ensures var whole := s + [m] + keys + [n]; var k := |whole| - 2 - |keys|;
      && whole[..|whole| - 1] == s + [m] + keys && whole[|whole| - 1] == n
      && k == |s| && whole[k] == m && whole[..k] == s
  {
  }

  lemma Readables(c: Crypto, sigs: seq<seq<byte>>, prev: byte)
    requires AllReadable(c, sigs, prev)
    ensures forall i :: 0 <= i < |sigs| ==> sigs[i] != []
  {
  }

  /** On completion the keys, the signatures and the two counts are gone, and nothing else. */
  lemma CompletionRemoves(c: Crypto, s: seq<Item>)
    requires CheckMultisig(c, s).Pushed?
    ensures var n := c.count(Top(s));
            && 1 <= n <= 16 && n + 1 < |s|
            && var m := c.count(s[|s| - 1 - n - 1]);
               && 0 <= m <= n && |s| >= n + m + 2
               && CheckMultisig(c, s).rest == s[..|s| - (n + m + 2)]
  {
    hide PopKeys, Read, PassAll, Accepted;
    DecidesByKeys(c, s);
    var n := c.count(Top(s));
    var k := PopKeys(c, Rest(s), n);
    var m := c.count(Top(k.rest));
    assert Top(k.rest) == s[|s| - 1 - n - 1];
    ReadBytes(c, Rest(k.rest), m, 0);
    assert Read(c, Rest(k.rest), m, 0).Complete?;
    assert k.rest == s[..|s| - (n + 1)] && Rest(k.rest) == s[..|s| - (n + 2)];
  }

  /** How far the signatures can be read, if the opcode gets to them. */
  ghost predicate Stopped(c: Crypto, s: seq<Item>) {
    && s != [] && 1 <= c.count(Top(s)) <= 16
    && var k := PopKeys(c, Rest(s), c.count(Top(s)));
    && k.SomeKeys? && k.rest != [] && 0 <= c.count(Top(k.rest)) <= |k.keys|
    && var t := Rest(k.rest); var r := Read(c, t, c.count(Top(k.rest)), 0);
    && r.Malformed? && r.k > 0
    && ByteItems(t, r.k) && Accepted(c, k.keys, t, r.k, Pass(0, c.stale, 0, 0, START_RC))
  }

  /** The opcode returns success without a verdict pushed exactly when counts and keys are in order and a signature
      other than the topmost is missing or malformed while all those above it can be assigned to keys in order. */
  lemma SilentSuccess(c: Crypto, s: seq<Item>)
    ensures CheckMultisig(c, s).Silent? <==> Stopped(c, s)
  {
    hide PopKeys, Read, PassAll, Accepted;
    DecidesByKeys(c, s);
    if s != [] && 1 <= c.count(Top(s)) <= 16 {
      var k := PopKeys(c, Rest(s), c.count(Top(s)));
      if k.SomeKeys? && k.rest != [] && 0 <= c.count(Top(k.rest)) {
        ReadBytes(c, Rest(k.rest), c.count(Top(k.rest)), 0);
      }
    }
  }

  // ----- The opcode in a script -----

  /** What the interpreter sees of the opcode. */
  function Effect(r: Result): SigEffect {
    match r
    case Pushed(ok, rest) => SigDone(rest + [Truth(ok)])
    case Silent(rest) => SigDone(rest)
    case Error(_) => SigFailed
    case Undefined => SigHalted
  }

  /** An environment whose CHECKMULTISIG is the one above; `c` may depend on the code separator. */
  function WithMultisig(env: Env, c: nat -> Crypto): Env {
    env.(sig := (op: byte, s: seq<Item>, sep: nat) =>
      if op == OP_CHECKMULTISIG then Effect(CheckMultisig(c(sep), s)) else env.sig(op, s, sep))
  }

  lemma {:induction false} PassShrinks(c: Crypto, keys: seq<seq<byte>>, s: seq<Item>, n: nat, total: nat, p: Pass)
    requires p.index <= |keys|
    ensures var r := PassAll(c, keys, s, n, total, p);
      (r.Pushed? ==> |r.rest| <= |s|) && (r.Silent? ==> |r.rest| <= |s|)
    decreases n
  {
    if n > 0 && s != [] && Top(s).Data? && Top(s).d != [] {
      PassShrinks(c, keys, Rest(s), n - 1, total, PassOne(c, keys, Top(s).d[..|Top(s).d| - 1], LastByte(Top(s).d), p));
    }
  }

  lemma OpcodeShrinks(c: Crypto, s: seq<Item>)
    ensures var r := CheckMultisig(c, s);
      (r.Pushed? ==> |r.rest| + 2 < |s|) && (r.Silent? ==> |r.rest| + 2 < |s|)
  {
    hide PassAll;
    if s != [] && 1 <= c.count(Top(s)) <= 16 {
      var k := PopKeys(c, Rest(s), c.count(Top(s)));
      if k.SomeKeys? && k.rest != [] && 0 <= c.count(Top(k.rest)) <= |k.keys| {
        var m := c.count(Top(k.rest));
        PassShrinks(c, k.keys, Rest(k.rest), m, m, Pass(0, c.stale, 0, 0, START_RC));
      }
    }
  }

  /** In a script run: true is pushed, or the run goes on with no verdict at all, or it fails. */
  lemma MultisigInRun(env: Env, c: nat -> Crypto, code: seq<byte>, lo: nat, hi: nat, st: State)
    requires lo < hi <= |code| && code[lo] == OP_CHECKMULTISIG && |st.stack| <= STACK_CAPACITY
    ensures var env' := WithMultisig(env, c);
      Exec(env', code, lo, hi, st) ==
      match CheckMultisig(c(st.sep), st.stack)
      case Pushed(ok, rest) => Exec(env', code, lo + 1, hi, st.(stack := rest + [Truth(ok)]))
      case Silent(rest) => Exec(env', code, lo + 1, hi, st.(stack := rest))
      case Error(_) => Rejected
      case Undefined => Halted
  {
    OpcodeShrinks(c(st.sep), st.stack);
    hide CheckMultisig;
    var env' := WithMultisig(env, c);
    assert env'.sig(OP_CHECKMULTISIG, st.stack, st.sep) == Effect(CheckMultisig(c(st.sep), st.stack));
  }

  /** Every signature, key and digest is acceptable. */
  function Lenient(): Crypto {
    Crypto((x: Item) => if x.Small? then x.v else 0, _ => true, _ => true, _ => true, _ => 0, 0, (_, _, _) => true)
  }

  lemma PopTwoKeys(c: Crypto, s: seq<Item>, a: seq<byte>, b: seq<byte>)
    requires IsKey(c, Data(a)) && IsKey(c, Data(b))
    ensures PopKeys(c, s + [Data(b), Data(a)], 2) == SomeKeys([a, b], s)
  {
    var t := s + [Data(b), Data(a)];
    assert Rest(t) == s + [Data(b)];
    assert Rest(Rest(t)) == s;
    assert PopKeys(c, s, 0) == SomeKeys([], s);
    assert PopKeys(c, Rest(t), 1) == SomeKeys([b] + [], s);
  }

  /** Two of two, with only one signature on the stack. */
  function OneSignature(): seq<Item> {
    var key: seq<byte> := seq(33, _ => 2);
    [Data([7, 1])] + [Small(2)] + [Data(key), Data(key)] + [Small(2)]
  }

  /** Success is returned and nothing is pushed. */
  lemma SilentSuccessExample()
    ensures CheckMultisig(Lenient(), OneSignature()) == Silent([])
  {
    var c := Lenient();
    var key: seq<byte> := seq(33, _ => 2);
    var sigs := [Data([7, 1])];
    var low := sigs + [Small(2)];
    var s := OneSignature();
    assert Rest(s) == low + [Data(key), Data(key)];
    PopTwoKeys(c, low, key, key);
    hide PopKeys;
    assert Rest(low) == sigs && Top(sigs) == Data([7, 1]) && Rest(sigs) == [];
    var p := Pass(0, 0, 0, 0, START_RC);
    var p' := PassOne(c, [key, key], [7], 1, p);
    assert p'.rc == 0;
    assert PassAll(c, [key, key], [], 1, 2, p') == Silent([]);
    assert PassAll(c, [key, key], sigs, 2, 2, p) == Silent([]);
  }

  /** A script of this one opcode, on that stack, succeeds and leaves nothing for the verdict of the script. */
  lemma SilentRunExample(env: Env)
    ensures var st := State(OneSignature(), 0, 0);
      Exec(WithMultisig(env, _ => Lenient()), [OP_CHECKMULTISIG], 0, 1, st) == Done(st.(stack := []))
  {
    hide CheckMultisig;
    var st := State(OneSignature(), 0, 0);
    SilentSuccessExample();
    MultisigInRun(env, _ => Lenient(), [OP_CHECKMULTISIG], 0, 1, st);
  }
}
