/** The opcode CHECKMULTISIG as the interpreter executes it on its stack. */
module MultiSigOp {
  import opened Bytes
  import opened Script
  import opened MultiSig
  import opened Interpreter

  ghost function WithKeys(popped: seq<seq<byte>>, k: Keys): Keys {
    if k.NoKeys? then NoKeys else SomeKeys(popped + k.keys, k.rest)
  }

  lemma KeysStep(c: Crypto, popped: seq<seq<byte>>, s: seq<Script.Item>, n: nat)
    ensures WithKeys(popped, PopKeys(c, s, 0)) == SomeKeys(popped, s)
    ensures n > 0 && (s == [] || !IsKey(c, Top(s))) ==> PopKeys(c, s, n) == WithKeys(popped, PopKeys(c, s, n)) == NoKeys
    ensures n > 0 && s != [] && IsKey(c, Top(s)) ==>
      WithKeys(popped, PopKeys(c, s, n)) == WithKeys(popped + [Top(s).d], PopKeys(c, Rest(s), n - 1))
  {
    if n > 0 && s != [] && IsKey(c, Top(s)) {
      var r := PopKeys(c, Rest(s), n - 1);
      if r.SomeKeys? { assert popped + ([Top(s).d] + r.keys) == popped + [Top(s).d] + r.keys; }
    }
    assert popped + [] == popped;
  }

  lemma NonePopped(k: Keys)
    ensures WithKeys([], k) == k
  {
    if k.SomeKeys? { assert [] + k.keys == k.keys; }
  }

  /** Pops and imports `n` keys. */
  method PopPubkeys(machine: ScriptMachine, c: Crypto, n: nat) returns (ok: bool, pubkeys: array<seq<byte>>)
    modifies machine`stack
    ensures fresh(pubkeys)
    ensures ok == PopKeys(c, old(machine.stack), n).SomeKeys?
    ensures ok ==> PopKeys(c, old(machine.stack), n) == SomeKeys(pubkeys[..], machine.stack)
  {
    hide PopKeys, WithKeys, IsKey;
    pubkeys := new seq<byte>[n](_ => []);
    NonePopped(PopKeys(c, machine.stack, n));
    assert pubkeys[..0] == [];
    for i := 0 to n
      invariant PopKeys(c, old(machine.stack), n) == WithKeys(pubkeys[..i], PopKeys(c, machine.stack, n - i))
    {
      ghost var before := pubkeys[..i];
      KeysStep(c, before, machine.stack, n - i);
      var x := machine.StackPop();
      if x.Nothing? || !IsKey(c, x.item) { return false, pubkeys; }
      KeyBytes(c, x.item);
      pubkeys[i] := x.item.d;
      assert pubkeys[..i + 1] == before + [x.item.d];
    }
    KeysStep(c, pubkeys[..n], machine.stack, 0);
    assert pubkeys[..n] == pubkeys[..];
    ok := true;
  }

  lemma KeyBytes(c: Crypto, x: Script.Item)
    requires IsKey(c, x)
    ensures x.Data?
  {
  }

  /** Tries the keys from `start` on; the index stays on the key that verifies. */
  method TryKeys(c: Crypto, keys: seq<seq<byte>>, digest: int, sig: seq<byte>, start: nat) returns (rc: int, index: nat)
    requires start <= |keys|
    ensures index == FirstKey(c, keys, digest, sig, start)
    ensures rc == if index < |keys| then 0 else -1
  {
    rc, index := -1, start;
    while index < |keys|
      invariant start <= index <= |keys| && rc == -1
      invariant FirstKey(c, keys, digest, sig, start) == FirstKey(c, keys, digest, sig, index)
    {
      if c.verify(digest, keys[index], sig) {
        rc := 0;
        return;
      }
      index := index + 1;
    }
  }

  /** The loop over the signatures. */
  method PopSignatures(machine: ScriptMachine, c: Crypto, keys: seq<seq<byte>>, numSigs: nat)
    returns (rc: int, defined: bool, done: bool, verified: nat)
    modifies machine`stack
    ensures match PassAll(c, keys, old(machine.stack), numSigs, numSigs, Pass(0, c.stale, 0, 0, START_RC))
            case Pushed(ok, rest) => defined && done && ok == (verified == numSigs) && machine.stack == rest
            case Silent(rest) => defined && !done && rc == 0 && machine.stack == rest
            case Error(e) => defined && !done && rc == e && rc != 0
            case Undefined => !defined
  {
    ghost var goal := PassAll(c, keys, old(machine.stack), numSigs, numSigs, Pass(0, c.stale, 0, 0, START_RC));
    rc, defined, done, verified := START_RC, true, false, 0;
    var prev: byte, digest, index: nat := 0, c.stale, 0;
    for i := 0 to numSigs
      invariant defined && !done && index <= |keys|
      invariant goal == PassAll(c, keys, machine.stack, numSigs - i, numSigs, Pass(prev, digest, index, verified, rc))
    {
      var x := machine.StackPop();
      if x.Nothing? || x.item == Data([]) || x.item == Hash([]) { return; }
      if !x.item.Data? { return rc, false, false, verified; }
      var d := x.item.d;
      var sig, kind := d[..|d| - 1], d[|d| - 1];
      if !c.sigOk(sig) { return; }
      if kind != prev {
        if !c.digestOk(kind) { return -1, true, false, verified; }
        digest := c.digest(kind);
        prev := kind;
      }
      rc, index := TryKeys(c, keys, digest, sig, index);
      if rc == 0 { verified := verified + 1; }
    }
    done := true;
  }

  /** parse_op_checkmultisig: `defined` is false if the bytes of an item that has none would be read. */
  method ParseOpCheckMultisig(machine: ScriptMachine, c: Crypto) returns (rc: int, defined: bool)
    requires |machine.stack| <= STACK_CAPACITY
    modifies machine`stack
    ensures match CheckMultisig(c, old(machine.stack))
            case Pushed(ok, rest) => defined && rc == 0 && machine.stack == rest + [Truth(ok)]
            case Silent(rest) => defined && rc == 0 && machine.stack == rest
            case Error(e) => defined && rc == e && rc != 0
            case Undefined => !defined
  {
    rc, defined := -1, true;
    var x := machine.StackPop();
    if x.Nothing? { return; }
    var numKeys := c.count(x.item);
    if numKeys < 1 || numKeys > 16 { return; }
    var ok, pubkeys := PopPubkeys(machine, c, numKeys);
    if !ok { return; }
    var keys := pubkeys[..];
    x := machine.StackPop();
    if x.Nothing? { return; }
    var numSigs := c.count(x.item);
    if numSigs < 0 || numSigs > numKeys { return; }
    ghost var s := machine.stack;
    var done, verified;
    rc, defined, done, verified := PopSignatures(machine, c, keys, numSigs);
    if !defined || !done { return; }
    PassDecides(c, keys, s, numSigs, numSigs, Pass(0, c.stale, 0, 0, START_RC));
    ReadBytes(c, s, numSigs, 0);
    var v := machine.StackPush(Truth(verified == numSigs));
    rc := 0;
  }
}
