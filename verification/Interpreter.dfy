/** The script object: a stack, a nesting counter and a code separator that parsing updates in place. */
module Interpreter {
  import opened Bytes
  import opened Script
  import opened ScriptTree
  import opened Opcodes

  datatype Verdict = Ok | Reject | Halt

  datatype Popped = Nothing | Item(item: Script.Item)

  class ScriptMachine {
    const env: Env
    var stack: seq<Script.Item>
    var depth: int
    var sep: nat

    constructor (e: Env)
      ensures env == e && View() == State([], 0, 0)
    {
      env, stack, depth, sep := e, [], 0, 0;
    }

    function View(): State
      reads this
    {
      State(stack, depth, sep)
    }

    /** The method's verdict, and on success the new state, are those of the outcome `r`. */
    ghost predicate Shows(v: Verdict, r: Outcome)
      reads this
    {
      match r
      case Done(st) => v.Ok? && View() == st
      case Rejected => v.Reject?
      case Halted => v.Halt?
    }

    method StackPush(x: Script.Item) returns (v: Verdict)
      modifies this`stack
      ensures Shows(v, Push(old(View()), x))
    {
      if |stack| >= STACK_CAPACITY { return Halt; }
      stack := stack + [x];
      return Ok;
    }

    method StackPop() returns (x: Popped)
      modifies this`stack
      ensures old(stack) == [] ==> x.Nothing? && stack == []
      ensures old(stack) != [] ==> x == Item(Top(old(stack))) && stack == Rest(old(stack))
    {
      if stack == [] { return Nothing; }
      x := Item(stack[|stack| - 1]);
      stack := stack[..|stack| - 1];
    }

    /** scripts_verify: pops an item, if there is one, and tells whether it was true. */
    method Verify() returns (ok: bool)
      modifies this`stack
      ensures var n := |old(stack)|;
        && ok == (n > 0 && IsTrue(old(stack)[n - 1]))
        && stack == if n == 0 then [] else old(stack)[..n - 1]
    {
      if stack != [] { TrueItems(stack[|stack| - 1]); }
      var x := StackPop();
      ok := x.Item? && Accepts(x.item);
    }

    method ParseHash(op: byte) returns (v: Verdict)
      requires op == OP_RIPEMD160 || op == OP_SHA256 || op == OP_HASH160 || op == OP_HASH256
      modifies this`stack
      ensures Shows(v, ExecOp(env, op, 0, 0, old(View())))
    {
      var x := StackPop();
      if x.Nothing? { return Reject; }
      v := StackPush(Hash(env.hash(op, HashedBytes(x.item))));
    }

    method ParseEqualVerify() returns (v: Verdict)
      modifies this`stack
      ensures |old(stack)| < 2 ==> v.Reject? && stack == old(stack)
      ensures |old(stack)| >= 2 ==>
                var x, y := Top(old(stack)), Top(Rest(old(stack)));
                && v == (if (x.Bool? && x.shared) || (y.Bool? && y.shared) then Halt
                         else if Alike(x, y) then Ok else Reject)
                && stack == Rest(Rest(old(stack)))
    {
      if |stack| < 2 { return Reject; }
      var x := StackPop();
      var y := StackPop();
      var same := SameItem(x.item, y.item);
      AlikeItems(x.item, y.item);
      if FreesShared(x.item, y.item) { return Halt; }
      v := if same then Ok else Reject;
    }

    /** One opcode other than an inline push or a control opcode. */
    method ParseOp(op: byte, next: nat, end: nat) returns (v: Verdict)
      requires !IsPush(op) && !IsControl(op)
      modifies this
      ensures Shows(v, ExecOp(env, op, next, end, old(View())))
    {
      if OP_1 <= op <= OP_16 {
        v := StackPush(Small(op - (OP_1 - 1)));
      } else if op == OP_RIPEMD160 || op == OP_SHA256 || op == OP_HASH160 || op == OP_HASH256 {
        v := ParseHash(op);
      } else if op == OP_DUP {
        if stack == [] { return Reject; }
        var x := stack[|stack| - 1];
        if x == Data([]) { return Halt; }
        v := StackPush(Copied(x));
      } else if op == OP_EQUALVERIFY {
        v := ParseEqualVerify();
      } else if op == OP_EQUAL {
        var same := ParseEqualVerify();
        if same == Halt { return Halt; }
        v := StackPush(Truth(same == Ok));
      } else if op == OP_CHECKSIG || op == OP_CHECKSIGVERIFY || op == OP_CHECKMULTISIG {
        match env.sig(op, stack, sep) {
          case SigDone(s) =>
            if |s| > STACK_CAPACITY { return Halt; }
            stack := s;
            v := Ok;
          case SigFailed => v := Reject;
          case SigHalted => v := Halt;
        }
      } else if op == OP_VERIFY {
        var ok := Verify();
        v := if ok then Ok else Reject;
      } else if op == OP_CODESEPARATOR {
        if !env.hasRedeem { return Reject; }
        if next >= end { return Halt; }
        sep := next;
        v := Ok;
      } else {
        v := if IsIgnored(op) then Ok else Reject;
      }
    }

    /** parse_op_push_data: the number of bytes consumed after the opcode, or -1. */
    method ParsePushData(code: seq<byte>, op: byte, p: nat, hi: nat) returns (v: Verdict, consumed: nat)
      requires p <= hi <= |code| && 0 < op < OP_PUSHDATA4
      modifies this`stack
      ensures var f := ReadPush(code, op, p, hi);
              if f.NoField? || f.start + f.size > hi then v.Reject?
              else && p + consumed == f.start + f.size
                   && Shows(v, Push(old(View()), Data(code[f.start..f.start + f.size])))
    {
      var offset, size: nat := 0, op;
      if op == OP_PUSHDATA1 {
        offset := 1;
        if p + offset > hi { return Reject, 0; }
        size := code[p];
      } else if op == OP_PUSHDATA2 {
        offset := 2;
        if p + offset > hi { return Reject, 0; }
        size := SizeField(code, p, 2);
      }
      var q := p + offset;
      if q + size > hi { return Reject, 0; }
      v := StackPush(Data(code[q..q + size]));
      consumed := offset + size;
    }

    /** The loop of parse_op_if_notif that looks for the ELSE and the ENDIF of the current level. */
    method FindMarks(code: seq<byte>, payload: nat, hi: nat, level: int) returns (m: Marks)
      requires payload <= hi <= |code|
      ensures m == Scan(code, payload, hi, level, level, 0)
    {
      hide Scan;
      var p, d, els := payload, level, 0;
      while p < hi
        invariant els <= p && Scan(code, p, hi, d, level, els) == Scan(code, payload, hi, level, level, 0)
        decreases hi - p
      {
        ScanStep(code, p, hi, d, level, els);
        var op := code[p];
        p := p + 1;
        if op == OP_IF || op == OP_NOTIF {
          d := d + 1;
        } else if op == OP_ELSE {
          if d == level { els := p; }
        } else if op == OP_ENDIF {
          if d == level { return Marks(els, p); }
          d := d - 1;
        } else if op <= OP_PUSHDATA4 {
          var size: nat := op;
          if op >= OP_PUSHDATA1 {
            var width := if op == OP_PUSHDATA1 then 1 else if op == OP_PUSHDATA2 then 2 else 4;
            if p + width > hi { return NoMarks; }
            size := SizeField(code, p, width);
            p := p + width;
          }
          p := p + size;
        }
      }
      ScanStep(code, p, hi, d, level, els);
      return NoMarks;
    }

    lemma ScanStep(code: seq<byte>, p: nat, hi: nat, depth: int, level: int, els: nat)
      requires hi <= |code| && els <= p
      ensures Scan(code, p, hi, depth, level, els) ==
        if p >= hi then NoMarks
        else
          match KindAt(code, p, hi)
          case Opens => Scan(code, p + 1, hi, depth + 1, level, els)
          case Alternates => Scan(code, p + 1, hi, depth, level, if depth == level then p + 1 else els)
          case Closes =>
            if depth == level then Marks(els, p + 1) else Scan(code, p + 1, hi, depth - 1, level, els)
          case Skips(next) => Scan(code, next, hi, depth, level, els)
          case Breaks => NoMarks
    {
    }

    /** parse_op_if_notif for the opcode at `lo`: runs the selected branch and reports where the ENDIF ends. */
    method ParseIfNotif(code: seq<byte>, lo: nat, hi: nat) returns (v: Verdict, endif: nat)
      requires lo < hi <= |code| && (code[lo] == OP_IF || code[lo] == OP_NOTIF)
      modifies this
      ensures var st, m := old(View()), Scan(code, lo + 1, hi, old(depth), old(depth), 0);
              if !(1 <= st.depth + 1 <= MAX_IF_DEPTH) || m.NoMarks? then v.Reject?
              else
                var r := Chosen(env, code, lo, m.els, m.endif, st);
                endif == m.endif && Shows(v, if r.Done? then Done(r.st.(depth := r.st.depth - 1)) else r)
      decreases hi - lo, 0
    {
      hide Scan, Exec;
      depth := depth + 1;
      endif := lo;
      if depth > MAX_IF_DEPTH || depth < 1 { return Reject, lo; }
      var ok := Verify();
      var matched := (code[lo] == OP_IF) == ok;
      var m := FindMarks(code, lo + 1, hi, depth - 1);
      if m.NoMarks? { return Reject, lo; }
      endif := m.endif;
      var start, end := lo + 1, m.endif - 1;
      if matched {
        if m.els > 0 { end := m.els - 1; }
      } else {
        start := m.els;
      }
      v := Ok;
      if matched || m.els > 0 {
        if start >= end { return Halt, endif; }
        v := Parse(code, start, end);
        if !v.Ok? { return; }
      }
      depth := depth - 1;
    }

    /** scripts_parse on a free-standing payload. */
    method Parse(code: seq<byte>, lo: nat, hi: nat) returns (v: Verdict)
      requires lo <= hi <= |code|
      modifies this
      ensures Shows(v, Exec(env, code, lo, hi, old(View())))
      decreases hi - lo, 1
    {
      hide Scan, ReadPush, Chosen, ExecOp, Push;
      var p := lo;
      while p < hi
        invariant lo <= p <= hi && Exec(env, code, p, hi, View()) == Exec(env, code, lo, hi, old(View()))
        decreases hi - p
      {
        var op := code[p];
        if op == 0 {
          v := StackPush(Truth(false));
          p := p + 1;
        } else if op <= OP_PUSHDATA4 {
          if op >= OP_PUSHDATA4 { return Halt; }
          var n;
          v, n := ParsePushData(code, op, p + 1, hi);
          if v.Reject? { return; }
          p := p + 1 + n;
        } else if op == OP_IF || op == OP_NOTIF {
          v, p := ParseIfNotif(code, p, hi);
        } else if op == OP_ELSE || op == OP_ENDIF {
          return Reject;
        } else {
          v := ParseOp(op, p + 1, |code|);
          p := p + 1;
        }
        if !v.Ok? { return; }
      }
      v := Ok;
    }

    /** A whole script; an empty one fails the assertion at the entry. */
    method Run(code: seq<byte>) returns (v: Verdict)
      modifies this
      ensures code == [] ==> v.Halt?
      ensures code != [] ==> Shows(v, Exec(env, code, 0, |code|, old(View())))
    {
      if code == [] { return Halt; }
      v := Parse(code, 0, |code|);
    }

    /** On the bytes of a script tree the interpreter computes the meaning of the tree, and a success
        leaves the nesting counter where it was. */
    method RunTree(code: seq<byte>, ghost p: Prog) returns (v: Verdict)
      requires WellFormed(p) && p.Cons? && code == Flatten(p)
      modifies this
      ensures Shows(v, Eval(env, p, 0, |code|, old(View())))
      ensures v.Ok? ==> depth == old(depth)
    {
      assert code == FlattenNode(p.head) + Flatten(p.tail);
      FlattenedRun(env, p, View());
      ExecRestoresDepth(env, code, 0, |code|, View());
      v := Run(code);
    }
  }
}
