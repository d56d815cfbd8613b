/** Structured scripts: trees of opcodes and conditionals, what they mean, and the theorem that the
    byte-scanning interpreter runs their flattened bytes to exactly that meaning. */
module ScriptTree {
  import opened Bytes
  import opened Script

  /** An inline push in one of the four encodings, a plain opcode, or a conditional. */
  datatype Node =
    | PushOp(width: nat, data: seq<byte>)
    | Op(op: byte)
    | If(negated: bool, thn: Prog, els: Else)

  datatype Prog = Nil | Cons(head: Node, tail: Prog)

  datatype Else = NoElse | ElseBranch(prog: Prog)

  /** A push fits its encoding; a plain opcode neither pushes inline data nor controls branches. */
  predicate WellFormedNode(n: Node) {
    match n
    case PushOp(width, data) =>
      (width == 0 && |data| < OP_PUSHDATA1) || ((width == 1 || width == 2 || width == 4) && |data| < Pow256(width))
    case Op(op) => !IsPush(op) && !IsControl(op)
    case If(_, thn, els) => WellFormed(thn) && (els.ElseBranch? ==> WellFormed(els.prog))
  }

  predicate WellFormed(p: Prog) {
    p.Cons? ==> WellFormedNode(p.head) && WellFormed(p.tail)
  }

  // ----- Flattening -----

  function FlattenPush(width: nat, data: seq<byte>): seq<byte>
    requires WellFormedNode(PushOp(width, data))
  {
    if width == 0 then [|data|] + data
    else [if width == 1 then OP_PUSHDATA1 else if width == 2 then OP_PUSHDATA2 else OP_PUSHDATA4]
         + (ToLE(|data|, width) + data)
  }

  function FlattenNode(n: Node): (s: seq<byte>)
    requires WellFormedNode(n)
    ensures |s| > 0
  {
    match n
    case PushOp(width, data) => FlattenPush(width, data)
    case Op(op) => [op]
    case If(negated, thn, els) =>
      [if negated then OP_NOTIF else OP_IF] + (Flatten(thn) + (FlattenElse(els) + [OP_ENDIF]))
  }

  function FlattenElse(e: Else): seq<byte>
    requires e.ElseBranch? ==> WellFormed(e.prog)
  {
    if e.NoElse? then [] else [OP_ELSE] + Flatten(e.prog)
  }

  function Flatten(p: Prog): seq<byte>
    requires WellFormed(p)
  {
    if p.Nil? then [] else FlattenNode(p.head) + Flatten(p.tail)
  }

  function NodeSize(n: Node): (k: nat)
    ensures k > 0
  {
    match n
    case PushOp(width, data) => 1 + width + |data|
    case Op(_) => 1
    case If(_, thn, els) => 1 + Size(thn) + ElseSize(els) + 1
  }

  function ElseSize(e: Else): nat {
    if e.NoElse? then 0 else 1 + Size(e.prog)
  }

  function Size(p: Prog): nat {
    if p.Nil? then 0 else NodeSize(p.head) + Size(p.tail)
  }

  /** Where the ELSE of a conditional stands, or its ENDIF if it has none. */
  function ElsePos(pos: nat, n: Node): (q: nat)
    requires n.If?
    ensures pos < q < pos + NodeSize(n) && q == pos + 1 + Size(n.thn)
  {
    pos + 1 + Size(n.thn)
  }

  function EndifPos(pos: nat, n: Node): (r: nat)
    requires n.If?
    ensures pos < ElsePos(pos, n) <= r < pos + NodeSize(n)
    ensures r == if n.els.ElseBranch? then ElsePos(pos, n) + 1 + Size(n.els.prog) else ElsePos(pos, n)
  {
    pos + NodeSize(n) - 1
  }

  // ----- Meaning -----

  /** The meaning of a node whose bytes start at `pos` in a script of `end` bytes. */
  function EvalNode(env: Env, n: Node, pos: nat, end: nat, st: State): Outcome
    requires WellFormedNode(n)
    decreases n, 1
  {
    match n
    case PushOp(width, data) =>
      if width == 4 then Halted
      else if width == 0 && data == [] then Push(st, Truth(false))
      else Push(st, Data(data))
    case Op(op) => ExecOp(env, op, pos + 1, end, st)
    case If(negated, thn, els) =>
      if st.depth < 0 || st.depth >= MAX_IF_DEPTH then Rejected
      else
        var r := EvalChosen(env, n, pos, end, st);
        if r.Done? then Done(r.st.(depth := r.st.depth - 1)) else r
  }

  /** The branch that the condition on top of the stack selects runs one level deeper, without the condition. */
  function EvalChosen(env: Env, n: Node, pos: nat, end: nat, st: State): Outcome
    requires n.If? && WellFormedNode(n)
    decreases n, 0
  {
    var inside := st.(depth := st.depth + 1, stack := AfterVerify(st.stack));
    if VerifyOk(st.stack) != n.negated then EvalBranch(env, n.thn, pos + 1, end, inside)
    else if n.els.ElseBranch? then EvalBranch(env, n.els.prog, ElsePos(pos, n) + 1, end, inside)
    else Done(inside)
  }

  /** An empty branch cannot be run. */
  function EvalBranch(env: Env, p: Prog, pos: nat, end: nat, st: State): Outcome
    requires WellFormed(p)
    decreases p, 1
  {
    if p.Nil? then Halted else Eval(env, p, pos, end, st)
  }

  function Eval(env: Env, p: Prog, pos: nat, end: nat, st: State): Outcome
    requires WellFormed(p)
    decreases p, 0
  {
    if p.Nil? then Done(st)
    else
      var r := EvalNode(env, p.head, pos, end, st);
      if r.Done? then Eval(env, p.tail, pos + NodeSize(p.head), end, r.st) else r
  }

  // ----- A tree laid out in the bytes of a script -----

  function PushCode(width: nat, size: nat): int {
    if width == 0 then size else if width == 1 then OP_PUSHDATA1 else if width == 2 then OP_PUSHDATA2 else OP_PUSHDATA4
  }

  ghost predicate NodeAt(code: seq<byte>, pos: nat, n: Node)
    decreases n
  {
    && WellFormedNode(n) && pos + NodeSize(n) <= |code|
    && match n
       case PushOp(width, data) =>
         && code[pos] == PushCode(width, |data|)
         && (width > 0 ==> SizeField(code, pos + 1, width) == |data|)
         && code[pos + 1 + width..pos + NodeSize(n)] == data
       case Op(op) => code[pos] == op
       case If(negated, thn, els) =>
         && code[pos] == (if negated then OP_NOTIF else OP_IF)
         && ProgAt(code, pos + 1, thn)
         && (els.ElseBranch? ==> code[ElsePos(pos, n)] == OP_ELSE && ProgAt(code, ElsePos(pos, n) + 1, els.prog))
         && code[EndifPos(pos, n)] == OP_ENDIF
  }

  ghost predicate ProgAt(code: seq<byte>, pos: nat, p: Prog)
    decreases p
  {
    p.Cons? ==> NodeAt(code, pos, p.head) && ProgAt(code, pos + NodeSize(p.head), p.tail)
  }

  // ----- Scanning passes over whole subtrees -----

  /** Whatever its data, a push is read back with exactly its own extent. */
  lemma PushExtent(code: seq<byte>, pos: nat, hi: nat, width: nat, data: seq<byte>)
    requires NodeAt(code, pos, PushOp(width, data)) && pos + NodeSize(PushOp(width, data)) <= hi <= |code|
    ensures IsPush(code[pos])
    ensures ReadPush(code, code[pos], pos + 1, hi) == Field(pos + 1 + width, |data|)
  {
  }

  /** The bytes of a conditional: its opcode, its first branch, and an ELSE with the second one or the ENDIF. */
  lemma IfParts(code: seq<byte>, pos: nat, n: Node)
    requires n.If? && NodeAt(code, pos, n)
    ensures code[pos] == OP_IF || code[pos] == OP_NOTIF
    ensures (code[pos] == OP_NOTIF) == n.negated
    ensures WellFormed(n.thn) && ProgAt(code, pos + 1, n.thn) && pos + 1 + Size(n.thn) == ElsePos(pos, n)
    ensures EndifPos(pos, n) + 1 == pos + NodeSize(n) <= |code| && code[EndifPos(pos, n)] == OP_ENDIF
    ensures if n.els.NoElse? then ElsePos(pos, n) == EndifPos(pos, n) else
      && WellFormed(n.els.prog) && code[ElsePos(pos, n)] == OP_ELSE && ProgAt(code, ElsePos(pos, n) + 1, n.els.prog)
      && ElsePos(pos, n) + 1 + Size(n.els.prog) == EndifPos(pos, n)
  {
  }

  lemma {:induction false} ScanSkipsNode(code: seq<byte>, pos: nat, hi: nat, n: Node, depth: int, level: int, els: nat)
    requires NodeAt(code, pos, n) && pos + NodeSize(n) <= hi <= |code| && depth >= level && els <= pos
    ensures Scan(code, pos, hi, depth, level, els) == Scan(code, pos + NodeSize(n), hi, depth, level, els)
    decreases n, 2
  {
    match n
    case PushOp(width, data) =>
      PushExtent(code, pos, hi, width, data);
    case Op(op) =>
    case If(_, _, _) =>
      ScanSkipsIf(code, pos, hi, n, depth, level, els);
  }

  lemma {:induction false} ScanSkipsIf(code: seq<byte>, pos: nat, hi: nat, n: Node, depth: int, level: int, els: nat)
    requires n.If? && NodeAt(code, pos, n) && pos + NodeSize(n) <= hi <= |code| && depth >= level && els <= pos
    ensures Scan(code, pos, hi, depth, level, els) == Scan(code, pos + NodeSize(n), hi, depth, level, els)
    decreases n, 1
  {
    hide Scan, NodeAt, ProgAt, NodeSize, Size, WellFormed, ElsePos, EndifPos;
    IfParts(code, pos, n);
    ScanIf(code, pos, hi, depth, level, els);
    ScanSkips(code, pos + 1, hi, n.thn, depth + 1, level, els);
    ScanFromElse(code, pos, hi, n, depth, level, els);
  }

  /** From the ELSE, or the ENDIF if there is none, of a conditional that is itself nested deeper than `level`. */
  lemma {:induction false} ScanFromElse(code: seq<byte>, pos: nat, hi: nat, n: Node, depth: int, level: int, els: nat)
    requires n.If? && NodeAt(code, pos, n) && pos + NodeSize(n) <= hi <= |code| && depth >= level && els <= pos
    ensures Scan(code, ElsePos(pos, n), hi, depth + 1, level, els)
         == Scan(code, EndifPos(pos, n) + 1, hi, depth, level, els)
    decreases n, 0
  {
    hide Scan, NodeAt, ProgAt, NodeSize, Size, WellFormed, ElsePos, EndifPos;
    IfParts(code, pos, n);
    if n.els.ElseBranch? {
      ScanElse(code, ElsePos(pos, n), hi, depth + 1, level, els);
      ScanSkips(code, ElsePos(pos, n) + 1, hi, n.els.prog, depth + 1, level, els);
    }
    ScanEndif(code, EndifPos(pos, n), hi, depth + 1, level, els);
  }

  lemma ScanIf(code: seq<byte>, p: nat, hi: nat, depth: int, level: int, els: nat)
    requires p < hi <= |code| && els <= p && (code[p] == OP_IF || code[p] == OP_NOTIF)
    ensures Scan(code, p, hi, depth, level, els) == Scan(code, p + 1, hi, depth + 1, level, els)
  {
  }

  lemma ScanElse(code: seq<byte>, p: nat, hi: nat, depth: int, level: int, els: nat)
    requires p < hi <= |code| && els <= p && code[p] == OP_ELSE
    ensures Scan(code, p, hi, depth, level, els)
         == Scan(code, p + 1, hi, depth, level, if depth == level then p + 1 else els)
  {
  }

  lemma ScanEndif(code: seq<byte>, p: nat, hi: nat, depth: int, level: int, els: nat)
    requires p < hi <= |code| && els <= p && code[p] == OP_ENDIF
    ensures Scan(code, p, hi, depth, level, els) ==
            if depth == level then Marks(els, p + 1) else Scan(code, p + 1, hi, depth - 1, level, els)
  {
  }

  /** A whole subtree leaves the scan as it was: no byte of it is taken for the ELSE or ENDIF looked for. */
  lemma {:induction false} ScanSkips(code: seq<byte>, pos: nat, hi: nat, p: Prog, depth: int, level: int, els: nat)
    requires ProgAt(code, pos, p) && pos + Size(p) <= hi <= |code| && depth >= level && els <= pos
    ensures Scan(code, pos, hi, depth, level, els) == Scan(code, pos + Size(p), hi, depth, level, els)
    decreases p
  {
    hide Scan, NodeAt;
    if p.Cons? {
      assert pos + Size(p) == pos + NodeSize(p.head) + Size(p.tail);
      ScanSkipsNode(code, pos, hi, p.head, depth, level, els);
      ScanSkips(code, pos + NodeSize(p.head), hi, p.tail, depth, level, els);
    }
  }

  /** The scan that a conditional starts finds its own ELSE and its own ENDIF. */
  lemma ScanFindsOwn(code: seq<byte>, pos: nat, hi: nat, n: Node, level: int)
    requires n.If? && NodeAt(code, pos, n) && pos + NodeSize(n) <= hi <= |code|
    ensures Scan(code, pos + 1, hi, level, level, 0)
            == Marks(if n.els.ElseBranch? then ElsePos(pos, n) + 1 else 0, EndifPos(pos, n) + 1)
  {
    hide Scan, NodeAt, ProgAt, NodeSize, Size, WellFormed, ElsePos, EndifPos;
    IfParts(code, pos, n);
    ScanSkips(code, pos + 1, hi, n.thn, level, level, 0);
    ScanMarksElse(code, pos, hi, n, level);
  }

  lemma ScanMarksElse(code: seq<byte>, pos: nat, hi: nat, n: Node, level: int)
    requires n.If? && NodeAt(code, pos, n) && pos + NodeSize(n) <= hi <= |code|
    ensures Scan(code, ElsePos(pos, n), hi, level, level, 0)
            == Marks(if n.els.ElseBranch? then ElsePos(pos, n) + 1 else 0, EndifPos(pos, n) + 1)
  {
    hide Scan, NodeAt, ProgAt, NodeSize, Size, WellFormed, ElsePos, EndifPos;
    IfParts(code, pos, n);
    if n.els.ElseBranch? {
      var els := ElsePos(pos, n) + 1;
      ScanElse(code, ElsePos(pos, n), hi, level, level, 0);
      ScanSkips(code, els, hi, n.els.prog, level, level, els);
      ScanEndif(code, EndifPos(pos, n), hi, level, level, els);
    } else {
      ScanEndif(code, EndifPos(pos, n), hi, level, level, 0);
    }
  }

  // ----- The interpreter runs trees -----

  lemma {:induction false} ExecNode(env: Env, code: seq<byte>, pos: nat, hi: nat, n: Node, st: State)
    requires NodeAt(code, pos, n) && pos + NodeSize(n) <= hi <= |code|
    ensures Exec(env, code, pos, hi, st)
         == Continue(env, code, pos + NodeSize(n), hi, EvalNode(env, n, pos, |code|, st))
    decreases n, 2
  {
    match n
    case PushOp(width, data) =>
      PushExtent(code, pos, hi, width, data);
    case Op(op) =>
    case If(_, _, _) =>
      ExecConditional(env, code, pos, hi, n, st);
  }

  lemma {:induction false} ExecConditional(env: Env, code: seq<byte>, pos: nat, hi: nat, n: Node, st: State)
    requires n.If? && NodeAt(code, pos, n) && pos + NodeSize(n) <= hi <= |code|
    ensures Exec(env, code, pos, hi, st)
         == Continue(env, code, pos + NodeSize(n), hi, EvalNode(env, n, pos, |code|, st))
    decreases n, 1
  {
    hide Exec, Scan, NodeAt, ProgAt, NodeSize, Size, WellFormed, ElsePos, EndifPos;
    IfParts(code, pos, n);
    ScanFindsOwn(code, pos, hi, n, st.depth);
    ExecChosen(env, code, pos, n, st);
    ExecIf(env, code, pos, hi, st, if n.els.ElseBranch? then ElsePos(pos, n) + 1 else 0, EndifPos(pos, n) + 1);
  }

  lemma {:induction false} ExecChosen(env: Env, code: seq<byte>, pos: nat, n: Node, st: State)
    requires n.If? && NodeAt(code, pos, n)
    ensures Chosen(env, code, pos, if n.els.ElseBranch? then ElsePos(pos, n) + 1 else 0, EndifPos(pos, n) + 1, st)
            == EvalChosen(env, n, pos, |code|, st)
    decreases n, 0
  {
    hide Exec, Scan, NodeAt, ProgAt, NodeSize, Size, WellFormed, ElsePos, EndifPos;
    IfParts(code, pos, n);
    ExecBranch(env, code, pos + 1, n.thn, EnterIf(st));
    if n.els.ElseBranch? {
      ExecBranch(env, code, ElsePos(pos, n) + 1, n.els.prog, EnterIf(st));
    }
  }

  /** One conditional opcode, once its marks are known. */
  lemma ExecIf(env: Env, code: seq<byte>, pos: nat, hi: nat, st: State, els: nat, endif: nat)
    requires pos < hi <= |code| && (code[pos] == OP_IF || code[pos] == OP_NOTIF)
    requires Scan(code, pos + 1, hi, st.depth, st.depth, 0) == Marks(els, endif)
    ensures Exec(env, code, pos, hi, st) ==
            if !(1 <= st.depth + 1 <= MAX_IF_DEPTH) then Rejected
            else
              var r := Chosen(env, code, pos, els, endif, st);
              if r.Done? then Exec(env, code, endif, hi, r.st.(depth := r.st.depth - 1)) else r
  {
  }

  lemma {:induction false} ExecBranch(env: Env, code: seq<byte>, pos: nat, p: Prog, st: State)
    requires ProgAt(code, pos, p) && pos + Size(p) <= |code| && WellFormed(p)
    ensures Branch(env, code, pos, pos + Size(p), st) == EvalBranch(env, p, pos, |code|, st)
    decreases p, 1
  {
    if p.Cons? {
      ExecProg(env, code, pos, pos + Size(p), p, st);
    }
  }

  lemma {:induction false} ExecProg(env: Env, code: seq<byte>, pos: nat, hi: nat, p: Prog, st: State)
    requires ProgAt(code, pos, p) && pos + Size(p) <= hi <= |code| && WellFormed(p)
    ensures Exec(env, code, pos, hi, st) == Continue(env, code, pos + Size(p), hi, Eval(env, p, pos, |code|, st))
    decreases p, 0
  {
    hide Exec, NodeAt, EvalNode;
    if p.Cons? {
      assert pos + Size(p) == pos + NodeSize(p.head) + Size(p.tail);
      ExecNode(env, code, pos, hi, p.head, st);
      var r := EvalNode(env, p.head, pos, |code|, st);
      if r.Done? {
        ExecProg(env, code, pos + NodeSize(p.head), hi, p.tail, r.st);
      }
    }
  }

  // ----- Flattening lays a tree out -----

  lemma {:induction false} FlattenNodeSize(n: Node)
    requires WellFormedNode(n)
    ensures |FlattenNode(n)| == NodeSize(n)
  {
    if n.If? {
      FlattenSize(n.thn);
      if n.els.ElseBranch? { FlattenSize(n.els.prog); }
    }
  }

  lemma {:induction false} FlattenSize(p: Prog)
    requires WellFormed(p)
    ensures |Flatten(p)| == Size(p)
  {
    if p.Cons? {
      FlattenNodeSize(p.head);
      FlattenSize(p.tail);
    }
  }

  /** `s` stands at `pos`. */
  ghost predicate At(code: seq<byte>, pos: nat, s: seq<byte>) {
    pos + |s| <= |code| && code[pos..pos + |s|] == s
  }

  lemma AtSplit(code: seq<byte>, pos: nat, a: seq<byte>, b: seq<byte>)
    requires At(code, pos, a + b)
    ensures At(code, pos, a) && At(code, pos + |a|, b)
  {
    var s := code[pos..pos + |a| + |b|];
    assert s[..|a|] == a && s[|a|..] == b;
  }

  lemma AtCons(code: seq<byte>, pos: nat, b: byte, s: seq<byte>)
    requires At(code, pos, [b] + s)
    ensures pos < |code| && code[pos] == b && At(code, pos + 1, s)
  {
    AtSplit(code, pos, [b], s);
    assert code[pos..pos + 1][0] == b;
  }

  lemma AtSlice(code: seq<byte>, pos: nat, s: seq<byte>)
    requires At(code, pos, s)
    ensures pos + |s| <= |code| && code[pos..pos + |s|] == s
  {
  }

  lemma PushAt(code: seq<byte>, pos: nat, width: nat, data: seq<byte>)
    requires WellFormedNode(PushOp(width, data)) && pos + 1 + width + |data| <= |code|
    requires code[pos] == PushCode(width, |data|) && code[pos + 1 + width..pos + 1 + width + |data|] == data
    requires width > 0 ==> SizeField(code, pos + 1, width) == |data|
    ensures NodeAt(code, pos, PushOp(width, data))
  {
    hide SizeField;
    assert NodeSize(PushOp(width, data)) == 1 + width + |data|;
  }

  lemma PushLaidOut(code: seq<byte>, pos: nat, width: nat, data: seq<byte>)
    requires WellFormedNode(PushOp(width, data)) && At(code, pos, FlattenPush(width, data))
    ensures NodeAt(code, pos, PushOp(width, data))
  {
    hide At, ToLE, SizeField, Pow256, NodeAt;
    if width == 0 {
      AtCons(code, pos, |data|, data);
      AtSlice(code, pos + 1, data);
      PushAt(code, pos, width, data);
    } else {
      AtCons(code, pos, PushCode(width, |data|), ToLE(|data|, width) + data);
      AtSplit(code, pos + 1, ToLE(|data|, width), data);
      SizeFieldOf(code, pos + 1, |data|, width);
      AtSlice(code, pos + 1 + width, data);
      PushAt(code, pos, width, data);
    }
  }

  lemma SizeFieldOf(code: seq<byte>, pos: nat, n: nat, width: nat)
    requires (width == 1 || width == 2 || width == 4) && n < Pow256(width) && At(code, pos, ToLE(n, width))
    ensures SizeField(code, pos, width) == n
  {
    forall k | 0 <= k < width ensures code[pos + k] == ToLE(n, width)[k] {
      assert code[pos..pos + width][k] == ToLE(n, width)[k];
    }
    assert Pow256(1) == 256 && Pow256(2) == 65536 && Pow256(3) == 16777216;
    ToLEDigits(n, width);
    if width == 4 {
      assert n == n % 256 + 256 * (n / 256 % 256) + 65536 * (n / 256 / 256 % 256) + 16777216 * (n / 256 / 256 / 256);
    }
  }

  lemma ToLEDigits(n: nat, width: nat)
    requires 1 <= width <= 4
    ensures ToLE(n, width)[0] == n % 256
    ensures width > 1 ==> ToLE(n, width)[1] == n / 256 % 256
    ensures width > 2 ==> ToLE(n, width)[2] == n / 256 / 256 % 256
    ensures width > 3 ==> ToLE(n, width)[3] == n / 256 / 256 / 256 % 256
  {
    assert ToLE(n, width)[1..] == ToLE(n / 256, width - 1);
    if width > 1 { ToLEDigits(n / 256, width - 1); }
  }

  lemma {:induction false} ElseLaidOut(code: seq<byte>, pos: nat, n: Node)
    requires n.If? && WellFormedNode(n) && At(code, ElsePos(pos, n), FlattenElse(n.els) + [OP_ENDIF])
    ensures n.els.ElseBranch? ==> code[ElsePos(pos, n)] == OP_ELSE && ProgAt(code, ElsePos(pos, n) + 1, n.els.prog)
    ensures EndifPos(pos, n) < |code| && code[EndifPos(pos, n)] == OP_ENDIF
    decreases n, 0
  {
    hide At, ProgAt, Flatten, WellFormed, Size;
    var q := ElsePos(pos, n);
    AtSplit(code, q, FlattenElse(n.els), [OP_ENDIF]);
    assert [OP_ENDIF] + [] == [OP_ENDIF];
    AtCons(code, q + |FlattenElse(n.els)|, OP_ENDIF, []);
    if n.els.ElseBranch? {
      FlattenSize(n.els.prog);
      AtCons(code, q, OP_ELSE, Flatten(n.els.prog));
      LaidOut(code, q + 1, n.els.prog);
    }
    assert q + |FlattenElse(n.els)| == EndifPos(pos, n);
  }

  lemma {:induction false} NodeLaidOut(code: seq<byte>, pos: nat, n: Node)
    requires WellFormedNode(n) && At(code, pos, FlattenNode(n))
    ensures NodeAt(code, pos, n)
    decreases n, 2
  {
    match n
    case PushOp(width, data) =>
      PushLaidOut(code, pos, width, data);
    case Op(op) =>
      assert [op] + [] == [op];
      AtCons(code, pos, op, []);
    case If(_, _, _) =>
      IfLaidOut(code, pos, n);
  }

  lemma {:induction false} IfLaidOut(code: seq<byte>, pos: nat, n: Node)
    requires n.If? && WellFormedNode(n) && At(code, pos, FlattenNode(n))
    ensures NodeAt(code, pos, n)
    decreases n, 1
  {
    hide At, Flatten, WellFormed, ProgAt, Size;
    var tail := FlattenElse(n.els) + [OP_ENDIF];
    FlattenSize(n.thn);
    assert pos + 1 + Size(n.thn) == ElsePos(pos, n);
    AtCons(code, pos, if n.negated then OP_NOTIF else OP_IF, Flatten(n.thn) + tail);
    AtSplit(code, pos + 1, Flatten(n.thn), tail);
    LaidOut(code, pos + 1, n.thn);
    ElseLaidOut(code, pos, n);
  }

  lemma {:induction false} LaidOut(code: seq<byte>, pos: nat, p: Prog)
    requires WellFormed(p) && At(code, pos, Flatten(p))
    ensures ProgAt(code, pos, p)
    decreases p, 0
  {
    if p.Cons? {
      FlattenNodeSize(p.head);
      AtSplit(code, pos, FlattenNode(p.head), Flatten(p.tail));
      NodeLaidOut(code, pos, p.head);
      LaidOut(code, pos + NodeSize(p.head), p.tail);
    }
  }

  /** Running the bytes of a script tree is evaluating the tree. */
  lemma FlattenedRun(env: Env, p: Prog, st: State)
    requires WellFormed(p)
    ensures Exec(env, Flatten(p), 0, |Flatten(p)|, st) == Eval(env, p, 0, |Flatten(p)|, st)
  {
    FlattenSize(p);
    LaidOut(Flatten(p), 0, p);
    ExecProg(env, Flatten(p), 0, |Flatten(p)|, p, st);
  }

  // ----- Nesting -----

  lemma ExecPlain(env: Env, code: seq<byte>, lo: nat, hi: nat, st: State)
    requires lo < hi <= |code| && !IsPush(code[lo]) && !IsControl(code[lo])
    ensures Exec(env, code, lo, hi, st) == Continue(env, code, lo + 1, hi, ExecOp(env, code[lo], lo + 1, |code|, st))
  {
  }

  lemma ExecPushed(env: Env, code: seq<byte>, lo: nat, hi: nat, st: State, start: nat, size: nat)
    requires lo < hi <= |code| && 0 < code[lo] < OP_PUSHDATA4 && start + size <= hi
    requires ReadPush(code, code[lo], lo + 1, hi) == Field(start, size)
    ensures Exec(env, code, lo, hi, st)
         == Continue(env, code, start + size, hi, Push(st, Data(code[start..start + size])))
  {
  }

  lemma ExecShared(env: Env, code: seq<byte>, lo: nat, hi: nat, st: State)
    requires lo < hi <= |code| && code[lo] == 0
    ensures Exec(env, code, lo, hi, st) == Continue(env, code, lo + 1, hi, Push(st, Truth(false)))
  {
  }

  /** What a run that ends in a state has at its first opcode. */
  lemma ExecFirst(env: Env, code: seq<byte>, lo: nat, hi: nat, st: State)
    requires lo < hi <= |code| && Exec(env, code, lo, hi, st).Done?
    ensures var op := code[lo];
      && op != OP_ELSE && op != OP_ENDIF
      && (IsPush(op) && op != 0 ==>
            && op < OP_PUSHDATA4
            && var f := ReadPush(code, op, lo + 1, hi); f.Field? && f.start + f.size <= hi)
      && (op == OP_IF || op == OP_NOTIF ==> Scan(code, lo + 1, hi, st.depth, st.depth, 0).Marks?)
  {
  }

  lemma EmptyRun(env: Env, code: seq<byte>, lo: nat, st: State)
    requires lo <= |code|
    ensures Exec(env, code, lo, lo, st) == Done(st)
  {
  }

  /** A successful run leaves the counter `levels` higher and the stack within its capacity. */
  predicate Keeps(st: State, r: Outcome, levels: int) {
    r.Done? ==>
      && r.st.depth == st.depth + levels
      && (|st.stack| <= STACK_CAPACITY ==> |r.st.stack| <= STACK_CAPACITY)
  }

  lemma OpKeeps(env: Env, op: byte, next: nat, end: nat, st: State)
    ensures Keeps(st, ExecOp(env, op, next, end, st), 0)
  {
  }

  lemma {:induction false} ContinueKeeps(env: Env, code: seq<byte>, lo: nat, next: nat, hi: nat, st: State, r: Outcome)
    requires lo < next <= hi <= |code| && Keeps(st, r, 0)
    ensures Keeps(st, Continue(env, code, next, hi, r), 0)
    decreases hi - lo, 0
  {
    if r.Done? { ExecRestoresDepth(env, code, next, hi, r.st); }
  }

  /** On any bytes at all, a successful run restores the nesting counter and keeps the stack in bounds. */
  lemma {:induction false} ExecRestoresDepth(env: Env, code: seq<byte>, lo: nat, hi: nat, st: State)
    requires lo <= hi <= |code|
    ensures Keeps(st, Exec(env, code, lo, hi, st), 0)
    decreases hi - lo, 1
  {
    hide Exec, ExecOp, Scan, ReadPush;
    if lo < hi && Exec(env, code, lo, hi, st).Done? {
      var op := code[lo];
      ExecFirst(env, code, lo, hi, st);
      if op == 0 {
        ExecShared(env, code, lo, hi, st);
        ContinueKeeps(env, code, lo, lo + 1, hi, st, Push(st, Truth(false)));
      } else if IsPush(op) {
        var f := ReadPush(code, op, lo + 1, hi);
        ExecPushed(env, code, lo, hi, st, f.start, f.size);
        ContinueKeeps(env, code, lo, f.start + f.size, hi, st, Push(st, Data(code[f.start..f.start + f.size])));
      } else if op == OP_IF || op == OP_NOTIF {
        var m := Scan(code, lo + 1, hi, st.depth, st.depth, 0);
        ExecIf(env, code, lo, hi, st, m.els, m.endif);
        ChosenRestoresDepth(env, code, lo, m.els, m.endif, st);
        var r := Chosen(env, code, lo, m.els, m.endif, st);
        ExecRestoresDepth(env, code, m.endif, hi, r.st.(depth := r.st.depth - 1));
      } else {
        ExecPlain(env, code, lo, hi, st);
        OpKeeps(env, op, lo + 1, |code|, st);
        ContinueKeeps(env, code, lo, lo + 1, hi, st, ExecOp(env, op, lo + 1, |code|, st));
      }
    } else if lo == hi {
      EmptyRun(env, code, lo, st);
    }
  }

  lemma {:induction false} ChosenRestoresDepth(env: Env, code: seq<byte>, lo: nat, els: nat, endif: nat, st: State)
    requires lo + 1 < endif <= |code| && (els == 0 || lo + 1 < els < endif)
    ensures Keeps(st, Chosen(env, code, lo, els, endif, st), 1)
    decreases endif - lo - 1, 2
  {
    var inside := EnterIf(st);
    if TakesFirst(code[lo], st.stack) {
      var end := if els > 0 then els - 1 else endif - 1;
      if lo + 1 < end { ExecRestoresDepth(env, code, lo + 1, end, inside); }
    } else if els > 0 && els < endif - 1 {
      ExecRestoresDepth(env, code, els, endif - 1, inside);
    }
  }

  /** How deep conditionals nest in a tree. */
  function NodeNesting(n: Node): nat {
    if !n.If? then 0
    else 1 + Max(Nesting(n.thn), if n.els.ElseBranch? then Nesting(n.els.prog) else 0)
  }

  function Nesting(p: Prog): nat {
    if p.Nil? then 0 else Max(NodeNesting(p.head), Nesting(p.tail))
  }

  function Max(a: nat, b: nat): nat {
    if a < b then b else a
  }

  /** The same outcome, up to the nesting counter that both runs keep. */
  predicate SameUpToDepth(r: Outcome, r': Outcome, depth: int, depth': int) {
    if r.Done? then r' == Done(r.st.(depth := depth')) && r.st.depth == depth else r' == r
  }

  /** Within the nesting limit the meaning of a tree does not depend on where the counter stands: the
      limit rejects exactly the trees that nest too deeply, never one that fits. */
  lemma {:induction false} EvalIgnoresDepth(env: Env, p: Prog, pos: nat, end: nat, st: State, depth: int)
    requires WellFormed(p)
    requires 0 <= st.depth && st.depth + Nesting(p) <= MAX_IF_DEPTH
    requires 0 <= depth && depth + Nesting(p) <= MAX_IF_DEPTH
    ensures SameUpToDepth(Eval(env, p, pos, end, st), Eval(env, p, pos, end, st.(depth := depth)), st.depth, depth)
    decreases p, 0
  {
    if p.Cons? {
      EvalNodeIgnoresDepth(env, p.head, pos, end, st, depth);
      var r := EvalNode(env, p.head, pos, end, st);
      if r.Done? {
        EvalIgnoresDepth(env, p.tail, pos + NodeSize(p.head), end, r.st, depth);
      }
    }
  }

  lemma {:induction false} EvalNodeIgnoresDepth(env: Env, n: Node, pos: nat, end: nat, st: State, depth: int)
    requires WellFormedNode(n)
    requires 0 <= st.depth && st.depth + NodeNesting(n) <= MAX_IF_DEPTH
    requires 0 <= depth && depth + NodeNesting(n) <= MAX_IF_DEPTH
    ensures SameUpToDepth(EvalNode(env, n, pos, end, st), EvalNode(env, n, pos, end, st.(depth := depth)),
                          st.depth, depth)
    decreases n, 2
  {
    match n
    case PushOp(_, _) =>
    case Op(op) =>
    case If(_, _, _) =>
      ChosenIgnoresDepth(env, n, pos, end, st, depth);
  }

  lemma {:induction false} ChosenIgnoresDepth(env: Env, n: Node, pos: nat, end: nat, st: State, depth: int)
    requires n.If? && WellFormedNode(n)
    requires 0 <= st.depth && st.depth + NodeNesting(n) <= MAX_IF_DEPTH
    requires 0 <= depth && depth + NodeNesting(n) <= MAX_IF_DEPTH
    ensures SameUpToDepth(EvalChosen(env, n, pos, end, st), EvalChosen(env, n, pos, end, st.(depth := depth)),
                          st.depth + 1, depth + 1)
    decreases n, 1
  {
    var inside := EnterIf(st);
    assert EnterIf(st.(depth := depth)) == inside.(depth := depth + 1);
    if VerifyOk(st.stack) != n.negated {
      BranchIgnoresDepth(env, n.thn, pos + 1, end, inside, depth + 1);
    } else if n.els.ElseBranch? {
      BranchIgnoresDepth(env, n.els.prog, ElsePos(pos, n) + 1, end, inside, depth + 1);
    }
  }

  lemma {:induction false} BranchIgnoresDepth(env: Env, p: Prog, pos: nat, end: nat, st: State, depth: int)
    requires WellFormed(p)
    requires 0 <= st.depth && st.depth + Nesting(p) <= MAX_IF_DEPTH
    requires 0 <= depth && depth + Nesting(p) <= MAX_IF_DEPTH
    ensures SameUpToDepth(EvalBranch(env, p, pos, end, st), EvalBranch(env, p, pos, end, st.(depth := depth)),
                          st.depth, depth)
    decreases p, 1
  {
    EvalIgnoresDepth(env, p, pos, end, st, depth);
  }

  // ----- Two scripts that end the process -----

  /** Two empty pushes compared: both are the same shared object. */
  lemma EqualFlagsExample(env: Env)
    ensures Exec(env, [0, 0, OP_EQUAL], 0, 3, State([], 0, 0)) == Halted
  {
    var code := [0, 0, OP_EQUAL];
    var st1, st2 := State([Truth(false)], 0, 0), State([Truth(false), Truth(false)], 0, 0);
    assert Push(State([], 0, 0), Truth(false)) == Done(st1);
    assert Push(st1, Truth(false)) == Done(st2);
    assert Rest(st2.stack) == [Truth(false)];
    assert ExecOp(env, OP_EQUAL, 3, 3, st2) == Halted;
    assert Exec(env, code, 2, 3, st2) == Halted;
    assert Exec(env, code, 1, 3, st1) == Halted;
  }

  lemma CopyEmpty(env: Env, next: nat, end: nat)
    ensures ExecOp(env, OP_DUP, next, end, State([Data([])], 0, 0)) == Halted
  {
    var st := State([Data([])], 0, 0);
    assert st.stack != [] && Top(st.stack) == Data([]);
  }

  /** An empty push by length byte, copied. */
  lemma CopyEmptyExample(env: Env)
    ensures Exec(env, [OP_PUSHDATA1, 0, OP_DUP], 0, 3, State([], 0, 0)) == Halted
  {
    hide Exec, ExecOp;
    var code := [OP_PUSHDATA1, 0, OP_DUP];
    var none, one := State([], 0, 0), State([Data([])], 0, 0);
    assert ReadPush(code, OP_PUSHDATA1, 1, 3) == Field(2, 0);
    assert Push(none, Data([])) == Done(one);
    assert code[2..2] == [];
    ExecPushed(env, code, 0, 3, none, 2, 0);
    CopyEmpty(env, 3, 3);
    ExecPlain(env, code, 2, 3, one);
  }
}
