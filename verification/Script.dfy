/** The script interpreter: what running the bytes code[lo..hi] does, position by position. */
module Script {
  import opened Bytes

  const OP_PUSHDATA1: byte := 0x4c
  const OP_PUSHDATA2: byte := 0x4d
  const OP_PUSHDATA4: byte := 0x4e
  const OP_1: byte := 0x51
  const OP_16: byte := 0x60
  const OP_NOP: byte := 0x61
  const OP_IF: byte := 0x63
  const OP_NOTIF: byte := 0x64
  const OP_ELSE: byte := 0x67
  const OP_ENDIF: byte := 0x68
  const OP_VERIFY: byte := 0x69
  const OP_RETURN: byte := 0x6a
  const OP_DUP: byte := 0x76
  const OP_EQUAL: byte := 0x87
  const OP_EQUALVERIFY: byte := 0x88
  const OP_RIPEMD160: byte := 0xa6
  const OP_SHA256: byte := 0xa8
  const OP_HASH160: byte := 0xa9
  const OP_HASH256: byte := 0xaa
  const OP_CODESEPARATOR: byte := 0xab
  const OP_CHECKSIG: byte := 0xac
  const OP_CHECKSIGVERIFY: byte := 0xad
  const OP_CHECKMULTISIG: byte := 0xae
  const OP_NOP1: byte := 0xb0
  const OP_NOP4: byte := 0xb3
  const OP_NOP10: byte := 0xb9

  const MAX_IF_DEPTH := 256
  const STACK_CAPACITY := 64

  /** A stack item, by the type tag under which it was pushed. A boolean is one of two shared objects, unless it is
      the copy that OP_DUP makes. */
  datatype Item = Bool(b: bool, shared: bool) | Small(v: byte) | Hash(h: seq<byte>) | Data(d: seq<byte>)

  /** `sep` is the position after the last executed code separator. */
  datatype State = State(stack: seq<Item>, depth: int, sep: nat)

  /** Rejected is the error return; Halted is a failed assertion of the interpreter, the freeing of a shared
      object, or a push beyond the capacity of the stack. */
  datatype Outcome = Done(st: State) | Rejected | Halted

  datatype SigEffect = SigDone(stack: seq<Item>) | SigFailed | SigHalted

  /** What the interpreter takes from outside: the hash functions by opcode, and what the signature
      opcodes do to the stack given the code separator. */
  datatype Env = Env(hash: (byte, seq<byte>) -> seq<byte>, sig: (byte, seq<Item>, nat) -> SigEffect, hasRedeem: bool)

  function Push(st: State, x: Item): Outcome {
    if |st.stack| >= STACK_CAPACITY then Halted else Done(st.(stack := st.stack + [x]))
  }

  /** What an opcode pushes as its verdict. */
  function Truth(b: bool): Item {
    Bool(b, true)
  }

  function Top(s: seq<Item>): Item
    requires s != []
  {
    s[|s| - 1]
  }

  function Rest(s: seq<Item>): seq<Item>
    requires s != []
  {
    s[..|s| - 1]
  }

  /** scripts_verify accepts a true boolean or a non-zero small number, and nothing else. */
  predicate Accepts(x: Item) {
    match x
    case Bool(b, _) => b
    case Small(v) => v != 0
    case _ => false
  }

  predicate VerifyOk(s: seq<Item>) {
    s != [] && Accepts(Top(s))
  }

  function AfterVerify(s: seq<Item>): seq<Item> {
    if s == [] then [] else Rest(s)
  }

  /** The bytes of an item as the hash opcodes see them: small numbers are widened to eight bytes. */
  function HashedBytes(x: Item): seq<byte> {
    match x
    case Bool(b, _) => [if b then 1 else 0]
    case Small(v) => [v, 0, 0, 0, 0, 0, 0, 0]
    case Hash(h) => h
    case Data(d) => d
  }

  /** The bytes of an item as the comparison opcodes see them. */
  function ComparedBytes(x: Item): seq<byte> {
    match x
    case Bool(b, _) => [if b then 1 else 0]
    case Small(v) => [v]
    case Hash(h) => h
    case Data(d) => d
  }

  /** Empty items are never equal, not even to each other. */
  predicate SameItem(x: Item, y: Item) {
    ComparedBytes(x) != [] && ComparedBytes(x) == ComparedBytes(y)
  }

  /** OP_EQUAL frees both items, and a shared boolean must not be freed. */
  predicate FreesShared(x: Item, y: Item) {
    (x.Bool? && x.shared) || (y.Bool? && y.shared)
  }

  /** The copy that OP_DUP makes; copying an item without bytes fails an assertion. */
  function Copied(x: Item): Item {
    if x.Bool? then Bool(x.b, false) else x
  }

  predicate IsPush(op: byte) {
    op <= OP_PUSHDATA4
  }

  predicate IsControl(op: byte) {
    op == OP_IF || op == OP_NOTIF || op == OP_ELSE || op == OP_ENDIF
  }

  predicate IsIgnored(op: byte) {
    op == OP_NOP || op == OP_RETURN || op == OP_NOP1 || OP_NOP4 <= op <= OP_NOP10
  }

  /** Every opcode that neither pushes inline data nor controls branches; `next` is the position after it
      and `end` the end of the whole script. */
  function ExecOp(env: Env, op: byte, next: nat, end: nat, st: State): Outcome {
    var s := st.stack;
    if OP_1 <= op <= OP_16 then Push(st, Small(op - (OP_1 - 1)))
    else if op == OP_RIPEMD160 || op == OP_SHA256 || op == OP_HASH160 || op == OP_HASH256 then
      if s == [] then Rejected else Push(st.(stack := Rest(s)), Hash(env.hash(op, HashedBytes(Top(s)))))
    else if op == OP_DUP then
      if s == [] then Rejected else if Top(s) == Data([]) then Halted else Push(st, Copied(Top(s)))
    else if op == OP_EQUALVERIFY then
      if |s| < 2 then Rejected
      else if FreesShared(Top(s), Top(Rest(s))) then Halted
      else if !SameItem(Top(s), Top(Rest(s))) then Rejected
      else Done(st.(stack := Rest(Rest(s))))
    else if op == OP_EQUAL then
      if |s| < 2 then Push(st, Truth(false))
      else if FreesShared(Top(s), Top(Rest(s))) then Halted
      else Push(st.(stack := Rest(Rest(s))), Truth(SameItem(Top(s), Top(Rest(s)))))
    else if op == OP_CHECKSIG || op == OP_CHECKSIGVERIFY || op == OP_CHECKMULTISIG then
      match env.sig(op, s, st.sep)
      case SigDone(s') => if |s'| > STACK_CAPACITY then Halted else Done(st.(stack := s'))
      case SigFailed => Rejected
      case SigHalted => Halted
    else if op == OP_VERIFY then
      if VerifyOk(s) then Done(st.(stack := Rest(s))) else Rejected
    else if op == OP_CODESEPARATOR then
      if !env.hasRedeem then Rejected else if next >= end then Halted else Done(st.(sep := next))
    else if IsIgnored(op) then Done(st)
    else Rejected
  }

  /** Where the inline data of a push opcode starts and how long it is, if its length field is complete. */
  datatype PushField = NoField | Field(start: nat, size: nat)

  function ReadPush(code: seq<byte>, op: byte, pos: nat, hi: nat): (f: PushField)
    requires IsPush(op) && pos <= hi <= |code|
    ensures f.Field? ==> pos <= f.start <= hi
  {
    if op < OP_PUSHDATA1 then Field(pos, op)
    else
      var width := if op == OP_PUSHDATA1 then 1 else if op == OP_PUSHDATA2 then 2 else 4;
      if pos + width > hi then NoField else Field(pos + width, SizeField(code, pos, width))
  }

  /** A little-endian length of one, two or four bytes. */
  function SizeField(code: seq<byte>, pos: nat, width: nat): nat
    requires pos + width <= |code| && (width == 1 || width == 2 || width == 4)
  {
    var b0: int := code[pos];
    if width == 1 then b0
    else
      var b1: int := code[pos + 1];
      if width == 2 then b0 + 256 * b1
      else
        var b2: int, b3: int := code[pos + 2], code[pos + 3];
        b0 + 256 * b1 + 65536 * b2 + 16777216 * b3
  }

  // ----- Finding the ENDIF -----

  datatype Marks = NoMarks | Marks(els: nat, endif: nat)

  /** How the scan reads the opcode at a position; a push is skipped together with its data. */
  datatype ScanKind = Opens | Alternates | Closes | Skips(next: nat) | Breaks

  function KindAt(code: seq<byte>, p: nat, hi: nat): (k: ScanKind)
    requires p < hi <= |code|
    ensures k.Skips? ==> k.next > p
  {
    var op := code[p];
    if op == OP_IF || op == OP_NOTIF then Opens
    else if op == OP_ELSE then Alternates
    else if op == OP_ENDIF then Closes
    else if IsPush(op) then
      match ReadPush(code, op, p + 1, hi)
      case NoField => Breaks
      case Field(start, size) => Skips(start + size)
    else Skips(p + 1)
  }

  /** The scan for the ENDIF at nesting `level`, from `p` where the nesting is `depth`. `els` is the position
      after the last ELSE seen at that level, 0 if there was none. */
  function Scan(code: seq<byte>, p: nat, hi: nat, depth: int, level: int, els: nat): (m: Marks)
    requires hi <= |code| && els <= p
    ensures m.Marks? ==> p < m.endif <= hi && m.els < m.endif && (m.els == els || m.els > p)
    decreases hi - p
  {
    if p >= hi then NoMarks
    else
      match KindAt(code, p, hi)
      case Opens => Scan(code, p + 1, hi, depth + 1, level, els)
      case Alternates => Scan(code, p + 1, hi, depth, level, if depth == level then p + 1 else els)
      case Closes => if depth == level then Marks(els, p + 1) else Scan(code, p + 1, hi, depth - 1, level, els)
      case Skips(next) => Scan(code, next, hi, depth, level, els)
      case Breaks => NoMarks
  }

  /** The state in which the chosen branch runs: one level deeper, the condition popped. */
  function EnterIf(st: State): State {
    st.(depth := st.depth + 1, stack := AfterVerify(st.stack))
  }

  predicate TakesFirst(op: byte, s: seq<Item>) {
    (op == OP_IF) == VerifyOk(s)
  }

  // ----- Running -----

  /** scripts_parse from position `lo` of a payload that ends at `hi`. */
  function Exec(env: Env, code: seq<byte>, lo: nat, hi: nat, st: State): Outcome
    requires lo <= hi <= |code|
    decreases hi - lo, 0
  {
    if lo == hi then Done(st)
    else
      var op := code[lo];
      if op == 0 then Continue(env, code, lo + 1, hi, Push(st, Truth(false)))
      else if IsPush(op) then
        if op == OP_PUSHDATA4 then Halted
        else
          match ReadPush(code, op, lo + 1, hi)
          case NoField => Rejected
          case Field(start, size) =>
            if start + size > hi then Rejected
            else Continue(env, code, start + size, hi, Push(st, Data(code[start..start + size])))
      else if op == OP_IF || op == OP_NOTIF then
        if !(1 <= st.depth + 1 <= MAX_IF_DEPTH) then Rejected
        else
          match Scan(code, lo + 1, hi, st.depth, st.depth, 0)
          case NoMarks => Rejected
          case Marks(els, endif) =>
            var r := Chosen(env, code, lo, els, endif, st);
            if r.Done? then Exec(env, code, endif, hi, r.st.(depth := r.st.depth - 1)) else r
      else if op == OP_ELSE || op == OP_ENDIF then Rejected
      else Continue(env, code, lo + 1, hi, ExecOp(env, op, lo + 1, |code|, st))
  }

  function Continue(env: Env, code: seq<byte>, lo: nat, hi: nat, r: Outcome): Outcome
    requires lo <= hi <= |code|
    decreases hi - lo, 1
  {
    if r.Done? then Exec(env, code, lo, hi, r.st) else r
  }

  /** The branch of the conditional at `lo` that its condition selects, if there is one. */
  function Chosen(env: Env, code: seq<byte>, lo: nat, els: nat, endif: nat, st: State): Outcome
    requires lo + 1 < endif <= |code| && (els == 0 || lo + 1 < els < endif)
    decreases endif - 1 - lo, 2
  {
    if TakesFirst(code[lo], st.stack) then
      Branch(env, code, lo + 1, if els > 0 then els - 1 else endif - 1, EnterIf(st))
    else if els > 0 then Branch(env, code, els, endif - 1, EnterIf(st))
    else Done(EnterIf(st))
  }

  /** A nested payload must not be empty. */
  function Branch(env: Env, code: seq<byte>, lo: nat, hi: nat, st: State): Outcome
    requires hi <= |code|
    decreases hi - lo, 1
  {
    if lo >= hi then Halted else Exec(env, code, lo, hi, st)
  }
}
