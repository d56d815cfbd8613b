/** What each opcode does to a stack, item by item, by its number in the bytes of a script. */
module Opcodes {
  import opened Bytes
  import opened Script
  import opened ScriptTree

  /** Which two items the comparison takes for the same. Strings and hashes are their bytes, a boolean and a small
      number are one byte, and an empty string is not even the same as itself. */
  predicate Alike(x: Item, y: Item) {
    match x
    case Data(a) =>
      (match y
       case Data(b) => a == b != []
       case Hash(b) => a == b != []
       case Small(w) => a == [w]
       case Bool(t, _) => a == [if t then 1 else 0])
    case Hash(a) =>
      (match y
       case Data(b) => a == b != []
       case Hash(b) => a == b != []
       case Small(w) => a == [w]
       case Bool(t, _) => a == [if t then 1 else 0])
    case Small(v) =>
      (match y
       case Data(b) => [v] == b
       case Hash(b) => [v] == b
       case Small(w) => v == w
       case Bool(t, _) => v == if t then 1 else 0)
    case Bool(u, _) =>
      (match y
       case Data(b) => [if u then 1 else 0] == b
       case Hash(b) => [if u then 1 else 0] == b
       case Small(w) => w == if u then 1 else 0
       case Bool(t, _) => u == t)
  }

  lemma AlikeItems(x: Item, y: Item)
    ensures SameItem(x, y) <==> Alike(x, y)
  {
  }

  /** A true boolean or a small number that is not zero. */
  predicate IsTrue(x: Item) {
    x == Bool(true, true) || x == Bool(true, false) || (x.Small? && x.v != 0)
  }

  lemma TrueItems(x: Item)
    ensures Accepts(x) <==> IsTrue(x)
  {
  }

  // ----- Comparison -----

  /** OP_EQUALVERIFY, 0x88: two items are taken off when they are alike, and the run ends otherwise. */
  lemma EqualVerifyRun(env: Env, code: seq<byte>, lo: nat, hi: nat, st: State)
    requires lo < hi <= |code| && code[lo] == 0x88
    ensures var s, n := st.stack, |st.stack|;
      Exec(env, code, lo, hi, st) ==
      if n < 2 then Rejected
      else if (s[n - 1].Bool? && s[n - 1].shared) || (s[n - 2].Bool? && s[n - 2].shared) then Halted
      else if Alike(s[n - 1], s[n - 2]) then Exec(env, code, lo + 1, hi, st.(stack := s[..n - 2]))
      else Rejected
  {
    hide Exec, SameItem, Alike;
    ExecPlain(env, code, lo, hi, st);
    var s, n := st.stack, |st.stack|;
    if n >= 2 {
      AlikeItems(s[n - 1], s[n - 2]);
      TwoOff(s);
    }
  }

  /** Two strings: exactly when they are the same and not empty. */
  lemma EqualVerifyStrings(env: Env, code: seq<byte>, lo: nat, hi: nat, st: State, s: seq<Item>,
                           x: seq<byte>, y: seq<byte>)
    requires lo < hi <= |code| && code[lo] == 0x88 && st.stack == s + [Data(x), Data(y)]
    ensures Exec(env, code, lo, hi, st) ==
            if x == y != [] then Exec(env, code, lo + 1, hi, st.(stack := s)) else Rejected
  {
    hide Exec;
    EqualVerifyRun(env, code, lo, hi, st);
    assert st.stack[..|s|] == s;
  }

  /** OP_EQUAL, 0x87: the verdict is pushed in place of the two items, and on top of what is there if there are
      fewer. */
  lemma EqualRun(env: Env, code: seq<byte>, lo: nat, hi: nat, st: State)
    requires lo < hi <= |code| && code[lo] == 0x87 && |st.stack| <= 64
    ensures var s, n := st.stack, |st.stack|;
      Exec(env, code, lo, hi, st) ==
      if n < 2 then Exec(env, code, lo + 1, hi, st.(stack := s + [Bool(false, true)]))
      else if (s[n - 1].Bool? && s[n - 1].shared) || (s[n - 2].Bool? && s[n - 2].shared) then Halted
      else Exec(env, code, lo + 1, hi, st.(stack := s[..n - 2] + [Bool(Alike(s[n - 1], s[n - 2]), true)]))
  {
    hide Exec, SameItem, Alike;
    ExecPlain(env, code, lo, hi, st);
    var s, n := st.stack, |st.stack|;
    if n >= 2 {
      AlikeItems(s[n - 1], s[n - 2]);
      TwoOff(s);
    }
  }

  lemma EqualStrings(env: Env, code: seq<byte>, lo: nat, hi: nat, st: State, s: seq<Item>,
                     x: seq<byte>, y: seq<byte>)
    requires lo < hi <= |code| && code[lo] == 0x87 && st.stack == s + [Data(x), Data(y)] && |s| <= 62
    ensures Exec(env, code, lo, hi, st)
         == Exec(env, code, lo + 1, hi, st.(stack := s + [Bool(x == y != [], true)]))
  {
    hide Exec;
    EqualRun(env, code, lo, hi, st);
    assert st.stack[..|s|] == s;
  }

  lemma TwoOff(s: seq<Item>)
    requires |s| >= 2
    ensures Rest(Rest(s)) == s[..|s| - 2] && Top(s) == s[|s| - 1] && Top(Rest(s)) == s[|s| - 2]
  {
  }

  // ----- Verdicts -----

  /** OP_VERIFY, 0x69. */
  lemma VerifyRun(env: Env, code: seq<byte>, lo: nat, hi: nat, st: State)
    requires lo < hi <= |code| && code[lo] == 0x69
    ensures var s, n := st.stack, |st.stack|;
      Exec(env, code, lo, hi, st) ==
      if n > 0 && IsTrue(s[n - 1]) then Exec(env, code, lo + 1, hi, st.(stack := s[..n - 1])) else Rejected
  {
    hide Exec;
    ExecPlain(env, code, lo, hi, st);
    if st.stack != [] { TrueItems(Top(st.stack)); }
  }

  // ----- Hashes and copies -----

  /** The hash opcodes replace the item on top: RIPEMD160, SHA256, HASH160 and HASH256 by their numbers. */
  lemma HashRun(env: Env, code: seq<byte>, lo: nat, hi: nat, st: State)
    requires lo < hi <= |code| && code[lo] in {0xa6, 0xa8, 0xa9, 0xaa} && |st.stack| <= 64
    ensures var s, n := st.stack, |st.stack|;
      Exec(env, code, lo, hi, st) ==
      if n == 0 then Rejected
      else
        var bytes := match s[n - 1]
          case Data(d) => d
          case Hash(h) => h
          case Small(v) => [v, 0, 0, 0, 0, 0, 0, 0]
          case Bool(t, _) => [if t then 1 else 0];
        Exec(env, code, lo + 1, hi, st.(stack := s[..n - 1] + [Hash(env.hash(code[lo], bytes))]))
  {
    hide Exec;
    ExecPlain(env, code, lo, hi, st);
  }

  /** OP_DUP, 0x76: an empty string cannot be copied, and the copy of a boolean is not shared. */
  lemma DupRun(env: Env, code: seq<byte>, lo: nat, hi: nat, st: State)
    requires lo < hi <= |code| && code[lo] == 0x76
    ensures var s, n := st.stack, |st.stack|;
      Exec(env, code, lo, hi, st) ==
      if n == 0 then Rejected
      else if s[n - 1] == Data([]) || n >= 64 then Halted
      else
        var copy := if s[n - 1].Bool? then Bool(s[n - 1].b, false) else s[n - 1];
        Exec(env, code, lo + 1, hi, st.(stack := s + [copy]))
  {
    hide Exec;
    ExecPlain(env, code, lo, hi, st);
  }

  // ----- Pushes -----

  /** OP_1 to OP_16, 0x51 to 0x60: the number. */
  lemma NumberRun(env: Env, code: seq<byte>, lo: nat, hi: nat, st: State)
    requires lo < hi <= |code| && 0x51 <= code[lo] <= 0x60
    ensures Exec(env, code, lo, hi, st) ==
      if |st.stack| >= 64 then Halted
      else Exec(env, code, lo + 1, hi, st.(stack := st.stack + [Small(code[lo] - 0x50)]))
  {
    hide Exec;
    ExecPlain(env, code, lo, hi, st);
  }

  /** A length byte below 0x4c, or 0x4c and one, or 0x4d and two bytes of length. */
  predicate PushPrefix(prefix: seq<byte>, n: nat) {
    || (1 <= n < 0x4c && prefix == [n])
    || (n < 0x100 && prefix == [0x4c, n])
    || (n < 0x1_0000 && prefix == [0x4d, n % 0x100, n / 0x100])
  }

  lemma PrefixRead(code: seq<byte>, lo: nat, hi: nat, prefix: seq<byte>, d: seq<byte>)
    requires PushPrefix(prefix, |d|) && lo + |prefix| + |d| <= hi <= |code|
    requires code[lo..lo + |prefix|] == prefix
    ensures 0 < code[lo] < OP_PUSHDATA4
    ensures ReadPush(code, code[lo], lo + 1, hi) == Field(lo + |prefix|, |d|)
  {
    var p := code[lo..lo + |prefix|];
    assert code[lo] == p[0];
    if |prefix| > 1 { assert code[lo + 1] == p[1]; }
    if |prefix| > 2 { assert code[lo + 2] == p[2]; }
  }

  /** The bytes behind the prefix are pushed and skipped. */
  lemma PushRun(env: Env, code: seq<byte>, lo: nat, hi: nat, st: State, prefix: seq<byte>, d: seq<byte>)
    requires PushPrefix(prefix, |d|) && lo + |prefix| + |d| <= hi <= |code|
    requires code[lo..lo + |prefix|] == prefix && code[lo + |prefix|..lo + |prefix| + |d|] == d
    ensures Exec(env, code, lo, hi, st) ==
      if |st.stack| >= 64 then Halted
      else Exec(env, code, lo + |prefix| + |d|, hi, st.(stack := st.stack + [Data(d)]))
  {
    hide Exec, ReadPush, PushPrefix;
    PrefixRead(code, lo, hi, prefix, d);
    ExecPushed(env, code, lo, hi, st, lo + |prefix|, |d|);
  }

  /** The byte zero pushes the shared false. */
  lemma FalseRun(env: Env, code: seq<byte>, lo: nat, hi: nat, st: State)
    requires lo < hi <= |code| && code[lo] == 0
    ensures Exec(env, code, lo, hi, st) ==
      if |st.stack| >= 64 then Halted
      else Exec(env, code, lo + 1, hi, st.(stack := st.stack + [Bool(false, true)]))
  {
    hide Exec;
    ExecShared(env, code, lo, hi, st);
  }

  // ----- Signatures, separators, and words without effect -----

  /** CHECKSIG, CHECKSIGVERIFY and CHECKMULTISIG see the whole stack and the code separator. */
  lemma SignatureRun(env: Env, code: seq<byte>, lo: nat, hi: nat, st: State)
    requires lo < hi <= |code| && code[lo] in {0xac, 0xad, 0xae}
    ensures Exec(env, code, lo, hi, st) ==
      match env.sig(code[lo], st.stack, st.sep)
      case SigDone(s) => if |s| > 64 then Halted else Exec(env, code, lo + 1, hi, st.(stack := s))
      case SigFailed => Rejected
      case SigHalted => Halted
  {
    hide Exec;
    ExecPlain(env, code, lo, hi, st);
  }

  /** OP_CODESEPARATOR, 0xab. */
  lemma SeparatorRun(env: Env, code: seq<byte>, lo: nat, hi: nat, st: State)
    requires lo < hi <= |code| && code[lo] == 0xab
    ensures Exec(env, code, lo, hi, st) ==
      if !env.hasRedeem then Rejected
      else if lo + 1 == |code| then Halted
      else Exec(env, code, lo + 1, hi, st.(sep := lo + 1))
  {
    hide Exec;
    ExecPlain(env, code, lo, hi, st);
  }

  /** NOP, RETURN, NOP1 and NOP4 to NOP10 do nothing; a number that is assigned to no opcode ends the run, and so do
      an ELSE and an ENDIF without a conditional. */
  lemma OtherRun(env: Env, code: seq<byte>, lo: nat, hi: nat, st: State)
    requires lo < hi <= |code|
    ensures var op := code[lo];
      && (op in {0x61, 0x6a, 0xb0} || 0xb3 <= op <= 0xb9 ==>
            Exec(env, code, lo, hi, st) == Exec(env, code, lo + 1, hi, st))
      && (op in {0x4f, 0x50, 0x62, 0x65, 0x66, 0x67, 0x68} || 0x6b <= op <= 0x75 || 0x77 <= op <= 0x86
          || 0x89 <= op <= 0xa5 || op in {0xa7, 0xaf, 0xb1, 0xb2} || 0xba <= op ==>
            Exec(env, code, lo, hi, st) == Rejected)
      && (op == 0x4e ==> Exec(env, code, lo, hi, st) == Halted)
  {
    var op := code[lo];
    if !IsPush(op) && !IsControl(op) {
      hide Exec;
      ExecPlain(env, code, lo, hi, st);
    }
  }

  // ----- Whole scripts -----

  /** Payment to the hash of a key: the script ends in failure unless the key on the stack has that hash, and leaves
      signature and key to CHECKSIG otherwise. */
  lemma PayToHash(env: Env, h: seq<byte>, st: State, below: seq<Item>, sig: seq<byte>, key: seq<byte>)
    requires |h| == 20 && st.stack == below + [Data(sig), Data(key)] && |below| <= 60
    ensures var code := [0x76, 0xa9, 20] + h + [0x88, 0xac];
      Exec(env, code, 0, |code|, st) ==
      if key == [] then Halted
      else if env.hash(0xa9, key) != h then Rejected
      else
        match env.sig(0xac, st.stack, st.sep)
        case SigDone(s) => if |s| > 64 then Halted else Done(st.(stack := s))
        case SigFailed => Rejected
        case SigHalted => Halted
  {
    hide Exec, Alike;
    var code, n := [0x76, 0xa9, 20] + h + [0x88, 0xac], |st.stack|;
    DupRun(env, code, 0, 25, st);
    if key != [] {
      var st1 := st.(stack := st.stack + [Data(key)]);
      HashRun(env, code, 1, 25, st1);
      var st2 := st.(stack := st.stack + [Hash(env.hash(0xa9, key))]);
      assert st1.stack[..n] == st.stack;
      assert code[2..3] == [20] && code[3..23] == h;
      PushRun(env, code, 2, 25, st2, [20], h);
      var st3 := st.(stack := st2.stack + [Data(h)]);
      EqualVerifyRun(env, code, 23, 25, st3);
      assert st3.stack[..n] == st.stack;
      SameHash(h, env.hash(0xa9, key));
      if env.hash(0xa9, key) == h {
        SignatureRun(env, code, 24, 25, st);
        LastOpcode(env, code, 25);
      }
    }
  }

  lemma SameHash(a: seq<byte>, b: seq<byte>)
    requires a != []
    ensures Alike(Data(a), Hash(b)) <==> a == b
  {
  }

  lemma LastOpcode(env: Env, code: seq<byte>, end: nat)
    requires end <= |code|
    ensures forall st :: Exec(env, code, end, end, st) == Done(st)
  {
  }

  /** A conditional with two branches: 0x63 takes the first one for a true item on top and 0x64 for anything else, an
      empty stack included. The item is gone in either branch, and the nesting is limited to 256. */
  lemma ConditionalRun(env: Env, negated: bool, a: Prog, b: Prog, st: State)
    requires WellFormed(a) && WellFormed(b) && a.Cons? && b.Cons?
    ensures var code := [if negated then 0x64 else 0x63] + Flatten(a) + [0x67] + Flatten(b) + [0x68];
      var s, n := st.stack, |st.stack|;
      var inside := st.(depth := st.depth + 1, stack := if n == 0 then [] else s[..n - 1]);
      var r := if (n > 0 && IsTrue(s[n - 1])) != negated then Eval(env, a, 1, |code|, inside)
               else Eval(env, b, 2 + |Flatten(a)|, |code|, inside);
      Exec(env, code, 0, |code|, st) ==
      if st.depth < 0 || st.depth >= 256 then Rejected
      else if r.Done? then Done(r.st.(depth := r.st.depth - 1)) else r
  {
    var node := If(negated, a, ElseBranch(b));
    var p := Cons(node, Nil);
    FlattenedRun(env, p, st);
    FlattenSize(a);
    hide Exec, Eval, Flatten, FlattenNode, Size, IsTrue, Accepts, EvalChosen;
    if st.stack != [] { TrueItems(Top(st.stack)); }
    ConditionalBytes(negated, a, b);
    ConditionalMeaning(env, node, |Flatten(p)|, st);
    ChosenBranch(env, node, a, b, |Flatten(p)|, st);
  }

  lemma ChosenBranch(env: Env, n: Node, a: Prog, b: Prog, end: nat, st: State)
    requires WellFormedNode(n) && n.If? && n.thn == a && n.els == ElseBranch(b) && a.Cons? && b.Cons?
    ensures var inside := st.(depth := st.depth + 1, stack := if st.stack == [] then [] else Rest(st.stack));
      EvalChosen(env, n, 0, end, st) ==
      if VerifyOk(st.stack) != n.negated then Eval(env, a, 1, end, inside)
      else Eval(env, b, 2 + Size(a), end, inside)
  {
    hide Eval, Size;
    assert ElsePos(0, n) == 1 + Size(a);
  }

  lemma ConditionalBytes(negated: bool, a: Prog, b: Prog)
    requires WellFormed(a) && WellFormed(b)
    ensures Flatten(Cons(If(negated, a, ElseBranch(b)), Nil))
         == [if negated then 0x64 else 0x63] + Flatten(a) + [0x67] + Flatten(b) + [0x68]
  {
    hide Flatten;
    OneNode(If(negated, a, ElseBranch(b)));
    Regroup([if negated then 0x64 else 0x63], Flatten(a), [0x67], Flatten(b), [0x68]);
  }

  lemma OneNode(n: Node)
    requires WellFormedNode(n)
    ensures Flatten(Cons(n, Nil)) == FlattenNode(n)
  {
    hide FlattenNode;
    assert Flatten(Cons(n, Nil)) == FlattenNode(n) + Flatten(Nil);
  }

  lemma Regroup(a: seq<byte>, b: seq<byte>, c: seq<byte>, d: seq<byte>, e: seq<byte>)
    ensures a + (b + ((c + d) + e)) == a + b + c + d + e
  {
  }

  lemma ConditionalMeaning(env: Env, n: Node, end: nat, st: State)
    requires WellFormedNode(n) && n.If?
    ensures Eval(env, Cons(n, Nil), 0, end, st) == EvalNode(env, n, 0, end, st)
  {
    var r := EvalNode(env, n, 0, end, st);
    if r.Done? { assert Eval(env, Nil, NodeSize(n), end, r.st) == r; }
  }
}
