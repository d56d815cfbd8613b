/** Changing the trees of candidate blocks, after src/chains.c: adding a child at the end of a sibling list and moving
    a branch to the front of every list on its way up. */
module BlockFamily {
  import opened BlockNodes

  /** The children of each node, in order. */
  type Kids = map<BlockInfo, seq<BlockInfo>>

  ghost predicate NoRepeats(s: seq<BlockInfo>) {
    forall i, j :: 0 <= i < j < |s| ==> s[i] != s[j]
  }

  /** The sibling list of the children of `n`. */
  ghost predicate ChildList(n: BlockInfo, s: seq<BlockInfo>)
    reads n`firstChild, (set c | c in s)`nextSibling, (set c | c in s)`parent
  {
    && NoRepeats(s)
    && n.firstChild == First(s)
    && (forall i :: 0 <= i < |s| ==> s[i].nextSibling == Next(s, i) && s[i].parent == n)
  }

  ghost predicate Family(kids: Kids)
    reads kids.Keys`firstChild, kids.Keys`nextSibling, kids.Keys`parent
  {
    && (forall n, c :: n in kids && c in kids[n] ==> c in kids)
    && (forall n :: n in kids ==> ChildList(n, kids[n]))
    && (forall n :: n in kids && n.parent != null ==> n.parent in kids && n in kids[n.parent])
  }

  ghost function Position(s: seq<BlockInfo>, x: BlockInfo): (i: nat)
    requires x in s
    ensures i < |s| && s[i] == x
  {
    var i :| 0 <= i < |s| && s[i] == x;
    i
  }

  /** `x` comes first, the others keep their order. */
  ghost function MoveFront(s: seq<BlockInfo>, x: BlockInfo): seq<BlockInfo>
    requires x in s
  {
    [x] + s[..Position(s, x)] + s[Position(s, x) + 1..]
  }

  lemma MovedAt(s: seq<BlockInfo>, x: BlockInfo)
    requires x in s && NoRepeats(s)
    ensures var p := Position(s, x); var t := MoveFront(s, x);
      && |t| == |s| && t[0] == x
      && (forall i :: 0 < i <= p ==> t[i] == s[i - 1])
      && (forall i :: p < i < |s| ==> t[i] == s[i])
      && (forall y :: y in t <==> y in s) && NoRepeats(t)
  {
    var p := Position(s, x);
    var t := MoveFront(s, x);
    forall y | y in s ensures y in t {
      var i :| 0 <= i < |s| && s[i] == y;
      assert if i < p then t[i + 1] == y else if i == p then t[0] == y else t[i] == y;
    }
    forall i, j | 0 <= i < j < |t| ensures t[i] != t[j] {
      var a, b := Source(p, i), Source(p, j);
      assert t[i] == s[a] && t[j] == s[b] && a != b;
    }
  }

  ghost function Source(p: nat, i: nat): nat {
    if i == 0 then p else if i <= p then i - 1 else i
  }

  // ----- Adding a child -----

  /** block_info_add_child: the child goes to the end of the sibling list. */
  method AddChild(parent: BlockInfo, child: BlockInfo, ghost s: seq<BlockInfo>)
    requires ChildList(parent, s) && child !in s && child.nextSibling == null && child != parent
    modifies parent`firstChild, child`parent, (set c | c in s)`nextSibling
    ensures ChildList(parent, s + [child])
  {
    if parent.firstChild == null {
      parent.firstChild := child;
    } else {
      var sibling := parent.firstChild;
      ghost var i := 0;
      while sibling.nextSibling != null
        invariant i < |s| && sibling == s[i]
        decreases |s| - i
      {
        assert s[i].nextSibling == Next(s, i);
        sibling := sibling.nextSibling;
        i := i + 1;
      }
      assert s[i].nextSibling == Next(s, i);
      sibling.nextSibling := child;
    }
    child.parent := parent;
    ghost var t := s + [child];
    forall i | 0 <= i < |t| ensures t[i].nextSibling == Next(t, i) && t[i].parent == parent {
    }
  }

  // ----- Declaring inheritance -----

  /** One level: `heir` jumps to the first place among the children of `parent`. */
  method Promote(parent: BlockInfo, heir: BlockInfo, ghost s: seq<BlockInfo>)
    requires ChildList(parent, s) && heir in s && parent !in s
    modifies parent`firstChild, (set c | c in s)`nextSibling
    ensures ChildList(parent, MoveFront(s, heir))
  {
    hide MoveFront, Position;
    ghost var p := Position(s, heir);
    var first := parent.firstChild;
    if first == heir {
      FirstStays(s, heir);
    } else {
      var prev := first;
      ghost var i := 0;
      while prev != null && prev.nextSibling != heir
        invariant i < p && prev == s[i]
        decreases p - i
      {
        assert s[i].nextSibling == Next(s, i);
        prev := prev.nextSibling;
        i := i + 1;
      }
      assert s[i].nextSibling == Next(s, i) && i == p - 1;
      assert heir.nextSibling == Next(s, p);
      prev.nextSibling := heir.nextSibling;
      heir.nextSibling := first;
      parent.firstChild := heir;
      PromotedList(s, p, heir, parent);
    }
  }

  lemma FirstStays(s: seq<BlockInfo>, x: BlockInfo)
    requires x in s && NoRepeats(s) && s[0] == x
    ensures MoveFront(s, x) == s
  {
  }

  lemma PromotedList(s: seq<BlockInfo>, p: nat, heir: BlockInfo, parent: BlockInfo)
    requires heir in s && NoRepeats(s) && p == Position(s, heir) && p > 0
    requires forall i :: 0 <= i < |s| ==> s[i].parent == parent
    requires forall i :: 0 <= i < |s| && i != p - 1 && i != p ==> s[i].nextSibling == Next(s, i)
    requires s[p - 1].nextSibling == Next(s, p) && heir.nextSibling == s[0] && parent.firstChild == heir
    ensures ChildList(parent, MoveFront(s, heir))
  {
    MovedAt(s, heir);
    var t := MoveFront(s, heir);
    forall i | 0 <= i < |t| ensures t[i].nextSibling == Next(t, i) && t[i].parent == parent {
      var a := Source(p, i);
      assert t[i] == s[a];
      if i > 0 && i + 1 < |t| { assert t[i + 1] == s[Source(p, i + 1)]; }
      if i == 0 { assert t[1] == s[0]; }
    }
  }

  /** The way from a node up to a node without parent. */
  ghost predicate Path(path: seq<BlockInfo>, heir: BlockInfo, kids: Kids)
    reads (set n | n in path)`parent
  {
    && path != [] && path[0] == heir && NoRepeats(path)
    && (forall i :: 0 <= i < |path| ==> path[i] in kids && path[i].parent == Next(path, i))
  }

  ghost predicate Ascends(kids: Kids, path: seq<BlockInfo>) {
    |path| >= 2 ==> path[1] in kids && path[0] in kids[path[1]] && Ascends(kids, path[1..])
  }

  /** The children after every node of the path has moved to the front. */
  ghost function Inherited(kids: Kids, path: seq<BlockInfo>): (r: Kids)
    requires Ascends(kids, path)
    ensures r.Keys == kids.Keys
  {
    if |path| < 2 then kids
    else Inherited(kids, path[1..])[path[1] := MoveFront(kids[path[1]], path[0])]
  }

  /** Along the path each node comes first and the others keep their order; no other list changes. */
  lemma {:induction false} InheritedAt(kids: Kids, path: seq<BlockInfo>, n: BlockInfo)
    requires Ascends(kids, path) && NoRepeats(path) && n in kids
    ensures n !in path || (path != [] && n == path[0]) ==> Inherited(kids, path)[n] == kids[n]
    ensures forall i :: 0 < i < |path| && path[i] == n ==>
      path[i - 1] in kids[n] && Inherited(kids, path)[n] == MoveFront(kids[n], path[i - 1])
  {
    if |path| >= 2 {
      var up := path[1..];
      InheritedAt(kids, up, n);
      forall i | 0 < i < |path| && path[i] == n
        ensures path[i - 1] in kids[n] && Inherited(kids, path)[n] == MoveFront(kids[n], path[i - 1])
      {
        if i > 1 { assert up[i - 1] == n && up[i - 2] == path[i - 1]; }
      }
      if n !in path { assert n !in up; }
      if n == path[0] { assert forall j :: 0 <= j < |up| ==> up[j] == path[j + 1]; }
    }
  }

  /** A change to the children of a node further down the path does not matter further up. */
  lemma {:induction false} InheritedOther(kids: Kids, path: seq<BlockInfo>, n: BlockInfo, s: seq<BlockInfo>)
    requires Ascends(kids, path) && n in kids && n !in path[if path == [] then 0 else 1..]
    ensures Ascends(kids[n := s], path) && Inherited(kids[n := s], path) == Inherited(kids, path)[n := s]
  {
    if |path| >= 2 {
      var up := path[1..];
      assert path[1] == path[1..][0] && n != path[1];
      assert forall x :: x in up[1..] ==> x in path[1..];
      InheritedOther(kids, up, n, s);
      var v := MoveFront(kids[path[1]], path[0]);
      assert Inherited(kids, up)[n := s][path[1] := v] == Inherited(kids, up)[path[1] := v][n := s];
    }
  }

  lemma {:induction false} PathAscends(path: seq<BlockInfo>, heir: BlockInfo, kids: Kids)
    requires Family(kids) && Path(path, heir, kids)
    ensures Ascends(kids, path)
    decreases |path|
  {
    if |path| >= 2 {
      assert path[0].parent == Next(path, 0);
      PathUp(path, heir, kids);
      PathAscends(path[1..], path[1], kids);
    }
  }

  lemma PathUp(path: seq<BlockInfo>, heir: BlockInfo, kids: Kids)
    requires Path(path, heir, kids) && |path| >= 2
    ensures Path(path[1..], path[1], kids)
  {
    var up := path[1..];
    forall i | 0 <= i < |up| ensures up[i] in kids && up[i].parent == Next(up, i) {
      assert up[i] == path[i + 1] && path[i + 1].parent == Next(path, i + 1);
    }
  }

  /** One level of the ascent, within the family. */
  method PromoteIn(parent: BlockInfo, heir: BlockInfo, ghost kids: Kids)
    requires Family(kids) && parent in kids && heir in kids[parent] && parent.parent != parent
    modifies parent`firstChild, (set c | c in kids[parent])`nextSibling
    ensures Family(kids[parent := MoveFront(kids[parent], heir)])
    ensures parent.firstChild == heir
  {
    hide MoveFront, ChildList, Family;
    ghost var s := kids[parent];
    ghost var t := MoveFront(s, heir);
    FamilyLists(kids);
    MovedList(parent, s, heir);
    SeparateLists(kids, parent);
    Promote(parent, heir, s);
    assert forall n :: n in kids && n != parent ==> n.firstChild == old(n.firstChild);
    assert forall n, c :: n in kids && n != parent && c in kids[n] ==>
      c.nextSibling == old(c.nextSibling) && c.parent == old(c.parent);
    assert forall n :: n in kids && n != parent ==> ChildList(n, kids[n]);
    FirstOfList(parent, t);
    FamilyUpdated(kids, parent, t);
  }

  lemma FamilyLists(kids: Kids)
    requires Family(kids)
    ensures forall n :: n in kids ==> ChildList(n, kids[n])
    ensures forall n, c :: n in kids && c in kids[n] ==> c in kids
    ensures forall n :: n in kids && n.parent != null ==> n.parent in kids && n in kids[n.parent]
    ensures forall n :: n in kids && n in kids[n] ==> n.parent == n
  {
    forall n | n in kids && n in kids[n] ensures n.parent == n {
      var i :| 0 <= i < |kids[n]| && kids[n][i] == n;
      assert kids[n][i].parent == n;
    }
  }

  lemma FirstOfList(n: BlockInfo, s: seq<BlockInfo>)
    requires ChildList(n, s)
    ensures n.firstChild == First(s)
  {
  }

  /** Permuting one list leaves a family. */
  lemma FamilyUpdated(kids: Kids, parent: BlockInfo, t: seq<BlockInfo>)
    requires parent in kids && ChildList(parent, t) && Members(t) == Members(kids[parent])
    requires forall n :: n in kids && n != parent ==> ChildList(n, kids[n])
    requires forall n, c :: n in kids && c in kids[n] ==> c in kids
    requires forall n :: n in kids && n.parent != null ==> n.parent in kids && n in kids[n.parent]
    ensures Family(kids[parent := t])
  {
    hide ChildList;
    forall c ensures c in t <==> c in kids[parent] {
      assert c in t <==> c in Members(t);
      assert c in kids[parent] <==> c in Members(kids[parent]);
    }
  }

  ghost function Members(s: seq<BlockInfo>): set<BlockInfo> {
    set c | c in s
  }

  lemma MovedList(n: BlockInfo, s: seq<BlockInfo>, x: BlockInfo)
    requires ChildList(n, s) && x in s
    ensures MoveFront(s, x) != [] && MoveFront(s, x)[0] == x
    ensures Members(MoveFront(s, x)) == Members(s)
  {
    MovedAt(s, x);
  }

  /** No node is in two lists. */
  lemma SeparateLists(kids: Kids, parent: BlockInfo)
    requires Family(kids) && parent in kids
    ensures forall n, c :: n in kids && n != parent && c in kids[n] ==> c !in kids[parent]
  {
    assert ChildList(parent, kids[parent]);
    forall n, c | n in kids && n != parent && c in kids[n] ensures c !in kids[parent] {
      assert ChildList(n, kids[n]);
      var i :| 0 <= i < |kids[n]| && kids[n][i] == c;
      assert kids[n][i].parent == n;
    }
  }

  /** block_info_declare_inheritance: every node on the way from `heir` to the root becomes the first child of its
      parent; the path of first children from the root then leads to `heir`. */
  method DeclareInheritance(heir: BlockInfo?, ghost kids: Kids, ghost path: seq<BlockInfo>)
    requires Family(kids) && (heir != null ==> Path(path, heir, kids))
    modifies kids.Keys`firstChild, kids.Keys`nextSibling
    ensures heir == null ==> Family(kids)
    ensures heir != null ==> Ascends(kids, path) && Family(Inherited(kids, path))
    ensures heir != null ==> forall i :: 0 < i < |path| ==> path[i].firstChild == path[i - 1]
    decreases |path|
  {
    if heir == null { return; }
    PathAscends(path, heir, kids);
    assert path[0].parent == Next(path, 0);
    if heir.parent == null { return; }
    var parent := heir.parent;
    assert path[1].parent == Next(path, 1);
    assert |path| > 2 ==> path[2] != path[1];
    PromoteIn(parent, heir, kids);
    ghost var s := MoveFront(kids[parent], heir);
    ghost var up := path[1..];
    assert up[0] == parent && parent !in up[1..];
    InheritedOther(kids, up, parent, s);
    PathUp(path, heir, kids);
    DeclareInheritance(parent, kids[parent := s], up);
    AllFirst(Inherited(kids, path), kids, path);
  }

  /** In a family whose lists have been changed along a path, the path is one of first children. */
  lemma AllFirst(after: Kids, kids: Kids, path: seq<BlockInfo>)
    requires Ascends(kids, path) && NoRepeats(path) && after == Inherited(kids, path) && Family(after)
    requires forall i :: 0 <= i < |path| ==> path[i] in kids
    requires forall n :: n in kids ==> NoRepeats(kids[n])
    ensures forall i :: 0 < i < |path| ==> path[i].firstChild == path[i - 1]
  {
    forall i | 0 < i < |path| ensures path[i].firstChild == path[i - 1] {
      InheritedAt(kids, path, path[i]);
      MovedAt(kids[path[i]], path[i - 1]);
      assert ChildList(path[i], after[path[i]]);
    }
  }

  /** get_current_chain: the node without parent that the way up ends at. */
  method Head(node: BlockInfo, ghost kids: Kids, ghost path: seq<BlockInfo>) returns (head: BlockInfo)
    requires Path(path, node, kids)
    ensures head == path[|path| - 1]
  {
    head := node;
    ghost var i := 0;
    assert path[0].parent == Next(path, 0);
    while head.parent != null
      invariant i < |path| && head == path[i] && path[i].parent == Next(path, i)
      decreases |path| - i
    {
      head := head.parent;
      i := i + 1;
      assert path[i].parent == Next(path, i);
    }
  }
}
