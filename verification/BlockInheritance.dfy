/** Summing up difficulty and then declaring inheritance on a tree of candidate blocks, after src/chains.c: the two
    views of the tree, as a forest of sibling lists and as a family with parents, and what the two steps do together. */
module BlockInheritance {
  import opened BlockNodes
  import opened BlockFamily
  import opened BlockTree

  /** Every node knows its parent; the first siblings hang below `top`. */
  ghost predicate Parented(f: Forest, top: BlockInfo)
    reads Nodes(f)`parent
    decreases f
  {
    f.Siblings? ==> f.node.parent == top && Parented(f.kids, f.node) && Parented(f.rest, top)
  }

  /** A whole tree: the head has no parent and everything in `f` below it. */
  ghost predicate Tree(head: BlockInfo, f: Forest)
    reads {head}`parent, {head}`firstChild
    reads Nodes(f)`firstChild, Nodes(f)`nextSibling, Nodes(f)`hdr, Nodes(f)`parent
  {
    && head.parent == null && head.firstChild == Root(f) && head !in Nodes(f)
    && Shaped(f) && Unshared(f) && Parented(f, head)
  }

  // ----- The tree as a family -----

  /** The siblings of a list, in order. */
  ghost function Row(f: Forest): seq<BlockInfo> {
    if f.Empty? then [] else [f.node] + Row(f.rest)
  }

  /** The children of every node of a forest. */
  ghost function KidsIn(f: Forest): (kids: Kids)
    ensures kids.Keys == Nodes(f)
  {
    if f.Empty? then map[] else KidsIn(f.kids) + KidsIn(f.rest) + map[f.node := Row(f.kids)]
  }

  ghost function KidsBelow(head: BlockInfo, f: Forest): Kids {
    KidsIn(f)[head := Row(f)]
  }

  lemma {:induction false} RowMembers(f: Forest)
    ensures forall c :: c in Row(f) ==> c in Nodes(f)
    ensures First(Row(f)) == Root(f)
  {
    if f.Siblings? { RowMembers(f.rest); }
  }

  /** Siblings are a list of children. */
  lemma {:induction false} RowLinked(f: Forest, top: BlockInfo)
    requires Shaped(f) && Unshared(f) && Parented(f, top)
    ensures NoRepeats(Row(f))
    ensures forall i :: 0 <= i < |Row(f)| ==> Row(f)[i].nextSibling == Next(Row(f), i) && Row(f)[i].parent == top
  {
    if f.Siblings? {
      var s, t := Row(f), Row(f.rest);
      RowLinked(f.rest, top);
      RowMembers(f.rest);
      forall i | 0 <= i < |s| ensures s[i].nextSibling == Next(s, i) && s[i].parent == top {
        if i > 0 { assert s[i] == t[i - 1] && Next(s, i) == Next(t, i - 1); }
      }
      assert f.node !in t;
    }
  }

  /** Where a node of a forest hangs. */
  ghost predicate Placed(n: BlockInfo, top: BlockInfo, row: seq<BlockInfo>, kids: Kids)
    reads n`parent
  {
    (n.parent == top && n in row) || (n.parent != null && n.parent in kids && n in kids[n.parent])
  }

  lemma KidsParts(f: Forest, n: BlockInfo)
    requires f.Siblings? && Unshared(f) && n in Nodes(f)
    ensures n == f.node ==> KidsIn(f)[n] == Row(f.kids)
    ensures n in Nodes(f.kids) ==> n in KidsIn(f.kids) && KidsIn(f)[n] == KidsIn(f.kids)[n]
    ensures n in Nodes(f.rest) ==> n in KidsIn(f.rest) && KidsIn(f)[n] == KidsIn(f.rest)[n]
  {
  }

  lemma {:induction false} NodeInFamily(f: Forest, top: BlockInfo, n: BlockInfo)
    requires Shaped(f) && Unshared(f) && Parented(f, top) && n in Nodes(f)
    ensures n in KidsIn(f) && ChildList(n, KidsIn(f)[n]) && (forall c :: c in KidsIn(f)[n] ==> c in Nodes(f))
    ensures Placed(n, top, Row(f), KidsIn(f))
  {
    hide KidsIn, ChildList, Row;
    KidsParts(f, n);
    if n == f.node {
      RowChildren(f);
      OwnRow(f);
    } else if n in Nodes(f.kids) {
      NodeInFamily(f.kids, f.node, n);
      KidsParts(f, f.node);
      if n.parent != f.node { KidsParts(f, n.parent); }
    } else {
      NodeInFamily(f.rest, top, n);
      OwnRow(f);
      if n.parent != top || n !in Row(f.rest) { KidsParts(f, n.parent); }
    }
  }

  lemma RowChildren(f: Forest)
    requires f.Siblings? && Shaped(f) && Unshared(f) && Parented(f.kids, f.node)
    ensures ChildList(f.node, Row(f.kids)) && (forall c :: c in Row(f.kids) ==> c in Nodes(f))
  {
    RowLinked(f.kids, f.node);
    RowMembers(f.kids);
  }

  lemma OwnRow(f: Forest)
    requires f.Siblings?
    ensures f.node in Row(f) && forall c :: c in Row(f.rest) ==> c in Row(f)
  {
  }

  /** A tree is a family. */
  lemma TreeFamily(head: BlockInfo, f: Forest)
    requires Tree(head, f)
    ensures Family(KidsBelow(head, f)) && KidsBelow(head, f).Keys == {head} + Nodes(f)
  {
    hide KidsIn, ChildList, Row, Nodes, Shaped, Unshared, Parented;
    var kids := KidsBelow(head, f);
    HeadList(head, f);
    forall n | n in kids
      ensures ChildList(n, kids[n]) && (forall c :: c in kids[n] ==> c in kids)
      ensures n.parent != null ==> n.parent in kids && n in kids[n.parent]
    {
      if n != head { NodeInFamily(f, head, n); }
    }
  }

  lemma HeadList(head: BlockInfo, f: Forest)
    requires Tree(head, f)
    ensures ChildList(head, Row(f)) && forall c :: c in Row(f) ==> c in Nodes(f)
  {
    RowLinked(f, head);
    RowMembers(f);
  }

  // ----- The way up -----

  /** From a node of a forest up to the sibling that it hangs below. */
  ghost function Up(f: Forest, n: BlockInfo): (path: seq<BlockInfo>)
    requires n in Nodes(f)
    ensures path != [] && path[0] == n && forall m :: m in path ==> m in Nodes(f)
  {
    if n == f.node then [n]
    else if n in Nodes(f.kids) then Up(f.kids, n) + [f.node]
    else Up(f.rest, n)
  }

  lemma {:induction false} UpLinked(f: Forest, top: BlockInfo, n: BlockInfo)
    requires n in Nodes(f) && Unshared(f) && Parented(f, top)
    ensures var p := Up(f, n);
      && NoRepeats(p) && p[|p| - 1].parent == top
      && forall i :: 0 <= i < |p| - 1 ==> p[i].parent == p[i + 1]
  {
    hide NoRepeats;
    if n == f.node {
      OneNode(n);
    } else if n in Nodes(f.kids) {
      UpLinked(f.kids, f.node, n);
      var p, q := Up(f, n), Up(f.kids, n);
      NoRepeatsEnd(q, f.node);
      forall i | 0 <= i < |p| - 1 ensures p[i].parent == p[i + 1] {
        if i < |q| - 1 { assert q[i].parent == q[i + 1]; }
      }
    } else {
      UpLinked(f.rest, top, n);
    }
  }

  lemma OneNode(n: BlockInfo)
    ensures NoRepeats([n])
  {
  }

  lemma NoRepeatsEnd(s: seq<BlockInfo>, x: BlockInfo)
    requires NoRepeats(s) && x !in s
    ensures NoRepeats(s + [x])
  {
  }

  /** The way from a node to the head. */
  ghost function Ancestry(head: BlockInfo, f: Forest, n: BlockInfo): seq<BlockInfo>
    requires n in Nodes(f)
  {
    Up(f, n) + [head]
  }

  lemma AncestryPath(head: BlockInfo, f: Forest, n: BlockInfo)
    requires Tree(head, f) && n in Nodes(f)
    ensures Path(Ancestry(head, f, n), n, KidsBelow(head, f))
  {
    hide NoRepeats, KidsIn, Row, Up;
    var p, q := Ancestry(head, f, n), Up(f, n);
    UpLinked(f, head, n);
    NoRepeatsEnd(q, head);
    forall i | 0 <= i < |p| ensures p[i] in KidsBelow(head, f) && p[i].parent == Next(p, i) {
      if i < |q| - 1 {
        assert p[i] == q[i] && p[i + 1] == q[i + 1];
      } else if i == |q| - 1 {
        assert p[i] == q[i];
      }
    }
  }

  // ----- Sums along the way up -----

  /** The work of all blocks of a path. */
  ghost function PathWork(path: seq<BlockInfo>, work: Work): real
    reads (set n | n in path)`hdr
    decreases |path|
  {
    if path == [] then 0.0 else work(path[|path| - 1].hdr.bits) + PathWork(path[..|path| - 1], work)
  }

  lemma {:induction false} PathWorkAppend(a: seq<BlockInfo>, b: seq<BlockInfo>, work: Work)
    ensures PathWork(a + b, work) == PathWork(a, work) + PathWork(b, work)
    decreases |b|
  {
    if b == [] {
      assert a + b == a;
    } else {
      assert (a + b)[..|a + b| - 1] == a + b[..|b| - 1];
      PathWorkAppend(a, b[..|b| - 1], work);
    }
  }

  /** A node is visited with the work of its way up. */
  lemma {:induction false} VisitSum(f: Forest, base: real, work: Work, v: Visit)
    requires Shaped(f) && Unshared(f) && v in Visits(f, base, work)
    ensures v.node in Nodes(f) && v.sum == base + PathWork(Up(f, v.node), work)
  {
    hide Visits, Nodes, Unshared;
    SomeVisits(f, base, work, v);
    var sum := base + work(f.bits);
    VisitParts(f, base, work);
    UpParts(f, v.node);
    if v.node == f.node {
      assert v == Visit(f.node, sum);
      OneBlock(f.node, work);
    } else if v in Visits(f.kids, sum, work) {
      VisitSum(f.kids, sum, work, v);
      PathWorkAppend(Up(f.kids, v.node), [f.node], work);
      OneBlock(f.node, work);
    } else {
      VisitSum(f.rest, base, work, v);
    }
  }

  lemma OneBlock(n: BlockInfo, work: Work)
    ensures PathWork([n], work) == work(n.hdr.bits)
  {
    assert [n][..0] == [];
  }

  lemma SomeVisits(f: Forest, base: real, work: Work, v: Visit)
    requires v in Visits(f, base, work)
    ensures f.Siblings?
  {
  }

  lemma UpParts(f: Forest, n: BlockInfo)
    requires f.Siblings? && Unshared(f) && Shaped(f)
    ensures Shaped(f.kids) && Shaped(f.rest) && f.node.hdr.bits == f.bits
    ensures n == f.node ==> n in Nodes(f) && Up(f, n) == [n]
    ensures n in Nodes(f.kids) ==> n in Nodes(f) && Up(f, n) == Up(f.kids, n) + [f.node]
    ensures n in Nodes(f.rest) ==> n in Nodes(f) && Up(f, n) == Up(f.rest, n)
  {
  }

  // ----- A part of the tree -----

  /** `g` is one of the sibling lists of `f`, from some sibling on. */
  ghost predicate Within(g: Forest, f: Forest) {
    g == f || (f.Siblings? && (Within(g, f.kids) || Within(g, f.rest)))
  }

  lemma {:induction false} WithinFacts(g: Forest, f: Forest)
    requires Within(g, f) && Shaped(f) && Unshared(f)
    ensures Shaped(g) && Unshared(g) && Nodes(g) <= Nodes(f)
  {
    if g != f {
      if Within(g, f.kids) { WithinFacts(g, f.kids); } else { WithinFacts(g, f.rest); }
    }
  }

  /** The way up from a node of a part leads through the parent of the part. */
  lemma {:induction false} UpThrough(f: Forest, top: BlockInfo, g: Forest, n: BlockInfo)
    requires Within(g, f) && Shaped(f) && Unshared(f) && Parented(f, top) && top !in Nodes(f)
    requires g.Siblings? && n in Nodes(g)
    ensures n in Nodes(f)
    ensures g.node.parent == top ==> Up(f, n) == Up(g, n)
    ensures g.node.parent != top ==>
      g.node.parent != null && g.node.parent in Nodes(f) && Up(f, n) == Up(g, n) + Up(f, g.node.parent)
  {
    if g != f {
      var parent := g.node.parent;
      UpParts(f, n);
      UpParts(f, f.node);
      hide Up;
      if Within(g, f.kids) {
        UpThrough(f.kids, f.node, g, n);
        if parent != f.node { UpParts(f, parent); }
      } else {
        UpThrough(f.rest, top, g, n);
        if parent != top { UpParts(f, parent); }
      }
    }
  }

  // ----- Both steps -----

  /** The nodes hold the work of their way up. */
  ghost predicate Sums(f: Forest, nodes: set<BlockInfo>, work: Work)
    reads nodes`cumulative, Nodes(f)`hdr
  {
    nodes <= Nodes(f) && forall n :: n in nodes ==> n.cumulative == PathWork(Up(f, n), work)
  }

  /** `base` is the sum of the node's parent; the head stands for none. */
  ghost predicate Base(head: BlockInfo, f: Forest, n: BlockInfo, base: real, work: Work)
    reads n`parent, Nodes(f)`hdr
  {
    if n.parent == head then base == 0.0
    else n.parent != null && n.parent in Nodes(f) && base == PathWork(Up(f, n.parent), work)
  }

  /** What is summed up in a part is summed up in the tree. */
  lemma PartSums(head: BlockInfo, f: Forest, g: Forest, base: real, work: Work, n: BlockInfo)
    requires Tree(head, f) && Within(g, f) && g.Siblings? && Base(head, f, g.node, base, work)
    requires n in Nodes(g) && Summed(Visits(g, base, work))
    ensures n in Nodes(f) && n.cumulative == PathWork(Up(f, n), work)
  {
    hide Visits, Up, PathWork;
    WithinFacts(g, f);
    VisitedNodes(g, base, work);
    var v :| v in Visits(g, base, work) && v.node == n;
    VisitSum(g, base, work, v);
    UpThrough(f, head, g, n);
    if g.node.parent != head { PathWorkAppend(Up(g, n), Up(f, g.node.parent), work); }
  }

  lemma NoLeader(visits: seq<Visit>)
    ensures Leads(null, None) && Fair(None, visits)
  {
  }

  /** The leader holds the largest sum of a part. */
  lemma PartLeader(g: Forest, base: real, work: Work, longest: BlockInfo?)
    requires g.Siblings? && Unshared(g) && Summed(Visits(g, base, work))
    requires Leads(longest, Best(None, Visits(g, base, work)))
    ensures longest != null && longest in Nodes(g) && forall n :: n in Nodes(g) ==> n.cumulative <= longest.cumulative
  {
    hide Best;
    var visits := Visits(g, base, work);
    VisitParts(g, base, work);
    VisitedNodes(g, base, work);
    hide Visits, Nodes;
    BestIsTop(None, visits);
    forall n | n in Nodes(g) ensures n.cumulative <= longest.cumulative {
      var v :| v in visits && v.node == n;
      var i :| 0 <= i < |visits| && visits[i] == v;
    }
  }

  /** Along the path each node has moved to the front of its list; all other nodes keep their order, and all other lists
      are as they were. */
  ghost predicate OnlyPromoted(before: Kids, after: Kids, path: seq<BlockInfo>) {
    && after.Keys == before.Keys
    && (forall n :: n in before && (n !in path || n == path[0]) ==> after[n] == before[n])
    && (forall i :: 0 < i < |path| ==>
         && path[i] in before && path[i - 1] in before[path[i]]
         && after[path[i]] == MoveFront(before[path[i]], path[i - 1]))
  }

  lemma PromotedOnly(kids: Kids, path: seq<BlockInfo>)
    requires Ascends(kids, path) && path != [] && NoRepeats(path) && forall i :: 0 <= i < |path| ==> path[i] in kids
    ensures OnlyPromoted(kids, Inherited(kids, path), path)
  {
    hide Inherited, Ascends, MoveFront;
    forall n | n in kids && (n !in path || n == path[0]) ensures Inherited(kids, path)[n] == kids[n] {
      InheritedAt(kids, path, n);
    }
    forall i | 0 < i < |path|
      ensures path[i - 1] in kids[path[i]] && Inherited(kids, path)[path[i]] == MoveFront(kids[path[i]], path[i - 1])
    {
      InheritedAt(kids, path, path[i]);
    }
  }

  /** The update of a part sums up the whole tree. */
  method SumUp(work: Work, start: BlockInfo, base: real, ghost head: BlockInfo, ghost f: Forest, ghost g: Forest)
    returns (longest: BlockInfo)
    requires Tree(head, f) && Within(g, f) && g.Siblings? && start == g.node
    requires Base(head, f, start, base, work) && Sums(f, Nodes(f) - Nodes(g), work)
    modifies Nodes(g)`cumulative
    ensures Sums(f, Nodes(f), work)
    ensures longest in Nodes(g) && longest in Nodes(f)
    ensures forall n :: n in Nodes(g) ==> n.cumulative <= longest.cumulative
  {
    hide Visits, Best, Nodes, Leads, PathWork, Up, Within;
    Allocated(f);
    WithinFacts(g, f);
    NoLeader(Visits(g, base, work));
    var rc, end := Update(work, start, base, true, null, g, None);
    PartLeader(g, base, work, end);
    longest := end;
    forall n | n in Nodes(f) ensures n.cumulative == PathWork(Up(f, n), work) {
      if n in Nodes(g) { PartSums(head, f, g, base, work, n); }
    }
  }

  /** Declaring an heir anywhere in a tree. */
  method DeclareHeir(heir: BlockInfo, ghost head: BlockInfo, ghost f: Forest) returns (ghost after: Kids)
    requires Tree(head, f) && heir in Nodes(f)
    modifies ({head} + Nodes(f))`firstChild, ({head} + Nodes(f))`nextSibling
    ensures var path := Ancestry(head, f, heir);
      && (forall i :: 0 < i < |path| ==> path[i].firstChild == path[i - 1])
      && OnlyPromoted(KidsBelow(head, f), after, path)
    ensures Family(after)
  {
    hide Nodes, Up, KidsIn, Row, Family, Inherited, Ascends, Tree;
    ghost var kids, path := KidsBelow(head, f), Ancestry(head, f, heir);
    TreeFamily(head, f);
    AncestryPath(head, f, heir);
    PathAscends(path, heir, kids);
    PromotedOnly(kids, path);
    DeclareInheritance(heir, kids, path);
    after := Inherited(kids, path);
  }

  /**
   * Any part of any tree is summed up from the sum of its parent, and its leader declared the heir: every node holds
   * the work of its way up, the leader has the largest sum of the part, and the path of first children from the head
   * leads to it.
   */
  method UpdateAndDeclare(work: Work, start: BlockInfo, base: real, ghost head: BlockInfo, ghost f: Forest,
                          ghost g: Forest)
    returns (longest: BlockInfo, ghost after: Kids)
    requires Tree(head, f) && Within(g, f) && g.Siblings? && start == g.node
    requires Base(head, f, start, base, work) && Sums(f, Nodes(f) - Nodes(g), work)
    modifies Nodes(g)`cumulative, ({head} + Nodes(f))`firstChild, ({head} + Nodes(f))`nextSibling
    ensures Sums(f, Nodes(f), work)
    ensures longest in Nodes(g) && longest in Nodes(f)
    ensures forall n :: n in Nodes(g) ==> n.cumulative <= longest.cumulative
    ensures var path := Ancestry(head, f, longest);
      && path[0] == longest && path[|path| - 1] == head
      && (forall i :: 0 < i < |path| ==> path[i].firstChild == path[i - 1])
      && OnlyPromoted(KidsBelow(head, f), after, path)
    ensures Family(after)
  {
    hide Nodes, Up, KidsIn, Row, Family, Sums, OnlyPromoted, Within, Base;
    Allocated(f);
    Allocated(g);
    longest := SumUp(work, start, base, head, f, g);
    after := DeclareHeir(longest, head, f);
  }
}
