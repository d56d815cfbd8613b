/** The trees of candidate blocks, after src/chains.c: summing up difficulty over sibling lists. */
module BlockTree {
  import opened BlockNodes

  /** A list of siblings with everything below them. */
  datatype Forest = Empty | Siblings(node: BlockInfo, bits: nat, kids: Forest, rest: Forest)

  ghost function Root(f: Forest): BlockInfo? {
    if f.Empty? then null else f.node
  }

  ghost function Nodes(f: Forest): set<BlockInfo> {
    if f.Empty? then {} else {f.node} + Nodes(f.kids) + Nodes(f.rest)
  }

  ghost predicate Unshared(f: Forest) {
    f.Siblings? ==>
      && f.node !in Nodes(f.kids) && f.node !in Nodes(f.rest) && Nodes(f.kids) !! Nodes(f.rest)
      && Unshared(f.kids) && Unshared(f.rest)
  }

  /** The heap links the nodes as the forest says. */
  ghost predicate Shaped(f: Forest)
    reads Nodes(f)`firstChild, Nodes(f)`nextSibling, Nodes(f)`hdr
    decreases f
  {
    f.Siblings? ==>
      && f.node.hdr.bits == f.bits && f.node.firstChild == Root(f.kids) && f.node.nextSibling == Root(f.rest)
      && Shaped(f.kids) && Shaped(f.rest)
  }

  // ----- Specification -----

  /** A node with the sum of the work on the way to it. */
  datatype Visit = Visit(node: BlockInfo, sum: real)

  /** Every node once, a node before its children and these before its later siblings. */
  ghost function Visits(f: Forest, base: real, work: Work): seq<Visit> {
    if f.Empty? then []
    else [Visit(f.node, base + work(f.bits))] + Visits(f.kids, base + work(f.bits), work) + Visits(f.rest, base, work)
  }

  datatype Leader = None | Some(v: Visit)

  /** The first of the visits with the largest sum, unless `best` has as much. */
  ghost function Best(best: Leader, visits: seq<Visit>): Leader
    decreases |visits|
  {
    if visits == [] then best
    else Best(if best.None? || visits[0].sum > best.v.sum then Some(visits[0]) else best, visits[1..])
  }

  ghost predicate Tops(best: Leader, visits: seq<Visit>) {
    visits != [] ==> best.Some? && forall i :: 0 <= i < |visits| ==> visits[i].sum <= best.v.sum
  }

  /** The leader has the largest sum, and is one of the visits or the one before. */
  lemma {:induction false} BestIsTop(best: Leader, visits: seq<Visit>)
    ensures var b := Best(best, visits);
      && Tops(b, visits) && (best.Some? ==> b.Some? && b.v.sum >= best.v.sum)
      && (b == best || (b.Some? && b.v in visits))
    decreases |visits|
  {
    if visits != [] {
      var next := if best.None? || visits[0].sum > best.v.sum then Some(visits[0]) else best;
      BestIsTop(next, visits[1..]);
      var b := Best(best, visits);
      forall i | 0 <= i < |visits| ensures visits[i].sum <= b.v.sum {
        if i > 0 { assert visits[i] == visits[1..][i - 1]; }
      }
    }
  }

  lemma {:induction false} BestAppend(best: Leader, a: seq<Visit>, b: seq<Visit>)
    ensures Best(best, a + b) == Best(Best(best, a), b)
    decreases |a|
  {
    if a == [] {
      assert a + b == b;
    } else {
      assert (a + b)[1..] == a[1..] + b;
      BestAppend(if best.None? || a[0].sum > best.v.sum then Some(a[0]) else best, a[1..], b);
    }
  }

  /** Visiting again what cannot win changes nothing. */
  lemma {:induction false} BestAgain(best: Leader, visits: seq<Visit>)
    requires Tops(best, visits)
    ensures Best(best, visits) == best
    decreases |visits|
  {
    if visits != [] {
      forall i | 0 <= i < |visits[1..]| ensures visits[1..][i].sum <= best.v.sum {
        assert visits[1..][i] == visits[i + 1];
      }
      BestAgain(best, visits[1..]);
    }
  }

  /** A node, its child and its sibling are visited in this order, the child with the work of both on top. */
  lemma VisitOrder(x: BlockInfo, y: BlockInfo, z: BlockInfo, a: nat, b: nat, c: nat, base: real, work: Work)
    ensures Visits(Siblings(x, a, Siblings(y, b, Empty, Empty), Siblings(z, c, Empty, Empty)), base, work)
         == [Visit(x, base + work(a)), Visit(y, base + work(a) + work(b)), Visit(z, base + work(c))]
  {
    assert Visits(Siblings(y, b, Empty, Empty), base + work(a), work) == [Visit(y, base + work(a) + work(b))];
    assert Visits(Siblings(z, c, Empty, Empty), base, work) == [Visit(z, base + work(c))];
  }

  lemma {:induction false} VisitsWithin(f: Forest, base: real, work: Work)
    ensures forall v :: v in Visits(f, base, work) ==> v.node in Nodes(f)
  {
    if f.Siblings? {
      VisitsWithin(f.kids, base + work(f.bits), work);
      VisitsWithin(f.rest, base, work);
    }
  }

  lemma {:induction false} VisitOf(f: Forest, base: real, work: Work, n: BlockInfo) returns (v: Visit)
    requires n in Nodes(f)
    ensures v in Visits(f, base, work) && v.node == n
  {
    var sum := base + work(f.bits);
    if n == f.node {
      v := Visit(f.node, sum);
      assert Visits(f, base, work)[0] == v;
    } else if n in Nodes(f.kids) {
      v := VisitOf(f.kids, sum, work, n);
    } else {
      v := VisitOf(f.rest, base, work, n);
    }
  }

  lemma VisitedNodes(f: Forest, base: real, work: Work)
    ensures forall v :: v in Visits(f, base, work) ==> v.node in Nodes(f)
    ensures forall n :: n in Nodes(f) ==> exists v :: v in Visits(f, base, work) && v.node == n
  {
    VisitsWithin(f, base, work);
    hide Visits, Nodes;
    forall n | n in Nodes(f) ensures exists v :: v in Visits(f, base, work) && v.node == n {
      var v := VisitOf(f, base, work, n);
    }
  }

  /** Every node holds its sum. */
  ghost predicate Summed(visits: seq<Visit>)
    reads (set v | v in visits :: v.node)`cumulative
  {
    forall v :: v in visits ==> v.node.cumulative == v.sum
  }

  // ----- The update -----

  /** `heir` is the leader found so far and holds its sum. */
  ghost predicate Leads(heir: BlockInfo?, l: Leader)
    reads (if heir == null then {} else {heir})`cumulative
  {
    match l
    case None => heir == null
    case Some(v) => heir == v.node && v.node.cumulative == v.sum
  }

  /** If the leader is visited, its sum is right. */
  ghost predicate Fair(l: Leader, visits: seq<Visit>) {
    l.Some? ==> forall v :: v in visits && v.node == l.v.node ==> v.sum == l.v.sum
  }

  /** `g` is what is left of the sibling list `r` after some steps. */
  ghost predicate Later(g: Forest, r: Forest) {
    g == r || (r.Siblings? && Later(g, r.rest))
  }

  lemma {:induction false} LaterFacts(g: Forest, r: Forest, base: real, work: Work)
    requires Later(g, r) && Shaped(r) && Unshared(r)
    ensures Nodes(g) <= Nodes(r) && Shaped(g) && Unshared(g)
    ensures forall v :: v in Visits(g, base, work) ==> v in Visits(r, base, work)
    ensures (g.Siblings? ==> Later(g.rest, r)) && (g == r || g < r)
  {
    if g != r { LaterFacts(g, r.rest, base, work); }
    LaterRest(g, r);
  }

  lemma {:induction false} LaterRest(g: Forest, r: Forest)
    requires Later(g, r)
    ensures g.Siblings? ==> Later(g.rest, r)
  {
    if g == r {
      if g.Siblings? { assert Later(g.rest, g.rest); }
    } else {
      LaterRest(g, r.rest);
    }
  }

  lemma BestSplit(l: Leader, f: Forest, base: real, work: Work)
    requires f.Siblings?
    ensures var sum := base + work(f.bits);
      Best(l, Visits(f, base, work)) ==
      Best(Best(Best(l, [Visit(f.node, sum)]), Visits(f.kids, sum, work)), Visits(f.rest, base, work))
  {
    var sum := base + work(f.bits);
    BestAppend(l, [Visit(f.node, sum)] + Visits(f.kids, sum, work), Visits(f.rest, base, work));
    BestAppend(l, [Visit(f.node, sum)], Visits(f.kids, sum, work));
  }

  /** The first step: the node itself gets its sum and may take the lead. */
  method UpdateOne(work: Work, node: BlockInfo, base: real, track: bool, heir: BlockInfo?, ghost l: Leader)
    returns (longest: BlockInfo?)
    requires track ==> (heir == node && l.None?) || Leads(heir, l)
    requires track ==> Fair(l, [Visit(node, base + work(node.hdr.bits))])
    modifies node`cumulative
    ensures node.cumulative == base + work(node.hdr.bits)
    ensures track ==> Leads(longest, Best(l, [Visit(node, base + work(node.hdr.bits))]))
  {
    ghost var visit := Visit(node, base + work(node.hdr.bits));
    assert Best(l, [visit]) == if l.None? || visit.sum > l.v.sum then Some(visit) else l;
    assert visit in [visit];
    node.cumulative := base + work(node.hdr.bits);
    longest := heir;
    if track && (longest == null || node.cumulative > longest.cumulative) { longest := node; }
  }

  lemma FairParts(l: Leader, f: Forest, base: real, work: Work)
    requires f.Siblings? && Unshared(f) && Fair(l, Visits(f, base, work))
    ensures var sum := base + work(f.bits);
      var l1 := Best(l, [Visit(f.node, sum)]);
      var l2 := Best(l1, Visits(f.kids, sum, work));
      Fair(l, [Visit(f.node, sum)]) && Fair(l1, Visits(f.kids, sum, work)) && Fair(l2, Visits(f.rest, base, work))
  {
    hide Best, Nodes, Unshared, Visits;
    var sum := base + work(f.bits);
    VisitParts(f, base, work);
    var v0 := Visit(f.node, sum);
    assert v0 in Visits(f, base, work) by { assert Visits(f, base, work)[0] == v0; }
    assert forall v :: v in Visits(f.kids, sum, work) || v in Visits(f.rest, base, work) ==> v in Visits(f, base, work);
    BestIsTop(l, [v0]);
    BestIsTop(Best(l, [v0]), Visits(f.kids, sum, work));
  }

  lemma {:induction false} Allocated(f: Forest)
    ensures forall n :: n in Nodes(f) ==> allocated(n)
  {
    if f.Siblings? {
      Allocated(f.kids);
      Allocated(f.rest);
    }
  }

  lemma NoVisits(base: real, work: Work, l: Leader)
    ensures Visits(Empty, base, work) == [] && Best(l, Visits(Empty, base, work)) == l
  {
  }

  lemma VisitParts(f: Forest, base: real, work: Work)
    requires f.Siblings? && Unshared(f)
    ensures var sum := base + work(f.bits);
      && Visits(f, base, work) == [Visit(f.node, sum)] + Visits(f.kids, sum, work) + Visits(f.rest, base, work)
      && f.node in Nodes(f) && f.node !in Nodes(f.kids) && f.node !in Nodes(f.rest) && Nodes(f.kids) !! Nodes(f.rest)
      && Nodes(f.kids) <= Nodes(f) && Nodes(f.rest) <= Nodes(f) && Unshared(f.kids) && Unshared(f.rest)
      && (forall v :: v in Visits(f.kids, sum, work) ==> v.node in Nodes(f.kids))
      && (forall v :: v in Visits(f.rest, base, work) ==> v.node in Nodes(f.rest))
  {
    VisitsWithin(f.kids, base + work(f.bits), work);
    VisitsWithin(f.rest, base, work);
  }

  /** block_info_update_cumulative_difficulty: every node gets the sum of the work on its path, and the leader is the
      first with the largest sum. Later siblings are visited again and again, to no effect. */
  method Update(work: Work, node: BlockInfo?, base: real, track: bool, heir: BlockInfo?, ghost f: Forest,
                ghost l: Leader)
    returns (rc: int, longest: BlockInfo?)
    requires node == Root(f) && Shaped(f) && Unshared(f)
    requires track ==> (heir != null && heir == node && l.None?) || Leads(heir, l)
    requires track ==> Fair(l, Visits(f, base, work))
    modifies Nodes(f)`cumulative
    ensures rc == if node == null then -1 else 0
    ensures Summed(Visits(f, base, work))
    ensures track ==> Leads(longest, Best(l, Visits(f, base, work)))
    decreases f, 0
  {
    hide Best, Visits, Nodes, Unshared, Leads, Fair;
    Allocated(f);
    if node == null {
      NoVisits(base, work, l);
      return -1, heir;
    }
    ghost var sum := base + work(f.bits);
    ghost var kids, rest := Visits(f.kids, sum, work), Visits(f.rest, base, work);
    ghost var l1 := Best(l, [Visit(node, sum)]);
    ghost var l2 := Best(l1, kids);
    VisitParts(f, base, work);
    if track { FairParts(l, f, base, work); }
    BestSplit(l, f, base, work);
    longest := UpdateOne(work, node, base, track, heir, l);
    var code;
    code, longest := Update(work, node.firstChild, node.cumulative, track, longest, f.kids, l1);
    longest := UpdateLater(work, node.nextSibling, base, track, longest, f.rest, l2);
    rc := 0;
  }

  lemma LaterSelf(f: Forest)
    ensures Later(f, f)
  {
  }

  lemma NoSiblings(f: Forest, base: real, work: Work, l: Leader)
    ensures f.Empty? ==> Visits(f, base, work) == [] && Best(l, Visits(f, base, work)) == l
  {
  }

  lemma ShapedNode(f: Forest)
    requires f.Siblings? && Shaped(f)
    ensures f.node.nextSibling == Root(f.rest)
  {
  }

  /** The loop over the later siblings. */
  method UpdateLater(work: Work, first: BlockInfo?, base: real, track: bool, heir: BlockInfo?, ghost f: Forest,
                     ghost l: Leader)
    returns (longest: BlockInfo?)
    requires first == Root(f) && Shaped(f) && Unshared(f)
    requires track ==> Leads(heir, l) && Fair(l, Visits(f, base, work))
    modifies Nodes(f)`cumulative
    ensures Summed(Visits(f, base, work))
    ensures track ==> Leads(longest, Best(l, Visits(f, base, work)))
    decreases f, 1
  {
    hide Nodes, Unshared, Visits, Best, Fair, Leads, Shaped, Later;
    Allocated(f);
    LaterSelf(f);
    NoSiblings(f, base, work, l);
    ghost var visits := Visits(f, base, work);
    ghost var top := Best(l, visits);
    longest := heir;
    var sibling := first;
    ghost var g := f;
    BestIsTop(l, visits);
    while sibling != null
      invariant sibling == Root(g) && Later(g, f) && Shaped(f)
      invariant g == f ==> track ==> Leads(longest, l)
      invariant g != f ==> Summed(visits) && (track ==> Leads(longest, top))
      decreases g
    {
      LaterFacts(g, f, base, work);
      ghost var lead := if g == f then l else top;
      if g != f { SameVisits(g, f, base, work); }
      if track && g != f { AgainFair(top, visits, Visits(g, base, work), l); }
      var code;
      code, longest := Update(work, sibling, base, track, longest, g, lead);
      ShapedNode(g);
      assert Summed(visits);
      sibling := sibling.nextSibling;
      g := g.rest;
    }
  }

  /** A node that is visited again has the same sum again. */
  lemma SameVisits(g: Forest, f: Forest, base: real, work: Work)
    requires Later(g, f) && Shaped(f) && Unshared(f) && Summed(Visits(f, base, work))
    ensures forall v :: v in Visits(f, base, work) && v.node in Nodes(g) ==> v in Visits(g, base, work)
  {
    hide Visits, Nodes, Shaped, Unshared;
    LaterFacts(g, f, base, work);
    VisitedNodes(g, base, work);
    forall v | v in Visits(f, base, work) && v.node in Nodes(g) ensures v in Visits(g, base, work) {
      var u :| u in Visits(g, base, work) && u.node == v.node;
      assert u in Visits(f, base, work);
    }
  }

  lemma AgainFair(top: Leader, visits: seq<Visit>, part: seq<Visit>, l: Leader)
    requires Summed(visits) && Tops(top, visits) && (top == l || (top.Some? && top.v in visits))
    requires forall v :: v in part ==> v in visits
    requires Fair(l, visits)
    ensures Fair(top, part) && Best(top, part) == top
  {
    if part != [] { assert part[0] in visits; }
    forall i | 0 <= i < |part| ensures part[i].sum <= top.v.sum {
      assert part[i] in visits;
      var j :| 0 <= j < |visits| && visits[j] == part[i];
    }
    BestAgain(top, part);
  }
}
