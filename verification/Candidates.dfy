/** Putting blocks that arrive in any order together, after blockchain_add of src/chains.c, on a chain without forks. */
module Candidates {
  import opened BlockNodes
  import opened BlockFamily
  import T = BlockTree
  import opened MainChain

  // ----- Lines of nodes -----

  /** The blocks of a chain without forks, the genesis block first. */
  ghost predicate Linear(b: seq<BlockData>) {
    && b != []
    && (forall i :: 0 < i < |b| ==> b[i].hdr.prevHash == b[i - 1].hash)
    && (forall i, j :: 0 <= i < j < |b| ==> b[i].hash != b[j].hash)
  }

  /** The nodes hold the blocks from number `start` on, each the only child of the one before. */
  ghost predicate Carries(b: seq<BlockData>, start: nat, line: seq<BlockInfo>)
    reads (set n | n in line)`hash, (set n | n in line)`hdr
    reads (set n | n in line)`firstChild, (set n | n in line)`nextSibling
  {
    && line != [] && 0 < start && start + |line| <= |b|
    && NoRepeats(line) && Line(line)
    && (forall i :: 0 <= i < |line| ==> BlockData(line[i].hash, line[i].hdr) == b[start + i])
    && (forall i :: 0 <= i < |line| ==> line[i].nextSibling == null)
  }

  /** The parents are the nodes before, and `top` for the first. */
  ghost predicate Parents(line: seq<BlockInfo>, top: BlockInfo?)
    reads (set n | n in line)`parent
  {
    && (line != [] ==> line[0].parent == top)
    && (forall i :: 0 < i < |line| ==> line[i].parent == line[i - 1])
  }

  ghost predicate Run(b: seq<BlockData>, start: nat, line: seq<BlockInfo>, top: BlockInfo?)
    reads (set n | n in line)`hash, (set n | n in line)`hdr
    reads (set n | n in line)`firstChild, (set n | n in line)`nextSibling, (set n | n in line)`parent
  {
    Carries(b, start, line) && Parents(line, top)
  }

  ghost predicate ValidChain(b: seq<BlockData>, work: Work, c: ActiveChain)
    reads c`start, c`line, c`longestEnd
    reads ({c.head} + set n | n in c.line)`hash, ({c.head} + set n | n in c.line)`hdr
    reads ({c.head} + set n | n in c.line)`firstChild, ({c.head} + set n | n in c.line)`nextSibling
    reads ({c.head} + set n | n in c.line)`parent, ({c.head} + set n | n in c.line)`owner
    reads (set n | n in c.line)`cumulative
  {
    && Run(b, c.start, c.line, c.head) && RunningSums(c.line, 0.0, work)
    && c.head !in c.line && c.head.owner == c
    && c.head.hash == b[c.start - 1].hash && c.head.parent == null && c.head.firstChild == c.line[0]
    && c.longestEnd == c.line[|c.line| - 1]
  }

  /** Every node holds the work of the line up to it, counted from `base`. */
  ghost predicate RunningSums(line: seq<BlockInfo>, base: real, work: Work)
    reads (set n | n in line)`cumulative, (set n | n in line)`hdr
  {
    && (line != [] ==> line[0].cumulative == base + work(line[0].hdr.bits))
    && (forall i :: 0 < i < |line| ==> line[i].cumulative == line[i - 1].cumulative + work(line[i].hdr.bits))
  }

  lemma SumsAppend(a: seq<BlockInfo>, c: seq<BlockInfo>, base: real, work: Work)
    requires a != [] && RunningSums(a, base, work) && RunningSums(c, a[|a| - 1].cumulative, work)
    ensures RunningSums(a + c, base, work)
  {
    var w := a + c;
    forall i | 0 < i < |w| ensures w[i].cumulative == w[i - 1].cumulative + work(w[i].hdr.bits) {
      if i < |a| {
        assert w[i] == a[i] && w[i - 1] == a[i - 1];
      } else {
        var k := i - |a|;
        assert w[i] == c[k] && w[i - 1] == if k == 0 then a[|a| - 1] else c[k - 1];
      }
    }
  }

  ghost function End(c: ActiveChain): nat
    reads c`start, c`line
  {
    c.start + |c.line|
  }

  // ----- Sums along a line -----

  ghost predicate Positive(work: Work) {
    forall bits :: work(bits) > 0.0
  }

  ghost function ForestOf(line: seq<BlockInfo>): T.Forest
    reads (set n | n in line)`hdr
    decreases |line|
  {
    if line == [] then T.Empty else T.Siblings(line[0], line[0].hdr.bits, ForestOf(line[1..]), T.Empty)
  }

  lemma {:induction false} ForestShaped(line: seq<BlockInfo>)
    requires NoRepeats(line) && Line(line) && forall i :: 0 <= i < |line| ==> line[i].nextSibling == null
    ensures T.Nodes(ForestOf(line)) == (set n | n in line)
    ensures T.Root(ForestOf(line)) == First(line) && T.Shaped(ForestOf(line)) && T.Unshared(ForestOf(line))
    decreases |line|
  {
    if line != [] {
      var tail := line[1..];
      forall i | 0 <= i < |tail| ensures tail[i].firstChild == Next(tail, i) {
        assert line[i + 1].firstChild == Next(line, i + 1);
      }
      ForestShaped(tail);
      assert line[0].firstChild == Next(line, 0);
      assert line[0] !in tail;
      assert (set n | n in line) == {line[0]} + (set n | n in tail);
    }
  }

  /** On a line the last node has the largest sum. */
  lemma {:induction false} LastVisit(line: seq<BlockInfo>, base: real, work: Work)
    requires line != [] && Positive(work)
    ensures var v := T.Visits(ForestOf(line), base, work);
      && |v| == |line| && v[|line| - 1].node == line[|line| - 1]
      && (forall i :: 0 <= i < |line| ==> base < v[i].sum)
      && (forall i :: 0 <= i < |line| - 1 ==> v[i].sum < v[|line| - 1].sum)
    decreases |line|
  {
    var sum := base + work(line[0].hdr.bits);
    var tail := line[1..];
    var v, t := T.Visits(ForestOf(line), base, work), T.Visits(ForestOf(tail), sum, work);
    assert T.Visits(T.Empty, base, work) == [];
    assert v == [T.Visit(line[0], sum)] + t + [];
    if tail == [] {
      assert t == [];
    } else {
      LastVisit(tail, sum, work);
      forall i | 0 <= i < |line| ensures base < v[i].sum && (i < |line| - 1 ==> v[i].sum < v[|line| - 1].sum) {
        if i > 0 { assert v[i] == t[i - 1]; }
      }
    }
  }

  lemma VisitsAllocated(line: seq<BlockInfo>, base: real, work: Work)
    ensures forall v :: v in T.Visits(ForestOf(line), base, work) ==> allocated(v.node)
  {
    T.VisitedNodes(ForestOf(line), base, work);
    T.Allocated(ForestOf(line));
  }

  /** On a line the sums that the update leaves are running sums. */
  lemma {:induction false} SummedRunning(line: seq<BlockInfo>, base: real, work: Work)
    requires T.Summed(T.Visits(ForestOf(line), base, work))
    ensures RunningSums(line, base, work)
    decreases |line|
  {
    if line != [] {
      var sum, tail := base + work(line[0].hdr.bits), line[1..];
      var v, t := T.Visits(ForestOf(line), base, work), T.Visits(ForestOf(tail), sum, work);
      assert T.Visits(T.Empty, base, work) == [];
      assert v == [T.Visit(line[0], sum)] + t + [];
      assert v[0] in v;
      assert forall u :: u in t ==> u in v;
      SummedRunning(tail, sum, work);
      forall i | 0 < i < |line| ensures line[i].cumulative == line[i - 1].cumulative + work(line[i].hdr.bits) {
        if i > 1 { assert line[i] == tail[i - 1] && line[i - 1] == tail[i - 2]; }
      }
    }
  }

  /** So it leads, also when it already did. */
  lemma LastLeads(line: seq<BlockInfo>, base: real, work: Work, l: T.Leader)
    requires line != [] && Positive(work)
    requires var v := T.Visits(ForestOf(line), base, work);
      |v| == |line| ==> l.None? || l == T.Some(v[|line| - 1])
    ensures var v := T.Visits(ForestOf(line), base, work);
      |v| == |line| && T.Best(l, v) == T.Some(v[|line| - 1])
  {
    var v := T.Visits(ForestOf(line), base, work);
    LastVisit(line, base, work);
    T.BestIsTop(l, v);
    var b := T.Best(l, v);
    if b != l {
      var i :| 0 <= i < |v| && v[i] == b.v;
    }
  }

  // ----- Steps on one line -----

  /** The sums of a line that hangs below nothing. */
  method SumLine(work: Work, first: BlockInfo, base: real, track: bool, heir: BlockInfo?, ghost line: seq<BlockInfo>,
                 ghost l: T.Leader)
    returns (longest: BlockInfo?)
    requires line != [] && first == line[0] && NoRepeats(line) && Line(line) && Positive(work)
    requires forall i :: 0 <= i < |line| ==> line[i].nextSibling == null
    requires track ==>
      || (heir == null && l.None?)
      || (heir == first && |line| == 1 && l.None?)
      || (heir == line[|line| - 1] && T.Summed(T.Visits(ForestOf(line), base, work)) && l.Some?
          && l.v == T.Visit(heir, heir.cumulative))
    modifies (set n | n in line)`cumulative
    ensures T.Summed(T.Visits(old(ForestOf(line)), base, work)) && RunningSums(line, base, work)
    ensures track ==> longest == line[|line| - 1]
  {
    hide T.Visits, T.Best, T.Nodes, T.Shaped, T.Unshared, ForestOf, Line, NoRepeats;
    ghost var f := ForestOf(line);
    ghost var v := T.Visits(f, base, work);
    ForestShaped(line);
    LastVisit(line, base, work);
    if track && l.Some? {
      assert v[|line| - 1] in v;
      assert l.v == v[|line| - 1];
      LineFair(line, base, work, l);
    }
    if track { LastLeads(line, base, work, l); }
    var rc;
    rc, longest := T.Update(work, first, base, track, heir, f, l);
    SummedRunning(line, base, work);
  }

  lemma LineFair(line: seq<BlockInfo>, base: real, work: Work, l: T.Leader)
    requires l.Some? && T.Summed(T.Visits(ForestOf(line), base, work)) && l.v.sum == l.v.node.cumulative
    ensures T.Fair(l, T.Visits(ForestOf(line), base, work))
  {
  }

  /** Each node of `w` but the last has the next one as its only child. */
  ghost function KidsOf(w: seq<BlockInfo>): Kids {
    map n | n in w :: if Position(w, n) + 1 < |w| then [w[Position(w, n) + 1]] else []
  }

  ghost function Upward(w: seq<BlockInfo>): (path: seq<BlockInfo>)
    ensures |path| == |w| && forall i :: 0 <= i < |w| ==> path[i] == w[|w| - 1 - i]
  {
    seq(|w|, i requires 0 <= i < |w| => w[|w| - 1 - i])
  }

  /** A single line: only first children, no siblings, parents up to one without. */
  ghost predicate Single(w: seq<BlockInfo>)
    reads (set n | n in w)`firstChild, (set n | n in w)`nextSibling, (set n | n in w)`parent
  {
    && w != [] && NoRepeats(w) && Line(w) && w[0].parent == null
    && (forall i :: 0 < i < |w| ==> w[i].nextSibling == null && w[i].parent == w[i - 1])
  }

  lemma PositionAt(w: seq<BlockInfo>, i: nat)
    requires NoRepeats(w) && i < |w|
    ensures Position(w, w[i]) == i
  {
  }

  lemma KidsAt(w: seq<BlockInfo>, i: nat)
    requires NoRepeats(w) && i < |w|
    ensures w[i] in KidsOf(w) && KidsOf(w)[w[i]] == if i + 1 < |w| then [w[i + 1]] else []
  {
    PositionAt(w, i);
  }

  lemma SingleLists(w: seq<BlockInfo>, n: BlockInfo)
    requires Single(w) && n in w
    ensures n in KidsOf(w) && ChildList(n, KidsOf(w)[n]) && (forall c :: c in KidsOf(w)[n] ==> c in KidsOf(w))
    ensures n.parent != null ==> n.parent in KidsOf(w) && n in KidsOf(w)[n.parent]
  {
    hide KidsOf;
    var i :| 0 <= i < |w| && w[i] == n;
    KidsAt(w, i);
    assert n.firstChild == Next(w, i);
    if i + 1 < |w| {
      KidsAt(w, i + 1);
      assert w[i + 1].nextSibling == null && w[i + 1].parent == w[i];
    }
    if i > 0 {
      KidsAt(w, i - 1);
      assert w[i].parent == w[i - 1];
    }
  }

  lemma SingleFamily(w: seq<BlockInfo>)
    requires Single(w)
    ensures Family(KidsOf(w)) && Path(Upward(w), w[|w| - 1], KidsOf(w))
  {
    hide Single, ChildList;
    var kids, path := KidsOf(w), Upward(w);
    forall n | n in kids
      ensures ChildList(n, kids[n]) && (forall c :: c in kids[n] ==> c in kids)
      ensures n.parent != null ==> n.parent in kids && n in kids[n.parent]
    {
      SingleLists(w, n);
    }
    hide KidsOf;
    SinglePath(w);
  }

  lemma SinglePath(w: seq<BlockInfo>)
    requires Single(w)
    ensures w != [] && Path(Upward(w), w[|w| - 1], KidsOf(w))
  {
    var path := Upward(w);
    forall i | 0 <= i < |path| ensures path[i] in KidsOf(w) && path[i].parent == Next(path, i) {
      var j := |w| - 1 - i;
      assert j > 0 ==> w[j].parent == w[j - 1];
    }
  }

  lemma SingleUnchanged(w: seq<BlockInfo>)
    requires NoRepeats(w) && Ascends(KidsOf(w), Upward(w))
    ensures Inherited(KidsOf(w), Upward(w)) == KidsOf(w)
  {
    hide Inherited, Ascends;
    var kids, path := KidsOf(w), Upward(w);
    assert forall n :: n in kids <==> n in w;
    UpwardNoRepeats(w);
    forall n | n in kids ensures Inherited(kids, path)[n] == kids[n] {
      KidUnchanged(w, n);
    }
  }

  lemma UpwardNoRepeats(w: seq<BlockInfo>)
    requires NoRepeats(w)
    ensures NoRepeats(Upward(w))
  {
  }

  lemma KidUnchanged(w: seq<BlockInfo>, n: BlockInfo)
    requires NoRepeats(w) && Ascends(KidsOf(w), Upward(w)) && n in w
    ensures n in KidsOf(w) && Inherited(KidsOf(w), Upward(w))[n] == KidsOf(w)[n]
  {
    hide KidsOf, Inherited, Ascends;
    var path := Upward(w);
    UpwardNoRepeats(w);
    var i :| 0 <= i < |w| && w[i] == n;
    KidsAt(w, i);
    var j := |w| - 1 - i;
    assert path[j] == n;
    InheritedAt(KidsOf(w), path, n);
    if j > 0 {
      assert path[j - 1] == w[i + 1];
      FrontOfOne(w[i + 1]);
    }
  }

  lemma FrontOfOne(x: BlockInfo)
    ensures MoveFront([x], x) == [x]
  {
  }

  lemma FamilySingle(w: seq<BlockInfo>)
    requires w != [] && NoRepeats(w) && Family(KidsOf(w)) && w[0].parent == null
    ensures Single(w)
  {
    var kids := KidsOf(w);
    forall i | 0 <= i < |w| ensures w[i].firstChild == Next(w, i) {
      PositionAt(w, i);
      assert ChildList(w[i], kids[w[i]]);
    }
    forall i | 0 < i < |w| ensures w[i].nextSibling == null && w[i].parent == w[i - 1] {
      PositionAt(w, i - 1);
      assert ChildList(w[i - 1], kids[w[i - 1]]);
      assert kids[w[i - 1]] == [w[i]];
      assert kids[w[i - 1]][0].nextSibling == Next(kids[w[i - 1]], 0);
    }
  }

  /** On a single line the inheritance is already what it should be. */
  method DeclareLine(longest: BlockInfo, ghost w: seq<BlockInfo>)
    requires Single(w) && longest == w[|w| - 1]
    modifies (set n | n in w)`firstChild, (set n | n in w)`nextSibling
    ensures Single(w)
  {
    hide Single, Family, Path, Ascends, Inherited;
    ghost var kids := KidsOf(w);
    SingleRoot(w);
    SingleFamily(w);
    assert kids.Keys == set n | n in w;
    DeclareInheritance(longest, kids, Upward(w));
    SingleUnchanged(w);
    FamilySingle(w);
  }

  lemma SingleRoot(w: seq<BlockInfo>)
    requires Single(w)
    ensures w != [] && w[0].parent == null && NoRepeats(w)
  {
  }

  // ----- Steps on one chain -----

  lemma CarriesFacts(b: seq<BlockData>, start: nat, line: seq<BlockInfo>)
    requires Carries(b, start, line)
    ensures line != [] && NoRepeats(line) && Line(line)
    ensures forall i :: 0 <= i < |line| ==> line[i].nextSibling == null
    ensures line[|line| - 1].firstChild == null
  {
    assert line[|line| - 1].firstChild == Next(line, |line| - 1);
  }

  /** A node in front of a line that has been made its only child. */
  lemma CarriesCons(b: seq<BlockData>, x: BlockInfo, start: nat, line: seq<BlockInfo>)
    requires Carries(b, start + 1, line) && x !in line && start > 0
    requires BlockData(x.hash, x.hdr) == b[start] && x.nextSibling == null && x.firstChild == line[0]
    ensures Carries(b, start, [x] + line)
  {
    var w := [x] + line;
    LineCons(x, line);
    forall i | 0 <= i < |w|
      ensures BlockData(w[i].hash, w[i].hdr) == b[start + i] && w[i].nextSibling == null
    {
      if i > 0 {
        assert w[i] == line[i - 1] && b[start + 1 + (i - 1)] == b[start + i];
      }
    }
  }

  lemma ParentsCons(x: BlockInfo, line: seq<BlockInfo>, top: BlockInfo?)
    requires Parents(line, x) && x.parent == top
    ensures Parents([x] + line, top)
  {
    var w := [x] + line;
    forall i | 0 < i < |w| ensures w[i].parent == w[i - 1] {
      assert w[i] == line[i - 1];
    }
  }

  lemma ParentsAppend(a: seq<BlockInfo>, c: seq<BlockInfo>, top: BlockInfo?)
    requires a != [] && Parents(a, top) && Parents(c, a[|a| - 1])
    ensures Parents(a + c, top)
  {
    var w := a + c;
    forall i | 0 < i < |w| ensures w[i].parent == w[i - 1] {
      if i >= |a| { assert w[i] == c[i - |a|]; }
    }
  }

  lemma NoRepeatsAppend(a: seq<BlockInfo>, c: seq<BlockInfo>)
    requires NoRepeats(a) && NoRepeats(c) && (forall n :: n in a ==> n !in c)
    ensures NoRepeats(a + c)
  {
    var w := a + c;
    forall i, j | 0 <= i < j < |w| ensures w[i] != w[j] {
      if i < |a| <= j { assert w[i] in a && w[j] in c; }
    }
  }

  lemma LineAppend(a: seq<BlockInfo>, c: seq<BlockInfo>)
    requires a != [] && c != [] && Line(c) && a[|a| - 1].firstChild == c[0]
    requires forall i :: 0 <= i < |a| - 1 ==> a[i].firstChild == a[i + 1]
    ensures Line(a + c)
  {
    var w := a + c;
    forall i | 0 <= i < |w| ensures w[i].firstChild == Next(w, i) {
      if i >= |a| { assert c[i - |a|].firstChild == Next(c, i - |a|); }
    }
  }

  /** Two lines, the second below the end of the first. */
  lemma CarriesAppend(b: seq<BlockData>, start: nat, a: seq<BlockInfo>, c: seq<BlockInfo>)
    requires a != [] && NoRepeats(a) && (forall n :: n in a ==> n !in c)
    requires 0 < start && Carries(b, start + |a|, c)
    requires forall i :: 0 <= i < |a| ==> BlockData(a[i].hash, a[i].hdr) == b[start + i]
    requires forall i :: 0 <= i < |a| ==> a[i].nextSibling == null
    requires forall i :: 0 <= i < |a| - 1 ==> a[i].firstChild == a[i + 1]
    requires a[|a| - 1].firstChild == c[0]
    ensures Carries(b, start, a + c)
  {
    hide Line, NoRepeats;
    CarriesFacts(b, start + |a|, c);
    LineAppend(a, c);
    NoRepeatsAppend(a, c);
    var w := a + c;
    forall i | 0 <= i < |w| ensures BlockData(w[i].hash, w[i].hdr) == b[start + i] && w[i].nextSibling == null {
      if i >= |a| {
        assert w[i] == c[i - |a|] && b[start + |a| + (i - |a|)] == b[start + i];
      }
    }
  }

  lemma ChainSingle(b: seq<BlockData>, work: Work, c: ActiveChain)
    requires ValidChain(b, work, c)
    ensures Single([c.head] + c.line)
  {
    var w := [c.head] + c.line;
    LineCons(c.head, c.line);
    ParentsCons(c.head, c.line, null);
  }

  /** The sub-rule: a new node takes the place of the head that stood for it. */
  method Claim(work: Work, c: ActiveChain, hash: Hash, hdr: Header, ghost b: seq<BlockData>) returns (orphan: BlockInfo)
    requires ValidChain(b, work, c) && Positive(work) && c.start > 1
    requires BlockData(hash, hdr) == b[c.start - 1]
    modifies c.head`firstChild, {c.line[0]}`parent, (set n | n in c.line)`cumulative
    ensures fresh(orphan) && Run(b, c.start - 1, [orphan] + c.line, null)
    ensures T.Summed(T.Visits(ForestOf([orphan] + c.line), 0.0, work)) && c.head.firstChild == null
  {
    hide Carries, Parents, T.Visits, T.Summed, ForestOf, Line, NoRepeats, Positive;
    orphan := new BlockInfo(hash);
    orphan.hdr := hdr;
    ClaimChild(orphan, c, b, work);
    ClaimedRun(b, orphan, c.start - 1, c.line);
    SumClaimed(work, c, orphan, b);
  }

  /** The sums of the claimed line; the old head lets it go. */
  method SumClaimed(work: Work, c: ActiveChain, orphan: BlockInfo, ghost b: seq<BlockData>)
    requires Positive(work) && c.start > 0 && c.head !in [orphan] + c.line
    requires var w := [orphan] + c.line;
      && Run(b, c.start - 1, w, null) && NoRepeats(w) && Line(w)
      && forall i :: 0 <= i < |w| ==> w[i].nextSibling == null
    modifies c.head`firstChild, (set n | n in [orphan] + c.line)`cumulative
    ensures Run(b, c.start - 1, [orphan] + c.line, null) && c.head.firstChild == null
    ensures T.Summed(T.Visits(ForestOf([orphan] + c.line), 0.0, work))
  {
    hide Carries, Parents, T.Visits, T.Summed, ForestOf, Line, NoRepeats, Positive;
    ghost var w := [orphan] + c.line;
    var longest := SumLine(work, orphan, 0.0, false, null, w, T.None);
    VisitsAllocated(w, 0.0, work);
    c.head.firstChild := null;
  }

  lemma ClaimedRun(b: seq<BlockData>, x: BlockInfo, start: nat, line: seq<BlockInfo>)
    requires Carries(b, start + 1, line) && Parents(line, x) && x !in line && start > 0
    requires BlockData(x.hash, x.hdr) == b[start] && x.parent == null && x.nextSibling == null
    requires x.firstChild == line[0]
    ensures var w := [x] + line;
      && Run(b, start, w, null) && NoRepeats(w) && Line(w) && forall i :: 0 <= i < |w| ==> w[i].nextSibling == null
  {
    CarriesCons(b, x, start, line);
    ParentsCons(x, line, null);
    CarriesFacts(b, start, [x] + line);
  }

  /** The first node of a chain becomes the only child of `orphan`. */
  method ClaimChild(orphan: BlockInfo, c: ActiveChain, ghost b: seq<BlockData>, ghost work: Work)
    requires ValidChain(b, work, c) && orphan.firstChild == null && orphan !in c.line && orphan != c.head
    modifies orphan`firstChild, {c.line[0]}`parent
    ensures orphan.firstChild == c.line[0] && Carries(b, c.start, c.line) && Parents(c.line, orphan)
  {
    hide Carries, RunningSums, Line;
    ghost var line := c.line;
    CarriesFacts(b, c.start, line);
    var child := c.head.firstChild;
    AddChild(orphan, child, []);
    OnlyChild(orphan, child);
    forall i | 0 < i < |line| ensures line[i].parent == line[i - 1] {
      assert line[i] != line[0];
      assert old(line[i].parent) == line[i - 1];
    }
  }

  lemma OnlyChild(n: BlockInfo, c: BlockInfo)
    requires ChildList(n, [] + [c])
    ensures n.firstChild == c && c.parent == n && c.nextSibling == null
  {
    var s := [] + [c];
    assert s[0].nextSibling == Next(s, 0);
  }

  /** Rule II: the node and what it has claimed go to the end of the chain of its parent. */
  method Join(work: Work, c: ActiveChain, parent: BlockInfo, orphan: BlockInfo, ghost run: seq<BlockInfo>,
              ghost b: seq<BlockData>)
    requires ValidChain(b, work, c) && Run(b, End(c), run, null) && Positive(work)
    requires orphan == run[0] && parent == c.line[|c.line| - 1]
    requires c.head !in run && forall n :: n in c.line ==> n !in run
    modifies c`line, c`longestEnd, {parent}`firstChild, {orphan}`parent, (set n | n in run)`cumulative
    modifies (set n | n in [c.head] + (c.line + run))`firstChild, (set n | n in [c.head] + (c.line + run))`nextSibling
    ensures ValidChain(b, work, c) && c.start == old(c.start) && c.line == old(c.line) + run
    ensures RunningSums(run, old(parent.cumulative), work)
  {
    hide Carries, Parents, Line, NoRepeats, ForestOf, T.Visits, T.Summed, RunningSums;
    ghost var line := c.line;
    CarriesFacts(b, c.start, line);
    CarriesFacts(b, End(c), run);
    CarriesData(b, c.start, line);
    assert parent in line && orphan in run;
    AddRun(c, parent, orphan, run, b, work);
    assert (line + run)[0] == line[0] && c.head !in line + run;
    Settle(work, c, orphan, parent.cumulative, line, run, b);
  }

  /** Sums, the end with the largest sum, and the inheritance of the longer chain. */
  method Settle(work: Work, c: ActiveChain, orphan: BlockInfo, base: real, ghost line: seq<BlockInfo>,
                ghost run: seq<BlockInfo>, ghost b: seq<BlockData>)
    requires line != [] && run != [] && orphan == run[0] && Positive(work)
    requires Carries(b, c.start, line + run) && Parents(line + run, c.head) && c.head !in line + run
    requires c.head.owner == c && c.start > 0 && c.head.hash == b[c.start - 1].hash && c.head.parent == null
    requires c.head.firstChild == line[0] && c.longestEnd == line[|line| - 1]
    requires RunningSums(line, 0.0, work) && base == line[|line| - 1].cumulative && forall n :: n in line ==> n !in run
    modifies c`line, c`longestEnd, (set n | n in run)`cumulative
    modifies (set n | n in [c.head] + (line + run))`firstChild, (set n | n in [c.head] + (line + run))`nextSibling
    ensures ValidChain(b, work, c) && c.start == old(c.start) && c.line == line + run
    ensures RunningSums(run, base, work)
  {
    hide Carries, Parents, Line, NoRepeats, ForestOf, T.Visits, T.Summed, RunningSums;
    ghost var whole := line + run;
    RunTail(b, c.start, line, run);
    var longest := SumLine(work, orphan, base, true, null, run, T.None);
    if longest != c.longestEnd {
      DeclareWhole(c.head, longest, c.start, whole, b);
      c.longestEnd := longest;
    }
    c.line := whole;
    SumsAppend(line, run, 0.0, work);
  }

  lemma RunTail(b: seq<BlockData>, start: nat, line: seq<BlockInfo>, run: seq<BlockInfo>)
    requires line != [] && run != [] && Carries(b, start, line + run)
    ensures NoRepeats(run) && Line(run) && (forall i :: 0 <= i < |run| ==> run[i].nextSibling == null)
    ensures (line + run)[|line + run| - 1] == run[|run| - 1] && run[|run| - 1] != line[|line| - 1]
  {
    var w := line + run;
    forall i | 0 <= i < |run|
      ensures run[i].nextSibling == null && run[i].firstChild == Next(run, i)
      ensures forall j :: i < j < |run| ==> run[i] != run[j]
    {
      assert w[|line| + i] == run[i] && w[|line| + i].firstChild == Next(w, |line| + i);
      forall j | i < j < |run| ensures run[i] != run[j] {
        assert w[|line| + j] == run[j];
      }
    }
    assert w[|line| - 1] == line[|line| - 1];
  }

  /** The run becomes the only child of the end of the chain. */
  method AddRun(c: ActiveChain, parent: BlockInfo, orphan: BlockInfo, ghost run: seq<BlockInfo>,
                ghost b: seq<BlockData>, ghost work: Work)
    requires ValidChain(b, work, c) && Run(b, End(c), run, null)
    requires orphan == run[0] && parent == c.line[|c.line| - 1]
    requires c.head !in run && forall n :: n in c.line ==> n !in run
    modifies {parent}`firstChild, {orphan}`parent
    ensures Carries(b, c.start, c.line + run) && Parents(c.line + run, c.head)
  {
    hide Carries, Line;
    ghost var line := c.line;
    CarriesFacts(b, c.start, line);
    CarriesFacts(b, End(c), run);
    CarriesData(b, c.start, line);
    assert parent in line && orphan in run;
    LinkRun(parent, orphan, run);
    hide NoRepeats, Parents;
    CarriesAppend(b, c.start, line, run);
    ParentsAppend(line, run, c.head);
  }

  method LinkRun(parent: BlockInfo, orphan: BlockInfo, ghost run: seq<BlockInfo>)
    requires parent.firstChild == null && parent != orphan && orphan.nextSibling == null
    requires run != [] && orphan == run[0] && NoRepeats(run) && Parents(run, null)
    modifies {parent}`firstChild, {orphan}`parent
    ensures parent.firstChild == orphan && Parents(run, parent)
  {
    AddChild(parent, orphan, []);
    OnlyChild(parent, orphan);
    forall i | 0 < i < |run| ensures run[i].parent == run[i - 1] {
      assert run[i] != run[0];
      assert old(run[i].parent) == run[i - 1];
    }
  }

  lemma CarriesData(b: seq<BlockData>, start: nat, line: seq<BlockInfo>)
    requires Carries(b, start, line)
    ensures 0 < start && start + |line| <= |b|
    ensures forall i :: 0 <= i < |line| ==> BlockData(line[i].hash, line[i].hdr) == b[start + i]
    ensures forall i :: 0 <= i < |line| - 1 ==> line[i].firstChild == line[i + 1]
  {
    forall i | 0 <= i < |line| - 1 ensures line[i].firstChild == line[i + 1] {
      assert line[i].firstChild == Next(line, i);
    }
  }

  method DeclareWhole(head: BlockInfo, longest: BlockInfo, ghost start: nat, ghost whole: seq<BlockInfo>,
                      ghost b: seq<BlockData>)
    requires Carries(b, start, whole) && Parents(whole, head) && head !in whole
    requires head.parent == null && head.firstChild == whole[0] && longest == whole[|whole| - 1]
    modifies (set n | n in [head] + whole)`firstChild, (set n | n in [head] + whole)`nextSibling
    ensures Carries(b, start, whole) && head.firstChild == whole[0]
  {
    hide Carries, Line, Parents, Single, NoRepeats;
    ghost var w := [head] + whole;
    CarriesFacts(b, start, whole);
    CarriesData(b, start, whole);
    HeadedSingle(head, whole);
    DeclareLine(longest, w);
    SingleCarries(b, start, head, whole);
  }

  lemma HeadedSingle(head: BlockInfo, whole: seq<BlockInfo>)
    requires whole != [] && NoRepeats(whole) && Line(whole) && Parents(whole, head) && head !in whole
    requires forall i :: 0 <= i < |whole| ==> whole[i].nextSibling == null
    requires head.parent == null && head.firstChild == whole[0]
    ensures Single([head] + whole)
  {
    LineCons(head, whole);
    ParentsCons(head, whole, null);
  }

  lemma SingleCarries(b: seq<BlockData>, start: nat, head: BlockInfo, whole: seq<BlockInfo>)
    requires Single([head] + whole) && whole != [] && NoRepeats(whole) && 0 < start && start + |whole| <= |b|
    requires forall i :: 0 <= i < |whole| ==> BlockData(whole[i].hash, whole[i].hdr) == b[start + i]
    ensures Carries(b, start, whole) && head.firstChild == whole[0]
  {
    ghost var w := [head] + whole;
    assert w[0].firstChild == Next(w, 0);
    forall i | 0 <= i < |whole| ensures whole[i].firstChild == Next(whole, i) && whole[i].nextSibling == null {
      assert whole[i] == w[i + 1] && w[i + 1].firstChild == Next(w, i + 1);
    }
  }

  /** Rule III: a new chain whose head waits for the parent. */
  method Found(work: Work, orphan: BlockInfo, ghost start: nat, ghost run: seq<BlockInfo>, ghost b: seq<BlockData>)
    returns (c: ActiveChain)
    requires Linear(b) && Run(b, start, run, null) && orphan == run[0] && Positive(work)
    requires |run| == 1 || T.Summed(T.Visits(ForestOf(run), 0.0, work))
    modifies {orphan}`parent, (set n | n in run)`cumulative
    ensures fresh(c) && fresh(c.head) && ValidChain(b, work, c) && c.start == start && c.line == run
  {
    hide Carries, Parents, ForestOf, T.Visits, RunningSums, Line, NoRepeats, Positive;
    CarriesFacts(b, start, run);
    CarriesData(b, start, run);
    assert BlockData(run[0].hash, run[0].hdr) == b[start];
    ghost var f := ForestOf(run);
    ghost var v := T.Visits(f, 0.0, work);
    assert |run| > 1 ==> T.Summed(v);
    c := NewChain(orphan, start, run, b);
    assert ForestOf(run) == f;
    assert |run| > 1 ==> T.Summed(v);
    ghost var l := if |run| == 1 then T.None else T.Some(T.Visit(c.longestEnd, c.longestEnd.cumulative));
    var longest := SumLine(work, orphan, 0.0, true, c.longestEnd, run, l);
    c.longestEnd := longest;
  }

  /** The node that stands for the missing parent. */
  method NewHead(orphan: BlockInfo, ghost run: seq<BlockInfo>) returns (head: BlockInfo)
    requires run != [] && orphan == run[0] && NoRepeats(run) && Parents(run, null)
    modifies {orphan}`parent
    ensures fresh(head) && head.hash == orphan.hdr.prevHash && head.firstChild == orphan
    ensures head.parent == null && head.nextSibling == null && Parents(run, head)
  {
    head := new BlockInfo(orphan.hdr.prevHash);
    head.firstChild := orphan;
    orphan.parent := head;
    forall k | 0 < k < |run| ensures run[k].parent == run[k - 1] {
      assert run[k] != run[0] && old(run[k].parent) == run[k - 1];
    }
  }

  /** The end of the line of first children. */
  method LastOf(orphan: BlockInfo, ghost run: seq<BlockInfo>) returns (last: BlockInfo)
    requires run != [] && orphan == run[0] && Line(run)
    ensures last == run[|run| - 1]
  {
    last := orphan;
    ghost var i := 0;
    assert run[0].firstChild == Next(run, 0);
    while last.firstChild != null
      invariant i < |run| && last == run[i] && run[i].firstChild == Next(run, i)
      decreases |run| - i
    {
      last := last.firstChild;
      i := i + 1;
      assert run[i].firstChild == Next(run, i);
    }
  }

  /** active_chain_new. */
  method NewChain(orphan: BlockInfo, ghost start: nat, ghost run: seq<BlockInfo>, ghost b: seq<BlockData>)
    returns (c: ActiveChain)
    requires Carries(b, start, run) && Parents(run, null) && orphan == run[0]
    modifies {orphan}`parent
    ensures fresh(c) && fresh(c.head) && c.start == start && c.line == run && c.longestEnd == run[|run| - 1]
    ensures Carries(b, start, run) && Parents(run, c.head) && c.head !in run
    ensures c.head.hash == orphan.hdr.prevHash && c.head.owner == c && c.head.parent == null
    ensures c.head.firstChild == orphan
    ensures c.head.nextSibling == null
  {
    hide Carries, Parents;
    CarriesFacts(b, start, run);
    var head := NewHead(orphan, run);
    var longestEnd := LastOf(orphan, run);
    c := new ActiveChain(head, longestEnd, start, run);
    head.owner := c;
  }
}
