/** The list of candidate chains and its search index, and the whole of blockchain_add on a chain without forks. */
module CandidateList {
  import opened BlockNodes
  import opened BlockFamily
  import T = BlockTree
  import opened MainChain
  import opened Candidates

  // ----- Groups of chains -----

  ghost function Own(c: ActiveChain): set<BlockInfo>
    reads c`line
  {
    {c.head} + set n | n in c.line
  }

  /** Two chains share no node, and at least one block is missing between them. */
  ghost predicate Apart(c: ActiveChain, d: ActiveChain)
    reads c`start, c`line, d`start, d`line
  {
    c != d && Own(c) !! Own(d) && (End(c) < d.start || End(d) < c.start)
  }

  ghost function OwnAll(chains: seq<ActiveChain>): set<BlockInfo>
    reads (set c | c in chains)`line
  {
    set c, n | c in chains && n in Own(c) :: n
  }

  ghost predicate Group(b: seq<BlockData>, work: Work, chains: seq<ActiveChain>)
    reads (set c | c in chains)`start, (set c | c in chains)`line, (set c | c in chains)`longestEnd
    reads OwnAll(chains)`hash, OwnAll(chains)`hdr, OwnAll(chains)`firstChild
    reads OwnAll(chains)`nextSibling, OwnAll(chains)`parent, OwnAll(chains)`owner, OwnAll(chains)`cumulative
  {
    && (forall c :: c in chains ==> Own(c) <= OwnAll(chains) && ValidChain(b, work, c))
    && AllApart(chains)
  }

  ghost predicate AllApart(chains: seq<ActiveChain>)
    reads (set c | c in chains)`start, (set c | c in chains)`line
  {
    forall i, j :: 0 <= i < |chains| && 0 <= j < |chains| && i != j ==> Apart(chains[i], chains[j])
  }

  /** The search index finds exactly the nodes of a set, each by its hash. */
  ghost predicate Indexed(nodes: set<BlockInfo>, search: map<Hash, BlockInfo>)
    reads nodes`hash
  {
    && (forall n :: n in nodes ==> n.hash in search && search[n.hash] == n)
    && (forall h :: h in search ==> search[h] in nodes && search[h].hash == h)
  }

  lemma IndexedRemove(nodes: set<BlockInfo>, search: map<Hash, BlockInfo>, n: BlockInfo)
    requires Indexed(nodes, search) && n in nodes
    ensures Indexed(nodes - {n}, search - {n.hash})
  {
  }

  lemma IndexedAdd(nodes: set<BlockInfo>, search: map<Hash, BlockInfo>, n: BlockInfo)
    requires Indexed(nodes, search) && n.hash !in search
    ensures Indexed(nodes + {n}, search[n.hash := n])
  {
  }

  /** list_remove: the last chain moves into the hole. */
  ghost function Without(chains: seq<ActiveChain>, k: nat): (r: seq<ActiveChain>)
    requires k < |chains|
    ensures |r| == |chains| - 1
  {
    chains[k := chains[|chains| - 1]][..|chains| - 1]
  }

  lemma WithoutMembers(chains: seq<ActiveChain>, k: nat)
    requires AllApart(chains) && k < |chains|
    ensures var r := Without(chains, k);
      && (forall c :: c in r <==> c in chains && c != chains[k])
      && (forall c :: c in r ==> Apart(c, chains[k])) && AllApart(r)
  {
    var r := Without(chains, k);
    var n := |chains| - 1;
    forall c | c in r ensures c in chains && c != chains[k] && Apart(c, chains[k]) {
      var i :| 0 <= i < |r| && r[i] == c;
      var j := if i == k then n else i;
      assert c == chains[j] && j != k && Apart(chains[j], chains[k]);
    }
    forall c | c in chains && c != chains[k] ensures c in r {
      var i :| 0 <= i < |chains| && chains[i] == c;
      assert if i == n then r[k] == c else r[i] == c;
    }
  }

  lemma WithoutOwn(chains: seq<ActiveChain>, k: nat)
    requires AllApart(chains) && k < |chains|
    ensures OwnAll(Without(chains, k)) == OwnAll(chains) - Own(chains[k])
  {
    WithoutMembers(chains, k);
    hide Own, Without, AllApart;
    var r := Without(chains, k);
    forall n | n in OwnAll(chains) - Own(chains[k]) ensures n in OwnAll(r) {
      var c :| c in chains && n in Own(c);
      assert c != chains[k];
    }
    forall n | n in OwnAll(r) ensures n in OwnAll(chains) - Own(chains[k]) {
      var c :| c in r && n in Own(c);
      assert Apart(c, chains[k]);
    }
  }

  lemma WithoutGroup(b: seq<BlockData>, work: Work, chains: seq<ActiveChain>, k: nat)
    requires Group(b, work, chains) && k < |chains|
    ensures var r := Without(chains, k);
      && Group(b, work, r) && OwnAll(r) == OwnAll(chains) - Own(chains[k])
      && (forall c :: c in r <==> c in chains && c != chains[k])
      && (forall c :: c in r ==> Apart(c, chains[k]))
  {
    hide ValidChain, Without, AllApart, Own, Apart;
    WithoutMembers(chains, k);
    WithoutOwn(chains, k);
    OwnIncluded(Without(chains, k));
    var r := Without(chains, k);
    assert AllApart(r);
    forall c | c in r ensures Own(c) <= OwnAll(r) && ValidChain(b, work, c) {
      assert c in chains;
    }
  }

  lemma OwnIncluded(chains: seq<ActiveChain>)
    ensures forall c :: c in chains ==> Own(c) <= OwnAll(chains)
  {
  }

  /** A chain that is apart from all others joins the group. */
  lemma WithGroup(b: seq<BlockData>, work: Work, chains: seq<ActiveChain>, c: ActiveChain)
    requires Group(b, work, chains) && ValidChain(b, work, c) && forall d :: d in chains ==> Apart(d, c) && Apart(c, d)
    ensures Group(b, work, chains + [c]) && OwnAll(chains + [c]) == OwnAll(chains) + Own(c)
  {
    hide ValidChain, Own;
    var r := chains + [c];
    assert forall d :: d in r <==> d in chains || d == c;
    assert OwnAll(r) == OwnAll(chains) + Own(c);
  }

  ghost function Range(start: nat, n: nat): (r: set<nat>)
    ensures forall k :: k in r <==> start <= k < start + n
  {
    if n == 0 then {} else Range(start, n - 1) + {start + n - 1}
  }

  /** The numbers of the blocks that the chains hold. */
  ghost function Covered(chains: seq<ActiveChain>): set<nat>
    reads (set c | c in chains)`start, (set c | c in chains)`line
  {
    set c, k | c in chains && k in Range(c.start, |c.line|) :: k
  }

  lemma WithoutCovered(chains: seq<ActiveChain>, k: nat)
    requires AllApart(chains) && k < |chains|
    ensures Covered(Without(chains, k)) == Covered(chains) - Range(chains[k].start, |chains[k].line|)
  {
    WithoutMembers(chains, k);
    hide Own, Without, AllApart, Range;
    var r := Without(chains, k);
    var mine := Range(chains[k].start, |chains[k].line|);
    forall n | n in Covered(chains) - mine ensures n in Covered(r) {
      var c :| c in chains && n in Range(c.start, |c.line|);
      assert c != chains[k];
    }
    forall n | n in Covered(r) ensures n in Covered(chains) - mine {
      var c :| c in r && n in Range(c.start, |c.line|);
      assert Apart(c, chains[k]);
      RangesApart(c, chains[k]);
    }
  }

  lemma RangesApart(c: ActiveChain, d: ActiveChain)
    requires Apart(c, d)
    ensures Range(c.start, |c.line|) !! Range(d.start, |d.line|)
  {
  }

  lemma WithCovered(chains: seq<ActiveChain>, c: ActiveChain)
    ensures Covered(chains + [c]) == Covered(chains) + Range(c.start, |c.line|)
  {
    hide Range;
    var r := chains + [c];
    assert forall d :: d in r <==> d in chains || d == c;
    assert Covered(r) == Covered(chains) + Range(c.start, |c.line|);
  }

  /** Where a node of the group is: the head of a chain, standing for the block before its start, or in its line. */
  lemma Locate(b: seq<BlockData>, work: Work, chains: seq<ActiveChain>, n: BlockInfo) returns (c: ActiveChain, i: int)
    requires Group(b, work, chains) && n in OwnAll(chains)
    ensures c in chains && -1 <= i < |c.line| && 0 < c.start && End(c) <= |b|
    ensures n.hash == b[c.start + i].hash && (n.parent == null <==> i == -1)
    ensures if i == -1 then n == c.head && n.owner == c else n == c.line[i]
  {
    hide ValidChain;
    c :| c in chains && n in Own(c);
    i := LocateIn(b, work, c, n);
  }

  lemma LocateIn(b: seq<BlockData>, work: Work, c: ActiveChain, n: BlockInfo) returns (i: int)
    requires ValidChain(b, work, c) && n in Own(c)
    ensures -1 <= i < |c.line| && 0 < c.start && End(c) <= |b|
    ensures n.hash == b[c.start + i].hash && (n.parent == null <==> i == -1)
    ensures if i == -1 then n == c.head && n.owner == c else n == c.line[i]
  {
    hide Carries;
    CarriesData(b, c.start, c.line);
    if n == c.head {
      i := -1;
    } else {
      i :| 0 <= i < |c.line| && c.line[i] == n;
      assert BlockData(c.line[i].hash, c.line[i].hdr) == b[c.start + i];
      assert i > 0 ==> c.line[i].parent == c.line[i - 1];
    }
  }

  /** The nodes of one chain. */
  lemma InChain(b: seq<BlockData>, work: Work, chains: seq<ActiveChain>, c: ActiveChain)
    requires Group(b, work, chains) && c in chains
    ensures c.head in OwnAll(chains) && (forall n :: n in c.line ==> n in OwnAll(chains))
    ensures c.line != [] && 0 < c.start && End(c) <= |b| && c.head.hash == b[c.start - 1].hash
    ensures forall i :: 0 <= i < |c.line| ==> c.line[i].hash == b[c.start + i].hash
  {
    hide ValidChain, AllApart;
    Placement(b, work, c);
    assert c.head in Own(c) && forall n :: n in c.line ==> n in Own(c);
  }

  /** Which blocks a chain stands for. */
  lemma Placement(b: seq<BlockData>, work: Work, c: ActiveChain)
    requires ValidChain(b, work, c)
    ensures c.line != [] && 0 < c.start && End(c) <= |b| && c.head.hash == b[c.start - 1].hash
    ensures forall i :: 0 <= i < |c.line| ==> c.line[i].hash == b[c.start + i].hash
  {
    hide Carries, RunningSums;
    CarriesFacts(b, c.start, c.line);
    CarriesData(b, c.start, c.line);
    forall i | 0 <= i < |c.line| ensures c.line[i].hash == b[c.start + i].hash {
      assert BlockData(c.line[i].hash, c.line[i].hdr) == b[c.start + i];
    }
  }

  /** A block is found in the index exactly when a chain holds it or waits for it; the two differ in the parent. */
  lemma LookUp(b: seq<BlockData>, work: Work, chains: seq<ActiveChain>, search: map<Hash, BlockInfo>, k: nat)
    requires Linear(b) && Group(b, work, chains) && Indexed(OwnAll(chains), search) && k < |b|
    ensures k in Covered(chains) <==> b[k].hash in search && search[b[k].hash].parent != null
    ensures b[k].hash in search && search[b[k].hash].parent == null ==>
      var c := search[b[k].hash].owner;
      c != null && c in chains && c.start == k + 1 && search[b[k].hash] == c.head
    ensures b[k].hash in search ==> k in Covered(chains) || exists c :: c in chains && c.start == k + 1
  {
    hide Group;
    var h := b[k].hash;
    if h in search {
      var c, i := Locate(b, work, chains, search[h]);
      assert c.start + i == k;
      if i >= 0 { assert k in Range(c.start, |c.line|); }
    }
    if k in Covered(chains) {
      var c :| c in chains && k in Range(c.start, |c.line|);
      InChain(b, work, chains, c);
      var n := c.line[k - c.start];
      assert n.hash == b[c.start + (k - c.start)].hash && n in OwnAll(chains);
      var d, i := Locate(b, work, chains, n);
      SameNode(b, work, chains, n, c, k - c.start, d, i);
    }
  }

  lemma SameNode(b: seq<BlockData>, work: Work, chains: seq<ActiveChain>, n: BlockInfo, c: ActiveChain, x: nat,
                 d: ActiveChain, i: int)
    requires Group(b, work, chains) && c in chains && d in chains && x < |c.line| && n == c.line[x]
    requires -1 <= i < |d.line|
    requires if i == -1 then n == d.head else n == d.line[i]
    ensures i != -1
  {
    hide Carries;
    assert n in Own(c) && n in Own(d);
    var p :| 0 <= p < |chains| && chains[p] == c;
    var q :| 0 <= q < |chains| && chains[q] == d;
    assert p != q ==> Apart(chains[p], chains[q]);
    assert d.head !in d.line;
  }

  ghost function NodesOf(run: seq<BlockInfo>): set<BlockInfo> {
    set n | n in run
  }

  /** No chain overlaps the blocks of a run or lies directly above it; one may end directly below. */
  ghost predicate Clear(chains: seq<ActiveChain>, j: nat, n: nat)
    reads (set c | c in chains)`start, (set c | c in chains)`line
  {
    forall c :: c in chains ==> End(c) <= j || j + n < c.start
  }

  /** A run that is indexed but in no chain yet. */
  ghost predicate Pending(b: seq<BlockData>, work: Work, chains: seq<ActiveChain>, search: map<Hash, BlockInfo>,
                          j: nat, run: seq<BlockInfo>)
    reads chains, OwnAll(chains), run
  {
    && Group(b, work, chains) && Run(b, j, run, null) && NodesOf(run) !! OwnAll(chains)
    && Indexed(OwnAll(chains) + NodesOf(run), search)
    && Clear(chains, j, |run|)
  }

  /** The main chain holds the first blocks, and has room for all. */
  ghost predicate MainHolds(b: seq<BlockData>, main: BlockChain)
    reads main, main.heirs
  {
    && main.Valid() && main.height < |b| <= main.heirs.Length
    && forall i :: 0 <= i <= main.height ==> BlockData(main.Chain()[i].hash, main.Chain()[i].hdr) == b[i]
  }

  /** A line of nodes that starts where the main chain ends fits on top of it. */
  lemma FitsOnTop(b: seq<BlockData>, main: BlockChain, line: seq<BlockInfo>)
    requires Linear(b) && MainHolds(b, main) && Carries(b, main.height + 1, line)
    ensures Fits(main.Chain(), Data(line))
  {
    hide BlockChain.Valid, Line, NoRepeats;
    var c, d, h := main.Chain(), Data(line), main.height;
    forall i | 0 <= i < |d| ensures d[i] == b[h + 1 + i] {
      assert BlockData(line[i].hash, line[i].hdr) == b[h + 1 + i];
    }
    forall i | 0 <= i < |c| ensures c[i].hash == b[i].hash { assert BlockData(c[i].hash, c[i].hdr) == b[i]; }
    assert d[0].hdr.prevHash == b[h].hash by { assert d[0] == b[h + 1 + 0]; }
    forall i | 0 < i < |d| ensures d[i].hdr.prevHash == d[i - 1].hash {
      assert d[i] == b[h + 1 + i] && d[i - 1] == b[h + 1 + (i - 1)];
      assert b[h + 1 + i].hdr.prevHash == b[h + 1 + i - 1].hash;
    }
  }

  /** The extended chain holds the blocks of the line too. */
  lemma ExtendedHolds(b: seq<BlockData>, c: seq<Heir>, line: seq<BlockInfo>, work: Work)
    requires c != [] && Carries(b, |c|, line) && forall i :: 0 <= i < |c| ==> BlockData(c[i].hash, c[i].hdr) == b[i]
    ensures var r := Extended(c, Data(line), work);
      forall i :: 0 <= i < |r| ==> BlockData(r[i].hash, r[i].hdr) == b[i]
  {
    var d, r := Data(line), Extended(c, Data(line), work);
    forall i | 0 <= i < |r| ensures BlockData(r[i].hash, r[i].hdr) == b[i] {
      if i < |c| {
        assert r[i] == r[..|c|][i];
      } else {
        var k := i - |c|;
        ExtendedAt(c, d, work, k);
        assert BlockData(line[k].hash, line[k].hdr) == b[|c| + k];
      }
    }
  }

  // ----- The store -----

  datatype State = State(
    node: BlockInfo, hash: Hash, hdr: Header, cumulative: real,
    parent: BlockInfo?, firstChild: BlockInfo?, nextSibling: BlockInfo?, owner: ActiveChain?)

  /** The main chain with the list of candidates. `work` is the measure that the candidates are summed up with. */
  class Store {
    const main: BlockChain
    const work: Work
    var chains: seq<ActiveChain>
    var search: map<Hash, BlockInfo>

    constructor (m: BlockChain, w: Work)
      ensures main == m && work == w && chains == [] && search == map[]
    {
      main, work, chains, search := m, w, [], map[];
    }

    /** list_remove of a chain without nodes: its head leaves the index. */
    method Remove(c: ActiveChain, ghost k: nat)
      requires k < |chains| && chains[k] == c && c.head.firstChild == null
      requires forall i :: 0 <= i < |chains| && i != k ==> chains[i] != c
      modifies this`chains, this`search
      ensures chains == Without(old(chains), k) && search == old(search) - {c.head.hash}
    {
      var i := 0;
      while i < |chains| && chains[i] != c
        invariant i <= k
      {
        i := i + 1;
      }
      search := search - {c.head.hash};
      chains := chains[i := chains[|chains| - 1]];
      chains := chains[..|chains| - 1];
    }

    /** A block that nothing waits for. */
    method TakeNew(hash: Hash, hdr: Header, ghost b: seq<BlockData>, ghost j: nat) returns (orphan: BlockInfo)
      requires Linear(b) && Group(b, work, chains) && Indexed(OwnAll(chains), search)
      requires 0 < j < |b| && b[j] == BlockData(hash, hdr) && hash !in search
      modifies this`search
      ensures fresh(orphan) && Pending(b, work, chains, search, j, [orphan])
    {
      hide Group, Run, Indexed, Clear, OwnAll, Linear;
      ghost var nodes := OwnAll(chains);
      OwnAllocated(chains);
      NoneWaits(b, j);
      orphan := new BlockInfo(hash);
      orphan.hdr := hdr;
      OneRun(b, j, orphan);
      IndexedAdd(nodes, search, orphan);
      search := search[hash := orphan];
      assert NodesOf([orphan]) == {orphan};
    }

    lemma NoneWaits(b: seq<BlockData>, j: nat)
      requires Group(b, work, chains) && Indexed(OwnAll(chains), search) && 0 < j < |b| && b[j].hash !in search
      ensures Clear(chains, j, 1)
    {
      hide Group;
      forall c | c in chains ensures End(c) <= j || j + 1 < c.start {
        InChain(b, work, chains, c);
        ClearOfChain(b, c, search, j);
      }
    }

    lemma OneRun(b: seq<BlockData>, j: nat, x: BlockInfo)
      requires 0 < j < |b| && BlockData(x.hash, x.hdr) == b[j]
      requires x.firstChild == null && x.nextSibling == null && x.parent == null
      ensures Run(b, j, [x], null)
    {
    }

    lemma ClearOfChain(b: seq<BlockData>, c: ActiveChain, search: map<Hash, BlockInfo>, j: nat)
      requires 0 < j < |b| && b[j].hash !in search && c.head.hash in search
      requires forall n :: n in c.line ==> n.hash in search
      requires c.line != [] && 0 < c.start && End(c) <= |b| && c.head.hash == b[c.start - 1].hash
      requires forall i :: 0 <= i < |c.line| ==> c.line[i].hash == b[c.start + i].hash
      ensures End(c) <= j || j + 1 < c.start
    {
      var x := if c.start <= j < End(c) then j - c.start else 0;
      assert c.line[x] in c.line && c.line[x].hash == b[c.start + x].hash;
    }

    /** The sub-rule: a block that a chain has been waiting for takes over what the chain holds. */
    method TakeOver(c: ActiveChain, hash: Hash, hdr: Header, ghost b: seq<BlockData>, ghost j: nat, ghost k: nat)
      returns (orphan: BlockInfo)
      requires Linear(b) && Positive(work) && Group(b, work, chains) && Indexed(OwnAll(chains), search)
      requires k < |chains| && chains[k] == c && c.start == j + 1 && 0 < j < |b| && b[j] == BlockData(hash, hdr)
      modifies this`chains, this`search, Own(c)`firstChild, Own(c)`parent, Own(c)`cumulative
      ensures fresh(orphan) && chains == Without(old(chains), k) && c.line == old(c.line)
      ensures Pending(b, work, chains, search, j, [orphan] + c.line)
      ensures T.Summed(T.Visits(ForestOf([orphan] + c.line), 0.0, work))
    {
      hide Group, ValidChain, Run, T.Visits, T.Summed, ForestOf, Indexed, Without, AllApart, Covered, Pending, Clear;
      ghost var rest := Without(chains, k);
      InChain(b, work, chains, c);
      MembersValid(b, chains, c);
      OthersApart(b, chains, k);
      WithoutGroup(b, work, chains, k);
      ClearAround(rest, c, j);
      IndexedRemove(OwnAll(chains), search, c.head);
      assert OwnAll(chains) - {c.head} == OwnAll(rest) + NodesOf(c.line);
      orphan := TakeOverRest(c, hash, hdr, b, j, k, rest);
    }

    /** The same, with the other chains set apart. */
    method TakeOverRest(c: ActiveChain, hash: Hash, hdr: Header, ghost b: seq<BlockData>, ghost j: nat, ghost k: nat,
                        ghost rest: seq<ActiveChain>)
      returns (orphan: BlockInfo)
      requires Positive(work) && ValidChain(b, work, c) && Group(b, work, rest) && OwnAll(rest) !! Own(c) && c !in rest
      requires k < |chains| && chains[k] == c && rest == Without(chains, k)
      requires forall i :: 0 <= i < |chains| && i != k ==> chains[i] != c
      requires c.start == j + 1 && 0 < j < |b| && b[j] == BlockData(hash, hdr) && Clear(rest, j, |c.line| + 1)
      requires Indexed(OwnAll(rest) + NodesOf(c.line), search - {hash}) && c.head.hash == hash
      modifies this`chains, this`search, Own(c)`firstChild, Own(c)`parent, Own(c)`cumulative
      ensures fresh(orphan) && chains == rest && c.line == old(c.line)
      ensures Pending(b, work, chains, search, j, [orphan] + c.line)
      ensures T.Summed(T.Visits(ForestOf([orphan] + c.line), 0.0, work))
    {
      hide Group, ValidChain, Run, T.Visits, T.Summed, ForestOf, Indexed, Without, Pending, Clear, Own, OwnAll, NodesOf;
      search := search - {c.head.hash};
      orphan := ClaimIn(c, hash, hdr, b, j, rest);
      ghost var run := [orphan] + c.line;
      ghost var f := ForestOf(run);
      ghost var v := T.Visits(f, 0.0, work);
      assert T.Summed(v);
      VisitsAllocated(run, 0.0, work);
      PendingAllocated(rest, run);
      Remove(c, k);
      search := search[hash := orphan];
      assert ForestOf(run) == f && T.Summed(v);
    }

    lemma PendingAllocated(cs: seq<ActiveChain>, run: seq<BlockInfo>)
      ensures forall c :: c in cs ==> allocated(c)
      ensures forall n :: n in OwnAll(cs) ==> allocated(n)
      ensures forall n :: n in run ==> allocated(n)
    {
    }

    method ClaimIn(c: ActiveChain, hash: Hash, hdr: Header, ghost b: seq<BlockData>, ghost j: nat,
                   ghost rest: seq<ActiveChain>)
      returns (orphan: BlockInfo)
      requires Positive(work) && ValidChain(b, work, c) && Group(b, work, rest) && OwnAll(rest) !! Own(c) && c !in rest
      requires c.start == j + 1 && 0 < j < |b| && b[j] == BlockData(hash, hdr) && Clear(rest, j, |c.line| + 1)
      requires Indexed(OwnAll(rest) + NodesOf(c.line), search) && hash !in search && c.head.hash == hash
      modifies Own(c)`firstChild, Own(c)`parent, Own(c)`cumulative
      ensures fresh(orphan) && Pending(b, work, rest, search[hash := orphan], j, [orphan] + c.line)
      ensures c.line == old(c.line)
      ensures T.Summed(T.Visits(ForestOf([orphan] + c.line), 0.0, work))
      ensures c.head.firstChild == null && c.head.hash == hash && search - {hash} == search
    {
      hide Group, T.Visits, T.Summed, ForestOf, Clear, Carries, Parents, Indexed, RunningSums, OwnAll;
      ghost var line := c.line;
      ghost var nodes := OwnAll(rest) + NodesOf(line);
      OwnAllocated(rest);
      RunAllocated(line);
      CarriesFacts(b, c.start, line);
      orphan := Claim(work, c, hash, hdr, b);
      RunHead(b, j, [orphan] + line);
      IndexedAdd(nodes, search, orphan);
      assert NodesOf([orphan] + line) == NodesOf(line) + {orphan};
      assert nodes + {orphan} == OwnAll(rest) + NodesOf([orphan] + line);
      assert search - {hash} == search;
    }

    lemma RunHead(b: seq<BlockData>, j: nat, run: seq<BlockInfo>)
      requires Run(b, j, run, null)
      ensures run != [] && j < |b| && run[0].hash == b[j].hash && run[0].hdr == b[j].hdr
    {
      assert BlockData(run[0].hash, run[0].hdr) == b[j + 0];
    }

    lemma MembersValid(b: seq<BlockData>, cs: seq<ActiveChain>, c: ActiveChain)
      requires Group(b, work, cs) && c in cs
      ensures ValidChain(b, work, c) && c.head !in c.line && Own(c) <= OwnAll(cs) && c.head.owner == c
    {
      hide Carries;
    }

    lemma OthersApart(b: seq<BlockData>, cs: seq<ActiveChain>, k: nat)
      requires Group(b, work, cs) && k < |cs|
      ensures AllApart(cs) && forall i :: 0 <= i < |cs| && i != k ==> cs[i] != cs[k]
    {
      hide ValidChain;
      forall i | 0 <= i < |cs| && i != k ensures cs[i] != cs[k] {
        assert Apart(cs[i], cs[k]);
      }
    }

    lemma ClearAround(rest: seq<ActiveChain>, c: ActiveChain, j: nat)
      requires c.start == j + 1 && forall d :: d in rest ==> Apart(d, c)
      ensures Clear(rest, j, |c.line| + 1)
    {
    }

    /** Who is found under the hash of the parent: nobody, or the last node of the chain that ends directly below. */
    lemma FindParent(b: seq<BlockData>, j: nat, run: seq<BlockInfo>) returns (d: ActiveChain?)
      requires Linear(b) && Pending(b, work, chains, search, j, run) && 0 < j < |b|
      ensures d == null ==> b[j - 1].hash !in search && forall e :: e in chains ==> End(e) != j
      ensures d != null ==> d in chains && d.line != [] && End(d) == j
      ensures d != null ==> b[j - 1].hash in search && search[b[j - 1].hash] == d.line[|d.line| - 1]
    {
      hide Group, Carries;
      var h := b[j - 1].hash;
      CarriesData(b, j, run);
      assert forall i :: 0 <= i < |run| ==> run[i].hash == b[j + i].hash by {
        forall i | 0 <= i < |run| ensures run[i].hash == b[j + i].hash {
          assert BlockData(run[i].hash, run[i].hdr) == b[j + i];
        }
      }
      d := null;
      if h in search {
        var n := search[h];
        var c, i := Locate(b, work, chains, n);
        assert c.start + i == j - 1;
        InChain(b, work, chains, c);
        d := c;
      } else {
        forall e | e in chains ensures End(e) != j {
          InChain(b, work, chains, e);
          assert e.line[|e.line| - 1].hash == b[e.start + (|e.line| - 1)].hash;
          assert e.line[|e.line| - 1] in e.line;
        }
      }
    }

    /** Rule II: the run goes to the end of the chain that its parent ends. */
    method JoinChain(d: ActiveChain, parent: BlockInfo, orphan: BlockInfo, ghost b: seq<BlockData>, ghost j: nat,
                     ghost run: seq<BlockInfo>)
      requires Positive(work) && Pending(b, work, chains, search, j, run) && d in chains && End(d) == j
      requires run != [] && orphan == run[0] && d.line != [] && parent == d.line[|d.line| - 1]
      modifies d`line, d`longestEnd, (Own(d) + NodesOf(run))`firstChild, (Own(d) + NodesOf(run))`nextSibling
      modifies (Own(d) + NodesOf(run))`parent, (Own(d) + NodesOf(run))`cumulative
      ensures Group(b, work, chains) && Indexed(OwnAll(chains), search)
      ensures d.start == old(d.start) && d.line == old(d.line) + run
      ensures Covered(chains) == old(Covered(chains)) + Range(j, |run|)
      ensures OwnAll(chains) == old(OwnAll(chains)) + NodesOf(run)
    {
      hide ValidChain, Run, Indexed, Covered, Group, AllApart, Without, Apart, Range;
      ghost var k :| 0 <= k < |chains| && chains[k] == d;
      ghost var rest := Without(chains, k);
      MembersValid(b, chains, d);
      OthersApart(b, chains, k);
      WithoutGroup(b, work, chains, k);
      WithoutCovered(chains, k);
      RangeIncluded(chains, d);
      ghost var line, nodes := d.line, OwnAll(chains) + NodesOf(run);
      RestMembers(k, j, |run|);
      RestClear(b, rest, d, j, |run|);
      hide Own, NodesOf, OwnAll, Pending;
      JoinedSets(OwnAll(chains), Own(d), OwnAll(rest), NodesOf(run));
      OwnAllocated(chains);
      RunAllocated(run);
      JoinRest(d, parent, orphan, b, j, run, rest);
      PutBack(b, chains, k);
      assert OwnAll(chains) == nodes;
      RangeJoin(d.start, |line|, |run|);
    }

    lemma RestMembers(k: nat, j: nat, n: nat)
      requires k < |chains| && AllApart(chains) && Clear(chains, j, n)
      ensures Clear(Without(chains, k), j, n)
    {
      WithoutMembers(chains, k);
    }

    lemma JoinedSets(all: set<BlockInfo>, own: set<BlockInfo>, others: set<BlockInfo>, run: set<BlockInfo>)
      requires own <= all && others == all - own && run !! all
      ensures run !! own && run !! others && others !! own && all + run == others + own + run
    {
    }

    /** The same, with the other chains set apart. */
    method JoinRest(d: ActiveChain, parent: BlockInfo, orphan: BlockInfo, ghost b: seq<BlockData>, ghost j: nat,
                    ghost run: seq<BlockInfo>, ghost rest: seq<ActiveChain>)
      requires Positive(work) && ValidChain(b, work, d) && Run(b, j, run, null) && End(d) == j && Group(b, work, rest)
      requires run != [] && orphan == run[0] && d.line != [] && parent == d.line[|d.line| - 1]
      requires OwnAll(rest) !! Own(d) && NodesOf(run) !! OwnAll(rest) && NodesOf(run) !! Own(d)
      requires forall e :: e in rest ==> e != d && (End(e) < d.start || j + |run| < e.start)
      modifies d`line, d`longestEnd, (Own(d) + NodesOf(run))`firstChild, (Own(d) + NodesOf(run))`nextSibling
      modifies (Own(d) + NodesOf(run))`parent, (Own(d) + NodesOf(run))`cumulative
      ensures Group(b, work, rest) && ValidChain(b, work, d) && d.start == old(d.start) && d.line == old(d.line) + run
      ensures Own(d) == old(Own(d)) + NodesOf(run)
      ensures OwnAll(rest) == old(OwnAll(rest)) && Covered(rest) == old(Covered(rest))
      ensures forall e :: e in rest ==> Apart(e, d) && Apart(d, e)
    {
      hide ValidChain, Run, Covered, Group, AllApart, Apart, Range, Own, NodesOf, OwnAll, Positive;
      OwnIncluded(rest);
      OwnAllocated(rest);
      JoinOwn(d, parent, orphan, b, run);
      forall e | e in rest ensures Apart(e, d) && Apart(d, e) {
        StillApart(e, d, j + |run|);
      }
    }

    /** The chain and the run alone. */
    method JoinOwn(d: ActiveChain, parent: BlockInfo, orphan: BlockInfo, ghost b: seq<BlockData>,
                   ghost run: seq<BlockInfo>)
      requires Positive(work) && ValidChain(b, work, d) && Run(b, End(d), run, null) && NodesOf(run) !! Own(d)
      requires run != [] && orphan == run[0] && d.line != [] && parent == d.line[|d.line| - 1]
      modifies d`line, d`longestEnd, (Own(d) + NodesOf(run))`firstChild, (Own(d) + NodesOf(run))`nextSibling
      modifies (Own(d) + NodesOf(run))`parent, NodesOf(run)`cumulative
      ensures ValidChain(b, work, d) && d.start == old(d.start) && d.line == old(d.line) + run
      ensures Own(d) == old(Own(d)) + NodesOf(run)
    {
      hide ValidChain, Run, Positive;
      ghost var line := d.line;
      assert parent in line && orphan in run;
      RunElsewhere(d, run);
      JoinSets(d, run, parent, orphan);
      Join(work, d, parent, orphan, run, b);
      GrownOwn(d, line, run);
    }

    lemma RunElsewhere(d: ActiveChain, run: seq<BlockInfo>)
      requires NodesOf(run) !! Own(d)
      ensures d.head !in run && forall n :: n in d.line ==> n !in run
    {
      assert d.head in Own(d);
      forall n | n in d.line ensures n !in run {
        assert n in Own(d);
      }
    }

    lemma JoinSets(d: ActiveChain, run: seq<BlockInfo>, parent: BlockInfo, orphan: BlockInfo)
      requires parent in d.line && orphan in run
      ensures (set n | n in [d.head] + (d.line + run)) == Own(d) + NodesOf(run) && (set n | n in run) == NodesOf(run)
      ensures parent in Own(d) && orphan in NodesOf(run) && Own(d) == {d.head} + NodesOf(d.line)
    {
    }

    lemma GrownOwn(d: ActiveChain, line: seq<BlockInfo>, run: seq<BlockInfo>)
      requires d.line == line + run
      ensures Own(d) == {d.head} + NodesOf(line) + NodesOf(run)
    {
    }

    lemma RangeIncluded(cs: seq<ActiveChain>, c: ActiveChain)
      requires c in cs
      ensures Range(c.start, |c.line|) <= Covered(cs)
    {
      hide Range;
    }

    lemma RangeJoin(start: nat, m: nat, n: nat)
      ensures Range(start, m + n) == Range(start, m) + Range(start + m, n)
    {
    }

    /** The other chains are below the chain or above the run. */
    lemma RestClear(b: seq<BlockData>, rest: seq<ActiveChain>, d: ActiveChain, j: nat, n: nat)
      requires End(d) == j && Clear(rest, j, n) && Group(b, work, rest) && forall e :: e in rest ==> Apart(e, d)
      ensures forall e :: e in rest ==> e != d && (End(e) < d.start || j + n < e.start)
    {
      hide Carries;
      forall e | e in rest ensures e != d && (End(e) < d.start || j + n < e.start) {
        CarriesFacts(b, e.start, e.line);
      }
    }

    lemma StillApart(e: ActiveChain, d: ActiveChain, end: nat)
      requires e != d && Own(e) !! Own(d) && End(d) == end && (End(e) < d.start || end < e.start)
      ensures Apart(e, d) && Apart(d, e)
    {
    }

    /** A chain that has grown, back among the others. */
    lemma PutBack(b: seq<BlockData>, cs: seq<ActiveChain>, k: nat)
      requires k < |cs| && Group(b, work, Without(cs, k)) && ValidChain(b, work, cs[k])
      requires forall i :: 0 <= i < |cs| && i != k ==> cs[i] != cs[k]
      requires forall e :: e in Without(cs, k) ==> Apart(e, cs[k]) && Apart(cs[k], e)
      requires forall e :: e in Without(cs, k) <==> e in cs && e != cs[k]
      ensures Group(b, work, cs) && OwnAll(cs) == OwnAll(Without(cs, k)) + Own(cs[k])
      ensures Covered(cs) == Covered(Without(cs, k)) + Range(cs[k].start, |cs[k].line|)
    {
      hide ValidChain, Own, Apart, Range;
      var rest := Without(cs, k);
      assert OwnAll(cs) == OwnAll(rest) + Own(cs[k]);
      assert Covered(cs) == Covered(rest) + Range(cs[k].start, |cs[k].line|);
      forall x, y | 0 <= x < |cs| && 0 <= y < |cs| && x != y ensures Apart(cs[x], cs[y]) {
        if x == k {
          assert cs[y] in rest;
        } else if y == k {
          assert cs[x] in rest;
        } else {
          var n := |cs| - 1;
          var x', y' := if x == n then k else x, if y == n then k else y;
          assert rest[x'] == cs[x] && rest[y'] == cs[y];
        }
      }
    }

    /** Rule III: the run becomes a chain of its own, whose head is indexed too. */
    method FoundChain(orphan: BlockInfo, ghost b: seq<BlockData>, ghost j: nat, ghost run: seq<BlockInfo>)
      returns (c: ActiveChain)
      requires Linear(b) && Positive(work) && Pending(b, work, chains, search, j, run) && 0 < j < |b|
      requires b[j - 1].hash !in search
      requires run != [] && orphan == run[0] && forall e :: e in chains ==> End(e) != j
      requires |run| == 1 || T.Summed(T.Visits(ForestOf(run), 0.0, work))
      modifies this`chains, this`search, NodesOf(run)`parent, NodesOf(run)`cumulative
      ensures Group(b, work, chains) && Indexed(OwnAll(chains), search)
      ensures chains == old(chains) + [c] && c.start == j && c.line == run && fresh(c) && fresh(c.head)
      ensures OwnAll(chains) == old(OwnAll(chains)) + NodesOf(run) + {c.head}
      ensures Covered(chains) == old(Covered(chains)) + Range(j, |run|)
    {
      hide ValidChain, Run, Indexed, Covered, Group, AllApart, Apart, Range, T.Visits, ForestOf, Own, NodesOf,
        OwnAll, Clear;
      ghost var rest := chains;
      ClearBelow(rest, j, |run|);
      ghost var nodes := OwnAll(rest) + NodesOf(run);
      OwnAllocated(rest);
      RunAllocated(run);
      assert Indexed(nodes, search);
      c := FoundRest(orphan, b, j, run, rest);
      assert Indexed(nodes, search);
      IndexedAdd(nodes, search, c.head);
      WithGroup(b, work, rest, c);
      WithCovered(rest, c);
      search := search[c.head.hash := c.head];
      chains := chains + [c];
      assert OwnAll(rest) + NodesOf(run) + {c.head} == OwnAll(rest) + Own(c);
    }

    lemma RunAllocated(run: seq<BlockInfo>)
      ensures forall n :: n in NodesOf(run) ==> allocated(n)
    {
    }

    lemma OwnAllocated(cs: seq<ActiveChain>)
      ensures forall n :: n in OwnAll(cs) ==> allocated(n)
    {
    }

    lemma ChainsAllocated(cs: seq<ActiveChain>)
      ensures forall c :: c in cs ==> allocated(c)
    {
    }

    lemma ClearBelow(cs: seq<ActiveChain>, j: nat, n: nat)
      requires Clear(cs, j, n) && forall e :: e in cs ==> End(e) != j
      ensures forall e :: e in cs ==> End(e) < j || j + n < e.start
    {
    }

    /** The new chain, apart from the others. */
    method FoundRest(orphan: BlockInfo, ghost b: seq<BlockData>, ghost j: nat, ghost run: seq<BlockInfo>,
                     ghost rest: seq<ActiveChain>)
      returns (c: ActiveChain)
      requires Linear(b) && Positive(work) && Group(b, work, rest) && Run(b, j, run, null)
      requires NodesOf(run) !! OwnAll(rest)
      requires run != [] && orphan == run[0] && forall e :: e in rest ==> End(e) < j || j + |run| < e.start
      requires |run| == 1 || T.Summed(T.Visits(ForestOf(run), 0.0, work))
      modifies NodesOf(run)`parent, NodesOf(run)`cumulative
      ensures fresh(c) && fresh(c.head) && Group(b, work, rest) && ValidChain(b, work, c) && c.start == j
      ensures c.line == run
      ensures 0 < j <= |b| && c.head.hash == b[j - 1].hash && Own(c) == {c.head} + NodesOf(run)
      ensures OwnAll(rest) == old(OwnAll(rest)) && Covered(rest) == old(Covered(rest))
      ensures forall e :: e in rest ==> Apart(e, c) && Apart(c, e)
    {
      hide ValidChain, Run, Covered, Group, AllApart, Apart, Range, T.Visits, ForestOf;
      hide Own, OwnAll, Linear;
      OwnIncluded(rest);
      OwnAllocated(rest);
      ghost var all := OwnAll(rest);
      c := Found(work, orphan, j, run, b);
      HeadHash(b, c);
      GrownOwn(c, run, []);
      forall e | e in rest ensures Apart(e, c) && Apart(c, e) {
        StillApart(e, c, j + |run|);
      }
    }

    lemma HeadHash(b: seq<BlockData>, c: ActiveChain)
      requires ValidChain(b, work, c)
      ensures 0 < c.start <= |b| && c.head.hash == b[c.start - 1].hash && c.line + [] == c.line
    {
      hide Carries;
      CarriesData(b, c.start, c.line);
    }

    /** get_current_chain, from the last node of a chain. */
    method CurrentChain(parent: BlockInfo, ghost b: seq<BlockData>, ghost d: ActiveChain) returns (c: ActiveChain)
      requires ValidChain(b, work, d) && d.line != [] && parent == d.line[|d.line| - 1]
      ensures c == d
    {
      hide Carries;
      ghost var w := [d.head] + d.line;
      ChainSingle(b, work, d);
      SinglePath(w);
      assert w[|w| - 1] == parent;
      var head := Head(parent, KidsOf(w), Upward(w));
      c := head.owner;
    }

    /** Rules I to III: the run joins the chain of its parent or becomes a new one. */
    method Attach(orphan: BlockInfo, ghost b: seq<BlockData>, ghost j: nat, ghost run: seq<BlockInfo>)
      returns (c: ActiveChain)
      requires 0 < j < |b| && run != [] && orphan == run[0] && orphan.hdr.prevHash == b[j - 1].hash
      requires Linear(b) && Positive(work) && Pending(b, work, chains, search, j, run)
      requires |run| == 1 || T.Summed(T.Visits(ForestOf(run), 0.0, work))
      modifies this`chains, this`search, (set c | c in chains)`line, (set c | c in chains)`longestEnd
      modifies (OwnAll(chains) + NodesOf(run))`firstChild, (OwnAll(chains) + NodesOf(run))`nextSibling
      modifies (OwnAll(chains) + NodesOf(run))`parent, (OwnAll(chains) + NodesOf(run))`cumulative
      ensures c in chains && c.start <= j < End(c) && End(c) >= j + |run|
      ensures Covered(chains) == old(Covered(chains)) + Range(j, |run|)
      ensures forall e :: e in chains && e != c ==> e in old(chains) && e.start == old(e.start)
      ensures Own(c) <= OwnAll(chains) <= old(OwnAll(chains)) + NodesOf(run) + {c.head}
      ensures (c in old(chains) && c.head in old(OwnAll(chains))) || (fresh(c) && fresh(c.head))
      ensures c.start == j || (c in old(chains) && c.start == old(c.start))
      ensures Group(b, work, chains) && Indexed(OwnAll(chains), search)
    {
      hide ValidChain, Run, Indexed, Covered, Group, AllApart, Apart, Range, T.Visits, ForestOf, Pending,
        Own, OwnAll, NodesOf, Linear, Positive;
      ghost var d := FindParent(b, j, run);
      if orphan.hdr.prevHash in search {
        var parent := search[orphan.hdr.prevHash];
        PendingChain(b, j, run, d);
        InOwn(d);
        OwnAllocated(chains);
        RunAllocated(run);
        c := CurrentChain(parent, b, d);
        JoinChain(c, parent, orphan, b, j, run);
      } else {
        c := FoundChain(orphan, b, j, run);
      }
      OwnIncluded(chains);
      InOwn(c);
    }

    lemma PendingChain(b: seq<BlockData>, j: nat, run: seq<BlockInfo>, d: ActiveChain)
      requires Pending(b, work, chains, search, j, run) && d in chains
      ensures ValidChain(b, work, d) && Own(d) <= OwnAll(chains)
    {
      hide ValidChain;
    }

    /** update_first_child_cumulative_difficulty: the sums of a line on top of the main chain. */
    method SumFirstChildren(first: BlockInfo, base: real, ghost line: seq<BlockInfo>)
      requires line != [] && first == line[0] && Line(line) && NoRepeats(line) && Positive(main.work)
      modifies NodesOf(line)`cumulative
      ensures line[|line| - 1].cumulative > base
    {
      var child: BlockInfo? := first;
      var sum := base;
      ghost var i := 0;
      while child != null
        invariant i <= |line| && child == (if i < |line| then line[i] else null)
        invariant sum >= base && (i > 0 ==> sum > base && line[i - 1].cumulative == sum)
        decreases |line| - i
      {
        assert line[i].firstChild == Next(line, i);
        sum := sum + main.work(child.hdr.bits);
        child.cumulative := sum;
        child := child.firstChild;
        i := i + 1;
      }
    }

    /** The first children leave the index, one after the other. */
    method ForgetLine(child0: BlockInfo?, ghost line: seq<BlockInfo>, ghost others: set<BlockInfo>)
      requires Line(line) && NoRepeats(line) && child0 == First(line)
      requires Indexed(others + NodesOf(line), search) && others !! NodesOf(line)
      modifies this`search
      ensures Indexed(others, search)
    {
      var child := child0;
      ghost var i := 0;
      assert line[0..] == line;
      while child != null
        invariant i <= |line| && child == First(line[i..])
        invariant Indexed(others + NodesOf(line[i..]), search)
        decreases |line| - i
      {
        assert line[i].firstChild == Next(line, i);
        Shrink(line, i, others);
        IndexedRemove(others + NodesOf(line[i..]), search, child);
        search := search - {child.hash};
        child := child.firstChild;
        i := i + 1;
      }
      assert others + NodesOf(line[i..]) == others;
    }

    lemma Shrink(line: seq<BlockInfo>, i: nat, others: set<BlockInfo>)
      requires NoRepeats(line) && i < |line| && others !! NodesOf(line)
      ensures line[i] in NodesOf(line[i..])
      ensures others + NodesOf(line[i..]) - {line[i]} == others + NodesOf(line[i + 1..])
      ensures First(line[i + 1..]) == Next(line, i)
    {
      assert line[i] == line[i..][0];
      assert line[i..] == [line[i]] + line[i + 1..];
      assert line[i] !in line[i + 1..];
      assert line[i] in line;
    }

    /** abandon_siblings: on a line there is none. */
    method AbandonSiblings(successor: BlockInfo?, ghost line: seq<BlockInfo>)
      requires Line(line) && successor == First(line) && forall i :: 0 <= i < |line| ==> line[i].nextSibling == null
      modifies NodesOf(line)`nextSibling
      ensures forall n :: n in line ==> n.nextSibling == null
      decreases |line|
    {
      if successor == null { return; }
      successor.nextSibling := null;
      assert line[0].firstChild == Next(line, 0);
      ghost var tail := line[1..];
      forall i | 0 <= i < |tail| ensures tail[i].firstChild == Next(tail, i) && tail[i].nextSibling == null {
        assert line[i + 1].firstChild == Next(line, i + 1);
      }
      AbandonSiblings(successor.firstChild, tail);
    }

    /** Replaces what is above the tip: on a chain without forks nothing is, so nothing is abandoned. */
    method Replace(p: nat, successor: BlockInfo, ghost line: seq<BlockInfo>)
      requires main.Valid() && p == main.height && Line(line) && successor == First(line)
      requires Fits(main.Chain(), Data(line)) && p + |line| + 1 <= main.heirs.Length
      modifies main, main.heirs
      ensures main.Valid() && main.Chain() == Extended(old(main.Chain()), Data(line), main.work)
    {
      hide BlockChain.Valid, Fits, Linked, Distinct, Extended, Line;
      ghost var chain := main.Chain();
      WholeChain(chain, p);
      DataAllocated(line);
      ghost var d := Data(line);
      var orphans, none := main.Abandon(p);
      assert none == [] && Data(line) == d;
      orphans, none := main.AddInheritances(p, successor, line);
    }

    lemma WholeChain(c: seq<Heir>, p: nat)
      requires |c| == p + 1
      ensures c[..p + 1] == c && c[..p + 1][..p + 1] == c
    {
    }

    lemma DataAllocated(line: seq<BlockInfo>)
      ensures forall n :: n in line ==> allocated(n)
    {
    }

    method Extend(p: nat, successor: BlockInfo, ghost line: seq<BlockInfo>, ghost b: seq<BlockData>)
      requires Linear(b) && MainHolds(b, main) && p == main.height && Carries(b, p + 1, line) && successor == line[0]
      modifies main, main.heirs
      ensures MainHolds(b, main) && main.height == p + |line|
    {
      hide BlockChain.Valid, Carries, Linear, Fits, Extended;
      ghost var chain := main.Chain();
      CarriesData(b, p + 1, line);
      FitsOnTop(b, main, line);
      ExtendedHolds(b, chain, line, main.work);
      LineOnly(b, p + 1, line);
      ghost var d := Data(line);
      Replace(p, successor, line);
      assert |main.Chain()| == |chain| + |line|;
    }

    lemma LineOnly(b: seq<BlockData>, start: nat, line: seq<BlockInfo>)
      requires Carries(b, start, line)
      ensures line != [] && Line(line) && First(line) == line[0] && forall n :: n in line ==> allocated(n)
    {
    }

    ghost predicate Valid(b: seq<BlockData>)
      reads this, main, main.heirs, chains, OwnAll(chains)
    {
      && Linear(b) && Positive(work) && Positive(main.work) && MainHolds(b, main)
      && Group(b, work, chains) && Indexed(OwnAll(chains), search)
      && (forall c :: c in chains ==> c.start >= main.height + 2)
    }

    /** Where the parent of a chain is on the main chain. */
    method FindHead(hash: Hash, ghost b: seq<BlockData>, ghost j: nat) returns (p: int)
      requires Linear(b) && MainHolds(b, main) && j < |b| && b[j].hash == hash
      ensures p == if j <= main.height then j else -1
    {
      p := main.Find(hash);
      ghost var c := main.Chain();
      assert forall i :: 0 <= i <= main.height ==> c[i] == main.heirs[i];
      assert forall i :: 0 <= i <= main.height ==> main.heirs[i].hash == b[i].hash by {
        forall i | 0 <= i <= main.height ensures main.heirs[i].hash == b[i].hash {
          assert BlockData(c[i].hash, c[i].hdr) == b[i];
        }
      }
    }

    /** Rule IV: a chain whose parent is the tip of the main chain moves onto it as a whole. */
    method Promote(c: ActiveChain, p: nat, ghost b: seq<BlockData>, ghost k: nat)
      requires Linear(b) && Positive(main.work) && MainHolds(b, main) && Group(b, work, chains)
      requires Indexed(OwnAll(chains), search)
      requires k < |chains| && chains[k] == c && p == main.height && c.start == p + 1
      modifies this`chains, this`search, main, main.heirs
      modifies Own(c)`cumulative, Own(c)`nextSibling, Own(c)`firstChild
      ensures MainHolds(b, main) && main.height == p + |c.line|
      ensures chains == Without(old(chains), k) && Group(b, work, chains) && Indexed(OwnAll(chains), search)
      ensures c.line == old(c.line) && c.start == old(c.start) && OwnAll(chains) <= old(OwnAll(chains))
    {
      hide ValidChain, Run, Carries, Indexed, Group, AllApart, Apart, Without, MainHolds, Positive, Linear, Line,
        NoRepeats, Covered;
      ghost var rest, line := Without(chains, k), c.line;
      MembersValid(b, chains, c);
      OthersApart(b, chains, k);
      WithoutGroup(b, work, chains, k);
      ChainFacts(b, c);
      assert OwnAll(chains) == OwnAll(rest) + {c.head} + NodesOf(line);
      assert OwnAll(rest) !! Own(c) && OwnAll(rest) <= OwnAll(chains);
      PromoteRest(c, p, b, k, rest);
    }

    /** The same, with the other chains set apart. */
    method PromoteRest(c: ActiveChain, p: nat, ghost b: seq<BlockData>, ghost k: nat, ghost rest: seq<ActiveChain>)
      requires Linear(b) && Positive(main.work) && MainHolds(b, main) && p == main.height && c.start == p + 1
      requires k < |chains| && chains[k] == c && rest == Without(chains, k) && Group(b, work, rest)
      requires forall i :: 0 <= i < |chains| && i != k ==> chains[i] != c
      requires c.line != [] && NoRepeats(c.line) && Line(c.line) && c.head !in c.line && Carries(b, c.start, c.line)
      requires c.head.firstChild == c.line[0] && c.longestEnd == c.line[|c.line| - 1]
      requires forall i :: 0 <= i < |c.line| ==> c.line[i].nextSibling == null
      requires OwnAll(rest) !! Own(c) && Indexed(OwnAll(rest) + {c.head} + NodesOf(c.line), search)
      modifies this`chains, this`search, main, main.heirs
      modifies Own(c)`cumulative, Own(c)`nextSibling, Own(c)`firstChild
      ensures MainHolds(b, main) && main.height == p + |c.line|
      ensures chains == rest && Group(b, work, chains) && Indexed(OwnAll(chains), search)
      ensures c.line == old(c.line) && c.start == old(c.start) && OwnAll(chains) == old(OwnAll(rest))
    {
      hide Carries, Indexed, Group, Without, MainHolds, Positive, Linear, Line, NoRepeats, OwnAll;
      ghost var line := c.line;
      OwnAllocated(rest);
      InOwn(c);
      assert NodesOf(line) <= Own(c);
      MainTip(b, main);
      SumFirstChildren(c.head.firstChild, main.heirs[p].cumulative, line);
      if c.longestEnd.cumulative > main.heirs[main.height].cumulative {
        var successor := c.head.firstChild;
        Extend(p, successor, line, b);
        LeaveList(c, successor, b, k, rest);
      }
    }

    lemma MainTip(b: seq<BlockData>, m: BlockChain)
      requires MainHolds(b, m)
      ensures 0 <= m.height < m.heirs.Length
    {
    }

    lemma ChainFacts(b: seq<BlockData>, c: ActiveChain)
      requires ValidChain(b, work, c)
      ensures c.line != [] && NoRepeats(c.line) && Line(c.line) && Carries(b, c.start, c.line) && c.head !in c.line
      ensures c.head.firstChild == c.line[0] && c.longestEnd == c.line[|c.line| - 1]
      ensures forall i :: 0 <= i < |c.line| ==> c.line[i].nextSibling == null
    {
    }

    /** The promoted nodes leave the index and the list. */
    method LeaveList(c: ActiveChain, successor: BlockInfo, ghost b: seq<BlockData>, ghost k: nat,
                     ghost rest: seq<ActiveChain>)
      requires k < |chains| && chains[k] == c && rest == Without(chains, k) && Group(b, work, rest)
      requires forall i :: 0 <= i < |chains| && i != k ==> chains[i] != c
      requires c.line != [] && NoRepeats(c.line) && Line(c.line) && successor == c.line[0] && c.head !in c.line
      requires forall i :: 0 <= i < |c.line| ==> c.line[i].nextSibling == null
      requires OwnAll(rest) !! Own(c) && Indexed(OwnAll(rest) + {c.head} + NodesOf(c.line), search)
      modifies this`chains, this`search, Own(c)`nextSibling, Own(c)`firstChild
      ensures chains == rest && Group(b, work, chains) && Indexed(OwnAll(chains), search)
      ensures c.line == old(c.line) && c.start == old(c.start)
    {
      hide Indexed, Group, Without, NoRepeats, OwnAll, Own, NodesOf, Line;
      ghost var tail := c.line[1..];
      TailLine(c.line);
      ghost var all := OwnAll(rest);
      ghost var others := all + {c.head} + {successor};
      LeaveSets(c, tail, all);
      OwnAllocated(rest);
      ForgetLine(successor.firstChild, tail, others);
      IndexedRemove(others, search, successor);
      IndexedRemove(others - {successor}, search - {successor.hash}, c.head);
      LetGo(c, successor, tail);
      search := search - {successor.hash};
      if c.head.firstChild == null { Remove(c, k); }
    }

    /** The head gives up its first child. */
    method LetGo(c: ActiveChain, successor: BlockInfo, ghost tail: seq<BlockInfo>)
      requires c.head in Own(c) && NodesOf(tail) <= Own(c) && successor.nextSibling == null
      requires Line(tail) && successor.firstChild == First(tail) && c.head != successor
      requires c.head !in tail && forall i :: 0 <= i < |tail| ==> tail[i].nextSibling == null
      modifies Own(c)`nextSibling, Own(c)`firstChild
      ensures c.head.firstChild == null
    {
      hide Own;
      c.head.firstChild := successor.nextSibling;
      assert forall i :: 0 <= i < |tail| ==> tail[i].firstChild == Next(tail, i);
      AbandonSiblings(successor.firstChild, tail);
    }

    lemma LeaveSets(c: ActiveChain, tail: seq<BlockInfo>, all: set<BlockInfo>)
      requires c.line != [] && c.head !in c.line && NodesOf(c.line) == {c.line[0]} + NodesOf(tail) && c.line[0] !in tail
      requires all !! Own(c)
      ensures var others := all + {c.head} + {c.line[0]};
        && all + {c.head} + NodesOf(c.line) == others + NodesOf(tail) && others !! NodesOf(tail)
        && others - {c.line[0]} - {c.head} == all && c.head != c.line[0] && c.head !in tail
      ensures c.head in Own(c) && NodesOf(tail) <= Own(c) && c.line[0] in Own(c)
    {
      assert c.line[0] in c.line;
      forall n | n in tail ensures n in c.line {
        assert n in NodesOf(tail);
        assert n in NodesOf(c.line);
      }
    }

    lemma TailLine(line: seq<BlockInfo>)
      requires line != [] && NoRepeats(line) && Line(line)
      requires forall i :: 0 <= i < |line| ==> line[i].nextSibling == null
      ensures var tail := line[1..];
        && Line(tail) && NoRepeats(tail) && line[0].firstChild == First(tail) && line[0] !in tail
        && NodesOf(line) == {line[0]} + NodesOf(tail)
        && (forall i :: 0 <= i < |tail| ==> tail[i].nextSibling == null)
    {
      var tail := line[1..];
      assert line == [line[0]] + tail;
      assert line[0].firstChild == Next(line, 0);
      forall i | 0 <= i < |tail| ensures tail[i].firstChild == Next(tail, i) {
        assert line[i + 1].firstChild == Next(line, i + 1);
      }
    }

    /** The numbers of the blocks that have been delivered. */
    ghost function Delivered(): set<nat>
      reads this, main, (set c | c in chains)`start, (set c | c in chains)`line
    {
      Range(1, if main.height < 0 then 0 else main.height) + Covered(chains)
    }

    /** The sub-rule or a new node: what is to be attached for a block that is not there yet. */
    method Collect(hash: Hash, hdr: Header, ghost b: seq<BlockData>, ghost j: nat)
      returns (orphan: BlockInfo, ghost run: seq<BlockInfo>)
      requires Linear(b) && Positive(work) && Group(b, work, chains) && Indexed(OwnAll(chains), search)
      requires 0 < j < |b| && b[j] == BlockData(hash, hdr) && j !in Covered(chains)
      modifies this`chains, this`search
      modifies OwnAll(chains)`firstChild, OwnAll(chains)`parent, OwnAll(chains)`cumulative
      ensures Pending(b, work, chains, search, j, run) && run != [] && orphan == run[0] && orphan.hdr == hdr
      ensures |run| == 1 || T.Summed(T.Visits(ForestOf(run), 0.0, work))
      ensures Covered(chains) + Range(j, |run|) == old(Covered(chains)) + {j}
      ensures forall e :: e in chains ==> e in old(chains) && e.start == old(e.start)
      ensures OwnAll(chains) <= old(OwnAll(chains))
      ensures forall n :: n in run ==> fresh(n) || n in old(OwnAll(chains))
    {
      hide ValidChain, Run, Indexed, Group, AllApart, Apart, Without, Covered, T.Visits, T.Summed, ForestOf, Pending,
        Range;
      LookUp(b, work, chains, search, j);
      OwnIncluded(chains);
      if hash in search {
        orphan, run := CollectWaiting(search[hash].owner, hash, hdr, b, j);
      } else {
        orphan := TakeNew(hash, hdr, b, j);
        run := [orphan];
        PendingHead(b, j, run);
        RangeCons(j, 0);
      }
    }

    method CollectWaiting(c: ActiveChain, hash: Hash, hdr: Header, ghost b: seq<BlockData>, ghost j: nat)
      returns (orphan: BlockInfo, ghost run: seq<BlockInfo>)
      requires Linear(b) && Positive(work) && Group(b, work, chains) && Indexed(OwnAll(chains), search)
      requires 0 < j < |b| && b[j] == BlockData(hash, hdr) && c in chains && c.start == j + 1
      modifies this`chains, this`search, Own(c)`firstChild, Own(c)`parent, Own(c)`cumulative
      ensures Pending(b, work, chains, search, j, run) && run != [] && orphan == run[0] && orphan.hdr == hdr
      ensures T.Summed(T.Visits(ForestOf(run), 0.0, work))
      ensures Covered(chains) + Range(j, |run|) == old(Covered(chains)) + {j}
      ensures forall e :: e in chains ==> e in old(chains) && e.start == old(e.start)
      ensures OwnAll(chains) <= old(OwnAll(chains))
      ensures forall n :: n in run ==> fresh(n) || n in old(OwnAll(chains))
    {
      hide ValidChain, Run, Indexed, Group, AllApart, Apart, Without, Covered, T.Visits, T.Summed, ForestOf, Pending,
        Range, Own, OwnAll, Linear;
      ghost var k :| 0 <= k < |chains| && chains[k] == c;
      ghost var covered, line, rest := Covered(chains), c.line, Without(chains, k);
      OthersApart(b, chains, k);
      WithoutMembers(chains, k);
      WithoutCovered(chains, k);
      WithoutOwn(chains, k);
      RangeIncluded(chains, c);
      OwnIncluded(chains);
      InOwn(c);
      ChainsAllocated(rest);
      orphan := TakeOver(c, hash, hdr, b, j, k);
      assert Covered(rest) == covered - Range(j + 1, |line|);
      run := [orphan] + line;
      PendingHead(b, j, run);
      RangeCons(j, |line|);
    }

    lemma InOwn(c: ActiveChain)
      ensures c.head in Own(c) && forall n :: n in c.line ==> n in Own(c)
    {
    }

    lemma PendingHead(b: seq<BlockData>, j: nat, run: seq<BlockInfo>)
      requires Pending(b, work, chains, search, j, run)
      ensures run != [] && j < |b| && run[0].hdr == b[j].hdr
    {
      RunHead(b, j, run);
    }

    lemma RangeCons(j: nat, n: nat)
      ensures Range(j, n + 1) == {j} + Range(j + 1, n)
    {
    }

    /** Rule IV, if the chain waits for the tip of the main chain. */
    method Advance(c: ActiveChain, ghost b: seq<BlockData>)
      requires Linear(b) && Positive(work) && Positive(main.work) && MainHolds(b, main)
      requires Group(b, work, chains) && Indexed(OwnAll(chains), search) && c in chains && c.start > main.height
      requires forall e :: e in chains && e != c ==> e.start >= main.height + 2
      modifies this`chains, this`search, main, main.heirs, Own(c)`cumulative, Own(c)`nextSibling, Own(c)`firstChild
      ensures Valid(b) && Delivered() == old(Delivered())
      ensures (forall e :: e in chains ==> e in old(chains)) && OwnAll(chains) <= old(OwnAll(chains))
    {
      hide ValidChain, Run, Indexed, Group, AllApart, Apart, Without, Covered, Range, MainHolds, Linear, Positive,
        Own, OwnAll;
      ghost var k :| 0 <= k < |chains| && chains[k] == c;
      InChain(b, work, chains, c);
      MainTip(b, main);
      OwnAllocated(chains);
      var p := FindHead(c.head.hash, b, c.start - 1);
      if p == -1 { return; }
      ghost var rest, n, covered := Without(chains, k), |c.line|, Covered(chains);
      OthersApart(b, chains, k);
      WithoutMembers(chains, k);
      WithoutCovered(chains, k);
      RangeIncluded(chains, c);
      ChainsAllocated(rest);
      OthersHigher(rest, c, p);
      Promote(c, p, b, k);
      MainTip(b, main);
      RangeJoin(1, p, n);
      assert Covered(chains) == covered - Range(p + 1, n);
    }

    lemma OthersHigher(rest: seq<ActiveChain>, c: ActiveChain, p: nat)
      requires c.start == p + 1 && forall e :: e in rest ==> Apart(e, c) && e.start >= p + 2
      ensures forall e :: e in rest ==> e.start >= p + |c.line| + 2
    {
    }

    /** Every node with all its fields. */
    ghost function States(): set<State>
      reads this, (set c | c in chains)`line, OwnAll(chains)
    {
      set n | n in OwnAll(chains) ::
        State(n, n.hash, n.hdr, n.cumulative, n.parent, n.firstChild, n.nextSibling, n.owner)
    }

    /** blockchain_add: a block that is there already is refused and changes nothing; any other is recorded, and
        everything that it completes moves onto the main chain. */
    method Add(hash: Hash, hdr: Header, ghost b: seq<BlockData>, ghost j: nat) returns (rc: int)
      requires Valid(b) && j < |b| && b[j] == BlockData(hash, hdr)
      modifies this`chains, this`search, main, main.heirs, (set c | c in chains)`line, (set c | c in chains)`longestEnd
      modifies OwnAll(chains)`firstChild, OwnAll(chains)`nextSibling, OwnAll(chains)`parent, OwnAll(chains)`cumulative
      ensures Valid(b)
      ensures rc == if j == 0 || j in old(Delivered()) then -1 else 0
      ensures rc == -1 ==> unchanged(this) && unchanged(main) && unchanged(main.heirs)
      ensures rc == -1 ==> unchanged(old(chains)) && States() == old(States())
      ensures rc == 0 ==> Delivered() == old(Delivered()) + {j}
      ensures forall c :: c in chains ==> c in old(chains) || fresh(c)
      ensures forall n :: n in OwnAll(chains) ==> n in old(OwnAll(chains)) || fresh(n)
    {
      hide ValidChain, Run, Indexed, Group, Apart, Covered, Range, MainHolds, Linear, Positive;
      MainTip(b, main);
      OwnAllocated(chains);
      var p := FindHead(hash, b, j);
      if p != -1 { return -1; }
      LookUp(b, work, chains, search, j);
      if hash in search && search[hash].parent != null { return -1; }
      AddNew(hash, hdr, b, j);
      rc := 0;
    }

    /** A block that is not there yet. */
    method AddNew(hash: Hash, hdr: Header, ghost b: seq<BlockData>, ghost j: nat)
      requires Valid(b) && main.height < j < |b| && b[j] == BlockData(hash, hdr) && j !in Covered(chains)
      modifies this`chains, this`search, main, main.heirs, (set c | c in chains)`line, (set c | c in chains)`longestEnd
      modifies OwnAll(chains)`firstChild, OwnAll(chains)`nextSibling, OwnAll(chains)`parent, OwnAll(chains)`cumulative
      ensures Valid(b) && Delivered() == old(Delivered()) + {j}
      ensures forall c :: c in chains ==> c in old(chains) || fresh(c)
      ensures forall n :: n in OwnAll(chains) ==> n in old(OwnAll(chains)) || fresh(n)
    {
      hide ValidChain, Run, Indexed, Group, Apart, Covered, Range, MainHolds, Linear, Positive, Pending, T.Visits,
        T.Summed, ForestOf, Own, OwnAll, NodesOf;
      ghost var all, covered := OwnAll(chains), Covered(chains);
      MainTip(b, main);
      var orphan, run := Collect(hash, hdr, b, j);
      LinkedBlock(b, j);
      RunNodes(run);
      var c := Attach(orphan, b, j, run);
      assert Covered(chains) == covered + {j};
      Advance(c, b);
    }

    lemma RunNodes(run: seq<BlockInfo>)
      ensures forall n :: n in NodesOf(run) ==> n in run
    {
    }

    lemma LinkedBlock(b: seq<BlockData>, j: nat)
      requires Linear(b) && 0 < j < |b|
      ensures b[j].hdr.prevHash == b[j - 1].hash
    {
    }

    /** The main chain is the longest prefix without a gap. */
    lemma LongestPrefix(b: seq<BlockData>)
      requires Valid(b)
      ensures 0 <= main.height < |b| && main.height + 1 !in Delivered()
      ensures forall k :: 1 <= k <= main.height ==> k in Delivered()
      ensures forall i :: 0 <= i <= main.height ==> BlockData(main.Chain()[i].hash, main.Chain()[i].hdr) == b[i]
    {
      hide ValidChain, Apart, Own, OwnAll, BlockChain.Valid;
      MainTip(b, main);
    }

    /** Each candidate chain holds a maximal run of what else has been delivered, and every run has one chain. */
    lemma MaximalRuns(b: seq<BlockData>)
      requires Valid(b)
      ensures forall k :: k in Delivered() && k > main.height ==> exists c :: c in chains && c.start <= k < End(c)
      ensures forall c :: c in chains ==> c.start < End(c) && c.start > main.height + 1
      ensures forall c :: c in chains ==> c.start - 1 !in Delivered() && End(c) !in Delivered()
      ensures forall c, k :: c in chains && c.start <= k < End(c) ==> k in Delivered()
      ensures forall i, j :: 0 <= i < j < |chains| ==> chains[i].start != chains[j].start
    {
      hide ValidChain, BlockChain.Valid, Own, OwnAll, Linear, Positive;
      MainTip(b, main);
      forall c | c in chains
        ensures c.start < End(c) && c.start - 1 !in Delivered() && End(c) !in Delivered()
      {
        InChain(b, work, chains, c);
        NotCovered(b, c);
      }
      forall c, k | c in chains && c.start <= k < End(c) ensures k in Delivered() {
        RangeIncluded(chains, c);
        assert k in Range(c.start, |c.line|);
      }
      forall i, j | 0 <= i < j < |chains| ensures chains[i].start != chains[j].start {
        assert Apart(chains[i], chains[j]);
        InChain(b, work, chains, chains[i]);
        InChain(b, work, chains, chains[j]);
      }
    }

    lemma NotCovered(b: seq<BlockData>, c: ActiveChain)
      requires Group(b, work, chains) && c in chains && c.line != [] && c.start > 0
      ensures c.start - 1 !in Covered(chains) && End(c) !in Covered(chains)
    {
      hide ValidChain, Own, OwnAll;
      var i :| 0 <= i < |chains| && chains[i] == c;
      forall d | d in chains ensures c.start - 1 !in Range(d.start, |d.line|) && End(c) !in Range(d.start, |d.line|) {
        var j :| 0 <= j < |chains| && chains[j] == d;
        assert i != j ==> Apart(chains[i], chains[j]);
      }
    }

    /** A block that has been delivered above the main chain, or that a candidate chain waits for. */
    ghost predicate Awaited(k: nat)
      reads this, main, (set c | c in chains)`start, (set c | c in chains)`line
    {
      (k in Delivered() && k > main.height) || exists c :: c in chains && c.start == k + 1
    }

    /** The index holds the delivered blocks that are not on the main chain, and the missing parents of the runs. */
    lemma IndexedBlocks(b: seq<BlockData>, h: Hash)
      requires Valid(b)
      ensures h in search <==> exists k :: 0 <= k < |b| && b[k].hash == h && Awaited(k)
    {
      hide ValidChain, BlockChain.Valid, Own, Linear, Positive, Group;
      MainTip(b, main);
      if h in search {
        var c, i := Locate(b, work, chains, search[h]);
        var k := c.start + i;
        assert b[k].hash == h;
        if i >= 0 {
          RangeIncluded(chains, c);
          assert k in Range(c.start, |c.line|);
          InChain(b, work, chains, c);
        }
      }
      forall k | 0 <= k < |b| && b[k].hash == h && k in Delivered() && k > main.height ensures h in search {
        LookUp(b, work, chains, search, k);
      }
      forall c | c in chains && c.start - 1 < |b| && c.start > 0 && b[c.start - 1].hash == h ensures h in search {
        InChain(b, work, chains, c);
      }
    }
  }

  ghost function Numbers(order: seq<nat>): set<nat> {
    set k | k in order && k > 0
  }

  /** Every order of delivery, with repeats: what is on the main chain and in the list depends on the set of the
      delivered blocks alone. */
  method Assemble(main: BlockChain, work: Work, order: seq<nat>, b: seq<BlockData>) returns (store: Store)
    requires Linear(b) && Positive(work) && Positive(main.work) && MainHolds(b, main) && main.height == 0
    requires forall i :: 0 <= i < |order| ==> order[i] < |b|
    modifies main, main.heirs
    ensures fresh(store) && store.main == main && store.Valid(b)
    ensures store.Delivered() == Numbers(order)
  {
    hide Linear, Positive, MainHolds, Group, Indexed, OwnAll, Covered;
    store := new Store(main, work);
    EmptyStore(b, store);
    var i := 0;
    assert order[..0] == [];
    while i < |order|
      invariant i <= |order| && fresh(store) && store.main == main && store.Valid(b)
      invariant (forall c :: c in store.chains ==> fresh(c)) && forall n :: n in OwnAll(store.chains) ==> fresh(n)
      invariant store.Delivered() == Numbers(order[..i])
    {
      var j := order[i];
      var rc := store.Add(b[j].hash, b[j].hdr, b, j);
      DeliveredMore(order, i);
      i := i + 1;
    }
    assert order[..i] == order;
  }

  lemma DeliveredMore(order: seq<nat>, i: nat)
    requires i < |order|
    ensures Numbers(order[..i + 1]) == Numbers(order[..i]) + (if order[i] > 0 then {order[i]} else {})
  {
    assert order[..i + 1] == order[..i] + [order[i]];
  }

  lemma EmptyStore(b: seq<BlockData>, store: Store)
    requires Linear(b) && Positive(store.work) && Positive(store.main.work) && MainHolds(b, store.main)
    requires store.main.height == 0 && store.chains == [] && store.search == map[]
    ensures store.Valid(b) && store.Delivered() == {} && OwnAll(store.chains) == {}
  {
    hide Linear, Positive, MainHolds;
  }
}
