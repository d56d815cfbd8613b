/** The main chain, after src/chains.c and src/spv_node_app.c: an array of heirs with a search index and a database
    of headers that follow every change. */
module MainChain {
  import opened BlockNodes
  import L = Locator

  datatype Heir = Heir(hash: Hash, timestamp: nat, bits: nat, cumulative: real, hdr: Header)

  datatype Record = Record(height: nat, hdr: Header)

  // ----- Specification -----

  ghost predicate Linked(c: seq<Heir>, work: Work) {
    && (forall i :: 0 <= i < |c| ==> c[i].bits == c[i].hdr.bits && c[i].timestamp == c[i].hdr.timestamp)
    && (forall i :: 0 < i < |c| ==>
          && c[i].hdr.prevHash == c[i - 1].hash
          && c[i].cumulative == c[i - 1].cumulative + work(c[i].bits))
  }

  ghost predicate Distinct(c: seq<Heir>) {
    forall i, j :: 0 <= i < j < |c| ==> c[i].hash != c[j].hash
  }

  /** The search index: where each hash is. */
  function IndexOf(c: seq<Heir>): map<Hash, nat> {
    if c == [] then map[] else IndexOf(c[..|c| - 1])[c[|c| - 1].hash := |c| - 1]
  }

  /** The headers database: everything above the genesis block. */
  function RecordsOf(c: seq<Heir>): map<Hash, Record> {
    if |c| <= 1 then map[]
    else RecordsOf(c[..|c| - 1])[c[|c| - 1].hash := Record(|c| - 1, c[|c| - 1].hdr)]
  }

  function HeirOf(parent: Heir, b: BlockData, work: Work): Heir {
    Heir(b.hash, b.hdr.timestamp, b.hdr.bits, parent.cumulative + work(b.hdr.bits), b.hdr)
  }

  /** A chain with more blocks on top. */
  function Extended(c: seq<Heir>, blocks: seq<BlockData>, work: Work): (r: seq<Heir>)
    requires c != []
    ensures |r| == |c| + |blocks| && r[..|c|] == c
    decreases |blocks|
  {
    if blocks == [] then c
    else Extended(c + [HeirOf(c[|c| - 1], blocks[0], work)], blocks[1..], work)
  }

  /** Blocks that fit on top of a chain: each names the one before, and no hash occurs twice. */
  ghost predicate Fits(c: seq<Heir>, blocks: seq<BlockData>) {
    && c != []
    && (blocks != [] ==> blocks[0].hdr.prevHash == c[|c| - 1].hash)
    && (forall i :: 0 < i < |blocks| ==> blocks[i].hdr.prevHash == blocks[i - 1].hash)
    && (forall i, j :: 0 <= i < |c| && 0 <= j < |blocks| ==> c[i].hash != blocks[j].hash)
    && (forall i, j :: 0 <= i < j < |blocks| ==> blocks[i].hash != blocks[j].hash)
  }

  /** What an abandoned heir leaves: hash, parent, bits and time. */
  function Exported(c: seq<Heir>, i: nat): BlockData
    requires 0 < i < |c|
  {
    BlockData(c[i].hash, Header(c[i - 1].hash, c[i].bits, c[i].timestamp, 0))
  }

  lemma {:induction false} IndexMembers(c: seq<Heir>)
    requires Distinct(c)
    ensures forall h :: h in IndexOf(c) <==> exists i :: 0 <= i < |c| && c[i].hash == h
    ensures forall i :: 0 <= i < |c| ==> c[i].hash in IndexOf(c) && IndexOf(c)[c[i].hash] == i
  {
    if c != [] {
      var t := c[..|c| - 1];
      IndexMembers(t);
      forall h ensures h in IndexOf(c) <==> exists i :: 0 <= i < |c| && c[i].hash == h {
        if h in IndexOf(t) {
          var i :| 0 <= i < |t| && t[i].hash == h;
          assert c[i].hash == h;
        }
        if i :| 0 <= i < |c| && c[i].hash == h {
          if i < |t| { assert t[i].hash == h; }
        }
        if h == c[|c| - 1].hash { assert exists i :: 0 <= i < |c| && c[i].hash == h; }
      }
      forall i | 0 <= i < |c| ensures c[i].hash in IndexOf(c) && IndexOf(c)[c[i].hash] == i {
        if i < |t| { assert t[i].hash in IndexOf(t) && c[i].hash != c[|c| - 1].hash; }
      }
    }
  }

  /** The database holds every block above the genesis block, with its height and its header. */
  lemma {:induction false} RecordAt(c: seq<Heir>, i: nat)
    requires Distinct(c) && 0 < i < |c|
    ensures c[i].hash in RecordsOf(c) && RecordsOf(c)[c[i].hash] == Record(i, c[i].hdr)
    decreases |c|
  {
    var t := c[..|c| - 1];
    if i < |t| {
      RecordAt(t, i);
      assert t[i].hash != c[|c| - 1].hash;
    }
  }

  lemma {:induction false} RecordMembers(c: seq<Heir>)
    ensures forall h :: h in RecordsOf(c) ==> exists i :: 0 < i < |c| && c[i].hash == h
  {
    if |c| > 1 {
      var t := c[..|c| - 1];
      RecordMembers(t);
      forall h | h in RecordsOf(c) ensures exists i :: 0 < i < |c| && c[i].hash == h {
        if h == c[|c| - 1].hash {
          assert 0 < |c| - 1 < |c|;
        } else {
          assert h in RecordsOf(t);
          var i :| 0 < i < |t| && t[i].hash == h;
          assert c[i].hash == h;
        }
      }
    }
  }

  /** Dropping the last heir drops its hash from index and database. */
  lemma DropLast(c: seq<Heir>)
    requires Distinct(c) && |c| > 1
    ensures var t := c[..|c| - 1]; var h := c[|c| - 1].hash;
      && IndexOf(c) - {h} == IndexOf(t) && RecordsOf(c) - {h} == RecordsOf(t)
      && h in IndexOf(c) && h in RecordsOf(c)
  {
    var t := c[..|c| - 1];
    IndexMembers(t);
    RecordMembers(t);
    var h := c[|c| - 1].hash;
    assert h !in IndexOf(t);
    assert h !in RecordsOf(t);
  }

  lemma DistinctPrefix(c: seq<Heir>, n: nat)
    requires Distinct(c) && n <= |c|
    ensures Distinct(c[..n])
  {
  }

  lemma LinkedPrefix(c: seq<Heir>, n: nat, work: Work)
    requires Linked(c, work) && n <= |c|
    ensures Linked(c[..n], work)
  {
  }

  lemma AddLast(c: seq<Heir>, x: Heir)
    requires c != [] && Distinct(c) && forall i :: 0 <= i < |c| ==> c[i].hash != x.hash
    ensures IndexOf(c + [x]) == IndexOf(c)[x.hash := |c|]
    ensures RecordsOf(c + [x]) == RecordsOf(c)[x.hash := Record(|c|, x.hdr)]
    ensures x.hash !in IndexOf(c) && x.hash !in RecordsOf(c) && Distinct(c + [x])
  {
    assert (c + [x])[..|c|] == c;
    IndexMembers(c);
    RecordMembers(c);
  }

  lemma FitsStep(c: seq<Heir>, blocks: seq<BlockData>, work: Work)
    requires Fits(c, blocks) && blocks != [] && Distinct(c) && Linked(c, work)
    ensures var x := HeirOf(c[|c| - 1], blocks[0], work);
      && Fits(c + [x], blocks[1..]) && Distinct(c + [x]) && Linked(c + [x], work)
      && forall i :: 0 <= i < |c| ==> c[i].hash != x.hash
  {
    assert blocks[0].hdr.prevHash == c[|c| - 1].hash;
    LinkedStep(c, HeirOf(c[|c| - 1], blocks[0], work), work);
  }

  lemma LinkedStep(c: seq<Heir>, x: Heir, work: Work)
    requires c != [] && Linked(c, work) && x.bits == x.hdr.bits && x.timestamp == x.hdr.timestamp
    requires x.hdr.prevHash == c[|c| - 1].hash && x.cumulative == c[|c| - 1].cumulative + work(x.bits)
    ensures Linked(c + [x], work)
  {
    var d := c + [x];
    forall i | 0 < i < |d|
      ensures d[i].hdr.prevHash == d[i - 1].hash && d[i].cumulative == d[i - 1].cumulative + work(d[i].bits)
    {
      assert d[i - 1] == c[i - 1];
    }
  }

  /** Extending a linked chain by blocks that fit gives a linked chain with running sums. */
  lemma {:induction false} ExtendedLinked(c: seq<Heir>, blocks: seq<BlockData>, work: Work)
    requires Fits(c, blocks) && Distinct(c) && Linked(c, work)
    ensures Distinct(Extended(c, blocks, work)) && Linked(Extended(c, blocks, work), work)
    decreases |blocks|
  {
    if blocks != [] {
      FitsStep(c, blocks, work);
      ExtendedLinked(c + [HeirOf(c[|c| - 1], blocks[0], work)], blocks[1..], work);
    }
  }

  /** An entry of the extension, without recursion. */
  lemma {:induction false} ExtendedAt(c: seq<Heir>, blocks: seq<BlockData>, work: Work, k: nat)
    requires c != [] && k < |blocks|
    ensures var r := Extended(c, blocks, work); r[|c| + k] == HeirOf(r[|c| + k - 1], blocks[k], work)
    decreases |blocks|
  {
    var c' := c + [HeirOf(c[|c| - 1], blocks[0], work)];
    if k > 0 {
      ExtendedAt(c', blocks[1..], work, k - 1);
    } else {
      var r := Extended(c', blocks[1..], work);
      assert r[..|c'|] == c' && r[|c|] == r[..|c'|][|c|] && r[|c| - 1] == r[..|c'|][|c| - 1];
    }
  }

  // ----- The chain -----

  /** The nodes that hold what was abandoned above position `p` of the chain `c`, in order. */
  ghost predicate Holds(line: seq<BlockInfo>, c: seq<Heir>, p: nat)
    reads line
  {
    && |line| + p + 1 == |c| && Line(line)
    && (forall k :: 0 <= k < |line| ==>
      && BlockData(line[k].hash, line[k].hdr) == Exported(c, p + 1 + k)
      && line[k].cumulative == c[p + 1 + k].cumulative
      && line[k].nextSibling == null)
    && (line != [] ==> line[0].parent == null)
    && (forall k :: 0 < k < |line| ==> line[k].parent == line[k - 1])
  }

  /** A head in front of a line that now names it as its parent. */
  lemma HoldsCons(current: BlockInfo, line: seq<BlockInfo>, c: seq<Heir>, last: nat)
    requires 0 < last < |c| && |line| + last + 1 == |c| && Line([current] + line)
    requires BlockData(current.hash, current.hdr) == Exported(c, last) && current.cumulative == c[last].cumulative
    requires current.parent == null && current.nextSibling == null
    requires forall k :: 0 <= k < |line| ==>
      && BlockData(line[k].hash, line[k].hdr) == Exported(c, last + 1 + k)
      && line[k].cumulative == c[last + 1 + k].cumulative
      && line[k].nextSibling == null
    requires line != [] ==> line[0].parent == current
    requires forall k :: 0 < k < |line| ==> line[k].parent == line[k - 1]
    ensures Holds([current] + line, c, last - 1)
  {
    hide Exported, Line;
    var longer := [current] + line;
    forall k | 0 <= k < |longer|
      ensures BlockData(longer[k].hash, longer[k].hdr) == Exported(c, last - 1 + 1 + k)
      ensures longer[k].cumulative == c[last - 1 + 1 + k].cumulative && longer[k].nextSibling == null
      ensures k > 0 ==> longer[k].parent == longer[k - 1]
    {
      if k > 0 {
        var j := k - 1;
        assert longer[k] == line[j] && last + 1 + j == last - 1 + 1 + k;
        assert if k == 1 then longer[0] == current else longer[k - 1] == line[j - 1];
      }
    }
  }

  lemma NothingHeld(c: seq<Heir>)
    requires c != []
    ensures Holds([], c, |c| - 1)
  {
  }

  lemma ExportedAt(c: seq<Heir>, i: nat)
    requires 0 < i < |c|
    ensures Exported(c, i) == BlockData(c[i].hash, Header(c[i - 1].hash, c[i].bits, c[i].timestamp, 0))
  {
  }

  class BlockChain {
    const work: Work
    const heirs: array<Heir>
    var height: int
    var searchRoot: map<Hash, nat>
    var db: map<Hash, Record>

    ghost predicate Valid()
      reads this, heirs
    {
      && 0 <= height < heirs.Length
      && Distinct(Chain()) && Linked(Chain(), work)
      && heirs[0].cumulative == work(heirs[0].bits)
      && searchRoot == IndexOf(Chain()) && db == RecordsOf(Chain())
    }

    /** The main chain from the genesis block to the tip. */
    function Chain(): (c: seq<Heir>)
      requires -1 <= height < heirs.Length
      reads this, heirs
      ensures |c| == height + 1
    {
      heirs[..height + 1]
    }

    constructor (w: Work, genesis: BlockData, capacity: nat)
      requires capacity > 0
      ensures Valid() && work == w && fresh(heirs) && heirs.Length == capacity
      ensures Chain() == [Heir(genesis.hash, genesis.hdr.timestamp, genesis.hdr.bits, w(genesis.hdr.bits), genesis.hdr)]
    {
      var first := Heir(genesis.hash, genesis.hdr.timestamp, genesis.hdr.bits, w(genesis.hdr.bits), genesis.hdr);
      work := w;
      heirs := new Heir[capacity](_ => first);
      height := 0;
      searchRoot := map[genesis.hash := 0];
      db := map[];
      new;
      assert Chain() == [first] && Chain()[..0] == [];
    }

    /** The position of a hash on the main chain. */
    method Find(hash: Hash) returns (i: int)
      requires Valid()
      ensures i == -1 ==> forall k :: 0 <= k <= height ==> heirs[k].hash != hash
      ensures i != -1 ==> 0 <= i <= height && heirs[i].hash == hash
    {
      IndexMembers(Chain());
      assert forall k :: 0 <= k <= height ==> Chain()[k] == heirs[k];
      if hash in searchRoot {
        i := searchRoot[hash];
        var k :| 0 <= k < |Chain()| && Chain()[k].hash == hash;
      } else {
        i := -1;
      }
    }

    /** abandon_child: the heir at position `i` becomes a node of its own and leaves the index. */
    method AbandonChild(i: nat) returns (orphan: BlockInfo)
      requires 0 < i < heirs.Length
      modifies this`searchRoot
      ensures fresh(orphan) && searchRoot == old(searchRoot) - {heirs[i].hash}
      ensures orphan.hash == heirs[i].hash
      ensures orphan.hdr == Header(heirs[i - 1].hash, heirs[i].bits, heirs[i].timestamp, 0)
      ensures orphan.cumulative == heirs[i].cumulative
      ensures orphan.parent == null && orphan.firstChild == null && orphan.nextSibling == null
    {
      orphan := new BlockInfo(heirs[i].hash);
      orphan.hdr := orphan.hdr.(prevHash := heirs[i - 1].hash);
      orphan.hdr := orphan.hdr.(bits := heirs[i].bits);
      orphan.hdr := orphan.hdr.(timestamp := heirs[i].timestamp);
      orphan.cumulative := heirs[i].cumulative;
      searchRoot := searchRoot - {heirs[i].hash};
    }

    /** One round of abandoning: the last of the heirs `c[..last + 1]` becomes the head of the line. */
    method AbandonLast(last: nat, orphans: BlockInfo?, ghost c: seq<Heir>, ghost line: seq<BlockInfo>)
      returns (current: BlockInfo, ghost longer: seq<BlockInfo>)
      requires 0 < last < |c| <= heirs.Length && heirs[..|c|] == c && Distinct(c)
      requires searchRoot == IndexOf(c[..last + 1]) && db == RecordsOf(c[..last + 1])
      requires orphans == First(line) && Holds(line, c, last)
      modifies this`searchRoot, this`db
      modifies if orphans == null then {} else {orphans}
      ensures searchRoot == IndexOf(c[..last]) && db == RecordsOf(c[..last])
      ensures fresh(current) && longer == [current] + line && Holds(longer, c, last - 1)
    {
      hide IndexOf, RecordsOf, Distinct, Holds, Exported;
      ghost var prefix := c[..last + 1];
      assert prefix[|prefix| - 1] == c[last] && prefix[..|prefix| - 1] == c[..last];
      DistinctPrefix(c, last + 1);
      DropLast(prefix);
      assert heirs[last] == heirs[..|c|][last] && heirs[last - 1] == heirs[..|c|][last - 1];
      var hash := heirs[last].hash;
      current := AbandonChild(last);
      assert BlockData(current.hash, current.hdr) == Exported(c, last) by { ExportedAt(c, last); }
      assert hash in db;
      db := db - {hash};
      Adopt(current, orphans, line, c, last);
      longer := [current] + line;
    }

    static method Adopt(current: BlockInfo, orphans: BlockInfo?, ghost line: seq<BlockInfo>, ghost c: seq<Heir>,
                        last: nat)
      requires 0 < last < |c| && orphans == First(line) && Holds(line, c, last)
      requires forall k :: 0 <= k < |line| ==> line[k] != current
      requires BlockData(current.hash, current.hdr) == Exported(c, last) && current.cumulative == c[last].cumulative
      requires current.parent == null && current.nextSibling == null
      modifies current, if orphans == null then {} else {orphans}
      ensures Holds([current] + line, c, last - 1)
    {
      hide Exported;
      forall k | 0 < k < |line| ensures line[k] != orphans {
        assert line[k].parent == line[k - 1];
      }
      current.firstChild := orphans;
      if orphans != null { orphans.parent := current; }
      assert forall k :: 0 <= k < |line| ==> line[k].firstChild == old(line[k].firstChild);
      assert Line(line);
      LineCons(current, line);
      HoldsCons(current, line, c, last);
    }

    /** blockchain_abandon_inheritances: cuts the chain above position `p` and returns what was there as a line of
        nodes. The database loses exactly one record for each. */
    method Abandon(p: nat) returns (orphans: BlockInfo?, ghost line: seq<BlockInfo>)
      requires Valid() && p <= height
      modifies this`height, this`searchRoot, this`db
      ensures Valid() && Chain() == old(Chain())[..p + 1]
      ensures orphans == First(line) && (forall n :: n in line ==> fresh(n))
      ensures Holds(line, old(Chain()), p)
    {
      hide IndexOf, RecordsOf, Exported, Holds, Linked;
      orphans, line := null, [];
      ghost var c := Chain();
      NothingHeld(c);
      var last := height;
      assert c[..last + 1] == c;
      while last > p
        invariant p <= last <= height == old(height) && heirs[..|c|] == c
        invariant searchRoot == IndexOf(c[..last + 1]) && db == RecordsOf(c[..last + 1])
        invariant orphans == First(line) && (forall n :: n in line ==> fresh(n))
        invariant Holds(line, c, last)
      {
        assert orphans != null ==> orphans in line;
        orphans, line := AbandonLast(last, orphans, c, line);
        last := last - 1;
      }
      assert c[..p + 1] == heirs[..p + 1] && heirs[0] == c[0];
      LinkedPrefix(c, p + 1, work);
      DistinctPrefix(c, p + 1);
      height := p;
    }

    /** add_heir: the block goes into the next cell and into the index. */
    method AddHeir(parent: nat, child: BlockInfo)
      requires parent + 1 < heirs.Length && child.hdr.prevHash == heirs[parent].hash
      requires child.hash !in searchRoot
      modifies heirs, this`searchRoot
      ensures heirs[parent + 1] == HeirOf(heirs[parent], BlockData(child.hash, child.hdr), work)
      ensures forall i :: 0 <= i < heirs.Length && i != parent + 1 ==> heirs[i] == old(heirs[i])
      ensures searchRoot == old(searchRoot)[child.hash := parent + 1]
    {
      var heir := heirs[parent + 1];
      heir := heir.(hash := child.hash);
      heir := heir.(bits := child.hdr.bits);
      heir := heir.(timestamp := child.hdr.timestamp);
      heir := heir.(cumulative := heirs[parent].cumulative + work(heir.bits));
      heir := heir.(hdr := child.hdr);
      heirs[parent + 1] := heir;
      searchRoot := searchRoot[child.hash := parent + 1];
    }

    /** blockchain_add_inheritances: replaces what is above position `p` by the line of nodes from `child` on; what was
        there is returned as a line. Index and database follow. */
    method AddInheritances(p: nat, child: BlockInfo?, ghost blocks: seq<BlockInfo>)
      returns (orphans: BlockInfo?, ghost line: seq<BlockInfo>)
      requires Valid() && p <= height && child == First(blocks) && Line(blocks)
      requires Fits(Chain()[..p + 1], Data(blocks)) && p + |blocks| + 1 <= heirs.Length
      modifies this`height, this`searchRoot, this`db, heirs
      ensures Valid() && Chain() == Extended(old(Chain())[..p + 1], Data(blocks), work)
      ensures orphans == First(line) && (forall n :: n in line ==> fresh(n))
      ensures Holds(line, old(Chain()), p)
    {
      hide IndexOf, RecordsOf, Exported, Fits, Linked, Distinct, Extended, Holds, Line;
      ghost var c := Chain();
      orphans, line := Abandon(p);
      assert heirs[..p + 1] == c[..p + 1] && heirs[0] == heirs[..p + 1][0];
      var top := AddAll(p, child, blocks);
      assert heirs[..top + 1][0] == heirs[0];
      height := top;
    }

    /** The loop over the line. */
    method AddAll(p: nat, child: BlockInfo?, ghost blocks: seq<BlockInfo>) returns (parent: nat)
      requires child == First(blocks) && Line(blocks) && p + |blocks| + 1 <= heirs.Length
      requires Distinct(heirs[..p + 1]) && Linked(heirs[..p + 1], work) && Fits(heirs[..p + 1], Data(blocks))
      requires searchRoot == IndexOf(heirs[..p + 1]) && db == RecordsOf(heirs[..p + 1])
      modifies this`searchRoot, this`db, heirs
      ensures parent == p + |blocks|
      ensures heirs[..parent + 1] == Extended(old(heirs[..p + 1]), Data(blocks), work)
      ensures Distinct(heirs[..parent + 1]) && Linked(heirs[..parent + 1], work)
      ensures searchRoot == IndexOf(heirs[..parent + 1]) && db == RecordsOf(heirs[..parent + 1])
    {
      hide IndexOf, RecordsOf, Fits, Linked, Distinct, Extended, Line, Next;
      ghost var data := Data(blocks);
      ghost var whole := Extended(heirs[..p + 1], data, work);
      var next := child;
      parent := p;
      ghost var k := 0;
      assert data[0..] == data && blocks[0..] == blocks;
      while next != null
        invariant parent == p + k && k <= |blocks| && next == First(blocks[k..])
        invariant Line(blocks) && Data(blocks) == data
        invariant Distinct(heirs[..parent + 1]) && Linked(heirs[..parent + 1], work)
        invariant Fits(heirs[..parent + 1], data[k..]) && whole == Extended(heirs[..parent + 1], data[k..], work)
        invariant searchRoot == IndexOf(heirs[..parent + 1]) && db == RecordsOf(heirs[..parent + 1])
        decreases |blocks| - k
      {
        assert next == blocks[k];
        Tail(data, k);
        NextInLine(blocks, k);
        next := AddNext(parent, next, data[k..]);
        parent := parent + 1;
        k := k + 1;
      }
    }

    lemma Tail(data: seq<BlockData>, k: nat)
      requires k < |data|
      ensures data[k..] != [] && data[k..][0] == data[k] && data[k..][1..] == data[k + 1..]
    {
    }

    lemma NextInLine(blocks: seq<BlockInfo>, k: nat)
      requires k < |blocks| && Line(blocks)
      ensures blocks[k].firstChild == First(blocks[k + 1..])
    {
      assert blocks[k].firstChild == Next(blocks, k);
    }

    /** One round of adding. */
    method AddNext(parent: nat, child: BlockInfo, ghost data: seq<BlockData>) returns (next: BlockInfo?)
      requires parent + 1 < heirs.Length && data != [] && data[0] == BlockData(child.hash, child.hdr)
      requires Distinct(heirs[..parent + 1]) && Linked(heirs[..parent + 1], work) && Fits(heirs[..parent + 1], data)
      requires searchRoot == IndexOf(heirs[..parent + 1]) && db == RecordsOf(heirs[..parent + 1])
      modifies this`searchRoot, this`db, heirs
      ensures heirs[..parent + 1] == old(heirs[..parent + 1])
      ensures Distinct(heirs[..parent + 2]) && Linked(heirs[..parent + 2], work) && Fits(heirs[..parent + 2], data[1..])
      ensures Extended(heirs[..parent + 2], data[1..], work) == Extended(old(heirs[..parent + 1]), data, work)
      ensures searchRoot == IndexOf(heirs[..parent + 2]) && db == RecordsOf(heirs[..parent + 2])
      ensures next == child.firstChild
    {
      hide IndexOf, RecordsOf, Linked, Distinct;
      ghost var c := heirs[..parent + 1];
      ghost var x := HeirOf(c[|c| - 1], data[0], work);
      FitsStep(c, data, work);
      AddLast(c, x);
      AddHeir(parent, child);
      db := db[child.hash := Record(parent + 1, child.hdr)];
      assert heirs[..parent + 2] == c + [x];
      next := child.firstChild;
    }

    /** The number of hashes there is room for. */
    static function Room(maxHashes: nat): nat {
      if maxHashes == 0 || maxHashes > 2000 then 2000 else maxHashes
    }

    /** The hashes of the heirs at some heights. */
    ghost predicate HashesAt(hashes: seq<Hash>, heights: seq<nat>)
      requires -1 <= height < heirs.Length
      reads this, heirs
    {
      && |hashes| == |heights|
      && forall k :: 0 <= k < |heights| ==> heights[k] <= height && hashes[k] == heirs[heights[k]].hash
    }

    lemma NoHashes()
      requires -1 <= height < heirs.Length
      ensures HashesAt([], [])
    {
    }

    lemma NextHash(hashes: seq<Hash>, heights: seq<nat>, h: nat)
      requires h <= height < heirs.Length && HashesAt(hashes, heights)
      ensures HashesAt(hashes + [heirs[h].hash], heights + [h])
    {
    }

    lemma StartOf(tip: nat, room: nat)
      ensures L.Known(tip, room) == [] + L.Heights(tip, 0, 1, room)
    {
    }

    /** blockchain_get_known_hashes: the hashes at the heights of the block locator. The count is one too high when
        the limit cuts the locator off, and 1 for a chain without blocks. */
    method KnownHashes(maxHashes: nat) returns (hashes: array<Hash>, count: nat)
      requires -1 <= height < heirs.Length
      ensures hashes.Length == (if 1 <= maxHashes <= 2000 then maxHashes else 2000) == Room(maxHashes)
      ensures var heights := if height < 0 then [] else L.Known(height, Room(maxHashes));
        && |heights| <= hashes.Length && HashesAt(hashes[..|heights|], heights)
        && count == |heights| + (if height >= 0 && L.Offset(Room(maxHashes) - 1) >= height then 0 else 1)
        && (0 < height < 0x8000_0000 && (maxHashes == 0 || maxHashes >= 64) ==> count == |heights|)
    {
      hide L.Heights, L.Offset, L.Log2, L.Known, HashesAt;
      var room := Room(maxHashes);
      hashes := new Hash[room](_ => 0);
      ghost var written: seq<nat> := [];
      count := 1;
      NoHashes();
      assert hashes[..0] == [];
      if height < 0 { return; }
      L.GenesisFits(height, room);
      if 0 < height < 0x8000_0000 && room >= 64 { L.LimitSuffices(height, room); }
      var h, i, step: nat := height, 0, 1;
      ghost var known := L.Known(height, room);
      StartOf(height, room);
      while i < room
        invariant i <= room && 0 <= h <= height && |written| == i && count == i + 1
        invariant known == written + L.Heights(h, i, step, room - i)
        invariant HashesAt(hashes[..i], written) && (forall k :: 0 <= k < i ==> written[k] > 0)
        decreases room - i
      {
        hashes[i] := heirs[h].hash;
        L.HeightsStep(written, h, i, step, room - i);
        NextHash(hashes[..i], written, h);
        assert hashes[..i + 1] == hashes[..i] + [heirs[h].hash];
        written := written + [h];
        if h == 0 { return; }
        if i >= L.DENSE { step := step * 2; }
        h := if h < step then 0 else h - step;
        i := i + 1;
        count := count + 1;
      }
      L.HeightsStep(written, h, i, step, 0);
    }
  }

  /** Abandoning everything above position `p` and adding it again restores every heir, but for the header fields that
      an abandoned node does not carry. */
  lemma {:induction false} Reinstated(c: seq<Heir>, p: nat, blocks: seq<BlockData>, work: Work, i: nat)
    requires Linked(c, work) && p < |c| == p + 1 + |blocks| && i < |c|
    requires forall k :: 0 <= k < |blocks| ==> blocks[k] == Exported(c, p + 1 + k)
    ensures Extended(c[..p + 1], blocks, work)[i] ==
      if i <= p then c[i] else c[i].(hdr := c[i].hdr.(rest := 0))
  {
    var r := Extended(c[..p + 1], blocks, work);
    if i <= p {
      assert r[..p + 1] == c[..p + 1] && r[i] == r[..p + 1][i];
    } else {
      var k := i - p - 1;
      ExtendedAt(c[..p + 1], blocks, work, k);
      Reinstated(c, p, blocks, work, i - 1);
      assert blocks[k] == Exported(c, p + 1 + k) && p + 1 + k == i;
    }
  }

  /** A chain of two blocks whose second has a version: abandoned and added again it is another chain. */
  lemma ReinstatedExample()
    ensures var work: Work := _ => 1.0;
      var c := [Heir(1, 0, 0, 1.0, Header(0, 0, 0, 0)), Heir(2, 0, 0, 2.0, Header(1, 0, 0, 9))];
      && Linked(c, work) && Distinct(c)
      && |Extended(c[..1], [Exported(c, 1)], work)| == 2
      && Extended(c[..1], [Exported(c, 1)], work)[1] == c[1].(hdr := Header(1, 0, 0, 0)) != c[1]
  {
    var work: Work := _ => 1.0;
    var c := [Heir(1, 0, 0, 1.0, Header(0, 0, 0, 0)), Heir(2, 0, 0, 2.0, Header(1, 0, 0, 9))];
    Reinstated(c, 0, [Exported(c, 1)], work, 1);
  }
}
