/** Block headers and the nodes that hold blocks outside the main chain, after src/chains.c. */
module BlockNodes {

  type Hash = nat

  /** The work that the compact target of a block stands for. */
  type Work = nat -> real

  /** `rest` stands for the fields that the chain code only copies: version, Merkle root and nonce. */
  datatype Header = Header(prevHash: Hash, bits: nat, timestamp: nat, rest: nat)

  /** `owner` is the chain that a node is the head of: there the head is the first field of the chain, and the
      program casts one pointer to the other. */
  class BlockInfo {
    var hash: Hash
    var hdr: Header
    var cumulative: real
    var parent: BlockInfo?
    var firstChild: BlockInfo?
    var nextSibling: BlockInfo?
    var owner: ActiveChain?

    /** block_info_new with a blank header. */
    constructor (h: Hash)
      ensures hash == h && hdr == Header(0, 0, 0, 0) && cumulative == 0.0
      ensures parent == null && firstChild == null && nextSibling == null && owner == null
    {
      hash, hdr, cumulative := h, Header(0, 0, 0, 0), 0.0;
      parent, firstChild, nextSibling, owner := null, null, null, null;
    }
  }

  /** A candidate chain: the head stands for the unknown parent that its blocks wait for. */
  class ActiveChain {
    const head: BlockInfo
    var longestEnd: BlockInfo
    ghost var start: nat
    ghost var line: seq<BlockInfo>

    constructor (h: BlockInfo, end: BlockInfo, ghost first: nat, ghost nodes: seq<BlockInfo>)
      ensures head == h && longestEnd == end && start == first && line == nodes
    {
      head, longestEnd, start, line := h, end, first, nodes;
    }
  }

  ghost function First(line: seq<BlockInfo>): BlockInfo? {
    if line == [] then null else line[0]
  }

  /** The nodes of `line` are linked by their first children, and the last one has none. */
  ghost predicate Line(line: seq<BlockInfo>)
    reads (set n | n in line)`firstChild
  {
    forall i :: 0 <= i < |line| ==> line[i].firstChild == Next(line, i)
  }

  ghost function Next(line: seq<BlockInfo>, i: nat): BlockInfo? {
    if i + 1 < |line| then line[i + 1] else null
  }

  lemma LineCons(x: BlockInfo, line: seq<BlockInfo>)
    requires Line(line) && x.firstChild == First(line)
    ensures Line([x] + line)
  {
    var longer := [x] + line;
    forall i | 0 <= i < |longer|
      ensures longer[i].firstChild == Next(longer, i)
    {
      if i > 0 {
        assert line[i - 1].firstChild == Next(line, i - 1);
      }
    }
  }

  /** A block as it is: hash and header. */
  datatype BlockData = BlockData(hash: Hash, hdr: Header)

  ghost function Data(line: seq<BlockInfo>): (d: seq<BlockData>)
    reads line
    ensures |d| == |line| && forall i :: 0 <= i < |line| ==> d[i] == BlockData(line[i].hash, line[i].hdr)
  {
    seq(|line|, i requires 0 <= i < |line| reads line => BlockData(line[i].hash, line[i].hdr))
  }
}
