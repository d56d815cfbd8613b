/** The Merkle tree, after src/merkle_tree.c: growing layer buffers that earlier calculations have filled. */
module MerkleTree {
  import opened Bytes
  import opened Powers

  type U256 = seq<byte>

  /** The hash of two hashes next to each other. */
  type HashFunction = seq<byte> -> U256

  const MAX_LAYERS := 32
  const ALLOC_SIZE := 4096
  const INT_MAX := 0x7FFF_FFFF

  function Zero(): U256 {
    Zeros(32)
  }

  function Blank(n: nat): (s: seq<U256>)
    ensures |s| == n && forall i :: 0 <= i < n ==> s[i] == Zero()
  {
    seq(n, _ => Zero())
  }

  // ----- Specification -----

  /** One layer up: neighbours are hashed together, a last one without neighbour with itself. */
  function PairUp(h: HashFunction, s: seq<U256>): (r: seq<U256>)
    ensures |r| == (|s| + 1) / 2
  {
    seq((|s| + 1) / 2, i requires 0 <= i < (|s| + 1) / 2 =>
      h(s[2 * i] + if 2 * i + 1 < |s| then s[2 * i + 1] else s[2 * i]))
  }

  lemma PrefixGrows<T>(s: seq<T>, t: seq<T>, i: nat)
    requires i < |s| && i < |t| && s[..i] == t[..i]
    ensures s[i := t[i]][..i + 1] == t[..i + 1]
  {
    assert s[i := t[i]][..i + 1] == s[..i] + [t[i]];
    assert t[..i + 1] == t[..i] + [t[i]];
  }

  /** The hashes above the first `n` entries of `s`. */
  lemma PairAt(h: HashFunction, s: seq<U256>, n: nat, i: nat)
    requires n <= |s|
    ensures i < n / 2 ==> 2 * i + 1 < n && PairUp(h, s[..n])[i] == h(s[i * 2] + s[i * 2 + 1])
    ensures n % 2 == 1 && i == n / 2 ==> PairUp(h, s[..n])[i] == h(s[n - 1] + s[n - 1])
  {
  }

  /** The Merkle root: pair up until one hash is left. */
  function Root(h: HashFunction, s: seq<U256>): U256
    requires s != []
    decreases |s|
  {
    if |s| == 1 then s[0] else Root(h, PairUp(h, s))
  }

  lemma {:induction false} RootAlike(h: HashFunction, g: HashFunction, s: seq<U256>)
    requires s != [] && forall d :: h(d) == g(d)
    ensures Root(h, s) == Root(g, s)
    decreases |s|
  {
    if |s| > 1 {
      assert PairUp(h, s) == PairUp(g, s);
      RootAlike(h, g, PairUp(h, s));
    }
  }

  /** Three hashes: the last one is paired with itself, and the pairs with each other. */
  lemma RootOfThree(h: HashFunction, a: U256, b: U256, c: U256)
    ensures Root(h, [a, b, c]) == h(h(a + b) + h(c + c))
  {
    var one, two := [h(a + b), h(c + c)], [h(h(a + b) + h(c + c))];
    assert PairUp(h, [a, b, c]) == one;
    assert PairUp(h, one) == two;
    assert Root(h, one) == Root(h, two) == two[0];
  }

  /** `k` layers above `s`. */
  function Up(h: HashFunction, s: seq<U256>, k: nat): (r: seq<U256>)
    requires s != []
    ensures r != []
  {
    if k == 0 then s else PairUp(h, Up(h, s, k - 1))
  }

  lemma {:induction false} UpStart(h: HashFunction, s: seq<U256>, k: nat)
    requires s != []
    ensures Up(h, s, k + 1) == Up(h, PairUp(h, s), k)
  {
    if k > 0 { UpStart(h, s, k - 1); }
  }

  /** The first layer of one hash, if the layers before have more, holds the root. */
  lemma {:induction false} SingleIsRoot(h: HashFunction, s: seq<U256>, k: nat)
    requires s != [] && |Up(h, s, k)| == 1
    requires forall j :: 0 <= j < k ==> |Up(h, s, j)| > 1
    ensures Up(h, s, k)[0] == Root(h, s)
    decreases k
  {
    hide PairUp;
    if k > 0 {
      assert |Up(h, s, 0)| > 1;
      var t := PairUp(h, s);
      UpStart(h, s, k - 1);
      forall j | 0 <= j < k - 1 ensures |Up(h, t, j)| > 1 {
        UpStart(h, s, j);
        assert |Up(h, s, j + 1)| > 1;
      }
      SingleIsRoot(h, t, k - 1);
    }
  }

  /** `k` layers halve the number of hashes `k` times, so 31 layers reduce any 31-bit number to one. */
  lemma {:induction false} LayerSize(h: HashFunction, s: seq<U256>, k: nat, n: nat)
    requires s != [] && |s| <= Pow2(n) && k <= n
    ensures |Up(h, s, k)| <= Pow2(n - k)
  {
    hide PairUp;
    if k > 0 {
      LayerSize(h, s, k - 1, n);
      assert Pow2(n - (k - 1)) == 2 * Pow2(n - k);
    }
  }

  lemma SinglePair(h: HashFunction, s: seq<U256>)
    requires |s| == 1
    ensures Up(h, s, 1) == [h(s[0] + s[0])]
  {
    assert Up(h, s, 0) == s;
  }

  lemma EnoughLayers(h: HashFunction, s: seq<U256>)
    requires 0 < |s| <= INT_MAX
    ensures |Up(h, s, 31)| == 1
  {
    hide Up;
    assert Pow2(8) == 0x100 && Pow2(16) == 0x1_0000;
    assert Pow2(24) == 0x100_0000 && Pow2(31) == 0x8000_0000;
    LayerSize(h, s, 31, 31);
  }

  // ----- Layers -----

  class Layer {
    var maxSize: nat
    var count: nat
    var items: seq<U256>

    ghost predicate Valid()
      reads this
    {
      maxSize == |items|
    }

    constructor ()
      ensures Valid()
    {
      maxSize, count, items := 0, 0, [];
    }

    /** Grows the buffer to an even size and never shrinks it; old contents stay. */
    method Resize(size0: nat)
      requires Valid()
      modifies this`items, this`maxSize
      ensures Valid() && maxSize >= size0
      ensures maxSize == if size0 + size0 % 2 <= old(maxSize) then old(maxSize) else size0 + size0 % 2
      ensures old(maxSize) <= maxSize && items[..old(maxSize)] == old(items)
    {
      var size := size0 + size0 % 2;
      if size <= maxSize { return; }
      items := items + Blank(size - maxSize);
      maxSize := size;
    }

    /** Fills the front of the buffer from the layer below; what lay there before does not matter. */
    method HashFrom(h: HashFunction, below: seq<U256>, n: nat)
      requires Valid() && 0 < n <= |below|
      modifies this
      ensures Valid() && count == (n + 1) / 2 <= |items| && items[..count] == PairUp(h, below[..n])
    {
      var size := (n + 1) / 2;
      Resize(size);
      var i := 0;
      hide PairUp;
      ghost var layer := PairUp(h, below[..n]);
      while i < n / 2
        invariant i <= n / 2 && Valid() && maxSize >= size && items[..i] == layer[..i]
      {
        PairAt(h, below, n, i);
        PrefixGrows(items, layer, i);
        items := items[i := h(below[i * 2] + below[i * 2 + 1])];
        i := i + 1;
      }
      if n % 2 == 1 {
        var last := below[n - 1];
        PairAt(h, below, n, i);
        PrefixGrows(items, layer, i);
        items := items[i := h(last + last)];
      }
      count := size;
      assert layer[..size] == layer;
    }
  }

  // ----- The tree -----

  class MerkleTree {
    const hashFunction: HashFunction
    const layers: array<Layer>
    var maxSize: nat
    var count: nat
    var items: seq<U256>
    var merkleRoot: U256
    var layersCount: nat

    ghost predicate Valid()
      reads this, layers, layers[..]
    {
      && maxSize == |items| && count <= maxSize
      && layers.Length == MAX_LAYERS
      && (forall i, j :: 0 <= i < j < MAX_LAYERS ==> layers[i] != layers[j])
      && (forall i :: 0 <= i < MAX_LAYERS ==> layers[i].Valid())
    }

    /** The hashes that are in the tree, without the unused end of the buffer. */
    function Contents(): seq<U256>
      requires count <= |items|
      reads this
    {
      items[..count]
    }

    constructor (h: HashFunction, size: nat)
      ensures Valid() && hashFunction == h && Contents() == [] && merkleRoot == Zero()
      ensures fresh(layers) && forall i :: 0 <= i < layers.Length ==> fresh(layers[i])
    {
      hashFunction := h;
      var all := NewLayers();
      layers := all;
      maxSize := (size + ALLOC_SIZE - 1) / ALLOC_SIZE * ALLOC_SIZE;
      count, merkleRoot, layersCount := 0, Zero(), 0;
      items := Blank((size + ALLOC_SIZE - 1) / ALLOC_SIZE * ALLOC_SIZE);
    }

    method Resize(size: nat)
      requires Valid()
      modifies this`items, this`maxSize
      ensures Valid() && size <= maxSize && items[..count] == old(items[..count])
    {
      var newSize := (size + ALLOC_SIZE - 1) / ALLOC_SIZE * ALLOC_SIZE;
      if newSize <= maxSize { return; }
      items := items + Blank(newSize - maxSize);
      maxSize := newSize;
    }

    method Add(more: seq<U256>)
      requires Valid() && more != []
      modifies this`items, this`maxSize, this`count
      ensures Valid() && Contents() == old(Contents()) + more
    {
      Resize(count + |more|);
      ghost var before := items[..count];
      var i := 0;
      while i < |more|
        invariant i <= |more| && Valid() && count + |more| <= maxSize
        invariant items[..count + i] == before + more[..i]
      {
        items := items[count + i := more[i]];
        assert items[..count + i + 1] == items[..count + i] + [more[i]];
        i := i + 1;
      }
      count := count + |more|;
    }

    /** The last hash moves into the hole. */
    method Remove(index: int) returns (rc: int)
      requires Valid()
      modifies this`items, this`count
      ensures Valid() && (rc == 0 <==> 0 <= index < old(count)) && (rc == 0 || rc == -1)
      ensures rc == -1 ==> Contents() == old(Contents())
      ensures rc == 0 ==>
        Contents() == old(Contents())[index := old(Contents())[|old(Contents())| - 1]][..old(count) - 1]
    {
      if count <= 0 || index < 0 || index >= count { return -1; }
      count := count - 1;
      if index < count { items := items[index := items[count]]; }
      items := items[count := Zero()];
      return 0;
    }

    method Set(index: int, item: U256) returns (rc: int)
      requires Valid()
      modifies this`items
      ensures Valid() && (rc == 0 <==> 0 <= index < count) && (rc == 0 || rc == -1)
      ensures Contents() == if rc == 0 then old(Contents())[index := item] else old(Contents())
    {
      if count <= 0 || index < 0 || index >= count { return -1; }
      items := items[index := item];
      return 0;
    }

    method HashLayer(k: nat, below: seq<U256>, size: nat)
      requires Valid() && k < MAX_LAYERS && 0 < size <= |below|
      modifies layers[k]
      ensures Valid() && layers[k].count == (size + 1) / 2 <= |layers[k].items|
      ensures layers[k].items[..layers[k].count] == PairUp(hashFunction, below[..size])
    {
      layers[k].HashFrom(hashFunction, below, size);
    }

    /** The layer loop: the first layer with a single hash ends it, and 31 layers are always enough. */
    method ClimbLayers(n: nat)
      requires Valid() && 0 < n <= count && n <= INT_MAX
      modifies layers[..], this`merkleRoot, this`layersCount
      ensures Valid()
      ensures layersCount < 31
      ensures merkleRoot == if n == 1 then hashFunction(items[0] + items[0]) else Root(hashFunction, items[..n])
    {
      hide PairUp, Root;
      ghost var bottom := items[..n];
      var below, size, k := items, n, 0;
      var done := false;
      while k < MAX_LAYERS && !done
        invariant k <= MAX_LAYERS && Valid() && 0 < size <= |below|
        invariant below[..size] == Up(hashFunction, bottom, k)
        invariant forall j :: 1 <= j < k + (if done then 0 else 1) ==> |Up(hashFunction, bottom, j)| > 1
        invariant done ==> size == 1 && merkleRoot == below[0] && 0 < k && layersCount == k - 1
        decreases MAX_LAYERS - k, !done
      {
        HashLayer(k, below, size);
        below := layers[k].items;
        size := layers[k].count;
        k := k + 1;
        if size == 1 {
          merkleRoot := layers[k - 1].items[0];
          layersCount := k - 1;
          done := true;
        }
      }
      EnoughLayers(hashFunction, bottom);
      if n > 1 { SingleIsRoot(hashFunction, bottom, k); } else { SinglePair(hashFunction, bottom); }
    }

    /** Recalculation from the start. With at most one hash nothing is hashed, and an empty tree keeps its root. */
    method Recalc(startIndex: int, number: int)
      requires Valid()
      requires count > 1 ==> startIndex == 0 && number <= count && count <= INT_MAX
      modifies layers[..], this`merkleRoot, this`layersCount
      ensures Valid()
      ensures count == 0 ==> merkleRoot == old(merkleRoot)
      ensures count > 0 && number <= 0 ==> merkleRoot == Root(hashFunction, Contents())
      ensures count > 1 && number > 1 ==> merkleRoot == Root(hashFunction, Contents()[..number])
    {
      if count <= 1 {
        if count == 1 { merkleRoot := items[0]; }
        return;
      }
      var n := if number <= 0 then count - startIndex else number;
      assert n <= count ==> items[..count][..n] == items[..n];
      ClimbLayers(n);
    }
  }

  method NewLayers() returns (all: array<Layer>)
    ensures fresh(all) && all.Length == MAX_LAYERS
    ensures forall i :: 0 <= i < MAX_LAYERS ==> fresh(all[i]) && all[i].Valid()
    ensures forall i, j :: 0 <= i < j < MAX_LAYERS ==> all[i] != all[j]
  {
    var first := new Layer();
    all := new Layer[MAX_LAYERS](_ => first);
    var i := 1;
    while i < MAX_LAYERS
      invariant 1 <= i <= MAX_LAYERS && fresh(all)
      invariant forall j :: 0 <= j < MAX_LAYERS ==> fresh(all[j]) && all[j].Valid()
      invariant forall j, k :: 0 <= j < k < i ==> all[j] != all[k]
      invariant forall j :: i <= j < MAX_LAYERS ==> all[j] == first
    {
      var layer := new Layer();
      all[i] := layer;
      i := i + 1;
    }
  }

  lemma RootOfOne(h: HashFunction, item: U256)
    ensures Root(h, [item]) == item
  {
  }

  /** One hash, recalculated, removed, and recalculated again: the tree is empty and the root is still there. */
  method RootStays(h: HashFunction, item: U256) returns (tree: MerkleTree)
    ensures tree.Valid() && tree.Contents() == [] && tree.merkleRoot == item
  {
    hide Root, PairUp, Blank;
    RootOfOne(h, item);
    tree := new MerkleTree(h, 1);
    tree.Add([item]);
    assert tree.Contents() == [item] && tree.count == 1;
    tree.Recalc(0, -1);
    assert tree.Contents() == [item];
    var rc := tree.Remove(0);
    assert tree.count == 0;
    tree.Recalc(0, -1);
  }
}
