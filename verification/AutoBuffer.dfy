/** The growing byte buffer, after utils/auto_buffer.c. */
module AutoBuffer {
  import opened Bytes

  const ALLOC_SIZE := 4096
  const SIZE_LIMIT: nat := 0x1_0000_0000_0000_0000

  class Buffer {
    var size: nat
    var length: nat
    var startPos: nat
    var data: array<byte>

    ghost predicate Valid()
      reads this
    {
      data.Length == size && startPos + length <= size
    }

    /** The bytes that have been pushed and not popped. */
    function Contents(): (s: seq<byte>)
      requires startPos + length <= data.Length
      reads this, data
      ensures |s| == length
    {
      data[startPos..startPos + length]
    }

    constructor (n: nat)
      requires n <= SIZE_LIMIT - ALLOC_SIZE
      ensures Valid() && fresh(data) && Contents() == [] && startPos == 0
    {
      var s := RoundUp(n);
      size, length, startPos := s, 0, 0;
      data := new byte[s](_ => 0);
    }

    /** Makes room for `n` bytes, moving everything to a larger allocation if need be. */
    method Resize(n: nat)
      requires Valid() && n <= SIZE_LIMIT - ALLOC_SIZE
      modifies this`size, this`data
      ensures Valid() && size >= n && size >= old(size) && (data == old(data) || fresh(data))
      ensures Contents() == old(Contents()) && (data == old(data) ==> size == old(size))
    {
      var s := RoundUp(n);
      if s <= size { return; }
      var old' := data;
      var grown := new byte[s](i requires 0 <= i reads old' => if i < old'.Length then old'[i] else 0);
      assert grown[startPos..startPos + length] == old'[startPos..startPos + length];
      data := grown;
      size := s;
    }

    /** Appends bytes; -1 if the size would not fit in a machine word. */
    method Push(more: seq<byte>) returns (rc: int)
      requires Valid()
      requires var n := startPos + length + |more|; n <= SIZE_LIMIT - ALLOC_SIZE || n >= SIZE_LIMIT
      modifies this`size, this`data, this`length, data
      ensures Valid() && (data == old(data) || fresh(data)) && startPos == old(startPos)
      ensures rc == if more != [] && startPos + old(length) + |more| >= 0x1_0000_0000_0000_0000 then -1 else 0
      ensures Contents() == if rc == 0 then old(Contents()) + more else old(Contents())
    {
      if more == [] { return 0; }
      if startPos + length + |more| >= SIZE_LIMIT { return -1; }
      Resize(startPos + length + |more|);
      ghost var before := Contents();
      var end := startPos + length;
      ghost var was := data[..];
      CopyIn(data, end, more);
      assert data[startPos..end] == was[startPos..end];
      Adjoin(data[..], startPos, end, end + |more|);
      length := length + |more|;
      return 0;
    }

    lemma Adjoin(s: seq<byte>, a: nat, b: nat, c: nat)
      requires a <= b <= c <= |s|
      ensures s[a..c] == s[a..b] + s[b..c]
    {
    }

    /** Takes up to `n` bytes from the front, or all for 0; an emptied buffer starts again at its beginning. */
    method Pop(n: nat) returns (taken: seq<byte>)
      requires Valid()
      modifies this`length, this`startPos
      ensures Valid()
      ensures |taken| == if n == 0 || n > old(length) then old(length) else n
      ensures old(Contents()) == taken + Contents()
      ensures length == 0 ==> startPos == 0
    {
      var k := if n == 0 || n > length then length else n;
      taken := data[startPos..startPos + k];
      assert data[startPos..startPos + length] == taken + data[startPos + k..startPos + length];
      startPos := startPos + k;
      length := length - k;
      if length == 0 { startPos := 0; }
    }
  }

  function RoundUp(n: nat): (s: nat)
    ensures s >= n && s % ALLOC_SIZE == 0 && s > 0
  {
    if n == 0 then ALLOC_SIZE else (n + ALLOC_SIZE - 1) / ALLOC_SIZE * ALLOC_SIZE
  }

  /** memcpy into an array. */
  method CopyIn(a: array<byte>, at: nat, more: seq<byte>)
    requires at + |more| <= a.Length
    modifies a
    ensures a[at..at + |more|] == more
    ensures forall k :: 0 <= k < at || at + |more| <= k < a.Length ==> a[k] == old(a[k])
  {
    var i := 0;
    while i < |more|
      invariant i <= |more| && a[at..at + i] == more[..i]
      invariant forall k :: 0 <= k < at || at + |more| <= k < a.Length ==> a[k] == old(a[k])
    {
      a[at + i] := more[i];
      assert a[at..at + i + 1] == a[at..at + i] + [more[i]];
      i := i + 1;
    }
  }
}
