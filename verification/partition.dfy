/** The partition of a buffer of length `len` into the windows `divide` hands
    to its workers: offsets `0, g, 2g, ...` below `len`, each window
    `min(g, len - offset)` long. */
module Partition {

  /** A window `[offset, offset + length)` of the buffer. */
  datatype Chunk = Chunk(offset: nat, length: nat) {
    function End(): nat { offset + length }
    predicate Contains(k: nat) { offset <= k < End() }
  }

  function Min(a: nat, b: nat): nat { if a <= b then a else b }

  /** The chunks placed at the offsets of the iterator
      `range_step(start, len, g)`: `start`, `start + g`, ... for as long as the
      offset stays below `len`. The first starts at `start`, each is between 1
      and `g` long, each but the last is exactly `g` long, the last ends at
      `len`. */
  function ChunksFrom(start: nat, len: nat, g: nat): (cs: seq<Chunk>)
    requires g > 0
    ensures |cs| == 0 <==> start >= len
    ensures |cs| > 0 ==> cs[0].offset == start && cs[|cs| - 1].End() == len
    ensures forall i :: 0 <= i < |cs| ==> start <= cs[i].offset < cs[i].End() <= len && cs[i].length <= g
    ensures forall i :: 0 <= i < |cs| - 1 ==> cs[i].length == g
    decreases len - start
  {
    if start >= len then []
    else
      var rest := ChunksFrom(start + g, len, g);
      var cs := [Chunk(start, Min(g, len - start))] + rest;
      assert forall i :: 1 <= i < |cs| ==> cs[i] == rest[i - 1];
      cs
  }

  /** The chunks of a buffer of length `len` at granularity `g`, in the order
      the divider spawns their workers. */
  function Chunks(len: nat, g: nat): seq<Chunk>
    requires g > 0
  {
    ChunksFrom(0, len, g)
  }

  /** Each chunk is `min(g, len - offset)` long. */
  lemma ChunkLength(len: nat, g: nat, i: nat)
    requires g > 0 && i < |Chunks(len, g)|
    ensures Chunks(len, g)[i].length == Min(g, len - Chunks(len, g)[i].offset)
  {
    var cs := Chunks(len, g);
    if i < |cs| - 1 {
      assert cs[i].End() <= len;
    }
  }

  /** `cs` tiles `[from, to)`: the first chunk starts at `from`, each further
      chunk starts where the one before it ends, and the last ends at `to`
      (no chunks when the range is empty). Every chunk of a tiling lies
      inside the range. */
  ghost predicate Tiles(cs: seq<Chunk>, from: nat, to: nat)
    ensures Tiles(cs, from, to) ==>
      forall i :: 0 <= i < |cs| ==> from <= cs[i].offset && cs[i].End() <= to
    decreases |cs|
  {
    if |cs| == 0 then from == to
    else cs[0].offset == from && cs[0].End() <= to && Tiles(cs[1..], cs[0].End(), to)
  }

  /** The chunks from `start` tile `[start, len)`. */
  lemma {:induction false} ChunksFromTile(start: nat, len: nat, g: nat)
    requires g > 0 && start <= len
    ensures Tiles(ChunksFrom(start, len, g), start, len)
    decreases len - start
  {
    if start < len {
      var cs := ChunksFrom(start, len, g);
      var rest := ChunksFrom(start + g, len, g);
      assert cs[1..] == rest;
      if start + g <= len {
        ChunksFromTile(start + g, len, g);
      }
    }
  }

  /** The chunks of `divide` tile the whole buffer `[0, len)`. */
  lemma ChunksTileBuffer(len: nat, g: nat)
    requires g > 0
    ensures Tiles(Chunks(len, g), 0, len)
  {
    ChunksFromTile(0, len, g);
  }

  /** In a tiling, each chunk after the first starts where its predecessor
      ends. */
  lemma {:induction false} TilesAbut(cs: seq<Chunk>, from: nat, to: nat, i: nat)
    requires Tiles(cs, from, to) && 0 < i < |cs|
    ensures cs[i].offset == cs[i - 1].End()
    decreases i
  {
    var tail := cs[1..];
    assert Tiles(tail, cs[0].End(), to);
    if i == 1 {
      assert tail[0] == cs[1];
    } else {
      TilesAbut(tail, cs[0].End(), to, i - 1);
      assert tail[i - 1] == cs[i] && tail[i - 2] == cs[i - 1];
    }
  }

  /** Chunk `i` starts at `i * g`. */
  lemma {:induction false} ChunkOffset(len: nat, g: nat, i: nat)
    requires g > 0 && i < |Chunks(len, g)|
    ensures Chunks(len, g)[i].offset == i * g
  {
    if i > 0 {
      ChunkOffset(len, g, i - 1);
      ChunksTileBuffer(len, g);
      TilesAbut(Chunks(len, g), 0, len, i);
      assert (i - 1) * g + g == i * g;
    }
  }

  /** The chunks are in ascending order and pairwise disjoint: a chunk ends at
      or before the start of every later one. */
  lemma ChunksAreDisjoint(len: nat, g: nat)
    requires g > 0
    ensures var cs := Chunks(len, g);
      forall i, j :: 0 <= i < j < |cs| ==> cs[i].End() <= cs[j].offset
  {
    var cs := Chunks(len, g);
    forall i, j | 0 <= i < j < |cs|
      ensures cs[i].End() <= cs[j].offset
    {
      ChunkOffset(len, g, i);
      ChunkOffset(len, g, j);
      MulStep(i, j, g);
    }
  }

  /** Every index of the buffer lies in exactly one chunk, the one numbered
      `k / g`, and no chunk holds an index outside the buffer. */
  lemma ChunksCover(len: nat, g: nat, k: nat)
    requires g > 0
    ensures var cs := Chunks(len, g);
      && (k < len ==> k / g < |cs| && cs[k / g].Contains(k))
      && forall i :: 0 <= i < |cs| && cs[i].Contains(k) ==> i == k / g && k < len
  {
    var cs := Chunks(len, g);
    var q: nat := k / g;
    QuotientBounds(k, g);
    if k < len {
      var n := |cs|;
      ChunkOffset(len, g, n - 1);
      MulStep(n - 1, q, g);
      assert q < n;
      ChunkOffset(len, g, q);
    }
    forall i | 0 <= i < |cs| && cs[i].Contains(k)
      ensures i == k / g
    {
      ChunkOffset(len, g, i);
      DivideBracket(k, g, i);
    }
  }

  /** The chunk holding index `k` of the buffer. */
  lemma ChunkContaining(len: nat, g: nat, k: nat) returns (i: nat)
    requires g > 0 && k < len
    ensures i < |Chunks(len, g)| && Chunks(len, g)[i].Contains(k)
  {
    ChunksCover(len, g, k);
    i := k / g;
  }

  /** The chunk offsets are exactly the multiples of `g` below `len`. */
  lemma ChunkOffsetsAreMultiples(len: nat, g: nat, x: nat)
    requires g > 0
    ensures var cs := Chunks(len, g);
      (exists i :: 0 <= i < |cs| && cs[i].offset == x) <==> x < len && x % g == 0
  {
    var cs := Chunks(len, g);
    DivisionIdentity(x, g);
    if i :| 0 <= i < |cs| && cs[i].offset == x {
      ChunkOffset(len, g, i);
      DivideBracket(x, g, i);
    }
    if x < len && x % g == 0 {
      ChunksCover(len, g, x);
      ChunkOffset(len, g, x / g);
    }
  }

  /** When `m` chunks of `g` elements reach the end of the buffer, there are
      at most `m` chunks. */
  lemma ChunkCountBound(len: nat, g: nat, m: nat)
    requires g > 0 && len <= m * g
    ensures |Chunks(len, g)| <= m
  {
    OffsetInside(len, g, m);
  }

  /** Chunk `i`, when it exists, starts inside the buffer. */
  lemma OffsetInside(len: nat, g: nat, i: nat)
    requires g > 0
    ensures i < |Chunks(len, g)| ==> i * g < len
  {
    if i < |Chunks(len, g)| {
      ChunkOffset(len, g, i);
    }
  }

  /** There are `ceil(len / g)` chunks. */
  lemma ChunkCount(len: nat, g: nat)
    requires g > 0
    ensures |Chunks(len, g)| == (len + g - 1) / g
  {
    var cs := Chunks(len, g);
    var n := |cs|;
    if n > 0 {
      ChunkOffset(len, g, n - 1);
    }
    CountIsCeiling(len, g, n);
  }

  /** `q` is the quotient of `k` by `g` when `q * g <= k < q * g + g`. */
  lemma DivideBracket(k: nat, g: nat, q: nat)
    requires g > 0
    requires q * g <= k < q * g + g
    ensures k / g == q
  {
    var d: nat := k / g;
    MulStep(d, q, g);
    MulStep(q, d, g);
  }

  lemma DivisionIdentity(k: nat, g: nat)
    requires g > 0
    ensures k == (k / g) * g + k % g && 0 <= k % g < g
  {
  }

  lemma QuotientBounds(k: nat, g: nat)
    requires g > 0
    ensures (k / g) * g <= k < (k / g) * g + g
  {
    assert k == (k / g) * g + k % g;
  }

  /** Multiplication by a natural number is monotone, in steps of `g`. */
  lemma MulStep(a: nat, b: nat, g: nat)
    ensures a < b ==> a * g + g <= b * g
  {
    if a < b {
      var c: nat := b - a - 1;
      assert b * g == a * g + g + c * g;
    }
  }

  /** `n` chunks, the last starting below `len` and reaching it, is `ceil(len / g)`. */
  lemma CountIsCeiling(len: nat, g: nat, n: nat)
    requires g > 0
    requires n > 0 <==> len > 0
    requires n > 0 ==> (n - 1) * g < len <= (n - 1) * g + g
    ensures n == (len + g - 1) / g
  {
    if n == 0 {
      DivideBracket(g - 1, g, 0);
    } else {
      assert n * g == (n - 1) * g + g;
      DivideBracket(len + g - 1, g, n);
    }
  }
}
