/** `divide`: run one worker per chunk of a buffer and rejoin them. Each worker
    is a plain call here; the result is the buffer the workers leave behind. */
module ChunkDivider {
  import opened Outcomes
  import opened Partition

  /** Whether an operation leaves the length of every window unchanged, as a
      mutable slice cannot grow or shrink. */
  ghost predicate PreservesLength<T(!new)>(op: (seq<T>, nat) -> Option<seq<T>>) {
    forall s: seq<T>, offset: nat :: op(s, offset).Some? ==> |op(s, offset).value| == |s|
  }

  /** The `operation` argument of `divide`: given a window's contents and its
      absolute offset, either the rewritten window or `None` when it panics. */
  type ChunkOp<!T(!new)> = op: (seq<T>, nat) -> Option<seq<T>> | PreservesLength(op)
    ghost witness (s: seq<T>, offset: nat) => Some(s)

  /** The contents of chunk `c` of `data`. */
  function Window<T>(data: seq<T>, c: Chunk): (w: seq<T>)
    requires c.End() <= |data|
    ensures |w| == c.length
  {
    data[c.offset..c.End()]
  }

  /** Position `k - c.offset` of a window is position `k` of the buffer. */
  lemma WindowAt<T>(data: seq<T>, c: Chunk, k: nat)
    requires c.End() <= |data| && c.Contains(k)
    ensures Window(data, c)[k - c.offset] == data[k]
  {
  }

  /** What the worker for chunk `c` produces: the operation applied to the
      window and its absolute offset. */
  function Worker<T(!new)>(data: seq<T>, c: Chunk, op: ChunkOp<T>): (w: Option<seq<T>>)
    requires c.End() <= |data|
    ensures w.Some? ==> |w.value| == c.length
  {
    op(Window(data, c), c.offset)
  }

  /** Runs the workers of the chunks `cs`, which tile `[base, |data|)`, in
      order and concatenates their windows; any worker failure fails the
      whole run. */
  function RunChunks<T(!new)>(data: seq<T>, cs: seq<Chunk>, base: nat, op: ChunkOp<T>): (r: Result<seq<T>, Failure>)
    requires Tiles(cs, base, |data|)
    ensures r.Ok? <==> forall i :: 0 <= i < |cs| ==> Worker(data, cs[i], op).Some?
    ensures r.Err? ==> r.error == WorkerFailure
    ensures r.Ok? ==> |r.value| == |data| - base
    decreases |cs|
  {
    if |cs| == 0 then Ok([])
    else
      match Worker(data, cs[0], op)
      case None => Err(WorkerFailure)
      case Some(w) =>
        match RunChunks(data, cs[1..], cs[0].End(), op)
        case Err(e) => Err(e)
        case Ok(rest) => Ok(w + rest)
  }

  /** Each window of the concatenated result is exactly what that chunk's
      worker wrote: position `k` of chunk `i` holds the worker's value at
      `k`'s place within the window. */
  lemma {:induction false} RunChunksPlacesWindow<T(!new)>(data: seq<T>, cs: seq<Chunk>, base: nat, op: ChunkOp<T>, i: nat, k: nat)
    requires Tiles(cs, base, |data|)
    requires RunChunks(data, cs, base, op).Ok?
    requires i < |cs| && cs[i].Contains(k)
    ensures base <= k < |data|
    ensures RunChunks(data, cs, base, op).value[k - base] == Worker(data, cs[i], op).value[k - cs[i].offset]
    decreases |cs|
  {
    var out := RunChunks(data, cs, base, op).value;
    var w := Worker(data, cs[0], op).value;
    var mid := cs[0].End();
    var rest := RunChunks(data, cs[1..], mid, op).value;
    assert out == w + rest;
    if i == 0 {
      assert out[k - base] == w[k - base];
    } else {
      assert cs[1..][i - 1] == cs[i];
      RunChunksPlacesWindow(data, cs[1..], mid, op, i - 1, k);
      assert out[k - base] == rest[k - mid];
    }
  }

  /** `divide(data, granularity, operation)`: asserts `granularity > 0`, then
      runs one worker per chunk and joins them all; the call fails when any
      worker fails. */
  function Divide<T(!new)>(data: seq<T>, granularity: nat, op: ChunkOp<T>): (r: Result<seq<T>, Failure>)
    ensures granularity == 0 ==> r == Err(InvalidGranularity)
    ensures granularity > 0 ==>
      (r.Ok? <==> forall i :: 0 <= i < |Chunks(|data|, granularity)| ==>
                    Worker(data, Chunks(|data|, granularity)[i], op).Some?)
    ensures granularity > 0 && r.Err? ==> r.error == WorkerFailure
    ensures granularity > 0 && |data| == 0 ==> r == Ok([])
    ensures r.Ok? ==> |r.value| == |data|
  {
    if granularity == 0 then Err(InvalidGranularity)
    else
      ChunksTileBuffer(|data|, granularity);
      RunChunks(data, Chunks(|data|, granularity), 0, op)
  }

  /** Element `k` of a successful result, for `k` inside chunk `i`, is what
      the worker of chunk `i` wrote at `k`'s position within the window.
      (By `ChunksCover`, that chunk is the one numbered `k / g`.) */
  lemma DivideWritesWindow<T(!new)>(data: seq<T>, g: nat, op: ChunkOp<T>, i: nat, k: nat)
    requires g > 0
    requires Divide(data, g, op).Ok?
    requires i < |Chunks(|data|, g)| && Chunks(|data|, g)[i].Contains(k)
    ensures var c := Chunks(|data|, g)[i];
      && k < |data|
      && Worker(data, c, op).Some?
      && Divide(data, g, op).value[k] == Worker(data, c, op).value[k - c.offset]
  {
    var cs := Chunks(|data|, g);
    ChunksTileBuffer(|data|, g);
    var out := RunChunks(data, cs, 0, op).value;
    assert Divide(data, g, op).value == out;
    RunChunksPlacesWindow(data, cs, 0, op, i, k);
    assert out[k] == Worker(data, cs[i], op).value[k - cs[i].offset];
  }

  /** The worker of the `clone` property test: writes `source[offset + i]`
      into position `i` of its window, panicking when that index is past the
      end of `source`. */
  function CopyFrom<T(!new)>(source: seq<T>): ChunkOp<T> {
    (window: seq<T>, offset: nat) =>
      if offset + |window| <= |source| then Some(source[offset..offset + |window|]) else None
  }

  /** Copying chunk by chunk reproduces the source, whatever the buffer size and
      granularity. */
  lemma DivideCopies<T(!new)>(source: seq<T>, dest: seq<T>, g: nat)
    requires g > 0
    requires |dest| == |source|
    ensures Divide(dest, g, CopyFrom(source)) == Ok(source)
  {
    var op := CopyFrom(source);
    var cs := Chunks(|dest|, g);
    forall i | 0 <= i < |cs|
      ensures Worker(dest, cs[i], op).Some?
    {
      CopyWorker(source, dest, cs[i]);
    }
    var r := Divide(dest, g, op);
    forall k | 0 <= k < |source|
      ensures r.value[k] == source[k]
    {
      var i := ChunkContaining(|dest|, g, k);
      var c := cs[i];
      DivideWritesWindow(dest, g, op, i, k);
      CopyWorker(source, dest, c);
      assert r.value[k] == source[c.offset..c.End()][k - c.offset];
    }
    assert r.value == source;
  }

  /** A copying worker whose window lies inside the buffer succeeds with the
      matching slice of the source. */
  lemma CopyWorker<T(!new)>(source: seq<T>, dest: seq<T>, c: Chunk)
    requires |dest| == |source| && c.End() <= |dest|
    ensures Worker(dest, c, CopyFrom(source)) == Some(source[c.offset..c.End()])
  {
  }

  /** The worker of the `new` property test: fills every slot of its window
      with `Some` of a drawn value; `draw(offset, i)` stands for the `i`-th
      value the worker's generator yields. */
  function FillWith<T(!new)>(draw: (nat, nat) -> T): ChunkOp<Option<T>> {
    (window: seq<Option<T>>, offset: nat) =>
      Some(seq(|window|, i requires 0 <= i < |window| => Some(draw(offset, i))))
  }

  /** Every slot of the buffer is visited by some worker: after filling, no
      `None` is left, whatever the buffer held before. */
  lemma DivideFillsEverySlot<T(!new)>(data: seq<Option<T>>, g: nat, draw: (nat, nat) -> T)
    requires g > 0
    ensures Divide(data, g, FillWith(draw)).Ok?
    ensures forall k :: 0 <= k < |data| ==> Divide(data, g, FillWith(draw)).value[k].Some?
  {
    var r := Divide(data, g, FillWith(draw));
    forall k | 0 <= k < |data|
      ensures r.value[k].Some?
    {
      var i := ChunkContaining(|data|, g, k);
      DivideWritesWindow(data, g, FillWith(draw), i, k);
    }
  }
}
