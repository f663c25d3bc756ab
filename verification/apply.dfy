/** `apply`: the element-wise specialisation of `divide`, with a granularity
    derived from the number of CPUs. */
module ApplyAdapter {
  import opened Outcomes
  import opened Partition
  import opened ChunkDivider

  /** The granularity `apply` passes to `divide` for a buffer of `len`
      elements on `cpus` processors: `len / cpus + 1`. It is never zero, so
      `divide`'s assertion cannot fire, and it is large enough that no more
      than `cpus` chunks are made. */
  function Granularity(len: nat, cpus: nat): (g: nat)
    requires cpus >= 1
    ensures 1 <= g <= len + 1
    ensures len < g * cpus
    ensures |Chunks(len, g)| <= cpus
  {
    var q := len / cpus;
    DivisionIdentity(len, cpus);
    MulStep(0, cpus, q);
    assert q <= q * cpus == cpus * q;
    assert len < cpus * (q + 1) by {
      assert cpus * (q + 1) == cpus * q + cpus;
    }
    ChunkCountBound(len, q + 1, cpus);
    q + 1
  }

  /** On a single CPU a non-empty buffer is one chunk covering all of it. */
  lemma SingleCpuSingleChunk(len: nat)
    requires len > 0
    ensures Chunks(len, Granularity(len, 1)) == [Chunk(0, len)]
  {
    var cs := Chunks(len, Granularity(len, 1));
  }

  /** The per-chunk loop of `apply`: calls the element operation on each
      element of the window in index order; the first panic ends the worker. */
  function ForEach<T>(s: seq<T>, f: T -> Option<T>): (r: Option<seq<T>>)
    ensures r.Some? <==> forall i :: 0 <= i < |s| ==> f(s[i]).Some?
    ensures r.Some? ==> |r.value| == |s| && forall i :: 0 <= i < |s| ==> r.value[i] == f(s[i]).value
  {
    if |s| == 0 then Some([])
    else
      match f(s[0])
      case None => None
      case Some(x) =>
        match ForEach(s[1..], f)
        case None => None
        case Some(rest) => Some([x] + rest)
  }

  /** The worker `apply` hands to `divide`; it ignores the chunk offset. */
  function EachElement<T(!new)>(f: T -> Option<T>): ChunkOp<T> {
    (window: seq<T>, offset: nat) => ForEach(window, f)
  }

  /** The worker ignores its offset argument, and it succeeds on a window
      exactly when the operation succeeds on every element, leaving the
      operation's result in each slot. */
  lemma EachElementMaps<T(!new)>(f: T -> Option<T>, w: seq<T>, offset1: nat, offset2: nat)
    ensures EachElement(f)(w, offset1) == EachElement(f)(w, offset2)
    ensures EachElement(f)(w, offset1).Some? <==> forall i :: 0 <= i < |w| ==> f(w[i]).Some?
    ensures EachElement(f)(w, offset1).Some? ==>
      forall i :: 0 <= i < |w| ==> EachElement(f)(w, offset1).value[i] == f(w[i]).value
  {
  }

  /** `apply(data, operation)` with `cpus` standing for `os::num_cpus()`: the
      call succeeds exactly when the operation succeeds on every element, and
      then the buffer holds the operation's result at every index. */
  function Apply<T(!new)>(data: seq<T>, cpus: nat, f: T -> Option<T>): (r: Result<seq<T>, Failure>)
    requires cpus >= 1
    ensures r.Ok? <==> forall k :: 0 <= k < |data| ==> f(data[k]).Some?
    ensures r.Err? ==> r.error == WorkerFailure
    ensures r.Ok? ==> |r.value| == |data| && forall k :: 0 <= k < |data| ==> r.value[k] == f(data[k]).value
  {
    ApplyIsElementwise(data, Granularity(|data|, cpus), f);
    Divide(data, Granularity(|data|, cpus), EachElement(f))
  }

  /** Dividing the element-wise loop at any positive granularity amounts to
      the element-wise map of the whole buffer. */
  lemma ApplyIsElementwise<T(!new)>(data: seq<T>, g: nat, f: T -> Option<T>)
    requires g > 0
    ensures var r := Divide(data, g, EachElement(f));
      && (r.Ok? <==> forall k :: 0 <= k < |data| ==> f(data[k]).Some?)
      && (r.Ok? ==> forall k :: 0 <= k < |data| ==> r.value[k] == f(data[k]).value)
  {
    var r := Divide(data, g, EachElement(f));
    if forall k :: 0 <= k < |data| ==> f(data[k]).Some? {
      EveryWorkerSucceeds(data, g, f);
    }
    forall k | 0 <= k < |data|
      ensures r.Ok? ==> f(data[k]).Some? && r.value[k] == f(data[k]).value
    {
      if r.Ok? {
        ElementWritten(data, g, f, k);
      }
    }
  }

  /** When the operation succeeds on every element, every worker succeeds. */
  lemma EveryWorkerSucceeds<T(!new)>(data: seq<T>, g: nat, f: T -> Option<T>)
    requires g > 0
    requires forall k :: 0 <= k < |data| ==> f(data[k]).Some?
    ensures Divide(data, g, EachElement(f)).Ok?
  {
    var cs := Chunks(|data|, g);
    forall i | 0 <= i < |cs|
      ensures Worker(data, cs[i], EachElement(f)).Some?
    {
      var w := Window(data, cs[i]);
      assert forall j :: 0 <= j < |w| ==> w[j] == data[cs[i].offset + j];
      EachElementWorker(data, cs[i], f);
    }
  }

  /** After a successful division, element `k` is the operation's result on the
      original element `k`. */
  lemma ElementWritten<T(!new)>(data: seq<T>, g: nat, f: T -> Option<T>, k: nat)
    requires g > 0 && k < |data|
    requires Divide(data, g, EachElement(f)).Ok?
    ensures f(data[k]).Some? && Divide(data, g, EachElement(f)).value[k] == f(data[k]).value
  {
    var i := ChunkContaining(|data|, g, k);
    var c := Chunks(|data|, g)[i];
    var op := EachElement(f);
    DivideWritesWindow(data, g, op, i, k);
    EachElementAt(data, c, f, k);
    var w := Worker(data, c, op).value;
    assert Divide(data, g, op).value[k] == w[k - c.offset] == f(data[k]).value;
  }

  /** The worker `apply` runs on a chunk is the element loop over its window. */
  lemma EachElementWorker<T(!new)>(data: seq<T>, c: Chunk, f: T -> Option<T>)
    requires c.End() <= |data|
    ensures Worker(data, c, EachElement(f)) == ForEach(Window(data, c), f)
  {
  }

  /** A successful element loop over chunk `c` holds, at `k`, the operation's
      result on element `k`. */
  lemma EachElementAt<T(!new)>(data: seq<T>, c: Chunk, f: T -> Option<T>, k: nat)
    requires c.End() <= |data| && c.Contains(k)
    requires Worker(data, c, EachElement(f)).Some?
    ensures f(data[k]).Some? && Worker(data, c, EachElement(f)).value[k - c.offset] == f(data[k]).value
  {
    EachElementWorker(data, c, f);
    WindowAt(data, c, k);
  }

  /** The number of CPUs changes how the buffer is cut, never the result. */
  lemma ApplyIgnoresCpuCount<T(!new)>(data: seq<T>, cpus1: nat, cpus2: nat, f: T -> Option<T>)
    requires cpus1 >= 1 && cpus2 >= 1
    ensures Apply(data, cpus1, f) == Apply(data, cpus2, f)
  {
    var r1, r2 := Apply(data, cpus1, f), Apply(data, cpus2, f);
    if r1.Ok? {
      assert r1.value == r2.value;
    }
  }

  /** The element operation of the documented example: `*x = *x + 1`. */
  function Increment(x: nat): Option<nat> {
    Some(x + 1)
  }

  /** Applying the increment adds one to every element. */
  lemma ApplyIncrement(data: seq<nat>, cpus: nat, expected: seq<nat>)
    requires cpus >= 1
    requires |expected| == |data| && forall k :: 0 <= k < |data| ==> expected[k] == data[k] + 1
    ensures Apply(data, cpus, Increment) == Ok(expected)
  {
    var r := Apply(data, cpus, Increment);
    assert forall k :: 0 <= k < |data| ==> Increment(data[k]).Some?;
    assert r.value == expected;
  }

  /** The documented example: incrementing each element of `(1..10)`, the
      numbers 1 to 9, yields 2 to 10, whatever the number of CPUs. */
  lemma IncrementExample(cpus: nat)
    requires cpus >= 1
    ensures Apply([1, 2, 3, 4, 5, 6, 7, 8, 9], cpus, Increment) == Ok([2, 3, 4, 5, 6, 7, 8, 9, 10])
  {
    ApplyIncrement([1, 2, 3, 4, 5, 6, 7, 8, 9], cpus, [2, 3, 4, 5, 6, 7, 8, 9, 10]);
  }
}
