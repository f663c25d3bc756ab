# parallel.rs fork-join primitives, modelled in Dafny

This project models the sequential logic behind the two fork-join
primitives of the `parallel` crate. It treats every spawned thread as a
plain function call.

- **`divide`** (`src/divide.rs`) asserts `granularity > 0`. It then walks
  the offsets `range_step(0, len, granularity)` and spawns one scoped
  thread per offset. Each thread runs `operation(window, offset)` on the
  window `[offset, offset + min(granularity, len - offset))`. The call
  panics when any thread panics. Modules: `Partition` (the offsets and
  windows) and `ChunkDivider` (the workers and the rejoined buffer).
- **`apply`** (`src/apply.rs`) calls `divide` with granularity
  `len / num_cpus() + 1` and a worker that runs the element operation on
  each element of its window. Module: `ApplyAdapter`.
- **`execute!`** (`macros/src/lib.rs`, `expand_execute`) splits the
  macro's token trees at commas and drops the empty segments. Segment `i`
  is bound to `__task_i`. The first is bound as-is, every other one is
  wrapped in `fork`. The result is the tuple `(__task_0(),
  __task_1.join(), ...)`. Modules:
  - `Tokens`: splitting and filtering.
  - `Decimal`: the `{}` rendering of the index.
  - `Execute`: the plan, and an evaluator for it that runs each forked
    closure when it is bound.

How the model represents the source:

- A worker that panics is `None`.
- A failed call is `Err(...)` from `Outcomes`.
  - `divide`'s assertion is `Err(InvalidGranularity)`.
  - A worker panic that `divide` re-raises is `Err(WorkerFailure)`.
- The mutable slice handed to a worker is its window's contents. The
  worker returns the rewritten window, which must have the same length
  (`ChunkDivider.ChunkOp`). The buffer after the call is the workers'
  windows, concatenated in offset order.
- `num_cpus()` is a parameter `cpus >= 1`.
- The result tuple of `execute!` is a sequence `seq<R>` with one result
  type for all closures. The source's tuple may mix types, as in
  `(left_sum, right_sum)` with differently typed closures. To cover
  closures of different types, `R` must be a sum type of their results.
- The token trees of the macro input are `Comma | Other(text)`. A
  delimited group is a single `Other` tree, so its inner commas do not
  split closures.

### Behaviour of the code worth noting

- **Granularity of `apply`.** `divide` always takes an explicit `usize`
  granularity. `apply` passes `len / num_cpus() + 1` (`src/apply.rs:31`),
  which is at least 1 and at most `len + 1` (`ApplyAdapter.Granularity`).
  So `len = 5` on one CPU gives 6, a single window.
- **When a failure surfaces.** `divide` joins the threads in offset order
  and panics at the first failed join (`src/divide.rs:67-71`). The scoped
  guards of the remaining threads still join them as they drop. The model
  gives only the outcome: the call fails exactly when some worker fails.
- **The forking function.** The macro expands to the path
  `::parallel::Task::fork`, but the crate defines only a free function
  `fork` (`src/lib.rs:55`). The plan records only that a closure is forked.
- **Failure of `execute!`.** The macro's documentation says the construct
  fails when any spawned task fails (`macros/src/lib.rs:49-51`). The
  crate's `fork` returns a `JoinGuard`, whose `join()` yields a `Result`.
  With that `fork`, a failed forked closure would sit as an `Err` in its
  tuple position. The evaluator follows the documentation: a failed
  closure fails the whole construct.

## Model

| member | source | states |
|---|---|---|
| Partition.ChunksFrom | src/divide.rs:53-58 | The offsets of `range_step(start, len, g)` give no chunk exactly when `start >= len`. The first chunk starts at `start`, every chunk starts in `[start, len)`, is non-empty and ends by `len`, every chunk but the last is `g` long, and the last ends at `len`. |
| Partition.ChunkLength | src/divide.rs:56-59 | Each window is `min(granularity, len - offset)` long. |
| Partition.ChunksTileBuffer | src/divide.rs:53-58 | The windows tile `[0, len)`: the first starts at 0, each starts where the previous one ends, and the last ends at `len`. |
| Partition.ChunksFromTile | src/divide.rs:53-58 | The windows from any start offset up to `len` tile `[start, len)`. |
| Partition.TilesAbut | src/divide.rs:53-58 | In a tiling, each window after the first starts where its predecessor ends. |
| Partition.ChunkOffset | src/divide.rs:53 | Window `i` starts at `i * granularity`. |
| Partition.ChunkOffsetsAreMultiples | src/divide.rs:53 | The window offsets are exactly the multiples of the granularity strictly below `len`. |
| Partition.ChunksAreDisjoint | src/divide.rs:53-58 | The windows are in ascending order and pairwise disjoint: each ends at or before the start of every later one. |
| Partition.ChunksCover | src/divide.rs:53-58 | Every index `k < len` lies in window `k / granularity`. No other window holds it, and no window holds an index outside the buffer. |
| Partition.ChunkContaining | src/divide.rs:53-58 | Every index of the buffer lies in some window. |
| Partition.ChunkCount | src/divide.rs:53 | There are `ceil(len / granularity)` windows. |
| Partition.ChunkCountBound | src/divide.rs:53 | When `m` windows of the granularity reach `len`, there are at most `m` windows. |
| ChunkDivider.Worker | src/divide.rs:53-63 | The thread body for one window runs the operation on that window's slice with its absolute offset. When it succeeds it leaves a slice of exactly the window's length, `min(granularity, len - offset)`, because a mutable slice cannot grow or shrink. |
| ChunkDivider.RunChunks | src/divide.rs:53-71 | Running the workers of a tiling succeeds exactly when every worker succeeds. A failure is a worker failure, and the rejoined buffer covers the tiled range exactly. |
| ChunkDivider.RunChunksPlacesWindow | src/divide.rs:56-63 | Index `k` of the rejoined buffer holds what the worker of the window containing `k` wrote at position `k - offset` of its slice. |
| ChunkDivider.Divide | src/divide.rs:43-72 | Granularity 0 fails with the assertion, whatever the buffer. Otherwise the call succeeds exactly when every worker succeeds, and any failure is a worker failure. An empty buffer calls no worker, and a successful call keeps the buffer's length. |
| ChunkDivider.DivideWritesWindow | src/divide.rs:53-72 | After a successful call, element `k` is what the worker of `k`'s window wrote at `k`'s place in that window; that worker ran and succeeded. |
| ChunkDivider.DivideCopies | src/divide.rs:80-98 | The worker that copies `source[offset + i]` into slot `i` reproduces the source, for every buffer size and every positive granularity. So each worker is passed its window's absolute offset. |
| ChunkDivider.DivideFillsEverySlot | src/divide.rs:100-120 | After the worker that fills every slot of its window with `Some`, the call succeeds and no `None` is left: every slot lies in some window. |
| ApplyAdapter.Granularity | src/apply.rs:31 | `len / cpus + 1` is at least 1, so `divide`'s assertion never fires from `apply`. It is at most `len + 1`, and it makes at most `cpus` windows. |
| ApplyAdapter.SingleCpuSingleChunk | src/apply.rs:31 | On one CPU a non-empty buffer is a single window covering all of it. |
| ApplyAdapter.ForEach | src/apply.rs:33-37 | The per-window loop succeeds exactly when the element operation succeeds on every element. It then holds the operation's result on each element, in place. |
| ApplyAdapter.EachElementMaps | src/apply.rs:33-37 | The `\|data, _\|` worker ignores the offset. It succeeds on a window exactly when the element operation succeeds on every element, and then leaves the operation's result in each slot. |
| ApplyAdapter.Apply | src/apply.rs:27-37 | `apply` succeeds exactly when the operation succeeds on every element, and any failure is a worker failure. The buffer keeps its length, and element `k` becomes the operation's result on the original element `k`. |
| ApplyAdapter.ApplyIsElementwise | src/apply.rs:33-37 | At any positive granularity, dividing the element loop is the element-wise map of the whole buffer, and it succeeds exactly when every element succeeds. |
| ApplyAdapter.ElementWritten | src/apply.rs:33-37 | After a successful division of the element loop, element `k` is the operation's result on element `k`. |
| ApplyAdapter.ApplyIgnoresCpuCount | src/apply.rs:27-37 | The result of `apply` does not depend on the number of CPUs. |
| ApplyAdapter.ApplyIncrement | src/apply.rs:18-24 | Applying `*x = *x + 1` adds one to every element of any buffer. |
| ApplyAdapter.IncrementExample | src/apply.rs:18-24 | The documented example: `(1..10)`, incremented, becomes `2, ..., 10` on any number of CPUs. |
| Tokens.Split | macros/src/lib.rs:143-146 | Splitting at commas gives one more segment than there are commas, and no segment contains a comma. |
| Tokens.JoinSplit | macros/src/lib.rs:143-146 | Joining the segments with commas gives back the original token trees. |
| Tokens.SplitJoin | macros/src/lib.rs:143-146 | Splitting comma-free segments joined by commas gives back those segments. |
| Tokens.Segments | macros/src/lib.rs:143-147 | The closures are the comma-separated segments with the empty ones dropped. There are at most `commas + 1` of them, each non-empty and comma-free. |
| Tokens.SegmentsKeepOrder | macros/src/lib.rs:143-148 | The closures hold every non-comma token tree exactly once, in source order. |
| Tokens.SegmentsOfJoin | macros/src/lib.rs:143-148 | The closures are exactly the comma-separated segments: any non-empty, comma-free segments joined by commas, with or without a trailing comma, segment back into themselves. |
| Tokens.SegmentsOfAnyJoin | macros/src/lib.rs:143-147 | For any comma-free segments, empty ones included, the closures are those segments with the empty ones dropped. So `a,,b` gives two closures and `,a` gives one. |
| Tokens.NonEmptyAppend | macros/src/lib.rs:146-148 | Dropping empty segments works piece by piece: filtering a concatenation is the concatenation of the filtered parts. |
| Tokens.NonEmptySingle | macros/src/lib.rs:146-148 | A single segment is kept exactly when it is non-empty. |
| Tokens.SegmentExamples | macros/src/lib.rs:143-147 | `a, b,` and `a, b` give the two closures `a` and `b`. An empty invocation and a lone comma give none. |
| Decimal.ParseShow | macros/src/lib.rs:150 | The decimal numeral `format!("{}", i)` reads back as `i`. |
| Decimal.ShowInjective | macros/src/lib.rs:150 | Different numbers have different numerals. |
| Execute.TaskNamesDistinct | macros/src/lib.rs:150 | Different indices give different binding names `__task_i`. |
| Execute.Bind | macros/src/lib.rs:148-166 | Closure `i` is bound to `__task_i`, keeping its tokens. It is bound as-is exactly when it is closure 0; every other closure is forked. |
| Execute.Tuple | macros/src/lib.rs:171-185 | The tuple has one position per binding, in binding order. Only the first position is a call; the rest are joins. |
| Execute.Expand | macros/src/lib.rs:142-187 | The expansion has one `let` and one tuple position per closure, in source order. `__task_0` is bound to closure 0 and called; every `__task_i` with `i >= 1` is bound to `fork(closure i)` and joined. All binding names are distinct. |
| Execute.ForksAllButFirst | macros/src/lib.rs:152-164 | `K` closures spawn `K - 1` forks, and none when `K` is 0. |
| Execute.VisitExpanded | macros/src/lib.rs:37-46 | In the expansion, tuple position `i` yields closure `i`'s outcome: `__task_0()` runs the first closure inline, and `__task_i.join()` returns what the forked closure produced. No position names a missing or wrongly kinded binding. |
| Execute.Collect | macros/src/lib.rs:37-46 | The tuple `(__task_0(), __task_1.join(), ...)` succeeds exactly when every position succeeds. It then holds each position's value, in order. |
| Execute.RunAll | macros/src/lib.rs:14-17 | The reference semantics: the results of the closures, in order, and a failure exactly when some closure fails. |
| Execute.ExecBinds | macros/src/lib.rs:166 | With distinct names, every `let` binding is still in scope when the tuple is evaluated. |
| Execute.CollectRunsJobs | macros/src/lib.rs:171-185 | A tuple whose positions reach the matching closures, as calls or joined handles, evaluates like running the closures in order. |
| Execute.EvalExpand | macros/src/lib.rs:38-51 | Evaluating the expansion gives the closures' results in declared order, or fails exactly when some closure fails. It is never ill-formed. |
| Execute.TwoClosureExample | macros/src/lib.rs:80-84 | The documented two-closure invocation with a trailing comma binds `__task_0` inline and `__task_1 = fork(...)`. It returns `(__task_0(), __task_1.join())`. |
| Execute.SingleClosureExample | macros/tests/execute.rs:12-15 | A single closure is bound as `__task_0` and called inline. Nothing is forked, and the result is that closure's result. |
| Execute.EmptyInvocation | macros/tests/execute.rs:8-10 | `execute!()` expands to an empty block whose value is the empty tuple. |

## Left out

- Thread spawning and joining (`Thread::scoped`, `JoinGuard`, and the
  `fork` of `src/lib.rs:39-60`) are left out because concurrency is not
  modelled. Every worker and every forked closure is a sequential call
  whose outcome is an `Option`. A fork runs its closure when it is bound,
  and `join` reads the stored outcome.
- The raw-pointer and `mem::transmute` plumbing (`RawPtr`, `raw::Slice`,
  `unsafe impl Send`) is left out: it is unsafe glue around the standard
  library. What it depends on — windows in bounds, pairwise disjoint and
  covering the buffer — is what `Partition` proves.
- `os::num_cpus()` is a host query, so it is the parameter `cpus >= 1`.
- The compiler-plugin machinery is left out because it only builds syntax
  trees, not behaviour. This covers `Registry`, `ExtCtxt`, the AST
  builders, parsing a segment into an expression, and the
  compiler-generated `unsafe` block. A segment is an opaque job.
- The random numbers and floating-point values in the tests and doc
  examples are left out. `DivideCopies` copies arbitrary values, and
  `DivideFillsEverySlot` takes the drawn values as a parameter, so the
  `x > 0. && x < 1.` range check is not modelled.
- ChunkDivider.Divide: on failure the model reports only
  `Err(WorkerFailure)`, not the partially rewritten buffer a panicking call
  leaves behind. The outcome type carries no buffer on the failure path.
  A caller that catches the panic, for instance from the parent of a
  scoped thread, would see windows already rewritten by workers that
  finished.
- The user operation is a deterministic function: of the window and its
  offset for `divide` (`ChunkDivider.ChunkOp`), and of the element for
  `apply`. The source accepts any `Fn(&mut [T], usize) + Sync` or
  `Fn(&mut T) + Sync` closure (`src/divide.rs:45`, `src/apply.rs:29`). Such
  a closure may use `Sync` interior mutability or a thread-local random
  generator, as the `new` test's worker does. Its results may then depend
  on the chunking and on scheduling, which the model does not capture.
- ApplyAdapter.Granularity: `usize` arithmetic is not modelled; lengths are
  unbounded `nat`. In the source, `len / num_cpus() + 1` overflows when
  `len == usize::MAX` on one CPU, which only a slice of zero-sized elements
  can reach. It then wraps to 0 and `divide`'s assertion fires, or it
  panics on the overflow. The model returns `len + 1`.
- ApplyAdapter.Apply: for the same reason it succeeds on a buffer of
  `usize::MAX` zero-sized elements on one CPU, where the source panics.
- ApplyAdapter.ApplyIgnoresCpuCount: holds only for the two abstractions
  above. The operation must be a deterministic function of the element,
  and the granularity must not overflow. At `len == usize::MAX` the source
  fails on one CPU and succeeds on two.
- ApplyAdapter.ApplyIncrement: elements are unbounded `nat`, so the
  overflow of `*x + 1` at `usize::MAX` is not modelled. "Any buffer" means
  any buffer whose elements are below `usize::MAX`.
- ApplyAdapter.IncrementExample: the `usize` overflow of `*x + 1` is not
  modelled; the example's values are small, so it does not arise.
- Execute.Expand: the path the expansion uses to name `fork` is not
  modelled. The plan records only whether a binding is forked.
- Execute.EvalExpand: the evaluator does not model a handle being consumed
  by `join`. Each handle is joined exactly once by construction.
- Execute.EvalExpand: a closure is modelled as a fixed function of its
  token trees (`run: Job -> Option<R>`). So two closures with the same text
  give the same outcome. Real closures may capture references and
  non-`Send` state (`macros/src/lib.rs:19-20`), and the forked ones run at
  the same time as closure 0. Side effects, such as two `fetch_add` calls
  on a shared counter returning different values, and any interference
  between closures are not modelled.
- Execute.EvalExpand: the failure rule (a failed closure fails the whole
  construct) comes from the macro's documentation
  (`macros/src/lib.rs:49-51`), not from code in the crate. With the crate's
  `fork` (`src/lib.rs:55`), `join()` returns a `Result`, so a failed forked
  closure would leave an `Err` in its tuple position instead.
