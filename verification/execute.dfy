/** The `execute!` expansion as a plan, and a sequential evaluator for the
    plan in which every spawned thread is a plain call. */
module Execute {
  import opened Outcomes
  import opened Tokens
  import opened Decimal

  /** One closure of the invocation, as its (non-empty) token trees. */
  type Job = seq<Token>

  /** The initialiser of a `let __task_i = ...;` statement: the closure itself,
      or the closure wrapped in `unsafe { fork(...) }`. */
  datatype Init = Inline(job: Job) | Forked(job: Job)

  datatype Stmt = Let(name: string, init: Init)

  /** One position of the result tuple: `__task_i()` or `__task_i.join()`. */
  datatype Access = Call(name: string) | Join(name: string) {
    function Name(): string {
      match this
      case Call(n) => n
      case Join(n) => n
    }
  }

  /** The block the macro expands to: the bindings, then the result tuple. */
  datatype Plan = Block(stmts: seq<Stmt>, tuple: seq<Access>)

  /** The binding name `format!("__task_{}", i)`. */
  function TaskName(i: nat): string {
    "__task_" + Show(i)
  }

  /** Different indices give different binding names. */
  lemma TaskNamesDistinct(i: nat, j: nat)
    ensures i != j ==> TaskName(i) != TaskName(j)
  {
    if TaskName(i) == TaskName(j) {
      assert TaskName(i)[7..] == Show(i) && TaskName(j)[7..] == Show(j);
      ShowInjective(i, j);
    }
  }

  /** The `let` statements for `jobs`, numbered from `first`: the closure
      numbered 0 is bound as-is, every other one is forked. */
  function Bind(jobs: seq<Job>, first: nat): (stmts: seq<Stmt>)
    ensures |stmts| == |jobs|
    ensures forall i :: 0 <= i < |jobs| ==>
      && stmts[i].name == TaskName(first + i)
      && stmts[i].init.job == jobs[i]
      && (stmts[i].init.Inline? <==> first + i == 0)
  {
    if |jobs| == 0 then []
    else
      var init := if first == 0 then Inline(jobs[0]) else Forked(jobs[0]);
      [Let(TaskName(first), init)] + Bind(jobs[1..], first + 1)
  }

  /** The result tuple over the bound names: the first is called, the rest are
      joined. */
  function Tuple(names: seq<string>, isFirst: bool): (t: seq<Access>)
    ensures |t| == |names|
    ensures forall i :: 0 <= i < |names| ==>
      t[i].Name() == names[i] && (t[i].Call? <==> isFirst && i == 0)
  {
    if |names| == 0 then []
    else [if isFirst then Call(names[0]) else Join(names[0])] + Tuple(names[1..], false)
  }

  /** `expand_execute`: one binding per non-empty comma-separated segment, in
      source order, then the tuple of their results. */
  function Expand(tts: seq<Token>): (p: Plan)
    ensures var jobs := Segments(tts);
      && |p.stmts| == |jobs| == |p.tuple|
      && (forall i :: 0 <= i < |jobs| ==>
            && p.stmts[i] == Let(TaskName(i), if i == 0 then Inline(jobs[i]) else Forked(jobs[i]))
            && p.tuple[i] == if i == 0 then Call(TaskName(i)) else Join(TaskName(i)))
      && (forall i, j :: 0 <= i < j < |jobs| ==> p.stmts[i].name != p.stmts[j].name)
  {
    var stmts := Bind(Segments(tts), 0);
    BoundNamesDistinct(stmts);
    Block(stmts, Tuple(Names(stmts), true))
  }

  /** The names the statements bind, in order. */
  function Names(stmts: seq<Stmt>): seq<string> {
    seq(|stmts|, i requires 0 <= i < |stmts| => stmts[i].name)
  }

  /** Statements binding `__task_0`, `__task_1`, ... bind distinct names. */
  lemma BoundNamesDistinct(stmts: seq<Stmt>)
    requires forall i :: 0 <= i < |stmts| ==> stmts[i].name == TaskName(i)
    ensures forall i, j :: 0 <= i < j < |stmts| ==> stmts[i].name != stmts[j].name
  {
    forall i, j | 0 <= i < j < |stmts|
      ensures stmts[i].name != stmts[j].name
    {
      TaskNamesDistinct(i, j);
    }
  }

  /** The number of `fork` calls in a plan. */
  function ForkCount(stmts: seq<Stmt>): nat {
    if |stmts| == 0 then 0 else (if stmts[0].init.Forked? then 1 else 0) + ForkCount(stmts[1..])
  }

  /** Every closure but the first is forked: `K` closures spawn `max(K - 1, 0)`
      threads, so a single closure spawns none. */
  lemma ForksAllButFirst(tts: seq<Token>)
    ensures var k := |Segments(tts)|;
      ForkCount(Expand(tts).stmts) == if k == 0 then 0 else k - 1
  {
    var stmts := Expand(tts).stmts;
    if |stmts| > 0 {
      InlineFree(stmts[1..]);
    }
  }

  lemma {:induction false} InlineFree(stmts: seq<Stmt>)
    requires forall i :: 0 <= i < |stmts| ==> stmts[i].init.Forked?
    ensures ForkCount(stmts) == |stmts|
  {
    if |stmts| > 0 {
      InlineFree(stmts[1..]);
    }
  }

  // ---------------------------------------------------------------------
  // Evaluation

  /** What a binding holds: a closure not yet run, or the handle of a
      spawned job carrying the job's outcome. */
  datatype Slot<R> = Closure(job: Job) | Handle(outcome: Option<R>)

  datatype ExecError =
    | JobFailed   // a job panicked; the construct fails
    | Malformed   // a tuple position names no suitable binding

  /** The slot a `let` statement binds: the closure itself, or the handle
      of the forked job with its outcome. */
  function SlotOf<R>(s: Stmt, run: Job -> Option<R>): Slot<R> {
    match s.init
    case Inline(j) => Closure(j)
    case Forked(j) => Handle(run(j))
  }

  /** Runs the `let` statements in order. A fork runs its job at once, as the
      spawned thread would, and keeps the outcome in the handle. */
  function Exec<R>(stmts: seq<Stmt>, env: map<string, Slot<R>>, run: Job -> Option<R>): map<string, Slot<R>>
    decreases |stmts|
  {
    if |stmts| == 0 then env
    else
      Exec(stmts[1..], env[stmts[0].name := SlotOf(stmts[0], run)], run)
  }

  function Outcome<R>(o: Option<R>): Result<R, ExecError> {
    match o
    case Some(v) => Ok(v)
    case None => Err(JobFailed)
  }

  /** The value of one tuple position: calling a closure runs it inline,
      joining a handle yields the spawned job's outcome. */
  function Visit<R>(a: Access, env: map<string, Slot<R>>, run: Job -> Option<R>): Result<R, ExecError> {
    match a
    case Call(n) => if n in env && env[n].Closure? then Outcome(run(env[n].job)) else Err(Malformed)
    case Join(n) => if n in env && env[n].Handle? then Outcome(env[n].outcome) else Err(Malformed)
  }

  /** In the expansion, tuple position `i` yields the outcome of closure `i`:
      `__task_0()` runs it inline and `__task_i.join()` returns what the
      forked closure produced; no position is malformed. */
  lemma VisitExpanded<R>(tts: seq<Token>, run: Job -> Option<R>, i: nat)
    requires i < |Segments(tts)|
    ensures Visit(Expand(tts).tuple[i], Exec(Expand(tts).stmts, map[], run), run) == Outcome(run(Segments(tts)[i]))
  {
    var p := Expand(tts);
    ExecBinds(p.stmts, map[], run);
    assert p.tuple[i].Name() == p.stmts[i].name;
  }

  /** Evaluates the tuple left to right; the first failure fails the whole. */
  function Collect<R>(tuple: seq<Access>, env: map<string, Slot<R>>, run: Job -> Option<R>): (r: Result<seq<R>, ExecError>)
    ensures r.Ok? <==> forall i :: 0 <= i < |tuple| ==> Visit(tuple[i], env, run).Ok?
    ensures r.Ok? ==> |r.value| == |tuple| && forall i :: 0 <= i < |tuple| ==> r.value[i] == Visit(tuple[i], env, run).value
  {
    if |tuple| == 0 then Ok([])
    else
      match Visit(tuple[0], env, run)
      case Err(e) => Err(e)
      case Ok(v) =>
        match Collect(tuple[1..], env, run)
        case Err(e) => Err(e)
        case Ok(vs) => Ok([v] + vs)
  }

  function Eval<R>(p: Plan, run: Job -> Option<R>): Result<seq<R>, ExecError> {
    Collect(p.tuple, Exec(p.stmts, map[], run), run)
  }

  /** The reference semantics: run every job, keep the results in job order,
      and fail if any job fails. */
  function RunAll<R>(jobs: seq<Job>, run: Job -> Option<R>): (r: Result<seq<R>, ExecError>)
    ensures r.Ok? <==> forall i :: 0 <= i < |jobs| ==> run(jobs[i]).Some?
    ensures r.Err? ==> r.error == JobFailed
    ensures r.Ok? ==> |r.value| == |jobs| && forall i :: 0 <= i < |jobs| ==> r.value[i] == run(jobs[i]).value
  {
    if |jobs| == 0 then Ok([])
    else
      match run(jobs[0])
      case None => Err(JobFailed)
      case Some(v) =>
        match RunAll(jobs[1..], run)
        case Err(e) => Err(e)
        case Ok(vs) => Ok([v] + vs)
  }


  /** A name the statements do not bind keeps its slot. */
  lemma {:induction false} ExecKeeps<R>(stmts: seq<Stmt>, env: map<string, Slot<R>>, run: Job -> Option<R>, n: string)
    requires forall i :: 0 <= i < |stmts| ==> stmts[i].name != n
    ensures n in Exec(stmts, env, run) <==> n in env
    ensures n in env ==> Exec(stmts, env, run)[n] == env[n]
    decreases |stmts|
  {
    if |stmts| > 0 {
      ExecKeeps(stmts[1..], env[stmts[0].name := SlotOf(stmts[0], run)], run, n);
    }
  }

  /** With distinct names, every statement's binding survives to the end. */
  lemma {:induction false} ExecBinds<R>(stmts: seq<Stmt>, env: map<string, Slot<R>>, run: Job -> Option<R>)
    requires forall i, j :: 0 <= i < j < |stmts| ==> stmts[i].name != stmts[j].name
    ensures forall i :: 0 <= i < |stmts| ==>
      stmts[i].name in Exec(stmts, env, run) && Exec(stmts, env, run)[stmts[i].name] == SlotOf(stmts[i], run)
    decreases |stmts|
  {
    if |stmts| > 0 {
      var env' := env[stmts[0].name := SlotOf(stmts[0], run)];
      assert Exec(stmts, env, run) == Exec(stmts[1..], env', run);
      ExecKeeps(stmts[1..], env', run, stmts[0].name);
      ExecBinds(stmts[1..], env', run);
      forall i | 1 <= i < |stmts|
        ensures stmts[i].name in Exec(stmts, env, run) && Exec(stmts, env, run)[stmts[i].name] == SlotOf(stmts[i], run)
      {
        assert stmts[1..][i - 1] == stmts[i];
      }
    }
  }

  /** A tuple whose every position reaches the slot of the matching job
      evaluates like running the jobs in order. */
  lemma {:induction false} CollectRunsJobs<R>(tuple: seq<Access>, env: map<string, Slot<R>>, jobs: seq<Job>, run: Job -> Option<R>)
    requires |tuple| == |jobs|
    requires forall i :: 0 <= i < |tuple| ==> tuple[i].Name() in env
    requires forall i :: 0 <= i < |tuple| ==>
      env[tuple[i].Name()] == if tuple[i].Call? then Closure(jobs[i]) else Handle(run(jobs[i]))
    ensures Collect(tuple, env, run) == RunAll(jobs, run)
    decreases |tuple|
  {
    if |tuple| > 0 {
      CollectRunsJobs(tuple[1..], env, jobs[1..], run);
    }
  }

  /** Evaluating the expansion gives the results of the closures in declared
      order, or fails exactly when some closure fails; the plan is never
      malformed. */
  lemma EvalExpand<R>(tts: seq<Token>, run: Job -> Option<R>)
    ensures Eval(Expand(tts), run) == RunAll(Segments(tts), run)
  {
    var p := Expand(tts);
    var jobs := Segments(tts);
    var env := Exec(p.stmts, map[], run);
    ExecBinds(p.stmts, map[], run);
    forall i | 0 <= i < |p.tuple|
      ensures p.tuple[i].Name() in env
      ensures env[p.tuple[i].Name()] == if p.tuple[i].Call? then Closure(jobs[i]) else Handle(run(jobs[i]))
    {
      assert p.tuple[i].Name() == p.stmts[i].name;
    }
    CollectRunsJobs(p.tuple, env, jobs, run);
  }

  /** The documented two-closure example with a trailing comma: the first
      closure is bound as `__task_0` and called, the second is forked as
      `__task_1` and joined. */
  lemma TwoClosureExample(left: Token, right: Token)
    requires left != Comma && right != Comma
    ensures Expand([left, Comma, right, Comma]) == Block(
      [Let("__task_0", Inline([left])), Let("__task_1", Forked([right]))],
      [Call("__task_0"), Join("__task_1")])
  {
    SegmentExamples(left, right);
    assert DigitChar(0) == '0' && DigitChar(1) == '1';
    assert TaskName(0) == "__task_0" && TaskName(1) == "__task_1";
  }

  /** A single closure is bound as `__task_0` and called inline; nothing is
      forked. */
  lemma SingleClosureExample<R>(t: Token, run: Job -> Option<R>)
    requires t != Comma
    ensures Expand([t]) == Block([Let("__task_0", Inline([t]))], [Call("__task_0")])
    ensures ForkCount(Expand([t]).stmts) == 0
    ensures Eval(Expand([t]), run) == if run([t]).Some? then Ok([run([t]).value]) else Err(JobFailed)
  {
    SplitCommaFree([t]);
    assert NonEmpty([[t]]) == [[t]];
    assert DigitChar(0) == '0';
    assert TaskName(0) == "__task_0";
    EvalExpand([t], run);
    var r := RunAll([[t]], run);
    if r.Ok? {
      assert r.value == [run([t]).value];
    }
  }

  /** `execute!()` expands to the empty tuple and yields no results. */
  lemma EmptyInvocation<R>(run: Job -> Option<R>)
    ensures Expand([]) == Block([], [])
    ensures Eval(Expand([]), run) == Ok([])
  {
    SegmentExamples(Other("a"), Other("b"));
  }
}
