/**
 The rows of the xref and error tables once the job queue is drained, for one
 client: they are those of the last submission of each function.
 */
module SymServerDb {
  import opened SymServer
  import opened SymServerSafety

  // ----- the database tables -----

  datatype XrefRow = XrefRow(id: int, ref: Ref)

  datatype ErrRow = ErrRow(id: int, err: Err)

  datatype Db = Db(xrefs: seq<XrefRow>, errs: seq<ErrRow>)

  function DropXrefs(rows: seq<XrefRow>, id: int): seq<XrefRow>
  {
    if rows == [] then []
    else
      var rest := DropXrefs(rows[..|rows| - 1], id);
      if rows[|rows| - 1].id == id then rest else rest + [rows[|rows| - 1]]
  }

  function DropErrs(rows: seq<ErrRow>, id: int): seq<ErrRow>
  {
    if rows == [] then []
    else
      var rest := DropErrs(rows[..|rows| - 1], id);
      if rows[|rows| - 1].id == id then rest else rest + [rows[|rows| - 1]]
  }

  /** The statement a job runs; symbol rows are not part of these tables. */
  function Execute(db: Db, job: Job): Db
  {
    match job
    case InsertSym(_, _) => db
    case UpdateFunc(_, _, _) => db
    case DelXrefs(id) => db.(xrefs := DropXrefs(db.xrefs, id))
    case DelErrs(id) => db.(errs := DropErrs(db.errs, id))
    case InsertErr(id, bid, msg) => db.(errs := db.errs + [ErrRow(id, Err(bid, msg))])
    case InsertXref(id, r) => db.(xrefs := db.xrefs + [XrefRow(id, r)])
  }

  function ExecuteAll(db: Db, jobs: seq<Job>): Db
  {
    if jobs == [] then db else Execute(ExecuteAll(db, jobs[..|jobs| - 1]), jobs[|jobs| - 1])
  }

  lemma {:induction false} ExecuteAppend(db: Db, a: seq<Job>, b: seq<Job>)
    ensures ExecuteAll(db, a + b) == ExecuteAll(ExecuteAll(db, a), b)
    decreases |b|
  {
    if b == [] {
      assert a + b == a;
    } else {
      assert (a + b)[..|a + b| - 1] == a + b[..|b| - 1];
      ExecuteAppend(db, a, b[..|b| - 1]);
    }
  }

  // ----- the rows of one function -----

  /** A submission: what one function's rows should be. */
  datatype Rows = Rows(refs: seq<Ref>, errs: seq<Err>)

  const NONE := Rows([], [])

  function RefsOf(rows: seq<XrefRow>, id: int): seq<Ref>
  {
    if rows == [] then []
    else
      var rest := RefsOf(rows[..|rows| - 1], id);
      if rows[|rows| - 1].id == id then rest + [rows[|rows| - 1].ref] else rest
  }

  function ErrsOf(rows: seq<ErrRow>, id: int): seq<Err>
  {
    if rows == [] then []
    else
      var rest := ErrsOf(rows[..|rows| - 1], id);
      if rows[|rows| - 1].id == id then rest + [rows[|rows| - 1].err] else rest
  }

  function RowsOf(db: Db, id: int): Rows { Rows(RefsOf(db.xrefs, id), ErrsOf(db.errs, id)) }

  lemma {:induction false} DropXrefsRows(rows: seq<XrefRow>, id: int, other: int)
    ensures RefsOf(DropXrefs(rows, id), other) == if other == id then [] else RefsOf(rows, other)
    decreases |rows|
  {
    if rows != [] {
      var init := rows[..|rows| - 1];
      DropXrefsRows(init, id, other);
      var kept := DropXrefs(init, id);
      assert (kept + [rows[|rows| - 1]])[..|kept|] == kept;
    }
  }

  lemma {:induction false} DropErrsRows(rows: seq<ErrRow>, id: int, other: int)
    ensures ErrsOf(DropErrs(rows, id), other) == if other == id then [] else ErrsOf(rows, other)
    decreases |rows|
  {
    if rows != [] {
      var init := rows[..|rows| - 1];
      DropErrsRows(init, id, other);
      var kept := DropErrs(init, id);
      assert (kept + [rows[|rows| - 1]])[..|kept|] == kept;
    }
  }

  lemma ClearRows(db: Db, id: int, other: int)
    ensures RowsOf(ExecuteAll(db, [DelXrefs(id), DelErrs(id)]), other)
      == if other == id then NONE else RowsOf(db, other)
  {
    var jobs := [DelXrefs(id), DelErrs(id)];
    assert jobs[..1] == [DelXrefs(id)] && jobs[..1][..0] == [];
    assert ExecuteAll(db, jobs[..1]) == Execute(db, DelXrefs(id));
    DropXrefsRows(db.xrefs, id, other);
    DropErrsRows(db.errs, id, other);
  }

  lemma {:induction false} ErrJobsRows(db: Db, id: int, errors: seq<Err>, other: int)
    ensures RowsOf(ExecuteAll(db, ErrJobs(id, errors)), other)
      == Rows(RefsOf(db.xrefs, other), ErrsOf(db.errs, other) + if other == id then errors else [])
    decreases |errors|
  {
    if errors != [] {
      var init := errors[..|errors| - 1];
      assert ErrJobs(id, errors)[..|errors| - 1] == ErrJobs(id, init);
      ErrJobsRows(db, id, init, other);
      var done := ExecuteAll(db, ErrJobs(id, init)).errs;
      assert (done + [ErrRow(id, errors[|errors| - 1])])[..|done|] == done;
      assert init + [errors[|errors| - 1]] == errors;
    }
  }

  lemma {:induction false} RefJobsRows(db: Db, id: int, refs: seq<Ref>, other: int)
    ensures RowsOf(ExecuteAll(db, RefJobs(id, refs)), other)
      == Rows(RefsOf(db.xrefs, other) + (if other == id then refs else []), ErrsOf(db.errs, other))
    decreases |refs|
  {
    if refs != [] {
      var init := refs[..|refs| - 1];
      assert RefJobs(id, refs)[..|refs| - 1] == RefJobs(id, init);
      RefJobsRows(db, id, init, other);
      var done := ExecuteAll(db, RefJobs(id, init)).xrefs;
      assert (done + [XrefRow(id, refs[|refs| - 1])])[..|done|] == done;
      assert init + [refs[|refs| - 1]] == refs;
    }
  }

  lemma AddRows(db: Db, f: FFunc, other: int)
    ensures var before := RowsOf(db, other);
      RowsOf(ExecuteAll(db, AddJobs(f)), other)
      == if other == f.id then Rows(before.refs + f.refs, before.errs + f.errors) else before
  {
    var u := [UpdateFunc(f.id, f.fname, f.bbcount)];
    assert u[..0] == [];
    ExecuteAppend(db, u, ErrJobs(f.id, f.errors));
    ExecuteAppend(db, u + ErrJobs(f.id, f.errors), RefJobs(f.id, f.refs));
    ErrJobsRows(db, f.id, f.errors, other);
    RefJobsRows(ExecuteAll(db, ErrJobs(f.id, f.errors)), f.id, f.refs, other);
  }

  // ----- the submission the rows should reflect -----

  /** The rows of id a step of the client's thread asks for: a check clears, an add submits. */
  function Expected(s: State, step: Step, id: int, rows: Rows): Rows
  {
    if s.writer == Closed || !step.Serve? || step.t >= |s.sessions| then rows
    else
      match s.sessions[step.t].call
      case FuncShared(n, _) => if n in s.cache.names && s.cache.names[n] == id then NONE else rows
      case AddLocked(f) => if f.id == id then Rows(f.refs, f.errors) else rows
      case _ => rows
  }

  function ExpectedRun(s: State, steps: seq<Step>, id: int, rows: Rows): Rows
    decreases |steps|
  {
    if steps == [] then rows
    else ExpectedRun(Apply(s, steps[0]), steps[1..], id, Expected(s, steps[0], id, rows))
  }

  // ----- the invariant of one client -----

  /** All jobs issued so far, in the order they reach the database. */
  function AllJobs(s: State): seq<Job>
    requires |s.sessions| == 1
  {
    s.executed + s.queue + NewJobs(s.sessions[0].call)
  }

  /** The call in progress will leave this id as the client's current function. */
  function CurrentId(c: Session): int
  {
    if c.call.Pushing? && c.call.reply.FuncReply? then (if c.call.reply.skip then 0 else c.call.reply.id)
    else if c.call.Pushing? && c.call.reply.AddReply? then 0
    else if c.call.FuncShared? || c.call.FuncUnique? then 0
    else c.func.id
  }

  ghost predicate OneClient(s: State)
  {
    && |s.sessions| == 1
    && IdsOk(s)
    && (forall x :: x in s.cache.funcs ==> x <= s.cache.maxId)
    && s.sessions[0].func.id <= s.cache.maxId
    && (s.sessions[0].call.FuncUnique? ==> s.sessions[0].call.name !in s.cache.names)
    && (s.sessions[0].call.SymUnique? ==> s.sessions[0].call.name !in s.cache.names)
  }

  ghost predicate RowsOk(db: Db, s: State, id: int, rows: Rows)
    requires |s.sessions| == 1
  {
    && RowsOf(ExecuteAll(db, AllJobs(s)), id) == rows
    && (rows != NONE ==> id in s.cache.funcs)
    && (id != 0 && id == CurrentId(s.sessions[0]) ==> rows == NONE)
  }

  lemma StepKeepsOneClient(s: State, step: Step)
    requires OneClient(s)
    ensures OneClient(Apply(s, step))
  {
    hide DoAct, ReceiveStep, CacheBlock;
    StepKeepsIds(s, step);
    if step.Client? && ClientTurn(s, step.t) { ActKeepsFunc(s.sessions[0], step.act); }
    if step.Serve? && s != Apply(s, step) {
      ServeKeepsOneClient(s);
    } else if step.Receive? && s != Apply(s, step) {
      ReceiveKeepsOneClient(s);
    }
  }

  lemma ActKeepsFunc(c: Session, act: Act)
    requires c.call == Idle
    ensures DoAct(c, act).func.id == c.func.id
    ensures !DoAct(c, act).call.FuncUnique? && !DoAct(c, act).call.SymUnique?
  {
  }

  lemma ServeKeepsOneClient(s: State)
    requires OneClient(s) && TakesCacheLock(s.sessions[0].call) && IdsOk(ServeStep(s, 0))
    ensures OneClient(ServeStep(s, 0))
  {
    var call := s.sessions[0].call;
    if call.AddLocked? { assert SessionOk(s.cache.names, s.sessions[0]); }
  }

  lemma ReceiveKeepsOneClient(s: State)
    requires OneClient(s) && CanReceive(s, 0) && IdsOk(ReceiveStep(s, 0))
    ensures OneClient(ReceiveStep(s, 0))
  {
    assert SessionOk(s.cache.names, s.sessions[0]);
  }

  lemma StepKeepsRows(db: Db, s: State, step: Step, id: int, rows: Rows)
    requires OneClient(s) && RowsOk(db, s, id, rows) && id != 0
    ensures |Apply(s, step).sessions| == 1
    ensures RowsOk(db, Apply(s, step), id, Expected(s, step, id, rows))
  {
    if step.Serve? && s != Apply(s, step) {
      ServeKeepsRows(db, s, id, rows);
    } else {
      JobsOnlyMove(s, step);
      OthersKeepStored(s, step, id, rows);
    }
  }

  lemma OthersKeepStored(s: State, step: Step, id: int, rows: Rows)
    requires OneClient(s) && id != 0 && (step.Serve? ==> Apply(s, step) == s)
    requires id == CurrentId(s.sessions[0]) ==> rows == NONE
    ensures |Apply(s, step).sessions| == 1 && Apply(s, step).cache == s.cache
    ensures Expected(s, step, id, rows) == rows
    ensures id == CurrentId(Apply(s, step).sessions[0]) ==> rows == NONE
  {
    hide DoAct, ReceiveStep;
    if step.Client? && ClientTurn(s, step.t) { ActKeepsCurrent(s.sessions[0], step.act); }
    if step.Receive? && CanReceive(s, step.t) { ReceiveKeepsCurrent(s); }
  }

  lemma ActKeepsCurrent(c: Session, act: Act)
    requires c.call == Idle
    ensures CurrentId(DoAct(c, act)) == CurrentId(c) || CurrentId(DoAct(c, act)) == 0
  {
  }

  lemma ReceiveKeepsCurrent(s: State)
    requires CanReceive(s, 0)
    ensures ReceiveStep(s, 0).cache == s.cache && |ReceiveStep(s, 0).sessions| == |s.sessions|
    ensures CurrentId(ReceiveStep(s, 0).sessions[0]) == CurrentId(s.sessions[0])
  {
  }

  lemma JobsOnlyMove(s: State, step: Step)
    requires |s.sessions| == 1 && (step.Serve? ==> Apply(s, step) == s)
    ensures |Apply(s, step).sessions| == 1 && AllJobs(Apply(s, step)) == AllJobs(s)
  {
    hide DoAct, ReceiveStep;
    var s' := Apply(s, step);
    if step.Push? && s' != s {
      PushMovesJob(s);
    } else if step.WriterExecute? && s' != s {
      assert s'.executed + s'.queue == s.executed + s.queue;
    } else if step.Client? && s' != s {
      ActIssuesNothing(s.sessions[0], step.act);
    } else if step.Receive? && s' != s {
      ReceiveIssuesNothing(s, 0);
    }
  }

  lemma PushMovesJob(s: State)
    requires |s.sessions| == 1 && CanPush(s, 0)
    ensures AllJobs(PushStep(s, 0)) == AllJobs(s)
  {
    var pending := s.sessions[0].call.pending;
    assert pending == [pending[0]] + pending[1..];
  }

  lemma ServeKeepsRows(db: Db, s: State, id: int, rows: Rows)
    requires OneClient(s) && RowsOk(db, s, id, rows) && id != 0
    requires s.writer != Closed && TakesCacheLock(s.sessions[0].call)
    ensures RowsOk(db, ServeStep(s, 0), id, Expected(s, Serve(0), id, rows))
  {
    hide CacheBlock, IdsOk, AllJobs, RowsOf, ExecuteAll, Expected;
    var call' := CacheBlock(s.cache, s.sessions[0].call).1;
    ServeAppends(s);
    if s.sessions[0].call.AddLocked? { AddsCurrent(s); }
    ExecuteAppend(db, AllJobs(s), NewJobs(call'));
    BlockRows(ExecuteAll(db, AllJobs(s)), s, id, rows);
    BlockStored(s, id, rows);
  }

  lemma AddsCurrent(s: State)
    requires OneClient(s) && s.sessions[0].call.AddLocked?
    ensures s.sessions[0].call.f == s.sessions[0].func
  {
    assert SessionOk(s.cache.names, s.sessions[0]);
  }

  lemma ServeAppends(s: State)
    requires |s.sessions| == 1 && TakesCacheLock(s.sessions[0].call)
    ensures |ServeStep(s, 0).sessions| == 1
    ensures AllJobs(ServeStep(s, 0)) == AllJobs(s) + NewJobs(CacheBlock(s.cache, s.sessions[0].call).1)
  {
    hide CacheBlock;
  }

  /** A block leaves rows only for stored ids, and none for the client's next function. */
  lemma BlockStored(s: State, id: int, rows: Rows)
    requires OneClient(s) && id != 0 && s.writer != Closed && TakesCacheLock(s.sessions[0].call)
    requires rows != NONE ==> id in s.cache.funcs
    requires id == CurrentId(s.sessions[0]) ==> rows == NONE
    ensures Expected(s, Serve(0), id, rows) != NONE ==> id in ServeStep(s, 0).cache.funcs
    ensures id == CurrentId(ServeStep(s, 0).sessions[0]) ==> Expected(s, Serve(0), id, rows) == NONE
  {
    var call := s.sessions[0].call;
    assert SessionOk(s.cache.names, s.sessions[0]);
    if call.FuncUnique? {
      assert CacheBlock(s.cache, call).1 ==
        Pushing([InsertSym(s.cache.maxId + 1, call.name)], FuncReply(call.name, call.bbcount, false, s.cache.maxId + 1));
    }
  }

  /** What the jobs one block issues do to the rows of id. */
  lemma BlockRows(done: Db, s: State, id: int, rows: Rows)
    requires OneClient(s) && id != 0 && s.writer != Closed && TakesCacheLock(s.sessions[0].call)
    requires RowsOf(done, id) == rows
    requires rows != NONE ==> id in s.cache.funcs
    requires s.sessions[0].call.AddLocked? && s.sessions[0].call.f.id == id ==> rows == NONE
    ensures RowsOf(ExecuteAll(done, NewJobs(CacheBlock(s.cache, s.sessions[0].call).1)), id)
      == Expected(s, Serve(0), id, rows)
  {
    var call := s.sessions[0].call;
    var jobs := NewJobs(CacheBlock(s.cache, call).1);
    if call.AddLocked? {
      AddRows(done, call.f, id);
    } else if call.FuncShared? {
      if jobs != [] { ClearRows(done, jobs[0].id, id); }
    } else if jobs != [] {
      assert jobs[..0] == [];
    }
  }

  lemma {:induction false} RunKeepsRows(db: Db, s: State, steps: seq<Step>, id: int, rows: Rows)
    requires OneClient(s) && RowsOk(db, s, id, rows) && id != 0
    ensures OneClient(Run(s, steps))
    ensures RowsOk(db, Run(s, steps), id, ExpectedRun(s, steps, id, rows))
    decreases |steps|
  {
    if steps != [] {
      StepKeepsOneClient(s, steps[0]);
      StepKeepsRows(db, s, steps[0], id, rows);
      RunKeepsRows(db, Apply(s, steps[0]), steps[1..], id, Expected(s, steps[0], id, rows));
    }
  }

  /** No job is left in a thread or in the queue. */
  ghost predicate Drained(s: State)
  {
    s.queue == [] && forall t :: 0 <= t < |s.sessions| ==> NewJobs(s.sessions[t].call) == []
  }

  /**
   Main result. One client works on a server whose database holds rows only for
   stored functions. Whenever no job is pending or queued, the rows of every id
   are those of its last submission, in order, and none if it was checked since.
   */
  lemma DrainedRowsAreLastSubmission(db: Db, s: State, steps: seq<Step>, id: int)
    requires Start(s) && |s.sessions| == 1 && s.sessions[0].func.id == 0
    requires forall x :: x in s.cache.funcs ==> x <= s.cache.maxId
    requires forall x :: RowsOf(db, x) != NONE ==> x in s.cache.funcs
    requires id != 0
    requires Drained(Run(s, steps))
    ensures RowsOf(ExecuteAll(db, Run(s, steps).executed), id) == ExpectedRun(s, steps, id, RowsOf(db, id))
  {
    StartInv(s);
    RunKeepsRows(db, s, steps, id, RowsOf(db, id));
    var end := Run(s, steps);
    assert AllJobs(end) == end.executed;
  }
}
