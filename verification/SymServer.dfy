/**
 The symbol-id server and its caching clients as a state machine.

 Every block the server runs under one lock is one atomic step, and so is every
 client-side action between two calls. Clients and the server threads that serve
 them, one per connection, interleave arbitrarily with each other and with the
 writer thread that drains the job queue.
 */
module SymServer {

  // ----- database jobs and client records -----

  datatype Job =
    | InsertSym(id: int, name: string)
    | DelXrefs(id: int)
    | DelErrs(id: int)
    | UpdateFunc(id: int, fname: string, bbcount: int)
    | InsertErr(id: int, bid: int, msg: string)
    | InsertXref(id: int, ref: Ref)

  datatype Ref = Ref(bid: int, kind: char, arg: int, what: int)

  datatype Err = Err(bid: int, msg: string)

  datatype FFunc = FFunc(id: int, fname: string, bbcount: int, errors: seq<Err>, refs: seq<Ref>)

  // ----- the cache shared by the server threads -----

  /** The name cache, the set of stored functions and the id counter. */
  datatype Cache = Cache(names: map<string, int>, funcs: set<int>, maxId: int)

  datatype FuncCheck = FuncCheck(stored: bool, id: int)

  function CheckFunc(c: Cache, name: string): FuncCheck
  {
    if name in c.names then FuncCheck(c.names[name] in c.funcs, c.names[name]) else FuncCheck(false, 0)
  }

  function Allocate(c: Cache, name: string): Cache
  {
    Cache(c.names[name := c.maxId + 1], c.funcs, c.maxId + 1)
  }

  // ----- the progress of one remote call -----

  /** What a finished call sends back; name and slot identify the request it answers. */
  datatype Reply =
    | SymReply(name: string, slot: Ref, id: int)
    | FuncReply(name: string, bbcount: int, skip: bool, id: int)
    | AddReply

  /** The next block of a call; Pushing holds the jobs not yet put on the queue. */
  datatype Call =
    | Idle
    | SymShared(name: string, slot: Ref)
    | SymUnique(name: string, slot: Ref)
    | FuncShared(name: string, bbcount: int)
    | FuncUnique(name: string, bbcount: int)
    | AddLocked(f: FFunc)
    | Pushing(pending: seq<Job>, reply: Reply)

  function ErrJobs(id: int, errors: seq<Err>): (jobs: seq<Job>)
    ensures |jobs| == |errors|
  {
    seq(|errors|, k requires 0 <= k < |errors| => InsertErr(id, errors[k].bid, errors[k].msg))
  }

  function RefJobs(id: int, refs: seq<Ref>): (jobs: seq<Job>)
    ensures |jobs| == |refs|
  {
    seq(|refs|, k requires 0 <= k < |refs| => InsertXref(id, refs[k]))
  }

  function AddJobs(f: FFunc): seq<Job>
  {
    [UpdateFunc(f.id, f.fname, f.bbcount)] + ErrJobs(f.id, f.errors) + RefJobs(f.id, f.refs)
  }

  predicate TakesCacheLock(call: Call) { !call.Idle? && !call.Pushing? }

  /** One block under the cache lock: the new cache and where the call continues. */
  function CacheBlock(c: Cache, call: Call): (r: (Cache, Call))
    requires TakesCacheLock(call)
    ensures !TakesCacheLock(r.1) ==> r.1.Pushing?
  {
    match call
    case SymShared(n, slot) =>
      if n in c.names then (c, Pushing([], SymReply(n, slot, c.names[n]))) else (c, SymUnique(n, slot))
    case SymUnique(n, slot) =>
      if n in c.names then (c, Pushing([], SymReply(n, slot, c.names[n])))
      else
        var id := c.maxId + 1;
        (Allocate(c, n), Pushing([InsertSym(id, n)], SymReply(n, slot, id)))
    case FuncShared(n, bb) =>
      var r := CheckFunc(c, n);
      if !r.stored && r.id != 0 then (c, Pushing([], FuncReply(n, bb, false, r.id)))
      else if r.stored then (c, Pushing([DelXrefs(r.id), DelErrs(r.id)], FuncReply(n, bb, false, r.id)))
      else (c, FuncUnique(n, bb))
    case FuncUnique(n, bb) =>
      var r := CheckFunc(c, n);
      if !r.stored && r.id != 0 then (c, Pushing([], FuncReply(n, bb, false, r.id)))
      else if r.stored then (c, Pushing([], FuncReply(n, bb, true, r.id)))
      else
        var id := c.maxId + 1;
        (Allocate(c, n), Pushing([InsertSym(id, n)], FuncReply(n, bb, false, id)))
    case AddLocked(f) =>
      (c.(funcs := c.funcs + {f.id}), Pushing(AddJobs(f), AddReply))
  }

  // ----- clients, the writer and the whole system -----

  /**
   A client together with the server thread of its connection. refNames lists,
   next to func.refs, the name each stored reference was asked for; only the
   properties below look at it.
   */
  datatype Session = Session(syms: map<string, int>, func: FFunc, refNames: seq<string>, call: Call)

  datatype Writer = Waiting | Draining | Closed

  datatype Stamped = Stamped(thread: nat, job: Job)

  datatype Answer = Answer(name: string, id: int)

  /**
   pushed, issued and answers are histories: the jobs put on the queue, the jobs
   every call set out to put there, and the ids returned to clients.
   */
  datatype State = State(
    cache: Cache, queue: seq<Job>, executed: seq<Job>, writer: Writer, quit: bool,
    sessions: seq<Session>, pushed: seq<Stamped>, issued: seq<Stamped>, answers: seq<Answer>)

  /** What a client does on its own between two calls, or to start one. */
  datatype Act =
    | CuStart(fname: string)
    | FuncStart(name: string, bbcount: int)
    | FuncStop
    | AddRef(name: string, slot: Ref)
    | ReportError(err: Err)

  datatype Step =
    | Client(t: nat, act: Act)
    | Serve(t: nat)
    | Push(t: nat)
    | Receive(t: nat)
    | Quit
    | WriterWake
    | WriterExecute
    | WriterFinish

  function Stamp(t: nat, jobs: seq<Job>): (r: seq<Stamped>)
    ensures |r| == |jobs|
  {
    seq(|jobs|, k requires 0 <= k < |jobs| => Stamped(t, jobs[k]))
  }

  function NewJobs(call: Call): seq<Job> { if call.Pushing? then call.pending else [] }

  predicate ClientTurn(s: State, t: nat) { t < |s.sessions| && s.sessions[t].call.Idle? }

  /** Takes one step; a step that is not possible in s changes nothing. */
  function Apply(s: State, step: Step): State
  {
    if s.writer == Closed then s else
    match step
    case Client(t, act) =>
      if ClientTurn(s, t) then OnClient(s, t, DoAct(s.sessions[t], act)) else s
    case Serve(t) => if t < |s.sessions| && TakesCacheLock(s.sessions[t].call) then ServeStep(s, t) else s
    case Push(t) => if CanPush(s, t) then PushStep(s, t) else s
    case Receive(t) => if CanReceive(s, t) then ReceiveStep(s, t) else s
    case Quit => s.(quit := true)
    case WriterWake => if s.writer == Waiting && (s.quit || s.queue != []) then s.(writer := Draining) else s
    case WriterExecute =>
      if s.writer == Draining && s.queue != []
      then s.(queue := s.queue[1..], executed := s.executed + [s.queue[0]]) else s
    case WriterFinish =>
      if s.writer == Draining && s.queue == []
      then s.(writer := if s.quit then Closed else Waiting) else s
  }

  function OnClient(s: State, t: nat, c: Session): State
    requires t < |s.sessions|
  {
    s.(sessions := s.sessions[t := c])
  }

  /**
   An empty function is not sent. A reference of kind 0 is dropped, and a name
   the client has cached needs no call.
   */
  function DoAct(c: Session, act: Act): Session
  {
    match act
    case CuStart(fname) => c.(func := c.func.(fname := fname))
    case FuncStart(n, bb) => c.(call := FuncShared(n, bb))
    case FuncStop =>
      if c.func.id == 0 || (c.func.refs == [] && c.func.errors == []) then c else c.(call := AddLocked(c.func))
    case AddRef(n, slot) =>
      if slot.kind == '\0' then c
      else if n in c.syms then StoreRef(c, n, slot, c.syms[n])
      else c.(call := SymShared(n, slot))
    case ReportError(e) => c.(func := c.func.(errors := c.func.errors + [e]))
  }

  function StoreRef(c: Session, name: string, slot: Ref, id: int): Session
  {
    c.(func := c.func.(refs := c.func.refs + [slot.(what := id)]), refNames := c.refNames + [name])
  }

  function ServeStep(s: State, t: nat): State
    requires t < |s.sessions| && TakesCacheLock(s.sessions[t].call)
  {
    var (cache, call) := CacheBlock(s.cache, s.sessions[t].call);
    s.(cache := cache, sessions := s.sessions[t := s.sessions[t].(call := call)],
       issued := s.issued + Stamp(t, NewJobs(call)))
  }

  /** A job is pushed under the queue lock, which the writer holds while it drains. */
  predicate CanPush(s: State, t: nat)
  {
    && t < |s.sessions| && s.sessions[t].call.Pushing? && s.sessions[t].call.pending != []
    && s.writer != Draining
  }

  function PushStep(s: State, t: nat): State
    requires CanPush(s, t)
  {
    var call := s.sessions[t].call;
    s.(queue := s.queue + [call.pending[0]],
       pushed := s.pushed + [Stamped(t, call.pending[0])],
       sessions := s.sessions[t := s.sessions[t].(call := call.(pending := call.pending[1..]))])
  }

  predicate CanReceive(s: State, t: nat)
  {
    t < |s.sessions| && s.sessions[t].call.Pushing? && s.sessions[t].call.pending == []
  }

  function ReceiveStep(s: State, t: nat): State
    requires CanReceive(s, t)
  {
    var c := s.sessions[t];
    match c.call.reply
    case SymReply(n, slot, id) =>
      var c' := StoreRef(c.(syms := c.syms[n := id]), n, slot, id);
      OnClient(s.(answers := s.answers + [Answer(n, id)]), t, c'.(call := Idle))
    case FuncReply(n, bb, skip, id) =>
      var c' :=
        if skip then c.(func := c.func.(id := 0))
        else c.(func := FFunc(id, c.func.fname, bb, [], []), refNames := [], syms := c.syms[n := id]);
      OnClient(s.(answers := s.answers + [Answer(n, id)]), t, c'.(call := Idle))
    case AddReply =>
      OnClient(s, t, c.(func := c.func.(id := 0), call := Idle))
  }

  function Run(s: State, steps: seq<Step>): State
    decreases |steps|
  {
    if steps == [] then s else Run(Apply(s, steps[0]), steps[1..])
  }
}
