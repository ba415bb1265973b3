/** Safety of the symbol-id server over every interleaving of its steps. */
module SymServerSafety {
  import opened SymServer

  // ----- ids and caches -----

  ghost predicate SubMap(m: map<string, int>, m': map<string, int>)
  {
    forall n :: n in m ==> n in m' && m'[n] == m[n]
  }

  ghost predicate Injective(m: map<string, int>)
  {
    forall a, b :: a in m && b in m && m[a] == m[b] ==> a == b
  }

  /** The name-to-id map is injective and its ids lie in 1..maxId. */
  ghost predicate CacheOk(c: Cache)
  {
    && 0 <= c.maxId
    && Injective(c.names)
    && forall n :: n in c.names ==> 1 <= c.names[n] <= c.maxId
  }

  ghost predicate ReplyOk(names: map<string, int>, r: Reply)
  {
    !r.AddReply? ==> r.name in names && names[r.name] == r.id
  }

  /** What the client caches, stores and is about to receive are the server's ids. */
  ghost predicate SessionOk(names: map<string, int>, c: Session)
  {
    && SubMap(c.syms, names)
    && |c.refNames| == |c.func.refs|
    && (forall k :: 0 <= k < |c.refNames| ==>
          c.refNames[k] in names && names[c.refNames[k]] == c.func.refs[k].what)
    && (c.call.AddLocked? ==> c.call.f == c.func)
    && (c.call.Pushing? ==> ReplyOk(names, c.call.reply))
  }

  ghost predicate IdsOk(s: State)
  {
    && CacheOk(s.cache)
    && (forall t :: 0 <= t < |s.sessions| ==> SessionOk(s.cache.names, s.sessions[t]))
    && forall k :: 0 <= k < |s.answers| ==>
         s.answers[k].name in s.cache.names && s.cache.names[s.answers[k].name] == s.answers[k].id
  }

  lemma CacheBlockKeepsIds(c: Cache, call: Call)
    requires CacheOk(c) && TakesCacheLock(call)
    ensures var r := CacheBlock(c, call);
      && CacheOk(r.0)
      && SubMap(c.names, r.0.names)
      && (r.1.Pushing? ==> ReplyOk(r.0.names, r.1.reply))
      && !r.1.AddLocked?
  {
    if !call.AddLocked? { AllocateKeepsIds(c, call.name); }
  }

  lemma AllocateKeepsIds(c: Cache, name: string)
    requires CacheOk(c)
    ensures name !in c.names ==> CacheOk(Allocate(c, name)) && SubMap(c.names, Allocate(c, name).names)
  {
  }

  lemma SessionGrows(names: map<string, int>, names': map<string, int>, c: Session)
    requires SubMap(names, names') && SessionOk(names, c)
    ensures SessionOk(names', c)
  {
  }

  lemma StepKeepsIds(s: State, step: Step)
    requires IdsOk(s)
    ensures IdsOk(Apply(s, step))
    ensures SubMap(s.cache.names, Apply(s, step).cache.names)
  {
    hide CacheBlock, DoAct, ReceiveStep;
    if s != Apply(s, step) {
      if step.Client? {
        ActKeepsIds(s.cache.names, s.sessions[step.t], step.act);
      } else if step.Serve? {
        ServeKeepsIds(s, step.t);
      } else if step.Receive? {
        ReceiveKeepsIds(s, step.t);
      }
    }
  }

  lemma ActKeepsIds(names: map<string, int>, c: Session, act: Act)
    requires SessionOk(names, c) && c.call == Idle
    ensures SessionOk(names, DoAct(c, act))
  {
  }

  lemma ServeKeepsIds(s: State, t: nat)
    requires IdsOk(s) && t < |s.sessions| && TakesCacheLock(s.sessions[t].call)
    ensures IdsOk(ServeStep(s, t))
    ensures SubMap(s.cache.names, ServeStep(s, t).cache.names)
  {
    hide CacheBlock;
    var s' := ServeStep(s, t);
    CacheBlockKeepsIds(s.cache, s.sessions[t].call);
    forall u | 0 <= u < |s.sessions| ensures SessionOk(s'.cache.names, s'.sessions[u]) {
      SessionGrows(s.cache.names, s'.cache.names, s.sessions[u]);
    }
  }

  lemma ReceiveKeepsIds(s: State, t: nat)
    requires IdsOk(s) && CanReceive(s, t)
    ensures IdsOk(ReceiveStep(s, t)) && ReceiveStep(s, t).cache == s.cache
  {
    hide ReceiveStep, SessionOk, CacheOk;
    var s' := ReceiveStep(s, t);
    assert SessionOk(s.cache.names, s.sessions[t]);
    SessionReceives(s, t);
    ReplyIsAnswer(s, t);
    assert forall u :: 0 <= u < |s.sessions| && u != t ==> s'.sessions[u] == s.sessions[u];
  }

  lemma SessionReceives(s: State, t: nat)
    requires CanReceive(s, t) && SessionOk(s.cache.names, s.sessions[t])
    ensures var s' := ReceiveStep(s, t);
      && s'.cache == s.cache && |s'.sessions| == |s.sessions| && s'.sessions == s.sessions[t := s'.sessions[t]]
      && SessionOk(s.cache.names, s'.sessions[t])
  {
  }

  /** An answer is the id the server has for the name. */
  lemma ReplyIsAnswer(s: State, t: nat)
    requires CanReceive(s, t) && SessionOk(s.cache.names, s.sessions[t])
    ensures var s' := ReceiveStep(s, t);
      || s'.answers == s.answers
      || exists n :: n in s.cache.names && s'.answers == s.answers + [Answer(n, s.cache.names[n])]
  {
    var reply := s.sessions[t].call.reply;
    if !reply.AddReply? { assert reply.name in s.cache.names && s.cache.names[reply.name] == reply.id; }
  }

  // ----- jobs -----

  function Jobs(log: seq<Stamped>): (r: seq<Job>)
    ensures |r| == |log|
    ensures forall k :: 0 <= k < |r| ==> r[k] == log[k].job
  {
    seq(|log|, k requires 0 <= k < |log| => log[k].job)
  }

  /** The jobs thread t put into log, in order. */
  function Of(log: seq<Stamped>, t: nat): seq<Job>
  {
    if log == [] then []
    else
      var rest := Of(log[..|log| - 1], t);
      var last := log[|log| - 1];
      if last.thread == t then rest + [last.job] else rest
  }

  lemma {:induction false} OfAppend(log: seq<Stamped>, more: seq<Stamped>, t: nat)
    ensures Of(log + more, t) == Of(log, t) + Of(more, t)
    decreases |more|
  {
    if more == [] {
      assert log + more == log;
    } else {
      var init := more[..|more| - 1];
      assert (log + more)[..|log + more| - 1] == log + init;
      OfAppend(log, init, t);
    }
  }

  lemma {:induction false} OfStamp(u: nat, jobs: seq<Job>, t: nat)
    ensures Of(Stamp(u, jobs), t) == if t == u then jobs else []
    decreases |jobs|
  {
    if jobs == [] {
      assert Stamp(u, jobs) == [];
    } else {
      var init := jobs[..|jobs| - 1];
      assert Stamp(u, jobs)[..|jobs| - 1] == Stamp(u, init);
      OfStamp(u, init, t);
      assert init + [jobs[|jobs| - 1]] == jobs;
    }
  }

  /** The (id, name) pairs of the symbol inserts among jobs, in order. */
  function Inserts(jobs: seq<Job>): seq<Answer>
  {
    if jobs == [] then []
    else
      var rest := Inserts(jobs[..|jobs| - 1]);
      var last := jobs[|jobs| - 1];
      if last.InsertSym? then rest + [Answer(last.name, last.id)] else rest
  }

  lemma {:induction false} InsertsAppend(a: seq<Job>, b: seq<Job>)
    ensures Inserts(a + b) == Inserts(a) + Inserts(b)
    decreases |b|
  {
    if b == [] {
      assert a + b == a;
    } else {
      assert (a + b)[..|a + b| - 1] == a + b[..|b| - 1];
      InsertsAppend(a, b[..|b| - 1]);
    }
  }

  lemma {:induction false} NoInserts(jobs: seq<Job>)
    requires forall k :: 0 <= k < |jobs| ==> !jobs[k].InsertSym?
    ensures Inserts(jobs) == []
    decreases |jobs|
  {
    if jobs != [] { NoInserts(jobs[..|jobs| - 1]); }
  }

  /** Executed jobs followed by queued ones are the pushed ones. */
  ghost predicate QueueOk(s: State)
  {
    && s.executed + s.queue == Jobs(s.pushed)
    && (s.writer == Closed ==> s.queue == [])
  }

  /** What thread t has pushed and still has to push is what it issued, in order. */
  ghost predicate ThreadOk(s: State, t: nat)
  {
    if t < |s.sessions| then Of(s.issued, t) == Of(s.pushed, t) + NewJobs(s.sessions[t].call)
    else Of(s.issued, t) == [] && Of(s.pushed, t) == []
  }

  ghost predicate ThreadsOk(s: State)
  {
    forall t: nat :: ThreadOk(s, t)
  }

  /** The inserts carry the ids base+1, base+2, ..., maxId, each once, with their names. */
  ghost predicate Consecutive(base: int, inserts: seq<Answer>, c: Cache)
  {
    && |inserts| == c.maxId - base
    && forall k :: 0 <= k < |inserts| ==>
         inserts[k].id == base + 1 + k && inserts[k].name in c.names && c.names[inserts[k].name] == inserts[k].id
  }

  ghost predicate FreshOk(base: int, s: State)
  {
    Consecutive(base, Inserts(Jobs(s.issued)), s.cache)
  }

  lemma StepKeepsQueue(s: State, step: Step)
    requires QueueOk(s)
    ensures QueueOk(Apply(s, step))
  {
    var s' := Apply(s, step);
    if step.Push? && s != s' {
      assert s'.executed + s'.queue == (s.executed + s.queue) + [s'.pushed[|s.pushed|].job];
      assert Jobs(s'.pushed) == Jobs(s.pushed) + [s'.pushed[|s.pushed|].job];
    } else if step.WriterExecute? && s != s' {
      assert s'.executed + s'.queue == s.executed + s.queue;
    }
  }

  lemma StepKeepsThreads(s: State, step: Step)
    requires ThreadsOk(s)
    ensures ThreadsOk(Apply(s, step))
  {
    var s' := Apply(s, step);
    if step.Serve? && s != s' {
      ServeKeepsThreads(s, step.t);
    } else if step.Push? && s != s' {
      PushKeepsThreads(s, step.t);
    } else if !step.Serve? && !step.Push? {
      hide Apply;
      OthersIssueNothing(s, step);
      forall t: nat ensures ThreadOk(s', t) { assert ThreadOk(s, t); }
    }
  }

  lemma OthersIssueNothing(s: State, step: Step)
    requires !step.Serve? && !step.Push?
    ensures var s' := Apply(s, step);
      && s'.issued == s.issued && s'.pushed == s.pushed && |s'.sessions| == |s.sessions|
      && forall t :: 0 <= t < |s.sessions| ==> NewJobs(s'.sessions[t].call) == NewJobs(s.sessions[t].call)
  {
    hide DoAct, ReceiveStep;
    if step.Client? && ClientTurn(s, step.t) { ActIssuesNothing(s.sessions[step.t], step.act); }
    if step.Receive? && CanReceive(s, step.t) { ReceiveIssuesNothing(s, step.t); }
  }

  lemma ActIssuesNothing(c: Session, act: Act)
    requires c.call == Idle
    ensures NewJobs(DoAct(c, act).call) == []
  {
  }

  lemma ReceiveIssuesNothing(s: State, t: nat)
    requires CanReceive(s, t)
    ensures var s' := ReceiveStep(s, t);
      && s'.issued == s.issued && s'.pushed == s.pushed
      && s'.executed == s.executed && s'.queue == s.queue
      && |s'.sessions| == |s.sessions| && s'.sessions == s.sessions[t := s'.sessions[t]]
      && s'.sessions[t].call == Idle
  {
  }

  lemma ServeKeepsThreads(s: State, t: nat)
    requires ThreadsOk(s) && t < |s.sessions| && TakesCacheLock(s.sessions[t].call)
    ensures ThreadsOk(ServeStep(s, t))
  {
    hide ThreadOk, ServeStep;
    forall u: nat ensures ThreadOk(ServeStep(s, t), u) { ServeKeepsThread(s, t, u); }
  }

  lemma ServeKeepsThread(s: State, t: nat, u: nat)
    requires ThreadOk(s, u) && t < |s.sessions| && TakesCacheLock(s.sessions[t].call)
    ensures ThreadOk(ServeStep(s, t), u)
  {
    hide CacheBlock, Of;
    var jobs := NewJobs(ServeStep(s, t).sessions[t].call);
    OfAppend(s.issued, Stamp(t, jobs), u);
    OfStamp(t, jobs, u);
  }

  lemma PushKeepsThreads(s: State, t: nat)
    requires ThreadsOk(s) && CanPush(s, t)
    ensures ThreadsOk(PushStep(s, t))
  {
    hide ThreadOk, PushStep;
    forall u: nat ensures ThreadOk(PushStep(s, t), u) { PushKeepsThread(s, t, u); }
  }

  lemma PushKeepsThread(s: State, t: nat, u: nat)
    requires ThreadOk(s, u) && CanPush(s, t)
    ensures ThreadOk(PushStep(s, t), u)
  {
    hide Of;
    var pending := s.sessions[t].call.pending;
    OfPush(s.pushed, Stamped(t, pending[0]), u);
    if u == t { Shift(Of(s.pushed, t), pending); }
  }

  lemma OfPush(log: seq<Stamped>, last: Stamped, t: nat)
    ensures Of(log + [last], t) == Of(log, t) + if last.thread == t then [last.job] else []
  {
    assert (log + [last])[..|log|] == log;
  }

  lemma Shift(done: seq<Job>, pending: seq<Job>)
    requires pending != []
    ensures done + pending == done + [pending[0]] + pending[1..]
  {
  }

  lemma StepKeepsFresh(base: int, s: State, step: Step)
    requires CacheOk(s.cache) && FreshOk(base, s)
    ensures FreshOk(base, Apply(s, step))
  {
    if step.Serve? && s != Apply(s, step) {
      ServeKeepsFresh(base, s, step.t);
    } else {
      OthersAllocateNothing(s, step);
    }
  }

  lemma OthersAllocateNothing(s: State, step: Step)
    requires !step.Serve? || Apply(s, step) == s
    ensures Apply(s, step).cache == s.cache && Apply(s, step).issued == s.issued
  {
  }

  lemma ServeKeepsFresh(base: int, s: State, t: nat)
    requires CacheOk(s.cache) && FreshOk(base, s)
    requires t < |s.sessions| && TakesCacheLock(s.sessions[t].call)
    ensures FreshOk(base, ServeStep(s, t))
  {
    hide CacheBlock, CacheOk, Consecutive, Inserts, Jobs;
    var c, call := s.cache, s.sessions[t].call;
    var (c', call') := CacheBlock(c, call);
    CacheBlockKeepsIds(c, call);
    JobsAppend(s.issued, t, NewJobs(call'));
    InsertsAppend(Jobs(s.issued), NewJobs(call'));
    BlockInserts(c, call);
    ConsecutiveGrows(base, Inserts(Jobs(s.issued)), c, Inserts(NewJobs(call')), c');
  }

  lemma JobsAppend(log: seq<Stamped>, t: nat, jobs: seq<Job>)
    ensures Jobs(log + Stamp(t, jobs)) == Jobs(log) + jobs
  {
  }

  lemma ConsecutiveGrows(base: int, inserts: seq<Answer>, c: Cache, more: seq<Answer>, c': Cache)
    requires Consecutive(base, inserts, c) && SubMap(c.names, c'.names)
    requires
      || (c'.maxId == c.maxId && more == [])
      || (c'.maxId == c.maxId + 1 && |more| == 1 && more[0].id == c'.maxId
          && more[0].name in c'.names && c'.names[more[0].name] == c'.maxId)
    ensures Consecutive(base, inserts + more, c')
  {
  }

  /** A block issues a symbol insert exactly when it allocates an id, and for that id. */
  lemma BlockInserts(c: Cache, call: Call)
    requires TakesCacheLock(call)
    ensures var r := CacheBlock(c, call);
      && (r.0.maxId == c.maxId ==> Inserts(NewJobs(r.1)) == [])
      && (r.0.maxId != c.maxId ==>
            && r.0.maxId == c.maxId + 1 && Inserts(NewJobs(r.1)) == [Answer(call.name, r.0.maxId)]
            && call.name in r.0.names && r.0.names[call.name] == r.0.maxId)
  {
    var r := CacheBlock(c, call);
    if r.0.maxId == c.maxId {
      NoInserts(NewJobs(r.1));
    } else {
      assert NewJobs(r.1)[..0] == [];
    }
  }

  // ----- every reachable state -----

  /** A server just started on a loaded cache, with any number of idle new clients. */
  ghost predicate Start(s: State)
  {
    && CacheOk(s.cache)
    && s.queue == [] && s.executed == [] && s.pushed == [] && s.issued == [] && s.answers == []
    && s.writer == Waiting
    && forall t :: 0 <= t < |s.sessions| ==>
         s.sessions[t].syms == map[] && s.sessions[t].func.refs == [] && s.sessions[t].refNames == []
         && s.sessions[t].call == Idle
  }

  ghost predicate Inv(base: int, s: State)
  {
    IdsOk(s) && QueueOk(s) && ThreadsOk(s) && FreshOk(base, s)
  }

  lemma {:induction false} RunKeepsInv(base: int, s: State, steps: seq<Step>)
    requires Inv(base, s)
    ensures Inv(base, Run(s, steps))
    ensures SubMap(s.cache.names, Run(s, steps).cache.names)
    decreases |steps|
  {
    if steps != [] {
      StepKeepsIds(s, steps[0]);
      StepKeepsQueue(s, steps[0]);
      StepKeepsThreads(s, steps[0]);
      StepKeepsFresh(base, s, steps[0]);
      RunKeepsInv(base, Apply(s, steps[0]), steps[1..]);
    }
  }

  lemma StartInv(s: State)
    requires Start(s)
    ensures Inv(s.cache.maxId, s)
  {
  }

  /**
   Main result on ids. In every state reachable by any interleaving the name-to-id
   map is injective, no id assigned before has changed, two answers carry the same
   id exactly when they were for the same name, and everything a client caches or
   stores in a reference is the server's id.
   */
  lemma IdsAreConsistent(s: State, steps: seq<Step>, more: seq<Step>)
    requires Start(s)
    ensures var mid, end := Run(s, steps), Run(Run(s, steps), more);
      && Injective(mid.cache.names)
      && SubMap(mid.cache.names, end.cache.names)
      && (forall i, j :: 0 <= i < |mid.answers| && 0 <= j < |mid.answers| ==>
            (mid.answers[i].id == mid.answers[j].id <==> mid.answers[i].name == mid.answers[j].name))
      && forall t :: 0 <= t < |mid.sessions| ==>
           var c := mid.sessions[t];
           && SubMap(c.syms, mid.cache.names)
           && |c.refNames| == |c.func.refs|
           && forall k :: 0 <= k < |c.refNames| ==>
                c.refNames[k] in mid.cache.names && mid.cache.names[c.refNames[k]] == c.func.refs[k].what
  {
    StartInv(s);
    RunKeepsInv(s.cache.maxId, s, steps);
    RunKeepsInv(s.cache.maxId, Run(s, steps), more);
  }

  /**
   Main result on jobs. In every reachable state the executed jobs followed by the
   queued ones are all the jobs ever pushed, each thread's jobs were pushed in the
   order it issued them with the rest still pending in it, and the queue is empty
   once the writer has closed the database.
   */
  lemma JobsAreConserved(s: State, steps: seq<Step>)
    requires Start(s)
    ensures var end := Run(s, steps);
      && end.executed + end.queue == Jobs(end.pushed)
      && (forall t :: 0 <= t < |end.sessions| ==>
            Of(end.issued, t) == Of(end.pushed, t) + NewJobs(end.sessions[t].call))
      && (end.writer == Closed ==> end.queue == [])
  {
    StartInv(s);
    RunKeepsInv(s.cache.maxId, s, steps);
    var end := Run(s, steps);
    forall t | 0 <= t < |end.sessions|
      ensures Of(end.issued, t) == Of(end.pushed, t) + NewJobs(end.sessions[t].call)
    {
      assert ThreadOk(end, t);
    }
  }

  // ----- one insert for every fresh id -----

  function CountInserts(jobs: seq<Job>, id: int): nat
  {
    if jobs == [] then 0
    else
      var last := jobs[|jobs| - 1];
      CountInserts(jobs[..|jobs| - 1], id) + if last.InsertSym? && last.id == id then 1 else 0
  }

  lemma {:induction false} CountAppend(a: seq<Job>, b: seq<Job>, id: int)
    ensures CountInserts(a + b, id) == CountInserts(a, id) + CountInserts(b, id)
    decreases |b|
  {
    if b == [] {
      assert a + b == a;
    } else {
      assert (a + b)[..|a + b| - 1] == a + b[..|b| - 1];
      CountAppend(a, b[..|b| - 1], id);
    }
  }

  /** Consecutive insert ids from base + 1 contain every id of that range once. */
  lemma {:induction false} CountConsecutive(jobs: seq<Job>, base: int, id: int)
    requires forall k :: 0 <= k < |Inserts(jobs)| ==> Inserts(jobs)[k].id == base + 1 + k
    ensures CountInserts(jobs, id) == if base < id <= base + |Inserts(jobs)| then 1 else 0
    decreases |jobs|
  {
    if jobs != [] {
      var init := jobs[..|jobs| - 1];
      assert forall k :: 0 <= k < |Inserts(init)| ==> Inserts(init)[k] == Inserts(jobs)[k];
      CountConsecutive(init, base, id);
      if jobs[|jobs| - 1].InsertSym? {
        assert Inserts(jobs)[|Inserts(init)|].id == jobs[|jobs| - 1].id;
      }
    }
  }

  /** A log whose inserts of id number one has them all in one thread. */
  lemma {:induction false} OneOwner(log: seq<Stamped>, id: int) returns (t: nat)
    requires CountInserts(Jobs(log), id) <= 1
    ensures forall u: nat :: u != t ==> CountInserts(Of(log, u), id) == 0
    ensures CountInserts(Of(log, t), id) == CountInserts(Jobs(log), id)
    ensures CountInserts(Jobs(log), id) == 1 ==> exists name :: Stamped(t, InsertSym(id, name)) in log
    decreases |log|
  {
    if log == [] {
      t := 0;
    } else {
      var init, last := log[..|log| - 1], log[|log| - 1];
      assert Jobs(log)[..|log| - 1] == Jobs(init);
      t := OneOwner(init, id);
      if last.job.InsertSym? && last.job.id == id {
        t := last.thread;
      }
      forall u: nat
        ensures CountInserts(Of(log, u), id) == CountInserts(Of(init, u), id) +
          if u == last.thread && last.job.InsertSym? && last.job.id == id then 1 else 0
      {
        CountAppend(Of(init, u), [last.job], id);
        assert [last.job][..0] == [];
      }
      if CountInserts(Jobs(init), id) == 1 {
        var name :| Stamped(t, InsertSym(id, name)) in init;
        assert Stamped(t, InsertSym(id, name)) in log;
      } else if last.job.InsertSym? && last.job.id == id {
        assert Stamped(t, InsertSym(id, last.job.name)) in log;
      }
    }
  }

  /** Inserts of id that only thread t pushed are all the inserts of id pushed. */
  lemma {:induction false} AllInOwner(log: seq<Stamped>, t: nat, id: int)
    requires forall u: nat :: u != t ==> CountInserts(Of(log, u), id) == 0
    ensures CountInserts(Jobs(log), id) == CountInserts(Of(log, t), id)
    decreases |log|
  {
    if log != [] {
      var init, last := log[..|log| - 1], log[|log| - 1];
      assert Jobs(log)[..|log| - 1] == Jobs(init);
      forall u: nat
        ensures CountInserts(Of(log, u), id) == CountInserts(Of(init, u), id) +
          if u == last.thread && last.job.InsertSym? && last.job.id == id then 1 else 0
      {
        CountAppend(Of(init, u), [last.job], id);
        assert [last.job][..0] == [];
      }
      assert last.thread != t ==> CountInserts(Of(log, last.thread), id) == 0;
      AllInOwner(init, t, id);
    }
  }

  /**
   Main result on inserts. In every reachable state each id allocated since the
   start has exactly one symbol-insert job, which is still pending in the thread
   that issued it, waiting in the queue, or executed.
   */
  lemma FreshIdHasOneInsert(s: State, steps: seq<Step>, id: int) returns (t: nat)
    requires Start(s)
    requires s.cache.maxId < id <= Run(s, steps).cache.maxId
    ensures var end := Run(s, steps);
      && t < |end.sessions|
      && (exists name :: Stamped(t, InsertSym(id, name)) in end.issued)
      && CountInserts(NewJobs(end.sessions[t].call), id)
         + CountInserts(end.queue, id) + CountInserts(end.executed, id) == 1
      && forall u :: 0 <= u < |end.sessions| && u != t ==>
           CountInserts(NewJobs(end.sessions[u].call), id) == 0
  {
    var end := Run(s, steps);
    StartInv(s);
    RunKeepsInv(s.cache.maxId, s, steps);
    CountConsecutive(Jobs(end.issued), s.cache.maxId, id);
    t := OneOwner(end.issued, id);
    assert ThreadOk(end, t);
    forall u: nat | u < |end.sessions|
      ensures CountInserts(Of(end.issued, u), id)
        == CountInserts(Of(end.pushed, u), id) + CountInserts(NewJobs(end.sessions[u].call), id)
    {
      assert ThreadOk(end, u);
      CountAppend(Of(end.pushed, u), NewJobs(end.sessions[u].call), id);
    }
    forall u: nat | u != t ensures CountInserts(Of(end.pushed, u), id) == 0 {
      assert ThreadOk(end, u);
    }
    AllInOwner(end.pushed, t, id);
    CountAppend(end.executed, end.queue, id);
  }
}
