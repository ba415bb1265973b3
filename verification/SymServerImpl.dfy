/**
 The server's methods over its own fields, one method for each block that runs
 under one lock: each does to the fields what the state machine's step does to
 the shared state.
 */
module SymServerImpl {
  import opened Bytes
  import opened SymServer

  class ServiceHandler {
    var names: map<string, int>
    var funcs: set<int>
    var maxId: int
    var queue: seq<Job>
    var quit: bool

    ghost function Shared(): Cache
      reads this
    {
      Cache(names, funcs, maxId)
    }

    constructor (c: Cache)
      ensures Shared() == c && queue == [] && !quit
    {
      names, funcs, maxId := c.names, c.funcs, c.maxId;
      queue, quit := [], false;
    }

    method DbPush(job: Job)
      modifies this`queue
      ensures queue == old(queue) + [job]
    {
      queue := queue + [job];
    }

    method AddSym(name: string, id: int)
      modifies this`queue
      ensures queue == old(queue) + [InsertSym(id, name)]
    {
      DbPush(InsertSym(id, name));
    }

    method ClearFunc(id: int)
      modifies this`queue
      ensures queue == old(queue) + [DelXrefs(id), DelErrs(id)]
    {
      DbPush(DelXrefs(id));
      DbPush(DelErrs(id));
    }

    method CheckStored(name: string) returns (stored: bool, id: int)
      ensures FuncCheck(stored, id) == CheckFunc(Shared(), name)
    {
      id := 0;
      if name in names {
        id := names[name];
        return id in funcs, id;
      }
      stored := false;
    }

    method AddName(name: string) returns (id: int)
      modifies this`names, this`maxId
      ensures Shared() == Allocate(old(Shared()), name) && id == maxId
    {
      maxId := maxId + 1;
      id := maxId;
      names := names[name := id];
    }

    /** First block of check_sym, under the shared lock: None sends the call to the second. */
    method CheckSymShared(name: string, ghost slot: Ref) returns (r: Option<int>)
      ensures CacheBlock(Shared(), SymShared(name, slot)) ==
        (Shared(), if r.None? then SymUnique(name, slot) else Pushing([], SymReply(name, slot, r.value)))
    {
      return if name in names then Some(names[name]) else None;
    }

    /** Second block of check_sym, under the unique lock; a fresh id still needs its insert. */
    method CheckSymUnique(name: string, ghost slot: Ref) returns (id: int, isNew: bool)
      modifies this`names, this`maxId
      ensures CacheBlock(old(Shared()), SymUnique(name, slot)) ==
        (Shared(), Pushing(if isNew then [InsertSym(id, name)] else [], SymReply(name, slot, id)))
    {
      if name in names { return names[name], false; }
      id := AddName(name);
      isNew := true;
    }

    /** First block of check_function: None sends the call to the second. */
    method CheckFunctionShared(name: string, ghost bbcount: int) returns (r: Option<int>, del: bool)
      ensures CacheBlock(Shared(), FuncShared(name, bbcount)) ==
        (Shared(),
         if r.None? then FuncUnique(name, bbcount)
         else Pushing(if del then [DelXrefs(r.value), DelErrs(r.value)] else [], FuncReply(name, bbcount, false, r.value)))
    {
      var id;
      del, id := CheckStored(name);
      return if del || id != 0 then Some(id) else None, del;
    }

    /** Second block of check_function: skip when another client stored the function meanwhile. */
    method CheckFunctionUnique(name: string, ghost bbcount: int) returns (id: int, skip: bool, isNew: bool)
      modifies this`names, this`maxId
      ensures CacheBlock(old(Shared()), FuncUnique(name, bbcount)) ==
        (Shared(), Pushing(if isNew then [InsertSym(id, name)] else [], FuncReply(name, bbcount, skip, id)))
    {
      skip, id := CheckStored(name);
      isNew := !skip && id == 0;
      if isNew { id := AddName(name); }
    }

    method StoreFunc(f: FFunc)
      modifies this`funcs
      ensures CacheBlock(old(Shared()), AddLocked(f)) == (Shared(), Pushing(AddJobs(f), AddReply))
    {
      funcs := funcs + {f.id};
    }

    /** The pushes of add_func, each under the queue lock; here nothing is pushed in between. */
    method PushFunc(f: FFunc)
      modifies this`queue
      ensures queue == old(queue) + AddJobs(f)
    {
      var update := UpdateFunc(f.id, f.fname, f.bbcount);
      DbPush(update);
      if f.errors == [] && f.refs == [] {
        assert AddJobs(f) == [update];
        return;
      }
      for k := 0 to |f.errors|
        invariant queue == old(queue) + [update] + ErrJobs(f.id, f.errors)[..k]
      {
        DbPush(InsertErr(f.id, f.errors[k].bid, f.errors[k].msg));
      }
      for k := 0 to |f.refs|
        invariant queue == old(queue) + [update] + ErrJobs(f.id, f.errors) + RefJobs(f.id, f.refs)[..k]
      {
        DbPush(InsertXref(f.id, f.refs[k]));
      }
    }

    /** One round of the writer thread, entered when it is woken with a reason to run. */
    method Drain() returns (done: seq<Job>, closed: bool)
      requires quit || queue != []
      modifies this`queue
      ensures queue == [] && done == old(queue) && closed == quit
    {
      done := [];
      while queue != []
        invariant done + queue == old(queue)
        decreases |queue|
      {
        done := done + [queue[0]];
        queue := queue[1..];
      }
      closed := quit;
    }
  }
}
