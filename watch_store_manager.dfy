/**
 * The watch store manager (pkg/kvstore/store): functions registered per
 * kvstore prefix, each started at most once when its prefix is reported
 * synchronized (wsmSync) or all at once when the manager runs (wsmImmediate).
 *
 * The goroutine that a started function runs in is recorded in a ghost log of
 * starts; waiting for the functions to terminate is not part of this model.
 */
module WatchStoreManager {
  import opened Wrappers
  import opened Seqs

  /** An opaque identity for a registered Go function value. */
  type FuncID = nat

  /** A WSMFunc: nil, or a function. */
  datatype WSMFunc = NilFunc | Func(id: FuncID)

  /** A function started in its own goroutine for a prefix. */
  datatype Start = Start(prefix: string, fn: FuncID)

  const RegisterWhileRunning: string := "Cannot call Register while the watch store manager is running"
  const StartedTwice: string := "Cannot start the watch store manager twice"

  /** Whether `ready` would start something for the prefix: a non-nil function is registered. */
  predicate Registered(functions: map<string, WSMFunc>, prefix: string)
  {
    prefix in functions && functions[prefix].Func?
  }

  /** The function map after `ready`: a registered function is removed, anything else stays. */
  function AfterReady(functions: map<string, WSMFunc>, prefix: string): (r: map<string, WSMFunc>)
    ensures Registered(functions, prefix) ==> prefix !in r && r.Keys == functions.Keys - {prefix}
    ensures !Registered(functions, prefix) ==> r == functions
    ensures forall p | p in r :: p in functions && r[p] == functions[p]
  {
    if Registered(functions, prefix) then functions - {prefix} else functions
  }

  /** The starts `ready` performs: the registered function, once, or nothing. */
  function StartedBy(functions: map<string, WSMFunc>, prefix: string): (r: seq<Start>)
    ensures |r| <= 1
    ensures |r| == 1 <==> Registered(functions, prefix)
  {
    if Registered(functions, prefix) then [Start(prefix, functions[prefix].id)] else []
  }

  /** Every start the function map still holds. */
  ghost function Pending(functions: map<string, WSMFunc>): set<Start>
  {
    set p | p in functions && functions[p].Func? :: Start(p, functions[p].id)
  }

  /** The entries that register nil: `ready` never removes these. */
  function NilEntries(functions: map<string, WSMFunc>): map<string, WSMFunc>
  {
    map p | p in functions && functions[p].NilFunc? :: NilFunc
  }

  /** A second `ready` for the same prefix starts nothing and changes nothing. */
  lemma ReadyTwiceStartsNothing(functions: map<string, WSMFunc>, prefix: string)
    ensures StartedBy(AfterReady(functions, prefix), prefix) == []
    ensures AfterReady(AfterReady(functions, prefix), prefix) == AfterReady(functions, prefix)
  {
  }

  /**
   * `ready` takes exactly its own start out of the pending ones and keeps
   * the nil entries.
   */
  lemma ReadyTakesPending(functions: map<string, WSMFunc>, prefix: string)
    ensures Elems(StartedBy(functions, prefix)) <= Pending(functions)
    ensures Pending(AfterReady(functions, prefix)) == Pending(functions) - Elems(StartedBy(functions, prefix))
    ensures NilEntries(AfterReady(functions, prefix)) == NilEntries(functions)
  {
    var after := AfterReady(functions, prefix);
    if Registered(functions, prefix) {
      var s := Start(prefix, functions[prefix].id);
      assert s in Pending(functions);
      assert Elems(StartedBy(functions, prefix)) == {s};
      forall x | x in Pending(functions) - {s}
        ensures x in Pending(after)
      {
        var p :| p in functions && functions[p].Func? && x == Start(p, functions[p].id);
        assert p != prefix;
      }
    }
  }

  /** wsmCommon, with the `Run` of wsmImmediate and the `ready` that wsmSync calls on a sync event. */
  class Manager {
    var functions: map<string, WSMFunc>
    var running: bool
    ghost var started: seq<Start>

    constructor ()
      ensures functions == map[] && !running && started == []
    {
      functions := map[];
      running := false;
      started := [];
    }

    /**
     * Register: maps the prefix to the function, replacing an earlier one; it
     * panics, changing nothing, once the manager is running.
     */
    method Register(prefix: string, fn: WSMFunc) returns (panic: Option<string>)
      modifies this`functions
      ensures old(running) ==> panic == Some(RegisterWhileRunning) && functions == old(functions)
      ensures !old(running) ==> panic == None && functions == old(functions)[prefix := fn]
    {
      if running {
        return Some(RegisterWhileRunning);
      }
      functions := functions[prefix := fn];
      return None;
    }

    /** ready: start the prefix's function once, removing it from the map. */
    method Ready(prefix: string)
      modifies this`functions, this`started
      ensures functions == AfterReady(old(functions), prefix)
      ensures started == old(started) + StartedBy(old(functions), prefix)
    {
      if prefix in functions && functions[prefix].Func? {
        started := started + [Start(prefix, functions[prefix].id)];
        functions := functions - {prefix};
      }
    }

    /** run: mark the manager running; a second call panics. */
    method StartRunning() returns (panic: Option<string>)
      modifies this`running
      ensures running
      ensures old(running) ==> panic == Some(StartedTwice)
      ensures !old(running) ==> panic == None
    {
      var wasRunning := running;
      running := true;
      if wasRunning {
        return Some(StartedTwice);
      }
      return None;
    }

    /**
     * wsmImmediate.Run: mark the manager running and ready every registered
     * prefix. Afterwards only nil entries are left, and every registered
     * function has been started exactly once. A second Run panics before
     * starting anything.
     */
    method RunImmediate() returns (panic: Option<string>, ghost delta: seq<Start>)
      modifies this`running, this`functions, this`started
      ensures running
      ensures started == old(started) + delta
      ensures old(running) ==> panic == Some(StartedTwice) && functions == old(functions) && delta == []
      ensures !old(running) ==> panic == None && functions == NilEntries(old(functions))
      ensures !old(running) ==> Elems(delta) == Pending(old(functions)) && Distinct(delta)
    {
      delta := [];
      panic := StartRunning();
      if panic.Some? {
        return;
      }
      var rest := functions.Keys;
      while rest != {}
        invariant running && rest <= old(functions).Keys
        invariant functions == Unvisited(old(functions), rest)
        invariant started == old(started) + delta
        invariant Elems(delta) == Pending(old(functions)) - Pending(functions)
        invariant Pending(functions) <= Pending(old(functions))
        invariant Distinct(delta)
        decreases |rest|
      {
        var prefix :| prefix in rest;
        ReadyTakesPending(functions, prefix);
        UnvisitedStep(old(functions), rest, prefix);
        ghost var step := StartedBy(functions, prefix);
        DistinctAfterStep(delta, step, Pending(functions));
        ElemsConcat(delta, step);
        Ready(prefix);
        delta := delta + step;
        rest := rest - {prefix};
      }
      UnvisitedDone(old(functions));
    }
  }

  /** The map while Run's loop still has `rest` to visit: nil entries, and the unvisited entries. */
  function Unvisited(functions: map<string, WSMFunc>, rest: set<string>): map<string, WSMFunc>
  {
    map p | p in functions && (p in rest || functions[p].NilFunc?) :: functions[p]
  }

  lemma UnvisitedStep(functions: map<string, WSMFunc>, rest: set<string>, prefix: string)
    requires rest <= functions.Keys && prefix in rest
    ensures AfterReady(Unvisited(functions, rest), prefix) == Unvisited(functions, rest - {prefix})
  {
  }

  lemma UnvisitedDone(functions: map<string, WSMFunc>)
    ensures Unvisited(functions, {}) == NilEntries(functions)
    ensures Pending(NilEntries(functions)) == {}
  {
    var nils := NilEntries(functions);
    assert forall p | p in nils :: nils[p].NilFunc?;
  }

  /** A start taken from the pending ones is not among those already taken. */
  lemma DistinctAfterStep(delta: seq<Start>, step: seq<Start>, pending: set<Start>)
    requires Distinct(delta) && |step| <= 1 && Elems(step) <= pending && Elems(delta) !! pending
    ensures Distinct(delta + step)
  {
    if |step| == 1 {
      assert step[0] in Elems(step);
      assert delta + step == delta + [step[0]];
      DistinctAppend(delta, step[0]);
    } else {
      assert delta + step == delta;
    }
  }
}
