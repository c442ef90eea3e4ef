/** The worker threads of fuse-3/lib/fuse_loop_mt.c: what the sections under the lock do to the
    counters, in any order the threads come to them, until the session exits. */
module WorkerPool {

  /** Where a worker is: waiting for a request, or outside the lock with one to process. */
  datatype Phase = Waiting | Forgetting | Processing

  ghost function Available(workers: map<int, Phase>): set<int> {
    set w | w in workers && !workers[w].Processing?
  }

  /** The counters count: workers, and those among them not processing a request other than FORGET. */
  ghost predicate Counted(workers: map<int, Phase>, numworker: int, numavail: int) {
    numworker == |workers| && numavail == |Available(workers)|
  }

  /** A worker that goes from one phase to another. */
  lemma PhaseCounted(workers: map<int, Phase>, numworker: int, numavail: int, w: int, phase: Phase, numavail': int)
    requires Counted(workers, numworker, numavail) && w in workers
    requires numavail' == numavail - (if workers[w].Processing? then 0 else 1) + (if phase.Processing? then 0 else 1)
    ensures Counted(workers[w := phase], numworker, numavail')
  {
    var others := Available(workers) - {w};
    assert Available(workers) == if workers[w].Processing? then others else others + {w};
    assert Available(workers[w := phase]) == if phase.Processing? then others else others + {w};
    assert workers[w := phase].Keys == workers.Keys;
    assert |workers[w := phase]| == |workers.Keys| && |workers| == |workers.Keys|;
  }

  lemma AddCounted(workers: map<int, Phase>, numworker: int, numavail: int, w: int)
    requires Counted(workers, numworker, numavail) && w !in workers
    ensures Counted(workers[w := Waiting], numworker + 1, numavail + 1)
  {
    assert Available(workers[w := Waiting]) == Available(workers) + {w};
  }

  lemma RemoveCounted(workers: map<int, Phase>, numworker: int, numavail: int, w: int)
    requires Counted(workers, numworker, numavail) && w in workers && !workers[w].Processing?
    ensures Counted(workers - {w}, numworker - 1, numavail - 1)
  {
    assert Available(workers - {w}) == Available(workers) - {w};
    assert (workers - {w}).Keys == workers.Keys - {w};
    assert |workers - {w}| == |(workers - {w}).Keys| && |workers| == |workers.Keys|;
  }

  lemma AvailableIsCounted(workers: map<int, Phase>, numworker: int, numavail: int, w: int)
    requires Counted(workers, numworker, numavail) && w in workers && !workers[w].Processing?
    ensures numavail >= 1
  {
    assert w in Available(workers);
  }

  /** What the scheduler lets happen next: a worker comes by a request, or comes back from one. The
      thread that a `Begin` may have to create is `spare`, if the system can create it at all. */
  datatype Event = Begin(w: int, isforget: bool, spare: int, created: bool) | End(w: int)

  /** The workers after `w` has come by a request: if no one is left to wait, a thread is added, if it can be
      created. */
  ghost function Begun(workers: map<int, Phase>, w: int, isforget: bool, spare: int, created: bool): map<int, Phase> {
    var entered := workers[w := if isforget then Forgetting else Processing];
    if Available(entered) == {} && created then entered[spare := Waiting] else entered
  }

  /** The workers after `w` has come back: it leaves if more than `maxIdle` would wait. */
  ghost function Ended(workers: map<int, Phase>, w: int, maxIdle: int): map<int, Phase> {
    if |Available(workers[w := Waiting])| > maxIdle then workers - {w} else workers[w := Waiting]
  }

  /** What an event does to the workers, if it can happen. */
  ghost function Happened(workers: map<int, Phase>, e: Event, maxIdle: int): map<int, Phase> {
    match e
    case Begin(w, isforget, spare, created) =>
      if w in workers && workers[w].Waiting? && spare !in workers then Begun(workers, w, isforget, spare, created)
      else workers
    case End(w) =>
      if w in workers && !workers[w].Waiting? then Ended(workers, w, maxIdle) else workers
  }

  /** The workers a schedule leads to. */
  ghost function Reached(maxIdle: int, first: int, schedule: seq<Event>): map<int, Phase> {
    if schedule == [] then map[first := Waiting]
    else Happened(Reached(maxIdle, first, schedule[..|schedule| - 1]), schedule[|schedule| - 1], maxIdle)
  }

  class Pool {
    const maxIdle: int
    var workers: map<int, Phase>
    var numworker: int
    var numavail: int

    ghost predicate Valid() reads this {
      Counted(workers, numworker, numavail)
    }

    /** The loop starts with one worker. */
    constructor (maxIdle: int, first: int)
      ensures Valid() && this.maxIdle == maxIdle && workers == map[first := Waiting] && numavail == 1
    {
      this.maxIdle := maxIdle;
      workers, numworker, numavail := map[first := Waiting], 1, 1;
      new;
      assert Available(workers) == {first};
    }

    /** `fuse_loop_start_thread`. */
    method StartThread(spare: int, created: bool)
      requires Valid() && spare !in workers
      modifies this
      ensures Valid() && workers == if created then old(workers)[spare := Waiting] else old(workers)
      ensures numavail == if created then old(numavail) + 1 else old(numavail)
    {
      if created {
        AddCounted(workers, numworker, numavail, spare);
        workers := workers[spare := Waiting];
        numavail := numavail + 1;
        numworker := numworker + 1;
      }
    }

    /** The section before a request is processed. */
    method BeginWork(w: int, isforget: bool, spare: int, created: bool)
      requires Valid() && w in workers && workers[w].Waiting? && spare !in workers
      modifies this
      ensures Valid() && workers == Begun(old(workers), w, isforget, spare, created)
      ensures numavail >= 1 <==> isforget || old(numavail) >= 2 || created
      ensures numworker == old(numworker) + if !isforget && old(numavail) == 1 && created then 1 else 0
    {
      AvailableIsCounted(workers, numworker, numavail, w);
      Enter(w, isforget);
      if numavail == 0 {
        StartThread(spare, created);
      }
    }

    method Enter(w: int, isforget: bool)
      requires Valid() && w in workers && workers[w].Waiting?
      modifies this
      ensures Valid() && workers == old(workers)[w := if isforget then Forgetting else Processing]
      ensures numavail == (if isforget then old(numavail) else old(numavail) - 1) && numworker == old(numworker)
    {
      var phase := if isforget then Forgetting else Processing;
      PhaseCounted(workers, numworker, numavail, w, phase, if isforget then numavail else numavail - 1);
      if !isforget {
        numavail := numavail - 1;
      }
      workers := workers[w := phase];
    }

    /** The section after it: a worker too many leaves. */
    method EndWork(w: int)
      requires Valid() && w in workers && !workers[w].Waiting?
      modifies this
      ensures Valid()
      ensures workers == Ended(old(workers), w, maxIdle)
      ensures var idle := old(numavail) + (if old(workers)[w].Processing? then 1 else 0);
              && (w in workers <==> idle <= maxIdle)
              && (numavail >= 1 <==> maxIdle >= 1 || idle >= 2)
    {
      Leave(w);
      AvailableIsCounted(workers, numworker, numavail, w);
      if numavail > maxIdle {
        RemoveCounted(workers, numworker, numavail, w);
        workers := workers - {w};
        numavail := numavail - 1;
        numworker := numworker - 1;
      }
    }

    method Leave(w: int)
      requires Valid() && w in workers && !workers[w].Waiting?
      modifies this
      ensures Valid() && workers == old(workers)[w := Waiting] && numworker == old(numworker)
      ensures numavail == old(numavail) + if old(workers)[w].Processing? then 1 else 0
    {
      PhaseCounted(workers, numworker, numavail, w, Waiting, if workers[w].Processing? then numavail + 1 else numavail);
      if workers[w].Processing? {
        numavail := numavail + 1;
      }
      workers := workers[w := Waiting];
    }
  }

  ghost predicate AllCreated(schedule: seq<Event>) {
    forall i :: 0 <= i < |schedule| && schedule[i].Begin? ==> schedule[i].created
  }

  /** Any schedule at all, events that cannot happen being passed over: the counters count the workers it leads to, and,
      with an idle limit of at least one and threads to be had, requests never occupy every worker. */
  method RunPool(maxIdle: int, first: int, schedule: seq<Event>) returns (pool: Pool)
    ensures pool.Valid() && pool.workers == Reached(maxIdle, first, schedule)
    ensures maxIdle >= 1 && AllCreated(schedule) ==> pool.numavail >= 1
  {
    pool := new Pool(maxIdle, first);
    for i := 0 to |schedule|
      invariant fresh(pool) && pool.Valid() && pool.maxIdle == maxIdle
      invariant pool.workers == Reached(maxIdle, first, schedule[..i])
      invariant maxIdle >= 1 && AllCreated(schedule) ==> pool.numavail >= 1
    {
      assert schedule[..i + 1][..|schedule[..i + 1]| - 1] == schedule[..i];
      match schedule[i]
      case Begin(w, isforget, spare, created) =>
        if w in pool.workers && pool.workers[w].Waiting? && spare !in pool.workers {
          pool.BeginWork(w, isforget, spare, created);
        }
      case End(w) =>
        if w in pool.workers && !pool.workers[w].Waiting? {
          pool.EndWork(w);
        }
    }
    assert schedule[..|schedule|] == schedule;
  }

  /** Without an idle limit of one the first worker to come back leaves nobody behind. */
  method NoIdleLimitEmptiesPool(maxIdle: int, first: int) returns (pool: Pool)
    requires maxIdle < 1
    ensures pool.Valid() && pool.workers == map[] && pool.numavail == 0
  {
    pool := new Pool(maxIdle, first);
    pool.BeginWork(first, true, first + 1, true);
    pool.EndWork(first);
    assert pool.workers == map[];
  }
}
