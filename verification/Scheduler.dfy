/**
  The task scheduler: a slice of tasks changed in place, a ticker, and per tick a copied snapshot whose
  due tasks are run one after the other. Tasks are objects; the same one may be listed twice.
 */
module Scheduler {

  /** time.Time's zero value: "never scheduled". */
  const ZERO_TIME: int := 0

  datatype Span = Span(start: int, end: int)

  /** Each start is at least `interval` after the previous end. */
  predicate Spaced(runs: seq<Span>, interval: int) {
    forall i :: 0 < i < |runs| ==> runs[i].start >= runs[i - 1].end + interval
  }

  /** A task whose Run sets next to the end of the run plus the interval. */
  class Task {
    const id: string
    const interval: int
    var next: int
    ghost var runs: seq<Span>   // history

    constructor (id: string, interval: int)
      ensures this.id == id && this.interval == interval && Ok(ZERO_TIME) && runs == []
    {
      this.id, this.interval, next, runs := id, interval, ZERO_TIME, [];
    }

    /** At clock reading `now`: the runs so far are spaced and over, and `next` follows the last. */
    ghost predicate Ok(now: int)
      reads this
    {
      && Spaced(runs, interval)
      && (runs == [] ==> next == ZERO_TIME)
      && (runs != [] ==> next == runs[|runs| - 1].end + interval && runs[|runs| - 1].end <= now)
    }

    /** Takes however long it takes. */
    method Run(now: int) returns (end: int)
      modifies this
      ensures end >= now && (old(Ok(now)) && old(next) <= now ==> Ok(end))
      ensures runs == old(runs) + [Span(now, end)] && next == end + interval
    {
      var took: int := *;
      end := if took < 0 then now else now + took;
      next := end + interval;
      runs := runs + [Span(now, end)];
    }
  }

  predicate Due(next: int, now: int) {
    next == ZERO_TIME || next <= now
  }

  /** By its runs alone: it has not run yet, or its interval has passed since its last end. */
  predicate DueByRuns(runs: seq<Span>, interval: int, now: int) {
    runs == [] || runs[|runs| - 1].end + interval <= now
  }

  class Scheduler {
    var tasks: array<Task>   // the backing array of the slice
    var n: nat               // the slice's length

    ghost predicate Valid()
      reads this
    {
      n <= tasks.Length
    }

    ghost function Contents(): seq<Task>
      requires Valid()
      reads this, tasks
    {
      tasks[..n]
    }

    constructor ()
      ensures Valid() && Contents() == [] && fresh(tasks)
    {
      var none: seq<Task> := [];
      tasks := new Task[0](i requires 0 <= i < |none| => none[i]);
      n := 0;
    }

    /** append: in place if the backing array has room. */
    method AddTask(t: Task)
      requires Valid()
      modifies this, tasks
      ensures Valid() && Contents() == old(Contents()) + [t]
      ensures tasks == old(tasks) || fresh(tasks)
    {
      if n == tasks.Length {
        var cur := tasks[..];
        tasks := new Task[2 * n + 1](i => if 0 <= i < |cur| then cur[i] else t);
      }
      tasks[n] := t;
      n := n + 1;
    }

    /** A copy, sharing nothing with the backing array. */
    method GetTasks() returns (snapshot: array<Task>)
      requires Valid()
      ensures fresh(snapshot) && snapshot[..] == Contents()
    {
      var cur := tasks[..n];
      snapshot := new Task[n](i requires 0 <= i < |cur| => cur[i]);
    }

    /** Removes the first task of that id by moving the rest down in place. */
    method RemoveTask(id: string)
      requires Valid()
      modifies this`n, tasks
      ensures Valid()
      ensures (forall t :: t in old(Contents()) ==> t.id != id) ==> Contents() == old(Contents())
      ensures (exists t :: t in old(Contents()) && t.id == id) ==>
                exists i :: 0 <= i < |old(Contents())| && old(Contents())[i].id == id &&
                  (forall j :: 0 <= j < i ==> old(Contents())[j].id != id) &&
                  Contents() == old(Contents())[..i] + old(Contents())[i + 1..]
    {
      ghost var was := Contents();
      for i := 0 to n
        invariant Contents() == was && n == old(n)
        invariant forall j :: 0 <= j < i ==> was[j].id != id
      {
        if tasks[i].id == id {
          var cur := tasks[..];
          forall j | i <= j < n - 1 {
            tasks[j] := cur[j + 1];
          }
          n := n - 1;
          assert Contents() == was[..i] + was[i + 1..];
          return;
        }
      }
    }

    /** What other goroutines do to the list, at whatever moment. */
    method Meanwhile(changes: seq<Change>, ghost pool: set<Task>)
      requires Valid() && (forall t :: t in Contents() ==> t in pool)
      requires AddsFrom(changes, pool)
      modifies this, tasks
      ensures Valid() && (forall t :: t in Contents() ==> t in pool)
      ensures tasks == old(tasks) || fresh(tasks)
    {
      for i := 0 to |changes|
        invariant Valid() && (forall t :: t in Contents() ==> t in pool)
        invariant tasks == old(tasks) || fresh(tasks)
      {
        match changes[i] {
          case Add(t) => AddTask(t);
          case Remove(id) => RemoveTask(id);
        }
      }
    }

    /**
      One tick at clock reading `now`, the list changed under it in any way after every task; returns the
      reading at its end. A task of the list at the start runs in this tick if and only if it was due
      at `now`, whatever is removed meanwhile, and every start keeps its distance from the last end.
     */
    method Tick(now: int, meanwhile: seq<seq<Change>>, ghost pool: set<Task>) returns (end: int)
      requires Valid() && now >= ZERO_TIME
      requires forall t :: t in Contents() ==> t in pool
      requires forall i :: 0 <= i < |meanwhile| ==> AddsFrom(meanwhile[i], pool)
      requires forall t :: t in pool ==> t.Ok(now)
      modifies this, tasks, pool
      ensures Valid() && (tasks == old(tasks) || fresh(tasks)) && end >= now
      ensures forall t :: t in Contents() ==> t in pool
      ensures forall t :: t in pool ==> t.Ok(end) && old(t.runs) <= t.runs
      ensures forall t :: t in pool && |t.runs| > |old(t.runs)| ==>
                t in old(Contents()) && DueByRuns(old(t.runs), t.interval, now)
      ensures forall t :: t in old(Contents()) && DueByRuns(old(t.runs), t.interval, now) ==> |t.runs| > |old(t.runs)|
    {
      var snapshot := GetTasks();
      assert forall t :: t in pool ==> t.Ok(now) && (Due(t.next, now) <==> DueByRuns(t.runs, t.interval, now));
      ghost var t0 := TickStart(now, snapshot[..], map t | t in pool :: t.runs, map t | t in pool :: t.next);
      end := RunSnapshot(snapshot, now, meanwhile, t0, pool);
      assert forall t :: t in pool ==> SoFar(t, t0, t0.taken, end);
    }

    /** The tasks of the snapshot in turn. */
    method RunSnapshot(snapshot: array<Task>, now: int, meanwhile: seq<seq<Change>>, ghost t0: TickStart, ghost pool: set<Task>)
      returns (end: int)
      requires Valid() && now >= ZERO_TIME && snapshot != tasks
      requires t0.now == now && t0.taken == snapshot[..] && (forall t :: t in t0.taken ==> t in pool)
      requires forall t :: t in Contents() ==> t in pool
      requires forall i :: 0 <= i < |meanwhile| ==> AddsFrom(meanwhile[i], pool)
      requires forall t :: t in pool ==> SoFar(t, t0, [], now)
      modifies this, tasks, pool
      ensures Valid() && (tasks == old(tasks) || fresh(tasks)) && end >= now
      ensures forall t :: t in Contents() ==> t in pool
      ensures forall t :: t in pool ==> SoFar(t, t0, t0.taken, end)
    {
      hide SoFar;
      end := now;
      for i := 0 to snapshot.Length
        invariant Valid() && (tasks == old(tasks) || fresh(tasks)) && snapshot != tasks && end >= now
        invariant forall t :: t in Contents() ==> t in pool
        invariant snapshot[..] == t0.taken
        invariant forall t :: t in pool ==> SoFar(t, t0, t0.taken[..i], end)
      {
        var task := snapshot[i];
        assert task in t0.taken && t0.taken[..i + 1] == t0.taken[..i] + [task];
        end := Turn(task, now, end, t0, t0.taken[..i], pool);
        if i < |meanwhile| {
          Meanwhile(meanwhile[i], pool);
        }
      }
      assert t0.taken[..snapshot.Length] == t0.taken;
    }
  }

  /** What a tick starts from. */
  datatype TickStart = TickStart(now: int, taken: seq<Task>, runs: map<Task, seq<Span>>, next: map<Task, int>)

  /** A task during a tick, after the turns of the tasks in `done`. */
  ghost predicate SoFar(t: Task, t0: TickStart, done: seq<Task>, end: int)
    reads t
  {
    && t in t0.runs && t in t0.next
    && t.Ok(end) && t0.runs[t] <= t.runs
    && (t.runs == t0.runs[t] ==> t.next == t0.next[t])
    && (|t.runs| > |t0.runs[t]| ==> t in t0.taken && Due(t0.next[t], t0.now))
    && (t in done && Due(t0.next[t], t0.now) ==> |t.runs| > |t0.runs[t]|)
  }

  /** One task's turn. */
  method Turn(task: Task, now: int, clock: int, ghost t0: TickStart, ghost done: seq<Task>, ghost pool: set<Task>)
    returns (end: int)
    requires ZERO_TIME <= now <= clock && t0.now == now && task in t0.taken && task in pool
    requires forall t :: t in pool ==> SoFar(t, t0, done, clock)
    modifies task
    ensures end >= clock
    ensures forall t :: t in pool ==> SoFar(t, t0, done + [task], end)
  {
    end := clock;
    assert SoFar(task, t0, done, clock);
    if task.next != ZERO_TIME && task.next > now {
      return;
    }
    end := task.Run(clock);
    forall t | t in pool
      ensures SoFar(t, t0, done + [task], end)
    {
      if t != task {
        assert old(SoFar(t, t0, done, clock));
      }
    }
  }

  datatype Change = Add(task: Task) | Remove(id: string)

  /** A pause before the tick, the changes to the list during the pause, and those after each task of the tick. */
  datatype TickPlan = TickPlan(pause: nat, before: seq<Change>, meanwhile: seq<seq<Change>>)

  predicate AddsFrom(changes: seq<Change>, pool: set<Task>) {
    forall i :: 0 <= i < |changes| && changes[i].Add? ==> changes[i].task in pool
  }

  /**
    Any number of ticks, whatever is added or removed before and during them, the same task listed
    twice or not: the starts of every task are at least its interval after its previous end.
   */
  method RunTicks(s: Scheduler, plans: seq<TickPlan>, ghost pool: set<Task>) returns (now: int)
    requires s.Valid() && (forall t :: t in s.Contents() ==> t in pool)
    requires forall t :: t in pool ==> t.Ok(ZERO_TIME)
    requires forall i :: 0 <= i < |plans| ==>
               AddsFrom(plans[i].before, pool) && forall j :: 0 <= j < |plans[i].meanwhile| ==> AddsFrom(plans[i].meanwhile[j], pool)
    modifies s, s.tasks, pool
    ensures forall t :: t in pool ==> Spaced(t.runs, t.interval)
  {
    now := ZERO_TIME;
    for i := 0 to |plans|
      invariant s.Valid() && now >= ZERO_TIME && (s.tasks == old(s.tasks) || fresh(s.tasks))
      invariant forall t :: t in s.Contents() ==> t in pool
      invariant forall t :: t in pool ==> t.Ok(now)
    {
      now := now + plans[i].pause;
      assert AddsFrom(plans[i].before, pool);
      s.Meanwhile(plans[i].before, pool);
      assert forall j :: 0 <= j < |plans[i].meanwhile| ==> AddsFrom(plans[i].meanwhile[j], pool);
      now := s.Tick(now, plans[i].meanwhile, pool);
    }
  }
}
