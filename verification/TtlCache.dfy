/**
  The in-memory cache with expiry: entries are removed when a Get finds them expired and by a periodic
  sweep. Times are integers; the clock's readings are part of the histories.
 */
module TtlCache {
  import opened Common

  datatype Item = Item(value: Any, expiration: int)

  datatype State = State(items: map<string, Item>, closed: bool)

  /** The reading that time.Time's IsZero recognises: such an expiration never comes. */
  const ZERO_TIME: int := 0
  const DEFAULT_TTL: int := 24 * 3600 * 1_000_000_000

  predicate Expired(item: Item, now: int) {
    item.expiration != ZERO_TIME && now > item.expiration
  }

  /** A sweep uses a reading of the clock taken before it got the lock. */
  datatype Op =
    | Get(key: string)
    | SetWithTTL(key: string, value: Any, ttl: int)
    | Delete(key: string)
    | Sweep(at: int)
    | Close

  function Live(items: map<string, Item>, at: int): map<string, Item> {
    map k | k in items && !Expired(items[k], at) :: items[k]
  }

  function Step(s: State, now: int, op: Op): (State, Any) {
    match op
    case Get(key) =>
      if key !in s.items then (s, Nil)
      else if Expired(s.items[key], now) then (s.(items := s.items - {key}), Nil)
      else (s, s.items[key].value)
    case SetWithTTL(key, value, ttl) =>
      if s.closed then (s, Nil) else (s.(items := s.items[key := Item(value, now + ttl)]), Nil)
    case Delete(key) => (s.(items := s.items - {key}), Nil)
    case Sweep(at) => (s.(items := Live(s.items, at)), Nil)
    case Close => (if s.closed then s else State(map[], true), Nil)
  }

  /** The reference: a timed map that nobody cleans up. */
  function RefStep(s: State, now: int, op: Op): (State, Any) {
    match op
    case Get(key) => (s, if key in s.items && !Expired(s.items[key], now) then s.items[key].value else Nil)
    case Sweep(_) => (s, Nil)
    case _ => Step(s, now, op)
  }

  // ---------------------------------------------------------------- atomic operations

  datatype Event = Event(now: int, op: Op)

  /** The clock does not go back, and a sweep's reading is not from the future. */
  predicate Timely(history: seq<Event>) {
    && (forall i, j :: 0 <= i < j < |history| ==> history[i].now <= history[j].now)
    && (forall i :: 0 <= i < |history| && history[i].op.Sweep? ==> history[i].op.at <= history[i].now)
  }

  function After(history: seq<Event>): State {
    if history == [] then State(map[], false)
    else
      var e := history[|history| - 1];
      Step(After(history[..|history| - 1]), e.now, e.op).0
  }

  function RefAfter(history: seq<Event>): State {
    if history == [] then State(map[], false)
    else
      var e := history[|history| - 1];
      RefStep(RefAfter(history[..|history| - 1]), e.now, e.op).0
  }

  /** Same entries, except that the cache may lack some that have expired by `now`. */
  predicate Agrees(s: State, r: State, now: int) {
    && s.closed == r.closed
    && (forall k :: k in s.items ==> k in r.items && r.items[k] == s.items[k])
    && (forall k :: k in r.items && k !in s.items ==> Expired(r.items[k], now))
  }

  lemma AgreesStep(s: State, r: State, before: int, now: int, op: Op)
    requires Agrees(s, r, before) && before <= now && (op.Sweep? ==> op.at <= now)
    ensures Agrees(Step(s, now, op).0, RefStep(r, now, op).0, now)
    ensures Step(s, now, op).1 == RefStep(r, now, op).1
  {
    if op.Close? && s.closed {
      assert Step(s, now, op).0 == s && RefStep(r, now, op).0 == r;
    }
  }

  lemma {:induction false} AlwaysAgrees(history: seq<Event>, now: int)
    requires Timely(history) && (forall i :: 0 <= i < |history| ==> history[i].now <= now)
    ensures Agrees(After(history), RefAfter(history), now)
  {
    if history != [] {
      var prev, e := history[..|history| - 1], history[|history| - 1];
      AlwaysAgrees(prev, e.now);
      AgreesStep(After(prev), RefAfter(prev), e.now, e.now, e.op);
      hide After, RefAfter, Step, RefStep;
    }
  }

  /** No Get can tell the cache from the reference: sweeps and lazy deletes are unobservable. */
  lemma CleanupUnobservable(history: seq<Event>, i: nat)
    requires Timely(history) && i < |history|
    ensures var e := history[i];
            Step(After(history[..i]), e.now, e.op).1 == RefStep(RefAfter(history[..i]), e.now, e.op).1
  {
    var e := history[i];
    AlwaysAgrees(history[..i], e.now);
    AgreesStep(After(history[..i]), RefAfter(history[..i]), e.now, e.now, e.op);
  }

  predicate ClosedIn(history: seq<Event>) {
    history != [] && (history[|history| - 1].op.Close? || ClosedIn(history[..|history| - 1]))
  }

  /** The value last set for the key and the time it is good until, by the history alone. */
  function LastSet(history: seq<Event>, key: string): Option<(Any, int)> {
    if history == [] then None
    else
      var prev, e := history[..|history| - 1], history[|history| - 1];
      match e.op
      case SetWithTTL(k, value, ttl) =>
        if k == key && !ClosedIn(prev) then Some((value, e.now + ttl)) else LastSet(prev, key)
      case Delete(k) => if k == key then None else LastSet(prev, key)
      case Close => None
      case _ => LastSet(prev, key)
  }

  lemma {:induction false} RefClosed(history: seq<Event>)
    ensures RefAfter(history).closed <==> ClosedIn(history)
  {
    if history != [] {
      RefClosed(history[..|history| - 1]);
    }
  }

  /** The reference holds, for every key, what was last set and neither deleted nor closed away since. */
  lemma {:induction false} RefIsLastSet(history: seq<Event>, key: string)
    ensures var r, last := RefAfter(history), LastSet(history, key);
            if last.None? then key !in r.items
            else key in r.items && r.items[key] == Item(last.value.0, last.value.1)
  {
    if history != [] {
      var prev := history[..|history| - 1];
      RefClosed(prev);
      RefIsLastSet(prev, key);
      ClosedEmpty(prev, key);
    }
  }

  lemma {:induction false} ClosedEmpty(history: seq<Event>, key: string)
    ensures ClosedIn(history) ==> LastSet(history, key).None?
  {
    if history != [] {
      ClosedEmpty(history[..|history| - 1], key);
    }
  }

  /**
    What Get answers, by the history alone: the value last set for the key, if that was not deleted or
    closed away since, up to and including the time it is good until (and for ever if that time is the
    zero time); otherwise nil. No sweep or earlier Get makes a difference.
   */
  lemma AnswerFromHistory(history: seq<Event>, now: int, key: string)
    requires Timely(history) && (forall i :: 0 <= i < |history| ==> history[i].now <= now)
    ensures var last := LastSet(history, key);
            Step(After(history), now, Get(key)).1 ==
            if last.Some? && (now <= last.value.1 || last.value.1 == 0) then last.value.0 else Nil
  {
    AlwaysAgrees(history, now);
    RefIsLastSet(history, key);
    AgreesStep(After(history), RefAfter(history), now, now, Get(key));
  }

  // ---------------------------------------------------------------- Get in two lock sections

  datatype Phase =
    | Idle
    | Holding(key: string, item: Option<Item>, latest: Option<Item>)   // read; `latest` is history
    | Deleting(key: string, seen: Item)                               // saw it expired

  /** History: a value returned, the entry last set for its key when it was read, the time of the check. */
  datatype Returned = Returned(key: string, value: Any, latest: Option<Item>, checkedAt: int)

  datatype Shared = Shared(
    cache: State,
    ref: State,                // history: the reference map
    now: int,
    phases: map<nat, Phase>,
    returned: seq<Returned>,   // history
    lost: set<string>)         // history: keys a Get's delete hit since they were last set

  datatype Action =
    | Tick(now: int)
    | Do(op: Op)               // any operation but Get
    | Read(t: nat, key: string)
    | Check(t: nat)
    | LazyDelete(t: nat)

  function Lookup(items: map<string, Item>, key: string): Option<Item> {
    if key in items then Some(items[key]) else None
  }

  function PhaseOf(s: Shared, t: nat): Phase {
    if t in s.phases then s.phases[t] else Idle
  }

  predicate Enabled(s: Shared, a: Action) {
    match a
    case Tick(now) => s.now <= now
    case Do(op) => !op.Get? && (op.Sweep? ==> op.at <= s.now)
    case Read(t, _) => PhaseOf(s, t).Idle?
    case Check(t) => PhaseOf(s, t).Holding?
    case LazyDelete(t) => PhaseOf(s, t).Deleting?
  }

  function Apply(s: Shared, a: Action): Shared
    requires Enabled(s, a)
  {
    match a
    case Tick(now) => s.(now := now)
    case Do(op) =>
      s.(cache := Step(s.cache, s.now, op).0, ref := RefStep(s.ref, s.now, op).0,
         lost := if op.SetWithTTL? && !s.cache.closed then s.lost - {op.key} else s.lost)
    case Read(t, key) =>
      s.(phases := s.phases[t := Holding(key, Lookup(s.cache.items, key), Lookup(s.ref.items, key))])
    case Check(t) =>
      var p := PhaseOf(s, t);
      if p.item.None? then s.(phases := s.phases[t := Idle])
      else if Expired(p.item.value, s.now) then s.(phases := s.phases[t := Deleting(p.key, p.item.value)])
      else s.(phases := s.phases[t := Idle],
              returned := s.returned + [Returned(p.key, p.item.value.value, p.latest, s.now)])
    case LazyDelete(t) =>
      var key := PhaseOf(s, t).key;
      s.(phases := s.phases[t := Idle], lost := s.lost + {key},
         cache := s.cache.(items := s.cache.items - {key}))
  }

  function Exec(run: seq<Action>): Option<Shared> {
    if run == [] then Some(Shared(State(map[], false), State(map[], false), 0, map[], [], {}))
    else
      var before := Exec(run[..|run| - 1]);
      if before.Some? && Enabled(before.value, run[|run| - 1])
      then Some(Apply(before.value, run[|run| - 1])) else None
  }

  predicate SharedInv(s: Shared) {
    && s.cache.closed == s.ref.closed
    && (forall k :: k in s.cache.items ==> k in s.ref.items && s.ref.items[k] == s.cache.items[k])
    && (forall k :: k in s.ref.items && k !in s.cache.items ==> Expired(s.ref.items[k], s.now) || k in s.lost)
    && (forall k :: k in s.lost ==> k !in s.cache.items)
  }

  predicate GetsInv(s: Shared) {
    && (forall t :: t in s.phases && s.phases[t].Holding? && s.phases[t].item.Some? ==>
          s.phases[t].latest == s.phases[t].item)
    && (forall t :: t in s.phases && s.phases[t].Deleting? ==> Expired(s.phases[t].seen, s.now))
    && (forall i :: 0 <= i < |s.returned| ==>
          var r := s.returned[i];
          r.latest.Some? && r.latest.value.value == r.value && !Expired(r.latest.value, r.checkedAt))
  }

  lemma SharedStep(s: Shared, a: Action)
    requires SharedInv(s) && Enabled(s, a)
    ensures SharedInv(Apply(s, a))
  {
    if a.Do? && a.op.Close? && s.cache.closed {
      assert Apply(s, a) == s;
    }
  }

  lemma GetsStep(s: Shared, a: Action)
    requires SharedInv(s) && GetsInv(s) && Enabled(s, a)
    ensures GetsInv(Apply(s, a))
  {
    hide Step, RefStep;
  }

  lemma {:induction false} Reachable(run: seq<Action>)
    requires Exec(run).Some?
    ensures SharedInv(Exec(run).value) && GetsInv(Exec(run).value)
  {
    if run != [] {
      var last := |run| - 1;
      Reachable(run[..last]);
      hide SharedInv, GetsInv;
      SharedStep(Exec(run[..last]).value, run[last]);
      GetsStep(Exec(run[..last]).value, run[last]);
    }
  }

  /** The operations of the run, with the clock readings at which they were done. */
  function EventsOf(run: seq<Action>): seq<Event>
    requires Exec(run).Some?
  {
    if run == [] then []
    else
      var prev, a := run[..|run| - 1], run[|run| - 1];
      EventsOf(prev) + if a.Do? then [Event(Exec(prev).value.now, a.op)] else []
  }

  /** The reference in the interleavings is the reference above, so it is what LastSet says. */
  lemma {:induction false} RefOfRun(run: seq<Action>)
    requires Exec(run).Some?
    ensures Exec(run).value.ref == RefAfter(EventsOf(run))
  {
    if run != [] {
      var prev, a := run[..|run| - 1], run[|run| - 1];
      RefOfRun(prev);
      if a.Do? {
        var e := Event(Exec(prev).value.now, a.op);
        assert (EventsOf(prev) + [e])[..|EventsOf(prev)|] == EventsOf(prev);
      } else {
        assert EventsOf(run) == EventsOf(prev);
      }
      hide Step, RefStep;
    }
  }

  /**
    What a Get in two sections answers, by the run: the entry present at its read, if that is unexpired
    at its check; then its value is handed back, and otherwise nothing is.
   */
  lemma GetAnswers(start: seq<Action>, since: seq<Action>, t: nat, key: string)
    requires start != [] && start[|start| - 1] == Read(t, key) && Exec(start).Some?
    requires forall i :: 0 <= i < |since| ==> !since[i].Read? || since[i].t != t
    requires Exec(start + since).Some? && Enabled(Exec(start + since).value, Check(t))
    ensures var was, s := Lookup(Exec(start).value.cache.items, key), Exec(start + since).value;
            var s', good := Apply(s, Check(t)), was.Some? && (s.now <= was.value.expiration || was.value.expiration == 0);
            && |s'.returned| == |s.returned| + (if good then 1 else 0) && s.returned <= s'.returned
            && (good ==> s'.returned[|s.returned|].value == was.value.value && s'.returned[|s.returned|].key == key)
            && (PhaseOf(s', t).Deleting? <==> was.Some? && !good)
  {
    var s0 := Exec(start).value;
    var prev := Exec(start[..|start| - 1]).value;
    assert s0.cache == prev.cache && PhaseOf(s0, t).Holding? && PhaseOf(s0, t).item == Lookup(s0.cache.items, key);
    hide Exec, SetSince, Step, RefStep;
    SinceRead(start, since, t, key, Lookup(s0.cache.items, key));
  }

  /** In every interleaving, a value returned was the latest set when read and unexpired when checked. */
  lemma HitsAreGenuine(run: seq<Action>, i: nat)
    requires Exec(run).Some? && i < |Exec(run).value.returned|
    ensures var r := Exec(run).value.returned[i];
            r.latest.Some? && r.latest.value.value == r.value && !Expired(r.latest.value, r.checkedAt)
  {
    Reachable(run);
  }

  /** The action is the delete of a Get that saw an expired entry under `key`. */
  predicate DeletesKey(s: Shared, a: Action, key: string) {
    a.LazyDelete? && PhaseOf(s, a.t).Deleting? && PhaseOf(s, a.t).key == key
  }

  /** The action sets `key` (which a closed cache ignores). */
  predicate SetsKey(s: Shared, a: Action, key: string) {
    a.Do? && a.op.SetWithTTL? && a.op.key == key && !s.cache.closed
  }

  /** Of the run's steps that set `key` or are a Get's delete of it, the last is a delete. */
  predicate DeletedSinceSet(run: seq<Action>, key: string)
    requires Exec(run).Some?
  {
    if run == [] then false
    else
      var prev, a := run[..|run| - 1], run[|run| - 1];
      var s := Exec(prev).value;
      if DeletesKey(s, a, key) then true
      else !SetsKey(s, a, key) && DeletedSinceSet(prev, key)
  }

  lemma {:induction false} LostIff(run: seq<Action>, key: string)
    requires Exec(run).Some?
    ensures key in Exec(run).value.lost <==> DeletedSinceSet(run, key)
  {
    if run != [] {
      LostIff(run[..|run| - 1], key);
    }
  }

  /**
    Exactly when a read misses a live entry, in every interleaving: when, since it was last set, the
    delete of some Get that had seen an earlier, expired entry hit the key.
   */
  lemma MissIff(run: seq<Action>, key: string)
    requires Exec(run).Some?
    requires var s := Exec(run).value; key in s.ref.items && !Expired(s.ref.items[key], s.now)
    ensures key !in Exec(run).value.cache.items <==> DeletedSinceSet(run, key)
  {
    Reachable(run);
    LostIff(run, key);
  }

  /** The pending delete of goroutine t removes an entry that is live. */
  predicate RemovesLive(s: Shared, t: nat)
    requires Enabled(s, LazyDelete(t))
  {
    var key := PhaseOf(s, t).key;
    && key in s.ref.items && !Expired(s.ref.items[key], s.now)
    && key in s.cache.items && key !in Apply(s, LazyDelete(t)).cache.items
  }

  /** The key was set in the steps `since` that followed `start`. */
  predicate SetSince(start: seq<Action>, since: seq<Action>, key: string)
    requires Exec(start + since).Some?
    decreases |since|
  {
    if since == [] then false
    else
      var prev := since[..|since| - 1];
      assert (start + since)[..|start + since| - 1] == start + prev;
      SetsKey(Exec(start + prev).value, since[|since| - 1], key) || SetSince(start, prev, key)
  }

  /** Goroutine t still has in hand what it read, and without a set since then so has the cache, if anything. */
  lemma {:induction false} SinceRead(start: seq<Action>, since: seq<Action>, t: nat, key: string, was: Option<Item>)
    requires Exec(start + since).Some? && Exec(start).Some?
    requires var s := Exec(start).value;
             PhaseOf(s, t).Holding? && PhaseOf(s, t).key == key && PhaseOf(s, t).item == was == Lookup(s.cache.items, key)
    requires forall i :: 0 <= i < |since| ==> !since[i].Read? || since[i].t != t
    ensures var s := Exec(start + since).value;
            var p := PhaseOf(s, t);
            && (p.Idle? || (p.key == key && (p.Holding? ==> p.item == was) && (p.Deleting? ==> was == Some(p.seen))))
            && (!SetSince(start, since, key) ==> (key in s.cache.items ==> was == Some(s.cache.items[key])))
  {
    if since == [] {
      assert start + since == start;
    } else {
      var prev, a := since[..|since| - 1], since[|since| - 1];
      assert (start + since)[..|start + since| - 1] == start + prev;
      assert (start + since)[|start + since| - 1] == a;
      SinceRead(start, prev, t, key, was);
      var s := Exec(start + prev).value;
      if !SetsKey(s, a, key) {
        ItemKept(s, a, key);
      }
      PhaseKept(s, a, t);
      hide Apply;
    }
  }

  lemma ItemKept(s: Shared, a: Action, key: string)
    requires Enabled(s, a)
    requires !SetsKey(s, a, key)
    ensures var s' := Apply(s, a);
            key in s'.cache.items ==> key in s.cache.items && s'.cache.items[key] == s.cache.items[key]
  {
  }

  lemma PhaseKept(s: Shared, a: Action, t: nat)
    requires Enabled(s, a) && !(a.Read? && a.t == t)
    ensures var p, p' := PhaseOf(s, t), PhaseOf(Apply(s, a), t);
            p' == p || p'.Idle? || (p.Holding? && p.item.Some? && p' == Deleting(p.key, p.item.value))
  {
    hide Step, RefStep;
  }

  /**
    When a Get's delete does harm: from its read on, the delete removes a live entry if and only if the
    key was set again since the read and the entry there is present and unexpired; and then that entry
    is not the one the Get saw, which the code does not compare.
   */
  lemma DeleteRemovesLiveIff(start: seq<Action>, since: seq<Action>, t: nat, key: string)
    requires start != [] && start[|start| - 1] == Read(t, key) && Exec(start).Some?
    requires forall i :: 0 <= i < |since| ==> !since[i].Read? || since[i].t != t
    requires Exec(start + since).Some? && Enabled(Exec(start + since).value, LazyDelete(t))
    ensures var s := Exec(start + since).value;
            && (RemovesLive(s, t) <==>
                  SetSince(start, since, key) && key in s.cache.items && !Expired(s.cache.items[key], s.now))
            && (RemovesLive(s, t) ==> s.cache.items[key] != PhaseOf(s, t).seen)
  {
    var s0 := Exec(start).value;
    assert PhaseOf(s0, t).Holding? && PhaseOf(s0, t).item == Lookup(s0.cache.items, key);
    Reachable(start + since);
    hide Exec, SetSince, Apply;
    SinceRead(start, since, t, key, Lookup(s0.cache.items, key));
    LiveAtDelete(Exec(start + since).value, t, SetSince(start, since, key));
  }

  lemma LiveAtDelete(s: Shared, t: nat, setSince: bool)
    requires SharedInv(s) && GetsInv(s) && PhaseOf(s, t).Deleting?
    requires var key := PhaseOf(s, t).key;
             !setSince && key in s.cache.items ==> s.cache.items[key] == PhaseOf(s, t).seen
    ensures var key := PhaseOf(s, t).key;
            && (RemovesLive(s, t) <==> setSince && key in s.cache.items && !Expired(s.cache.items[key], s.now))
            && (RemovesLive(s, t) ==> s.cache.items[key] != PhaseOf(s, t).seen)
  {
  }

  /** It does happen: a Get that saw an expired entry deletes the one set meanwhile. */
  lemma LostUpdate(key: string, first: Any, second: Any)
    ensures var run := [Do(SetWithTTL(key, first, 1)), Tick(2), Read(0, key),
                        Do(SetWithTTL(key, second, 100)), Check(0), LazyDelete(0)];
            && Exec(run).Some?
            && var s := Exec(run).value;
               key in s.ref.items && !Expired(s.ref.items[key], s.now) && key !in s.cache.items
  {
    var r1 := [Do(SetWithTTL(key, first, 1))];
    var r2 := r1 + [Tick(2)];
    var r3 := r2 + [Read(0, key)];
    var r4 := r3 + [Do(SetWithTTL(key, second, 100))];
    var r5 := r4 + [Check(0)];
    ExecSnoc([], Do(SetWithTTL(key, first, 1)));
    assert [] + [Do(SetWithTTL(key, first, 1))] == r1;
    ExecSnoc(r1, Tick(2));
    ExecSnoc(r2, Read(0, key));
    assert PhaseOf(Exec(r3).value, 0).item == Some(Item(first, 1));
    ExecSnoc(r3, Do(SetWithTTL(key, second, 100)));
    ExecSnoc(r4, Check(0));
    assert PhaseOf(Exec(r5).value, 0) == Deleting(key, Item(first, 1));
    ExecSnoc(r5, LazyDelete(0));
    assert r5 + [LazyDelete(0)] == [Do(SetWithTTL(key, first, 1)), Tick(2), Read(0, key),
                                    Do(SetWithTTL(key, second, 100)), Check(0), LazyDelete(0)];
  }

  lemma ExecSnoc(run: seq<Action>, a: Action)
    requires Exec(run).Some? && Enabled(Exec(run).value, a)
    ensures Exec(run + [a]) == Some(Apply(Exec(run).value, a))
  {
    assert (run + [a])[..|run|] == run;
  }

  // ---------------------------------------------------------------- the cache object

  class InMemCache {
    var cache: map<string, Item>
    var closed: bool

    function Abs(): State
      reads this
    {
      State(cache, closed)
    }

    constructor ()
      ensures Abs() == State(map[], false)
    {
      cache, closed := map[], false;
    }

    method Get(key: string, now: int) returns (r: Any)
      modifies this
      ensures (Abs(), r) == Step(old(Abs()), now, Op.Get(key))
      ensures key in cache ==> cache[key].expiration == 0 || now <= cache[key].expiration
      ensures cache - {key} == old(cache) - {key} && (key in cache ==> key in old(cache) && cache[key] == old(cache)[key])
    {
      if key !in cache {
        return Nil;
      }
      var item := cache[key];
      if item.expiration != ZERO_TIME && now > item.expiration {
        Delete(key);
        return Nil;
      }
      return item.value;
    }

    method Set(key: string, value: Any, now: int)
      modifies this
      ensures Abs() == Step(old(Abs()), now, Op.SetWithTTL(key, value, 24 * 3600 * 1_000_000_000)).0
    {
      SetWithTTL(key, value, DEFAULT_TTL, now);
    }

    method SetWithTTL(key: string, value: Any, ttl: int, now: int)
      modifies this
      ensures Abs() == Step(old(Abs()), now, Op.SetWithTTL(key, value, ttl)).0
    {
      if closed {
        return;
      }
      cache := cache[key := Item(value, now + ttl)];
    }

    method Delete(key: string)
      modifies this
      ensures closed == old(closed) && cache == old(cache) - {key}
    {
      cache := cache - {key};
    }

    /** One tick of the periodic cleanup: every entry is looked at, in some order. */
    method SweepAt(now: int)
      modifies this
      ensures Abs() == Step(old(Abs()), now, Op.Sweep(now)).0
      ensures forall k :: k in cache <==>
                k in old(cache) && (old(cache)[k].expiration == 0 || now <= old(cache)[k].expiration)
      ensures forall k :: k in cache ==> cache[k] == old(cache)[k]
    {
      var left := cache.Keys;
      while left != {}
        invariant closed == old(closed)
        invariant left <= old(cache).Keys
        invariant forall k :: k in cache <==> k in old(cache) && (k in left || !Expired(old(cache)[k], now))
        invariant forall k :: k in cache ==> cache[k] == old(cache)[k]
        decreases left
      {
        var k :| k in left;
        left := left - {k};
        if cache[k].expiration != ZERO_TIME && now > cache[k].expiration {
          cache := cache - {k};
        }
      }
      assert cache == Live(old(cache), now);
    }

    method Close(now: int)
      modifies this
      ensures Abs() == Step(old(Abs()), now, Op.Close).0
    {
      if closed {
        return;
      }
      closed := true;
      cache := map[];
    }
  }
}
