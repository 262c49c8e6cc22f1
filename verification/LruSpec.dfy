/**
  The abstract LRU cache: a most-recent-first sequence of entries with distinct keys.
  Everything said here is about whole histories of operations; LruCache.dfy shows that the
  map-and-linked-list object steps exactly as this sequence does.
 */
module LruSpec {
  import opened Common

  datatype Entry = Entry(key: string, value: Any)

  datatype State = State(items: seq<Entry>, limit: nat, closed: bool)

  datatype Op = Get(key: string) | Set(key: string, value: Any) | Delete(key: string) | Close

  const DEFAULT_LIMIT: nat := 1024

  function EffectiveLimit(limit: int): nat {
    if limit <= 0 then DEFAULT_LIMIT else limit
  }

  function New(limit: int): State {
    State([], EffectiveLimit(limit), false)
  }

  function Find(items: seq<Entry>, key: string): Option<Any> {
    if items == [] then None
    else if items[0].key == key then Some(items[0].value)
    else Find(items[1..], key)
  }

  function Without(items: seq<Entry>, key: string): seq<Entry> {
    if items == [] then []
    else if items[0].key == key then items[1..]
    else [items[0]] + Without(items[1..], key)
  }

  function Truncate(items: seq<Entry>, limit: nat): seq<Entry> {
    if |items| <= limit then items else items[..limit]
  }

  /** The state an operation leaves and the value it hands back (nil for everything but a hit). */
  function Step(s: State, op: Op): (State, Any) {
    if s.closed then (s, Nil) else
    match op
    case Get(key) =>
      (match Find(s.items, key)
       case None => (s, Nil)
       case Some(value) => (s.(items := [Entry(key, value)] + Without(s.items, key)), value))
    case Set(key, value) =>
      if Find(s.items, key).Some?
      then (s.(items := [Entry(key, value)] + Without(s.items, key)), Nil)
      else (s.(items := Truncate([Entry(key, value)] + s.items, s.limit)), Nil)
    case Delete(key) => (s.(items := Without(s.items, key)), Nil)
    case Close => (State([], s.limit, true), Nil)
  }

  /** The state a cache created with `limit` is in after `history`. */
  function After(limit: int, history: seq<Op>): State {
    if history == [] then New(limit)
    else Step(After(limit, history[..|history| - 1]), history[|history| - 1]).0
  }

  /** What the i-th operation of `history` returned. */
  function Output(limit: int, history: seq<Op>, i: nat): Any
    requires i < |history|
  {
    Step(After(limit, history[..i]), history[i]).1
  }

  // ---------------------------------------------------------------- validity

  predicate Distinct(items: seq<Entry>) {
    items == [] || (Find(items[1..], items[0].key).None? && Distinct(items[1..]))
  }

  predicate Valid(s: State) {
    && Distinct(s.items)
    && |s.items| <= s.limit
    && 1 <= s.limit
    && (s.closed ==> s.items == [])
  }

  lemma {:induction false} FindWithout(items: seq<Entry>, removed: string, key: string)
    requires Distinct(items)
    ensures Find(Without(items, removed), key) == if key == removed then None else Find(items, key)
    ensures Distinct(Without(items, removed))
    ensures |Without(items, removed)| == if Find(items, removed).Some? then |items| - 1 else |items|
    ensures Find(items, removed).None? ==> Without(items, removed) == items
  {
    if items == [] {
    } else if items[0].key == removed {
      FindFirstOnly(items, key);
    } else {
      FindWithout(items[1..], removed, key);
      FindWithout(items[1..], removed, items[0].key);
      var w := Without(items, removed);
      assert w[1..] == Without(items[1..], removed);
    }
  }

  lemma FindFirstOnly(items: seq<Entry>, key: string)
    requires items != [] && Distinct(items)
    ensures Find(items[1..], key) == if key == items[0].key then None else Find(items, key)
  {
  }

  lemma {:induction false} FindTake(items: seq<Entry>, n: nat, key: string)
    requires n <= |items| && Distinct(items)
    ensures Distinct(items[..n])
    ensures Find(items[..n], key).Some? ==> Find(items, key) == Find(items[..n], key)
  {
    if n > 0 {
      assert items[..n][1..] == items[1..][..n - 1];
      FindTake(items[1..], n - 1, key);
      FindTake(items[1..], n - 1, items[0].key);
    }
  }

  /** Truncation keeps at least the front: the eviction loop never removes the key just set. */
  lemma PushKeepsNewest(items: seq<Entry>, entry: Entry, limit: nat)
    requires Distinct(items) && Find(items, entry.key).None? && 1 <= limit
    ensures var pushed := Truncate([entry] + items, limit);
            Distinct(pushed) && |pushed| <= limit && Find(pushed, entry.key) == Some(entry.value)
  {
    var all := [entry] + items;
    assert all[1..] == items;
    if |all| > limit {
      FindTake(all, limit, entry.key);
    }
  }

  /** Every operation keeps the keys distinct and the length within the limit. */
  lemma StepValid(s: State, op: Op)
    requires Valid(s)
    ensures Valid(Step(s, op).0)
    ensures Step(s, op).0.limit == s.limit
    ensures op.Set? && !s.closed ==> Find(Step(s, op).0.items, op.key) == Some(op.value)
  {
    if s.closed || op.Close? {
      return;
    }
    FindWithout(s.items, op.key, op.key);
    if op.Set? && Find(s.items, op.key).None? {
      PushKeepsNewest(s.items, Entry(op.key, op.value), s.limit);
    } else {
      var w := Without(s.items, op.key);
      assert forall e: Entry :: ([e] + w)[1..] == w;
    }
  }

  /**
    What an operation does to any key: Get changes no entry, Set and Delete change their own, and a
    Set loses another entry only when the cache is full, and then the least recently used one.
   */
  lemma StepEffect(s: State, op: Op, key: string)
    requires Valid(s) && !s.closed && !op.Close?
    ensures var before, after := Find(s.items, key), Find(Step(s, op).0.items, key);
            if key == op.key then
              after == (match op case Get(_) => before case Set(_, value) => Some(value) case _ => None)
            else
              after == before ||
              (op.Set? && Find(s.items, op.key).None? && |s.items| == s.limit && key == s.items[s.limit - 1].key && after.None?)
    ensures op.Get? ==> Step(s, op).1 == match Find(s.items, op.key) case None => Nil case Some(value) => value
  {
    FindWithout(s.items, op.key, key);
    if op.Set? && Find(s.items, op.key).None? {
      PushEffect(s, Entry(op.key, op.value), key);
    } else if !op.Delete? && Find(s.items, op.key).Some? {
      var value := if op.Set? then op.value else Find(s.items, op.key).value;
      AheadOfFront(Entry(op.key, value), Without(s.items, op.key), key);
    }
  }

  lemma PushEffect(s: State, e: Entry, key: string)
    requires Valid(s) && Find(s.items, e.key).None?
    ensures var before, after := Find(s.items, key), Find(Truncate([e] + s.items, s.limit), key);
            if key == e.key then after == Some(e.value)
            else after == before || (|s.items| == s.limit && key == s.items[s.limit - 1].key && after.None?)
  {
    var all := [e] + s.items;
    PushKeepsNewest(s.items, e, s.limit);
    AheadOfFront(e, s.items, key);
    AheadOfFront(e, s.items, e.key);
    if |all| > s.limit {
      assert Distinct(all) by { assert all[1..] == s.items; }
      FindInit(all, key);
      assert all[..|all| - 1] == all[..s.limit];
    }
  }

  /** Dropping the last entry loses its key and no other. */
  lemma {:induction false} FindInit(items: seq<Entry>, key: string)
    requires items != []
    ensures var init := items[..|items| - 1];
            key != items[|items| - 1].key ==> Find(init, key) == Find(items, key)
    ensures Distinct(items) && key == items[|items| - 1].key ==> Find(items[..|items| - 1], key).None?
  {
    if |items| > 1 {
      var init := items[..|items| - 1];
      assert init[1..] == items[1..][..|items| - 2];
      FindInit(items[1..], key);
      if key == items[|items| - 1].key {
        FindLast(items[1..]);
      }
    }
  }

  lemma {:induction false} FindLast(items: seq<Entry>)
    requires items != []
    ensures Find(items, items[|items| - 1].key).Some?
  {
    if |items| > 1 {
      FindLast(items[1..]);
    }
  }

  /** The limit asked for is the one kept; without one it is 1024. */
  lemma {:induction false} AfterValid(limit: int, history: seq<Op>)
    ensures Valid(After(limit, history))
    ensures limit >= 1 ==> After(limit, history).limit == limit && |After(limit, history).items| <= limit
    ensures limit <= 0 ==> After(limit, history).limit == 1024 && |After(limit, history).items| <= 1024
  {
    if history != [] {
      var prev := history[..|history| - 1];
      AfterValid(limit, prev);
      StepValid(After(limit, prev), history[|history| - 1]);
    }
  }

  /** A Close is for good, and nothing else closes. */
  lemma {:induction false} ClosedIff(limit: int, history: seq<Op>)
    ensures After(limit, history).closed <==> Close in history
    ensures Close in history ==> After(limit, history).items == []
  {
    AfterValid(limit, history);
    if history != [] {
      var prev, op := history[..|history| - 1], history[|history| - 1];
      assert history == prev + [op];
      ClosedIff(limit, prev);
    }
  }

  predicate KeysDiffer(items: seq<Entry>) {
    forall i, j :: 0 <= i < j < |items| ==> items[i].key != items[j].key
  }

  lemma {:induction false} AtIndex(items: seq<Entry>, i: nat)
    requires KeysDiffer(items) && i < |items|
    ensures Find(items, items[i].key) == Some(items[i].value)
    ensures Without(items, items[i].key) == items[..i] + items[i + 1..]
  {
    if i > 0 {
      AtIndex(items[1..], i - 1);
    }
  }

  lemma {:induction false} Absent(items: seq<Entry>, key: string)
    requires forall i :: 0 <= i < |items| ==> items[i].key != key
    ensures Find(items, key).None? && Without(items, key) == items
  {
    if items != [] {
      Absent(items[1..], key);
    }
  }

  lemma {:induction false} DifferDistinct(items: seq<Entry>)
    requires KeysDiffer(items)
    ensures Distinct(items)
  {
    if items != [] {
      Absent(items[1..], items[0].key);
      DifferDistinct(items[1..]);
    }
  }

  // ---------------------------------------------------------------- inclusion

  /** `small` is a subsequence of `large`. */
  predicate Sub(small: seq<Entry>, large: seq<Entry>) {
    small == [] ||
    (large != [] &&
     if small[0] == large[0] then Sub(small[1..], large[1..]) else Sub(small, large[1..]))
  }

  lemma {:induction false} SubFind(small: seq<Entry>, large: seq<Entry>, key: string)
    requires Sub(small, large) && Distinct(large)
    ensures Find(small, key).Some? ==> Find(large, key) == Find(small, key)
    ensures |small| <= |large|
  {
    if small == [] {
    } else if small[0] == large[0] {
      SubFind(small[1..], large[1..], key);
    } else {
      SubFind(small, large[1..], key);
    }
  }

  lemma {:induction false} SubWithout(small: seq<Entry>, large: seq<Entry>, key: string)
    requires Sub(small, large) && Distinct(large) && Distinct(small)
    ensures Sub(Without(small, key), Without(large, key))
  {
    if small == [] {
    } else if small[0] == large[0] {
      SubWithout(small[1..], large[1..], key);
      if small[0].key != key {
        var s, l := Without(small, key), Without(large, key);
        assert s[1..] == Without(small[1..], key) && l[1..] == Without(large[1..], key);
      }
    } else if large[0].key == key {
      SubFind(small, large[1..], key);
      FindWithout(small, key, key);
    } else {
      SubWithout(small, large[1..], key);
      var s, l := Without(small, key), Without(large, key);
      assert l[1..] == Without(large[1..], key) && l[0] == large[0];
      if s != [] && s[0] == l[0] {
        SubTail(s, l[1..]);
      }
    }
  }

  lemma {:induction false} SubTail(small: seq<Entry>, large: seq<Entry>)
    requires small != [] && Sub(small, large)
    ensures Sub(small[1..], large)
    decreases |large|, 1
  {
    if small[0] != large[0] {
      SubTail(small, large[1..]);
    }
    SubSkip(small[1..], large);
  }

  lemma {:induction false} SubSkip(small: seq<Entry>, large: seq<Entry>)
    requires large != [] && Sub(small, large[1..])
    ensures Sub(small, large)
    decreases |large|, 0
  {
    if small != [] && small[0] == large[0] {
      SubTail(small, large[1..]);
    }
  }

  lemma {:induction false} SubTake(small: seq<Entry>, large: seq<Entry>, n: nat)
    requires Sub(small, large) && n <= |small|
    ensures Sub(small[..n], large)
  {
    if n > 0 {
      if small[0] == large[0] {
        SubTake(small[1..], large[1..], n - 1);
        assert small[..n][1..] == small[1..][..n - 1];
      } else {
        SubTake(small, large[1..], n);
      }
    }
  }

  lemma {:induction false} SubDropLast(small: seq<Entry>, large: seq<Entry>)
    requires small != [] && Sub(small, large)
    ensures large != [] && Sub(small[..|small| - 1], large[..|large| - 1])
  {
    var s, l := small[..|small| - 1], large[..|large| - 1];
    if s == [] {
    } else if small[0] == large[0] {
      SubDropLast(small[1..], large[1..]);
      assert s[1..] == small[1..][..|small| - 2] && l[1..] == large[1..][..|large| - 2];
    } else {
      SubDropLast(small, large[1..]);
      assert l[1..] == large[1..][..|large| - 2];
    }
  }

  /** The three-part invariant between one history run on a smaller and on a larger cache. */
  predicate Related(s: State, l: State) {
    && Valid(s) && Valid(l)
    && s.limit <= l.limit
    && s.closed == l.closed
    && Sub(s.items, l.items)
    && |l.items| - |s.items| <= l.limit - s.limit
  }

  /** Cutting both sequences to their limits keeps the subsequence and the length bound. */
  lemma TruncateRelated(small: seq<Entry>, large: seq<Entry>, m: nat, n: nat)
    requires Sub(small, large) && 1 <= m <= n
    requires |large| <= n + 1 && |small| <= m + 1
    requires |large| - |small| <= n - m
    ensures Sub(Truncate(small, m), Truncate(large, n))
    ensures |Truncate(large, n)| - |Truncate(small, m)| <= n - m
  {
    hide Sub;
    if |large| > n {
      SubDropLast(small, large);
      assert small[..|small| - 1] == small[..m] && large[..|large| - 1] == large[..n];
    } else if |small| > m {
      SubTake(small, large, m);
    }
  }

  lemma SetMissRelated(s: State, l: State, entry: Entry)
    requires Related(s, l) && !s.closed && Find(s.items, entry.key).None?
    ensures var op := Set(entry.key, entry.value);
            Related(Step(s, op).0, Step(l, op).0)
  {
    var op := Set(entry.key, entry.value);
    StepValid(s, op);
    StepValid(l, op);
    FindWithout(s.items, entry.key, entry.key);
    FindWithout(l.items, entry.key, entry.key);
    SubWithout(s.items, l.items, entry.key);
    var ps := [entry] + s.items;
    var pl := [entry] + Without(l.items, entry.key);
    assert ps[1..] == s.items && pl[1..] == Without(l.items, entry.key);
    TruncateRelated(ps, pl, s.limit, l.limit);
  }

  lemma HitRelated(s: State, l: State, entry: Entry)
    requires Related(s, l) && Find(s.items, entry.key).Some?
    ensures Sub([entry] + Without(s.items, entry.key), [entry] + Without(l.items, entry.key))
    ensures |Without(l.items, entry.key)| - |Without(s.items, entry.key)| == |l.items| - |s.items|
  {
    SubFind(s.items, l.items, entry.key);
    SubWithout(s.items, l.items, entry.key);
    FindWithout(s.items, entry.key, entry.key);
    FindWithout(l.items, entry.key, entry.key);
    var ps, pl := [entry] + Without(s.items, entry.key), [entry] + Without(l.items, entry.key);
    assert ps[1..] == Without(s.items, entry.key) && pl[1..] == Without(l.items, entry.key);
  }

  lemma GetMissRelated(s: State, l: State, key: string)
    requires Related(s, l) && !s.closed && Find(s.items, key).None?
    ensures Related(s, Step(l, Get(key)).0)
  {
    StepValid(l, Get(key));
    SubWithout(s.items, l.items, key);
    FindWithout(s.items, key, key);
    FindWithout(l.items, key, key);
    if Find(l.items, key).Some? {
      var pl := Step(l, Get(key)).0.items;
      assert pl[1..] == Without(l.items, key);
      SubSkip(s.items, pl);
    }
  }

  lemma StepRelated(s: State, l: State, op: Op)
    requires Related(s, l)
    ensures Related(Step(s, op).0, Step(l, op).0)
    ensures Step(s, op).1 != Nil ==> Step(l, op).1 == Step(s, op).1
  {
    StepValid(s, op);
    StepValid(l, op);
    if s.closed || op.Close? {
      return;
    }
    SubFind(s.items, l.items, op.key);
    if op.Delete? {
      SubWithout(s.items, l.items, op.key);
      FindWithout(s.items, op.key, op.key);
      FindWithout(l.items, op.key, op.key);
    } else if Find(s.items, op.key).Some? {
      HitRelated(s, l, Entry(op.key, if op.Set? then op.value else Find(s.items, op.key).value));
    } else if op.Set? {
      SetMissRelated(s, l, Entry(op.key, op.value));
    } else {
      GetMissRelated(s, l, op.key);
    }
  }

  lemma {:induction false} AfterRelated(m: int, n: int, history: seq<Op>)
    requires (if m >= 1 then m else 1024) <= (if n >= 1 then n else 1024)
    ensures Related(After(m, history), After(n, history))
  {
    if history != [] {
      var prev := history[..|history| - 1];
      AfterRelated(m, n, prev);
      StepRelated(After(m, prev), After(n, prev), history[|history| - 1]);
    }
  }

  /** Whatever the smaller cache holds, the larger one holds with the same value. */
  lemma Inclusion(m: int, n: int, history: seq<Op>, key: string)
    requires (if m >= 1 then m else 1024) <= (if n >= 1 then n else 1024)
    ensures var small, large := After(m, history).items, After(n, history).items;
            Find(small, key).Some? ==> Find(large, key) == Find(small, key)
  {
    AfterRelated(m, n, history);
    SubFind(After(m, history).items, After(n, history).items, key);
  }

  /** Over one history, a non-nil answer of the smaller cache is the larger cache's answer too. */
  lemma InclusionOfHits(m: int, n: int, history: seq<Op>, i: nat)
    requires (if m >= 1 then m else 1024) <= (if n >= 1 then n else 1024) && i < |history|
    ensures Output(m, history, i) != Nil ==> Output(n, history, i) == Output(m, history, i)
  {
    AfterRelated(m, n, history[..i]);
    StepRelated(After(m, history[..i]), After(n, history[..i]), history[i]);
  }

  // ---------------------------------------------------------------- retention

  /** The value of the latest Set of `key` in `history`. */
  function LastSet(history: seq<Op>, key: string): Option<Any> {
    if history == [] then None
    else
      var op := history[|history| - 1];
      if op.Set? && op.key == key then Some(op.value)
      else LastSet(history[..|history| - 1], key)
  }

  /** Keys set, or read with a hit, at or after position `from`. */
  function Touched(limit: int, history: seq<Op>, from: nat): set<string>
    requires from <= |history|
    decreases |history|
  {
    if |history| == from then {}
    else
      var prev, op := history[..|history| - 1], history[|history| - 1];
      Touched(limit, prev, from) +
      (if op.Set? || (op.Get? && Find(After(limit, prev).items, op.key).Some?) then {op.key} else {})
  }

  /** The keys more recent than `key`. */
  function Ahead(items: seq<Entry>, key: string): set<string> {
    if items == [] || items[0].key == key then {} else {items[0].key} + Ahead(items[1..], key)
  }

  /** A cached value is never stale: it is the value last set for its key. */
  lemma {:induction false} Coherence(limit: int, history: seq<Op>, key: string)
    ensures var found := Find(After(limit, history).items, key);
            found.Some? ==> found == LastSet(history, key)
  {
    if history != [] {
      var prev, op := history[..|history| - 1], history[|history| - 1];
      var s := After(limit, prev);
      AfterValid(limit, prev);
      StepValid(s, op);
      Coherence(limit, prev, key);
      if !s.closed && !op.Close? {
        FindWithout(s.items, op.key, key);
        if op.Set? && Find(s.items, op.key).None? {
          var all := [Entry(op.key, op.value)] + s.items;
          assert all[1..] == s.items;
          FindTake(all, if |all| <= s.limit then |all| else s.limit, key);
        }
        var w := Without(s.items, op.key);
        assert forall e: Entry :: ([e] + w)[1..] == w;
      }
    }
  }

  function Position(items: seq<Entry>, key: string): nat {
    if items == [] || items[0].key == key then 0 else 1 + Position(items[1..], key)
  }

  lemma {:induction false} AheadIsPosition(items: seq<Entry>, key: string)
    requires Distinct(items)
    ensures |Ahead(items, key)| == Position(items, key)
    ensures forall k :: k in Ahead(items, key) ==> Find(items, k).Some?
  {
    if items != [] && items[0].key != key {
      AheadIsPosition(items[1..], key);
      assert items[0].key !in Ahead(items[1..], key);
    }
  }

  /** Cutting the sequence behind `key` leaves it and what is ahead of it in place. */
  lemma {:induction false} AheadTake(items: seq<Entry>, key: string, n: nat)
    requires Find(items, key).Some?
    requires Position(items, key) < n <= |items|
    ensures Find(items[..n], key).Some? && Ahead(items[..n], key) == Ahead(items, key)
  {
    if items[0].key != key {
      assert items[..n][1..] == items[1..][..n - 1];
      AheadTake(items[1..], key, n - 1);
    }
  }

  lemma {:induction false} AheadWithout(items: seq<Entry>, key: string, removed: string)
    requires Distinct(items) && key != removed
    ensures Ahead(Without(items, removed), key) <= Ahead(items, key)
  {
    if items != [] && items[0].key != key {
      if items[0].key != removed {
        AheadWithout(items[1..], key, removed);
        assert Without(items, removed)[1..] == Without(items[1..], removed);
      }
    }
  }

  predicate Retained(s: State, key: string, touched: set<string>) {
    !s.closed && Find(s.items, key).Some? && Ahead(s.items, key) <= touched - {key}
  }

  /** One operation that neither deletes `key` nor closes the cache. */
  lemma StepRetains(s: State, op: Op, key: string, touched: set<string>, touched': set<string>)
    requires Valid(s) && Retained(s, key, touched)
    requires !op.Close? && op != Delete(key)
    requires touched <= touched'
    requires op.Set? || (op.Get? && Find(s.items, op.key).Some?) ==> op.key in touched'
    requires |touched' - {key}| < s.limit
    ensures Retained(Step(s, op).0, key, touched')
  {
    FindWithout(s.items, op.key, key);
    if op.Delete? {
      AheadWithout(s.items, key, op.key);
    } else if Find(s.items, op.key).Some? {
      var e := Entry(op.key, if op.Set? then op.value else Find(s.items, op.key).value);
      AheadOfFront(e, Without(s.items, op.key), key);
      if op.key != key {
        AheadWithout(s.items, key, op.key);
      }
    } else if op.Set? {
      PushRetains(s, Entry(op.key, op.value), key, touched');
    }
  }

  lemma AheadOfFront(e: Entry, items: seq<Entry>, key: string)
    ensures Find([e] + items, key) == if e.key == key then Some(e.value) else Find(items, key)
    ensures Ahead([e] + items, key) == if e.key == key then {} else {e.key} + Ahead(items, key)
  {
    assert ([e] + items)[1..] == items;
  }

  lemma PushRetains(s: State, e: Entry, key: string, touched: set<string>)
    requires Valid(s) && Retained(s, key, touched)
    requires Find(s.items, e.key).None? && e.key in touched
    requires |touched - {key}| < s.limit
    ensures Retained(s.(items := Truncate([e] + s.items, s.limit)), key, touched)
  {
    var all := [e] + s.items;
    AheadOfFront(e, s.items, key);
    AheadOfFront(e, s.items, e.key);
    assert all[1..] == s.items;
    SubsetSize(Ahead(all, key), touched - {key});
    AheadIsPosition(all, key);
    if |all| > s.limit {
      AheadTake(all, key, s.limit);
    }
  }

  lemma {:induction false} SubsetSize(a: set<string>, b: set<string>)
    requires a <= b
    ensures |a| <= |b|
  {
    if a != {} {
      var x :| x in a;
      SubsetSize(a - {x}, b - {x});
    }
  }

  /** At `from`, in an open cache, `key` was set or hit; nothing since then deletes it or closes. */
  predicate KeptSince(limit: int, history: seq<Op>, from: nat, key: string) {
    && from < |history|
    && !After(limit, history[..from]).closed
    && (history[from].Set? || (history[from].Get? && Find(After(limit, history[..from]).items, key).Some?))
    && history[from].key == key
    && (forall i :: from < i < |history| ==> !history[i].Close? && history[i] != Delete(key))
  }

  lemma FirstTouch(s: State, op: Op, key: string)
    requires Valid(s) && !s.closed
    requires op.Set? || (op.Get? && Find(s.items, key).Some?)
    requires op.key == key
    ensures Retained(Step(s, op).0, key, {})
  {
    StepValid(s, op);
    AheadOfFront(Step(s, op).0.items[0], Step(s, op).0.items[1..], key);
    assert Step(s, op).0.items == [Step(s, op).0.items[0]] + Step(s, op).0.items[1..];
  }

  lemma {:induction false} StaysRetained(limit: int, history: seq<Op>, from: nat, key: string)
    requires KeptSince(limit, history, from, key)
    requires |Touched(limit, history, from + 1) - {key}| < (if limit >= 1 then limit else 1024)
    ensures Retained(After(limit, history), key, Touched(limit, history, from + 1))
  {
    var prev, op := history[..|history| - 1], history[|history| - 1];
    AfterValid(limit, prev);
    if |history| == from + 1 {
      assert prev == history[..from];
      FirstTouch(After(limit, prev), op, key);
    } else {
      assert prev[..from] == history[..from];
      SubsetSize(Touched(limit, prev, from + 1) - {key}, Touched(limit, history, from + 1) - {key});
      StaysRetained(limit, prev, from, key);
      StepRetains(After(limit, prev), op, key, Touched(limit, prev, from + 1), Touched(limit, history, from + 1));
    }
  }

  /**
    If fewer than `limit` distinct other keys (1024, if the limit is not positive) were touched since
    `key` was last set or hit, and neither Delete(key) nor Close happened since, then Get(key) returns
    the value last set for it.
   */
  lemma Retention(limit: int, history: seq<Op>, from: nat, key: string)
    requires KeptSince(limit, history, from, key)
    requires |Touched(limit, history, from + 1) - {key}| < (if limit >= 1 then limit else 1024)
    ensures LastSet(history, key).Some?
    ensures Step(After(limit, history), Get(key)).1 == LastSet(history, key).value
  {
    StaysRetained(limit, history, from, key);
    Coherence(limit, history, key);
  }
}
