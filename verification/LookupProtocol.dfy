/**
  All interleavings of lookups, acks, timeouts and deferred deletes of one client.
  An ack touches each channel at most once, so treating it as one step loses no interleaving with
  the unlocked receives.
 */
module LookupProtocol {
  import opened Common
  import opened Lookup

  datatype Outcome = Got(list: seq<Option<Service>>) | Failed

  datatype Phase =
    | Registered                    // entry made, LOOKUP not yet written
    | Waiting                       // in the select
    | Returning(out: Outcome)       // result decided, deferred delete still to run
    | Finished(out: Outcome)

  datatype Waiter = Waiter(name: string, group: string, phase: Phase)

  /** Waiter i owns channel i. */
  datatype State = State(
    default: string,
    pending: map<string, nat>,
    bufs: seq<Option<LookupResult>>,
    waiters: seq<Waiter>,
    closed: bool)

  datatype Step =
    | Start(name: string, group: string)
    | Sent(w: nat)
    | WriteFails(w: nat)
    | Ack(services: seq<Option<Service>>)
    | Receive(w: nat)
    | TimesOut(w: nat)
    | Cleanup(w: nat)
    | Close

  function Init(default: string): State {
    State(default, map[], [], [], false)
  }

  /** lookup replaces an empty group by the client's own. */
  function GroupOf(default: string, group: string): string {
    if group == "" then default else group
  }

  function KeyOf(w: Waiter): string {
    LookupKey(w.name, w.group)
  }

  predicate Enabled(s: State, step: Step) {
    match step
    case Start(_, _) => true
    case Ack(_) => true
    case Close => true
    case Sent(w) => w < |s.waiters| && s.waiters[w].phase.Registered?
    case WriteFails(w) => w < |s.waiters| && s.waiters[w].phase.Registered?
    case Receive(w) => w < |s.waiters| && s.waiters[w].phase.Waiting? && w < |s.bufs| && s.bufs[w].Some?
    case TimesOut(w) => w < |s.waiters| && s.waiters[w].phase.Waiting?
    case Cleanup(w) => w < |s.waiters| && s.waiters[w].phase.Returning?
  }

  function Move(s: State, w: nat, p: Phase): State
    requires w < |s.waiters|
  {
    s.(waiters := s.waiters[w := s.waiters[w].(phase := p)])
  }

  ghost function Apply(s: State, step: Step): State
    requires Enabled(s, step)
  {
    match step
    case Start(name, group) =>
      var g := GroupOf(s.default, group);
      var key := LookupKey(name, g);
      if Atoi(g).None? || key in s.pending then s
      else s.(pending := s.pending[key := |s.bufs|], bufs := s.bufs + [None],
              waiters := s.waiters + [Waiter(name, g, Registered)])
    case Sent(w) => Move(s, w, Waiting)
    case WriteFails(w) => Move(s, w, Returning(Failed))
    case Ack(services) => s.(bufs := AckBufs(s.pending, s.bufs, s.default, services))
    case Receive(w) =>
      var out := match s.bufs[w].value case Services(list) => Got(list) case ClientClosed => Failed;
      Move(s, w, Returning(out)).(bufs := s.bufs[w := None])
    case TimesOut(w) => Move(s, w, Returning(Failed))
    case Cleanup(w) =>
      Move(s, w, Finished(s.waiters[w].phase.out)).(pending := s.pending - {KeyOf(s.waiters[w])})
    case Close => s.(pending := map[], bufs := CloseBufs(s.pending, s.bufs), closed := true)
  }

  ghost function Exec(default: string, run: seq<Step>): Option<State> {
    if run == [] then Some(Init(default))
    else
      var before := Exec(default, run[..|run| - 1]);
      if before.Some? && Enabled(before.value, run[|run| - 1])
      then Some(Apply(before.value, run[|run| - 1])) else None
  }

  // ---------------------------------------------------------------- entries and waiters

  /**
    Every entry points to a lookup of that key that has not cleaned up; before Close every such lookup
    has its entry, so the two are in bijection.
   */
  predicate Bijection(s: State) {
    && |s.bufs| == |s.waiters|
    && (forall key :: key in s.pending ==>
          && s.pending[key] < |s.waiters| && KeyOf(s.waiters[s.pending[key]]) == key
          && !s.waiters[s.pending[key]].phase.Finished?)
    && (!s.closed ==>
          forall w :: 0 <= w < |s.waiters| && !s.waiters[w].phase.Finished? ==>
            KeyOf(s.waiters[w]) in s.pending && s.pending[KeyOf(s.waiters[w])] == w)
  }

  lemma BijectionStep(s: State, step: Step)
    requires Bijection(s) && Enabled(s, step)
    ensures Bijection(Apply(s, step))
  {
    hide LookupKey, Atoi;
  }

  lemma {:induction false} AlwaysBijection(default: string, run: seq<Step>)
    requires Exec(default, run).Some?
    ensures Bijection(Exec(default, run).value)
  {
    if run != [] {
      var last := |run| - 1;
      AlwaysBijection(default, run[..last]);
      BijectionStep(Exec(default, run[..last]).value, run[last]);
    }
  }

  /** Before Close, a lookup is refused exactly if its group is no number or another of its key is unfinished. */
  lemma StartIff(default: string, run: seq<Step>, name: string, group: string)
    requires Exec(default, run).Some? && !Exec(default, run).value.closed
    ensures var s := Exec(default, run).value;
            var s', g := Apply(s, Start(name, group)), if group == "" then s.default else group;
            if Atoi(g).Some? &&
               forall w :: 0 <= w < |s.waiters| && KeyOf(s.waiters[w]) == LookupKey(name, g) ==> s.waiters[w].phase.Finished?
            then s'.waiters == s.waiters + [Waiter(name, g, Registered)] && s'.bufs == s.bufs + [None]
            else s' == s
  {
    AlwaysBijection(default, run);
    hide Exec, LookupKey, Atoi;
  }

  /** The lookup v, still to clean up, loses its entry to w's deferred delete. */
  ghost predicate Takes(s: State, w: nat, v: nat)
    requires Enabled(s, Cleanup(w))
  {
    && v < |s.waiters| && v != w && !s.waiters[v].phase.Finished?
    && KeyOf(s.waiters[v]) in s.pending && s.pending[KeyOf(s.waiters[v])] == v
    && KeyOf(s.waiters[v]) !in Apply(s, Cleanup(w)).pending
  }

  ghost predicate TakesAnother(s: State, w: nat)
    requires Enabled(s, Cleanup(w))
  {
    exists v :: Takes(s, w, v)
  }

  /**
    In every run, Close included: a deferred delete takes another lookup's entry if and only if the
    entry under its key is not its own, which the code does not look at.
   */
  lemma CleanupTakesAnotherIff(default: string, run: seq<Step>, w: nat)
    requires Exec(default, run).Some? && Enabled(Exec(default, run).value, Cleanup(w))
    ensures var s := Exec(default, run).value;
            TakesAnother(s, w) <==>
            KeyOf(s.waiters[w]) in s.pending && s.pending[KeyOf(s.waiters[w])] != w
  {
    AlwaysBijection(default, run);
    var s := Exec(default, run).value;
    hide Exec, LookupKey;
    var key := KeyOf(s.waiters[w]);
    if key in s.pending && s.pending[key] != w {
      assert Takes(s, w, s.pending[key]);
    }
    if v: nat :| Takes(s, w, v) {
      assert KeyOf(s.waiters[v]) == key;
    }
  }

  /** Before Close it removes its own entry and no other. */
  lemma CleanupRemovesOnlyItsOwn(default: string, run: seq<Step>, w: nat)
    requires Exec(default, run).Some? && !Exec(default, run).value.closed
    requires Enabled(Exec(default, run).value, Cleanup(w))
    ensures !TakesAnother(Exec(default, run).value, w)
  {
    AlwaysBijection(default, run);
    CleanupTakesAnotherIff(default, run, w);
  }

  datatype Entry = Own | Gone | Newer

  /**
    What a step makes of the entry under `key`, `keys` being the keys of the lookups by number: Close
    and the deferred delete of any lookup of that key remove it, and a Start of the key after a removal
    makes a newer one.
   */
  function EntryAfter(default: string, step: Step, key: string, e: Entry, keys: seq<string>): Entry {
    match step
    case Close => Gone
    case Cleanup(u) => if u < |keys| && keys[u] == key then Gone else e
    case Start(name, group) =>
      var g := GroupOf(default, group);
      if e.Gone? && Atoi(g).Some? && LookupKey(name, g) == key then Newer else e
    case _ => e
  }

  /** What has become of a lookup's entry in the steps since it was made. */
  function EntrySince(since: seq<Step>, default: string, key: string, keys: seq<string>): Entry {
    if since == [] then Own
    else
      EntryAfter(default, since[|since| - 1], key, EntrySince(since[..|since| - 1], default, key, keys), keys)
  }

  predicate KeysAre(s: State, keys: seq<string>) {
    |s.waiters| <= |keys| && forall u :: 0 <= u < |s.waiters| ==> keys[u] == KeyOf(s.waiters[u])
  }

  predicate EntryIs(s: State, w: nat, key: string, e: Entry) {
    match e
    case Own => key in s.pending && s.pending[key] == w
    case Gone => key !in s.pending
    case Newer => key in s.pending && s.pending[key] != w
  }

  /** Lookups keep their keys. */
  lemma KeysKept(s: State, step: Step, keys: seq<string>)
    requires Enabled(s, step) && KeysAre(Apply(s, step), keys)
    ensures KeysAre(s, keys)
  {
    hide LookupKey, Atoi;
    var s' := Apply(s, step);
    assert |s.waiters| <= |s'.waiters|;
    forall u | 0 <= u < |s.waiters|
      ensures keys[u] == KeyOf(s.waiters[u])
    {
      assert KeyOf(s'.waiters[u]) == KeyOf(s.waiters[u]);
    }
  }

  lemma {:induction false} EntryTracked(default: string, before: seq<Step>, since: seq<Step>, w: nat, keys: seq<string>)
    requires Exec(default, before).Some? && w < |Exec(default, before).value.waiters|
    requires EntryIs(Exec(default, before).value, w, KeyOf(Exec(default, before).value.waiters[w]), Own)
    requires Exec(default, before + since).Some? && KeysAre(Exec(default, before + since).value, keys)
    ensures w < |Exec(default, before + since).value.waiters|
    ensures var key := KeyOf(Exec(default, before).value.waiters[w]);
            EntryIs(Exec(default, before + since).value, w, key, EntrySince(since, default, key, keys))
  {
    var key := KeyOf(Exec(default, before).value.waiters[w]);
    if since == [] {
      assert before + since == before;
    } else {
      var prev, step := since[..|since| - 1], since[|since| - 1];
      assert (before + since)[..|before + since| - 1] == before + prev;
      assert (before + since)[|before + since| - 1] == step;
      var s := Exec(default, before + prev).value;
      KeysKept(s, step, keys);
      EntryTracked(default, before, prev, w, keys);
      AlwaysBijection(default, before + prev);
      AlwaysContent(default, before + prev);
      EntryStep(s, step, w, key, EntrySince(prev, default, key, keys), keys);
    }
  }

  /** One step of that. */
  lemma EntryStep(s: State, step: Step, w: nat, key: string, e: Entry, keys: seq<string>)
    requires Enabled(s, step) && |s.bufs| == |s.waiters| && w < |s.waiters|
    requires KeysAre(s, keys) && EntryIs(s, w, key, e)
    ensures w < |Apply(s, step).waiters|
    ensures EntryIs(Apply(s, step), w, key, EntryAfter(s.default, step, key, e, keys))
  {
    hide LookupKey, Atoi;
  }

  function KeysOfAll(s: State): seq<string> {
    seq(|s.waiters|, u requires 0 <= u < |s.waiters| => KeyOf(s.waiters[u]))
  }

  /**
    In terms of the run: from the moment lookup w has its entry, its deferred delete takes another
    lookup's entry if and only if, since then, the entry was removed and a newer one made for the same
    key, by the last of the steps that do either.
   */
  lemma LateDeleteIff(default: string, before: seq<Step>, since: seq<Step>, w: nat)
    requires Exec(default, before).Some? && w < |Exec(default, before).value.waiters|
    requires EntryIs(Exec(default, before).value, w, KeyOf(Exec(default, before).value.waiters[w]), Own)
    requires Exec(default, before + since).Some? && Enabled(Exec(default, before + since).value, Cleanup(w))
    ensures var s := Exec(default, before + since).value;
            TakesAnother(s, w) <==>
            EntrySince(since, default, KeyOf(s.waiters[w]), KeysOfAll(s)) == Newer
  {
    var s := Exec(default, before + since).value;
    CleanupTakesAnotherIff(default, before + since, w);
    EntryTracked(default, before, since, w, KeysOfAll(s));
    KeyStays(default, before, since, w);
  }

  lemma {:induction false} KeyStays(default: string, before: seq<Step>, since: seq<Step>, w: nat)
    requires Exec(default, before).Some? && w < |Exec(default, before).value.waiters|
    requires Exec(default, before + since).Some?
    ensures w < |Exec(default, before + since).value.waiters|
    ensures KeyOf(Exec(default, before + since).value.waiters[w]) == KeyOf(Exec(default, before).value.waiters[w])
  {
    if since == [] {
      assert before + since == before;
    } else {
      var prev, step := since[..|since| - 1], since[|since| - 1];
      assert (before + since)[..|before + since| - 1] == before + prev;
      assert (before + since)[|before + since| - 1] == step;
      KeyStays(default, before, prev, w);
      hide LookupKey, Atoi;
    }
  }

  /** After Close that fails: the delete of a lookup from before Close takes a newer lookup's entry. */
  lemma LateDelete(name: string, group: string)
    requires Atoi(group).Some?
    ensures var run := [Start(name, group), Sent(0), Close, Start(name, group), Receive(0), Cleanup(0)];
            && Exec(group, run).Some?
            && var s := Exec(group, run).value;
               |s.waiters| == 2 && s.waiters[1].phase.Registered? && KeyOf(s.waiters[1]) !in s.pending
  {
    hide LookupKey, Atoi;
    var key := LookupKey(name, group);
    var r1 := [Start(name, group)];
    var r2 := r1 + [Sent(0)];
    var r3 := r2 + [Close];
    var r4 := r3 + [Start(name, group)];
    var r5 := r4 + [Receive(0)];
    ExecSnoc(group, [], Start(name, group));
    var s1 := Apply(Init(group), Start(name, group));
    assert [] + [Start(name, group)] == r1 && s1.pending == map[key := 0] && key in s1.pending;
    ExecSnoc(group, r1, Sent(0));
    var s2 := Apply(s1, Sent(0));
    ExecSnoc(group, r2, Close);
    var s3 := Apply(s2, Close);
    assert s2.pending[key] == 0 && s3.bufs[0] == Some(ClientClosed);
    ExecSnoc(group, r3, Start(name, group));
    var s4 := Apply(s3, Start(name, group));
    ExecSnoc(group, r4, Receive(0));
    ExecSnoc(group, r5, Cleanup(0));
    assert r5 + [Cleanup(0)] ==
           [Start(name, group), Sent(0), Close, Start(name, group), Receive(0), Cleanup(0)];
  }

  lemma ExecSnoc(default: string, run: seq<Step>, step: Step)
    requires Exec(default, run).Some? && Enabled(Exec(default, run).value, step)
    ensures Exec(default, run + [step]) == Some(Apply(Exec(default, run).value, step))
  {
    assert (run + [step])[..|run|] == run;
  }

  // ---------------------------------------------------------------- soundness

  /** The services a lookup came back with. */
  function ResultOf(w: Waiter): Option<seq<Option<Service>>> {
    if (w.phase.Returning? || w.phase.Finished?) && w.phase.out.Got? then Some(w.phase.out.list) else None
  }

  /** What a waiter's channel holds, or it has received, was addressed to it. */
  predicate WaiterOk(default: string, w: Waiter, buf: Option<LookupResult>) {
    && Atoi(w.group).Some?
    && (buf.Some? && buf.value.Services? ==> Addressed(buf.value.list, default, KeyOf(w)))
    && (ResultOf(w).Some? ==> Addressed(ResultOf(w).value, default, KeyOf(w)))
  }

  predicate ContentOk(s: State) {
    && |s.bufs| == |s.waiters|
    && (forall key :: key in s.pending ==>
          s.pending[key] < |s.waiters| && KeyOf(s.waiters[s.pending[key]]) == key)
    && (forall w :: 0 <= w < |s.waiters| ==> WaiterOk(s.default, s.waiters[w], s.bufs[w]))
  }

  /** What an ack leaves in channel w is what was there, or the ack itself if it was addressed to w. */
  lemma AckContent(s: State, services: seq<Option<Service>>, w: nat)
    requires ContentOk(s) && w < |s.bufs|
    ensures var buf := AckBufs(s.pending, s.bufs, s.default, services)[w];
            buf == s.bufs[w] ||
            (buf == Some(Services(services)) && Addressed(services, s.default, KeyOf(s.waiters[w])))
  {
  }

  lemma ContentStep(s: State, step: Step)
    requires ContentOk(s) && Enabled(s, step)
    ensures ContentOk(Apply(s, step))
  {
    hide LookupKey, Atoi, Addressed;
    var s' := Apply(s, step);
    forall w | 0 <= w < |s'.waiters|
      ensures WaiterOk(s'.default, s'.waiters[w], s'.bufs[w])
    {
      if w < |s.waiters| {
        assert WaiterOk(s.default, s.waiters[w], s.bufs[w]);
        if step.Ack? {
          AckContent(s, step.services, w);
        }
      }
    }
  }

  lemma {:induction false} AlwaysContent(default: string, run: seq<Step>)
    requires Exec(default, run).Some?
    ensures ContentOk(Exec(default, run).value) && Exec(default, run).value.default == default
  {
    if run != [] {
      var last := |run| - 1;
      AlwaysContent(default, run[..last]);
      ContentStep(Exec(default, run[..last]).value, run[last]);
    }
  }

  lemma AtoiNoAt(g: string)
    requires Atoi(g).Some?
    ensures '@' !in g
  {
    var signed := g[0] == '-' || g[0] == '+';
    var d := if signed then g[1..] else g;
    assert forall i :: 0 <= i < |g| ==> g[i] != '@' by {
      forall i | 0 <= i < |g|
        ensures g[i] != '@'
      {
        if i > 0 || !signed {
          assert g[i] == d[if signed then i - 1 else i];
        }
      }
    }
  }

  /** Keys are unambiguous when neither group contains '@' ... */
  lemma KeyInjective(name: string, group: string, name': string, group': string)
    requires LookupKey(name, group) == LookupKey(name', group')
    requires '@' !in group && '@' !in group'
    ensures name == name' && group == group'
  {
    var key := LookupKey(name, group);
    assert key[|name|] == '@' && key[|name'|] == '@';
    assert forall k :: |name| < k < |key| ==> key[k] == group[k - |name| - 1];
    assert forall k :: |name'| < k < |key| ==> key[k] == group'[k - |name'| - 1];
    assert name == key[..|name|] == name' && group == key[|name| + 1..] == group';
  }

  /** ... or when one side has no '@' in either part. */
  lemma KeyPlain(name: string, group: string, name': string, group': string)
    requires LookupKey(name, group) == LookupKey(name', group')
    requires '@' !in name && '@' !in group
    ensures name == name'
  {
    var key := LookupKey(name, group);
    assert key[|name'|] == '@';
    assert forall k :: 0 <= k < |name| ==> key[k] == name[k];
    assert forall k :: |name| < k < |key| ==> key[k] == group[k - |name| - 1];
    assert name == key[..|name|] == name';
  }

  predicate NoAtInGroups(services: seq<Option<Service>>) {
    forall j :: 0 <= j < |services| && services[j].Some? ==> '@' !in services[j].value.group
  }

  /** Among services addressed to (name, group) there is one of that name. */
  lemma AddressedHasName(services: seq<Option<Service>>, default: string, name: string, group: string)
    requires services != [] && Addressed(services, default, LookupKey(name, group))
    requires Atoi(group).Some?
    requires '@' !in name || ('@' !in default && NoAtInGroups(services))
    ensures IsFirstNamed(services, name, Select(services, name))
  {
    var key := LookupKey(name, group);
    var j :| 0 <= j < |services| && services[j].Some? && key in KeysOf(services[j].value, default);
    var svc := services[j].value;
    AtoiNoAt(group);
    var g :| g in [svc.group, default, ""] && LookupKey(svc.name, g) == key;
    if '@' !in name {
      KeyPlain(name, group, svc.name, g);
    } else {
      KeyInjective(name, group, svc.name, g);
    }
    SelectsFirst(services, name, j);
  }

  /**
    Soundness, in every interleaving: if the name asked for contains no '@', or if no group name in
    the services received nor the client's own does, then GetService answers with the first of the
    services received that has the name asked for, or with an error when there were none. The fallback
    to the first service of another name is not taken.
   */
  lemma Soundness(default: string, run: seq<Step>, w: nat)
    requires Exec(default, run).Some? && w < |Exec(default, run).value.waiters|
    requires var waiter := Exec(default, run).value.waiters[w];
             && ResultOf(waiter).Some?
             && ('@' !in waiter.name || ('@' !in default && NoAtInGroups(ResultOf(waiter).value)))
    ensures var waiter := Exec(default, run).value.waiters[w];
            var r := Select(ResultOf(waiter).value, waiter.name);
            if ResultOf(waiter).value == [] then r == NotFound
            else IsFirstNamed(ResultOf(waiter).value, waiter.name, r)
  {
    AlwaysContent(default, run);
    var s := Exec(default, run).value;
    var list := ResultOf(s.waiters[w]).value;
    if list != [] {
      AddressedHasName(list, default, s.waiters[w].name, s.waiters[w].group);
    }
  }

  /** The run in which one lookup is answered by one ack. */
  function Answered(name: string, group: string, services: seq<Option<Service>>): seq<Step> {
    [Start(name, group), Sent(0), Ack(services), Receive(0)]
  }

  lemma AnsweredRun(default: string, name: string, group: string, services: seq<Option<Service>>)
    requires var g := GroupOf(default, group);
             Atoi(g).Some? && Addressed(services, default, LookupKey(name, g))
    ensures var s := Exec(default, Answered(name, group, services));
            && s.Some? && |s.value.waiters| == 1
            && s.value.waiters[0] == Waiter(name, if group == "" then default else group, Returning(Got(services)))
  {
    hide LookupKey, Atoi, Addressed;
    var key := LookupKey(name, GroupOf(default, group));
    var r1 := [Start(name, group)];
    var r2 := r1 + [Sent(0)];
    var r3 := r2 + [Ack(services)];
    ExecSnoc(default, [], Start(name, group));
    var s1 := Apply(Init(default), Start(name, group));
    assert [] + [Start(name, group)] == r1 && s1.pending == map[key := 0] && key in s1.pending;
    ExecSnoc(default, r1, Sent(0));
    var s2 := Apply(s1, Sent(0));
    ExecSnoc(default, r2, Ack(services));
    var s3 := Apply(s2, Ack(services));
    assert s2.pending[key] == 0 && Hit(s2.pending, default, services, 0);
    assert s3.bufs[0] == Some(Services(services));
    ExecSnoc(default, r3, Receive(0));
    assert r3 + [Receive(0)] == Answered(name, group, services);
  }

  /** Whatever the client hears about this lookup, GetService does not fall back to a service of another name. */
  ghost predicate AlwaysRightName(default: string, name: string, group: string) {
    forall services: seq<Option<Service>> ::
      services != [] && Addressed(services, default, LookupKey(name, group)) ==>
        var r := Select(services, name);
        r.Found? && r.svc.Some? && r.svc.value.name == name
  }

  /** The service that is mistaken for (name, group) when name contains '@' at position i. */
  function Impostor(name: string, group: string, i: nat): Service
    requires i < |name|
  {
    Service(name[..i], name[i + 1..] + "@" + group, [])
  }

  lemma ImpostorIsAddressed(default: string, name: string, group: string, i: nat)
    requires i < |name| && name[i] == '@'
    ensures var services := [Some(Impostor(name, group, i))];
            && Addressed(services, default, LookupKey(name, group))
            && Select(services, name) == Found(Some(Impostor(name, group, i)))
            && Impostor(name, group, i).name != name
  {
    var other, key := Impostor(name, group, i), LookupKey(name, group);
    var services := [Some(other)];
    assert LookupKey(other.name, other.group) == key by {
      assert name == name[..i] + "@" + name[i + 1..];
    }
    assert KeysOf(services[0].value, default)[0] == key;
    assert Names(services, default, key);
    assert |other.name| < |name|;
    assert FirstNamed(services, name).None?;
  }

  /**
    Exactly when a caller can rely on the name: asking for (name, group) with a numeric group is safe
    against every ack if and only if the name contains no '@'. Otherwise an ack naming one service,
    whose group contains '@', reaches the lookup and makes GetService return that other service.
   */
  lemma RightNameIff(default: string, name: string, group: string)
    requires Atoi(GroupOf(default, group)).Some?
    ensures AlwaysRightName(default, name, GroupOf(default, group)) <==> '@' !in name
    ensures forall i :: 0 <= i < |name| && name[i] == '@' ==>
              var services := [Some(Impostor(name, GroupOf(default, group), i))];
              var s := Exec(default, Answered(name, group, services));
              && s.Some? && |s.value.waiters| == 1 && ResultOf(s.value.waiters[0]) == Some(services)
              && Select(services, name).svc.value.name != name
  {
    var g := GroupOf(default, group);
    hide Atoi, LookupKey, Addressed, Select, Exec, GroupOf;
    if '@' !in name {
      forall services: seq<Option<Service>> | services != [] && Addressed(services, default, LookupKey(name, g))
        ensures var r := Select(services, name); r.Found? && r.svc.Some? && r.svc.value.name == name
      {
        SelectAddressed(services, default, name, g);
      }
    }
    forall i | 0 <= i < |name| && name[i] == '@'
      ensures var services := [Some(Impostor(name, g, i))];
              var s := Exec(default, Answered(name, group, services));
              && s.Some? && |s.value.waiters| == 1 && ResultOf(s.value.waiters[0]) == Some(services)
              && Select(services, name) == Found(Some(Impostor(name, g, i)))
              && Impostor(name, g, i).name != name
              && Addressed(services, default, LookupKey(name, g))
    {
      ImpostorIsAddressed(default, name, g, i);
      AnsweredRun(default, name, group, [Some(Impostor(name, g, i))]);
    }
  }

  lemma SelectAddressed(services: seq<Option<Service>>, default: string, name: string, group: string)
    requires services != [] && Addressed(services, default, LookupKey(name, group))
    requires Atoi(group).Some? && '@' !in name
    ensures var r := Select(services, name); r.Found? && r.svc.Some? && r.svc.value.name == name
  {
    AddressedHasName(services, default, name, group);
  }

  // ---------------------------------------------------------------- wake-up

  predicate NotYetReceived(s: State, w: nat) {
    w < |s.waiters| && (s.waiters[w].phase.Registered? || s.waiters[w].phase.Waiting?)
  }

  /** The ack names the waiter's service in its group (or in the client's own group), or is empty. */
  predicate AckFor(s: State, w: nat, services: seq<Option<Service>>)
    requires w < |s.waiters|
  {
    services == [] ||
    exists j :: 0 <= j < |services| && services[j].Some? &&
      services[j].value.name == s.waiters[w].name &&
      (services[j].value.group == s.waiters[w].group || s.default == s.waiters[w].group)
  }

  /** Such an ack leaves something in the waiter's channel. */
  lemma AckWakes(default: string, run: seq<Step>, w: nat, services: seq<Option<Service>>)
    requires Exec(default, run).Some? && !Exec(default, run).value.closed
    requires NotYetReceived(Exec(default, run).value, w) && AckFor(Exec(default, run).value, w, services)
    ensures var s' := Apply(Exec(default, run).value, Ack(services));
            w < |s'.bufs| && (var was := Exec(default, run).value.bufs[w]; s'.bufs[w] == if was.None? then Some(Services(services)) else was)
  {
    AlwaysBijection(default, run);
    var s := Exec(default, run).value;
    var key := KeyOf(s.waiters[w]);
    assert w < |s.bufs| && key in s.pending && s.pending[key] == w;
    hide Exec, Bijection;
    if services != [] {
      var j :| 0 <= j < |services| && services[j].Some? &&
        services[j].value.name == s.waiters[w].name &&
        (services[j].value.group == s.waiters[w].group || s.default == s.waiters[w].group);
      assert key == KeysOf(services[j].value, s.default)[if services[j].value.group == s.waiters[w].group then 0 else 1];
      assert Names(services, s.default, key);
    }
    assert Addressed(services, s.default, key);
    assert Hit(s.pending, s.default, services, w);
  }

  /** Close wakes every lookup that has not received; one that nothing was sent to yet gets the error. */
  lemma CloseWakes(default: string, run: seq<Step>, w: nat)
    requires Exec(default, run).Some? && !Exec(default, run).value.closed
    requires NotYetReceived(Exec(default, run).value, w)
    ensures var s, s' := Exec(default, run).value, Apply(Exec(default, run).value, Close);
            && w < |s.bufs| && w < |s'.bufs| && s'.pending == map[]
            && s'.bufs[w] == (if s.bufs[w].None? then Some(ClientClosed) else s.bufs[w])
  {
    AlwaysBijection(default, run);
    var s := Exec(default, run).value;
    CloseFills(s, w, KeyOf(s.waiters[w]));
    hide Exec, Bijection, KeyOf, CloseBufs;
  }

  lemma CloseFills(s: State, w: nat, key: string)
    requires key in s.pending && s.pending[key] == w < |s.bufs|
    ensures CloseBufs(s.pending, s.bufs)[w] == if s.bufs[w].None? then Some(ClientClosed) else s.bufs[w]
  {
  }

  /** What lies in a channel, or was received from it, came in an ack of the run. */
  predicate FromAcks(run: seq<Step>, w: Waiter, buf: Option<LookupResult>) {
    && (buf.Some? && buf.value.Services? ==> Ack(buf.value.list) in run)
    && (ResultOf(w).Some? ==> Ack(ResultOf(w).value) in run)
  }

  /** No lookup comes back with services, not even with none, unless an ack brought exactly them. */
  lemma {:induction false} ResultsFromAcks(default: string, run: seq<Step>, w: nat)
    requires Exec(default, run).Some? && w < |Exec(default, run).value.waiters|
    ensures w < |Exec(default, run).value.bufs|
    ensures FromAcks(run, Exec(default, run).value.waiters[w], Exec(default, run).value.bufs[w])
  {
    AlwaysBijection(default, run);
    if run != [] {
      var last := |run| - 1;
      var s := Exec(default, run[..last]).value;
      assert run == run[..last] + [run[last]];
      AlwaysBijection(default, run[..last]);
      if w < |s.waiters| {
        ResultsFromAcks(default, run[..last], w);
      }
      FromAcksStep(run[..last], s, run[last], w);
    }
  }

  lemma FromAcksStep(run: seq<Step>, s: State, step: Step, w: nat)
    requires Enabled(s, step) && |s.bufs| == |s.waiters| && w < |Apply(s, step).waiters| == |Apply(s, step).bufs|
    requires w < |s.waiters| ==> FromAcks(run, s.waiters[w], s.bufs[w])
    ensures FromAcks(run + [step], Apply(s, step).waiters[w], Apply(s, step).bufs[w])
  {
    hide LookupKey, Atoi, Addressed;
  }

  /** A lookup never hangs: a failed write or its timeout ends it with an error and frees its key. */
  lemma CanFinish(default: string, run: seq<Step>, w: nat, fails: Step)
    requires Exec(default, run).Some? && w < |Exec(default, run).value.waiters|
    requires var phase := Exec(default, run).value.waiters[w].phase;
             (phase.Registered? && fails == WriteFails(w)) || (phase.Waiting? && fails == TimesOut(w))
    ensures var r := Exec(default, run + [fails] + [Cleanup(w)]);
            && r.Some? && w < |r.value.waiters| && r.value.waiters[w].phase == Finished(Failed)
            && KeyOf(r.value.waiters[w]) !in r.value.pending
  {
    ExecSnoc(default, run, fails);
    ExecSnoc(default, run + [fails], Cleanup(w));
    hide Exec, LookupKey;
  }

  /** A filled channel keeps what it holds until its waiter receives: the first to fill it wins. */
  lemma {:induction false} StaysAwake(default: string, run: seq<Step>, more: seq<Step>, w: nat)
    requires Exec(default, run).Some? && Exec(default, run + more).Some?
    requires w < |Exec(default, run).value.bufs| && Exec(default, run).value.bufs[w].Some?
    requires forall i :: 0 <= i < |more| ==> more[i] != Receive(w)
    ensures var s := Exec(default, run + more).value;
            w < |s.bufs| && s.bufs[w] == Exec(default, run).value.bufs[w]
  {
    if more == [] {
      assert run + more == run;
    } else {
      var prev := more[..|more| - 1];
      assert (run + more)[..|run + more| - 1] == run + prev;
      StaysAwake(default, run, prev, w);
    }
  }
}
