/**
  The heartbeat goroutines of a client connection, on top of its life in Reconnect. A heartbeat is
  started by every Connect and every reconnect that succeeds. Each turn of its loop evaluates the
  connection's closeChan anew and then waits for a tick or for that channel; so a heartbeat that is busy
  writing while the connection drops and comes back goes on to watch the new connection's channel.
 */
module Heartbeat {
  import opened Common
  import R = Reconnect

  /** `Busy`: outside the select, starting or writing a packet. */
  datatype Phase = Busy | Watching(chan: nat) | Gone

  /** `born`: the channel of the connection it was started for. */
  datatype Beat = Beat(born: nat, phase: Phase)

  datatype State = State(conn: R.State, beats: seq<Beat>)

  datatype Step =
    | Conn(step: R.Step)
    | Select(h: nat)         // closeChan is evaluated
    | Tick(h: nat)           // the ticker's case is taken, possible even if the channel is closed
    | Exit(h: nat)           // the channel's case is taken

  function Start(): State {
    State(R.Start(), [])
  }

  /** The step completes a Connect or a reconnect. */
  predicate Completes(s: R.State, step: R.Step) {
    (step.ConnectInit? || step.Init?) && step.handlerOk && !s.closed
  }

  predicate Alive(t: State, h: nat) {
    h < |t.beats| && !t.beats[h].phase.Gone?
  }

  predicate Closed(s: R.State, chan: nat) {
    chan < |s.closes| && s.closes[chan] > 0
  }

  predicate Enabled(c: R.Config, t: State, step: Step) {
    match step
    case Conn(step) => R.Enabled(c, t.conn, step)
    case Select(h) => h < |t.beats| && t.beats[h].phase.Busy? && t.conn.chan.Some?
    case Tick(h) => h < |t.beats| && t.beats[h].phase.Watching?
    case Exit(h) => h < |t.beats| && t.beats[h].phase.Watching? && Closed(t.conn, t.beats[h].phase.chan)
  }

  function SetPhase(t: State, h: nat, phase: Phase): State
    requires h < |t.beats|
  {
    t.(beats := t.beats[h := t.beats[h].(phase := phase)])
  }

  function Apply(c: R.Config, t: State, step: Step): State
    requires Enabled(c, t, step)
  {
    match step
    case Conn(step) =>
      var conn := R.Apply(c, t.conn, step);
      State(conn, if Completes(t.conn, step) && conn.chan.Some?
                  then t.beats + [Beat(conn.chan.value, Busy)] else t.beats)
    case Select(h) => SetPhase(t, h, Watching(t.conn.chan.value))
    case Tick(h) => SetPhase(t, h, Busy)
    case Exit(h) => SetPhase(t, h, Gone)
  }

  function Exec(c: R.Config, t: State, run: seq<Step>): Option<State> {
    if run == [] then Some(t)
    else
      var before := Exec(c, t, run[..|run| - 1]);
      if before.Some? && Enabled(c, before.value, run[|run| - 1])
      then Some(Apply(c, before.value, run[|run| - 1])) else None
  }

  // ---------------------------------------------------------------- the invariant

  /** The current channel is the newest, and there is none before the first Connect. */
  predicate ChannelsOk(s: R.State) {
    && (s.chan.Some? ==> s.closes != [] && s.chan.value == |s.closes| - 1)
    && (s.chan.None? ==> s.closes == [])
    && (!s.connect.Done? ==> s.chan.None? && s.loops == [])
    && (s.loops != [] || s.running + s.exiting > 0 ==> s.chan.Some?)
  }

  /** A reconnect loop is between its dial and the end of its initIO. */
  predicate Pending(s: R.State) {
    s.loops != [] && s.loops[|s.loops| - 1].phase.Swapped?
  }

  /** One heartbeat per connection was started, the newer for the newer, and none yet for a pending one. */
  predicate BirthsOk(t: State) {
    && (forall h :: 0 <= h < |t.beats| ==> t.beats[h].born < |t.conn.closes|)
    && (forall g, h :: 0 <= g < h < |t.beats| ==> t.beats[g].born < t.beats[h].born)
    && (Pending(t.conn) ==> forall h :: 0 <= h < |t.beats| ==> t.beats[h].born < |t.conn.closes| - 1)
  }

  /** Nothing watches a channel older than its own. */
  predicate WatchesOk(t: State) {
    forall h :: 0 <= h < |t.beats| && t.beats[h].phase.Watching? ==>
      t.beats[h].born <= t.beats[h].phase.chan < |t.conn.closes|
  }

  predicate Inv(c: R.Config, t: State) {
    R.Inv(c, t.conn) && ChannelsOk(t.conn) && BirthsOk(t) && WatchesOk(t)
  }

  lemma ChannelsStep(c: R.Config, s: R.State, step: R.Step)
    requires R.Inv(c, s) && ChannelsOk(s) && R.Enabled(c, s, step)
    ensures ChannelsOk(R.Apply(c, s, step)) && |R.Apply(c, s, step).closes| >= |s.closes|
  {
  }

  lemma ConnInv(c: R.Config, s: R.State, step: R.Step)
    requires R.Inv(c, s) && R.Enabled(c, s, step)
    ensures R.Inv(c, R.Apply(c, s, step))
  {
    hide R.OneDriver, R.LoopsBounded, R.ChannelsClosedOnce, R.FlagsOk, R.Apply, R.Enabled;
    R.OneDriverStep(c, s, step);
    R.LoopsStep(c, s, step);
    R.ChannelsStep(c, s, step);
    R.FlagsStep(c, s, step);
  }

  /** A channel is made by a dial, or by Connect; a connection completes once. */
  lemma PendingStep(c: R.Config, s: R.State, step: R.Step)
    requires R.Inv(c, s) && ChannelsOk(s) && R.Enabled(c, s, step)
    ensures var s' := R.Apply(c, s, step);
            && (Pending(s') ==> (Pending(s) && |s'.closes| == |s.closes|) || |s'.closes| == |s.closes| + 1)
            && (Completes(s, step) ==> !Pending(s') && (Pending(s) || |s.closes| == 0))
  {
  }

  lemma BirthsConn(c: R.Config, t: State, step: R.Step)
    requires Inv(c, t) && R.Enabled(c, t.conn, step)
    ensures BirthsOk(Apply(c, t, Conn(step))) && WatchesOk(Apply(c, t, Conn(step)))
  {
    ChannelsStep(c, t.conn, step);
    PendingStep(c, t.conn, step);
    hide R.Inv, R.Enabled, R.Apply, Pending, Completes;
    var t' := Apply(c, t, Conn(step));
    assert forall h :: 0 <= h < |t.beats| ==> t'.beats[h] == t.beats[h];
  }

  lemma BirthsBeat(c: R.Config, t: State, h: nat, phase: Phase)
    requires Inv(c, t) && h < |t.beats|
    requires phase.Watching? ==> t.conn.chan == Some(phase.chan)
    ensures BirthsOk(SetPhase(t, h, phase)) && WatchesOk(SetPhase(t, h, phase))
  {
    hide R.Inv, Pending;
    var t' := SetPhase(t, h, phase);
    assert forall g :: 0 <= g < |t.beats| ==> t'.beats[g].born == t.beats[g].born;
  }

  lemma {:induction false} Reachable(c: R.Config, run: seq<Step>)
    requires Exec(c, Start(), run).Some?
    ensures Inv(c, Exec(c, Start(), run).value)
  {
    if run != [] {
      var last := |run| - 1;
      Reachable(c, run[..last]);
      var t := Exec(c, Start(), run[..last]).value;
      InvStep(c, t, run[last]);
    }
  }

  lemma InvStep(c: R.Config, t: State, step: Step)
    requires Inv(c, t) && Enabled(c, t, step)
    ensures Inv(c, Apply(c, t, step))
  {
    hide R.Inv, R.Enabled, R.Apply, ChannelsOk, BirthsOk, WatchesOk;
    match step {
      case Conn(step) =>
        BirthsConn(c, t, step);
        ChannelsStep(c, t.conn, step);
        ConnInv(c, t.conn, step);
      case Select(h) => BirthsBeat(c, t, h, Watching(t.conn.chan.value));
      case Tick(h) => BirthsBeat(c, t, h, Busy);
      case Exit(h) => BirthsBeat(c, t, h, Gone);
    }
  }

  // ---------------------------------------------------------------- whose channel is watched

  predicate Dials(step: Step) {
    step.Conn? && step.step.Dial? && step.step.ok
  }

  predicate NoDial(run: seq<Step>) {
    forall i :: 0 <= i < |run| ==> !Dials(run[i])
  }

  lemma ChanStep(c: R.Config, t: State, step: Step)
    requires Inv(c, t) && Enabled(c, t, step) && t.conn.chan.Some?
    ensures var s' := Apply(c, t, step).conn;
            s'.chan.Some? && s'.chan.value >= t.conn.chan.value && (s'.chan == t.conn.chan <==> !Dials(step))
  {
  }

  /** The channel changes by successful dials only, and never back. */
  lemma {:induction false} ChanSince(c: R.Config, t: State, since: seq<Step>)
    requires Inv(c, t) && t.conn.chan.Some? && Exec(c, t, since).Some?
    ensures var t' := Exec(c, t, since).value;
            && Inv(c, t') && t'.conn.chan.Some? && t'.conn.chan.value >= t.conn.chan.value
            && (t'.conn.chan == t.conn.chan <==> NoDial(since))
  {
    hide Inv, Apply, Enabled, Dials;
    if since != [] {
      var last := |since| - 1;
      ChanSince(c, t, since[..last]);
      ChanStep(c, Exec(c, t, since[..last]).value, since[last]);
      InvStep(c, Exec(c, t, since[..last]).value, since[last]);
      assert since == since[..last] + [since[last]];
    }
  }

  /** From its start on, a heartbeat selects on its own channel if and only if no dial has succeeded since. */
  lemma SelectsOwnIff(c: R.Config, before: seq<Step>, since: seq<Step>, h: nat)
    requires Exec(c, Start(), before).Some?
    requires var t := Exec(c, Start(), before).value;
             h < |t.beats| && t.conn.chan == Some(t.beats[h].born) &&
             Exec(c, t, since).Some? && Enabled(c, Exec(c, t, since).value, Select(h))
    ensures var t := Exec(c, Start(), before).value;
            var t' := Apply(c, Exec(c, t, since).value, Select(h));
            t'.beats[h].phase == Watching(t'.beats[h].born) <==> NoDial(since)
  {
    hide Inv, R.Enabled, R.Apply, NoDial;
    Reachable(c, before);
    var t := Exec(c, Start(), before).value;
    ChanSince(c, t, since);
    BornKept(c, t, since, h);
  }

  lemma {:induction false} BornKept(c: R.Config, t: State, since: seq<Step>, h: nat)
    requires Exec(c, t, since).Some? && h < |t.beats|
    ensures var t' := Exec(c, t, since).value;
            h < |t'.beats| && t'.beats[h].born == t.beats[h].born
  {
    hide R.Enabled, R.Apply;
    if since != [] {
      BornKept(c, t, since[..|since| - 1], h);
    }
  }

  /**
    Heartbeat g watches the current channel and goes on waiting; h selects later. They watch the same
    channel then if and only if no dial has succeeded in between.
   */
  lemma SharesIff(c: R.Config, before: seq<Step>, since: seq<Step>, g: nat, h: nat)
    requires Exec(c, Start(), before).Some? && Tick(g) !in since && Exit(g) !in since && g != h
    requires var t := Exec(c, Start(), before).value;
             g < |t.beats| && t.conn.chan.Some? && t.beats[g].phase == Watching(t.conn.chan.value) &&
             Exec(c, t, since).Some? && Enabled(c, Exec(c, t, since).value, Select(h))
    ensures var t := Exec(c, Start(), before).value;
            var t' := Apply(c, Exec(c, t, since).value, Select(h));
            g < |t'.beats| && (t'.beats[g].phase == t'.beats[h].phase <==> NoDial(since))
  {
    hide Inv, R.Enabled, R.Apply, NoDial;
    Reachable(c, before);
    var t := Exec(c, Start(), before).value;
    ChanSince(c, t, since);
    StillWaiting(c, t, since, g);
  }

  lemma {:induction false} StillWaiting(c: R.Config, t: State, since: seq<Step>, g: nat)
    requires Exec(c, t, since).Some? && Tick(g) !in since && Exit(g) !in since
    requires g < |t.beats| && t.beats[g].phase.Watching?
    ensures var t' := Exec(c, t, since).value;
            g < |t'.beats| && t'.beats[g].phase == t.beats[g].phase
  {
    hide R.Enabled, R.Apply;
    if since != [] {
      var last := |since| - 1;
      assert since[last] in since;
      StillWaiting(c, t, since[..last], g);
    }
  }

  /** Every heartbeat that watches watches the channel of its own connection. */
  predicate OwnOnly(t: State) {
    forall h :: 0 <= h < |t.beats| && t.beats[h].phase.Watching? ==> t.beats[h].phase.chan == t.beats[h].born
  }

  /** The step is a select on the channel of a newer connection than the heartbeat's own. */
  predicate Adopts(t: State, step: Step) {
    step.Select? && step.h < |t.beats| && t.conn.chan != Some(t.beats[step.h].born)
  }

  predicate NoneAdopts(c: R.Config, run: seq<Step>) {
    run != [] ==>
      var before := run[..|run| - 1];
      NoneAdopts(c, before) &&
      (Exec(c, Start(), before).Some? ==> !Adopts(Exec(c, Start(), before).value, run[|run| - 1]))
  }

  /** After the run and at every moment before. */
  predicate AlwaysOwn(c: R.Config, run: seq<Step>) {
    && (Exec(c, Start(), run).Some? ==> OwnOnly(Exec(c, Start(), run).value))
    && (run != [] ==> AlwaysOwn(c, run[..|run| - 1]))
  }

  lemma OwnStep(c: R.Config, t: State, step: Step)
    requires Enabled(c, t, step) && OwnOnly(t)
    ensures OwnOnly(Apply(c, t, step)) <==> !Adopts(t, step)
  {
    hide R.Enabled, R.Apply;
    var t' := Apply(c, t, step);
    if Adopts(t, step) {
      assert t'.beats[step.h].phase.chan != t'.beats[step.h].born;
    }
  }

  /** In every run: heartbeats only ever watch their own channels if and only if none selected on a newer one. */
  lemma {:induction false} OwnIff(c: R.Config, run: seq<Step>)
    requires Exec(c, Start(), run).Some?
    ensures AlwaysOwn(c, run) <==> NoneAdopts(c, run)
  {
    hide OwnOnly, Adopts, Apply, Enabled;
    if run == [] {
      assert OwnOnly(Start()) by { StartOwn(); }
    } else {
      var last := |run| - 1;
      OwnIff(c, run[..last]);
      if AlwaysOwn(c, run[..last]) {
        OwnStep(c, Exec(c, Start(), run[..last]).value, run[last]);
      }
    }
  }

  lemma StartOwn()
    ensures OwnOnly(Start())
  {
  }

  /** Then at most one heartbeat watches each channel. */
  lemma OnePerChannel(c: R.Config, run: seq<Step>, g: nat, h: nat)
    requires Exec(c, Start(), run).Some? && NoneAdopts(c, run)
    requires var t := Exec(c, Start(), run).value;
             g < |t.beats| && h < |t.beats| && t.beats[g].phase.Watching? && t.beats[g].phase == t.beats[h].phase
    ensures g == h
  {
    Reachable(c, run);
    OwnIff(c, run);
    hide R.Inv, Exec, NoneAdopts;
    assert g < h || h < g || g == h;
  }

  // ---------------------------------------------------------------- how many are alive

  predicate OnlyBeats(run: seq<Step>) {
    forall i :: 0 <= i < |run| ==> !run[i].Conn?
  }

  ghost predicate Doubled(t: State) {
    exists g, h :: 0 <= g < h < |t.beats| && t.beats[g].phase.Watching? && t.beats[g].phase == t.beats[h].phase
  }

  predicate TwoAlive(t: State) {
    exists g, h :: 0 <= g < h < |t.beats| && Alive(t, g) && Alive(t, h)
  }

  /** Two heartbeats can come to watch one channel by steps of heartbeats alone. */
  ghost predicate CanDouble(c: R.Config, t: State) {
    exists more :: OnlyBeats(more) && Exec(c, t, more).Some? && Doubled(Exec(c, t, more).value)
  }

  lemma {:induction false} OnlyBeatsKeep(c: R.Config, t: State, more: seq<Step>)
    requires OnlyBeats(more) && Exec(c, t, more).Some?
    ensures var t' := Exec(c, t, more).value;
            t'.conn == t.conn && |t'.beats| == |t.beats| && forall h :: Alive(t', h) ==> Alive(t, h)
  {
    hide R.Enabled, R.Apply;
    if more != [] {
      var last := |more| - 1;
      OnlyBeatsKeep(c, t, more[..last]);
    }
  }

  /** A heartbeat that is alive can get round to its next select, which evaluates the current channel. */
  function NextSelect(t: State, h: nat): (more: seq<Step>)
    requires h < |t.beats|
    ensures OnlyBeats(more)
  {
    if t.beats[h].phase.Watching? then [Tick(h), Select(h)] else [Select(h)]
  }

  lemma NextSelectRuns(c: R.Config, t: State, h: nat)
    requires Alive(t, h) && t.conn.chan.Some?
    ensures Exec(c, t, NextSelect(t, h)) == Some(SetPhase(t, h, Watching(t.conn.chan.value)))
  {
    ExecNothing(c, t);
    if t.beats[h].phase.Watching? {
      ExecSnoc(c, t, [], Tick(h));
      ExecSnoc(c, t, [Tick(h)], Select(h));
      var busy := SetPhase(t, h, Busy);
      assert SetPhase(busy, h, Watching(t.conn.chan.value)) == SetPhase(t, h, Watching(t.conn.chan.value));
      assert [] + [Tick(h)] == [Tick(h)] && [Tick(h)] + [Select(h)] == NextSelect(t, h);
    } else {
      ExecSnoc(c, t, [], Select(h));
      assert [] + [Select(h)] == NextSelect(t, h);
    }
  }

  /** In every reachable state: two heartbeats can come to watch one channel if and only if two are alive. */
  lemma DoubleIff(c: R.Config, run: seq<Step>)
    requires Exec(c, Start(), run).Some?
    ensures CanDouble(c, Exec(c, Start(), run).value) <==> TwoAlive(Exec(c, Start(), run).value)
  {
    Reachable(c, run);
    var t := Exec(c, Start(), run).value;
    hide Exec;
    if g, h :| 0 <= g < h < |t.beats| && Alive(t, g) && Alive(t, h) {
      Double(c, t, g, h);
    }
    if CanDouble(c, t) {
      var more :| OnlyBeats(more) && Exec(c, t, more).Some? && Doubled(Exec(c, t, more).value);
      OnlyBeatsKeep(c, t, more);
      var t' := Exec(c, t, more).value;
      var g, h :| 0 <= g < h < |t'.beats| && t'.beats[g].phase.Watching? && t'.beats[g].phase == t'.beats[h].phase;
      assert Alive(t', g) && Alive(t', h);
    }
  }

  lemma Double(c: R.Config, t: State, g: nat, h: nat)
    requires Inv(c, t) && g < h && Alive(t, g) && Alive(t, h)
    ensures CanDouble(c, t)
  {
    hide Exec;
    assert t.beats[g].born < |t.conn.closes|;
    NextSelectRuns(c, t, g);
    var t1 := SetPhase(t, g, Watching(t.conn.chan.value));
    NextSelectRuns(c, t1, h);
    var t2 := SetPhase(t1, h, Watching(t.conn.chan.value));
    ExecConcat(c, t, NextSelect(t, g), NextSelect(t1, h));
    assert t2.beats[g].phase == t2.beats[h].phase;
    assert Doubled(t2) && OnlyBeats(NextSelect(t, g) + NextSelect(t1, h));
  }

  /** The step starts a heartbeat while another is alive. */
  predicate StartsBeside(t: State, step: Step) {
    step.Conn? && Completes(t.conn, step.step) && exists h :: 0 <= h < |t.beats| && Alive(t, h)
  }

  lemma AliveStep(c: R.Config, t: State, step: Step)
    requires Inv(c, t) && Enabled(c, t, step) && !TwoAlive(t)
    ensures TwoAlive(Apply(c, t, step)) <==> StartsBeside(t, step)
  {
    var t' := Apply(c, t, step);
    if step.Conn? {
      CompletesStarts(c, t, step.step);
      hide R.Inv, R.Enabled, R.Apply, ChannelsOk;
      if h :| StartsBeside(t, step) && 0 <= h < |t.beats| && Alive(t, h) {
        assert Alive(t', h) && Alive(t', |t.beats|);
      } else {
        assert forall h :: Alive(t', h) ==> Alive(t, h) || (h == |t.beats| && Completes(t.conn, step.step));
      }
    } else {
      assert forall h :: Alive(t', h) ==> Alive(t, h);
    }
  }

  lemma CompletesStarts(c: R.Config, t: State, step: R.Step)
    requires Inv(c, t) && R.Enabled(c, t.conn, step)
    ensures Completes(t.conn, step) ==> R.Apply(c, t.conn, step).chan.Some?
  {
  }

  predicate NoneBeside(c: R.Config, run: seq<Step>) {
    run != [] ==>
      var before := run[..|run| - 1];
      NoneBeside(c, before) &&
      (Exec(c, Start(), before).Some? ==> !StartsBeside(Exec(c, Start(), before).value, run[|run| - 1]))
  }

  predicate AlwaysOne(c: R.Config, run: seq<Step>) {
    && (Exec(c, Start(), run).Some? ==> !TwoAlive(Exec(c, Start(), run).value))
    && (run != [] ==> AlwaysOne(c, run[..|run| - 1]))
  }

  /**
    In every run: there is never more than one heartbeat if and only if each reconnect completes after
    the previous heartbeat has ended.
   */
  lemma {:induction false} OneIff(c: R.Config, run: seq<Step>)
    requires Exec(c, Start(), run).Some?
    ensures AlwaysOne(c, run) <==> NoneBeside(c, run)
  {
    hide TwoAlive, StartsBeside, Apply, Enabled, Inv;
    if run == [] {
      assert !TwoAlive(Start()) by { StartNone(); }
    } else {
      var last := |run| - 1;
      OneIff(c, run[..last]);
      Reachable(c, run[..last]);
      if AlwaysOne(c, run[..last]) {
        AliveStep(c, Exec(c, Start(), run[..last]).value, run[last]);
      }
    }
  }

  lemma StartNone()
    ensures !TwoAlive(Start())
  {
  }

  // ---------------------------------------------------------------- whether they end

  ghost predicate CanEnd(c: R.Config, t: State, h: nat) {
    exists more :: Exec(c, t, more).Some? && h < |Exec(c, t, more).value.beats| && !Alive(Exec(c, t, more).value, h)
  }

  /** What the heartbeat watches, or would watch next, is closed. */
  predicate ToldToEnd(t: State, h: nat) {
    && h < |t.beats|
    && ((t.conn.chan.Some? && Closed(t.conn, t.conn.chan.value)) ||
        (t.beats[h].phase.Watching? && Closed(t.conn, t.beats[h].phase.chan)))
  }

  /** The connection is over and the heartbeat goes on. */
  predicate Stuck(c: R.Config, t: State, h: nat) {
    R.Quiet(c, t.conn) && t.conn.chan.Some? && Alive(t, h) && !ToldToEnd(t, h)
  }

  lemma QuietKeepsChannels(c: R.Config, s: R.State, step: R.Step)
    requires R.Quiet(c, s) && s.chan.Some? && R.Enabled(c, s, step)
    ensures var s' := R.Apply(c, s, step);
            R.Quiet(c, s') && s'.chan == s.chan && s'.closes == s.closes
  {
    R.QuietStep(c, s, step);
  }

  lemma StuckStep(c: R.Config, t: State, h: nat, step: Step)
    requires Stuck(c, t, h) && Enabled(c, t, step)
    ensures Stuck(c, Apply(c, t, step), h)
  {
    if step.Conn? {
      QuietKeepsChannels(c, t.conn, step.step);
    }
    hide R.Quiet, R.Enabled, R.Apply;
  }

  lemma {:induction false} StuckRun(c: R.Config, t: State, h: nat, more: seq<Step>)
    requires Stuck(c, t, h) && Exec(c, t, more).Some?
    ensures Stuck(c, Exec(c, t, more).value, h)
  {
    hide Stuck, Apply, Enabled;
    if more != [] {
      var last := |more| - 1;
      StuckRun(c, t, h, more[..last]);
      StuckStep(c, Exec(c, t, more[..last]).value, h, more[last]);
    }
  }

  /** Once no connection will come up again, a heartbeat can still end if and only if it is told to. */
  lemma EndsIff(c: R.Config, run: seq<Step>, h: nat)
    requires Exec(c, Start(), run).Some?
    requires var t := Exec(c, Start(), run).value; R.Quiet(c, t.conn) && Alive(t, h)
    ensures var t := Exec(c, Start(), run).value; CanEnd(c, t, h) <==> ToldToEnd(t, h)
  {
    Reachable(c, run);
    var t := Exec(c, Start(), run).value;
    assert t.beats[h].born < |t.conn.closes| && t.conn.chan.Some?;
    if ToldToEnd(t, h) {
      Ends(c, t, h);
    } else if CanEnd(c, t, h) {
      var more :| Exec(c, t, more).Some? && h < |Exec(c, t, more).value.beats| && !Alive(Exec(c, t, more).value, h);
      StuckRun(c, t, h, more);
    }
  }

  lemma Ends(c: R.Config, t: State, h: nat)
    requires Alive(t, h) && t.conn.chan.Some? && ToldToEnd(t, h)
    ensures CanEnd(c, t, h)
  {
    hide Exec;
    ExecNothing(c, t);
    if t.beats[h].phase.Watching? && Closed(t.conn, t.beats[h].phase.chan) {
      ExecSnoc(c, t, [], Exit(h));
    } else {
      NextSelectRuns(c, t, h);
      ExecSnoc(c, t, NextSelect(t, h), Exit(h));
    }
  }

  // ---------------------------------------------------------------- two runs

  /** Connect, a drop, and a reconnect that succeeds or not. */
  function DropAndBack(handlerOk: bool): seq<Step> {
    [Conn(R.ConnectDial(true))] + [Conn(R.ConnectInit(true))] + [Conn(R.ReaderEnds)] +
    [Conn(R.ReaderAborts)] + [Conn(R.Dial(0, true))] + [Conn(R.Init(0, handlerOk))]
  }

  function Connected(): State {
    State(R.State(Some(0), false, false, Some(0), [0], 1, R.Done, 1, 0, [], false), [Beat(0, Busy)])
  }

  function Dropped(): State {
    State(R.State(None, true, true, Some(0), [1], 1, R.Done, 0, 0, [R.Loop(0, 0, R.Sleeping)], false), [Beat(0, Busy)])
  }

  lemma AfterConnect(c: R.Config)
    ensures Exec(c, Start(), [Conn(R.ConnectDial(true))] + [Conn(R.ConnectInit(true))]) == Some(Connected())
  {
    hide Exec;
    ExecNothing(c, Start());
    ExecSnoc(c, Start(), [], Conn(R.ConnectDial(true)));
    var r1 := [Conn(R.ConnectDial(true))];
    assert [] + r1 == r1;
    ExecSnoc(c, Start(), r1, Conn(R.ConnectInit(true)));
    var t := Exec(c, Start(), r1 + [Conn(R.ConnectInit(true))]).value;
    assert t.conn.closes == [0] && t.beats == [Beat(0, Busy)];
  }

  lemma AfterDrop(c: R.Config, run: seq<Step>)
    requires c.enabled && Exec(c, Start(), run) == Some(Connected())
    ensures Exec(c, Start(), run + [Conn(R.ReaderEnds)] + [Conn(R.ReaderAborts)]) == Some(Dropped())
  {
    hide Exec;
    ExecSnoc(c, Start(), run, Conn(R.ReaderEnds));
    ExecSnoc(c, Start(), run + [Conn(R.ReaderEnds)], Conn(R.ReaderAborts));
    var t := Exec(c, Start(), run + [Conn(R.ReaderEnds)] + [Conn(R.ReaderAborts)]).value;
    assert t.conn.closes == [1] && t.conn.loops == [R.Loop(0, 0, R.Sleeping)];
  }

  /** The first heartbeat is busy all the while. */
  lemma AfterDropAndBack(c: R.Config, handlerOk: bool)
    requires c.enabled && c.max >= 0
    ensures Exec(c, Start(), DropAndBack(handlerOk)).Some?
    ensures var t := Exec(c, Start(), DropAndBack(handlerOk)).value;
            && t.conn.chan == Some(1) && t.conn.closes == [1, 0] && t.conn.connect.Done?
            && t.conn.conn == (if handlerOk then Some(1) else None)
            && t.beats == (if handlerOk then [Beat(0, Busy), Beat(1, Busy)] else [Beat(0, Busy)])
            && t.conn.loops == [if handlerOk then R.Loop(0, 1, R.Finished) else R.Loop(1, 1, R.Sleeping)]
  {
    hide Exec;
    var up := [Conn(R.ConnectDial(true))] + [Conn(R.ConnectInit(true))];
    var down := up + [Conn(R.ReaderEnds)] + [Conn(R.ReaderAborts)];
    AfterConnect(c);
    AfterDrop(c, up);
    ExecSnoc(c, Start(), down, Conn(R.Dial(0, true)));
    ExecSnoc(c, Start(), down + [Conn(R.Dial(0, true))], Conn(R.Init(0, handlerOk)));
  }

  /** Two heartbeats on one connection: the first was busy while the connection dropped and came back. */
  lemma TwoHeartbeats(c: R.Config)
    requires c.enabled && c.max >= 0
    ensures var run := DropAndBack(true) + [Select(0)] + [Select(1)];
            Exec(c, Start(), run).Some? &&
            var t := Exec(c, Start(), run).value;
            t.conn.conn.Some? && |t.beats| == 2 && t.beats[0].phase == Watching(1) && t.beats[1].phase == Watching(1)
  {
    hide Exec, DropAndBack;
    AfterDropAndBack(c, true);
    ExecSnoc(c, Start(), DropAndBack(true), Select(0));
    ExecSnoc(c, Start(), DropAndBack(true) + [Select(0)], Select(1));
  }

  /** A heartbeat that never ends: the reconnect loop gave up, and no Close closes the channel it will watch. */
  lemma NeverEnds(c: R.Config)
    requires c.enabled && c.max == 1
    ensures Exec(c, Start(), DropAndBack(false)).Some?
    ensures var t := Exec(c, Start(), DropAndBack(false)).value;
            R.Quiet(c, t.conn) && Alive(t, 0) && !CanEnd(c, t, 0)
  {
    hide Exec, DropAndBack, CanEnd;
    AfterDropAndBack(c, false);
    EndsIff(c, DropAndBack(false), 0);
  }

  // ---------------------------------------------------------------- runs

  lemma ExecNothing(c: R.Config, t: State)
    ensures Exec(c, t, []) == Some(t)
  {
  }

  lemma ExecSnoc(c: R.Config, t: State, run: seq<Step>, step: Step)
    requires Exec(c, t, run).Some? && Enabled(c, Exec(c, t, run).value, step)
    ensures Exec(c, t, run + [step]) == Some(Apply(c, Exec(c, t, run).value, step))
  {
    assert (run + [step])[..|run|] == run;
  }

  lemma {:induction false} ExecConcat(c: R.Config, t: State, a: seq<Step>, b: seq<Step>)
    requires Exec(c, t, a).Some?
    ensures Exec(c, t, a + b) == Exec(c, Exec(c, t, a).value, b)
  {
    hide Enabled, Apply;
    if b == [] {
      assert a + b == a;
    } else {
      var last := |b| - 1;
      ExecConcat(c, t, a, b[..last]);
      assert (a + b)[..|a + b| - 1] == a + b[..last];
    }
  }
}
