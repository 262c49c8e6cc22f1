/**
  The life of a client connection: Connect, the read loop that notices a drop, the reconnect loops,
  and Close. Two pieces of code are taken as single steps, as if atomic: the body of close()'s once,
  and a successful dial together with the locked block that installs the new connection. Connect is
  called at most once. Everything else interleaves freely.
 */
module Reconnect {
  import opened Common

  /** `enabled`: ReconnectInterval > 0 (a client has no outgoing channel); `max`: ReconnectMax. */
  datatype Config = Config(enabled: bool, max: int)

  datatype LoopPhase = Sleeping | Swapped | Finished

  /** One reconnect goroutine: its loop counter and the dials it has made. */
  datatype Loop = Loop(i: nat, dials: nat, phase: LoopPhase)

  datatype ConnectPhase = NotCalled | Dialled | Done

  datatype State = State(
    conn: Option<nat>,       // c.conn: the number of the raw connection
    closed: bool,
    once: bool,              // closeOnce has fired
    chan: Option<nat>,       // c.closeChan
    closes: seq<nat>,        // for every channel made, how often it was closed
    epoch: nat,              // raw connections dialled so far
    connect: ConnectPhase,
    running: nat,            // read loops reading
    exiting: nat,            // read loops past their "not closed" test, about to abort
    loops: seq<Loop>,        // one per drop, oldest first
    early: bool)             // history: Close was called before Connect

  datatype Step =
    | Close
    | ConnectDial(ok: bool)
    | ConnectInit(handlerOk: bool)
    | ReaderEnds
    | ReaderAborts
    | Dial(k: nat, ok: bool)
    | Init(k: nat, handlerOk: bool)

  function Start(): State {
    State(None, false, false, None, [], 0, NotCalled, 0, 0, [], false)
  }

  /** close(abort) */
  function CloseConn(c: Config, s: State, abort: bool): State {
    if s.once then s
    else if s.conn.None? then s.(once := true)
    else
      s.(once := true, closed := true, conn := None,
         closes := if s.chan.Some? && s.chan.value < |s.closes|
                   then s.closes[s.chan.value := s.closes[s.chan.value] + 1] else s.closes,
         loops := if abort && c.enabled then s.loops + [Loop(0, 0, Sleeping)] else s.loops)
  }

  predicate MayDial(c: Config, i: nat) {
    c.max == 0 || i < c.max
  }

  predicate Enabled(c: Config, s: State, step: Step) {
    match step
    case Close => true
    case ConnectDial(_) => s.connect.NotCalled?
    case ConnectInit(_) => s.connect.Dialled?
    case ReaderEnds => s.running > 0
    case ReaderAborts => s.exiting > 0
    case Dial(k, _) => k < |s.loops| && s.loops[k].phase.Sleeping? && MayDial(c, s.loops[k].i)
    case Init(k, _) => k < |s.loops| && s.loops[k].phase.Swapped?
  }

  function Apply(c: Config, s: State, step: Step): State
    requires Enabled(c, s, step)
  {
    match step
    case Close => CloseConn(c, s, false).(early := s.early || s.connect.NotCalled?)
    case ConnectDial(ok) =>
      if ok then s.(conn := Some(s.epoch), closed := false, epoch := s.epoch + 1, connect := Dialled)
      else s.(connect := Done)
    case ConnectInit(handlerOk) =>
      var s1 := if s.chan.None? then s.(chan := Some(|s.closes|), closes := s.closes + [0]) else s;
      if handlerOk && !s.closed then s1.(running := s.running + 1, connect := Done)
      else s1.(conn := None, connect := Done)
    case ReaderEnds =>
      if s.closed then s.(running := s.running - 1)
      else s.(running := s.running - 1, exiting := s.exiting + 1)
    case ReaderAborts => CloseConn(c, s.(exiting := s.exiting - 1), true)
    case Dial(k, ok) =>
      var l := s.loops[k];
      if ok then
        s.(conn := Some(s.epoch), closed := false, once := false, epoch := s.epoch + 1,
           chan := Some(|s.closes|), closes := s.closes + [0],
           loops := s.loops[k := Loop(l.i, l.dials + 1, Swapped)])
      else s.(loops := s.loops[k := Loop(l.i + 1, l.dials + 1, Sleeping)])
    case Init(k, handlerOk) =>
      var l := s.loops[k];
      if handlerOk && !s.closed
      then s.(running := s.running + 1, loops := s.loops[k := l.(phase := Finished)])
      else s.(conn := None, closed := true, loops := s.loops[k := l.(i := l.i + 1, phase := Sleeping)])
  }

  function Exec(c: Config, s: State, run: seq<Step>): Option<State> {
    if run == [] then Some(s)
    else
      var before := Exec(c, s, run[..|run| - 1]);
      if before.Some? && Enabled(c, before.value, run[|run| - 1])
      then Some(Apply(c, before.value, run[|run| - 1])) else None
  }

  // ---------------------------------------------------------------- the invariant

  /** The loop may still act: it has dials left, or it is setting up a connection it dialled. */
  predicate Live(c: Config, l: Loop) {
    l.phase.Swapped? || (l.phase.Sleeping? && MayDial(c, l.i))
  }

  /** The loop may dial again, whatever happens to what it is doing now. */
  predicate CanDial(c: Config, l: Loop) {
    (l.phase.Sleeping? && MayDial(c, l.i)) || (l.phase.Swapped? && MayDial(c, l.i + 1))
  }

  function Drivers(c: Config, s: State): nat {
    s.running + s.exiting + (if s.connect.Dialled? then 1 else 0) +
    (if s.loops != [] && Live(c, s.loops[|s.loops| - 1]) then 1 else 0)
  }

  /**
    At most one of Connect, a read loop and the latest reconnect loop is in charge of the connection;
    earlier reconnect loops are over.
   */
  predicate OneDriver(c: Config, s: State) {
    && Drivers(c, s) <= 1
    && (forall k :: 0 <= k < |s.loops| - 1 ==> !Live(c, s.loops[k]))
    && (s.connect.NotCalled? ==> Drivers(c, s) == 0 && s.loops == [] && s.conn.None?)
  }

  predicate LoopBounded(c: Config, l: Loop) {
    && l.dials == (if l.phase.Sleeping? then l.i else l.i + 1)
    && (c.max > 0 ==> l.dials <= c.max)
    && (c.max < 0 ==> l.dials == 0)
  }

  predicate LoopsBounded(c: Config, s: State) {
    forall k :: 0 <= k < |s.loops| ==> LoopBounded(c, s.loops[k])
  }

  predicate ChannelsClosedOnce(s: State) {
    && (s.chan.Some? ==> s.chan.value < |s.closes| && (s.closes[s.chan.value] > 0 ==> s.once))
    && (forall i :: 0 <= i < |s.closes| ==> s.closes[i] <= 1)
  }

  predicate FlagsOk(s: State) {
    && (s.conn.Some? ==> !s.closed && (s.once ==> s.early))
    && (s.once && s.connect.NotCalled? ==> s.early)
    && (s.connect.Dialled? && s.conn.None? ==> s.closed)
    && (forall k :: 0 <= k < |s.loops| && s.loops[k].phase.Swapped? && s.conn.None? ==> s.closed)
    && !(s.loops != [] && s.once && s.conn.Some?)
  }

  predicate Inv(c: Config, s: State) {
    OneDriver(c, s) && LoopsBounded(c, s) && ChannelsClosedOnce(s) && FlagsOk(s)
  }

  lemma OneDriverStep(c: Config, s: State, step: Step)
    requires OneDriver(c, s) && FlagsOk(s) && Enabled(c, s, step)
    ensures OneDriver(c, Apply(c, s, step))
  {
    var s' := Apply(c, s, step);
    if step.Dial? || step.Init? {
      hide CloseConn;
      assert step.k == |s.loops| - 1;
      assert forall k :: 0 <= k < |s.loops| - 1 ==> s'.loops[k] == s.loops[k];
    } else if step.ReaderAborts? {
      assert forall k :: 0 <= k < |s.loops| ==> !Live(c, s.loops[k]) && s'.loops[k] == s.loops[k];
    } else {
      assert s'.loops == s.loops;
    }
  }

  lemma LoopsStep(c: Config, s: State, step: Step)
    requires LoopsBounded(c, s) && Enabled(c, s, step)
    ensures LoopsBounded(c, Apply(c, s, step))
  {
    var s' := Apply(c, s, step);
    forall k | 0 <= k < |s'.loops|
      ensures LoopBounded(c, s'.loops[k])
    {
      assert k < |s.loops| ==> LoopBounded(c, s.loops[k]);
    }
  }

  lemma CloseKeepsChannels(c: Config, s: State, abort: bool)
    requires ChannelsClosedOnce(s)
    ensures ChannelsClosedOnce(CloseConn(c, s, abort))
  {
  }

  lemma ChannelsStep(c: Config, s: State, step: Step)
    requires ChannelsClosedOnce(s) && Enabled(c, s, step)
    ensures ChannelsClosedOnce(Apply(c, s, step))
  {
    if step.Close? {
      CloseKeepsChannels(c, s, false);
      hide CloseConn;
    } else if step.ReaderAborts? {
      CloseKeepsChannels(c, s.(exiting := s.exiting - 1), true);
      hide CloseConn;
    }
  }

  lemma FlagsStep(c: Config, s: State, step: Step)
    requires OneDriver(c, s) && FlagsOk(s) && Enabled(c, s, step)
    ensures FlagsOk(Apply(c, s, step))
  {
  }

  lemma {:induction false} Reachable(c: Config, run: seq<Step>)
    requires Exec(c, Start(), run).Some?
    ensures Inv(c, Exec(c, Start(), run).value)
  {
    if run != [] {
      var last := |run| - 1;
      Reachable(c, run[..last]);
      var s := Exec(c, Start(), run[..last]).value;
      hide OneDriver, LoopsBounded, ChannelsClosedOnce, FlagsOk, Apply, Enabled;
      OneDriverStep(c, s, run[last]);
      LoopsStep(c, s, run[last]);
      ChannelsStep(c, s, run[last]);
      FlagsStep(c, s, run[last]);
    }
  }

  // ---------------------------------------------------------------- what it means

  /** At most one reconnect loop can still dial. */
  lemma OneDialler(c: Config, run: seq<Step>, j: nat, k: nat)
    requires Exec(c, Start(), run).Some?
    requires var loops := Exec(c, Start(), run).value.loops;
             j < |loops| && k < |loops| && CanDial(c, loops[j]) && CanDial(c, loops[k])
    ensures j == k
  {
    Reachable(c, run);
  }

  /** No close channel is closed twice (which would panic). */
  lemma NoDoubleClose(c: Config, run: seq<Step>, i: nat)
    requires Exec(c, Start(), run).Some? && i < |Exec(c, Start(), run).value.closes|
    ensures Exec(c, Start(), run).value.closes[i] <= 1
  {
    Reachable(c, run);
  }

  /** One drop causes at most ReconnectMax dials if that is positive, and none if it is negative. */
  lemma DialsBounded(c: Config, run: seq<Step>, k: nat)
    requires Exec(c, Start(), run).Some? && k < |Exec(c, Start(), run).value.loops|
    requires c.max != 0
    ensures var dials := Exec(c, Start(), run).value.loops[k].dials;
            dials <= if c.max > 0 then c.max else 0
  {
    Reachable(c, run);
  }

  /** The dials of loop k in the run. */
  function DialsOf(run: seq<Step>, k: nat): nat {
    if run == [] then 0
    else
      var step := run[|run| - 1];
      DialsOf(run[..|run| - 1], k) + if step.Dial? && step.k == k then 1 else 0
  }

  function DialsMade(s: State, k: nat): nat {
    if k < |s.loops| then s.loops[k].dials else 0
  }

  lemma DialsMadeStep(c: Config, s: State, step: Step, k: nat)
    requires Enabled(c, s, step)
    ensures DialsMade(Apply(c, s, step), k) == DialsMade(s, k) + if step.Dial? && step.k == k then 1 else 0
  {
  }

  /** A loop's count is that of its dials in the run; a loop not yet started has made none. */
  lemma {:induction false} DialsCounted(c: Config, run: seq<Step>, k: nat)
    requires Exec(c, Start(), run).Some?
    ensures DialsOf(run, k) == DialsMade(Exec(c, Start(), run).value, k)
  {
    if run != [] {
      var last := |run| - 1;
      DialsCounted(c, run[..last], k);
      DialsMadeStep(c, Exec(c, Start(), run[..last]).value, run[last], k);
      hide Apply, Enabled, DialsMade;
    }
  }

  /**
    In every reachable state a loop between attempts dials again if and only if ReconnectMax is zero or
    it has dialled fewer times than that.
   */
  lemma DialsAgainIff(c: Config, run: seq<Step>, k: nat, ok: bool)
    requires Exec(c, Start(), run).Some? && k < |Exec(c, Start(), run).value.loops|
    requires Exec(c, Start(), run).value.loops[k].phase.Sleeping?
    ensures Enabled(c, Exec(c, Start(), run).value, Dial(k, ok)) <==> c.max == 0 || DialsOf(run, k) < c.max
  {
    Reachable(c, run);
    DialsCounted(c, run, k);
    var s := Exec(c, Start(), run).value;
    hide Exec, DialsOf;
    assert LoopBounded(c, s.loops[k]);
  }

  /** The read loops' aborts in the run that found a connection and did close it. */
  function Drops(c: Config, run: seq<Step>): nat
    requires Exec(c, Start(), run).Some?
  {
    if run == [] then 0
    else
      var prev := run[..|run| - 1];
      var s := Exec(c, Start(), prev).value;
      Drops(c, prev) + if run[|run| - 1].ReaderAborts? && s.conn.Some? && !s.once then 1 else 0
  }

  lemma LoopsNumberStep(c: Config, s: State, step: Step)
    requires Enabled(c, s, step)
    ensures var dropped := step.ReaderAborts? && s.conn.Some? && !s.once;
            |Apply(c, s, step).loops| == |s.loops| + if c.enabled && dropped then 1 else 0
  {
  }

  /** Every drop starts one reconnect loop if reconnecting is enabled, and nothing else does, Close included. */
  lemma {:induction false} LoopPerDrop(c: Config, run: seq<Step>)
    requires Exec(c, Start(), run).Some?
    ensures |Exec(c, Start(), run).value.loops| == if c.enabled then Drops(c, run) else 0
  {
    if run != [] {
      var last := |run| - 1;
      LoopPerDrop(c, run[..last]);
      LoopsNumberStep(c, Exec(c, Start(), run[..last]).value, run[last]);
      hide Apply, Enabled;
    }
  }

  predicate FlagTells(s: State) {
    (!s.connect.Done? ==> s.loops == []) && (s.loops != [] ==> (s.closed <==> s.conn.None?))
  }

  lemma FlagTellsStep(c: Config, s: State, step: Step)
    requires Inv(c, s) && FlagTells(s) && Enabled(c, s, step)
    ensures FlagTells(Apply(c, s, step))
  {
  }

  /** Once a drop has started a reconnect loop, the closed flag says whether there is a connection. */
  lemma {:induction false} ClosedFlagIff(c: Config, run: seq<Step>)
    requires Exec(c, Start(), run).Some?
    ensures FlagTells(Exec(c, Start(), run).value)
  {
    if run != [] {
      var last := |run| - 1;
      ClosedFlagIff(c, run[..last]);
      Reachable(c, run[..last]);
      hide Inv, FlagTells, Apply, Enabled;
      FlagTellsStep(c, Exec(c, Start(), run[..last]).value, run[last]);
    }
  }

  /** Somebody looks after the connection: Connect or a loop setting it up, or a read loop. */
  predicate Attended(s: State) {
    s.running + s.exiting > 0 || s.connect.Dialled? || (s.loops != [] && s.loops[|s.loops| - 1].phase.Swapped?)
  }

  predicate UpIsAttended(s: State) {
    && (s.conn.Some? && !s.early ==> Attended(s))
    && (s.conn.Some? ==> s.epoch > 0 && s.conn.value == s.epoch - 1)
  }

  lemma AttendedStep(c: Config, s: State, step: Step)
    requires Inv(c, s) && UpIsAttended(s) && Enabled(c, s, step)
    ensures UpIsAttended(Apply(c, s, step))
  {
  }

  /** The successful dials of the run. */
  function GoodDials(run: seq<Step>): nat {
    if run == [] then 0
    else
      var step := run[|run| - 1];
      GoodDials(run[..|run| - 1]) + if (step.ConnectDial? || step.Dial?) && step.ok then 1 else 0
  }

  lemma EpochStep(c: Config, s: State, step: Step)
    requires Enabled(c, s, step)
    ensures Apply(c, s, step).epoch == s.epoch + if (step.ConnectDial? || step.Dial?) && step.ok then 1 else 0
  {
  }

  /**
    In every run, a connection that is up is the one dialled last, and unless Close was called before
    Connect somebody looks after it.
   */
  lemma {:induction false} UpIsLastDialled(c: Config, run: seq<Step>)
    requires Exec(c, Start(), run).Some?
    ensures var s := Exec(c, Start(), run).value;
            UpIsAttended(s) && s.epoch == GoodDials(run)
  {
    if run != [] {
      var last := |run| - 1;
      UpIsLastDialled(c, run[..last]);
      Reachable(c, run[..last]);
      hide Inv, UpIsAttended, Apply, Enabled;
      AttendedStep(c, Exec(c, Start(), run[..last]).value, run[last]);
      EpochStep(c, Exec(c, Start(), run[..last]).value, run[last]);
    }
  }

  /** However it goes on from s, no connection is ever up again. */
  ghost predicate Final(c: Config, s: State) {
    forall more: seq<Step> :: Exec(c, s, more).Some? ==> Exec(c, s, more).value.conn.None?
  }

  /** Nothing that is left to run can bring a connection up. */
  predicate Quiet(c: Config, s: State) {
    && s.conn.None?
    && !s.connect.NotCalled? && (s.connect.Dialled? ==> s.closed)
    && (forall k :: 0 <= k < |s.loops| ==>
          !CanDial(c, s.loops[k]) && (s.loops[k].phase.Swapped? ==> s.closed))
  }

  lemma QuietStep(c: Config, s: State, step: Step)
    requires Quiet(c, s) && Enabled(c, s, step)
    ensures Quiet(c, Apply(c, s, step)) && !step.Dial? && !step.ConnectDial?
  {
  }

  lemma {:induction false} QuietRun(c: Config, s: State, more: seq<Step>)
    requires Quiet(c, s) && Exec(c, s, more).Some?
    ensures Quiet(c, Exec(c, s, more).value)
    ensures forall i :: 0 <= i < |more| ==> !more[i].Dial? && !more[i].ConnectDial?
  {
    if more != [] {
      var last := |more| - 1;
      QuietRun(c, s, more[..last]);
      QuietStep(c, Exec(c, s, more[..last]).value, more[last]);
      assert more == more[..last] + [more[last]];
    }
  }

  /** What makes a Close final: there is something to close or nothing left, and nobody left to dial. */
  predicate CloseWillBeFinal(c: Config, s: State) {
    && !s.connect.NotCalled?
    && !(s.conn.Some? && s.once)
    && (forall k :: 0 <= k < |s.loops| ==> !CanDial(c, s.loops[k]))
  }

  /** A loop that can dial again after Close brings the connection back, given a chance. */
  lemma Revives(c: Config, s: State, k: nat)
    requires k < |s.loops| && CanDial(c, s.loops[k])
    ensures !Final(c, s)
  {
    if s.loops[k].phase.Sleeping? {
      var more := [Dial(k, true)];
      assert more[..0] == [];
      assert Exec(c, s, more[..0]) == Some(s);
      assert Exec(c, s, more).Some? && Exec(c, s, more).value.conn.Some?;
    } else {
      var one, two := [Init(k, false)], [Init(k, false), Dial(k, true)];
      assert one[..0] == [] && two[..1] == one;
      assert Exec(c, s, one[..0]) == Some(s);
      var s1 := Apply(c, s, Init(k, false));
      assert Exec(c, s, one) == Some(s1);
      assert Exec(c, s, two).Some? && Exec(c, s, two).value.conn.Some?;
    }
  }

  lemma QuietIsFinal(c: Config, s: State)
    requires Quiet(c, s)
    ensures Final(c, s)
  {
    forall more: seq<Step> | Exec(c, s, more).Some?
      ensures Exec(c, s, more).value.conn.None?
    {
      QuietRun(c, s, more);
    }
  }

  /** In every reachable state, Close is final if and only if CloseWillBeFinal held before it. */
  lemma CloseFinalIff(c: Config, run: seq<Step>)
    requires Exec(c, Start(), run).Some?
    ensures var s := Exec(c, Start(), run).value;
            Final(c, Apply(c, s, Close)) <==> CloseWillBeFinal(c, s)
  {
    Reachable(c, run);
    var s := Exec(c, Start(), run).value;
    var s' := Apply(c, s, Close);
    hide Exec;
    if CloseWillBeFinal(c, s) {
      assert Quiet(c, s');
      QuietIsFinal(c, s');
    } else if k :| 0 <= k < |s.loops| && CanDial(c, s.loops[k]) {
      assert s'.loops == s.loops;
      Revives(c, s', k);
    } else {
      NotFinalYet(c, s');
    }
  }

  lemma NotFinalYet(c: Config, s: State)
    requires s.conn.Some? || s.connect.NotCalled?
    ensures !Final(c, s)
  {
    var now, dial := [], [ConnectDial(true)];
    assert Exec(c, s, now) == Some(s);
    if s.conn.None? {
      assert dial[..0] == now;
      assert Exec(c, s, dial).Some? && Exec(c, s, dial).value.conn.Some?;
    }
  }

  /** A Close made while connected, with no reconnect going on and none made before Connect, is final. */
  lemma CloseWhileConnected(c: Config, run: seq<Step>)
    requires Exec(c, Start(), run).Some?
    requires var s := Exec(c, Start(), run).value;
             s.conn.Some? && !s.early && forall k :: 0 <= k < |s.loops| ==> !Live(c, s.loops[k])
    ensures Final(c, Apply(c, Exec(c, Start(), run).value, Close))
  {
    Reachable(c, run);
    CloseFinalIff(c, run);
  }

  /** A Close before Connect uses up the once: the connection made later cannot be closed at all. */
  lemma CloseBeforeConnect(c: Config)
    ensures var run := [Close, ConnectDial(true), ConnectInit(true), Close];
            Exec(c, Start(), run).Some? && Exec(c, Start(), run).value.conn.Some?
  {
    var r1, r2 := [Close], [Close, ConnectDial(true)];
    var r3, r4 := r2 + [ConnectInit(true)], [Close, ConnectDial(true), ConnectInit(true), Close];
    assert r1[..0] == [] && r2[..1] == r1 && r3[..2] == r2 && r4[..3] == r3;
    assert Exec(c, Start(), r1[..0]) == Some(Start());
    assert Exec(c, Start(), r1) == Some(Apply(c, Start(), Close));
    assert Exec(c, Start(), r2) == Some(Apply(c, Exec(c, Start(), r1).value, ConnectDial(true)));
    assert Exec(c, Start(), r3) == Some(Apply(c, Exec(c, Start(), r2).value, ConnectInit(true)));
  }

  // ---------------------------------------------------------------- the code

  /** What the network and the OnConnect handler will answer to one reconnect attempt. */
  datatype Attempt = Attempt(dialOk: bool, handlerOk: bool)

  predicate Succeeds(a: Attempt) {
    a.dialOk && a.handlerOk
  }

  /** The connection object; its methods are the steps above, field by field. */
  class TcpConn {
    const c: Config
    var conn: Option<nat>
    var closed: bool
    var closeOnce: bool
    var closeChan: Option<nat>
    var chans: nat                       // channels made so far
    var epoch: nat                       // raw connections made so far
    var running: nat
    var exiting: nat
    var loops: seq<Loop>
    ghost var connectPhase: ConnectPhase
    ghost var closes: seq<nat>           // history
    ghost var early: bool                // history

    ghost predicate Valid()
      reads this
    {
      chans == |closes| && ChannelsClosedOnce(Abs())
    }

    ghost function Abs(): State
      reads this
    {
      State(conn, closed, closeOnce, closeChan, closes, epoch, connectPhase, running, exiting, loops, early)
    }

    constructor (c: Config)
      ensures Valid() && this.c == c && Abs() == Start()
    {
      this.c := c;
      conn, closed, closeOnce, closeChan := None, false, false, None;
      chans, epoch, running, exiting, loops := 0, 0, 0, 0, [];
      connectPhase, closes, early := NotCalled, [], false;
    }

    /** Connect's first half: the dial. */
    method ConnectFirst(dialOk: bool)
      requires Valid() && connectPhase.NotCalled?
      modifies this
      ensures Valid() && Abs() == Apply(c, old(Abs()), ConnectDial(dialOk))
    {
      if dialOk {
        conn, epoch := Some(epoch), epoch + 1;
        closed := false;
        connectPhase := Dialled;
      } else {
        connectPhase := Done;
      }
    }

    /** Its second half: initIO, which starts the read loop unless OnConnect or a Close prevents it. */
    method ConnectSecond(handlerOk: bool) returns (ok: bool)
      requires Valid() && connectPhase.Dialled?
      modifies this
      ensures Valid() && Abs() == Apply(c, old(Abs()), ConnectInit(handlerOk))
      ensures ok == (handlerOk && !old(closed))
    {
      ChannelsStep(c, Abs(), ConnectInit(handlerOk));
      if closeChan.None? {
        closeChan, chans := Some(chans), chans + 1;
        closes := closes + [0];
      }
      connectPhase := Done;
      ok := handlerOk && !closed;
      if ok {
        running := running + 1;
      } else {
        conn := None;
      }
    }

    /** Connect, undisturbed. */
    method Connect(dialOk: bool, handlerOk: bool) returns (ok: bool)
      requires Valid() && connectPhase.NotCalled?
      modifies this
      ensures Valid() && ok == (dialOk && handlerOk)
      ensures var dialled := Apply(c, old(Abs()), ConnectDial(dialOk));
              if dialOk then Abs() == Apply(c, dialled, ConnectInit(handlerOk)) else Abs() == dialled
    {
      ConnectFirst(dialOk);
      ok := false;
      if dialOk {
        ok := ConnectSecond(handlerOk);
      }
    }

    /** The body of close(abort), run at most once per closeOnce; false is ErrNoReady. */
    method CloseOnce(abort: bool) returns (ready: bool)
      requires Valid()
      modifies this
      ensures Valid() && Abs() == CloseConn(c, old(Abs()), abort)
      ensures ready == !(old(conn).None? && !old(closeOnce))
    {
      ChannelsStep(c, Abs(), Step.Close);
      if closeOnce {
        return true;
      }
      closeOnce := true;
      if conn.None? {
        return false;
      }
      closed := true;
      if closeChan.Some? {
        ghost var ch := closeChan.value;
        closes := closes[ch := closes[ch] + 1];
      }
      conn := None;
      if abort && c.enabled {
        loops := loops + [Loop(0, 0, Sleeping)];
      }
      return true;
    }

    method Close() returns (ready: bool)
      requires Valid()
      modifies this
      ensures Valid() && Abs() == Apply(c, old(Abs()), Step.Close)
      ensures ready == !(old(conn).None? && !old(closeOnce))
    {
      early := early || connectPhase.NotCalled?;
      ready := CloseOnce(false);
    }

    /** A read loop is over; its deferred function goes on to abort the connection unless it is closed. */
    method ReaderExit() returns (abort: bool)
      requires Valid() && running > 0
      modifies this
      ensures Valid() && Abs() == Apply(c, old(Abs()), ReaderEnds)
      ensures abort == !closed
    {
      running := running - 1;
      abort := !closed;
      if abort {
        exiting := exiting + 1;
      }
    }

    /** The abort of a read loop that ended without being told to. */
    method AbortClose()
      requires Valid() && exiting > 0
      modifies this
      ensures Valid() && Abs() == Apply(c, old(Abs()), ReaderAborts)
    {
      exiting := exiting - 1;
      var ready := CloseOnce(true);
    }

    /** One dial and, if it succeeds, the locked block that installs the connection. */
    method DialOnce(k: nat, ok: bool)
      requires Valid() && Enabled(c, Abs(), Dial(k, ok))
      modifies this
      ensures Valid()
      ensures Abs() == Apply(c, old(Abs()), Dial(k, ok))
    {
      var l := loops[k];
      if ok {
        conn, epoch := Some(epoch), epoch + 1;
        closed := false;
        closeOnce := false;
        closeChan, chans := Some(chans), chans + 1;
        closes := closes + [0];
        loops := loops[k := Loop(l.i, l.dials + 1, Swapped)];
      } else {
        loops := loops[k := Loop(l.i + 1, l.dials + 1, Sleeping)];
      }
    }

    /** initIO on the new connection, and the block that gives it up if that fails. */
    method InitOnce(k: nat, handlerOk: bool) returns (ok: bool)
      requires Valid() && Enabled(c, Abs(), Init(k, handlerOk))
      modifies this
      ensures Valid()
      ensures Abs() == Apply(c, old(Abs()), Init(k, handlerOk))
      ensures ok == (handlerOk && !old(closed))
    {
      var l := loops[k];
      ok := handlerOk && !closed;
      if ok {
        running := running + 1;
        loops := loops[k := l.(phase := Finished)];
      } else {
        conn := None;
        closed := true;
        loops := loops[k := l.(i := l.i + 1, phase := Sleeping)];
      }
    }

    /**
      reconnect(), undisturbed, for as many attempts as `attempts` lists: a run of Dial and Init steps.
      If none sets up a connection, it has dialled once for each, up to ReconnectMax in all.
     */
    method ReconnectLoop(k: nat, attempts: seq<Attempt>) returns (connected: bool, ghost run: seq<Step>)
      requires Valid() && k < |loops| && loops[k].phase.Sleeping?
      modifies this
      ensures Valid()
      ensures Exec(c, old(Abs()), run) == Some(Abs()) && k < |loops|
      ensures connected ==> conn.Some? && !closed && running == old(running) + 1 && loops[k].phase.Finished?
      ensures !connected ==> running == old(running) && loops[k].phase.Sleeping?
      ensures !connected ==>
                loops[k].dials == old(loops[k].dials) +
                  Allowed(|attempts|, if c.max == 0 then None else Some(c.max - old(loops[k].i)))
      ensures !connected && old(loops[k]) == Loop(0, 0, Sleeping) && |attempts| >= c.max > 0 ==> loops[k].dials == c.max
      ensures connected <==>
                exists n :: 0 <= n < |attempts| && (c.max == 0 || old(loops[k].i) + n < c.max) && Succeeds(attempts[n])
    {
      connected, run := false, [];
      hide Exec;
      ExecNothing(c, Abs());
      var n := 0;
      while n < |attempts| && MayDial(c, loops[k].i) && !connected
        invariant Valid() && n <= |attempts| && k < |loops|
        invariant Exec(c, old(Abs()), run) == Some(Abs())
        invariant connected ==> conn.Some? && !closed && running == old(running) + 1 && loops[k].phase.Finished?
        invariant !connected ==> running == old(running) && loops[k].phase.Sleeping?
        invariant !connected ==> loops[k].dials == old(loops[k].dials) + n && loops[k].i == old(loops[k].i) + n
        invariant c.max != 0 && n > 0 ==> old(loops[k].i) + n <= c.max
        invariant forall j :: 0 <= j < n ==> (Succeeds(attempts[j]) <==> connected && j == n - 1)
        invariant connected ==> n > 0
        decreases |attempts| - n
      {
        ExecSnoc(c, old(Abs()), run, Dial(k, attempts[n].dialOk));
        run := run + [Dial(k, attempts[n].dialOk)];
        DialOnce(k, attempts[n].dialOk);
        if attempts[n].dialOk {
          ExecSnoc(c, old(Abs()), run, Init(k, attempts[n].handlerOk));
          run := run + [Init(k, attempts[n].handlerOk)];
          connected := InitOnce(k, attempts[n].handlerOk);
        }
        n := n + 1;
      }
      assert connected ==> Succeeds(attempts[n - 1]);
    }
  }

  /** n, or as many as are left if that is fewer, and none if less than none is left. */
  function Allowed(n: nat, left: Option<int>): nat {
    if left.None? || n <= left.value then n else if left.value < 0 then 0 else left.value
  }

  lemma ExecNothing(c: Config, s: State)
    ensures Exec(c, s, []) == Some(s)
  {
  }

  lemma ExecSnoc(c: Config, s: State, run: seq<Step>, step: Step)
    requires Exec(c, s, run).Some? && Enabled(c, Exec(c, s, run).value, step)
    ensures Exec(c, s, run + [step]) == Some(Apply(c, Exec(c, s, run).value, step))
  {
    assert (run + [step])[..|run|] == run;
  }
}
