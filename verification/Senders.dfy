/**
  Goroutines sharing one client connection: user writes, the heartbeat, and writers left over from
  before a reconnect. A sender takes its writer's mutex, lays the frame out in that writer's buffer,
  checks that the connection is open, takes the connection's write mutex, and only then picks the
  raw connection it will write to, chunk by chunk. Closing takes no lock; reconnecting swaps the raw
  connection under the write mutex. Steps are the code between two such points; they interleave freely.
 */
module Senders {
  import opened Common
  import opened Wire

  datatype Phase =
    | Idle
    | Waiting(w: nat, m: Message, id: nat)
    | Filled(w: nat, m: Message, id: nat)
    | Checked(w: nat, m: Message, id: nat)
    | Writing(w: nat, m: Message, id: nat, e: nat, sent: nat)
    | Panicked

  /** A raw connection: the bytes put on it, which send each byte came from, the sends completed on it
      and their numbers. */
  datatype Link = Link(bytes: seq<byte>, origin: seq<nat>, failed: bool, log: seq<Message>, ids: seq<nat>)

  datatype State = State(
    links: seq<Link>,           // every raw connection ever dialled
    cur: Option<nat>,           // c.conn
    closed: bool,
    buffs: seq<seq<byte>>,      // one reusable buffer per writer ever created
    mu: map<nat, nat>,          // writer -> goroutine holding its mutex
    writeMu: Option<nat>,
    phases: map<nat, Phase>,    // goroutines not listed are idle
    nextId: nat,
    home: map<nat, nat>)        // history: the raw connection each send picked

  datatype Step =
    | Begin(t: nat, w: nat, m: Message)
    | LockMu(t: nat)
    | CheckOpen(t: nat)
    | LockWrite(t: nat)
    | RawWrite(t: nat, n: nat, ok: bool)
    | Close
    | Swap
    | Unset
    | NewWriter

  function PhaseOf(s: State, t: nat): Phase {
    if t in s.phases then s.phases[t] else Idle
  }

  const EMPTY_LINK := Link([], [], false, [], [])

  /** Just after Connect: one raw connection, one writer. */
  function Init(): State {
    State([EMPTY_LINK], Some(0), false, [[]], map[], None, map[], 0, map[])
  }

  predicate Enabled(s: State, step: Step) {
    match step
    case Begin(t, w, m) => PhaseOf(s, t).Idle? && w < |s.buffs| && !s.closed
    case LockMu(t) => PhaseOf(s, t).Waiting? && PhaseOf(s, t).w !in s.mu
    case CheckOpen(t) => PhaseOf(s, t).Filled?
    case LockWrite(t) => PhaseOf(s, t).Checked? && s.writeMu.None?
    case RawWrite(t, n, ok) =>
      var p := PhaseOf(s, t);
      && p.Writing? && p.w < |s.buffs| && p.e < |s.links|
      && p.sent + n <= |s.buffs[p.w]|
      && (ok ==> n > 0)
    case Close => true
    case Swap => s.writeMu.None?
    case Unset => s.writeMu.None?
    case NewWriter => true
  }

  /** The goroutine is done: WritePacket's deferred unlock has run. */
  function Release(s: State, t: nat, w: nat, p: Phase): State {
    s.(mu := s.mu - {w}, phases := s.phases[t := p])
  }

  function Apply(s: State, step: Step): State
    requires Enabled(s, step)
  {
    match step
    case Begin(t, w, m) => s.(phases := s.phases[t := Waiting(w, m, s.nextId)], nextId := s.nextId + 1)
    case LockMu(t) =>
      var p := PhaseOf(s, t);
      s.(mu := s.mu[p.w := t], phases := s.phases[t := Filled(p.w, p.m, p.id)],
         buffs := if p.w < |s.buffs| then s.buffs[p.w := EncodeFrame(p.m)] else s.buffs)
    case CheckOpen(t) =>
      var p := PhaseOf(s, t);
      if s.cur.None? || s.closed then Release(s, t, p.w, Idle)
      else s.(phases := s.phases[t := Checked(p.w, p.m, p.id)])
    case LockWrite(t) =>
      var p := PhaseOf(s, t);
      if s.cur.None? then Release(s, t, p.w, Panicked)
      else s.(writeMu := Some(t), phases := s.phases[t := Writing(p.w, p.m, p.id, s.cur.value, 0)],
              home := s.home[p.id := s.cur.value])
    case RawWrite(t, n, ok) => ApplyWrite(s, t, n, ok)
    case Close => s.(cur := None, closed := true)
    case Swap => s.(links := s.links + [EMPTY_LINK], cur := Some(|s.links|), closed := false)
    case Unset => s.(cur := None, closed := true)
    case NewWriter => s.(buffs := s.buffs + [[]])
  }

  /** One Write on the raw connection, of the next n bytes of the writer's buffer. */
  function ApplyWrite(s: State, t: nat, n: nat, ok: bool): State
    requires Enabled(s, RawWrite(t, n, ok))
  {
    var p := PhaseOf(s, t);
    var link := s.links[p.e];
    var sent := p.sent + n;
    var put := link.(bytes := link.bytes + s.buffs[p.w][p.sent..sent],
                     origin := link.origin + seq(n, _ => p.id));
    if !ok then
      Release(s.(links := s.links[p.e := put.(failed := true)], writeMu := None), t, p.w, Idle)
    else if sent == |s.buffs[p.w]| then
      Release(s.(links := s.links[p.e := put.(log := link.log + [p.m], ids := link.ids + [p.id])], writeMu := None), t, p.w, Idle)
    else
      s.(links := s.links[p.e := put], phases := s.phases[t := p.(sent := sent)])
  }

  /** The state after a run, if every step of it was possible. */
  function Exec(run: seq<Step>): Option<State> {
    if run == [] then Some(Init())
    else
      var before := Exec(run[..|run| - 1]);
      if before.Some? && Enabled(before.value, run[|run| - 1])
      then Some(Apply(before.value, run[|run| - 1])) else None
  }

  // ---------------------------------------------------------------- the invariant

  predicate HoldsMu(p: Phase) {
    p.Filled? || p.Checked? || p.Writing?
  }

  predicate Active(p: Phase) {
    p.Waiting? || HoldsMu(p)
  }

  /**
    What holds of a goroutine in phase p. Past LockMu it owns its writer's mutex and its frame is in
    that writer's buffer; while writing it owns the write mutex and stays on the connection it picked.
   */
  predicate ThreadOk(s: State, t: nat, p: Phase) {
    && (Active(p) ==> p.w < |s.buffs| && p.id < s.nextId && (p.id in s.home <==> p.Writing?))
    && (HoldsMu(p) ==> p.w in s.mu && s.mu[p.w] == t && s.buffs[p.w] == EncodeFrame(p.m))
    && (p.Writing? ==>
          && s.writeMu == Some(t) && p.e < |s.links| && p.sent < |EncodeFrame(p.m)|
          && s.home[p.id] == p.e)
  }

  predicate ThreadsInv(s: State) {
    && (forall t :: t in s.phases ==> ThreadOk(s, t, s.phases[t]))
    && (s.writeMu.Some? ==> PhaseOf(s, s.writeMu.value).Writing?)
    && (s.cur.Some? ==> s.cur.value < |s.links|)
    && (forall id :: id in s.home ==> id < s.nextId)
  }

  predicate IdsDiffer(s: State) {
    forall t, u :: t in s.phases && u in s.phases && t != u && Active(s.phases[t]) && Active(s.phases[u]) ==>
      s.phases[t].id != s.phases[u].id
  }

  predicate WritingOn(s: State, e: nat) {
    s.writeMu.Some? && PhaseOf(s, s.writeMu.value).Writing? && PhaseOf(s, s.writeMu.value).e == e
  }

  /** What the holder of the write mutex has put on raw connection e of its frame so far. */
  function Partial(s: State, e: nat): seq<byte> {
    if WritingOn(s, e) then
      var p := PhaseOf(s, s.writeMu.value);
      if p.sent <= |EncodeFrame(p.m)| then EncodeFrame(p.m)[..p.sent] else []
    else []
  }

  /** Whole frames, then a prefix of the frame being written. */
  predicate LinkOk(s: State, e: nat, link: Link) {
    && (!link.failed ==> link.bytes == WireOf(link.log) + Partial(s, e))
    && (forall i :: 0 <= i < |link.origin| ==> link.origin[i] in s.home && s.home[link.origin[i]] == e)
  }

  predicate LinksInv(s: State) {
    forall e :: 0 <= e < |s.links| ==> LinkOk(s, e, s.links[e])
  }

  lemma ThreadsWrite(s: State, t: nat, n: nat, ok: bool)
    requires ThreadsInv(s) && Enabled(s, RawWrite(t, n, ok))
    ensures ThreadsInv(ApplyWrite(s, t, n, ok))
  {
    hide EncodeFrame;
    var s' := ApplyWrite(s, t, n, ok);
    forall u | u in s'.phases
      ensures ThreadOk(s', u, s'.phases[u])
    {
      assert ThreadOk(s, u, s.phases[u]) && ThreadOk(s, t, s.phases[t]);
    }
  }

  lemma ThreadsStep(s: State, step: Step)
    requires ThreadsInv(s) && IdsDiffer(s) && Enabled(s, step)
    ensures ThreadsInv(Apply(s, step))
  {
    hide EncodeFrame;
    if step.RawWrite? {
      ThreadsWrite(s, step.t, step.n, step.ok);
      return;
    }
    var s' := Apply(s, step);
    forall u | u in s'.phases
      ensures ThreadOk(s', u, s'.phases[u])
    {
      assert u in s.phases ==> ThreadOk(s, u, s.phases[u]);
    }
  }

  /** A step leaves a goroutine's send as it was, ends it, or (Begin) gives it an unused number. */
  lemma IdOrigin(s: State, step: Step, t: nat)
    requires ThreadsInv(s) && Enabled(s, step)
    requires Active(PhaseOf(Apply(s, step), t))
    ensures var id := PhaseOf(Apply(s, step), t).id;
            if step.Begin? && step.t == t then id == s.nextId
            else Active(PhaseOf(s, t)) && PhaseOf(s, t).id == id < s.nextId
  {
    hide EncodeFrame;
    assert t in s.phases ==> ThreadOk(s, t, s.phases[t]);
  }

  lemma IdsStep(s: State, step: Step)
    requires ThreadsInv(s) && IdsDiffer(s) && Enabled(s, step)
    ensures IdsDiffer(Apply(s, step))
  {
    var s' := Apply(s, step);
    hide ThreadsInv, Apply;
    forall t, u | t in s'.phases && u in s'.phases && t != u && Active(s'.phases[t]) && Active(s'.phases[u])
      ensures s'.phases[t].id != s'.phases[u].id
    {
      IdOrigin(s, step, t);
      IdOrigin(s, step, u);
    }
  }

  /** A raw write extends the current frame's prefix by the next bytes of the buffer. */
  lemma LinksWrite(s: State, t: nat, n: nat, ok: bool)
    requires ThreadsInv(s) && LinksInv(s) && Enabled(s, RawWrite(t, n, ok))
    ensures LinksInv(ApplyWrite(s, t, n, ok))
  {
    hide EncodeFrame, WireOf;
    var s', p := ApplyWrite(s, t, n, ok), PhaseOf(s, t);
    assert ThreadOk(s, t, p);
    var frame, link, sent := EncodeFrame(p.m), s.links[p.e], p.sent + n;
    assert LinkOk(s, p.e, link) && Partial(s, p.e) == frame[..p.sent];
    assert frame[..p.sent] + frame[p.sent..sent] == frame[..sent];
    assert !link.failed ==> link.bytes + frame[p.sent..sent] == WireOf(link.log) + frame[..sent];
    if sent == |frame| {
      WireConcat(link.log, [p.m]);
      WireOne(p.m);
      assert frame[..sent] == frame;
      assert WireOf(link.log + [p.m]) + [] == WireOf(link.log) + frame;
    }
    forall e | 0 <= e < |s'.links|
      ensures LinkOk(s', e, s'.links[e])
    {
      assert LinkOk(s, e, s.links[e]);
    }
  }

  lemma WireOne(m: Message)
    ensures WireOf([m]) == EncodeFrame(m)
  {
  }

  lemma LinksStep(s: State, step: Step)
    requires ThreadsInv(s) && LinksInv(s) && Enabled(s, step)
    ensures LinksInv(Apply(s, step))
  {
    hide EncodeFrame;
    if step.RawWrite? {
      LinksWrite(s, step.t, step.n, step.ok);
      return;
    }
    var s' := Apply(s, step);
    assert step.LockWrite? ==> ThreadOk(s, step.t, PhaseOf(s, step.t));
    forall e | 0 <= e < |s'.links|
      ensures LinkOk(s', e, s'.links[e])
    {
      assert e < |s.links| ==> LinkOk(s, e, s.links[e]);
      assert Partial(s', e) == if e < |s.links| then Partial(s, e) else [];
    }
  }

  /** The messages of the run's sends, by number. */
  function Begun(run: seq<Step>): seq<Message> {
    if run == [] then []
    else
      var step := run[|run| - 1];
      Begun(run[..|run| - 1]) + (if step.Begin? then [step.m] else [])
  }

  /** A goroutine carries the message of its send, and a send being written is not completed. */
  predicate CarriesOk(s: State, begun: seq<Message>, p: Phase) {
    && (Active(p) ==> p.id < |begun| && begun[p.id] == p.m)
    && (p.Writing? ==> p.e < |s.links| && p.id !in s.links[p.e].ids)
  }

  /** What is logged on e was sent, is logged once, and every byte has its send on record. */
  predicate LogOk(s: State, begun: seq<Message>, e: nat, link: Link) {
    && |link.ids| == |link.log| && |link.origin| == |link.bytes|
    && (forall j :: 0 <= j < |link.ids| ==>
          && link.ids[j] < |begun| && begun[link.ids[j]] == link.log[j]
          && link.ids[j] in s.home && s.home[link.ids[j]] == e)
    && (forall i, j :: 0 <= i < j < |link.ids| ==> link.ids[i] != link.ids[j])
  }

  predicate SentInv(s: State, begun: seq<Message>) {
    && |begun| == s.nextId
    && CarriesInv(s, begun) && LogsInv(s, begun)
  }

  predicate CarriesInv(s: State, begun: seq<Message>) {
    forall t :: t in s.phases ==> CarriesOk(s, begun, s.phases[t])
  }

  predicate LogsInv(s: State, begun: seq<Message>) {
    forall e :: 0 <= e < |s.links| ==> LogOk(s, begun, e, s.links[e])
  }

  lemma CarriesWrite(s: State, begun: seq<Message>, t: nat, n: nat, ok: bool)
    requires ThreadsInv(s) && CarriesInv(s, begun) && Enabled(s, RawWrite(t, n, ok))
    ensures CarriesInv(ApplyWrite(s, t, n, ok), begun)
  {
    hide EncodeFrame;
    var s' := ApplyWrite(s, t, n, ok);
    assert ThreadOk(s, t, PhaseOf(s, t));
    forall u | u in s'.phases
      ensures CarriesOk(s', begun, s'.phases[u])
    {
      assert CarriesOk(s, begun, s.phases[u]) && ThreadOk(s, u, s.phases[u]);
    }
  }

  lemma LogsWrite(s: State, begun: seq<Message>, t: nat, n: nat, ok: bool)
    requires LogsInv(s, begun) && Enabled(s, RawWrite(t, n, ok))
    requires CarriesOk(s, begun, PhaseOf(s, t)) && ThreadOk(s, t, PhaseOf(s, t))
    ensures LogsInv(ApplyWrite(s, t, n, ok), begun)
  {
    hide EncodeFrame;
    var s', p := ApplyWrite(s, t, n, ok), PhaseOf(s, t);
    assert LogOk(s, begun, p.e, s.links[p.e]);
    assert LogOk(s', begun, p.e, s'.links[p.e]);
    forall e | 0 <= e < |s'.links| && e != p.e
      ensures LogOk(s', begun, e, s'.links[e])
    {
      assert LogOk(s, begun, e, s.links[e]);
    }
  }

  lemma CarriesStep(s: State, begun: seq<Message>, step: Step)
    requires ThreadsInv(s) && SentInv(s, begun) && Enabled(s, step) && !step.RawWrite?
    ensures CarriesInv(Apply(s, step), begun + if step.Begin? then [step.m] else [])
  {
    hide EncodeFrame;
    var s', begun' := Apply(s, step), begun + if step.Begin? then [step.m] else [];
    forall u | u in s'.phases
      ensures CarriesOk(s', begun', s'.phases[u])
    {
      assert u in s.phases ==> CarriesOk(s, begun, s.phases[u]) && ThreadOk(s, u, s.phases[u]);
      if step.LockWrite? && u == step.t && s'.phases[u].Writing? {
        assert LogOk(s, begun, s.cur.value, s.links[s.cur.value]);
      }
    }
  }

  lemma LogsStep(s: State, begun: seq<Message>, step: Step)
    requires ThreadsInv(s) && LogsInv(s, begun) && Enabled(s, step) && !step.RawWrite?
    ensures LogsInv(Apply(s, step), begun + if step.Begin? then [step.m] else [])
  {
    hide EncodeFrame;
    var s', begun' := Apply(s, step), begun + if step.Begin? then [step.m] else [];
    assert step.LockWrite? ==> ThreadOk(s, step.t, PhaseOf(s, step.t));
    forall e | 0 <= e < |s'.links|
      ensures LogOk(s', begun', e, s'.links[e])
    {
      assert e < |s.links| ==> LogOk(s, begun, e, s.links[e]);
    }
  }

  lemma SentStep(s: State, begun: seq<Message>, step: Step)
    requires ThreadsInv(s) && SentInv(s, begun) && Enabled(s, step)
    ensures SentInv(Apply(s, step), begun + if step.Begin? then [step.m] else [])
  {
    var begun' := begun + if step.Begin? then [step.m] else [];
    NextIdStep(s, step);
    if step.RawWrite? {
      assert begun' == begun;
      assert ThreadOk(s, step.t, PhaseOf(s, step.t)) && CarriesOk(s, begun, PhaseOf(s, step.t));
      hide ApplyWrite, ThreadsInv, CarriesInv, LogsInv;
      CarriesWrite(s, begun, step.t, step.n, step.ok);
      LogsWrite(s, begun, step.t, step.n, step.ok);
    } else {
      hide Apply, ThreadsInv, CarriesInv, LogsInv;
      CarriesStep(s, begun, step);
      LogsStep(s, begun, step);
    }
  }

  lemma NextIdStep(s: State, step: Step)
    requires Enabled(s, step)
    ensures Apply(s, step).nextId == s.nextId + if step.Begin? then 1 else 0
  {
  }

  lemma {:induction false} AlwaysSent(run: seq<Step>)
    requires Exec(run).Some?
    ensures SentInv(Exec(run).value, Begun(run))
  {
    if run != [] {
      var last := |run| - 1;
      AlwaysSent(run[..last]);
      Reachable(run[..last]);
      hide ThreadsInv, IdsDiffer, LinksInv, SentInv, Apply, Enabled;
      SentStep(Exec(run[..last]).value, Begun(run[..last]), run[last]);
    }
  }

  predicate Inv(s: State) {
    ThreadsInv(s) && IdsDiffer(s) && LinksInv(s)
  }

  lemma {:induction false} Reachable(run: seq<Step>)
    requires Exec(run).Some?
    ensures Inv(Exec(run).value)
  {
    hide ThreadsInv, IdsDiffer, LinksInv, Apply, Enabled;
    if run == [] {
      InitInv();
    } else {
      var last := |run| - 1;
      Reachable(run[..last]);
      var s := Exec(run[..last]).value;
      ThreadsStep(s, run[last]);
      IdsStep(s, run[last]);
      LinksStep(s, run[last]);
    }
  }

  lemma InitInv()
    ensures Inv(Init())
  {
  }

  // ---------------------------------------------------------------- what it means

  /**
    In every interleaving, a raw connection no write has failed on carries whole frames followed by a
    proper prefix of the frame of the goroutine that holds the write mutex (nothing, if none does).
   */
  lemma WholeFrames(run: seq<Step>, e: nat)
    requires Exec(run).Some? && e < |Exec(run).value.links|
    ensures var s := Exec(run).value;
            !s.links[e].failed ==>
              if WritingOn(s, e) then
                var p := PhaseOf(s, s.writeMu.value);
                p.sent < |EncodeFrame(p.m)| &&
                s.links[e].bytes == WireOf(s.links[e].log) + EncodeFrame(p.m)[..p.sent]
              else s.links[e].bytes == WireOf(s.links[e].log)
  {
    Reachable(run);
    hide EncodeFrame, WireOf;
    var s := Exec(run).value;
    assert LinkOk(s, e, s.links[e]);
    if WritingOn(s, e) {
      assert ThreadOk(s, s.writeMu.value, PhaseOf(s, s.writeMu.value));
    }
  }

  /** The messages of the sends with these numbers. */
  function MessagesOf(run: seq<Step>, ids: seq<nat>): seq<Message>
    requires forall j :: 0 <= j < |ids| ==> ids[j] < |Begun(run)|
  {
    seq(|ids|, j requires 0 <= j < |ids| => Begun(run)[ids[j]])
  }

  /**
    So the peer decodes exactly the sends completed on that connection, in the order they completed:
    each packet is the message some Begin of the run was given.
   */
  lemma PeerReceives(run: seq<Step>, e: nat)
    requires Exec(run).Some? && e < |Exec(run).value.links|
    requires !Exec(run).value.links[e].failed
    ensures var link := Exec(run).value.links[e];
            && (forall j :: 0 <= j < |link.ids| ==> link.ids[j] < |Begun(run)|)
            && ReadAll(link.bytes).0 == ReceivedAll(MessagesOf(run, link.ids))
  {
    AlwaysSent(run);
    PeerDecodes(run, e);
    var s := Exec(run).value;
    assert LogOk(s, Begun(run), e, s.links[e]);
    assert MessagesOf(run, s.links[e].ids) == s.links[e].log;
  }

  /** No send is completed twice, on whatever connections. */
  lemma SentOnce(run: seq<Step>, e1: nat, j1: nat, e2: nat, j2: nat)
    requires Exec(run).Some?
    requires var s := Exec(run).value;
             && e1 < |s.links| && j1 < |s.links[e1].ids|
             && e2 < |s.links| && j2 < |s.links[e2].ids|
             && s.links[e1].ids[j1] == s.links[e2].ids[j2]
    ensures e1 == e2 && j1 == j2
  {
    AlwaysSent(run);
    var s := Exec(run).value;
    assert LogOk(s, Begun(run), e1, s.links[e1]) && LogOk(s, Begun(run), e2, s.links[e2]);
    assert j1 < j2 || j2 < j1 || j1 == j2;
  }

  /** An undisturbed send, in steps. */
  function SendSteps(t: nat, w: nat, m: Message): seq<Step> {
    [Begin(t, w, m)] + [LockMu(t)] + [CheckOpen(t)] + [LockWrite(t)] + [RawWrite(t, |EncodeFrame(m)|, true)]
  }

  lemma ExecSnoc(run: seq<Step>, step: Step)
    requires Exec(run).Some? && Enabled(Exec(run).value, step)
    ensures Exec(run + [step]) == Some(Apply(Exec(run).value, step))
  {
    assert (run + [step])[..|run|] == run;
  }

  /** From s to s', the frame of m and nothing else was put on the current connection. */
  predicate SentWhole(s: State, s': State, t: nat, w: nat, m: Message) {
    && s.cur.Some? && s.cur.value < |s.links| == |s'.links|
    && var e := s.cur.value;
       && s'.links == s.links[e := s'.links[e]]
       && s'.links[e].bytes == s.links[e].bytes + EncodeFrame(m) && s'.links[e].ids == s.links[e].ids + [s.nextId]
       && PhaseOf(s', t).Idle? && w !in s'.mu && s'.writeMu.None?
  }

  predicate ReadyToSend(s: State, t: nat, w: nat) {
    && PhaseOf(s, t).Idle? && w < |s.buffs| && w !in s.mu
    && s.writeMu.None? && s.cur.Some? && !s.closed
  }

  /**
    In every reachable state in which the connection is open, both mutexes are free and the goroutine is
    idle, a send can run to its end; it puts its frame, and nothing else, on the current connection.
   */
  lemma SendCompletes(run: seq<Step>, t: nat, w: nat, m: Message)
    requires Exec(run).Some? && ReadyToSend(Exec(run).value, t, w)
    ensures var r := Exec(run + SendSteps(t, w, m));
            r.Some? && SentWhole(Exec(run).value, r.value, t, w, m)
  {
    Reachable(run);
    var s, frame := Exec(run).value, EncodeFrame(m);
    assert s.cur.value < |s.links|;
    hide EncodeFrame, Exec, Apply, Enabled, Inv, SentWhole, ReadyToSend;
    ReachWriting(s, t, w, m);
    var r1 := run + [Begin(t, w, m)];
    var r2 := r1 + [LockMu(t)];
    var r3 := r2 + [CheckOpen(t)];
    var r4 := r3 + [LockWrite(t)];
    ExecSnoc(run, Begin(t, w, m));
    ExecSnoc(r1, LockMu(t));
    ExecSnoc(r2, CheckOpen(t));
    ExecSnoc(r3, LockWrite(t));
    WriteWhole(s, Exec(r4).value, t, w, m);
    ExecSnoc(r4, RawWrite(t, |frame|, true));
    assert run + SendSteps(t, w, m) == r4 + [RawWrite(t, |frame|, true)];
  }

  /** About to write: the frame of m is in the buffer, none of it sent. */
  predicate AboutToWrite(s: State, s4: State, t: nat, w: nat, m: Message) {
    && s4.links == s.links && w < |s4.buffs| && s4.buffs[w] == EncodeFrame(m)
    && s.cur.Some? && PhaseOf(s4, t) == Writing(w, m, s.nextId, s.cur.value, 0)
  }

  lemma ReachWriting(s: State, t: nat, w: nat, m: Message)
    requires ReadyToSend(s, t, w)
    ensures Enabled(s, Begin(t, w, m))
    ensures var s1 := Apply(s, Begin(t, w, m));
            Enabled(s1, LockMu(t)) &&
            var s2 := Apply(s1, LockMu(t));
            Enabled(s2, CheckOpen(t)) &&
            var s3 := Apply(s2, CheckOpen(t));
            Enabled(s3, LockWrite(t)) && AboutToWrite(s, Apply(s3, LockWrite(t)), t, w, m)
  {
    hide EncodeFrame;
  }

  lemma WriteWhole(s: State, s4: State, t: nat, w: nat, m: Message)
    requires AboutToWrite(s, s4, t, w, m) && s.cur.value < |s.links|
    ensures var step := RawWrite(t, |EncodeFrame(m)|, true);
            Enabled(s4, step) && SentWhole(s, Apply(s4, step), t, w, m)
  {
    var frame := EncodeFrame(m);
    hide EncodeFrame;
    assert frame[0..|frame|] == frame;
  }

  /**
    Close takes no lock: it can come while a send is writing, and the send goes on with the connection it
    picked.
   */
  lemma CloseDuringWrite(run: seq<Step>, t: nat, n: nat, ok: bool)
    requires Exec(run).Some? && PhaseOf(Exec(run).value, t).Writing?
    requires var p := PhaseOf(Exec(run).value, t);
             p.sent + n <= |EncodeFrame(p.m)| && (ok ==> n > 0)
    ensures var s, r := Exec(run).value, Exec(run + [Close] + [RawWrite(t, n, ok)]);
            var p := PhaseOf(s, t);
            && r.Some? && r.value.cur.None? && p.e < |s.links| == |r.value.links|
            && r.value.links[p.e].bytes == s.links[p.e].bytes + EncodeFrame(p.m)[p.sent..p.sent + n]
  {
    Reachable(run);
    hide EncodeFrame;
    var s := Exec(run).value;
    assert ThreadOk(s, t, PhaseOf(s, t));
    hide Inv, Exec;
    ExecSnoc(run, Close);
    ExecSnoc(run + [Close], RawWrite(t, n, ok));
  }

  lemma PeerDecodes(run: seq<Step>, e: nat)
    requires Exec(run).Some? && e < |Exec(run).value.links|
    requires !Exec(run).value.links[e].failed
    ensures var link := Exec(run).value.links[e];
            ReadAll(link.bytes).0 == ReceivedAll(link.log)
  {
    WholeFrames(run, e);
    hide EncodeFrame, WireOf, ReceivedAll, Exec, ReadPacket;
    var s := Exec(run).value;
    var link := s.links[e];
    var tail := [];
    if WritingOn(s, e) {
      var p := PhaseOf(s, s.writeMu.value);
      tail := EncodeFrame(p.m)[..p.sent];
      if p.sent > 0 {
        ReadCutFrame(p.m, p.sent);
      }
    }
    ReadNothing();
    ReadFrames(link.log, tail);
    assert WireOf(link.log) + [] == WireOf(link.log);
    assert ReadAll(tail).0 == [] && ReceivedAll(link.log) + [] == ReceivedAll(link.log);
  }

  /** No send has bytes on two raw connections, failed or not. */
  lemma NoSplit(run: seq<Step>, e1: nat, i1: nat, e2: nat, i2: nat)
    requires Exec(run).Some?
    requires var s := Exec(run).value;
             && e1 < |s.links| && i1 < |s.links[e1].origin|
             && e2 < |s.links| && i2 < |s.links[e2].origin|
             && s.links[e1].origin[i1] == s.links[e2].origin[i2]
    ensures e1 == e2
  {
    Reachable(run);
    var s := Exec(run).value;
    assert LinkOk(s, e1, s.links[e1]) && LinkOk(s, e2, s.links[e2]);
  }

  /** A writer's mutex that is held is held by a goroutine that has not got to its unlock. */
  predicate LocksHeld(s: State) {
    forall w :: w in s.mu ==> HoldsMu(PhaseOf(s, s.mu[w])) && PhaseOf(s, s.mu[w]).w == w
  }

  lemma LocksWrite(s: State, t: nat, n: nat, ok: bool)
    requires LocksHeld(s) && Enabled(s, RawWrite(t, n, ok))
    ensures LocksHeld(ApplyWrite(s, t, n, ok))
  {
    var s' := ApplyWrite(s, t, n, ok);
    assert forall w :: w in s'.mu ==> w in s.mu && s'.mu[w] == s.mu[w];
  }

  lemma LocksStep(s: State, step: Step)
    requires LocksHeld(s) && Enabled(s, step)
    ensures LocksHeld(Apply(s, step))
  {
    hide EncodeFrame, ApplyWrite;
    if step.RawWrite? {
      LocksWrite(s, step.t, step.n, step.ok);
    }
  }

  /** No lock is left behind, in every interleaving, by sends that completed, failed, were refused or panicked. */
  lemma {:induction false} NoLockLeak(run: seq<Step>)
    requires Exec(run).Some?
    ensures var s := Exec(run).value;
            LocksHeld(s) && (s.writeMu.Some? ==> PhaseOf(s, s.writeMu.value).Writing?)
  {
    Reachable(run);
    if run != [] {
      var last := |run| - 1;
      NoLockLeak(run[..last]);
      LocksStep(Exec(run[..last]).value, run[last]);
      hide IdsDiffer, LinksInv, LocksHeld, Apply, Enabled;
    }
  }

  function Swaps(run: seq<Step>): nat {
    if run == [] then 0 else Swaps(run[..|run| - 1]) + if run[|run| - 1].Swap? then 1 else 0
  }

  /** Every reconnect makes a raw connection of its own, and a current connection is always the newest. */
  lemma {:induction false} CurrentIsNewest(run: seq<Step>)
    requires Exec(run).Some?
    ensures var s := Exec(run).value;
            |s.links| == 1 + Swaps(run) && (s.cur.Some? ==> s.cur.value == Swaps(run))
  {
    if run != [] {
      var last := |run| - 1;
      CurrentIsNewest(run[..last]);
      NewestStep(Exec(run[..last]).value, run[last]);
      hide Apply, Enabled;
    }
  }

  lemma NewestStep(s: State, step: Step)
    requires Enabled(s, step)
    ensures var s' := Apply(s, step);
            && |s'.links| == |s.links| + (if step.Swap? then 1 else 0)
            && (s'.cur.Some? ==> s'.cur == if step.Swap? then Some(|s.links|) else s.cur)
  {
  }

  /** At most one goroutine is writing, whichever writers they use. */
  lemma OneWriter(run: seq<Step>, t: nat, u: nat)
    requires Exec(run).Some?
    requires PhaseOf(Exec(run).value, t).Writing? && PhaseOf(Exec(run).value, u).Writing?
    ensures t == u
  {
    Reachable(run);
    var s := Exec(run).value;
    assert ThreadOk(s, t, PhaseOf(s, t)) && ThreadOk(s, u, PhaseOf(s, u));
  }

  // ---------------------------------------------------------------- the unlocked check

  /** After these steps an open connection is open: the last of them to set it, if any, is a Swap. */
  predicate StillOpen(since: seq<Step>) {
    if since == [] then true
    else
      match since[|since| - 1]
      case Close => false
      case Unset => false
      case Swap => true
      case _ => StillOpen(since[..|since| - 1])
  }

  lemma OpenStep(s: State, step: Step)
    requires Enabled(s, step)
    ensures Apply(s, step).cur.Some? <==> step.Swap? || (s.cur.Some? && !step.Close? && !step.Unset?)
  {
  }

  lemma {:induction false} OpenIff(before: seq<Step>, since: seq<Step>)
    requires Exec(before).Some? && Exec(before).value.cur.Some?
    requires Exec(before + since).Some?
    ensures Exec(before + since).value.cur.Some? <==> StillOpen(since)
  {
    if since == [] {
      assert before + since == before;
    } else {
      var prev := since[..|since| - 1];
      assert (before + since)[..|before + since| - 1] == before + prev;
      assert (before + since)[|before + since| - 1] == since[|since| - 1];
      OpenIff(before, prev);
      OpenStep(Exec(before + prev).value, since[|since| - 1]);
      hide Apply, Enabled;
    }
  }

  /**
    Exactly when a sender whose check of the connection succeeded finds it gone at the lock, and goes
    on to write to a nil connection: when, since the check, the connection was closed and not replaced
    after that. Otherwise it writes.
   */
  lemma PanicIff(before: seq<Step>, since: seq<Step>, t: nat)
    requires before != [] && before[|before| - 1] == CheckOpen(t)
    requires Exec(before).Some? && PhaseOf(Exec(before).value, t).Checked?
    requires Exec(before + since).Some? && Enabled(Exec(before + since).value, LockWrite(t))
    ensures var p := PhaseOf(Apply(Exec(before + since).value, LockWrite(t)), t);
            && (p == Panicked <==> !StillOpen(since))
            && (p.Writing? <==> StillOpen(since))
  {
    assert Exec(before).value.cur.Some?;
    OpenIff(before, since);
    hide Exec;
  }

  /** It does happen: a Close can come between the check and the lock, because Close takes no lock. */
  lemma CloseBetweenCheckAndLock(m: Message)
    ensures var run := [Begin(0, 0, m), LockMu(0), CheckOpen(0), Close, LockWrite(0)];
            Exec(run).Some? && PhaseOf(Exec(run).value, 0) == Panicked
  {
    hide EncodeFrame;
    var r1 := [Begin(0, 0, m)];
    var r2 := [Begin(0, 0, m), LockMu(0)];
    var r3 := [Begin(0, 0, m), LockMu(0), CheckOpen(0)];
    var r4 := [Begin(0, 0, m), LockMu(0), CheckOpen(0), Close];
    var r5 := [Begin(0, 0, m), LockMu(0), CheckOpen(0), Close, LockWrite(0)];
    assert r1[..0] == [] && r2[..1] == r1 && r3[..2] == r2 && r4[..3] == r3 && r5[..4] == r4;
    assert Exec(r1) == Some(Apply(Init(), Begin(0, 0, m)));
    assert PhaseOf(Exec(r2).value, 0) == Filled(0, m, 0);
    assert PhaseOf(Exec(r3).value, 0) == Checked(0, m, 0);
    assert PhaseOf(Exec(r4).value, 0) == Checked(0, m, 0) && Exec(r4).value.cur.None?;
  }
}
