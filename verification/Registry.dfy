/**
  The server's registry of connections. The accept loop creates a connection (whose read loop may
  close it at once), enters it in the map, and later removes it when its close notification arrives on
  a bounded queue; a notification that finds the queue full is dropped. Connections close at any time.
  The body of close() is taken as one step, and shutdown on its untimed path as one step.
 */
module Registry {
  import opened Common

  const ID_SPACE: nat := 0x1_0000_0000
  const QUEUE_SIZE: nat := 16

  /** A connection object: whether it was entered in the map, is open, lost its close notification. */
  datatype Sock = Sock(id: nat, registered: bool, open: bool, dropped: bool)

  datatype State = State(
    nextID: nat,
    socks: seq<Sock>,            // every connection object made, in order
    conns: map<nat, nat>,        // id -> index into socks
    outgoing: seq<nat>,
    registering: Option<nat>,    // made by the accept loop, not yet in the map
    shuttingDown: bool)

  datatype Outcome = Accepted | Rejected | ClosedByHandler

  datatype Step =
    | Accept(out: Outcome)
    | Insert
    | Drop(c: nat)
    | TakeOutgoing
    | Shutdown

  function Init(): State {
    State(1, [], map[], [], None, false)
  }

  /** The loop is in its select. */
  predicate AtBoundary(s: State) {
    s.registering.None? && !s.shuttingDown
  }

  predicate Enabled(s: State, step: Step) {
    match step
    case Accept(_) => AtBoundary(s)
    case Insert => s.registering.Some? && s.registering.value < |s.socks| && !s.shuttingDown
    case Drop(c) => c < |s.socks| && s.socks[c].open
    case TakeOutgoing => AtBoundary(s) && s.outgoing != [] && s.outgoing[0] < |s.socks|
    case Shutdown => AtBoundary(s)
  }

  /** OnClose: a send on the queue that does not block. */
  function Notify(s: State, c: nat): State
    requires c < |s.socks|
  {
    if |s.outgoing| < QUEUE_SIZE then s.(outgoing := s.outgoing + [c])
    else s.(socks := s.socks[c := s.socks[c].(dropped := true)])
  }

  function CloseSock(s: State, c: nat): State
    requires c < |s.socks|
  {
    Notify(s.(socks := s.socks[c := s.socks[c].(open := false)]), c)
  }

  /** closeConns marks a connection to skip its notification before closing it. */
  function AllClosed(socks: seq<Sock>, conns: map<nat, nat>): (r: seq<Sock>)
    ensures |r| == |socks|
  {
    seq(|socks|, c requires 0 <= c < |socks| =>
      if c in conns.Values then socks[c].(open := false) else socks[c])
  }

  function Apply(s: State, step: Step): State
    requires Enabled(s, step)
  {
    match step
    case Accept(out) =>
      var id := (s.nextID + 1) % ID_SPACE;
      var c := |s.socks|;
      var s1 := s.(nextID := id, socks := s.socks + [Sock(id, false, out.Accepted?, false)]);
      (match out
       case Accepted => s1.(registering := Some(c))
       case Rejected => s1
       case ClosedByHandler => Notify(s1, c))
    case Insert =>
      var c := s.registering.value;
      s.(conns := s.conns[s.socks[c].id := c], registering := None,
         socks := s.socks[c := s.socks[c].(registered := true)])
    case Drop(c) => CloseSock(s, c)
    case TakeOutgoing =>
      s.(conns := s.conns - {s.socks[s.outgoing[0]].id}, outgoing := s.outgoing[1..])
    case Shutdown =>
      s.(shuttingDown := true, socks := AllClosed(s.socks, s.conns), conns := map[], outgoing := [])
  }

  function Exec(run: seq<Step>): Option<State> {
    if run == [] then Some(Init())
    else
      var before := Exec(run[..|run| - 1]);
      if before.Some? && Enabled(before.value, run[|run| - 1])
      then Some(Apply(before.value, run[|run| - 1])) else None
  }

  // ---------------------------------------------------------------- the invariant

  function IdOf(c: nat): nat {
    (c + 2) % ID_SPACE
  }

  /** Connection c is entered and is open, or its notification is queued, or it was dropped. */
  predicate Accounted(s: State, c: nat)
    requires c < |s.socks|
  {
    s.socks[c].registered && (s.socks[c].open || c in s.outgoing || s.socks[c].dropped)
  }

  predicate SockOk(s: State, c: nat)
    requires c < |s.socks|
  {
    var k := s.socks[c];
    && k.id == IdOf(c)
    && (k.open ==> c !in s.outgoing && !k.dropped && (k.registered || s.registering == Some(c)))
    && (k.dropped ==> c !in s.outgoing)
    && (s.registering == Some(c) ==> !k.registered && (k.open || c in s.outgoing || k.dropped))
  }

  predicate QueueOk(s: State) {
    && (forall i :: 0 <= i < |s.outgoing| ==> s.outgoing[i] < |s.socks|)
    && (forall i, j :: 0 <= i < j < |s.outgoing| ==> s.outgoing[i] != s.outgoing[j])
  }

  predicate Shape(s: State) {
    && s.nextID == (|s.socks| + 1) % ID_SPACE
    && (s.registering.Some? ==> s.registering.value < |s.socks| && !s.shuttingDown)
    && (forall c :: 0 <= c < |s.socks| ==> SockOk(s, c))
    && QueueOk(s)
  }

  /** The map holds exactly the connections accounted for, each under its own id. */
  predicate Conserved(s: State) {
    && (forall id :: id in s.conns ==>
          s.conns[id] < |s.socks| && IdOf(s.conns[id]) == id && Accounted(s, s.conns[id]))
    && (forall c :: 0 <= c < |s.socks| && Accounted(s, c) ==> IdOf(c) in s.conns && s.conns[IdOf(c)] == c)
  }

  lemma IdsDistinct(a: nat, b: nat)
    requires a < ID_SPACE && b < ID_SPACE
    ensures IdOf(a) == IdOf(b) ==> a == b
  {
  }

  lemma TailMembers(q: seq<nat>)
    requires q != [] && forall i, j :: 0 <= i < j < |q| ==> q[i] != q[j]
    ensures forall c :: c in q[1..] <==> c in q && c != q[0]
  {
  }

  lemma QueueStep(s: State, step: Step)
    requires Shape(s) && Enabled(s, step)
    ensures QueueOk(Apply(s, step))
  {
    hide IdOf;
    if step.Drop? {
      assert SockOk(s, step.c);
    }
  }

  lemma SockStep(s: State, step: Step, c: nat)
    requires Shape(s) && Enabled(s, step) && c < |Apply(s, step).socks|
    ensures SockOk(Apply(s, step), c)
  {
    assert c < |s.socks| ==> SockOk(s, c);
    if step.TakeOutgoing? {
      TailMembers(s.outgoing);
    }
  }

  lemma ShapeStep(s: State, step: Step)
    requires Shape(s) && Enabled(s, step)
    ensures Shape(Apply(s, step))
  {
    var s' := Apply(s, step);
    QueueStep(s, step);
    forall c | 0 <= c < |s'.socks|
      ensures SockOk(s', c)
    {
      SockStep(s, step, c);
    }
    hide SockOk, QueueOk;
  }

  /** A step changes the accounting of the connection it is about, and of no other. */
  lemma AccountedStep(s: State, step: Step, c: nat)
    requires Shape(s) && Enabled(s, step) && !step.Shutdown? && c < |Apply(s, step).socks|
    ensures c == |s.socks| ==> !Accounted(Apply(s, step), c)
    ensures c < |s.socks| ==>
              Accounted(Apply(s, step), c) ==
              (match step
               case Insert => Accounted(s, c) || s.registering == Some(c)
               case TakeOutgoing => Accounted(s, c) && c != s.outgoing[0]
               case _ => Accounted(s, c))
  {
    assert c < |s.socks| ==> SockOk(s, c);
    if step.TakeOutgoing? {
      TailMembers(s.outgoing);
    }
  }

  /**
    The step touches another connection's entry: it enters a connection under an id that is in use, or
    handles a notification whose id is by now another connection's.
   */
  predicate Clobbers(s: State, step: Step)
    requires Enabled(s, step)
  {
    match step
    case Insert => s.socks[s.registering.value].id in s.conns
    case TakeOutgoing =>
      var id := s.socks[s.outgoing[0]].id;
      id in s.conns && s.conns[id] != s.outgoing[0]
    case _ => false
  }

  /** Otherwise an entry that stays accounted for is not disturbed. */
  lemma EntryStays(s: State, step: Step, c: nat)
    requires Shape(s) && Conserved(s) && Enabled(s, step) && !step.Shutdown? && !Clobbers(s, step)
    requires c < |Apply(s, step).socks| && Accounted(Apply(s, step), c)
    ensures var s' := Apply(s, step);
            IdOf(c) in s'.conns && s'.conns[IdOf(c)] == c
  {
    AccountedStep(s, step, c);
    assert SockOk(s, c);
    if step.Insert? {
      assert SockOk(s, s.registering.value);
    } else if step.TakeOutgoing? {
      assert SockOk(s, s.outgoing[0]);
    }
  }

  lemma ConservedStep(s: State, step: Step)
    requires Shape(s) && Conserved(s) && Enabled(s, step) && !step.Shutdown? && !Clobbers(s, step)
    ensures Conserved(Apply(s, step))
  {
    var s' := Apply(s, step);
    forall c | 0 <= c < |s'.socks| && Accounted(s', c)
      ensures IdOf(c) in s'.conns && s'.conns[IdOf(c)] == c
    {
      EntryStays(s, step, c);
    }
    forall id | id in s'.conns
      ensures s'.conns[id] < |s'.socks| && IdOf(s'.conns[id]) == id && Accounted(s', s'.conns[id])
    {
      var c := s'.conns[id];
      if step.Insert? && s.registering == Some(c) {
        AccountedStep(s, step, c);
        assert SockOk(s, c);
      } else {
        assert id in s.conns && s.conns[id] == c;
        AccountedStep(s, step, c);
        if step.TakeOutgoing? {
          assert SockOk(s, s.outgoing[0]);
        }
      }
    }
  }

  lemma ClobberBreaks(s: State, step: Step)
    requires Shape(s) && Conserved(s) && Enabled(s, step) && !step.Shutdown? && Clobbers(s, step)
    ensures !Conserved(Apply(s, step))
  {
    var c := if step.Insert? then s.registering.value else s.outgoing[0];
    assert SockOk(s, c);
    var other := s.conns[IdOf(c)];
    AccountedStep(s, step, other);
    assert Accounted(Apply(s, step), other);
  }

  /** Exactly when a step keeps the registry conserved. */
  lemma ConservedIff(s: State, step: Step)
    requires Shape(s) && Conserved(s) && Enabled(s, step) && !step.Shutdown?
    ensures Conserved(Apply(s, step)) <==> !Clobbers(s, step)
  {
    if Clobbers(s, step) {
      ClobberBreaks(s, step);
    } else {
      ConservedStep(s, step);
    }
  }

  lemma {:induction false} Reachable(run: seq<Step>)
    requires Exec(run).Some?
    ensures Shape(Exec(run).value)
    ensures forall c :: 0 <= c < |Exec(run).value.socks| ==> Exec(run).value.socks[c].id == (c + 2) % 0x1_0000_0000
  {
    if run != [] {
      var last := |run| - 1;
      Reachable(run[..last]);
      ShapeStep(Exec(run[..last]).value, run[last]);
      hide Apply, Enabled;
    }
    forall c | 0 <= c < |Exec(run).value.socks|
      ensures Exec(run).value.socks[c].id == (c + 2) % 0x1_0000_0000
    {
      assert SockOk(Exec(run).value, c);
    }
  }

  /** No step of the run touches another connection's entry. */
  predicate NoClobber(run: seq<Step>)
    requires Exec(run).Some?
  {
    run == [] ||
    (NoClobber(run[..|run| - 1]) && !Clobbers(Exec(run[..|run| - 1]).value, run[|run| - 1]))
  }

  /** The registry was conserved after every step of the run. */
  predicate AlwaysConserved(run: seq<Step>)
    requires Exec(run).Some?
  {
    Conserved(Exec(run).value) && (run == [] || AlwaysConserved(run[..|run| - 1]))
  }

  /** Over whole runs up to shutdown: conserved throughout if and only if no step clobbers. */
  lemma {:induction false} ConservedRunIff(run: seq<Step>)
    requires Exec(run).Some? && !Exec(run).value.shuttingDown
    ensures AlwaysConserved(run) <==> NoClobber(run)
  {
    if run != [] {
      var last := |run| - 1;
      var s := Exec(run[..last]).value;
      assert !run[last].Shutdown? && !s.shuttingDown;
      ConservedRunIff(run[..last]);
      Reachable(run[..last]);
      if NoClobber(run[..last]) {
        assert Conserved(s);
        ConservedIff(s, run[last]);
      }
    }
  }

  lemma SocksGrow(s: State, step: Step)
    requires Enabled(s, step)
    ensures |s.socks| <= |Apply(s, step).socks|
  {
  }

  /** With at most 2^32 connections made, ids are distinct and no step clobbers. */
  lemma {:induction false} NoClobberBelowWrap(run: seq<Step>)
    requires Exec(run).Some? && !Exec(run).value.shuttingDown
    requires |Exec(run).value.socks| <= 0x1_0000_0000
    ensures NoClobber(run)
  {
    if run != [] {
      var last := |run| - 1;
      var s := Exec(run[..last]).value;
      assert !run[last].Shutdown? && !s.shuttingDown;
      SocksGrow(s, run[last]);
      NoClobberBelowWrap(run[..last]);
      ConservedRunIff(run[..last]);
      Reachable(run[..last]);
      DistinctIdsNoClobber(s, run[last]);
    }
  }

  lemma DistinctIdsNoClobber(s: State, step: Step)
    requires Shape(s) && Conserved(s) && Enabled(s, step) && |s.socks| <= ID_SPACE
    ensures !Clobbers(s, step)
  {
    if step.Insert? || step.TakeOutgoing? {
      var c := if step.Insert? then s.registering.value else s.outgoing[0];
      assert SockOk(s, c);
      if IdOf(c) in s.conns {
        IdsDistinct(c, s.conns[IdOf(c)]);
      }
    }
  }

  // ---------------------------------------------------------------- what it means

  /**
    At every loop boundary before shutdown, unless some step so far clobbered an entry, connection c is
    in the map if and only if it was entered and is open, queued, or lost its notification.
   */
  lemma Conservation(run: seq<Step>, c: nat)
    requires Exec(run).Some? && AtBoundary(Exec(run).value) && NoClobber(run)
    requires c < |Exec(run).value.socks|
    ensures var s := Exec(run).value;
            c in s.conns.Values <==>
              s.socks[c].registered && (s.socks[c].open || c in s.outgoing || s.socks[c].dropped)
    ensures Exec(run).value.socks[c].open ==> c in Exec(run).value.conns.Values
  {
    Reachable(run);
    ConservedRunIff(run);
    var s := Exec(run).value;
    assert SockOk(s, c);
    hide IdOf;
    if Accounted(s, c) {
      assert s.conns[IdOf(c)] == c;
    }
    if c in s.conns.Values {
      var id :| id in s.conns && s.conns[id] == c;
    }
  }

  /** In particular with at most 2^32 connections made so far. */
  lemma ConservationBelowWrap(run: seq<Step>, c: nat)
    requires Exec(run).Some? && AtBoundary(Exec(run).value)
    requires c < |Exec(run).value.socks| <= 0x1_0000_0000
    ensures var s := Exec(run).value;
            c in s.conns.Values <==>
              s.socks[c].registered && (s.socks[c].open || c in s.outgoing || s.socks[c].dropped)
    ensures Exec(run).value.socks[c].open ==> c in Exec(run).value.conns.Values
  {
    NoClobberBelowWrap(run);
    Conservation(run, c);
  }

  // ---------------------------------------------------------------- lost notifications

  /** The step closes connection c, whose notification is then due. */
  predicate Closes(s: State, step: Step, c: nat) {
    step == Drop(c) || (step == Accept(ClosedByHandler) && c == |s.socks|)
  }

  /** A closing connection is queued while fewer than 16 are; otherwise the queue stays and it is marked. */
  lemma CloseNotifies(s: State, step: Step, c: nat)
    requires Enabled(s, step) && Closes(s, step, c)
    ensures var s' := Apply(s, step);
            && c < |s'.socks| && !s'.socks[c].open
            && (|s.outgoing| < 16 ==>
                  s'.outgoing == s.outgoing + [c] && s'.socks[c].dropped == (c < |s.socks| && s.socks[c].dropped))
            && (|s.outgoing| >= 16 ==> s'.outgoing == s.outgoing && s'.socks[c].dropped)
  {
  }

  /** Connection c closed at a moment of the run when 16 notifications were queued. */
  predicate ClosedOnFull(run: seq<Step>, c: nat)
    requires Exec(run).Some?
  {
    run != [] &&
    var prev := run[..|run| - 1];
    var s := Exec(prev).value;
    ClosedOnFull(prev, c) || (Closes(s, run[|run| - 1], c) && |s.outgoing| >= 16)
  }

  predicate Marked(s: State, c: nat) {
    c < |s.socks| && s.socks[c].dropped
  }

  lemma MarkedStep(s: State, step: Step, c: nat)
    requires Enabled(s, step)
    ensures Marked(Apply(s, step), c) <==> Marked(s, c) || (Closes(s, step, c) && |s.outgoing| >= 16)
  {
  }

  /** In every run, exactly the connections that closed on a full queue lost their notification. */
  lemma {:induction false} LostIff(run: seq<Step>, c: nat)
    requires Exec(run).Some?
    ensures Marked(Exec(run).value, c) <==> ClosedOnFull(run, c)
  {
    if run != [] {
      var last := |run| - 1;
      LostIff(run[..last], c);
      MarkedStep(Exec(run[..last]).value, run[last], c);
      hide Apply, Enabled, Marked;
    }
  }

  /** So with an empty queue that was not full when c closed, the map tells whether c is open. */
  lemma ExactWhenDrained(run: seq<Step>, c: nat)
    requires Exec(run).Some? && AtBoundary(Exec(run).value) && NoClobber(run)
    requires c < |Exec(run).value.socks| && Exec(run).value.outgoing == [] && !ClosedOnFull(run, c)
    ensures c in Exec(run).value.conns.Values <==> Exec(run).value.socks[c].open
  {
    Conservation(run, c);
    LostIff(run, c);
    Reachable(run);
    assert SockOk(Exec(run).value, c);
  }

  /** An open connection can close at any moment, also before it is entered in the map; it then counts as closed. */
  lemma ClosesAnyTime(run: seq<Step>, c: nat)
    requires Exec(run).Some? && c < |Exec(run).value.socks| && Exec(run).value.socks[c].open
    ensures var r := Exec(run + [Drop(c)]);
            r.Some? && c < |r.value.socks| && !r.value.socks[c].open && (c in r.value.outgoing || r.value.socks[c].dropped)
  {
    ExecSnoc(run, Drop(c));
    CloseNotifies(Exec(run).value, Drop(c), c);
  }

  function Takes(n: nat): seq<Step> {
    if n == 0 then [] else Takes(n - 1) + [TakeOutgoing]
  }

  /** From every reachable boundary the queue can be emptied, which closes nothing. */
  lemma {:induction false} Drains(run: seq<Step>, n: nat)
    requires Exec(run).Some? && AtBoundary(Exec(run).value) && n <= |Exec(run).value.outgoing|
    ensures Exec(run + Takes(n)).Some?
    ensures var s, s' := Exec(run).value, Exec(run + Takes(n)).value;
            AtBoundary(s') && s'.socks == s.socks && s'.outgoing == s.outgoing[n..]
  {
    if n == 0 {
      assert run + Takes(0) == run;
    } else {
      Drains(run, n - 1);
      Reachable(run + Takes(n - 1));
      ExecSnoc(run + Takes(n - 1), TakeOutgoing);
      assert run + Takes(n - 1) + [TakeOutgoing] == run + Takes(n);
    }
  }

  /** And then, with at most 2^32 connections made, a closed connection is gone unless it closed on a full queue. */
  lemma ClosedIsRemoved(run: seq<Step>, c: nat)
    requires Exec(run).Some? && AtBoundary(Exec(run).value) && c < |Exec(run).value.socks| <= 0x1_0000_0000
    ensures var r := Exec(run + Takes(|Exec(run).value.outgoing|));
            && r.Some? && r.value.outgoing == []
            && (c in r.value.conns.Values <==>
                  Exec(run).value.socks[c].registered && (Exec(run).value.socks[c].open || ClosedOnFull(run, c)))
  {
    var s := Exec(run).value;
    Drains(run, |s.outgoing|);
    ConservationBelowWrap(run + Takes(|s.outgoing|), c);
    LostIff(run, c);
  }

  /** So shutdown leaves no connection open. */
  lemma ShutdownClosesAll(run: seq<Step>, c: nat)
    requires Exec(run).Some? && AtBoundary(Exec(run).value) && NoClobber(run)
    requires c < |Exec(run).value.socks|
    ensures var s' := Apply(Exec(run).value, Shutdown);
            !s'.socks[c].open && s'.conns == map[] && s'.outgoing == []
  {
    Conservation(run, c);
  }

  /** The run that accepts n connections and closes none. */
  function AcceptMany(n: nat): seq<Step> {
    if n == 0 then [] else AcceptMany(n - 1) + [Accept(Accepted), Insert]
  }

  lemma ExecSnoc(run: seq<Step>, step: Step)
    requires Exec(run).Some? && Enabled(Exec(run).value, step)
    ensures Exec(run + [step]) == Some(Apply(Exec(run).value, step))
  {
    assert (run + [step])[..|run|] == run;
  }

  predicate AllUp(s: State, n: nat) {
    && AtBoundary(s) && |s.socks| == n && s.nextID == (n + 1) % ID_SPACE
    && (forall c :: 0 <= c < n ==> s.socks[c].registered && s.socks[c].open)
    && (forall id :: id in s.conns ==> IdOf(s.conns[id]) == id)
    && (n > 0 ==> IdOf(n - 1) in s.conns && s.conns[IdOf(n - 1)] == n - 1)
  }

  lemma AcceptOne(s: State, n: nat)
    requires AllUp(s, n)
    ensures var s1 := Apply(s, Accept(Accepted));
            Enabled(s1, Insert) && AllUp(Apply(s1, Insert), n + 1)
  {
    var s1 := Apply(s, Accept(Accepted));
    assert s1.socks[n].id == IdOf(n);
  }

  lemma {:induction false} AfterAccepts(n: nat)
    ensures Exec(AcceptMany(n)).Some? && AllUp(Exec(AcceptMany(n)).value, n)
  {
    if n > 0 {
      AfterAccepts(n - 1);
      var before := AcceptMany(n - 1);
      hide AllUp, Apply;
      AcceptOne(Exec(before).value, n - 1);
      assert Enabled(Exec(before).value, Accept(Accepted)) by { AllUpBoundary(Exec(before).value, n - 1); }
      ExecSnoc(before, Accept(Accepted));
      ExecSnoc(before + [Accept(Accepted)], Insert);
      assert AcceptMany(n) == before + [Accept(Accepted)] + [Insert];
    }
  }

  lemma AllUpBoundary(s: State, n: nat)
    requires AllUp(s, n)
    ensures AtBoundary(s)
  {
  }

  /** One connection more, and the id of the first is reused: it is open and no longer in the map. */
  lemma IdsWrapAround()
    ensures var r := Exec(AcceptMany(ID_SPACE + 1));
            && r.Some? && |r.value.socks| == ID_SPACE + 1
            && r.value.socks[0].open && r.value.socks[0].registered && 0 !in r.value.conns.Values
  {
    AfterAccepts(ID_SPACE + 1);
    var s := Exec(AcceptMany(ID_SPACE + 1)).value;
    hide Exec;
    assert IdOf(ID_SPACE) == IdOf(0) == 2 && s.conns[2] == ID_SPACE;
    assert forall id :: id in s.conns && s.conns[id] == 0 ==> id == 2;
  }

  // ---------------------------------------------------------------- the code

  /** The server object; run undisturbed, its methods are steps of the system above. */
  class TcpServer {
    var nextID: nat
    var socks: seq<Sock>
    var conns: map<nat, nat>
    var outgoing: seq<nat>
    var registering: Option<nat>
    var shuttingDown: bool

    function Abs(): State
      reads this
    {
      State(nextID, socks, conns, outgoing, registering, shuttingDown)
    }

    constructor ()
      ensures Abs() == Init()
    {
      nextID, socks, conns, outgoing, registering, shuttingDown := 1, [], map[], [], None, false;
    }

    /** OnClose's notification. */
    method OnClose(c: nat)
      requires c < |socks|
      modifies this
      ensures Abs() == Notify(old(Abs()), c)
      ensures |old(outgoing)| < 16 ==> outgoing == old(outgoing) + [c] && socks == old(socks)
      ensures |old(outgoing)| >= 16 ==> outgoing == old(outgoing) && socks[c].dropped
    {
      if |outgoing| < QUEUE_SIZE {
        outgoing := outgoing + [c];
      } else {
        socks := socks[c := socks[c].(dropped := true)];
      }
    }

    /** registerConn: false is an error return. */
    method RegisterConn(out: Outcome) returns (ok: bool)
      requires AtBoundary(Abs())
      modifies this
      ensures ok == out.Accepted?
      ensures var s1 := Apply(old(Abs()), Accept(out));
              if ok then Enabled(s1, Insert) && Abs() == Apply(s1, Insert) else Abs() == s1
    {
      nextID := (nextID + 1) % ID_SPACE;
      var c := |socks|;
      socks := socks + [Sock(nextID, false, out.Accepted?, false)];
      if out.Rejected? {
        return false;
      }
      if out.ClosedByHandler? {
        OnClose(c);
        return false;
      }
      registering := Some(c);
      conns := conns[socks[c].id := c];
      socks := socks[c := socks[c].(registered := true)];
      registering := None;
      return true;
    }

    method RemoveConn(c: nat)
      requires c < |socks|
      modifies this`conns
      ensures conns == old(conns) - {socks[c].id}
    {
      conns := conns - {socks[c].id};
    }

    /** The loop's case for a close notification. */
    method HandleOutgoing()
      requires Enabled(Abs(), TakeOutgoing)
      modifies this
      ensures Abs() == Apply(old(Abs()), TakeOutgoing)
    {
      var c := outgoing[0];
      outgoing := outgoing[1..];
      RemoveConn(c);
    }

    /** closeConns: takes the map's connections, clears it, then closes them one by one. */
    method CloseConns()
      requires forall id :: id in conns ==> conns[id] < |socks|
      modifies this`conns, this`socks
      ensures conns == map[] && socks == AllClosed(old(socks), old(conns))
    {
      var taken := conns.Values;
      conns := map[];
      var left := taken;
      while left != {}
        invariant left <= taken && |socks| == |old(socks)| && conns == map[]
        invariant forall c :: 0 <= c < |socks| ==>
          socks[c] == if c in taken - left then old(socks)[c].(open := false) else old(socks)[c]
        decreases left
      {
        var c :| c in left;
        socks := socks[c := socks[c].(open := false)];
        left := left - {c};
      }
    }

    method DrainOutgoing()
      requires forall i :: 0 <= i < |outgoing| ==> outgoing[i] < |socks|
      modifies this`conns, this`outgoing
      ensures outgoing == []
      ensures conns == old(conns) - (set i | 0 <= i < |old(outgoing)| :: socks[old(outgoing)[i]].id)
    {
      ghost var n := 0;
      while outgoing != []
        invariant n <= |old(outgoing)| && outgoing == old(outgoing)[n..]
        invariant conns == old(conns) - (set i | 0 <= i < n :: socks[old(outgoing)[i]].id)
        decreases |outgoing|
      {
        RemoveConn(outgoing[0]);
        outgoing := outgoing[1..];
        n := n + 1;
      }
    }

    /** shutdown, with the waits taken as satisfied; a second call does nothing. */
    method Stop()
      requires registering.None? && QueueOk(Abs())
      requires forall id :: id in conns ==> conns[id] < |socks|
      modifies this
      ensures Abs() == if old(shuttingDown) then old(Abs()) else Apply(old(Abs()), Shutdown)
    {
      if shuttingDown {
        return;
      }
      shuttingDown := true;
      CloseConns();
      DrainOutgoing();
      assert conns == map[];
    }
  }
}
