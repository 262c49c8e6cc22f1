/**
  Service lookup over the asynchronous connection: a caller registers a one-slot channel under
  "name@group", sends LOOKUP, and waits for an ack to fill the channel or for a timeout; its entry is
  deleted when it returns. Here are the client object, what an ack and Close put into the channels,
  and what is made of the services that come back; LookupProtocol.dfy has the interleavings.
 */
module Lookup {
  import opened Common

  datatype Instance = Instance(healthy: bool, enable: bool, weight: int)

  datatype Service = Service(name: string, group: string, instances: seq<Option<Instance>>)

  /** What travels through a waiter's channel. */
  datatype LookupResult = Services(list: seq<Option<Service>>) | ClientClosed

  function LookupKey(name: string, group: string): string {
    name + "@" + group
  }

  // ---------------------------------------------------------------- strconv.Atoi

  predicate Digits(s: string) {
    s != [] && forall i :: 0 <= i < |s| ==> '0' <= s[i] <= '9'
  }

  function Value(s: string): nat
    requires forall i :: 0 <= i < |s| ==> '0' <= s[i] <= '9'
  {
    if s == [] then 0
    else Value(s[..|s| - 1]) * 10 + (s[|s| - 1] as int - '0' as int)
  }

  function Atoi(s: string): Option<int> {
    var signed := s != [] && (s[0] == '-' || s[0] == '+');
    var d := if signed then s[1..] else s;
    if !Digits(d) then None
    else
      var abs: int := Value(d);
      var v := if signed && s[0] == '-' then -abs else abs;
      if -0x8000_0000_0000_0000 <= v < 0x8000_0000_0000_0000 then Some(v) else None
  }

  /** strconv.Itoa on a number that is not negative. */
  function Decimal(n: nat): (s: string)
    ensures Digits(s)
  {
    var digit := ('0' as int + n % 10) as char;
    if n < 10 then [digit] else Decimal(n / 10) + [digit]
  }

  lemma {:induction false} ValueDecimal(n: nat)
    ensures Value(Decimal(n)) == n
  {
    var s := Decimal(n);
    var digit := ('0' as int + n % 10) as char;
    if n < 10 {
      assert s[..0] == [];
    } else {
      ValueDecimal(n / 10);
      assert s[..|s| - 1] == Decimal(n / 10) && s[|s| - 1] == digit;
    }
  }

  lemma AtoiDigits(d: string, v: int)
    requires Digits(d)
    ensures v == Value(d) < 0x8000_0000_0000_0000 ==> Atoi(d) == Some(v) && Atoi(['+'] + d) == Some(v)
    ensures -0x8000_0000_0000_0000 <= v && -v == Value(d) ==> Atoi(['-'] + d) == Some(v)
  {
    hide Value;
    assert (['+'] + d)[1..] == d && (['-'] + d)[1..] == d;
    assert '0' <= d[0] <= '9';
  }

  /** Every 64-bit number is read back from its decimal form, with or without a plus sign. */
  lemma AtoiDecimal(v: int, d: string)
    requires d == Decimal(if v < 0 then -v else v)
    ensures 0 <= v < 0x8000_0000_0000_0000 ==> Atoi(d) == Some(v) && Atoi(['+'] + d) == Some(v)
    ensures -0x8000_0000_0000_0000 <= v <= 0 ==> Atoi(['-'] + d) == Some(v)
  {
    hide Value, Decimal, Atoi;
    ValueDecimal(if v < 0 then -v else v);
    AtoiDigits(d, v);
  }

  /** Nothing is accepted but digits after at most one sign. */
  lemma AtoiShape(s: string)
    requires Atoi(s).Some?
    ensures s != [] && '0' <= s[|s| - 1] <= '9' && -0x8000_0000_0000_0000 <= Atoi(s).value < 0x8000_0000_0000_0000
    ensures forall i :: 0 <= i < |s| ==> '0' <= s[i] <= '9' || (i == 0 && (s[i] == '-' || s[i] == '+'))
  {
    if s[0] == '-' || s[0] == '+' {
      assert forall i :: 1 <= i < |s| ==> s[i] == s[1..][i - 1];
    }
  }

  // ---------------------------------------------------------------- acks

  function KeysOf(svc: Service, default: string): seq<string> {
    [LookupKey(svc.name, svc.group), LookupKey(svc.name, default), LookupKey(svc.name, "")]
  }

  /** Some service of the ack is to be delivered under `key`. */
  predicate Names(services: seq<Option<Service>>, default: string, key: string) {
    exists j :: 0 <= j < |services| && services[j].Some? && key in KeysOf(services[j].value, default)
  }

  /** A send that does not block: dropped if the slot is full. */
  function Offer(buf: Option<LookupResult>, r: LookupResult): Option<LookupResult> {
    if buf.None? then Some(r) else buf
  }

  predicate Addressed(services: seq<Option<Service>>, default: string, key: string) {
    services == [] || Names(services, default, key)
  }

  ghost predicate Hit(pending: map<string, nat>, default: string, services: seq<Option<Service>>, ch: nat) {
    exists key :: key in pending && pending[key] == ch && Addressed(services, default, key)
  }

  /** The channels after an ack. */
  ghost function AckBufs(pending: map<string, nat>, bufs: seq<Option<LookupResult>>, default: string,
                         services: seq<Option<Service>>): (r: seq<Option<LookupResult>>)
    ensures |r| == |bufs|
  {
    seq(|bufs|, ch requires 0 <= ch < |bufs| =>
      if Hit(pending, default, services, ch) then Offer(bufs[ch], Services(services)) else bufs[ch])
  }

  /** The channels after Close. */
  ghost function CloseBufs(pending: map<string, nat>, bufs: seq<Option<LookupResult>>): (r: seq<Option<LookupResult>>)
    ensures |r| == |bufs|
  {
    seq(|bufs|, ch requires 0 <= ch < |bufs| =>
      if exists key :: key in pending && pending[key] == ch then Offer(bufs[ch], ClientClosed) else bufs[ch])
  }

  // ---------------------------------------------------------------- the result

  /** The first service of that name, if any. */
  function FirstNamed(services: seq<Option<Service>>, name: string): Option<Service> {
    if services == [] then None
    else if services[0].Some? && services[0].value.name == name then services[0]
    else FirstNamed(services[1..], name)
  }

  datatype ServiceResult = Found(svc: Option<Service>) | NotFound

  /** What GetService returns for the services a lookup brought back. */
  function Select(services: seq<Option<Service>>, name: string): ServiceResult {
    if FirstNamed(services, name).Some? then Found(FirstNamed(services, name))
    else if services != [] then Found(services[0])
    else NotFound
  }

  predicate Named(svc: Option<Service>, name: string) {
    svc.Some? && svc.value.name == name
  }

  /** FirstNamed finds the entry at the least index with the name, and that entry itself. */
  lemma {:induction false} FirstNamedAt(services: seq<Option<Service>>, name: string, i: nat)
    requires i <= |services| && (forall j :: 0 <= j < i ==> !Named(services[j], name))
    requires i < |services| ==> Named(services[i], name)
    ensures FirstNamed(services, name) == if i < |services| then services[i] else None
  {
    if i > 0 {
      assert !Named(services[0], name);
      FirstNamedAt(services[1..], name, i - 1);
    }
  }

  /** The answer is the first entry of the name. */
  predicate IsFirstNamed(services: seq<Option<Service>>, name: string, r: ServiceResult) {
    exists i :: 0 <= i < |services| && Named(services[i], name) && r == Found(services[i]) &&
      forall j :: 0 <= j < i ==> !Named(services[j], name)
  }

  lemma {:induction false} SelectsFirst(services: seq<Option<Service>>, name: string, k: nat)
    requires k < |services| && Named(services[k], name)
    ensures IsFirstNamed(services, name, Select(services, name))
    decreases k
  {
    if j :| 0 <= j < k && Named(services[j], name) {
      SelectsFirst(services, name, j);
    } else {
      FirstNamedAt(services, name, k);
    }
  }

  method GetService(services: seq<Option<Service>>, name: string) returns (r: ServiceResult)
    ensures r == Select(services, name)
    ensures (exists i :: 0 <= i < |services| && Named(services[i], name)) ==> IsFirstNamed(services, name, r)
    ensures services != [] && (forall i :: 0 <= i < |services| ==> !Named(services[i], name)) ==> r == Found(services[0])
    ensures services == [] ==> r == NotFound
  {
    for i := 0 to |services|
      invariant forall j :: 0 <= j < i ==> !Named(services[j], name)
    {
      if services[i].Some? && services[i].value.name == name {
        FirstNamedAt(services, name, i);
        return Found(services[i]);
      }
    }
    FirstNamedAt(services, name, |services|);
    if |services| > 0 {
      return Found(services[0]);
    }
    return NotFound;
  }

  predicate Usable(inst: Option<Instance>) {
    inst.Some? && inst.value.healthy && inst.value.enable
  }

  /** pickInstance: the first healthy and enabled instance if there is one, else the first. */
  method PickInstance(svc: Option<Service>) returns (r: Option<Option<Instance>>)
    ensures r.None? <==> svc.None? || svc.value.instances == []
    ensures r.Some? && (forall x :: x in svc.value.instances ==> !Usable(x)) ==> r.value == svc.value.instances[0]
    ensures r.Some? && (exists x :: x in svc.value.instances && Usable(x)) ==>
              exists i :: 0 <= i < |svc.value.instances| && r.value == svc.value.instances[i] && Usable(r.value) &&
                forall j :: 0 <= j < i ==> !Usable(svc.value.instances[j])
  {
    if svc.None? || |svc.value.instances| == 0 {
      return None;
    }
    var instances := svc.value.instances;
    for i := 0 to |instances|
      invariant forall j :: 0 <= j < i ==> !Usable(instances[j])
    {
      if Usable(instances[i]) {
        return Some(instances[i]);
      }
    }
    return Some(instances[0]);
  }

  // ---------------------------------------------------------------- the client object

  class RpcClient {
    const groupName: string
    var pending: map<string, nat>
    var bufs: seq<Option<LookupResult>>   // every channel made so far

    ghost predicate Valid()
      reads this
    {
      forall key :: key in pending ==> pending[key] < |bufs|
    }

    constructor (groupName: string)
      ensures Valid() && this.groupName == groupName && pending == map[] && bufs == []
    {
      this.groupName := groupName;
      pending, bufs := map[], [];
    }

    /** lookup up to the point where the mutex is released; None is an error return. */
    method Register(name: string, group: string) returns (ch: Option<nat>)
      requires Valid()
      modifies this
      ensures Valid()
      ensures var g := if group == "" then groupName else group;
              var key := LookupKey(name, g);
              if Atoi(g).None? || key in old(pending)
              then ch.None? && pending == old(pending) && bufs == old(bufs)
              else ch == Some(|old(bufs)|) && pending == old(pending)[key := |old(bufs)|] && bufs == old(bufs) + [None]
    {
      var g := if group == "" then groupName else group;
      if Atoi(g).None? {
        return None;
      }
      var key := LookupKey(name, g);
      if key in pending {
        return None;
      }
      ch := Some(|bufs|);
      bufs := bufs + [None];
      pending := pending[key := ch.value];
    }

    /** lookup's deferred delete. */
    method Unregister(key: string)
      requires Valid()
      modifies this`pending
      ensures Valid() && pending == old(pending) - {key}
    {
      pending := pending - {key};
    }

    method Send(ch: nat, r: LookupResult)
      requires ch < |bufs|
      modifies this`bufs
      ensures bufs == old(bufs)[ch := Offer(old(bufs)[ch], r)]
    {
      if bufs[ch].None? {
        bufs := bufs[ch := Some(r)];
      }
    }

    method HandleLookupAck(ack: Option<seq<Option<Service>>>)
      requires Valid()
      modifies this`bufs
      ensures Valid() && |bufs| == |old(bufs)|
      ensures ack.None? ==> bufs == old(bufs)
      ensures ack.Some? ==> bufs == AckBufs(pending, old(bufs), groupName, ack.value)
    {
      if ack.None? {
        return;
      }
      var services := ack.value;
      if |services| == 0 {
        WakeAll();
      } else {
        DeliverAll(services);
      }
    }

    /** Exactly the channels of the keys in `done` have been offered r. */
    ghost predicate OfferedTo(was: seq<Option<LookupResult>>, done: set<string>, r: LookupResult)
      reads this
    {
      && |bufs| == |was|
      && forall ch :: 0 <= ch < |bufs| ==>
           bufs[ch] == if (exists key :: key in done && key in pending && pending[key] == ch)
                       then Offer(was[ch], r) else was[ch]
    }

    method OfferOne(ghost was: seq<Option<LookupResult>>, ghost done: set<string>, key: string, r: LookupResult)
      requires Valid() && key in pending && OfferedTo(was, done, r)
      modifies this`bufs
      ensures Valid() && OfferedTo(was, done + {key}, r)
    {
      Send(pending[key], r);
      forall ch | 0 <= ch < |bufs|
        ensures bufs[ch] == if (exists k :: k in done + {key} && k in pending && pending[k] == ch)
                            then Offer(was[ch], r) else was[ch]
      {
        if ch == pending[key] {
          assert key in done + {key};
        } else {
          assert (exists k :: k in done + {key} && k in pending && pending[k] == ch) <==>
                 (exists k :: k in done && k in pending && pending[k] == ch);
        }
      }
    }

    /** An ack without services wakes every waiter. */
    method WakeAll()
      requires Valid()
      modifies this`bufs
      ensures Valid() && bufs == AckBufs(pending, old(bufs), groupName, [])
    {
      var r := Services([]);
      var left := pending.Keys;
      while left != {}
        invariant Valid() && left <= pending.Keys && OfferedTo(old(bufs), pending.Keys - left, r)
        decreases left
      {
        var key :| key in left;
        OfferOne(old(bufs), pending.Keys - left, key, r);
        assert pending.Keys - left + {key} == pending.Keys - (left - {key});
        left := left - {key};
      }
      forall ch | 0 <= ch < |bufs|
        ensures bufs[ch] == AckBufs(pending, old(bufs), groupName, [])[ch]
      {
        assert Hit(pending, groupName, [], ch) <==>
               exists key :: key in pending.Keys - left && key in pending && pending[key] == ch;
      }
    }

    /** The keys of one service, skipping those already delivered to in this ack. */
    method DeliverOne(svc: Service, services: seq<Option<Service>>, ghost was: seq<Option<LookupResult>>,
                      delivered: set<string>) returns (delivered': set<string>)
      requires Valid() && OfferedTo(was, delivered, Services(services))
      modifies this`bufs
      ensures Valid() && OfferedTo(was, delivered', Services(services))
      ensures delivered' == delivered + (set k | k in KeysOf(svc, groupName) && k in pending)
    {
      var keys := KeysOf(svc, groupName);
      delivered' := delivered;
      for i := 0 to |keys|
        invariant Valid() && OfferedTo(was, delivered', Services(services))
        invariant delivered' == delivered + (set k | k in keys[..i] && k in pending)
      {
        var key := keys[i];
        assert keys[..i + 1] == keys[..i] + [key];
        if key in pending && key !in delivered' {
          OfferOne(was, delivered', key, Services(services));
          delivered' := delivered' + {key};
        }
      }
      assert keys[..|keys|] == keys;
    }

    method DeliverAll(services: seq<Option<Service>>)
      requires Valid() && services != []
      modifies this`bufs
      ensures Valid() && bufs == AckBufs(pending, old(bufs), groupName, services)
    {
      var delivered: set<string> := {};
      for i := 0 to |services|
        invariant Valid() && OfferedTo(old(bufs), delivered, Services(services))
        invariant forall k :: k in delivered <==> k in pending && Names(services[..i], groupName, k)
      {
        NamesNext(services, groupName, i);
        if services[i].Some? {
          delivered := DeliverOne(services[i].value, services, old(bufs), delivered);
        }
      }
      assert services[..|services|] == services;
      forall ch | 0 <= ch < |bufs|
        ensures bufs[ch] == AckBufs(pending, old(bufs), groupName, services)[ch]
      {
        assert Hit(pending, groupName, services, ch) <==>
               exists key :: key in delivered && key in pending && pending[key] == ch;
      }
    }

    method Close()
      requires Valid()
      modifies this
      ensures Valid() && pending == map[] && bufs == CloseBufs(old(pending), old(bufs))
    {
      var left := pending.Keys;
      while left != {}
        invariant Valid() && pending == old(pending) && left <= pending.Keys
        invariant OfferedTo(old(bufs), pending.Keys - left, ClientClosed)
        decreases left
      {
        var key :| key in left;
        OfferOne(old(bufs), pending.Keys - left, key, ClientClosed);
        assert pending.Keys - left + {key} == pending.Keys - (left - {key});
        left := left - {key};
      }
      forall ch | 0 <= ch < |bufs|
        ensures bufs[ch] == CloseBufs(pending, old(bufs))[ch]
      {
        assert (exists key :: key in pending && pending[key] == ch) <==>
               exists key :: key in pending.Keys - left && key in pending && pending[key] == ch;
      }
      pending := map[];
    }
  }

  lemma NamesNext(services: seq<Option<Service>>, default: string, i: nat)
    requires i < |services|
    ensures forall k :: Names(services[..i + 1], default, k) <==>
              Names(services[..i], default, k) || (services[i].Some? && k in KeysOf(services[i].value, default))
  {
    forall k
      ensures Names(services[..i + 1], default, k) <==>
                Names(services[..i], default, k) || (services[i].Some? && k in KeysOf(services[i].value, default))
    {
      var a, b := services[..i], services[..i + 1];
      if Names(a, default, k) {
        var j :| 0 <= j < |a| && a[j].Some? && k in KeysOf(a[j].value, default);
        assert b[j] == a[j];
      }
      if services[i].Some? && k in KeysOf(services[i].value, default) {
        assert b[i] == services[i];
      }
      if Names(b, default, k) {
        var j :| 0 <= j < |b| && b[j].Some? && k in KeysOf(b[j].value, default);
        assert j < i ==> a[j] == b[j];
      }
    }
  }
}
