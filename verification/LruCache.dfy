/**
  The LRU cache as the library builds it: a map from keys to the nodes of a circular doubly
  linked list with a sentinel (Go's container/list), refining the recency sequence of LruSpec.
 */
module LruCache {
  import opened Common
  import opened LruSpec

  /** A list node; `key` and `value` are the fields of the entry the node carries. */
  class Element {
    var next: Element?
    var prev: Element?
    var list: List?
    const key: string
    var value: Any

    constructor (key: string, value: Any)
      ensures this.key == key && this.value == value && list == null
    {
      this.key, this.value := key, value;
      next, prev, list := null, null, null;
    }
  }

  /** Consecutive elements point at each other. */
  ghost predicate Linked(ring: seq<Element>)
    reads ring`next, ring`prev
  {
    forall i, j {:trigger ring[i], ring[j]} :: 0 <= i < |ring| && j == i + 1 && j < |ring| ==>
      ring[i].next == ring[j] && ring[j].prev == ring[i]
  }

  ghost predicate NoRepeats(s: seq<Element>) {
    forall i, j :: 0 <= i < j < |s| ==> s[i] != s[j]
  }

  ghost function Dropped<T>(s: seq<T>, i: nat): (r: seq<T>)
    requires i < |s|
    ensures |r| == |s| - 1
  {
    s[..i] + s[i + 1..]
  }

  ghost function ToFront<T>(s: seq<T>, i: nat): (r: seq<T>)
    requires i < |s|
    ensures |r| == |s| && r[0] == s[i]
  {
    [s[i]] + Dropped(s, i)
  }

  /** Where position j of a sequence came from when position i was dropped, or moved to the front. */
  lemma Origin<T>(s: seq<T>, i: nat, j: nat)
    requires i < |s| && j < |s|
    ensures j < |s| - 1 ==> Dropped(s, i)[j] == s[if j < i then j else j + 1]
    ensures ToFront(s, i)[j] == s[if j == 0 then i else if j <= i then j - 1 else j]
  {
  }

  lemma DropOne(s: seq<Element>, members: set<Element>, i: nat)
    requires NoRepeats(s) && i < |s| && Tracks(s, members)
    ensures NoRepeats(Dropped(s, i)) && Tracks(Dropped(s, i), members - {s[i]})
  {
    var t := Dropped(s, i);
    assert forall j :: 0 <= j < |s| && j != i ==> s[j] == t[if j < i then j else j - 1];
  }

  ghost predicate Tracks(s: seq<Element>, members: set<Element>) {
    (forall n :: n in s ==> n in members) && (forall n :: n in members ==> n in s)
  }

  /** The list as Go keeps it: a ring through the sentinel `root`. */
  class List {
    const root: Element
    var len: int
    ghost var nodes: seq<Element>
    ghost var members: set<Element>

    ghost predicate Valid()
      reads this, root`next, root`prev, members`next, members`prev, members`list
    {
      && len == |nodes|
      && Tracks(nodes, members)
      && root !in nodes && NoRepeats(nodes)
      && Linked([root] + nodes + [root])
      && (forall i :: 0 <= i < |nodes| ==> nodes[i].list == this)
    }

    constructor ()
      ensures Valid() && nodes == [] && members == {} && fresh(root)
    {
      root := new Element("", Nil);
      len, nodes, members := 0, [], {};
      new;
      root.next, root.prev := root, root;
    }

    method Back() returns (e: Element?)
      requires Valid()
      ensures nodes == [] ==> e == null
      ensures nodes != [] ==> e == nodes[|nodes| - 1]
    {
      ghost var ring := [root] + nodes + [root];
      assert nodes != [] ==> ring[|nodes|] == nodes[|nodes| - 1] && ring[|nodes| + 1] == root;
      e := if len == 0 then null else root.prev;
    }

    /** Splices `e` in after the sentinel. */
    method InsertFront(e: Element)
      requires Valid() && e != root && e !in members
      modifies this, root`next, root`prev, members`next, members`prev, members`list, e`next, e`prev, e`list
      ensures Valid()
      ensures nodes == [e] + old(nodes) && members == old(members) + {e}
    {
      ghost var ring := [root] + nodes + [root];
      assert ring[0] == root;
      var first := root.next;
      assert first == ring[1];
      e.prev := root;
      e.next := first;
      root.next := e;
      first.prev := e;
      e.list := this;
      len := len + 1;
      nodes := [e] + nodes;
      members := members + {e};
      ghost var ring' := [root] + nodes + [root];
      assert ring' == [root, e] + ring[1..];
    }

    /** Takes `e`, which is at position `i`, out of the ring. */
    method Unlink(e: Element, ghost i: nat)
      requires Valid() && i < |nodes| && nodes[i] == e
      modifies this, root`next, root`prev, members`next, members`prev, members`list
      ensures Valid()
      ensures nodes == Dropped(old(nodes), i) && members == old(members) - {e}
    {
      ghost var ring := [root] + nodes + [root];
      assert ring[i + 1] == e;
      DropOne(nodes, members, i);
      var before, after := e.prev, e.next;
      assert before == ring[i] && after == ring[i + 2];
      before.next := after;
      after.prev := before;
      e.next, e.prev, e.list := null, null, null;
      len := len - 1;
      nodes := Dropped(nodes, i);
      members := members - {e};
      hide Tracks;
      ghost var ring' := [root] + nodes + [root];
      assert ring' == ring[..i + 1] + ring[i + 2..];
      hide Dropped;
      forall a, b | 0 <= a < |ring'| && b == a + 1 && b < |ring'|
        ensures ring'[a].next == ring'[b] && ring'[b].prev == ring'[a]
      {
        if a < i {
          assert ring'[a] == ring[a] && ring'[b] == ring[b];
        } else if a > i {
          assert ring'[a] == ring[a + 1] && ring'[b] == ring[b + 1];
        }
      }
    }

    method PushFront(key: string, value: Any) returns (e: Element)
      requires Valid()
      modifies this, root`next, root`prev, members`next, members`prev, members`list
      ensures Valid() && fresh(e)
      ensures nodes == [e] + old(nodes) && members == old(members) + {e}
      ensures e.key == key && e.value == value
    {
      e := new Element(key, value);
      InsertFront(e);
    }

    method Remove(e: Element, ghost i: nat)
      requires Valid() && i < |nodes| && nodes[i] == e
      modifies this, root`next, root`prev, members`next, members`prev, members`list
      ensures Valid()
      ensures nodes == Dropped(old(nodes), i) && members == old(members) - {e}
    {
      if e.list == this {
        Unlink(e, i);
      }
    }

    method MoveToFront(e: Element, ghost i: nat)
      requires Valid() && i < |nodes| && nodes[i] == e
      modifies this, root`next, root`prev, members`next, members`prev, members`list
      ensures Valid()
      ensures nodes == ToFront(old(nodes), i) && members == old(members)
    {
      ghost var ring := [root] + nodes + [root];
      assert ring[0] == root && ring[1] == nodes[0];
      if e.list != this || root.next == e {
        assert i == 0;
        return;
      }
      Unlink(e, i);
      InsertFront(e);
    }
  }

  /** What the operations on a present key do, in terms of its position. */
  lemma StepsOnHit(s: State, i: nat, value: Any)
    requires KeysDiffer(s.items) && i < |s.items| && !s.closed
    ensures var e := s.items[i];
            && Step(s, Get(e.key)) == (s.(items := ToFront(s.items, i)), e.value)
            && Step(s, Set(e.key, value)).0 == s.(items := [Entry(e.key, value)] + Dropped(s.items, i))
            && Step(s, Delete(e.key)).0 == s.(items := Dropped(s.items, i))
  {
    AtIndex(s.items, i);
  }

  lemma StepsOnMiss(s: State, key: string, value: Any)
    requires !s.closed && forall i :: 0 <= i < |s.items| ==> s.items[i].key != key
    ensures Step(s, Get(key)) == (s, Nil)
    ensures Step(s, Set(key, value)).0 == s.(items := Truncate([Entry(key, value)] + s.items, s.limit))
    ensures Step(s, Delete(key)).0 == s
  {
    Absent(s.items, key);
  }

  class LruCache {
    var cache: map<string, Element>
    var ll: List
    var limit: int
    var closed: bool
    ghost var items: seq<Entry>

    /** Map and list agree: each key is mapped to its own node, and every node is mapped to. */
    ghost predicate Agree()
      reads this, ll, ll.root, ll.members
    {
      && ll.Valid()
      && |items| == |ll.nodes|
      && (forall i :: 0 <= i < |items| ==> items[i] == Entry(ll.nodes[i].key, ll.nodes[i].value))
      && (forall n :: n in ll.members ==> n.key in cache && cache[n.key] == n)
      && (forall k :: k in cache ==> cache[k] in ll.members && cache[k].key == k)
    }

    ghost predicate Valid()
      reads this, ll, ll.root, ll.members
    {
      Agree() && 1 <= limit && |items| <= limit && (closed ==> items == [])
    }

    ghost function Abstract(): State
      requires 0 <= limit
      reads this
    {
      State(items, limit, closed)
    }

    /** The footprint grows only by objects allocated since. */
    twostate predicate OwnsOnlyFresh()
      reads this, ll
    {
      && (ll != old(ll) ==> fresh(ll) && fresh(ll.root))
      && fresh(ll.members - old(ll.members))
    }

    constructor (limit: int)
      ensures Valid() && Abstract() == New(limit)
      ensures this.limit == (if limit >= 1 then limit else 1024) && items == [] && !closed
      ensures fresh(ll) && fresh(ll.root) && fresh(ll.members)
    {
      cache := map[];
      ll := new List();
      this.limit := if limit <= 0 then DEFAULT_LIMIT else limit;
      closed, items := false, [];
    }

    /** A valid object stands for a valid recency sequence. */
    lemma AbstractValid()
      requires Valid()
      ensures LruSpec.Valid(Abstract())
    {
      DifferDistinct(items);
    }

    /** What the operations do when the cache is closed or the key is not mapped. */
    lemma Missing(key: string, value: Any)
      requires Valid() && (closed || key !in cache)
      ensures Step(Abstract(), Op.Get(key)) == (Abstract(), Nil)
      ensures Step(Abstract(), Op.Delete(key)).0 == Abstract()
      ensures !closed ==> Step(Abstract(), Op.Set(key, value)).0 ==
                          Abstract().(items := Truncate([Entry(key, value)] + items, limit))
    {
      if !closed {
        StepsOnMiss(Abstract(), key, value);
      }
    }

    /** A mapped key has its own node; what the operations do in terms of its position. */
    lemma Present(key: string, value: Any) returns (i: nat)
      requires Agree() && !closed && key in cache && 0 <= limit
      ensures i < |ll.nodes| == |items| && ll.nodes[i] == cache[key] && cache[key].key == key
      ensures cache[key] in ll.members
      ensures var s, e := Abstract(), cache[key];
              && Step(s, Op.Get(key)) == (s.(items := ToFront(items, i)), e.value)
              && Step(s, Op.Set(key, value)).0 == s.(items := [Entry(key, value)] + Dropped(items, i))
              && Step(s, Op.Delete(key)).0 == s.(items := Dropped(items, i))
    {
      i :| 0 <= i < |ll.nodes| && ll.nodes[i] == cache[key];
      StepsOnHit(Abstract(), i, value);
    }

    method Promote(elem: Element, ghost i: nat)
      requires Agree() && i < |ll.nodes| && ll.nodes[i] == elem
      modifies this`items, ll, ll.root`next, ll.root`prev, ll.members`next, ll.members`prev, ll.members`list
      ensures Agree() && ll.members == old(ll.members)
      ensures items == ToFront(old(items), i)
      ensures 0 < |ll.nodes| && ll.nodes[0] == elem && elem.value == old(elem.value)
    {
      hide Linked, NoRepeats, Tracks, ToFront, Dropped;
      ll.MoveToFront(elem, i);
      items := ToFront(items, i);
      forall j | 0 <= j < |items|
        ensures items[j] == Entry(ll.nodes[j].key, ll.nodes[j].value)
      {
        Origin(old(ll.nodes), i, j);
        Origin(old(items), i, j);
      }
    }

    method Touch(elem: Element, ghost i: nat) returns (value: Any)
      requires Agree() && i < |ll.nodes| && ll.nodes[i] == elem && elem in ll.members
      modifies this`items, ll, ll.root`next, ll.root`prev, ll.members
      ensures Agree() && ll.members == old(ll.members)
      ensures items == ToFront(old(items), i) && value == old(elem.value)
    {
      hide Agree, ToFront;
      Promote(elem, i);
      value := elem.value;
    }

    method GetPresent(key: string) returns (r: Any)
      requires Valid() && !closed && key in cache
      modifies this, ll, ll.root, ll.members
      ensures Valid() && OwnsOnlyFresh()
      ensures (Abstract(), r) == Step(old(Abstract()), Op.Get(key))
    {
      ghost var i := Present(key, Nil);
      hide Agree, Step, ToFront, Dropped;
      r := Touch(cache[key], i);
    }

    method Get(key: string) returns (r: Any)
      requires Valid()
      modifies this, ll, ll.root, ll.members
      ensures Valid() && OwnsOnlyFresh()
      ensures (Abstract(), r) == Step(old(Abstract()), Op.Get(key))
    {
      if closed || key !in cache {
        Missing(key, Nil);
        r := Nil;
      } else {
        r := GetPresent(key);
      }
    }

    method RemoveElement(elem: Element, ghost i: nat)
      requires Agree() && i < |ll.nodes| && ll.nodes[i] == elem
      modifies this`cache, this`items, ll, ll.root`next, ll.root`prev, ll.members`next, ll.members`prev, ll.members`list
      ensures Agree() && ll.members <= old(ll.members)
      ensures items == Dropped(old(items), i)
    {
      assert elem in ll.members;
      hide Linked, NoRepeats, Tracks, Dropped;
      ll.Remove(elem, i);
      cache := cache - {elem.key};
      items := Dropped(items, i);
      forall j | 0 <= j < |items|
        ensures items[j] == Entry(ll.nodes[j].key, ll.nodes[j].value)
      {
        Origin(old(ll.nodes), i, j);
        Origin(old(items), i, j);
      }
    }

    method RemoveOldest()
      requires Agree()
      modifies this`cache, this`items, ll, ll.root`next, ll.root`prev, ll.members`next, ll.members`prev, ll.members`list
      ensures Agree() && ll.members <= old(ll.members)
      ensures items == if old(items) == [] then [] else old(items)[..|old(items)| - 1]
    {
      hide Linked, NoRepeats, Tracks;
      var elem := ll.Back();
      if elem != null {
        RemoveElement(elem, |ll.nodes| - 1);
      }
    }

    method PushNew(key: string, value: Any)
      requires Agree() && key !in cache
      modifies this`cache, this`items, ll, ll.root`next, ll.root`prev, ll.members`next, ll.members`prev, ll.members`list
      ensures Agree() && fresh(ll.members - old(ll.members))
      ensures items == [Entry(key, value)] + old(items)
    {
      hide Linked, NoRepeats, Tracks;
      var elem := ll.PushFront(key, value);
      cache := cache[key := elem];
      items := [Entry(key, value)] + items;
    }

    method SetValue(elem: Element, ghost i: nat, value: Any)
      requires Agree() && i < |ll.nodes| && ll.nodes[i] == elem
      modifies this`items, elem`value
      ensures Agree()
      ensures items == old(items)[i := Entry(elem.key, value)]
    {
      hide Linked, Tracks;
      elem.value := value;
      items := items[i := Entry(elem.key, value)];
    }

    method Update(elem: Element, ghost i: nat, value: Any)
      requires Agree() && i < |ll.nodes| && ll.nodes[i] == elem && elem in ll.members
      modifies this`items, ll, ll.root`next, ll.root`prev, ll.members
      ensures Agree() && ll.members == old(ll.members)
      ensures items == [Entry(elem.key, value)] + Dropped(old(items), i)
    {
      hide Agree, Dropped;
      Promote(elem, i);
      SetValue(elem, 0, value);
    }

    /** The eviction loop: the oldest entries go until the limit is met. */
    method Evict()
      requires Agree() && 0 <= limit
      modifies this`cache, this`items, ll, ll.root`next, ll.root`prev, ll.members`next, ll.members`prev, ll.members`list
      ensures Agree() && ll.members <= old(ll.members)
      ensures items == Truncate(old(items), limit)
    {
      hide Linked, NoRepeats, Tracks;
      while ll.len > limit
        invariant Agree() && ll.members <= old(ll.members)
        invariant |items| <= |old(items)| && items == old(items)[..|items|]
        invariant limit <= |items| || items == old(items)
        decreases ll.len
      {
        RemoveOldest();
      }
    }

    method SetPresent(key: string, value: Any)
      requires Valid() && !closed && key in cache
      modifies this, ll, ll.root, ll.members
      ensures Valid() && OwnsOnlyFresh()
      ensures Abstract() == Step(old(Abstract()), Op.Set(key, value)).0
    {
      ghost var i := Present(key, value);
      hide Agree, Step, Dropped;
      Update(cache[key], i, value);
    }

    method SetAbsent(key: string, value: Any)
      requires Valid() && !closed && key !in cache
      modifies this, ll, ll.root, ll.members
      ensures Valid() && OwnsOnlyFresh()
      ensures Abstract() == Step(old(Abstract()), Op.Set(key, value)).0
    {
      Missing(key, value);
      hide Agree, Step;
      PushNew(key, value);
      Evict();
    }

    method Set(key: string, value: Any)
      requires Valid()
      modifies this, ll, ll.root, ll.members
      ensures Valid() && OwnsOnlyFresh()
      ensures Abstract() == Step(old(Abstract()), Op.Set(key, value)).0
    {
      if closed {
        return;
      }
      if key in cache {
        SetPresent(key, value);
      } else {
        SetAbsent(key, value);
      }
    }

    method Delete(key: string)
      requires Valid()
      modifies this, ll, ll.root, ll.members
      ensures Valid() && OwnsOnlyFresh()
      ensures Abstract() == Step(old(Abstract()), Op.Delete(key)).0
    {
      if closed || key !in cache {
        Missing(key, Nil);
      } else {
        ghost var i := Present(key, Nil);
        hide Agree, Step, Dropped;
        RemoveElement(cache[key], i);
      }
    }

    method Close()
      requires Valid()
      modifies this, ll, ll.root, ll.members
      ensures Valid() && OwnsOnlyFresh()
      ensures Abstract() == Step(old(Abstract()), Op.Close).0
    {
      hide Linked, NoRepeats, Tracks;
      if closed {
        return;
      }
      closed := true;
      cache := map[];
      ll := new List();
      items := [];
    }

    method Length() returns (n: int)
      requires Valid()
      ensures n == |Abstract().items|
    {
      n := ll.len;
    }

    /** One operation, whichever it is. */
    method Do(op: Op) returns (r: Any)
      requires Valid()
      modifies this, ll, ll.root, ll.members
      ensures Valid() && OwnsOnlyFresh()
      ensures (Abstract(), r) == Step(old(Abstract()), op)
    {
      r := Nil;
      match op {
        case Get(key) => r := Get(key);
        case Set(key, value) => Set(key, value);
        case Delete(key) => Delete(key);
        case Close => Close();
      }
    }
  }

  /** Any history on a new object: its state and answers are those the theorems of LruSpec are about. */
  method Replay(limit: int, history: seq<Op>) returns (cache: LruCache, outputs: seq<Any>)
    ensures cache.Valid() && cache.Abstract() == After(limit, history)
    ensures cache.limit == (if limit >= 1 then limit else 1024) && |cache.ll.nodes| <= cache.limit
    ensures |outputs| == |history|
    ensures forall i :: 0 <= i < |history| ==> outputs[i] == Output(limit, history, i)
  {
    cache := new LruCache(limit);
    outputs := [];
    for i := 0 to |history|
      invariant cache.Valid() && cache.Abstract() == After(limit, history[..i])
      invariant fresh(cache) && fresh(cache.ll) && fresh(cache.ll.root) && fresh(cache.ll.members)
      invariant |outputs| == i && forall j :: 0 <= j < i ==> outputs[j] == Output(limit, history, j)
    {
      hide LruCache.Agree, Step;
      assert history[..i + 1][..i] == history[..i];
      var r := cache.Do(history[i]);
      outputs := outputs + [r];
    }
    assert history[..|history|] == history;
    AfterValid(limit, history);
  }
}
