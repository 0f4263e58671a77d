/** The cache of prepared statements of a connection: reference counted, least recently looked up evicted
    first. Every critical section under statementCacheMu is one atomic step. A statement is named by its
    position in the list of all statements ever prepared; its text is fixed when it is prepared. */
module StatementCache {

  import opened Wrappers

  datatype Stmt = Stmt(query: string, refs: nat, evicted: bool)

  datatype Cache = Cache(entries: map<string, nat>, order: seq<string>, stmts: seq<Stmt>)

  predicate NoDup(order: seq<string>)
  {
    forall i, j :: 0 <= i < j < |order| ==> order[i] != order[j]
  }

  /** The order list holds each cached text exactly once, every text leads to a statement prepared for it
      that is not evicted, and the size is within the limit. */
  ghost predicate CacheOk(c: Cache, limit: nat)
  {
    && NoDup(c.order)
    && (forall q :: q in c.order <==> q in c.entries)
    && |c.order| <= limit
    && (forall q :: q in c.entries ==> EntryOk(c.stmts, q, c.entries[q]))
  }

  predicate EntryOk(stmts: seq<Stmt>, q: string, id: nat)
  {
    id < |stmts| && stmts[id].query == q && !stmts[id].evicted
  }

  /** The order list without the first occurrence of a text. */
  function Without(order: seq<string>, q: string): seq<string>
  {
    if order == [] then [] else if order[0] == q then order[1..] else [order[0]] + Without(order[1..], q)
  }

  lemma {:induction false} WithoutAt(order: seq<string>, q: string, i: nat)
    requires i <= |order| && (forall j :: 0 <= j < i ==> order[j] != q)
    ensures i < |order| && order[i] == q ==> Without(order, q) == order[..i] + order[i + 1..]
    ensures i == |order| ==> Without(order, q) == order
    decreases i
  {
    if i > 0 {
      WithoutAt(order[1..], q, i - 1);
      assert order == [order[0]] + order[1..];
      if i < |order| && order[i] == q {
        assert order[1..][i - 1] == q;
        assert order[..i] + order[i + 1..] == [order[0]] + (order[1..][..i - 1] + order[1..][i..]);
      }
    }
  }

  lemma CutOut(order: seq<string>, i: nat)
    requires NoDup(order) && i < |order|
    ensures NoDup(order[..i] + order[i + 1..])
    ensures forall t :: t in order[..i] + order[i + 1..] <==> t in order && t != order[i]
  {
    var w := order[..i] + order[i + 1..];
    assert forall j :: 0 <= j < |w| ==> w[j] == order[if j < i then j else j + 1];
    forall t | t in order && t != order[i] ensures t in w {
      var j :| 0 <= j < |order| && order[j] == t;
      assert w[if j < i then j else j - 1] == t;
    }
    forall t | t in w ensures t in order && t != order[i] {
      var j :| 0 <= j < |w| && w[j] == t;
      assert order[if j < i then j else j + 1] == t;
    }
  }

  /** With each text once, one is removed and the others keep their order. */
  lemma WithoutFacts(order: seq<string>, q: string) returns (i: nat)
    requires NoDup(order) && q in order
    ensures i < |order| && order[i] == q && Without(order, q) == order[..i] + order[i + 1..]
    ensures NoDup(Without(order, q)) && |Without(order, q)| == |order| - 1
    ensures forall t :: t in Without(order, q) <==> t in order && t != q
  {
    i :| 0 <= i < |order| && order[i] == q;
    WithoutAt(order, q, i);
    CutOut(order, i);
  }

  // ------------------------------------------------------------------ the critical sections, on values

  function AddRefs(c: Cache, id: nat, refs: nat): Cache
    requires id < |c.stmts|
  {
    c.(stmts := c.stmts[id := c.stmts[id].(refs := refs)])
  }

  /** A lookup that finds the text takes a reference and moves the text to the end of the order. */
  function Hit(c: Cache, q: string): Cache
    requires q in c.entries && c.entries[q] < |c.stmts|
  {
    AddRefs(c, c.entries[q], c.stmts[c.entries[q]].refs + 1).(order := Without(c.order, q) + [q])
  }

  /** Room for one more: the text at the front of the order goes when the cache is full. */
  function Evicted(c: Cache): Cache
    requires |c.order| > 0 && c.order[0] in c.entries && c.entries[c.order[0]] < |c.stmts|
  {
    var id := c.entries[c.order[0]];
    Cache(c.entries - {c.order[0]}, c.order[1..], c.stmts[id := c.stmts[id].(evicted := true)])
  }

  function Inserted(c: Cache, q: string, id: nat): Cache
    requires id < |c.stmts|
  {
    AddRefs(c, id, 1).(entries := c.entries[q := id], order := c.order + [q])
  }

  /** What the second critical section does: the new cache, the statement to use, and one to close. A text that
      was inserted meanwhile wins and keeps its place in the order. */
  datatype Published = Published(cache: Cache, used: nat, victim: Option<nat>)

  predicate CanPublish(c: Cache, q: string, id: nat)
  {
    && id < |c.stmts| && c.stmts[id].query == q && !c.stmts[id].evicted
    && forall t :: t in c.entries ==> c.entries[t] != id
  }

  function PublishOn(c: Cache, limit: nat, q: string, id: nat): (r: Published)
    requires CacheOk(c, limit) && limit > 0 && CanPublish(c, q, id)
    ensures CacheOk(r.cache, limit)
  {
    if q in c.entries then
      var used := c.entries[q];
      AddRefsOk(c, limit, used, c.stmts[used].refs + 1);
      Published(AddRefs(c, used, c.stmts[used].refs + 1), used, Some(id))
    else if |c.order| < limit then
      InsertedOk(c, limit, q, id);
      Published(Inserted(c, q, id), id, None)
    else
      var out := c.entries[c.order[0]];
      EvictedOk(c, limit);
      InsertedOk(Evicted(c), limit, q, id);
      Published(Inserted(Evicted(c), q, id), id, if c.stmts[out].refs == 0 then Some(out) else None)
  }

  /** A reference given back. */
  function ReleaseOn(c: Cache, id: nat): Cache
    requires id < |c.stmts|
  {
    AddRefs(c, id, if c.stmts[id].refs > 0 then c.stmts[id].refs - 1 else 0)
  }

  lemma SizeIsOrder(c: Cache, limit: nat)
    requires CacheOk(c, limit)
    ensures |c.entries| == |c.order|
  {
    OrderSize(c.order);
    assert c.entries.Keys == (set q | q in c.order);
  }

  lemma {:induction false} OrderSize(order: seq<string>)
    requires NoDup(order)
    ensures |set q | q in order| == |order|
  {
    if order != [] {
      OrderSize(order[1..]);
      assert (set q | q in order) == (set q | q in order[1..]) + {order[0]};
    }
  }

  class Connection {
    var entries: map<string, nat>
    var order: seq<string>
    var stmts: seq<Stmt>
    const limit: nat

    function View(): Cache
      reads this
    {
      Cache(entries, order, stmts)
    }

    constructor (limit: nat)
      requires limit > 0
      ensures this.limit == limit && View() == Cache(map[], [], [])
    {
      entries, order, stmts := map[], [], [];
      this.limit := limit;
    }

    method MoveToEnd(q: string)
      modifies this`order
      ensures order == Without(old(order), q) + [q]
    {
      var i := 0;
      while i < |order|
        invariant 0 <= i <= |order|
        invariant order == old(order)
        invariant forall j :: 0 <= j < i ==> order[j] != q
      {
        if order[i] == q {
          break;
        }
        i := i + 1;
      }
      WithoutAt(order, q, i);
      if i < |order| {
        order := order[..i] + order[i + 1..];
      }
      order := order + [q];
    }

    /** The first critical section. */
    method Lookup(q: string) returns (r: Option<nat>)
      requires CacheOk(View(), limit)
      modifies this
      ensures CacheOk(View(), limit)
      ensures q !in old(entries) ==> r.None? && View() == old(View())
      ensures q in old(entries) ==> r == Some(old(entries[q])) && View() == Hit(old(View()), q)
    {
      if q !in entries {
        return None;
      }
      HitOk(View(), limit, q);
      r := Some(entries[q]);
      stmts := stmts[entries[q] := stmts[entries[q]].(refs := stmts[entries[q]].refs + 1)];
      MoveToEnd(q);
    }

    /** The second critical section. */
    method Publish(q: string, id: nat) returns (used: nat, victim: Option<nat>)
      requires CacheOk(View(), limit) && limit > 0 && CanPublish(View(), q, id)
      modifies this
      ensures Published(View(), used, victim) == PublishOn(old(View()), limit, q, id)
    {
      SizeIsOrder(View(), limit);
      if q in entries {
        used := entries[q];
        stmts := stmts[used := stmts[used].(refs := stmts[used].refs + 1)];
        return used, Some(id);
      }
      victim := None;
      if |entries| >= limit {
        var key := order[0];
        var out := entries[key];
        stmts := stmts[out := stmts[out].(evicted := true)];
        entries := entries - {key};
        order := order[1..];
        if stmts[out].refs == 0 {
          victim := Some(out);
        }
      }
      stmts := stmts[id := stmts[id].(refs := 1)];
      entries := entries[q := id];
      order := order + [q];
      used := id;
    }

    /** The reference is given back; the last user of an evicted statement has to close it. */
    method Release(id: nat) returns (close: bool)
      requires CacheOk(View(), limit) && id < |stmts|
      modifies this
      ensures CacheOk(View(), limit) && View() == ReleaseOn(old(View()), id)
      ensures close <==> stmts[id].evicted && stmts[id].refs == 0
    {
      AddRefsOk(View(), limit, id, if stmts[id].refs > 0 then stmts[id].refs - 1 else 0);
      if stmts[id].refs > 0 {
        stmts := stmts[id := stmts[id].(refs := stmts[id].refs - 1)];
      } else {
        assert stmts[id := stmts[id].(refs := 0)] == stmts;
      }
      close := stmts[id].evicted && stmts[id].refs == 0;
    }
  }

  lemma AddRefsOk(c: Cache, limit: nat, id: nat, refs: nat)
    requires CacheOk(c, limit) && id < |c.stmts|
    ensures CacheOk(AddRefs(c, id, refs), limit)
  {}

  lemma HitOk(c: Cache, limit: nat, q: string)
    requires CacheOk(c, limit) && q in c.entries
    ensures CacheOk(Hit(c, q), limit)
  {
    AddRefsOk(c, limit, c.entries[q], c.stmts[c.entries[q]].refs + 1);
    var i := WithoutFacts(c.order, q);
  }

  lemma TailOf(order: seq<string>)
    requires NoDup(order) && |order| > 0
    ensures NoDup(order[1..])
    ensures forall t :: t in order[1..] <==> t in order && t != order[0]
  {
    CutOut(order, 0);
    assert order[..0] + order[1..] == order[1..];
  }

  lemma EvictedEntries(c: Cache, limit: nat, q: string)
    requires CacheOk(c, limit) && |c.order| > 0 && q in c.entries && q != c.order[0]
    ensures EntryOk(Evicted(c).stmts, q, c.entries[q])
  {
    hide NoDup;
    assert EntryOk(c.stmts, c.order[0], c.entries[c.order[0]]);
    assert EntryOk(c.stmts, q, c.entries[q]);
  }

  lemma EvictedOk(c: Cache, limit: nat)
    requires CacheOk(c, limit) && |c.order| > 0
    ensures CacheOk(Evicted(c), limit - 1)
  {
    TailOf(c.order);
    assert EntryOk(c.stmts, c.order[0], c.entries[c.order[0]]);
    var c' := Evicted(c);
    hide NoDup, EntryOk;
    forall q | q in c'.entries ensures EntryOk(c'.stmts, q, c'.entries[q]) {
      EvictedEntries(c, limit, q);
    }
  }

  lemma InsertedOk(c: Cache, limit: nat, q: string, id: nat)
    requires limit > 0 && CacheOk(c, limit - 1) && q !in c.entries
    requires id < |c.stmts| && c.stmts[id].query == q && !c.stmts[id].evicted
    ensures CacheOk(Inserted(c, q, id), limit)
  {}
}
