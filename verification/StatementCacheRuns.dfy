/** Any number of users of one statement cache, interleaved at their critical sections. */
module StatementCacheRuns {

  import opened Wrappers
  import opened StatementCache

  datatype Client =
    | Missed(query: string)                // looked up in vain, preparing
    | Prepared(query: string, id: nat)     // prepared, about to publish
    | Using(query: string, id: nat)        // holds a reference

  /** `closing` are the close requests decided on and not sent yet; `touched` and `now` record when each text was
      last looked up successfully or inserted. Users with nothing under way are not listed. */
  datatype Sys = Sys(cache: Cache, clients: map<nat, Client>, closing: multiset<nat>, closed: multiset<nat>,
                     now: nat, touched: map<string, nat>)

  datatype Event =
    | Lookup(k: nat, query: string)
    | Prepare(k: nat)
    | PrepareFails(k: nat)
    | Publish(k: nat)
    | Release(k: nat)
    | Close(id: nat)

  ghost function Users(clients: map<nat, Client>, id: nat): set<nat>
  {
    set k | k in clients && clients[k].Using? && clients[k].id == id
  }

  ghost predicate Making(clients: map<nat, Client>, id: nat)
  {
    exists k :: k in clients && clients[k].Prepared? && clients[k].id == id
  }

  predicate Cached(c: Cache, id: nat)
    requires id < |c.stmts|
  {
    c.stmts[id].query in c.entries && c.entries[c.stmts[id].query] == id
  }

  /** Nobody can reach the statement any more. */
  ghost predicate Dead(s: Sys, id: nat)
    requires id < |s.cache.stmts|
  {
    !Cached(s.cache, id) && Users(s.clients, id) == {} && !Making(s.clients, id)
  }

  function Closes(s: Sys, id: nat): nat { s.closing[id] + s.closed[id] }

  ghost predicate IdOk(s: Sys, id: nat)
    requires id < |s.cache.stmts|
  {
    var e := s.cache.stmts[id];
    && e.refs == |Users(s.clients, id)|
    && (Users(s.clients, id) != {} && !Cached(s.cache, id) ==> e.evicted)
    && (Making(s.clients, id) ==> Users(s.clients, id) == {} && !Cached(s.cache, id) && !e.evicted)
    && Closes(s, id) == if Dead(s, id) then 1 else 0
  }

  predicate ClientOk(c: Cache, u: Client)
  {
    u.Missed? || (u.id < |c.stmts| && c.stmts[u.id].query == u.query)
  }

  predicate SameMade(u: Client, v: Client) { u.Prepared? && v.Prepared? && u.id == v.id }

  ghost predicate ClientsOk(s: Sys)
  {
    && (forall k :: k in s.clients ==> ClientOk(s.cache, s.clients[k]))
    && (forall k, k' :: k in s.clients && k' in s.clients && SameMade(s.clients[k], s.clients[k']) ==> k == k')
  }

  /** The order list is sorted by the time of the last lookup or insertion. */
  ghost predicate OrderedByTouch(s: Sys)
  {
    && (forall q :: q in s.cache.order ==> q in s.touched && s.touched[q] < s.now)
    && forall i, j :: 0 <= i < j < |s.cache.order| ==> s.touched[s.cache.order[i]] < s.touched[s.cache.order[j]]
  }

  ghost predicate IdsOk(s: Sys)
  {
    && (forall id :: 0 <= id < |s.cache.stmts| ==> IdOk(s, id))
    && (forall id :: id in s.closing ==> id < |s.cache.stmts|)
    && (forall id :: id in s.closed ==> id < |s.cache.stmts|)
  }

  ghost predicate Inv(s: Sys, limit: nat)
  {
    limit > 0 && CacheOk(s.cache, limit) && ClientsOk(s) && IdsOk(s) && OrderedByTouch(s)
  }

  predicate Enabled(s: Sys, e: Event)
  {
    match e
    case Lookup(k, _) => k !in s.clients
    case Prepare(k) => k in s.clients && s.clients[k].Missed?
    case PrepareFails(k) => k in s.clients && s.clients[k].Missed?
    case Publish(k) => k in s.clients && s.clients[k].Prepared?
    case Release(k) => k in s.clients && s.clients[k].Using?
    case Close(id) => id in s.closing
  }

  function Issued(victim: Option<nat>): multiset<nat>
  {
    if victim.Some? then multiset{victim.value} else multiset{}
  }

  lemma PublisherReady(s: Sys, limit: nat, k: nat)
    requires Inv(s, limit) && k in s.clients && s.clients[k].Prepared?
    ensures CanPublish(s.cache, s.clients[k].query, s.clients[k].id)
  {
    var id := s.clients[k].id;
    assert ClientOk(s.cache, s.clients[k]);
    assert IdOk(s, id) && Making(s.clients, id);
  }

  ghost function Apply(s: Sys, limit: nat, e: Event): Sys
    requires Inv(s, limit) && Enabled(s, e)
  {
    match e
    case Lookup(k, q) =>
      if q in s.cache.entries
      then s.(cache := Hit(s.cache, q), clients := s.clients[k := Using(q, s.cache.entries[q])],
              now := s.now + 1, touched := s.touched[q := s.now])
      else s.(clients := s.clients[k := Missed(q)])
    case Prepare(k) =>
      var q := s.clients[k].query;
      s.(cache := s.cache.(stmts := s.cache.stmts + [Stmt(q, 0, false)]),
         clients := s.clients[k := Prepared(q, |s.cache.stmts|)])
    case PrepareFails(k) => s.(clients := s.clients - {k})
    case Publish(k) =>
      PublisherReady(s, limit, k);
      var q := s.clients[k].query;
      var p := PublishOn(s.cache, limit, q, s.clients[k].id);
      var s' := s.(cache := p.cache, clients := s.clients[k := Using(q, p.used)],
                   closing := s.closing + Issued(p.victim));
      if q in s.cache.entries then s' else s'.(now := s.now + 1, touched := s.touched[q := s.now])
    case Release(k) =>
      assert ClientOk(s.cache, s.clients[k]);
      var id := s.clients[k].id;
      var c := ReleaseOn(s.cache, id);
      s.(cache := c, clients := s.clients - {k},
         closing := if c.stmts[id].evicted && c.stmts[id].refs == 0 then s.closing + multiset{id} else s.closing)
    case Close(id) => s.(closing := s.closing - multiset{id}, closed := s.closed + multiset{id})
  }

  // ------------------------------------------------------------------ one user moves

  lemma UsersJoin(clients: map<nat, Client>, k: nat, u: Client, id: nat)
    requires k !in clients || !clients[k].Using?
    ensures Users(clients[k := u], id) == Users(clients, id) + if u.Using? && u.id == id then {k} else {}
    ensures k !in Users(clients, id)
  {}

  lemma UsersLeave(clients: map<nat, Client>, k: nat, id: nat)
    ensures Users(clients - {k}, id) == Users(clients, id) - {k}
  {}

  lemma MakingJoin(clients: map<nat, Client>, k: nat, u: Client, id: nat)
    requires k !in clients || !clients[k].Prepared?
    ensures Making(clients[k := u], id) <==> Making(clients, id) || (u.Prepared? && u.id == id)
  {
    if Making(clients, id) {
      var k' :| k' in clients && clients[k'].Prepared? && clients[k'].id == id;
      assert clients[k := u][k'] == clients[k'];
    }
    if u.Prepared? && u.id == id {
      assert clients[k := u][k] == u;
    }
  }

  lemma MakingLeave(clients: map<nat, Client>, k: nat, id: nat)
    requires k !in clients || !clients[k].Prepared?
    ensures Making(clients - {k}, id) <==> Making(clients, id)
  {
    if Making(clients, id) {
      var k' :| k' in clients && clients[k'].Prepared? && clients[k'].id == id;
      assert (clients - {k})[k'] == clients[k'];
    }
  }

  /** The one maker of a statement publishes. */
  lemma MakingEnds(s: Sys, k: nat, u: Client, id: nat)
    requires ClientsOk(s) && k in s.clients && s.clients[k].Prepared? && u.Using?
    ensures Making(s.clients[k := u], id) <==> Making(s.clients, id) && id != s.clients[k].id
  {
    if Making(s.clients, id) && id != s.clients[k].id {
      var k' :| k' in s.clients && s.clients[k'].Prepared? && s.clients[k'].id == id;
      assert s.clients[k := u][k'] == s.clients[k'];
    }
  }

  /** A statement whose entry, users, makers and closes are as before is still in order. */
  lemma Untouched(s: Sys, s': Sys, id: nat)
    requires id < |s.cache.stmts| && IdOk(s, id) && id < |s'.cache.stmts|
    requires s'.cache.stmts[id] == s.cache.stmts[id] && (Cached(s'.cache, id) <==> Cached(s.cache, id))
    requires Users(s'.clients, id) == Users(s.clients, id)
    requires Making(s'.clients, id) <==> Making(s.clients, id)
    requires Closes(s', id) == Closes(s, id)
    ensures IdOk(s', id)
  {}

  // ------------------------------------------------------------------ the steps

  lemma HitId(s: Sys, limit: nat, k: nat, q: string)
    requires Inv(s, limit) && k !in s.clients && q in s.cache.entries
    ensures s.cache.entries[q] < |s.cache.stmts| && IdOk(Apply(s, limit, Lookup(k, q)), s.cache.entries[q])
  {
    var s' := Apply(s, limit, Lookup(k, q));
    var id := s.cache.entries[q];
    UsersJoin(s.clients, k, s'.clients[k], id);
    MakingJoin(s.clients, k, s'.clients[k], id);
    assert IdOk(s, id) && Cached(s'.cache, id);
    hide CacheOk, OrderedByTouch, ClientsOk, IdsOk, Users, Making;
  }

  lemma LookupIds(s: Sys, limit: nat, k: nat, q: string)
    requires Inv(s, limit) && k !in s.clients
    ensures IdsOk(Apply(s, limit, Lookup(k, q)))
  {
    var s' := Apply(s, limit, Lookup(k, q));
    if q in s.cache.entries {
      HitId(s, limit, k, q);
    }
    hide CacheOk, OrderedByTouch, ClientsOk, IdOk, Without;
    forall id | 0 <= id < |s'.cache.stmts| ensures IdOk(s', id) {
      if !(q in s.cache.entries && id == s.cache.entries[q]) {
        UsersJoin(s.clients, k, s'.clients[k], id);
        MakingJoin(s.clients, k, s'.clients[k], id);
        Untouched(s, s', id);
      }
    }
  }

  lemma PrepareIds(s: Sys, limit: nat, k: nat)
    requires Inv(s, limit) && k in s.clients && s.clients[k].Missed?
    ensures IdsOk(Apply(s, limit, Prepare(k)))
  {
    var s' := Apply(s, limit, Prepare(k));
    hide OrderedByTouch;
    forall id | 0 <= id < |s'.cache.stmts| ensures IdOk(s', id) {
      UsersJoin(s.clients, k, s'.clients[k], id);
      MakingJoin(s.clients, k, s'.clients[k], id);
      if id < |s.cache.stmts| {
        Untouched(s, s', id);
      } else {
        assert Closes(s, id) == 0;
        assert Users(s.clients, id) == {};
      }
    }
  }

  lemma PrepareFailsIds(s: Sys, limit: nat, k: nat)
    requires Inv(s, limit) && k in s.clients && s.clients[k].Missed?
    ensures IdsOk(Apply(s, limit, PrepareFails(k)))
  {
    var s' := Apply(s, limit, PrepareFails(k));
    hide OrderedByTouch, CacheOk, ClientsOk;
    forall id | 0 <= id < |s'.cache.stmts| ensures IdOk(s', id) {
      UsersLeave(s.clients, k, id);
      MakingLeave(s.clients, k, id);
      Untouched(s, s', id);
    }
  }

  lemma ReleasedId(s: Sys, limit: nat, k: nat)
    requires Inv(s, limit) && k in s.clients && s.clients[k].Using?
    ensures var s' := Apply(s, limit, Release(k));
            |s'.cache.stmts| == |s.cache.stmts| && s.clients[k].id < |s.cache.stmts| && IdOk(s', s.clients[k].id)
  {
    var id := s.clients[k].id;
    assert ClientOk(s.cache, s.clients[k]);
    assert k in Users(s.clients, id) && IdOk(s, id);
    hide OrderedByTouch, ClientsOk, IdsOk;
    UsersLeave(s.clients, k, id);
    MakingLeave(s.clients, k, id);
    hide Users, Making;
    assert Cached(s.cache, id) ==> !s.cache.stmts[id].evicted;
    hide CacheOk;
  }

  lemma ReleaseIds(s: Sys, limit: nat, k: nat)
    requires Inv(s, limit) && k in s.clients && s.clients[k].Using?
    ensures IdsOk(Apply(s, limit, Release(k)))
  {
    var s' := Apply(s, limit, Release(k));
    ReleasedId(s, limit, k);
    hide OrderedByTouch, ClientsOk, CacheOk, IdOk;
    forall id | 0 <= id < |s'.cache.stmts| ensures IdOk(s', id) {
      if id != s.clients[k].id {
        UsersLeave(s.clients, k, id);
        MakingLeave(s.clients, k, id);
        assert k !in Users(s.clients, id);
        Untouched(s, s', id);
      }
    }
  }

  lemma CloseIds(s: Sys, limit: nat, id: nat)
    requires Inv(s, limit) && id in s.closing
    ensures IdsOk(Apply(s, limit, Close(id)))
  {
    var s' := Apply(s, limit, Close(id));
    hide OrderedByTouch, CacheOk, ClientsOk;
    forall i | 0 <= i < |s'.cache.stmts| ensures IdOk(s', i) {
      Untouched(s, s', i);
    }
  }

  /** What publishing did to one statement, read off its entry: the publisher's own becomes used or is left to
      be closed, a cached one gains a user or is evicted, all others stay as they are. */
  lemma PublishedId(s: Sys, s': Sys, limit: nat, k: nat, id: nat)
    requires Publishes(s, s', limit, k, id)
    ensures IdOk(s', id)
  {
    hide Users, Making, IdOk, PublishOn;
    var c := s.cache;
    if s.clients[k].query in c.entries {
      PublishedLate(s, s', limit, k, id);
    } else if |c.order| < limit {
      PublishedFree(s, s', limit, k, id);
    } else {
      PublishedFull(s, s', limit, k, id);
    }
  }

  ghost predicate Publishes(s: Sys, s': Sys, limit: nat, k: nat, id: nat)
  {
    && CacheOk(s.cache, limit) && limit > 0 && k in s.clients && s.clients[k].Prepared? && k in s'.clients
    && CanPublish(s.cache, s.clients[k].query, s.clients[k].id)
    && var p := PublishOn(s.cache, limit, s.clients[k].query, s.clients[k].id);
    && s'.cache == p.cache && s'.clients[k] == Using(s.clients[k].query, p.used)
    && s'.closing == s.closing + Issued(p.victim) && s'.closed == s.closed
    && id < |s.cache.stmts| && IdOk(s, id)
    && Users(s'.clients, id) == Users(s.clients, id) + (if p.used == id then {k} else {})
    && (Making(s'.clients, id) <==> Making(s.clients, id) && id != s.clients[k].id)
    && (id == s.clients[k].id ==> Making(s.clients, id))
    && k !in Users(s.clients, id)
  }

  lemma PublishedLate(s: Sys, s': Sys, limit: nat, k: nat, id: nat)
    requires Publishes(s, s', limit, k, id) && s.clients[k].query in s.cache.entries
    ensures IdOk(s', id)
  {
    hide Users, Making;
    var used := s.cache.entries[s.clients[k].query];
    if id != used && id != s.clients[k].id {
      Untouched(s, s', id);
    }
  }

  lemma PublishedFree(s: Sys, s': Sys, limit: nat, k: nat, id: nat)
    requires Publishes(s, s', limit, k, id) && s.clients[k].query !in s.cache.entries && |s.cache.order| < limit
    ensures IdOk(s', id)
  {
    hide Users, Making;
    if id != s.clients[k].id {
      Untouched(s, s', id);
    }
  }

  lemma PublishedFull(s: Sys, s': Sys, limit: nat, k: nat, id: nat)
    requires Publishes(s, s', limit, k, id) && s.clients[k].query !in s.cache.entries && |s.cache.order| == limit
    ensures IdOk(s', id)
  {
    hide Users, Making;
    var out := s.cache.entries[s.cache.order[0]];
    if id != s.clients[k].id && id != out {
      Untouched(s, s', id);
    }
  }

  lemma PublishSetsUp(s: Sys, limit: nat, k: nat, id: nat)
    requires Inv(s, limit) && k in s.clients && s.clients[k].Prepared? && id < |s.cache.stmts|
    ensures Publishes(s, Apply(s, limit, Publish(k)), limit, k, id)
  {
    var s' := Apply(s, limit, Publish(k));
    PublisherReady(s, limit, k);
    assert IdOk(s, id);
    hide CacheOk, PublishOn, Users, IdOk, CanPublish, OrderedByTouch, Making;
    UsersJoin(s.clients, k, s'.clients[k], id);
    MakingEnds(s, k, s'.clients[k], id);
    hide CacheOk, PublishOn, Users, IdOk, CanPublish, ClientsOk, OrderedByTouch;
  }

  lemma PublishSizes(s: Sys, limit: nat, k: nat)
    requires Inv(s, limit) && k in s.clients && s.clients[k].Prepared?
    ensures var s' := Apply(s, limit, Publish(k));
            |s'.cache.stmts| == |s.cache.stmts| && forall id :: id in s'.closing ==> id < |s.cache.stmts|
  {
    PublisherReady(s, limit, k);
    hide ClientsOk, OrderedByTouch, IdOk;
  }

  lemma PublishIds(s: Sys, limit: nat, k: nat)
    requires Inv(s, limit) && k in s.clients && s.clients[k].Prepared?
    ensures IdsOk(Apply(s, limit, Publish(k)))
  {
    var s' := Apply(s, limit, Publish(k));
    PublishSizes(s, limit, k);
    hide CacheOk, ClientsOk, OrderedByTouch, PublishOn, IdOk, Publishes;
    forall id | 0 <= id < |s'.cache.stmts| ensures IdOk(s', id) {
      PublishSetsUp(s, limit, k, id);
      PublishedId(s, s', limit, k, id);
    }
  }

  // ------------------------------------------------------------------ the rest of the invariant

  lemma StepCache(s: Sys, limit: nat, e: Event)
    requires Inv(s, limit) && Enabled(s, e)
    ensures CacheOk(Apply(s, limit, e).cache, limit)
  {
    hide OrderedByTouch, IdsOk;
    match e
    case Lookup(k, q) =>
      if q in s.cache.entries {
        HitOk(s.cache, limit, q);
      }
    case Release(k) =>
      assert ClientOk(s.cache, s.clients[k]);
      var refs := s.cache.stmts[s.clients[k].id].refs;
      AddRefsOk(s.cache, limit, s.clients[k].id, if refs > 0 then refs - 1 else 0);
    case _ =>
  }

  /** Statements are only added, and keep their texts. */
  predicate Grows(c: Cache, c': Cache)
  {
    |c.stmts| <= |c'.stmts| && forall id :: 0 <= id < |c.stmts| ==> c'.stmts[id].query == c.stmts[id].query
  }

  lemma PublishGrows(s: Sys, limit: nat, k: nat)
    requires Inv(s, limit) && k in s.clients && s.clients[k].Prepared?
    ensures var s' := Apply(s, limit, Publish(k)); Grows(s.cache, s'.cache) && ClientOk(s'.cache, s'.clients[k])
  {
    PublisherReady(s, limit, k);
    PublishOnGrows(s.cache, limit, s.clients[k].query, s.clients[k].id);
    hide OrderedByTouch, IdsOk, ClientsOk, NoDup, PublishOn, CacheOk, Grows;
    SameGrows(s, Apply(s, limit, Publish(k)), PublishOn(s.cache, limit, s.clients[k].query, s.clients[k].id));
  }

  lemma SameGrows(s: Sys, s': Sys, p: Published)
    requires Grows(s.cache, p.cache) && s'.cache == p.cache
    ensures Grows(s.cache, s'.cache)
  {}

  lemma PublishOnGrows(c: Cache, limit: nat, q: string, id: nat)
    requires CacheOk(c, limit) && limit > 0 && CanPublish(c, q, id)
    ensures var p := PublishOn(c, limit, q, id);
            Grows(c, p.cache) && p.used < |p.cache.stmts| && p.cache.stmts[p.used].query == q
  {
    hide NoDup;
  }

  lemma StepGrows(s: Sys, limit: nat, e: Event)
    requires Inv(s, limit) && Enabled(s, e)
    ensures Grows(s.cache, Apply(s, limit, e).cache)
  {
    hide OrderedByTouch, IdsOk;
    match e
    case Publish(k) => PublishGrows(s, limit, k);
    case Release(k) => assert ClientOk(s.cache, s.clients[k]);
    case _ =>
  }

  /** A user moves to a state of its own. */
  lemma ClientsJoin(s: Sys, s': Sys, k: nat, u: Client)
    requires ClientsOk(s) && Grows(s.cache, s'.cache) && s'.clients == s.clients[k := u]
    requires ClientOk(s'.cache, u)
    requires u.Prepared? ==> u.id == |s.cache.stmts|
    ensures ClientsOk(s')
  {
    forall i | i in s'.clients ensures ClientOk(s'.cache, s'.clients[i]) {
      assert i != k ==> ClientOk(s.cache, s.clients[i]);
    }
    forall i, j | i in s'.clients && j in s'.clients && SameMade(s'.clients[i], s'.clients[j]) ensures i == j {
      assert i != k ==> ClientOk(s.cache, s.clients[i]);
      assert j != k ==> ClientOk(s.cache, s.clients[j]);
    }
  }

  lemma ClientsLeave(s: Sys, s': Sys, k: nat)
    requires ClientsOk(s) && Grows(s.cache, s'.cache) && s'.clients == s.clients - {k}
    ensures ClientsOk(s')
  {}

  lemma StepClients(s: Sys, limit: nat, e: Event)
    requires Inv(s, limit) && Enabled(s, e)
    ensures ClientsOk(Apply(s, limit, e))
  {
    StepGrows(s, limit, e);
    if e.Publish? {
      PublishGrows(s, limit, e.k);
    }
    var s' := Apply(s, limit, e);
    assert e.Lookup? ==> ClientOk(s'.cache, s'.clients[e.k]);
    hide OrderedByTouch, IdsOk, PublishOn, ClientsOk, CacheOk, Without;
    match e
    case Lookup(k, _) => ClientsJoin(s, s', k, s'.clients[k]);
    case Prepare(k) => ClientsJoin(s, s', k, s'.clients[k]);
    case PrepareFails(k) => ClientsLeave(s, s', k);
    case Publish(k) => ClientsJoin(s, s', k, s'.clients[k]);
    case Release(k) => ClientsLeave(s, s', k);
    case Close(_) => ClientsSame(s, s');
  }

  lemma ClientsSame(s: Sys, s': Sys)
    requires ClientsOk(s) && s'.cache == s.cache && s'.clients == s.clients
    ensures ClientsOk(s')
  {}

  lemma HitOrder(s: Sys, limit: nat, k: nat, q: string)
    requires Inv(s, limit) && k !in s.clients && q in s.cache.entries
    ensures OrderedByTouch(Apply(s, limit, Lookup(k, q)))
  {
    hide ClientsOk, IdsOk, OrderedByTouch, SortedBy;
    var i := WithoutFacts(s.cache.order, q);
    TouchSorted(s);
    CutSorted(s.touched, s.cache.order, i);
    hide NoDup;
    TouchLast(s, Apply(s, limit, Lookup(k, q)), Without(s.cache.order, q), q);
  }

  lemma TouchSorted(s: Sys)
    requires OrderedByTouch(s)
    ensures SortedBy(s.touched, s.cache.order)
  {}

  /** The texts were touched in the order of the list. */
  predicate SortedBy(touched: map<string, nat>, order: seq<string>)
  {
    && (forall t :: t in order ==> t in touched)
    && forall i, j :: 0 <= i < j < |order| ==> touched[order[i]] < touched[order[j]]
  }

  lemma CutSorted(touched: map<string, nat>, order: seq<string>, i: nat)
    requires SortedBy(touched, order) && i < |order|
    ensures SortedBy(touched, order[..i] + order[i + 1..])
  {
    var w := order[..i] + order[i + 1..];
    assert forall j :: 0 <= j < |w| ==> w[j] == order[if j < i then j else j + 1];
  }

  lemma PublishOrder(s: Sys, limit: nat, k: nat)
    requires Inv(s, limit) && k in s.clients && s.clients[k].Prepared? && s.clients[k].query !in s.cache.entries
    ensures OrderedByTouch(Apply(s, limit, Publish(k)))
  {
    PublisherReady(s, limit, k);
    hide ClientsOk, IdsOk;
    var order := if |s.cache.order| < limit then s.cache.order else s.cache.order[1..];
    TouchLast(s, Apply(s, limit, Publish(k)), order, s.clients[k].query);
  }

  lemma OrderSame(s: Sys, s': Sys)
    requires OrderedByTouch(s) && s'.cache.order == s.cache.order && s'.now == s.now && s'.touched == s.touched
    ensures OrderedByTouch(s')
  {}

  lemma StepOrder(s: Sys, limit: nat, e: Event)
    requires Inv(s, limit) && Enabled(s, e)
    ensures OrderedByTouch(Apply(s, limit, e))
  {
    var s' := Apply(s, limit, e);
    if e.Publish? {
      PublisherReady(s, limit, e.k);
    }
    hide OrderedByTouch, IdsOk, ClientsOk, CacheOk;
    if e.Lookup? && e.query in s.cache.entries {
      HitOrder(s, limit, e.k, e.query);
    } else if e.Publish? && s.clients[e.k].query !in s.cache.entries {
      PublishOrder(s, limit, e.k);
    } else {
      OrderSame(s, s');
    }
  }

  /** A part of the order list, in the same order, and the text touched just now at its end. */
  lemma TouchLast(s: Sys, s': Sys, order: seq<string>, q: string)
    requires OrderedByTouch(s)
    requires s'.now == s.now + 1 && s'.touched == s.touched[q := s.now] && s'.cache.order == order + [q]
    requires q !in order
    requires (forall t :: t in order ==> t in s.cache.order) && SortedBy(s.touched, order)
    ensures OrderedByTouch(s')
  {}

  /** Every step keeps the invariant. */
  lemma StepInv(s: Sys, limit: nat, e: Event)
    requires Inv(s, limit) && Enabled(s, e)
    ensures Inv(Apply(s, limit, e), limit)
  {
    StepCache(s, limit, e);
    StepClients(s, limit, e);
    StepOrder(s, limit, e);
    hide CacheOk, ClientsOk, IdsOk, OrderedByTouch, Apply;
    match e
    case Lookup(k, q) => LookupIds(s, limit, k, q);
    case Prepare(k) => PrepareIds(s, limit, k);
    case PrepareFails(k) => PrepareFailsIds(s, limit, k);
    case Publish(k) => PublishIds(s, limit, k);
    case Release(k) => ReleaseIds(s, limit, k);
    case Close(id) => CloseIds(s, limit, id);
  }

  // ------------------------------------------------------------------ whole runs

  ghost predicate IsRun(s: Sys, limit: nat, es: seq<Event>)
    requires Inv(s, limit)
    decreases |es|
  {
    es == [] || (Enabled(s, es[0]) && (StepInv(s, limit, es[0]); IsRun(Apply(s, limit, es[0]), limit, es[1..])))
  }

  ghost function Final(s: Sys, limit: nat, es: seq<Event>): (f: Sys)
    requires Inv(s, limit) && IsRun(s, limit, es)
    ensures Inv(f, limit)
    decreases |es|
  {
    if es == [] then s
    else
      StepInv(s, limit, es[0]);
      Final(Apply(s, limit, es[0]), limit, es[1..])
  }

  const Fresh: Sys := Sys(Cache(map[], [], []), map[], multiset{}, multiset{}, 0, map[])

  lemma FreshInv(limit: nat)
    requires limit > 0
    ensures Inv(Fresh, limit)
  {}

  ghost predicate FreshRun(limit: nat, es: seq<Event>)
  {
    limit > 0 && (FreshInv(limit); IsRun(Fresh, limit, es))
  }

  /** Where a run from an empty cache ends. */
  ghost function Reached(limit: nat, es: seq<Event>): (f: Sys)
    requires FreshRun(limit, es)
    ensures Inv(f, limit)
  {
    FreshInv(limit);
    Final(Fresh, limit, es)
  }

  /** In every interleaving: the order list holds each cached text exactly once and no more texts than the limit;
      a statement that somebody can still reach is not closed and not about to be, and one that nobody can reach
      any more is closed, or about to be, exactly once. */
  lemma ClosedExactlyOnce(limit: nat, es: seq<Event>)
    requires FreshRun(limit, es)
    ensures var f := Reached(limit, es);
            && NoDup(f.cache.order) && (forall q :: q in f.cache.order <==> q in f.cache.entries)
            && |f.cache.entries| == |f.cache.order| <= limit
            && (forall id :: 0 <= id < |f.cache.stmts| ==> Closes(f, id) == if Dead(f, id) then 1 else 0)
  {
    var f := Reached(limit, es);
    hide Reached, FreshRun, ClientsOk, OrderedByTouch;
    SizeIsOrder(f.cache, limit);
    forall id | 0 <= id < |f.cache.stmts| ensures Closes(f, id) == if Dead(f, id) then 1 else 0 {
      assert IdOk(f, id);
    }
  }

  /** Whoever holds a reference holds a live statement prepared for the very text asked for. */
  lemma HeldStatementIsLive(limit: nat, es: seq<Event>, k: nat)
    requires FreshRun(limit, es) && k in Reached(limit, es).clients && Reached(limit, es).clients[k].Using?
    ensures var f := Reached(limit, es);
            var u := f.clients[k];
            && u.id < |f.cache.stmts| && f.cache.stmts[u.id].query == u.query && f.cache.stmts[u.id].refs > 0
            && Closes(f, u.id) == 0
  {
    var f := Reached(limit, es);
    hide Reached, FreshRun, OrderedByTouch, CacheOk;
    var u := f.clients[k];
    assert ClientOk(f.cache, u);
    assert IdOk(f, u.id);
    assert k in Users(f.clients, u.id);
  }

  /** The text evicted is the one whose last successful lookup or insertion is the longest ago. */
  lemma LeastRecentlyUsedGoes(s: Sys, limit: nat, k: nat, q: string)
    requires Inv(s, limit) && k in s.clients && s.clients[k].Prepared? && s.clients[k].query !in s.cache.entries
    requires q in s.cache.entries && q !in Apply(s, limit, Publish(k)).cache.entries
    ensures |s.cache.entries| == limit
    ensures forall t :: t in s.cache.entries && t != q ==>
              t in Apply(s, limit, Publish(k)).cache.entries && s.touched[q] < s.touched[t]
  {
    PublisherReady(s, limit, k);
    SizeIsOrder(s.cache, limit);
    hide IdsOk, ClientsOk;
    assert q == s.cache.order[0];
    forall t | t in s.cache.entries && t != q ensures s.touched[q] < s.touched[t] {
      var i :| 0 <= i < |s.cache.order| && s.cache.order[i] == t;
    }
  }
}
