/** The texts in the statement cache are the last ones used, told from the history of their uses alone. */
module StatementCacheLru {

  import opened Wrappers
  import opened StatementCache
  import opened StatementCacheRuns

  // ------------------------------------------------------------------ the last texts of a history

  /** Each text once, in the order of last use. */
  function Distinct(h: seq<string>): seq<string>
  {
    if h == [] then [] else if h[0] in h[1..] then Distinct(h[1..]) else [h[0]] + Distinct(h[1..])
  }

  function LastOf(d: seq<string>, n: nat): seq<string>
  {
    if |d| <= n then d else d[|d| - n..]
  }

  lemma {:induction false} DistinctFacts(h: seq<string>)
    ensures NoDup(Distinct(h))
    ensures forall t :: t in Distinct(h) <==> t in h
  {
    if h != [] {
      DistinctFacts(h[1..]);
      assert forall t :: t in h <==> t == h[0] || t in h[1..];
    }
  }

  lemma {:induction false} Missing(order: seq<string>, q: string)
    requires q !in order
    ensures Without(order, q) == order
  {
    WithoutAt(order, q, |order|);
  }

  lemma WithoutFront(x: string, rest: seq<string>, q: string)
    ensures Without([x] + rest, q) == if x == q then rest else [x] + Without(rest, q)
  {
    assert ([x] + rest)[1..] == rest;
  }

  /** One more use moves the text to the end. */
  lemma {:induction false} DistinctMore(h: seq<string>, q: string)
    ensures Distinct(h + [q]) == Without(Distinct(h), q) + [q]
  {
    if h == [] {
      assert h + [q] == [q] && [q][1..] == [];
    } else {
      var rest := h[1..];
      assert (h + [q])[1..] == rest + [q];
      DistinctMore(rest, q);
      DistinctFacts(rest);
      hide NoDup;
      WithoutFront(h[0], Distinct(rest), q);
      if h[0] == q && q !in rest {
        Missing(Distinct(rest), q);
      }
    }
  }

  /** Cutting a place out of the last part of a list. */
  lemma CutLate<T>(d: seq<T>, m: nat, j: nat, x: T)
    requires m + j < |d|
    ensures |d[..m + j] + d[m + j + 1..] + [x]| == |d|
    ensures (d[..m + j] + d[m + j + 1..] + [x])[m..] == d[m..][..j] + d[m..][j + 1..] + [x]
  {}

  /** And out of the part before. */
  lemma CutEarly<T>(d: seq<T>, m: nat, i: nat, x: T)
    requires i < m < |d|
    ensures |d[..i] + d[i + 1..] + [x]| == |d|
    ensures (d[..i] + d[i + 1..] + [x])[m..] == d[m..][1..] + [x]
  {}

  lemma LastIs(d: seq<string>, n: nat) returns (m: nat)
    ensures m == if |d| <= n then 0 else |d| - n
    ensures LastOf(d, n) == d[m..]
  {
    m := if |d| <= n then 0 else |d| - n;
  }

  lemma Touch(d: seq<string>, n: nat, q: string)
    requires NoDup(d) && q in LastOf(d, n)
    ensures LastOf(Without(d, q) + [q], n) == Without(LastOf(d, n), q) + [q]
  {
    hide NoDup, Without, LastOf;
    var m := LastIs(d, n);
    var j :| 0 <= j < |d[m..]| && d[m..][j] == q;
    Cut(d, m + j);
    TailNoDup(d, m);
    Cut(d[m..], j);
    CutLate(d, m, j, q);
    var k := LastIs(Without(d, q) + [q], n);
  }

  lemma TailNoDup(d: seq<string>, m: nat)
    requires NoDup(d) && m <= |d|
    ensures NoDup(d[m..])
  {}

  lemma Cut(d: seq<string>, i: nat)
    requires NoDup(d) && i < |d|
    ensures Without(d, d[i]) == d[..i] + d[i + 1..]
  {
    WithoutAt(d, d[i], i);
  }

  lemma Insert(d: seq<string>, n: nat, q: string)
    requires NoDup(d) && n > 0 && q !in LastOf(d, n)
    ensures LastOf(Without(d, q) + [q], n) ==
            (if |LastOf(d, n)| < n then LastOf(d, n) else LastOf(d, n)[1..]) + [q]
  {
    hide NoDup, Without, LastOf;
    var m := LastIs(d, n);
    if q in d {
      var i :| 0 <= i < |d| && d[i] == q;
      Cut(d, i);
      CutEarly(d, m, i, q);
      var k := LastIs(Without(d, q) + [q], n);
    } else {
      Missing(d, q);
      AddAtEnd(d, n, q);
    }
  }

  lemma AddAtEnd(d: seq<string>, n: nat, q: string)
    requires n > 0
    ensures LastOf(d + [q], n) == (if |LastOf(d, n)| < n then LastOf(d, n) else LastOf(d, n)[1..]) + [q]
  {
    if |d| >= n {
      var m := |d| - n;
      assert LastOf(d, n) == d[m..];
      assert (d + [q])[m + 1..] == d[m..][1..] + [q];
    }
  }

  // ------------------------------------------------------------------ the history of a run

  /** A use is a lookup that finds the text, or the insertion of a text that is not there. */
  function Use(s: Sys, e: Event): seq<string>
    requires Enabled(s, e)
  {
    match e
    case Lookup(_, q) => if q in s.cache.entries then [q] else []
    case Publish(k) => if s.clients[k].query in s.cache.entries then [] else [s.clients[k].query]
    case _ => []
  }

  ghost function Uses(s: Sys, limit: nat, es: seq<Event>): seq<string>
    requires Inv(s, limit) && IsRun(s, limit, es)
    decreases |es|
  {
    if es == [] then []
    else
      StepInv(s, limit, es[0]);
      Use(s, es[0]) + Uses(Apply(s, limit, es[0]), limit, es[1..])
  }

  /** The uses in a run from an empty cache. */
  ghost function History(limit: nat, es: seq<Event>): seq<string>
    requires FreshRun(limit, es)
  {
    FreshInv(limit);
    Uses(Fresh, limit, es)
  }

  ghost predicate Recent(s: Sys, limit: nat, h: seq<string>) { s.cache.order == LastOf(Distinct(h), limit) }

  lemma LookupRecent(s: Sys, limit: nat, h: seq<string>, k: nat, q: string)
    requires Inv(s, limit) && Recent(s, limit, h) && k !in s.clients
    ensures Recent(Apply(s, limit, Lookup(k, q)), limit, h + Use(s, Lookup(k, q)))
  {
    DistinctFacts(h);
    DistinctMore(h, q);
    assert q in s.cache.entries <==> q in s.cache.order;
    hide ClientsOk, IdsOk, OrderedByTouch, Distinct, LastOf, Without;
    if q in s.cache.entries {
      Touch(Distinct(h), limit, q);
    } else {
      assert h + [] == h;
    }
  }

  lemma PublishRecent(s: Sys, limit: nat, h: seq<string>, k: nat)
    requires Inv(s, limit) && Recent(s, limit, h) && k in s.clients && s.clients[k].Prepared?
    ensures Recent(Apply(s, limit, Publish(k)), limit, h + Use(s, Publish(k)))
  {
    var q := s.clients[k].query;
    PublisherReady(s, limit, k);
    DistinctFacts(h);
    DistinctMore(h, q);
    assert q in s.cache.entries <==> q in s.cache.order;
    hide ClientsOk, IdsOk, OrderedByTouch, Distinct, LastOf, Without;
    if q in s.cache.entries {
      assert h + [] == h;
    } else {
      Insert(Distinct(h), limit, q);
      PublishedOrder(s.cache, limit, q, s.clients[k].id);
    }
  }

  lemma PublishedOrder(c: Cache, limit: nat, q: string, id: nat)
    requires CacheOk(c, limit) && limit > 0 && CanPublish(c, q, id) && q !in c.entries
    ensures PublishOn(c, limit, q, id).cache.order == (if |c.order| < limit then c.order else c.order[1..]) + [q]
  {}

  lemma StepRecent(s: Sys, limit: nat, h: seq<string>, e: Event)
    requires Inv(s, limit) && Enabled(s, e) && Recent(s, limit, h)
    ensures Recent(Apply(s, limit, e), limit, h + Use(s, e))
  {
    if e.Lookup? {
      hide *;
      LookupRecent(s, limit, h, e.k, e.query);
    } else if e.Publish? {
      PublishRecent(s, limit, h, e.k);
    } else {
      hide Inv, LastOf, Distinct;
      assert h + [] == h;
    }
  }

  lemma RunOn(s: Sys, limit: nat, es: seq<Event>)
    requires Inv(s, limit) && IsRun(s, limit, es) && es != []
    ensures Enabled(s, es[0]) && Inv(Apply(s, limit, es[0]), limit) && IsRun(Apply(s, limit, es[0]), limit, es[1..])
    ensures Final(s, limit, es) == Final(Apply(s, limit, es[0]), limit, es[1..])
    ensures Uses(s, limit, es) == Use(s, es[0]) + Uses(Apply(s, limit, es[0]), limit, es[1..])
  {
    StepInv(s, limit, es[0]);
    hide Inv, Apply, Enabled, Use;
  }

  lemma RunEmpty(s: Sys, limit: nat)
    requires Inv(s, limit)
    ensures IsRun(s, limit, []) && Final(s, limit, []) == s && Uses(s, limit, []) == []
  {}

  lemma {:induction false} RunRecent(s: Sys, limit: nat, h: seq<string>, es: seq<Event>)
    requires Inv(s, limit) && IsRun(s, limit, es) && Recent(s, limit, h)
    ensures Recent(Final(s, limit, es), limit, h + Uses(s, limit, es))
    decreases |es|
  {
    hide *;
    if es == [] {
      RunEmpty(s, limit);
      assert h + [] == h;
    } else {
      RunOn(s, limit, es);
      StepRecent(s, limit, h, es[0]);
      RunRecent(Apply(s, limit, es[0]), limit, h + Use(s, es[0]), es[1..]);
      assert h + Use(s, es[0]) + Uses(Apply(s, limit, es[0]), limit, es[1..]) == h + Uses(s, limit, es);
    }
  }

  // ------------------------------------------------------------------ what is cached

  function Texts(h: seq<string>): set<string> { set t | t in h }

  /** The last use of the text is at a place after which fewer than so many different texts were used. */
  ghost predicate UsedLately(h: seq<string>, q: string, limit: nat)
  {
    exists i :: 0 <= i < |h| && LastUse(h, i, q) && |Texts(h[i + 1..])| < limit
  }

  predicate LastUse(h: seq<string>, i: nat, q: string)
    requires i < |h|
  {
    h[i] == q && q !in h[i + 1..]
  }

  lemma {:induction false} DistinctFrom(h: seq<string>, i: nat)
    requires i < |h| && h[i] !in h[i + 1..]
    ensures |Distinct(h[i + 1..])| < |Distinct(h)|
    ensures Distinct(h)[|Distinct(h)| - |Distinct(h[i + 1..])| - 1] == h[i]
  {
    if i > 0 {
      assert h[1..][i - 1] == h[i] && h[1..][i..] == h[i + 1..];
      DistinctFrom(h[1..], i - 1);
    }
  }

  lemma InLast(h: seq<string>, i: nat, n: nat)
    requires i < |h| && h[i] !in h[i + 1..]
    ensures h[i] in LastOf(Distinct(h), n) <==> |Texts(h[i + 1..])| < n
  {
    var d, r := Distinct(h), Distinct(h[i + 1..]);
    DistinctFrom(h, i);
    DistinctFacts(h);
    DistinctFacts(h[i + 1..]);
    OrderSize(r);
    assert (set t | t in r) == Texts(h[i + 1..]);
    hide Distinct;
    var p := |d| - |r| - 1;
    if |r| < n {
      assert LastOf(d, n)[if |d| <= n then p else n - |r| - 1] == h[i];
    }
  }

  lemma {:induction false} LastUseOf(h: seq<string>, q: string) returns (i: nat)
    requires q in h
    ensures i < |h| && LastUse(h, i, q)
  {
    if q in h[1..] {
      i := LastUseOf(h[1..], q);
      assert h[1..][i + 1..] == h[i + 1 + 1..];
      i := i + 1;
    } else {
      i := 0;
    }
  }

  /** In every interleaving: the order list is the texts of the history of uses, each once and in the order of last use,
      cut to the last ones within the limit; and a text is cached exactly when fewer different texts than the limit have
      been used since its last use. */
  lemma CacheIsLru(limit: nat, es: seq<Event>)
    requires FreshRun(limit, es)
    ensures var h, c := History(limit, es), Reached(limit, es).cache;
            && c.order == LastOf(Distinct(h), limit)
            && forall q :: q in c.entries <==> UsedLately(h, q, limit)
  {
    FreshInv(limit);
    RunRecent(Fresh, limit, [], es);
    var h, f := History(limit, es), Reached(limit, es);
    assert [] + h == h;
    CachedLately(f, limit, h);
  }

  lemma CachedLately(f: Sys, limit: nat, h: seq<string>)
    requires Inv(f, limit) && Recent(f, limit, h)
    ensures forall q :: q in f.cache.entries <==> UsedLately(h, q, limit)
  {
    assert forall q :: q in f.cache.entries <==> q in f.cache.order;
    DistinctFacts(h);
    hide Inv, Distinct, UsedLately;
    forall q ensures q in f.cache.entries <==> UsedLately(h, q, limit) {
      if q in f.cache.order {
        assert q in Distinct(h);
      }
      LatelyIff(h, q, limit);
    }
  }

  lemma LatelyIff(h: seq<string>, q: string, limit: nat)
    ensures UsedLately(h, q, limit) <==> q in LastOf(Distinct(h), limit)
  {
    DistinctFacts(h);
    hide Distinct;
    if q in LastOf(Distinct(h), limit) {
      assert q in Distinct(h);
      var i := LastUseOf(h, q);
      InLast(h, i, limit);
    } else if i :| 0 <= i < |h| && LastUse(h, i, q) && |Texts(h[i + 1..])| < limit {
      InLast(h, i, limit);
    }
  }
}
