/** backend/src/maintenance.rs, lines 15-74: the two-stage retention purge. The item table is a map
    from item id to row; `starred` holds the ids that any user has starred. Times are seconds. */
module Retention {

  datatype Row = Row(feed: int, publishedAt: int)

  type Table = map<int, Row>

  /** `0` disables a limit. */
  datatype Policy = Policy(maxAgeDays: nat, maxPerFeed: nat)

  const DAY := 86400

  /** `ORDER BY published_at DESC, id DESC` puts `a` before `b`. */
  predicate Before(t: Table, a: int, b: int)
    requires a in t && b in t
  {
    t[a].publishedAt > t[b].publishedAt || (t[a].publishedAt == t[b].publishedAt && a > b)
  }

  function Ahead(t: Table, id: int): set<int>
    requires id in t
  {
    set a | a in t && t[a].feed == t[id].feed && Before(t, a, id)
  }

  /** `ROW_NUMBER()` of an item within its feed, newest first. */
  function Rank(t: Table, id: int): nat
    requires id in t
  {
    |Ahead(t, id)| + 1
  }

  predicate Fresh(t: Table, id: int, policy: Policy, now: int)
    requires id in t
  {
    policy.maxAgeDays == 0 || t[id].publishedAt >= now - policy.maxAgeDays * DAY
  }

  function TooOld(t: Table, starred: set<int>, policy: Policy, now: int): set<int> {
    set id | id in t && !Fresh(t, id, policy, now) && id !in starred
  }

  function OverCap(t: Table, starred: set<int>, policy: Policy): set<int> {
    set id | id in t && policy.maxPerFeed > 0 && Rank(t, id) > policy.maxPerFeed && id !in starred
  }

  /** What the policy promises: an item stays if it is starred, or fresh and among the newest of
      its feed in the table before the purge. */
  predicate Kept(t: Table, starred: set<int>, policy: Policy, now: int, id: int) {
    && id in t
    && (id in starred
        || (Fresh(t, id, policy, now) && (policy.maxPerFeed == 0 || Rank(t, id) <= policy.maxPerFeed)))
  }

  function Keep(t: Table, starred: set<int>, policy: Policy, now: int): Table {
    map id | id in t && Kept(t, starred, policy, now, id) :: t[id]
  }

  class Library {
    var items: Table
    var starred: set<int>

    constructor ()
      ensures items == map[] && starred == {}
    {
      items, starred := map[], {};
    }

    /** `DELETE FROM items WHERE id IN (..)`, with the number of rows affected. */
    method Delete(doomed: set<int>) returns (rows: nat)
      requires doomed <= items.Keys
      modifies this`items
      ensures items == old(items) - doomed && rows == |old(items)| - |items|
    {
      RowsLost(items, doomed);
      items := items - doomed;
      rows := |doomed|;
    }

    /** Two DELETE statements, the second over what the first left. */
    method Purge(policy: Policy, now: int) returns (removed: nat)
      modifies this`items
      ensures items == Keep(old(items), starred, policy, now)
      ensures removed == |old(items)| - |items|
    {
      hide TooOld, OverCap, Keep;
      removed := 0;
      NoLimit(items, starred, policy, now);
      if policy.maxAgeDays > 0 {
        var n := Delete(TooOld(items, starred, policy, now));
        removed := removed + n;
      }
      ghost var aged := items;
      assert aged == AgeStage(old(items), starred, policy, now);
      NoLimit(aged, starred, policy, now);
      if policy.maxPerFeed > 0 {
        var n := Delete(OverCap(items, starred, policy));
        removed := removed + n;
      }
      assert items == CapStage(aged, starred, policy);
      TwoStagesAreOnePass(old(items), starred, policy, now);
    }
  }

  function AgeStage(t: Table, starred: set<int>, policy: Policy, now: int): Table {
    if policy.maxAgeDays > 0 then t - TooOld(t, starred, policy, now) else t
  }

  function CapStage(t: Table, starred: set<int>, policy: Policy): Table {
    if policy.maxPerFeed > 0 then t - OverCap(t, starred, policy) else t
  }

  lemma NoLimit(t: Table, starred: set<int>, policy: Policy, now: int)
    ensures TooOld(t, starred, policy, now) <= t.Keys && OverCap(t, starred, policy) <= t.Keys
  {
    hide Rank;
  }

  lemma RowsLost(t: Table, doomed: set<int>)
    requires doomed <= t.Keys
    ensures |t - doomed| == |t| - |doomed|
  {
    assert (t - doomed).Keys == t.Keys - doomed;
    assert |t.Keys| == |t.Keys - doomed| + |doomed| by {
      assert t.Keys == (t.Keys - doomed) + doomed;
    }
  }

  /** The age stage never changes the rank of a fresh item: everything ahead of it is fresher. */
  lemma AgeKeepsRanks(t: Table, starred: set<int>, policy: Policy, now: int, id: int)
    requires id in t && Fresh(t, id, policy, now)
    ensures var aged := AgeStage(t, starred, policy, now); id in aged && Rank(aged, id) == Rank(t, id)
  {
    var aged := AgeStage(t, starred, policy, now);
    assert Ahead(aged, id) == Ahead(t, id);
  }

  lemma TwoStagesAreOnePass(t: Table, starred: set<int>, policy: Policy, now: int)
    ensures CapStage(AgeStage(t, starred, policy, now), starred, policy) == Keep(t, starred, policy, now)
  {
    hide Rank;
    var aged := AgeStage(t, starred, policy, now);
    var rest := CapStage(aged, starred, policy);
    forall id | id in t
      ensures id in rest <==> id in Keep(t, starred, policy, now)
    {
      if Fresh(t, id, policy, now) {
        AgeKeepsRanks(t, starred, policy, now, id);
      }
    }
    assert forall id :: id in rest ==> id in t && rest[id] == t[id];
  }

  /** Deleting rows never moves a remaining item back. */
  lemma FewerRowsLowerRanks(t: Table, u: Table, id: int)
    requires u.Keys <= t.Keys && (forall a :: a in u ==> u[a] == t[a]) && id in u
    ensures Rank(u, id) <= Rank(t, id)
  {
    assert Ahead(u, id) <= Ahead(t, id);
    SubsetIsSmaller(Ahead(u, id), Ahead(t, id));
  }

  lemma SubsetIsSmaller(a: set<int>, b: set<int>)
    requires a <= b
    ensures |a| <= |b|
  {
    assert b == a + (b - a);
  }

  /** Purging now and again later is the same as purging later only. */
  lemma PurgesCollapse(t: Table, starred: set<int>, policy: Policy, now: int, later: int)
    requires now <= later
    ensures Keep(Keep(t, starred, policy, now), starred, policy, later) == Keep(t, starred, policy, later)
  {
    hide Rank;
    var once := Keep(t, starred, policy, now);
    var twice := Keep(once, starred, policy, later);
    forall id | id in once
      ensures Kept(once, starred, policy, later, id) <==> Kept(t, starred, policy, later, id)
    {
      FewerRowsLowerRanks(t, once, id);
    }
    forall id | id in t && Kept(t, starred, policy, later, id)
      ensures id in once
    {
    }
    assert twice.Keys == Keep(t, starred, policy, later).Keys;
  }

  /** A second purge at the same time removes nothing. */
  lemma SecondPurgeIsIdle(t: Table, starred: set<int>, policy: Policy, now: int)
    ensures var once := Keep(t, starred, policy, now); Keep(once, starred, policy, now) == once
  {
    PurgesCollapse(t, starred, policy, now, now);
  }

  /** With a cap, a feed is left with at most that many items nobody starred. */
  lemma FeedIsCapped(t: Table, starred: set<int>, policy: Policy, now: int, feed: int)
    requires policy.maxPerFeed > 0
    ensures var kept := Keep(t, starred, policy, now);
            |set id | id in kept && kept[id].feed == feed && id !in starred| <= policy.maxPerFeed
  {
    var kept := Keep(t, starred, policy, now);
    var ids := set id | id in kept && kept[id].feed == feed && id !in starred;
    if exists id :: id in ids {
      hide Keep, Kept, Rank, Fresh;
      assert forall id :: id in ids ==> id in t && t[id].feed == feed && Rank(t, id) <= policy.maxPerFeed by {
        InKeep(t, starred, policy, now);
      }
      var last := Oldest(t, ids);
      assert ids - {last} <= Ahead(t, last);
      SubsetIsSmaller(ids - {last}, Ahead(t, last));
      assert Rank(t, last) == |Ahead(t, last)| + 1 by { RankIs(t, last); }
    } else {
      assert ids == {};
    }
  }

  lemma RankIs(t: Table, id: int)
    requires id in t
    ensures Rank(t, id) == |Ahead(t, id)| + 1
  {
  }

  lemma InKeep(t: Table, starred: set<int>, policy: Policy, now: int)
    ensures forall id :: id in Keep(t, starred, policy, now) && id !in starred ==>
              && id in t && Keep(t, starred, policy, now)[id] == t[id]
              && (policy.maxPerFeed > 0 ==> Rank(t, id) <= policy.maxPerFeed)
  {
  }

  lemma {:induction false} Oldest(t: Table, ids: set<int>) returns (last: int)
    requires ids <= t.Keys && exists id :: id in ids
    ensures last in ids && forall id :: id in ids && id != last ==> Before(t, id, last)
  {
    last :| last in ids;
    var others := ids - {last};
    assert forall id :: id in ids <==> id == last || id in others;
    if id :| id in others {
      var rest := Oldest(t, others);
      if Before(t, last, rest) { last := rest; }
    }
  }

  // The policy in figures. Only the item's own feed counts, a day has 86400 seconds, and among items
  // of one second the larger id is the newer.

  predicate WithinAge(policy: Policy, now: int, publishedAt: int) {
    policy.maxAgeDays == 0 || publishedAt >= now - policy.maxAgeDays * 86400
  }

  function NewerOfFeed(t: Table, id: int): set<int>
    requires id in t
  {
    set a | a in t && t[a].feed == t[id].feed
            && (t[a].publishedAt > t[id].publishedAt || (t[a].publishedAt == t[id].publishedAt && a > id))
  }

  /** Exactly what a purge leaves: starred items, and those within the age limit with fewer than the
      cap newer items in their own feed. */
  lemma StaysIff(t: Table, starred: set<int>, policy: Policy, now: int, id: int)
    ensures id in Keep(t, starred, policy, now) <==>
            && id in t
            && (id in starred
                || (WithinAge(policy, now, t[id].publishedAt)
                    && (policy.maxPerFeed == 0 || |NewerOfFeed(t, id)| < policy.maxPerFeed)))
    ensures id in Keep(t, starred, policy, now) ==> Keep(t, starred, policy, now)[id] == t[id]
  {
    if id in t {
      assert NewerOfFeed(t, id) == Ahead(t, id);
    }
  }

  function OfFeed(t: Table, feed: int): (own: Table)
    ensures forall id :: id in own <==> id in t && t[id].feed == feed
  {
    map id | id in t && t[id].feed == feed :: t[id]
  }

  /** Feeds are independent: purging the library and then looking at one feed is purging that feed. */
  lemma FeedsAreIndependent(t: Table, starred: set<int>, policy: Policy, now: int, feed: int)
    ensures OfFeed(Keep(t, starred, policy, now), feed) == Keep(OfFeed(t, feed), starred, policy, now)
  {
    hide Keep;
    var purged, alone := OfFeed(Keep(t, starred, policy, now), feed), Keep(OfFeed(t, feed), starred, policy, now);
    forall id
      ensures id in purged <==> id in alone
      ensures id in purged ==> purged[id] == alone[id]
    {
      StaysIff(t, starred, policy, now, id);
      StaysIff(OfFeed(t, feed), starred, policy, now, id);
      if id in t && t[id].feed == feed {
        assert NewerOfFeed(OfFeed(t, feed), id) == NewerOfFeed(t, id);
      }
    }
  }

  /** With every item it holds, the set holds the newer ones of its feed. */
  predicate NewestFirst(t: Table, ids: set<int>) {
    forall id :: id in ids ==> id in t && NewerOfFeed(t, id) <= ids
  }

  lemma SomeMember(ids: set<int>)
    ensures |ids| > 0 ==> exists id :: id in ids
  {
    if forall id :: id !in ids {
      assert ids == {};
    }
  }

  /** The newest `n` of such a set, or all of it. */
  lemma {:induction false} NewestOf(t: Table, feed: int, ids: set<int>, n: nat) returns (top: set<int>)
    requires NewestFirst(t, ids) && forall id :: id in ids ==> t[id].feed == feed
    ensures NewestFirst(t, top) && top <= ids && |top| == if |ids| <= n then |ids| else n
  {
    if |ids| <= n {
      top := ids;
    } else {
      SomeMember(ids);
      assert forall id :: id in ids ==> id in t.Keys;
      var last := Oldest(t, ids);
      forall id | id in ids - {last}
        ensures NewerOfFeed(t, id) <= ids - {last}
      {
        assert Before(t, id, last);
      }
      top := NewestOf(t, feed, ids - {last}, n);
    }
  }

  function WithinAgeOf(t: Table, policy: Policy, now: int, feed: int): set<int> {
    set id | id in t && t[id].feed == feed && WithinAge(policy, now, t[id].publishedAt)
  }

  /** With a cap, a feed keeps at least that many of its items within the age limit, or all of them
      when it has fewer; together with `FeedIsCapped` the cap is met and never overshot. */
  lemma FeedKeepsNewest(t: Table, starred: set<int>, policy: Policy, now: int, feed: int)
    requires policy.maxPerFeed > 0
    ensures var young, kept := WithinAgeOf(t, policy, now, feed), Keep(t, starred, policy, now);
            |young * kept.Keys| >= if |young| <= policy.maxPerFeed then |young| else policy.maxPerFeed
  {
    hide Keep;
    var young, kept := WithinAgeOf(t, policy, now, feed), Keep(t, starred, policy, now);
    AgeIsNewestFirst(t, policy, now, feed);
    var top := NewestOf(t, feed, young, policy.maxPerFeed);
    forall id | id in top
      ensures id in young * kept.Keys
    {
      TopIsKept(t, starred, policy, now, top, id);
    }
    SubsetIsSmaller(top, young * kept.Keys);
  }

  lemma AgeIsNewestFirst(t: Table, policy: Policy, now: int, feed: int)
    ensures NewestFirst(t, WithinAgeOf(t, policy, now, feed))
  {
    forall id | id in WithinAgeOf(t, policy, now, feed)
      ensures NewerOfFeed(t, id) <= WithinAgeOf(t, policy, now, feed)
    {
      forall a | a in NewerOfFeed(t, id)
        ensures a in WithinAgeOf(t, policy, now, feed)
      {
        assert t[a].publishedAt >= t[id].publishedAt;
      }
    }
  }

  lemma TopIsKept(t: Table, starred: set<int>, policy: Policy, now: int, top: set<int>, id: int)
    requires NewestFirst(t, top) && |top| <= policy.maxPerFeed && id in top
    requires WithinAge(policy, now, t[id].publishedAt)
    ensures id in Keep(t, starred, policy, now).Keys
  {
    hide Keep, WithinAge;
    StaysIff(t, starred, policy, now, id);
    assert id !in NewerOfFeed(t, id);
    SubsetIsSmaller(NewerOfFeed(t, id), top - {id});
    assert |top - {id}| == |top| - 1;
  }
}
