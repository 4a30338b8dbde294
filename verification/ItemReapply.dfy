/** backend/src/ingest/store.rs, lines 61-125: what applying a batch a second time changes. Stored
    rows take every item with their hash, so the second time an item the cutoff once kept out of the
    table is an update. */
module ItemReapply {
  import opened Text
  import opened ItemStore

  // ------------------------------------------------------------ the content of one row

  /** The content of a stored GUID-based row after the items from `from` up to `n`. */
  function Fold(c: Content, items: seq<Item>, hash: string, from: nat, n: nat): Content
    requires from <= n <= |items|
  {
    if n == from then c
    else
      var before := Fold(c, items, hash, from, n - 1);
      if items[n - 1].hash == hash && items[n - 1].content.text != before.text then items[n - 1].content else before
  }

  lemma {:induction false} FoldSplit(c: Content, items: seq<Item>, hash: string, from: nat, mid: nat, n: nat)
    requires from <= mid <= n <= |items|
    ensures Fold(c, items, hash, from, n) == Fold(Fold(c, items, hash, from, mid), items, hash, mid, n)
  {
    if n == mid {
    } else {
      FoldSplit(c, items, hash, from, mid, n - 1);
    }
  }

  lemma {:induction false} FoldIdle(c: Content, items: seq<Item>, hash: string, from: nat, n: nat)
    requires from <= n <= |items|
    requires forall i :: from <= i < n && items[i].hash == hash ==> items[i].content.text == c.text
    ensures Fold(c, items, hash, from, n) == c
  {
    if n == from {
    } else {
      FoldIdle(c, items, hash, from, n - 1);
    }
  }

  /** From item `b` of a hash on, all its items share one text. */
  predicate LastRun(items: seq<Item>, hash: string, b: nat) {
    && b < |items| && items[b].hash == hash
    && forall i :: b <= i < |items| && items[i].hash == hash ==> items[i].content.text == items[b].content.text
  }

  /** `a` is the item of the hash before `b`, and has another text. */
  predicate Differs(items: seq<Item>, hash: string, a: nat, b: nat) {
    && a < b < |items| && items[a].hash == hash && items[a].content.text != items[b].content.text
    && forall i :: a < i < b ==> items[i].hash != hash
  }

  /** The last run of equal texts of a hash, and the item before it, if any. */
  lemma FindLastRun(items: seq<Item>, hash: string, some: nat) returns (b: nat, a: Option<nat>)
    requires some < |items| && items[some].hash == hash
    ensures LastRun(items, hash, b)
    ensures a.Some? ==> Differs(items, hash, a.value, b)
    ensures a.None? ==> forall i :: 0 <= i < b ==> items[i].hash != hash
  {
    var i := |items|;
    while items[i - 1].hash != hash
      invariant some < i <= |items|
      invariant forall j :: i <= j < |items| ==> items[j].hash != hash
      decreases i
    {
      i := i - 1;
    }
    i := i - 1;
    b := i;
    while i > 0
      invariant 0 <= i <= b < |items| && LastRun(items, hash, b)
      invariant forall j :: i <= j < b ==> items[j].hash != hash
    {
      i := i - 1;
      if items[i].hash == hash {
        if items[i].content.text != items[b].content.text {
          return b, Some(i);
        }
        b := i;
      }
    }
    a := None;
  }

  /** After all items the content is that of the last run's first item, unless the row came to that
      run with the same text. */
  lemma FoldEnd(c: Content, items: seq<Item>, hash: string, from: nat, b: nat)
    requires LastRun(items, hash, b) && from <= b
    ensures var before := Fold(c, items, hash, from, b);
            Fold(c, items, hash, from, |items|) ==
            if before.text == items[b].content.text then before else items[b].content
  {
    var before := Fold(c, items, hash, from, b);
    FoldSplit(c, items, hash, from, b, |items|);
    if before.text == items[b].content.text {
      FoldIdle(before, items, hash, b, |items|);
    } else {
      assert Fold(before, items, hash, b, b + 1) == items[b].content;
      FoldSplit(before, items, hash, b, b + 1, |items|);
      FoldIdle(items[b].content, items, hash, b + 1, |items|);
    }
  }

  /** A row comes to the last run with the text of the item before it. */
  lemma BeforeRun(c: Content, items: seq<Item>, hash: string, from: nat, a: nat, b: nat)
    requires Differs(items, hash, a, b) && from <= a
    ensures Fold(c, items, hash, from, b).text == items[a].content.text
  {
    FoldSplit(c, items, hash, from, a + 1, b);
    FoldIdle(Fold(c, items, hash, from, a + 1), items, hash, a + 1, b);
  }

  /** A row that was there before is settled by the first application. */
  lemma OldRowSettles(c: Content, items: seq<Item>, hash: string)
    ensures var once := Fold(c, items, hash, 0, |items|); Fold(once, items, hash, 0, |items|) == once
  {
    var once := Fold(c, items, hash, 0, |items|);
    if some: nat :| some < |items| && items[some].hash == hash {
      var b, a := FindLastRun(items, hash, some);
      FoldEnd(c, items, hash, 0, b);
      FoldEnd(once, items, hash, 0, b);
      match a
      case Some(a) =>
        BeforeRun(c, items, hash, 0, a, b);
        BeforeRun(once, items, hash, 0, a, b);
      case None =>
        FoldIdle(c, items, hash, 0, b);
        FoldIdle(once, items, hash, 0, b);
    } else {
      FoldIdle(c, items, hash, 0, |items|);
    }
  }

  /** A row inserted for item `p` is changed by a second application exactly when the last run starts
      before `p`, after an item with another text, with another content than `p`. */
  lemma NewRowSettles(items: seq<Item>, hash: string, p: nat)
    requires p < |items| && items[p].hash == hash
    ensures var once := Fold(items[p].content, items, hash, p + 1, |items|);
            Fold(once, items, hash, 0, |items|) != once <==>
            exists a: nat, b: nat ::
              b < p && LastRun(items, hash, b) && Differs(items, hash, a, b) && items[b].content != items[p].content
  {
    hide Fold, LastRun, Differs;
    var once := Fold(items[p].content, items, hash, p + 1, |items|);
    if a: nat, b: nat :| b < p && LastRun(items, hash, b) && Differs(items, hash, a, b)
                         && items[b].content != items[p].content {
      RunReached(items, hash, p, a, b);
    } else {
      var b, a := FindLastRun(items, hash, p);
      if b > p {
        InsertedBefore(items, hash, p, a, b);
      } else {
        InsertedInside(items, hash, p, a, b);
      }
    }
  }

  lemma RunReached(items: seq<Item>, hash: string, p: nat, a: nat, b: nat)
    requires p < |items| && items[p].hash == hash && b <= p && LastRun(items, hash, b) && Differs(items, hash, a, b)
    ensures var once := Fold(items[p].content, items, hash, p + 1, |items|);
            once == items[p].content && Fold(once, items, hash, 0, |items|) == items[b].content
  {
    FoldIdle(items[p].content, items, hash, p + 1, |items|);
    FoldEnd(items[p].content, items, hash, 0, b);
    BeforeRun(items[p].content, items, hash, 0, a, b);
  }

  /** Inserted before the last run: both applications end with the run's first item. */
  lemma InsertedBefore(items: seq<Item>, hash: string, p: nat, a: Option<nat>, b: nat)
    requires p < b < |items| && items[p].hash == hash && LastRun(items, hash, b)
    requires match a case Some(a) => Differs(items, hash, a, b)
                     case None => forall i :: 0 <= i < b ==> items[i].hash != hash
    ensures var once := Fold(items[p].content, items, hash, p + 1, |items|); Fold(once, items, hash, 0, |items|) == once
  {
    var once := Fold(items[p].content, items, hash, p + 1, |items|);
    FoldEnd(items[p].content, items, hash, p + 1, b);
    FoldEnd(once, items, hash, 0, b);
    BeforeRun(once, items, hash, 0, a.value, b);
    if a.value == p {
      FoldIdle(items[p].content, items, hash, p + 1, b);
    } else {
      BeforeRun(items[p].content, items, hash, p + 1, a.value, b);
    }
  }

  lemma InsertedInside(items: seq<Item>, hash: string, p: nat, a: Option<nat>, b: nat)
    requires b <= p < |items| && items[p].hash == hash && LastRun(items, hash, b)
    requires match a case Some(a) => Differs(items, hash, a, b) && (b == p || items[b].content == items[p].content)
                     case None => forall i :: 0 <= i < b ==> items[i].hash != hash
    ensures var once := Fold(items[p].content, items, hash, p + 1, |items|); Fold(once, items, hash, 0, |items|) == once
  {
    match a
    case Some(a) => RunReached(items, hash, p, a, b);
    case None =>
      FoldIdle(items[p].content, items, hash, p + 1, |items|);
      FoldIdle(items[p].content, items, hash, 0, |items|);
  }

  // ------------------------------------------------------------ rows of the table

  lemma StoreFolds(t: Table, feed: int, item: Item, cutoff: Option<int>, pending: bool, k: nat)
    requires Unique(t) && k < |t.rows| && t.rows[k].feed == feed && GuidBased(t.rows[k].hash)
    ensures var r, after := t.rows[k], Store(t, feed, item, cutoff, pending).rows;
            && k < |after| && after[k].hash == r.hash && after[k].feed == feed
            && after[k].content == if item.hash == r.hash && item.content.text != r.content.text then item.content
                                   else r.content
  {
    hide GuidBased;
  }

  /** The content of a row from the state after `from` items on. */
  lemma {:induction false} RowFolds(t: Table, feed: int, items: seq<Item>, cutoff: Option<int>, pending: bool,
                                    k: nat, from: nat, n: nat)
    requires Unique(t) && from <= n <= |items|
    requires k < |Batch(t, feed, items, cutoff, pending, from).rows|
    requires var r := Batch(t, feed, items, cutoff, pending, from).rows[k]; r.feed == feed && GuidBased(r.hash)
    ensures var r, after := Batch(t, feed, items, cutoff, pending, from).rows[k], Batch(t, feed, items, cutoff, pending, n).rows;
            && k < |after| && after[k].hash == r.hash && after[k].feed == feed
            && after[k].content == Fold(r.content, items, r.hash, from, n)
    decreases n
  {
    hide Store, Unique, GuidBased;
    if n == from {
    } else {
      RowFolds(t, feed, items, cutoff, pending, k, from, n - 1);
      BatchKeepsUnique(t, feed, items, cutoff, pending, n - 1);
      StoreFolds(Batch(t, feed, items, cutoff, pending, n - 1), feed, items[n - 1], cutoff, pending, k);
    }
  }

  /** The first item of its hash that the cutoff lets in. */
  predicate FirstKept(items: seq<Item>, cutoff: Option<int>, p: nat) {
    && p < |items| && !TooOld(items[p], cutoff)
    && forall i :: 0 <= i < p && items[i].hash == items[p].hash ==> TooOld(items[i], cutoff)
  }

  lemma {:induction false} NotYetStored(t: Table, feed: int, items: seq<Item>, cutoff: Option<int>, pending: bool,
                                        hash: string, n: nat)
    requires n <= |items| && !Stored(t, feed, hash)
    requires forall i :: 0 <= i < n && items[i].hash == hash ==> TooOld(items[i], cutoff)
    ensures !Stored(Batch(t, feed, items, cutoff, pending, n), feed, hash)
  {
    hide Store, Stored, TooOld;
    if n == 0 {
    } else {
      NotYetStored(t, feed, items, cutoff, pending, hash, n - 1);
      StoreAddsNone(Batch(t, feed, items, cutoff, pending, n - 1), feed, items[n - 1], cutoff, pending, hash);
    }
  }

  lemma StoreAddsNone(t: Table, feed: int, item: Item, cutoff: Option<int>, pending: bool, hash: string)
    requires !Stored(t, feed, hash) && (item.hash == hash ==> TooOld(item, cutoff))
    ensures !Stored(Store(t, feed, item, cutoff, pending), feed, hash)
  {
    hide GuidBased, TooOld;
    var after := Store(t, feed, item, cutoff, pending).rows;
    assert forall i :: 0 <= i < |after| ==> !Holds(after[i], feed, hash);
  }

  /** The row an item is inserted as. */
  lemma InsertedRow(t: Table, feed: int, items: seq<Item>, cutoff: Option<int>, pending: bool, p: nat)
    requires FirstKept(items, cutoff, p) && !Stored(t, feed, items[p].hash)
    ensures var before := Batch(t, feed, items, cutoff, pending, p);
            Batch(t, feed, items, cutoff, pending, p + 1).rows == before.rows + [NewRow(before.nextId, feed, items[p], pending)]
  {
    hide Store, Stored, TooOld;
    NotYetStored(t, feed, items, cutoff, pending, items[p].hash, p);
    StoreAdds(Batch(t, feed, items, cutoff, pending, p), feed, items[p], cutoff, pending);
  }

  /** The item a new row was inserted for. */
  lemma {:induction false} RowOrigin(t: Table, feed: int, items: seq<Item>, cutoff: Option<int>, pending: bool,
                                     k: nat, n: nat) returns (p: nat)
    requires n <= |items| && |t.rows| <= k < |Batch(t, feed, items, cutoff, pending, n).rows|
    ensures p < n && FirstKept(items, cutoff, p) && !Stored(t, feed, items[p].hash)
    ensures k == |Batch(t, feed, items, cutoff, pending, p).rows|
  {
    hide Store, Stored, TooOld;
    var before := Batch(t, feed, items, cutoff, pending, n - 1);
    if k < |before.rows| {
      p := RowOrigin(t, feed, items, cutoff, pending, k, n - 1);
    } else {
      p := n - 1;
      var hash := items[p].hash;
      StoreAdds(before, feed, items[p], cutoff, pending);
      if Stored(t, feed, hash) { BatchKeepsStored(t, feed, items, cutoff, pending, p, hash); }
      forall i | 0 <= i < p && items[i].hash == hash
        ensures TooOld(items[i], cutoff)
      {
        BatchCovers(t, feed, items, cutoff, pending, i, p);
      }
    }
  }

  // ------------------------------------------------------------ the second application

  /** Item `p` brings a GUID into the table; item `b` before it, kept out by the cutoff, starts the
      last run of equal texts of that GUID, after item `a` with another text, and says something
      else than `p` in its title, markup, image or reading time. */
  predicate Flips(t: Table, feed: int, items: seq<Item>, cutoff: Option<int>, a: nat, b: nat, p: nat) {
    && b < p && FirstKept(items, cutoff, p) && GuidBased(items[p].hash) && !Stored(t, feed, items[p].hash)
    && LastRun(items, items[p].hash, b) && Differs(items, items[p].hash, a, b)
    && items[b].content != items[p].content
  }

  /** The content of an inserted row after one application and after two. */
  lemma InsertedRowTwice(t: Table, feed: int, items: seq<Item>, cutoff: Option<int>, pending: bool,
                         later: Option<int>, pending': bool, p: nat)
    requires Unique(t) && FirstKept(items, cutoff, p) && !Stored(t, feed, items[p].hash) && GuidBased(items[p].hash)
    ensures var hash, k := items[p].hash, |Batch(t, feed, items, cutoff, pending, p).rows|;
            var once := Batch(t, feed, items, cutoff, pending, |items|);
            var again := Batch(once, feed, items, later, pending', |items|);
            && k < |once.rows| && k < |again.rows|
            && once.rows[k].content == Fold(items[p].content, items, hash, p + 1, |items|)
            && again.rows[k].content == Fold(once.rows[k].content, items, hash, 0, |items|)
  {
    hide Store, Stored, Fold, Unique, GuidBased, TooOld;
    var k := |Batch(t, feed, items, cutoff, pending, p).rows|;
    var once := Batch(t, feed, items, cutoff, pending, |items|);
    InsertedAt(t, feed, items, cutoff, pending, p);
    RowFolds(t, feed, items, cutoff, pending, k, p + 1, |items|);
    BatchKeepsUnique(t, feed, items, cutoff, pending, |items|);
    assert Batch(once, feed, items, later, pending', 0) == once;
    RowFolds(once, feed, items, later, pending', k, 0, |items|);
  }

  lemma InsertedAt(t: Table, feed: int, items: seq<Item>, cutoff: Option<int>, pending: bool, p: nat)
    requires FirstKept(items, cutoff, p) && !Stored(t, feed, items[p].hash)
    ensures var k, after := |Batch(t, feed, items, cutoff, pending, p).rows|, Batch(t, feed, items, cutoff, pending, p + 1).rows;
            && p < |items| && k < |after|
            && after[k].feed == feed && after[k].hash == items[p].hash && after[k].content == items[p].content
  {
    hide Batch, Stored;
    InsertedRow(t, feed, items, cutoff, pending, p);
  }

  /** No row changes unless some items flip. */
  lemma RowSettles(t: Table, feed: int, items: seq<Item>, cutoff: Option<int>, pending: bool,
                   later: Option<int>, pending': bool, k: nat)
    requires Unique(t) && forall a: nat, b: nat, p: nat :: !Flips(t, feed, items, cutoff, a, b, p)
    requires k < |Batch(t, feed, items, cutoff, pending, |items|).rows|
    ensures var once := Batch(t, feed, items, cutoff, pending, |items|);
            var again := Batch(once, feed, items, later, pending', |items|);
            k < |again.rows| && again.rows[k] == once.rows[k]
  {
    hide Store, Stored, Fold, Unique, GuidBased, Batch, LastRun, Differs;
    var once := Batch(t, feed, items, cutoff, pending, |items|);
    BatchKeepsRows(once, feed, items, later, pending', |items|, k);
    var r := once.rows[k];
    if r.feed == feed && GuidBased(r.hash) {
      if k < |t.rows| {
        BatchKeepsRows(t, feed, items, cutoff, pending, |items|, k);
        OldRowTwice(t, feed, items, cutoff, pending, later, pending', k);
      } else {
        var p := RowOrigin(t, feed, items, cutoff, pending, k, |items|);
        RowKeepsHash(t, feed, items, cutoff, pending, p, k);
        InsertedRowTwice(t, feed, items, cutoff, pending, later, pending', p);
        forall a: nat, b: nat
          ensures !(b < p && LastRun(items, r.hash, b) && Differs(items, r.hash, a, b) && items[b].content != items[p].content)
        {
          assert !Flips(t, feed, items, cutoff, a, b, p);
        }
        NewRowSettles(items, r.hash, p);
      }
    }
  }

  lemma RowKeepsHash(t: Table, feed: int, items: seq<Item>, cutoff: Option<int>, pending: bool, p: nat, k: nat)
    requires FirstKept(items, cutoff, p) && !Stored(t, feed, items[p].hash)
    requires k == |Batch(t, feed, items, cutoff, pending, p).rows|
    ensures k < |Batch(t, feed, items, cutoff, pending, |items|).rows|
    ensures Batch(t, feed, items, cutoff, pending, |items|).rows[k].hash == items[p].hash
  {
    hide Stored;
    InsertedAt(t, feed, items, cutoff, pending, p);
    hide Batch, Store;
    HashKept(t, feed, items, cutoff, pending, k, p + 1, |items|);
  }

  lemma {:induction false} HashKept(t: Table, feed: int, items: seq<Item>, cutoff: Option<int>, pending: bool,
                                    k: nat, from: nat, n: nat)
    requires from <= n <= |items| && k < |Batch(t, feed, items, cutoff, pending, from).rows|
    ensures k < |Batch(t, feed, items, cutoff, pending, n).rows|
    ensures Batch(t, feed, items, cutoff, pending, n).rows[k].hash == Batch(t, feed, items, cutoff, pending, from).rows[k].hash
    decreases n
  {
    hide Store;
    if n == from {
    } else {
      HashKept(t, feed, items, cutoff, pending, k, from, n - 1);
      StoreKeepsRow(Batch(t, feed, items, cutoff, pending, n - 1), feed, items[n - 1], cutoff, pending, k);
    }
  }

  lemma OldRowTwice(t: Table, feed: int, items: seq<Item>, cutoff: Option<int>, pending: bool,
                    later: Option<int>, pending': bool, k: nat)
    requires Unique(t) && k < |t.rows| && t.rows[k].feed == feed && GuidBased(t.rows[k].hash)
    ensures var once := Batch(t, feed, items, cutoff, pending, |items|);
            var again := Batch(once, feed, items, later, pending', |items|);
            k < |once.rows| && k < |again.rows| && again.rows[k].content == once.rows[k].content
  {
    hide Store, Fold, Unique, GuidBased;
    var once := Batch(t, feed, items, cutoff, pending, |items|);
    assert Batch(t, feed, items, cutoff, pending, 0) == t && Batch(once, feed, items, later, pending', 0) == once;
    RowFolds(t, feed, items, cutoff, pending, k, 0, |items|);
    BatchKeepsUnique(t, feed, items, cutoff, pending, |items|);
    RowFolds(once, feed, items, later, pending', k, 0, |items|);
    OldRowSettles(t.rows[k].content, items, t.rows[k].hash);
  }

  /** The exact boundary: under any cutoff that keeps out what the first did, a second application of
      a batch changes the table if and only if items of the batch flip. */
  lemma ReapplyChangesIff(t: Table, feed: int, items: seq<Item>, cutoff: Option<int>, pending: bool,
                          later: Option<int>, pending': bool)
    requires Unique(t) && StaysOld(items, cutoff, later)
    ensures var once := Batch(t, feed, items, cutoff, pending, |items|);
            Batch(once, feed, items, later, pending', |items|) != once <==>
            exists a: nat, b: nat, p: nat :: Flips(t, feed, items, cutoff, a, b, p)
  {
    hide Batch, Stored, Fold, Unique, GuidBased, LastRun, Differs, TooOld;
    var once := Batch(t, feed, items, cutoff, pending, |items|);
    var again := Batch(once, feed, items, later, pending', |items|);
    ReapplyInsertsNothing(t, feed, items, cutoff, pending, later, pending', |items|);
    if a: nat, b: nat, p: nat :| Flips(t, feed, items, cutoff, a, b, p) {
      InsertedRowTwice(t, feed, items, cutoff, pending, later, pending', p);
      NewRowSettles(items, items[p].hash, p);
    } else {
      forall k | 0 <= k < |once.rows|
        ensures again.rows[k] == once.rows[k]
      {
        RowSettles(t, feed, items, cutoff, pending, later, pending', k);
      }
      assert again.rows == once.rows;
    }
  }

  /** In terms of the clock: with the configured age limit, a feed whose batch has been stored once
      can be polled with the same batch at any later time without a new row, and without any change
      at all unless items flip; without an age limit none ever do. */
  lemma LaterPollIsIdle(t: Table, feed: int, items: seq<Item>, maxAgeDays: int, now: int, later: int,
                        pending: bool, pending': bool)
    requires now <= later
    ensures var once := Batch(t, feed, items, Cutoff(maxAgeDays, now), pending, |items|);
            var again := Batch(once, feed, items, Cutoff(maxAgeDays, later), pending', |items|);
            && |again.rows| == |once.rows| && again.nextId == once.nextId
            && (Unique(t) ==>
                  (again == once <==> forall a: nat, b: nat, p: nat :: !Flips(t, feed, items, Cutoff(maxAgeDays, now), a, b, p)))
            && (Unique(t) && maxAgeDays <= 0 ==> again == once)
  {
    hide Batch, Unique, LastRun, Differs, GuidBased, Stored;
    var cutoff := Cutoff(maxAgeDays, now);
    ReapplyInsertsNothing(t, feed, items, cutoff, pending, Cutoff(maxAgeDays, later), pending', |items|);
    if Unique(t) {
      ReapplyChangesIff(t, feed, items, cutoff, pending, Cutoff(maxAgeDays, later), pending');
      forall a: nat, b: nat, p: nat | Flips(t, feed, items, cutoff, a, b, p)
        ensures maxAgeDays > 0
      {
        FlipIsTooOld(t, feed, items, cutoff, a, b, p);
      }
    }
  }

  /** What flips was kept out by the cutoff. */
  lemma FlipIsTooOld(t: Table, feed: int, items: seq<Item>, cutoff: Option<int>, a: nat, b: nat, p: nat)
    requires Flips(t, feed, items, cutoff, a, b, p)
    ensures TooOld(items[b], cutoff) && cutoff.Some?
  {
  }

  /** Such batches exist: two old items that disagree, before a new one that agrees with the second
      on the text alone. */
  lemma DisagreeingBatch(feed: int, first: Item, second: Item, third: Item, cutoff: int)
    requires GuidBased(first.hash) && first.hash == second.hash == third.hash
    requires first.publishedAt < cutoff && second.publishedAt < cutoff <= third.publishedAt
    requires first.content.text != second.content.text == third.content.text && second.content != third.content
    ensures var items := [first, second, third];
            var once := Batch(Table([], 1), feed, items, Some(cutoff), false, 3);
            Batch(once, feed, items, Some(cutoff), false, 3) != once
  {
    hide Batch, GuidBased;
    var items := [first, second, third];
    assert Flips(Table([], 1), feed, items, Some(cutoff), 0, 1, 2);
    ReapplyChangesIff(Table([], 1), feed, items, Some(cutoff), false, Some(cutoff), false);
  }
}
