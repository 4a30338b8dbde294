/** backend/src/ingest/store.rs, lines 36-129, and the dedup key of backend/src/ingest/mod.rs,
    lines 89-109: storing a batch of parsed items. The table is a sequence of rows, because nothing
    but this code keeps a pair of feed and dedup hash from being stored twice. Instants are
    nanoseconds; stored timestamps are whole seconds. */
module ItemStore {
  import opened Text

  const SECOND := 1_000_000_000
  const DAY := 86400 * SECOND

  /** What an update of an existing row overwrites. */
  datatype Content = Content(title: Option<string>, html: Option<string>, text: Option<string>,
                             image: Option<string>, readingSecs: Option<int>)

  /** What is only written when a row is inserted. */
  datatype Origin = Origin(guid: Option<string>, url: Option<string>, author: Option<string>, durationSecs: Option<int>,
                           score: Option<int>, comments: Option<int>, upvoteRatio: Option<real>)

  datatype Item = Item(hash: string, content: Content, origin: Origin, publishedAt: int)

  datatype Row = Row(id: int, feed: int, hash: string, content: Content, origin: Origin, publishedAt: int,
                     autoSummaryPending: bool)

  datatype Table = Table(rows: seq<Row>, nextId: int)

  // ------------------------------------------------------------ dedup keys

  function NonBlank(s: Option<string>): (r: Option<string>)
    ensures r.Some? ==> r.value != ""
  {
    if s.None? || Trim(s.value) == "" then None else Some(Trim(s.value))
  }

  /** The GUID, else the normalised URL, else a digest of title and text. */
  function DedupKey(guid: Option<string>, url: Option<string>, title: Option<string>, text: Option<string>,
                    normalize: string -> Option<string>, digest: (string, string) -> string): string
  {
    match NonBlank(guid)
    case Some(g) => "guid:" + g
    case None =>
      match NonBlank(url)
      case Some(u) => "url:" + (match normalize(u) case Some(key) => key case None => u)
      case None =>
        "hash:" + digest(if title.None? then "" else title.value, if text.None? then "" else text.value)
  }

  predicate GuidBased(hash: string) {
    |hash| >= 5 && hash[..5] == "guid:"
  }

  predicate IsBlank(s: Option<string>) {
    s.None? || forall i :: 0 <= i < |s.value| ==> IsWhitespace(s.value[i])
  }

  lemma NonBlankIs(s: Option<string>)
    ensures NonBlank(s) == if IsBlank(s) then None else Some(Trim(s.value))
  {
    if s.Some? { TrimIsBlank(s.value); }
  }

  /** The prefix test of the update branch recovers which branch built the key, and GUID keys are
      equal exactly when the trimmed GUIDs are. */
  lemma KeyTellsItsKind(guid: Option<string>, url: Option<string>, title: Option<string>, text: Option<string>,
                        normalize: string -> Option<string>, digest: (string, string) -> string,
                        guid': Option<string>, url': Option<string>, title': Option<string>, text': Option<string>)
    ensures var key := DedupKey(guid, url, title, text, normalize, digest);
            var key' := DedupKey(guid', url', title', text', normalize, digest);
            && (GuidBased(key) <==> !IsBlank(guid))
            && (!IsBlank(guid) ==> (key == key' <==> !IsBlank(guid') && Trim(guid.value) == Trim(guid'.value)))
  {
    hide NonBlank, IsBlank;
    KeyKind(guid, url, title, text, normalize, digest);
    KeyKind(guid', url', title', text', normalize, digest);
    NonBlankIs(guid);
    NonBlankIs(guid');
  }

  lemma KeyKind(guid: Option<string>, url: Option<string>, title: Option<string>, text: Option<string>,
                normalize: string -> Option<string>, digest: (string, string) -> string)
    ensures var key := DedupKey(guid, url, title, text, normalize, digest);
            && |key| > 0
            && match NonBlank(guid)
               case Some(g) => GuidBased(key) && key[5..] == g && key[0] == 'g'
               case None => !GuidBased(key) && key[0] != 'g'
  {
    hide NonBlank;
    match NonBlank(guid)
    case Some(g) => assert ("guid:" + g)[..5] == "guid:";
    case None =>
      var key := DedupKey(guid, url, title, text, normalize, digest);
      assert key[0] == 'u' || key[0] == 'h';
      if GuidBased(key) { GuidStartsWithG(key); }
  }

  lemma GuidStartsWithG(hash: string)
    requires GuidBased(hash)
    ensures hash[0] == 'g'
  {
    assert hash[0] == hash[..5][0];
  }

  /** Without a GUID the key is that of the URL, equal exactly when the normalised URLs are; without
      either it is a digest of title and text. */
  lemma OtherKeys(guid: Option<string>, url: Option<string>, title: Option<string>, text: Option<string>,
                  normalize: string -> Option<string>, digest: (string, string) -> string,
                  guid': Option<string>, url': Option<string>, title': Option<string>, text': Option<string>)
    requires IsBlank(guid) && IsBlank(guid')
    ensures var key := DedupKey(guid, url, title, text, normalize, digest);
            var key' := DedupKey(guid', url', title', text', normalize, digest);
            if IsBlank(url) != IsBlank(url') then key != key'
            else if IsBlank(url)
            then key == key' <==> digest(Or(title, ""), Or(text, "")) == digest(Or(title', ""), Or(text', ""))
            else key == key' <==> Normal(Trim(url.value), normalize) == Normal(Trim(url'.value), normalize)
  {
    hide NonBlank, IsBlank, Trim;
    NonBlankIs(guid);
    NonBlankIs(guid');
    NonBlankIs(url);
    NonBlankIs(url');
    OtherKey(guid, url, title, text, normalize, digest);
    OtherKey(guid', url', title', text', normalize, digest);
  }

  function Normal(url: string, normalize: string -> Option<string>): string {
    Or(normalize(url), url)
  }

  function Or(s: Option<string>, other: string): string {
    match s case Some(v) => v case None => other
  }

  lemma OtherKey(guid: Option<string>, url: Option<string>, title: Option<string>, text: Option<string>,
                 normalize: string -> Option<string>, digest: (string, string) -> string)
    requires NonBlank(guid).None?
    ensures var key := DedupKey(guid, url, title, text, normalize, digest);
            match NonBlank(url)
            case Some(u) => |key| >= 4 && key[0] == 'u' && key[4..] == Normal(u, normalize)
            case None => |key| >= 5 && key[0] == 'h' && key[5..] == digest(Or(title, ""), Or(text, ""))
    ensures match NonBlank(url)
            case Some(u) => DedupKey(guid, url, title, text, normalize, digest) == "url:" + Normal(u, normalize)
            case None => DedupKey(guid, url, title, text, normalize, digest) == "hash:" + digest(Or(title, ""), Or(text, ""))
  {
    hide NonBlank;
  }

  // ------------------------------------------------------------ storing a batch

  predicate Holds(r: Row, feed: int, hash: string) {
    r.feed == feed && r.hash == hash
  }

  /** Position of the row a lookup by feed and hash finds. */
  function Find(rows: seq<Row>, feed: int, hash: string): (r: Option<nat>)
    ensures r.Some? ==> r.value < |rows| && Holds(rows[r.value], feed, hash)
    ensures r.None? ==> forall i :: 0 <= i < |rows| ==> !Holds(rows[i], feed, hash)
  {
    if rows == [] then None
    else
      var last := |rows| - 1;
      match Find(rows[..last], feed, hash)
      case Some(k) => Some(k)
      case None => if Holds(rows[last], feed, hash) then Some(last) else None
  }

  predicate TooOld(item: Item, cutoff: Option<int>) {
    cutoff.Some? && item.publishedAt < cutoff.value
  }

  function NewRow(id: int, feed: int, item: Item, pending: bool): Row {
    Row(id, feed, item.hash, item.content, item.origin, item.publishedAt / SECOND, pending)
  }

  function Update(r: Row, item: Item): Row {
    if GuidBased(item.hash) && r.content.text != item.content.text then r.(content := item.content) else r
  }

  function Store(t: Table, feed: int, item: Item, cutoff: Option<int>, pending: bool): Table {
    match Find(t.rows, feed, item.hash)
    case Some(k) => t.(rows := t.rows[k := Update(t.rows[k], item)])
    case None =>
      if TooOld(item, cutoff) then t else Table(t.rows + [NewRow(t.nextId, feed, item, pending)], t.nextId + 1)
  }

  /** The table after the first `n` items of a batch. */
  function Batch(t: Table, feed: int, items: seq<Item>, cutoff: Option<int>, pending: bool, n: nat): Table
    requires n <= |items|
  {
    if n == 0 then t else Store(Batch(t, feed, items, cutoff, pending, n - 1), feed, items[n - 1], cutoff, pending)
  }

  function Cutoff(maxAgeDays: int, now: int): Option<int> {
    if maxAgeDays > 0 then Some(now - maxAgeDays * DAY) else None
  }

  class Items {
    var rows: seq<Row>
    var nextId: int

    constructor ()
      ensures View() == Table([], 1)
    {
      rows, nextId := [], 1;
    }

    function View(): Table
      reads this
    {
      Table(rows, nextId)
    }

    method InsertItems(feed: int, items: seq<Item>, maxAgeDays: int, now: int, pending: bool) returns (inserted: nat)
      modifies this
      ensures View() == Batch(old(View()), feed, items, Cutoff(maxAgeDays, now), pending, |items|)
      ensures inserted == |rows| - |old(rows)|
    {
      hide Find, GuidBased;
      inserted := 0;
      var cutoff := Cutoff(maxAgeDays, now);
      for i := 0 to |items|
        invariant View() == Batch(old(View()), feed, items, cutoff, pending, i)
        invariant inserted == |rows| - |old(rows)|
      {
        var item := items[i];
        match Find(rows, feed, item.hash) {
          case Some(k) =>
            if GuidBased(item.hash) && rows[k].content.text != item.content.text {
              rows := rows[k := rows[k].(content := item.content)];
            } else {
              assert rows[k := rows[k]] == rows;
            }
          case None =>
            if cutoff.Some? && item.publishedAt < cutoff.value {
              continue;
            }
            rows := rows + [NewRow(nextId, feed, item, pending)];
            nextId := nextId + 1;
            inserted := inserted + 1;
        }
      }
    }
  }

  // ------------------------------------------------------------ what a batch keeps

  /** No feed holds a dedup hash twice, and ids are handed out once. */
  predicate Unique(t: Table) {
    && (forall i, j :: 0 <= i < j < |t.rows| ==> !Holds(t.rows[j], t.rows[i].feed, t.rows[i].hash))
    && (forall i, j :: 0 <= i < j < |t.rows| ==> t.rows[i].id != t.rows[j].id)
    && (forall i :: 0 <= i < |t.rows| ==> t.rows[i].id < t.nextId)
  }

  lemma StoreKeepsUnique(t: Table, feed: int, item: Item, cutoff: Option<int>, pending: bool)
    requires Unique(t)
    ensures Unique(Store(t, feed, item, cutoff, pending))
  {
  }

  /** Duplicates inside one batch included, (feed, hash) stays unique. */
  lemma {:induction false} BatchKeepsUnique(t: Table, feed: int, items: seq<Item>, cutoff: Option<int>, pending: bool, n: nat)
    requires Unique(t) && n <= |items|
    ensures Unique(Batch(t, feed, items, cutoff, pending, n))
  {
    hide Unique, Store;
    if n == 0 {
    } else {
      BatchKeepsUnique(t, feed, items, cutoff, pending, n - 1);
      StoreKeepsUnique(Batch(t, feed, items, cutoff, pending, n - 1), feed, items[n - 1], cutoff, pending);
    }
  }

  lemma StoreKeepsRow(t: Table, feed: int, item: Item, cutoff: Option<int>, pending: bool, k: nat)
    requires k < |t.rows|
    ensures var after := Store(t, feed, item, cutoff, pending).rows;
            && |t.rows| <= |after| && after[k] == t.rows[k].(content := after[k].content)
            && (!Holds(t.rows[k], feed, item.hash) || !GuidBased(item.hash) ==> after[k] == t.rows[k])
  {
    hide GuidBased;
  }

  lemma StoreAdds(t: Table, feed: int, item: Item, cutoff: Option<int>, pending: bool)
    ensures var after := Store(t, feed, item, cutoff, pending);
            if Stored(t, feed, item.hash) || TooOld(item, cutoff)
            then |after.rows| == |t.rows| && after.nextId == t.nextId
            else after.rows == t.rows + [NewRow(t.nextId, feed, item, pending)]
  {
    hide GuidBased;
  }

  lemma StoreCovers(t: Table, feed: int, item: Item, cutoff: Option<int>, pending: bool)
    ensures Stored(Store(t, feed, item, cutoff, pending), feed, item.hash) || TooOld(item, cutoff)
  {
    StoreAdds(t, feed, item, cutoff, pending);
    var after := Store(t, feed, item, cutoff, pending);
    match Find(t.rows, feed, item.hash)
    case Some(k) =>
      StoreKeepsRow(t, feed, item, cutoff, pending, k);
      StoredIfHeld(after, feed, item.hash, k);
    case None =>
      hide Find, Store;
      if !TooOld(item, cutoff) {
        assert Holds(after.rows[|t.rows|], feed, item.hash);
        StoredIfHeld(after, feed, item.hash, |t.rows|);
      }
  }

  lemma StoreKeepsStored(t: Table, feed: int, item: Item, cutoff: Option<int>, pending: bool, hash: string)
    requires Stored(t, feed, hash)
    ensures Stored(Store(t, feed, item, cutoff, pending), feed, hash)
  {
    var k := Find(t.rows, feed, hash).value;
    hide Find, Store;
    StoreKeepsRow(t, feed, item, cutoff, pending, k);
    StoredIfHeld(Store(t, feed, item, cutoff, pending), feed, hash, k);
  }

  predicate InBatch(items: seq<Item>, n: nat, hash: string) {
    exists i :: 0 <= i < n && i < |items| && items[i].hash == hash
  }

  /** Stored rows stay where they are and keep everything but the content; rows of other feeds, of
      hashes outside the batch or without a GUID keep that too. In particular the auto-summary
      marker of an existing row never changes. */
  lemma {:induction false} BatchKeepsRows(t: Table, feed: int, items: seq<Item>, cutoff: Option<int>, pending: bool,
                                          n: nat, k: nat)
    requires n <= |items| && k < |t.rows|
    ensures var after := Batch(t, feed, items, cutoff, pending, n).rows;
            && k < |after| && after[k] == t.rows[k].(content := after[k].content)
            && (t.rows[k].feed != feed || !GuidBased(t.rows[k].hash) || !InBatch(items, n, t.rows[k].hash) ==>
                  after[k] == t.rows[k])
  {
    hide GuidBased, Store;
    if n == 0 {
    } else {
      BatchKeepsRows(t, feed, items, cutoff, pending, n - 1, k);
      var before := Batch(t, feed, items, cutoff, pending, n - 1);
      StoreKeepsRow(before, feed, items[n - 1], cutoff, pending, k);
      if items[n - 1].hash == t.rows[k].hash {
        assert InBatch(items, n, t.rows[k].hash);
      }
    }
  }

  /** Where a row that was not there before comes from. */
  ghost predicate ComesFrom(r: Row, feed: int, items: seq<Item>, n: nat, cutoff: Option<int>, pending: bool) {
    && r.feed == feed && r.autoSummaryPending == pending
    && exists i :: 0 <= i < n && i < |items| && items[i].hash == r.hash && !TooOld(items[i], cutoff)
                   && r.origin == items[i].origin && r.publishedAt == items[i].publishedAt / 1_000_000_000
  }

  lemma {:induction false} NewRowsComeFromBatch(t: Table, feed: int, items: seq<Item>, cutoff: Option<int>, pending: bool,
                                                n: nat, k: nat)
    requires n <= |items| && |t.rows| <= k < |Batch(t, feed, items, cutoff, pending, n).rows|
    ensures ComesFrom(Batch(t, feed, items, cutoff, pending, n).rows[k], feed, items, n, cutoff, pending)
  {
    hide Store;
    if n == 0 {
    } else {
      var before := Batch(t, feed, items, cutoff, pending, n - 1);
      if k < |before.rows| {
        NewRowsComeFromBatch(t, feed, items, cutoff, pending, n - 1, k);
        StoreKeepsRow(before, feed, items[n - 1], cutoff, pending, k);
      } else {
        StoreAdds(before, feed, items[n - 1], cutoff, pending);
      }
    }
  }

  predicate Stored(t: Table, feed: int, hash: string) {
    Find(t.rows, feed, hash).Some?
  }

  lemma StoredIfHeld(t: Table, feed: int, hash: string, k: nat)
    requires k < |t.rows| && Holds(t.rows[k], feed, hash)
    ensures Stored(t, feed, hash)
  {
  }

  /** After a batch each of its items is stored or was too old; what is stored stays stored. */
  lemma {:induction false} BatchCovers(t: Table, feed: int, items: seq<Item>, cutoff: Option<int>, pending: bool,
                                       i: nat, n: nat)
    requires i < n <= |items|
    ensures Stored(Batch(t, feed, items, cutoff, pending, n), feed, items[i].hash) || TooOld(items[i], cutoff)
    decreases n
  {
    hide Store, Stored;
    var before := Batch(t, feed, items, cutoff, pending, n - 1);
    if i == n - 1 {
      StoreCovers(before, feed, items[i], cutoff, pending);
    } else {
      BatchCovers(t, feed, items, cutoff, pending, i, n - 1);
      if Stored(before, feed, items[i].hash) {
        StoreKeepsStored(before, feed, items[n - 1], cutoff, pending, items[i].hash);
      }
    }
  }

  lemma {:induction false} BatchKeepsStored(t: Table, feed: int, items: seq<Item>, cutoff: Option<int>, pending: bool,
                                            n: nat, hash: string)
    requires n <= |items| && Stored(t, feed, hash)
    ensures Stored(Batch(t, feed, items, cutoff, pending, n), feed, hash)
  {
    hide Store, Stored;
    if n == 0 {
    } else {
      BatchKeepsStored(t, feed, items, cutoff, pending, n - 1, hash);
      StoreKeepsStored(Batch(t, feed, items, cutoff, pending, n - 1), feed, items[n - 1], cutoff, pending, hash);
    }
  }

  // In figures: a day has 86400 seconds, and an age limit of 0 or less is none.

  predicate InTable(t: Table, feed: int, hash: string) {
    exists k :: 0 <= k < |t.rows| && t.rows[k].feed == feed && t.rows[k].hash == hash
  }

  predicate YoungIn(items: seq<Item>, n: nat, hash: string, maxAgeDays: int, now: int) {
    exists i :: 0 <= i < n && i < |items| && items[i].hash == hash
                && (maxAgeDays <= 0 || items[i].publishedAt >= now - maxAgeDays * 86_400_000_000_000)
  }

  /** Exactly what a batch stores: a feed has a hash afterwards if and only if it had it before, or it
      is the feed of the batch and some item with that hash is within the age limit. */
  lemma {:induction false} StoredIff(t: Table, feed: int, items: seq<Item>, maxAgeDays: int, now: int, pending: bool, n: nat,
                                     f: int, hash: string)
    requires n <= |items|
    ensures InTable(Batch(t, feed, items, Cutoff(maxAgeDays, now), pending, n), f, hash) <==>
            InTable(t, f, hash) || (f == feed && YoungIn(items, n, hash, maxAgeDays, now))
  {
    hide InTable, Store, Cutoff, YoungIn;
    YoungInStep(items, n, hash, maxAgeDays, now);
    if n == 0 {
    } else {
      StoredIff(t, feed, items, maxAgeDays, now, pending, n - 1, f, hash);
      StoreStores(Batch(t, feed, items, Cutoff(maxAgeDays, now), pending, n - 1), feed, items[n - 1],
                  maxAgeDays, now, pending, f, hash);
    }
  }

  lemma YoungInStep(items: seq<Item>, n: nat, hash: string, maxAgeDays: int, now: int)
    requires n <= |items|
    ensures YoungIn(items, n, hash, maxAgeDays, now) <==>
            n > 0 && (YoungIn(items, n - 1, hash, maxAgeDays, now)
                      || (items[n - 1].hash == hash
                          && (maxAgeDays <= 0 || items[n - 1].publishedAt >= now - maxAgeDays * 86_400_000_000_000)))
  {
  }

  lemma StoreStores(t: Table, feed: int, item: Item, maxAgeDays: int, now: int, pending: bool, f: int, hash: string)
    ensures InTable(Store(t, feed, item, Cutoff(maxAgeDays, now), pending), f, hash) <==>
            || InTable(t, f, hash)
            || (f == feed && item.hash == hash && (maxAgeDays <= 0 || item.publishedAt >= now - maxAgeDays * 86_400_000_000_000))
  {
    var cutoff := Cutoff(maxAgeDays, now);
    var after := Store(t, feed, item, cutoff, pending);
    hide Store, Find;
    FindInTable(t, feed, item.hash);
    StoreAdds(t, feed, item, cutoff, pending);
    forall k | 0 <= k < |t.rows|
      ensures |t.rows| <= |after.rows| && after.rows[k].feed == t.rows[k].feed && after.rows[k].hash == t.rows[k].hash
    {
      StoreKeepsRow(t, feed, item, cutoff, pending, k);
    }
    if |after.rows| > |t.rows| {
      assert after.rows[|t.rows|].feed == feed && after.rows[|t.rows|].hash == item.hash;
    }
  }

  lemma FindInTable(t: Table, feed: int, hash: string)
    ensures Stored(t, feed, hash) <==> InTable(t, feed, hash)
  {
    hide Find;
    if k :| 0 <= k < |t.rows| && t.rows[k].feed == feed && t.rows[k].hash == hash {
      StoredIfHeld(t, feed, hash, k);
    }
    assert Stored(t, feed, hash) ==> InTable(t, feed, hash) by {
      FoundIsHeld(t, feed, hash);
    }
  }

  lemma FoundIsHeld(t: Table, feed: int, hash: string)
    ensures Stored(t, feed, hash) ==>
              exists k :: 0 <= k < |t.rows| && t.rows[k].feed == feed && t.rows[k].hash == hash
  {
  }

  /** What the first cutoff keeps out, the second keeps out too. */
  predicate StaysOld(items: seq<Item>, cutoff: Option<int>, later: Option<int>) {
    forall i :: 0 <= i < |items| && TooOld(items[i], cutoff) ==> TooOld(items[i], later)
  }

  /** Applying a batch again inserts nothing, under any cutoff that keeps out what the first did. */
  lemma {:induction false} ReapplyInsertsNothing(t: Table, feed: int, items: seq<Item>, cutoff: Option<int>, pending: bool,
                                                 later: Option<int>, pending': bool, n: nat)
    requires n <= |items| && StaysOld(items, cutoff, later)
    ensures var once := Batch(t, feed, items, cutoff, pending, |items|);
            var again := Batch(once, feed, items, later, pending', n);
            |again.rows| == |once.rows| && again.nextId == once.nextId
  {
    hide Store, Stored;
    if n == 0 {
    } else {
      ReapplyInsertsNothing(t, feed, items, cutoff, pending, later, pending', n - 1);
      var once := Batch(t, feed, items, cutoff, pending, |items|);
      var item := items[n - 1];
      BatchCovers(t, feed, items, cutoff, pending, n - 1, |items|);
      if Stored(once, feed, item.hash) {
        BatchKeepsStored(once, feed, items, later, pending', n - 1, item.hash);
      }
      StoreAdds(Batch(once, feed, items, later, pending', n - 1), feed, item, later, pending');
    }
  }

  // ------------------------------------------------------------ content

  predicate HasText(t: Table, feed: int, hash: string, text: Option<string>) {
    forall k :: 0 <= k < |t.rows| && Holds(t.rows[k], feed, hash) ==> t.rows[k].content.text == text
  }

  lemma StoreSetsText(t: Table, feed: int, item: Item, cutoff: Option<int>, pending: bool)
    requires Unique(t) && GuidBased(item.hash)
    ensures HasText(Store(t, feed, item, cutoff, pending), feed, item.hash, item.content.text)
  {
    hide GuidBased;
  }

  lemma StoreKeepsText(t: Table, feed: int, item: Item, cutoff: Option<int>, pending: bool, hash: string, text: Option<string>)
    requires HasText(t, feed, hash, text) && (item.hash != hash || item.content.text == text)
    ensures Stored(t, feed, hash) || item.hash != hash ==>
              HasText(Store(t, feed, item, cutoff, pending), feed, hash, text)
  {
    hide GuidBased;
  }

  /** A GUID-based row holds the text of the last item of the batch that carries its GUID. */
  lemma {:induction false} LastTextWins(t: Table, feed: int, items: seq<Item>, cutoff: Option<int>, pending: bool,
                                        j: nat, n: nat)
    requires Unique(t) && j < n <= |items| && GuidBased(items[j].hash)
    requires forall i :: j < i < n ==> items[i].hash != items[j].hash
    ensures HasText(Batch(t, feed, items, cutoff, pending, n), feed, items[j].hash, items[j].content.text)
    decreases n
  {
    hide Store, Unique, HasText, GuidBased;
    var before := Batch(t, feed, items, cutoff, pending, n - 1);
    if j == n - 1 {
      BatchKeepsUnique(t, feed, items, cutoff, pending, n - 1);
      StoreSetsText(before, feed, items[j], cutoff, pending);
    } else {
      LastTextWins(t, feed, items, cutoff, pending, j, n - 1);
      StoreKeepsText(before, feed, items[n - 1], cutoff, pending, items[j].hash, items[j].content.text);
    }
  }

  predicate Carries(items: seq<Item>, n: nat, r: Row) {
    exists i :: 0 <= i < n && i < |items| && items[i].hash == r.hash && items[i].content == r.content
  }

  lemma StoreMovesWholeContent(t: Table, feed: int, item: Item, cutoff: Option<int>, pending: bool, k: nat)
    requires k < |Store(t, feed, item, cutoff, pending).rows|
    ensures var r := Store(t, feed, item, cutoff, pending).rows[k];
            (r.hash == item.hash && r.content == item.content) || (k < |t.rows| && r == t.rows[k])
  {
    hide GuidBased;
  }

  /** Contents are never mixed: a row keeps the content it had or holds the title, bodies, image and
      reading time of one item of the batch with its hash. */
  lemma {:induction false} ContentIsWhole(t: Table, feed: int, items: seq<Item>, cutoff: Option<int>, pending: bool,
                                          n: nat, k: nat)
    requires n <= |items| && k < |Batch(t, feed, items, cutoff, pending, n).rows|
    ensures var r := Batch(t, feed, items, cutoff, pending, n).rows[k];
            Carries(items, n, r) || (k < |t.rows| && r == t.rows[k])
  {
    hide Store;
    if n == 0 {
    } else {
      StoreMovesWholeContent(Batch(t, feed, items, cutoff, pending, n - 1), feed, items[n - 1], cutoff, pending, k);
      if k < |Batch(t, feed, items, cutoff, pending, n - 1).rows| {
        ContentIsWhole(t, feed, items, cutoff, pending, n - 1, k);
      }
    }
  }
}
