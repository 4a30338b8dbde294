/** The shared summary cache: lookup and generation in backend/src/ai/summarize.rs, lines 74-281,
    359-378 and 405-427, the list's `has_summary` in backend/src/routes/items.rs, lines 193-261, and
    the detail view, lines 352-430. What the providers, the budget and the item's source answer is
    a parameter. */
module Summaries {
  import opened Text
  import opened Providers

  const VIDEO := "video-topics-v1"
  const TEXT_OF_VIDEO := "text-video-topics-v1"
  const TEXT := "text"

  /** `UNIQUE (item_id, provider_id, summary_kind)`. */
  datatype Key = Key(item: int, provider: int, kind: string)

  datatype Entry = Entry(model: string, text: string)

  type Cache = map<Key, Entry>

  /** SQLite's one-argument `TRIM` removes spaces and nothing else. */
  predicate Blank(text: string) {
    forall i :: 0 <= i < |text| ==> text[i] == ' '
  }

  /** The row a lookup for this item, provider and kind may use. */
  predicate Hit(cache: Cache, item: int, p: Provider, kind: string) {
    var key := Key(item, p.id, kind);
    key in cache && cache[key].model == p.model && !Blank(cache[key].text)
  }

  function Cached(cache: Cache, item: int, p: Provider, kind: string): Option<string> {
    if Hit(cache, item, p, kind) then Some(cache[Key(item, p.id, kind)].text) else None
  }

  // ------------------------------------------------------------ the order of preference

  datatype Link = Link(provider: Provider, kind: string)

  function Links(route: seq<Provider>, kind: string): (links: seq<Link>)
    ensures |links| == |route|
    ensures forall i :: 0 <= i < |route| ==> links[i] == Link(route[i], kind)
  {
    if route == [] then [] else Links(route[..|route| - 1], kind) + [Link(route[|route| - 1], kind)]
  }

  /** Native video first, then text; articles are never looked up on the video route. */
  function Chain(videoRoute: seq<Provider>, textRoute: seq<Provider>, isVideo: bool): seq<Link> {
    if isVideo then Links(videoRoute, VIDEO) + Links(textRoute, TEXT_OF_VIDEO) else Links(textRoute, TEXT)
  }

  predicate HitAt(cache: Cache, item: int, chain: seq<Link>, k: nat) {
    k < |chain| && Hit(cache, item, chain[k].provider, chain[k].kind)
  }

  /** Position of the first link with a usable row. */
  function FirstHit(cache: Cache, item: int, chain: seq<Link>): (r: Option<nat>)
    ensures r.Some? ==> HitAt(cache, item, chain, r.value) && forall j :: 0 <= j < r.value ==> !HitAt(cache, item, chain, j)
    ensures r.None? ==> forall j :: 0 <= j < |chain| ==> !HitAt(cache, item, chain, j)
  {
    if chain == [] then None
    else
      var last := |chain| - 1;
      assert forall j :: 0 <= j < last ==> (HitAt(cache, item, chain, j) <==> HitAt(cache, item, chain[..last], j));
      match FirstHit(cache, item, chain[..last])
      case Some(k) => Some(k)
      case None => if Hit(cache, item, chain[last].provider, chain[last].kind) then Some(last) else None
  }

  datatype Shown = Shown(text: string, kind: string)

  /** The summary everyone should see for an item. */
  function ShownBy(cache: Cache, item: int, chain: seq<Link>): Option<Shown> {
    match FirstHit(cache, item, chain)
    case None => None
    case Some(k) => Some(Shown(cache[Key(item, chain[k].provider.id, chain[k].kind)].text, chain[k].kind))
  }

  // ------------------------------------------------------------ the list

  datatype Condition = Condition(provider: int, model: string, kind: string)

  function ConditionOf(link: Link): Condition {
    Condition(link.provider.id, link.provider.model, link.kind)
  }

  /** The disjunction `push_summary_exists` writes; no disjunct reads `0`. */
  method PushSummaryExists(videoRoute: seq<Provider>, textRoute: seq<Provider>, isVideo: bool)
    returns (conditions: seq<Condition>)
    ensures |conditions| == |Chain(videoRoute, textRoute, isVideo)|
    ensures forall i :: 0 <= i < |conditions| ==> conditions[i] == ConditionOf(Chain(videoRoute, textRoute, isVideo)[i])
  {
    hide Chain, Links, ConditionOf;
    ghost var chain := Chain(videoRoute, textRoute, isVideo);
    ghost var videos := if isVideo then |videoRoute| else 0;
    ChainParts(videoRoute, textRoute, isVideo);
    conditions := [];
    if isVideo {
      for i := 0 to |videoRoute|
        invariant |conditions| == i
        invariant forall j :: 0 <= j < i ==> conditions[j] == ConditionOf(chain[j])
      {
        conditions := conditions + [Condition(videoRoute[i].id, videoRoute[i].model, VIDEO)];
        ConditionIs(videoRoute[i], VIDEO);
        assert chain[i] == Link(videoRoute[i], VIDEO);
      }
    }
    var kind := if isVideo then TEXT_OF_VIDEO else TEXT;
    for i := 0 to |textRoute|
      invariant |conditions| == videos + i
      invariant forall j :: 0 <= j < videos + i ==> conditions[j] == ConditionOf(chain[j])
    {
      conditions := conditions + [Condition(textRoute[i].id, textRoute[i].model, kind)];
      ConditionIs(textRoute[i], kind);
      assert chain[videos + i] == Link(textRoute[i], kind);
    }
  }

  lemma ConditionIs(p: Provider, kind: string)
    ensures ConditionOf(Link(p, kind)) == Condition(p.id, p.model, kind)
  {
  }

  /** One correlated `EXISTS`: some row of the item meets the condition. */
  predicate Exists(cache: Cache, item: int, c: Condition) {
    exists key :: key in cache && key.item == item && key.provider == c.provider && cache[key].model == c.model
                  && key.kind == c.kind && !Blank(cache[key].text)
  }

  predicate HasSummary(cache: Cache, item: int, conditions: seq<Condition>) {
    exists i :: 0 <= i < |conditions| && Exists(cache, item, conditions[i])
  }

  // ------------------------------------------------------------ the detail view and generation

  datatype Outcome =
    | Summary(text: string, kind: string, model: string, cached: bool)
    | NotConfigured
    | OverBudget
    | NoContent
    | ProviderFailed

  /** What the world answers: whether the item has a URL, whether its source is usable, whether the
      budget allows the n-th check, and what each provider replies. */
  datatype World = World(hasUrl: bool, hasSource: bool, budget: nat -> bool, reply: Link -> Option<string>)

  function Stored(cache: Cache, item: int, link: Link, text: string): Cache {
    cache[Key(item, link.provider.id, link.kind) := Entry(link.provider.model, text)]
  }

  /** A lookup's answer; `NotConfigured` stands for a miss. */
  function FromCache(cache: Cache, item: int, chain: seq<Link>): Outcome {
    match FirstHit(cache, item, chain)
    case None => NotConfigured
    case Some(k) =>
      Summary(cache[Key(item, chain[k].provider.id, chain[k].kind)].text, chain[k].kind, chain[k].provider.model, true)
  }

  lemma FromCacheIsHit(cache: Cache, item: int, chain: seq<Link>)
    ensures FromCache(cache, item, chain).Summary? <==> FirstHit(cache, item, chain).Some?
  {
    hide FirstHit;
  }

  /** Link `k` is asked - a video link only for an item with a URL - and answers. */
  predicate Replies(world: World, chain: seq<Link>, videos: nat, k: nat) {
    k < |chain| && (k >= videos || world.hasUrl) && world.reply(chain[k]).Some?
  }

  predicate FirstReply(world: World, chain: seq<Link>, videos: nat, k: nat) {
    Replies(world, chain, videos, k) && forall j :: 0 <= j < k ==> !Replies(world, chain, videos, j)
  }

  /** Generation without or past the cache: it is stored and returned what the first link that
      answers says, and nothing is stored when it fails. It can only fail for want of a provider, a
      source or budget, or because every link asked failed. */
  ghost predicate Generated(before: Cache, after: Cache, item: int, chain: seq<Link>, videos: nat, world: World,
                            outcome: Outcome)
  {
    match outcome
    case Summary(text, kind, model, cached) =>
      !cached && exists k: nat ::
        && FirstReply(world, chain, videos, k) && world.reply(chain[k]) == Some(text)
        && kind == chain[k].kind && model == chain[k].provider.model && after == Stored(before, item, chain[k], text)
        && (k >= videos ==> world.hasSource)
    case NotConfigured => after == before && forall k :: 0 <= k < |chain| ==> k < videos && !Replies(world, chain, videos, k)
    case OverBudget =>
      after == before && exists n: nat ::
        && n <= videos && !world.budget(n) && (forall m: nat :: m < n ==> world.budget(m))
        && forall k: nat :: k < n ==> !Replies(world, chain, videos, k)
    case NoContent => after == before && !world.hasSource && forall k: nat :: k < videos ==> !Replies(world, chain, videos, k)
    case ProviderFailed => after == before && forall k :: 0 <= k < |chain| ==> !Replies(world, chain, videos, k)
  }

  class SummaryStore {
    var cache: Cache

    constructor ()
      ensures cache == map[]
    {
      cache := map[];
    }

    method GetItem(item: int, isVideo: bool, videoRoute: seq<Provider>, textRoute: seq<Provider>)
      returns (shown: Option<Shown>)
      ensures shown == ShownBy(cache, item, Chain(videoRoute, textRoute, isVideo))
    {
      hide Hit, Blank;
      ghost var chain := Chain(videoRoute, textRoute, isVideo);
      if isVideo {
        for i := 0 to |videoRoute|
          invariant forall j :: 0 <= j < i ==> !HitAt(cache, item, chain, j)
        {
          var text := Cached(cache, item, videoRoute[i], VIDEO);
          assert chain[i] == Link(videoRoute[i], VIDEO);
          if text.Some? {
            FoundFirst(cache, item, chain, i);
            return Some(Shown(text.value, VIDEO));
          }
        }
      }
      var kind := if isVideo then TEXT_OF_VIDEO else TEXT;
      ghost var base := if isVideo then |videoRoute| else 0;
      for i := 0 to |textRoute|
        invariant forall j :: 0 <= j < base + i ==> !HitAt(cache, item, chain, j)
      {
        var text := Cached(cache, item, textRoute[i], kind);
        assert chain[base + i] == Link(textRoute[i], kind);
        if text.Some? {
          FoundFirst(cache, item, chain, base + i);
          return Some(Shown(text.value, kind));
        }
      }
      shown := None;
    }

    /** The upsert of one cache row: a lookup of that item, provider and kind now finds the text,
        unless it is blank, and every other row is as it was. */
    method StoreSummary(item: int, link: Link, text: string)
      modifies this
      ensures cache == Stored(old(cache), item, link, text)
      ensures Cached(cache, item, link.provider, link.kind) == if Blank(text) then None else Some(text)
      ensures forall key :: key != Key(item, link.provider.id, link.kind) ==>
                (key in cache <==> key in old(cache)) && (key in cache ==> cache[key] == old(cache)[key])
    {
      cache := cache[Key(item, link.provider.id, link.kind) := Entry(link.provider.model, text)];
    }

    method SummarizeItem(item: int, isVideo: bool, videoRoute: seq<Provider>, textRoute: seq<Provider>, force: bool,
                         world: World)
      returns (outcome: Outcome)
      modifies this
      ensures var chain, videos := Chain(videoRoute, textRoute, isVideo), if isVideo then |videoRoute| else 0;
              if !force && FirstHit(old(cache), item, chain).Some?
              then outcome == FromCache(cache, item, chain) && cache == old(cache)
              else Generated(old(cache), cache, item, chain, videos, world, outcome)
    {
      hide ShownBy, FirstHit, HitAt, Hit, Chain, Stored, Links, FromCache;
      ghost var chain := Chain(videoRoute, textRoute, isVideo);
      ghost var videos := if isVideo then |videoRoute| else 0;
      ChainParts(videoRoute, textRoute, isVideo);
      FromCacheIsHit(cache, item, chain);
      if !force {
        outcome := LookUp(item, isVideo, videoRoute, textRoute);
        if outcome.Summary? { return; }
      }
      if (!isVideo || videoRoute == []) && textRoute == [] {
        return NotConfigured;
      }
      var checks: nat := 0;
      if isVideo {
        for i := 0 to |videoRoute|
          invariant cache == old(cache) && checks == if world.hasUrl then i else 0
          invariant forall m: nat :: m < checks ==> world.budget(m)
          invariant forall j :: 0 <= j < i ==> !Replies(world, chain, videos, j)
        {
          var link := Link(videoRoute[i], VIDEO);
          assert chain[i] == link;
          if world.hasUrl {
            if !world.budget(checks) { return OverBudget; }
            checks := checks + 1;
            var reply := world.reply(link);
            if reply.Some? {
              StoreSummary(item, link, reply.value);
              assert FirstReply(world, chain, videos, i);
              return Summary(reply.value, VIDEO, link.provider.model, false);
            }
          }
        }
      }
      if !world.hasSource { return NoContent; }
      if !world.budget(checks) { return OverBudget; }
      var kind := if isVideo then TEXT_OF_VIDEO else TEXT;
      for i := 0 to |textRoute|
        invariant cache == old(cache)
        invariant forall j :: 0 <= j < videos + i ==> !Replies(world, chain, videos, j)
      {
        var link := Link(textRoute[i], kind);
        assert chain[videos + i] == link;
        var reply := world.reply(link);
        if reply.Some? {
          StoreSummary(item, link, reply.value);
          assert FirstReply(world, chain, videos, videos + i);
          return Summary(reply.value, kind, link.provider.model, false);
        }
      }
      outcome := if textRoute == [] then NotConfigured else ProviderFailed;
    }

    /** The non-forced lookup of `summarize_item`. */
    method LookUp(item: int, isVideo: bool, videoRoute: seq<Provider>, textRoute: seq<Provider>)
      returns (outcome: Outcome)
      ensures outcome == FromCache(cache, item, Chain(videoRoute, textRoute, isVideo))
    {
      hide Hit, Blank;
      ghost var chain := Chain(videoRoute, textRoute, isVideo);
      if isVideo {
        for i := 0 to |videoRoute|
          invariant forall j :: 0 <= j < i ==> !HitAt(cache, item, chain, j)
        {
          var text := Cached(cache, item, videoRoute[i], VIDEO);
          assert chain[i] == Link(videoRoute[i], VIDEO);
          if text.Some? {
            FoundFirst(cache, item, chain, i);
            return Summary(text.value, VIDEO, videoRoute[i].model, true);
          }
        }
      }
      var kind := if isVideo then TEXT_OF_VIDEO else TEXT;
      ghost var base := if isVideo then |videoRoute| else 0;
      for i := 0 to |textRoute|
        invariant forall j :: 0 <= j < base + i ==> !HitAt(cache, item, chain, j)
      {
        var text := Cached(cache, item, textRoute[i], kind);
        assert chain[base + i] == Link(textRoute[i], kind);
        if text.Some? {
          FoundFirst(cache, item, chain, base + i);
          return Summary(text.value, kind, textRoute[i].model, true);
        }
      }
      outcome := NotConfigured;
    }
  }

  lemma ChainParts(videoRoute: seq<Provider>, textRoute: seq<Provider>, isVideo: bool)
    ensures var chain, videos := Chain(videoRoute, textRoute, isVideo), if isVideo then |videoRoute| else 0;
            && |chain| == videos + |textRoute|
            && (forall i :: 0 <= i < videos ==> chain[i] == Link(videoRoute[i], VIDEO))
            && (forall i :: 0 <= i < |chain| ==> (chain[i].kind == VIDEO <==> i < videos))
            && forall i :: 0 <= i < |textRoute| ==>
                 chain[videos + i] == Link(textRoute[i], if isVideo then TEXT_OF_VIDEO else TEXT)
  {
  }

  lemma FoundFirst(cache: Cache, item: int, chain: seq<Link>, k: nat)
    requires HitAt(cache, item, chain, k) && forall j :: 0 <= j < k ==> !HitAt(cache, item, chain, j)
    ensures FirstHit(cache, item, chain) == Some(k)
  {
    hide Hit;
    var hit := FirstHit(cache, item, chain);
    assert hit.Some?;
  }

  // ------------------------------------------------------------ agreement

  lemma ExistsIsHit(cache: Cache, item: int, link: Link)
    ensures Exists(cache, item, ConditionOf(link)) <==> Hit(cache, item, link.provider, link.kind)
  {
    hide Blank;
    if Hit(cache, item, link.provider, link.kind) {
      assert Key(item, link.provider.id, link.kind) in cache;
    }
    if Exists(cache, item, ConditionOf(link)) {
      var key :| key in cache && key.item == item && key.provider == link.provider.id
                 && cache[key].model == link.provider.model && key.kind == link.kind && !Blank(cache[key].text);
      assert key == Key(item, link.provider.id, link.kind);
    }
  }

  /** For any table and any routes, the list says there is a summary exactly when the detail view
      shows one, and exactly then a request that does not force one is answered from the cache,
      with the text and kind of the detail view. */
  lemma ViewsAgree(cache: Cache, item: int, chain: seq<Link>, conditions: seq<Condition>)
    requires |conditions| == |chain| && forall i :: 0 <= i < |chain| ==> conditions[i] == ConditionOf(chain[i])
    ensures HasSummary(cache, item, conditions) <==> ShownBy(cache, item, chain).Some?
    ensures match ShownBy(cache, item, chain)
            case Some(shown) =>
              exists model :: FromCache(cache, item, chain) == Summary(shown.text, shown.kind, model, true)
            case None => FromCache(cache, item, chain) == NotConfigured
  {
    hide Hit, Exists, ConditionOf;
    forall i | 0 <= i < |chain|
      ensures Exists(cache, item, conditions[i]) <==> HitAt(cache, item, chain, i)
    {
      ExistsIsHit(cache, item, chain[i]);
    }
    match FirstHit(cache, item, chain)
    case None =>
    case Some(k) =>
      assert Exists(cache, item, conditions[k]);
      var shown := ShownBy(cache, item, chain).value;
      assert FromCache(cache, item, chain) == Summary(shown.text, shown.kind, chain[k].provider.model, true);
  }

  lemma StoreChangesHits(cache: Cache, item: int, chain: seq<Link>, k: nat, text: string, j: nat)
    requires k < |chain| && j < |chain|
    ensures var after := Stored(cache, item, chain[k], text);
            if chain[j].provider.id == chain[k].provider.id && chain[j].kind == chain[k].kind
            then HitAt(after, item, chain, j) <==> chain[j].provider.model == chain[k].provider.model && !Blank(text)
            else HitAt(after, item, chain, j) <==> HitAt(cache, item, chain, j)
  {
    hide Blank;
  }

  /** After a summary is stored for the first link of its provider and kind, the views take it from
      that link exactly when its text is not blank and no earlier link had a usable row already;
      they then show that text. Other items are not affected. */
  lemma StoreThenShown(cache: Cache, item: int, chain: seq<Link>, k: nat, text: string, other: int)
    requires k < |chain| && other != item
    requires forall j :: 0 <= j < k ==> chain[j].provider.id != chain[k].provider.id || chain[j].kind != chain[k].kind
    ensures var after := Stored(cache, item, chain[k], text);
            && (FirstHit(after, item, chain) == Some(k) <==>
                  !Blank(text) && forall j :: 0 <= j < k ==> !HitAt(cache, item, chain, j))
            && (FirstHit(after, item, chain) == Some(k) ==>
                  ShownBy(after, item, chain) == Some(Shown(text, chain[k].kind)))
            && ShownBy(after, other, chain) == ShownBy(cache, other, chain)
  {
    var after := Stored(cache, item, chain[k], text);
    forall j | 0 <= j <= k
      ensures HitAt(after, item, chain, j) <==> if j == k then !Blank(text) else HitAt(cache, item, chain, j)
    {
      StoreChangesHits(cache, item, chain, k, text, j);
    }
    OthersKeepTheirs(cache, item, chain, chain[k], text, other);
    hide HitAt, Blank;
    if !Blank(text) && forall j :: 0 <= j < k ==> !HitAt(cache, item, chain, j) {
      FoundFirst(after, item, chain, k);
    }
  }

  /** Routes resolve equal ids to equal providers. */
  predicate SameProviders(chain: seq<Link>) {
    forall i, j :: 0 <= i < j < |chain| && chain[i].provider.id == chain[j].provider.id ==> chain[i].provider == chain[j].provider
  }

  lemma FreshIsShownOn(before: Cache, after: Cache, item: int, videoRoute: seq<Provider>, textRoute: seq<Provider>,
                       isVideo: bool, world: World, outcome: Outcome)
    requires var chain, videos := Chain(videoRoute, textRoute, isVideo), if isVideo then |videoRoute| else 0;
             && SameProviders(chain) && FirstHit(before, item, chain).None?
             && outcome.Summary? && Generated(before, after, item, chain, videos, world, outcome)
    ensures ShownBy(after, item, Chain(videoRoute, textRoute, isVideo)) ==
            if Blank(outcome.text) then None else Some(Shown(outcome.text, outcome.kind))
  {
    var chain, videos := Chain(videoRoute, textRoute, isVideo), if isVideo then |videoRoute| else 0;
    ChainParts(videoRoute, textRoute, isVideo);
    hide Chain, Hit, Blank, ShownBy;
    var k: nat :| && FirstReply(world, chain, videos, k) && world.reply(chain[k]) == Some(outcome.text)
                  && outcome.kind == chain[k].kind && after == Stored(before, item, chain[k], outcome.text);
    if Blank(outcome.text) {
      forall j: nat | j < |chain|
        ensures !HitAt(after, item, chain, j)
      {
        StoreChangesHits(before, item, chain, k, outcome.text, j);
      }
      ShownOfNoHit(after, item, chain);
    } else {
      forall j | 0 <= j < k
        ensures chain[j].provider.id != chain[k].provider.id || chain[j].kind != chain[k].kind
      {
        if chain[j].provider.id == chain[k].provider.id && chain[j].kind == chain[k].kind {
          SameLinkReplies(world, chain, videos, j, k);
        }
      }
      StoreThenShown(before, item, chain, k, outcome.text, item + 1);
    }
  }

  lemma RoutesHaveSameProviders(c: Config, isVideo: bool)
    ensures SameProviders(Chain(VideoRoute(c), TextRoute(c), isVideo))
  {
    hide Lookup, VideoRoute, TextRoute, Chain;
    RoutesAreDisjoint(c);
    ChainParts(VideoRoute(c), TextRoute(c), isVideo);
    var chain, videos := Chain(VideoRoute(c), TextRoute(c), isVideo), if isVideo then |VideoRoute(c)| else 0;
    forall i | 0 <= i < |chain|
      ensures Lookup(c.providers, chain[i].provider.id) == Some(chain[i].provider)
    {
      if i < videos {
        assert chain[i].provider == VideoRoute(c)[i];
      } else {
        assert chain[videos + (i - videos)].provider == TextRoute(c)[i - videos];
      }
    }
  }

  /** For the routes of any configuration: when nothing was cached, the summary a request generates
      is what the views show from then on, unless the provider's text is blank: then they still
      show none. */
  lemma FreshIsShown(c: Config, before: Cache, after: Cache, item: int, isVideo: bool, world: World, outcome: Outcome)
    requires var chain, videos := Chain(VideoRoute(c), TextRoute(c), isVideo), if isVideo then |VideoRoute(c)| else 0;
             && FirstHit(before, item, chain).None?
             && outcome.Summary? && Generated(before, after, item, chain, videos, world, outcome)
    ensures ShownBy(after, item, Chain(VideoRoute(c), TextRoute(c), isVideo)) ==
            if Blank(outcome.text) then None else Some(Shown(outcome.text, outcome.kind))
  {
    hide *;
    RoutesHaveSameProviders(c, isVideo);
    FreshIsShownOn(before, after, item, VideoRoute(c), TextRoute(c), isVideo, world, outcome);
  }

  lemma SameLinkReplies(world: World, chain: seq<Link>, videos: nat, j: nat, k: nat)
    requires j < k < |chain| && chain[j].kind == chain[k].kind && chain[j].provider == chain[k].provider
    requires forall i :: 0 <= i < |chain| ==> (chain[i].kind == VIDEO <==> i < videos)
    requires Replies(world, chain, videos, k)
    ensures Replies(world, chain, videos, j)
  {
    assert j < videos <==> k < videos;
    assert chain[j] == chain[k];
  }

  lemma ShownOfNoHit(cache: Cache, item: int, chain: seq<Link>)
    requires forall j: nat :: j < |chain| ==> !HitAt(cache, item, chain, j)
    ensures ShownBy(cache, item, chain) == None
  {
    hide Hit;
  }

  lemma {:induction false} OthersKeepTheirs(cache: Cache, item: int, chain: seq<Link>, link: Link, text: string, other: int)
    requires other != item
    ensures var after := Stored(cache, item, link, text);
            && FirstHit(after, other, chain) == FirstHit(cache, other, chain)
            && ShownBy(after, other, chain) == ShownBy(cache, other, chain)
  {
    hide Blank;
    if chain == [] {
    } else {
      OthersKeepTheirs(cache, item, chain[..|chain| - 1], link, text, other);
    }
  }

  // ------------------------------------------------------------ what is shown, row by row

  /** The table holds a row for this item, provider and kind, of the provider's present model, and
      its text is not all spaces. */
  predicate Usable(cache: Cache, item: int, p: Provider, kind: string, text: string) {
    && Key(item, p.id, kind) in cache && cache[Key(item, p.id, kind)] == Entry(p.model, text)
    && exists i :: 0 <= i < |text| && text[i] != ' '
  }

  /** Link `k` is the first of the chain with a usable row, and that row holds this text. */
  ghost predicate FirstUsable(cache: Cache, item: int, chain: seq<Link>, k: nat, text: string)
    requires k < |chain|
  {
    && Usable(cache, item, chain[k].provider, chain[k].kind, text)
    && forall j, other :: 0 <= j < k ==> !Usable(cache, item, chain[j].provider, chain[j].kind, other)
  }

  lemma HitIsUsable(cache: Cache, item: int, p: Provider, kind: string)
    ensures Hit(cache, item, p, kind) <==> exists text :: Usable(cache, item, p, kind, text)
    ensures forall text :: Usable(cache, item, p, kind, text) <==>
              Hit(cache, item, p, kind) && cache[Key(item, p.id, kind)].text == text
  {
    if Hit(cache, item, p, kind) {
      var entry := cache[Key(item, p.id, kind)];
      assert Usable(cache, item, p, kind, entry.text);
    }
  }

  /** What the detail view shows: the text and kind of the first usable row of the chain, or nothing
      exactly when no link has one. */
  lemma ShownMeans(cache: Cache, item: int, chain: seq<Link>, shown: Shown)
    ensures ShownBy(cache, item, chain) == Some(shown) <==>
            exists k :: 0 <= k < |chain| && chain[k].kind == shown.kind && FirstUsable(cache, item, chain, k, shown.text)
  {
    hide Hit, Usable;
    forall k, text | 0 <= k < |chain|
      ensures Usable(cache, item, chain[k].provider, chain[k].kind, text) ==> HitAt(cache, item, chain, k)
      ensures HitAt(cache, item, chain, k) ==>
                (Usable(cache, item, chain[k].provider, chain[k].kind, text) <==>
                  Key(item, chain[k].provider.id, chain[k].kind) in cache
                  && cache[Key(item, chain[k].provider.id, chain[k].kind)].text == text)
    {
      HitIsUsable(cache, item, chain[k].provider, chain[k].kind);
      HitHasRow(cache, item, chain[k].provider, chain[k].kind);
    }
    if k :| 0 <= k < |chain| && chain[k].kind == shown.kind && FirstUsable(cache, item, chain, k, shown.text) {
      forall j | 0 <= j < k
        ensures !HitAt(cache, item, chain, j)
      {
        HitIsUsable(cache, item, chain[j].provider, chain[j].kind);
      }
      FoundFirst(cache, item, chain, k);
    }
    if ShownBy(cache, item, chain) == Some(shown) {
      var k := FirstHit(cache, item, chain).value;
      HitHasRow(cache, item, chain[k].provider, chain[k].kind);
      assert FirstUsable(cache, item, chain, k, shown.text);
    }
  }

  lemma HitHasRow(cache: Cache, item: int, p: Provider, kind: string)
    ensures Hit(cache, item, p, kind) ==> Key(item, p.id, kind) in cache
  {
  }

  /** The chain itself: for a video the native summaries of the video route, then those made from text
      by the text route; for anything else the text route alone. */
  lemma ChainMeans(videos: seq<Provider>, texts: seq<Provider>, isVideo: bool)
    ensures var chain := Chain(videos, texts, isVideo);
            if isVideo
            then && |chain| == |videos| + |texts|
                 && (forall i :: 0 <= i < |videos| ==> chain[i] == Link(videos[i], "video-topics-v1"))
                 && (forall i :: 0 <= i < |texts| ==> chain[|videos| + i] == Link(texts[i], "text-video-topics-v1"))
            else && |chain| == |texts|
                 && (forall i :: 0 <= i < |texts| ==> chain[i] == Link(texts[i], "text"))
  {
    hide Chain;
    ChainParts(videos, texts, isVideo);
    if !isVideo {
      forall i | 0 <= i < |texts|
        ensures Chain(videos, texts, isVideo)[i] == Link(texts[i], "text")
      {
        assert Chain(videos, texts, isVideo)[0 + i] == Link(texts[i], TEXT);
      }
    }
  }
}
