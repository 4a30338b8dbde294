/** backend/src/ai/provider.rs, lines 71-405: the AI providers and the routes made of them. A stored
    id list may be absent or hold something that is not a list of numbers. */
module Providers {
  import opened Text

  datatype Provider = Provider(id: int, providerType: string, model: string, active: bool)

  datatype IdList = Absent | Unreadable | List(ids: seq<int>)

  datatype Config = Config(providers: seq<Provider>, nextId: int, videoMode: Option<string>, textMode: Option<string>,
                           legacyMode: Option<string>, videoIds: IdList, textIds: IdList)

  // ------------------------------------------------------------ routes

  function Lookup(providers: seq<Provider>, id: int): (r: Option<Provider>)
    ensures r.Some? ==> r.value in providers && r.value.id == id
    ensures r.None? ==> forall p :: p in providers ==> p.id != id
  {
    if providers == [] then None
    else
      match Lookup(providers[..|providers| - 1], id)
      case Some(p) => Some(p)
      case None => if providers[|providers| - 1].id == id then Some(providers[|providers| - 1]) else None
  }

  function ActiveIds(providers: seq<Provider>): (ids: seq<int>)
    ensures |ids| <= 1
    ensures forall id :: id in ids ==> exists p :: p in providers && p.id == id && p.active
  {
    if providers == [] then []
    else
      var earlier := ActiveIds(providers[..|providers| - 1]);
      if earlier == [] && providers[|providers| - 1].active then [providers[|providers| - 1].id] else earlier
  }

  function Listed(ids: IdList): seq<int> {
    if ids.List? then ids.ids else []
  }

  /** `into_iter().take(1)`. */
  function First(ids: seq<int>): seq<int> {
    if ids == [] then [] else [ids[0]]
  }

  function VideoIds(c: Config): seq<int> {
    if c.videoMode == Some("ordered") then Listed(c.videoIds) else First(Listed(c.videoIds))
  }

  /** The text mode falls back to the legacy key, and knows its old word for `ordered`. */
  predicate TextOrdered(c: Config) {
    var mode := if c.textMode.Some? then c.textMode else c.legacyMode;
    mode == Some("ordered") || mode == Some("route")
  }

  function TextIds(c: Config): seq<int> {
    if TextOrdered(c) then Listed(c.textIds)
    else if c.textIds.List? then First(c.textIds.ids)
    else ActiveIds(c.providers)
  }

  /** The providers behind `ids`, in order, without missing or excluded ones. */
  function Resolve(providers: seq<Provider>, ids: seq<int>, excluded: seq<int>): seq<Provider> {
    if ids == [] then []
    else
      var earlier, id := Resolve(providers, ids[..|ids| - 1], excluded), ids[|ids| - 1];
      if id in excluded || Lookup(providers, id).None? then earlier else earlier + [Lookup(providers, id).value]
  }

  function OnlyGemini(route: seq<Provider>): seq<Provider> {
    if route == [] then []
    else
      var earlier, p := OnlyGemini(route[..|route| - 1]), route[|route| - 1];
      if p.providerType == "gemini" then earlier + [p] else earlier
  }

  function TextRoute(c: Config): seq<Provider> {
    Resolve(c.providers, TextIds(c), VideoIds(c))
  }

  function VideoRoute(c: Config): seq<Provider> {
    OnlyGemini(Resolve(c.providers, VideoIds(c), []))
  }

  // ------------------------------------------------------------ changes

  function Without(ids: seq<int>, id: int): (rest: seq<int>)
    ensures id !in rest && |rest| <= |ids|
    ensures forall x :: x in rest <==> x in ids && x != id
    ensures |rest| == |ids| ==> rest == ids && id !in ids
  {
    if ids == [] then []
    else
      var earlier, last := Without(ids[..|ids| - 1], id), ids[|ids| - 1];
      if last == id then earlier else earlier + [last]
  }

  /** An emptied list of a single-provider route is removed, so that the route falls back. */
  function RemoveFromRoute(ids: IdList, ordered: bool, id: int): IdList {
    if !ids.List? then ids
    else
      var filtered := Without(ids.ids, id);
      if |filtered| == |ids.ids| then ids
      else if filtered == [] && !ordered then Absent
      else List(filtered)
  }

  function WithoutProvider(providers: seq<Provider>, id: int): (rest: seq<Provider>)
    ensures forall p :: p in rest <==> p in providers && p.id != id
  {
    if providers == [] then []
    else
      var earlier, p := WithoutProvider(providers[..|providers| - 1], id), providers[|providers| - 1];
      if p.id == id then earlier else earlier + [p]
  }

  /** The mode read inside the delete transaction also takes `route` for `ordered` on the video key. */
  predicate VideoOrderedInDelete(c: Config) {
    c.videoMode == Some("ordered") || c.videoMode == Some("route")
  }

  function Delete(c: Config, id: int): Config {
    if Lookup(c.providers, id).None? then c
    else c.(providers := WithoutProvider(c.providers, id),
            videoIds := RemoveFromRoute(c.videoIds, VideoOrderedInDelete(c), id),
            textIds := RemoveFromRoute(c.textIds, TextOrdered(c), id))
  }

  function SetActive(providers: seq<Provider>, id: int): (after: seq<Provider>)
    ensures |after| == |providers|
    ensures forall i :: 0 <= i < |providers| ==> after[i] == providers[i].(active := providers[i].id == id)
  {
    if providers == [] then []
    else
      var p := providers[|providers| - 1];
      SetActive(providers[..|providers| - 1], id) + [p.(active := p.id == id)]
  }

  function Activate(c: Config, id: int): Config {
    if Lookup(c.providers, id).None? then c else c.(providers := SetActive(c.providers, id))
  }

  function Create(c: Config, providerType: string, model: string): Config {
    c.(providers := c.providers + [Provider(c.nextId, providerType, model, ActiveIds(c.providers) == [])],
       nextId := c.nextId + 1)
  }

  class ProviderStore {
    var config: Config

    constructor ()
      ensures config == EMPTY
    {
      config := EMPTY;
    }

    method LoadTextRoute() returns (route: seq<Provider>)
      ensures route == TextRoute(config)
    {
      var videoIds, ids := VideoIds(config), TextIds(config);
      route := [];
      for i := 0 to |ids|
        invariant route == Resolve(config.providers, ids[..i], videoIds)
      {
        assert ids[..i + 1][..i] == ids[..i];
        if ids[i] in videoIds {
          continue;
        }
        var provider := Lookup(config.providers, ids[i]);
        if provider.Some? {
          route := route + [provider.value];
        }
      }
      assert ids[..|ids|] == ids;
    }

    method LoadVideoRoute() returns (route: seq<Provider>)
      ensures route == VideoRoute(config)
    {
      var ids := VideoIds(config);
      route := [];
      for i := 0 to |ids|
        invariant route == OnlyGemini(Resolve(config.providers, ids[..i], []))
      {
        assert ids[..i + 1][..i] == ids[..i];
        ghost var resolved := Resolve(config.providers, ids[..i], []);
        var provider := Lookup(config.providers, ids[i]);
        if provider.None? {
          continue;
        }
        assert (resolved + [provider.value])[..|resolved|] == resolved;
        if provider.value.providerType == "gemini" {
          route := route + [provider.value];
        }
      }
      assert ids[..|ids|] == ids;
    }

    /** The new row is active exactly when no row was; nothing else changes. */
    method CreateProvider(providerType: string, model: string) returns (id: int)
      modifies this
      ensures config == Create(old(config), providerType, model)
      ensures |config.providers| == |old(config).providers| + 1
      ensures forall i :: 0 <= i < |old(config).providers| ==> config.providers[i] == old(config).providers[i]
      ensures var row := config.providers[|old(config).providers|];
              && row.id == id == old(config).nextId && row.providerType == providerType && row.model == model
              && (row.active <==> forall p :: p in old(config).providers ==> !p.active)
      ensures DistinctIds(old(config)) && AtMostOneActive(old(config).providers) ==>
                && DistinctIds(config) && AtMostOneActive(config.providers)
                && exists p :: p in config.providers && p.active
    {
      if DistinctIds(config) && AtMostOneActive(config.providers) {
        CreateKeepsOneActive(config, providerType, model);
      }
      NoActiveIds(config.providers);
      hide ActiveIds, AtMostOneActive;
      var activate := ActiveIds(config.providers) == [];
      id := config.nextId;
      config := config.(providers := config.providers + [Provider(id, providerType, model, activate)],
                        nextId := id + 1);
    }

    method ActivateProvider(id: int) returns (found: bool)
      modifies this
      ensures config == Activate(old(config), id) && (found <==> Lookup(old(config).providers, id).Some?)
      ensures found ==> forall p :: p in config.providers ==> (p.active <==> p.id == id)
    {
      hide Lookup;
      found := Lookup(config.providers, id).Some?;
      if found {
        config := config.(providers := SetActive(config.providers, id));
      }
    }

    method DeleteProvider(id: int) returns (found: bool)
      modifies this
      ensures config == Delete(old(config), id) && (found <==> Lookup(old(config).providers, id).Some?)
      ensures found ==> id !in VideoIds(config) && id !in TextIds(config) && Lookup(config.providers, id).None?
    {
      hide Lookup, VideoIds, TextIds, RemoveFromRoute, WithoutProvider;
      found := Lookup(config.providers, id).Some?;
      if found {
        DeleteForgets(config, id);
        config := config.(providers := WithoutProvider(config.providers, id));
        config := config.(videoIds := RemoveFromRoute(config.videoIds, VideoOrderedInDelete(config), id));
        config := config.(textIds := RemoveFromRoute(config.textIds, TextOrdered(config), id));
      }
    }
  }

  const EMPTY := Config([], 1, None, None, None, Absent, Absent)

  // ------------------------------------------------------------ what routes hold

  lemma {:induction false} ResolveHolds(providers: seq<Provider>, ids: seq<int>, excluded: seq<int>)
    ensures forall p :: p in Resolve(providers, ids, excluded) <==>
              p.id in ids && p.id !in excluded && Lookup(providers, p.id) == Some(p)
  {
    if ids == [] {
    } else {
      var last := |ids| - 1;
      ResolveHolds(providers, ids[..last], excluded);
      assert forall id :: id in ids <==> id in ids[..last] || id == ids[last];
    }
  }

  lemma {:induction false} OnlyGeminiHolds(route: seq<Provider>)
    ensures forall p :: p in OnlyGemini(route) <==> p in route && p.providerType == "gemini"
  {
    if route == [] {
    } else {
      var last := |route| - 1;
      OnlyGeminiHolds(route[..last]);
      assert forall p :: p in route <==> p in route[..last] || p == route[last];
    }
  }

  /** A provider selected for video is never asked for text, and only Gemini is asked for video. */
  lemma RoutesAreDisjoint(c: Config)
    ensures forall p :: p in TextRoute(c) <==>
              p.id in TextIds(c) && p.id !in VideoIds(c) && Lookup(c.providers, p.id) == Some(p)
    ensures forall p :: p in VideoRoute(c) <==>
              p.id in VideoIds(c) && Lookup(c.providers, p.id) == Some(p) && p.providerType == "gemini"
    ensures forall p :: p in VideoRoute(c) ==> p !in TextRoute(c)
  {
    hide Lookup, VideoIds, TextIds;
    ResolveHolds(c.providers, TextIds(c), VideoIds(c));
    ResolveHolds(c.providers, VideoIds(c), []);
    OnlyGeminiHolds(Resolve(c.providers, VideoIds(c), []));
  }

  /** `selected_text_provider_ids`: the same selection computed from the ids alone. */
  function SelectedTextIds(c: Config): seq<int> {
    NotIn(TextIds(c), VideoIds(c))
  }

  function NotIn(ids: seq<int>, excluded: seq<int>): seq<int> {
    if ids == [] then [] else (if ids[0] in excluded then [] else [ids[0]]) + NotIn(ids[1..], excluded)
  }

  function Known(providers: seq<Provider>, ids: seq<int>): seq<Provider> {
    if ids == [] then []
    else (match Lookup(providers, ids[0]) case None => [] case Some(p) => [p]) + Known(providers, ids[1..])
  }

  lemma {:induction false} KnownAppend(providers: seq<Provider>, a: seq<int>, b: seq<int>)
    ensures Known(providers, a + b) == Known(providers, a) + Known(providers, b)
  {
    hide Lookup;
    if a == [] {
      assert a + b == b;
    } else {
      assert (a + b)[1..] == a[1..] + b;
      KnownAppend(providers, a[1..], b);
    }
  }

  lemma {:induction false} NotInAppend(a: seq<int>, b: seq<int>, excluded: seq<int>)
    ensures NotIn(a + b, excluded) == NotIn(a, excluded) + NotIn(b, excluded)
  {
    if a == [] {
      assert a + b == b;
    } else {
      assert (a + b)[1..] == a[1..] + b;
      NotInAppend(a[1..], b, excluded);
    }
  }

  lemma KnownOne(providers: seq<Provider>, id: int, excluded: seq<int>)
    ensures Known(providers, NotIn([id], excluded)) ==
            if id in excluded || Lookup(providers, id).None? then [] else [Lookup(providers, id).value]
  {
    hide Lookup;
    assert [id][1..] == [];
    assert NotIn([id], excluded) == if id in excluded then [] else [id];
  }

  lemma {:induction false} ResolveIsKnown(providers: seq<Provider>, ids: seq<int>, excluded: seq<int>)
    ensures Resolve(providers, ids, excluded) == Known(providers, NotIn(ids, excluded))
  {
    hide Lookup, Known, NotIn;
    if ids == [] {
      assert Known(providers, NotIn([], excluded)) == [] by { NothingKnown(providers, excluded); }
    } else {
      var front, id := ids[..|ids| - 1], ids[|ids| - 1];
      assert ids == front + [id];
      ResolveIsKnown(providers, front, excluded);
      NotInAppend(front, [id], excluded);
      KnownAppend(providers, NotIn(front, excluded), NotIn([id], excluded));
      KnownOne(providers, id, excluded);
    }
  }

  lemma NothingKnown(providers: seq<Provider>, excluded: seq<int>)
    ensures Known(providers, NotIn([], excluded)) == []
  {
  }

  /** The text route is, in order, the known providers among the selected text ids. */
  lemma SelectionsAgree(c: Config)
    ensures TextRoute(c) == Known(c.providers, SelectedTextIds(c))
  {
    ResolveIsKnown(c.providers, TextIds(c), VideoIds(c));
  }

  /** A single-provider mode really asks at most one provider. */
  lemma SingleRoutes(c: Config)
    ensures !TextOrdered(c) ==> |TextRoute(c)| <= 1
    ensures c.videoMode != Some("ordered") ==> |VideoRoute(c)| <= 1
  {
    hide Lookup;
    RouteLength(c.providers, TextIds(c), VideoIds(c));
    RouteLength(c.providers, VideoIds(c), []);
    GeminiLength(Resolve(c.providers, VideoIds(c), []));
  }

  lemma {:induction false} RouteLength(providers: seq<Provider>, ids: seq<int>, excluded: seq<int>)
    ensures |Resolve(providers, ids, excluded)| <= |ids|
  {
    if ids == [] {
    } else {
      RouteLength(providers, ids[..|ids| - 1], excluded);
    }
  }

  lemma {:induction false} GeminiLength(route: seq<Provider>)
    ensures |OnlyGemini(route)| <= |route|
  {
    if route == [] {
    } else {
      GeminiLength(route[..|route| - 1]);
    }
  }

  // ------------------------------------------------------------ deletion

  lemma RemovedFromList(ids: IdList, ordered: bool, id: int)
    ensures Listed(RemoveFromRoute(ids, ordered, id)) == Without(Listed(ids), id)
  {
  }

  /** A deleted provider is in no list and on no route afterwards, whatever the modes and even
      where the routes fall back; the other ids keep their order. */
  lemma DeleteForgets(c: Config, id: int)
    requires Lookup(c.providers, id).Some?
    ensures var after := Delete(c, id);
            && Listed(after.videoIds) == Without(Listed(c.videoIds), id)
            && Listed(after.textIds) == Without(Listed(c.textIds), id)
            && id !in VideoIds(after) && id !in TextIds(after)
            && forall p :: p in TextRoute(after) + VideoRoute(after) ==> p.id != id
  {
    var after := Delete(c, id);
    RemovedFromList(c.videoIds, VideoOrderedInDelete(c), id);
    RemovedFromList(c.textIds, TextOrdered(c), id);
    RoutesAreDisjoint(after);
    hide TextRoute, VideoRoute;
  }

  lemma {:induction false} LookupWithout(providers: seq<Provider>, id: int, other: int)
    requires other != id
    ensures Lookup(WithoutProvider(providers, id), other) == Lookup(providers, other)
  {
    if providers == [] {
    } else {
      var last := |providers| - 1;
      LookupWithout(providers[..last], id, other);
      var earlier := WithoutProvider(providers[..last], id);
      assert (earlier + [providers[last]])[..|earlier|] == earlier;
    }
  }

  lemma WithoutAppend(ids: seq<int>, x: int, id: int)
    ensures Without(ids + [x], id) == if x == id then Without(ids, id) else Without(ids, id) + [x]
  {
    assert (ids + [x])[..|ids|] == ids;
  }

  lemma WithoutProviderAppend(route: seq<Provider>, p: Provider, id: int)
    ensures WithoutProvider(route + [p], id) ==
            if p.id == id then WithoutProvider(route, id) else WithoutProvider(route, id) + [p]
  {
    assert (route + [p])[..|route|] == route;
  }

  lemma ResolveAppend(providers: seq<Provider>, ids: seq<int>, excluded: seq<int>, x: int)
    ensures Resolve(providers, ids + [x], excluded) ==
            if x in excluded || Lookup(providers, x).None? then Resolve(providers, ids, excluded)
            else Resolve(providers, ids, excluded) + [Lookup(providers, x).value]
  {
    hide Lookup;
    assert (ids + [x])[..|ids|] == ids;
  }

  lemma {:induction false} ResolveWithout(providers: seq<Provider>, ids: seq<int>, excluded: seq<int>, id: int)
    ensures Resolve(WithoutProvider(providers, id), Without(ids, id), Without(excluded, id)) ==
            WithoutProvider(Resolve(providers, ids, excluded), id)
  {
    hide Lookup, WithoutProvider;
    if ids == [] {
      assert WithoutProvider([], id) == [] by { NoProviders(id); }
    } else {
      hide Without, Resolve;
      var front, x := ids[..|ids| - 1], ids[|ids| - 1];
      assert ids == front + [x];
      ResolveWithout(providers, front, excluded, id);
      WithoutAppend(front, x, id);
      ResolveAppend(providers, front, excluded, x);
      ResolveAppend(WithoutProvider(providers, id), Without(front, id), Without(excluded, id), x);
      if x != id { LookupWithout(providers, id, x); }
      if Lookup(providers, x).Some? {
        WithoutProviderAppend(Resolve(providers, front, excluded), Lookup(providers, x).value, id);
      }
    }
  }

  lemma NoProviders(id: int)
    ensures WithoutProvider([], id) == []
  {
  }

  lemma {:induction false} GeminiWithout(route: seq<Provider>, id: int)
    ensures OnlyGemini(WithoutProvider(route, id)) == WithoutProvider(OnlyGemini(route), id)
  {
    if route == [] {
    } else {
      var last := |route| - 1;
      GeminiWithout(route[..last], id);
      var w, g := WithoutProvider(route[..last], id), OnlyGemini(route[..last]);
      assert (w + [route[last]])[..|w|] == w && (g + [route[last]])[..|g|] == g;
    }
  }

  /** With ordered routes, deleting a provider takes exactly that provider off both routes. */
  lemma DeleteFromOrderedRoutes(c: Config, id: int)
    requires Lookup(c.providers, id).Some? && c.videoMode == Some("ordered") && TextOrdered(c)
    ensures TextRoute(Delete(c, id)) == WithoutProvider(TextRoute(c), id)
    ensures VideoRoute(Delete(c, id)) == WithoutProvider(VideoRoute(c), id)
  {
    hide Lookup, Resolve, OnlyGemini, WithoutProvider;
    ResolveWithout(c.providers, Listed(c.textIds), Listed(c.videoIds), id);
    ResolveWithout(c.providers, Listed(c.videoIds), [], id);
    assert Without([], id) == [];
    GeminiWithout(Resolve(c.providers, Listed(c.videoIds), []), id);
  }

  // ------------------------------------------------------------ the active provider

  predicate AtMostOneActive(providers: seq<Provider>) {
    forall i, j :: 0 <= i < j < |providers| ==> !(providers[i].active && providers[j].active)
  }

  predicate DistinctIds(c: Config) {
    && (forall i, j :: 0 <= i < j < |c.providers| ==> c.providers[i].id != c.providers[j].id)
    && (forall i :: 0 <= i < |c.providers| ==> c.providers[i].id < c.nextId)
  }

  lemma {:induction false} NoActiveIds(providers: seq<Provider>)
    ensures ActiveIds(providers) == [] <==> forall i :: 0 <= i < |providers| ==> !providers[i].active
  {
    if providers == [] {
    } else {
      NoActiveIds(providers[..|providers| - 1]);
    }
  }

  predicate DistinctProviders(providers: seq<Provider>) {
    forall i, j :: 0 <= i < j < |providers| ==> providers[i].id != providers[j].id
  }

  /** Every provider of `rest` is one of `providers`, and none stands twice. */
  lemma {:induction false} WithoutKeepsOrder(providers: seq<Provider>, id: int)
    requires AtMostOneActive(providers) && DistinctProviders(providers)
    ensures AtMostOneActive(WithoutProvider(providers, id)) && DistinctProviders(WithoutProvider(providers, id))
  {
    if providers == [] {
    } else {
      var front, p := providers[..|providers| - 1], providers[|providers| - 1];
      assert providers == front + [p];
      WithoutKeepsOrder(front, id);
      WithoutProviderAppend(front, p, id);
      hide WithoutProvider;
      var earlier := WithoutProvider(front, id);
      forall q | q in earlier
        ensures q.id != p.id && !(q.active && p.active)
      {
        var i :| 0 <= i < |front| && front[i] == q;
        assert providers[i] == q;
      }
    }
  }

  lemma CreateKeepsOneActive(c: Config, providerType: string, model: string)
    requires DistinctIds(c) && AtMostOneActive(c.providers)
    ensures DistinctIds(Create(c, providerType, model)) && AtMostOneActive(Create(c, providerType, model).providers)
    ensures exists p :: p in Create(c, providerType, model).providers && p.active
  {
    NoActiveIds(c.providers);
    hide ActiveIds;
    var after := Create(c, providerType, model).providers;
    assert after[|c.providers|] in after;
    if ActiveIds(c.providers) != [] {
      var i :| 0 <= i < |c.providers| && c.providers[i].active;
      assert after[i] in after;
    }
  }

  lemma ActivateMakesOneActive(c: Config, id: int)
    requires DistinctIds(c) && AtMostOneActive(c.providers)
    ensures DistinctIds(Activate(c, id)) && AtMostOneActive(Activate(c, id).providers)
    ensures Lookup(c.providers, id).Some? ==>
              forall i :: 0 <= i < |c.providers| ==>
                Activate(c, id).providers[i] == c.providers[i].(active := c.providers[i].id == id)
  {
    hide Lookup, SetActive;
  }

  lemma DeleteKeepsOneActive(c: Config, id: int)
    requires DistinctIds(c) && AtMostOneActive(c.providers)
    ensures DistinctIds(Delete(c, id)) && AtMostOneActive(Delete(c, id).providers)
  {
    WithoutKeepsOrder(c.providers, id);
    hide Lookup, WithoutProvider;
    var rest := WithoutProvider(c.providers, id);
    forall i | 0 <= i < |rest|
      ensures rest[i].id < c.nextId
    {
      assert rest[i] in c.providers;
    }
  }

  /** Creating, activating and deleting never leave two active providers; creating leaves one, and
      after activating a known provider it is the only one. */
  lemma OneActive(c: Config, id: int, providerType: string, model: string)
    requires DistinctIds(c) && AtMostOneActive(c.providers)
    ensures AtMostOneActive(Create(c, providerType, model).providers)
    ensures exists p :: p in Create(c, providerType, model).providers && p.active
    ensures AtMostOneActive(Activate(c, id).providers)
    ensures AtMostOneActive(Delete(c, id).providers)
    ensures Lookup(c.providers, id).Some? ==>
              forall p :: p in Activate(c, id).providers ==> (p.active <==> p.id == id)
  {
    CreateKeepsOneActive(c, providerType, model);
    ActivateMakesOneActive(c, id);
    DeleteKeepsOneActive(c, id);
    hide AtMostOneActive, Create, Delete, Lookup;
  }

  /** Without an explicit selection the single text provider is the active one, unless it is
      selected for video. */
  lemma FallbackIsActive(c: Config, p: Provider)
    requires DistinctIds(c) && AtMostOneActive(c.providers) && p in c.providers && p.active
    requires !TextOrdered(c) && !c.textIds.List?
    ensures TextRoute(c) == if p.id in VideoIds(c) then [] else [p]
  {
    NoActiveIds(c.providers);
    var i :| 0 <= i < |c.providers| && c.providers[i] == p;
    assert c.providers[i].active;
    var ids := ActiveIds(c.providers);
    assert ids[0] in ids;
    var q :| q in c.providers && q.id == ids[0] && q.active;
    var j :| 0 <= j < |c.providers| && c.providers[j] == q;
    assert i == j;
    var found := Lookup(c.providers, p.id);
    var k :| 0 <= k < |c.providers| && c.providers[k] == found.value;
    assert k == i;
    hide Lookup, ActiveIds;
    assert ids == [p.id] && ids[..0] == [];
    assert Resolve(c.providers, [], VideoIds(c)) == [];
  }

  // ------------------------------------------------------------ the routes in terms of the settings

  /** The settings ask for every listed provider; `route` is the old word, and the legacy key counts
      while the text key is absent. */
  predicate AllListed(mode: Option<string>, legacy: Option<string>) {
    || mode == Some("ordered") || mode == Some("route")
    || (mode.None? && (legacy == Some("ordered") || legacy == Some("route")))
  }

  /** A stored list selects an id: anywhere in it, or in the first place only. */
  predicate Selects(ids: IdList, all: bool, id: int) {
    ids.List? && exists i :: 0 <= i < |ids.ids| && ids.ids[i] == id && (all || i == 0)
  }

  lemma VideoIdsSelect(c: Config, id: int)
    ensures id in VideoIds(c) <==> Selects(c.videoIds, c.videoMode == Some("ordered"), id)
  {
  }

  lemma ActiveIsActive(c: Config, p: Provider)
    requires DistinctIds(c) && AtMostOneActive(c.providers) && p in c.providers
    ensures p.id in ActiveIds(c.providers) <==> p.active
  {
    var i :| 0 <= i < |c.providers| && c.providers[i] == p;
    NoActiveIds(c.providers);
    var ids := ActiveIds(c.providers);
    hide ActiveIds;
    if p.id in ids {
      var q :| q in c.providers && q.id == p.id && q.active;
    }
    if p.active {
      assert ids[0] in ids;
      var q :| q in c.providers && q.id == ids[0] && q.active;
    }
  }

  lemma TextIdsSelect(c: Config, p: Provider)
    requires DistinctIds(c) && AtMostOneActive(c.providers) && p in c.providers
    ensures p.id in TextIds(c) <==>
            if c.textIds.List? then Selects(c.textIds, AllListed(c.textMode, c.legacyMode), p.id)
            else !AllListed(c.textMode, c.legacyMode) && p.active
  {
    ActiveIsActive(c, p);
    hide ActiveIds, DistinctIds, AtMostOneActive;
  }

  lemma LookupIsUnique(c: Config, p: Provider)
    requires DistinctIds(c)
    ensures Lookup(c.providers, p.id) == Some(p) <==> p in c.providers
  {
    hide Lookup;
  }

  /** Who is asked, in terms of the stored settings alone. For video: a Gemini provider that its list
      selects, the whole list in mode `ordered` and its head otherwise. For text: a provider that its
      list selects in the same way, or the active one when there is no list and not every listed one
      is asked for; but never one selected for video. */
  lemma RoutesMean(c: Config, p: Provider)
    requires DistinctIds(c) && AtMostOneActive(c.providers)
    ensures p in VideoRoute(c) <==>
            && p in c.providers && p.providerType == "gemini"
            && Selects(c.videoIds, c.videoMode == Some("ordered"), p.id)
    ensures p in TextRoute(c) <==>
            && p in c.providers && !Selects(c.videoIds, c.videoMode == Some("ordered"), p.id)
            && if c.textIds.List? then Selects(c.textIds, AllListed(c.textMode, c.legacyMode), p.id)
               else !AllListed(c.textMode, c.legacyMode) && p.active
  {
    hide Lookup, VideoIds, TextIds, TextRoute, VideoRoute, Selects, AllListed, DistinctIds, AtMostOneActive;
    RoutesAreDisjoint(c);
    LookupIsUnique(c, p);
    VideoIdsSelect(c, p.id);
    if p in c.providers { TextIdsSelect(c, p); }
  }

  predicate OnlyHolds(ids: seq<int>, id: int) {
    forall x :: x in ids ==> x == id
  }

  /** What a deletion leaves of a stored list: the list itself when the id is not in it, nothing when
      the route asks one provider and no other id is listed, and otherwise the other ids in order. */
  lemma DeletedLists(c: Config, id: int)
    requires Lookup(c.providers, id).Some?
    ensures var after := Delete(c, id);
            && after.textIds == LeftOf(c.textIds, AllListed(c.textMode, c.legacyMode), id)
            && after.videoIds == LeftOf(c.videoIds, c.videoMode == Some("ordered") || c.videoMode == Some("route"), id)
            && after == c.(providers := after.providers, textIds := after.textIds, videoIds := after.videoIds)
            && forall p :: p in after.providers <==> p in c.providers && p.id != id
  {
    RemovedLeaves(c.textIds, TextOrdered(c), id);
    RemovedLeaves(c.videoIds, VideoOrderedInDelete(c), id);
    hide RemoveFromRoute, LeftOf, Lookup;
  }

  function LeftOf(ids: IdList, all: bool, id: int): IdList {
    if !ids.List? || id !in ids.ids then ids
    else if !all && OnlyHolds(ids.ids, id) then Absent
    else List(Without(ids.ids, id))
  }

  lemma RemovedLeaves(ids: IdList, all: bool, id: int)
    ensures RemoveFromRoute(ids, all, id) == LeftOf(ids, all, id)
  {
    if ids.List? {
      WithoutIsShorter(ids.ids, id);
      var rest := Without(ids.ids, id);
      if rest == [] {
        assert forall x :: x in ids.ids && x != id ==> x in rest;
      } else {
        assert rest[0] in rest;
      }
    }
  }

  lemma {:induction false} WithoutIsShorter(ids: seq<int>, id: int)
    ensures |Without(ids, id)| == |ids| <==> id !in ids
  {
    if ids == [] {
    } else {
      WithoutIsShorter(ids[..|ids| - 1], id);
      assert ids == ids[..|ids| - 1] + [ids[|ids| - 1]];
    }
  }
}
