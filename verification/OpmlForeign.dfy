/** What import makes of OPML that other programs wrote: backend/src/opml.rs, lines 22-47 and 88-125,
    in terms of the outlines of any document. */
module OpmlForeign {
  import opened Text
  import opened Xml
  import opened Opml

  // ------------------------------------------------------------ attributes

  /** The outline's attribute `name` shows `v`: trimmed and not blank. */
  predicate Shows(node: Node, name: string, v: string) {
    v != "" && exists i :: 0 <= i < |node.attrs| && IsFirst(node.attrs, name, i) && Trim(node.attrs[i].value) == v
  }

  predicate IsFirst(attrs: seq<Attr>, name: string, i: int)
    requires 0 <= i < |attrs|
  {
    attrs[i].name == name && forall j :: 0 <= j < i ==> attrs[j].name != name
  }

  ghost predicate Lacks(node: Node, name: string) {
    forall v :: !Shows(node, name, v)
  }

  predicate Carries(node: Node, name: string) {
    exists i :: 0 <= i < |node.attrs| && node.attrs[i].name == name
  }

  lemma {:induction false} AttrIsFirst(attrs: seq<Attr>, name: string)
    ensures match AttrOf(attrs, name)
            case None => forall i :: 0 <= i < |attrs| ==> attrs[i].name != name
            case Some(v) => exists i :: 0 <= i < |attrs| && IsFirst(attrs, name, i) && attrs[i].value == v
  {
    if attrs == [] {
    } else if attrs[0].name == name {
      assert IsFirst(attrs, name, 0);
    } else {
      AttrIsFirst(attrs[1..], name);
      if AttrOf(attrs, name).Some? {
        var i :| 0 <= i < |attrs[1..]| && IsFirst(attrs[1..], name, i) && attrs[1..][i].value == AttrOf(attrs, name).value;
        assert IsFirst(attrs, name, i + 1);
      }
    }
  }

  lemma TrimmedShows(node: Node, name: string)
    ensures forall v :: Trimmed(node, name) == Some(v) <==> Shows(node, name, v)
    ensures Attribute(node, name).Some? <==> Carries(node, name)
  {
    hide Trim;
    AttrIsFirst(node.attrs, name);
    hide AttrOf;
  }

  /** The first of two attributes that shows something. */
  ghost predicate FirstShown(node: Node, first: string, second: string, v: Option<string>) {
    match v
    case Some(s) => Shows(node, first, s) || (Lacks(node, first) && Shows(node, second, s))
    case None => Lacks(node, first) && Lacks(node, second)
  }

  lemma OrIsFirstShown(node: Node, first: string, second: string)
    ensures FirstShown(node, first, second, Or(Trimmed(node, first), Trimmed(node, second)))
  {
    hide Trimmed, Shows;
    TrimmedShows(node, first);
    TrimmedShows(node, second);
  }

  // ------------------------------------------------------------ one outline

  /** Import of any outline: a feed exactly when `xmlUrl`, or else `xmlurl`, shows a URL; its title
      from `title`, or else from `text`; its page from `htmlUrl`, or else from `htmlurl`. */
  lemma OutlineMeans(p: Placed, normalize: string -> Option<string>)
    ensures FeedOf(p, normalize).None? <==>
            p.node.name != "outline" || (Lacks(p.node, "xmlUrl") && Lacks(p.node, "xmlurl"))
    ensures FeedOf(p, normalize).Some? ==>
              var f := FeedOf(p, normalize).value;
              && FirstShown(p.node, "title", "text", f.title)
              && FirstShown(p.node, "htmlUrl", "htmlurl", f.htmlUrl)
              && (exists raw :: FirstShown(p.node, "xmlUrl", "xmlurl", Some(raw))
                                && f.url == if normalize(raw).Some? then normalize(raw).value else raw)
  {
    hide Trimmed, InferKind, ParentCategory, Shows, Attribute, Or;
    OrIsFirstShown(p.node, "title", "text");
    OrIsFirstShown(p.node, "htmlUrl", "htmlurl");
    OrIsFirstShown(p.node, "xmlUrl", "xmlurl");
  }

  /** Its category from the outline around it, the other way round: from `text`, or else from `title`;
      none when there is no outline around it or that outline carries a feed URL, even a blank one. */
  lemma CategoryMeans(p: Placed, normalize: string -> Option<string>)
    requires FeedOf(p, normalize).Some?
    ensures var category := FeedOf(p, normalize).value.category;
            if p.parent.None? || p.parent.value.name != "outline"
               || Carries(p.parent.value, "xmlUrl") || Carries(p.parent.value, "xmlurl")
            then category == None
            else FirstShown(p.parent.value, "text", "title", category)
  {
    hide Trimmed, InferKind, Shows, Attribute, Or, Carries, FirstShown;
    if p.parent.Some? {
      TrimmedShows(p.parent.value, "xmlUrl");
      TrimmedShows(p.parent.value, "xmlurl");
      OrIsFirstShown(p.parent.value, "text", "title");
    }
  }

  // ------------------------------------------------------------ its kind

  predicate PartAt(s: string, part: string, i: int) {
    0 <= i <= |s| - |part| && SameButCase(s[i..i + |part|], part)
  }

  /** `part` occurs in `s`, whatever the case of its ASCII letters. */
  predicate Has(s: string, part: string) {
    exists i :: 0 <= i <= |s| - |part| && PartAt(s, part, i)
  }

  predicate HasNoCapital(s: string) {
    forall i :: 0 <= i < |s| ==> !('A' <= s[i] <= 'Z')
  }

  predicate ExactAt(s: string, part: string, i: int) {
    0 <= i <= |s| - |part| && s[i..i + |part|] == part
  }

  lemma {:induction false} LowerIs(s: string, p: char)
    requires !('A' <= p <= 'Z')
    ensures forall i :: 0 <= i < |s| ==> (Lower(s)[i] == p <==> SameLetter(s[i], p))
  {
    if s == "" {
    } else {
      LowerIs(s[1..], p);
    }
  }

  lemma LowerAt(s: string, part: string, i: int)
    requires HasNoCapital(part)
    ensures ExactAt(Lower(s), part, i) <==> PartAt(s, part, i)
  {
    hide Lower, SameLetter;
    if 0 <= i <= |s| - |part| {
      var low, cut := Lower(s)[i..i + |part|], s[i..i + |part|];
      forall k | 0 <= k < |part|
        ensures low[k] == part[k] <==> SameLetter(cut[k], part[k])
      {
        LowerIs(s, part[k]);
        assert low[k] == Lower(s)[i + k] && cut[k] == s[i + k];
      }
      assert low == part <==> forall k :: 0 <= k < |part| ==> low[k] == part[k];
    }
  }

  lemma ExactShifts(s: string, part: string, i: int)
    requires s != ""
    ensures ExactAt(s[1..], part, i) <==> i >= 0 && ExactAt(s, part, i + 1)
  {
    if 0 <= i <= |s| - 1 - |part| {
      assert s[1..][i..i + |part|] == s[i + 1..i + 1 + |part|];
    }
  }

  lemma {:induction false} ContainsAt(s: string, part: string)
    ensures Contains(s, part) <==> exists i :: ExactAt(s, part, i)
  {
    assert |s| >= |part| ==> s[0..0 + |part|] == s[..|part|];
    assert ExactAt(s, part, 0) <==> |s| >= |part| && s[..|part|] == part;
    if s == "" {
    } else {
      ContainsAt(s[1..], part);
      forall i
        ensures ExactAt(s[1..], part, i) <==> i >= 0 && ExactAt(s, part, i + 1)
      {
        ExactShifts(s, part, i);
      }
      if i :| ExactAt(s, part, i) {
        if i > 0 { assert ExactAt(s[1..], part, i - 1); }
      }
    }
  }

  lemma ContainsHas(s: string, part: string)
    requires HasNoCapital(part)
    ensures Contains(Lower(s), part) <==> Has(s, part)
  {
    ContainsAt(Lower(s), part);
    hide Contains, Lower, SameButCase;
    forall i
      ensures ExactAt(Lower(s), part, i) <==> PartAt(s, part, i)
    {
      LowerAt(s, part, i);
    }
    if i :| PartAt(s, part, i) {
      assert ExactAt(Lower(s), part, i);
    }
  }

  lemma LowerEquals(s: string, word: string)
    requires HasNoCapital(word)
    ensures Lower(s) == word <==> SameButCase(s, word)
  {
    hide Lower, SameButCase;
    LowerAt(s, word, 0);
    assert |s| == |word| ==> Lower(s)[0..|word|] == Lower(s) && s[0..|word|] == s;
    assert SameButCase(s, word) ==> |s| == |word| by { SameLength(s, word); }
  }

  lemma SameLength(a: string, b: string)
    ensures SameButCase(a, b) ==> |a| == |b|
  {
  }

  lemma EndsAlike(s: string, part: string)
    requires HasNoCapital(part)
    ensures EndsWith(Lower(s), part) <==> PartAt(s, part, |s| - |part|)
  {
    hide Lower, SameButCase, PartAt;
    LowerAt(s, part, |s| - |part|);
  }

  /** The kind of a feed from any `type` attribute and any URL: the site comes first, then the type,
      then the ending of the URL; the case of ASCII letters never matters. */
  lemma KindMeans(url: string, ty: string)
    ensures InferKind(url, ty) ==
            if Has(url, "youtube.com/feeds/videos.xml") || Has(url, "youtube.com/channel") then "youtube"
            else if Has(url, "reddit.com/r/") then "reddit"
            else if SameButCase(ty, "atom") then "atom"
            else if SameButCase(ty, "json") || SameButCase(ty, "jsonfeed") || PartAt(url, ".json", |url| - 5) then "jsonfeed"
            else "rss"
  {
    hide Contains, Lower, EndsWith, Has, PartAt, SameButCase;
    ContainsHas(url, "youtube.com/feeds/videos.xml");
    ContainsHas(url, "youtube.com/channel");
    ContainsHas(url, "reddit.com/r/");
    LowerEquals(ty, "atom");
    LowerEquals(ty, "json");
    LowerEquals(ty, "jsonfeed");
    EndsAlike(url, ".json");
  }

  // ------------------------------------------------------------ the whole tree

  /** Node `n` stands under `parent` at the end of a path of child indices from `root`. */
  predicate StandsAt(root: Node, above: Option<Node>, path: seq<nat>, p: Placed)
    decreases |path|
  {
    if path == [] then p == Placed(root, above)
    else path[0] < |root.children| && StandsAt(root.children[path[0]], Some(root), path[1..], p)
  }

  ghost predicate Under(root: Node, above: Option<Node>, p: Placed) {
    exists path :: StandsAt(root, above, path, p)
  }

  lemma UnderSplits(root: Node, above: Option<Node>, p: Placed)
    ensures Under(root, above, p) <==>
            p == Placed(root, above) || exists k :: 0 <= k < |root.children| && Under(root.children[k], Some(root), p)
  {
    if path :| StandsAt(root, above, path, p) {
      if path != [] { assert StandsAt(root.children[path[0]], Some(root), path[1..], p); }
    }
    if p == Placed(root, above) {
      assert StandsAt(root, above, [], p);
    }
    if k :| 0 <= k < |root.children| && Under(root.children[k], Some(root), p) {
      var path :| StandsAt(root.children[k], Some(root), path, p);
      assert ([k] + path)[1..] == path;
      assert StandsAt(root, above, [k] + path, p);
    }
  }

  /** Import visits every outline of the document, at any depth, and nothing else. */
  lemma {:induction false} EveryNodeIsVisited(root: Node, above: Option<Node>, p: Placed)
    ensures p in Descendants(root, above) <==> Under(root, above, p)
    decreases root, 1, 0
  {
    hide Under;
    ChildrenAreVisited(root, 0, p);
    UnderSplits(root, above, p);
    assert root.children[0..] == root.children;
  }

  lemma {:induction false} ChildrenAreVisited(root: Node, from: nat, p: Placed)
    requires from <= |root.children|
    ensures p in Below(root.children[from..], Some(root)) <==>
            exists k :: from <= k < |root.children| && Under(root.children[k], Some(root), p)
    decreases root, 0, |root.children| - from
  {
    hide Under, Descendants;
    if from == |root.children| {
    } else {
      EveryNodeIsVisited(root.children[from], Some(root), p);
      ChildrenAreVisited(root, from + 1, p);
      assert root.children[from..][1..] == root.children[from + 1..];
    }
  }
}
