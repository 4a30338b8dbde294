/** backend/src/opml.rs, lines 1-4: what export followed by import gives back, for every owner and
    every group. First the exported text is shown to be read as the tree it stands for, or not at all
    when it holds an illegal character; then the tree as the feeds. */
module OpmlRoundTrip {
  import opened Text
  import opened Xml
  import opened Opml

  // ------------------------------------------------------------ the tree of a document

  function FeedNode(f: Feed): Node {
    Node("outline", NormalizedAll(FeedAttrs(f)), [])
  }

  function FeedNodes(feeds: seq<Feed>): seq<Node> {
    if feeds == [] then [] else [FeedNode(feeds[0])] + FeedNodes(feeds[1..])
  }

  function GroupNode(g: Group): Node {
    Node("outline", NormalizedAll(GroupAttrs(g.category)), FeedNodes(g.feeds))
  }

  function GroupNodes(groups: seq<Group>): seq<Node> {
    if groups == [] then [] else [GroupNode(groups[0])] + GroupNodes(groups[1..])
  }

  const HEAD := Node("head", [], [Node("title", [], [])])

  function Root(groups: seq<Group>): Node {
    Node("opml", [Attr("version", "2.0")], [HEAD, Node("body", [], GroupNodes(groups))])
  }

  /** Every value of the group consists of characters a document may hold. */
  predicate WritableGroup(g: Group) {
    Writable(GroupAttrs(g.category)) && forall i :: 0 <= i < |g.feeds| ==> Writable(FeedAttrs(g.feeds[i]))
  }

  predicate Layout(s: string) {
    forall i :: 0 <= i < |s| ==> s[i] == ' ' || s[i] == '\n'
  }

  lemma LayoutIsText(a: string, b: string)
    requires Layout(a) && Layout(b)
    ensures Layout(a + b) && Legal(a + b) && '<' !in a + b
  {
  }

  lemma OutlineIsName()
    ensures IsName("outline") && IsName("opml") && IsName("head") && IsName("title") && IsName("body")
  {
  }

  lemma StartsTag(name: string, attrs: seq<Attr>, rest: string)
    requires IsName(name)
    ensures var s := StartThen(name, attrs, rest); s != "" && s[0] == '<' && Strip(s, "</").None?
  {
    hide AttrsThen;
    var s := StartThen(name, attrs, rest);
    assert s[1] == name[0];
    assert s[..2][1] == s[1];
  }

  lemma {:induction false} FeedsContent(pre: string, feeds: seq<Feed>, spaces: string, close: string)
    requires Layout(pre) && Layout(spaces) && Strip(close, "</").Some?
    requires forall i :: 0 <= i < |feeds| ==> Writable(FeedAttrs(feeds[i]))
    ensures ReadContent(pre + FeedsThen(feeds, spaces + close)) == Some(Read(FeedNodes(feeds), close))
    decreases |feeds|
  {
    hide ReadContent, ReadElement, Writable, FeedAttrs, StartThen;
    if feeds == [] {
      LayoutIsText(pre, spaces);
      ContentEnds(pre + spaces, close);
      Regroup3(pre, spaces, close);
    } else {
      var rest := "\n" + FeedsThen(feeds[1..], spaces + close);
      FeedsContent("\n", feeds[1..], spaces, close);
      OutlineIsName();
      LeafReads("outline", FeedAttrs(feeds[0]), rest);
      StartsTag("outline", FeedAttrs(feeds[0]), "/>" + rest);
      LayoutIsText(pre, "      ");
      ChildReads(pre + "      ", StartThen("outline", FeedAttrs(feeds[0]), "/>" + rest),
                 Read(FeedNode(feeds[0]), rest), Read(FeedNodes(feeds[1..]), close));
      Regroup3(pre, "      ", StartThen("outline", FeedAttrs(feeds[0]), "/>" + rest));
    }
  }

  lemma GroupReads(g: Group, after: string)
    requires WritableGroup(g)
    ensures ReadElement(StartThen("outline", GroupAttrs(g.category), ">" + ("\n" + FeedsThen(g.feeds, EndOfGroup(after))))) ==
            Some(Read(GroupNode(g), "\n" + after))
  {
    hide ReadContent, ReadElement, Writable, FeedAttrs, StartThen, FeedsThen, FeedNodes, GroupAttrs;
    var close := "</outline>" + ("\n" + after);
    assert "</" + "outline" + ">" == "</outline>";
    StripAppend("</", "outline>" + ("\n" + after));
    assert "</" + ("outline>" + ("\n" + after)) == close;
    FeedsContent("\n", g.feeds, "    ", close);
    OutlineIsName();
    OpenReads("outline", GroupAttrs(g.category), "\n" + FeedsThen(g.feeds, "    " + close), FeedNodes(g.feeds), "\n" + after);
  }

  lemma {:induction false} GroupsContent(pre: string, groups: seq<Group>, spaces: string, close: string)
    requires Layout(pre) && Layout(spaces) && Strip(close, "</").Some?
    requires forall i :: 0 <= i < |groups| ==> WritableGroup(groups[i])
    ensures ReadContent(pre + GroupsThen(groups, spaces + close)) == Some(Read(GroupNodes(groups), close))
    decreases |groups|
  {
    hide ReadContent, ReadElement, WritableGroup, StartThen, FeedsThen, GroupNode, GroupAttrs, EndOfGroup;
    if groups == [] {
      LayoutIsText(pre, spaces);
      ContentEnds(pre + spaces, close);
      Regroup3(pre, spaces, close);
    } else {
      var g, after := groups[0], GroupsThen(groups[1..], spaces + close);
      var s := StartThen("outline", GroupAttrs(g.category), ">" + ("\n" + FeedsThen(g.feeds, EndOfGroup(after))));
      GroupsContent("\n", groups[1..], spaces, close);
      GroupReads(g, after);
      OutlineIsName();
      StartsTag("outline", GroupAttrs(g.category), ">" + ("\n" + FeedsThen(g.feeds, EndOfGroup(after))));
      LayoutIsText(pre, "    ");
      ChildReads(pre + "    ", s, Read(GroupNode(g), "\n" + after), Read(GroupNodes(groups[1..]), close));
      Regroup3(pre, "    ", s);
    }
  }

  lemma LayoutLegal(s: string)
    requires Layout(s)
    ensures Legal(s) && '<' !in s
  {
  }

  lemma CloseStarts(name: string, rest: string)
    ensures Strip("</" + name + ">" + rest, "</").Some?
  {
    assert ("</" + name + ">" + rest)[..2] == "</";
  }

  /** What `s` reads as, when it is an element. */
  predicate Reads(s: string, node: Node, rest: string) {
    s != "" && s[0] == '<' && Strip(s, "</").None? && ReadElement(s) == Some(Read(node, rest))
  }

  lemma OneChild(name: string, pre: string, s: string, child: Node, post: string, rest: string)
    requires IsName(name) && Layout(pre) && Layout(post) && Reads(s, child, post + ("</" + name + ">" + rest))
    ensures Reads(StartThen(name, [], ">" + (pre + s)), Node(name, [], [child]), rest)
  {
    hide ReadContent, ReadElement, StartThen;
    var close := "</" + name + ">" + rest;
    CloseStarts(name, rest);
    LayoutLegal(pre);
    LayoutLegal(post);
    hide Strip;
    ContentEnds(post, close);
    ChildReads(pre, s, Read(child, post + close), Read([], close));
    assert [child] + [] == [child];
    OpenReads(name, [], pre + s, [child], rest);
    StartsTag(name, [], ">" + (pre + s));
  }

  lemma TwoChildren(name: string, attrs: seq<Attr>, pre: string, s: string, first: Node, mid: string, t: string,
                    second: Node, post: string, rest: string)
    requires IsName(name) && Writable(attrs) && Layout(pre) && Layout(mid) && Layout(post)
    requires Reads(s, first, mid + t) && Reads(t, second, post + ("</" + name + ">" + rest))
    ensures Reads(StartThen(name, attrs, ">" + (pre + s)), Node(name, NormalizedAll(attrs), [first, second]), rest)
  {
    hide ReadContent, ReadElement, StartThen, Writable;
    var close := "</" + name + ">" + rest;
    CloseStarts(name, rest);
    LayoutLegal(pre);
    LayoutLegal(mid);
    LayoutLegal(post);
    hide Strip;
    ContentEnds(post, close);
    ChildReads(mid, t, Read(second, post + close), Read([], close));
    assert [second] + [] == [second];
    ChildReads(pre, s, Read(first, mid + t), Read([second], close));
    assert [first] + [second] == [first, second];
    OpenReads(name, attrs, pre + s, [first, second], rest);
    StartsTag(name, attrs, ">" + (pre + s));
  }

  lemma CloseTags()
    ensures "</" + "opml" + ">" == "</opml>" && "</" + "head" + ">" == "</head>"
    ensures "</" + "title" + ">" == "</title>" && "</" + "body" + ">" == "</body>"
  {
  }

  lemma LayoutPieces()
    ensures Layout("\n") && Layout("  ") && Layout("\n  ") && Layout("\n    ")
  {
  }

  lemma BodyReads(groups: seq<Group>, end: string)
    requires forall i :: 0 <= i < |groups| ==> WritableGroup(groups[i])
    ensures Reads(StartThen("body", [], ">" + ("\n" + GroupsThen(groups, "  " + ("</body>" + end)))),
                  Node("body", [], GroupNodes(groups)), end)
  {
    hide *;
    LayoutPieces();
    CloseTags();
    CloseStarts("body", end);
    OutlineIsName();
    NoAttrs();
    GroupsContent("\n", groups, "  ", "</body>" + end);
    var inside := "\n" + GroupsThen(groups, "  " + ("</body>" + end));
    OpenReads("body", [], inside, GroupNodes(groups), end);
    StartsTag("body", [], ">" + inside);
    ReadsIs(StartThen("body", [], ">" + inside), Node("body", [], GroupNodes(groups)), end);
  }

  lemma NoAttrs()
    ensures Writable([]) && NormalizedAll([]) == []
  {
  }

  lemma ReadsIs(s: string, node: Node, rest: string)
    requires s != "" && s[0] == '<' && Strip(s, "</").None? && ReadElement(s) == Some(Read(node, rest))
    ensures Reads(s, node, rest)
  {
  }

  lemma TitleReads(text: string, rest: string)
    requires Legal(text) && '<' !in text
    ensures Reads(StartThen("title", [], ">" + (text + ("</title>" + rest))), Node("title", [], []), rest)
  {
    hide *;
    CloseTags();
    CloseStarts("title", rest);
    OutlineIsName();
    NoAttrs();
    ContentEnds(text, "</title>" + rest);
    var inside := text + ("</title>" + rest);
    OpenReads("title", [], inside, [], rest);
    StartsTag("title", [], ">" + inside);
    ReadsIs(StartThen("title", [], ">" + inside), Node("title", [], []), rest);
  }

  lemma HeadReads(owner: string, rest: string)
    requires Legal(owner)
    ensures Reads(HeadThen(owner, rest), HEAD, rest)
  {
    hide Reads, StartThen, Esc, Layout, Legal;
    var text := "Digestly subscriptions - " + Esc(owner);
    OwnerIsText(owner);
    CloseTags();
    LayoutPieces();
    OutlineIsName();
    var close := "\n  " + ("</head>" + rest);
    TitleReads(text, close);
    OneChild("head", "\n    ", StartThen("title", [], ">" + (text + ("</title>" + close))), Node("title", [], []), "\n  ", rest);
  }

  lemma OwnerIsText(owner: string)
    requires Legal(owner)
    ensures var text := "Digestly subscriptions - " + Esc(owner); Legal(text) && '<' !in text
  {
    EscapedText(owner);
    hide Esc;
  }

  lemma OpmlReads(owner: string, groups: seq<Group>)
    requires Legal(owner) && forall i :: 0 <= i < |groups| ==> WritableGroup(groups[i])
    ensures Reads(StartThen("opml", [Attr("version", "2.0")], ">" + ("\n  " + HeadThen(owner, "\n  " + BodyThen(groups)))),
                  Root(groups), "\n")
  {
    hide Reads, StartThen, HeadThen, GroupsThen, GroupNodes, WritableGroup, Layout, Legal, Writable;
    var end := "\n" + ("</opml>" + "\n");
    CloseTags();
    LayoutPieces();
    OutlineIsName();
    VersionIsWritable();
    BodyReads(groups, end);
    HeadReads(owner, "\n  " + BodyThen(groups));
    TwoChildren("opml", [Attr("version", "2.0")], "\n  ", HeadThen(owner, "\n  " + BodyThen(groups)), HEAD, "\n  ",
                BodyThen(groups), Node("body", [], GroupNodes(groups)), "\n", "\n");
  }

  lemma VersionIsWritable()
    ensures Writable([Attr("version", "2.0")])
    ensures NormalizedAll([Attr("version", "2.0")]) == [Attr("version", "2.0")]
  {
    VersionIsPlain();
    hide IsName, Legal, OneLine;
    OneAttr("version", "2.0");
  }

  lemma VersionIsPlain()
    ensures IsName("version") && Legal("2.0") && OneLine("2.0")
  {
  }

  lemma OneAttr(name: string, v: string)
    requires OneLine(v)
    ensures NormalizedAll([Attr(name, v)]) == [Attr(name, v)]
  {
    NormalizedIsOneLine(v);
    hide Normalized;
    assert [Attr(name, v)][1..] == [];
  }

  /** The exported text is well formed and stands for the tree of its groups. */
  lemma DocumentReads(owner: string, groups: seq<Group>)
    requires Legal(owner) && forall i :: 0 <= i < |groups| ==> WritableGroup(groups[i])
    ensures ReadDocument(Document(owner, groups)) == Some(Root(groups))
  {
    hide ReadElement, StartThen, HeadThen, BodyThen, Root, WritableGroup;
    OpmlReads(owner, groups);
    var opml := StartThen("opml", [Attr("version", "2.0")], ">" + ("\n  " + HeadThen(owner, "\n  " + BodyThen(groups))));
    StripAppend(DECLARATION, "\n" + opml);
    hide Strip;
    assert ("\n" + opml)[1..] == opml;
    assert SkipSpace("\n" + opml) == opml;
    assert SkipSpace("\n") == "";
  }

  // ------------------------------------------------------------ the feeds of the tree

  /** What an exported value is when it is read: one line, trimmed, absent when nothing is left. */
  function Cleaned(v: string): Option<string> {
    if Trim(Normalized(v)) == "" then None else Some(Trim(Normalized(v)))
  }

  /** An exported feed after import, unless its URL was blank: a missing title has become the URL, the
      URL is normalised, the kind is inferred again, and the group is the category. */
  function Reread(f: Feed, category: string, normalize: string -> Option<string>): Option<Feed> {
    match Cleaned(f.url)
    case None => None
    case Some(raw) =>
      var url := Normal(raw, normalize);
      Some(Feed(Cleaned(TitleOf(f)), url, if f.htmlUrl.Some? then Cleaned(f.htmlUrl.value) else None,
                InferKind(url, Normalized(f.kind)), Cleaned(category)))
  }

  function RereadAll(feeds: seq<Feed>, category: string, normalize: string -> Option<string>): seq<Feed> {
    if feeds == [] then []
    else
      (match Reread(feeds[0], category, normalize) case None => [] case Some(f) => [f])
      + RereadAll(feeds[1..], category, normalize)
  }

  function Flattened(groups: seq<Group>, normalize: string -> Option<string>): seq<Feed> {
    if groups == [] then []
    else RereadAll(groups[0].feeds, groups[0].category, normalize) + Flattened(groups[1..], normalize)
  }

  lemma {:induction false} CollectAppend(a: seq<Placed>, b: seq<Placed>, normalize: string -> Option<string>)
    ensures Collect(a + b, normalize) == Collect(a, normalize) + Collect(b, normalize)
  {
    hide FeedOf;
    if a == [] {
      assert a + b == b;
    } else {
      assert (a + b)[1..] == a[1..] + b;
      CollectAppend(a[1..], b, normalize);
    }
  }

  lemma {:induction false} LookupNormalized(attrs: seq<Attr>, name: string)
    ensures AttrOf(NormalizedAll(attrs), name) ==
            match AttrOf(attrs, name) case None => None case Some(v) => Some(Normalized(v))
  {
    hide Normalized;
    if attrs == [] {
    } else {
      LookupNormalized(attrs[1..], name);
    }
  }

  lemma FeedLookups(f: Feed)
    ensures var attrs := FeedAttrs(f);
            && AttrOf(attrs, "type") == Some(f.kind)
            && AttrOf(attrs, "title") == AttrOf(attrs, "text") == Some(TitleOf(f))
            && AttrOf(attrs, "xmlUrl") == Some(f.url) && AttrOf(attrs, "htmlUrl") == f.htmlUrl
            && AttrOf(attrs, "htmlurl") == None && AttrOf(attrs, "xmlurl") == None
  {
    var attrs := FeedAttrs(f);
    var tail := attrs[1..][1..][1..][1..];
    if f.htmlUrl.Some? {
      assert tail == [Attr("htmlUrl", f.htmlUrl.value)];
      assert tail[1..] == [];
    } else {
      assert tail == [];
    }
    forall name: string
      ensures AttrOf(attrs, name) ==
              if name == "type" then Some(f.kind) else if name == "text" || name == "title" then Some(TitleOf(f))
              else if name == "xmlUrl" then Some(f.url) else if name == "htmlUrl" then f.htmlUrl else None
    {
      assert AttrOf(attrs[1..][1..], name) ==
             if name == "title" then Some(TitleOf(f)) else if name == "xmlUrl" then Some(f.url) else AttrOf(tail, name);
    }
  }

  lemma GroupLookups(category: string)
    ensures var attrs := GroupAttrs(category);
            && AttrOf(attrs, "text") == AttrOf(attrs, "title") == Some(category)
            && AttrOf(attrs, "xmlUrl") == None && AttrOf(attrs, "xmlurl") == None
  {
    var attrs := GroupAttrs(category);
    assert attrs[1..][1..] == [];
    assert AttrOf(attrs[1..], "title") == Some(category);
    assert AttrOf(attrs[1..], "xmlUrl") == None && AttrOf(attrs[1..], "xmlurl") == None;
  }

  /** An attribute of a written element, trimmed as the import trims it. */
  lemma TrimmedIs(node: Node, attrs: seq<Attr>, name: string)
    requires node.attrs == NormalizedAll(attrs)
    ensures Attribute(node, name) == match AttrOf(attrs, name) case None => None case Some(v) => Some(Normalized(v))
    ensures Trimmed(node, name) == match AttrOf(attrs, name) case None => None case Some(v) => Cleaned(v)
  {
    LookupNormalized(attrs, name);
    hide Trim, AttrOf, NormalizedAll, Normalized;
  }

  /** The category of a feed is the cleaned name of its group. */
  lemma GroupIsCategory(g: Group)
    ensures ParentCategory(Some(GroupNode(g))) == Cleaned(g.category)
  {
    hide GroupAttrs, AttrOf, FeedNodes, Trimmed, Attribute, NormalizedAll, Cleaned;
    var node, attrs := GroupNode(g), GroupAttrs(g.category);
    GroupLookups(g.category);
    TrimmedIs(node, attrs, "text");
    TrimmedIs(node, attrs, "title");
    TrimmedIs(node, attrs, "xmlUrl");
    TrimmedIs(node, attrs, "xmlurl");
  }

  lemma FeedNodeReads(f: Feed, g: Group, normalize: string -> Option<string>)
    ensures FeedOf(Placed(FeedNode(f), Some(GroupNode(g))), normalize) == Reread(f, g.category, normalize)
  {
    hide FeedAttrs, AttrOf, InferKind, Normal, Trimmed, Attribute, ParentCategory, GroupNode, TitleOf, NormalizedAll, Cleaned;
    FeedLookups(f);
    GroupIsCategory(g);
    var node, attrs := FeedNode(f), FeedAttrs(f);
    TrimmedIs(node, attrs, "type");
    TrimmedIs(node, attrs, "text");
    TrimmedIs(node, attrs, "title");
    TrimmedIs(node, attrs, "xmlUrl");
    TrimmedIs(node, attrs, "xmlurl");
    TrimmedIs(node, attrs, "htmlUrl");
    TrimmedIs(node, attrs, "htmlurl");
  }

  lemma {:induction false} FeedsCollected(feeds: seq<Feed>, g: Group, normalize: string -> Option<string>)
    ensures Collect(Below(FeedNodes(feeds), Some(GroupNode(g))), normalize) == RereadAll(feeds, g.category, normalize)
    decreases |feeds|
  {
    hide FeedOf, FeedAttrs, GroupNode, Reread;
    if feeds == [] {
    } else {
      var node, parent := FeedNode(feeds[0]), Some(GroupNode(g));
      FeedsCollected(feeds[1..], g, normalize);
      FeedNodeReads(feeds[0], g, normalize);
      BelowStep(node, FeedNodes(feeds[1..]), parent);
      assert Descendants(node, parent) == [Placed(node, parent)];
      assert [Placed(node, parent)] + Below(FeedNodes(feeds[1..]), parent) == Below(FeedNodes(feeds), parent);
      CollectAppend([Placed(node, parent)], Below(FeedNodes(feeds[1..]), parent), normalize);
      CollectOne(Placed(node, parent), normalize);
    }
  }

  lemma BelowStep(node: Node, nodes: seq<Node>, parent: Option<Node>)
    ensures Below([node] + nodes, parent) == Descendants(node, parent) + Below(nodes, parent)
  {
    assert ([node] + nodes)[1..] == nodes;
  }

  lemma CollectOne(p: Placed, normalize: string -> Option<string>)
    ensures Collect([p], normalize) == match FeedOf(p, normalize) case None => [] case Some(f) => [f]
  {
    hide FeedOf;
    assert [p][1..] == [];
  }

  /** A node that is no feed passes its own descendants on. */
  lemma FolderCollected(node: Node, parent: Option<Node>, normalize: string -> Option<string>)
    requires FeedOf(Placed(node, parent), normalize) == None
    ensures Collect(Descendants(node, parent), normalize) == Collect(Below(node.children, Some(node)), normalize)
  {
    hide FeedOf;
    CollectAppend([Placed(node, parent)], Below(node.children, Some(node)), normalize);
    CollectOne(Placed(node, parent), normalize);
  }

  lemma GroupIsNoFeed(g: Group, parent: Option<Node>, normalize: string -> Option<string>)
    ensures FeedOf(Placed(GroupNode(g), parent), normalize) == None
  {
    GroupLookups(g.category);
    hide GroupAttrs, AttrOf, FeedNodes, NormalizedAll, Cleaned, Trimmed, Attribute;
    TrimmedIs(GroupNode(g), GroupAttrs(g.category), "xmlUrl");
    TrimmedIs(GroupNode(g), GroupAttrs(g.category), "xmlurl");
  }

  lemma {:induction false} GroupsCollected(groups: seq<Group>, parent: Option<Node>, normalize: string -> Option<string>)
    ensures Collect(Below(GroupNodes(groups), parent), normalize) == Flattened(groups, normalize)
    decreases |groups|
  {
    hide FeedOf, RereadAll, FeedNodes, Descendants;
    if groups == [] {
    } else {
      var g := groups[0];
      GroupsCollected(groups[1..], parent, normalize);
      BelowStep(GroupNode(g), GroupNodes(groups[1..]), parent);
      hide Below;
      CollectAppend(Descendants(GroupNode(g), parent), Below(GroupNodes(groups[1..]), parent), normalize);
      GroupIsNoFeed(g, parent, normalize);
      FolderCollected(GroupNode(g), parent, normalize);
      FeedsCollected(g.feeds, g, normalize);
    }
  }

  lemma OtherTag(p: Placed, normalize: string -> Option<string>)
    requires p.node.name != "outline"
    ensures FeedOf(p, normalize) == None
  {
    hide Trimmed;
  }

  lemma TagNames()
    ensures "opml" != "outline" && "head" != "outline" && "title" != "outline" && "body" != "outline"
  {
    assert "opml"[1] == 'p' && "outline"[1] == 'u';
    assert |"head"| == |"body"| == 4 && |"title"| == 5 && |"outline"| == 7;
  }

  lemma RootCollected(groups: seq<Group>, normalize: string -> Option<string>)
    ensures Collect(Descendants(Root(groups), None), normalize) == Flattened(groups, normalize)
  {
    hide FeedOf, GroupNodes, Descendants, Flattened, Collect, Below;
    var root, body := Root(groups), Node("body", [], GroupNodes(groups));
    TagNames();
    GroupsCollected(groups, Some(body), normalize);
    HeadCollected(root, normalize);
    OtherTag(Placed(root, None), normalize);
    OtherTag(Placed(body, Some(root)), normalize);
    FolderCollected(root, None, normalize);
    FolderCollected(body, Some(root), normalize);
    TwoBelow(HEAD, body, Some(root));
    CollectAppend(Descendants(HEAD, Some(root)), Descendants(body, Some(root)), normalize);
  }

  lemma TwoBelow(a: Node, b: Node, parent: Option<Node>)
    ensures Below([a, b], parent) == Descendants(a, parent) + Descendants(b, parent)
  {
    hide Descendants;
    BelowStep(b, [], parent);
    BelowStep(a, [b], parent);
    assert [b] + [] == [b] && [a] + [b] == [a, b];
  }

  lemma HeadCollected(root: Node, normalize: string -> Option<string>)
    ensures Collect(Descendants(HEAD, Some(root)), normalize) == []
  {
    hide FeedOf, Collect;
    var title := Node("title", [], []);
    TagNames();
    OtherTag(Placed(HEAD, Some(root)), normalize);
    OtherTag(Placed(title, Some(HEAD)), normalize);
    FolderCollected(HEAD, Some(root), normalize);
    BelowStep(title, [], Some(HEAD));
    assert [title] + [] == [title];
    assert Descendants(title, Some(HEAD)) == [Placed(title, Some(HEAD))];
    CollectOne(Placed(title, Some(HEAD)), normalize);
  }

  // ------------------------------------------------------------ illegal characters

  lemma AttrsAreNamed(f: Feed, category: string)
    ensures Named(FeedAttrs(f)) && Named(GroupAttrs(category))
  {
    hide TitleOf;
  }

  lemma {:induction false} FeedsFail(pre: string, feeds: seq<Feed>, rest: string)
    requires Layout(pre) && exists i :: 0 <= i < |feeds| && !Writable(FeedAttrs(feeds[i]))
    ensures ReadContent(pre + FeedsThen(feeds, rest)) == None
    decreases |feeds|
  {
    hide ReadContent, ReadElement, Writable, Named, FeedAttrs, StartThen;
    var i :| 0 <= i < |feeds| && !Writable(FeedAttrs(feeds[i]));
    var after := "\n" + FeedsThen(feeds[1..], rest);
    var s := StartThen("outline", FeedAttrs(feeds[0]), "/>" + after);
    OutlineIsName();
    AttrsAreNamed(feeds[0], "");
    if Writable(FeedAttrs(feeds[0])) {
      assert feeds[1..][i - 1] == feeds[i];
      FeedsFail("\n", feeds[1..], rest);
      LeafReads("outline", FeedAttrs(feeds[0]), after);
    } else {
      StartFails("outline", FeedAttrs(feeds[0]), "/>" + after);
    }
    StartsTag("outline", FeedAttrs(feeds[0]), "/>" + after);
    LayoutIsText(pre, "      ");
    ContentFails(pre + "      ", s);
    Regroup3(pre, "      ", s);
  }

  lemma GroupFails(g: Group, after: string)
    requires !WritableGroup(g)
    ensures ReadElement(StartThen("outline", GroupAttrs(g.category), ">" + ("\n" + FeedsThen(g.feeds, EndOfGroup(after))))) == None
  {
    hide ReadContent, ReadElement, Writable, Named, FeedAttrs, StartThen, FeedsThen, GroupAttrs, EndOfGroup;
    OutlineIsName();
    AttrsAreNamed(Feed(None, "", None, "", None), g.category);
    var inside := "\n" + FeedsThen(g.feeds, EndOfGroup(after));
    if Writable(GroupAttrs(g.category)) {
      LayoutPieces();
      FeedsFail("\n", g.feeds, EndOfGroup(after));
      OpenFails("outline", GroupAttrs(g.category), inside);
    } else {
      StartFails("outline", GroupAttrs(g.category), ">" + inside);
    }
  }

  lemma {:induction false} GroupsFail(pre: string, groups: seq<Group>, rest: string)
    requires Layout(pre) && exists i :: 0 <= i < |groups| && !WritableGroup(groups[i])
    ensures ReadContent(pre + GroupsThen(groups, rest)) == None
    decreases |groups|
  {
    hide ReadContent, ReadElement, WritableGroup, StartThen, FeedsThen, GroupNode, GroupAttrs, EndOfGroup;
    var i :| 0 <= i < |groups| && !WritableGroup(groups[i]);
    var g, after := groups[0], GroupsThen(groups[1..], rest);
    var inside := ">" + ("\n" + FeedsThen(g.feeds, EndOfGroup(after)));
    var s := StartThen("outline", GroupAttrs(g.category), inside);
    OutlineIsName();
    if WritableGroup(g) {
      assert groups[1..][i - 1] == groups[i];
      GroupsFail("\n", groups[1..], rest);
      GroupReads(g, after);
    } else {
      GroupFails(g, after);
    }
    StartsTag("outline", GroupAttrs(g.category), inside);
    LayoutIsText(pre, "    ");
    ContentFails(pre + "    ", s);
    Regroup3(pre, "    ", s);
  }

  lemma BodyFails(groups: seq<Group>)
    requires exists i :: 0 <= i < |groups| && !WritableGroup(groups[i])
    ensures ReadElement(BodyThen(groups)) == None
  {
    hide ReadElement, ReadContent, StartThen, GroupsThen, WritableGroup;
    LayoutPieces();
    OutlineIsName();
    NoAttrs();
    GroupsFail("\n", groups, AFTER_GROUPS);
    OpenFails("body", [], "\n" + GroupsThen(groups, AFTER_GROUPS));
  }

  lemma HeadFails(owner: string, rest: string)
    requires !Legal(owner)
    ensures ReadElement(HeadThen(owner, rest)) == None
  {
    hide ReadElement, StartThen, Esc, Layout;
    var text := "Digestly subscriptions - " + Esc(owner);
    var tail := "</title>" + ("\n  " + ("</head>" + rest));
    IllegalOwner(owner);
    OutlineIsName();
    NoAttrs();
    LayoutPieces();
    LayoutLegal("\n    ");
    TextFails(text, tail);
    assert ReadContent(text + tail) == None;
    OpenFails("title", [], text + tail);
    hide ReadContent, Legal, Writable;
    StartsTag("title", [], ">" + (text + tail));
    ContentFails("\n    ", StartThen("title", [], ">" + (text + tail)));
    OpenFails("head", [], "\n    " + StartThen("title", [], ">" + (text + tail)));
  }

  lemma IllegalOwner(owner: string)
    requires !Legal(owner)
    ensures var text := "Digestly subscriptions - " + Esc(owner); !Legal(text) && '<' !in text
  {
    EscapedStaysIllegal(owner);
    hide Esc;
    var prefix := "Digestly subscriptions - ";
    var i :| 0 <= i < |Esc(owner)| && !IsChar(Esc(owner)[i]);
    assert (prefix + Esc(owner))[|prefix| + i] == Esc(owner)[i];
  }

  /** Everything exported consists of characters a document may hold. */
  predicate AllLegal(owner: string, groups: seq<Group>) {
    Legal(owner) && forall i :: 0 <= i < |groups| ==> WritableGroup(groups[i])
  }

  lemma OpmlFails(owner: string, groups: seq<Group>)
    requires !AllLegal(owner, groups)
    ensures ReadElement(StartThen("opml", [Attr("version", "2.0")], ">" + ("\n  " + HeadThen(owner, "\n  " + BodyThen(groups))))) == None
  {
    hide ReadElement, ReadContent, StartThen, HeadThen, BodyThen, WritableGroup, Layout, Legal, Writable;
    var head := HeadThen(owner, "\n  " + BodyThen(groups));
    LayoutPieces();
    LayoutLegal("\n  ");
    OutlineIsName();
    VersionIsWritable();
    TagsStart(owner, groups);
    if Legal(owner) {
      BodyFails(groups);
      HeadReads(owner, "\n  " + BodyThen(groups));
      ContentFails("\n  ", BodyThen(groups));
    } else {
      HeadFails(owner, "\n  " + BodyThen(groups));
    }
    ContentFails("\n  ", head);
    OpenFails("opml", [Attr("version", "2.0")], "\n  " + head);
  }

  lemma TagsStart(owner: string, groups: seq<Group>)
    ensures var s := BodyThen(groups); s != "" && s[0] == '<' && Strip(s, "</").None?
    ensures var s := HeadThen(owner, "\n  " + BodyThen(groups)); s != "" && s[0] == '<' && Strip(s, "</").None?
  {
    hide StartThen, GroupsThen, Esc;
    OutlineIsName();
    StartsTag("body", [], ">" + ("\n" + GroupsThen(groups, AFTER_GROUPS)));
    var rest := "\n  " + BodyThen(groups);
    StartsTag("head", [], ">" + ("\n    " + StartThen("title", [],
              ">" + ("Digestly subscriptions - " + Esc(owner) + ("</title>" + ("\n  " + ("</head>" + rest)))))));
  }

  /** A single illegal character anywhere in the export makes the whole document unreadable. */
  lemma IllegalDocument(owner: string, groups: seq<Group>)
    requires !AllLegal(owner, groups)
    ensures ReadDocument(Document(owner, groups)) == None
  {
    hide ReadElement, StartThen, HeadThen, BodyThen, AllLegal;
    OpmlFails(owner, groups);
    var inside := ">" + ("\n  " + HeadThen(owner, "\n  " + BodyThen(groups)));
    var opml := StartThen("opml", [Attr("version", "2.0")], inside);
    OutlineIsName();
    StartsTag("opml", [Attr("version", "2.0")], inside);
    StripAppend(DECLARATION, "\n" + opml);
    hide Strip;
    assert ("\n" + opml)[1..] == opml;
    assert SkipSpace("\n" + opml) == opml;
  }

  // ------------------------------------------------------------ the round trip

  /** Export followed by import, for every owner and all groups: nothing when any exported character
      is illegal in a document; otherwise every feed whose URL is not blank, in order, with its
      cleaned title, page and group, its URL normalised and its kind inferred again. */
  lemma RoundTrip(owner: string, groups: seq<Group>, normalize: string -> Option<string>)
    ensures Imported(Document(owner, groups), normalize) ==
            if AllLegal(owner, groups) then Flattened(groups, normalize) else []
  {
    hide ReadDocument, Document, Descendants, Collect, Flattened, WritableGroup, Root, Legal;
    if AllLegal(owner, groups) {
      DocumentReads(owner, groups);
      RootCollected(groups, normalize);
    } else {
      IllegalDocument(owner, groups);
    }
  }

  /** A value that import reads as it was written: trimmed, not blank, without tabs and line ends. */
  predicate Tidy(v: string) {
    IsTrimmed(v) && OneLine(v)
  }

  lemma TidyIsCleaned(v: string)
    ensures Cleaned(v) == Some(v) <==> Tidy(v)
  {
    hide Trim, Normalized;
    var n := Normalized(v);
    NormalizedIsOneLine(v);
    TrimIsTrimmed(n);
    TrimIsPart(n);
    if Tidy(v) { TrimmedStays(v); }
  }

  lemma TrimIsPart(s: string)
    ensures OneLine(s) ==> OneLine(Trim(s))
  {
    var t := TrimStart(s);
    assert t == s[|s| - |t|..] && TrimEnd(t) == t[..|TrimEnd(t)|];
  }

  /** A feed the round trip leaves alone: tidy and titled, filed under its group, and its kind and
      URL the ones that import derives from what it reads. */
  predicate Settled(f: Feed, category: string, normalize: string -> Option<string>) {
    && f.title.Some? && Tidy(f.title.value)
    && (f.htmlUrl.Some? ==> Tidy(f.htmlUrl.value))
    && f.category == Cleaned(category)
    && Cleaned(f.url).Some? && Normal(Cleaned(f.url).value, normalize) == f.url
    && InferKind(f.url, Normalized(f.kind)) == f.kind
  }

  lemma SettledIsReread(f: Feed, category: string, normalize: string -> Option<string>)
    ensures Reread(f, category, normalize) == Some(f) <==> Settled(f, category, normalize)
  {
    hide InferKind, Normal, Cleaned, Normalized, Tidy;
    TidyIsCleaned(TitleOf(f));
    if f.htmlUrl.Some? { TidyIsCleaned(f.htmlUrl.value); }
  }

  function AllFeeds(groups: seq<Group>): seq<Feed> {
    if groups == [] then [] else groups[0].feeds + AllFeeds(groups[1..])
  }

  lemma {:induction false} SettledStay(feeds: seq<Feed>, category: string, normalize: string -> Option<string>)
    ensures |RereadAll(feeds, category, normalize)| <= |feeds|
    ensures RereadAll(feeds, category, normalize) == feeds <==>
            forall i :: 0 <= i < |feeds| ==> Settled(feeds[i], category, normalize)
  {
    hide Reread, Settled;
    if feeds == [] {
    } else {
      SettledStay(feeds[1..], category, normalize);
      SettledIsReread(feeds[0], category, normalize);
      var rest := RereadAll(feeds[1..], category, normalize);
      assert feeds == [feeds[0]] + feeds[1..];
      assert forall i :: 1 <= i < |feeds| ==> feeds[i] == feeds[1..][i - 1];
      if Reread(feeds[0], category, normalize).Some? {
        SameParts([Reread(feeds[0], category, normalize).value], rest, [feeds[0]], feeds[1..]);
      }
    }
  }

  lemma {:induction false} FlattenedStays(groups: seq<Group>, normalize: string -> Option<string>)
    ensures |Flattened(groups, normalize)| <= |AllFeeds(groups)|
    ensures Flattened(groups, normalize) == AllFeeds(groups) <==>
            forall i, j :: 0 <= i < |groups| && 0 <= j < |groups[i].feeds| ==>
              Settled(groups[i].feeds[j], groups[i].category, normalize)
  {
    hide Settled, RereadAll;
    if groups == [] {
    } else {
      var g := groups[0];
      FlattenedStays(groups[1..], normalize);
      SettledStay(g.feeds, g.category, normalize);
      SameParts(RereadAll(g.feeds, g.category, normalize), Flattened(groups[1..], normalize), g.feeds, AllFeeds(groups[1..]));
      assert forall i :: 1 <= i < |groups| ==> groups[i] == groups[1..][i - 1];
    }
  }

  lemma SameParts(a: seq<Feed>, b: seq<Feed>, c: seq<Feed>, d: seq<Feed>)
    requires |a| <= |c| && |b| <= |d|
    ensures a + b == c + d <==> a == c && b == d
  {
    if a + b == c + d {
      assert |a + b| == |c + d|;
      assert (a + b)[..|a|] == a && (c + d)[..|c|] == c;
      assert (a + b)[|a|..] == b && (c + d)[|c|..] == d;
    }
  }

  /** The round trip is lossless exactly when there is nothing to lose, or everything is legal and
      every feed is settled. */
  lemma LosslessIffSettled(owner: string, groups: seq<Group>, normalize: string -> Option<string>)
    ensures Imported(Document(owner, groups), normalize) == AllFeeds(groups) <==>
            AllFeeds(groups) == []
            || (AllLegal(owner, groups)
                && forall i, j :: 0 <= i < |groups| && 0 <= j < |groups[i].feeds| ==>
                     Settled(groups[i].feeds[j], groups[i].category, normalize))
  {
    hide Imported, Document, Flattened, AllLegal, Settled, AllFeeds;
    RoundTrip(owner, groups, normalize);
    FlattenedStays(groups, normalize);
  }

  /** A feed of kind `rss` at a URL that ends in `.json` comes back as another kind. */
  lemma JsonUrlLosesItsKind(owner: string, normalize: string -> Option<string>)
    ensures var f := Feed(Some("a"), "http://a.b/c.json", None, "rss", Some("c"));
            Imported(Document(owner, [Group("c", [f])]), normalize) != [f]
  {
    var f := Feed(Some("a"), "http://a.b/c.json", None, "rss", Some("c"));
    var groups := [Group("c", [f])];
    JsonIsNotRss();
    hide *;
    LosslessIffSettled(owner, groups, normalize);
    OneGroup(Group("c", [f]));
    NotSettled(f, "c", normalize);
    assert groups[0].feeds[0] == f;
  }

  lemma OneGroup(g: Group)
    ensures AllFeeds([g]) == g.feeds
  {
    assert [g][1..] == [];
  }

  lemma NotSettled(f: Feed, category: string, normalize: string -> Option<string>)
    requires InferKind(f.url, Normalized(f.kind)) != f.kind
    ensures !Settled(f, category, normalize)
  {
    hide InferKind, Normalized, Normal, Cleaned, Tidy;
  }

  lemma JsonIsNotRss()
    ensures InferKind("http://a.b/c.json", Normalized("rss")) != "rss"
  {
    hide InferKind, Lower, IsYoutube, IsReddit, Normalized, EndsWith;
    JsonUrl();
    NormalizedIsOneLine("rss");
    KindReproduced("http://a.b/c.json");
  }

  lemma JsonUrl()
    ensures EndsWith(Lower("http://a.b/c.json"), ".json")
  {
    hide Lower;
    NoUpperCase();
    LowerStays("http://a.b/c.json");
    JsonSuffix();
  }

  lemma JsonSuffix()
    ensures EndsWith("http://a.b/c.json", ".json")
  {
  }

  lemma NoUpperCase()
    ensures var url := "http://a.b/c.json"; forall i :: 0 <= i < |url| ==> !('A' <= url[i] <= 'Z')
  {
  }
}
