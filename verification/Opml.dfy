/** backend/src/opml.rs, lines 11-133: OPML export and import. The document is built as text and
    read back through a parser of that text. URL normalisation is a parameter. */
module Opml {
  import opened Text
  import opened Xml

  datatype Feed = Feed(title: Option<string>, url: string, htmlUrl: Option<string>, kind: string, category: Option<string>)

  datatype Group = Group(category: string, feeds: seq<Feed>)

  // ------------------------------------------------------------ import

  function Attribute(node: Node, name: string): Option<string> {
    AttrOf(node.attrs, name)
  }

  function AttrOf(attrs: seq<Attr>, name: string): Option<string> {
    if attrs == [] then None else if attrs[0].name == name then Some(attrs[0].value) else AttrOf(attrs[1..], name)
  }

  /** `attr`: trimmed, and absent when blank. */
  function Trimmed(node: Node, name: string): Option<string> {
    match Attribute(node, name)
    case None => None
    case Some(v) => if Trim(v) == "" then None else Some(Trim(v))
  }

  function Or<T>(a: Option<T>, b: Option<T>): Option<T> {
    if a.Some? then a else b
  }

  function Lower(s: string): (r: string)
    ensures |r| == |s|
  {
    if s == "" then "" else [if 'A' <= s[0] <= 'Z' then (s[0] as int + 32) as char else s[0]] + Lower(s[1..])
  }

  predicate Contains(s: string, part: string) {
    (|s| >= |part| && s[..|part|] == part) || (s != "" && Contains(s[1..], part))
  }

  predicate EndsWith(s: string, part: string) {
    |s| >= |part| && s[|s| - |part|..] == part
  }

  function InferKind(url: string, ty: string): string {
    var u, t := Lower(url), Lower(ty);
    if Contains(u, "youtube.com/feeds/videos.xml") || Contains(u, "youtube.com/channel") then "youtube"
    else if Contains(u, "reddit.com/r/") then "reddit"
    else if t == "atom" then "atom"
    else if t == "json" || t == "jsonfeed" || EndsWith(u, ".json") then "jsonfeed"
    else "rss"
  }

  predicate IsYoutube(url: string) {
    Contains(Lower(url), "youtube.com/feeds/videos.xml") || Contains(Lower(url), "youtube.com/channel")
  }

  predicate IsReddit(url: string) {
    Contains(Lower(url), "reddit.com/r/")
  }

  lemma {:induction false} LowerStays(s: string)
    requires forall i :: 0 <= i < |s| ==> !('A' <= s[i] <= 'Z')
    ensures Lower(s) == s
  {
    if s == "" {
    } else {
      LowerStays(s[1..]);
    }
  }

  /** Which of the five kinds a feed may have survive being inferred again from its URL. */
  lemma KindReproduced(url: string)
    ensures InferKind(url, "youtube") == "youtube" <==> IsYoutube(url)
    ensures InferKind(url, "reddit") == "reddit" <==> !IsYoutube(url) && IsReddit(url)
    ensures InferKind(url, "atom") == "atom" <==> !IsYoutube(url) && !IsReddit(url)
    ensures InferKind(url, "jsonfeed") == "jsonfeed" <==> !IsYoutube(url) && !IsReddit(url)
    ensures InferKind(url, "rss") == "rss" <==> !IsYoutube(url) && !IsReddit(url) && !EndsWith(Lower(url), ".json")
  {
    hide InferKind, IsYoutube, IsReddit, EndsWith, Lower;
    KindsDiffer();
    KindRead(url, "youtube");
    KindRead(url, "reddit");
    KindRead(url, "atom");
    KindRead(url, "jsonfeed");
    KindRead(url, "rss");
  }

  /** Inference for a `type` attribute in lower case. */
  lemma KindRead(url: string, ty: string)
    requires ty == "youtube" || ty == "reddit" || ty == "atom" || ty == "jsonfeed" || ty == "rss"
    ensures InferKind(url, ty) ==
            if IsYoutube(url) then "youtube" else if IsReddit(url) then "reddit"
            else if ty == "atom" then "atom"
            else if ty == "jsonfeed" || EndsWith(Lower(url), ".json") then "jsonfeed" else "rss"
  {
    hide Contains, EndsWith, Lower;
    LowerStays(ty);
    KindsDiffer();
  }

  lemma KindsDiffer()
    ensures "youtube" != "reddit" && "youtube" != "atom" && "youtube" != "jsonfeed" && "youtube" != "rss"
    ensures "reddit" != "atom" && "reddit" != "jsonfeed" && "reddit" != "rss"
    ensures "atom" != "jsonfeed" && "atom" != "rss" && "jsonfeed" != "rss" && "json" != "rss" && "json" != "atom"
    ensures "json" != "youtube" && "json" != "reddit"
  {
    assert |"youtube"| == 7 && |"reddit"| == 6 && |"atom"| == |"json"| == 4 && |"jsonfeed"| == 8 && |"rss"| == 3;
    assert "json"[0] == 'j' && "atom"[0] == 'a';
  }

  /** The category: the parent outline, if it is a folder. */
  function ParentCategory(parent: Option<Node>): Option<string> {
    if parent.None? || parent.value.name != "outline" then None
    else if Attribute(parent.value, "xmlUrl").Some? || Attribute(parent.value, "xmlurl").Some? then None
    else Or(Trimmed(parent.value, "text"), Trimmed(parent.value, "title"))
  }

  function Normal(url: string, normalize: string -> Option<string>): string {
    match normalize(url) case Some(u) => u case None => url
  }

  datatype Placed = Placed(node: Node, parent: Option<Node>)

  function FeedOf(p: Placed, normalize: string -> Option<string>): Option<Feed> {
    var raw := Or(Trimmed(p.node, "xmlUrl"), Trimmed(p.node, "xmlurl"));
    if p.node.name != "outline" || raw.None? then None
    else
      var url := Normal(raw.value, normalize);
      var ty := Attribute(p.node, "type");
      Some(Feed(Or(Trimmed(p.node, "title"), Trimmed(p.node, "text")), url,
                Or(Trimmed(p.node, "htmlUrl"), Trimmed(p.node, "htmlurl")),
                InferKind(url, if ty.Some? then ty.value else ""), ParentCategory(p.parent)))
  }

  /** A node and everything below it, in document order. */
  function Descendants(node: Node, parent: Option<Node>): seq<Placed>
    decreases node
  {
    [Placed(node, parent)] + Below(node.children, Some(node))
  }

  function Below(nodes: seq<Node>, parent: Option<Node>): seq<Placed>
    decreases nodes
  {
    if nodes == [] then [] else Descendants(nodes[0], parent) + Below(nodes[1..], parent)
  }

  function Collect(places: seq<Placed>, normalize: string -> Option<string>): seq<Feed> {
    if places == [] then []
    else
      var rest := Collect(places[1..], normalize);
      match FeedOf(places[0], normalize)
      case None => rest
      case Some(f) => [f] + rest
  }

  function Imported(xml: string, normalize: string -> Option<string>): seq<Feed> {
    match ReadDocument(xml)
    case None => []
    case Some(root) => Collect(Descendants(root, None), normalize)
  }

  method Parse(xml: string, normalize: string -> Option<string>) returns (out: seq<Feed>)
    ensures out == Imported(xml, normalize)
  {
    hide ReadDocument, FeedOf, Descendants;
    out := [];
    var doc := ReadDocument(xml);
    if doc.None? { return; }
    var places := Descendants(doc.value, None);
    for i := 0 to |places|
      invariant out + Collect(places[i..], normalize) == Collect(places, normalize)
    {
      assert places[i..][1..] == places[i + 1..];
      var feed := FeedOf(places[i], normalize);
      if feed.None? {
        continue;
      }
      out := out + [feed.value];
    }
    assert places[|places|..] == [];
  }

  // ------------------------------------------------------------ export

  function TitleOf(f: Feed): string {
    if f.title.Some? then f.title.value else f.url
  }

  function FeedAttrs(f: Feed): seq<Attr> {
    [Attr("type", f.kind), Attr("text", TitleOf(f)), Attr("title", TitleOf(f)), Attr("xmlUrl", f.url)]
    + if f.htmlUrl.Some? then [Attr("htmlUrl", f.htmlUrl.value)] else []
  }

  function GroupAttrs(category: string): seq<Attr> {
    [Attr("text", category), Attr("title", category)]
  }

  /** One attribute of a format string. */
  function AttrText(name: string, value: string): string {
    " " + name + "=\"" + Esc(value) + "\""
  }

  function AttrsText(attrs: seq<Attr>): string {
    if attrs == [] then "" else AttrText(attrs[0].name, attrs[0].value) + AttrsText(attrs[1..])
  }

  /** The lines of `feeds`, and what follows them. */
  function FeedsThen(feeds: seq<Feed>, rest: string): string {
    if feeds == [] then rest
    else "      " + StartThen("outline", FeedAttrs(feeds[0]), "/>" + ("\n" + FeedsThen(feeds[1..], rest)))
  }

  function EndOfGroup(rest: string): string {
    "    " + ("</outline>" + ("\n" + rest))
  }

  function GroupsThen(groups: seq<Group>, rest: string): string {
    if groups == [] then rest
    else "    " + StartThen("outline", GroupAttrs(groups[0].category),
                            ">" + ("\n" + FeedsThen(groups[0].feeds, EndOfGroup(GroupsThen(groups[1..], rest)))))
  }

  const DECLARATION := "<?xml version=\"1.0\" encoding=\"UTF-8\"?>"
  const AFTER_GROUPS := "  " + ("</body>" + ("\n" + ("</opml>" + "\n")))

  function BodyThen(groups: seq<Group>): string {
    StartThen("body", [], ">" + ("\n" + GroupsThen(groups, AFTER_GROUPS)))
  }

  function HeadThen(owner: string, rest: string): string {
    StartThen("head", [], ">" + ("\n    " + StartThen("title", [],
              ">" + ("Digestly subscriptions - " + Esc(owner) + ("</title>" + ("\n  " + ("</head>" + rest)))))))
  }

  function Document(owner: string, groups: seq<Group>): string {
    DECLARATION + ("\n" + StartThen("opml", [Attr("version", "2.0")],
                   ">" + ("\n  " + HeadThen(owner, "\n  " + BodyThen(groups)))))
  }

  method Build(owner: string, groups: seq<Group>) returns (s: string)
    ensures s == Document(owner, groups)
  {
    hide Esc, AttrText, GroupsThen, FeedsThen, Document;
    s := DECLARATION + "\n";
    s := s + ("<opml" + AttrText("version", "2.0") + ">" + "\n" + "  " + "<head>" + "\n");
    s := s + ("    " + "<title>" + "Digestly subscriptions - " + Esc(owner) + "</title>" + "\n");
    s := s + ("  " + "</head>" + "\n" + "  " + "<body>" + "\n");
    Prologue(owner, groups);
    for i := 0 to |groups|
      invariant s + GroupsThen(groups[i..], AFTER_GROUPS) == Document(owner, groups)
    {
      var category, feeds := groups[i].category, groups[i].feeds;
      ghost var after := GroupsThen(groups[i + 1..], AFTER_GROUPS);
      GroupLines(groups, i);
      ghost var before := s;
      s := s + ("    <outline" + AttrText("text", category) + AttrText("title", category) + ">\n");
      Regroup3(before, "    <outline" + AttrText("text", category) + AttrText("title", category) + ">\n",
               FeedsThen(feeds, EndOfGroup(after)));
      for j := 0 to |feeds|
        invariant s + FeedsThen(feeds[j..], EndOfGroup(after)) == Document(owner, groups)
      {
        var f := feeds[j];
        var title := if f.title.Some? then f.title.value else f.url;
        var line := "      <outline" + AttrText("type", f.kind) + AttrText("text", title) + AttrText("title", title)
                    + AttrText("xmlUrl", f.url);
        if f.htmlUrl.Some? {
          line := line + AttrText("htmlUrl", f.htmlUrl.value);
        }
        line := line + "/>\n";
        FeedLine(feeds, j, EndOfGroup(after), line);
        Regroup3(s, line, FeedsThen(feeds[j + 1..], EndOfGroup(after)));
        s := s + line;
      }
      GroupEnds(feeds, after);
      Regroup3(s, "    </outline>\n", after);
      s := s + "    </outline>\n";
    }
    DocumentEnds(groups);
    s := s + "  </body>\n</opml>\n";
  }

  // ------------------------------------------------------------ the lines are the document

  lemma Regroup3(a: string, b: string, c: string)
    ensures a + b + c == a + (b + c)
  {
  }

  lemma AttrTextIs(a: Attr, rest: string)
    ensures " " + (a.name + ("=\"" + Quoted(a.value, rest))) == AttrText(a.name, a.value) + rest
  {
    hide Esc, EscChars, Quoted;
    EscIsPerChar(a.value);
    QuotedIs(a.value, rest);
  }

  lemma {:induction false} AttrsTextIs(attrs: seq<Attr>, rest: string)
    ensures AttrsThen(attrs, rest) == AttrsText(attrs) + rest
  {
    if attrs == [] {
    } else {
      AttrsTextIs(attrs[1..], rest);
      AttrTextIs(attrs[0], AttrsThen(attrs[1..], rest));
      hide AttrText, Quoted;
      Regroup3(AttrText(attrs[0].name, attrs[0].value), AttrsText(attrs[1..]), rest);
    }
  }

  lemma StartIs(name: string, attrs: seq<Attr>, rest: string)
    ensures StartThen(name, attrs, rest) == "<" + name + AttrsText(attrs) + rest
  {
    AttrsTextIs(attrs, rest);
    hide AttrsThen, AttrsText;
  }

  lemma OutlineLine(spaces: string, attrs: seq<Attr>, end: string, rest: string)
    ensures spaces + StartThen("outline", attrs, end + ("\n" + rest)) ==
            (spaces + "<outline") + AttrsText(attrs) + (end + "\n") + rest
  {
    StartIs("outline", attrs, end + ("\n" + rest));
    assert "<" + "outline" == "<outline";
    hide StartThen, AttrsText;
    Regroup5(spaces, "<outline", AttrsText(attrs), end, "\n", rest);
  }

  lemma Regroup5(a: string, b: string, c: string, d: string, e: string, f: string)
    ensures a + (b + c + (d + (e + f))) == (a + b) + c + (d + e) + f
  {
  }

  lemma GroupLines(groups: seq<Group>, i: nat)
    requires i < |groups|
    ensures var category := groups[i].category;
            GroupsThen(groups[i..], AFTER_GROUPS) ==
            ("    <outline" + AttrText("text", category) + AttrText("title", category) + ">\n")
            + FeedsThen(groups[i].feeds, EndOfGroup(GroupsThen(groups[i + 1..], AFTER_GROUPS)))
  {
    var category := groups[i].category;
    var rest := FeedsThen(groups[i].feeds, EndOfGroup(GroupsThen(groups[i + 1..], AFTER_GROUPS)));
    assert groups[i..][1..] == groups[i + 1..];
    assert GroupsThen(groups[i..], AFTER_GROUPS) ==
           "    " + StartThen("outline", GroupAttrs(category), ">" + ("\n" + rest));
    GroupAttrsText(category);
    hide StartThen, AttrsText, GroupsThen, FeedsThen, AttrText, GroupAttrs;
    OutlineLine("    ", GroupAttrs(category), ">", rest);
    assert "    " + "<outline" == "    <outline" && ">" + "\n" == ">\n";
    Regroup3("    <outline", AttrText("text", category), AttrText("title", category));
  }

  lemma GroupAttrsText(category: string)
    ensures AttrsText(GroupAttrs(category)) == AttrText("text", category) + AttrText("title", category)
  {
    hide AttrText;
    var attrs := GroupAttrs(category);
    assert AttrsText(attrs[1..][1..]) == "";
    assert AttrsText(attrs[1..]) == AttrText("title", category) + "";
  }

  lemma FeedAttrsText(f: Feed)
    ensures AttrsText(FeedAttrs(f)) ==
            AttrText("type", f.kind) + (AttrText("text", TitleOf(f)) + (AttrText("title", TitleOf(f))
            + (AttrText("xmlUrl", f.url) + if f.htmlUrl.Some? then AttrText("htmlUrl", f.htmlUrl.value) else "")))
  {
    hide AttrText;
    var attrs := FeedAttrs(f);
    var tail := attrs[1..][1..][1..][1..];
    if f.htmlUrl.Some? {
      assert tail == [Attr("htmlUrl", f.htmlUrl.value)];
      assert AttrsText(tail) == AttrText("htmlUrl", f.htmlUrl.value) + "";
    } else {
      assert tail == [];
    }
    assert AttrsText(attrs[1..][1..][1..]) == AttrText("xmlUrl", f.url) + AttrsText(tail);
    assert AttrsText(attrs[1..][1..]) == AttrText("title", TitleOf(f)) + AttrsText(attrs[1..][1..][1..]);
    assert AttrsText(attrs[1..]) == AttrText("text", TitleOf(f)) + AttrsText(attrs[1..][1..]);
  }

  lemma FeedLine(feeds: seq<Feed>, j: nat, rest: string, line: string)
    requires j < |feeds|
    requires var f := feeds[j];
             line == "      <outline" + AttrText("type", f.kind) + AttrText("text", TitleOf(f)) + AttrText("title", TitleOf(f))
                     + AttrText("xmlUrl", f.url) + (if f.htmlUrl.Some? then AttrText("htmlUrl", f.htmlUrl.value) else "")
                     + "/>\n"
    ensures FeedsThen(feeds[j..], rest) == line + FeedsThen(feeds[j + 1..], rest)
  {
    var f, after := feeds[j], FeedsThen(feeds[j + 1..], rest);
    assert feeds[j..][1..] == feeds[j + 1..];
    assert FeedsThen(feeds[j..], rest) == "      " + StartThen("outline", FeedAttrs(f), "/>" + ("\n" + after));
    FeedAttrsText(f);
    hide StartThen, AttrsText, FeedsThen, AttrText, FeedAttrs;
    OutlineLine("      ", FeedAttrs(f), "/>", after);
    assert "      " + "<outline" == "      <outline" && "/>" + "\n" == "/>\n";
    Regroup6("      <outline", AttrText("type", f.kind), AttrText("text", TitleOf(f)), AttrText("title", TitleOf(f)),
             AttrText("xmlUrl", f.url), if f.htmlUrl.Some? then AttrText("htmlUrl", f.htmlUrl.value) else "");
  }

  lemma Regroup6(a: string, b: string, c: string, d: string, e: string, f: string)
    ensures a + (b + (c + (d + (e + f)))) == a + b + c + d + e + f
  {
    Regroup3(a, b, c + (d + (e + f)));
    Regroup3(a + b, c, d + (e + f));
    Regroup3(a + b + c, d, e + f);
  }

  lemma GroupEnds(feeds: seq<Feed>, after: string)
    ensures FeedsThen(feeds[|feeds|..], EndOfGroup(after)) == "    </outline>\n" + after
  {
    assert "    " + "</outline>" + "\n" == "    </outline>\n";
    Regroup3("    ", "</outline>", "\n" + after);
    Regroup3("    " + "</outline>", "\n", after);
  }

  lemma DocumentEnds(groups: seq<Group>)
    ensures GroupsThen(groups[|groups|..], AFTER_GROUPS) == "  </body>\n</opml>\n"
  {
  }

  lemma BodyIs(groups: seq<Group>)
    ensures BodyThen(groups) == "<body>" + "\n" + GroupsThen(groups, AFTER_GROUPS)
  {
    hide GroupsThen;
    var x := GroupsThen(groups, AFTER_GROUPS);
    StartOf("body", ">" + ("\n" + x));
    hide StartThen;
    assert "<" + "body" + ">" == "<body>";
    Regroup3("<" + "body", ">", "\n" + x);
    Regroup3("<body>", "\n", x);
  }

  lemma StartOf(name: string, rest: string)
    ensures StartThen(name, [], rest) == "<" + name + rest
  {
    StartIs(name, [], rest);
    assert AttrsText([]) == "";
  }

  lemma HeadIs(owner: string, rest: string)
    ensures HeadThen(owner, rest) ==
            "<head>" + ("\n" + "    ") + "<title>" + "Digestly subscriptions - " + Esc(owner) + "</title>"
            + ("\n" + "  ") + "</head>" + rest
  {
    var text := "Digestly subscriptions - " + Esc(owner) + ("</title>" + ("\n  " + ("</head>" + rest)));
    StartOf("title", ">" + text);
    StartOf("head", ">" + ("\n    " + StartThen("title", [], ">" + text)));
    hide StartThen, Esc;
    assert "<" + "head" + ">" == "<head>" && "<" + "title" + ">" == "<title>";
    assert "\n" + "    " == "\n    " && "\n" + "  " == "\n  ";
    HeadShape("<" + "head", ">", "\n    ", "<" + "title", "Digestly subscriptions - ", Esc(owner),
              "</title>", "\n  ", "</head>", rest);
  }

  lemma HeadShape(a: string, b: string, c: string, d: string, f: string, e: string, g: string, h: string, k: string, r: string)
    ensures a + (b + (c + (d + (b + (f + e + (g + (h + (k + r)))))))) == (a + b) + c + (d + b) + f + e + g + h + k + r
  {
    var x := f + e + (g + (h + (k + r)));
    Regroup6(a, b, c, d, b, x);
    var front := a + b + c + (d + b);
    Regroup3(a + b + c, d, b);
    Regroup3(front, f + e, g + (h + (k + r)));
    Regroup3(front, f, e);
    Regroup3(front + f + e, g, h + (k + r));
    Regroup3(front + f + e + g, h, k + r);
    Regroup3(front + f + e + g + h, k, r);
  }

  /** What is written before the groups starts the document. */
  lemma Prologue(owner: string, groups: seq<Group>)
    ensures DECLARATION + "\n" + ("<opml" + AttrText("version", "2.0") + ">" + "\n" + "  " + "<head>" + "\n")
            + ("    " + "<title>" + "Digestly subscriptions - " + Esc(owner) + "</title>" + "\n")
            + ("  " + "</head>" + "\n" + "  " + "<body>" + "\n")
            + GroupsThen(groups[0..], AFTER_GROUPS) == Document(owner, groups)
  {
    var x := GroupsThen(groups, AFTER_GROUPS);
    assert groups[0..] == groups;
    hide GroupsThen, Esc, AttrText, BodyThen, HeadThen;
    BodyIs(groups);
    HeadIs(owner, "\n  " + BodyThen(groups));
    OpmlStart(">" + ("\n  " + HeadThen(owner, "\n  " + BodyThen(groups))));
    hide StartThen;
    assert "\n" + "  " == "\n  ";
    PrologueShape(DECLARATION, "\n", "<opml" + AttrText("version", "2.0"), ">", "  ", "    ", "<head>", "<title>",
                  "Digestly subscriptions - ", Esc(owner), "</title>", "</head>", "<body>", x);
  }

  lemma OpmlStart(rest: string)
    ensures StartThen("opml", [Attr("version", "2.0")], rest) == "<opml" + AttrText("version", "2.0") + rest
  {
    hide AttrText, StartThen;
    var attrs := [Attr("version", "2.0")];
    StartIs("opml", attrs, rest);
    assert AttrsText(attrs[1..]) == "";
    assert AttrsText(attrs) == AttrText("version", "2.0") + "";
    assert "<" + "opml" == "<opml";
  }

  lemma PrologueShape(d: string, n: string, o: string, gt: string, i2: string, i4: string, hd: string, tl: string,
                      p: string, e: string, ct: string, ch: string, bd: string, x: string)
    ensures d + (n + (o + (gt + ((n + i2) + (hd + (n + i4) + tl + p + e + ct + (n + i2) + ch
                                             + ((n + i2) + (bd + n + x))))))) ==
            d + n + (o + gt + n + i2 + hd + n) + (i4 + tl + p + e + ct + n) + (i2 + ch + n + i2 + bd + n) + x
  {
    var title, last := i4 + tl + p + e + ct + n, i2 + ch + n + i2 + bd + n;
    HeadLines(n, i2, i4, hd, tl, p, e, ct, ch);
    LastLines(hd + n + title, n, i2, ch, bd, x);
    FirstLines(o, gt, n, i2, hd, title + last + x);
    Regroup3(hd + n, title, last + x);
    Regroup3(title, last, x);
    var first := o + gt + n + i2 + hd + n;
    Regroup3(d, n, first + (title + last + x));
    Regroup3(d + n, first, title + last + x);
    Regroup3(d + n + first, title + last, x);
    Regroup3(d + n + first, title, last);
    Regroup3(hd + n + title, last, x);
    Regroup3(hd + n, title, last);
    Regroup3(hd + n, title + last, x);
  }

  lemma HeadLines(n: string, i2: string, i4: string, hd: string, tl: string, p: string, e: string, ct: string, ch: string)
    ensures hd + (n + i4) + tl + p + e + ct + (n + i2) + ch == hd + n + (i4 + tl + p + e + ct + n) + (i2 + ch)
  {
    var mid := tl + p + e + ct;
    Regroup6(hd + (n + i4), tl, p, e, ct, "");
    Regroup6(i4, tl, p, e, ct, "");
    Regroup3(hd, n, i4);
    assert hd + (n + i4) + tl + p + e + ct == hd + n + (i4 + tl + p + e + ct);
  }

  lemma LastLines(head: string, n: string, i2: string, ch: string, bd: string, x: string)
    ensures head + (i2 + ch) + ((n + i2) + (bd + n + x)) == head + (i2 + ch + n + i2 + bd + n) + x
  {
  }

  lemma FirstLines(o: string, gt: string, n: string, i2: string, hd: string, x: string)
    ensures o + (gt + ((n + i2) + (hd + n + x))) == o + gt + n + i2 + hd + n + x
  {
    Regroup3(n, i2, hd + n + x);
    Regroup6(o, gt, n, i2, hd + n, x);
    Regroup3(o + gt + n + i2, hd, n);
  }
}
