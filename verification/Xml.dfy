/** The part of XML 1.0 that backend/src/opml.rs writes and reads back: elements, double-quoted
    attributes, the predefined entities (section 4.6) and attribute-value normalisation (section
    3.3.3). Text between elements is checked for legal characters and otherwise skipped. */
module Xml {
  import opened Text

  datatype Attr = Attr(name: string, value: string)

  datatype Node = Node(name: string, attrs: seq<Attr>, children: seq<Node>)

  /** Production `Char`. */
  predicate IsChar(c: char) {
    var n := c as int;
    n == 0x9 || n == 0xA || n == 0xD || 0x20 <= n <= 0xD7FF || 0xE000 <= n <= 0xFFFD || 0x10000 <= n
  }

  predicate Legal(s: string) {
    forall i :: 0 <= i < |s| ==> IsChar(s[i])
  }

  predicate IsSpace(c: char) {
    c == ' ' || c == '\t' || c == '\n' || c == '\r'
  }

  predicate IsNameChar(c: char) {
    'a' <= c <= 'z' || 'A' <= c <= 'Z' || '0' <= c <= '9' || c == '-' || c == '_' || c == ':' || c == '.'
  }

  // ------------------------------------------------------------ escaping

  /** `s.replace(c, with)`. */
  function Replace(s: string, c: char, with: string): string {
    if s == "" then "" else (if s[0] == c then with else [s[0]]) + Replace(s[1..], c, with)
  }

  /** `esc`: five replacements, the ampersand first. */
  function Esc(s: string): string {
    Replace(Replace(Replace(Replace(Replace(s, '&', "&amp;"), '<', "&lt;"), '>', "&gt;"), '"', "&quot;"), '\'', "&apos;")
  }

  function EscChar(c: char): string {
    if c == '&' then "&amp;"
    else if c == '<' then "&lt;"
    else if c == '>' then "&gt;"
    else if c == '"' then "&quot;"
    else if c == '\'' then "&apos;"
    else [c]
  }

  function EscChars(s: string): string {
    if s == "" then "" else EscChar(s[0]) + EscChars(s[1..])
  }

  lemma {:induction false} ReplaceAppend(a: string, b: string, c: char, with: string)
    ensures Replace(a + b, c, with) == Replace(a, c, with) + Replace(b, c, with)
  {
    if a == "" {
      assert a + b == b;
    } else {
      assert (a + b)[1..] == a[1..] + b;
      ReplaceAppend(a[1..], b, c, with);
    }
  }

  lemma {:induction false} ReplaceAbsent(s: string, c: char, with: string)
    requires c !in s
    ensures Replace(s, c, with) == s
  {
    if s == "" {
    } else {
      ReplaceAbsent(s[1..], c, with);
    }
  }

  lemma EscAppend(a: string, b: string)
    ensures Esc(a + b) == Esc(a) + Esc(b)
  {
    hide Replace;
    ReplaceAppend(a, b, '&', "&amp;");
    var a1, b1 := Replace(a, '&', "&amp;"), Replace(b, '&', "&amp;");
    ReplaceAppend(a1, b1, '<', "&lt;");
    var a2, b2 := Replace(a1, '<', "&lt;"), Replace(b1, '<', "&lt;");
    ReplaceAppend(a2, b2, '>', "&gt;");
    var a3, b3 := Replace(a2, '>', "&gt;"), Replace(b2, '>', "&gt;");
    ReplaceAppend(a3, b3, '"', "&quot;");
    ReplaceAppend(Replace(a3, '"', "&quot;"), Replace(b3, '"', "&quot;"), '\'', "&apos;");
  }

  lemma ReplaceOne(d: char, c: char, with: string)
    ensures Replace([d], c, with) == if d == c then with else [d]
  {
    assert [d][1..] == "";
  }

  lemma EscOne(c: char)
    ensures Esc([c]) == EscChar(c)
  {
    hide Replace;
    ReplaceOne(c, '&', "&amp;");
    ReplaceOne(c, '<', "&lt;");
    ReplaceOne(c, '>', "&gt;");
    ReplaceOne(c, '"', "&quot;");
    ReplaceOne(c, '\'', "&apos;");
    var e := EscChar(c);
    if c == '&' {
      ReplaceAbsent(e, '<', "&lt;");
      ReplaceAbsent(e, '>', "&gt;");
    }
    if c == '<' { ReplaceAbsent(e, '>', "&gt;"); }
    if c == '&' || c == '<' || c == '>' { ReplaceAbsent(e, '"', "&quot;"); }
    if c == '&' || c == '<' || c == '>' || c == '"' { ReplaceAbsent(e, '\'', "&apos;"); }
  }

  /** The five sequential replacements are one replacement per character: none touches what an
      earlier one produced. */
  lemma {:induction false} EscIsPerChar(s: string)
    ensures Esc(s) == EscChars(s)
  {
    hide Esc;
    if s == "" {
      EscNothing();
    } else {
      EscIsPerChar(s[1..]);
      EscOne(s[0]);
      EscAppend([s[0]], s[1..]);
      assert [s[0]] + s[1..] == s;
    }
  }

  lemma EscNothing()
    ensures Esc("") == ""
  {
  }

  // ------------------------------------------------------------ reading

  function Strip(s: string, lit: string): Option<string> {
    if |s| >= |lit| && s[..|lit|] == lit then Some(s[|lit|..]) else None
  }

  lemma StripAppend(lit: string, rest: string)
    ensures Strip(lit + rest, lit) == Some(rest)
  {
    assert (lit + rest)[..|lit|] == lit;
  }

  datatype Read<+T> = Read(value: T, rest: string)

  /** A reference to a predefined entity, and what follows it. */
  function Reference(s: string): (r: Option<Read<char>>)
    ensures r.Some? ==> |r.value.rest| < |s|
  {
    if Strip(s, "&amp;").Some? then Some(Read('&', s[5..]))
    else if Strip(s, "&lt;").Some? then Some(Read('<', s[4..]))
    else if Strip(s, "&gt;").Some? then Some(Read('>', s[4..]))
    else if Strip(s, "&quot;").Some? then Some(Read('"', s[6..]))
    else if Strip(s, "&apos;").Some? then Some(Read('\'', s[6..]))
    else None
  }

  function Prepend(c: char, r: Option<Read<string>>): Option<Read<string>> {
    if r.None? then None else Some(Read([c] + r.value.value, r.value.rest))
  }

  /** An attribute value up to its closing quote. Every line end and tab becomes one space. */
  function ReadValue(s: string): (r: Option<Read<string>>)
    ensures r.Some? ==> |r.value.rest| < |s|
    decreases |s|
  {
    if s == "" || s[0] == '<' || !IsChar(s[0]) then None
    else if s[0] == '"' then Some(Read("", s[1..]))
    else if s[0] == '&' then
      match Reference(s)
      case None => None
      case Some(found) => Prepend(found.value, ReadValue(found.rest))
    else if s[0] == '\r' && |s| > 1 && s[1] == '\n' then Prepend(' ', ReadValue(s[2..]))
    else if IsSpace(s[0]) then Prepend(' ', ReadValue(s[1..]))
    else Prepend(s[0], ReadValue(s[1..]))
  }

  function SkipSpace(s: string): (r: string)
    ensures |r| <= |s|
  {
    if s != "" && IsSpace(s[0]) then SkipSpace(s[1..]) else s
  }

  function ReadName(s: string): (r: Read<string>)
    ensures |r.value| + |r.rest| == |s|
  {
    if s != "" && IsNameChar(s[0]) then
      var r := ReadName(s[1..]);
      Read([s[0]] + r.value, r.rest)
    else Read("", s)
  }

  /** Attributes, each after white space, up to what cannot start one. */
  function ReadAttrs(s: string): (r: Option<Read<seq<Attr>>>)
    ensures r.Some? ==> |r.value.rest| <= |s|
    decreases |s|
  {
    var start := SkipSpace(s);
    var name := ReadName(start);
    if |start| == |s| || name.value == "" then Some(Read([], start))
    else
      match Strip(name.rest, "=\"")
      case None => None
      case Some(quoted) =>
        match ReadValue(quoted)
        case None => None
        case Some(value) =>
          match ReadAttrs(value.rest)
          case None => None
          case Some(more) => Some(Read([Attr(name.value, value.value)] + more.value, more.rest))
  }

  /** Text up to the next tag. */
  function SkipText(s: string): (r: Option<string>)
    ensures r.Some? ==> |r.value| <= |s|
  {
    if s == "" || s[0] == '<' then Some(s)
    else if !IsChar(s[0]) then None
    else SkipText(s[1..])
  }

  function ReadElement(s: string): (r: Option<Read<Node>>)
    ensures r.Some? ==> |r.value.rest| < |s|
    decreases |s|, 0
  {
    if Strip(s, "<").None? then None
    else
      var name := ReadName(s[1..]);
      if name.value == "" || ReadAttrs(name.rest).None? then None
      else
        var attrs := ReadAttrs(name.rest).value;
        if Strip(attrs.rest, "/>").Some? then Some(Read(Node(name.value, attrs.value, []), attrs.rest[2..]))
        else if Strip(attrs.rest, ">").None? then None
        else
          match ReadContent(attrs.rest[1..])
          case None => None
          case Some(content) =>
            match Strip(content.rest, "</" + name.value + ">")
            case None => None
            case Some(rest) => Some(Read(Node(name.value, attrs.value, content.value), rest))
  }

  /** The child elements up to the closing tag. */
  function ReadContent(s: string): (r: Option<Read<seq<Node>>>)
    ensures r.Some? ==> |r.value.rest| <= |s|
    decreases |s|, 1
  {
    match SkipText(s)
    case None => None
    case Some(tag) =>
      if Strip(tag, "</").Some? then Some(Read([], tag))
      else
        match ReadElement(tag)
        case None => None
        case Some(child) =>
          match ReadContent(child.rest)
          case None => None
          case Some(more) => Some(Read([child.value] + more.value, more.rest))
  }

  /** A document: a declaration, one element, and nothing but white space around it. */
  function ReadDocument(s: string): Option<Node> {
    match Strip(s, "<?xml version=\"1.0\" encoding=\"UTF-8\"?>")
    case None => None
    case Some(body) =>
      match ReadElement(SkipSpace(body))
      case None => None
      case Some(root) => if SkipSpace(root.rest) == "" then Some(root.value) else None
  }

  // ------------------------------------------------------------ reading what was written

  /** What an attribute value becomes: line ends and tabs are spaces. */
  function Normalized(v: string): string
    decreases |v|
  {
    if v == "" then ""
    else if v[0] == '\r' && |v| > 1 && v[1] == '\n' then " " + Normalized(v[2..])
    else (if IsSpace(v[0]) then " " else [v[0]]) + Normalized(v[1..])
  }

  predicate OneLine(v: string) {
    '\t' !in v && '\n' !in v && '\r' !in v
  }

  lemma {:induction false} NormalizedIsOneLine(v: string)
    ensures OneLine(Normalized(v))
    ensures OneLine(v) ==> Normalized(v) == v
    decreases |v|
  {
    if v == "" {
    } else {
      if v[0] == '\r' && |v| > 1 && v[1] == '\n' {
        NormalizedIsOneLine(v[2..]);
      } else {
        NormalizedIsOneLine(v[1..]);
      }
    }
  }

  lemma ReferenceReads(c: char, rest: string)
    requires Special(c)
    ensures Reference(EscChar(c) + rest) == Some(Read(c, rest))
  {
    var s := EscChar(c) + rest;
    assert s[0] == '&';
    assert s[1] == EscChar(c)[1] && s[2] == EscChar(c)[2];
    assert s[|EscChar(c)|..] == rest;
    StripAppend(EscChar(c), rest);
  }

  predicate Special(c: char) {
    c == '&' || c == '<' || c == '>' || c == '"' || c == '\''
  }

  lemma ReadsReference(c: char, tail: string)
    requires Special(c)
    ensures ReadValue(EscChar(c) + tail) == Prepend(c, ReadValue(tail))
  {
    ReferenceReads(c, tail);
    assert (EscChar(c) + tail)[0] == '&';
  }

  lemma ReadsPlain(s: string)
    requires s != "" && IsChar(s[0]) && !Special(s[0])
    ensures if s[0] == '\r' && |s| > 1 && s[1] == '\n' then ReadValue(s) == Prepend(' ', ReadValue(s[2..]))
            else ReadValue(s) == Prepend(if IsSpace(s[0]) then ' ' else s[0], ReadValue(s[1..]))
  {
  }

  /** `EscChars(v)`, its closing quote and what follows. */
  function Quoted(v: string, rest: string): (s: string)
    ensures s != ""
    ensures s[0] == if v == "" then '"' else EscChar(v[0])[0]
  {
    if v == "" then ['"'] + rest else EscChar(v[0]) + Quoted(v[1..], rest)
  }

  lemma {:induction false} QuotedIs(v: string, rest: string)
    ensures Quoted(v, rest) == EscChars(v) + "\"" + rest
  {
    if v == "" {
    } else {
      QuotedIs(v[1..], rest);
      hide Quoted;
      Regroup(EscChar(v[0]), EscChars(v[1..]), "\"", rest);
    }
  }

  lemma Regroup(a: string, b: string, c: string, d: string)
    ensures a + (b + c + d) == a + b + c + d
  {
  }

  lemma ReadsQuotedPlain(v: string, rest: string)
    requires v != "" && IsChar(v[0]) && !Special(v[0])
    ensures if v[0] == '\r' && |v| > 1 && v[1] == '\n'
            then ReadValue(Quoted(v, rest)) == Prepend(' ', ReadValue(Quoted(v[2..], rest)))
            else ReadValue(Quoted(v, rest)) == Prepend(if IsSpace(v[0]) then ' ' else v[0], ReadValue(Quoted(v[1..], rest)))
  {
    var s, tail := Quoted(v, rest), Quoted(v[1..], rest);
    assert s == [v[0]] + tail && s[1..] == tail && s[1] == tail[0];
    if |v| > 1 {
      assert v[1..][1..] == v[2..];
      assert tail[0] == '\n' <==> v[1] == '\n';
      if v[1] == '\n' {
        assert s[2..] == tail[1..] == Quoted(v[2..], rest);
      }
    }
    ReadsPlain(s);
  }

  lemma ReadsEnd(rest: string)
    ensures ReadValue(Quoted("", rest)) == Some(Read("", rest))
  {
    assert (['"'] + rest)[1..] == rest;
  }

  /** An escaped value, closed by a quote, is read back normalised. */
  lemma {:induction false} ValueReads(v: string, rest: string)
    requires Legal(v)
    ensures ReadValue(Quoted(v, rest)) == Some(Read(Normalized(v), rest))
    decreases |v|
  {
    hide ReadValue;
    if v == "" {
      ReadsEnd(rest);
    } else {
      ValueReads(v[1..], rest);
      if Special(v[0]) {
        ReadsReference(v[0], Quoted(v[1..], rest));
      } else {
        ReadsQuotedPlain(v, rest);
        if |v| > 1 {
          ValueReads(v[2..], rest);
        }
      }
    }
  }

  /** Among legal values, exactly those without tabs and line ends survive the attribute. */
  lemma ValueRoundTrip(v: string, rest: string)
    requires Legal(v)
    ensures ReadValue(Esc(v) + "\"" + rest) == Some(Read(v, rest)) <==> OneLine(v)
  {
    hide ReadValue, Esc;
    EscIsPerChar(v);
    QuotedIs(v, rest);
    ValueReads(v, rest);
    NormalizedIsOneLine(v);
  }

  predicate IsName(s: string) {
    s != "" && forall i :: 0 <= i < |s| ==> IsNameChar(s[i])
  }

  lemma {:induction false} NameReads(name: string, rest: string)
    requires forall i :: 0 <= i < |name| ==> IsNameChar(name[i])
    requires rest == "" || !IsNameChar(rest[0])
    ensures ReadName(name + rest) == Read(name, rest)
  {
    hide IsNameChar;
    if name == "" {
      assert name + rest == rest;
    } else {
      assert (name + rest)[1..] == name[1..] + rest;
      NameReads(name[1..], rest);
      assert [name[0]] + name[1..] == name;
    }
  }

  /** Attributes as they are written: each after a space, its value escaped and quoted. */
  function AttrsThen(attrs: seq<Attr>, rest: string): string {
    if attrs == [] then rest
    else " " + (attrs[0].name + ("=\"" + Quoted(attrs[0].value, AttrsThen(attrs[1..], rest))))
  }

  predicate Named(attrs: seq<Attr>) {
    forall i :: 0 <= i < |attrs| ==> IsName(attrs[i].name)
  }

  /** Attributes a document may hold. */
  predicate Writable(attrs: seq<Attr>) {
    Named(attrs) && forall i :: 0 <= i < |attrs| ==> Legal(attrs[i].value)
  }

  /** Attributes as they come back. */
  function NormalizedAll(attrs: seq<Attr>): seq<Attr> {
    if attrs == [] then [] else [Attr(attrs[0].name, Normalized(attrs[0].value))] + NormalizedAll(attrs[1..])
  }

  lemma {:induction false} AttrsRead(attrs: seq<Attr>, rest: string)
    requires Writable(attrs) && rest != "" && (rest[0] == '/' || rest[0] == '>')
    ensures ReadAttrs(AttrsThen(attrs, rest)) == Some(Read(NormalizedAll(attrs), rest))
  {
    if attrs == [] {
    } else {
      var a, tail := attrs[0], AttrsThen(attrs[1..], rest);
      AttrsRead(attrs[1..], rest);
      hide ReadAttrs, AttrsThen, ReadValue, Quoted, Normalized;
      AttrReads(a, tail);
      AttrsStep(attrs, rest);
    }
  }

  lemma AttrsStep(attrs: seq<Attr>, rest: string)
    requires attrs != []
    ensures AttrsThen(attrs, rest) ==
            " " + (attrs[0].name + ("=\"" + Quoted(attrs[0].value, AttrsThen(attrs[1..], rest))))
  {
  }

  lemma AttrReads(a: Attr, tail: string)
    requires IsName(a.name) && Legal(a.value) && ReadAttrs(tail).Some?
    ensures ReadAttrs(" " + (a.name + ("=\"" + Quoted(a.value, tail)))) ==
            Some(Read([Attr(a.name, Normalized(a.value))] + ReadAttrs(tail).value.value, ReadAttrs(tail).value.rest))
  {
    hide ReadValue, Quoted, Normalized;
    var quoted := "=\"" + Quoted(a.value, tail);
    var named := a.name + quoted;
    var s := " " + named;
    NameReads(a.name, quoted);
    StripAppend("=\"", Quoted(a.value, tail));
    ValueReads(a.value, tail);
    SpaceSkipped(named) by { assert IsNameChar(named[0]); }
  }

  lemma SpaceSkipped(s: string)
    requires s != "" && IsNameChar(s[0])
    ensures SkipSpace(" " + s) == s
  {
    assert (" " + s)[1..] == s;
  }

  lemma {:induction false} TextSkipped(text: string, rest: string)
    requires Legal(text) && '<' !in text && (rest == "" || rest[0] == '<')
    ensures SkipText(text + rest) == Some(rest)
  {
    if text == "" {
      assert text + rest == rest;
    } else {
      assert (text + rest)[1..] == text[1..] + rest;
      TextSkipped(text[1..], rest);
    }
  }

  /** The start of an element up to where its attributes end. */
  function StartThen(name: string, attrs: seq<Attr>, rest: string): string {
    "<" + (name + AttrsThen(attrs, rest))
  }

  lemma StartReads(name: string, attrs: seq<Attr>, rest: string)
    requires IsName(name) && Writable(attrs) && rest != "" && (rest[0] == '/' || rest[0] == '>')
    ensures var s := StartThen(name, attrs, rest);
            && Strip(s, "<").Some? && ReadName(s[1..]).value == name
            && ReadAttrs(ReadName(s[1..]).rest) == Some(Read(NormalizedAll(attrs), rest))
            && Strip(s, "</").None? && s[0] == '<'
  {
    hide ReadAttrs, Writable;
    var tail := AttrsThen(attrs, rest);
    AttrsStart(attrs, rest);
    hide AttrsThen;
    NameReads(name, tail);
    var s := "<" + (name + tail);
    assert s[1..] == name + tail;
    assert IsNameChar(s[1]);
    assert s[..1] == "<";
    assert s[..2][1] == s[1];
    AttrsRead(attrs, rest);
  }

  lemma AttrsStart(attrs: seq<Attr>, rest: string)
    requires rest != "" && !IsNameChar(rest[0])
    ensures AttrsThen(attrs, rest) != "" && !IsNameChar(AttrsThen(attrs, rest)[0])
  {
    hide Quoted;
  }

  /** A self-closing element is read back, its attributes normalised. */
  lemma LeafReads(name: string, attrs: seq<Attr>, rest: string)
    requires IsName(name) && Writable(attrs)
    ensures ReadElement(StartThen(name, attrs, "/>" + rest)) == Some(Read(Node(name, NormalizedAll(attrs), []), rest))
  {
    hide ReadAttrs, ReadName, StartThen, Writable;
    StartReads(name, attrs, "/>" + rest);
    StripAppend("/>", rest);
  }

  /** An element with content is read back if its content is. */
  lemma OpenReads(name: string, attrs: seq<Attr>, inside: string, children: seq<Node>, rest: string)
    requires IsName(name) && Writable(attrs)
    requires ReadContent(inside) == Some(Read(children, "</" + name + ">" + rest))
    ensures ReadElement(StartThen(name, attrs, ">" + inside)) == Some(Read(Node(name, NormalizedAll(attrs), children), rest))
  {
    hide ReadAttrs, ReadName, StartThen, ReadContent, Writable;
    StartReads(name, attrs, ">" + inside);
    StripAppend(">", inside);
    StripAppend("</" + name + ">", rest);
  }

  /** One child after some text. */
  lemma ChildReads(text: string, s: string, child: Read<Node>, more: Read<seq<Node>>)
    requires Legal(text) && '<' !in text && s != "" && s[0] == '<' && Strip(s, "</").None?
    requires ReadElement(s) == Some(child) && ReadContent(child.rest) == Some(more)
    ensures ReadContent(text + s) == Some(Read([child.value] + more.value, more.rest))
  {
    hide ReadElement;
    TextSkipped(text, s);
  }

  lemma ContentEnds(text: string, rest: string)
    requires Legal(text) && '<' !in text && Strip(rest, "</").Some?
    ensures ReadContent(text + rest) == Some(Read([], rest))
  {
    hide ReadElement;
    assert rest[0] == rest[..2][0] == '<';
    TextSkipped(text, rest);
  }

  /** Escaped text holds no markup and no illegal character that was not there before. */
  lemma {:induction false} EscapedText(s: string)
    requires Legal(s)
    ensures Legal(Esc(s)) && '<' !in Esc(s)
  {
    hide Esc;
    EscIsPerChar(s);
    if s == "" {
    } else {
      EscapedText(s[1..]);
      EscIsPerChar(s[1..]);
      assert Legal(EscChar(s[0])) && '<' !in EscChar(s[0]);
    }
  }

  // ------------------------------------------------------------ one illegal character spoils it

  lemma {:induction false} ValueFails(v: string, rest: string)
    requires !Legal(v)
    ensures ReadValue(Quoted(v, rest)) == None
    decreases |v|
  {
    hide ReadValue;
    if !IsChar(v[0]) {
      IllegalHead(v, rest);
    } else {
      assert !Legal(v[1..]) by { TailIllegal(v); }
      if Special(v[0]) {
        ValueFails(v[1..], rest);
        ReadsReference(v[0], Quoted(v[1..], rest));
      } else {
        ReadsQuotedPlain(v, rest);
        if v[0] == '\r' && v[1] == '\n' {
          assert v[1..][1..] == v[2..];
          TailIllegal(v[1..]);
          ValueFails(v[2..], rest);
        } else {
          ValueFails(v[1..], rest);
        }
      }
    }
  }

  lemma TailIllegal(v: string)
    requires !Legal(v) && IsChar(v[0])
    ensures |v| > 1 && !Legal(v[1..])
  {
    var i :| 0 <= i < |v| && !IsChar(v[i]);
    assert v[1..][i - 1] == v[i];
  }

  lemma IllegalHead(v: string, rest: string)
    requires v != "" && !IsChar(v[0])
    ensures ReadValue(Quoted(v, rest)) == None
  {
    assert EscChar(v[0]) == [v[0]];
  }

  lemma AttrFails(a: Attr, tail: string)
    requires IsName(a.name) && (Legal(a.value) ==> ReadAttrs(tail).None?)
    ensures ReadAttrs(" " + (a.name + ("=\"" + Quoted(a.value, tail)))) == None
  {
    hide ReadValue, Quoted, Normalized, Legal;
    var quoted := "=\"" + Quoted(a.value, tail);
    var named := a.name + quoted;
    NameReads(a.name, quoted);
    StripAppend("=\"", Quoted(a.value, tail));
    if Legal(a.value) { ValueReads(a.value, tail); } else { ValueFails(a.value, tail); }
    SpaceSkipped(named) by { assert IsNameChar(named[0]); }
  }

  lemma {:induction false} AttrsFail(attrs: seq<Attr>, rest: string)
    requires Named(attrs) && !Writable(attrs)
    ensures ReadAttrs(AttrsThen(attrs, rest)) == None
  {
    hide ReadAttrs, AttrsThen, IsName, Legal;
    if Legal(attrs[0].value) {
      var i :| 0 <= i < |attrs| && !Legal(attrs[i].value);
      assert attrs[1..][i - 1] == attrs[i];
      AttrsFail(attrs[1..], rest);
    }
    AttrFails(attrs[0], AttrsThen(attrs[1..], rest));
    AttrsStep(attrs, rest);
  }

  /** An element with an illegal attribute value is no element. */
  lemma StartFails(name: string, attrs: seq<Attr>, rest: string)
    requires IsName(name) && Named(attrs) && !Writable(attrs)
    ensures ReadElement(StartThen(name, attrs, rest)) == None
  {
    AttrsFail(attrs, rest);
    AttrsStep(attrs, rest);
    hide ReadAttrs, ReadContent, AttrsThen, Quoted, Writable, Named;
    var tail := AttrsThen(attrs, rest);
    assert tail[0] == ' ';
    NameReads(name, tail);
    assert ("<" + (name + tail))[1..] == name + tail;
    hide ReadName;
    assert name != "";
  }

  lemma OpenFails(name: string, attrs: seq<Attr>, inside: string)
    requires IsName(name) && Writable(attrs) && ReadContent(inside) == None
    ensures ReadElement(StartThen(name, attrs, ">" + inside)) == None
  {
    hide ReadAttrs, ReadName, StartThen, ReadContent, Writable;
    StartReads(name, attrs, ">" + inside);
    StripAppend(">", inside);
    assert (">" + inside)[0] == '>';
    NotSelfClosing(">" + inside);
  }

  lemma NotSelfClosing(s: string)
    requires s != "" && s[0] == '>'
    ensures Strip(s, "/>") == None
  {
    assert |s| >= 2 ==> s[..2][0] == s[0];
  }

  /** Content fails with its first child, or with what follows it. */
  lemma ContentFails(text: string, s: string)
    requires Legal(text) && '<' !in text && s != "" && s[0] == '<' && Strip(s, "</").None?
    requires ReadElement(s).None? || ReadContent(ReadElement(s).value.rest).None?
    ensures ReadContent(text + s) == None
  {
    hide ReadElement;
    TextSkipped(text, s);
  }

  lemma {:induction false} TextFails(text: string, rest: string)
    requires !Legal(text) && '<' !in text
    ensures SkipText(text + rest) == None
  {
    assert (text + rest)[1..] == text[1..] + rest;
    if IsChar(text[0]) {
      TailIllegal(text);
      TextFails(text[1..], rest);
    }
  }

  lemma {:induction false} EscapedStaysIllegal(s: string)
    requires !Legal(s)
    ensures !Legal(Esc(s)) && '<' !in Esc(s)
  {
    hide Esc;
    EscIsPerChar(s);
    EscIsPerChar(s[1..]);
    var e := EscChars(s);
    if !IsChar(s[0]) {
      assert e[0] == s[0];
      NoMarkup(s);
    } else {
      TailIllegal(s);
      EscapedStaysIllegal(s[1..]);
      var tail := EscChars(s[1..]);
      var i :| 0 <= i < |tail| && !IsChar(tail[i]);
      assert e[|EscChar(s[0])| + i] == tail[i];
      NoMarkup(s);
    }
  }

  lemma {:induction false} NoMarkup(s: string)
    ensures '<' !in EscChars(s)
  {
    if s == "" {
    } else {
      NoMarkup(s[1..]);
      assert '<' !in EscChar(s[0]);
    }
  }
}
