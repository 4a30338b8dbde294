/** backend/src/ai/transcript.rs, lines 299-319: flattening YouTube's timedtext XML. */
module Timedtext {
  import opened Text
  import Entities
  import Paragraphs
  import Transcript

  const OPEN := "<text"
  const CLOSE := "</text>"

  predicate StartsWith(s: string, part: string) {
    |s| >= |part| && s[..|part|] == part
  }

  /** Position of the first occurrence of `part`. */
  function FindText(s: string, part: string): (r: Option<nat>)
    ensures r.Some? ==> r.value + |part| <= |s|
  {
    if StartsWith(s, part) then Some(0)
    else if s == "" then None
    else
      match FindText(s[1..], part)
      case None => None
      case Some(k) => Some(k + 1)
  }

  /** `s.split("<text")`. */
  function Pieces(s: string): (pieces: seq<string>)
    ensures |pieces| >= 1
    decreases |s|
  {
    match FindText(s, OPEN)
    case None => [s]
    case Some(k) => [s[..k]] + Pieces(s[k + |OPEN|..])
  }

  /** The trimmed line of one piece after its opening tag, if there is one. */
  function CueLine(piece: string): (r: Option<string>)
    ensures r.Some? ==> r.value != ""
  {
    match Entities.Find(piece, '>')
    case None => None
    case Some(gt) =>
      var rest := piece[gt + 1..];
      match FindText(rest, CLOSE)
      case None => None
      case Some(end) => if Trim(rest[..end]) == "" then None else Some(Trim(rest[..end]))
  }

  function Lines(pieces: seq<string>): (lines: seq<string>)
    ensures forall i :: 0 <= i < |lines| ==> lines[i] != ""
  {
    if pieces == [] then []
    else
      match CueLine(pieces[0])
      case None => Lines(pieces[1..])
      case Some(line) => [line] + Lines(pieces[1..])
  }

  function Flattened(xml: string): string {
    Transcript.Readable(Join(Lines(Pieces(xml)[1..]), " "))
  }

  method FlattenTimedtext(xml: string) returns (text: string)
    ensures text == Flattened(xml)
  {
    hide Pieces, Transcript.Readable, CueLine, Join;
    var pieces := Pieces(xml)[1..];
    var out := "";
    ghost var lines: seq<string> := [];
    Paragraphs.JoinNothing();
    for i := 0 to |pieces|
      invariant Lines(pieces) == lines + Lines(pieces[i..])
      invariant out == Join(lines, " ") && (out == "" <==> lines == [])
    {
      assert pieces[i..][1..] == pieces[i + 1..];
      var line := CueLine(pieces[i]);
      if line.None? {
        continue;
      }
      Paragraphs.JoinAppend(lines, line.value);
      if out != "" {
        out := out + " ";
      }
      out := out + line.value;
      lines := lines + [line.value];
    }
    assert lines == Lines(pieces);
    text := Transcript.ReadableTranscript(out);
  }

  // ------------------------------------------------------------ documents

  /** One `text` element, up to its closing tag, and what stands between it and the next. */
  datatype Cue = Cue(attributes: string, body: string, after: string)

  predicate At(s: string, i: nat, part: string) {
    i + |part| <= |s| && s[i..i + |part|] == part
  }

  predicate Absent(s: string, part: string) {
    forall i :: 0 <= i < |s| ==> !At(s, i, part)
  }

  /** What the program takes for the text of a cue: everything from the first `>` on, which is the
      body alone unless an attribute holds a `>` of its own. */
  function LineText(c: Cue): string {
    match Entities.Find(c.attributes, '>')
    case None => c.body
    case Some(k) => c.attributes[k + 1..] + (">" + c.body)
  }

  /** No further opening tag in the element or after it, and its closing tag is the first. */
  predicate WellFormed(c: Cue) {
    && Absent(c.attributes, "<text") && Absent(c.body, "<text") && Absent(c.after, "<text")
    && Absent(LineText(c), "</text>")
  }

  function PieceOf(c: Cue): string {
    c.attributes + (">" + (c.body + ("</text>" + c.after)))
  }

  function Document(cues: seq<Cue>): string {
    if cues == [] then "" else "<text" + (PieceOf(cues[0]) + Document(cues[1..]))
  }

  function LineTexts(cues: seq<Cue>): seq<string> {
    if cues == [] then [] else [LineText(cues[0])] + LineTexts(cues[1..])
  }

  /** The first character of `part` does not come again, so two occurrences never overlap. */
  predicate Lone(part: string) {
    part != "" && forall i :: 1 <= i < |part| ==> part[i] != part[0]
  }

  lemma TagsAreLone()
    ensures Lone(OPEN) && Lone(CLOSE)
  {
  }

  lemma AbsentTail(s: string, part: string)
    requires Absent(s, part) && s != "" && part != ""
    ensures Absent(s[1..], part) && !StartsWith(s, part)
  {
    assert !At(s, 0, part);
    forall i | 0 <= i < |s| - 1
      ensures !At(s[1..], i, part)
    {
      assert !At(s, i + 1, part);
      assert i + 1 + |part| <= |s| ==> s[1..][i..i + |part|] == s[i + 1..i + 1 + |part|];
    }
  }

  lemma {:induction false} FindNothing(a: string, part: string)
    requires Absent(a, part) && part != ""
    ensures FindText(a, part) == None
  {
    if a == "" {
    } else {
      AbsentTail(a, part);
      FindNothing(a[1..], part);
    }
  }

  /** The first occurrence after text without one. */
  lemma {:induction false} FindAfter(a: string, part: string, rest: string)
    requires Absent(a, part) && Lone(part)
    ensures FindText(a + (part + rest), part) == Some(|a|)
  {
    var s := a + (part + rest);
    if a == "" {
      assert s == part + rest;
      assert (part + rest)[..|part|] == part;
    } else {
      AbsentTail(a, part);
      assert s[1..] == a[1..] + (part + rest);
      FindAfter(a[1..], part, rest);
      NotAtStart(a, part, rest);
    }
  }

  lemma NotAtStart(a: string, part: string, rest: string)
    requires a != "" && !StartsWith(a, part) && Lone(part)
    ensures !StartsWith(a + (part + rest), part)
  {
    var s := a + (part + rest);
    if |a| >= |part| {
      assert s[..|part|] == a[..|part|];
    } else {
      assert s[|a|] == part[0] != part[|a|];
      assert s[..|part|][|a|] == s[|a|];
    }
  }

  /** Nothing new arises where two texts meet if the second starts with a character that cannot
      continue `part`. */
  lemma AbsentBefore(a: string, b: string, part: string)
    requires Absent(a, part) && Absent(b, part) && part != ""
    requires b != "" && forall k :: 1 <= k < |part| ==> part[k] != b[0]
    ensures Absent(a + b, part)
  {
    var s := a + b;
    forall i | 0 <= i < |s|
      ensures !At(s, i, part)
    {
      if i >= |a| {
        assert !At(b, i - |a|, part);
        assert i + |part| <= |s| ==> s[i..i + |part|] == b[i - |a|..i - |a| + |part|];
      } else if i + |part| <= |a| {
        assert !At(a, i, part);
        assert s[i..i + |part|] == a[i..i + |part|];
      } else if i + |part| <= |s| {
        assert s[i..i + |part|][|a| - i] == s[|a|] == b[0];
      }
    }
  }

  /** Nor if no start of `part` in the first runs out of it. */
  lemma AbsentAfter(a: string, b: string, part: string)
    requires Absent(a, part) && Absent(b, part) && part != ""
    requires forall i :: 0 <= i < |a| && a[i] == part[0] ==> i + |part| <= |a|
    ensures Absent(a + b, part)
  {
    var s := a + b;
    forall i | 0 <= i < |s|
      ensures !At(s, i, part)
    {
      if i >= |a| {
        assert !At(b, i - |a|, part);
        assert i + |part| <= |s| ==> s[i..i + |part|] == b[i - |a|..i - |a| + |part|];
      } else if i + |part| <= |a| {
        assert !At(a, i, part);
        assert s[i..i + |part|] == a[i..i + |part|];
      } else if i + |part| <= |s| {
        assert s[i..i + |part|][0] == s[i] == a[i];
      }
    }
  }

  lemma CloseHoldsNoOpen()
    ensures Absent(CLOSE, OPEN) && Absent(">", OPEN)
    ensures forall i :: 0 <= i < |CLOSE| && CLOSE[i] == OPEN[0] ==> i + |OPEN| <= |CLOSE|
    ensures forall i :: 0 <= i < |">"| ==> ">"[i] != OPEN[0]
    ensures forall k :: 1 <= k < |OPEN| ==> OPEN[k] != '<' && OPEN[k] != '>'
  {
    assert CLOSE[0..0 + |OPEN|][1] == '/' && OPEN[1] == 't';
    forall i | 1 <= i < |CLOSE|
      ensures !At(CLOSE, i, OPEN)
    {
      assert i + |OPEN| <= |CLOSE| ==> CLOSE[i..i + |OPEN|][0] == CLOSE[i] != '<';
    }
  }

  lemma PieceHoldsNoOpen(c: Cue)
    requires WellFormed(c)
    ensures Absent(PieceOf(c), OPEN)
  {
    hide Absent;
    CloseHoldsNoOpen();
    AbsentAfter(CLOSE, c.after, OPEN);
    AbsentBefore(c.body, CLOSE + c.after, OPEN);
    AbsentAfter(">", c.body + (CLOSE + c.after), OPEN);
    AbsentBefore(c.attributes, ">" + (c.body + (CLOSE + c.after)), OPEN);
  }

  lemma {:induction false} PiecesOfDocument(header: string, cues: seq<Cue>)
    requires Absent(header, OPEN) && forall i :: 0 <= i < |cues| ==> WellFormed(cues[i])
    ensures |Pieces(header + Document(cues))| == |cues| + 1 && Pieces(header + Document(cues))[0] == header
    ensures forall i :: 0 <= i < |cues| ==> Pieces(header + Document(cues))[i + 1] == PieceOf(cues[i])
    decreases |cues|
  {
    hide Absent, PieceOf, WellFormed;
    if cues == [] {
      assert header + "" == header;
      FindNothing(header, OPEN);
    } else {
      PieceHoldsNoOpen(cues[0]);
      PiecesOfDocument(PieceOf(cues[0]), cues[1..]);
      var rest := PieceOf(cues[0]) + Document(cues[1..]);
      TagsAreLone();
      FindAfter(header, OPEN, rest);
      var s := header + (OPEN + rest);
      assert s == header + Document(cues);
      assert s[..|header|] == header && s[|header| + |OPEN|..] == rest;
    }
  }

  /** The first `>` of a piece, and what follows it. */
  lemma TextStarts(c: Cue) returns (gt: nat)
    ensures Entities.Find(PieceOf(c), '>') == Some(gt) && gt < |PieceOf(c)|
    ensures PieceOf(c)[gt + 1..] == LineText(c) + (CLOSE + c.after)
  {
    var piece, tail := PieceOf(c), c.body + (CLOSE + c.after);
    match Entities.Find(c.attributes, '>')
    case None =>
      gt := |c.attributes|;
      assert piece[..gt] == c.attributes && piece[gt + 1..] == tail;
      Entities.FindAt(piece, '>', gt);
    case Some(k) =>
      gt := k;
      hide Entities.Find;
      Cut(c.attributes, gt, ">" + tail);
      Entities.FindAt(piece, '>', gt);
      assert c.attributes[gt + 1..] + (">" + tail) == c.attributes[gt + 1..] + (">" + c.body) + (CLOSE + c.after);
  }

  lemma Cut(a: string, k: nat, tail: string)
    requires k < |a|
    ensures (a + tail)[..k] == a[..k] && (a + tail)[k + 1..] == a[k + 1..] + tail && (a + tail)[k] == a[k]
  {
  }

  /** A cue's line is its trimmed text. */
  lemma CueLineIs(c: Cue)
    requires WellFormed(c)
    ensures CueLine(PieceOf(c)) == if Trim(LineText(c)) == "" then None else Some(Trim(LineText(c)))
  {
    hide PieceOf, LineText, Absent, FindText, Trim, Entities.Find;
    var gt := TextStarts(c);
    TagsAreLone();
    FindAfter(LineText(c), CLOSE, c.after);
    assert (LineText(c) + (CLOSE + c.after))[..|LineText(c)|] == LineText(c);
  }

  /** The text of a cue is its body exactly when no attribute holds a `>`. */
  lemma LineIsBody(c: Cue)
    ensures LineText(c) == c.body <==> '>' !in c.attributes
  {
    match Entities.Find(c.attributes, '>')
    case None =>
    case Some(k) => assert |LineText(c)| > |c.body|;
  }

  // ------------------------------------------------------------ words

  function WordsOf(parts: seq<string>): seq<string> {
    if parts == [] then [] else Words(parts[0]) + WordsOf(parts[1..])
  }

  lemma {:induction false} WordsConcat(a: string, b: string)
    requires StartsApart(b)
    ensures Words(a + b) == Words(a) + Words(b)
    decreases |a|
  {
    hide IsWhitespace;
    if a == "" {
      assert a + b == b;
    } else if IsWhitespace(a[0]) {
      assert (a + b)[1..] == a[1..] + b;
      WordsConcat(a[1..], b);
    } else {
      var n := WordLength(a);
      var w, t := a[..n], a[n..];
      assert a + b == w + (t + b);
      WordsConcat(t, b);
      WordsOfWordThen(w, t + b);
    }
  }

  lemma SpaceHasNoWords(c: char)
    requires IsWhitespace(c)
    ensures Words([c]) == []
  {
    assert [c][1..] == "";
  }

  lemma {:induction false} WordsOfTrimEnd(s: string)
    ensures Words(TrimEnd(s)) == Words(s)
  {
    hide Words, IsWhitespace;
    if s != "" && IsWhitespace(s[|s| - 1]) {
      var front, c := s[..|s| - 1], s[|s| - 1];
      assert s == front + [c];
      WordsOfTrimEnd(front);
      WordsConcat(front, [c]);
      SpaceHasNoWords(c);
    }
  }

  lemma {:induction false} WordsOfTrimStart(s: string)
    ensures Words(TrimStart(s)) == Words(s)
  {
    if s != "" && IsWhitespace(s[0]) { WordsOfTrimStart(s[1..]); }
  }

  lemma WordsOfTrim(s: string)
    ensures Words(Trim(s)) == Words(s)
  {
    WordsOfTrimStart(s);
    WordsOfTrimEnd(TrimStart(s));
  }

  lemma {:induction false} WordsOfJoin(parts: seq<string>)
    ensures Words(Join(parts, " ")) == WordsOf(parts)
  {
    hide Words;
    if parts == [] {
      Paragraphs.NoWords();
    } else if |parts| == 1 {
      assert WordsOf(parts[1..]) == [];
    } else {
      WordsOfJoin(parts[1..]);
      var rest := " " + Join(parts[1..], " ");
      WordsConcat(parts[0], rest) by { assert IsWhitespace(rest[0]); }
      SpaceBefore(Join(parts[1..], " "));
      assert Join(parts, " ") == parts[0] + rest;
    }
  }

  lemma SpaceBefore(s: string)
    ensures Words(" " + s) == Words(s)
  {
    assert (" " + s)[1..] == s;
  }

  lemma {:induction false} LinesKeepWords(pieces: seq<string>, cues: seq<Cue>)
    requires |pieces| == |cues|
    requires forall i :: 0 <= i < |cues| ==> WellFormed(cues[i]) && pieces[i] == PieceOf(cues[i])
    ensures WordsOf(Lines(pieces)) == WordsOf(LineTexts(cues))
  {
    hide CueLine, WellFormed, PieceOf, Words, Trim, LineText;
    if cues == [] {
    } else {
      LinesKeepWords(pieces[1..], cues[1..]);
      CueLineIs(cues[0]);
      WordsOfTrim(LineText(cues[0]));
      Paragraphs.NoWords();
      var texts := LineTexts(cues);
      assert texts[0] == LineText(cues[0]) && texts[1..] == LineTexts(cues[1..]);
      if CueLine(pieces[0]).Some? {
        var lines := Lines(pieces);
        assert lines[0] == Trim(LineText(cues[0])) && lines[1..] == Lines(pieces[1..]);
      }
    }
  }

  /** Flattening a document of closed `text` elements gives the readable transcript of their texts,
      one after the other: tags, blank cues and the way cues are cut leave no trace, and what is left
      of the attributes is what follows a `>` in one of them (see `LineIsBody`). */
  lemma FlattenedIsReadable(header: string, cues: seq<Cue>)
    requires Absent(header, OPEN) && forall i :: 0 <= i < |cues| ==> WellFormed(cues[i])
    ensures Flattened(header + Document(cues)) == Transcript.Readable(Join(LineTexts(cues), " "))
  {
    hide Pieces, Words, Join, WellFormed, PieceOf, Lines, WordsOf, LineTexts, Entities.Passes, Transcript.Paragraphed;
    PiecesOfDocument(header, cues);
    var pieces := Pieces(header + Document(cues))[1..];
    LinesKeepWords(pieces, cues);
    WordsOfJoin(Lines(pieces));
    WordsOfJoin(LineTexts(cues));
  }
}
