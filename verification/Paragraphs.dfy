/** backend/src/ai/transcript.rs, lines 330-356: greedy paragraph breaks in flowing text. */
module Paragraphs {
  import opened Text

  const TARGET := 500
  const HARD := 900

  predicate EndsSentence(w: string) {
    w != "" && (w[|w| - 1] == '.' || w[|w| - 1] == '!' || w[|w| - 1] == '?')
  }

  /** Number of characters of a paragraph: its words and the single spaces between them. */
  function Length(ws: seq<string>): nat {
    |Join(ws, " ")|
  }

  /** A paragraph made of `ws` ends after its last word. */
  predicate Breaks(ws: seq<string>) {
    ws != [] && (Length(ws) >= HARD || (Length(ws) >= TARGET && EndsSentence(ws[|ws| - 1])))
  }

  function Concat(paras: seq<seq<string>>): seq<string> {
    if paras == [] then [] else paras[0] + Concat(paras[1..])
  }

  /** Every paragraph but the last ends because it breaks, and none runs past a break. */
  predicate Greedy(paras: seq<seq<string>>) {
    && (forall i :: 0 <= i < |paras| ==> paras[i] != [])
    && (forall i :: 0 <= i < |paras| - 1 ==> Breaks(paras[i]))
    && (forall i, n :: 0 <= i < |paras| && 0 < n < |paras[i]| ==> !Breaks(paras[i][..n]))
  }

  /** The paragraphs of `ws` when the words of `cur` already stand in the current one. */
  function Segment(cur: seq<string>, ws: seq<string>): seq<seq<string>>
    decreases |ws|
  {
    if ws == [] then (if cur == [] then [] else [cur])
    else
      var grown := cur + [ws[0]];
      if Breaks(grown) then [grown] + Segment([], ws[1..]) else Segment(grown, ws[1..])
  }

  /** Paragraphs separated by blank lines. */
  function Render(paras: seq<seq<string>>): string {
    if paras == [] then ""
    else if |paras| == 1 then Join(paras[0], " ")
    else Join(paras[0], " ") + "\n\n" + Render(paras[1..])
  }

  /** The paragraphs so far, each followed by its blank line. */
  function Closed(paras: seq<seq<string>>): string {
    if paras == [] then ""
    else Closed(paras[..|paras| - 1]) + Join(paras[|paras| - 1], " ") + "\n\n"
  }

  // ------------------------------------------------------------ the source's loop

  /** After the first `i` words `paras` are closed, `cur` is open and `out` is written. */
  ghost predicate Written(words: seq<string>, i: nat, paras: seq<seq<string>>, cur: seq<string>, out: string) {
    && i <= |words| && AllWords(words) && AllWords(cur)
    && (forall k :: 0 <= k < |paras| ==> AllWords(paras[k]) && paras[k] != [])
    && Segment([], words) == paras + Segment(cur, words[i..])
    && out == Closed(paras) + Join(cur, " ")
  }

  method Paragraphize(text: string) returns (out: string)
    ensures out == Render(Segment([], Words(text)))
  {
    hide Words, EndsSentence, Written, Segment, Render, Join;
    var words := Words(text);
    out := "";
    var paraLen := 0;
    ghost var paras: seq<seq<string>>, cur: seq<string> := [], [];
    WrittenFirst(words);
    for i := 0 to |words|
      invariant Written(words, i, paras, cur, out) && paraLen == Length(cur)
      invariant paraLen > 0 <==> cur != []
    {
      var word := words[i];
      ghost var grown := cur + [word];
      WrittenNext(words, i, paras, cur, out);
      if paraLen > 0 {
        out := out + " ";
        paraLen := paraLen + 1;
      }
      out := out + word;
      paraLen := paraLen + |word|;
      if (paraLen >= TARGET && EndsSentence(word)) || paraLen >= HARD {
        out := out + "\n\n";
        paraLen := 0;
        paras, cur := paras + [grown], [];
      } else {
        cur := grown;
      }
    }
    WrittenLast(words, paras, cur, out);
    out := TrimNewlines(out, Render(Segment([], words)));
  }

  lemma WrittenFirst(words: seq<string>)
    requires AllWords(words)
    ensures Written(words, 0, [], [], "") && Length([]) == 0
  {
    assert words[0..] == words;
  }

  lemma WrittenNext(words: seq<string>, i: nat, paras: seq<seq<string>>, cur: seq<string>, out: string)
    requires i < |words| && Written(words, i, paras, cur, out)
    ensures var word, grown := words[i], cur + [words[i]];
            var text := if cur == [] then out + word else out + " " + word;
            && Length(grown) == (if cur == [] then 0 else Length(cur) + 1) + |word|
            && |word| > 0 && (Length([]) == 0) && grown[|grown| - 1] == word
            && (Breaks(grown) ==> Written(words, i + 1, paras + [grown], [], text + "\n\n"))
            && (!Breaks(grown) ==> Written(words, i + 1, paras, grown, text))
  {
    var word, grown := words[i], cur + [words[i]];
    WordHasLength(word);
    JoinNothing();
    JoinAppend(cur, word);
    SegmentNext(words, i, paras, cur);
    NextText(paras, cur, word, out);
    hide Breaks, IsWord, Join, Segment, Closed;
  }

  lemma NextText(paras: seq<seq<string>>, cur: seq<string>, word: string, out: string)
    requires out == Closed(paras) + Join(cur, " ")
    ensures var grown, text := cur + [word], if cur == [] then out + word else out + " " + word;
            && text == Closed(paras) + Join(grown, " ")
            && text + "\n\n" == Closed(paras + [grown]) + Join([], " ")
  {
    JoinAppend(cur, word);
    JoinNothing();
    ClosedAppend(paras, cur + [word]);
    hide Join, Closed;
    if cur != [] {
      assert out + " " + word == Closed(paras) + (Join(cur, " ") + " " + word);
    }
  }

  lemma SegmentNext(words: seq<string>, i: nat, paras: seq<seq<string>>, cur: seq<string>)
    requires i < |words| && Segment([], words) == paras + Segment(cur, words[i..])
    ensures var grown := cur + [words[i]];
            Segment([], words) == if Breaks(grown) then paras + [grown] + Segment([], words[i + 1..])
                                  else paras + Segment(grown, words[i + 1..])
  {
    hide Breaks;
    assert words[i..][1..] == words[i + 1..];
    var grown := cur + [words[i]];
    assert paras + ([grown] + Segment([], words[i + 1..])) == paras + [grown] + Segment([], words[i + 1..]);
  }

  lemma ClosedAppend(paras: seq<seq<string>>, p: seq<string>)
    ensures Closed(paras + [p]) == Closed(paras) + Join(p, " ") + "\n\n"
  {
    hide Join;
    assert (paras + [p])[..|paras|] == paras;
  }

  lemma WordHasLength(w: string)
    requires IsWord(w)
    ensures |w| > 0
  {
  }

  lemma JoinNothing()
    ensures Join([], " ") == ""
  {
  }

  lemma WrittenLast(words: seq<string>, paras: seq<seq<string>>, cur: seq<string>, out: string)
    requires Written(words, |words|, paras, cur, out)
    ensures var kept := Render(Segment([], words));
            && |kept| <= |out| && kept == out[..|kept|]
            && (kept == "" || kept[|kept| - 1] != '\n')
            && forall i :: |kept| <= i < |out| ==> out[i] == '\n'
  {
    hide Render, Closed, Join;
    ClosedIsRender(paras, cur);
    assert Segment([], words) == if cur == [] then paras else paras + [cur];
  }

  /** `while out.ends_with('\n') { out.pop(); }` */
  method TrimNewlines(s: string, ghost kept: string) returns (out: string)
    requires |kept| <= |s| && kept == s[..|kept|]
    requires kept == "" || kept[|kept| - 1] != '\n'
    requires forall i :: |kept| <= i < |s| ==> s[i] == '\n'
    ensures out == kept
  {
    out := s;
    while out != "" && out[|out| - 1] == '\n'
      invariant |kept| <= |out| <= |s| && out == s[..|out|]
      decreases |out|
    {
      out := out[..|out| - 1];
    }
  }

  lemma {:induction false} JoinAppend(ws: seq<string>, w: string)
    ensures Join(ws + [w], " ") == if ws == [] then w else Join(ws, " ") + " " + w
  {
    if |ws| > 1 {
      JoinAppend(ws[1..], w);
      assert (ws + [w])[1..] == ws[1..] + [w];
    } else if |ws| == 1 {
      assert (ws + [w])[1..] == [w];
    }
  }

  lemma {:induction false} JoinEnd(ws: seq<string>)
    requires AllWords(ws) && ws != []
    ensures var s := Join(ws, " "); s != "" && !IsWhitespace(s[|s| - 1])
  {
    hide IsWhitespace;
    if |ws| == 1 {
    } else {
      JoinEnd(ws[1..]);
    }
  }

  /** What the loop wrote is the rendering, but for newlines at the end. */
  lemma ClosedIsRender(paras: seq<seq<string>>, cur: seq<string>)
    requires AllWords(cur) && forall k :: 0 <= k < |paras| ==> AllWords(paras[k]) && paras[k] != []
    ensures var out, kept := Closed(paras) + Join(cur, " "), Render(if cur == [] then paras else paras + [cur]);
            && |kept| <= |out| && kept == out[..|kept|]
            && (kept == "" || kept[|kept| - 1] != '\n')
            && forall i :: |kept| <= i < |out| ==> out[i] == '\n'
  {
    if cur != [] {
      RenderAppend(paras, cur);
      JoinEnd(cur);
    } else if paras != [] {
      var last := |paras| - 1;
      assert paras == paras[..last] + [paras[last]];
      RenderAppend(paras[..last], paras[last]);
      JoinEnd(paras[last]);
    }
  }

  lemma {:induction false} RenderAppend(paras: seq<seq<string>>, p: seq<string>)
    ensures Render(paras + [p]) == Closed(paras) + Join(p, " ")
  {
    hide Join;
    if paras == [] {
    } else {
      assert (paras + [p])[1..] == paras[1..] + [p];
      RenderAppend(paras[1..], p);
      ClosedHead(paras);
    }
  }

  lemma {:induction false} ClosedHead(paras: seq<seq<string>>)
    requires paras != []
    ensures Closed(paras) == Join(paras[0], " ") + "\n\n" + Closed(paras[1..])
  {
    hide Join;
    if |paras| == 1 {
    } else {
      var last := |paras| - 1;
      assert paras[..last][1..] == paras[1..][..last - 1];
      ClosedHead(paras[..last]);
    }
  }

  // ------------------------------------------------------------ what the segments are

  lemma {:induction false} SegmentKeepsWords(cur: seq<string>, ws: seq<string>)
    ensures Concat(Segment(cur, ws)) == cur + ws
    decreases |ws|
  {
    hide Breaks;
    if ws == [] {
    } else {
      var grown := cur + [ws[0]];
      assert grown + ws[1..] == cur + ws;
      SegmentKeepsWords(grown, ws[1..]);
      SegmentKeepsWords([], ws[1..]);
      if Breaks(grown) {
        assert ([grown] + Segment([], ws[1..]))[1..] == Segment([], ws[1..]);
      }
    }
  }

  lemma {:induction false} SegmentIsGreedy(cur: seq<string>, ws: seq<string>)
    requires forall n :: 0 < n <= |cur| ==> !Breaks(cur[..n])
    ensures Greedy(Segment(cur, ws))
    decreases |ws|
  {
    hide Breaks;
    if ws != [] {
      var grown := cur + [ws[0]];
      assert forall n :: 0 <= n <= |cur| ==> grown[..n] == cur[..n];
      if Breaks(grown) {
        SegmentIsGreedy([], ws[1..]);
      } else {
        assert grown[..|grown|] == grown;
        SegmentIsGreedy(grown, ws[1..]);
      }
    } else {
      assert forall n :: 0 < n < |cur| ==> !Breaks([cur][0][..n]);
    }
  }

  /** The first `n` words of the first paragraph. */
  function Front(paras: seq<seq<string>>, n: nat): seq<string>
    requires n == 0 || (paras != [] && n <= |paras[0]|)
  {
    if n == 0 then [] else paras[0][..n]
  }

  /** There is only one greedy division of a text into paragraphs. */
  lemma {:induction false} GreedyIsUnique(paras: seq<seq<string>>, n: nat, ws: seq<string>)
    requires Greedy(paras)
    requires n == 0 || (paras != [] && n < |paras[0]|)
    requires Concat(paras) == Front(paras, n) + ws
    ensures Segment(Front(paras, n), ws) == paras
    decreases |ws|
  {
    hide Breaks;
    if paras == [] {
    } else {
      var cur := Front(paras, n);
      assert ws[0] == Concat(paras)[n] == paras[0][n];
      assert cur + [ws[0]] == paras[0][..n + 1];
      assert Concat(paras) == paras[0][..n + 1] + ws[1..];
      if n + 1 < |paras[0]| {
        GreedyIsUnique(paras, n + 1, ws[1..]);
      } else {
        assert paras[0][..n + 1] == paras[0];
        GreedyRest(paras, ws[1..]);
        GreedyIsUnique(paras[1..], 0, ws[1..]);
      }
    }
  }

  lemma GreedyRest(paras: seq<seq<string>>, ws: seq<string>)
    requires paras != [] && Greedy(paras) && Concat(paras) == paras[0] + ws
    ensures Greedy(paras[1..]) && Concat(paras[1..]) == [] + ws
    ensures if Breaks(paras[0]) then true else paras[1..] == [] && ws == []
  {
    hide Breaks;
    assert Concat(paras)[|paras[0]|..] == Concat(paras[1..]);
    assert Concat(paras)[|paras[0]|..] == ws;
    if |paras| == 1 { assert paras[1..] == []; }
  }

  /** The paragraphs are the one greedy division of the words: nothing is lost or moved, every
      paragraph but the last has 500 characters and ends a sentence or has 900, and without its
      last word a paragraph always stays below 900. */
  lemma ParagraphsAre(ws: seq<string>, paras: seq<seq<string>>)
    ensures paras == Segment([], ws) <==> Greedy(paras) && Concat(paras) == ws
  {
    SegmentKeepsWords([], ws);
    SegmentIsGreedy([], ws);
    if Greedy(paras) && Concat(paras) == ws {
      GreedyIsUnique(paras, 0, ws);
    }
  }

  predicate EndsWithStop(w: string) {
    w != "" && w[|w| - 1] in ".!?"
  }

  /** In figures: every paragraph but the last has 900 characters, or 500 and a full stop, exclamation
      or question mark at its end; and none has so already before its last word. */
  lemma ParagraphLengths(ws: seq<string>, i: nat)
    requires i < |Segment([], ws)|
    ensures var p := Segment([], ws)[i];
            && p != []
            && (i < |Segment([], ws)| - 1 ==>
                  |Join(p, " ")| >= 900 || (|Join(p, " ")| >= 500 && EndsWithStop(p[|p| - 1])))
            && forall n :: 0 < n < |p| ==>
                 |Join(p[..n], " ")| < 900 && (|Join(p[..n], " ")| < 500 || !EndsWithStop(p[n - 1]))
  {
    SegmentIsGreedy([], ws);
    var p := Segment([], ws)[i];
    forall w: string
      ensures EndsWithStop(w) <==> EndsSentence(w)
    {
    }
    hide EndsSentence, EndsWithStop, Join, Segment;
    forall n | 0 < n < |p|
      ensures |Join(p[..n], " ")| < 900 && (|Join(p[..n], " ")| < 500 || !EndsWithStop(p[n - 1]))
    {
      assert !Breaks(p[..n]);
      assert p[..n][n - 1] == p[n - 1];
    }
  }

  // ------------------------------------------------------------ reading it back

  lemma {:induction false} WordsOfJoin(ws: seq<string>, tail: string)
    requires AllWords(ws) && ws != [] && StartsApart(tail)
    ensures Words(Join(ws, " ") + tail) == ws + Words(tail)
  {
    hide Words, IsWhitespace;
    if |ws| == 1 {
      WordsOfWordThen(ws[0], tail);
    } else {
      WordsOfJoin(ws[1..], tail);
      WordsOfWordSpace(ws[0], Join(ws[1..], " ") + tail);
      assert ws[0] + " " + (Join(ws[1..], " ") + tail) == Join(ws, " ") + tail;
    }
  }

  /** Splitting joined words gives the words back. */
  lemma WordsOfJoined(ws: seq<string>)
    requires AllWords(ws)
    ensures Words(Join(ws, " ")) == ws
  {
    if ws != [] {
      WordsOfJoin(ws, "");
      assert Join(ws, " ") + "" == Join(ws, " ");
    }
  }

  lemma {:induction false} WordsOfRender(paras: seq<seq<string>>)
    requires forall i :: 0 <= i < |paras| ==> paras[i] != [] && AllWords(paras[i])
    ensures Words(Render(paras)) == Concat(paras)
  {
    hide Words, AllWords, Join;
    if paras == [] {
      NoWords();
    } else if |paras| == 1 {
      WordsOfJoined(paras[0]);
      assert paras[1..] == [];
    } else {
      WordsOfRender(paras[1..]);
      var tail := "\n\n" + Render(paras[1..]);
      WordsOfJoin(paras[0], tail) by { assert tail[0] == '\n'; }
      BlankLine(Render(paras[1..]));
      assert Join(paras[0], " ") + tail == Render(paras);
    }
  }

  lemma NoWords()
    ensures Words("") == []
  {
  }

  lemma BlankLine(s: string)
    ensures Words("\n\n" + s) == Words(s)
  {
    assert ("\n\n" + s)[1..] == "\n" + s;
    assert ("\n" + s)[1..] == s;
  }

  lemma {:induction false} SegmentAllWords(cur: seq<string>, ws: seq<string>)
    requires AllWords(cur) && AllWords(ws)
    ensures forall i :: 0 <= i < |Segment(cur, ws)| ==> Segment(cur, ws)[i] != [] && AllWords(Segment(cur, ws)[i])
    decreases |ws|
  {
    hide Breaks, IsWord;
    if ws == [] {
    } else {
      SegmentAllWords(cur + [ws[0]], ws[1..]);
      SegmentAllWords([], ws[1..]);
    }
  }

  /** Breaking into paragraphs keeps the words, so doing it twice is doing it once. */
  lemma ParagraphsKeepWords(text: string)
    ensures Words(Render(Segment([], Words(text)))) == Words(text)
  {
    hide Words;
    var ws := Words(text);
    SegmentAllWords([], ws);
    WordsOfRender(Segment([], ws));
    SegmentKeepsWords([], ws);
  }
}
