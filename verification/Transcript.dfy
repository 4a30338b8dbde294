/** backend/src/ai/transcript.rs, lines 321-328: the readable transcript, from raw caption text to
    paragraphs, and when making it readable again changes nothing. */
module Transcript {
  import opened Text
  import Entities
  import Paragraphs

  /** Caption text as one line of single-spaced words. */
  function Flow(raw: string): string {
    Join(Words(raw), " ")
  }

  function Paragraphed(text: string): string {
    Paragraphs.Render(Paragraphs.Segment([], Words(text)))
  }

  function Readable(raw: string): string {
    Paragraphed(Entities.Passes(Flow(raw), 3))
  }

  method ReadableTranscript(raw: string) returns (out: string)
    ensures out == Readable(raw)
  {
    var decoded := Entities.DecodeEntitiesFully(Join(Words(raw), " "));
    out := Paragraphs.Paragraphize(decoded);
  }

  /** Three passes over the text have reached a fixpoint of the decoder. */
  predicate Stable(raw: string) {
    Entities.Passes(Flow(raw), 4) == Entities.Passes(Flow(raw), 3)
  }

  lemma StableIsClean(raw: string)
    ensures Stable(raw) <==> Entities.Clean(Entities.Passes(Flow(raw), 3))
  {
    hide Flow, Entities.DecodePass, Entities.Clean;
    Entities.PassShrinks(Entities.Passes(Flow(raw), 3));
  }

  lemma FlowKeepsWords(text: string)
    ensures Words(Flow(text)) == Words(text)
  {
    Paragraphs.WordsOfJoined(Words(text));
  }

  /** Only the words of a text decide how it is re-spaced. */
  lemma FlowOfParagraphed(text: string)
    ensures Flow(Paragraphed(text)) == Flow(text)
  {
    hide Words, Join;
    Paragraphs.ParagraphsKeepWords(text);
  }

  lemma {:induction false} CleanPassesStay(s: string, n: nat)
    requires Entities.Clean(s)
    ensures Entities.Passes(s, n) == s
  {
    hide Entities.Clean, Entities.DecodePass;
    Entities.PassShrinks(s);
    if n == 0 {
    } else {
      CleanPassesStay(s, n - 1);
    }
  }

  lemma {:induction false} PassesLoseSolid(s: string, n: nat)
    requires !Entities.Clean(s) && n > 0
    ensures Entities.Solid(Entities.Passes(s, n)) < Entities.Solid(s)
  {
    hide Entities.Clean, Entities.DecodePass, Entities.Solid;
    Entities.PassShrinks(s);
    if n == 1 {
      assert Entities.Passes(s, 0) == s;
    } else {
      PassesLoseSolid(s, n - 1);
      Entities.PassNeverLengthens(Entities.Passes(s, n - 1));
    }
  }

  /** Same words, same decodable entities and same characters that are not white space. */
  lemma SameWords(a: string, b: string)
    requires Words(a) == Words(b)
    ensures Entities.Clean(a) <==> Entities.Clean(b)
    ensures Entities.Solid(a) == Entities.Solid(b)
    ensures Paragraphed(a) == Paragraphed(b)
  {
    hide Words, Entities.Clean;
    Entities.CleanByWords(a);
    Entities.CleanByWords(b);
    Entities.SolidByWords(a);
    Entities.SolidByWords(b);
  }

  /** Making a transcript readable twice is the same as doing it once exactly for the texts on
      which three passes are enough. */
  lemma ReadableIdempotent(raw: string)
    ensures Readable(Readable(raw)) == Readable(raw) <==> Stable(raw)
  {
    hide Flow, Paragraphed, Entities.Clean, Entities.Solid, Words, Entities.Passes;
    var decoded := Entities.Passes(Flow(raw), 3);
    var again := Flow(decoded);
    FlowOfParagraphed(decoded);
    FlowKeepsWords(decoded);
    SameWords(again, decoded);
    StableIsClean(raw);
    assert Readable(Readable(raw)) == Paragraphed(Entities.Passes(again, 3));
    if Entities.Clean(decoded) {
      CleanPassesStay(again, 3);
    } else {
      PassesLoseSolid(again, 3);
      ParagraphedSolid(decoded);
      ParagraphedSolid(Entities.Passes(again, 3));
    }
  }

  lemma ParagraphedSolid(text: string)
    ensures Entities.Solid(Paragraphed(text)) == Entities.Solid(text)
  {
    hide Words, Entities.Solid;
    Paragraphs.ParagraphsKeepWords(text);
    Entities.SolidByWords(text);
    Entities.SolidByWords(Paragraphed(text));
  }

  /** What follows `&` when the entity `name` has been encoded `n` more times. */
  function Encoded(name: string, n: nat): string {
    if n == 0 then name + ";" else "amp;" + Encoded(name, n - 1)
  }

  /** An entity that was encoded three times more than once is still there after three passes, so
      the next call changes the text again: `&amp;amp;amp;lt;` becomes `&lt;` and then `<`. */
  lemma DeepEncodingIsNotStable(name: string, n: nat)
    requires Entities.DecodeName(name).Some? && |name| <= 9 && n >= 3
    ensures !Stable("&" + Encoded(name, n))
  {
    hide *;
    Entities.NameIsPlain(name);
    var raw := "&" + Encoded(name, n);
    EncodedIsWord(name, n);
    FlowOfWord(raw);
    Layers(name, n, 3);
    EncodedIsNotClean(name, n - 3);
    StableIsClean(raw);
  }

  lemma {:induction false} Layers(name: string, n: nat, k: nat)
    requires Entities.AllPlain(name) && k <= n
    ensures Entities.Passes("&" + Encoded(name, n), k) == "&" + Encoded(name, n - k)
  {
    hide Entities.DecodePass, Encoded;
    if k == 0 {
    } else {
      Layers(name, n, k - 1);
      LayerOff(name, n - k + 1);
    }
  }

  lemma EncodedIsNotClean(name: string, n: nat)
    requires Entities.DecodeName(name).Some? && |name| <= 9
    ensures !Entities.Clean("&" + Encoded(name, n))
  {
    hide Entities.Clean, Entities.Entity, Entities.DecodeName;
    EncodedStep(name, n);
    if n == 0 {
      HeadDecodes(name, "");
    } else {
      AmpDecodes();
      HeadDecodes("amp", Encoded(name, n - 1));
    }
    Entities.NotClean("&" + Encoded(name, n));
  }

  lemma AmpDecodes()
    ensures Entities.DecodeName("amp") == Some('&')
  {
  }

  lemma EncodedStep(name: string, n: nat)
    ensures Encoded(name, n) == if n == 0 then name + ";" + "" else "amp" + ";" + Encoded(name, n - 1)
  {
  }

  lemma {:induction false} EncodedHasNoAmp(name: string, n: nat)
    requires Entities.AllPlain(name)
    ensures '&' !in Encoded(name, n)
    ensures forall i :: 0 <= i < |Encoded(name, n)| ==> !IsWhitespace(Encoded(name, n)[i])
  {
    if n == 0 {
    } else {
      EncodedHasNoAmp(name, n - 1);
    }
  }

  lemma EncodedIsWord(name: string, n: nat)
    requires Entities.AllPlain(name)
    ensures IsWord("&" + Encoded(name, n))
  {
    EncodedHasNoAmp(name, n);
    hide Encoded;
  }

  lemma FlowOfWord(w: string)
    requires IsWord(w)
    ensures Flow(w) == w
  {
    WordsOfWordThen(w, "");
    assert w + "" == w;
  }

  /** A short enough entity at the head of a text is decoded. */
  lemma HeadDecodes(name: string, rest: string)
    requires Entities.DecodeName(name).Some? && |name| <= 9
    ensures var s := "&" + (name + ";" + rest);
            Entities.Entity(s) == Some((Entities.DecodeName(name).value, |name| + 1))
  {
    var s := "&" + (name + ";" + rest);
    Entities.NameIsPlain(name);
    assert s[..|name| + 1] == "&" + name;
    assert s[1..|name| + 1] == name;
    Entities.FindAt(s, ';', |name| + 1);
    Entities.PlainBytes(s[..|name| + 1]);
  }

  /** One layer of encoding comes off in a pass. */
  lemma LayerOff(name: string, n: nat)
    requires Entities.AllPlain(name) && n > 0
    ensures Entities.DecodePass("&" + Encoded(name, n)) == "&" + Encoded(name, n - 1)
  {
    EncodedHasNoAmp(name, n - 1);
    EncodedStep(name, n);
    hide *;
    PassOfAmp(Encoded(name, n - 1));
  }

  lemma PassOfAmp(rest: string)
    requires '&' !in rest
    ensures Entities.DecodePass("&" + ("amp" + ";" + rest)) == "&" + rest
  {
    AmpDecodes();
    hide Entities.DecodePass, Entities.DecodeName, Entities.Entity;
    HeadDecodes("amp", rest);
    Entities.PassOfEntity("&" + ("amp" + ";" + rest));
    NoAmpStays(rest);
    AfterAmp(rest);
  }

  lemma AfterAmp(rest: string)
    ensures Entities.Skip(("&" + ("amp" + ";" + rest))[1..], 4) == rest
  {
  }

  lemma {:induction false} NoAmpStays(s: string)
    requires '&' !in s
    ensures Entities.DecodePass(s) == s
  {
    if s == "" {
    } else {
      NoAmpStays(s[1..]);
    }
  }
}
