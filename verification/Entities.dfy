/** backend/src/ai/transcript.rs, lines 358-415: decoding the XML entities of caption text. The
    decoder looks for the `;` by byte offset and then skips that many characters. */
module Entities {
  import opened Text

  /** Number of bytes of a character in UTF-8. */
  function Utf8Length(c: char): nat {
    if c as int < 0x80 then 1 else if c as int < 0x800 then 2 else if c as int < 0x10000 then 3 else 4
  }

  function ByteLength(s: string): nat {
    if s == "" then 0 else Utf8Length(s[0]) + ByteLength(s[1..])
  }

  /** Character index of the first `c`. */
  function Find(s: string, c: char): (r: Option<nat>)
    ensures r.None? ==> c !in s
    ensures r.Some? ==> r.value < |s| && s[r.value] == c && c !in s[..r.value]
  {
    if s == "" then None
    else if s[0] == c then Some(0)
    else
      match Find(s[1..], c)
      case None => None
      case Some(k) => Some(k + 1)
  }

  lemma {:induction false} FindAt(s: string, c: char, k: nat)
    requires k < |s| && s[k] == c && c !in s[..k]
    ensures Find(s, c) == Some(k)
  {
    if k == 0 {
    } else {
      assert s[..k] == [s[0]] + s[1..][..k - 1];
      FindAt(s[1..], c, k - 1);
    }
  }

  /** `char::from_u32`: every code point that is not a surrogate. */
  function FromU32(n: nat): Option<char> {
    if n < 0xD800 || 0xE000 <= n < 0x11_0000 then Some(n as char) else None
  }

  /** The digits after `#`, hexadecimal after `x` or `X`. */
  function DecodeNumber(digits: string): Option<char> {
    var code := if digits != "" && (digits[0] == 'x' || digits[0] == 'X') then ParseU32(digits[1..], 16)
                else ParseU32(digits, 10);
    if code.None? then None else FromU32(code.value)
  }

  /** What stands between `&` and `;`. `nbsp` becomes a plain space. */
  function DecodeName(name: string): Option<char> {
    if name == "amp" then Some('&')
    else if name == "lt" then Some('<')
    else if name == "gt" then Some('>')
    else if name == "quot" then Some('"')
    else if name == "apos" || name == "#39" then Some('\'')
    else if name == "nbsp" then Some(' ')
    else if name != "" && name[0] == '#' then DecodeNumber(name[1..])
    else None
  }

  /** The entity at the head of `s`: the character it stands for and the byte offset of its `;`. */
  function Entity(s: string): Option<(char, nat)>
    requires s != "" && s[0] == '&'
  {
    match Find(s, ';')
    case None => None
    case Some(semi) =>
      if ByteLength(s[..semi]) > 10 then None
      else
        match DecodeName(s[1..semi])
        case None => None
        case Some(c) => Some((c, ByteLength(s[..semi])))
  }

  /** No decodable entity occurs in `s`. */
  predicate Clean(s: string) {
    forall i :: 0 <= i < |s| && s[i] == '&' ==> Entity(s[i..]).None?
  }

  /** What is left of an iterator over `s` after `n` calls of `next`. */
  function Skip(s: string, n: nat): string {
    if n <= |s| then s[n..] else ""
  }

  /** One pass of the decoder. */
  function DecodePass(s: string): string
    decreases |s|
  {
    if s == "" then ""
    else if s[0] != '&' then [s[0]] + DecodePass(s[1..])
    else
      match Entity(s)
      case None => "&" + DecodePass(s[1..])
      case Some((c, semi)) => [c] + DecodePass(Skip(s[1..], semi))
  }

  lemma PassOfEntity(s: string)
    requires s != "" && s[0] == '&' && Entity(s).Some?
    ensures DecodePass(s) == [Entity(s).value.0] + DecodePass(Skip(s[1..], Entity(s).value.1))
  {
  }

  function Passes(s: string, n: nat): string {
    if n == 0 then s else DecodePass(Passes(s, n - 1))
  }

  // ------------------------------------------------------------ the source's loops

  /** `for _ in 0..n { chars.next(); }` on an iterator at position `i`. */
  method SkipChars(s: string, i: nat, n: nat) returns (j: nat)
    requires i <= |s|
    ensures i <= j <= |s| && s[j..] == Skip(s[i..], n)
  {
    j := i;
    for k := 0 to n
      invariant j == if i + k <= |s| then i + k else |s|
    {
      if j < |s| { j := j + 1; }
    }
  }

  method DecodeEntities(s: string) returns (out: string)
    ensures out == DecodePass(s)
  {
    hide Entity, Skip;
    out := "";
    var i := 0;
    while i < |s|
      invariant i <= |s|
      invariant out + DecodePass(s[i..]) == DecodePass(s)
    {
      var c := s[i];
      ghost var rest := s[i..];
      assert rest[1..] == s[i + 1..];
      i := i + 1;
      if c != '&' {
        PassStep(out, rest, [c], s[i..]);
        out := out + [c];
      } else {
        match Entity(s[i - 1..]) {
          case None =>
            PassStep(out, rest, ['&'], s[i..]);
            out := out + ['&'];
          case Some((ch, semi)) =>
            i := SkipChars(s, i, semi);
            PassStep(out, rest, [ch], s[i..]);
            out := out + [ch];
        }
      }
    }
    assert s[i..] == "";
  }

  lemma PassStep(out: string, rest: string, head: string, tail: string)
    requires DecodePass(rest) == head + DecodePass(tail)
    ensures out + head + DecodePass(tail) == out + DecodePass(rest)
  {
  }

  /** Three passes at most, fewer when one changes nothing. */
  method DecodeEntitiesFully(s: string) returns (current: string)
    ensures current == Passes(s, 3)
  {
    current := s;
    var i := 0;
    while i < 3
      invariant i <= 3
      invariant current == Passes(s, i)
    {
      var next := DecodeEntities(current);
      if next == current {
        FixpointStays(s, i, 3);
        return;
      }
      current := next;
      i := i + 1;
    }
  }

  lemma FixpointStays(s: string, i: nat, n: nat)
    requires i <= n && DecodePass(Passes(s, i)) == Passes(s, i)
    ensures Passes(s, n) == Passes(s, i)
  {
    hide DecodePass;
    if i == n {
    } else {
      FixpointStays(s, i, n - 1);
    }
  }

  // ------------------------------------------------------------ what an entity is

  /** A visible ASCII character other than `&` and `;`. */
  predicate Plain(c: char) {
    '!' <= c <= '~' && c != '&' && c != ';'
  }

  predicate AllPlain(s: string) {
    forall i :: 0 <= i < |s| ==> Plain(s[i])
  }

  lemma DigitsArePlain(digits: string, radix: nat)
    requires radix <= 36 && ParseU32(digits, radix).Some?
    ensures digits != "" && AllPlain(digits)
  {
    var rest := if digits[0] == '+' then digits[1..] else digits;
    assert ParseDigits(rest, radix, 0).Some?;
    forall i | 0 <= i < |digits|
      ensures Plain(digits[i])
    {
      if digits[0] == '+' && i > 0 {
        assert rest[i - 1] == digits[i];
      }
    }
  }

  lemma NameIsPlain(name: string)
    requires DecodeName(name).Some?
    ensures |name| >= 2 && AllPlain(name)
  {
    hide ParseU32, FromU32;
    if name[0] == '#' && name != "#39" {
      var digits := name[1..];
      assert DecodeNumber(digits).Some?;
      if digits != "" && (digits[0] == 'x' || digits[0] == 'X') {
        DigitsArePlain(digits[1..], 16);
        assert name == name[..2] + digits[1..];
      } else {
        DigitsArePlain(digits, 10);
        assert name == name[..1] + digits;
      }
    }
  }

  lemma {:induction false} PlainBytes(s: string)
    requires forall i :: 0 <= i < |s| ==> s[i] <= '~'
    ensures ByteLength(s) == |s|
  {
    if s == "" {
    } else {
      PlainBytes(s[1..]);
    }
  }

  /** An entity that decodes is written in ASCII, so the byte offset of its `;` is also its
      character index and skipping that many characters consumes exactly through the `;`. */
  lemma EntityIsAscii(s: string)
    requires s != "" && s[0] == '&' && Entity(s).Some?
    ensures var semi := Entity(s).value.1;
            && 3 <= semi <= 10 && semi < |s| && s[semi] == ';' && AllPlain(s[1..semi])
            && Skip(s[1..], semi) == s[semi + 1..]
            && DecodeName(s[1..semi]) == Some(Entity(s).value.0)
  {
    var semi := Find(s, ';').value;
    NameIsPlain(s[1..semi]);
    hide DecodeName;
    forall i | 0 <= i < semi
      ensures s[..semi][i] <= '~'
    {
      if i > 0 { assert s[1..semi][i - 1] == s[i]; }
    }
    PlainBytes(s[..semi]);
  }

  // ------------------------------------------------------------ what a pass does

  /** Number of characters that are not white space. */
  function Solid(s: string): nat {
    if s == "" then 0 else (if IsWhitespace(s[0]) then 0 else 1) + Solid(s[1..])
  }

  lemma {:induction false} SolidAppend(a: string, b: string)
    ensures Solid(a + b) == Solid(a) + Solid(b)
  {
    hide IsWhitespace;
    if a == "" {
      assert a + b == b;
    } else {
      assert (a + b)[1..] == a[1..] + b;
      SolidAppend(a[1..], b);
    }
  }

  lemma {:induction false} SolidWord(w: string)
    requires forall i :: 0 <= i < |w| ==> !IsWhitespace(w[i])
    ensures Solid(w) == |w|
  {
    if w == "" {
    } else {
      SolidWord(w[1..]);
    }
  }

  lemma CleanTail(s: string)
    requires s != "" && (s[0] != '&' || Entity(s).None?)
    ensures Clean(s) <==> Clean(s[1..])
  {
    hide Entity;
    assert s[0..] == s;
    forall i | 1 <= i < |s|
      ensures s[i..] == s[1..][i - 1..] && s[i] == s[1..][i - 1]
    {
    }
    if Clean(s) {
      forall i | 0 <= i < |s| - 1 && s[1..][i] == '&'
        ensures Entity(s[1..][i..]).None?
      {
        assert s[1..][i..] == s[i + 1..];
      }
    }
  }

  lemma NotClean(s: string)
    requires s != "" && s[0] == '&' && Entity(s).Some?
    ensures !Clean(s)
  {
    assert s[0..] == s;
  }

  lemma NothingIsClean()
    ensures Clean("")
  {
  }

  /** A pass changes nothing if and only if no decodable entity occurs; otherwise the text gets
      strictly shorter, in characters and in characters that are not white space. */
  lemma {:induction false} PassShrinks(s: string)
    ensures Clean(s) ==> DecodePass(s) == s
    ensures !Clean(s) ==> |DecodePass(s)| < |s| && Solid(DecodePass(s)) < Solid(s)
    decreases |s|
  {
    hide Clean, Entity, IsWhitespace;
    if s == "" {
      NothingIsClean();
    } else if s[0] == '&' && Entity(s).Some? {
      NotClean(s);
      EntityIsAscii(s);
      var rest := s[Entity(s).value.1 + 1..];
      PassShrinks(rest);
      EntityShrinks(s);
    } else {
      CleanTail(s);
      PassShrinks(s[1..]);
      PlainHeadShrinks(s);
    }
  }

  /** The pass never lengthens the text. */
  lemma PassNeverLengthens(s: string)
    ensures |DecodePass(s)| <= |s| && Solid(DecodePass(s)) <= Solid(s)
  {
    PassShrinks(s);
  }

  lemma PlainHeadShrinks(s: string)
    requires s != "" && (s[0] != '&' || Entity(s).None?)
    ensures DecodePass(s) == [s[0]] + DecodePass(s[1..])
    ensures DecodePass(s[1..]) == s[1..] ==> DecodePass(s) == s
    ensures |DecodePass(s[1..])| < |s[1..]| ==> |DecodePass(s)| < |s|
    ensures Solid(DecodePass(s[1..])) < Solid(s[1..]) ==> Solid(DecodePass(s)) < Solid(s)
  {
    hide Entity, IsWhitespace;
    assert s == [s[0]] + s[1..];
    SolidAppend([s[0]], DecodePass(s[1..]));
  }

  lemma EntityShrinks(s: string)
    requires s != "" && s[0] == '&' && Entity(s).Some?
    requires var semi := Entity(s).value.1;
             && semi < |s| && Skip(s[1..], semi) == s[semi + 1..] && s[semi] == ';' && AllPlain(s[1..semi]) && semi >= 3
    requires var rest := s[Entity(s).value.1 + 1..];
             |DecodePass(rest)| <= |rest| && Solid(DecodePass(rest)) <= Solid(rest)
    ensures |DecodePass(s)| < |s| && Solid(DecodePass(s)) < Solid(s)
  {
    hide Entity, Skip;
    var (c, semi) := Entity(s).value;
    var entity, rest := s[..semi + 1], s[semi + 1..];
    assert DecodePass(s) == [c] + DecodePass(rest);
    assert s == entity + rest;
    SolidAppend(entity, rest);
    SolidAppend([c], DecodePass(rest));
    PlainIsSolid(s, semi);
    SolidWord(entity);
    assert Solid([c]) <= 1;
  }

  lemma PlainIsSolid(s: string, semi: nat)
    requires 1 <= semi < |s| && s[0] == '&' && s[semi] == ';' && AllPlain(s[1..semi])
    ensures forall i :: 0 <= i <= semi ==> !IsWhitespace(s[i])
  {
    forall i | 0 <= i <= semi
      ensures !IsWhitespace(s[i])
    {
      if 0 < i < semi { assert Plain(s[1..semi][i - 1]); }
    }
  }

  // ------------------------------------------------------------ words and entities

  /** An entity whose `;` lies beyond `w` would run through the first character of `t`. */
  lemma EntityReachesPlain(w: string, t: string)
    requires w != "" && w[0] == '&' && ';' !in w && t != "" && t[0] != ';' && Entity(w + t).Some?
    ensures Plain(t[0])
  {
    var s := w + t;
    EntityIsAscii(s);
    var semi := Entity(s).value.1;
    assert s[semi] == ';';
    assert semi > |w|;
    assert s[1..semi][|w| - 1] == t[0];
  }

  /** Text after a word can neither complete nor disturb an entity that starts in the word. */
  lemma EntityIsLocal(w: string, t: string)
    requires w != "" && w[0] == '&' && (forall i :: 0 <= i < |w| ==> !IsWhitespace(w[i])) && StartsApart(t)
    ensures Entity(w + t) == Entity(w)
  {
    var s := w + t;
    if ';' in w {
      var k := Find(w, ';').value;
      FindIn(w, t, ';');
      assert s[..k] == w[..k] && s[1..k] == w[1..k];
    } else if t == "" {
      assert s == w;
    } else if Entity(s).Some? {
      EntityReachesPlain(w, t);
    }
  }

  lemma {:induction false} FindIn(w: string, t: string, c: char)
    requires c in w
    ensures Find(w + t, c) == Find(w, c)
  {
    if w[0] != c {
      assert (w + t)[1..] == w[1..] + t;
      FindIn(w[1..], t, c);
    }
  }

  lemma CleanSplit(w: string, t: string)
    requires (forall i :: 0 <= i < |w| ==> !IsWhitespace(w[i])) && StartsApart(t)
    ensures Clean(w + t) <==> Clean(w) && Clean(t)
  {
    hide Entity, IsWhitespace;
    var s := w + t;
    forall i | 0 <= i < |w| && w[i] == '&'
      ensures s[i] == '&' && Entity(s[i..]) == Entity(w[i..])
    {
      assert s[i..] == w[i..] + t;
      EntityIsLocal(w[i..], t);
    }
    forall i | 0 <= i < |t|
      ensures s[|w| + i] == t[i] && s[|w| + i..] == t[i..]
    {
    }
    if Clean(w) && Clean(t) {
      forall i | 0 <= i < |s| && s[i] == '&'
        ensures Entity(s[i..]).None?
      {
        if i >= |w| { assert s[i..] == t[i - |w|..]; }
      }
    }
  }

  predicate CleanWords(ws: seq<string>) {
    forall k :: 0 <= k < |ws| ==> Clean(ws[k])
  }

  /** Whether a text holds a decodable entity depends on its words only: re-spacing can neither
      create nor destroy one. */
  lemma {:induction false} CleanByWords(s: string)
    ensures Clean(s) <==> CleanWords(Words(s))
    decreases |s|
  {
    hide Clean, IsWhitespace;
    if s == "" {
      NothingIsClean();
    } else if IsWhitespace(s[0]) {
      SpaceIsNoAmp(s[0]);
      CleanTail(s);
      CleanByWords(s[1..]);
    } else {
      var n := WordLength(s);
      var w, t := s[..n], s[n..];
      assert s == w + t;
      CleanSplit(w, t);
      CleanByWords(t);
      var rest := Words(t);
      assert Words(s)[0] == w && forall k :: 0 <= k < |rest| ==> Words(s)[k + 1] == rest[k];
    }
  }

  lemma SpaceIsNoAmp(c: char)
    requires IsWhitespace(c)
    ensures c != '&'
  {
  }

  function TotalLength(ws: seq<string>): nat {
    if ws == [] then 0 else |ws[0]| + TotalLength(ws[1..])
  }

  lemma {:induction false} SolidByWords(s: string)
    ensures Solid(s) == TotalLength(Words(s))
    decreases |s|
  {
    if s == "" {
    } else if IsWhitespace(s[0]) {
      SolidByWords(s[1..]);
    } else {
      var n := WordLength(s);
      var w, t := s[..n], s[n..];
      assert s == w + t;
      SolidAppend(w, t);
      SolidWord(w);
      SolidByWords(t);
      assert Words(s)[1..] == Words(t);
    }
  }
}
