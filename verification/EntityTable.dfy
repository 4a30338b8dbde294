/** What one decoding pass of backend/src/ai/transcript.rs, lines 372-415, makes of each entity,
    written out: the seven named forms, numeric references, what is no entity, and the round trip
    with the escaping of the export. */
module EntityTable {
  import opened Text
  import opened Numerals
  import opened Entities
  import Xml

  lemma {:induction false} PlainPasses(a: string, rest: string)
    requires '&' !in a
    ensures DecodePass(a + rest) == a + DecodePass(rest)
  {
    if a == "" {
      assert a + rest == rest;
    } else {
      assert (a + rest)[1..] == a[1..] + rest;
      PlainPasses(a[1..], rest);
      assert a == [a[0]] + a[1..];
    }
  }

  lemma EntityIs(name: string, rest: string)
    requires AllPlain(name)
    ensures Entity("&" + name + ";" + rest) ==
            if |name| <= 9 && DecodeName(name).Some? then Some((DecodeName(name).value, |name| + 1)) else None
  {
    hide DecodeName;
    var s, semi := "&" + name + ";" + rest, |name| + 1;
    assert s[..semi] == "&" + name && s[1..semi] == name;
    forall i | 0 <= i < semi
      ensures s[..semi][i] <= '~' && s[..semi][i] != ';'
    {
      if i > 0 { assert s[..semi][i] == name[i - 1]; }
    }
    FindAt(s, ';', semi);
    PlainBytes(s[..semi]);
  }

  lemma PassDecodes(name: string, rest: string, c: char)
    requires Entity("&" + name + ";" + rest) == Some((c, |name| + 1))
    ensures DecodePass("&" + name + ";" + rest) == [c] + DecodePass(rest)
  {
    hide Entity;
    var s := "&" + name + ";" + rest;
    assert Skip(s[1..], |name| + 1) == rest;
    PassOfEntity(s);
  }

  lemma PassLeaves(name: string, rest: string)
    requires Entity("&" + name + ";" + rest) == None && '&' !in name + ";"
    ensures DecodePass("&" + name + ";" + rest) == "&" + name + ";" + DecodePass(rest)
  {
    hide Entity;
    var s := "&" + name + ";" + rest;
    assert s[1..] == (name + ";") + rest;
    assert DecodePass(s) == "&" + DecodePass(s[1..]);
    hide DecodePass;
    PlainPasses(name + ";", rest);
    assert "&" + ((name + ";") + DecodePass(rest)) == "&" + name + ";" + DecodePass(rest);
  }

  /** A pass over `&`, a name of visible ASCII, `;` and what follows. */
  lemma PassReads(name: string, rest: string)
    requires AllPlain(name)
    ensures DecodePass("&" + name + ";" + rest) ==
            if |name| <= 9 && DecodeName(name).Some? then [DecodeName(name).value] + DecodePass(rest)
            else "&" + name + ";" + DecodePass(rest)
  {
    hide Entity, DecodeName, AllPlain, DecodePass;
    EntityIs(name, rest);
    NoAmp(name);
    if |name| <= 9 && DecodeName(name).Some? {
      PassDecodes(name, rest, DecodeName(name).value);
    } else {
      PassLeaves(name, rest);
    }
  }

  lemma NoAmp(name: string)
    requires AllPlain(name)
    ensures '&' !in name + ";"
  {
  }

  // ------------------------------------------------------------ named entities

  lemma NamesRead()
    ensures DecodeName("amp") == Some('&') && DecodeName("lt") == Some('<') && DecodeName("gt") == Some('>')
    ensures DecodeName("quot") == Some('"') && DecodeName("apos") == Some('\'') && DecodeName("#39") == Some('\'')
    ensures DecodeName("nbsp") == Some(' ')
  {
    hide DecodeNumber;
    assert |"amp"| == |"#39"| == 3 && |"lt"| == |"gt"| == 2 && |"quot"| == |"apos"| == |"nbsp"| == 4;
  }

  /** The named forms, each with its character; `nbsp` gives a plain space. */
  lemma NamedEntities(rest: string)
    ensures DecodePass("&amp;" + rest) == "&" + DecodePass(rest)
    ensures DecodePass("&lt;" + rest) == "<" + DecodePass(rest)
    ensures DecodePass("&gt;" + rest) == ">" + DecodePass(rest)
    ensures DecodePass("&quot;" + rest) == "\"" + DecodePass(rest)
    ensures DecodePass("&apos;" + rest) == "'" + DecodePass(rest)
    ensures DecodePass("&#39;" + rest) == "'" + DecodePass(rest)
    ensures DecodePass("&nbsp;" + rest) == " " + DecodePass(rest)
  {
    hide DecodeName, DecodePass;
    NamesRead();
    NamedReads("amp", '&', "&amp;", rest);
    NamedReads("lt", '<', "&lt;", rest);
    NamedReads("gt", '>', "&gt;", rest);
    NamedReads("quot", '"', "&quot;", rest);
    NamedReads("apos", '\'', "&apos;", rest);
    NamedReads("#39", '\'', "&#39;", rest);
    NamedReads("nbsp", ' ', "&nbsp;", rest);
  }

  lemma NamedReads(name: string, c: char, entity: string, rest: string)
    requires AllPlain(name) && |name| <= 9 && DecodeName(name) == Some(c) && entity == "&" + name + ";"
    ensures DecodePass(entity + rest) == [c] + DecodePass(rest)
  {
    PassReads(name, rest);
  }

  // ------------------------------------------------------------ numeric references

  /** The code points a character can have. */
  predicate IsScalar(n: nat) {
    n < 0xD800 || 0xE000 <= n < 0x11_0000
  }

  lemma NumberNameReads(n: nat, digits: string)
    requires digits != "" && digits[0] != 'x' && digits[0] != 'X'
    requires ParseU32(digits, 10) == if n < 0x1_0000_0000 then Some(n) else None
    ensures DecodeName("#" + digits) == if IsScalar(n) then Some(n as char) else None
  {
    var name := "#" + digits;
    assert name[1..] == digits;
    assert name[0] == '#' && "amp"[0] != '#' && "lt"[0] != '#' && "gt"[0] != '#' && "quot"[0] != '#';
    assert "apos"[0] != '#' && "nbsp"[0] != '#';
    if name == "#39" {
      assert digits == "39";
      ThirtyNine();
    }
  }

  lemma ThirtyNine()
    ensures ParseU32("39", 10) == Some(39)
  {
    assert Dec(39) == "39";
    DecReads(39);
  }

  lemma HexNameReads(n: nat, x: char, digits: string)
    requires x == 'x' || x == 'X'
    requires ParseU32(digits, 16) == if n < 0x1_0000_0000 then Some(n) else None
    ensures DecodeName("#" + [x] + digits) == if IsScalar(n) then Some(n as char) else None
  {
    var name := "#" + [x] + digits;
    assert name[1..] == [x] + digits && name[1..][1..] == digits;
    assert name[0] == '#' && "amp"[0] != '#' && "lt"[0] != '#' && "gt"[0] != '#' && "quot"[0] != '#';
    assert "apos"[0] != '#' && "nbsp"[0] != '#' && "#39"[1] == '3' && name[1] == x;
  }

  /** A decimal reference, leading zeros allowed: decoded exactly when it names a character and has
      at most eight digits, and otherwise left as it is. */
  lemma DecimalReference(n: nat, zeros: nat, rest: string)
    ensures var digits := Zeros(zeros) + Dec(n);
            DecodePass("&" + ("#" + digits) + ";" + rest) ==
            if IsScalar(n) && |digits| <= 8 then [n as char] + DecodePass(rest)
            else "&" + ("#" + digits) + ";" + DecodePass(rest)
  {
    hide DecodeName, ParseU32, DecodePass, Numeral;
    var digits := Zeros(zeros) + Dec(n);
    NumberReads(n, 10, false, zeros);
    assert forall c :: c in digits ==> c in Zeros(zeros) || c in Dec(n);
    assert digits[0] in digits;
    NumberNameReads(n, digits);
    PlainDigits("#", digits);
    PassReads("#" + digits, rest);
  }

  /** A hexadecimal one has at most seven digits after its `x`; neither case matters. */
  lemma HexReference(n: nat, x: char, upper: bool, zeros: nat, rest: string)
    requires x == 'x' || x == 'X'
    ensures var digits := Zeros(zeros) + Numeral(n, 16, upper);
            DecodePass("&" + ("#" + [x] + digits) + ";" + rest) ==
            if IsScalar(n) && |digits| <= 7 then [n as char] + DecodePass(rest)
            else "&" + ("#" + [x] + digits) + ";" + DecodePass(rest)
  {
    hide DecodeName, ParseU32, DecodePass, Numeral;
    var digits := Zeros(zeros) + Numeral(n, 16, upper);
    NumberReads(n, 16, upper, zeros);
    assert forall c :: c in digits ==> c in Zeros(zeros) || c in Numeral(n, 16, upper);
    HexNameReads(n, x, digits);
    PlainDigits("#" + [x], digits);
    PassReads("#" + [x] + digits, rest);
  }

  lemma PlainDigits(start: string, digits: string)
    requires AllPlain(start)
    requires forall c :: c in digits ==> '0' <= c <= '9' || 'a' <= c <= 'f' || 'A' <= c <= 'F'
    ensures AllPlain(start + digits)
  {
    forall i | 0 <= i < |start + digits|
      ensures Plain((start + digits)[i])
    {
      if i >= |start| { assert digits[i - |start|] in digits; }
    }
  }

  // ------------------------------------------------------------ no entity

  /** Any other name is left as it is. */
  lemma OtherNames(name: string, rest: string)
    requires AllPlain(name) && (name == "" || name[0] != '#')
    requires name !in ["amp", "lt", "gt", "quot", "apos", "nbsp"]
    ensures DecodePass("&" + name + ";" + rest) == "&" + name + ";" + DecodePass(rest)
  {
    PassReads(name, rest);
    assert "#39"[0] == '#';
  }

  /** So is an ampersand with no semicolon among the next ten characters. */
  lemma LateSemicolon(s: string)
    requires forall i :: 0 <= i < |s| && i < 10 ==> s[i] != ';'
    ensures DecodePass("&" + s) == "&" + DecodePass(s)
  {
    var t := "&" + s;
    assert t[1..] == s;
    if Find(t, ';').Some? {
      var semi := Find(t, ';').value;
      assert t[semi] == s[semi - 1];
      BytesAtLeast(t[..semi]);
    }
  }

  lemma {:induction false} BytesAtLeast(s: string)
    ensures ByteLength(s) >= |s|
  {
    if s == "" {
    } else {
      BytesAtLeast(s[1..]);
    }
  }

  // ------------------------------------------------------------ the round trip

  /** One pass undoes the five replacements of the export, for every text. */
  lemma {:induction false} PassUndoesEscaping(s: string)
    ensures DecodePass(Xml.Esc(s)) == s
  {
    Xml.EscIsPerChar(s);
    PassUndoesEscapes(s);
  }

  lemma {:induction false} PassUndoesEscapes(s: string)
    ensures DecodePass(Xml.EscChars(s)) == s
  {
    hide DecodePass;
    if s == "" {
      NothingPasses();
    } else {
      var rest := Xml.EscChars(s[1..]);
      PassUndoesEscapes(s[1..]);
      EscapePasses(s[0], rest);
    }
  }

  lemma NothingPasses()
    ensures DecodePass("") == ""
  {
  }

  lemma EscapePasses(c: char, rest: string)
    ensures DecodePass(Xml.EscChar(c) + rest) == [c] + DecodePass(rest)
  {
    hide DecodePass;
    NamedEntities(rest);
    if c != '&' { PlainPasses([c], rest); }
  }
}
