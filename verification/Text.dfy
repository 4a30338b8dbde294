/** The pieces of Rust's string library that the modelled code relies on: Unicode white space,
    word splitting, single-character splitting and unsigned 32-bit parsing. A Dafny `char` is a
    Unicode scalar value, exactly like a Rust `char`. */
module Text {

  datatype Option<+T> = None | Some(value: T)

  const U32_MODULUS := 0x1_0000_0000

  /** `char::is_whitespace`: the Unicode White_Space property. */
  predicate IsWhitespace(c: char) {
    var n := c as int;
    || 0x09 <= n <= 0x0D
    || n == 0x20 || n == 0x85 || n == 0xA0 || n == 0x1680
    || 0x2000 <= n <= 0x200A
    || n == 0x2028 || n == 0x2029 || n == 0x202F || n == 0x205F || n == 0x3000
  }

  /** The twenty-five characters with that property, one by one. */
  lemma WhitespaceTable(c: char)
    ensures IsWhitespace(c) <==>
            c as int in [0x9, 0xA, 0xB, 0xC, 0xD, 0x20, 0x85, 0xA0, 0x1680, 0x2000, 0x2001, 0x2002, 0x2003, 0x2004,
                         0x2005, 0x2006, 0x2007, 0x2008, 0x2009, 0x200A, 0x2028, 0x2029, 0x202F, 0x205F, 0x3000]
  {
  }

  /** Texts that differ in the case of ASCII letters only. */
  predicate SameButCase(a: string, b: string) {
    |a| == |b| && forall i :: 0 <= i < |a| ==> SameLetter(a[i], b[i])
  }

  predicate SameLetter(a: char, b: char) {
    || a == b
    || ('a' <= a <= 'z' && b as int == a as int - 32)
    || ('a' <= b <= 'z' && a as int == b as int - 32)
  }

  /** A piece `split_whitespace` can yield: not empty and free of white space. */
  predicate IsWord(w: string) {
    |w| > 0 && forall i :: 0 <= i < |w| ==> !IsWhitespace(w[i])
  }

  predicate AllWords(ws: seq<string>) {
    forall i :: 0 <= i < |ws| ==> IsWord(ws[i])
  }

  /** Length of the leading run without white space. */
  function WordLength(s: string): (n: nat)
    ensures n <= |s|
    ensures forall i :: 0 <= i < n ==> !IsWhitespace(s[i])
    ensures n < |s| ==> IsWhitespace(s[n])
  {
    if s == "" || IsWhitespace(s[0]) then 0 else 1 + WordLength(s[1..])
  }

  /** `split_whitespace().collect()`. */
  function Words(s: string): (ws: seq<string>)
    ensures AllWords(ws)
    decreases |s|
  {
    if s == "" then []
    else if IsWhitespace(s[0]) then Words(s[1..])
    else [s[..WordLength(s)]] + Words(s[WordLength(s)..])
  }

  /** Text that cannot extend a word placed in front of it. */
  predicate StartsApart(s: string) {
    s == "" || IsWhitespace(s[0])
  }

  lemma WordsOfWordThen(w: string, s: string)
    requires IsWord(w) && StartsApart(s)
    ensures Words(w + s) == [w] + Words(s)
  {
    WordLengthOf(w, s);
    assert (w + s)[..|w|] == w;
    assert (w + s)[|w|..] == s;
  }

  lemma WordsOfWordSpace(w: string, s: string)
    requires IsWord(w)
    ensures Words(w + " " + s) == [w] + Words(s)
  {
    WordsOfWordThen(w, " " + s);
    assert (" " + s)[1..] == s;
    assert w + " " + s == w + (" " + s);
  }

  lemma WordLengthOf(w: string, s: string)
    requires (forall i :: 0 <= i < |w| ==> !IsWhitespace(w[i])) && StartsApart(s)
    ensures WordLength(w + s) == |w|
  {
    hide IsWhitespace;
    if w == "" {
      assert w + s == s;
    } else {
      assert (w + s)[1..] == w[1..] + s;
      WordLengthOf(w[1..], s);
    }
  }

  function TrimStart(s: string): (r: string)
    ensures r == "" || !IsWhitespace(r[0])
    ensures |r| <= |s| && r == s[|s| - |r|..]
    ensures forall i :: 0 <= i < |s| - |r| ==> IsWhitespace(s[i])
  {
    if s != "" && IsWhitespace(s[0]) then TrimStart(s[1..]) else s
  }

  function TrimEnd(s: string): (r: string)
    ensures r == "" || !IsWhitespace(r[|r| - 1])
    ensures |r| <= |s| && r == s[..|r|]
    ensures forall i :: |r| <= i < |s| ==> IsWhitespace(s[i])
  {
    if s != "" && IsWhitespace(s[|s| - 1]) then TrimEnd(s[..|s| - 1]) else s
  }

  /** `str::trim`. */
  function Trim(s: string): string {
    TrimEnd(TrimStart(s))
  }

  lemma TrimIsBlank(s: string)
    ensures Trim(s) == "" <==> forall i :: 0 <= i < |s| ==> IsWhitespace(s[i])
  {
    var t := TrimStart(s);
    if t != "" {
      assert t[0] == s[|s| - |t|];
    }
  }

  /** Nothing to trim and not empty. */
  predicate IsTrimmed(s: string) {
    s != "" && !IsWhitespace(s[0]) && !IsWhitespace(s[|s| - 1])
  }

  lemma TrimmedStays(s: string)
    requires IsTrimmed(s)
    ensures Trim(s) == s
  {
  }

  lemma TrimIsTrimmed(s: string)
    ensures Trim(s) == "" || IsTrimmed(Trim(s))
  {
    var t := TrimStart(s);
    assert Trim(s) == t[..|Trim(s)|];
  }

  /** `words.join(sep)`. */
  function Join(ws: seq<string>, sep: string): string {
    if |ws| == 0 then ""
    else if |ws| == 1 then ws[0]
    else ws[0] + sep + Join(ws[1..], sep)
  }

  /** `s.split(c)`: always at least one piece. */
  function SplitOn(s: string, c: char): (parts: seq<string>)
    ensures |parts| >= 1
  {
    if s == "" then [""]
    else
      var rest := SplitOn(s[1..], c);
      if s[0] == c then [""] + rest else [[s[0]] + rest[0]] + rest[1..]
  }

  lemma {:induction false} SplitOnNothing(s: string, c: char)
    requires c !in s
    ensures SplitOn(s, c) == [s]
  {
    if s == "" {
    } else {
      SplitOnNothing(s[1..], c);
      assert [s[0]] + s[1..] == s;
    }
  }

  /** `s.split_once(c)`: split at the first occurrence. */
  function SplitOnce(s: string, c: char): Option<(string, string)> {
    if s == "" then None
    else if s[0] == c then Some(("", s[1..]))
    else
      match SplitOnce(s[1..], c)
      case None => None
      case Some((a, b)) => Some(([s[0]] + a, b))
  }

  function DigitValue(c: char, radix: nat): Option<nat> {
    var n := c as int;
    var d := if '0' <= c <= '9' then n - 0x30
             else if 'a' <= c <= 'z' then n - 0x61 + 10
             else if 'A' <= c <= 'Z' then n - 0x41 + 10
             else radix;
    if d < radix then Some(d) else None
  }

  /** The checked multiply-and-add loop of `u32::from_str_radix`. */
  function ParseDigits(s: string, radix: nat, acc: nat): (r: Option<nat>)
    requires acc < U32_MODULUS
    ensures r.Some? ==> r.value < U32_MODULUS
    ensures r.Some? ==> forall i :: 0 <= i < |s| ==> DigitValue(s[i], radix).Some?
  {
    if s == "" then Some(acc)
    else
      match DigitValue(s[0], radix)
      case None => None
      case Some(d) =>
        if acc * radix + d < U32_MODULUS then ParseDigits(s[1..], radix, acc * radix + d) else None
  }

  /** `u32::from_str_radix(s, radix).ok()`: an optional `+`, then one or more digits. */
  function ParseU32(s: string, radix: nat): (r: Option<nat>)
    ensures r.Some? ==> r.value < U32_MODULUS
  {
    var digits := if s != "" && s[0] == '+' then s[1..] else s;
    if digits == "" then None else ParseDigits(digits, radix, 0)
  }
}
