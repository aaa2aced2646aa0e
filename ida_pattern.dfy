/**
 * The IDA-style signature text and its meaning as a token sequence.
 *
 * The parser walks the text once: a space emits nothing; `?` emits one
 * wildcard and swallows one directly following `?`; any other character starts
 * a base-16 number read by `strtol` (the maximal run of hex digits), which is
 * truncated to 16 bits, after which the cursor moves two characters on.
 *
 * The model accepts any text over hex digits, spaces and `?`. Within that
 * alphabet `strtol` has no sign, prefix or leading whitespace to deal with, so
 * its value is the run's value clamped to `LONG_MAX`.
 */
module IdaPattern {
  import opened Signature

  predicate IsHexDigit(c: char)
  {
    '0' <= c <= '9' || 'a' <= c <= 'f' || 'A' <= c <= 'F'
  }

  function HexDigitValue(c: char): (v: nat)
    requires IsHexDigit(c)
    ensures v < 16
    ensures ('0' <= c <= '9') <==> v < 10
  {
    if '0' <= c <= '9' then c as int - '0' as int
    else if 'a' <= c <= 'f' then c as int - 'a' as int + 10
    else c as int - 'A' as int + 10
  }

  /** The characters the signature text may contain. */
  predicate IsPatternChar(c: char)
  {
    c == ' ' || c == '?' || IsHexDigit(c)
  }

  predicate InAlphabet(s: string)
  {
    forall i :: 0 <= i < |s| ==> IsPatternChar(s[i])
  }

  /** `LONG_MAX` for the 32-bit `long` of the Windows targets the header is written for. */
  const LongMax: nat := 0x7FFF_FFFF

  /** The value of the maximal run of hex digits heading `s`, accumulated onto `acc` digit by digit. */
  function HexRun(s: string, acc: nat): (v: nat)
    ensures acc <= v
    ensures |s| > 0 && IsHexDigit(s[0]) ==> 16 * acc + HexDigitValue(s[0]) <= v
  {
    if |s| > 0 && IsHexDigit(s[0]) then HexRun(s[1..], 16 * acc + HexDigitValue(s[0])) else acc
  }

  predicate AllHex(ds: string)
  {
    forall i :: 0 <= i < |ds| ==> IsHexDigit(ds[i])
  }

  function Pow16(n: nat): (p: nat)
    ensures p >= 1
  {
    if n == 0 then 1 else 16 * Pow16(n - 1)
  }

  /** The positional base-16 value of a string of hex digits, most significant first. */
  function HexValue(ds: string): (v: nat)
    requires AllHex(ds)
    ensures v < Pow16(|ds|)
  {
    if |ds| == 0 then 0 else 16 * HexValue(ds[..|ds| - 1]) + HexDigitValue(ds[|ds| - 1])
  }

  /** The number of hex digits heading `s`. */
  function RunLength(s: string): (n: nat)
    ensures n <= |s| && AllHex(s[..n])
    ensures n == |s| || !IsHexDigit(s[n])
  {
    if |s| > 0 && IsHexDigit(s[0]) then
      var n := 1 + RunLength(s[1..]);
      assert s[..n] == [s[0]] + s[1..][..n - 1];
      n
    else 0
  }

  /** The rearrangement of `16 * (d * p + h) + x` used when a digit is split off. */
  lemma ShiftDigit(d: nat, p: nat, h: nat, x: nat)
    ensures 16 * (d * p + h) + x == d * (16 * p) + (16 * h + x)
  {
  }

  /** The rearrangement of `(16 * a + d) * p + h` used when a digit is accumulated. */
  lemma AccumulateDigit(a: nat, d: nat, p: nat, h: nat)
    ensures (16 * a + d) * p + h == a * (16 * p) + (d * p + h)
  {
  }

  /** Splitting off the leading digit: it weighs `16^(|ds|)` against the rest. */
  lemma {:induction false} HexValueFront(d: char, ds: string)
    requires IsHexDigit(d) && AllHex(ds)
    ensures AllHex([d] + ds)
    ensures HexValue([d] + ds) == HexDigitValue(d) * Pow16(|ds|) + HexValue(ds)
  {
    var s := [d] + ds;
    assert AllHex(s);
    if |ds| > 0 {
      var init := ds[..|ds| - 1];
      assert s[..|s| - 1] == [d] + init;
      assert s[|s| - 1] == ds[|ds| - 1];
      HexValueFront(d, init);
      ShiftDigit(HexDigitValue(d), Pow16(|init|), HexValue(init), HexDigitValue(ds[|ds| - 1]));
    } else {
      assert s[..|s| - 1] == [];
    }
  }

  /**
   * `strtol`'s digit loop computes the positional value: reading the digits
   * `ds` up to a non-digit onto `acc` gives `acc * 16^|ds| + HexValue(ds)`.
   */
  lemma {:induction false} HexRunValue(ds: string, rest: string, acc: nat)
    requires AllHex(ds)
    requires rest == [] || !IsHexDigit(rest[0])
    ensures HexRun(ds + rest, acc) == acc * Pow16(|ds|) + HexValue(ds)
  {
    if |ds| == 0 {
      assert ds + rest == rest;
    } else {
      var d := ds[0];
      var tail := ds[1..];
      assert ds == [d] + tail;
      assert (ds + rest)[1..] == tail + rest;
      HexRunValue(tail, rest, 16 * acc + HexDigitValue(d));
      HexValueFront(d, tail);
      AccumulateDigit(acc, HexDigitValue(d), Pow16(|tail|), HexValue(tail));
    }
  }

  /** `strtol(s, nullptr, 16)`: the value of the hex run heading `s`, saturated at `LONG_MAX` on overflow. */
  function Strtol16(s: string): (v: nat)
    ensures v <= LongMax
  {
    var v := HexRun(s, 0);
    if v > LongMax then LongMax else v
  }

  /**
   * `strtol` returns the positional value of the maximal hex run heading the
   * text, or `LONG_MAX` when that value does not fit a 32-bit `long`.
   */
  lemma Strtol16Value(s: string)
    ensures var run := s[..RunLength(s)];
      Strtol16(s) == if HexValue(run) > LongMax then LongMax else HexValue(run)
  {
    var n := RunLength(s);
    assert s == s[..n] + s[n..];
    HexRunValue(s[..n], s[n..], 0);
  }

  /** The implicit conversion of the `long` to `uint16_t` when it is pushed into the buffer. */
  function ToUint16(v: nat): (t: Token)
    ensures v < 0x1_0000 ==> t == v
    ensures (v - t) % 0x1_0000 == 0
  {
    v % 0x1_0000
  }

  /** The token sequence the parser produces for `s`. */
  function Parse(s: string): (r: seq<Token>)
    requires InAlphabet(s)
    ensures |r| <= |s|
    decreases |s|
  {
    if |s| == 0 then []
    else if s[0] == ' ' then Parse(s[1..])
    else if s[0] == '?' then
      [Wildcard] + Parse(if |s| > 1 && s[1] == '?' then s[2..] else s[1..])
    else
      // a number element: the cursor moves two characters on, but never past the end
      [ToUint16(Strtol16(s))] + Parse(if |s| > 1 then s[2..] else [])
  }

  /** One step of the parser's cursor at position `i` of `text`. */
  lemma ParseAt(text: string, i: nat)
    requires InAlphabet(text) && i < |text|
    ensures Parse(text[i..]) ==
      if text[i] == ' ' then Parse(text[i + 1..])
      else if text[i] == '?' then
        [Wildcard] + Parse(if i + 1 < |text| && text[i + 1] == '?' then text[i + 2..] else text[i + 1..])
      else
        [ToUint16(Strtol16(text[i..]))] + Parse(if i + 1 < |text| then text[i + 2..] else [])
  {
  }

  /** A space emits nothing. */
  lemma ParseSpace(t: string)
    requires InAlphabet(t)
    ensures InAlphabet(" " + t) && Parse(" " + t) == Parse(t)
  {
  }

  /** `?` not followed by another `?` emits exactly one wildcard and consumes one character. */
  lemma ParseSingleWildcard(t: string)
    requires InAlphabet(t)
    requires t == [] || t[0] != '?'
    ensures InAlphabet("?" + t) && Parse("?" + t) == [Wildcard] + Parse(t)
  {
  }

  /** `??` emits exactly one wildcard and consumes both characters. */
  lemma ParseDoubleWildcard(t: string)
    requires InAlphabet(t)
    ensures InAlphabet("??" + t) && Parse("??" + t) == [Wildcard] + Parse(t)
  {
  }

  /** A number of two hex digits followed by a non-digit has the digits' value. */
  lemma StrtolTwoDigits(hi: char, lo: char, rest: string)
    requires IsHexDigit(hi) && IsHexDigit(lo)
    requires rest == [] || !IsHexDigit(rest[0])
    ensures Strtol16([hi, lo] + rest) == 16 * HexDigitValue(hi) + HexDigitValue(lo)
  {
    var s := [hi, lo] + rest;
    assert s[1..] == [lo] + rest;
    assert s[1..][1..] == rest;
    calc {
      HexRun(s, 0);
      HexRun([lo] + rest, HexDigitValue(hi));
      HexRun(rest, 16 * HexDigitValue(hi) + HexDigitValue(lo));
    }
  }

  /** A number of one hex digit followed by a non-digit has the digit's value. */
  lemma StrtolOneDigit(d: char, rest: string)
    requires IsHexDigit(d)
    requires rest == [] || !IsHexDigit(rest[0])
    ensures Strtol16([d] + rest) == HexDigitValue(d)
  {
    assert ([d] + rest)[1..] == rest;
    assert HexRun([d] + rest, 0) == HexRun(rest, HexDigitValue(d));
  }

  /** One element of the well-formed signature grammar. */
  datatype Element =
    | Byte(hi: char, lo: char)   // two hex digits
    | Nibble(digit: char)        // one hex digit, leading zero left out
    | Wild                       // `?`
    | DoubleWild                 // `??`

  predicate WellFormed(e: Element)
  {
    match e
    case Byte(hi, lo) => IsHexDigit(hi) && IsHexDigit(lo)
    case Nibble(d) => IsHexDigit(d)
    case Wild => true
    case DoubleWild => true
  }

  function Spelling(e: Element): string
  {
    match e
    case Byte(hi, lo) => [hi, lo]
    case Nibble(d) => [d]
    case Wild => "?"
    case DoubleWild => "??"
  }

  /** The elements spelled out and separated by single spaces. */
  function Render(es: seq<Element>): string
  {
    if |es| == 0 then ""
    else if |es| == 1 then Spelling(es[0])
    else Spelling(es[0]) + " " + Render(es[1..])
  }

  /** The token an element stands for: its byte value, or the wildcard for both wildcard spellings. */
  function ElementToken(e: Element): (t: Token)
    requires WellFormed(e)
    ensures t <= Wildcard
    ensures t == Wildcard <==> e.Wild? || e.DoubleWild?
  {
    match e
    case Byte(hi, lo) => 16 * HexDigitValue(hi) + HexDigitValue(lo)
    case Nibble(d) => HexDigitValue(d)
    case Wild => Wildcard
    case DoubleWild => Wildcard
  }

  function Tokens(es: seq<Element>): (ts: seq<Token>)
    requires forall i :: 0 <= i < |es| ==> WellFormed(es[i])
    ensures |ts| == |es|
  {
    if |es| == 0 then [] else [ElementToken(es[0])] + Tokens(es[1..])
  }

  /** Parsing a spelled element followed by the rest of the text: one token, then the rest's tokens. */
  lemma {:induction false} ParseElement(e: Element, rest: string)
    requires WellFormed(e) && InAlphabet(rest)
    requires rest == [] || rest[0] == ' '
    ensures InAlphabet(Spelling(e) + rest)
    ensures Parse(Spelling(e) + rest) == [ElementToken(e)] + Parse(rest)
  {
    var s := Spelling(e) + rest;
    match e
    case Byte(hi, lo) =>
      StrtolTwoDigits(hi, lo, rest);
      assert s[2..] == rest;
    case Nibble(d) =>
      StrtolOneDigit(d, rest);
      if rest != [] {
        assert s[2..] == rest[1..];
        assert s[1..] == rest;
      }
    case Wild =>
      assert s[1..] == rest;
    case DoubleWild =>
      assert s[2..] == rest;
  }

  /**
   * The well-formed grammar round-trips: space-separated elements parse to one
   * token per element, in element order.
   */
  lemma {:induction false} ParseRender(es: seq<Element>)
    requires forall i :: 0 <= i < |es| ==> WellFormed(es[i])
    ensures InAlphabet(Render(es))
    ensures Parse(Render(es)) == Tokens(es)
  {
    if |es| == 1 {
      ParseElement(es[0], "");
      assert Spelling(es[0]) + "" == Spelling(es[0]);
    } else if |es| > 1 {
      ParseRender(es[1..]);
      var rest := " " + Render(es[1..]);
      ParseElement(es[0], rest);
      assert Spelling(es[0]) + " " + Render(es[1..]) == Spelling(es[0]) + rest;
      assert rest[1..] == Render(es[1..]);
    }
  }

  function HexChar(v: nat): (c: char)
    requires v < 16
    ensures IsHexDigit(c) && HexDigitValue(c) == v
  {
    "0123456789ABCDEF"[v]
  }

  /** The canonical spelling of a token: two upper-case hex digits, or `??` for the wildcard. */
  function TokenElement(t: Token): (e: Element)
    requires t <= Wildcard
    ensures WellFormed(e) && ElementToken(e) == t
  {
    if t == Wildcard then DoubleWild else Byte(HexChar(t / 16), HexChar(t % 16))
  }

  function TokenElements(p: seq<Token>): (es: seq<Element>)
    requires forall i :: 0 <= i < |p| ==> p[i] <= Wildcard
    ensures |es| == |p|
    ensures forall i :: 0 <= i < |es| ==> WellFormed(es[i]) && ElementToken(es[i]) == p[i]
  {
    if |p| == 0 then [] else [TokenElement(p[0])] + TokenElements(p[1..])
  }

  /** The signature text for a pattern of bytes and wildcards. */
  function Format(p: seq<Token>): string
    requires forall i :: 0 <= i < |p| ==> p[i] <= Wildcard
  {
    Render(TokenElements(p))
  }

  lemma {:induction false} TokensOfElements(p: seq<Token>)
    requires forall i :: 0 <= i < |p| ==> p[i] <= Wildcard
    ensures Tokens(TokenElements(p)) == p
  {
    if |p| > 0 {
      TokensOfElements(p[1..]);
    }
  }

  /** Formatting a pattern of bytes and wildcards and parsing the text gives the pattern back. */
  lemma FormatParse(p: seq<Token>)
    requires forall i :: 0 <= i < |p| ==> p[i] <= Wildcard
    ensures InAlphabet(Format(p))
    ensures Parse(Format(p)) == p
  {
    ParseRender(TokenElements(p));
    TokensOfElements(p);
  }

  lemma RenderCons(e: Element, es: seq<Element>)
    requires es != []
    ensures Render([e] + es) == Spelling(e) + " " + Render(es)
  {
  }

  /** The elements of the header's example, `FC E8 w w w w 8B 3D`, with wildcard spelling `w`. */
  function HeaderElements(w: Element): seq<Element>
  {
    [Byte('F', 'C'), Byte('E', '8'), w, w, w, w, Byte('8', 'B'), Byte('3', 'D')]
  }

  lemma HeaderRenderSingle()
    ensures Render(HeaderElements(Wild)) == "FC E8 ? ? ? ? 8B 3D"
  {
    var e7 := [Byte('3', 'D')];
    var e6 := [Byte('8', 'B')] + e7;
    RenderCons(Byte('8', 'B'), e7);
    var e5 := [Wild] + e6;
    RenderCons(Wild, e6);
    var e4 := [Wild] + e5;
    RenderCons(Wild, e5);
    var e3 := [Wild] + e4;
    RenderCons(Wild, e4);
    var e2 := [Wild] + e3;
    RenderCons(Wild, e3);
    var e1 := [Byte('E', '8')] + e2;
    RenderCons(Byte('E', '8'), e2);
    var e0 := [Byte('F', 'C')] + e1;
    RenderCons(Byte('F', 'C'), e1);
    assert e0 == HeaderElements(Wild);
  }

  lemma HeaderRenderDouble()
    ensures Render(HeaderElements(DoubleWild)) == "FC E8 ?? ?? ?? ?? 8B 3D"
  {
    var e7 := [Byte('3', 'D')];
    var e6 := [Byte('8', 'B')] + e7;
    RenderCons(Byte('8', 'B'), e7);
    var e5 := [DoubleWild] + e6;
    RenderCons(DoubleWild, e6);
    var e4 := [DoubleWild] + e5;
    RenderCons(DoubleWild, e5);
    var e3 := [DoubleWild] + e4;
    RenderCons(DoubleWild, e4);
    var e2 := [DoubleWild] + e3;
    RenderCons(DoubleWild, e3);
    var e1 := [Byte('E', '8')] + e2;
    RenderCons(Byte('E', '8'), e2);
    var e0 := [Byte('F', 'C')] + e1;
    RenderCons(Byte('F', 'C'), e1);
    assert e0 == HeaderElements(DoubleWild);
  }

  lemma HeaderTokens(w: Element)
    requires w == Wild || w == DoubleWild
    ensures Tokens(HeaderElements(w)) == [0xFC, 0xE8, Wildcard, Wildcard, Wildcard, Wildcard, 0x8B, 0x3D]
  {
  }

  /** The header's example with single-character wildcards. */
  lemma HeaderExampleSingle()
    ensures InAlphabet("FC E8 ? ? ? ? 8B 3D")
    ensures Parse("FC E8 ? ? ? ? 8B 3D") == [0xFC, 0xE8, Wildcard, Wildcard, Wildcard, Wildcard, 0x8B, 0x3D]
  {
    HeaderRenderSingle();
    HeaderTokens(Wild);
    ParseRender(HeaderElements(Wild));
  }

  /** The header's example with doubled wildcards. */
  lemma HeaderExampleDouble()
    ensures InAlphabet("FC E8 ?? ?? ?? ?? 8B 3D")
    ensures Parse("FC E8 ?? ?? ?? ?? 8B 3D") == [0xFC, 0xE8, Wildcard, Wildcard, Wildcard, Wildcard, 0x8B, 0x3D]
  {
    HeaderRenderDouble();
    HeaderTokens(DoubleWild);
    ParseRender(HeaderElements(DoubleWild));
  }

  /** A lone hex digit is a byte with a leading zero left out. */
  lemma SingleDigit()
    ensures InAlphabet("A") && Parse("A") == [0x0A]
  {
  }

  /**
   * Spaces between hex pairs cannot be left out: `strtol` reads the whole run
   * `FCE8`, and the cursor then lands on `E8` and reads it again.
   */
  lemma RunWithoutSpaces()
    ensures InAlphabet("FCE8") && Parse("FCE8") == [0xFCE8, 0xE8]
  {
    var s := "FCE8";
    assert s[1..] == "CE8" && s[2..] == "E8" && s[3..] == "8" && s[4..] == "";
    assert HexRun(s, 0) == 0xFCE8 by {
      calc {
        HexRun(s, 0);
        HexRun(s[1..], 0xF);
        HexRun(s[2..], 0xFC);
        HexRun(s[3..], 0xFCE);
        HexRun(s[4..], 0xFCE8);
      }
    }
    StrtolTwoDigits('E', '8', "");
    assert s[2..] == ['E', '8'] + "";
    assert Parse(s[2..]) == [0xE8] + Parse([]);
  }

  /**
   * A three-digit run whose value is 0x100 becomes the wildcard token, and the
   * cursor then reads its last digit again.
   */
  lemma RunOfWildcardValue()
    ensures InAlphabet("100 ") && Parse("100 ") == [Wildcard, 0x00]
  {
  }

  /**
   * A run too long for a 32-bit `long` saturates at `LONG_MAX`, whose low
   * 16 bits are all ones.
   */
  lemma StrtolSaturates()
    ensures Strtol16("FFFFFFFFF") == LongMax
    ensures ToUint16(LongMax) == 0xFFFF
  {
    var s := "FFFFFFFFF";
    assert HexRun(s, 0) >= 0xF_FFFF_FFFF by {
      calc {
        HexRun(s, 0);
        HexRun(s[1..], 0xF);
        HexRun(s[2..], 0xFF);
        HexRun(s[3..], 0xFFF);
        HexRun(s[4..], 0xFFFF);
        HexRun(s[5..], 0xF_FFFF);
        HexRun(s[6..], 0xFF_FFFF);
        HexRun(s[7..], 0xFFF_FFFF);
        HexRun(s[8..], 0xFFFF_FFFF);
      }
    }
  }

  /**
   * Spaces around a wildcard are significant: `? ?` is two wildcards, `??` is
   * one.
   */
  lemma WildcardSpacing()
    ensures InAlphabet("? ?") && Parse("? ?") == [Wildcard, Wildcard]
    ensures InAlphabet("??") && Parse("??") == [Wildcard]
  {
    ParseSingleWildcard(" ?");
    ParseSpace("?");
    ParseSingleWildcard("");
    ParseDoubleWildcard("");
    assert "? ?" == "?" + " ?" && " ?" == " " + "?" && "?" == "?" + "" && "??" == "??" + "";
  }

  /**
   * Spaces after a number are significant: the two-character step after `F`
   * jumps over a `?` written directly behind it, so `F?` loses the wildcard.
   */
  lemma NumberSpacing()
    ensures InAlphabet("F ?") && Parse("F ?") == [0x0F, Wildcard]
    ensures InAlphabet("F?") && Parse("F?") == [0x0F]
  {
    StrtolOneDigit('F', " ?");
    StrtolOneDigit('F', "?");
    assert "F ?"[2..] == "?" && "F?"[2..] == "";
    assert "F ?" == ['F'] + " ?" && "F?" == ['F'] + "?";
  }
}
