// Escapes: UTF-16 in the text becomes UTF-8 in memory (RFC 8259 section 7, RFC 3629), in the space measured for it.
module JsonStrings {
  import opened CStrings
  import opened JsonText

  // ---------- \u escapes ----------

  // Four hex digits, in any mix of small and capital ones, that write this number.
  predicate Spells(h: string, n: nat)
    requires n < 0x1_0000
  {
    && |h| == 4 && Means(h[0], n / 0x1000) && Means(h[1], n / 0x100 % 16) && Means(h[2], n / 16 % 16)
    && Means(h[3], n % 16)
  }

  lemma HexValueMeans(c: char, v: nat)
    requires v < 16
    ensures HexValue(c) == v <==> Means(c, v)
  {
    var small, capital := "0123456789abcdef", "0123456789ABCDEF";
    if v < 10 {
      assert small[v] as int == 48 + v && capital[v] as int == 48 + v;
    } else {
      assert small[v] as int == 87 + v && capital[v] as int == 55 + v;
    }
  }

  // A character that is no digit of either kind has no value.
  lemma NoHexDigit(c: char)
    ensures HexValue(c) < 0 <==> forall v: nat | v < 16 :: !Means(c, v)
  {
    if HexValue(c) >= 0 {
      HexValueMeans(c, HexValue(c));
    }
    forall v: nat | v < 16 && HexValue(c) < 0 ensures !Means(c, v) {
      HexValueMeans(c, v);
    }
  }

  lemma Nibbles(n: nat)
    requires n < 0x1_0000
    ensures n == ((n / 0x1000 * 16 + n / 0x100 % 16) * 16 + n / 16 % 16) * 16 + n % 16
  {
    assert n == n / 16 * 16 + n % 16;
    assert n / 16 == n / 16 / 16 * 16 + n / 16 % 16;
    assert n / 16 / 16 == n / 0x100 && n / 0x100 / 16 == n / 0x1000;
  }

  lemma Hex4Spells(h: string, n: nat, t: string)
    requires n < 0x1_0000 && Spells(h, n)
    ensures Hex4(h + t) == n
  {
    Nibbles(n);
    HexValueMeans(h[0], n / 0x1000);
    HexValueMeans(h[1], n / 0x100 % 16);
    HexValueMeans(h[2], n / 16 % 16);
    HexValueMeans(h[3], n % 16);
    hide HexValue, Means;
  }

  // With anything else among the four the number is 0.
  lemma Hex4OfOthers(h: string, i: nat, t: string)
    requires |h| == 4 && i < 4 && forall v: nat | v < 16 :: !Means(h[i], v)
    ensures Hex4(h + t) == 0
  {
    NoHexDigit(h[i]);
    hide HexValue, Means;
  }

  // The code point of a UTF-8 sequence (RFC 3629, section 3); -1 for anything else, overlong forms included.
  function FromUtf8(s: string): int {
    if |s| == 1 && s[0] < 0x80 as char then s[0] as int
    else if |s| == 2 && 0xC0 <= s[0] as int < 0xE0 && IsContinuation(s[1]) then
      AtLeast(0x80, (s[0] as int - 0xC0) * 0x40 + Low(s[1]))
    else if |s| == 3 && 0xE0 <= s[0] as int < 0xF0 && IsContinuation(s[1]) && IsContinuation(s[2]) then
      AtLeast(0x800, ((s[0] as int - 0xE0) * 0x40 + Low(s[1])) * 0x40 + Low(s[2]))
    else if |s| == 4 && 0xF0 <= s[0] as int < 0xF5 && IsContinuation(s[1]) && IsContinuation(s[2])
            && IsContinuation(s[3]) then
      AtLeast(0x1_0000, (((s[0] as int - 0xF0) * 0x40 + Low(s[1])) * 0x40 + Low(s[2])) * 0x40 + Low(s[3]))
    else -1
  }

  predicate IsContinuation(c: char) {
    0x80 <= c as int < 0xC0
  }

  function Low(c: char): int {
    c as int - 0x80
  }

  function AtLeast(min: int, uc: int): int {
    if uc < min then -1 else uc
  }

  lemma Sextets(n: nat)
    ensures n / 0x1000 == n / 0x40 / 0x40 && n / 0x4_0000 == n / 0x1000 / 0x40
    ensures n == n / 0x40 * 0x40 + n % 0x40
  {
  }

  lemma FourBytes(uc: nat)
    requires 0x1_0000 <= uc < 0x11_0000
    ensures FromUtf8(Utf8(uc)) == uc && forall i | 0 <= i < |Utf8(uc)| :: Utf8(uc)[i] as int < 0x100
  {
    Sextets(uc);
    Sextets(uc / 0x40);
    Sextets(uc / 0x1000);
  }

  lemma Utf8RoundTrip(uc: nat)
    requires uc < 0x11_0000
    ensures FromUtf8(Utf8(uc)) == uc
    ensures forall i | 0 <= i < |Utf8(uc)| :: Utf8(uc)[i] as int < 0x100
  {
    if uc < 0x1_0000 {
      Sextets(uc);
      Sextets(uc / 0x40);
    } else {
      hide Utf8, FromUtf8;
      FourBytes(uc);
    }
  }

  // The two halves of a code point outside the basic plane (RFC 2781, section 2.1).
  function High(uc: nat): nat
    requires 0x1_0000 <= uc < 0x11_0000
  {
    0xD800 + (uc - 0x1_0000) / 0x400
  }

  function LowHalf(uc: nat): nat
    requires 0x1_0000 <= uc < 0x11_0000
  {
    0xDC00 + (uc - 0x1_0000) % 0x400
  }

  lemma Halves(uc: nat)
    requires 0x1_0000 <= uc < 0x11_0000
    ensures 0xD800 <= High(uc) <= 0xDBFF && 0xDC00 <= LowHalf(uc) <= 0xDFFF
    ensures 0x1_0000 + (High(uc) - 0xD800) * 0x400 + (LowHalf(uc) - 0xDC00) == uc
  {
  }

  lemma PairStep(p: string, q: string, t: string, high: nat, low: nat)
    requires |p| >= 5 && p[0] == 'u' && p[5..] == q && |q| >= 6 && q[0] == '\\' && q[1] == 'u' && q[6..] == t
    requires Hex4(p[1..]) == high && Hex4(q[2..]) == low && 0xD800 <= high <= 0xDBFF && 0xDC00 <= low <= 0xDFFF
    ensures Unescape1(p) == Ok(Utf8(0x1_0000 + (high - 0xD800) * 0x400 + (low - 0xDC00)), t)
  {
    hide Hex4, Utf8;
  }

  // A code point outside the basic plane, written as a surrogate pair, is read as its UTF-8 bytes.
  lemma SurrogatePair(uc: nat, high: string, low: string, t: string)
    requires 0x1_0000 <= uc < 0x11_0000
    requires High(uc) < 0x1_0000 && LowHalf(uc) < 0x1_0000 && Spells(high, High(uc)) && Spells(low, LowHalf(uc))
    ensures Unescape1("u" + high + "\\u" + low + t) == Ok(Utf8(uc), t)
  {
    hide *;
    Halves(uc);
    var q := "\\u" + low + t;
    Regrouped(high, low, t);
    FourDigits(high, High(uc), q);
    SecondEscape(low, LowHalf(uc), t);
    PairStep("u" + high + q, q, t, High(uc), LowHalf(uc));
  }

  lemma Regrouped(h: string, h2: string, t: string)
    ensures "u" + h + "\\u" + h2 + t == "u" + h + ("\\u" + h2 + t)
  {
  }

  lemma SecondEscape(h: string, n: nat, t: string)
    requires n < 0x1_0000 && Spells(h, n)
    ensures var q := "\\u" + h + t; |q| >= 6 && q[0] == '\\' && q[1] == 'u' && Hex4(q[2..]) == n && q[6..] == t
  {
    hide *;
    SpelledLength(h, n);
    Hex4Spells(h, n, t);
    var q := "\\u" + h + t;
    assert q[2..] == h + t && q[6..] == t;
  }

  lemma SpelledLength(h: string, n: nat)
    requires n < 0x1_0000 && Spells(h, n)
    ensures |h| == 4
  {
  }

  lemma FourDigits(h: string, n: nat, t: string)
    requires n < 0x1_0000 && Spells(h, n)
    ensures var p := "u" + h + t; |p| >= 5 && p[0] == 'u' && Hex4(p[1..]) == n && p[5..] == t
  {
    var p := "u" + h + t;
    assert p[1..] == h + t && p[5..] == t;
    Hex4Spells(h, n, t);
    hide Hex4;
  }

  // A code point in the basic plane, other than NUL and the surrogates.
  lemma BasicPlane(uc: nat, h: string, t: string)
    requires (0 < uc < 0xD800 || 0xE000 <= uc < 0x1_0000) && Spells(h, uc)
    ensures Unescape1("u" + h + t) == Ok(Utf8(uc), t)
  {
    FourDigits(h, uc, t);
    hide Hex4, Spells, Utf8;
  }

  // Nothing is left of an escape for NUL or for a second half that comes first ...
  lemma NothingLeft(uc: nat, h: string, t: string)
    requires (uc == 0 || 0xDC00 <= uc <= 0xDFFF) && Spells(h, uc)
    ensures Unescape1("u" + h + t) == Ok("", t)
  {
    FourDigits(h, uc, t);
    hide Hex4, Spells, Utf8;
  }

  // ... nor of a first half, which takes with it the escape behind it when that is no second half.
  lemma LoneHigh(uc: nat, h: string, t: string)
    requires 0xD800 <= uc <= 0xDBFF && Spells(h, uc) && !(At(t, 0) == '\\' && At(t, 1) == 'u')
    ensures Unescape1("u" + h + t) == Ok("", t)
  {
    FourDigits(h, uc, t);
    hide Hex4, Spells, Utf8;
  }

  lemma HighWithoutLow(uc: nat, h: string, uc2: nat, h2: string, t: string)
    requires 0xD800 <= uc <= 0xDBFF && Spells(h, uc)
    requires uc2 < 0x1_0000 && !(0xDC00 <= uc2 <= 0xDFFF) && Spells(h2, uc2)
    ensures Unescape1("u" + h + "\\u" + h2 + t) == Ok("", t)
  {
    var q := "\\u" + h2 + t;
    hide Hex4, Spells, Utf8;
    Regrouped(h, h2, t);
    FourDigits(h, uc, q);
    SecondEscape(h2, uc2, t);
    UnpairedStep("u" + h + q, q, t, uc, uc2);
  }

  lemma UnpairedStep(p: string, q: string, t: string, high: nat, other: nat)
    requires |p| >= 5 && p[0] == 'u' && p[5..] == q && |q| >= 6 && q[0] == '\\' && q[1] == 'u' && q[6..] == t
    requires Hex4(p[1..]) == high && Hex4(q[2..]) == other
    requires 0xD800 <= high <= 0xDBFF && !(0xDC00 <= other <= 0xDFFF)
    ensures Unescape1(p) == Ok("", t)
  {
    hide Hex4, Utf8;
  }

  // ---------- escapes of one letter ----------

  // Backspace, form feed, newline, carriage return, tab; any other character, but the u, stands for itself.
  lemma LetterMeans(c: char, t: string)
    requires c != '\0' && c != 'u'
    ensures Unescape1([c] + t)
         == Ok(if c == 'b' then [8 as char] else if c == 'f' then [12 as char] else if c == 'n' then [10 as char]
               else if c == 'r' then [13 as char] else if c == 't' then [9 as char] else [c], t)
  {
    assert ([c] + t)[1..] == t;
    hide UnescapeU;
  }

  // What is printed for a character that a string cannot hold as it is.
  lemma EscapeIs(c: char)
    requires c as int < 32 || c == '\"' || c == '\\'
    ensures EscapeChar(c)
         == if c == '\"' then "\\\"" else if c == '\\' then "\\\\"
            else if c as int == 8 then "\\b" else if c as int == 12 then "\\f" else if c as int == 10 then "\\n"
            else if c as int == 13 then "\\r" else if c as int == 9 then "\\t"
            else "\\u00" + ["0123456789abcdef"[c as int / 16], "0123456789abcdef"[c as int % 16]]
  {
    var digits := "0123456789abcdef";
    assert forall d | 0 <= d < 16 :: HexDigit(d) == digits[d];
  }

  // All others are printed as they are.
  lemma {:induction false} PlainIsKept(s: string)
    requires forall i | 0 <= i < |s| :: s[i] as int >= 32 && s[i] != '\"' && s[i] != '\\'
    ensures Quote(s) == "\"" + s + "\""
  {
    PlainEscape(s);
  }

  lemma {:induction false} PlainEscape(s: string)
    requires forall i | 0 <= i < |s| :: s[i] as int >= 32 && s[i] != '\"' && s[i] != '\\'
    ensures Escape(s) == s
  {
    if s != [] {
      PlainEscape(s[1..]);
      assert [s[0]] + s[1..] == s;
    }
  }

  // ---------- the space for a string ----------

  // The first loop of parse_string: how many bytes it asks for, and what it leaves of the text.
  function Measure(s: string): (nat, string)
    decreases |s|
  {
    if At(s, 0) == '\0' || s[0] == '\"' then (0, s)
    else if s[0] != '\\' then (Measure(s[1..]).0 + 1, Measure(s[1..]).1)
    else if |s| < 2 then (1, "")
    else (Measure(s[2..]).0 + 1, Measure(s[2..]).1)
  }

  lemma FourPlainMeasure(s: string)
    requires FourPlain(s) && WholeEscapes(s)
    ensures Measure(s) == (Measure(s[4..]).0 + 4, Measure(s[4..]).1) && WholeEscapes(s[4..])
  {
    var s1, s2, s3 := s[1..], s[2..], s[3..];
    assert s1[1..] == s2 && s2[1..] == s3 && s3[1..] == s[4..];
    PlainMeasure(s);
    PlainMeasure(s1);
    PlainMeasure(s2);
    PlainMeasure(s3);
    hide Measure, WholeEscapes;
  }

  lemma PlainMeasure(s: string)
    requires s != [] && IsPlain(s[0])
    ensures Measure(s) == (Measure(s[1..]).0 + 1, Measure(s[1..]).1) && WholeEscapes(s) == WholeEscapes(s[1..])
  {
  }

  ghost predicate Fits(s: string, e: Parsed<string>) {
    e.Ok? && WholeEscapes(e.rest) && Measure(s).1 == Measure(e.rest).1 && |e.value| + Measure(e.rest).0 <= Measure(s).0
  }

  lemma MeasureEscape(s: string)
    requires |s| >= 2 && s[0] == '\\' && WholeEscapes(s)
    ensures Measure(s) == (Measure(s[2..]).0 + 1, Measure(s[2..]).1) && WholeEscapes(s[2..])
    ensures s[1] == 'u' ==> FourPlain(s[2..])
  {
  }

  lemma ShortFits(s: string)
    requires |s| >= 2 && s[0] == '\\' && s[1] != 'u' && WholeEscapes(s)
    ensures Fits(s, Unescape1(s[1..]))
  {
    MeasureEscape(s);
    hide UnescapeU, Measure, WholeEscapes;
    assert s[1..][1..] == s[2..];
  }

  lemma LongEscape(p: string)
    requires p != [] && p[0] == 'u'
    ensures Unescape1(p) == UnescapeU(p)
  {
    hide UnescapeU;
  }

  // An escape is read in one piece, whichever loop reads it, and is no shorter than what it stands for.
  lemma EscapeFits(s: string)
    requires s != [] && s[0] == '\\' && WholeEscapes(s)
    ensures |s| >= 2 && Fits(s, Unescape1(s[1..]))
  {
    hide *;
    EscapeIsTwo(s);
    MeasureEscape(s);
    if s[1] == 'u' {
      FourPlainMeasure(s[2..]);
      assert s[2..][4..] == s[6..];
      FourPlainLength(s[2..]);
      UnicodeFits(s);
      LongEscape(s[1..]);
    } else {
      ShortFits(s);
    }
  }

  lemma EscapeIsTwo(s: string)
    requires s != [] && s[0] == '\\' && WholeEscapes(s)
    ensures |s| >= 2
  {
  }

  lemma FourPlainLength(s: string)
    requires FourPlain(s)
    ensures |s| >= 4
  {
  }

  lemma UnicodeFits(s: string)
    requires |s| >= 6 && s[0] == '\\' && s[1] == 'u' && WholeEscapes(s[6..])
    requires Measure(s) == (Measure(s[6..]).0 + 5, Measure(s[6..]).1)
    ensures Fits(s, UnescapeU(s[1..]))
  {
    var q := s[6..];
    assert s[1..][5..] == q;
    if At(q, 0) == '\\' && At(q, 1) == 'u' {
      MeasureEscape(q);
      FourPlainMeasure(q[2..]);
      assert q[2..][4..] == q[6..];
    }
    hide Measure, WholeEscapes, Hex4, Utf8;
    Utf8Length();
  }

  lemma Utf8Length()
    ensures forall uc: nat | uc < 0x11_0000 :: |Utf8(uc)| <= 4
    ensures forall uc: nat | uc < 0x1_0000 :: |Utf8(uc)| <= 3
  {
  }

  // parse_string never writes past the space it asked for, and both its loops stop at the same place.
  lemma {:induction false} StringFits(s: string)
    requires WholeEscapes(s)
    ensures Unescape(s).Ok? && |Unescape(s).value| <= Measure(s).0
    ensures Unescape(s).rest == if At(Measure(s).1, 0) == '\"' then Measure(s).1[1..] else Measure(s).1
    decreases |s|
  {
    if At(s, 0) == '\0' || s[0] == '\"' {
    } else if s[0] != '\\' {
      StringFits(s[1..]);
    } else {
      EscapeFits(s);
      StringFits(Unescape1(s[1..]).rest);
      hide Unescape1, WholeEscapes;
    }
  }
}
