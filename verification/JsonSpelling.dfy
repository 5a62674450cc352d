// How numbers and strings are spelled in the texts that cJSON_Parse accepts, said without the parser.
module JsonSpellings {
  import opened CStrings
  import opened JsonText
  import opened JsonStrings

  // ---------- numbers ----------

  // Nothing follows that would belong to the number: no digit, but a 0 behind a 0 that stands alone, and neither a
  // fraction nor an exponent, which this model does not follow.
  predicate NumberEnds(zero: bool, m: nat, rest: string) {
    rest != "" ==>
      && !('1' <= rest[0] <= '9') && (rest[0] == '0' ==> zero && m == 0)
      && rest[0] != 'e' && rest[0] != 'E' && !(rest[0] == '.' && |rest| > 1 && '0' <= rest[1] <= '9')
  }

  // An optional minus sign, an optional 0, and digits that do not begin with 0, of which one is enough.
  predicate NumberIs(s: string, n: int, rest: string, minus: bool, zero: bool, m: nat) {
    && (minus || zero || m > 0)
    && s == (if minus then "-" else "") + ((if zero then "0" else "") + ((if m > 0 then Decimal(m) else "") + rest))
    && n == (if minus then 0 - m else m) && -0x8000_0000 <= n < 0x8000_0000 && NumberEnds(zero, m, rest)
  }

  ghost predicate NumberReads(s: string, n: int, rest: string) {
    exists minus, zero, m :: NumberIs(s, n, rest, minus, zero, m)
  }

  lemma {:induction false} DigitsAreDecimal(s: string, n: nat) returns (t: string)
    requires n > 0
    ensures var d := Digits(s, n); s == t + d.1 && Decimal(n) + t == Decimal(d.0) && !IsDigit(At(d.1, 0))
    ensures Digits(s, n).0 > 0
    decreases |s|
  {
    t := "";
    if IsDigit(At(s, 0)) {
      var n' := n * 10 + DigitValue(s[0]);
      assert n' / 10 == n && Digit(n' % 10) == s[0];
      t := DigitsAreDecimal(s[1..], n');
      assert Decimal(n) + ([s[0]] + t) == Decimal(n') + t;
      t := [s[0]] + t;
    } else {
      assert Decimal(n) + "" == Decimal(n);
    }
  }

  lemma DigitsAreNumber(s: string) returns (m: nat, rest: string)
    requires '1' <= At(s, 0) <= '9'
    ensures Digits(s, 0) == (m, rest) && m > 0 && s == Decimal(m) + rest && !IsDigit(At(rest, 0))
  {
    var d := DigitValue(s[0]);
    assert Digits(s, 0) == Digits(s[1..], d) && Decimal(d) == [s[0]];
    var t := DigitsAreDecimal(s[1..], d);
    m, rest := Digits(s, 0).0, Digits(s, 0).1;
    assert s == [s[0]] + s[1..];
  }

  // What the parser makes of such a number.
  lemma NumberRead(minus: bool, zero: bool, m: nat, rest: string)
    requires (minus || zero || m > 0) && NumberEnds(zero, m, rest)
    requires m <= 0x8000_0000 && (m == 0x8000_0000 ==> minus)
    ensures ParseNumber((if minus then "-" else "")
                        + ((if zero then "0" else "") + ((if m > 0 then Decimal(m) else "") + rest)))
         == Ok(Number(if minus then 0 - m else m), rest)
  {
    hide *;
    var s2 := (if m > 0 then Decimal(m) else "") + rest;
    var s1 := (if zero then "0" else "") + s2;
    var s := (if minus then "-" else "") + s1;
    DigitsPart(zero, m, rest);
    assert minus ==> s[1..] == s1;
    assert !minus ==> s == s1;
    assert zero ==> s1[1..] == s2;
    assert !zero ==> s1 == s2;
    NumberSteps(s, s1, s2, m, rest, minus, zero);
  }

  lemma DigitsPart(zero: bool, m: nat, rest: string)
    requires NumberEnds(zero, m, rest)
    ensures var s2 := (if m > 0 then Decimal(m) else "") + rest;
            && (zero || s2 == "" || s2[0] != '0')
            && if m > 0 then s2 != "" && '1' <= s2[0] <= '9' && Digits(s2, 0) == (m, rest)
               else s2 == rest && (rest == "" || !('1' <= rest[0] <= '9'))
    ensures !(rest != "" && rest[0] == '.' && |rest| > 1 && '0' <= rest[1] <= '9')
    ensures rest != "" ==> rest[0] != 'e' && rest[0] != 'E'
  {
    DecimalStarts(m);
    if m > 0 {
      DigitsOfDecimal(m, rest);
      assert Digits(rest, m) == (m, rest);
    }
    hide Digits, Decimal;
  }

  lemma NumberSteps(s: string, s1: string, s2: string, m: nat, rest: string, minus: bool, zero: bool)
    requires m <= 0x8000_0000 && (m == 0x8000_0000 ==> minus)
    requires !(rest != "" && rest[0] == '.' && |rest| > 1 && '0' <= rest[1] <= '9')
    requires rest != "" ==> rest[0] != 'e' && rest[0] != 'E'
    requires if minus then s != "" && s[0] == '-' && s[1..] == s1 else (s == "" || s[0] != '-') && s == s1
    requires if zero then s1 != "" && s1[0] == '0' && s1[1..] == s2 else (s1 == "" || s1[0] != '0') && s1 == s2
    requires if m > 0 then s2 != "" && '1' <= s2[0] <= '9' && Digits(s2, 0) == (m, rest)
             else s2 == rest && (rest == "" || !('1' <= rest[0] <= '9'))
    ensures ParseNumber(s) == Ok(Number(if minus then 0 - m else m), rest)
  {
    hide Digits;
  }

  // A number is read exactly where one is spelled.
  lemma NumberIff(s: string, v: Value, rest: string)
    requires s != "" && (s[0] == '-' || '0' <= s[0] <= '9')
    ensures ParseNumber(s) == Ok(v, rest) <==> v.Number? && NumberReads(s, v.n, rest)
  {
    hide Digits, Decimal, NumberEnds;
    if ParseNumber(s) == Ok(v, rest) {
      NumberSpelled(s, v, rest);
    }
    if v.Number? && NumberReads(s, v.n, rest) {
      var minus, zero, m :| NumberIs(s, v.n, rest, minus, zero, m);
      NumberRead(minus, zero, m, rest);
    }
  }

  lemma NumberSpelled(s: string, v: Value, rest: string)
    requires s != "" && (s[0] == '-' || '0' <= s[0] <= '9') && ParseNumber(s) == Ok(v, rest)
    ensures v.Number? && NumberReads(s, v.n, rest)
  {
    hide *;
    var minus := s[0] == '-';
    var s1 := if minus then s[1..] else s;
    var zero := s1 != "" && s1[0] == '0';
    var s2 := if zero then s1[1..] else s1;
    var m, r := 0, s2;
    if s2 != "" && '1' <= s2[0] <= '9' {
      AtFront(s2);
      m, r := DigitsAreNumber(s2);
      AtFront(r);
    }
    NumberParts(s, v, rest, s1, s2, minus, zero, m, r);
    assert s == (if minus then "-" else "") + s1;
    assert s1 == (if zero then "0" else "") + s2;
    assert s2 == (if m > 0 then Decimal(m) else "") + r;
    NumberIsHere(s, v.n, rest, minus, zero, m);
  }

  lemma AtFront(s: string)
    ensures s != "" ==> At(s, 0) == s[0] && (IsDigit(s[0]) <==> '0' <= s[0] <= '9')
  {
  }

  lemma NumberIsHere(s: string, n: int, rest: string, minus: bool, zero: bool, m: nat)
    requires minus || zero || m > 0
    requires s
          == (if minus then "-" else "") + ((if zero then "0" else "") + ((if m > 0 then Decimal(m) else "") + rest))
    requires n == (if minus then 0 - m else m) && -0x8000_0000 <= n < 0x8000_0000 && NumberEnds(zero, m, rest)
    ensures NumberReads(s, n, rest)
  {
    hide Decimal, NumberEnds;
    assert NumberIs(s, n, rest, minus, zero, m);
  }

  lemma NumberParts(s: string, v: Value, rest: string, s1: string, s2: string, minus: bool, zero: bool, m: nat,
                    r: string)
    requires s != "" && (s[0] == '-' || '0' <= s[0] <= '9') && ParseNumber(s) == Ok(v, rest)
    requires (minus <==> s[0] == '-') && s1 == (if minus then s[1..] else s)
    requires (zero <==> s1 != "" && s1[0] == '0') && s2 == (if zero then s1[1..] else s1)
    requires if s2 != "" && '1' <= s2[0] <= '9'
             then Digits(s2, 0) == (m, r) && m > 0 && (r != "" ==> !('0' <= r[0] <= '9'))
             else m == 0 && r == s2
    ensures v == Number(if minus then 0 - m else m) && rest == r && NumberEnds(zero, m, rest)
    ensures minus || zero || m > 0
  {
    hide Digits;
  }

  // ---------- strings ----------

  // A character, a backslash and a letter, a \u escape whose four characters write a number or do not, and an escape
  // for the first half of a pair together with the escape behind it.
  datatype Piece =
    | Usual(c: char) | Letter(c: char) | Code(h: string, uc: nat) | NoCode(h: string)
    | Pair(h: string, uc: nat, k: string, uc2: nat) | HalfPair(h: string, uc: nat, k: string)

  predicate Unquoted(c: char) {
    c != '\0' && c != '\"' && c != '\\'
  }

  predicate NoDigit(c: char) {
    forall v: nat | v < 16 :: !Means(c, v)
  }

  // Four characters inside a string, not all of them hex digits.
  predicate NoNumber(h: string) {
    && |h| == 4 && Unquoted(h[0]) && Unquoted(h[1]) && Unquoted(h[2]) && Unquoted(h[3])
    && (NoDigit(h[0]) || NoDigit(h[1]) || NoDigit(h[2]) || NoDigit(h[3]))
  }

  predicate FirstHalf(uc: nat) {
    0xD800 <= uc <= 0xDBFF
  }

  predicate Good(p: Piece) {
    match p
    case Usual(c) => Unquoted(c)
    case Letter(c) => c != '\0' && c != 'u'
    case Code(h, uc) => uc < 0x1_0000 && Spells(h, uc)
    case NoCode(h) => NoNumber(h)
    case Pair(h, uc, k, uc2) => FirstHalf(uc) && Spells(h, uc) && uc2 < 0x1_0000 && Spells(k, uc2)
    case HalfPair(h, uc, k) => FirstHalf(uc) && Spells(h, uc) && NoNumber(k)
  }

  // What stands in the text, and the bytes it means.
  function Source(p: Piece): string {
    match p
    case Usual(c) => [c]
    case Letter(c) => ['\\', c]
    case Code(h, _) => "\\u" + h
    case NoCode(h) => "\\u" + h
    case Pair(h, _, k, _) => "\\u" + h + "\\u" + k
    case HalfPair(h, _, k) => "\\u" + h + "\\u" + k
  }

  function Meaning(p: Piece): string
    requires Good(p)
  {
    match p
    case Usual(c) => [c]
    case Letter(c) =>
      if c == 'b' then [8 as char] else if c == 'f' then [12 as char] else if c == 'n' then [10 as char]
      else if c == 'r' then [13 as char] else if c == 't' then [9 as char] else [c]
    case Code(_, uc) => if uc == 0 || 0xD800 <= uc <= 0xDFFF then "" else Utf8(uc)
    case NoCode(_) => ""
    case Pair(_, uc, _, uc2) =>
      if 0xDC00 <= uc2 <= 0xDFFF then Utf8(0x1_0000 + (uc - 0xD800) * 0x400 + (uc2 - 0xDC00)) else ""
    case HalfPair(_, _, _) => ""
  }

  predicate OfCode(p: Piece) {
    !p.Usual? && !p.Letter?
  }

  // A first half by itself has no \u escape behind it: the two would be a pair.
  predicate Writing(ps: seq<Piece>) {
    ps == [] ||
      (Good(ps[0]) && Writing(ps[1..]) && (ps[0].Code? && FirstHalf(ps[0].uc) && |ps| > 1 ==> !OfCode(ps[1])))
  }

  function Sources(ps: seq<Piece>): string {
    if ps == [] then "" else Source(ps[0]) + Sources(ps[1..])
  }

  function Meanings(ps: seq<Piece>): string
    requires Writing(ps)
  {
    if ps == [] then "" else Meaning(ps[0]) + Meanings(ps[1..])
  }

  // What ends a string, with rest behind it: a quotation mark, or the end of the text.
  predicate Closes(tail: string, rest: string) {
    tail == "\"" + rest || (tail == rest && (rest == "" || rest[0] == '\0'))
  }

  predicate StringIs(s: string, t: string, rest: string, ps: seq<Piece>, tail: string) {
    Writing(ps) && t == Meanings(ps) && s == "\"" + (Sources(ps) + tail) && Closes(tail, rest)
  }

  ghost predicate StringReads(s: string, t: string, rest: string) {
    exists ps, tail :: StringIs(s, t, rest, ps, tail)
  }

  // ---------- one piece ----------

  predicate UAhead(s: string) {
    |s| > 1 && s[0] == '\\' && s[1] == 'u'
  }

  lemma DigitIsUnquoted(c: char, v: nat)
    requires v < 16 && Means(c, v)
    ensures Unquoted(c) && !NoDigit(c)
  {
    HexValueMeans(c, v);
  }

  lemma SpelledUnquoted(h: string, n: nat)
    requires n < 0x1_0000 && Spells(h, n)
    ensures |h| == 4 && Unquoted(h[0]) && Unquoted(h[1]) && Unquoted(h[2]) && Unquoted(h[3])
  {
    DigitIsUnquoted(h[0], n / 0x1000);
    DigitIsUnquoted(h[1], n / 0x100 % 16);
    DigitIsUnquoted(h[2], n / 16 % 16);
    DigitIsUnquoted(h[3], n % 16);
    hide Means;
  }

  // Four characters of an escape do not change whether the escapes behind them are whole.
  lemma FourMore(h: string, u: string)
    requires |h| == 4 && Unquoted(h[0]) && Unquoted(h[1]) && Unquoted(h[2]) && Unquoted(h[3])
    ensures FourPlain(h + u) && WholeEscapes(h + u) == WholeEscapes(u)
  {
    var s := h + u;
    assert s[1..][1..] == s[2..] && s[2..][1..] == s[3..] && s[3..][1..] == u;
    PlainMeasure(s);
    PlainMeasure(s[1..]);
    PlainMeasure(s[2..]);
    PlainMeasure(s[3..]);
    hide WholeEscapes, Measure;
  }

  lemma EscapeWhole(h: string, u: string)
    requires |h| == 4 && Unquoted(h[0]) && Unquoted(h[1]) && Unquoted(h[2]) && Unquoted(h[3])
    ensures WholeEscapes("\\u" + h + u) == WholeEscapes(u)
  {
    var s := "\\u" + h + u;
    assert s[2..] == h + u;
    FourMore(h, u);
    EscapeUnfolds(s);
    hide WholeEscapes;
  }

  lemma EscapeUnfolds(s: string)
    requires |s| >= 2 && s[0] == '\\' && s[1] == 'u'
    ensures WholeEscapes(s) <==> FourPlain(s[2..]) && WholeEscapes(s[2..])
  {
    hide FourPlain;
  }

  lemma NoNumberIsZero(h: string, t: string)
    requires NoNumber(h)
    ensures Hex4(h + t) == 0
  {
    hide Hex4, Means;
    var i := if NoDigit(h[0]) then 0 else if NoDigit(h[1]) then 1 else if NoDigit(h[2]) then 2 else 3;
    Hex4OfOthers(h, i, t);
  }

  // A piece is read as what it means, and what follows it as it would be by itself.
  lemma PieceRead(p: Piece, u: string)
    requires Good(p) && (p.Code? && FirstHalf(p.uc) ==> !UAhead(u))
    ensures WholeEscapes(Source(p) + u) == WholeEscapes(u)
    ensures Unescape(Source(p) + u) == Prepend(Meaning(p), Unescape(u))
  {
    hide *;
    match p
    case Usual(c) => UsualRead(c, u);
    case Letter(c) => LetterRead(c, u);
    case Code(h, uc) => CodeRead(h, uc, u);
    case NoCode(h) => NoCodeRead(h, u);
    case Pair(h, uc, k, uc2) => PairRead(h, uc, k, uc2, u);
    case HalfPair(h, uc, k) => HalfPairRead(h, uc, k, u);
  }

  lemma UsualRead(c: char, u: string)
    requires Good(Usual(c))
    ensures WholeEscapes(Source(Usual(c)) + u) == WholeEscapes(u)
    ensures Unescape(Source(Usual(c)) + u) == Prepend(Meaning(Usual(c)), Unescape(u))
  {
    var s := [c] + u;
    assert s[1..] == u;
    hide Prepend, Unescape1;
  }

  // A backslash, and what the one-escape reader makes of what follows it.
  lemma EscapeRead(s: string, t: string, u: string)
    requires s != "" && s[0] == '\\' && Unescape1(s[1..]) == Ok(t, u)
    ensures Unescape(s) == Prepend(t, Unescape(u))
  {
    hide Unescape1, Prepend;
  }

  lemma LetterRead(c: char, u: string)
    requires Good(Letter(c))
    ensures WholeEscapes(Source(Letter(c)) + u) == WholeEscapes(u)
    ensures Unescape(Source(Letter(c)) + u) == Prepend(Meaning(Letter(c)), Unescape(u))
  {
    var s := ['\\', c] + u;
    assert s[1..] == [c] + u && s[2..] == u;
    hide Unescape, Unescape1;
    LetterMeans(c, u);
    EscapeRead(s, Meaning(Letter(c)), u);
  }

  lemma CodeRead(h: string, uc: nat, u: string)
    requires Good(Code(h, uc)) && (FirstHalf(uc) ==> !UAhead(u))
    ensures WholeEscapes(Source(Code(h, uc)) + u) == WholeEscapes(u)
    ensures Unescape(Source(Code(h, uc)) + u) == Prepend(Meaning(Code(h, uc)), Unescape(u))
  {
    var s := "\\u" + h + u;
    assert s[1..] == "u" + h + u;
    hide WholeEscapes, Unescape, Unescape1, Spells, Utf8;
    SpelledUnquoted(h, uc);
    EscapeWhole(h, u);
    if uc == 0 || 0xDC00 <= uc <= 0xDFFF {
      NothingLeft(uc, h, u);
    } else if FirstHalf(uc) {
      LoneHigh(uc, h, u);
    } else {
      BasicPlane(uc, h, u);
    }
    EscapeRead(s, Meaning(Code(h, uc)), u);
  }

  lemma NoCodeRead(h: string, u: string)
    requires Good(NoCode(h))
    ensures WholeEscapes(Source(NoCode(h)) + u) == WholeEscapes(u)
    ensures Unescape(Source(NoCode(h)) + u) == Prepend(Meaning(NoCode(h)), Unescape(u))
  {
    var s := "\\u" + h + u;
    var p := "u" + h + u;
    assert s[1..] == p && p[1..] == h + u && p[5..] == u;
    hide WholeEscapes, Unescape, NoDigit, Utf8, Hex4;
    EscapeWhole(h, u);
    NoNumberIsZero(h, u);
    EscapeRead(s, "", u);
  }

  lemma TwoEscapes(h: string, k: string, u: string)
    requires |h| == 4 && |k| == 4
    ensures var s, q := "\\u" + h + "\\u" + k + u, "\\u" + k + u;
            && s == "\\u" + h + q && s[1..] == "u" + h + q && |q| >= 6 && q[0] == '\\' && q[1] == 'u'
            && q[2..] == k + u && q[6..] == u
  {
    var q := "\\u" + k + u;
    assert "\\u" + h + "\\u" + k + u == "\\u" + h + q;
  }

  lemma PairRead(h: string, uc: nat, k: string, uc2: nat, u: string)
    requires Good(Pair(h, uc, k, uc2))
    ensures WholeEscapes(Source(Pair(h, uc, k, uc2)) + u) == WholeEscapes(u)
    ensures Unescape(Source(Pair(h, uc, k, uc2)) + u) == Prepend(Meaning(Pair(h, uc, k, uc2)), Unescape(u))
  {
    var q := "\\u" + k + u;
    hide WholeEscapes, Unescape, Unescape1, Spells, Utf8, Hex4;
    SpelledUnquoted(h, uc);
    SpelledUnquoted(k, uc2);
    TwoEscapes(h, k, u);
    EscapeWhole(k, u);
    EscapeWhole(h, q);
    FourDigits(h, uc, q);
    Hex4Spells(k, uc2, u);
    if 0xDC00 <= uc2 <= 0xDFFF {
      PairStep("u" + h + q, q, u, uc, uc2);
    } else {
      UnpairedStep("u" + h + q, q, u, uc, uc2);
    }
    EscapeRead("\\u" + h + q, Meaning(Pair(h, uc, k, uc2)), u);
  }

  lemma HalfPairRead(h: string, uc: nat, k: string, u: string)
    requires Good(HalfPair(h, uc, k))
    ensures WholeEscapes(Source(HalfPair(h, uc, k)) + u) == WholeEscapes(u)
    ensures Unescape(Source(HalfPair(h, uc, k)) + u) == Prepend(Meaning(HalfPair(h, uc, k)), Unescape(u))
  {
    var q := "\\u" + k + u;
    hide WholeEscapes, Unescape, Unescape1, Spells, NoDigit, Hex4;
    SpelledUnquoted(h, uc);
    TwoEscapes(h, k, u);
    EscapeWhole(k, u);
    EscapeWhole(h, q);
    FourDigits(h, uc, q);
    NoNumberIsZero(k, u);
    UnpairedStep("u" + h + q, q, u, uc, 0);
    EscapeRead("\\u" + h + q, "", u);
  }

  // ---------- all pieces ----------

  lemma ClosedRead(tail: string, rest: string)
    requires Closes(tail, rest)
    ensures WholeEscapes(tail) && Unescape(tail) == Ok("", rest) && !UAhead(tail)
  {
    assert tail == "\"" + rest ==> tail[1..] == rest;
  }

  lemma NoUAhead(p: Piece, u: string)
    requires Good(p)
    ensures UAhead(Source(p) + u) <==> OfCode(p)
  {
    hide Spells, NoDigit;
  }

  lemma {:induction false} PiecesRead(ps: seq<Piece>, tail: string, rest: string)
    requires Writing(ps) && Closes(tail, rest)
    ensures WholeEscapes(Sources(ps) + tail) && Unescape(Sources(ps) + tail) == Ok(Meanings(ps), rest)
    ensures UAhead(Sources(ps) + tail) <==> ps != [] && OfCode(ps[0])
  {
    hide WholeEscapes, Unescape, Good, Source, Meaning, UAhead, OfCode, Closes;
    ClosedRead(tail, rest);
    if ps == [] {
      assert "" + tail == tail;
    } else {
      var u := Sources(ps[1..]) + tail;
      assert Sources(ps) + tail == Source(ps[0]) + u;
      PiecesRead(ps[1..], tail, rest);
      PieceRead(ps[0], u);
      NoUAhead(ps[0], u);
    }
  }

  // Hex digits write the number they are read as.
  lemma DigitsSpell(h: string, t: string)
    requires |h| == 4 && !NoDigit(h[0]) && !NoDigit(h[1]) && !NoDigit(h[2]) && !NoDigit(h[3])
    ensures Hex4(h + t) < 0x1_0000 && Spells(h, Hex4(h + t))
  {
    hide Means;
    NoHexDigit(h[0]);
    NoHexDigit(h[1]);
    NoHexDigit(h[2]);
    NoHexDigit(h[3]);
    var a, b, c, d := HexValue(h[0]), HexValue(h[1]), HexValue(h[2]), HexValue(h[3]);
    HexValueMeans(h[0], a);
    HexValueMeans(h[1], b);
    HexValueMeans(h[2], c);
    HexValueMeans(h[3], d);
    NibblesOf(a, b, c, d);
    hide HexValue;
  }

  lemma NibblesOf(a: nat, b: nat, c: nat, d: nat)
    requires a < 16 && b < 16 && c < 16 && d < 16
    ensures var n := ((a * 16 + b) * 16 + c) * 16 + d;
            n / 0x1000 == a && n / 0x100 % 16 == b && n / 16 % 16 == c && n % 16 == d
  {
    var n := ((a * 16 + b) * 16 + c) * 16 + d;
    assert n / 16 == (a * 16 + b) * 16 + c && n / 0x100 == n / 16 / 16 == a * 16 + b;
  }

  // The escape at the front of a text whose escapes are whole: its characters, and what follows them.
  lemma FrontEscape(s: string)
    requires UAhead(s) && WholeEscapes(s)
    ensures |s| >= 6 && WholeEscapes(s[6..]) && s == "\\u" + s[2..6] + s[6..]
    ensures var h := s[2..6]; Unquoted(h[0]) && Unquoted(h[1]) && Unquoted(h[2]) && Unquoted(h[3])
  {
    EscapeUnfolds(s);
    FourMore(s[2..6], s[6..]);
    hide WholeEscapes;
    assert s[2..] == s[2..6] + s[6..];
  }

  predicate AllDigits(h: string) {
    |h| == 4 && !NoDigit(h[0]) && !NoDigit(h[1]) && !NoDigit(h[2]) && !NoDigit(h[3])
  }

  // What one escape is, up to whether the next belongs to it.
  lemma OneCode(s: string) returns (p: Piece)
    requires UAhead(s) && WholeEscapes(s)
    ensures |s| >= 6 && Good(p) && (p.Code? || p.NoCode?) && s == Source(p) + s[6..] && WholeEscapes(s[6..])
    ensures p.h == s[2..6]
  {
    FrontEscape(s);
    var h := s[2..6];
    hide WholeEscapes, Hex4, NoDigit, Spells;
    if AllDigits(h) {
      DigitsSpell(h, "");
      p := Code(h, Hex4(h + ""));
    } else {
      p := NoCode(h);
    }
  }

  // The piece at the front of the inside of a string.
  lemma FrontPiece(s: string) returns (p: Piece, u: string)
    requires WholeEscapes(s) && s != "" && s[0] != '\"' && s[0] != '\0'
    ensures Good(p) && s == Source(p) + u && WholeEscapes(u)
    ensures p.Code? && FirstHalf(p.uc) ==> !UAhead(u)
  {
    hide Spells, NoNumber;
    if s[0] != '\\' {
      p, u := Usual(s[0]), s[1..];
    } else if !UAhead(s) {
      p, u := Letter(s[1]), s[2..];
    } else {
      p, u := FrontCode(s);
    }
  }

  lemma FrontCode(s: string) returns (p: Piece, u: string)
    requires WholeEscapes(s) && UAhead(s)
    ensures Good(p) && s == Source(p) + u && WholeEscapes(u)
    ensures p.Code? && FirstHalf(p.uc) ==> !UAhead(u)
  {
    hide WholeEscapes, Spells, NoNumber, UAhead;
    p := OneCode(s);
    u := s[6..];
    if p.Code? && FirstHalf(p.uc) && UAhead(u) {
      var p2 := OneCode(u);
      var v := u[6..];
      assert s == Source(p) + Source(p2) + v;
      p := if p2.Code? then Pair(p.h, p.uc, p2.h, p2.uc) else HalfPair(p.h, p.uc, p2.h);
      u := v;
    }
  }

  // The inside of a string whose escapes are whole is such pieces, and what ends it.
  lemma {:induction false} SplitPieces(s: string) returns (ps: seq<Piece>, tail: string, rest: string)
    requires WholeEscapes(s)
    ensures Writing(ps) && s == Sources(ps) + tail && Closes(tail, rest)
    decreases |s|
  {
    hide WholeEscapes, Good, UAhead, OfCode, Closes;
    if s == "" || s[0] == '\"' || s[0] == '\0' {
      ps, tail := [], s;
      rest := Ending(s);
    } else {
      var p, u := FrontPiece(s);
      ps, tail, rest := SplitPieces(u);
      PiecesRead(ps, tail, rest);
      ps := [p] + ps;
    }
  }

  lemma Ending(s: string) returns (rest: string)
    requires s == "" || s[0] == '\"' || s[0] == '\0'
    ensures Closes(s, rest)
  {
    rest := if s != "" && s[0] == '\"' then s[1..] else s;
    assert s != "" && s[0] == '\"' ==> s == "\"" + s[1..];
  }

  // A string is read exactly where one is spelled, as what it means.
  lemma StringIff(s: string, t: string, rest: string)
    ensures ParseString(s) == Ok(t, rest) <==> StringReads(s, t, rest)
  {
    hide WholeEscapes, Unescape, Sources, Writing, Closes;
    if ParseString(s) == Ok(t, rest) {
      assert s == "\"" + s[1..];
      var ps, tail, r := SplitPieces(s[1..]);
      PiecesRead(ps, tail, r);
      assert StringIs(s, t, rest, ps, tail);
    }
    if StringReads(s, t, rest) {
      var ps, tail :| StringIs(s, t, rest, ps, tail);
      PiecesRead(ps, tail, rest);
      assert s[1..] == Sources(ps) + tail;
    }
  }
}
