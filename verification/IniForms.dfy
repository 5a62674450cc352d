// The forms of values, lines and dumps of an INI file, character by character.
module IniForms {
  import opened Wrappers
  import opened CStrings
  import opened Dictionaries
  import opened IniText
  import opened IniRoundTrip
  import opened IniLines
  import opened Iniparsers
  import opened RwIni

  // ---------- values ----------

  // A quoted value ends at the next quotation mark of its kind, or with the line; what follows the mark is dropped.
  lemma QuotedForms(mark: char, v: string, tail: string)
    requires (mark == '\"' || mark == '\'') && v != "" && mark !in v && (tail == "" || tail[0] == mark)
    requires Strip(v) != "\"\"" && Strip(v) != "''"
    ensures ValueOf([mark] + v + tail) == Strip(v)
  {
    var t := [mark] + v + tail;
    assert t[1..] == v + tail;
    if tail == "" {
      assert t[1..] == v;
      UpToStops(v, mark, "");
    } else {
      assert v + tail == v + [mark] + tail[1..];
      UpToStops(v, mark, tail[1..]);
    }
    assert Quoted(t, mark) == Some(v);
    assert mark == '\'' ==> Quoted(t, '\"') == None;
    hide Strip, UpTo, UpToComment, Quoted;
  }

  // Nothing between two quotation marks of one kind, with nothing or a comment behind them, is an empty value.
  lemma EmptyQuotes(mark: char, tail: string)
    requires (mark == '\"' || mark == '\'') && (tail == "" || tail[0] == ';' || tail[0] == '#')
    ensures ValueOf([mark, mark] + tail) == ""
  {
    var t := [mark, mark] + tail;
    assert t[1..][0] == mark;
    assert UpTo(t[1..], mark) == "" && Quoted(t, '\"') == None && Quoted(t, '\'') == None;
    FrontOfComment([mark, mark], tail);
    assert Strip([mark, mark]) == [mark, mark];
    assert [mark, mark] == if mark == '\"' then "\"\"" else "''";
    hide Strip, UpTo, UpToComment, Quoted;
  }

  lemma FrontOfComment(a: string, tail: string)
    requires ';' !in a && '#' !in a && (tail == "" || tail[0] == ';' || tail[0] == '#')
    ensures UpToComment(a + tail) == a
  {
    if tail == "" {
      assert a + tail == a;
      UpToStops(a, ';', "");
      UpToStops(a, '#', "");
    } else {
      assert a + tail == a + [tail[0]] + tail[1..];
      UpToComments(a, tail[0], tail[1..]);
    }
  }

  // ---------- lines ----------

  // A line is blank, a comment or a section by its first and last characters, blanks aside.
  lemma LineKinds(s: string, section: string)
    ensures var line := Strip(s);
            && (Line(s, section).Empty? <==> line == "")
            && (Line(s, section).Comment? <==> line != "" && line[0] == '#')
            && (Line(s, section).Section? <==> line != "" && line[0] == '[' && line[|line| - 1] == ']')
            && (Line(s, section).Error? <==>
                  && line != "" && line[0] != '#' && !(line[0] == '[' && line[|line| - 1] == ']')
                  && ('=' !in line || line[0] == '='))
  {
    var line := Strip(s);
    if '=' !in line {
      UpToStops(line, '=', "");
    } else {
      var key := UpTo(line, '=');
      assert key == line ==> '=' !in line;
    }
    hide Strip, LStrip, ValueOf, LowerAll;
  }

  // A section's name ends at the first closing bracket.
  lemma SectionName(a: string, b: string, section: string)
    requires a != "" && ']' !in a && (b == "" || b[|b| - 1] == ']')
    ensures Line("[" + a + "]" + b, section) == Section(LowerAll(Strip(a)))
  {
    var line := "[" + a + "]" + b;
    assert line[0] == '[' && line[|line| - 1] == ']';
    StripKeeps(line);
    assert line[1..] == a + [']'] + b;
    UpToStops(a, ']', b);
    hide Strip, LStrip, RStrip, UpTo, LowerAll, ValueOf;
  }

  // ---------- lengths ----------

  // A line of up to 4094 characters is read; a longer one is given up.
  lemma LineLimit(body: string, more: string, l: Loading)
    requires OneLine(body)
    ensures |body| <= 4094 && !EndsIn(RStrip(body), '\\') ==>
              LoadLines(body + "\n" + more, "", l) == LoadAfter(RStrip(body), more, l)
    ensures |body| > 4094 ==> LoadLines(body + "\n" + more, "", l) == NoDictionary
  {
    hide LoadLines, LoadTurn, RStrip, LoadAfter, Took, NulFirst;
    var rest := body + "\n" + more;
    UpToStops(body, '\n', more);
    assert rest == body + ['\n'] + more && rest[|body| + 1..] == more && "" + body == body;
    EmptyIsPlain(rest, body);
    if |body| <= 4094 {
      EndedTurn(rest, "", l);
      if !EndsIn(RStrip(body), '\\') {
        TookIsLoad(rest, "", RStrip(body), more, l);
      }
    } else {
      BrokenTurn(rest, "", l);
      GivenUp(rest, "", l);
    }
  }

  lemma EmptyIsPlain(rest: string, body: string)
    requires OneLine(body) && UpTo(rest, '\n') == body && |body| < |rest|
    ensures OneLine("") && (Ended(rest, "") <==> |body| <= 4094)
    ensures body != "" ==> !NulFirst(rest, "")
  {
  }

  // A section and a key of an entry go to a buffer that holds 4096 characters with the colon, and so does a section's
  // name in a dump.
  lemma WideForms(section: string, key: string, value: string)
    ensures TooWide(section, Entry(key, value)) <==> |section| + |key| > 4095
    ensures TooLong(section) <==> |section| > 4095
  {
  }

  // ---------- dumps ----------

  // An entry's name is filled up to thirty characters.
  lemma PaddedName(name: string, value: string)
    ensures var line := EntryLine(name, value);
            && line[..|name|] == name
            && (|name| <= 30 ==> |line| == 31 + |value| && line[30] == '=' && line[31..] == value
                                 && forall i | |name| <= i < 30 :: line[i] as int == 32)
            && (|name| >= 30 ==> line == name + "=" + value)
  {
  }

  // A section without entries, an entry in it, and an entry without any section.
  lemma DumpForms(section: string, name: string, value: string)
    requires ':' !in section
    ensures Dump([Some(section)], [None]) == "\r\n[" + section + "]\r\n\r\n"
    ensures Dump([Some(section), Some(section + ":" + name)], [None, Some(value)])
         == "\r\n[" + section + "]\r\n" + EntryLine(name, value) + "\r\n\r\n"
    ensures Dump([Some(":" + name)], [Some(value)]) == ":" + name + "=" + value + "\r\n"
    ensures Dump([Some(":" + name)], [None]) == ":" + name + "=(null)\r\n"
  {
    SectionAlone(section);
    SectionWithEntry(section, name, value);
    EntryAlone(":" + name, Some(value));
    EntryAlone(":" + name, None);
  }

  lemma SectionAlone(section: string)
    requires ':' !in section
    ensures Dump([Some(section)], [None]) == "\r\n[" + section + "]\r\n\r\n"
  {
    var keys: seq<Cell>, vals: seq<Cell> := [Some(section)], [None];
    assert keys[1..] == [] && vals[1..] == [];
    assert SectionNames(keys) == [section] && [section][1..] == [];
    assert !(section + ":" <= section);
    assert SectionLines(keys, vals, section) == "";
    assert SectionBlock(keys, vals, section) == "\r\n[" + section + "]\r\n";
    assert DumpSections(keys, vals, [section]) == SectionBlock(keys, vals, section) + "";
  }

  lemma SectionWithEntry(section: string, name: string, value: string)
    requires ':' !in section
    ensures Dump([Some(section), Some(section + ":" + name)], [None, Some(value)])
         == "\r\n[" + section + "]\r\n" + EntryLine(name, value) + "\r\n\r\n"
  {
    var k: seq<Cell>, v: seq<Cell> := [Some(section), Some(section + ":" + name)], [None, Some(value)];
    var k1, v1 := k[1..], v[1..];
    assert k1 == [Some(section + ":" + name)] && v1 == [Some(value)] && k1[1..] == [] && v1[1..] == [];
    assert (section + ":" + name)[|section|] == ':';
    assert SectionNames(k1) == [] && SectionNames(k) == [section] + [] == [section] && [section][1..] == [];
    hide EntryLine;
    assert (section + ":" + name)[|section| + 1..] == name;
    assert SectionLines(k1, v1, section) == EntryLine(name, value) + "\r\n" + "" by {
      assert SectionLines(k1[1..], v1[1..], section) == "";
    }
    assert !(section + ":" <= section);
    assert SectionLines(k, v, section) == EntryLine(name, value) + "\r\n";
    assert SectionBlock(k, v, section) == "\r\n[" + section + "]\r\n" + EntryLine(name, value) + "\r\n";
    assert DumpSections(k, v, [section]) == SectionBlock(k, v, section) + "";
  }

  lemma EntryAlone(key: string, val: Cell)
    requires key != "" && key[0] == ':'
    ensures Dump([Some(key)], [val]) == key + "=" + (if val.Some? then val.value else "(null)") + "\r\n"
  {
    var keys, vals := [Some(key)], [val];
    assert keys[1..] == [] && vals[1..] == [] && SectionNames(keys) == [];
    assert RawLines(keys, vals) == RawLine(Some(key), val) + RawLines([], []);
  }

  // ---------- integers ----------

  // The number that digits with these values write.
  function Horner(ds: seq<nat>, base: nat): nat {
    if ds == [] then 0 else Horner(ds[..|ds| - 1], base) * base + ds[|ds| - 1]
  }

  ghost predicate Spelled(h: string, ds: seq<nat>, base: nat) {
    |h| == |ds| && base <= 16 && forall i | 0 <= i < |h| :: ds[i] < base && Means(h[i], ds[i])
  }

  lemma DigitInMeans(c: char, v: nat, base: nat)
    requires v < base <= 16 && Means(c, v)
    ensures DigitIn(c, base) == v
  {
    var small, capital := "0123456789abcdef", "0123456789ABCDEF";
    if v < 10 {
      assert small[v] as int == 48 + v && capital[v] as int == 48 + v;
    } else {
      assert small[v] as int == 87 + v && capital[v] as int == 55 + v;
    }
  }

  // A text does not go on with a digit of the base.
  predicate EndsDigits(rest: string, base: nat) {
    rest == "" || DigitIn(rest[0], base) < 0
  }

  lemma {:induction false} DigitsInAppend(h: string, ds: seq<nat>, base: nat, n: nat, rest: string)
    requires Spelled(h, ds, base)
    ensures DigitsIn(h + rest, base, n) == DigitsIn(rest, base, Run(ds, base, n))
    decreases |h|
  {
    hide DigitIn, Means;
    if h == "" {
      assert h + rest == rest;
    } else {
      assert (h + rest)[0] == h[0] && (h + rest)[1..] == h[1..] + rest;
      DigitInMeans(h[0], ds[0], base);
      DigitsInAppend(h[1..], ds[1..], base, n * base + ds[0], rest);
    }
  }

  // Digits read onto a number already begun.
  function Run(ds: seq<nat>, base: nat, n: nat): nat {
    if ds == [] then n else Run(ds[1..], base, n * base + ds[0])
  }

  lemma {:induction false} RunLast(ds: seq<nat>, base: nat, n: nat, d: nat)
    ensures Run(ds + [d], base, n) == Run(ds, base, n) * base + d
  {
    if ds == [] {
      assert ([] + [d])[1..] == [];
    } else {
      assert (ds + [d])[0] == ds[0] && (ds + [d])[1..] == ds[1..] + [d];
      RunLast(ds[1..], base, n * base + ds[0], d);
    }
  }

  lemma {:induction false} RunIsHorner(ds: seq<nat>, base: nat)
    ensures Run(ds, base, 0) == Horner(ds, base)
  {
    if ds != [] {
      var front, last := ds[..|ds| - 1], ds[|ds| - 1];
      assert ds == front + [last];
      RunIsHorner(front, base);
      RunLast(front, base, 0, last);
    }
  }

  lemma DigitsAre(h: string, ds: seq<nat>, base: nat, rest: string)
    requires Spelled(h, ds, base) && EndsDigits(rest, base)
    ensures DigitsIn(h + rest, base, 0) == Horner(ds, base)
  {
    DigitsInAppend(h, ds, base, 0, rest);
    RunIsHorner(ds, base);
  }

  // Blanks and a sign in front of a number: a minus sign negates, a plus sign does not.
  lemma SignsAndBlanks(w: string, sign: string, u: string)
    requires (sign == "" || sign == "-" || sign == "+") && u != "" && '0' <= u[0] <= '9'
    requires forall i | 0 <= i < |w| :: w[i] as int in {32, 9, 10, 11, 12, 13}
    ensures StrToL(w + (sign + u)) == if sign == "-" then 0 - StrToL(u) else StrToL(u)
  {
    BlanksGo(w, sign + u);
    assert LStrip(u) == u;
    assert sign == "" ==> sign + u == u;
    assert sign != "" ==> (sign + u)[1..] == u;
    hide DigitsIn, LStrip;
  }

  lemma {:induction false} BlanksGo(w: string, s: string)
    requires s != "" && !IsSpace(s[0]) && forall i | 0 <= i < |w| :: w[i] as int in {32, 9, 10, 11, 12, 13}
    ensures LStrip(w + s) == s
  {
    if w == "" {
      assert w + s == s;
    } else {
      assert (w + s)[0] == w[0] && (w + s)[1..] == w[1..] + s;
      BlanksGo(w[1..], s);
    }
  }

  // After 0x or 0X hex digits of either case, at least one; after another 0 octal digits; else decimal ones.
  lemma HexNumber(x: char, h: string, ds: seq<nat>, rest: string)
    requires (x == 'x' || x == 'X') && h != "" && Spelled(h, ds, 16) && EndsDigits(rest, 16)
    ensures StrToL("0" + [x] + (h + rest)) == Horner(ds, 16)
  {
    var u := "0" + [x] + (h + rest);
    assert u[0] == '0' && u[1] == x && u[2] == h[0] && u[2..] == h + rest;
    DigitInMeans(h[0], ds[0], 16);
    DigitsAre(h, ds, 16, rest);
    HexGoes(u);
    hide StrToL, DigitsIn, Horner;
  }

  lemma HexGoes(u: string)
    requires |u| >= 3 && u[0] == '0' && (u[1] == 'x' || u[1] == 'X') && DigitIn(u[2], 16) >= 0
    ensures StrToL(u) == DigitsIn(u[2..], 16, 0)
  {
    assert LStrip(u) == u;
    hide DigitsIn;
  }

  lemma OctalNumber(h: string, ds: seq<nat>, rest: string)
    requires Spelled(h, ds, 8) && EndsDigits(rest, 8) && (h == "" ==> At(rest, 0) != 'x' && At(rest, 0) != 'X')
    ensures StrToL("0" + (h + rest)) == Horner(ds, 8)
  {
    var u := "0" + (h + rest);
    assert u[1..] == h + rest;
    if h != "" {
      assert u[1] == h[0];
      DigitInMeans(h[0], ds[0], 8);
    } else {
      assert h + rest == rest;
    }
    DigitsAre(h, ds, 8, rest);
    OctalGoes(u);
    hide StrToL, DigitsIn, Horner;
  }

  lemma OctalGoes(u: string)
    requires u != "" && u[0] == '0' && At(u, 1) != 'x' && At(u, 1) != 'X'
    ensures StrToL(u) == DigitsIn(u[1..], 8, 0)
  {
    assert LStrip(u) == u;
    assert DigitIn('0', 8) == 0;
    assert DigitsIn(u, 8, 0) == DigitsIn(u[1..], 8, 0);
    hide DigitsIn;
  }

  lemma DecimalNumber(h: string, ds: seq<nat>, rest: string)
    requires h != "" && Spelled(h, ds, 10) && ds[0] != 0 && EndsDigits(rest, 10)
    ensures StrToL(h + rest) == Horner(ds, 10)
  {
    var u := h + rest;
    assert u[0] == h[0];
    DigitInMeans(h[0], ds[0], 10);
    DigitsAre(h, ds, 10, rest);
    DecimalGoes(u);
    hide StrToL, DigitsIn, Horner;
  }

  lemma DecimalGoes(u: string)
    requires u != "" && '1' <= u[0] <= '9'
    ensures StrToL(u) == DigitsIn(u, 10, 0)
  {
    assert LStrip(u) == u;
    hide DigitsIn;
  }
}
