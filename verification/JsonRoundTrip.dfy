// Parsing what was printed, formatted or not, gives back the same item (RFC 8259, sections 4, 5 and 7).
module JsonRoundTrip {
  import opened CStrings
  import opened JsonText

  // ---------- numbers ----------

  // What must not follow a number.
  predicate EndsNumber(rest: string) {
    !IsDigit(At(rest, 0)) && At(rest, 0) != '.' && At(rest, 0) != 'e' && At(rest, 0) != 'E'
  }

  lemma NumberRoundTrip(n: Int32, rest: string)
    requires EndsNumber(rest)
    ensures ParseNumber(Signed(n) + rest) == Ok(Number(n), rest)
  {
    var m := Magnitude(n);
    DecimalStarts(m);
    DigitsOfDecimal(m, rest);
    var s := Signed(n) + rest;
    if n < 0 {
      assert s[1..] == Decimal(m) + rest;
    }
    if n == 0 {
      assert s[1..] == rest;
    }
  }

  // ---------- strings ----------

  lemma Hex4OfControl(c: char, t: string)
    requires c < ' '
    ensures Hex4(['0', '0', HexDigit(c as int / 16), HexDigit(c as int % 16)] + t) == c as int
  {
  }

  lemma UnescapeControl(c: char, t: string)
    requires '\0' < c < ' '
    ensures Unescape1(['u', '0', '0', HexDigit(c as int / 16), HexDigit(c as int % 16)] + t) == Ok([c], t)
  {
    var hex := ['0', '0', HexDigit(c as int / 16), HexDigit(c as int % 16)];
    var p := ['u', '0', '0', HexDigit(c as int / 16), HexDigit(c as int % 16)] + t;
    assert p[1..] == hex + t && p[5..] == t;
    Hex4OfControl(c, t);
  }

  lemma UnescapeCharRoundTrip(c: char, t: string)
    requires c != '\0'
    ensures Unescape(EscapeChar(c) + t) == Prepend([c], Unescape(t))
  {
    var s := EscapeChar(c) + t;
    if Plain(c) {
      assert s[1..] == t;
    } else {
      var p := EscapeChar(c)[1..] + t;
      assert s[0] == '\\' && s[1..] == p;
      if ShortEscape(c) == '\0' {
        UnescapeControl(c, t);
      } else {
        UnescapeShort(c, t);
      }
      hide Unescape1, EscapeChar;
    }
  }

  lemma UnescapeShort(c: char, t: string)
    requires ShortEscape(c) != '\0'
    ensures Unescape1([ShortEscape(c)] + t) == Ok([c], t)
  {
    assert ([ShortEscape(c)] + t)[1..] == t;
  }

  lemma {:induction false} UnescapeRoundTrip(s: string, rest: string)
    requires NulFree(s)
    ensures Unescape(Escape(s) + "\"" + rest) == Ok(s, rest)
  {
    if s == [] {
      assert Escape(s) + "\"" + rest == "\"" + rest && ("\"" + rest)[1..] == rest;
    } else {
      var t := Escape(s[1..]) + "\"" + rest;
      assert Escape(s) + "\"" + rest == EscapeChar(s[0]) + t;
      UnescapeCharRoundTrip(s[0], t);
      UnescapeRoundTrip(s[1..], rest);
      assert [s[0]] + s[1..] == s;
    }
  }

  lemma WholeChar(c: char, t: string)
    requires c != '\0'
    ensures WholeEscapes(EscapeChar(c) + t) == WholeEscapes(t)
  {
    var s := EscapeChar(c) + t;
    if Plain(c) {
      assert s[1..] == t;
    } else if ShortEscape(c) != '\0' {
      assert s[2..] == t;
    } else {
      var hex := ['0', '0', HexDigit(c as int / 16), HexDigit(c as int % 16)];
      assert s[2..] == hex + t;
      WholeHex(hex, t);
    }
  }

  lemma {:induction false} WholeHex(hex: string, t: string)
    requires forall i | 0 <= i < |hex| :: hex[i] != '\0' && hex[i] != '\"' && hex[i] != '\\'
    ensures WholeEscapes(hex + t) == WholeEscapes(t)
  {
    if hex == [] {
      assert hex + t == t;
    } else {
      assert (hex + t)[1..] == hex[1..] + t;
      WholeHex(hex[1..], t);
    }
  }

  lemma {:induction false} WholeOfEscape(s: string, rest: string)
    requires NulFree(s)
    ensures WholeEscapes(Escape(s) + "\"" + rest)
  {
    if s == [] {
      assert Escape(s) + "\"" + rest == "\"" + rest;
    } else {
      var t := Escape(s[1..]) + "\"" + rest;
      assert Escape(s) + "\"" + rest == EscapeChar(s[0]) + t;
      WholeChar(s[0], t);
      WholeOfEscape(s[1..], rest);
    }
  }

  lemma StringRoundTrip(s: string, rest: string)
    requires NulFree(s)
    ensures ParseString(Quote(s) + rest) == Ok(s, rest)
  {
    assert (Quote(s) + rest)[1..] == Escape(s) + "\"" + rest;
    UnescapeRoundTrip(s, rest);
    WholeOfEscape(s, rest);
  }

  // ---------- white space ----------

  lemma {:induction false} SkipSpaces(w: string, t: string)
    requires forall i | 0 <= i < |w| :: '\0' < w[i] <= ' '
    ensures Skip(w + t) == Skip(t)
  {
    if w == [] {
      assert w + t == t;
    } else {
      assert (w + t)[1..] == w[1..] + t;
      SkipSpaces(w[1..], t);
    }
  }

  lemma {:induction false} SkipTwice(s: string)
    ensures Skip(Skip(s)) == Skip(s)
  {
    if At(s, 0) != '\0' && At(s, 0) <= ' ' {
      SkipTwice(s[1..]);
    }
  }

  lemma ItemsAfterSpaces(w: string, t: string)
    requires forall i | 0 <= i < |w| :: '\0' < w[i] <= ' '
    ensures ParseItems(w + t) == ParseItems(t)
  {
    SkipSpaces(w, t);
  }

  lemma MembersAfterSkip(s: string)
    ensures ParseMembers(Skip(s)) == ParseMembers(s)
  {
    SkipTwice(s);
  }

  lemma MembersAfterSpaces(w: string, t: string)
    requires forall i | 0 <= i < |w| :: '\0' < w[i] <= ' '
    ensures ParseMembers(w + t) == ParseMembers(t)
  {
    SkipSpaces(w, t);
  }

  // ---------- values ----------

  lemma NoWord(s: string)
    requires s != [] && s[0] != 'n' && s[0] != 'f' && s[0] != 't'
    ensures !Starts(s, "null") && !Starts(s, "false") && !Starts(s, "true")
  {
    assert |s| >= 4 ==> s[..4][0] == s[0];
    assert |s| >= 5 ==> s[..5][0] == s[0];
  }

  // How a printed value begins.
  predicate Begins(c: char) {
    c == 'n' || c == 'f' || c == 't' || c == '\"' || c == '-' || IsDigit(c) || c == '[' || c == '{'
  }

  lemma PrintBegins(v: Value, depth: nat, fmt: bool)
    ensures Print(v, depth, fmt) != [] && Begins(Print(v, depth, fmt)[0])
  {
    if v.Number? {
      DecimalStarts(Magnitude(v.n));
    }
  }

  lemma {:induction false} ValueRoundTrip(v: Value, depth: nat, fmt: bool, rest: string)
    requires Storable(v) && EndsNumber(rest)
    ensures ParseValue(Print(v, depth, fmt) + rest) == Ok(v, rest)
    decreases v
  {
    var s := Print(v, depth, fmt) + rest;
    match v
    case Null => assert s[..4] == "null" && s[4..] == rest;
    case False => assert s[..4] == "fals" && s[..5] == "false" && s[5..] == rest;
    case True => assert s[..4] == "true" && s[..4] != "null" && s[4..] == rest; NotFalse(s);
    case Number(n) =>
      PrintBegins(v, depth, fmt);
      NumberBegins(n);
      NoWord(s);
      NumberRoundTrip(n, rest);
    case Text(t) =>
      NoWord(s);
      StringRoundTrip(t, rest);
    case Array(items) =>
      NoWord(s);
      ArrayRoundTrip(items, depth, fmt, rest);
    case Object(members) =>
      NoWord(s);
      ObjectRoundTrip(members, depth, fmt, rest);
  }

  lemma NotFalse(s: string)
    requires s != [] && s[0] == 't'
    ensures !Starts(s, "false")
  {
    assert |s| >= 5 ==> s[..5][0] == s[0];
  }

  lemma NumberBegins(n: Int32)
    ensures Signed(n) != [] && (Signed(n)[0] == '-' || IsDigit(Signed(n)[0]))
  {
    DecimalStarts(Magnitude(n));
  }

  // ---------- one step of a list ----------

  lemma ItemsStep(s: string, v: Value, after: string, items: Items, rest: string)
    requires Skip(s) == s && ParseValue(s) == Ok(v, after) && At(after, 0) == ','
    requires ParseItems(after[1..]) == Ok(items, rest)
    ensures ParseItems(s) == Ok(Item(v, items), rest)
  {
    hide ParseValue;
  }

  lemma ItemsLast(s: string, v: Value, after: string)
    requires Skip(s) == s && ParseValue(s) == Ok(v, after) && At(after, 0) == ']'
    ensures ParseItems(s) == Ok(Item(v, NoItems), after[1..])
  {
    hide ParseValue;
  }

  lemma MembersStep(s: string, name: string, t: string, v: Value, after: string, members: Members, rest: string)
    requires Skip(s) == s && ParseString(s) == Ok(name, t) && At(t, 0) == ':'
    requires ParseValue(Skip(t[1..])) == Ok(v, after) && At(after, 0) == ','
    requires ParseMembers(after[1..]) == Ok(members, rest)
    ensures ParseMembers(s) == Ok(Member(name, v, members), rest)
  {
    hide ParseValue, ParseString;
    assert Skip(t) == t && Skip(after) == after;
  }

  lemma MembersLast(s: string, name: string, t: string, v: Value, after: string)
    requires Skip(s) == s && ParseString(s) == Ok(name, t) && At(t, 0) == ':'
    requires ParseValue(Skip(t[1..])) == Ok(v, after) && At(Skip(after), 0) == '}'
    ensures ParseMembers(s) == Ok(Member(name, v, NoMembers), Skip(after)[1..])
  {
    hide ParseValue, ParseString;
    assert Skip(t) == t;
  }

  lemma NoSkip(s: string)
    requires s != [] && Begins(s[0])
    ensures Skip(s) == s
  {
  }

  // ---------- arrays ----------

  lemma {:induction false} ArrayRoundTrip(items: Items, depth: nat, fmt: bool, rest: string)
    requires StorableItems(items)
    ensures ParseArray(Print(Array(items), depth, fmt) + rest) == Ok(Array(items), rest)
    decreases items, 1
  {
    var s := Print(Array(items), depth, fmt) + rest;
    if items == NoItems {
      assert s[1..] == "]" + rest && s[1..][1..] == rest;
    } else {
      var t := PrintItems(items, depth + 1, fmt) + ("]" + rest);
      assert s[1..] == t;
      PrintBegins(items.value, depth + 1, fmt);
      ItemsRoundTrip(items, depth + 1, fmt, rest);
      assert t != [] && Begins(t[0]);
      NoSkip(t);
      hide Print, PrintItems, ParseItems, Skip;
    }
  }

  lemma {:induction false} ItemsRoundTrip(items: Items, depth: nat, fmt: bool, rest: string)
    requires items.Item? && StorableItems(items)
    ensures ParseItems(PrintItems(items, depth, fmt) + ("]" + rest)) == Ok(items, rest)
    decreases items, 0
  {
    hide Print, PrintItems, ParseItems, ParseValue, Skip;
    var v := Print(items.value, depth, fmt);
    var tail := PrintItems(items.next, depth, fmt) + ("]" + rest);
    var after := ItemEnd(items, fmt) + tail;
    var s := v + after;
    ItemsText(items, depth, fmt, "]" + rest);
    PrintBegins(items.value, depth, fmt);
    NoSkip(s);
    NoItemsText(depth, fmt);
    if items.next == NoItems {
      assert after == "]" + rest && after[1..] == rest;
      ValueRoundTrip(items.value, depth, fmt, after);
      ItemsLast(s, items.value, after);
    } else {
      ValueRoundTrip(items.value, depth, fmt, after);
      ItemsRoundTrip(items.next, depth, fmt, rest);
      assert after[1..] == (if fmt then " " else "") + tail;
      ItemsAfterSpaces(if fmt then " " else "", tail);
      ItemsStep(s, items.value, after, items.next, rest);
    }
  }

  lemma NoItemsText(depth: nat, fmt: bool)
    ensures PrintItems(NoItems, depth, fmt) == ""
  {
  }

  // ---------- objects ----------

  lemma MembersParts(members: Members, depth: nat, fmt: bool, close: string)
    requires members.Member?
    ensures PrintMembers(members, depth, fmt) + close
         == (if fmt then Tabs(depth) else "") + (Quote(members.name) + ((if fmt then ":\t" else ":")
            + (Print(members.value, depth, fmt)
            + (MemberEnd(members, fmt) + (PrintMembers(members.next, depth, fmt) + close)))))
  {
    hide Print, Quote;
  }

  // Members start with a quotation mark, after tabs.
  lemma MembersSkip(members: Members, depth: nat, fmt: bool, t: string)
    requires members.Member?
    ensures At(Skip(PrintMembers(members, depth, fmt) + t), 0) == '\"'
  {
    hide Print, PrintMembers, Escape;
    MembersParts(members, depth, fmt, t);
    SkipSpaces(if fmt then Tabs(depth) else "", Quote(members.name) + ((if fmt then ":\t" else ":")
      + (Print(members.value, depth, fmt) + (MemberEnd(members, fmt) + (PrintMembers(members.next, depth, fmt) + t)))));
  }

  lemma ObjectStep(s: string, t: string, members: Members, rest: string)
    requires s != [] && s[0] == '{' && Skip(s[1..]) == t && At(t, 0) != '}' && ParseMembers(t) == Ok(members, rest)
    ensures ParseObject(s) == Ok(Object(members), rest)
  {
    hide ParseMembers, Skip;
  }

  lemma {:induction false} ObjectRoundTrip(members: Members, depth: nat, fmt: bool, rest: string)
    requires StorableMembers(members)
    ensures ParseObject(Print(Object(members), depth, fmt) + rest) == Ok(Object(members), rest)
    decreases members, 2
  {
    hide *;
    if members == NoMembers {
      EmptyObjectRoundTrip(depth, fmt, rest);
    } else {
      FullObjectRoundTrip(members, depth, fmt, rest);
    }
  }

  lemma {:induction false} FullObjectRoundTrip(members: Members, depth: nat, fmt: bool, rest: string)
    requires members.Member? && StorableMembers(members)
    ensures ParseObject(Print(Object(members), depth, fmt) + rest) == Ok(Object(members), rest)
    decreases members, 1
  {
    hide *;
    var w := if fmt then "\n" else "";
    var t := PrintMembers(members, depth + 1, fmt) + (Close(depth, fmt) + rest);
    var s := "{" + (w + t);
    ObjectText(members, depth, fmt, rest);
    assert s[1..] == w + t && s[0] == '{';
    SkipNewline(fmt, t);
    MembersSkip(members, depth + 1, fmt, Close(depth, fmt) + rest);
    MembersAfterSkip(t);
    MembersRoundTrip(members, depth + 1, fmt, rest);
    ObjectStep(s, Skip(t), members, rest);
  }

  lemma SkipNewline(fmt: bool, t: string)
    ensures Skip((if fmt then "\n" else "") + t) == Skip(t)
  {
    SkipSpaces(if fmt then "\n" else "", t);
  }

  lemma EmptyObjectRoundTrip(depth: nat, fmt: bool, rest: string)
    ensures ParseObject(Print(Object(NoMembers), depth, fmt) + rest) == Ok(Object(NoMembers), rest)
  {
    var s := Print(Object(NoMembers), depth, fmt) + rest;
    var w := if fmt then "\n" + Tabs(depth - 1) else "";
    assert s[1..] == w + ("}" + rest);
    SkipSpaces(w, "}" + rest);
    assert ("}" + rest)[1..] == rest;
    hide Print, ParseMembers;
  }

  lemma {:induction false} MembersRoundTrip(members: Members, depth: nat, fmt: bool, rest: string)
    requires members.Member? && depth > 0 && StorableMembers(members)
    ensures ParseMembers(PrintMembers(members, depth, fmt) + (Close(depth - 1, fmt) + rest)) == Ok(members, rest)
    decreases members, 0
  {
    hide Print, PrintMembers, ParseMembers, ParseValue, ParseString, Skip, Quote;
    var tabs := if fmt then Tabs(depth) else "";
    var colon := if fmt then ":\t" else ":";
    var close := Close(depth - 1, fmt) + rest;
    var v := Print(members.value, depth, fmt);
    var tail := PrintMembers(members.next, depth, fmt) + close;
    var after := MemberEnd(members, fmt) + tail;
    var s := Quote(members.name) + (colon + (v + after));
    MembersParts(members, depth, fmt, close);
    MembersAfterSpaces(tabs, s);
    StringRoundTrip(members.name, colon + (v + after));
    assert (colon + (v + after))[1..] == colon[1..] + (v + after);
    SkipSpaces(colon[1..], v + after);
    PrintBegins(members.value, depth, fmt);
    NoSkip(v + after);
    QuoteBegins(members.name);
    NoSkip(s);
    NoMembersParts(depth, fmt);
    if members.next == NoMembers {
      var w := if fmt then "\n" + Tabs(depth - 1) else "";
      assert after == w + ("}" + rest);
      ValueRoundTrip(members.value, depth, fmt, after);
      SkipSpaces(w, "}" + rest);
      SkipClose(rest);
      assert ("}" + rest)[1..] == rest;
      MembersLast(s, members.name, colon + (v + after), members.value, after);
    } else {
      ValueRoundTrip(members.value, depth, fmt, after);
      MembersRoundTrip(members.next, depth, fmt, rest);
      assert after[1..] == (if fmt then "\n" else "") + tail;
      MembersAfterSpaces(if fmt then "\n" else "", tail);
      MembersStep(s, members.name, colon + (v + after), members.value, after, members.next, rest);
    }
  }

  lemma NoMembersParts(depth: nat, fmt: bool)
    ensures PrintMembers(NoMembers, depth, fmt) == ""
  {
  }

  lemma QuoteBegins(s: string)
    ensures Quote(s) != [] && Quote(s)[0] == '\"'
  {
  }

  lemma SkipClose(rest: string)
    ensures Skip("}" + rest) == "}" + rest
  {
  }

  // ---------- whole texts ----------

  // cJSON_Parse undoes cJSON_Print and cJSON_PrintUnformatted.
  lemma RoundTrip(v: Value, fmt: bool)
    requires Storable(v)
    ensures Parse(Print(v, 0, fmt)) == Ok(v, "")
  {
    PrintBegins(v, 0, fmt);
    ValueRoundTrip(v, 0, fmt, "");
    assert Print(v, 0, fmt) + "" == Print(v, 0, fmt);
  }

  // Print is one-to-one: no two items share a text.
  lemma PrintsDiffer(v: Value, w: Value, fmt: bool)
    requires Storable(v) && Storable(w) && Print(v, 0, fmt) == Print(w, 0, fmt)
    ensures v == w
  {
    RoundTrip(v, fmt);
    RoundTrip(w, fmt);
  }
}
