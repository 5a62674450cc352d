// The grammar that cJSON_Parse accepts, said without the parser.
module JsonGrammar {
  import opened CStrings
  import opened JsonText
  import opened JsonSpellings

  // White space is any character from 1 to 32, where RFC 8259 (section 2) has four of them.
  predicate White(w: string) {
    forall i | 0 <= i < |w| :: 0 < w[i] as int <= 32
  }

  // t is what follows some white space in s.
  ghost predicate Behind(s: string, t: string) {
    exists w :: White(w) && s == w + t
  }

  // s is a text of the item, with rest behind it.
  ghost predicate Reads(s: string, v: Value, rest: string)
    decreases v, 0
  {
    match v
    case Null => s == "null" + rest
    case False => s == "false" + rest
    case True => s == "true" + rest
    case Number(n) => NumberReads(s, n, rest)
    case Text(t) => StringReads(s, t, rest)
    case Array(items) =>
      s != "" && s[0] == '['
      && if items == NoItems then Behind(s[1..], "]" + rest) else ItemsRead(s[1..], items, rest)
    case Object(members) =>
      s != "" && s[0] == '{'
      && if members == NoMembers then Behind(s[1..], "}" + rest) else MembersRead(s[1..], members, rest)
  }

  // Items with commas between them, and the closing bracket.
  ghost predicate ItemsRead(s: string, items: Items, rest: string)
    requires items.Item?
    decreases items, 2
  {
    exists a :: Behind(s, a) && ItemRead(a, items, rest)
  }

  ghost predicate ItemRead(a: string, items: Items, rest: string)
    requires items.Item?
    decreases items, 1
  {
    exists r, b ::
      && Reads(a, items.value, r) && Behind(r, b)
      && if items.next == NoItems then b == "]" + rest
         else b != "" && b[0] == ',' && ItemsRead(b[1..], items.next, rest)
  }

  // Names, colons and values, with commas between them, and the closing brace.
  ghost predicate MembersRead(s: string, members: Members, rest: string)
    requires members.Member?
    decreases members, 2
  {
    exists a, e, c, d ::
      && Behind(s, a) && StringReads(a, members.name, e) && Behind(e, ":" + c) && Behind(c, d)
      && MemberRead(d, members, rest)
  }

  ghost predicate MemberRead(d: string, members: Members, rest: string)
    requires members.Member?
    decreases members, 1
  {
    exists r, b ::
      && Reads(d, members.value, r) && Behind(r, b)
      && if members.next == NoMembers then b == "}" + rest
         else b != "" && b[0] == ',' && MembersRead(b[1..], members.next, rest)
  }

  // ---------- white space ----------

  predicate NoWhite(s: string) {
    s == "" || !(0 < s[0] as int <= 32)
  }

  lemma {:induction false} SkipsWhite(s: string) returns (w: string)
    ensures White(w) && s == w + Skip(s) && NoWhite(Skip(s))
  {
    w := "";
    if At(s, 0) != '\0' && At(s, 0) <= ' ' {
      w := SkipsWhite(s[1..]);
      w := [s[0]] + w;
    }
  }

  lemma {:induction false} SkipWhite(w: string, s: string)
    requires White(w) && NoWhite(s)
    ensures Skip(w + s) == s
  {
    if w == "" {
      assert w + s == s;
    } else {
      assert (w + s)[1..] == w[1..] + s;
      SkipWhite(w[1..], s);
    }
  }

  // What the parser skips is what white space is.
  lemma SkipIsBehind(s: string, t: string)
    requires NoWhite(t)
    ensures Skip(s) == t <==> Behind(s, t)
  {
    hide Skip, White;
    if Behind(s, t) {
      var w :| White(w) && s == w + t;
      SkipWhite(w, t);
    } else {
      var w := SkipsWhite(s);
    }
  }

  lemma SkipBehind(s: string)
    ensures Behind(s, Skip(s)) && NoWhite(Skip(s))
  {
    hide Skip;
    var w := SkipsWhite(s);
  }

  lemma BehindTwice(s: string, t: string, u: string)
    requires Behind(s, t) && Behind(t, u)
    ensures Behind(s, u)
  {
    var w :| White(w) && s == w + t;
    var x :| White(x) && t == x + u;
    assert White(w + x) && s == (w + x) + u;
  }

  // ---------- what is accepted is such a text ----------

  lemma WordRead(s: string, word: string)
    requires Starts(s, word)
    ensures s == word + s[|word|..]
  {
  }

  lemma {:induction false} ValueSound(s: string)
    requires ParseValue(s).Ok?
    ensures Reads(s, ParseValue(s).value, ParseValue(s).rest)
    decreases |s|, 2
  {
    if Starts(s, "null") {
      WordRead(s, "null");
    } else if Starts(s, "false") {
      WordRead(s, "false");
    } else if Starts(s, "true") {
      WordRead(s, "true");
    } else if At(s, 0) == '[' {
      ArraySound(s);
    } else if At(s, 0) == '{' {
      ObjectSound(s);
    } else if At(s, 0) == '\"' {
      StringIff(s, ParseString(s).value, ParseString(s).rest);
    } else {
      NumberIff(s, ParseNumber(s).value, ParseNumber(s).rest);
    }
    hide ParseNumber, ParseString, ParseArray, ParseObject, ItemsRead, MembersRead, NumberReads, StringReads;
  }

  lemma {:induction false} ArraySound(s: string)
    requires At(s, 0) == '[' && ParseArray(s).Ok?
    ensures Reads(s, ParseArray(s).value, ParseArray(s).rest)
    decreases |s|, 1
  {
    hide ParseItems, ItemsRead, Skip, Behind;
    var s1 := Skip(s[1..]);
    SkipBehind(s[1..]);
    if At(s1, 0) == ']' {
      assert s1 == "]" + s1[1..];
    } else {
      ItemsSound(s1);
      ItemsMoreWhite(s[1..], s1, ParseItems(s1).value, ParseItems(s1).rest);
    }
  }

  lemma {:induction false} ObjectSound(s: string)
    requires At(s, 0) == '{' && ParseObject(s).Ok?
    ensures Reads(s, ParseObject(s).value, ParseObject(s).rest)
    decreases |s|, 1
  {
    hide ParseMembers, MembersRead, Skip, Behind;
    var s1 := Skip(s[1..]);
    SkipBehind(s[1..]);
    if At(s1, 0) == '}' {
      assert s1 == "}" + s1[1..];
    } else {
      MembersSound(s1);
      MembersMoreWhite(s[1..], s1, ParseMembers(s1).value, ParseMembers(s1).rest);
    }
  }

  lemma ItemsMoreWhite(s0: string, s: string, items: Items, rest: string)
    requires items.Item? && Behind(s0, s) && ItemsRead(s, items, rest)
    ensures ItemsRead(s0, items, rest)
  {
    hide Behind, ItemRead;
    var a :| Behind(s, a) && ItemRead(a, items, rest);
    BehindTwice(s0, s, a);
  }

  lemma MembersMoreWhite(s0: string, s: string, members: Members, rest: string)
    requires members.Member? && Behind(s0, s) && MembersRead(s, members, rest)
    ensures MembersRead(s0, members, rest)
  {
    hide Behind, MemberRead, StringReads;
    var a, e, c, d :|
      && Behind(s, a) && StringReads(a, members.name, e) && Behind(e, ":" + c) && Behind(c, d)
      && MemberRead(d, members, rest);
    BehindTwice(s0, s, a);
  }

  lemma {:induction false} ItemsSound(s: string)
    requires ParseItems(s).Ok?
    ensures ItemsRead(s, ParseItems(s).value, ParseItems(s).rest)
    decreases |s|, 3
  {
    hide ParseValue, Reads, Skip, Behind;
    var a := Skip(s);
    var r := ParseValue(a).rest;
    var b := Skip(r);
    SkipBehind(s);
    ValueSound(a);
    SkipBehind(r);
    if At(b, 0) == ',' {
      ItemsSound(b[1..]);
    } else {
      assert b == "]" + b[1..];
    }
    assert ItemRead(a, ParseItems(s).value, ParseItems(s).rest);
  }

  lemma {:induction false} MembersSound(s: string)
    requires ParseMembers(s).Ok?
    ensures MembersRead(s, ParseMembers(s).value, ParseMembers(s).rest)
    decreases |s|, 3
  {
    hide ParseValue, ParseString, Reads, StringReads, Skip, Behind;
    var a := Skip(s);
    StringIff(a, ParseString(a).value, ParseString(a).rest);
    var colon := Skip(ParseString(a).rest);
    var d := Skip(colon[1..]);
    var r := ParseValue(d).rest;
    var b := Skip(r);
    SkipBehind(s);
    SkipBehind(ParseString(a).rest);
    SkipBehind(colon[1..]);
    ValueSound(d);
    SkipBehind(r);
    if At(b, 0) == ',' {
      MembersSound(b[1..]);
    } else {
      assert b == "}" + b[1..];
    }
    assert MemberRead(d, ParseMembers(s).value, ParseMembers(s).rest);
    assert colon == ":" + colon[1..];
  }

  // ---------- such a text is accepted ----------

  lemma NumberBegins(s: string, n: int, rest: string)
    requires NumberReads(s, n, rest)
    ensures s != "" && (s[0] == '-' || '0' <= s[0] <= '9')
  {
    var minus, zero, m :| NumberIs(s, n, rest, minus, zero, m);
    DecimalStarts(m);
    hide Decimal, NumberEnds;
  }

  lemma StringBegins(s: string, t: string, rest: string)
    requires StringReads(s, t, rest)
    ensures s != "" && s[0] == '\"'
  {
    hide Sources, Meanings, Writing, Closes;
  }

  lemma ReadsBegins(s: string, v: Value, rest: string)
    requires Reads(s, v, rest)
    ensures s != "" && NoWhite(s) && s[0] != ']' && s[0] != '}'
  {
    if v.Number? {
      NumberBegins(s, v.n, rest);
    } else if v.Text? {
      StringBegins(s, v.s, rest);
    }
    hide NumberReads, StringReads, ItemsRead, MembersRead;
  }

  lemma Words(rest: string)
    ensures ParseValue("null" + rest) == Ok(Null, rest)
    ensures ParseValue("false" + rest) == Ok(False, rest)
    ensures ParseValue("true" + rest) == Ok(True, rest)
  {
    hide ParseString, ParseNumber, ParseArray, ParseObject;
    var n, f, t := "null" + rest, "false" + rest, "true" + rest;
    assert n[..4] == "null" && n[4..] == rest;
    assert f[0] == 'f' && f[..4][0] == 'f' && f[..5] == "false" && f[5..] == rest;
    assert t[..4] == "true" && t[..4][0] == 't' && t[4..] == rest && (|t| >= 5 ==> t[..5][0] == 't');
  }

  // A text that does not begin with one of the three words.
  lemma NoWordAt(s: string)
    requires s != "" && s[0] != 'n' && s[0] != 'f' && s[0] != 't'
    ensures !Starts(s, "null") && !Starts(s, "false") && !Starts(s, "true")
  {
    assert |s| >= 4 ==> s[..4][0] == s[0];
    assert |s| >= 5 ==> s[..5][0] == s[0];
  }

  // What the first character decides.
  lemma Dispatch(s: string)
    requires s != ""
    ensures s[0] == '-' || '0' <= s[0] <= '9' ==> ParseValue(s) == ParseNumber(s)
    ensures s[0] == '\"' && ParseString(s).Ok? ==> ParseValue(s) == Ok(Text(ParseString(s).value), ParseString(s).rest)
    ensures s[0] == '[' ==> ParseValue(s) == ParseArray(s)
    ensures s[0] == '{' ==> ParseValue(s) == ParseObject(s)
  {
    if s[0] != 'n' && s[0] != 'f' && s[0] != 't' {
      NoWordAt(s);
    }
    hide ParseNumber, ParseString, ParseArray, ParseObject, Starts;
  }

  lemma {:induction false} ValueComplete(s: string, v: Value, rest: string)
    requires Reads(s, v, rest)
    ensures ParseValue(s) == Ok(v, rest)
    decreases v, 4
  {
    hide ParseValue, ParseNumber, ParseString, ItemsRead, MembersRead, NumberReads, StringReads;
    match v
    case Null => Words(rest);
    case False => Words(rest);
    case True => Words(rest);
    case Number(n) =>
      NumberBegins(s, n, rest);
      NumberIff(s, v, rest);
      Dispatch(s);
    case Text(t) =>
      StringBegins(s, t, rest);
      StringIff(s, t, rest);
      Dispatch(s);
    case Array(items) => ArrayComplete(s, items, rest);
    case Object(members) => ObjectComplete(s, members, rest);
  }

  lemma EmptyRead(s: string, rest: string)
    requires s != ""
    ensures s[0] == '[' && Behind(s[1..], "]" + rest) ==> ParseArray(s) == Ok(Array(NoItems), rest)
    ensures s[0] == '{' && Behind(s[1..], "}" + rest) ==> ParseObject(s) == Ok(Object(NoMembers), rest)
  {
    SkipIsBehind(s[1..], "]" + rest);
    SkipIsBehind(s[1..], "}" + rest);
    assert ("]" + rest)[1..] == rest && ("}" + rest)[1..] == rest;
    hide Skip, Behind, ParseItems, ParseMembers;
  }

  lemma ArrayStep(s: string, items: Items, rest: string)
    requires At(s, 0) == '[' && At(Skip(s[1..]), 0) != ']' && ParseItems(Skip(s[1..])) == Ok(items, rest)
    ensures ParseArray(s) == Ok(Array(items), rest)
  {
    hide Skip, ParseItems;
  }

  lemma ObjectStep(s: string, members: Members, rest: string)
    requires At(s, 0) == '{' && At(Skip(s[1..]), 0) != '}' && ParseMembers(Skip(s[1..])) == Ok(members, rest)
    ensures ParseObject(s) == Ok(Object(members), rest)
  {
    hide Skip, ParseMembers;
  }

  lemma {:induction false} ArrayComplete(s: string, items: Items, rest: string)
    requires Reads(s, Array(items), rest)
    ensures ParseValue(s) == Ok(Array(items), rest)
    decreases items, 3
  {
    hide ParseValue, ParseArray, ParseItems, ItemsRead, Skip, Behind;
    Dispatch(s);
    if items == NoItems {
      EmptyRead(s, rest);
    } else {
      ItemsComplete(s[1..], items, rest);
      ArrayStep(s, items, rest);
    }
  }

  lemma {:induction false} ObjectComplete(s: string, members: Members, rest: string)
    requires Reads(s, Object(members), rest)
    ensures ParseValue(s) == Ok(Object(members), rest)
    decreases members, 3
  {
    hide ParseValue, ParseObject, ParseMembers, MembersRead, Skip, Behind;
    Dispatch(s);
    if members == NoMembers {
      EmptyRead(s, rest);
    } else {
      MembersComplete(s[1..], members, rest);
      ObjectStep(s, members, rest);
    }
  }

  lemma SkipAgain(s: string, t: string)
    requires Skip(s) == t && NoWhite(t)
    ensures Skip(t) == t && ParseItems(s) == ParseItems(t) && ParseMembers(s) == ParseMembers(t)
  {
    assert Skip(t) == t;
    hide ParseValue, ParseString, Skip;
  }

  lemma ItemsGo(s: string, a: string, r: string, b: string, items: Items, rest: string)
    requires items.Item? && Skip(s) == a && ParseValue(a) == Ok(items.value, r) && Skip(r) == b
    requires if items.next == NoItems then b == "]" + rest
             else b != "" && b[0] == ',' && ParseItems(b[1..]) == Ok(items.next, rest)
    ensures ParseItems(s) == Ok(items, rest)
  {
    if items.next == NoItems {
      assert b[1..] == rest;
    }
    hide ParseValue, Skip;
  }

  lemma {:induction false} ItemsComplete(s: string, items: Items, rest: string)
    requires items.Item? && ItemsRead(s, items, rest)
    ensures At(Skip(s), 0) != ']' && ParseItems(Skip(s)) == Ok(items, rest) && ParseItems(s) == Ok(items, rest)
    decreases items, 2
  {
    hide Reads, ParseItems, ParseValue, Skip, Behind;
    var a :| Behind(s, a) && ItemRead(a, items, rest);
    var r, b :| Reads(a, items.value, r) && Behind(r, b)
      && if items.next == NoItems then b == "]" + rest
         else b != "" && b[0] == ',' && ItemsRead(b[1..], items.next, rest);
    ReadsBegins(a, items.value, r);
    SkipIsBehind(s, a);
    ValueComplete(a, items.value, r);
    SkipIsBehind(r, b);
    if items.next != NoItems {
      ItemsComplete(b[1..], items.next, rest);
    }
    ItemsGo(s, a, r, b, items, rest);
    SkipAgain(s, a);
  }

  lemma MembersGo(s: string, a: string, c: string, d: string, r: string, b: string, members: Members, rest: string)
    requires members.Member? && Skip(s) == a && ParseString(a).Ok? && ParseString(a).value == members.name
    requires Skip(ParseString(a).rest) == ":" + c && Skip(c) == d && ParseValue(d) == Ok(members.value, r)
    requires Skip(r) == b
    requires if members.next == NoMembers then b == "}" + rest
             else b != "" && b[0] == ',' && ParseMembers(b[1..]) == Ok(members.next, rest)
    ensures ParseMembers(s) == Ok(members, rest)
  {
    assert (":" + c)[1..] == c;
    if members.next == NoMembers {
      assert b[1..] == rest;
    }
    hide ParseValue, ParseString, Skip;
  }

  lemma {:induction false} MembersComplete(s: string, members: Members, rest: string)
    requires members.Member? && MembersRead(s, members, rest)
    ensures At(Skip(s), 0) != '}' && ParseMembers(Skip(s)) == Ok(members, rest) && ParseMembers(s) == Ok(members, rest)
    decreases members, 2
  {
    hide Reads, StringReads, ParseMembers, ParseValue, ParseString, Skip, Behind;
    var a, e, c, d :|
      && Behind(s, a) && StringReads(a, members.name, e) && Behind(e, ":" + c) && Behind(c, d)
      && MemberRead(d, members, rest);
    var r, b :| Reads(d, members.value, r) && Behind(r, b)
      && if members.next == NoMembers then b == "}" + rest
         else b != "" && b[0] == ',' && MembersRead(b[1..], members.next, rest);
    StringBegins(a, members.name, e);
    StringIff(a, members.name, e);
    ReadsBegins(d, members.value, r);
    SkipIsBehind(s, a);
    SkipIsBehind(e, ":" + c);
    SkipIsBehind(c, d);
    ValueComplete(d, members.value, r);
    SkipIsBehind(r, b);
    if members.next != NoMembers {
      MembersComplete(b[1..], members.next, rest);
    }
    MembersGo(s, a, c, d, r, b, members, rest);
    SkipAgain(s, a);
  }

  // The parser accepts exactly the texts of the grammar, as the items they are texts of.
  lemma ParserIsGrammar(s: string, v: Value, rest: string)
    ensures ParseValue(s) == Ok(v, rest) <==> Reads(s, v, rest)
  {
    hide *;
    if ParseValue(s) == Ok(v, rest) {
      ValueSound(s);
    }
    if Reads(s, v, rest) {
      ValueComplete(s, v, rest);
    }
  }

  // A whole text: white space, a text of the item, and whatever follows, which is not looked at.
  lemma ParseIsGrammar(s: string, v: Value, rest: string)
    ensures Parse(s) == Ok(v, rest) <==> exists a :: Behind(s, a) && Reads(a, v, rest)
  {
    hide *;
    SkipBehind(s);
    ParseIs(s);
    ParserIsGrammar(Skip(s), v, rest);
    if a :| Behind(s, a) && Reads(a, v, rest) {
      ReadsBegins(a, v, rest);
      SkipIsBehind(s, a);
    }
  }

  lemma ParseIs(s: string)
    ensures Parse(s) == ParseValue(Skip(s))
  {
    hide ParseValue, Skip;
  }

  // ---------- numbers and strings ----------

  // The end of the text ends a string as a quotation mark does.
  lemma {:induction false} UnclosedString(s: string)
    requires forall i | 0 <= i < |s| :: s[i] != '\0' && s[i] != '\"' && s[i] != '\\'
    ensures ParseString("\"" + s) == Ok(s, "")
  {
    assert ("\"" + s)[1..] == s;
    PlainToTheEnd(s);
  }

  lemma {:induction false} PlainToTheEnd(s: string)
    requires forall i | 0 <= i < |s| :: s[i] != '\0' && s[i] != '\"' && s[i] != '\\'
    ensures WholeEscapes(s) && Unescape(s) == Ok(s, "")
  {
    if s != "" {
      PlainToTheEnd(s[1..]);
      assert [s[0]] + s[1..] == s;
    }
  }
}
