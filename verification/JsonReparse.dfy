// What comes out of the parser can be printed and parsed again; what is not closed does not come out.
module JsonReparse {
  import opened CStrings
  import opened JsonText
  import opened JsonRoundTrip

  lemma Utf8NulFree(uc: nat)
    requires 0 < uc < 0x11_0000
    ensures NulFree(Utf8(uc))
  {
  }

  lemma UnescapeUNulFree(p: string)
    requires p != [] && UnescapeU(p).Ok?
    ensures NulFree(UnescapeU(p).value)
  {
    hide Utf8, Hex4;
    var uc := Hex4(p[1..]);
    if 0xD800 <= uc <= 0xDBFF {
      if |p| >= 11 {
        var uc2 := Hex4(p[5..][2..]);
        if 0xDC00 <= uc2 <= 0xDFFF {
          Utf8NulFree(0x1_0000 + (uc - 0xD800) * 0x400 + (uc2 - 0xDC00));
        }
      }
    } else if uc > 0 {
      Utf8NulFree(uc);
    }
  }

  lemma {:induction false} UnescapeNulFree(s: string)
    requires Unescape(s).Ok?
    ensures NulFree(Unescape(s).value)
    decreases |s|
  {
    if At(s, 0) == '\0' || s[0] == '\"' {
    } else if s[0] != '\\' {
      UnescapeNulFree(s[1..]);
    } else {
      Unescape1NulFree(s[1..]);
      UnescapeNulFree(Unescape1(s[1..]).rest);
      hide Unescape1;
    }
  }

  lemma Unescape1NulFree(p: string)
    requires Unescape1(p).Ok?
    ensures NulFree(Unescape1(p).value)
  {
    if p[0] == 'u' {
      UnescapeUNulFree(p);
    }
    hide UnescapeU;
  }

  lemma StringIsStorable(s: string)
    requires ParseString(s).Ok?
    ensures NulFree(ParseString(s).value)
  {
    UnescapeNulFree(s[1..]);
    hide Unescape, WholeEscapes;
  }

  // Whatever the parser accepts can be stored in C strings.
  lemma {:induction false} ValueIsStorable(s: string)
    requires ParseValue(s).Ok?
    ensures Storable(ParseValue(s).value)
    decreases |s|, 2
  {
    hide ParseNumber, ParseString, ParseItems, ParseMembers, Skip;
    if Starts(s, "null") || Starts(s, "false") || Starts(s, "true") {
    } else if At(s, 0) == '\"' {
      StringIsStorable(s);
    } else if At(s, 0) == '-' || IsDigit(At(s, 0)) {
      NumberIsStorable(s);
    } else if At(s, 0) == '[' {
      var s1 := Skip(s[1..]);
      if At(s1, 0) != ']' {
        ItemsAreStorable(s1);
      }
    } else if At(s, 0) == '{' {
      var s1 := Skip(s[1..]);
      if At(s1, 0) != '}' {
        MembersAreStorable(s1);
      }
    }
  }

  lemma NumberIsStorable(s: string)
    requires ParseNumber(s).Ok?
    ensures Storable(ParseNumber(s).value)
  {
    hide Digits;
  }

  lemma {:induction false} ItemsAreStorable(s: string)
    requires ParseItems(s).Ok?
    ensures StorableItems(ParseItems(s).value)
    decreases |s|, 3
  {
    hide ParseValue, Skip;
    ValueIsStorable(Skip(s));
    var s1 := Skip(ParseValue(Skip(s)).rest);
    if At(s1, 0) == ',' {
      ItemsAreStorable(s1[1..]);
    }
  }

  lemma {:induction false} MembersAreStorable(s: string)
    requires ParseMembers(s).Ok?
    ensures StorableMembers(ParseMembers(s).value)
    decreases |s|, 3
  {
    hide ParseValue, ParseString, Skip;
    var name := ParseString(Skip(s));
    StringIsStorable(Skip(s));
    var s1 := Skip(name.rest);
    ValueIsStorable(Skip(s1[1..]));
    var s2 := Skip(ParseValue(Skip(s1[1..])).rest);
    if At(s2, 0) == ',' {
      MembersAreStorable(s2[1..]);
    }
  }

  // Parsing any text, printing the result and parsing that gives the same result again.
  lemma ReparseIsStable(s: string, fmt: bool)
    requires Parse(s).Ok?
    ensures Parse(Print(Parse(s).value, 0, fmt)) == Ok(Parse(s).value, "")
  {
    hide ParseValue, Print, Skip, Storable;
    ValueIsStorable(Skip(s));
    RoundTrip(Parse(s).value, fmt);
  }

  // ---------- what is not closed ----------

  lemma ItemsOpen(s: string, v: Value, after: string)
    requires Skip(s) == s && ParseValue(s) == Ok(v, after) && At(Skip(after), 0) != ',' && At(Skip(after), 0) != ']'
    ensures ParseItems(s) == Failed
  {
    hide ParseValue;
  }

  lemma ItemsFailLater(s: string, v: Value, after: string)
    requires Skip(s) == s && ParseValue(s) == Ok(v, after) && At(after, 0) == ',' && ParseItems(after[1..]) == Failed
    ensures ParseItems(s) == Failed
  {
    hide ParseValue;
  }

  // Items that are followed by neither a comma nor the closing bracket.
  lemma {:induction false} OpenItemsFail(items: Items, depth: nat, fmt: bool, rest: string)
    requires items.Item? && StorableItems(items) && EndsNumber(rest)
    requires At(Skip(rest), 0) != ',' && At(Skip(rest), 0) != ']'
    ensures ParseItems(PrintItems(items, depth, fmt) + rest) == Failed
    decreases items
  {
    hide Print, PrintItems, ParseItems, ParseValue, Skip;
    var v := Print(items.value, depth, fmt);
    var tail := PrintItems(items.next, depth, fmt) + rest;
    var after := ItemEnd(items, fmt) + tail;
    var s := v + after;
    ItemsText(items, depth, fmt, rest);
    PrintBegins(items.value, depth, fmt);
    NoSkip(s);
    NoItemsText(depth, fmt);
    if items.next == NoItems {
      assert after == rest;
      ValueRoundTrip(items.value, depth, fmt, after);
      ItemsOpen(s, items.value, after);
    } else {
      ValueRoundTrip(items.value, depth, fmt, after);
      OpenItemsFail(items.next, depth, fmt, rest);
      assert after[1..] == (if fmt then " " else "") + tail;
      ItemsAfterSpaces(if fmt then " " else "", tail);
      ItemsFailLater(s, items.value, after);
    }
  }

  // An array whose items do not end in a bracket is refused, whatever else follows them.
  lemma UnclosedArrayFails(items: Items, depth: nat, fmt: bool, rest: string)
    requires items.Item? && StorableItems(items) && EndsNumber(rest)
    requires At(Skip(rest), 0) != ',' && At(Skip(rest), 0) != ']'
    ensures ParseArray("[" + PrintItems(items, depth, fmt) + rest) == Failed
  {
    var t := PrintItems(items, depth, fmt) + rest;
    assert ("[" + PrintItems(items, depth, fmt) + rest)[1..] == t;
    PrintBegins(items.value, depth, fmt);
    OpenItemsFail(items, depth, fmt, rest);
    assert t != [] && Begins(t[0]);
    NoSkip(t);
    hide Print, PrintItems, ParseItems, Skip;
  }
}
