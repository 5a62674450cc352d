// cJSON_Minify, in place, and what it makes of printed text.
module JsonMinify {
  import opened CStrings
  import opened JsonText

  // Overruns: a string or a comment that does not end carries the reading pointer past the end of the text.
  datatype Minified = Minified(text: string) | Overruns

  predicate Blank(c: char) {
    c == ' ' || c == '\t' || c == '\r' || c == '\n'
  }

  // After a // comment, at its newline.
  function LineEnd(s: string): (r: string)
    ensures |r| <= |s|
    ensures At(s, 0) == '/' ==> |r| < |s|
  {
    if At(s, 0) != '\0' && s[0] != '\n' then LineEnd(s[1..]) else s
  }

  function CommentEnd(s: string): (r: Minified)
    ensures r.Minified? ==> |r.text| < |s|
  {
    if At(s, 0) == '\0' then Overruns
    else if s[0] == '*' && At(s, 1) == '/' then Minified(s[2..])
    else CommentEnd(s[1..])
  }

  // The rest of a string, up to and with the closing quotation mark.
  function StringEnd(s: string): (r: Minified)
    ensures r.Minified? ==> |r.text| < |s|
    decreases |s|
  {
    if At(s, 0) == '\0' then Overruns
    else if s[0] == '\"' then Minified(s[1..])
    else if s[0] != '\\' then StringEnd(s[1..])
    else if At(s, 1) == '\0' then Overruns
    else StringEnd(s[2..])
  }

  function Prefixed(a: string, r: Minified): Minified {
    if r.Minified? then Minified(a + r.text) else Overruns
  }

  function Minify(s: string): Minified
    decreases |s|
  {
    if At(s, 0) == '\0' then Minified("")
    else if Blank(s[0]) then Minify(s[1..])
    else if s[0] == '/' && At(s, 1) == '/' then Minify(LineEnd(s))
    else if s[0] == '/' && At(s, 1) == '*' then
      var r := CommentEnd(s);
      if r.Minified? then Minify(r.text) else Overruns
    else if s[0] == '\"' then
      var r := StringEnd(s[1..]);
      if r.Minified? then Prefixed(s[..|s| - |r.text|], Minify(r.text)) else Overruns
    else Prefixed(s[..1], Minify(s[1..]))
  }

  // ---------- in place ----------

  // The text from here on, as the original reads it through a pointer.
  ghost predicate Reads(json: array<char>, s: string, at: nat)
    reads json
  {
    |s| < json.Length && at <= |s| && json[at..|s|] == s[at..] && json[|s|] == '\0'
  }

  lemma PointsAt(json: array<char>, s: string, at: nat)
    requires Reads(json, s, at)
    ensures json[at] == At(s[at..], 0)
    ensures at < |s| ==> json[at + 1] == At(s[at..], 1) && json[at] == s[at]
  {
    assert at < |s| ==> json[at] == json[at..|s|][0];
    assert at + 1 < |s| ==> json[at + 1] == json[at..|s|][1];
  }

  method SkipLine(json: array<char>, start: nat, ghost s: string) returns (at: nat)
    requires Reads(json, s, start)
    ensures start <= at <= |s| && s[at..] == LineEnd(s[start..])
  {
    at := start;
    while json[at] != '\0' && json[at] != '\n'
      invariant start <= at <= |s| && Reads(json, s, at)
      invariant LineEnd(s[at..]) == LineEnd(s[start..])
      decreases |s| - at
    {
      PointsAt(json, s, at);
      assert s[at..][1..] == s[at + 1..];
      at := at + 1;
      assert json[at..|s|] == json[at - 1..|s|][1..];
    }
    PointsAt(json, s, at);
  }

  method SkipComment(json: array<char>, start: nat, ghost s: string) returns (at: nat)
    requires Reads(json, s, start) && CommentEnd(s[start..]).Minified?
    ensures start <= at <= |s| && s[at..] == CommentEnd(s[start..]).text
  {
    at := start;
    while json[at] != '\0' && !(json[at] == '*' && json[at + 1] == '/')
      invariant start <= at < |s| && Reads(json, s, at)
      invariant CommentEnd(s[at..]) == CommentEnd(s[start..])
      decreases |s| - at
    {
      PointsAt(json, s, at);
      assert s[at..][1..] == s[at + 1..];
      at := at + 1;
      assert json[at..|s|] == json[at - 1..|s|][1..];
    }
    PointsAt(json, s, at);
    assert s[at..][2..] == s[at + 2..];
    at := at + 2;
  }

  lemma StringEndStep(s: string, at: nat)
    requires at <= |s| && StringEnd(s[at..]).Minified?
    ensures at < |s| && s[at] != '\0'
    ensures s[at] == '\"' ==> StringEnd(s[at..]).text == s[at + 1..]
    ensures s[at] == '\\' ==> at + 1 < |s| && StringEnd(s[at..]) == StringEnd(s[at + 2..])
    ensures s[at] != '\"' && s[at] != '\\' ==> StringEnd(s[at..]) == StringEnd(s[at + 1..])
  {
    assert s[at..][1..] == s[at + 1..];
    if At(s[at..], 1) != '\0' {
      assert s[at..][2..] == s[at + 2..];
    }
  }

  // Copies a string literal from its opening to its closing quotation mark.
  method CopyString(json: array<char>, start: nat, from: nat, ghost s: string) returns (into: nat, at: nat)
    requires start <= from && Reads(json, s, from) && from < |s| && s[from] == '\"'
    requires StringEnd(s[from + 1..]).Minified?
    modifies json
    ensures from < at <= |s| && s[at..] == StringEnd(s[from + 1..]).text
    ensures into == start + (at - from) && into <= at
    ensures json[..into] == old(json[..start]) + s[from..at]
    ensures Reads(json, s, at) && json[at..] == old(json[at..])
  {
    hide *;
    ghost var was := json[..];
    into, at := start, from;
    CopyBegins(json, start, from, s);
    into, at := CopyOn(json, start, from, into, at, s, was);
    while json[at] != '\0' && json[at] != '\"'
      invariant from < at <= |s| < json.Length && Copied(json, start, from, into, at, s, was)
      invariant StringEnd(s[at..]) == StringEnd(s[from + 1..])
      decreases |s| - at
    {
      CopiedReads(json, start, from, into, at, s, was);
      PointsAt(json, s, at);
      StringEndStep(s, at);
      if json[at] == '\\' {
        into, at := CopyOn(json, start, from, into, at, s, was);
      }
      into, at := CopyOn(json, start, from, into, at, s, was);
    }
    CopiedReads(json, start, from, into, at, s, was);
    PointsAt(json, s, at);
    StringEndStep(s, at);
    into, at := CopyOn(json, start, from, into, at, s, was);
    CopiedReads(json, start, from, into, at, s, was);
  }

  // A copy begun at from, into start, in an array that held was.
  ghost predicate Copied(json: array<char>, start: nat, from: nat, into: nat, at: nat, s: string, was: seq<char>)
    reads json
  {
    && start <= from <= at <= |s| && into == start + (at - from) && Reads(json, s, at)
    && |was| == json.Length && json[at..] == was[at..] && json[..into] == was[..start] + s[from..at]
  }

  lemma CopyBegins(json: array<char>, start: nat, from: nat, s: string)
    requires start <= from && Reads(json, s, from)
    ensures Copied(json, start, from, start, from, s, json[..])
  {
  }

  lemma CopiedReads(json: array<char>, start: nat, from: nat, into: nat, at: nat, s: string, was: seq<char>)
    requires Copied(json, start, from, into, at, s, was)
    ensures start <= from <= at <= |s| < json.Length && into == start + (at - from) && Reads(json, s, at)
    ensures |was| == json.Length && json[at..] == was[at..] && json[..into] == was[..start] + s[from..at]
  {
  }

  // One more byte of it.
  method CopyOn(json: array<char>, start: nat, from: nat, into: nat, at: nat, ghost s: string, ghost was: seq<char>)
    returns (into': nat, at': nat)
    requires at < |s| && Copied(json, start, from, into, at, s, was)
    modifies json
    ensures at' == at + 1 && |s| < json.Length && Copied(json, start, from, into', at', s, was)
  {
    into', at' := Copy1(json, into, at, s);
    assert was[..start] + s[from..at] + [s[at]] == was[..start] + s[from..at + 1];
    assert json[at + 1..] == was[at..][1..];
  }

  // *into++ = *json++
  method Copy1(json: array<char>, into: nat, at: nat, ghost s: string) returns (into': nat, at': nat)
    requires into <= at < |s| && Reads(json, s, at)
    modifies json
    ensures into' == into + 1 && at' == at + 1
    ensures Reads(json, s, at') && json[at'..] == old(json[at'..])
    ensures json[..into'] == old(json[..into]) + [s[at]]
  {
    PointsAt(json, s, at);
    json[into] := json[at];
    assert json[at + 1..] == old(json[at + 1..]);
    assert json[at + 1..|s|] == json[at + 1..][..|s| - (at + 1)] == old(json[at..|s|])[1..];
    into', at' := into + 1, at + 1;
  }

  lemma PrefixTwice(a: string, b: string, r: Minified)
    ensures Prefixed(a, Prefixed(b, r)) == Prefixed(a + b, r)
  {
    if r.Minified? {
      assert a + (b + r.text) == a + b + r.text;
    }
  }

  // One turn of the loop, on the text it reads.
  lemma MinifyStep(t: string)
    requires At(t, 0) != '\0' && Minify(t).Minified?
    ensures Blank(t[0]) ==> Minify(t) == Minify(t[1..])
    ensures t[0] == '/' && At(t, 1) == '/' ==> Minify(t) == Minify(LineEnd(t))
    ensures t[0] == '/' && At(t, 1) == '*' ==> CommentEnd(t).Minified? && Minify(t) == Minify(CommentEnd(t).text)
    ensures t[0] == '\"' ==>
              StringEnd(t[1..]).Minified? &&
              Minify(t) == Prefixed(t[..|t| - |StringEnd(t[1..]).text|], Minify(StringEnd(t[1..]).text))
    ensures !Blank(t[0]) && t[0] != '\"' && !(t[0] == '/' && (At(t, 1) == '/' || At(t, 1) == '*')) ==>
              Minify(t) == Prefixed(t[..1], Minify(t[1..]))
  {
    hide LineEnd, CommentEnd, StringEnd;
  }

  method Turn(json: array<char>, into0: nat, at0: nat, ghost s: string) returns (into: nat, at: nat)
    requires into0 <= at0 < |s| && Reads(json, s, at0) && At(s[at0..], 0) != '\0' && Minify(s[at0..]).Minified?
    modifies json
    ensures into <= at && at0 < at <= |s| && Reads(json, s, at) && json[at..] == old(json[at..])
    ensures Prefixed(json[..into], Minify(s[at..])) == Prefixed(old(json[..into0]), Minify(s[at0..]))
  {
    hide Minify, LineEnd, CommentEnd, StringEnd, Prefixed;
    into, at := into0, at0;
    ghost var t := s[at..];
    PointsAt(json, s, at);
    MinifyStep(t);
    assert t[1..] == s[at + 1..];
    if json[at] == ' ' || json[at] == '\t' || json[at] == '\r' || json[at] == '\n' {
      at := at + 1;
      assert json[at..|s|] == json[at - 1..|s|][1..];
    } else if json[at] == '/' && json[at + 1] == '/' {
      at := SkipLine(json, at, s);
      Further(json, s, at0, at);
    } else if json[at] == '/' && json[at + 1] == '*' {
      at := SkipComment(json, at, s);
      Further(json, s, at0, at);
    } else if json[at] == '\"' {
      into, at := CopyString(json, into, at, s);
      assert t[..|t| - |s[at..]|] == s[at0..at];
      PrefixTwice(old(json[..into0]), s[at0..at], Minify(s[at..]));
    } else {
      into, at := Copy1(json, into, at, s);
      assert t[..1] == [s[at0]];
      PrefixTwice(old(json[..into0]), t[..1], Minify(s[at..]));
    }
  }

  lemma Further(json: array<char>, s: string, from: nat, at: nat)
    requires Reads(json, s, from) && from <= at <= |s|
    ensures Reads(json, s, at)
  {
    assert json[at..|s|] == json[from..|s|][at - from..];
  }

  lemma PrefixNothing(r: Minified)
    ensures Prefixed("", r) == r
  {
    assert r.Minified? ==> "" + r.text == r.text;
  }

  method MinifyInPlace(json: array<char>, ghost s: string)
    requires Reads(json, s, 0) && Minify(s).Minified?
    modifies json
    ensures var m := Minify(s).text;
            |m| <= |s| && json[..|m|] == m && json[|m|] == '\0' && json[|s| + 1..] == old(json[|s| + 1..])
  {
    var into: nat, at: nat := 0, 0;
    assert s[0..] == s && json[..0] == "";
    PrefixNothing(Minify(s));
    while json[at] != '\0'
      invariant into <= at <= |s| && Reads(json, s, at) && json[at..] == old(json[at..])
      invariant Prefixed(json[..into], Minify(s[at..])) == Minify(s)
      decreases |s| - at
    {
      hide Minify;
      PointsAt(json, s, at);
      ghost var rest := json[at..];
      ghost var at0 := at;
      into, at := Turn(json, into, at, s);
      assert json[at..] == rest[at - at0..] == old(json[at0..])[at - at0..] == old(json[at..]);
    }
    PointsAt(json, s, at);
    assert Minify(s[at..]).text == "";
    assert json[..into] + "" == json[..into];
    ghost var tail := json[at..];
    json[into] := '\0';
    assert json[|s| + 1..] == tail[|s| + 1 - at..];
  }

  // ---------- minifying what was printed ----------

  predicate Kept(c: char) {
    c != '\0' && !Blank(c) && c != '/' && c != '\"'
  }

  lemma {:induction false} MinifyKept(w: string, rest: string)
    requires forall i | 0 <= i < |w| :: Kept(w[i])
    ensures Minify(w + rest) == Prefixed(w, Minify(rest))
  {
    if w == [] {
      assert w + rest == rest;
      assert Minify(rest).Minified? ==> "" + Minify(rest).text == Minify(rest).text;
    } else {
      var s := w + rest;
      assert s[1..] == w[1..] + rest && s[..1] == w[..1];
      MinifyKept(w[1..], rest);
      hide Minify;
      KeptStep(s);
      PrefixTwice(w[..1], w[1..], Minify(rest));
      assert w[..1] + w[1..] == w;
    }
  }

  lemma KeptStep(s: string)
    requires s != [] && Kept(s[0])
    ensures Minify(s) == Prefixed(s[..1], Minify(s[1..]))
  {
  }

  lemma {:induction false} MinifyBlanks(w: string, rest: string)
    requires forall i | 0 <= i < |w| :: Blank(w[i])
    ensures Minify(w + rest) == Minify(rest)
  {
    if w == [] {
      assert w + rest == rest;
    } else {
      assert (w + rest)[1..] == w[1..] + rest;
      MinifyBlanks(w[1..], rest);
    }
  }

  lemma StringEndChar(c: char, t: string)
    requires c != '\0'
    ensures StringEnd(EscapeChar(c) + t) == StringEnd(t)
  {
    var s := EscapeChar(c) + t;
    if Plain(c) {
      assert s[1..] == t;
    } else if ShortEscape(c) != '\0' {
      assert s[2..] == t;
    } else {
      var hex := ['0', '0', HexDigit(c as int / 16), HexDigit(c as int % 16)];
      assert s[2..] == hex + t;
      HexDigitsEndNothing(hex, t);
    }
  }

  lemma {:induction false} HexDigitsEndNothing(hex: string, t: string)
    requires forall i | 0 <= i < |hex| :: hex[i] != '\0' && hex[i] != '\"' && hex[i] != '\\'
    ensures StringEnd(hex + t) == StringEnd(t)
  {
    if hex == [] {
      assert hex + t == t;
    } else {
      assert (hex + t)[1..] == hex[1..] + t;
      HexDigitsEndNothing(hex[1..], t);
    }
  }

  lemma {:induction false} StringEndOfEscape(s: string, rest: string)
    requires NulFree(s)
    ensures StringEnd(Escape(s) + ("\"" + rest)) == Minified(rest)
  {
    if s == [] {
      assert Escape(s) + ("\"" + rest) == "\"" + rest && ("\"" + rest)[1..] == rest;
    } else {
      var t := Escape(s[1..]) + ("\"" + rest);
      assert Escape(s) + ("\"" + rest) == EscapeChar(s[0]) + t;
      StringEndChar(s[0], t);
      StringEndOfEscape(s[1..], rest);
    }
  }

  lemma MinifyQuote(s: string, rest: string)
    requires NulFree(s)
    ensures Minify(Quote(s) + rest) == Prefixed(Quote(s), Minify(rest))
  {
    var t := Quote(s) + rest;
    assert t[1..] == Escape(s) + ("\"" + rest);
    StringEndOfEscape(s, rest);
    assert t[..|t| - |rest|] == Quote(s);
    hide Escape, StringEnd;
    QuoteStep(t, rest);
  }

  lemma QuoteStep(t: string, rest: string)
    requires t != [] && t[0] == '\"' && StringEnd(t[1..]) == Minified(rest)
    ensures |rest| < |t| && Minify(t) == Prefixed(t[..|t| - |rest|], Minify(rest))
  {
    hide StringEnd;
  }

  lemma {:induction false} MinifyValue(v: Value, depth: nat, fmt: bool, rest: string)
    requires Storable(v)
    ensures Minify(Print(v, depth, fmt) + rest) == Prefixed(Print(v, depth, false), Minify(rest))
    decreases v
  {
    match v
    case Text(s) => MinifyQuote(s, rest);
    case Number(n) =>
      DecimalChars(Magnitude(n));
      MinifyKept(Signed(n), rest);
    case Array(items) => MinifyArray(items, depth, fmt, rest);
    case Object(members) => MinifyObject(members, depth, fmt, rest);
    case _ => MinifyKept(Print(v, depth, fmt), rest);
  }

  lemma {:induction false} MinifyArray(items: Items, depth: nat, fmt: bool, rest: string)
    requires StorableItems(items)
    ensures Minify(Print(Array(items), depth, fmt) + rest) == Prefixed(Print(Array(items), depth, false), Minify(rest))
    decreases items, 1
  {
    if items == NoItems {
      MinifyKept("[]", rest);
    } else {
      ArrayText(items, depth, fmt, rest);
      ArrayText(items, depth, false, "");
      hide Print, PrintItems, Minify, Prefixed;
      var t := PrintItems(items, depth + 1, fmt) + ("]" + rest);
      var u := PrintItems(items, depth + 1, false);
      MinifyKept("[", t);
      MinifyItems(items, depth + 1, fmt, "]" + rest);
      MinifyKept("]", rest);
      PrefixTwice(u, "]", Minify(rest));
      PrefixTwice("[", u + "]", Minify(rest));
      assert u + "]" + "" == u + "]" && "[" + (u + ("]" + "")) == "[" + (u + "]");
      assert Print(Array(items), depth, false) + "" == Print(Array(items), depth, false);
    }
  }

  lemma MinifyItemEnd(items: Items, fmt: bool, t: string)
    requires items.Item?
    ensures Minify(ItemEnd(items, fmt) + t) == Prefixed(ItemEnd(items, false), Minify(t))
  {
    if items.next == NoItems {
      MinifyKept("", t);
    } else if fmt {
      assert ", " + t == "," + (" " + t);
      MinifyKept(",", " " + t);
      MinifyBlanks(" ", t);
    } else {
      MinifyKept(",", t);
    }
  }

  lemma {:induction false} MinifyItems(items: Items, depth: nat, fmt: bool, close: string)
    requires StorableItems(items)
    ensures Minify(PrintItems(items, depth, fmt) + close) == Prefixed(PrintItems(items, depth, false), Minify(close))
    decreases items, 0
  {
    if items == NoItems {
      MinifyKept("", close);
      assert PrintItems(items, depth, fmt) == "" && PrintItems(items, depth, false) == "";
    } else {
      ItemsText(items, depth, fmt, close);
      ItemsText(items, depth, false, "");
      hide Print, PrintItems, Minify, Prefixed, ItemEnd;
      var v, e, n := Print(items.value, depth, false), ItemEnd(items, false), PrintItems(items.next, depth, false);
      var t := PrintItems(items.next, depth, fmt) + close;
      MinifyValue(items.value, depth, fmt, ItemEnd(items, fmt) + t);
      MinifyItemEnd(items, fmt, t);
      MinifyItems(items.next, depth, fmt, close);
      PrefixTwice(e, n, Minify(close));
      PrefixTwice(v, e + n, Minify(close));
      assert n + "" == n;
      assert PrintItems(items, depth, false) + "" == PrintItems(items, depth, false);
    }
  }

  lemma MinifyClose(depth: nat, fmt: bool, rest: string)
    ensures Minify(Close(depth, fmt) + rest) == Prefixed("}", Minify(rest))
  {
    var w := if fmt then Tabs(depth) else "";
    assert Close(depth, fmt) + rest == w + ("}" + rest);
    MinifyBlanks(w, "}" + rest);
    MinifyKept("}", rest);
  }

  lemma MinifyBraces(w: string, t: string, u: string, r: Minified)
    requires (forall i | 0 <= i < |w| :: Blank(w[i])) && Minify(t) == Prefixed(u, Prefixed("}", r))
    ensures Minify("{" + (w + t)) == Prefixed("{" + (u + "}"), r)
  {
    MinifyKept("{", w + t);
    MinifyBlanks(w, t);
    hide Minify, Prefixed;
    PrefixTwice(u, "}", r);
    PrefixTwice("{", u + "}", r);
  }

  lemma {:induction false} MinifyObject(members: Members, depth: nat, fmt: bool, rest: string)
    requires StorableMembers(members)
    ensures Minify(Print(Object(members), depth, fmt) + rest)
              == Prefixed(Print(Object(members), depth, false), Minify(rest))
    decreases members, 2
  {
    hide *;
    if members == NoMembers {
      MinifyEmptyObject(depth, fmt, rest);
    } else {
      MinifyFullObject(members, depth, fmt, rest);
    }
  }

  lemma {:induction false} MinifyFullObject(members: Members, depth: nat, fmt: bool, rest: string)
    requires members.Member? && StorableMembers(members)
    ensures Minify(Print(Object(members), depth, fmt) + rest)
              == Prefixed(Print(Object(members), depth, false), Minify(rest))
    decreases members, 1
  {
    hide *;
    var t := PrintMembers(members, depth + 1, fmt) + (Close(depth, fmt) + rest);
    var u := PrintMembers(members, depth + 1, false);
    ObjectText(members, depth, fmt, rest);
    BareObjectText(members, depth);
    MinifyMembers(members, depth + 1, fmt, Close(depth, fmt) + rest);
    MinifyClose(depth, fmt, rest);
    MinifyNewline(fmt, t, u, Minify(rest));
  }

  lemma BareObjectText(members: Members, depth: nat)
    requires members.Member?
    ensures Print(Object(members), depth, false) == "{" + (PrintMembers(members, depth + 1, false) + "}")
  {
    hide PrintMembers;
  }

  lemma MinifyNewline(fmt: bool, t: string, u: string, r: Minified)
    requires Minify(t) == Prefixed(u, Prefixed("}", r))
    ensures Minify("{" + ((if fmt then "\n" else "") + t)) == Prefixed("{" + (u + "}"), r)
  {
    hide Minify, Prefixed;
    MinifyBraces(if fmt then "\n" else "", t, u, r);
  }

  // An empty object is printed with a newline and tabs between its braces.
  function EmptyGap(depth: nat, fmt: bool): string {
    if fmt then "\n" + Tabs(depth - 1) else ""
  }

  lemma EmptyObjectText(depth: nat, fmt: bool, rest: string)
    ensures Print(Object(NoMembers), depth, fmt) + rest == "{" + (EmptyGap(depth, fmt) + ("}" + rest))
    ensures forall i | 0 <= i < |EmptyGap(depth, fmt)| :: Blank(EmptyGap(depth, fmt)[i])
  {
  }

  lemma MinifyEmptyObject(depth: nat, fmt: bool, rest: string)
    ensures Minify(Print(Object(NoMembers), depth, fmt) + rest)
         == Prefixed(Print(Object(NoMembers), depth, false), Minify(rest))
  {
    assert Print(Object(NoMembers), depth, false) == "{" + ("" + "}");
    assert Kept('}');
    hide *;
    EmptyObjectText(depth, fmt, rest);
    MinifyKept("}", rest);
    MinifyKept("", "}" + rest);
    assert "" + ("}" + rest) == "}" + rest;
    MinifyBraces(EmptyGap(depth, fmt), "}" + rest, "", Minify(rest));
  }

  lemma MinifyMemberStart(name: string, depth: nat, fmt: bool, t: string)
    requires NulFree(name)
    ensures Minify(MemberStart(name, depth, fmt) + t) == Prefixed(MemberStart(name, depth, false), Minify(t))
  {
    var tabs, tab := if fmt then Tabs(depth) else "", if fmt then "\t" else "";
    assert MemberStart(name, depth, fmt) + t == tabs + (Quote(name) + (":" + (tab + t)));
    hide Quote, Minify;
    MinifyBlanks(tabs, Quote(name) + (":" + (tab + t)));
    MinifyQuote(name, ":" + (tab + t));
    MinifyKept(":", tab + t);
    MinifyBlanks(tab, t);
    PrefixTwice(Quote(name), ":", Minify(t));
  }

  lemma MinifyMemberEnd(members: Members, fmt: bool, t: string)
    requires members.Member?
    ensures Minify(MemberEnd(members, fmt) + t) == Prefixed(MemberEnd(members, false), Minify(t))
  {
    var comma, newline := if members.next == NoMembers then "" else ",", if fmt then "\n" else "";
    assert MemberEnd(members, fmt) + t == comma + (newline + t);
    assert MemberEnd(members, false) == comma;
    MinifyKept(comma, newline + t);
    MinifyBlanks(newline, t);
  }

  lemma {:induction false} MinifyMembers(members: Members, depth: nat, fmt: bool, close: string)
    requires StorableMembers(members)
    ensures Minify(PrintMembers(members, depth, fmt) + close)
              == Prefixed(PrintMembers(members, depth, false), Minify(close))
    decreases members, 0
  {
    if members == NoMembers {
      MinifyKept("", close);
      assert PrintMembers(members, depth, fmt) == "" && PrintMembers(members, depth, false) == "";
    } else {
      MembersText(members, depth, fmt, close);
      MembersText(members, depth, false, "");
      hide Print, PrintMembers, Minify, Prefixed, MemberStart, MemberEnd;
      var s, v := MemberStart(members.name, depth, false), Print(members.value, depth, false);
      var e, n := MemberEnd(members, false), PrintMembers(members.next, depth, false);
      var t := PrintMembers(members.next, depth, fmt) + close;
      var after := MemberEnd(members, fmt) + t;
      MinifyMemberStart(members.name, depth, fmt, Print(members.value, depth, fmt) + after);
      MinifyValue(members.value, depth, fmt, after);
      MinifyMemberEnd(members, fmt, t);
      MinifyMembers(members.next, depth, fmt, close);
      PrefixTwice(e, n, Minify(close));
      PrefixTwice(v, e + n, Minify(close));
      PrefixTwice(s, v + (e + n), Minify(close));
      assert n + "" == n;
      assert PrintMembers(members, depth, false) + "" == PrintMembers(members, depth, false);
    }
  }

  // Minifying cJSON_Print's text gives cJSON_PrintUnformatted's, and minifying that changes nothing.
  lemma MinifyPrinted(v: Value, fmt: bool)
    requires Storable(v)
    ensures Minify(Print(v, 0, fmt)) == Minified(Print(v, 0, false))
  {
    MinifyValue(v, 0, fmt, "");
    assert Print(v, 0, fmt) + "" == Print(v, 0, fmt) && Print(v, 0, false) + "" == Print(v, 0, false);
  }
}
