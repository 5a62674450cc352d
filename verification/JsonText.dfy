// What json/cJSON.c prints and parses, as functions of the text.
module JsonText {
  import opened CStrings

  // An item with its children; the children of an array or an object are a chain, as in the original.
  datatype Value =
    | Null | False | True | Number(n: Int32) | Text(s: string) | Array(items: Items) | Object(members: Members)
  datatype Items = NoItems | Item(value: Value, next: Items)
  datatype Members = NoMembers | Member(name: string, value: Value, next: Members)

  // Every string and name in the item can be a C string.
  predicate Storable(v: Value) {
    match v
    case Text(s) => NulFree(s)
    case Array(items) => StorableItems(items)
    case Object(members) => StorableMembers(members)
    case _ => true
  }

  predicate StorableItems(items: Items) {
    items.Item? ==> Storable(items.value) && StorableItems(items.next)
  }

  predicate StorableMembers(members: Members) {
    members.Member? ==> NulFree(members.name) && Storable(members.value) && StorableMembers(members.next)
  }

  // ---------- printing ----------

  const BACKSPACE: char := 8 as char
  const FORM_FEED: char := 12 as char

  function HexDigit(d: nat): char
    requires d < 16
  {
    if d < 10 then Digit(d) else ('a' as int + d - 10) as char
  }

  predicate Plain(c: char) {
    c > 31 as char && c != '\"' && c != '\\'
  }

  // The letter after the backslash, for the control characters that have one.
  function ShortEscape(c: char): (r: char)
    ensures r != '\0' ==> !Plain(c)
  {
    if c == '\\' || c == '\"' then c
    else if c == BACKSPACE then 'b'
    else if c == FORM_FEED then 'f'
    else if c == '\n' then 'n'
    else if c == '\r' then 'r'
    else if c == '\t' then 't'
    else '\0'
  }

  function EscapeChar(c: char): string {
    if Plain(c) then [c]
    else if ShortEscape(c) != '\0' then ['\\', ShortEscape(c)]
    else ['\\', 'u', '0', '0', HexDigit(c as int / 16), HexDigit(c as int % 16)]
  }

  function Escape(s: string): string {
    if s == [] then [] else EscapeChar(s[0]) + Escape(s[1..])
  }

  function Quote(s: string): string {
    "\"" + Escape(s) + "\""
  }

  function Tabs(n: int): (r: string)
    ensures |r| == if n < 0 then 0 else n
    ensures forall i | 0 <= i < |r| :: r[i] == '\t'
  {
    seq(if n < 0 then 0 else n, _ => '\t')
  }

  function Print(v: Value, depth: nat, fmt: bool): string {
    match v
    case Null => "null"
    case False => "false"
    case True => "true"
    case Number(n) => Signed(n)
    case Text(s) => Quote(s)
    case Array(items) => if items == NoItems then "[]" else "[" + PrintItems(items, depth + 1, fmt) + "]"
    case Object(members) =>
      if members == NoMembers then (if fmt then "{\n" + Tabs(depth - 1) + "}" else "{}")
      else if fmt then "{\n" + PrintMembers(members, depth + 1, fmt) + Tabs(depth) + "}"
      else "{" + PrintMembers(members, depth + 1, fmt) + "}"
  }

  function ItemEnd(items: Items, fmt: bool): string
    requires items.Item?
  {
    if items.next == NoItems then "" else if fmt then ", " else ","
  }

  function PrintItems(items: Items, depth: nat, fmt: bool): string {
    if items == NoItems then ""
    else Print(items.value, depth, fmt) + ItemEnd(items, fmt) + PrintItems(items.next, depth, fmt)
  }

  function MemberEnd(members: Members, fmt: bool): string
    requires members.Member?
  {
    (if members.next == NoMembers then "" else ",") + (if fmt then "\n" else "")
  }

  // A member's name, with what comes before the value.
  function MemberStart(name: string, depth: nat, fmt: bool): string {
    if fmt then Tabs(depth) + Quote(name) + ":\t" else Quote(name) + ":"
  }

  function PrintMembers(members: Members, depth: nat, fmt: bool): string {
    if members == NoMembers then ""
    else
      MemberStart(members.name, depth, fmt) + Print(members.value, depth, fmt) + MemberEnd(members, fmt)
      + PrintMembers(members.next, depth, fmt)
  }

  // ---------- printed text, piece by piece ----------

  lemma ArrayText(items: Items, depth: nat, fmt: bool, rest: string)
    requires items.Item?
    ensures Print(Array(items), depth, fmt) + rest == "[" + (PrintItems(items, depth + 1, fmt) + ("]" + rest))
  {
    hide PrintItems;
  }

  lemma ItemsText(items: Items, depth: nat, fmt: bool, close: string)
    requires items.Item?
    ensures PrintItems(items, depth, fmt) + close
         == Print(items.value, depth, fmt) + (ItemEnd(items, fmt) + (PrintItems(items.next, depth, fmt) + close))
  {
    hide Print;
  }

  // What closes an object whose members have been printed.
  function Close(depth: nat, fmt: bool): string {
    if fmt then Tabs(depth) + "}" else "}"
  }

  lemma ObjectText(members: Members, depth: nat, fmt: bool, rest: string)
    requires members.Member?
    ensures Print(Object(members), depth, fmt) + rest
         == "{" + ((if fmt then "\n" else "") + (PrintMembers(members, depth + 1, fmt) + (Close(depth, fmt) + rest)))
  {
    hide PrintMembers;
  }

  lemma MembersText(members: Members, depth: nat, fmt: bool, close: string)
    requires members.Member?
    ensures PrintMembers(members, depth, fmt) + close
         == MemberStart(members.name, depth, fmt)
            + (Print(members.value, depth, fmt)
            + (MemberEnd(members, fmt) + (PrintMembers(members.next, depth, fmt) + close)))
  {
    hide Print, MemberStart, MemberEnd;
    var s, v, e, n := MemberStart(members.name, depth, fmt), Print(members.value, depth, fmt), MemberEnd(members, fmt),
      PrintMembers(members.next, depth, fmt);
    assert PrintMembers(members, depth, fmt) == s + v + e + n;
    Regroup(s, v, e, n, close);
  }

  lemma Regroup(a: string, b: string, c: string, d: string, e: string)
    ensures a + b + c + d + e == a + (b + (c + (d + e)))
  {
  }

  // ---------- parsing ----------

  function Skip(s: string): (r: string)
    ensures |r| <= |s|
  {
    if At(s, 0) != '\0' && At(s, 0) <= ' ' then Skip(s[1..]) else s
  }

  function Negated(minus: bool, n: int): int {
    if minus then -n else n
  }

  // A parse that goes well, one that fails, and one this model does not follow: a number that is not a 32-bit
  // integer, or a string with a cut-off escape.
  datatype Parsed<T> = Ok(value: T, rest: string) | Failed | NotModelled

  function ParseNumber(s: string): (r: Parsed<Value>)
    ensures r.Ok? ==> |r.rest| <= |s|
  {
    var s1 := if At(s, 0) == '-' then s[1..] else s;
    var s2 := if At(s1, 0) == '0' then s1[1..] else s1;
    var r := if '1' <= At(s2, 0) <= '9' then Digits(s2, 0) else (0, s2);
    var n := Negated(At(s, 0) == '-', r.0);
    if (At(r.1, 0) == '.' && IsDigit(At(r.1, 1))) || At(r.1, 0) == 'e' || At(r.1, 0) == 'E' then NotModelled
    else if -0x8000_0000 <= n < 0x8000_0000 then Ok(Number(n), r.1)
    else NotModelled
  }

  function HexValue(c: char): (r: int)
    ensures -1 <= r < 16
  {
    if IsDigit(c) then c as int - '0' as int
    else if 'A' <= c <= 'F' then 10 + c as int - 'A' as int
    else if 'a' <= c <= 'f' then 10 + c as int - 'a' as int
    else -1
  }

  // parse_hex4: 0 when one of the four is not a hex digit
  function Hex4(s: string): (r: nat)
    ensures r < 0x1_0000
  {
    var a, b, c, d := HexValue(At(s, 0)), HexValue(At(s, 1)), HexValue(At(s, 2)), HexValue(At(s, 3));
    if a < 0 || b < 0 || c < 0 || d < 0 then 0 else ((a * 16 + b) * 16 + c) * 16 + d
  }

  // The bytes of a code point in UTF-8.
  function Utf8(uc: nat): string
    requires uc < 0x11_0000
  {
    if uc < 0x80 then [uc as char]
    else if uc < 0x800 then [(0xC0 + uc / 0x40) as char, Continuation(uc)]
    else if uc < 0x1_0000 then [(0xE0 + uc / 0x1000) as char, Continuation(uc / 0x40), Continuation(uc)]
    else [(0xF0 + uc / 0x4_0000) as char, Continuation(uc / 0x1000), Continuation(uc / 0x40), Continuation(uc)]
  }

  function Continuation(uc: nat): char {
    (0x80 + uc % 0x40) as char
  }

  // What follows a backslash: the bytes it stands for and the rest of the text.
  function Unescape1(p: string): (r: Parsed<string>)
    ensures r.Ok? ==> |r.rest| < |p|
  {
    if p == [] || p[0] == '\0' then NotModelled
    else if p[0] == 'b' then Ok([BACKSPACE], p[1..])
    else if p[0] == 'f' then Ok([FORM_FEED], p[1..])
    else if p[0] == 'n' then Ok("\n", p[1..])
    else if p[0] == 'r' then Ok("\r", p[1..])
    else if p[0] == 't' then Ok("\t", p[1..])
    else if p[0] == 'u' then UnescapeU(p)
    else Ok([p[0]], p[1..])
  }

  function UnescapeU(p: string): (r: Parsed<string>)
    requires p != []
    ensures r.Ok? ==> |r.rest| < |p|
  {
    if |p| < 5 then NotModelled
    else
      var uc := Hex4(p[1..]);
      var q := p[5..];
      if 0xDC00 <= uc <= 0xDFFF || uc == 0 then Ok("", q)
      else if 0xD800 <= uc <= 0xDBFF then
        if At(q, 0) != '\\' || At(q, 1) != 'u' then Ok("", q)
        else if |q| < 6 then NotModelled
        else
          var uc2 := Hex4(q[2..]);
          if uc2 < 0xDC00 || uc2 > 0xDFFF then Ok("", q[6..])
          else Ok(Utf8(0x1_0000 + (uc - 0xD800) * 0x400 + (uc2 - 0xDC00)), q[6..])
      else Ok(Utf8(uc), q)
  }

  // The inside of a string, up to the closing quote or the end of the text.
  function Unescape(s: string): (r: Parsed<string>)
    ensures r.Ok? ==> |r.rest| <= |s|
    decreases |s|
  {
    if At(s, 0) == '\0' then Ok("", s)
    else if s[0] == '\"' then Ok("", s[1..])
    else if s[0] != '\\' then Prepend([s[0]], Unescape(s[1..]))
    else
      var e := Unescape1(s[1..]);
      if e.Ok? then Prepend(e.value, Unescape(e.rest)) else NotModelled
  }

  function Prepend(a: string, r: Parsed<string>): Parsed<string> {
    if r.Ok? then Ok(a + r.value, r.rest) else r
  }

  // A character of a string that does not end it and begins no escape.
  predicate IsPlain(c: char) {
    c != '\0' && c != '\"' && c != '\\'
  }

  predicate FourPlain(s: string) {
    |s| >= 4 && IsPlain(s[0]) && IsPlain(s[1]) && IsPlain(s[2]) && IsPlain(s[3])
  }

  // Every backslash has its letter and every \u its four characters, hex digits or not.
  predicate WholeEscapes(s: string)
    decreases |s|
  {
    if At(s, 0) == '\0' || s[0] == '\"' then true
    else if s[0] != '\\' then WholeEscapes(s[1..])
    else |s| >= 2 && s[1] != '\0' && (s[1] == 'u' ==> FourPlain(s[2..])) && WholeEscapes(s[2..])
  }

  function ParseString(s: string): (r: Parsed<string>)
    ensures r.Ok? ==> |r.rest| < |s|
  {
    if At(s, 0) != '\"' then Failed
    else if WholeEscapes(s[1..]) then Unescape(s[1..])
    else NotModelled
  }

  predicate Starts(s: string, word: string) {
    |word| <= |s| && s[..|word|] == word
  }

  function ParseValue(s: string): (r: Parsed<Value>)
    ensures r.Ok? ==> |r.rest| <= |s|
    decreases |s|, 2
  {
    if Starts(s, "null") then Ok(Null, s[4..])
    else if Starts(s, "false") then Ok(False, s[5..])
    else if Starts(s, "true") then Ok(True, s[4..])
    else if At(s, 0) == '\"' then
      var r := ParseString(s);
      if r.Ok? then Ok(Text(r.value), r.rest) else if r.Failed? then Failed else NotModelled
    else if At(s, 0) == '-' || IsDigit(At(s, 0)) then ParseNumber(s)
    else if At(s, 0) == '[' then ParseArray(s)
    else if At(s, 0) == '{' then ParseObject(s)
    else Failed
  }

  function ParseArray(s: string): (r: Parsed<Value>)
    requires At(s, 0) == '['
    ensures r.Ok? ==> |r.rest| < |s|
    decreases |s|, 1
  {
    var s1 := Skip(s[1..]);
    if At(s1, 0) == ']' then Ok(Array(NoItems), s1[1..])
    else
      var r := ParseItems(s1);
      if r.Ok? then Ok(Array(r.value), r.rest) else if r.Failed? then Failed else NotModelled
  }

  // The items of an array and its closing bracket.
  function ParseItems(s: string): (r: Parsed<Items>)
    ensures r.Ok? ==> |r.rest| < |s| && r.value.Item?
    decreases |s|, 3
  {
    var v := ParseValue(Skip(s));
    if !v.Ok? then (if v.Failed? then Failed else NotModelled)
    else
      var s1 := Skip(v.rest);
      if At(s1, 0) == ',' then
        var r := ParseItems(s1[1..]);
        if r.Ok? then Ok(Item(v.value, r.value), r.rest) else r
      else if At(s1, 0) == ']' then Ok(Item(v.value, NoItems), s1[1..])
      else Failed
  }

  function ParseObject(s: string): (r: Parsed<Value>)
    requires At(s, 0) == '{'
    ensures r.Ok? ==> |r.rest| < |s|
    decreases |s|, 1
  {
    var s1 := Skip(s[1..]);
    if At(s1, 0) == '}' then Ok(Object(NoMembers), s1[1..])
    else
      var r := ParseMembers(s1);
      if r.Ok? then Ok(Object(r.value), r.rest) else if r.Failed? then Failed else NotModelled
  }

  // The members of an object and its closing brace.
  function ParseMembers(s: string): (r: Parsed<Members>)
    ensures r.Ok? ==> |r.rest| < |s| && r.value.Member?
    decreases |s|, 3
  {
    var name := ParseString(Skip(s));
    if !name.Ok? then (if name.Failed? then Failed else NotModelled)
    else
      var s1 := Skip(name.rest);
      if At(s1, 0) != ':' then Failed
      else
        var v := ParseValue(Skip(s1[1..]));
        if !v.Ok? then (if v.Failed? then Failed else NotModelled)
        else
          var s2 := Skip(v.rest);
          if At(s2, 0) == ',' then
            var r := ParseMembers(s2[1..]);
            if r.Ok? then Ok(Member(name.value, v.value, r.value), r.rest) else r
          else if At(s2, 0) == '}' then Ok(Member(name.value, v.value, NoMembers), s2[1..])
          else Failed
  }

  // cJSON_Parse: what follows the value is not looked at.
  function Parse(s: string): Parsed<Value> {
    ParseValue(Skip(s))
  }
}
