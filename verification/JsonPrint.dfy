// The printers of json/cJSON.c that allocate each text in one piece: the length is computed first, and no write
// goes past it.
module JsonPrint {
  import opened CStrings
  import opened JsonText

  // The array holds this text and its terminator.
  ghost predicate Holds(a: array<char>, s: string)
    reads a
  {
    |s| < a.Length && a[..|s|] == s && a[|s|] == '\0' && NulFree(s)
  }

  lemma {:induction false} EscapeNulFree(s: string)
    requires NulFree(s)
    ensures NulFree(Escape(s))
  {
    if s != [] {
      assert forall i | 0 <= i < |EscapeChar(s[0])| :: EscapeChar(s[0])[i] != '\0';
      EscapeNulFree(s[1..]);
    }
  }

  lemma Both(a: string, b: string)
    requires NulFree(a) && NulFree(b)
    ensures NulFree(a + b)
  {
  }

  lemma QuoteNulFree(s: string)
    requires NulFree(s)
    ensures NulFree(Quote(s))
  {
    EscapeNulFree(s);
  }

  lemma {:induction false} PrintNulFree(v: Value, depth: nat, fmt: bool)
    requires Storable(v)
    ensures NulFree(Print(v, depth, fmt))
    decreases v
  {
    match v
    case Number(n) => DecimalChars(Magnitude(n));
    case Text(s) => QuoteNulFree(s);
    case Array(items) =>
      ItemsNulFree(items, depth + 1, fmt);
      ArrayNulFree(items, depth, fmt);
    case Object(members) =>
      MembersNulFree(members, depth + 1, fmt);
      ObjectNulFree(members, depth, fmt);
    case _ =>
  }

  lemma ArrayNulFree(items: Items, depth: nat, fmt: bool)
    requires NulFree(PrintItems(items, depth + 1, fmt))
    ensures NulFree(Print(Array(items), depth, fmt))
  {
    hide PrintItems;
  }

  lemma ObjectNulFree(members: Members, depth: nat, fmt: bool)
    requires NulFree(PrintMembers(members, depth + 1, fmt))
    ensures NulFree(Print(Object(members), depth, fmt))
  {
    hide PrintMembers;
  }

  lemma {:induction false} ItemsNulFree(items: Items, depth: nat, fmt: bool)
    requires StorableItems(items)
    ensures NulFree(PrintItems(items, depth, fmt))
    decreases items
  {
    hide Print, NulFree;
    if items.Item? {
      PrintNulFree(items.value, depth, fmt);
      ItemsNulFree(items.next, depth, fmt);
      EndsNulFree(items, NoMembers, fmt);
      Both(Print(items.value, depth, fmt), ItemEnd(items, fmt));
      Both(Print(items.value, depth, fmt) + ItemEnd(items, fmt), PrintItems(items.next, depth, fmt));
    } else {
      EndsNulFree(items, NoMembers, fmt);
    }
  }

  lemma EndsNulFree(items: Items, members: Members, fmt: bool)
    ensures NulFree("")
    ensures items.Item? ==> NulFree(ItemEnd(items, fmt))
    ensures members.Member? ==> NulFree(MemberEnd(members, fmt))
  {
  }

  lemma StartNulFree(name: string, depth: nat, fmt: bool)
    requires NulFree(name)
    ensures NulFree(MemberStart(name, depth, fmt))
  {
    QuoteNulFree(name);
    hide Quote;
  }

  lemma {:induction false} MembersNulFree(members: Members, depth: nat, fmt: bool)
    requires StorableMembers(members)
    ensures NulFree(PrintMembers(members, depth, fmt))
    decreases members
  {
    hide Print, NulFree, MemberStart, MemberEnd;
    EndsNulFree(NoItems, members, fmt);
    if members.Member? {
      var s, v, e := MemberStart(members.name, depth, fmt), Print(members.value, depth, fmt), MemberEnd(members, fmt);
      StartNulFree(members.name, depth, fmt);
      PrintNulFree(members.value, depth, fmt);
      MembersNulFree(members.next, depth, fmt);
      Both(s, v);
      Both(s + v, e);
      Both(s + v + e, PrintMembers(members.next, depth, fmt));
    }
  }

  // ---------- the C library ----------

  method StrLen(a: array<char>, ghost s: string) returns (n: nat)
    requires Holds(a, s)
    ensures n == |s|
  {
    n := 0;
    forall k | 0 <= k < |s| ensures a[k] != '\0' {
      HoldsAt(a, s, k);
    }
    while a[n] != '\0'
      invariant n <= |s|
      invariant forall k | n <= k < |s| :: a[k] != '\0'
      decreases |s| - n
    {
      n := n + 1;
    }
  }

  lemma HoldsAt(a: array<char>, s: string, n: nat)
    requires Holds(a, s) && n < |s|
    ensures a[n] != '\0'
  {
    assert a[n] == a[..|s|][n] == s[n];
  }

  // memcpy of the first n bytes to dst + at
  method MemCpy(dst: array<char>, at: nat, src: array<char>, n: nat)
    requires dst != src && n <= src.Length && at + n <= dst.Length
    modifies dst
    ensures dst[..at] == old(dst[..at]) && dst[at..at + n] == src[..n] && dst[at + n..] == old(dst[at + n..])
  {
    for k := 0 to n
      invariant dst[..at] == old(dst[..at]) && dst[at..at + k] == src[..k] && dst[at + k..] == old(dst[at + k..])
    {
      ghost var rest := dst[at + k..];
      dst[at + k] := src[k];
      assert dst[at + k + 1..] == rest[1..];
    }
  }

  // sprintf, strcpy and writes of constants: the bytes of s at dst + at
  method Put(dst: array<char>, at: nat, s: string) returns (end: nat)
    requires at + |s| <= dst.Length
    modifies dst
    ensures end == at + |s|
    ensures dst[..end] == old(dst[..at]) + s && dst[end..] == old(dst[end..])
  {
    for k := 0 to |s|
      invariant dst[..at + k] == old(dst[..at]) + s[..k] && dst[at + k..] == old(dst[at + k..])
    {
      ghost var rest := dst[at + k..];
      dst[at + k] := s[k];
      assert dst[at + k + 1..] == rest[1..];
      assert s[..k + 1] == s[..k] + [s[k]];
    }
    assert s[..|s|] == s;
    end := at + |s|;
  }

  // strlen, memcpy and ptr += tmplen
  method Append(dst: array<char>, at: nat, src: array<char>, ghost s: string) returns (end: nat)
    requires Holds(src, s) && dst != src && at + |s| <= dst.Length
    modifies dst
    ensures end == at + |s| && dst[..end] == old(dst[..at]) + s
  {
    var n := StrLen(src, s);
    MemCpy(dst, at, src, n);
    assert dst[..at + n] == dst[..at] + dst[at..at + n];
    end := at + n;
  }

  method NewText(size: nat, s: string) returns (a: array<char>)
    requires |s| < size && NulFree(s)
    ensures fresh(a) && a.Length == size && Holds(a, s)
  {
    a := new char[size];
    var end := Put(a, 0, s + "\0");
    assert a[..end] == s + "\0";
    assert a[..|s|] == a[..end][..|s|] == s && a[|s|] == a[..end][|s|];
  }

  // ---------- numbers and strings ----------

  method PrintNumber(n: Int32) returns (out: array<char>)
    ensures fresh(out) && Holds(out, Signed(n))
  {
    NumberFits(n);
    if n == 0 {
      out := NewText(2, "0");
    } else {
      out := NewText(21, Signed(n));
    }
  }

  predicate Special(c: char) {
    c < ' ' || c == '\"' || c == '\\'
  }

  // What a byte adds to the length asked for.
  function EscapedSize(c: char): nat {
    if ShortEscape(c) != '\0' then 2 else if c < ' ' then 6 else 1
  }

  lemma {:induction false} NothingToEscape(s: string)
    requires forall i | 0 <= i < |s| :: !Special(s[i])
    ensures Escape(s) == s
  {
    if s != [] {
      NothingToEscape(s[1..]);
    }
  }

  lemma {:induction false} EscapeAppend(s: string, t: string)
    ensures Escape(s + t) == Escape(s) + Escape(t)
  {
    if s == [] {
      assert s + t == t;
    } else {
      assert (s + t)[1..] == s[1..] + t;
      EscapeAppend(s[1..], t);
    }
  }

  lemma EscapeNext(s: string, k: nat)
    requires k < |s|
    ensures Escape(s[..k + 1]) == Escape(s[..k]) + EscapeChar(s[k]) && |EscapeChar(s[k])| == EscapedSize(s[k])
  {
    assert s[..k + 1] == s[..k] + [s[k]];
    EscapeAppend(s[..k], [s[k]]);
    assert Escape([s[k]]) == EscapeChar(s[k]) + Escape([s[k]][1..]);
  }

  lemma EscapePart(s: string, k: nat)
    requires k < |s|
    ensures |Escape(s[..k])| + |EscapeChar(s[k])| <= |Escape(s)|
  {
    EscapeNext(s, k);
    assert s == s[..k + 1] + s[k + 1..];
    EscapeAppend(s[..k + 1], s[k + 1..]);
  }

  // The first loop of print_string_ptr: is there anything to escape?
  method HasSpecial(s: string) returns (flag: bool)
    ensures flag <==> exists i :: 0 <= i < |s| && Special(s[i])
  {
    flag := false;
    for k := 0 to |s|
      invariant flag <==> exists i :: 0 <= i < k && Special(s[i])
    {
      flag := flag || Special(s[k]);
    }
  }

  method EscapedLength(s: string) returns (len: nat)
    ensures len == |Escape(s)|
  {
    len := 0;
    for k := 0 to |s|
      invariant len == |Escape(s[..k])|
    {
      EscapeNext(s, k);
      len := len + 1;
      if ShortEscape(s[k]) != '\0' {
        len := len + 1;
      } else if s[k] < ' ' {
        len := len + 5;
      }
    }
    assert s[..|s|] == s;
  }

  method WriteChar(out: array<char>, at: nat, c: char) returns (end: nat)
    requires at + |EscapeChar(c)| <= out.Length
    modifies out
    ensures end == at + |EscapeChar(c)| && out[..end] == old(out[..at]) + EscapeChar(c)
  {
    if c > 31 as char && c != '\"' && c != '\\' {
      end := Put(out, at, [c]);
    } else if ShortEscape(c) != '\0' {
      end := Put(out, at, ['\\', ShortEscape(c)]);
    } else {
      end := Put(out, at, ['\\', 'u', '0', '0', HexDigit(c as int / 16), HexDigit(c as int % 16)]);
    }
  }

  // The second loop of print_string_ptr, from the opening to the closing quotation mark.
  method WriteEscaped(out: array<char>, at: nat, s: string) returns (end: nat)
    requires at + |Quote(s)| < out.Length
    modifies out
    ensures end == at + |Quote(s)| && out[..end] == old(out[..at]) + Quote(s) && out[end] == '\0'
  {
    hide Escape;
    ghost var pre := out[..at] + "\"";
    end := Put(out, at, "\"");
    EscapeNothing();
    for k := 0 to |s|
      invariant end == at + 1 + |Escape(s[..k])| <= at + 1 + |Escape(s)|
      invariant out[..end] == pre + Escape(s[..k])
    {
      EscapeNext(s, k);
      EscapePart(s, k);
      end := WriteChar(out, end, s[k]);
      assert pre + Escape(s[..k]) + EscapeChar(s[k]) == pre + (Escape(s[..k]) + EscapeChar(s[k]));
    }
    assert s[..|s|] == s;
    end := Put(out, end, "\"");
    assert pre + Escape(s) + "\"" == old(out[..at]) + Quote(s);
    out[end] := '\0';
  }

  lemma EscapeNothing()
    ensures forall s: string | s == [] :: Escape(s) == []
  {
  }

  method PrintStringPtr(s: string) returns (out: array<char>)
    requires NulFree(s)
    ensures fresh(out) && Holds(out, Quote(s))
  {
    EscapeNulFree(s);
    var flag := HasSpecial(s);
    if !flag {
      NothingToEscape(s);
      out := NewText(|s| + 3, "\"" + s + "\"");
    } else {
      var len := EscapedLength(s);
      out := new char[len + 3];
      var end := WriteEscaped(out, 0, s);
      assert out[..0] == "" && "" + Quote(s) == Quote(s);
    }
  }

  // ---------- arrays and objects ----------

  function ItemTexts(items: Items, depth: nat, fmt: bool): seq<string> {
    if items == NoItems then [] else [Print(items.value, depth, fmt)] + ItemTexts(items.next, depth, fmt)
  }

  function NameTexts(members: Members): seq<string> {
    if members == NoMembers then [] else [Quote(members.name)] + NameTexts(members.next)
  }

  function MemberTexts(members: Members, depth: nat, fmt: bool): seq<string> {
    if members == NoMembers then [] else [Print(members.value, depth, fmt)] + MemberTexts(members.next, depth, fmt)
  }

  // What the texts need, with so much more for each.
  function Total(texts: seq<string>, extra: nat): nat {
    if texts == [] then 0 else |texts[0]| + extra + Total(texts[1..], extra)
  }

  lemma {:induction false} TotalAppend(texts: seq<string>, t: string, extra: nat)
    ensures Total(texts + [t], extra) == Total(texts, extra) + |t| + extra
  {
    if texts != [] {
      assert (texts + [t])[1..] == texts[1..] + [t];
      TotalAppend(texts[1..], t, extra);
    }
  }

  ghost predicate HoldAll(entries: seq<array<char>>, texts: seq<string>)
    reads entries
  {
    |entries| == |texts| && forall k | 0 <= k < |entries| :: Holds(entries[k], texts[k])
  }

  method PrintValue(v: Value, depth: nat, fmt: bool) returns (out: array<char>)
    requires Storable(v)
    ensures fresh(out) && Holds(out, Print(v, depth, fmt))
    decreases v
  {
    match v
    case Null => out := NewText(5, "null");
    case False => out := NewText(6, "false");
    case True => out := NewText(5, "true");
    case Number(n) => out := PrintNumber(n);
    case Text(s) => out := PrintStringPtr(s);
    case Array(items) => out := PrintArray(items, depth, fmt);
    case Object(members) => out := PrintObject(members, depth, fmt);
  }

  method PrintArray(items: Items, depth: nat, fmt: bool) returns (out: array<char>)
    requires StorableItems(items)
    ensures fresh(out) && Holds(out, Print(Array(items), depth, fmt))
    decreases items, 2
  {
    PrintNulFree(Array(items), depth, fmt);
    if items == NoItems {
      out := NewText(3, "[]");
    } else {
      var entries, len := PrintEntries(items, depth + 1, fmt);
      out := ComposeArray(items, depth, fmt, entries, len);
    }
  }

  // What an entry takes besides its text.
  function ItemExtra(fmt: bool): nat {
    if fmt then 3 else 2
  }

  // Retrieves all the results and adds up the length.
  method PrintEntries(items: Items, depth: nat, fmt: bool) returns (entries: seq<array<char>>, len: nat)
    requires StorableItems(items)
    ensures forall k | 0 <= k < |entries| :: fresh(entries[k])
    ensures HoldAll(entries, ItemTexts(items, depth, fmt))
    ensures len == 5 + Total(ItemTexts(items, depth, fmt), ItemExtra(fmt))
    decreases items, 1
  {
    hide Print, Total, Holds;
    var extra := 2 + if fmt then 1 else 0;
    var child := items;
    ghost var texts: seq<string> := [];
    entries, len := [], 5;
    TotalNothing(extra);
    while child != NoItems
      invariant StorableItems(child) && (child == items || child < items)
      invariant forall k | 0 <= k < |entries| :: fresh(entries[k])
      invariant HoldAll(entries, texts) && len == 5 + Total(texts, extra)
      invariant texts + ItemTexts(child, depth, fmt) == ItemTexts(items, depth, fmt)
      decreases child
    {
      var ret, n := PrintEntry(child, depth, fmt);
      TotalAppend(texts, Print(child.value, depth, fmt), extra);
      Shift(texts, Print(child.value, depth, fmt), ItemTexts(child.next, depth, fmt));
      entries, texts := entries + [ret], texts + [Print(child.value, depth, fmt)];
      len := len + n + 2 + if fmt then 1 else 0;
      child := child.next;
    }
    assert texts + [] == texts;
  }

  method PrintEntry(child: Items, depth: nat, fmt: bool) returns (ret: array<char>, n: nat)
    requires child.Item? && StorableItems(child)
    ensures fresh(ret) && Holds(ret, Print(child.value, depth, fmt)) && n == |Print(child.value, depth, fmt)|
    decreases child, 0
  {
    ret := PrintValue(child.value, depth, fmt);
    n := StrLen(ret, Print(child.value, depth, fmt));
  }

  lemma TotalNothing(extra: nat)
    ensures Total([], extra) == 0
  {
  }

  lemma TotalRest(texts: seq<string>, i: nat, extra: nat)
    requires i < |texts|
    ensures Total(texts[i..], extra) == |texts[i]| + extra + Total(texts[i + 1..], extra)
  {
    assert texts[i..][1..] == texts[i + 1..];
  }

  // Writes one entry, with its comma and space.
  method AppendItem(out: array<char>, at: nat, fmt: bool, entry: array<char>, last: bool, ghost v: string,
      ghost items: Items)
    returns (end: nat)
    requires items.Item? && last == (items.next == NoItems) && entry != out && Holds(entry, v)
    requires at + |v| + ItemExtra(fmt) <= out.Length
    modifies out
    ensures at <= end <= at + |v| + ItemExtra(fmt)
    ensures out[..end] == old(out[..at]) + (v + ItemEnd(items, fmt))
  {
    hide Holds;
    end := Append(out, at, entry, v);
    ghost var before := out[..end];
    if !last {
      end := Put(out, end, ",");
      if fmt {
        end := Put(out, end, " ");
      }
    }
    assert out[..end] == before + ItemEnd(items, fmt);
    assert old(out[..at]) + v + ItemEnd(items, fmt) == old(out[..at]) + (v + ItemEnd(items, fmt));
  }

  // Where the writing of an array's entries stands.
  ghost predicate ItemsToWrite(
    texts: seq<string>, i: nat, rest: Items, depth: nat, fmt: bool, written: string, whole: string, limit: nat)
  {
    && i <= |texts| && texts[i..] == ItemTexts(rest, depth, fmt)
    && |written| + Total(texts[i..], ItemExtra(fmt)) <= limit && written + PrintItems(rest, depth, fmt) == whole
  }

  lemma ItemsFirst(items: Items, depth: nat, fmt: bool, pre: string)
    ensures ItemsToWrite(ItemTexts(items, depth, fmt), 0, items, depth, fmt, pre,
              pre + PrintItems(items, depth, fmt), |pre| + Total(ItemTexts(items, depth, fmt), ItemExtra(fmt)))
  {
    hide PrintItems;
    assert ItemTexts(items, depth, fmt)[0..] == ItemTexts(items, depth, fmt);
  }

  lemma ItemsTurn(
    texts: seq<string>, i: nat, rest: Items, depth: nat, fmt: bool, written: string, whole: string, limit: nat)
    requires ItemsToWrite(texts, i, rest, depth, fmt, written, whole, limit) && i < |texts|
    ensures rest.Item? && texts[i] == Print(rest.value, depth, fmt)
    ensures rest.next == NoItems <==> i == |texts| - 1
    ensures |written| + |texts[i]| + ItemExtra(fmt) <= limit
    ensures ItemsToWrite(texts, i + 1, rest.next, depth, fmt, written + (texts[i] + ItemEnd(rest, fmt)), whole, limit)
  {
    assert |ItemEnd(rest, fmt)| <= ItemExtra(fmt);
    hide Print, PrintItems, Total, ItemEnd;
    assert texts[i] == texts[i..][0] && texts[i + 1..] == texts[i..][1..];
    assert texts[i + 1..] == [] <==> i == |texts| - 1;
    assert ItemTexts(rest.next, depth, fmt) == [] <==> rest.next == NoItems;
    TotalRest(texts, i, ItemExtra(fmt));
    ItemsText(rest, depth, fmt, "");
    Gather3(written, texts[i], ItemEnd(rest, fmt), PrintItems(rest.next, depth, fmt));
    assert PrintItems(rest, depth, fmt) + "" == PrintItems(rest, depth, fmt);
    assert PrintItems(rest.next, depth, fmt) + "" == PrintItems(rest.next, depth, fmt);
  }

  lemma Gather3(p: string, a: string, b: string, c: string)
    ensures p + (a + (b + c)) == p + (a + b) + c
  {
  }

  lemma ItemsLast(texts: seq<string>, rest: Items, depth: nat, fmt: bool, written: string, whole: string, limit: nat)
    requires ItemsToWrite(texts, |texts|, rest, depth, fmt, written, whole, limit)
    ensures written == whole && |written| <= limit
  {
    assert rest == NoItems;
    assert written + "" == written;
  }

  // The entries of an array, in the room that was added up for them.
  method ComposeItems(out: array<char>, at: nat, depth: nat, fmt: bool, entries: seq<array<char>>, ghost items: Items,
                      ghost pre: string)
    returns (end: nat)
    requires |entries| == |ItemTexts(items, depth, fmt)|
    requires forall i | 0 <= i < |entries| :: entries[i] != out && Holds(entries[i], ItemTexts(items, depth, fmt)[i])
    requires at + Total(ItemTexts(items, depth, fmt), ItemExtra(fmt)) <= out.Length && out[..at] == pre
    modifies out
    ensures at <= end <= at + Total(ItemTexts(items, depth, fmt), ItemExtra(fmt))
    ensures out[..end] == pre + PrintItems(items, depth, fmt)
  {
    hide *;
    ghost var texts := ItemTexts(items, depth, fmt);
    ghost var rest := items;
    ghost var limit := at + Total(texts, ItemExtra(fmt));
    ghost var whole := pre + PrintItems(items, depth, fmt);
    ItemsFirst(items, depth, fmt, pre);
    end := at;
    for i := 0 to |entries|
      invariant at <= end <= out.Length
      invariant ItemsToWrite(texts, i, rest, depth, fmt, out[..end], whole, limit)
    {
      ItemsTurn(texts, i, rest, depth, fmt, out[..end], whole, limit);
      end := AppendItem(out, end, fmt, entries[i], i == |entries| - 1, texts[i], rest);
      rest := rest.next;
    }
    ItemsLast(texts, rest, depth, fmt, out[..end], whole, limit);
  }

  lemma ArrayEnds(items: Items, depth: nat, fmt: bool)
    requires items.Item?
    ensures "[" + PrintItems(items, depth + 1, fmt) + "]" == Print(Array(items), depth, fmt)
  {
    hide PrintItems;
  }

  // Writes the brackets and the entries between them.
  method ComposeArray(items: Items, depth: nat, fmt: bool, entries: seq<array<char>>, len: nat)
    returns (out: array<char>)
    requires items.Item? && HoldAll(entries, ItemTexts(items, depth + 1, fmt))
    requires len == 5 + Total(ItemTexts(items, depth + 1, fmt), ItemExtra(fmt))
    requires NulFree(Print(Array(items), depth, fmt))
    ensures fresh(out) && Holds(out, Print(Array(items), depth, fmt))
  {
    ArrayEnds(items, depth, fmt);
    hide Holds, ItemTexts, Print, PrintItems, Total, ItemExtra;
    ghost var whole := Print(Array(items), depth, fmt);
    out := new char[len];
    var ptr := Put(out, 0, "[");
    assert out[..0] == "" && out[..ptr] == "[";
    ptr := ComposeItems(out, ptr, depth + 1, fmt, entries, items, out[..ptr]);
    Finish(out, ptr, "]", whole);
  }

  // The closing text and the terminator.
  method Finish(out: array<char>, at: nat, close: string, ghost whole: string)
    requires at + |close| < out.Length && out[..at] + close == whole && NulFree(whole)
    modifies out
    ensures Holds(out, whole)
  {
    var end := Put(out, at, close);
    out[end] := '\0';
    assert out[..end] == whole;
  }

  method PrintObject(members: Members, depth: nat, fmt: bool) returns (out: array<char>)
    requires StorableMembers(members)
    ensures fresh(out) && Holds(out, Print(Object(members), depth, fmt))
    decreases members, 2
  {
    PrintNulFree(Object(members), depth, fmt);
    if members == NoMembers {
      out := NewText(if fmt then depth + 4 else 3, if fmt then "{\n" + Tabs(depth - 1) + "}" else "{}");
    } else {
      var names, entries, len := PrintPairs(members, depth + 1, fmt);
      out := ComposeObject(members, depth, fmt, names, entries, len);
    }
  }

  function PairTotal(members: Members, depth: nat, fmt: bool): nat {
    Total(NameTexts(members), PairExtra(depth, fmt)) + Total(MemberTexts(members, depth, fmt), 0)
  }

  // What a member takes besides its name and its value.
  function PairExtra(depth: nat, fmt: bool): nat {
    if fmt then 4 + depth else 2
  }

  method PrintPairs(members: Members, depth: nat, fmt: bool)
    returns (names: seq<array<char>>, entries: seq<array<char>>, len: nat)
    requires StorableMembers(members)
    ensures forall k | 0 <= k < |names| :: fresh(names[k])
    ensures forall k | 0 <= k < |entries| :: fresh(entries[k])
    ensures HoldAll(names, NameTexts(members)) && HoldAll(entries, MemberTexts(members, depth, fmt))
    ensures len == 7 + (if fmt then depth else 0) + PairTotal(members, depth, fmt)
    decreases members, 1
  {
    hide *;
    var child := members;
    ghost var ns: seq<string>, ts: seq<string> := [], [];
    names, entries, len := [], [], 7;
    if fmt {
      len := len + depth;
    }
    PairsFirst(members, depth, fmt, len);
    while child != NoMembers
      invariant child == members || child < members
      invariant forall k | 0 <= k < |names| :: fresh(names[k])
      invariant forall k | 0 <= k < |entries| :: fresh(entries[k])
      invariant HoldAll(names, ns) && HoldAll(entries, ts)
      invariant PairsToPrint(ns, ts, child, members, depth, fmt, len)
      decreases child
    {
      PairsTurn(ns, ts, child, members, depth, fmt, len);
      var str, ret, n, l := PrintPair(child, depth, fmt);
      OneMoreHeld(names, ns, str, Quote(child.name));
      OneMoreHeld(entries, ts, ret, Print(child.value, depth, fmt));
      names, entries := names + [str], entries + [ret];
      ns, ts := ns + [Quote(child.name)], ts + [Print(child.value, depth, fmt)];
      len := len + l + n + 2 + if fmt then 2 + depth else 0;
      child := child.next;
    }
    PairsLast(ns, ts, members, depth, fmt, len);
  }

  lemma OneMoreHeld(entries: seq<array<char>>, texts: seq<string>, a: array<char>, t: string)
    requires HoldAll(entries, texts) && Holds(a, t)
    ensures HoldAll(entries + [a], texts + [t])
  {
  }

  // Where the printing of an object's members stands: those before child are printed and added up.
  ghost predicate PairsToPrint(
    ns: seq<string>, ts: seq<string>, child: Members, members: Members, depth: nat, fmt: bool, len: nat)
  {
    && StorableMembers(child)
    && len == 7 + (if fmt then depth else 0) + Total(ns, PairExtra(depth, fmt)) + Total(ts, 0)
    && ns + NameTexts(child) == NameTexts(members)
    && ts + MemberTexts(child, depth, fmt) == MemberTexts(members, depth, fmt)
  }

  lemma PairsFirst(members: Members, depth: nat, fmt: bool, len: nat)
    requires StorableMembers(members) && len == 7 + if fmt then depth else 0
    ensures PairsToPrint([], [], members, members, depth, fmt, len) && HoldAll([], [])
  {
    assert [] + NameTexts(members) == NameTexts(members);
    assert [] + MemberTexts(members, depth, fmt) == MemberTexts(members, depth, fmt);
  }

  lemma PairsTurn(
    ns: seq<string>, ts: seq<string>, child: Members, members: Members, depth: nat, fmt: bool, len: nat)
    requires child.Member? && PairsToPrint(ns, ts, child, members, depth, fmt, len)
    ensures StorableMembers(child)
    ensures var q, t := Quote(child.name), Print(child.value, depth, fmt);
            PairsToPrint(ns + [q], ts + [t], child.next, members, depth, fmt,
                         len + |t| + |q| + 2 + if fmt then 2 + depth else 0)
  {
    hide Print, Quote, Total;
    TotalAppend(ns, Quote(child.name), PairExtra(depth, fmt));
    TotalAppend(ts, Print(child.value, depth, fmt), 0);
    Shift(ns, Quote(child.name), NameTexts(child.next));
    Shift(ts, Print(child.value, depth, fmt), MemberTexts(child.next, depth, fmt));
  }

  lemma PairsLast(ns: seq<string>, ts: seq<string>, members: Members, depth: nat, fmt: bool, len: nat)
    requires PairsToPrint(ns, ts, NoMembers, members, depth, fmt, len)
    ensures ns == NameTexts(members) && ts == MemberTexts(members, depth, fmt)
    ensures len == 7 + (if fmt then depth else 0) + PairTotal(members, depth, fmt)
  {
    assert ns + [] == ns && ts + [] == ts;
  }

  lemma Shift(a: seq<string>, t: string, b: seq<string>)
    ensures a + ([t] + b) == a + [t] + b
  {
  }

  method PrintPair(child: Members, depth: nat, fmt: bool)
    returns (str: array<char>, ret: array<char>, n: nat, l: nat)
    requires child.Member? && StorableMembers(child)
    ensures fresh(str) && fresh(ret) && Holds(str, Quote(child.name)) && Holds(ret, Print(child.value, depth, fmt))
    ensures n == |Quote(child.name)| && l == |Print(child.value, depth, fmt)|
    decreases child, 0
  {
    str := PrintStringPtr(child.name);
    ret := PrintValue(child.value, depth, fmt);
    n := StrLen(str, Quote(child.name));
    l := StrLen(ret, Print(child.value, depth, fmt));
  }

  ghost predicate PairHolds(out: array<char>, name: array<char>, entry: array<char>, n: string, t: string)
    reads name, entry
  {
    name != out && entry != out && Holds(name, n) && Holds(entry, t)
  }

  function MemberText(rest: Members, depth: nat, fmt: bool): string
    requires rest.Member?
  {
    MemberStart(rest.name, depth, fmt) + (Print(rest.value, depth, fmt) + MemberEnd(rest, fmt))
  }

  // Writes one member: tabs, name, colon, value, comma and newline.
  method AppendMember(out: array<char>, at: nat, depth: nat, fmt: bool, name: array<char>, entry: array<char>,
      last: bool, ghost members: Members)
    returns (end: nat)
    requires members.Member? && last == (members.next == NoMembers)
    requires PairHolds(out, name, entry, Quote(members.name), Print(members.value, depth, fmt))
    requires at + |Quote(members.name)| + |Print(members.value, depth, fmt)| + PairExtra(depth, fmt) <= out.Length
    modifies out
    ensures at <= end <= at + |Quote(members.name)| + |Print(members.value, depth, fmt)| + PairExtra(depth, fmt)
    ensures out[..end] == old(out[..at]) + MemberText(members, depth, fmt)
  {
    assert Holds(name, Quote(members.name)) && Holds(entry, Print(members.value, depth, fmt));
    hide *;
    PairFits(members, depth, fmt);
    end := AppendName(out, at, depth, fmt, name, members.name);
    end := Append(out, end, entry, Print(members.value, depth, fmt));
    end := AppendEnd(out, end, fmt, last, members);
    MemberWritten(old(out[..at]), members, depth, fmt);
  }

  lemma MemberWritten(p: string, members: Members, depth: nat, fmt: bool)
    requires members.Member?
    ensures p + MemberStart(members.name, depth, fmt) + Print(members.value, depth, fmt) + MemberEnd(members, fmt)
         == p + MemberText(members, depth, fmt)
  {
    hide MemberStart, Print, MemberEnd;
  }

  lemma PairFits(members: Members, depth: nat, fmt: bool)
    requires members.Member?
    ensures |MemberStart(members.name, depth, fmt)| + |MemberEnd(members, fmt)|
         <= |Quote(members.name)| + PairExtra(depth, fmt)
  {
    hide Quote;
  }

  method AppendName(out: array<char>, at: nat, depth: nat, fmt: bool, name: array<char>, ghost text: string)
    returns (end: nat)
    requires name != out && Holds(name, Quote(text))
    requires at + |MemberStart(text, depth, fmt)| <= out.Length
    modifies out
    ensures end == at + |MemberStart(text, depth, fmt)| && out[..end] == old(out[..at]) + MemberStart(text, depth, fmt)
  {
    ghost var tabs, tab := if fmt then Tabs(depth) else "", if fmt then "\t" else "";
    StartText(text, depth, fmt);
    hide *;
    end := at;
    if fmt {
      end := Put(out, end, Tabs(depth));
    }
    assert out[..end] == old(out[..at]) + tabs;
    end := Append(out, end, name, Quote(text));
    end := Put(out, end, ":");
    ghost var before := out[..end];
    if fmt {
      end := Put(out, end, "\t");
    }
    assert out[..end] == before + tab;
    Regroup4(old(out[..at]), tabs, Quote(text), ":", tab);
  }

  lemma StartText(text: string, depth: nat, fmt: bool)
    ensures MemberStart(text, depth, fmt)
              == (if fmt then Tabs(depth) else "") + (Quote(text) + (":" + (if fmt then "\t" else "")))
  {
    hide Quote;
  }

  lemma Regroup4(p: string, a: string, b: string, c: string, d: string)
    ensures p + a + b + c + d == p + (a + (b + (c + d)))
  {
  }

  method AppendEnd(out: array<char>, at: nat, fmt: bool, last: bool, ghost members: Members) returns (end: nat)
    requires members.Member? && last == (members.next == NoMembers)
    requires at + |MemberEnd(members, fmt)| <= out.Length
    modifies out
    ensures end == at + |MemberEnd(members, fmt)| && out[..end] == old(out[..at]) + MemberEnd(members, fmt)
  {
    end := at;
    if !last {
      end := Put(out, end, ",");
    }
    if fmt {
      end := Put(out, end, "\n");
    }
    assert out[..end] == old(out[..at]) + MemberEnd(members, fmt);
  }

  lemma {:induction false} TextsMatch(members: Members, depth: nat, fmt: bool)
    ensures |NameTexts(members)| == |MemberTexts(members, depth, fmt)|
  {
    if members.Member? {
      TextsMatch(members.next, depth, fmt);
    }
  }

  lemma Gather(p: string, a: string, b: string, c: string, d: string)
    ensures p + (a + (b + (c + d))) == p + (a + (b + c)) + d
  {
  }

  // Where the writing of an object's members stands: the first i are written and the rest fits.
  ghost predicate MembersToWrite(
    ns: seq<string>, ts: seq<string>, i: nat, rest: Members, depth: nat, fmt: bool, written: string, whole: string,
    limit: nat)
  {
    && i <= |ns| == |ts| && ns[i..] == NameTexts(rest) && ts[i..] == MemberTexts(rest, depth, fmt)
    && |written| + PairTotal(rest, depth, fmt) <= limit && written + PrintMembers(rest, depth, fmt) == whole
  }

  lemma MembersFirst(members: Members, depth: nat, fmt: bool, pre: string)
    ensures MembersToWrite(NameTexts(members), MemberTexts(members, depth, fmt), 0, members, depth, fmt, pre,
              pre + PrintMembers(members, depth, fmt), |pre| + PairTotal(members, depth, fmt))
  {
    hide PrintMembers;
    TextsMatch(members, depth, fmt);
  }

  lemma MembersTurn(
    ns: seq<string>, ts: seq<string>, i: nat, rest: Members, depth: nat, fmt: bool, written: string, whole: string,
    limit: nat)
    requires MembersToWrite(ns, ts, i, rest, depth, fmt, written, whole, limit) && i < |ns|
    ensures rest.Member? && ns[i] == Quote(rest.name) && ts[i] == Print(rest.value, depth, fmt)
    ensures rest.next == NoMembers <==> i == |ts| - 1
    ensures |written| + |ns[i]| + |ts[i]| + PairExtra(depth, fmt) <= limit
    ensures MembersToWrite(ns, ts, i + 1, rest.next, depth, fmt, written + MemberText(rest, depth, fmt), whole, limit)
  {
    hide Print, PrintMembers, Total, MemberStart, MemberEnd, Quote, PairExtra;
    assert ns[i] == ns[i..][0] && ns[i + 1..] == ns[i..][1..];
    assert ts[i] == ts[i..][0] && ts[i + 1..] == ts[i..][1..];
    assert ts[i + 1..] == [] <==> i == |ts| - 1;
    assert MemberTexts(rest.next, depth, fmt) == [] <==> rest.next == NoMembers;
    TotalRest(ns, i, PairExtra(depth, fmt));
    TotalRest(ts, i, 0);
    PairFits(rest, depth, fmt);
    MembersText(rest, depth, fmt, "");
    Gather(written, MemberStart(rest.name, depth, fmt), ts[i], MemberEnd(rest, fmt),
        PrintMembers(rest.next, depth, fmt));
    assert PrintMembers(rest, depth, fmt) + "" == PrintMembers(rest, depth, fmt);
    assert PrintMembers(rest.next, depth, fmt) + "" == PrintMembers(rest.next, depth, fmt);
  }

  lemma MembersLast(
    ns: seq<string>, ts: seq<string>, rest: Members, depth: nat, fmt: bool, written: string, whole: string, limit: nat)
    requires MembersToWrite(ns, ts, |ns|, rest, depth, fmt, written, whole, limit)
    ensures written == whole && |written| <= limit
  {
    assert rest == NoMembers;
    assert written + "" == written;
  }

  // The members of an object, in the room that was added up for them.
  method ComposeMembers(out: array<char>, at: nat, depth: nat, fmt: bool, names: seq<array<char>>,
      entries: seq<array<char>>, ghost members: Members, ghost pre: string)
    returns (end: nat)
    requires |names| == |entries| == |NameTexts(members)| == |MemberTexts(members, depth, fmt)|
    requires forall i | 0 <= i < |entries| :: names[i] != out && entries[i] != out
    requires forall i | 0 <= i < |entries| ::
               PairHolds(out, names[i], entries[i], NameTexts(members)[i], MemberTexts(members, depth, fmt)[i])
    requires at + PairTotal(members, depth, fmt) <= out.Length && out[..at] == pre
    modifies out
    ensures at <= end <= at + PairTotal(members, depth, fmt)
    ensures out[..end] == pre + PrintMembers(members, depth, fmt)
  {
    ghost var ns, ts := NameTexts(members), MemberTexts(members, depth, fmt);
    hide *;
    MembersFirst(members, depth, fmt, pre);
    ghost var rest := members;
    ghost var limit := at + PairTotal(members, depth, fmt);
    ghost var whole := pre + PrintMembers(members, depth, fmt);
    end := at;
    for i := 0 to |entries|
      invariant at <= end <= out.Length
      invariant MembersToWrite(ns, ts, i, rest, depth, fmt, out[..end], whole, limit)
    {
      MembersTurn(ns, ts, i, rest, depth, fmt, out[..end], whole, limit);
      assert PairHolds(out, names[i], entries[i], ns[i], ts[i]);
      end := AppendMember(out, end, depth, fmt, names[i], entries[i], i == |entries| - 1, rest);
      rest := rest.next;
    }
    MembersLast(ns, ts, rest, depth, fmt, out[..end], whole, limit);
  }

  lemma ObjectEnds(members: Members, depth: nat, fmt: bool)
    requires members.Member?
    ensures (if fmt then "{\n" else "{") + PrintMembers(members, depth + 1, fmt) + Close(depth, fmt)
         == Print(Object(members), depth, fmt)
    ensures |Close(depth, fmt)| == 1 + if fmt then depth else 0
  {
    hide PrintMembers;
  }

  // Writes the braces and the members between them.
  method ComposeObject(members: Members, depth: nat, fmt: bool, names: seq<array<char>>, entries: seq<array<char>>,
      len: nat)
    returns (out: array<char>)
    requires members.Member?
    requires HoldAll(names, NameTexts(members)) && HoldAll(entries, MemberTexts(members, depth + 1, fmt))
    requires len == 7 + (if fmt then depth + 1 else 0) + PairTotal(members, depth + 1, fmt)
    requires NulFree(Print(Object(members), depth, fmt))
    ensures fresh(out) && Holds(out, Print(Object(members), depth, fmt))
  {
    ObjectEnds(members, depth, fmt);
    TextsMatch(members, depth + 1, fmt);
    hide Holds, NameTexts, MemberTexts, Print, PrintMembers, Close, PairTotal;
    ghost var whole := Print(Object(members), depth, fmt);
    out := new char[len];
    var ptr := Put(out, 0, if fmt then "{\n" else "{");
    assert out[..0] == "" && out[..ptr] == (if fmt then "{\n" else "{");
    ptr := ComposeMembers(out, ptr, depth + 1, fmt, names, entries, members, out[..ptr]);
    Finish(out, ptr, Close(depth, fmt), whole);
  }
}
