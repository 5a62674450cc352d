// Printed text as a row of tokens, and where cJSON_Print puts blanks and line ends between them.
module JsonTokens {
  import opened CStrings
  import opened JsonText

  function Tokens(v: Value): seq<string> {
    match v
    case Null => ["null"]
    case False => ["false"]
    case True => ["true"]
    case Number(n) => [Signed(n)]
    case Text(s) => [Quote(s)]
    case Array(items) => ["["] + ItemTokens(items) + ["]"]
    case Object(members) => ["{"] + MemberTokens(members) + ["}"]
  }

  function ItemTokens(items: Items): seq<string> {
    if items == NoItems then []
    else Tokens(items.value) + (if items.next == NoItems then [] else [","]) + ItemTokens(items.next)
  }

  function MemberTokens(members: Members): seq<string> {
    if members == NoMembers then []
    else
      [Quote(members.name), ":"] + Tokens(members.value) + (if members.next == NoMembers then [] else [","])
      + MemberTokens(members.next)
  }

  function Join(ts: seq<string>): string {
    if ts == [] then "" else ts[0] + Join(ts[1..])
  }

  lemma {:induction false} JoinAppends(ts: seq<string>, us: seq<string>)
    ensures Join(ts + us) == Join(ts) + Join(us)
  {
    if ts == [] {
      assert ts + us == us;
    } else {
      assert (ts + us)[0] == ts[0] && (ts + us)[1..] == ts[1..] + us;
      JoinAppends(ts[1..], us);
    }
  }

  lemma JoinOne(t: string)
    ensures Join([t]) == t
  {
    assert [t][1..] == [];
  }

  // ---------- without blanks ----------

  // The unformatted print is the tokens, one behind the other.
  lemma {:induction false} PrintIsTokens(v: Value, depth: nat)
    ensures Print(v, depth, false) == Join(Tokens(v))
    decreases v, 1
  {
    match v
    case Array(items) =>
      ItemsAreTokens(items, depth + 1);
      JoinAppends(["["] + ItemTokens(items), ["]"]);
      JoinAppends(["["], ItemTokens(items));
      JoinOne("[");
      JoinOne("]");
    case Object(members) =>
      MembersAreTokens(members, depth + 1);
      JoinAppends(["{"] + MemberTokens(members), ["}"]);
      JoinAppends(["{"], MemberTokens(members));
      JoinOne("{");
      JoinOne("}");
    case _ => JoinOne(Print(v, depth, false));
  }

  lemma {:induction false} ItemsAreTokens(items: Items, depth: nat)
    ensures PrintItems(items, depth, false) == Join(ItemTokens(items))
    decreases items, 0
  {
    if items != NoItems {
      var comma := if items.next == NoItems then [] else [","];
      PrintIsTokens(items.value, depth);
      ItemsAreTokens(items.next, depth);
      hide Print, Tokens, PrintItems, ItemTokens;
      JoinAppends(Tokens(items.value) + comma, ItemTokens(items.next));
      JoinAppends(Tokens(items.value), comma);
      JoinOne(",");
      ItemPieces(items, depth, comma);
    }
  }

  lemma ItemPieces(items: Items, depth: nat, comma: seq<string>)
    requires items.Item? && comma == if items.next == NoItems then [] else [","]
    ensures PrintItems(items, depth, false)
         == Print(items.value, depth, false) + ItemEnd(items, false) + PrintItems(items.next, depth, false)
    ensures ItemTokens(items) == Tokens(items.value) + comma + ItemTokens(items.next)
  {
    hide Print, Tokens;
  }

  lemma {:induction false} MembersAreTokens(members: Members, depth: nat)
    ensures PrintMembers(members, depth, false) == Join(MemberTokens(members))
    decreases members, 0
  {
    if members != NoMembers {
      var comma := if members.next == NoMembers then [] else [","];
      var front := [Quote(members.name), ":"];
      PrintIsTokens(members.value, depth);
      MembersAreTokens(members.next, depth);
      hide Print, Tokens, PrintMembers, MemberTokens, Quote;
      JoinAppends(front + Tokens(members.value) + comma, MemberTokens(members.next));
      JoinAppends(front + Tokens(members.value), comma);
      JoinAppends(front, Tokens(members.value));
      assert front == [Quote(members.name)] + [":"];
      JoinAppends([Quote(members.name)], [":"]);
      JoinOne(Quote(members.name));
      JoinOne(":");
      JoinOne(",");
      MemberPieces(members, depth, comma);
    }
  }

  lemma MemberPieces(members: Members, depth: nat, comma: seq<string>)
    requires members.Member? && comma == if members.next == NoMembers then [] else [","]
    ensures PrintMembers(members, depth, false)
         == MemberStart(members.name, depth, false) + Print(members.value, depth, false) + MemberEnd(members, false)
            + PrintMembers(members.next, depth, false)
    ensures MemberTokens(members)
         == [Quote(members.name), ":"] + Tokens(members.value) + comma + MemberTokens(members.next)
  {
    hide Print, Tokens;
  }

  // ---------- with blanks ----------

  // The brackets open behind a token, the innermost last.
  function Opened(open: string, t: string): string {
    if t == "{" || t == "[" then open + t
    else if (t == "}" || t == "]") && open != "" then open[..|open| - 1]
    else open
  }

  // What cJSON_Print writes between two tokens, the first of which leaves these brackets open.  The closing brace of an
  // empty object stands one tab too far to the left.
  function Gap(a: string, b: string, open: string): string {
    if a == "{" then "\n" + Tabs(if b == "}" then |open| - 2 else |open|)
    else if a == "," then (if open != "" && open[|open| - 1] == '{' then "\n" + Tabs(|open|) else " ")
    else if a == ":" then "\t"
    else if b == "}" then "\n" + Tabs(|open| - 1)
    else ""
  }

  function Laid(ts: seq<string>, open: string): string {
    if ts == [] then ""
    else
      var after := Opened(open, ts[0]);
      ts[0] + (if |ts| > 1 then Gap(ts[0], ts[1], after) else "") + Laid(ts[1..], after)
  }

  // A token that is followed by a gap only in front of a closing brace.
  predicate Quiet(t: string) {
    t != "{" && t != "," && t != ":"
  }

  // What follows a quiet token.
  function Behind(more: seq<string>, open: string): string {
    (if more != [] && more[0] == "}" then "\n" + Tabs(|open| - 1) else "") + Laid(more, open)
  }

  lemma LaidFirst(t: string, more: seq<string>, open: string)
    ensures var after := Opened(open, t);
            Laid([t] + more, open) == t + (if more != [] then Gap(t, more[0], after) else "") + Laid(more, after)
  {
    assert ([t] + more)[1..] == more;
  }

  lemma LaidQuiet(t: string, more: seq<string>, open: string)
    requires Quiet(t)
    ensures Laid([t] + more, open) == t + Behind(more, Opened(open, t))
  {
    LaidFirst(t, more, open);
    hide Laid, Opened;
    var after := Opened(open, t);
    assert t + (if more != [] then Gap(t, more[0], after) else "") + Laid(more, after)
        == t + ((if more != [] then Gap(t, more[0], after) else "") + Laid(more, after));
  }

  lemma Leaf(v: Value, open: string)
    requires !v.Array? && !v.Object?
    ensures Tokens(v) == [Print(v, |open|, true)] && Quiet(Print(v, |open|, true))
    ensures Opened(open, Print(v, |open|, true)) == open && Print(v, |open|, true) != "}"
  {
    if v.Number? {
      DecimalStarts(Magnitude(v.n));
      DecimalChars(Magnitude(v.n));
      assert Signed(v.n)[0] == '-' || IsDigit(Signed(v.n)[0]);
    }
    if v.Text? {
      assert Quote(v.s)[0] == '\"';
    }
  }

  lemma TokensBegin(v: Value)
    ensures Tokens(v) != [] && Tokens(v)[0] != "}"
  {
    if !v.Array? && !v.Object? {
      Leaf(v, "");
    }
    hide Print;
  }

  lemma {:induction false} LaidValue(v: Value, more: seq<string>, open: string)
    ensures Laid(Tokens(v) + more, open) == Print(v, |open|, true) + Behind(more, open)
    decreases v
  {
    hide *;
    match v
    case Array(items) => LaidArray(items, more, open);
    case Object(members) => LaidObject(members, more, open);
    case _ =>
      Leaf(v, open);
      LaidQuiet(Print(v, |open|, true), more, open);
  }

  lemma OpenedBy(open: string)
    ensures Opened(open, "[") == open + "[" && Opened(open, "{") == open + "{"
    ensures Opened(open + "[", "]") == open && Opened(open + "{", "}") == open
    ensures Opened(open, ",") == open && Opened(open, ":") == open
    ensures Quiet("]") && Quiet("}") && Quiet("[")
  {
  }

  lemma BehindOther(more: seq<string>, open: string)
    requires more != [] && more[0] != "}"
    ensures Behind(more, open) == Laid(more, open)
  {
    hide Laid;
    assert "" + Laid(more, open) == Laid(more, open);
  }

  lemma Grouped(a: seq<string>, b: seq<string>, c: seq<string>, more: seq<string>)
    ensures a + b + c + more == a + (b + (c + more))
  {
  }

  lemma ItemsBegin(items: Items)
    requires items.Item?
    ensures ItemTokens(items) != [] && ItemTokens(items)[0] == Tokens(items.value)[0] != "}"
  {
    TokensBegin(items.value);
    hide Tokens;
  }

  lemma ArrayTokens(items: Items)
    ensures Tokens(Array(items)) == ["["] + ItemTokens(items) + ["]"]
  {
    hide ItemTokens;
  }

  lemma ArrayPrint(items: Items, depth: nat)
    ensures Print(Array(items), depth, true) == "[" + PrintItems(items, depth + 1, true) + "]"
  {
    if items == NoItems {
      NoItemPieces(depth + 1);
    }
    hide PrintItems;
  }

  lemma ItemsAndClose(items: Items, more: seq<string>)
    ensures var ts := ItemTokens(items) + (["]"] + more); ts != [] && ts[0] != "}"
  {
    hide ItemTokens, Tokens;
    if items.Item? {
      ItemsBegin(items);
    } else {
      NoItemPieces(0);
    }
  }

  lemma {:induction false} LaidArray(items: Items, more: seq<string>, open: string)
    ensures Laid(Tokens(Array(items)) + more, open) == Print(Array(items), |open|, true) + Behind(more, open)
    decreases items, 1
  {
    hide *;
    var close := ["]"] + more;
    OpenedBy(open);
    ArrayTokens(items);
    ArrayPrint(items, |open|);
    Grouped(["["], ItemTokens(items), ["]"], more);
    ItemsAndClose(items, more);
    LaidQuiet("[", ItemTokens(items) + close, open);
    BehindOther(ItemTokens(items) + close, open + "[");
    LaidItems(items, close, open + "[");
    LaidQuiet("]", more, open + "[");
    var p, b := PrintItems(items, |open| + 1, true), Behind(more, open);
    assert "[" + (p + ("]" + b)) == "[" + p + "]" + b;
  }

  lemma ItemsPieces(items: Items, depth: nat, close: seq<string>)
    requires items.Item? && close != []
    ensures items.next == NoItems ==>
              ItemTokens(items) + close == Tokens(items.value) + close
              && PrintItems(items, depth, true) == Print(items.value, depth, true)
    ensures items.next.Item? ==>
              ItemTokens(items) + close == Tokens(items.value) + ([","] + (ItemTokens(items.next) + close))
              && PrintItems(items, depth, true)
                 == Print(items.value, depth, true) + ", " + PrintItems(items.next, depth, true)
  {
    assert items.next == NoItems ==> PrintItems(items.next, depth, true) == "" && ItemTokens(items.next) == [];
    hide Print, Tokens;
  }

  lemma CommaInArray(more: seq<string>, open: string)
    requires more != [] && open != "" && open[|open| - 1] == '['
    ensures Laid([","] + more, open) == ", " + Laid(more, open)
  {
    LaidFirst(",", more, open);
    hide Laid;
  }

  lemma {:induction false} LaidItems(items: Items, close: seq<string>, open: string)
    requires open != "" && open[|open| - 1] == '[' && close != [] && close[0] != "}"
    ensures Laid(ItemTokens(items) + close, open) == PrintItems(items, |open|, true) + Laid(close, open)
    decreases items, 0
  {
    hide *;
    if items == NoItems {
      NoItemPieces(|open|);
      assert [] + close == close && "" + Laid(close, open) == Laid(close, open);
    } else {
      var p := Print(items.value, |open|, true);
      ItemsPieces(items, |open|, close);
      if items.next == NoItems {
        LaidValue(items.value, close, open);
        BehindOther(close, open);
      } else {
        var later := ItemTokens(items.next) + close;
        LaidValue(items.value, [","] + later, open);
        BehindOther([","] + later, open);
        CommaInArray(later, open);
        LaidItems(items.next, close, open);
        var q, l := PrintItems(items.next, |open|, true), Laid(close, open);
        assert p + (", " + (q + l)) == p + ", " + q + l;
      }
    }
  }

  lemma NoItemPieces(depth: nat)
    ensures ItemTokens(NoItems) == [] && PrintItems(NoItems, depth, true) == ""
    ensures MemberTokens(NoMembers) == [] && PrintMembers(NoMembers, depth, true) == ""
  {
  }

  lemma ObjectTokens(members: Members)
    ensures Tokens(Object(members)) == ["{"] + MemberTokens(members) + ["}"]
  {
    hide MemberTokens;
  }

  lemma MembersBegin(members: Members)
    requires members.Member?
    ensures MemberTokens(members) != [] && MemberTokens(members)[0] == Quote(members.name) != "}"
  {
    QuoteStarts(members.name);
    hide Quote, Tokens;
  }

  lemma ObjectPrint(members: Members, depth: nat)
    requires members.Member?
    ensures Print(Object(members), depth, true)
         == "{\n" + (PrintMembers(members, depth + 1, true) + Tabs(depth) + "}")
  {
    hide PrintMembers;
  }

  lemma EmptyObjectPrint(depth: nat)
    ensures Print(Object(NoMembers), depth, true) == "{" + ("\n" + Tabs(depth - 1)) + "}"
  {
  }

  lemma {:induction false} LaidObject(members: Members, more: seq<string>, open: string)
    ensures Laid(Tokens(Object(members)) + more, open) == Print(Object(members), |open|, true) + Behind(more, open)
    decreases members, 1
  {
    hide *;
    var close, inner, b := ["}"] + more, open + "{", Behind(more, open);
    OpenedBy(open);
    ObjectTokens(members);
    Grouped(["{"], MemberTokens(members), ["}"], more);
    LaidQuiet("}", more, inner);
    if members == NoMembers {
      NoItemPieces(|open|);
      EmptyObjectPrint(|open|);
      assert [] + close == close;
      LaidFirst("{", close, open);
      BraceGap("}", inner);
      assert "{" + ("\n" + Tabs(|open| - 1)) + ("}" + b) == "{" + ("\n" + Tabs(|open| - 1)) + "}" + b;
    } else {
      var ts := MemberTokens(members) + close;
      MembersBegin(members);
      ObjectPrint(members, |open|);
      LaidFirst("{", ts, open);
      BraceGap(ts[0], inner);
      LaidMembers(members, close, inner);
      FirstMember(PrintMembers(members, |inner|, true), Tabs(|inner|), Laid(ts, inner), Tabs(|open|), b);
    }
  }

  lemma FirstMember(p: string, tabs: string, l: string, tabs0: string, b: string)
    requires tabs + l == p + tabs0 + ("}" + b)
    ensures "{" + ("\n" + tabs) + l == "{\n" + (p + tabs0 + "}") + b
  {
    assert "{" + ("\n" + tabs) + l == "{\n" + (tabs + l);
    assert "{\n" + (p + tabs0 + ("}" + b)) == "{\n" + (p + tabs0 + "}") + b;
  }

  lemma BraceGap(b: string, open: string)
    ensures Gap("{", b, open) == "\n" + Tabs(if b == "}" then |open| - 2 else |open|)
  {
  }

  function Comma(last: bool): seq<string> {
    if last then [] else [","]
  }

  lemma MemberGroups(q: string, t: seq<string>, c: seq<string>, n: seq<string>, close: seq<string>)
    ensures [q, ":"] + t + c + n + close == [q] + ([":"] + (t + (c + (n + close))))
  {
    assert [q, ":"] == [q] + [":"];
    Grouped([q], [":"], t, c + (n + close));
    Grouped([q, ":"] + t, c, n, close);
    assert [q, ":"] + t + (c + (n + close)) == [q] + [":"] + t + (c + (n + close));
  }

  lemma MemberTokensAre(members: Members, close: seq<string>)
    requires members.Member?
    ensures MemberTokens(members) + close
         == [Quote(members.name)] + ([":"] + (Tokens(members.value)
            + (Comma(members.next == NoMembers) + (MemberTokens(members.next) + close))))
  {
    hide *;
    MemberPiecesAre(members);
    MemberGroups(Quote(members.name), Tokens(members.value), Comma(members.next == NoMembers),
                 MemberTokens(members.next), close);
  }

  lemma MemberPiecesAre(members: Members)
    requires members.Member?
    ensures MemberTokens(members)
         == [Quote(members.name), ":"] + Tokens(members.value) + Comma(members.next == NoMembers)
            + MemberTokens(members.next)
  {
    hide Quote, Tokens;
  }

  lemma MemberText(tabs: string, q: string, v: string, comma: string, n: string)
    ensures (tabs + q + ":\t") + v + (comma + "\n") + n == tabs + (q + (":\t" + v)) + comma + "\n" + n
  {
    assert (tabs + q + ":\t") + v == tabs + (q + (":\t" + v));
  }

  lemma MemberStartIs(members: Members, depth: nat)
    requires members.Member?
    ensures PrintMembers(members, depth, true)
         == (Tabs(depth) + Quote(members.name) + ":\t") + Print(members.value, depth, true)
            + ((if members.next == NoMembers then "" else ",") + "\n") + PrintMembers(members.next, depth, true)
  {
    hide Quote, Print, Tabs;
  }

  lemma MemberPrintIs(members: Members, depth: nat)
    requires members.Member?
    ensures PrintMembers(members, depth, true)
         == Tabs(depth) + (Quote(members.name) + (":\t" + Print(members.value, depth, true)))
            + (if members.next == NoMembers then "" else ",") + "\n" + PrintMembers(members.next, depth, true)
  {
    hide *;
    MemberStartIs(members, depth);
    MemberText(Tabs(depth), Quote(members.name), Print(members.value, depth, true),
               if members.next == NoMembers then "" else ",", PrintMembers(members.next, depth, true));
  }

  lemma QuoteToken(q: string, open: string)
    requires q != "" && q[0] == '\"'
    ensures Quiet(q) && Opened(open, q) == open && Opened(open, ":") == open
  {
  }

  lemma ColonGap(b: string, open: string)
    ensures Gap(":", b, open) == "\t"
  {
  }

  lemma NameAndColon(q: string, more: seq<string>, open: string)
    requires q != "" && q[0] == '\"' && more != []
    ensures Laid([q] + ([":"] + more), open) == q + (":\t" + Laid(more, open))
  {
    hide *;
    QuoteToken(q, open);
    ColonGap(more[0], open);
    LaidQuiet(q, [":"] + more, open);
    LaidFirst(":", more, open);
    BehindOther([":"] + more, open);
    assert ":" + "\t" + Laid(more, open) == ":\t" + Laid(more, open);
  }

  lemma CommaInObject(more: seq<string>, open: string)
    requires more != [] && open != "" && open[|open| - 1] == '{'
    ensures Laid([","] + more, open) == "," + ("\n" + Tabs(|open|)) + Laid(more, open)
  {
    LaidFirst(",", more, open);
    hide Laid;
  }

  lemma BehindBrace(more: seq<string>, open: string)
    requires more != [] && more[0] == "}"
    ensures Behind(more, open) == "\n" + Tabs(|open| - 1) + Laid(more, open)
  {
    hide Laid;
  }

  lemma QuoteStarts(s: string)
    ensures Quote(s) != "" && Quote(s)[0] == '\"'
  {
  }

  // The tabs in front of a name have been written with what came before it.
  lemma {:induction false} LaidMembers(members: Members, close: seq<string>, open: string)
    requires members.Member? && open != "" && open[|open| - 1] == '{' && close != [] && close[0] == "}"
    ensures Tabs(|open|) + Laid(MemberTokens(members) + close, open)
         == PrintMembers(members, |open|, true) + Tabs(|open| - 1) + Laid(close, open)
    decreases members, 0
  {
    hide *;
    var q, value, tabs := Quote(members.name), Print(members.value, |open|, true), Tabs(|open|);
    var l := Laid(close, open);
    QuoteStarts(members.name);
    TokensBegin(members.value);
    MemberTokensAre(members, close);
    MemberPrintIs(members, |open|);
    Commas();
    if members.next == NoMembers {
      NoItemPieces(|open|);
      assert [] + ([] + close) == close;
      LaidValue(members.value, close, open);
      NameAndColon(q, Tokens(members.value) + close, open);
      BehindBrace(close, open);
      LastMemberText(tabs, q, value, Tabs(|open| - 1), l);
    } else {
      var later := MemberTokens(members.next) + close;
      var comma := [","] + later;
      LaidValue(members.value, comma, open);
      NameAndColon(q, Tokens(members.value) + comma, open);
      BehindOther(comma, open);
      CommaInObject(later, open);
      LaidMembers(members.next, close, open);
      NextMemberText(tabs, q, value, Laid(later, open), PrintMembers(members.next, |open|, true), Tabs(|open| - 1), l);
    }
  }

  lemma Commas()
    ensures Comma(true) == [] && Comma(false) == [","]
  {
  }

  lemma LastMemberText(tabs: string, q: string, value: string, tabs0: string, l: string)
    ensures tabs + (q + (":\t" + (value + ("\n" + tabs0 + l))))
         == tabs + (q + (":\t" + value)) + "" + "\n" + "" + tabs0 + l
  {
    var name := tabs + (q + (":\t" + value));
    assert name + "" == name && name + "\n" + "" == name + "\n";
    assert tabs + (q + (":\t" + (value + ("\n" + tabs0 + l)))) == name + ("\n" + tabs0 + l);
  }

  lemma NextMemberText(tabs: string, q: string, value: string, later: string, p: string, tabs0: string, l: string)
    requires tabs + later == p + tabs0 + l
    ensures tabs + (q + (":\t" + (value + ("," + ("\n" + tabs) + later))))
         == tabs + (q + (":\t" + value)) + "," + "\n" + p + tabs0 + l
  {
    var name := tabs + (q + (":\t" + value));
    assert tabs + (q + (":\t" + (value + ("," + ("\n" + tabs) + later)))) == name + (",\n" + (tabs + later));
    assert name + (",\n" + (p + tabs0 + l)) == name + "," + "\n" + p + tabs0 + l;
  }

  // The formatted print is the tokens laid out like that.
  lemma PrintIsLaid(v: Value)
    ensures Print(v, 0, true) == Laid(Tokens(v), "")
  {
    hide *;
    LaidValue(v, [], "");
    NothingBehind();
    assert Tokens(v) + [] == Tokens(v) && Print(v, 0, true) + "" == Print(v, 0, true);
  }

  lemma NothingBehind()
    ensures Behind([], "") == ""
  {
  }
}
