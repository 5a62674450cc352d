// What cJSON_Minify makes of comments, and of a text with comments and blanks between its tokens.
module JsonComments {
  import opened CStrings
  import opened JsonText
  import opened JsonMinify
  import opened JsonTokens

  // ---------- one comment ----------

  // No end of a comment inside.
  predicate NoEnd(c: string) {
    forall i | 0 <= i < |c| - 1 :: !(c[i] == '*' && c[i + 1] == '/')
  }

  lemma {:induction false} EndFound(c: string, rest: string)
    requires NulFree(c) && NoEnd(c)
    ensures CommentEnd(c + "*/" + rest) == Minified(rest)
    decreases |c|
  {
    var s := c + "*/" + rest;
    if c == "" {
      assert s[0] == '*' && s[1] == '/' && s[2..] == rest;
    } else {
      assert s[0] == c[0] && s[1..] == c[1..] + "*/" + rest;
      assert s[1] == if |c| > 1 then c[1] else '*';
      EndFound(c[1..], rest);
    }
  }

  // A /* comment vanishes, whatever follows it, unless a slash comes first in it.
  lemma BlockVanishes(c: string, rest: string)
    requires NulFree(c) && NoEnd(c) && (c == "" || c[0] != '/')
    ensures Minify("/*" + c + "*/" + rest) == Minify(rest)
  {
    var d := "/*" + c;
    assert NulFree(d) && NoEnd(d);
    EndFound(d, rest);
    hide CommentEnd;
    assert (d + "*/" + rest)[0] == '/' && (d + "*/" + rest)[1] == '*';
  }

  // The star that opens a comment also ends it when a slash comes next: of such a comment no more than /*/ vanishes.
  lemma SlashEndsIt(rest: string)
    ensures CommentEnd("/*/" + rest) == Minified(rest) && Minify("/*/" + rest) == Minify(rest)
  {
    var s := "/*/" + rest;
    assert s[0] == '/' && s[1..][0] == '*' && s[1..][1] == '/' && s[1..][2..] == rest;
    assert CommentEnd(s) == CommentEnd(s[1..]) == Minified(rest);
  }

  // So a comment is skipped up to its end exactly if it does not begin with a slash; /*/*/ is one that is not.
  lemma BlockEndsIff(c: string, rest: string)
    requires NulFree(c) && NoEnd(c)
    ensures CommentEnd("/*" + c + "*/" + rest) == Minified(rest) <==> c == "" || c[0] != '/'
    ensures Minify("/*" + "/" + "*/") == Minified("*/")
  {
    hide CommentEnd, Minify;
    var d := "/*" + c;
    if c == "" || c[0] != '/' {
      assert NoEnd(d);
      EndFound(d, rest);
    } else {
      assert d + "*/" + rest == "/*/" + (c[1..] + "*/" + rest);
      SlashEndsIt(c[1..] + "*/" + rest);
    }
    assert "/*" + "/" + "*/" == "/*/" + "*/";
    SlashEndsIt("*/");
    StarStays();
  }

  lemma StarStays()
    ensures Minify("*/") == Minified("*/")
  {
    assert "*/"[1..] == "/" && "/"[1..] == "" && "*/"[..1] == "*" && "/"[..1] == "/";
  }

  lemma {:induction false} LineEndFound(c: string, rest: string)
    requires NulFree(c) && '\n' !in c
    ensures LineEnd(c + "\n" + rest) == "\n" + rest
  {
    var s := c + "\n" + rest;
    if c == "" {
      assert s == "\n" + rest;
    } else {
      assert s[0] == c[0] && s[1..] == c[1..] + "\n" + rest && c[0] in c;
      assert forall x | x in c[1..] :: x in c;
      LineEndFound(c[1..], rest);
    }
  }

  // A // comment vanishes with its newline.
  lemma LineVanishes(c: string, rest: string)
    requires NulFree(c) && '\n' !in c
    ensures Minify("//" + c + "\n" + rest) == Minify(rest)
  {
    var d := "//" + c;
    assert NulFree(d) && '\n' !in d;
    LineEndFound(d, rest);
    assert (d + "\n" + rest)[0] == '/' && (d + "\n" + rest)[1] == '/';
    assert ("\n" + rest)[1..] == rest;
    hide LineEnd;
  }

  // One at the end of the text vanishes as well.
  lemma LastLineVanishes(c: string)
    requires NulFree(c) && '\n' !in c
    ensures Minify("//" + c) == Minified("")
  {
    var d := "//" + c;
    assert NulFree(d) && '\n' !in d;
    LineEndMissing(d);
    hide LineEnd;
  }

  lemma {:induction false} LineEndMissing(c: string)
    requires NulFree(c) && '\n' !in c
    ensures LineEnd(c) == ""
  {
    if c != "" {
      assert c[0] in c && forall x | x in c[1..] :: x in c;
      LineEndMissing(c[1..]);
    }
  }

  // ---------- between tokens ----------

  // A space, tab or line end; a comment between /* and */; one after //, with its newline.
  datatype Piece = Space(c: char) | Block(text: string) | Line(text: string)

  predicate GoodPiece(p: Piece) {
    match p
    case Space(c) => c == ' ' || c == '\t' || c == '\r' || c == '\n'
    case Block(c) => NulFree(c) && NoEnd(c) && (c == "" || c[0] != '/')
    case Line(c) => NulFree(c) && '\n' !in c
  }

  function PieceText(p: Piece): string {
    match p
    case Space(c) => [c]
    case Block(c) => "/*" + c + "*/"
    case Line(c) => "//" + c + "\n"
  }

  function GapText(gap: seq<Piece>): string {
    if gap == [] then "" else PieceText(gap[0]) + GapText(gap[1..])
  }

  predicate GoodGap(gap: seq<Piece>) {
    forall i | 0 <= i < |gap| :: GoodPiece(gap[i])
  }

  lemma PieceVanishes(p: Piece, rest: string)
    requires GoodPiece(p)
    ensures Minify(PieceText(p) + rest) == Minify(rest)
  {
    match p
    case Space(c) => assert ([c] + rest)[1..] == rest;
    case Block(c) => BlockVanishes(c, rest);
    case Line(c) => LineVanishes(c, rest);
  }

  lemma {:induction false} GapVanishes(gap: seq<Piece>, rest: string)
    requires GoodGap(gap)
    ensures Minify(GapText(gap) + rest) == Minify(rest)
  {
    hide Minify, PieceText, GoodPiece;
    if gap == [] {
      assert "" + rest == rest;
    } else {
      var later := GapText(gap[1..]) + rest;
      assert GapText(gap) + rest == PieceText(gap[0]) + later;
      PieceVanishes(gap[0], later);
      GapVanishes(gap[1..], rest);
    }
  }

  // Tokens, each with a gap in front of it.
  function Woven(ts: seq<string>, gaps: seq<seq<Piece>>): string
    requires |gaps| == |ts|
  {
    if ts == [] then "" else GapText(gaps[0]) + ts[0] + Woven(ts[1..], gaps[1..])
  }

  // A token: a string in its quotation marks, or characters that are kept one by one.
  ghost predicate Solid(t: string) {
    (exists s :: NulFree(s) && t == Quote(s)) || forall i | 0 <= i < |t| :: Kept(t[i])
  }

  lemma SolidStays(t: string, rest: string)
    requires Solid(t)
    ensures Minify(t + rest) == Prefixed(t, Minify(rest))
  {
    hide Minify, Kept, Quote;
    if s :| NulFree(s) && t == Quote(s) {
      MinifyQuote(s, rest);
    } else {
      MinifyKept(t, rest);
    }
  }

  lemma QuoteIsSolid(s: string)
    requires NulFree(s)
    ensures Solid(Quote(s))
  {
    hide Quote;
  }

  lemma {:induction false} TokensAreSolid(v: Value)
    requires Storable(v)
    ensures forall t | t in Tokens(v) :: Solid(t)
    decreases v, 1
  {
    hide Quote, Solid;
    match v
    case Null => WordsAreSolid();
    case False => WordsAreSolid();
    case True => WordsAreSolid();
    case Number(n) => NumberIsSolid(n);
    case Text(s) => QuoteIsSolid(s);
    case Array(items) =>
      WordsAreSolid();
      ItemsAreSolid(items);
    case Object(members) =>
      WordsAreSolid();
      MembersAreSolid(members);
  }

  lemma WordsAreSolid()
    ensures Solid("null") && Solid("false") && Solid("true")
    ensures Solid("[") && Solid("]") && Solid("{") && Solid("}") && Solid(",") && Solid(":")
  {
    hide Solid, Quote;
    KeptIsSolid("null");
    KeptIsSolid("false");
    KeptIsSolid("true");
    KeptIsSolid("[");
    KeptIsSolid("]");
    KeptIsSolid("{");
    KeptIsSolid("}");
    KeptIsSolid(",");
    KeptIsSolid(":");
  }

  lemma KeptIsSolid(t: string)
    requires forall i | 0 <= i < |t| :: Kept(t[i])
    ensures Solid(t)
  {
    hide Kept, Quote;
  }

  lemma NumberIsSolid(n: Int32)
    ensures Solid(Signed(n))
  {
    DecimalChars(Magnitude(n));
    hide Decimal;
  }

  lemma {:induction false} ItemsAreSolid(items: Items)
    requires StorableItems(items)
    ensures forall t | t in ItemTokens(items) :: Solid(t)
    decreases items, 0
  {
    hide Solid, Tokens;
    if items != NoItems {
      WordsAreSolid();
      TokensAreSolid(items.value);
      ItemsAreSolid(items.next);
    }
  }

  lemma {:induction false} MembersAreSolid(members: Members)
    requires StorableMembers(members)
    ensures forall t | t in MemberTokens(members) :: Solid(t)
    decreases members, 0
  {
    hide Solid, Tokens, Quote;
    if members != NoMembers {
      WordsAreSolid();
      QuoteIsSolid(members.name);
      TokensAreSolid(members.value);
      MembersAreSolid(members.next);
    }
  }

  lemma {:induction false} WovenMinifies(ts: seq<string>, gaps: seq<seq<Piece>>, last: seq<Piece>)
    requires |gaps| == |ts| && (forall t | t in ts :: Solid(t)) && (forall g | g in gaps :: GoodGap(g)) && GoodGap(last)
    ensures Minify(Woven(ts, gaps) + GapText(last)) == Minified(Join(ts))
    decreases |ts|
  {
    hide Minify, Solid, GoodGap, GapText;
    if ts == [] {
      assert "" + GapText(last) == GapText(last) + "";
      GapVanishes(last, "");
      MinifyNothing();
    } else {
      var later := Woven(ts[1..], gaps[1..]) + GapText(last);
      assert Woven(ts, gaps) + GapText(last) == GapText(gaps[0]) + (ts[0] + later);
      assert gaps[0] in gaps && ts[0] in ts;
      GapVanishes(gaps[0], ts[0] + later);
      SolidStays(ts[0], later);
      WovenMinifies(ts[1..], gaps[1..], last);
    }
  }

  lemma MinifyNothing()
    ensures Minify("") == Minified("")
  {
  }

  // Whatever blanks and comments stand in front of, between and behind an item's tokens, minifying gives the
  // unformatted print.
  lemma CommentsVanish(v: Value, gaps: seq<seq<Piece>>, last: seq<Piece>)
    requires Storable(v) && |gaps| == |Tokens(v)| && (forall g | g in gaps :: GoodGap(g)) && GoodGap(last)
    ensures Minify(Woven(Tokens(v), gaps) + GapText(last)) == Minified(Print(v, 0, false))
  {
    hide *;
    TokensAreSolid(v);
    WovenMinifies(Tokens(v), gaps, last);
    PrintIsTokens(v, 0);
  }
}
