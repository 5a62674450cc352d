// Loading what iniparser_dump_ini wrote.
module IniRoundTrip {
  import opened Wrappers
  import opened Dictionaries
  import opened IniText

  // ---------- stripping ----------

  predicate Stripped(s: string) {
    s == "" || (!IsSpace(s[0]) && !IsSpace(s[|s| - 1]))
  }

  lemma StripKeeps(s: string)
    requires Stripped(s)
    ensures LStrip(s) == s && RStrip(s) == s && Strip(s) == s
  {
  }

  lemma {:induction false} RStripSpaces(s: string, w: string)
    requires forall i | 0 <= i < |w| :: IsSpace(w[i])
    ensures RStrip(s + w) == RStrip(s)
  {
    if w == "" {
      assert s + w == s;
    } else {
      var t := s + w;
      assert t[..|t| - 1] == s + w[..|w| - 1] && t[|t| - 1] == w[|w| - 1];
      RStripSpaces(s, w[..|w| - 1]);
    }
  }

  lemma {:induction false} UpToStops(a: string, c: char, b: string)
    requires c !in a
    ensures UpTo(a + [c] + b, c) == a && UpTo(a, c) == a
  {
    var s := a + [c] + b;
    if a != "" {
      assert s[0] == a[0] && s[1..] == a[1..] + [c] + b;
      assert a[0] in a && forall x | x in a[1..] :: x in a;
      UpToStops(a[1..], c, b);
      assert [a[0]] + a[1..] == a;
    }
  }

  lemma {:induction false} RStripAfter(a: string, v: string)
    requires a != "" && !IsSpace(a[|a| - 1])
    ensures RStrip(a + v) == a + RStrip(v)
  {
    if v == "" {
      assert a + v == a;
    } else {
      var t := a + v;
      assert t[|t| - 1] == v[|v| - 1] && t[..|t| - 1] == a + v[..|v| - 1];
      RStripAfter(a, v[..|v| - 1]);
    }
  }

  lemma {:induction false} RStripEnds(s: string)
    ensures RStrip(s) == "" || !IsSpace(RStrip(s)[|RStrip(s)| - 1])
    ensures RStrip(RStrip(s)) == RStrip(s)
  {
    if s != "" && IsSpace(s[|s| - 1]) {
      RStripEnds(s[..|s| - 1]);
    }
  }

  // ---------- what can be dumped and read back ----------

  predicate Lowered(s: string) {
    LowerAll(s) == s
  }

  predicate OneLine(s: string) {
    '\n' !in s && '\0' !in s
  }

  predicate EndsIn(s: string, c: char) {
    s != "" && s[|s| - 1] == c
  }

  predicate GoodSection(s: string) {
    s != "" && Lowered(s) && Stripped(s) && ']' !in s && OneLine(s) && |s| + 4 < ASCIILINESZ
  }

  predicate GoodName(name: string) {
    name != "" && Lowered(name) && Stripped(name) && '=' !in name && OneLine(name) && name[0] != '#'
  }

  // A name and a value whose line is neither joined to the next one nor taken for a section's.
  predicate GoodPair(name: string, v: string) {
    && GoodName(name) && OneLine(v)
    && !EndsIn(RStrip(v), '\\') && !(name[0] == '[' && EndsIn(RStrip(v), ']'))
  }

  predicate GoodEntry(name: string, v: string) {
    GoodPair(name, v) && |EntryLine(name, v)| + 2 < ASCIILINESZ
  }

  // What a value that is written comes back as.
  function Reads(v: string): string {
    ValueOf(LStrip(RStrip(v)))
  }

  // A quotation mark with something between it and the next one.
  predicate Opens(v: string, mark: char) {
    |v| >= 2 && v[0] == mark && v[1] != mark
  }

  // No blanks around it, no comment in it, no quotes about it.
  predicate PlainValue(v: string) {
    && Stripped(v) && ';' !in v && '#' !in v
    && !Opens(v, '\"') && !Opens(v, '\'') && v != "\"\"" && v != "''"
  }

  lemma OpensIs(t: string, mark: char)
    ensures Quoted(t, mark).Some? <==> Opens(t, mark)
    ensures Opens(t, mark) ==> |Quoted(t, mark).value| < |t|
  {
    if t != "" && t[0] == mark && |t| >= 2 {
      assert UpTo(t[1..], mark) != "" <==> t[1] != mark;
    }
  }

  lemma {:induction false} StripShort(s: string)
    ensures |LStrip(s)| <= |s| && (|LStrip(s)| == |s| ==> LStrip(s) == s && (s == "" || !IsSpace(s[0])))
    ensures |RStrip(s)| <= |s| && (|RStrip(s)| == |s| ==> RStrip(s) == s && (s == "" || !IsSpace(s[|s| - 1])))
  {
  }

  lemma CommentShort(s: string)
    ensures |UpToComment(s)| <= |s|
    ensures |UpToComment(s)| == |s| ==> UpToComment(s) == s && ';' !in s && '#' !in s
    ensures ';' !in s && '#' !in s ==> UpToComment(s) == s
  {
    var t := UpTo(s, ';');
    if ';' !in s {
      UpToStops(s, ';', "");
    }
    if '#' !in s {
      UpToStops(s, '#', "");
    }
    assert |UpTo(t, '#')| == |s| ==> t == s && UpTo(t, '#') == t;
  }

  lemma PlainReads(v: string)
    requires PlainValue(v)
    ensures Reads(v) == v
  {
    hide UpTo, UpToComment, LStrip, RStrip, Quoted;
    StripKeeps(v);
    OpensIs(v, '\"');
    OpensIs(v, '\'');
    CommentShort(v);
  }

  lemma OnlyPlainReads(v: string)
    requires Reads(v) == v
    ensures PlainValue(v)
  {
    hide UpTo, UpToComment, LStrip, RStrip, Quoted;
    var t := LStrip(RStrip(v));
    OpensIs(t, '\"');
    OpensIs(t, '\'');
    StripShort(v);
    StripShort(RStrip(v));
    CommentShort(t);
    var u := if Opens(t, '\"') then Quoted(t, '\"').value
             else if Opens(t, '\'') then Quoted(t, '\'').value else UpToComment(t);
    StripShort(u);
    StripShort(LStrip(u));
  }

  // Exactly the plain values come back as they are.
  lemma ReadsItselfIff(v: string)
    ensures Reads(v) == v <==> PlainValue(v)
  {
    hide *;
    if PlainValue(v) {
      PlainReads(v);
    }
    if Reads(v) == v {
      OnlyPlainReads(v);
    }
  }

  // ---------- one line ----------

  lemma SectionLineParses(s: string, section: string)
    requires GoodSection(s)
    ensures Line("[" + s + "]", section) == Section(s)
  {
    var line := "[" + s + "]";
    StripKeeps(line);
    assert line[1..] == s + [']'] + "";
    UpToStops(s, ']', "");
    StripKeeps(s);
  }

  // An entry's line with these blanks before the equals sign.
  function EntryText(name: string, w: string, v: string): string {
    name + w + "=" + v
  }

  predicate Blanks(w: string) {
    forall i | 0 <= i < |w| :: w[i] == ' '
  }

  lemma EntryStrips(name: string, w: string, v: string)
    requires GoodName(name) && Blanks(w)
    ensures RStrip(EntryText(name, w, v)) == EntryText(name, w, RStrip(v))
    ensures Strip(EntryText(name, w, v)) == EntryText(name, w, RStrip(v))
  {
    RStripAfter(name + w + "=", v);
  }

  lemma PadIsClean(name: string, w: string, v: string)
    requires GoodPair(name, v) && Blanks(w)
    ensures '=' !in name + w && Strip(name + w) == name
    ensures var line := EntryText(name, w, RStrip(v));
            line != "" && line[0] != '#' && !(line[0] == '[' && EndsIn(line, ']')) && !EndsIn(line, '\\')
    ensures OneLine(EntryText(name, w, v))
  {
    assert LStrip(name + w) == name + w;
    RStripSpaces(name, w);
    StripKeeps(name);
    var line, u := EntryText(name, w, RStrip(v)), RStrip(v);
    assert line[0] == name[0];
    assert u != "" ==> line[|line| - 1] == u[|u| - 1];
    assert u == "" ==> line[|line| - 1] == '=';
  }

  lemma LineIsEntry(input: string, line: string, key: string, section: string)
    requires Strip(input) == line && line != "" && line[0] != '#' && !(line[0] == '[' && line[|line| - 1] == ']')
    requires UpTo(line, '=') == key && key != "" && |key| < |line|
    ensures Line(input, section) == Entry(LowerAll(Strip(key)), ValueOf(LStrip(line[|key| + 1..])))
  {
    hide Strip, LStrip, UpTo, ValueOf;
  }

  lemma EntryLineParses(name: string, w: string, v: string, section: string)
    requires GoodPair(name, v) && Blanks(w)
    ensures Line(EntryText(name, w, v), section) == Entry(name, Reads(v))
  {
    var line := EntryText(name, w, RStrip(v));
    assert line == (name + w) + ['='] + RStrip(v) && LowerAll(name) == name && name != "";
    hide LStrip, RStrip, Strip, UpTo, ValueOf, LowerAll, Line, OneLine, Stripped, Blanks;
    PadIsClean(name, w, v);
    EntryStrips(name, w, v);
    UpToStops(name + w, '=', RStrip(v));
    LineIsEntry(EntryText(name, w, v), line, name + w, section);
    assert line[|name + w| + 1..] == RStrip(v);
  }

  // ---------- one line of a file ----------

  lemma {:induction false} FgetsLine(body: string, more: string, room: nat)
    requires '\n' !in body && |body| + 1 < room
    ensures Fgets(body + "\n" + more, room) == body + "\n"
  {
    var rest := body + "\n" + more;
    if body != "" {
      assert rest[0] == body[0] && rest[1..] == body[1..] + "\n" + more;
      assert body[0] in body && forall x | x in body[1..] :: x in body;
      FgetsLine(body[1..], more, room - 1);
      assert [body[0]] + (body[1..] + "\n") == body + "\n";
    }
  }

  // A line that is not continued, with a newline or a carriage return and a newline after it.
  lemma LoadLine(body: string, eol: string, more: string, l: Loading)
    requires OneLine(body) && |body| + 2 < ASCIILINESZ && !EndsIn(RStrip(body), '\\')
    requires eol == "\n" || eol == "\r\n"
    ensures LoadLines(body + eol + more, "", l) == LoadAfter(RStrip(body), more, l)
  {
    hide LoadLines, LoadAfter, RStrip, LoadTurn, UpTo, Took;
    var front := eol[..|eol| - 1];
    var rest := body + eol + more;
    assert rest == (body + front) + "\n" + more;
    assert '\n' !in front && '\n' !in body + front;
    FgetsLine(body + front, more, ASCIILINESZ);
    var got := body + front + "\n";
    assert body + eol == got && rest[|got|..] == more && '\0' !in got;
    RStripSpaces(body, eol);
    TurnStep(rest, got, RStrip(body), more, l);
    LoadStep(rest, RStrip(body), more, l);
  }

  lemma LoadStep(rest: string, s: string, more: string, l: Loading)
    requires rest != "" && LoadTurn(rest, "", l) == Took(s, more, l)
    ensures LoadLines(rest, "", l) == LoadAfter(s, more, l)
  {
    hide LoadTurn;
  }

  lemma TurnStep(rest: string, got: string, s: string, more: string, l: Loading)
    requires got != "" && Fgets(rest, ASCIILINESZ) == got && rest[|got|..] == more && EndsIn(got, '\n')
    requires '\0' !in got && RStrip(got) == s && !EndsIn(s, '\\')
    ensures rest != "" && LoadTurn(rest, "", l) == Took(s, more, l)
  {
    assert "" + got == got;
    UpToStops(got, '\0', "");
    hide Took, RStrip, Fgets, UpTo;
  }

  lemma AfterBlank(more: string, l: Loading)
    ensures LoadAfter("", more, l) == LoadLines(more, "", l)
  {
    hide LoadLines;
  }

  lemma LoadBlank(more: string, l: Loading)
    ensures LoadLines("\r\n" + more, "", l) == LoadLines(more, "", l)
  {
    hide *;
    assert "" + "\r\n" + more == "\r\n" + more;
    BlankIsStripped();
    LoadLine("", "\r\n", more, l);
    AfterBlank(more, l);
  }

  lemma BlankIsStripped()
    ensures RStrip("") == "" && OneLine("") && |""| + 2 < ASCIILINESZ && !EndsIn("", '\\')
  {
  }

  lemma LoadSection(s: string, eol: string, more: string, l: Loading)
    requires GoodSection(s) && (eol == "\n" || eol == "\r\n")
    ensures LoadLines("[" + s + "]" + eol + more, "", l) == LoadLines(more, "", Loading(s, l.entries[s := None], false))
  {
    hide LoadLines, Line, UpTo, Strip, LStrip, LowerAll, LoadTurn;
    var body := "[" + s + "]";
    assert OneLine(body) && Stripped(body);
    StripKeeps(body);
    LoadLine(body, eol, more, l);
    SectionLineParses(s, l.section);
  }

  lemma LoadEntryText(name: string, w: string, v: string, eol: string, more: string, l: Loading)
    requires GoodPair(name, v) && Blanks(w) && |EntryText(name, w, v)| + 2 < ASCIILINESZ
    requires |l.section| + 1 + |name| <= ASCIILINESZ && (eol == "\n" || eol == "\r\n")
    ensures LoadLines(EntryText(name, w, v) + eol + more, "", l)
         == LoadLines(more, "", Loading(l.section, l.entries[l.section + ":" + name := Some(Reads(v))], false))
  {
    hide *;
    var body := EntryText(name, w, v);
    PairHasName(name, v);
    PadIsClean(name, w, v);
    EntryStrips(name, w, v);
    LoadLine(body, eol, more, l);
    TrailingBlanks(name, w, v, l.section);
    AfterEntry(RStrip(body), name, Reads(v), more, l);
  }

  lemma PairHasName(name: string, v: string)
    requires GoodPair(name, v)
    ensures GoodName(name)
  {
  }

  lemma TrailingBlanks(name: string, w: string, v: string, section: string)
    requires GoodPair(name, v) && Blanks(w)
    ensures Line(RStrip(EntryText(name, w, v)), section) == Entry(name, Reads(v))
  {
    var u := RStrip(v);
    RStripEnds(v);
    assert OneLine(u);
    hide LStrip, RStrip, Strip, UpTo, ValueOf, LowerAll, Line, GoodName, EntryText, OneLine, Blanks;
    EntryStrips(name, w, v);
    EntryLineParses(name, w, u, section);
  }

  lemma AfterEntry(s: string, name: string, v: string, more: string, l: Loading)
    requires Line(s, l.section) == Entry(name, v) && |l.section| + 1 + |name| <= ASCIILINESZ
    ensures LoadAfter(s, more, l)
         == LoadLines(more, "", Loading(l.section, l.entries[l.section + ":" + name := Some(v)], false))
  {
    hide LoadLines, Line;
  }

  lemma LoadEntry(name: string, v: string, more: string, l: Loading)
    requires GoodEntry(name, v) && |l.section| + 1 + |name| <= ASCIILINESZ
    ensures LoadLines(EntryLine(name, v) + "\r\n" + more, "", l)
         == LoadLines(more, "", Loading(l.section, l.entries[l.section + ":" + name := Some(Reads(v))], false))
  {
    hide LoadLines;
    LoadEntryText(name, Spaces(30 - |name|), v, "\r\n", more, l);
  }

  // ---------- the lines of a section ----------

  // What a slot's line adds under the section, if it has one there.
  function SlotAdds(key: Cell, val: Cell, section: string, l: Loading): Loading {
    if key.Some? && section + ":" <= key.value
    then Loading(section, l.entries[key.value := Some(Reads(Text(val)))], false) else l
  }

  // What the entry lines of a section add.
  function Added(keys: seq<Cell>, vals: seq<Cell>, section: string, l: Loading): Loading
    requires |keys| == |vals|
    decreases |keys|
  {
    if keys == [] then l else Added(keys[1..], vals[1..], section, SlotAdds(keys[0], vals[0], section, l))
  }

  ghost predicate GoodEntries(keys: seq<Cell>, vals: seq<Cell>, section: string)
    requires |keys| == |vals|
  {
    forall i | 0 <= i < |keys| && keys[i].Some? && section + ":" <= keys[i].value ::
      GoodEntry(keys[i].value[|section| + 1..], Text(vals[i])) && |keys[i].value| <= ASCIILINESZ
  }

  lemma {:induction false} LoadEntries(keys: seq<Cell>, vals: seq<Cell>, section: string, more: string, l: Loading)
    requires |keys| == |vals| && GoodEntries(keys, vals, section) && l.section == section
    ensures LoadLines(SectionLines(keys, vals, section) + more, "", l)
         == LoadLines(more, "", Added(keys, vals, section, l))
    decreases |keys|
  {
    hide LoadLines, GoodEntry, EntryLine, Reads;
    if keys == [] {
      assert "" + more == more;
    } else {
      var rest := SectionLines(keys[1..], vals[1..], section) + more;
      if keys[0].Some? && section + ":" <= keys[0].value {
        var key := keys[0].value;
        var name := key[|section| + 1..];
        assert section + ":" + name == key;
        LoadEntry(name, Text(vals[0]), rest, l);
        assert SectionLines(keys, vals, section) + more == EntryLine(name, Text(vals[0])) + "\r\n" + rest;
        LoadEntries(keys[1..], vals[1..], section, more, SlotAdds(keys[0], vals[0], section, l));
      } else {
        assert SectionLines(keys, vals, section) + more == rest;
        LoadEntries(keys[1..], vals[1..], section, more, l);
      }
    }
  }

  function AddedSections(keys: seq<Cell>, vals: seq<Cell>, names: seq<string>, l: Loading): Loading
    requires |keys| == |vals|
    decreases |names|
  {
    if names == [] then l
    else
      AddedSections(keys, vals, names[1..],
        Added(keys, vals, names[0], Loading(names[0], l.entries[names[0] := None], false)))
  }

  ghost predicate GoodSections(keys: seq<Cell>, vals: seq<Cell>, names: seq<string>)
    requires |keys| == |vals|
  {
    forall j | 0 <= j < |names| :: GoodSection(names[j]) && GoodEntries(keys, vals, names[j])
  }

  lemma LoadSectionBlock(keys: seq<Cell>, vals: seq<Cell>, s: string, rest: string, l: Loading)
    requires |keys| == |vals| && GoodSection(s) && GoodEntries(keys, vals, s)
    ensures LoadLines(SectionBlock(keys, vals, s) + rest, "", l)
         == LoadLines(rest, "", Added(keys, vals, s, Loading(s, l.entries[s := None], false)))
  {
    hide *;
    var lines := SectionLines(keys, vals, s);
    var head := "[" + s + "]" + "\r\n";
    BlockText(keys, vals, s, rest);
    LoadBlank(head + (lines + rest), l);
    LoadSection(s, "\r\n", lines + rest, l);
    LoadEntries(keys, vals, s, rest, Loading(s, l.entries[s := None], false));
  }

  lemma BlockText(keys: seq<Cell>, vals: seq<Cell>, s: string, rest: string)
    requires |keys| == |vals|
    ensures SectionBlock(keys, vals, s) + rest
         == "\r\n" + ("[" + s + "]" + "\r\n" + (SectionLines(keys, vals, s) + rest))
  {
    hide SectionLines;
    assert "[" + s + "]\r\n" == "[" + s + "]" + "\r\n";
  }

  lemma {:induction false} LoadSections(keys: seq<Cell>, vals: seq<Cell>, names: seq<string>, more: string, l: Loading)
    requires |keys| == |vals| && GoodSections(keys, vals, names)
    ensures LoadLines(DumpSections(keys, vals, names) + more, "", l)
         == LoadLines(more, "", AddedSections(keys, vals, names, l))
    decreases |names|
  {
    hide LoadLines, GoodSection, GoodEntries, SectionBlock, Added;
    if names == [] {
      assert "" + more == more;
    } else {
      var s := names[0];
      var rest := DumpSections(keys, vals, names[1..]) + more;
      LoadSectionBlock(keys, vals, s, rest, l);
      LoadSections(keys, vals, names[1..], more, Added(keys, vals, s, Loading(s, l.entries[s := None], false)));
      assert DumpSections(keys, vals, names) + more == SectionBlock(keys, vals, s) + rest;
    }
  }

  // ---------- what that adds up to ----------

  lemma {:induction false} AddedAt(keys: seq<Cell>, vals: seq<Cell>, section: string, l: Loading, k: string)
    requires |keys| == |vals| && Unique(keys)
    ensures var m := Added(keys, vals, section, l).entries;
            if section + ":" <= k && k in Keys(keys)
            then k in m && m[k] == Some(Reads(Text(vals[Find(keys, k)])))
            else (k in m <==> k in l.entries) && (k in m ==> m[k] == l.entries[k])
    decreases |keys|
  {
    if keys != [] {
      hide Reads;
      TailKeys(keys, k);
      AddedAt(keys[1..], vals[1..], section, SlotAdds(keys[0], vals[0], section, l), k);
      Absent(keys, k);
      Absent(keys[1..], k);
    }
  }

  lemma TailKeys(keys: seq<Cell>, k: string)
    requires keys != [] && Unique(keys)
    ensures Unique(keys[1..])
    ensures k in Keys(keys) <==> k in Keys(keys[1..]) || keys[0] == Some(k)
    ensures keys[0] == Some(k) ==> k !in Keys(keys[1..])
  {
    if k in Keys(keys[1..]) {
      var i :| 0 <= i < |keys| - 1 && keys[1..][i] == Some(k);
      assert keys[i + 1] == Some(k);
    }
    if k in Keys(keys) && keys[0] != Some(k) {
      var i :| 0 <= i < |keys| && keys[i] == Some(k);
      assert keys[1..][i - 1] == Some(k);
    }
  }

  function SectionOf(key: string): string {
    UpTo(key, ':')
  }

  lemma PrefixIsSection(s: string, key: string)
    requires ':' !in s
    ensures s + ":" <= key <==> !IsSection(key) && SectionOf(key) == s
  {
    if s + ":" <= key {
      assert key == s + [':'] + key[|s| + 1..];
      UpToStops(s, ':', key[|s| + 1..]);
      assert key[|s|] == ':';
    }
    if !IsSection(key) {
      assert |SectionOf(key)| < |key| && key[..|SectionOf(key)| + 1] == SectionOf(key) + ":";
    }
  }

  // What a dump keeps: the sections, without a value, and the entries of a section that is there, with one.
  ghost predicate IsKept(m: map<string, Cell>, k: string) {
    k in m && (IsSection(k) || SectionOf(k) in m)
  }

  ghost function Kept(m: map<string, Cell>): map<string, Cell> {
    map k | k in m && IsKept(m, k) :: if IsSection(k) then None else Some(Reads(Text(m[k])))
  }

  lemma {:induction false} SectionsAt(keys: seq<Cell>, vals: seq<Cell>, names: seq<string>, l: Loading, k: string)
    requires |keys| == |vals| && Unique(keys) && forall j | 0 <= j < |names| :: IsSection(names[j])
    ensures var m := AddedSections(keys, vals, names, l).entries;
            if IsSection(k) && k in names then k in m && m[k] == None
            else if !IsSection(k) && SectionOf(k) in names && k in Keys(keys)
            then k in m && m[k] == Some(Reads(Text(vals[Find(keys, k)])))
            else (k in m <==> k in l.entries) && (k in m ==> m[k] == l.entries[k])
    decreases |names|
  {
    if names != [] {
      hide Added, Keys, Unique, UpTo, SectionOf, IsSection, Reads;
      var s := names[0];
      var l1 := Loading(s, l.entries[s := None], false);
      var l2 := Added(keys, vals, s, l1);
      assert ':' !in s by { NoColon(s); }
      PrefixIsSection(s, k);
      AddedAt(keys, vals, s, l1, k);
      SectionsAt(keys, vals, names[1..], l2, k);
    }
  }

  lemma NoColon(s: string)
    requires IsSection(s)
    ensures ':' !in s
  {
  }

  // ---------- a dump without sections ----------

  // One slot of a dump that has no section to put it under.
  ghost predicate GoodRaw(key: Cell, val: Cell) {
    key.Some? ==> GoodPair(key.value, RawText(val)) && |EntryText(key.value, "", RawText(val))| + 2 < ASCIILINESZ
  }

  ghost predicate GoodRaws(keys: seq<Cell>, vals: seq<Cell>)
    requires |keys| == |vals|
  {
    forall i | 0 <= i < |keys| :: GoodRaw(keys[i], vals[i])
  }

  // Read back outside every section, a key gets a colon in front.
  function RawAdds(key: Cell, val: Cell, l: Loading): Loading {
    if key.Some? then Loading("", l.entries[":" + key.value := Some(Reads(RawText(val)))], false) else l
  }

  function AddedRaw(keys: seq<Cell>, vals: seq<Cell>, l: Loading): Loading
    requires |keys| == |vals|
    decreases |keys|
  {
    if keys == [] then l else AddedRaw(keys[1..], vals[1..], RawAdds(keys[0], vals[0], l))
  }

  lemma {:induction false} LoadRaws(keys: seq<Cell>, vals: seq<Cell>, l: Loading)
    requires |keys| == |vals| && GoodRaws(keys, vals) && l.section == "" && !l.errs
    ensures LoadLines(RawLines(keys, vals), "", l) == Loaded(AddedRaw(keys, vals, l).entries)
    decreases |keys|
  {
    hide LoadLines, GoodPair, Reads;
    if keys == [] {
      LoadEnd(l);
    } else {
      var rest := RawLines(keys[1..], vals[1..]);
      if keys[0].Some? {
        var key, v := keys[0].value, RawText(vals[0]);
        assert GoodRaw(keys[0], vals[0]);
        LoadEntryText(key, "", v, "\r\n", rest, l);
        assert "" + ":" + key == ":" + key;
        assert RawLines(keys, vals) == EntryText(key, "", v) + "\r\n" + rest;
        LoadRaws(keys[1..], vals[1..], RawAdds(keys[0], vals[0], l));
      } else {
        assert RawLines(keys, vals) == rest;
        LoadRaws(keys[1..], vals[1..], l);
      }
    }
  }

  lemma {:induction false} RawAt(keys: seq<Cell>, vals: seq<Cell>, l: Loading, k: string)
    requires |keys| == |vals| && Unique(keys)
    ensures var m := AddedRaw(keys, vals, l).entries;
            if k in Keys(keys) then ":" + k in m && m[":" + k] == Some(Reads(RawText(vals[Find(keys, k)])))
            else (":" + k in m <==> ":" + k in l.entries) && (":" + k in m ==> m[":" + k] == l.entries[":" + k])
    decreases |keys|
  {
    if keys != [] {
      hide Reads;
      var l1 := RawAdds(keys[0], vals[0], l);
      if keys[0].Some? {
        assert (":" + keys[0].value)[1..] == keys[0].value && (":" + k)[1..] == k;
      }
      TailKeys(keys, k);
      RawAt(keys[1..], vals[1..], l1, k);
      Absent(keys, k);
      Absent(keys[1..], k);
    }
  }

  lemma {:induction false} RawOnly(keys: seq<Cell>, vals: seq<Cell>, l: Loading, k: string)
    requires |keys| == |vals| && k in AddedRaw(keys, vals, l).entries && k !in l.entries
    ensures ":" <= k && k[1..] in Keys(keys)
    decreases |keys|
  {
    if keys != [] {
      hide Reads;
      var l1 := RawAdds(keys[0], vals[0], l);
      if k !in l1.entries {
        RawOnly(keys[1..], vals[1..], l1, k);
        var i :| 0 <= i < |keys| - 1 && keys[1..][i] == Some(k[1..]);
        assert keys[i + 1] == Some(k[1..]);
      } else {
        assert k == ":" + keys[0].value && k[1..] == keys[0].value;
      }
    }
  }

  // ---------- whole files ----------

  // The line of every section, and of every entry of a section that is there, can be read by itself; without a section,
  // the line of every key and value.
  ghost predicate StorableSlots(keys: seq<Cell>, vals: seq<Cell>)
    requires |keys| == |vals|
  {
    if SectionNames(keys) == [] then GoodRaws(keys, vals) else GoodSections(keys, vals, SectionNames(keys))
  }

  ghost predicate HasSection(m: map<string, Cell>) {
    exists k :: k in m && IsSection(k)
  }

  ghost function RawKeys(m: map<string, Cell>): (r: set<string>)
    ensures forall k | k in r :: ":" <= k && k[1..] in m
    ensures forall k | k in m :: ":" + k in r
  {
    assert forall k | k in m :: (":" + k)[1..] == k;
    set k | k in m :: ":" + k
  }

  // What comes back when there is no section.
  ghost function RawKept(m: map<string, Cell>): map<string, Cell> {
    map k | k in RawKeys(m) :: Some(Reads(RawText(m[k[1..]])))
  }

  ghost function Reloaded(m: map<string, Cell>): map<string, Cell> {
    if HasSection(m) then Kept(m) else RawKept(m)
  }

  lemma SectionsThere(keys: seq<Cell>, vals: seq<Cell>)
    requires |keys| == |vals| && Unique(keys)
    ensures SectionNames(keys) != [] <==> HasSection(Contents(keys, vals))
  {
    var names := SectionNames(keys);
    if names != [] {
      SectionNamesAre(keys, names[0]);
      assert names[0] in names && names[0] in Contents(keys, vals);
    }
    if HasSection(Contents(keys, vals)) {
      var k :| k in Contents(keys, vals) && IsSection(k);
      SectionNamesAre(keys, k);
    }
  }

  lemma LoadOfDump(keys: seq<Cell>, vals: seq<Cell>)
    requires |keys| == |vals| && StorableSlots(keys, vals) && SectionNames(keys) != []
    ensures Load(Dump(keys, vals))
         == Loaded(AddedSections(keys, vals, SectionNames(keys), Loading("", map[], false)).entries)
  {
    hide LoadLines, Added, SectionLines, GoodSections;
    var names := SectionNames(keys);
    var l := Loading("", map[], false);
    LoadSections(keys, vals, names, "\r\n", l);
    var l' := AddedSections(keys, vals, names, l);
    LoadBlank("", l');
    assert "\r\n" + "" == "\r\n";
    NoErrors(keys, vals, names, l);
    LoadEnd(l');
  }

  lemma LoadEnd(l: Loading)
    ensures LoadLines("", "", l) == LoadEnds(l)
  {
  }

  lemma {:induction false} NoErrorsIn(keys: seq<Cell>, vals: seq<Cell>, section: string, l: Loading)
    requires |keys| == |vals| && !l.errs
    ensures !Added(keys, vals, section, l).errs
    decreases |keys|
  {
    if keys != [] {
      hide Reads;
      NoErrorsIn(keys[1..], vals[1..], section, SlotAdds(keys[0], vals[0], section, l));
    }
  }

  lemma {:induction false} NoErrors(keys: seq<Cell>, vals: seq<Cell>, names: seq<string>, l: Loading)
    requires |keys| == |vals| && !l.errs
    ensures !AddedSections(keys, vals, names, l).errs
    decreases |names|
  {
    if names != [] {
      var l1 := Loading(names[0], l.entries[names[0] := None], false);
      NoErrorsIn(keys, vals, names[0], l1);
      NoErrors(keys, vals, names[1..], Added(keys, vals, names[0], l1));
    }
  }

  lemma RawRoundTrip(keys: seq<Cell>, vals: seq<Cell>)
    requires |keys| == |vals| && Unique(keys) && GoodRaws(keys, vals) && SectionNames(keys) == []
    ensures Load(Dump(keys, vals)) == Loaded(RawKept(Contents(keys, vals)))
  {
    hide LoadLines, GoodRaws, AddedRaw, Unique, Keys, Find, Reads;
    var l := Loading("", map[], false);
    LoadRaws(keys, vals, l);
    var r, m := AddedRaw(keys, vals, l).entries, Contents(keys, vals);
    forall k ensures k in r <==> k in RawKept(m)
             ensures k in r ==> r[k] == RawKept(m)[k]
    {
      if ":" <= k {
        assert k == ":" + k[1..];
        RawAt(keys, vals, l, k[1..]);
      }
      if k in r {
        RawOnly(keys, vals, l, k);
      }
    }
    assert r == RawKept(m);
  }

  // Loading a dump gives back what the dump keeps, each value as its line reads.
  lemma RoundTrip(keys: seq<Cell>, vals: seq<Cell>)
    requires |keys| == |vals| && Unique(keys) && StorableSlots(keys, vals)
    ensures Load(Dump(keys, vals)) == Loaded(Reloaded(Contents(keys, vals)))
  {
    hide Load, Dump, GoodRaws, GoodSections, SectionNames, Unique, Contents, HasSection, Kept, RawKept;
    SectionsThere(keys, vals);
    if SectionNames(keys) == [] {
      RawRoundTrip(keys, vals);
    } else {
      SectionRoundTrip(keys, vals);
    }
  }

  lemma SectionRoundTrip(keys: seq<Cell>, vals: seq<Cell>)
    requires |keys| == |vals| && Unique(keys) && StorableSlots(keys, vals) && SectionNames(keys) != []
    ensures Load(Dump(keys, vals)) == Loaded(Kept(Contents(keys, vals)))
  {
    hide *;
    LoadOfDump(keys, vals);
    var r := AddedSections(keys, vals, SectionNames(keys), Loading("", map[], false)).entries;
    forall k ensures k in r <==> k in Kept(Contents(keys, vals))
             ensures k in r ==> r[k] == Kept(Contents(keys, vals))[k]
    {
      KeptAt(keys, vals, k);
    }
    assert r == Kept(Contents(keys, vals));
  }

  lemma KeptAt(keys: seq<Cell>, vals: seq<Cell>, k: string)
    requires |keys| == |vals| && Unique(keys)
    ensures var r := AddedSections(keys, vals, SectionNames(keys), Loading("", map[], false)).entries;
            (k in r <==> k in Kept(Contents(keys, vals))) && (k in r ==> r[k] == Kept(Contents(keys, vals))[k])
  {
    SectionNamesAre(keys, k);
    SectionNamesAre(keys, SectionOf(k));
    SectionsAt(keys, vals, SectionNames(keys), Loading("", map[], false), k);
    SectionOfIsSection(k);
    hide AddedSections, SectionNames, Keys, Unique, SectionOf, IsSection, Find, Reads;
  }

  lemma SectionOfIsSection(k: string)
    ensures IsSection(SectionOf(k))
  {
  }

  // A mapping a dump keeps whole: sections without a value, and entries with a plain one, each under a section that is
  // there.
  ghost predicate KeptWhole(m: map<string, Cell>) {
    forall k | k in m :: if IsSection(k) then m[k] == None else PlainEntry(m, k)
  }

  ghost predicate PlainEntry(m: map<string, Cell>, k: string)
    requires k in m
  {
    m[k].Some? && PlainValue(m[k].value) && SectionOf(k) in m
  }

  lemma {:induction false} LongestKey(s: set<string>) returns (k: string)
    requires s != {}
    ensures k in s && forall k' | k' in s :: |k'| <= |k|
    decreases |s|
  {
    k :| k in s;
    if s - {k} != {} {
      var k1 := LongestKey(s - {k});
      if |k1| > |k| {
        k := k1;
      }
    }
  }

  // Every key grows by a colon, so the longest one is new.
  lemma RawKeptDiffers(m: map<string, Cell>)
    requires m != map[]
    ensures RawKept(m) != m
  {
    hide Reads;
    assert m.Keys != {};
    var k := LongestKey(m.Keys);
    assert ":" + k in RawKept(m) && |":" + k| > |k|;
  }

  lemma WholeHasSection(m: map<string, Cell>)
    requires KeptWhole(m) && m != map[]
    ensures HasSection(m)
  {
    var k :| k in m;
    SectionOfIsSection(k);
    hide IsSection, SectionOf, PlainValue;
  }

  // Loading a dump gives back the same mapping exactly when every entry has its section, values are where they belong,
  // and every one of them is plain.
  lemma RoundTripIsExact(keys: seq<Cell>, vals: seq<Cell>)
    requires |keys| == |vals| && Unique(keys) && StorableSlots(keys, vals)
    ensures Load(Dump(keys, vals)) == Loaded(Contents(keys, vals)) <==> KeptWhole(Contents(keys, vals))
  {
    hide *;
    RoundTrip(keys, vals);
    ReloadedIsSame(Contents(keys, vals));
  }

  lemma ReloadedIsSame(m: map<string, Cell>)
    ensures Reloaded(m) == m <==> KeptWhole(m)
  {
    hide SectionOf, IsSection, PlainEntry, Reads;
    if m == map[] {
      assert RawKept(m) == map[] && Kept(m) == map[];
    } else if HasSection(m) {
      KeptIsSame(m);
    } else {
      RawKeptDiffers(m);
      if KeptWhole(m) {
        WholeHasSection(m);
      }
    }
  }

  lemma KeptIsSame(m: map<string, Cell>)
    ensures Kept(m) == m <==> KeptWhole(m)
  {
    hide SectionOf, IsSection, PlainValue, Reads;
    forall k | k in m && m[k].Some? ensures Reads(m[k].value) == m[k].value <==> PlainValue(m[k].value) {
      ReadsItselfIff(m[k].value);
    }
    if Kept(m) == m {
      forall k | k in m ensures if IsSection(k) then m[k] == None else PlainEntry(m, k) {
        assert k in Kept(m) && Kept(m)[k] == m[k];
      }
    }
    if KeptWhole(m) {
      assert forall k | k in m && !IsSection(k) :: PlainEntry(m, k);
      assert Kept(m).Keys == m.Keys;
    }
  }
}
