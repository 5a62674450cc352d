// What sections and keys a loaded file has, and which of them a dump writes so that they are read back.
module IniKeys {
  import opened Wrappers
  import opened Dictionaries
  import opened IniText
  import opened IniRoundTrip
  import opened IniLines
  import opened Iniparsers

  // ---------- characters that stay out ----------

  lemma {:induction false} LStripSuffix(s: string) returns (k: nat)
    ensures k <= |s| && LStrip(s) == s[k..] && (k < |s| ==> !IsSpace(s[k]))
  {
    if s != "" && IsSpace(s[0]) {
      k := LStripSuffix(s[1..]);
      k := k + 1;
    } else {
      k := 0;
    }
  }

  // A stripped text is a part of the text.
  lemma StripIsPart(s: string)
    ensures Stripped(Strip(s)) && |Strip(s)| <= |s| && forall c | c in Strip(s) :: c in s
    ensures s != "" && !IsSpace(s[0]) ==> Strip(s) != "" && Strip(s)[0] == s[0]
  {
    var k := LStripSuffix(s);
    var t := LStrip(s);
    RStripEnds(t);
    KeepsFirst(t);
  }

  lemma {:induction false} KeepsFirst(s: string)
    requires s != "" ==> !IsSpace(s[0])
    ensures s != "" ==> RStrip(s) != "" && RStrip(s)[0] == s[0]
  {
    if s != "" && IsSpace(s[|s| - 1]) {
      KeepsFirst(s[..|s| - 1]);
    }
  }

  lemma LowerKeeps(s: string, c: char)
    requires c !in s && !('a' <= c <= 'z')
    ensures c !in LowerAll(s)
  {
  }

  lemma LowerIsLow(s: string)
    ensures Lowered(LowerAll(s)) && |LowerAll(s)| == |s|
    ensures Stripped(s) ==> Stripped(LowerAll(s))
    ensures OneLine(s) ==> OneLine(LowerAll(s))
  {
    assert LowerAll(LowerAll(s)) == LowerAll(s);
    if OneLine(s) {
      LowerKeeps(s, '\n');
      LowerKeeps(s, '\0');
    }
  }

  lemma ValueIsPart(t: string)
    ensures forall c | c in ValueOf(t) :: c in t
  {
    hide UpTo, Strip, LStrip, RStrip;
    var v := if Quoted(t, '\"').Some? then Quoted(t, '\"').value
             else if Quoted(t, '\'').Some? then Quoted(t, '\'').value else UpToComment(t);
    StripIsPart(v);
    assert forall c | c in v :: c in t;
  }

  // ---------- what a line gives ----------

  predicate HeadShape(s: string) {
    Lowered(s) && Stripped(s) && ']' !in s && OneLine(s) && |s| + 4 <= ASCIILINESZ
  }

  predicate ShortLine(s: string) {
    OneLine(s) && |s| + 2 <= ASCIILINESZ
  }

  lemma ShapeOf(inner: string)
    requires ']' !in inner && OneLine(inner) && |inner| + 4 <= ASCIILINESZ
    ensures HeadShape(LowerAll(Strip(inner)))
  {
    hide Strip;
    StripIsPart(inner);
    LowerKeeps(Strip(inner), ']');
    LowerIsLow(Strip(inner));
  }

  lemma HeaderShape(s: string, section: string)
    requires ShortLine(s) && HeadShape(section) && Line(s, section).Section?
    ensures HeadShape(Line(s, section).name)
  {
    hide Strip, UpTo, LowerAll, LStrip, RStrip;
    StripIsPart(s);
    var line := Strip(s);
    var inner := UpTo(line[1..], ']');
    assert |line| >= 2 by {
      assert line[0] != line[|line| - 1];
    }
    assert |inner| < |line| - 1 by {
      assert line[1..][|line| - 2] == ']';
    }
    ShapeOf(if inner == "" then section else inner);
  }

  lemma EntryShape(s: string, section: string)
    requires ShortLine(s) && Line(s, section).Entry?
    ensures GoodName(Line(s, section).key) && OneLine(Line(s, section).value)
  {
    hide Strip, UpTo, LowerAll, ValueOf;
    StripIsPart(s);
    var line := Strip(s);
    var key := UpTo(line, '=');
    var t := LStrip(line[|key| + 1..]);
    assert OneLine(key) && key[0] == line[0];
    StripIsPart(key);
    NameIsGood(Strip(key));
    var k := LStripSuffix(line[|key| + 1..]);
    ValueIsPart(t);
    hide LStrip, RStrip;
  }

  lemma NameIsGood(name: string)
    requires name != "" && Stripped(name) && '=' !in name && OneLine(name) && name[0] != '#'
    ensures GoodName(LowerAll(name))
  {
    LowerIsLow(name);
    LowerKeeps(name, '=');
  }

  // ---------- what a file gives ----------

  lemma {:induction false} LinesAreShort(rest: string, pending: string)
    requires OneLine(pending)
    ensures forall s | s in Split(rest, pending).lines :: ShortLine(s)
    decreases |rest|
  {
    hide *;
    if rest == "" || !Ended(rest, pending) {
      NoLines(rest, pending);
    } else {
      var front := UpTo(rest, '\n');
      JoinedIsShort(rest, pending);
      SplitEnded(rest, pending);
      var s, after := RStrip(pending + front), rest[|front| + 1..];
      if s != "" && s[|s| - 1] == '\\' {
        OneLineOf(s);
        OneLineFront(s);
        LinesAreShort(after, s[..|s| - 1]);
      } else {
        EmptyIsOneLine();
        LinesAreShort(after, "");
      }
    }
  }

  lemma NoLines(rest: string, pending: string)
    requires rest == "" || !Ended(rest, pending)
    ensures Split(rest, pending).lines == []
  {
    hide Ended, NulFirst;
  }

  lemma JoinedIsShort(rest: string, pending: string)
    requires Ended(rest, pending) && OneLine(pending)
    ensures |UpTo(rest, '\n')| < |rest| && ShortLine(RStrip(pending + UpTo(rest, '\n')))
  {
    hide UpTo, RStrip;
  }

  lemma OneLineOf(s: string)
    requires ShortLine(s)
    ensures OneLine(s)
  {
  }

  lemma EmptyIsOneLine()
    ensures OneLine("")
  {
  }

  // Sections have no value, and their names have the shape of a section line's.
  ghost predicate SectionsOk(l: Loading) {
    HeadShape(l.section) && forall k | k in l.entries && IsSection(k) :: l.entries[k] == None && HeadShape(k)
  }

  lemma SectionsStayOk(s: string, l: Loading)
    requires ShortLine(s) && SectionsOk(l)
    ensures SectionsOk(TakeLine(l, Line(s, l.section)))
  {
    hide Line, HeadShape, ShortLine;
    var status := Line(s, l.section);
    if status.Section? {
      HeaderShape(s, l.section);
    }
    if status.Entry? {
      var key := l.section + ":" + status.key;
      assert key[|l.section|] == ':';
    }
  }

  lemma {:induction false} SectionsAreOk(lines: seq<string>, l: Loading)
    requires (forall s | s in lines :: ShortLine(s)) && SectionsOk(l) && TakeAll(lines, l).Some?
    ensures SectionsOk(TakeAll(lines, l).value)
    decreases |lines|
  {
    hide Line, TakeLine, SectionsOk, ShortLine, TooWide;
    if lines != [] {
      assert lines[0] in lines && forall s | s in lines[1..] :: s in lines;
      SectionsStayOk(lines[0], l);
      SectionsAreOk(lines[1..], TakeLine(l, Line(lines[0], l.section)));
    }
  }

  lemma NothingIsOk()
    ensures SectionsOk(Loading("", map[], false)) && EntriesOk(Loading("", map[], false))
  {
    assert LowerAll("") == "";
  }

  // Whatever file is loaded, its sections' names fit the buffer of a dump.
  lemma LoadedSections(file: string)
    requires Load(file).Loaded?
    ensures forall k | k in Load(file).entries && IsSection(k) ::
              Load(file).entries[k] == None && HeadShape(k) && !TooLong(k)
  {
    var p, l := Split(file, ""), Loading("", map[], false);
    hide Split, Load, TakeAll, Told, Lowered, Stripped, OneLine, IsSection;
    LoadOf(file, l);
    ToldBounds(p, l);
    EmptyIsOneLine();
    LinesAreShort(file, "");
    NothingIsOk();
    SectionsAreOk(p.lines, l);
  }

  // ---------- entries ----------

  // A section line whose name has no colon.
  predicate PlainHead(s: string) {
    IsHeader(s) ==> IsSection(Line(s, "").name)
  }

  function NameOf(key: string): string
    requires !IsSection(key)
  {
    key[|SectionOf(key)| + 1..]
  }

  // An entry as a line gives it: with a value, and in a section that is there, or in none.
  ghost predicate EntryOk(m: map<string, Cell>, k: string)
    requires k in m && !IsSection(k)
  {
    && m[k].Some? && OneLine(m[k].value)
    && GoodName(NameOf(k)) && |k| <= ASCIILINESZ && (SectionOf(k) == "" || SectionOf(k) in m)
  }

  ghost predicate EntriesOk(l: Loading) {
    && IsSection(l.section) && (l.section == "" || l.section in l.entries)
    && forall k | k in l.entries && !IsSection(k) :: EntryOk(l.entries, k)
  }

  lemma HeadIsPlain(s: string, section: string)
    requires PlainHead(s) && IsSection(section) && Line(s, section).Section?
    ensures IsSection(Line(s, section).name)
  {
    hide UpTo;
    StripIsPart(section);
    LowerKeeps(Strip(section), ':');
  }

  lemma KeyParts(section: string, name: string)
    requires IsSection(section)
    ensures var key := section + ":" + name; !IsSection(key) && SectionOf(key) == section && NameOf(key) == name
  {
    var key := section + ":" + name;
    assert key[|section|] == ':' && key == section + [':'] + name;
    UpToStops(section, ':', name);
  }

  lemma EntriesStayOk(s: string, l: Loading)
    requires ShortLine(s) && PlainHead(s) && EntriesOk(l) && !TooWide(l.section, Line(s, l.section))
    ensures EntriesOk(TakeLine(l, Line(s, l.section)))
  {
    hide Line, ShortLine, SectionOf, NameOf, IsSection, GoodName, OneLine, PlainHead;
    var status := Line(s, l.section);
    var l' := TakeLine(l, status);
    if status.Section? {
      HeadIsPlain(s, l.section);
      assert forall k | k in l.entries :: k in l'.entries;
    }
    if status.Entry? {
      EntryShape(s, l.section);
      KeyParts(l.section, status.key);
      assert forall k | k in l.entries :: k in l'.entries;
    }
    forall k | k in l'.entries && !IsSection(k) ensures EntryOk(l'.entries, k) {
      if k in l.entries {
        assert EntryOk(l.entries, k);
      }
    }
  }

  lemma {:induction false} EntriesAreOk(lines: seq<string>, l: Loading)
    requires (forall s | s in lines :: ShortLine(s) && PlainHead(s)) && EntriesOk(l) && TakeAll(lines, l).Some?
    ensures EntriesOk(TakeAll(lines, l).value)
    decreases |lines|
  {
    hide Line, TakeLine, EntriesOk, ShortLine, PlainHead, TooWide;
    if lines != [] {
      assert lines[0] in lines && forall s | s in lines[1..] :: s in lines;
      EntriesStayOk(lines[0], l);
      EntriesAreOk(lines[1..], TakeLine(l, Line(lines[0], l.section)));
    }
  }

  // ---------- what of a loaded file can be dumped ----------

  // No section line of the file has a colon in its name.
  ghost predicate PlainHeads(file: string) {
    forall s | s in Split(file, "").lines :: PlainHead(s)
  }

  lemma LoadedEntries(file: string)
    requires Load(file).Loaded? && PlainHeads(file)
    ensures forall k | k in Load(file).entries && !IsSection(k) :: EntryOk(Load(file).entries, k)
  {
    var p, l := Split(file, ""), Loading("", map[], false);
    hide Split, Load, TakeAll, Told, ShortLine, PlainHead, EntryOk, IsSection, OneLine, SectionsOk;
    LoadOf(file, l);
    ToldBounds(p, l);
    EmptyIsOneLine();
    LinesAreShort(file, "");
    NothingIsOk();
    EntriesAreOk(p.lines, l);
  }

  // The line that holds this value behind this name is neither joined to the next one nor taken for a section's.
  predicate ValueHolds(name: string, v: string) {
    !EndsIn(RStrip(v), '\\') && !(name != "" && name[0] == '[' && EndsIn(RStrip(v), ']'))
  }

  // The lines a dump writes for this key can be read one by one, and none of them is too long.
  ghost predicate KeyHolds(m: map<string, Cell>, k: string)
    requires k in m
  {
    if IsSection(k) then k != "" && |k| + 4 < ASCIILINESZ
    else if !HasSection(m) then ValueHolds(k, RawText(m[k])) && |EntryText(k, "", RawText(m[k]))| + 2 < ASCIILINESZ
    else
      SectionOf(k) in m ==>
        ValueHolds(NameOf(k), Text(m[k])) && |EntryLine(NameOf(k), Text(m[k]))| + 2 < ASCIILINESZ
  }

  ghost predicate LinesHold(m: map<string, Cell>) {
    forall k | k in m :: KeyHolds(m, k)
  }

  // Keys with names that a line can have.
  ghost predicate KeyOk(m: map<string, Cell>, k: string)
    requires k in m
  {
    if IsSection(k) then HeadShape(k)
    else
      && m[k].Some? && OneLine(m[k].value)
      && GoodName(NameOf(k)) && |k| <= ASCIILINESZ && (HasSection(m) || GoodName(k))
  }

  ghost predicate KeysOk(m: map<string, Cell>) {
    forall k | k in m :: KeyOk(m, k)
  }

  lemma ColonLow(name: string)
    requires LowerAll(name) == name
    ensures LowerAll(":" + name) == ":" + name
  {
    var low := LowerAll(":" + name);
    assert low[0] == ':';
    forall i | 0 < i < |low| ensures low[i] == (":" + name)[i] {
      assert low[i] == Lower(name[i - 1]) && LowerAll(name)[i - 1] == Lower(name[i - 1]);
    }
  }

  lemma ColonName(name: string)
    requires GoodName(name)
    ensures GoodName(":" + name)
  {
    ColonLow(name);
    hide LowerAll;
  }

  lemma OutsideSections(m: map<string, Cell>, k: string)
    requires !HasSection(m) && k in m && !IsSection(k) && EntryOk(m, k)
    ensures GoodName(k)
  {
    SectionOfIsSection(k);
    NoSection(k);
    hide SectionOf, IsSection, GoodName, NameOf;
    ColonName(NameOf(k));
  }

  lemma NoSection(k: string)
    requires !IsSection(k)
    ensures SectionOf(k) == "" ==> k == ":" + NameOf(k)
  {
  }

  // What a file whose section lines are plain loads has such keys.
  lemma LoadedKeys(file: string)
    requires Load(file).Loaded? && PlainHeads(file)
    ensures KeysOk(Load(file).entries)
  {
    hide Load, PlainHeads, HeadShape, GoodName, OneLine, NameOf, SectionOf, IsSection, HasSection;
    var m := Load(file).entries;
    LoadedSections(file);
    LoadedEntries(file);
    forall k | k in m ensures KeyOk(m, k) {
      if !IsSection(k) && !HasSection(m) {
        OutsideSections(m, k);
      }
    }
  }

  lemma SlotHas(keys: seq<Cell>, vals: seq<Cell>, i: nat)
    requires |keys| == |vals| && Unique(keys) && i < |keys| && keys[i].Some?
    ensures keys[i].value in Contents(keys, vals) && Contents(keys, vals)[keys[i].value] == vals[i]
  {
    FindUnique(keys, i);
    hide Unique, Find, Keys;
  }

  lemma PairOf(m: map<string, Cell>, k: string)
    requires k in m && !IsSection(k) && KeyOk(m, k) && KeyHolds(m, k)
    ensures !HasSection(m) ==> GoodRaw(Some(k), m[k])
    ensures HasSection(m) && SectionOf(k) in m ==> GoodEntry(NameOf(k), Text(m[k])) && |k| <= ASCIILINESZ
  {
    hide RStrip, LowerAll, Stripped, OneLine, SectionOf, NameOf, IsSection, HasSection, EntryLine, EntryText;
  }

  lemma RawSlots(keys: seq<Cell>, vals: seq<Cell>)
    requires |keys| == |vals| && Unique(keys) && KeysOk(Contents(keys, vals)) && LinesHold(Contents(keys, vals))
    requires !HasSection(Contents(keys, vals))
    ensures GoodRaws(keys, vals)
  {
    hide Contents, Unique, KeyOk, KeyHolds, GoodPair, EntryText;
    var m := Contents(keys, vals);
    forall i | 0 <= i < |keys| ensures GoodRaw(keys[i], vals[i]) {
      if keys[i].Some? {
        SlotHas(keys, vals, i);
        PairOf(m, keys[i].value);
      }
    }
  }

  lemma EntrySlots(keys: seq<Cell>, vals: seq<Cell>, section: string)
    requires |keys| == |vals| && Unique(keys) && KeysOk(Contents(keys, vals)) && LinesHold(Contents(keys, vals))
    requires HasSection(Contents(keys, vals)) && section in Contents(keys, vals) && IsSection(section)
    ensures GoodSection(section) && GoodEntries(keys, vals, section)
  {
    hide Contents, Unique, GoodEntry, HasSection, GoodName, EntryLine, ValueHolds, SectionOf, NameOf, EntryText,
      OneLine, Lowered, Stripped;
    var m := Contents(keys, vals);
    assert KeyOk(m, section) && KeyHolds(m, section);
    forall i | 0 <= i < |keys| && keys[i].Some? && section + ":" <= keys[i].value
      ensures GoodEntry(keys[i].value[|section| + 1..], Text(vals[i])) && |keys[i].value| <= ASCIILINESZ
    {
      SlotHas(keys, vals, i);
      PrefixIsSection(section, keys[i].value);
      NameBehind(section, keys[i].value);
      assert KeyOk(m, keys[i].value) && KeyHolds(m, keys[i].value);
      PairOf(m, keys[i].value);
    }
  }

  lemma NameBehind(section: string, key: string)
    requires !IsSection(key) && SectionOf(key) == section
    ensures NameOf(key) == key[|section| + 1..]
  {
  }

  // Keys that a line can have, and lines that hold: such slots come back.
  lemma HeldIsStorable(keys: seq<Cell>, vals: seq<Cell>)
    requires |keys| == |vals| && Unique(keys) && KeysOk(Contents(keys, vals)) && LinesHold(Contents(keys, vals))
    ensures StorableSlots(keys, vals)
  {
    hide Contents, Unique, KeysOk, LinesHold, SectionNames, GoodSection, GoodEntries, GoodRaws, HasSection;
    SectionsThere(keys, vals);
    var names := SectionNames(keys);
    if names == [] {
      RawSlots(keys, vals);
    } else {
      forall j | 0 <= j < |names| ensures GoodSection(names[j]) && GoodEntries(keys, vals, names[j]) {
        NameIsThere(keys, vals, j);
        EntrySlots(keys, vals, names[j]);
      }
    }
  }

  // A file that has been loaded, dumped from any arrangement of its slots and loaded again.
  lemma LoadDumpLoad(file: string, keys: seq<Cell>, vals: seq<Cell>)
    requires Load(file).Loaded? && PlainHeads(file) && LinesHold(Load(file).entries)
    requires |keys| == |vals| && Unique(keys) && Contents(keys, vals) == Load(file).entries
    ensures Load(Dump(keys, vals)) == Loaded(Reloaded(Load(file).entries))
  {
    hide *;
    LoadedKeys(file);
    HeldIsStorable(keys, vals);
    RoundTrip(keys, vals);
  }

  lemma NameIsThere(keys: seq<Cell>, vals: seq<Cell>, j: nat)
    requires |keys| == |vals| && j < |SectionNames(keys)|
    ensures SectionNames(keys)[j] in Contents(keys, vals) && IsSection(SectionNames(keys)[j])
  {
    SectionNamesAre(keys, SectionNames(keys)[j]);
    hide SectionNames, IsSection;
  }

  // An empty section line opens the section before it once more.
  lemma EmptyHead(section: string)
    requires HeadShape(section)
    ensures Line("[]", section) == Section(section)
  {
    assert Strip("[]") == "[]" && UpTo("]", ']') == "";
    assert "[]"[1..] == "]";
    StripKeeps(section);
    hide Strip, UpTo;
  }
}
