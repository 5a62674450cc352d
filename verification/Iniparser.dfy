// The loops of ini/iniparser.c, over the dictionary's slots and the text of a file.
module Iniparsers {
  import opened Wrappers
  import opened Dictionaries
  import opened IniText

  // strlwc, into a buffer of ASCIILINESZ + 1
  method StrLwc(s: string) returns (l: string)
    ensures l == LowerAll(s[..if |s| < ASCIILINESZ then |s| else ASCIILINESZ])
  {
    l := "";
    var i := 0;
    while i < |s| && i < ASCIILINESZ
      invariant i <= |s| && i <= ASCIILINESZ && l == LowerAll(s[..i])
      decreases |s| - i
    {
      l := l + [Lower(s[i])];
      i := i + 1;
    }
  }

  lemma {:induction false} RStripBack(l: string, last: nat)
    requires last <= |l| && forall i | last <= i < |l| :: IsSpace(l[i])
    ensures RStrip(l) == RStrip(l[..last])
  {
    if last < |l| {
      RStripBack(l[..|l| - 1], last);
      assert l[..|l| - 1][..last] == l[..last];
    } else {
      assert l[..last] == l;
    }
  }

  // strstrip: forward past the blanks, then back from the end of a copy; overrun is set where the copy would not fit
  // the buffer of ASCIILINESZ + 1.
  method StrStrip(s0: string) returns (l: string, overrun: bool)
    ensures overrun <==> |LStrip(s0)| > ASCIILINESZ
    ensures !overrun ==> l == Strip(s0)
  {
    var s := s0;
    while s != "" && IsSpace(s[0])
      invariant LStrip(s) == LStrip(s0)
      decreases |s|
    {
      s := s[1..];
    }
    if |s| > ASCIILINESZ {
      return "", true;
    }
    var last: nat := |s|;
    while last > 0
      invariant last <= |s| && forall i | last <= i < |s| :: IsSpace(s[i])
    {
      if !IsSpace(s[last - 1]) {
        break;
      }
      last := last - 1;
    }
    RStripBack(s, last);
    l, overrun := s[..last], false;
  }

  lemma SectionNamesNext(keys: seq<Cell>, i: nat)
    requires i < |keys|
    ensures SectionNames(keys[i..])
         == (if keys[i].Some? && IsSection(keys[i].value) then [keys[i].value] else []) + SectionNames(keys[i + 1..])
  {
    assert keys[i..][0] == keys[i] && keys[i..][1..] == keys[i + 1..];
  }

  // iniparser_getnsec
  method GetNsec(d: Dictionary) returns (nsec: nat)
    requires d.Valid()
    ensures nsec == |SectionNames(d.key[..])|
  {
    hide SectionNames;
    nsec := 0;
    ghost var keys := d.key[..];
    assert keys[0..] == keys;
    for i := 0 to d.size
      invariant nsec + |SectionNames(keys[i..])| == |SectionNames(keys)|
    {
      SectionNamesNext(keys, i);
      if d.key[i].Some? {
        if IsSection(d.key[i].value) {
          nsec := nsec + 1;
        }
      }
    }
    NoSlots(keys);
  }

  lemma NoSlots(keys: seq<Cell>)
    ensures SectionNames(keys[|keys|..]) == []
  {
  }

  lemma Parallel(d: Dictionary)
    requires d.Valid()
    ensures d.key.Length == d.val.Length == d.size
  {
  }

  // iniparser_getsecname
  method GetSecName(d: Dictionary, n: int) returns (name: Cell)
    requires d.Valid()
    ensures var names := SectionNames(d.key[..]);
            name == if 0 <= n < |names| then Some(names[n]) else None
  {
    hide SectionNames, SlotsOk, IsSection;
    if n < 0 {
      return None;
    }
    var foundsec: nat := 0;
    ghost var keys := d.key[..];
    ghost var names := SectionNames(keys);
    assert keys[0..] == keys && names[0..] == names;
    for i := 0 to d.size
      invariant foundsec <= n && foundsec <= |names| && names[foundsec..] == SectionNames(keys[i..])
    {
      SectionNamesNext(keys, i);
      assert keys[i] == d.key[i];
      if d.key[i].Some? {
        if IsSection(d.key[i].value) {
          assert names[foundsec] == names[foundsec..][0] && names[foundsec + 1..] == names[foundsec..][1..];
          foundsec := foundsec + 1;
          if foundsec > n {
            return d.key[i];
          }
        }
      }
    }
    NoSlots(keys);
    name := None;
  }

  lemma SectionLinesNext(keys: seq<Cell>, vals: seq<Cell>, section: string, j: nat, f: string)
    requires j < |keys| == |vals|
    ensures f + SectionLines(keys[j..], vals[j..], section)
         == f + SlotLine(keys[j], vals[j], section) + SectionLines(keys[j + 1..], vals[j + 1..], section)
  {
    hide SlotLine;
    assert keys[j..][0] == keys[j] && keys[j..][1..] == keys[j + 1..];
    assert vals[j..][0] == vals[j] && vals[j..][1..] == vals[j + 1..];
  }

  // The inner loop of iniparser_dump_ini.
  method DumpSection(d: Dictionary, section: string) returns (f: string)
    requires d.Valid()
    ensures f == SectionLines(d.key[..], d.val[..], section)
  {
    hide EntryLine, SectionLines, SlotsOk;
    var keym := section + ":";
    f := "";
    ghost var keys, vals := d.key[..], d.val[..];
    Parallel(d);
    WholeSection(keys, vals, section);
    for j := 0 to d.size
      invariant f + SectionLines(keys[j..], vals[j..], section) == SectionLines(keys, vals, section)
    {
      SectionLinesNext(keys, vals, section, j, f);
      if d.key[j].Some? {
        if keym <= d.key[j].value {
          f := f + (EntryLine(d.key[j].value[|section| + 1..], Text(d.val[j])) + "\r\n");
        } else {
          assert f + "" == f;
        }
      } else {
        assert f + "" == f;
      }
    }
    assert f + "" == f;
  }

  lemma WholeSection(keys: seq<Cell>, vals: seq<Cell>, section: string)
    requires |keys| == |vals|
    ensures "" + SectionLines(keys[0..], vals[0..], section) == SectionLines(keys, vals, section)
    ensures SectionLines(keys[|keys|..], vals[|vals|..], section) == ""
  {
    hide SlotLine;
    assert keys[0..] == keys && vals[0..] == vals;
  }

  lemma RawLinesNext(keys: seq<Cell>, vals: seq<Cell>, j: nat, f: string)
    requires j < |keys| == |vals|
    ensures f + RawLines(keys[j..], vals[j..]) == f + RawLine(keys[j], vals[j]) + RawLines(keys[j + 1..], vals[j + 1..])
  {
    hide RawLine;
    assert keys[j..][0] == keys[j] && keys[j..][1..] == keys[j + 1..];
    assert vals[j..][0] == vals[j] && vals[j..][1..] == vals[j + 1..];
  }

  lemma AllRaw(keys: seq<Cell>, vals: seq<Cell>)
    requires |keys| == |vals|
    ensures "" + RawLines(keys[0..], vals[0..]) == RawLines(keys, vals)
    ensures RawLines(keys[|keys|..], vals[|vals|..]) == ""
  {
    hide RawLine;
    assert keys[0..] == keys && vals[0..] == vals;
  }

  // All keys as they are, when there is no section.
  method DumpRaw(d: Dictionary) returns (f: string)
    requires d.Valid()
    ensures f == RawLines(d.key[..], d.val[..])
  {
    hide RawLines, SlotsOk;
    f := "";
    ghost var keys, vals := d.key[..], d.val[..];
    Parallel(d);
    AllRaw(keys, vals);
    for i := 0 to d.size
      invariant f + RawLines(keys[i..], vals[i..]) == RawLines(keys, vals)
    {
      RawLinesNext(keys, vals, i, f);
      if d.key[i].Some? {
        f := f + (d.key[i].value + "=" + RawText(d.val[i]) + "\r\n");
      } else {
        assert f + "" == f;
      }
    }
    assert f + "" == f;
  }

  // A section's name and a colon go to a buffer of ASCIILINESZ + 1 without a check.
  predicate TooLong(name: string) {
    |name| + 1 > ASCIILINESZ
  }

  ghost predicate SomeTooLong(m: map<string, Cell>) {
    exists k :: k in m && IsSection(k) && TooLong(k)
  }

  lemma SomeTooLongIs(d: Dictionary)
    requires d.Valid()
    ensures SomeTooLong(d.Map()) <==> exists k :: k in SectionNames(d.key[..]) && TooLong(k)
  {
    hide SlotsOk, IsSection, Find, TooLong, Unique, SectionNames;
    forall k ensures k in SectionNames(d.key[..]) <==> k in d.Map() && IsSection(k) {
      SectionNamesAre(d.key[..], k);
    }
  }

  lemma DumpSectionsNext(keys: seq<Cell>, vals: seq<Cell>, names: seq<string>, i: nat, f: string)
    requires |keys| == |vals| && i < |names|
    ensures f + DumpSections(keys, vals, names[i..])
         == f + SectionBlock(keys, vals, names[i]) + DumpSections(keys, vals, names[i + 1..])
  {
    hide SectionLines;
    assert names[i..][0] == names[i] && names[i..][1..] == names[i + 1..];
    var rest := DumpSections(keys, vals, names[i + 1..]);
    assert f + (SectionBlock(keys, vals, names[i]) + rest) == f + SectionBlock(keys, vals, names[i]) + rest;
  }

  lemma AllDumped(keys: seq<Cell>, vals: seq<Cell>, names: seq<string>)
    requires |keys| == |vals|
    ensures DumpSections(keys, vals, names[0..]) == DumpSections(keys, vals, names)
    ensures DumpSections(keys, vals, names[|names|..]) == ""
  {
    hide *;
    assert names[0..] == names && names[|names|..] == [];
    DumpNothing(keys, vals);
  }

  lemma DumpNothing(keys: seq<Cell>, vals: seq<Cell>)
    requires |keys| == |vals|
    ensures DumpSections(keys, vals, []) == ""
  {
    hide SectionLines;
  }

  // iniparser_dump_ini; overrun is set where it would write past the end of keym.
  method DumpIni(d: Dictionary) returns (f: string, overrun: bool)
    requires d.Valid()
    ensures overrun <==> SomeTooLong(d.Map())
    ensures !overrun ==> f == Dump(d.key[..], d.val[..])
  {
    hide SectionNames, DumpSections, SlotsOk, RawLines, SomeTooLong, Contents, Unique;
    ghost var keys, vals := d.key[..], d.val[..];
    ghost var names := SectionNames(keys);
    Parallel(d);
    SomeTooLongIs(d);
    var nsec := GetNsec(d);
    if nsec < 1 {
      f := DumpRaw(d);
      return f, false;
    }
    f := "";
    AllDumped(keys, vals, names);
    for i := 0 to nsec
      invariant f + DumpSections(keys, vals, names[i..]) == DumpSections(keys, vals, names)
      invariant forall j | 0 <= j < i :: !TooLong(names[j])
    {
      DumpSectionsNext(keys, vals, names, i, f);
      var secname := GetSecName(d, i);
      var s := secname.value;
      if |s| + 1 > ASCIILINESZ {
        assert s in names && TooLong(s);
        return f, true;
      }
      var lines := DumpSection(d, s);
      f := f + ("\r\n" + ("[" + s + "]\r\n" + lines));
    }
    AllDumped(keys, vals, names);
    assert f + "" == f;
    f, overrun := f + "\r\n", false;
  }

  // What the switch of iniparser_load does with a line; overrun is set where it would write past the end of tmp.
  method TakeStatus(d: Dictionary, status: Status, section0: string, errs0: nat)
    returns (section: string, errs: nat, overrun: bool)
    requires d.Valid()
    modifies d, d.val, d.key, d.hash
    ensures d.Valid() && (overrun <==> TooWide(section0, status))
    ensures (d.val == old(d.val) && d.key == old(d.key) && d.hash == old(d.hash))
            || (fresh(d.val) && fresh(d.key) && fresh(d.hash))
    ensures !overrun ==>
              Loading(section, d.Map(), errs > 0) == TakeLine(Loading(section0, old(d.Map()), errs0 > 0), status)
  {
    hide SlotsOk, Contents;
    section, errs, overrun := section0, errs0, false;
    match status {
      case Empty =>
      case Comment =>
      case Section(name) =>
        section := name;
        d.Set(section, None);
        errs := 0;
      case Entry(key, value) =>
        var tmp := section + ":" + key;
        if |tmp| > ASCIILINESZ {
          overrun := true;
          return;
        }
        d.Set(tmp, Some(value));
        errs := 0;
      case Error =>
        errs := errs + 1;
    }
  }

  // iniparser_load, on the text of the file if there is one; overrun says that it has left its buffers.
  method LoadIni(file: Option<string>) returns (dict: Dictionary?, overrun: bool)
    ensures overrun <==> file.Some? && Load(file.value).OutOfBounds?
    ensures dict == null <==> file.None? || !Load(file.value).Loaded?
    ensures dict != null ==> fresh(dict) && fresh(dict.val) && fresh(dict.key) && fresh(dict.hash)
    ensures dict != null ==> dict.Valid() && Load(file.value) == Loaded(dict.Map())
  {
    hide Line, Fgets, RStrip, SlotsOk, TakeLine, Contents, TooWide, UpTo;
    if file.None? {
      return null, false;
    }
    var d := new Dictionary(0);
    var rest, pending, section, errs: nat := file.value, "", "", 0;
    while rest != ""
      invariant d.Valid() && fresh(d) && fresh(d.val) && fresh(d.key) && fresh(d.hash)
      invariant |pending| + 2 < ASCIILINESZ
      invariant LoadLines(rest, pending, Loading(section, d.Map(), errs > 0)) == Load(file.value)
      decreases |rest|
    {
      ghost var turn := LoadTurn(rest, pending, Loading(section, d.Map(), errs > 0));
      var got := Fgets(rest, ASCIILINESZ - |pending|);
      var line := UpTo(pending + got, '\0');
      if line == "" {
        return null, true;
      }
      if line[|line| - 1] != '\n' {
        return null, false;
      }
      rest := rest[|got|..];
      var s := RStrip(line);
      if s != "" && s[|s| - 1] == '\\' {
        pending := s[..|s| - 1];
      } else {
        pending := "";
        section, errs, overrun := TakeStatus(d, Line(s, section), section, errs);
        if overrun {
          return null, true;
        }
      }
      assert turn == GoOn(rest, pending, Loading(section, d.Map(), errs > 0));
    }
    dict, overrun := if errs > 0 then null else d, false;
  }
}
