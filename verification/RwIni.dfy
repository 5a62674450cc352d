// rwini.c: two integers kept in the file sync.ini.
module RwIni {
  import opened Wrappers
  import opened CStrings
  import opened Sums
  import opened Dictionaries
  import opened IniText
  import opened IniRoundTrip
  import opened IniLines
  import opened IniKeys
  import opened Iniparsers

  datatype SyncInfo = SyncInfo(syncProcess: Int32, timeStamp: Int32)

  const SYNC_PROCESS: string := "sync:syncprocess"
  const TIME_STAMP: string := "sync:timestamp"

  // ---------- integers in the file ----------

  function DigitIn(c: char, base: nat): int {
    var d :=
      if IsDigit(c) then c as int - '0' as int
      else if 'a' <= c <= 'z' then c as int - 'a' as int + 10
      else if 'A' <= c <= 'Z' then c as int - 'A' as int + 10
      else base;
    if d < base then d else -1
  }

  function DigitsIn(s: string, base: nat, n: nat): nat {
    if s == "" || DigitIn(s[0], base) < 0 then n else DigitsIn(s[1..], base, n * base + DigitIn(s[0], base))
  }

  // strtol with base 0, without overflow
  function StrToL(s: string): int {
    var t := LStrip(s);
    var u := if At(t, 0) == '-' || At(t, 0) == '+' then t[1..] else t;
    var n :=
      if At(u, 0) == '0' && (At(u, 1) == 'x' || At(u, 1) == 'X') && DigitIn(At(u, 2), 16) >= 0
      then DigitsIn(u[2..], 16, 0)
      else if At(u, 0) == '0' then DigitsIn(u, 8, 0)
      else DigitsIn(u, 10, 0);
    if At(t, 0) == '-' then 0 - n else n
  }

  // iniparser_getint; None where the key has a NULL value, which goes to strtol.
  function GetInt(m: map<string, Cell>, key: string, notFound: int): Option<int> {
    if key !in m then Some(notFound)
    else if m[key].None? then None
    else Some(StrToL(m[key].value))
  }

  // read_sync_config; None where the original leaves what C defines: the load leaves its buffers, or strtol gets NULL.
  function ReadSync(file: Option<string>): Option<SyncInfo> {
    if file.None? then Some(SyncInfo(0, 0))
    else
      match Load(file.value)
      case NoDictionary => Some(SyncInfo(0, 0))
      case OutOfBounds => None
      case Loaded(m) =>
        var p, t := GetInt(m, SYNC_PROCESS, 0), GetInt(m, TIME_STAMP, 0);
        if p.None? || t.None? then None else Some(SyncInfo(ToInt(p.value), ToInt(t.value)))
  }

  // (int) of a long: its low 32 bits
  function ToInt(n: int): Int32 {
    var low := n % 0x1_0000_0000;
    if low < 0x8000_0000 then low else low - 0x1_0000_0000
  }

  // The file that is written when there is none to load.
  function FreshFile(info: SyncInfo): string {
    "[sync]\n" + "syncprocess=" + Signed(info.syncProcess) + "\n" + "timestamp=" + Signed(info.timeStamp) + "\n"
  }

  lemma {:induction false} DigitsInTen(s: string, n: nat)
    ensures DigitsIn(s, 10, n) == Digits(s, n).0
    decreases |s|
  {
    if s != "" && IsDigit(s[0]) {
      DigitsInTen(s[1..], n * 10 + DigitValue(s[0]));
    } else if s != "" {
      assert DigitIn(s[0], 10) < 0;
    }
  }

  lemma StrToLOfSigned(n: int)
    ensures StrToL(Signed(n)) == n
  {
    var m := Magnitude(n);
    DecimalStarts(m);
    DigitsOfDecimal(m, "");
    DigitsInTen(Decimal(m), 0);
    assert Decimal(m) + "" == Decimal(m);
    if n < 0 {
      assert Signed(n)[1..] == Decimal(m);
    }
    if m == 0 {
      assert DigitsIn("0", 8, 0) == DigitsIn("", 8, 0) == 0;
    }
    hide DigitsIn, Decimal, Digits;
  }

  predicate IntChar(c: char) {
    IsDigit(c) || c == '-'
  }

  lemma SignedChars(n: int)
    ensures Signed(n) != "" && forall c | c in Signed(n) :: IntChar(c)
  {
    DecimalStarts(Magnitude(n));
    DecimalChars(Magnitude(n));
    assert forall c | c in Decimal(Magnitude(n)) :: IsDigit(c);
    hide Decimal;
  }

  lemma IntCharsArePlain(v: string)
    requires v != "" && forall c | c in v :: IntChar(c)
    ensures OneLine(v) && !EndsIn(v, '\\') && !EndsIn(v, ']') && Stripped(v) && PlainValue(v)
  {
    assert IntChar(v[0]) && IntChar(v[|v| - 1]);
  }

  lemma SignedIsGood(n: int)
    ensures OneLine(Signed(n)) && !EndsIn(Signed(n), '\\') && !EndsIn(Signed(n), ']')
    ensures RStrip(Signed(n)) == Signed(n) && Reads(Signed(n)) == Signed(n)
  {
    hide *;
    SignedChars(n);
    IntCharsArePlain(Signed(n));
    StripKeeps(Signed(n));
    PlainReads(Signed(n));
  }

  // ---------- the two operations ----------

  // iniparser_getint on a dictionary just loaded
  method GetIntOf(d: Dictionary, key: string, notFound: int) returns (r: Option<int>)
    requires d.Valid() && |key| < ASCIILINESZ && LowerAll(key) == key
    ensures r == GetInt(d.Map(), key, notFound)
  {
    var lcKey := StrLwc(key);
    assert key[..|key|] == key;
    var v, isDef := d.Get(lcKey, None);
    r := if isDef then Some(notFound) else if v.None? then None else Some(StrToL(v.value));
  }

  lemma KeysAreLow()
    ensures LowerAll(SYNC_PROCESS) == SYNC_PROCESS && LowerAll(TIME_STAMP) == TIME_STAMP
  {
  }

  method ReadSyncConfig(file: Option<string>) returns (info: Option<SyncInfo>)
    ensures info == ReadSync(file)
  {
    hide Load, GetInt, LowerAll;
    KeysAreLow();
    var d, overrun := LoadIni(file);
    if overrun {
      return None;
    }
    if d == null {
      return Some(SyncInfo(0, 0));
    }
    var p := GetIntOf(d, SYNC_PROCESS, 0);
    var t := GetIntOf(d, TIME_STAMP, 0);
    info := if p.None? || t.None? then None else Some(SyncInfo(ToInt(p.value), ToInt(t.value)));
  }

  // One of the two keys was loaded without a value, which goes to strtol.
  lemma ReadsNull(file: string)
    ensures ReadSync(Some(file)).None? <==>
              || Load(file).OutOfBounds?
              || (Load(file).Loaded? && (IsNull(Load(file).entries, SYNC_PROCESS)
                                         || IsNull(Load(file).entries, TIME_STAMP)))
  {
    hide Load, StrToL;
  }

  // There is no result exactly where the load leaves its buffers, or the file loads and the last of its lines that sets
  // one of the two keys is a section's.
  lemma ReadsNullIff(file: string)
    ensures var p := Split(file, "");
            ReadSync(Some(file)).None? <==>
              || SomeOverrun(p.lines, "") || p.ending.Wild?
              || (p.ending.Whole? && !EndsInError(p.lines)
                  && (LastIsHeader(p.lines, "", SYNC_PROCESS) || LastIsHeader(p.lines, "", TIME_STAMP)))
  {
    hide *;
    ReadsNull(file);
    StaysInBounds(file);
    LoadsIff(file);
    if Load(file).Loaded? {
      LoadedNull(file, SYNC_PROCESS);
      LoadedNull(file, TIME_STAMP);
    }
  }

  // A section line with either name is such a file.
  lemma SectionReadsNull(key: string)
    requires key == SYNC_PROCESS || key == TIME_STAMP
    ensures Load("[" + key + "]" + "\n" + "") == Loaded(map[key := None])
    ensures ReadSync(Some("[" + key + "]" + "\n" + "")) == None
  {
    SyncKeyNames();
    var l := Loading(key, map[][key := None], false);
    hide LoadLines, GoodSection, GoodName;
    LoadSection(key, "\n", "", Loading("", map[], false));
    LoadEnd(l);
  }

  function WithSync(m: map<string, Cell>, info: SyncInfo): map<string, Cell> {
    m[SYNC_PROCESS := Some(Signed(info.syncProcess))][TIME_STAMP := Some(Signed(info.timeStamp))]
  }

  // What write_sync_config may leave in the file: a dump of the loaded dictionary with the two entries set, from any
  // arrangement of its slots, or the fresh file; anything once the load has overrun its buffers.
  ghost predicate WrittenBy(file: Option<string>, info: SyncInfo, file': string) {
    if file.None? || Load(file.value).NoDictionary? then file' == FreshFile(info)
    else if Load(file.value).OutOfBounds? then true
    else exists keys, vals :: DumpOf(keys, vals, WithSync(Load(file.value).entries, info), file')
  }

  ghost predicate DumpOf(keys: seq<Cell>, vals: seq<Cell>, m: map<string, Cell>, file': string) {
    |keys| == |vals| && Unique(keys) && Contents(keys, vals) == m && file' == Dump(keys, vals)
  }

  // The sections of a loaded file fit the buffer of a dump, and the two entries are no sections.
  lemma SyncFits(file: string, info: SyncInfo)
    requires Load(file).Loaded?
    ensures !SomeTooLong(WithSync(Load(file).entries, info))
  {
    hide Load, TooLong, IsSection, HeadShape;
    LoadedSections(file);
    SyncKeysAreEntries();
  }

  lemma DumpedFrom(d: Dictionary, m: map<string, Cell>, file': string)
    requires d.Valid() && d.Map() == m && file' == Dump(d.key[..], d.val[..])
    ensures exists keys, vals :: DumpOf(keys, vals, m, file')
  {
    hide Dump, Contents, Hash, Sum;
    assert DumpOf(d.key[..], d.val[..], m, file');
  }

  method WriteSyncConfig(file: Option<string>, info: SyncInfo) returns (file': string, overrun: bool)
    ensures overrun <==> file.Some? && Load(file.value).OutOfBounds?
    ensures WrittenBy(file, info, file')
  {
    hide Load, Dump, FreshFile, SomeTooLong, SlotsOk, Contents, DumpOf, Signed, LowerAll;
    KeysAreLow();
    var d;
    d, overrun := LoadIni(file);
    if d == null {
      return FreshFile(info), overrun;
    }
    ghost var m := d.Map();
    var k := StrLwc(SYNC_PROCESS);
    assert SYNC_PROCESS[..|SYNC_PROCESS|] == SYNC_PROCESS && TIME_STAMP[..|TIME_STAMP|] == TIME_STAMP;
    d.Set(k, Some(Signed(info.syncProcess)));
    k := StrLwc(TIME_STAMP);
    d.Set(k, Some(Signed(info.timeStamp)));
    assert d.Map() == WithSync(m, info);
    SyncFits(file.value, info);
    file', overrun := DumpIni(d);
    DumpedFrom(d, WithSync(m, info), file');
  }

  // ---------- reading back ----------

  lemma SyncEntriesAreGood(info: SyncInfo)
    ensures GoodSection("sync")
    ensures GoodEntry("syncprocess", Signed(info.syncProcess)) && GoodEntry("timestamp", Signed(info.timeStamp))
  {
    hide *;
    SyncNames();
    SignedIsGood(info.syncProcess);
    SignedIsGood(info.timeStamp);
    NumberFits(info.syncProcess);
    NumberFits(info.timeStamp);
    ShortEntry("syncprocess", Signed(info.syncProcess));
    ShortEntry("timestamp", Signed(info.timeStamp));
  }

  lemma SyncNames()
    ensures GoodSection("sync") && GoodName("syncprocess") && GoodName("timestamp")
  {
    assert LowerAll("sync") == "sync" && LowerAll("syncprocess") == "syncprocess"
        && LowerAll("timestamp") == "timestamp";
    hide LowerAll;
  }

  lemma SyncKeyNames()
    ensures GoodSection(SYNC_PROCESS) && GoodSection(TIME_STAMP) && GoodName(SYNC_PROCESS) && GoodName(TIME_STAMP)
  {
    KeysAreLow();
    hide LowerAll;
  }

  lemma ShortEntry(name: string, v: string)
    requires GoodName(name) && OneLine(v) && RStrip(v) == v && !EndsIn(v, '\\') && !EndsIn(v, ']')
    requires |name| + |v| < 100
    ensures GoodEntry(name, v) && |EntryText(name, "", v)| + 2 < ASCIILINESZ
  {
    hide GoodName, OneLine, RStrip;
  }

  lemma FreshFileText(info: SyncInfo)
    ensures FreshFile(info)
         == "[" + "sync" + "]" + "\n" + (EntryText("syncprocess", "", Signed(info.syncProcess)) + "\n"
                                          + (EntryText("timestamp", "", Signed(info.timeStamp)) + "\n" + ""))
  {
    hide Signed;
    assert "[" + "sync" + "]" + "\n" == "[sync]\n";
  }

  function SyncOnly(info: SyncInfo): map<string, Cell> {
    WithSync(map["sync" := None], info)
  }

  lemma FreshFileLoads(info: SyncInfo)
    ensures Load(FreshFile(info)) == Loaded(SyncOnly(info))
  {
    hide LoadLines, FreshFile, GoodPair, GoodSection, EntryText, Signed, Reads;
    var p, t := Signed(info.syncProcess), Signed(info.timeStamp);
    var l0 := Loading("", map[], false);
    var l1 := Loading("sync", map["sync" := None], false);
    var l2 := Loading("sync", l1.entries[SYNC_PROCESS := Some(p)], false);
    var l3 := Loading("sync", l2.entries[TIME_STAMP := Some(t)], false);
    var tail := EntryText("timestamp", "", t) + "\n" + "";
    SyncEntriesAreGood(info);
    SignedIsGood(info.syncProcess);
    SignedIsGood(info.timeStamp);
    SyncLineLengths(info);
    FreshFileText(info);
    assert map[]["sync" := None] == l1.entries;
    assert "sync" + ":" + "syncprocess" == SYNC_PROCESS && "sync" + ":" + "timestamp" == TIME_STAMP;
    LoadSection("sync", "\n", EntryText("syncprocess", "", p) + "\n" + tail, l0);
    LoadEntryText("syncprocess", "", p, "\n", tail, l1);
    LoadEntryText("timestamp", "", t, "\n", "", l2);
    LoadEnd(l3);
  }

  lemma SyncLineLengths(info: SyncInfo)
    ensures |EntryText("syncprocess", "", Signed(info.syncProcess))| + 2 < ASCIILINESZ
    ensures |EntryText("timestamp", "", Signed(info.timeStamp))| + 2 < ASCIILINESZ
  {
    NumberFits(info.syncProcess);
    NumberFits(info.timeStamp);
  }

  lemma ToIntKeeps(n: Int32)
    ensures ToInt(n) == n
  {
  }

  // A mapping with the two entries written gives the two integers back; one without gives zeros.
  lemma ReadsWhatIsThere(m: map<string, Cell>, file: string, info: SyncInfo)
    requires Load(file) == Loaded(m)
    requires SYNC_PROCESS in m ==> m[SYNC_PROCESS] == Some(Signed(info.syncProcess))
    requires TIME_STAMP in m ==> m[TIME_STAMP] == Some(Signed(info.timeStamp))
    requires SYNC_PROCESS in m <==> TIME_STAMP in m
    ensures ReadSync(Some(file)) == Some(if SYNC_PROCESS in m then info else SyncInfo(0, 0))
  {
    hide Load, StrToL;
    StrToLOfSigned(info.syncProcess);
    StrToLOfSigned(info.timeStamp);
    ToIntKeeps(info.syncProcess);
    ToIntKeeps(info.timeStamp);
  }

  lemma SyncKeyText()
    ensures SYNC_PROCESS == "sync" + ":" + "syncprocess" && TIME_STAMP == "sync" + ":" + "timestamp"
    ensures SYNC_PROCESS != TIME_STAMP
  {
    assert SYNC_PROCESS[5] != TIME_STAMP[5];
  }

  lemma SyncIsSection()
    ensures IsSection("sync")
  {
  }

  lemma SyncKeysAreEntries()
    ensures !IsSection(SYNC_PROCESS) && !IsSection(TIME_STAMP) && IsSection("sync") && SYNC_PROCESS != TIME_STAMP
    ensures SectionOf(SYNC_PROCESS) == "sync" && NameOf(SYNC_PROCESS) == "syncprocess"
    ensures SectionOf(TIME_STAMP) == "sync" && NameOf(TIME_STAMP) == "timestamp"
  {
    hide *;
    SyncKeyText();
    SyncIsSection();
    KeyParts("sync", "syncprocess");
    KeyParts("sync", "timestamp");
  }

  lemma ReloadedSync(m: map<string, Cell>, info: SyncInfo)
    ensures var r := Reloaded(WithSync(m, info));
            && (SYNC_PROCESS in r <==> "sync" in m) && (TIME_STAMP in r <==> "sync" in m)
            && (SYNC_PROCESS in r ==> r[SYNC_PROCESS] == Some(Signed(info.syncProcess)))
            && (TIME_STAMP in r ==> r[TIME_STAMP] == Some(Signed(info.timeStamp)))
  {
    hide Kept, WithSync, SectionOf, IsSection, Signed, Reads;
    KeptSync(m, info);
    var w := WithSync(m, info);
    if !HasSection(w) {
      SyncKeysAreEntries();
      assert "sync" !in w;
      assert SYNC_PROCESS[0] != ':' && TIME_STAMP[0] != ':';
    }
  }

  lemma KeptSync(m: map<string, Cell>, info: SyncInfo)
    ensures "sync" in WithSync(m, info) <==> "sync" in m
    ensures var r := Kept(WithSync(m, info));
            && (SYNC_PROCESS in r <==> "sync" in m) && (TIME_STAMP in r <==> "sync" in m)
            && (SYNC_PROCESS in r ==> r[SYNC_PROCESS] == Some(Signed(info.syncProcess)))
            && (TIME_STAMP in r ==> r[TIME_STAMP] == Some(Signed(info.timeStamp)))
  {
    SyncKeysAreEntries();
    SignedIsGood(info.syncProcess);
    SignedIsGood(info.timeStamp);
    hide IsSection, SectionOf, Signed, Reads, RStrip, OneLine;
    assert "sync" in WithSync(m, info) <==> "sync" in m;
    assert SYNC_PROCESS in WithSync(m, info) && TIME_STAMP in WithSync(m, info);
    assert IsKept(WithSync(m, info), SYNC_PROCESS) <==> "sync" in m;
    assert IsKept(WithSync(m, info), TIME_STAMP) <==> "sync" in m;
  }

  // Reading after writing over a file that does not load, or none: the two integers come back.
  lemma ReadAfterFreshWrite(info: SyncInfo)
    ensures ReadSync(Some(FreshFile(info))) == Some(info)
  {
    FreshFileLoads(info);
    SyncKeysAreEntries();
    hide Load, FreshFile;
    ReadsWhatIsThere(SyncOnly(info), FreshFile(info), info);
  }

  // Reading after a dump with the two entries set: the two integers come back exactly when there was a [sync] section,
  // or both are zero.
  lemma ReadAfterDump(m: map<string, Cell>, info: SyncInfo, keys: seq<Cell>, vals: seq<Cell>, file': string)
    requires DumpOf(keys, vals, WithSync(m, info), file') && StorableSlots(keys, vals)
    ensures ReadSync(Some(file')) == Some(info) <==> "sync" in m || info == SyncInfo(0, 0)
    ensures ReadSync(Some(file')) == Some(if "sync" in m then info else SyncInfo(0, 0))
  {
    hide Load, Dump, Unique, Contents, StorableSlots, SectionNames, ReadSync, Reloaded, WithSync;
    RoundTrip(keys, vals);
    ReloadedSync(m, info);
    ReadsWhatIsThere(Reloaded(WithSync(m, info)), file', info);
  }

  lemma KeysOkWith(m: map<string, Cell>, info: SyncInfo)
    requires KeysOk(m)
    ensures KeysOk(WithSync(m, info))
  {
    SyncKeyNames();
    SyncKeysAreEntries();
    SyncNames();
    SignedIsGood(info.syncProcess);
    SignedIsGood(info.timeStamp);
    hide GoodName, GoodSection, IsSection, SectionOf, NameOf, OneLine, Signed, RStrip, Reads, HeadShape, HasSection;
    SyncSections(m, info);
    var w := WithSync(m, info);
    forall k | k in w ensures KeyOk(w, k) {
      if k != SYNC_PROCESS && k != TIME_STAMP {
        assert KeyOk(m, k);
      }
    }
  }

  lemma SyncSections(m: map<string, Cell>, info: SyncInfo)
    ensures HasSection(WithSync(m, info)) <==> HasSection(m)
  {
    SyncKeysAreEntries();
    hide IsSection, SectionOf, Signed;
    var w := WithSync(m, info);
    if HasSection(m) {
      var k :| k in m && IsSection(k);
      assert k in w;
    }
    if HasSection(w) {
      var k :| k in w && IsSection(k);
      assert k in m;
    }
  }

  // Reading after writing over a file that loads: the two integers come back exactly when the file had a [sync]
  // section, or both are zero.
  lemma ReadAfterWrite(file: string, info: SyncInfo, file': string)
    requires Load(file).Loaded? && PlainHeads(file) && LinesHold(WithSync(Load(file).entries, info))
    requires WrittenBy(Some(file), info, file')
    ensures ReadSync(Some(file')) == Some(info) <==> "sync" in Load(file).entries || info == SyncInfo(0, 0)
    ensures ReadSync(Some(file')) == Some(if "sync" in Load(file).entries then info else SyncInfo(0, 0))
  {
    hide Load, Dump, Unique, Contents, ReadSync, WithSync, KeysOk, LinesHold, StorableSlots, FreshFile, PlainHeads;
    var m := Load(file).entries;
    var keys, vals :| DumpOf(keys, vals, WithSync(m, info), file');
    LoadedKeys(file);
    KeysOkWith(m, info);
    HeldIsStorable(keys, vals);
    ReadAfterDump(m, info, keys, vals, file');
  }

  lemma RawSyncHolds(info: SyncInfo)
    ensures LinesHold(WithSync(map[], info))
  {
    RawSyncIsGood(info);
    SyncSections(map[], info);
    NothingHasSection();
    SyncKeysAreEntries();
    hide IsSection, SectionOf, Signed, HasSection, EntryText, OneLine, GoodName, RStrip;
  }

  lemma RawSyncIsGood(info: SyncInfo)
    ensures GoodRaw(Some(SYNC_PROCESS), Some(Signed(info.syncProcess)))
    ensures GoodRaw(Some(TIME_STAMP), Some(Signed(info.timeStamp)))
  {
    hide GoodPair, GoodName, OneLine, RStrip, EntryText, Reads;
    SyncKeyNames();
    SignedIsGood(info.syncProcess);
    SignedIsGood(info.timeStamp);
    NumberFits(info.syncProcess);
    NumberFits(info.timeStamp);
    ShortEntry(SYNC_PROCESS, Signed(info.syncProcess));
    ShortEntry(TIME_STAMP, Signed(info.timeStamp));
  }

  lemma NothingHasSection()
    ensures !HasSection(map[])
  {
  }

  lemma EmptyFileLoads()
    ensures Load("") == Loaded(map[]) && PlainHeads("")
  {
    LoadEnd(Loading("", map[], false));
    hide LoadLines;
  }

  // The empty file loads, and what is written over it is not read back: the dump has no section to put it under.
  lemma EmptyFileForgets(info: SyncInfo, file': string)
    requires WrittenBy(Some(""), info, file')
    ensures Load("") == Loaded(map[]) && ReadSync(Some(file')) == Some(SyncInfo(0, 0))
  {
    hide *;
    EmptyFileLoads();
    RawSyncHolds(info);
    ReadAfterWrite("", info, file');
  }
}
