// What ini/iniparser.c reads and writes, as functions of the text of a file.
module IniText {
  import opened Wrappers
  import opened Dictionaries

  // ---------- characters ----------

  predicate IsSpace(c: char) {
    c == ' ' || 9 as char <= c <= 13 as char
  }

  function Lower(c: char): char {
    if 'A' <= c <= 'Z' then (c as int + 32) as char else c
  }

  // strlwc
  function LowerAll(s: string): (r: string)
    ensures |r| == |s| && forall i | 0 <= i < |s| :: r[i] == Lower(s[i])
  {
    seq(|s|, i requires 0 <= i < |s| => Lower(s[i]))
  }

  function LStrip(s: string): (r: string)
    ensures |r| <= |s|
  {
    if s != [] && IsSpace(s[0]) then LStrip(s[1..]) else s
  }

  function RStrip(s: string): (r: string)
    ensures r <= s
  {
    if s != [] && IsSpace(s[|s| - 1]) then RStrip(s[..|s| - 1]) else s
  }

  // strstrip
  function Strip(s: string): string {
    RStrip(LStrip(s))
  }

  // The front of the text, up to the first c: what %[^c] reads.
  function UpTo(s: string, c: char): (r: string)
    ensures r <= s && c !in r && (|r| < |s| ==> s[|r|] == c)
  {
    if s == [] || s[0] == c then "" else [s[0]] + UpTo(s[1..], c)
  }

  // %[^;#]
  function UpToComment(s: string): (r: string)
    ensures r <= s
  {
    UpTo(UpTo(s, ';'), '#')
  }

  // ---------- a line ----------

  datatype Status = Empty | Comment | Section(name: string) | Entry(key: string, value: string) | Error

  // After a quotation mark, at least one character up to the next: \"%[^\"]\".
  function Quoted(t: string, mark: char): Option<string> {
    if t != "" && t[0] == mark && UpTo(t[1..], mark) != "" then Some(UpTo(t[1..], mark)) else None
  }

  // The text after "key = ": in double quotes, in single quotes, or up to a comment.  When all three formats fail, the
  // two for an empty value are tried, and the second takes any line with a key and an equals sign.
  function ValueOf(t: string): string {
    var v :=
      if Quoted(t, '\"').Some? then Quoted(t, '\"').value
      else if Quoted(t, '\'').Some? then Quoted(t, '\'').value
      else UpToComment(t);
    var w := Strip(v);
    if w == "\"\"" || w == "''" then "" else w
  }

  // iniparser_line; a section's brackets with nothing before the first ] leave the section as it was.
  function Line(input: string, section: string): Status {
    var line := Strip(input);
    if line == "" then Empty
    else if line[0] == '#' then Comment
    else if line[0] == '[' && line[|line| - 1] == ']' then
      var inner := UpTo(line[1..], ']');
      Section(LowerAll(Strip(if inner == "" then section else inner)))
    else
      var key := UpTo(line, '=');
      if key == "" || key == line then Error
      else Entry(LowerAll(Strip(key)), ValueOf(LStrip(line[|key| + 1..])))
  }

  // ---------- a file ----------

  const ASCIILINESZ: nat := 4096

  // fgets: at most room - 1 characters, up to and with a newline
  function Fgets(rest: string, room: nat): (got: string)
    ensures got <= rest && (rest != "" && room > 1 ==> got != "")
    ensures |got| < room || got == ""
    decreases room
  {
    if rest == "" || room <= 1 then ""
    else if rest[0] == '\n' then "\n"
    else [rest[0]] + Fgets(rest[1..], room - 1)
  }

  // What the loop of iniparser_load carries along; errs is set by a line that does not parse, and cleared by the next
  // section or entry.
  datatype Loading = Loading(section: string, entries: map<string, Cell>, errs: bool)

  function TakeLine(l: Loading, status: Status): Loading {
    match status
    case Empty => l
    case Comment => l
    case Section(name) => Loading(name, l.entries[name := None], false)
    case Entry(key, value) => Loading(l.section, l.entries[l.section + ":" + key := Some(value)], false)
    case Error => l.(errs := true)
  }

  // section:key is written to a buffer of ASCIILINESZ + 1 without a check.
  predicate TooWide(section: string, status: Status) {
    status.Entry? && |section| + 1 + |status.key| > ASCIILINESZ
  }

  // One turn of the loop of iniparser_load: what is left of the file, what a line ended by a backslash leaves in the
  // buffer, and what has been loaded.  The line is what strlen sees of the buffer.  The turn gives up on a line that
  // does not end in a newline; it leaves its buffers with a section and a key that are too wide for tmp together, and
  // with a line that is empty for strlen, whose last character is looked for in front of the buffer.
  datatype Turn = GiveUp | Overrun | GoOn(rest: string, pending: string, l: Loading)

  // A logical line is dealt with.
  function Took(s: string, after: string, l: Loading): Turn {
    var status := Line(s, l.section);
    if TooWide(l.section, status) then Overrun else GoOn(after, "", TakeLine(l, status))
  }

  function LoadTurn(rest: string, pending: string, l: Loading): (t: Turn)
    requires rest != "" && |pending| + 2 < ASCIILINESZ
    ensures t.GoOn? ==> |t.rest| < |rest| && |t.pending| + 2 < ASCIILINESZ
  {
    var got := Fgets(rest, ASCIILINESZ - |pending|);
    var after := rest[|got|..];
    var line := UpTo(pending + got, '\0');
    if line == "" then Overrun
    else if line[|line| - 1] != '\n' then GiveUp
    else
      var s := RStrip(line);
      assert s == RStrip(line[..|line| - 1]);
      if s != "" && s[|s| - 1] == '\\' then GoOn(after, s[..|s| - 1], l) else Took(s, after, l)
  }

  // NoDictionary where iniparser_load returns NULL: it gave up, or the last line that counts has an error.  OutOfBounds
  // where it writes past the end of tmp or reads in front of line, after which nothing can be said.
  datatype LoadOutcome = Loaded(entries: map<string, Cell>) | NoDictionary | OutOfBounds

  function LoadEnds(l: Loading): LoadOutcome {
    if l.errs then NoDictionary else Loaded(l.entries)
  }

  function LoadLines(rest: string, pending: string, l: Loading): LoadOutcome
    requires |pending| + 2 < ASCIILINESZ
    decreases |rest|
  {
    if rest == "" then LoadEnds(l)
    else
      match LoadTurn(rest, pending, l)
      case GiveUp => NoDictionary
      case Overrun => OutOfBounds
      case GoOn(rest', pending', l') => LoadLines(rest', pending', l')
  }

  // The rest of a load after a logical line.
  function LoadAfter(s: string, more: string, l: Loading): LoadOutcome {
    match Took(s, more, l)
    case Overrun => OutOfBounds
    case GoOn(more', _, l') => LoadLines(more', "", l')
    case GiveUp => NoDictionary
  }

  // iniparser_load
  function Load(file: string): LoadOutcome {
    LoadLines(file, "", Loading("", map[], false))
  }

  // ---------- dumping ----------

  function Spaces(n: int): (r: string)
    ensures |r| == (if n < 0 then 0 else n) && forall i | 0 <= i < |r| :: r[i] == ' '
  {
    seq(if n < 0 then 0 else n, _ => ' ')
  }

  // %-30s
  function Pad(name: string): string {
    name + Spaces(30 - |name|)
  }

  predicate IsSection(key: string) {
    ':' !in key
  }

  function Text(v: Cell): string {
    if v.Some? then v.value else ""
  }

  function SectionNames(keys: seq<Cell>): seq<string> {
    if keys == [] then []
    else (if keys[0].Some? && IsSection(keys[0].value) then [keys[0].value] else []) + SectionNames(keys[1..])
  }

  lemma {:induction false} SectionNamesAre(keys: seq<Cell>, k: string)
    ensures k in SectionNames(keys) <==> IsSection(k) && k in Keys(keys)
    ensures forall j | 0 <= j < |SectionNames(keys)| :: IsSection(SectionNames(keys)[j])
  {
    if keys != [] {
      SectionNamesAre(keys[1..], k);
      if k in Keys(keys[1..]) {
        var i :| 0 <= i < |keys| - 1 && keys[1..][i] == Some(k);
        assert keys[i + 1] == Some(k);
      }
      if k in Keys(keys) && keys[0] != Some(k) {
        var i :| 0 <= i < |keys| && keys[i] == Some(k);
        assert keys[1..][i - 1] == Some(k);
      }
    }
  }

  function EntryLine(name: string, value: string): string {
    Pad(name) + "=" + value
  }

  // What a slot adds to a section's lines.
  function SlotLine(key: Cell, val: Cell, section: string): string {
    if key.Some? && section + ":" <= key.value
    then EntryLine(key.value[|section| + 1..], Text(val)) + "\r\n" else ""
  }

  // The entry lines of one section, in slot order.
  function SectionLines(keys: seq<Cell>, vals: seq<Cell>, section: string): string
    requires |keys| == |vals|
  {
    if keys == [] then ""
    else SlotLine(keys[0], vals[0], section) + SectionLines(keys[1..], vals[1..], section)
  }

  // A blank line, the section's line and its entries.
  function SectionBlock(keys: seq<Cell>, vals: seq<Cell>, name: string): string
    requires |keys| == |vals|
  {
    "\r\n" + ("[" + name + "]\r\n" + SectionLines(keys, vals, name))
  }

  function DumpSections(keys: seq<Cell>, vals: seq<Cell>, names: seq<string>): string
    requires |keys| == |vals|
  {
    if names == [] then "" else SectionBlock(keys, vals, names[0]) + DumpSections(keys, vals, names[1..])
  }

  // fprintf of a NULL value
  function RawText(v: Cell): string {
    if v.Some? then v.value else "(null)"
  }

  function RawLine(key: Cell, val: Cell): string {
    if key.Some? then key.value + "=" + RawText(val) + "\r\n" else ""
  }

  function RawLines(keys: seq<Cell>, vals: seq<Cell>): string
    requires |keys| == |vals|
  {
    if keys == [] then ""
    else RawLine(keys[0], vals[0]) + RawLines(keys[1..], vals[1..])
  }

  // iniparser_dump_ini
  function Dump(keys: seq<Cell>, vals: seq<Cell>): string
    requires |keys| == |vals|
  {
    var names := SectionNames(keys);
    if names == [] then RawLines(keys, vals) else DumpSections(keys, vals, names) + "\r\n"
  }
}
