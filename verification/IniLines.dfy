// What iniparser_load makes of lines that a dump does not write: quotes, comments, continuations, errors.
module IniLines {
  import opened Wrappers
  import opened Dictionaries
  import opened IniText
  import opened IniRoundTrip

  // A name that starts no comment and no section.
  predicate PlainName(name: string) {
    name != "" && Stripped(name) && '=' !in name && name[0] != '#' && name[0] != '['
  }

  lemma EqualsLine(name: string, t: string, section: string)
    requires PlainName(name) && (t == "" || Stripped(t))
    ensures Line(name + "=" + t, section) == Entry(LowerAll(name), ValueOf(t))
  {
    var line := name + "=" + t;
    assert line == name + ['='] + t && Stripped(line) && line[0] == name[0];
    assert LStrip(t) == t by { StripKeeps(t); }
    hide LStrip, RStrip, Strip, UpTo, ValueOf;
    StripKeeps(line);
    StripKeeps(name);
    UpToStops(name, '=', t);
    LineIsEntry(line, line, name, section);
    assert line[|name| + 1..] == t;
  }

  // Quotes protect comment characters and blanks: a quoted value comes back stripped, and otherwise as it is.
  lemma QuotedValue(name: string, mark: char, v: string, section: string)
    requires PlainName(name) && (mark == '\"' || mark == '\'') && v != "" && mark !in v
    requires Strip(v) != "\"\"" && Strip(v) != "''"
    ensures Line(name + "=" + ([mark] + v + [mark]), section) == Entry(LowerAll(name), Strip(v))
  {
    var t := [mark] + v + [mark];
    assert t[1..] == v + [mark] + "";
    UpToStops(v, mark, "");
    assert Quoted(t, mark) == Some(v);
    assert mark == '\'' ==> Quoted(t, '\"') == None;
    assert ValueOf(t) == Strip(v) by { hide Strip, UpTo, UpToComment; }
    assert Stripped(t);
    hide ValueOf, Quoted;
    EqualsLine(name, t, section);
  }

  // Without quotes the value ends at the first comment character.
  lemma CommentedValue(name: string, v: string, c: char, comment: string, section: string)
    requires PlainName(name) && (c == ';' || c == '#') && v != "" && ';' !in v && '#' !in v
    requires v[0] != '\"' && v[0] != '\''
    requires Stripped(v + [c] + comment)
    ensures Line(name + "=" + (v + [c] + comment), section) == Entry(LowerAll(name), Strip(v))
  {
    var t := v + [c] + comment;
    EqualsLine(name, t, section);
    UpToComments(v, c, comment);
    assert t[0] == v[0] && Quoted(t, '\"') == None && Quoted(t, '\'') == None;
    StripFirst(v);
    hide Line, Strip, UpTo, UpToComment;
  }

  lemma StripFirst(v: string)
    requires v != "" && v[0] != '\"' && v[0] != '\'' && !IsSpace(v[0])
    ensures Strip(v) != "\"\"" && Strip(v) != "''"
  {
    assert LStrip(v) == v;
    var r := RStrip(v);
    assert r != "" ==> r[0] == v[0];
  }

  lemma UpToComments(v: string, c: char, comment: string)
    requires (c == ';' || c == '#') && ';' !in v && '#' !in v
    ensures UpToComment(v + [c] + comment) == v
  {
    var t := v + [c] + comment;
    if c == ';' {
      UpToStops(v, ';', comment);
      UpToStops(v, '#', "");
    } else {
      SemicolonLater(v, comment);
    }
  }

  lemma {:induction false} UpToPasses(a: string, c: char, rest: string)
    requires c !in a
    ensures UpTo(a + rest, c) == a + UpTo(rest, c)
  {
    if a == "" {
      assert a + rest == rest;
    } else {
      assert (a + rest)[0] == a[0] && (a + rest)[1..] == a[1..] + rest;
      assert a[0] in a && forall x | x in a[1..] :: x in a;
      UpToPasses(a[1..], c, rest);
    }
  }

  // A semicolon behind a # makes no difference.
  lemma SemicolonLater(v: string, comment: string)
    requires ';' !in v && '#' !in v
    ensures UpToComment(v + ['#'] + comment) == v
  {
    assert ';' !in v + ['#'];
    UpToPasses(v + ['#'], ';', comment);
    UpToStops(v, '#', UpTo(comment, ';'));
  }

  // An empty value, whatever comment follows.
  lemma EmptyValue(name: string, t: string, section: string)
    requires PlainName(name) && (t == "" || (Stripped(t) && (t[0] == ';' || t[0] == '#')))
    ensures Line(name + "=" + t, section) == Entry(LowerAll(name), "")
  {
    EqualsLine(name, t, section);
    if t != "" {
      assert Quoted(t, '\"') == None && Quoted(t, '\'') == None && UpToComment(t) == "";
    }
  }

  // A line without an equals sign, that is no comment and no section, does not parse; nor does one with nothing before
  // the equals sign.
  lemma ErrorLine(line: string, section: string)
    requires line != "" && Stripped(line) && line[0] != '#' && !(line[0] == '[' && line[|line| - 1] == ']')
    ensures Line(line, section) == Error <==> '=' !in line || line[0] == '='
  {
    StripKeeps(line);
    if '=' !in line {
      UpToStops(line, '=', "");
    } else {
      var key := UpTo(line, '=');
      assert key == line ==> '=' !in line;
    }
    hide Strip, LStrip, ValueOf;
  }

  // ---------- when a file loads ----------

  // How a file ends: after its last line, at a line that does not end within the buffer or has a NUL in it, or at one
  // that is nothing but a NUL for strlen.
  datatype Ending = Whole | Broken | Wild

  // A file as logical lines: cut at the newlines, stripped at the end, and joined where one ends with a backslash.
  datatype Logical = Logical(lines: seq<string>, ending: Ending)

  // The next line, with what is joined to it, ends within the buffer and has no NUL.
  predicate Ended(rest: string, pending: string) {
    var front := UpTo(rest, '\n');
    |front| < |rest| && |pending| + |front| + 1 < ASCIILINESZ && '\0' !in front
  }

  predicate NulFirst(rest: string, pending: string) {
    pending == "" && rest != "" && rest[0] == '\0'
  }

  function Split(rest: string, pending: string): Logical
    decreases |rest|
  {
    if rest == "" then Logical([], Whole)
    else if NulFirst(rest, pending) then Logical([], Wild)
    else if !Ended(rest, pending) then Logical([], Broken)
    else
      var front := UpTo(rest, '\n');
      var s := RStrip(pending + front);
      var after := rest[|front| + 1..];
      if s != "" && s[|s| - 1] == '\\' then Split(after, s[..|s| - 1])
      else
        var p := Split(after, "");
        Logical([s] + p.lines, p.ending)
  }

  // The lines taken one after the other; None where one overruns tmp.
  function TakeAll(lines: seq<string>, l: Loading): Option<Loading> {
    if lines == [] then Some(l)
    else
      var status := Line(lines[0], l.section);
      if TooWide(l.section, status) then None else TakeAll(lines[1..], TakeLine(l, status))
  }

  function Told(p: Logical, l: Loading): LoadOutcome {
    var l' := TakeAll(p.lines, l);
    if l'.None? || p.ending.Wild? then OutOfBounds
    else if p.ending.Whole? then LoadEnds(l'.value)
    else NoDictionary
  }

  // A line that does not end within the room is read without its newline.
  lemma {:induction false} FgetsShort(rest: string, room: nat)
    requires rest != "" && room > 1
    requires |UpTo(rest, '\n')| == |rest| || |UpTo(rest, '\n')| + 1 >= room
    ensures var got := Fgets(rest, room); got != "" && got[|got| - 1] != '\n'
    decreases room
  {
    var front := UpTo(rest, '\n');
    assert rest[0] == '\n' ==> front == "";
    if |rest| > 1 && room > 2 {
      FgetsShort(rest[1..], room - 1);
    }
  }

  // A newline is the last character fgets reads.
  lemma {:induction false} FgetsStops(rest: string, room: nat, i: nat)
    requires i + 1 < |Fgets(rest, room)|
    ensures Fgets(rest, room)[i] != '\n'
    decreases room
  {
    if i > 0 {
      FgetsStops(rest[1..], room - 1, i - 1);
    }
  }

  // The part of what fgets reads in front of a NUL.
  lemma FrontOfNul(rest: string, room: nat)
    requires '\0' in Fgets(rest, room)
    ensures rest != ""
    ensures var cut := UpTo(Fgets(rest, room), '\0');
            (cut == "" <==> rest[0] == '\0') && (cut != "" ==> cut[|cut| - 1] != '\n')
  {
    hide UpTo;
    var got := Fgets(rest, room);
    var cut := UpTo(got, '\0');
    assert |cut| < |got| && got[0] == rest[0];
    if cut != "" {
      FgetsStops(rest, room, |cut| - 1);
      assert cut[0] == got[0] && cut[0] in cut;
    }
  }

  // A line with a NUL in it seems to end there.
  lemma CutLine(rest: string, pending: string)
    requires |pending| + 2 < ASCIILINESZ && OneLine(pending) && '\0' in Fgets(rest, ASCIILINESZ - |pending|)
    ensures var line := UpTo(pending + Fgets(rest, ASCIILINESZ - |pending|), '\0');
            (line == "" <==> NulFirst(rest, pending)) && (line != "" ==> line[|line| - 1] != '\n')
  {
    hide Fgets, UpTo;
    var got := Fgets(rest, ASCIILINESZ - |pending|);
    UpToPasses(pending, '\0', got);
    FrontOfNul(rest, ASCIILINESZ - |pending|);
    if UpTo(got, '\0') == "" && pending != "" {
      assert pending[|pending| - 1] in pending;
    }
  }

  lemma CutTurn(rest: string, pending: string, l: Loading)
    requires rest != "" && |pending| + 2 < ASCIILINESZ && OneLine(pending)
    requires '\0' in Fgets(rest, ASCIILINESZ - |pending|)
    ensures LoadTurn(rest, pending, l) == if NulFirst(rest, pending) then Overrun else GiveUp
  {
    CutLine(rest, pending);
    hide Fgets, RStrip, Took, UpTo, NulFirst;
  }

  lemma OpenTurn(rest: string, pending: string, l: Loading)
    requires rest != "" && |pending| + 2 < ASCIILINESZ && '\0' !in pending
    requires var got := Fgets(rest, ASCIILINESZ - |pending|); '\0' !in got && got[|got| - 1] != '\n'
    ensures LoadTurn(rest, pending, l) == GiveUp
  {
    var got := Fgets(rest, ASCIILINESZ - |pending|);
    assert (pending + got)[|pending + got| - 1] == got[|got| - 1];
    UpToStops(pending + got, '\0', "");
    hide Fgets, RStrip, Took, UpTo;
  }

  lemma CutOrOpen(rest: string, pending: string)
    requires rest != "" && |pending| + 2 < ASCIILINESZ && !Ended(rest, pending)
    ensures var got := Fgets(rest, ASCIILINESZ - |pending|); '\0' in got || (got != "" && got[|got| - 1] != '\n')
  {
    hide Fgets, UpTo;
    var front := UpTo(rest, '\n');
    if |front| < |rest| && |pending| + |front| + 1 < ASCIILINESZ {
      var after := rest[|front| + 1..];
      assert rest == front + "\n" + after;
      FgetsLine(front, after, ASCIILINESZ - |pending|);
      assert '\0' in front + "\n";
    } else {
      FgetsShort(rest, ASCIILINESZ - |pending|);
    }
  }

  lemma BrokenTurn(rest: string, pending: string, l: Loading)
    requires rest != "" && |pending| + 2 < ASCIILINESZ && OneLine(pending) && !Ended(rest, pending)
    ensures LoadTurn(rest, pending, l) == if NulFirst(rest, pending) then Overrun else GiveUp
  {
    hide Fgets, LoadTurn, Ended;
    CutOrOpen(rest, pending);
    if '\0' in Fgets(rest, ASCIILINESZ - |pending|) {
      CutTurn(rest, pending, l);
    } else {
      FgetsStarts(rest, ASCIILINESZ - |pending|);
      OpenTurn(rest, pending, l);
    }
  }

  lemma FgetsStarts(rest: string, room: nat)
    requires rest != "" && room > 1
    ensures rest[0] in Fgets(rest, room)
  {
    assert Fgets(rest, room)[0] == rest[0];
  }

  lemma NulFirstBreaks(rest: string, pending: string)
    requires NulFirst(rest, pending)
    ensures !Ended(rest, pending)
  {
    assert UpTo(rest, '\n')[0] == '\0';
  }

  // A line that does, is joined to the next one or taken.
  lemma EndedTurn(rest: string, pending: string, l: Loading)
    requires |pending| + 2 < ASCIILINESZ && OneLine(pending) && Ended(rest, pending)
    ensures var front := UpTo(rest, '\n');
            var s, after := RStrip(pending + front), rest[|front| + 1..];
            && OneLine(s) && (s != "" ==> |s[..|s| - 1]| + 2 < ASCIILINESZ)
            && LoadTurn(rest, pending, l)
               == if s != "" && s[|s| - 1] == '\\' then GoOn(after, s[..|s| - 1], l) else Took(s, after, l)
  {
    hide Fgets, RStrip, Took, UpTo, LoadTurn;
    var front := UpTo(rest, '\n');
    var after := rest[|front| + 1..];
    assert rest == front + "\n" + after;
    FgetsLine(front, after, ASCIILINESZ - |pending|);
    var got := front + "\n";
    assert pending + got == (pending + front) + "\n" && rest[|got|..] == after;
    RStripSpaces(pending + front, "\n");
    WholeTurn(rest, pending, got, RStrip(pending + front), after, l);
  }

  lemma GivenUp(rest: string, pending: string, l: Loading)
    requires rest != "" && |pending| + 2 < ASCIILINESZ && !LoadTurn(rest, pending, l).GoOn?
    ensures LoadLines(rest, pending, l)
         == if LoadTurn(rest, pending, l).Overrun? then OutOfBounds else NoDictionary
  {
    hide LoadTurn;
  }

  lemma ToldFirst(s: string, after: string, p: Logical, l: Loading)
    ensures var first := Logical([s] + p.lines, p.ending);
            Told(first, l) == if Took(s, after, l).GoOn? then Told(p, Took(s, after, l).l) else OutOfBounds
  {
    hide Line, TakeLine, TooWide, LoadEnds;
    assert ([s] + p.lines)[1..] == p.lines;
  }

  lemma TookLoads(s: string, after: string, l: Loading)
    ensures LoadAfter(s, after, l)
         == if Took(s, after, l).GoOn? then LoadLines(after, "", Took(s, after, l).l) else OutOfBounds
  {
    hide Line, TakeLine, TooWide, LoadLines;
  }

  lemma SplitBroken(rest: string, pending: string)
    requires rest != "" && !Ended(rest, pending)
    ensures Split(rest, pending) == Logical([], if NulFirst(rest, pending) then Wild else Broken)
  {
    hide Ended, NulFirst;
  }

  lemma SplitEnded(rest: string, pending: string)
    requires Ended(rest, pending)
    ensures var front := UpTo(rest, '\n');
            var s, after := RStrip(pending + front), rest[|front| + 1..];
            Split(rest, pending) == if s != "" && s[|s| - 1] == '\\' then Split(after, s[..|s| - 1])
                                    else Logical([s] + Split(after, "").lines, Split(after, "").ending)
  {
    if NulFirst(rest, pending) {
      NulFirstBreaks(rest, pending);
    }
    hide UpTo, RStrip, NulFirst;
  }

  lemma NothingLeft(pending: string, l: Loading)
    requires |pending| + 2 < ASCIILINESZ
    ensures LoadLines("", pending, l) == Told(Split("", pending), l)
  {
  }

  // The load is what its logical lines tell: whole file, no overrun, and no error at the end.
  lemma {:induction false} LoadIsLines(rest: string, pending: string, l: Loading)
    requires |pending| + 2 < ASCIILINESZ && OneLine(pending)
    ensures LoadLines(rest, pending, l) == Told(Split(rest, pending), l)
    decreases |rest|, 0
  {
    hide *;
    if rest == "" {
      NothingLeft(pending, l);
    } else if !Ended(rest, pending) {
      BrokenTurn(rest, pending, l);
      GivenUp(rest, pending, l);
      SplitBroken(rest, pending);
      BrokenTells(l);
    } else {
      var front := UpTo(rest, '\n');
      EndedIsShorter(rest, pending);
      var s, after := RStrip(pending + front), rest[|front| + 1..];
      EndedTurn(rest, pending, l);
      SplitEnded(rest, pending);
      if s != "" && s[|s| - 1] == '\\' {
        TurnIsLoad(rest, pending, l);
        OneLineFront(s);
        LoadIsLines(after, s[..|s| - 1], l);
      } else {
        TookIsLoad(rest, pending, s, after, l);
        TookLoads(s, after, l);
        ToldFirst(s, after, Split(after, ""), l);
        LoadTaken(s, after, l);
      }
    }
  }

  lemma EndedIsShorter(rest: string, pending: string)
    requires Ended(rest, pending)
    ensures |UpTo(rest, '\n')| < |rest|
  {
  }

  lemma OneLineFront(s: string)
    requires OneLine(s) && s != ""
    ensures OneLine(s[..|s| - 1])
  {
  }

  // The step of the induction for a line that is taken.
  lemma {:induction false} LoadTaken(s: string, after: string, l: Loading)
    ensures Took(s, after, l).GoOn? ==>
              LoadLines(after, "", Took(s, after, l).l) == Told(Split(after, ""), Took(s, after, l).l)
    decreases |after|, 1
  {
    hide *;
    if Took(s, after, l).GoOn? {
      BlankIsStripped();
      LoadIsLines(after, "", Took(s, after, l).l);
    }
  }

  lemma BrokenTells(l: Loading)
    ensures Told(Logical([], Broken), l) == NoDictionary && Told(Logical([], Wild), l) == OutOfBounds
  {
  }

  // What kind of line it is does not depend on the section it stands in.
  predicate IsError(s: string) {
    Line(s, "").Error?
  }

  predicate IsIdle(s: string) {
    Line(s, "").Empty? || Line(s, "").Comment?
  }

  lemma KindOfLine(s: string, section: string)
    ensures Line(s, section).Error? <==> IsError(s)
    ensures Line(s, section).Empty? || Line(s, section).Comment? <==> IsIdle(s)
  {
  }

  // The last line that is not blank and no comment is an error.
  ghost predicate EndsInError(lines: seq<string>) {
    exists k | 0 <= k < |lines| :: IsError(lines[k]) && AllIdle(lines[k + 1..])
  }

  predicate AllIdle(lines: seq<string>) {
    forall j | 0 <= j < |lines| :: IsIdle(lines[j])
  }

  lemma EndsInErrorFirst(s: string, lines: seq<string>)
    ensures EndsInError([s] + lines) <==> EndsInError(lines) || (IsError(s) && AllIdle(lines))
  {
    hide IsError, IsIdle, AllIdle;
    var all := [s] + lines;
    if EndsInError(lines) {
      var k :| 0 <= k < |lines| && IsError(lines[k]) && AllIdle(lines[k + 1..]);
      assert all[k + 1] == lines[k] && all[k + 2..] == lines[k + 1..];
    }
    assert all[0] == s && all[1..] == lines;
    if EndsInError(all) {
      var k :| 0 <= k < |all| && IsError(all[k]) && AllIdle(all[k + 1..]);
      if k > 0 {
        assert lines[k - 1] == all[k] && lines[k..] == all[k + 1..];
      }
    }
  }

  lemma {:induction false} ErrorsLeft(lines: seq<string>, l: Loading)
    requires TakeAll(lines, l).Some?
    ensures TakeAll(lines, l).value.errs <==> EndsInError(lines) || (l.errs && AllIdle(lines))
    decreases |lines|
  {
    if lines != [] {
      var s, rest := lines[0], lines[1..];
      assert [s] + rest == lines;
      EndsInErrorFirst(s, rest);
      KindOfLine(s, l.section);
      assert AllIdle(lines) <==> IsIdle(s) && AllIdle(rest);
      hide Line, EndsInError, IsError, IsIdle, AllIdle, TooWide;
      ErrorsLeft(rest, TakeLine(l, Line(s, l.section)));
    }
  }

  function NextSection(s: string, section: string): string {
    if Line(s, section).Section? then Line(s, section).name else section
  }

  // The section in force after these lines.
  function SectionAfter(lines: seq<string>, section: string): string {
    if lines == [] then section else SectionAfter(lines[1..], NextSection(lines[0], section))
  }

  // The k-th line stores an entry whose section and key are too wide for tmp.
  predicate Overruns(lines: seq<string>, k: nat, section: string)
    requires k < |lines|
  {
    var s := SectionAfter(lines[..k], section);
    TooWide(s, Line(lines[k], s))
  }

  ghost predicate SomeOverrun(lines: seq<string>, section: string) {
    exists k | 0 <= k < |lines| :: Overruns(lines, k, section)
  }

  lemma OverrunFirst(s: string, lines: seq<string>, section: string)
    ensures SomeOverrun([s] + lines, section) <==>
              TooWide(section, Line(s, section)) || SomeOverrun(lines, NextSection(s, section))
  {
    hide Line, TooWide, NextSection;
    var next := NextSection(s, section);
    var all := [s] + lines;
    assert all[..0] == [] && Overruns(all, 0, section) == TooWide(section, Line(s, section));
    forall k | 0 <= k < |lines| ensures Overruns(all, k + 1, section) == Overruns(lines, k, next) {
      assert all[..k + 1] == [s] + lines[..k] && ([s] + lines[..k])[1..] == lines[..k];
    }
    if SomeOverrun(all, section) && !TooWide(section, Line(s, section)) {
      var k :| 0 <= k < |all| && Overruns(all, k, section);
      assert Overruns(all, (k - 1) + 1, section) == Overruns(lines, k - 1, next);
    }
    if SomeOverrun(lines, next) {
      var k :| 0 <= k < |lines| && Overruns(lines, k, next);
      assert Overruns(all, k + 1, section);
    }
  }

  lemma {:induction false} OverrunStops(lines: seq<string>, l: Loading)
    ensures TakeAll(lines, l).None? <==> SomeOverrun(lines, l.section)
    decreases |lines|
  {
    if lines != [] {
      var s, rest := lines[0], lines[1..];
      assert [s] + rest == lines;
      OverrunFirst(s, rest, l.section);
      hide Line, TooWide, SomeOverrun;
      if !TooWide(l.section, Line(s, l.section)) {
        OverrunStops(rest, TakeLine(l, Line(s, l.section)));
      }
    }
  }

  // The load stays inside its buffers exactly when no entry is too wide in its section, and it comes to no line with a
  // NUL in front.
  lemma StaysInBounds(file: string)
    ensures var p := Split(file, "");
            Load(file).OutOfBounds? <==> SomeOverrun(p.lines, "") || p.ending.Wild?
  {
    hide *;
    var l := Loading("", map[], false);
    LoadOf(file, l);
    OverrunStops(Split(file, "").lines, l);
    ToldBounds(Split(file, ""), l);
  }

  lemma LoadOf(file: string, l: Loading)
    requires l == Loading("", map[], false)
    ensures Load(file) == Told(Split(file, ""), l)
  {
    hide LoadLines, Split, Told;
    LoadIsLines(file, "", l);
  }

  lemma ToldBounds(p: Logical, l: Loading)
    ensures Told(p, l).OutOfBounds? <==> TakeAll(p.lines, l).None? || p.ending.Wild?
    ensures Told(p, l).Loaded? <==>
              TakeAll(p.lines, l).Some? && p.ending.Whole? && !TakeAll(p.lines, l).value.errs
    ensures Told(p, l).Loaded? ==> Told(p, l).entries == TakeAll(p.lines, l).value.entries
  {
    hide TakeAll;
  }

  // A file loads exactly when every line ends within the buffer and has no NUL, no entry is too wide, and the last line
  // that is not blank and no comment is no error.
  lemma LoadsIff(file: string)
    ensures var p := Split(file, "");
            Load(file).Loaded? <==> p.ending.Whole? && !SomeOverrun(p.lines, "") && !EndsInError(p.lines)
  {
    hide *;
    var p, l := Split(file, ""), Loading("", map[], false);
    LoadOf(file, l);
    OverrunStops(p.lines, l);
    ToldBounds(p, l);
    if TakeAll(p.lines, l).Some? {
      ErrorsLeft(p.lines, l);
    }
  }

  // The line of an error may as well not be there when a section or an entry follows anywhere behind it.
  lemma {:induction false} ErrorForgotten(before: seq<string>, s: string, after: seq<string>, j: nat, l: Loading)
    requires IsError(s) && j < |after| && !IsError(after[j]) && !IsIdle(after[j])
    ensures TakeAll(before + ([s] + after), l) == TakeAll(before + after, l)
    decreases |before|
  {
    hide *;
    if before == [] {
      assert before + ([s] + after) == [s] + after && before + after == after;
      TakeFirst(s, after, l);
      ErrorTaken(s, l);
      ErrorWashedOut(after, j, l);
    } else {
      var b, rest := before[0], before[1..];
      assert before + ([s] + after) == [b] + (rest + ([s] + after)) && before + after == [b] + (rest + after);
      TakeFirst(b, rest + ([s] + after), l);
      TakeFirst(b, rest + after, l);
      ErrorForgotten(rest, s, after, j, TakeLine(l, Line(b, l.section)));
    }
  }

  lemma TakeFirst(s: string, rest: seq<string>, l: Loading)
    ensures TakeAll([s] + rest, l)
         == if TooWide(l.section, Line(s, l.section)) then None else TakeAll(rest, TakeLine(l, Line(s, l.section)))
  {
    hide Line, TooWide, TakeLine;
    assert ([s] + rest)[1..] == rest;
  }

  lemma ErrorTaken(s: string, l: Loading)
    requires IsError(s)
    ensures !TooWide(l.section, Line(s, l.section)) && TakeLine(l, Line(s, l.section)) == l.(errs := true)
  {
    KindOfLine(s, l.section);
    hide Line, IsError;
  }

  lemma {:induction false} ErrorWashedOut(lines: seq<string>, j: nat, l: Loading)
    requires j < |lines| && !IsError(lines[j]) && !IsIdle(lines[j])
    ensures TakeAll(lines, l.(errs := true)) == TakeAll(lines, l)
    decreases |lines|
  {
    KindOfLine(lines[0], l.section);
    hide Line, IsError, IsIdle, TooWide;
    if j > 0 {
      ErrorWashedOut(lines[1..], j - 1, TakeLine(l, Line(lines[0], l.section)));
    }
  }

  // An error with nothing but blank lines and comments after it costs the whole file.
  lemma ErrorAtEnd(file: string, k: nat)
    requires var lines := Split(file, "").lines; k < |lines| && IsError(lines[k]) && AllIdle(lines[k + 1..])
    ensures !Load(file).Loaded?
  {
    hide Load, Split, IsError, AllIdle, SomeOverrun;
    LoadsIff(file);
  }

  // A section and an entry's name, each short enough for a line, that are too wide together.
  lemma WideEntryOverruns(s: string, name: string, v: string)
    requires GoodSection(s) && GoodPair(name, v) && |EntryText(name, "", v)| + 2 < ASCIILINESZ < |s| + 1 + |name|
    ensures Load("[" + s + "]" + "\n" + (EntryText(name, "", v) + "\n" + "")) == OutOfBounds
  {
    hide LoadLines, GoodSection, Line, Strip, RStrip, Reads, GoodPair, EntryText, OneLine;
    var body := EntryText(name, "", v);
    var l := Loading(s, map[][s := None], false);
    LoadSection(s, "\n", body + "\n" + "", Loading("", map[], false));
    PairHasName(name, v);
    PadIsClean(name, "", v);
    EntryStrips(name, "", v);
    LoadLine(body, "\n", "", l);
    TrailingBlanks(name, "", v, s);
  }

  // A file whose last line lacks its newline does not load at all.
  lemma NoNewlineAtEnd(file: string)
    requires file != "" && file[|file| - 1] != '\n'
    ensures !Load(file).Loaded?
  {
    hide *;
    OpenEnd(file, "");
    LoadsIff(file);
  }

  lemma {:induction false} OpenEnd(rest: string, pending: string)
    requires rest != "" && rest[|rest| - 1] != '\n'
    ensures !Split(rest, pending).ending.Whole?
    decreases |rest|
  {
    hide RStrip;
    var front := UpTo(rest, '\n');
    if Ended(rest, pending) {
      var s, after := RStrip(pending + front), rest[|front| + 1..];
      assert after != "" && after[|after| - 1] == rest[|rest| - 1];
      OpenEnd(after, if s != "" && s[|s| - 1] == '\\' then s[..|s| - 1] else "");
    }
  }

  // Nor does any file with a NUL in it.
  lemma NulNeverLoads(file: string)
    requires '\0' in file
    ensures !Load(file).Loaded?
  {
    hide *;
    NulInside(file, "");
    LoadsIff(file);
  }

  lemma {:induction false} NulInside(rest: string, pending: string)
    requires '\0' in rest
    ensures !Split(rest, pending).ending.Whole?
    decreases |rest|
  {
    hide RStrip, UpTo;
    if Ended(rest, pending) {
      var front := UpTo(rest, '\n');
      var s, after := RStrip(pending + front), rest[|front| + 1..];
      assert rest == front + ['\n'] + after;
      NulInside(after, if s != "" && s[|s| - 1] == '\\' then s[..|s| - 1] else "");
    }
  }

  // ---------- which line sets a key ----------

  // In this section the line stores under the key.
  predicate Stores(s: string, section: string, key: string) {
    match Line(s, section)
    case Section(name) => name == key
    case Entry(name, _) => section + ":" + name == key
    case _ => false
  }

  predicate Sets(lines: seq<string>, k: nat, section: string, key: string)
    requires k < |lines|
  {
    Stores(lines[k], SectionAfter(lines[..k], section), key)
  }

  ghost predicate NoneSets(lines: seq<string>, section: string, key: string) {
    forall k | 0 <= k < |lines| :: !Sets(lines, k, section, key)
  }

  predicate IsHeader(s: string) {
    Line(s, "").Section?
  }

  // The last line that sets the key is a section's.
  ghost predicate LastIsHeader(lines: seq<string>, section: string, key: string) {
    exists k | 0 <= k < |lines| ::
      Sets(lines, k, section, key) && IsHeader(lines[k]) && forall j | k < j < |lines| :: !Sets(lines, j, section, key)
  }

  lemma SetsLater(s: string, lines: seq<string>, section: string, key: string)
    ensures Sets([s] + lines, 0, section, key) <==> Stores(s, section, key)
    ensures forall k | 0 <= k < |lines| ::
              Sets([s] + lines, k + 1, section, key) <==> Sets(lines, k, NextSection(s, section), key)
  {
    hide Stores, NextSection;
    var all := [s] + lines;
    assert all[..0] == [];
    forall k | 0 <= k < |lines|
      ensures Sets(all, k + 1, section, key) <==> Sets(lines, k, NextSection(s, section), key)
    {
      assert all[..k + 1] == [s] + lines[..k] && ([s] + lines[..k])[1..] == lines[..k];
    }
  }

  lemma LastIsHeaderFirst(s: string, lines: seq<string>, section: string, key: string)
    ensures var next := NextSection(s, section);
            && (NoneSets([s] + lines, section, key) <==> !Stores(s, section, key) && NoneSets(lines, next, key))
            && (LastIsHeader([s] + lines, section, key) <==>
                  || LastIsHeader(lines, next, key)
                  || (Stores(s, section, key) && IsHeader(s) && NoneSets(lines, next, key)))
  {
    hide Stores, Sets, NextSection, IsHeader;
    SetsLater(s, lines, section, key);
    var all, next := [s] + lines, NextSection(s, section);
    forall k | 0 < k < |all| ensures Sets(all, k, section, key) <==> Sets(lines, k - 1, next, key) {
      assert Sets(all, (k - 1) + 1, section, key) <==> Sets(lines, k - 1, next, key);
    }
    if LastIsHeader(lines, next, key) {
      var k :| 0 <= k < |lines| && Sets(lines, k, next, key) && IsHeader(lines[k])
               && forall j | k < j < |lines| :: !Sets(lines, j, next, key);
      assert all[k + 1] == lines[k] && Sets(all, k + 1, section, key);
    }
    if Stores(s, section, key) && IsHeader(s) && NoneSets(lines, next, key) {
      assert Sets(all, 0, section, key) && all[0] == s;
    }
    if LastIsHeader(all, section, key) {
      var k :| 0 <= k < |all| && Sets(all, k, section, key) && IsHeader(all[k])
               && forall j | k < j < |all| :: !Sets(all, j, section, key);
      if k > 0 {
        assert lines[k - 1] == all[k];
        forall j | k - 1 < j < |lines| ensures !Sets(lines, j, next, key) {
          assert !Sets(all, j + 1, section, key);
        }
      } else {
        forall j | 0 <= j < |lines| ensures !Sets(lines, j, next, key) {
          assert !Sets(all, j + 1, section, key);
        }
      }
    }
    if NoneSets(all, section, key) {
      forall j | 0 <= j < |lines| ensures !Sets(lines, j, next, key) {
        assert !Sets(all, j + 1, section, key);
      }
    }
  }

  predicate IsNull(m: map<string, Cell>, key: string) {
    key in m && m[key] == None
  }

  lemma TakenOne(s: string, l: Loading, key: string)
    ensures var l' := TakeLine(l, Line(s, l.section));
            && l'.section == NextSection(s, l.section)
            && (IsNull(l'.entries, key) <==>
                  if Stores(s, l.section, key) then IsHeader(s) else IsNull(l.entries, key))
  {
    HeaderIs(s, l.section);
    hide Line, IsHeader;
  }

  lemma HeaderIs(s: string, section: string)
    ensures Line(s, section).Section? <==> IsHeader(s)
  {
  }

  // A key is left without a value exactly when the last line that sets it is a section's.
  lemma {:induction false} NullIsHeader(lines: seq<string>, l: Loading, key: string)
    requires TakeAll(lines, l).Some?
    ensures IsNull(TakeAll(lines, l).value.entries, key) <==>
              || LastIsHeader(lines, l.section, key)
              || (NoneSets(lines, l.section, key) && IsNull(l.entries, key))
    decreases |lines|
  {
    hide Line, NextSection, Stores, Sets, IsHeader, TooWide, IsNull;
    if lines != [] {
      var s, rest := lines[0], lines[1..];
      hide LastIsHeader, NoneSets;
      assert [s] + rest == lines;
      LastIsHeaderFirst(s, rest, l.section, key);
      TakenOne(s, l, key);
      NullIsHeader(rest, TakeLine(l, Line(s, l.section)), key);
    }
  }

  lemma LoadedNull(file: string, key: string)
    requires Load(file).Loaded?
    ensures IsNull(Load(file).entries, key) <==> LastIsHeader(Split(file, "").lines, "", key)
  {
    hide *;
    var p, l := Split(file, ""), Loading("", map[], false);
    LoadOf(file, l);
    ToldBounds(p, l);
    NullIsHeader(p.lines, l, key);
    NothingNull(key);
  }

  lemma NothingNull(key: string)
    ensures !IsNull(map[], key)
  {
  }

  // A backslash at the end of a line joins it to the next one.
  lemma ContinuedLine(a: string, b: string, eol: string, more: string, l: Loading)
    requires OneLine(a) && OneLine(b) && (eol == "\n" || eol == "\r\n") && |a| + |b| + 6 < ASCIILINESZ
    requires !EndsIn(RStrip(a + b), '\\')
    ensures LoadLines(a + "\\" + eol + (b + eol + more), "", l) == LoadLines(a + b + eol + more, "", l)
  {
    hide *;
    FirstHalf(a, eol, b + eol + more, l);
    SecondHalf(a, b, eol, more, l);
    OneLineJoined(a, b);
    LoadLine(a + b, eol, more, l);
  }

  lemma OneLineJoined(a: string, b: string)
    requires OneLine(a) && OneLine(b)
    ensures OneLine(a + b)
  {
  }

  // A line and what fgets reads with it.
  lemma LineAndEnd(body: string, eol: string)
    requires OneLine(body) && (eol == "\n" || eol == "\r\n")
    ensures '\n' !in body + eol[..|eol| - 1] && '\0' !in body + eol
    ensures body + eol[..|eol| - 1] + "\n" == body + eol
    ensures RStrip(body + eol) == RStrip(body)
  {
    RStripSpaces(body, eol);
  }

  lemma FgetsBody(body: string, eol: string, more: string, room: nat)
    requires OneLine(body) && (eol == "\n" || eol == "\r\n") && |body| + 2 < room
    ensures Fgets(body + eol + more, room) == body + eol && (body + eol + more)[|body + eol|..] == more
  {
    hide *;
    LineAndEnd(body, eol);
    var front := eol[..|eol| - 1];
    assert body + eol + more == (body + front) + "\n" + more;
    FgetsLine(body + front, more, room);
  }

  lemma FirstHalf(a: string, eol: string, rest: string, l: Loading)
    requires OneLine(a) && (eol == "\n" || eol == "\r\n") && |a| + 5 < ASCIILINESZ
    ensures LoadLines(a + "\\" + eol + rest, "", l) == LoadLines(rest, a, l)
  {
    hide *;
    var first := a + "\\";
    OneLineBackslash();
    OneLineJoined(a, "\\");
    FgetsBody(first, eol, rest, ASCIILINESZ);
    LineAndEnd(first, eol);
    assert first[|first| - 1] == '\\' && first[..|first| - 1] == a;
    BackslashStays(a);
    assert "" + (first + eol) == first + eol;
    EndsInNewline(first, eol);
    EndsInBackslash(a);
    WholeTurn(first + eol + rest, "", first + eol, first, rest, l);
    TurnIsLoad(first + eol + rest, "", l);
  }

  lemma EndsInBackslash(a: string)
    ensures EndsIn(a + "\\", '\\')
  {
  }

  lemma OneLineBackslash()
    ensures OneLine("\\")
  {
  }

  lemma BackslashStays(a: string)
    ensures RStrip(a + "\\") == a + "\\"
  {
  }

  // A line read whole: joined to the next one, or taken.
  lemma WholeTurn(file: string, pending: string, got: string, s: string, rest: string, l: Loading)
    requires file != "" && |pending| + 2 < ASCIILINESZ && Fgets(file, ASCIILINESZ - |pending|) == got
    requires EndsIn(got, '\n') && file[|got|..] == rest && '\0' !in pending + got && RStrip(pending + got) == s
    ensures LoadTurn(file, pending, l) ==
              if EndsIn(s, '\\') then GoOn(rest, s[..|s| - 1], l) else Took(s, rest, l)
  {
    UpToStops(pending + got, '\0', "");
    hide Fgets, RStrip, Took, UpTo;
    assert (pending + got)[|pending + got| - 1] == got[|got| - 1];
  }

  lemma TurnIsLoad(rest: string, pending: string, l: Loading)
    requires rest != "" && |pending| + 2 < ASCIILINESZ && LoadTurn(rest, pending, l).GoOn?
    ensures var t := LoadTurn(rest, pending, l); LoadLines(rest, pending, l) == LoadLines(t.rest, t.pending, t.l)
  {
    hide LoadTurn;
  }

  lemma TookIsLoad(rest: string, pending: string, s: string, more: string, l: Loading)
    requires rest != "" && |pending| + 2 < ASCIILINESZ && LoadTurn(rest, pending, l) == Took(s, more, l)
    ensures LoadLines(rest, pending, l) == LoadAfter(s, more, l)
  {
    hide LoadTurn;
  }

  lemma SecondHalf(a: string, b: string, eol: string, more: string, l: Loading)
    requires OneLine(a) && OneLine(b) && (eol == "\n" || eol == "\r\n") && |a| + |b| + 6 < ASCIILINESZ
    requires !EndsIn(RStrip(a + b), '\\')
    ensures LoadLines(b + eol + more, a, l) == LoadAfter(RStrip(a + b), more, l)
  {
    hide *;
    FgetsBody(b, eol, more, ASCIILINESZ - |a|);
    OneLineJoined(a, b);
    LineAndEnd(a + b, eol);
    assert a + (b + eol) == a + b + eol;
    EndsInNewline(b, eol);
    WholeTurn(b + eol + more, a, b + eol, RStrip(a + b), more, l);
    TookIsLoad(b + eol + more, a, RStrip(a + b), more, l);
  }

  lemma EndsInNewline(b: string, eol: string)
    requires eol == "\n" || eol == "\r\n"
    ensures EndsIn(b + eol, '\n')
  {
  }
}
