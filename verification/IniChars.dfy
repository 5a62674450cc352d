// Blanks and letters in an INI file: what is stripped, and that the case of names makes no difference.
module IniChars {
  import opened IniText
  import opened IniRoundTrip
  import opened IniLines

  // ---------- blanks ----------

  // Space, tab, newline, vertical tab, form feed, carriage return.
  predicate AllBlank(w: string) {
    forall i | 0 <= i < |w| :: w[i] as int in {32, 9, 10, 11, 12, 13}
  }

  lemma BlankIs(c: char)
    ensures IsSpace(c) <==> c as int in {32, 9, 10, 11, 12, 13}
  {
  }

  lemma {:induction false} LStripIs(s: string) returns (w: string)
    ensures AllBlank(w) && s == w + LStrip(s)
    ensures LStrip(s) == "" || LStrip(s)[0] as int !in {32, 9, 10, 11, 12, 13}
  {
    w := "";
    if s != "" {
      BlankIs(s[0]);
      if IsSpace(s[0]) {
        w := LStripIs(s[1..]);
        w := [s[0]] + w;
      }
    }
  }

  lemma {:induction false} RStripIs(s: string) returns (w: string)
    ensures AllBlank(w) && s == RStrip(s) + w
    ensures RStrip(s) == "" || RStrip(s)[|RStrip(s)| - 1] as int !in {32, 9, 10, 11, 12, 13}
  {
    w := "";
    if s != "" {
      BlankIs(s[|s| - 1]);
      if IsSpace(s[|s| - 1]) {
        w := RStripIs(s[..|s| - 1]);
        w := w + [s[|s| - 1]];
      }
    }
  }

  // Stripping takes blanks off both ends and nothing else, and leaves none there.
  lemma StripIs(s: string) returns (w: string, x: string)
    ensures AllBlank(w) && AllBlank(x) && s == w + Strip(s) + x
    ensures var t := Strip(s);
            t == "" || (t[0] as int !in {32, 9, 10, 11, 12, 13} && t[|t| - 1] as int !in {32, 9, 10, 11, 12, 13})
  {
    w := LStripIs(s);
    x := RStripIs(LStrip(s));
    hide LStrip, RStrip;
  }

  // ---------- letters ----------

  const CAPITALS: string := "ABCDEFGHIJKLMNOPQRSTUVWXYZ"
  const SMALL: string := "abcdefghijklmnopqrstuvwxyz"

  lemma CapitalAt(k: nat)
    requires k < 26
    ensures |CAPITALS| == |SMALL| == 26 && CAPITALS[k] as int == 65 + k && SMALL[k] as int == 97 + k
  {
  }

  // The k-th capital becomes the k-th small letter, every other character is kept, and no capital is left.
  lemma LowerIs(s: string, i: nat)
    requires i < |s|
    ensures !(65 <= LowerAll(s)[i] as int <= 90)
    ensures !(65 <= s[i] as int <= 90) ==> LowerAll(s)[i] == s[i]
    ensures forall k: nat | k < 26 && s[i] == CAPITALS[k] :: LowerAll(s)[i] == SMALL[k]
  {
    assert LowerAll(s)[i] == Lower(s[i]);
    forall k: nat | k < 26 && s[i] == CAPITALS[k] ensures Lower(s[i]) == SMALL[k] {
      CapitalAt(k);
    }
  }

  // The same character, or a capital and the small letter that goes with it.
  predicate SameLetter(c: char, d: char) {
    || c == d
    || (65 <= c as int <= 90 && d as int == c as int + 32)
    || (65 <= d as int <= 90 && c as int == d as int + 32)
  }

  predicate SameButCase(s: string, t: string) {
    |s| == |t| && forall i | 0 <= i < |s| :: SameLetter(s[i], t[i])
  }

  predicate NoLetter(c: char) {
    !(65 <= c as int <= 90) && !(97 <= c as int <= 122)
  }

  lemma SameLowered(s: string, t: string)
    requires SameButCase(s, t)
    ensures LowerAll(s) == LowerAll(t)
  {
    forall i | 0 <= i < |s| ensures LowerAll(s)[i] == LowerAll(t)[i] {
      assert SameLetter(s[i], t[i]) && LowerAll(s)[i] == Lower(s[i]) && LowerAll(t)[i] == Lower(t[i]);
    }
  }

  lemma SamePart(s: string, t: string, a: nat, b: nat)
    requires SameButCase(s, t) && a <= b <= |s|
    ensures SameButCase(s[a..b], t[a..b])
  {
  }

  lemma {:induction false} SameUpTo(s: string, t: string, c: char)
    requires SameButCase(s, t) && NoLetter(c)
    ensures |UpTo(s, c)| == |UpTo(t, c)| && SameButCase(UpTo(s, c), UpTo(t, c))
  {
    if s != "" {
      assert SameLetter(s[0], t[0]);
      SamePart(s, t, 1, |s|);
      SameUpTo(s[1..], t[1..], c);
    }
  }

  lemma {:induction false} SameLStrip(s: string, t: string)
    requires SameButCase(s, t)
    ensures SameButCase(LStrip(s), LStrip(t))
    ensures LStrip(s) == s[|s| - |LStrip(s)|..] && LStrip(t) == t[|t| - |LStrip(t)|..]
  {
    if s != "" && IsSpace(s[0]) {
      assert SameLetter(s[0], t[0]);
      SamePart(s, t, 1, |s|);
      SameLStrip(s[1..], t[1..]);
    } else if s != "" {
      assert SameLetter(s[0], t[0]);
    }
  }

  lemma {:induction false} SameRStrip(s: string, t: string)
    requires SameButCase(s, t)
    ensures SameButCase(RStrip(s), RStrip(t))
  {
    if s != "" {
      var n := |s| - 1;
      assert SameLetter(s[n], t[n]);
      SamePart(s, t, 0, n);
      SameRStrip(s[..n], t[..n]);
    }
  }

  lemma SameStrip(s: string, t: string)
    requires SameButCase(s, t)
    ensures SameButCase(Strip(s), Strip(t))
  {
    hide LStrip, RStrip, SameButCase;
    SameLStrip(s, t);
    SameRStrip(LStrip(s), LStrip(t));
  }

  // ---------- a line ----------

  // What stands behind the first equals sign, the sign included.
  function FromEquals(s: string): string {
    s[|UpTo(s, '=')|..]
  }

  // The two lines differ in the case of a section's name, or of what stands in front of the equals sign.
  ghost predicate SameLines(s: string, t: string) {
    SameButCase(s, t) && (IsHeader(s) || FromEquals(s) == FromEquals(t))
  }

  lemma {:induction false} UpToPrefix(s: string, c: char, n: nat)
    requires n <= |s|
    ensures UpTo(s[..n], c) == if |UpTo(s, c)| < n then UpTo(s, c) else s[..n]
  {
    if n > 0 && s[0] != c {
      UpToPrefix(s[1..], c, n - 1);
      assert s[..n][1..] == s[1..][..n - 1] && [s[0]] + s[1..][..n - 1] == s[..n];
    }
  }

  lemma {:induction false} FromLStrip(s: string)
    ensures FromEquals(LStrip(s)) == FromEquals(s)
  {
    if s != "" && IsSpace(s[0]) {
      FromLStrip(s[1..]);
      assert UpTo(s, '=') == [s[0]] + UpTo(s[1..], '=');
    }
  }

  lemma FromRStrip(s: string)
    ensures var n, k := |RStrip(s)|, |UpTo(s, '=')|;
            FromEquals(RStrip(s)) == if k < n then FromEquals(s)[..n - k] else ""
  {
    hide RStrip, UpTo;
    var n := |RStrip(s)|;
    assert RStrip(s) == s[..n];
    UpToPrefix(s, '=', n);
  }

  lemma SameEquals(s: string, t: string)
    requires SameButCase(s, t) && FromEquals(s) == FromEquals(t)
    ensures FromEquals(Strip(s)) == FromEquals(Strip(t))
  {
    hide LStrip, RStrip, UpTo, SameButCase, FromEquals;
    SameLStrip(s, t);
    FromLStrip(s);
    FromLStrip(t);
    SameRStrip(LStrip(s), LStrip(t));
    FromRStrip(LStrip(s));
    FromRStrip(LStrip(t));
    SameUpTo(LStrip(s), LStrip(t), '=');
    SameSize(RStrip(LStrip(s)), RStrip(LStrip(t)));
  }

  lemma SameSize(s: string, t: string)
    requires SameButCase(s, t)
    ensures |s| == |t|
  {
  }

  // The name between the brackets of a section's line.
  function Inner(line: string): string
    requires line != ""
  {
    UpTo(line[1..], ']')
  }

  lemma LineIs(s: string, section: string)
    ensures var line := Strip(s);
            Line(s, section) ==
              if line == "" then Empty
              else if line[0] == '#' then Comment
              else if line[0] == '[' && line[|line| - 1] == ']' then
                Section(LowerAll(Strip(if Inner(line) == "" then section else Inner(line))))
              else if UpTo(line, '=') == "" || UpTo(line, '=') == line then Error
              else Entry(LowerAll(Strip(UpTo(line, '='))), ValueOf(LStrip(FromEquals(line)[1..])))
  {
    var line := Strip(s);
    hide Strip, LStrip, ValueOf, LowerAll;
    if |UpTo(line, '=')| < |line| {
      assert FromEquals(line)[1..] == line[|UpTo(line, '=')| + 1..];
    }
    hide UpTo;
  }

  lemma SameEnds(s: string, t: string, i: nat, c: char)
    requires SameButCase(s, t) && i < |s| && NoLetter(c)
    ensures s[i] == c <==> t[i] == c
  {
    assert SameLetter(s[i], t[i]);
  }

  lemma SameInner(s: string, t: string)
    requires SameButCase(s, t) && s != ""
    ensures t != "" && SameButCase(Inner(s), Inner(t))
  {
    SamePart(s, t, 1, |s|);
    SameUpTo(s[1..], t[1..], ']');
    hide UpTo;
  }

  lemma SameKind(s: string, t: string)
    requires SameButCase(s, t)
    ensures s == "" <==> t == ""
    ensures s != "" ==> (s[0] == '#' <==> t[0] == '#') && (s[0] == '[' <==> t[0] == '[')
    ensures s != "" ==> (s[|s| - 1] == ']' <==> t[|t| - 1] == ']')
    ensures (UpTo(s, '=') == "" <==> UpTo(t, '=') == "") && (UpTo(s, '=') == s <==> UpTo(t, '=') == t)
  {
    if s != "" {
      SameEnds(s, t, 0, '#');
      SameEnds(s, t, 0, '[');
      SameEnds(s, t, |s| - 1, ']');
    }
    SameUpTo(s, t, '=');
    assert UpTo(s, '=') == s <==> |UpTo(s, '=')| == |s|;
    assert UpTo(t, '=') == t <==> |UpTo(t, '=')| == |t|;
  }

  lemma SameName(s: string, t: string)
    requires SameButCase(s, t)
    ensures LowerAll(Strip(s)) == LowerAll(Strip(t))
  {
    SameStrip(s, t);
    SameLowered(Strip(s), Strip(t));
    hide Strip, LowerAll;
  }

  lemma SameInnerName(s: string, t: string, section: string)
    requires SameButCase(s, t) && s != ""
    ensures t != ""
         && LowerAll(Strip(if Inner(s) == "" then section else Inner(s)))
            == LowerAll(Strip(if Inner(t) == "" then section else Inner(t)))
  {
    hide Strip, LowerAll, Inner;
    SameInner(s, t);
    SameName(Inner(s), Inner(t));
    assert |Inner(s)| == |Inner(t)|;
  }

  lemma HeaderLooks(s: string)
    ensures IsHeader(s) <==> Strip(s) != "" && Strip(s)[0] == '[' && Strip(s)[|Strip(s)| - 1] == ']'
  {
    LineIs(s, "");
    hide Line, Strip, UpTo, LowerAll, ValueOf, FromEquals, LStrip;
  }

  // Such lines are the same section, or the same entry, or both idle, or both in error.
  lemma SameLine(s: string, t: string, section: string)
    requires SameLines(s, t)
    ensures Line(s, section) == Line(t, section)
  {
    var a, b := Strip(s), Strip(t);
    hide Strip, UpTo, LowerAll, Line, ValueOf, LStrip, FromEquals, IsHeader, SameButCase, Inner;
    SameStrip(s, t);
    SameKind(a, b);
    LineIs(s, section);
    LineIs(t, section);
    HeaderLooks(s);
    if a != "" {
      SameInnerName(a, b, section);
      SameKeys(a, b);
      if FromEquals(s) == FromEquals(t) {
        SameEquals(s, t);
      }
    }
  }

  lemma SameKeys(s: string, t: string)
    requires SameButCase(s, t)
    ensures LowerAll(Strip(UpTo(s, '='))) == LowerAll(Strip(UpTo(t, '=')))
  {
    hide Strip, LowerAll, UpTo, SameButCase;
    SameUpTo(s, t, '=');
    SameName(UpTo(s, '='), UpTo(t, '='));
  }

  // ---------- a file ----------

  ghost predicate AllSame(ls: seq<string>, ms: seq<string>) {
    |ls| == |ms| && forall i | 0 <= i < |ls| :: SameButCase(ls[i], ms[i])
  }

  lemma SameStart(s: string, t: string, p: string, q: string)
    requires SameButCase(s, t) && SameButCase(p, q)
    ensures NulFirst(s, p) <==> NulFirst(t, q)
    ensures Ended(s, p) <==> Ended(t, q)
    ensures |UpTo(s, '\n')| == |UpTo(t, '\n')| && SameButCase(UpTo(s, '\n'), UpTo(t, '\n'))
  {
    SameUpTo(s, t, '\n');
    var a, b := UpTo(s, '\n'), UpTo(t, '\n');
    if s != "" {
      SameEnds(s, t, 0, '\0');
    }
    forall i | 0 <= i < |a| ensures a[i] == '\0' <==> b[i] == '\0' {
      SameEnds(a, b, i, '\0');
    }
    hide UpTo;
  }

  lemma SameJoined(s: string, t: string, p: string, q: string)
    requires SameButCase(s, t) && SameButCase(p, q)
    ensures SameButCase(p + s, q + t)
  {
  }

  lemma SameAfter(s: string, t: string, k: nat)
    requires SameButCase(s, t) && k <= |s|
    ensures k <= |t| && SameButCase(s[k..], t[k..]) && SameButCase(s[..k], t[..k])
  {
  }

  lemma SameFirst(s: string, t: string, ls: seq<string>, ms: seq<string>)
    requires SameButCase(s, t) && AllSame(ls, ms)
    ensures AllSame([s] + ls, [t] + ms)
  {
    hide SameButCase;
  }

  lemma SameBackslash(s: string, t: string)
    requires SameButCase(s, t)
    ensures s != "" && s[|s| - 1] == '\\' <==> t != "" && t[|t| - 1] == '\\'
  {
    if s != "" {
      SameEnds(s, t, |s| - 1, '\\');
    }
  }

  lemma NoLinesHere(rest: string, pending: string)
    requires rest == "" || !Ended(rest, pending)
    ensures Split(rest, pending)
         == Logical([], if rest == "" then Whole else if NulFirst(rest, pending) then Wild else Broken)
  {
    if rest != "" {
      SplitBroken(rest, pending);
    }
    hide Ended, NulFirst;
  }

  lemma {:induction false} SameSplit(s: string, t: string, p: string, q: string)
    requires SameButCase(s, t) && SameButCase(p, q)
    ensures AllSame(Split(s, p).lines, Split(t, q).lines) && Split(s, p).ending == Split(t, q).ending
    decreases |s|
  {
    hide *;
    SameSize(s, t);
    SameStart(s, t, p, q);
    if s == "" || !Ended(s, p) {
      NoLinesHere(s, p);
      NoLinesHere(t, q);
      NoneAreSame();
    } else {
      var a, b := UpTo(s, '\n'), UpTo(t, '\n');
      EndedIsShorter(s, p);
      SplitEnded(s, p);
      SplitEnded(t, q);
      SameJoined(a, b, p, q);
      SameRStrip(p + a, q + b);
      var u, v := RStrip(p + a), RStrip(q + b);
      SameSize(u, v);
      SameBackslash(u, v);
      SameAfter(s, t, |a| + 1);
      if u != "" && u[|u| - 1] == '\\' {
        SameAfter(u, v, |u| - 1);
        SameSplit(s[|a| + 1..], t[|b| + 1..], u[..|u| - 1], v[..|v| - 1]);
      } else {
        EmptyIsSame();
        SameSplit(s[|a| + 1..], t[|b| + 1..], "", "");
        SameFirst(u, v, Split(s[|a| + 1..], "").lines, Split(t[|b| + 1..], "").lines);
      }
    }
  }

  lemma NoneAreSame()
    ensures AllSame([], [])
  {
  }

  lemma EmptyIsSame()
    ensures SameButCase("", "")
  {
  }

  lemma {:induction false} SameTaken(ls: seq<string>, ms: seq<string>, l: Loading)
    requires |ls| == |ms| && forall i | 0 <= i < |ls| :: SameLines(ls[i], ms[i])
    ensures TakeAll(ls, l) == TakeAll(ms, l)
    decreases |ls|
  {
    hide Line, TakeLine, TooWide, SameLines;
    if ls != [] {
      SameLine(ls[0], ms[0], l.section);
      SameTaken(ls[1..], ms[1..], TakeLine(l, Line(ls[0], l.section)));
    }
  }

  // Two files that differ in the case of letters, and among their lines only in the names of sections and entries, load
  // to the same mapping, or both to none.
  lemma CaseOfNamesIsIrrelevant(file: string, file': string)
    requires SameButCase(file, file')
    requires var ls, ms := Split(file, "").lines, Split(file', "").lines;
             forall i | 0 <= i < |ls| && i < |ms| :: IsHeader(ls[i]) || FromEquals(ls[i]) == FromEquals(ms[i])
    ensures Load(file') == Load(file)
  {
    var l := Loading("", map[], false);
    hide Split, Load, IsHeader, FromEquals, SameButCase, TakeAll;
    EmptyIsSame();
    SameSplit(file, file', "", "");
    SameTaken(Split(file, "").lines, Split(file', "").lines, l);
    LoadOf(file, l);
    LoadOf(file', l);
    SameTold(Split(file, ""), Split(file', ""), l);
  }

  lemma SameTold(p: Logical, q: Logical, l: Loading)
    requires TakeAll(p.lines, l) == TakeAll(q.lines, l) && p.ending == q.ending
    ensures Told(p, l) == Told(q, l)
  {
    hide TakeAll;
  }
}
