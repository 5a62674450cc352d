// parse_path of util/util.c, which rewrites a path in place, against the plain algorithm: split, drop, pop, join, trim.
module ParsePaths {

  predicate NoSlash(s: string) {
    forall i | 0 <= i < |s| :: s[i] != '/'
  }

  // ---------- the plain algorithm ----------

  // Backslashes become slashes.
  function Slashes(s: string): (r: string)
    ensures |r| == |s| && forall i | 0 <= i < |s| :: r[i] == if s[i] == '\\' then '/' else s[i]
  {
    seq(|s|, i requires 0 <= i < |s| => if s[i] == '\\' then '/' else s[i])
  }

  // The text up to the first slash.
  function First(s: string): (r: string)
    ensures r <= s && NoSlash(r) && (|r| < |s| ==> s[|r|] == '/')
  {
    if s == "" || s[0] == '/' then "" else [s[0]] + First(s[1..])
  }

  // The parts between slashes, without the empty ones.
  function Parts(s: string): seq<string>
    decreases |s|
  {
    var c := First(s);
    (if c == "" then [] else [c]) + (if |c| == |s| then [] else Parts(s[|c| + 1..]))
  }

  function Pop(stack: seq<string>): seq<string> {
    if stack == [] then [] else stack[..|stack| - 1]
  }

  // Each .. takes back the part before it.
  function Resolve(parts: seq<string>, stack: seq<string>): seq<string>
    decreases |parts|
  {
    if parts == [] then stack
    else Resolve(parts[1..], if parts[0] == ".." then Pop(stack) else stack + [parts[0]])
  }

  function Join(parts: seq<string>): string {
    if parts == [] then "" else if |parts| == 1 then parts[0] else parts[0] + "/" + Join(parts[1..])
  }

  predicate Trimmed(c: char) {
    c == '/' || c == '.' || c == ' '
  }

  function Trim(s: string): (r: string)
    ensures r <= s && (r != "" ==> !Trimmed(r[|r| - 1]))
  {
    if s != "" && Trimmed(s[|s| - 1]) then Trim(s[..|s| - 1]) else s
  }

  function Canonical(path: string): string {
    Trim(Join(Resolve(Parts(Slashes(path)), [])))
  }

  // ---------- parts and text ----------

  ghost predicate Proper(parts: seq<string>) {
    forall i | 0 <= i < |parts| :: parts[i] != "" && NoSlash(parts[i]) && parts[i] != ".."
  }

  // Each part with a slash after it.
  function Dirs(parts: seq<string>): string {
    if parts == [] then "" else parts[0] + "/" + Dirs(parts[1..])
  }

  lemma {:induction false} DirsAppend(parts: seq<string>, c: string)
    ensures Dirs(parts + [c]) == Dirs(parts) + (c + "/")
  {
    if parts == [] {
      assert parts + [c] == [c] && [c][1..] == [] && Dirs([]) == "";
      assert c + "/" + "" == "" + (c + "/");
    } else {
      assert (parts + [c])[0] == parts[0] && (parts + [c])[1..] == parts[1..] + [c];
      DirsAppend(parts[1..], c);
      assert parts[0] + "/" + (Dirs(parts[1..]) + (c + "/")) == parts[0] + "/" + Dirs(parts[1..]) + (c + "/");
    }
  }

  lemma {:induction false} DirsIsJoin(parts: seq<string>)
    requires parts != []
    ensures Dirs(parts) == Join(parts) + "/"
  {
    if |parts| == 1 {
      assert Dirs(parts[1..]) == "";
    } else {
      DirsIsJoin(parts[1..]);
      assert parts[0] + "/" + (Join(parts[1..]) + "/") == parts[0] + "/" + Join(parts[1..]) + "/";
    }
  }

  lemma TrimSlash(s: string)
    ensures Trim(s + "/") == Trim(s)
  {
    assert (s + "/")[..|s + "/"| - 1] == s;
  }

  lemma {:induction false} FirstOf(c: string, rest: string)
    requires NoSlash(c) && (rest == "" || rest[0] == '/')
    ensures First(c + rest) == c
  {
    if c == "" {
      assert c + rest == rest;
    } else {
      assert (c + rest)[1..] == c[1..] + rest;
      FirstOf(c[1..], rest);
      assert [c[0]] + c[1..] == c;
    }
  }

  lemma PartsOf(c: string, rest: string)
    requires NoSlash(c)
    ensures Parts(c + "/" + rest) == (if c == "" then [] else [c]) + Parts(rest)
  {
    var s := c + "/" + rest;
    assert s == c + ("/" + rest);
    FirstOf(c, "/" + rest);
    assert s[|c| + 1..] == rest;
  }

  lemma PartsLast(c: string)
    requires NoSlash(c)
    ensures Parts(c) == if c == "" then [] else [c]
  {
    assert c + "" == c;
    FirstOf(c, "");
  }

  // ---------- where the scan stands ----------

  function Rest(s: string, i: nat): string {
    if i <= |s| then s[i..] else ""
  }

  // What has been written stands for the parts on the stack and the beginning of one more; that one is not a .. by
  // itself, and what is still to be read completes it.
  ghost predicate Stands(s: string, i: nat, stack: seq<string>, part: string, out: string) {
    && out == Dirs(stack) + part && Proper(stack) && NoSlash(part)
    && (part == "" <==> i == 0 || i > |s| || s[i - 1] == '/')
    && (part != "" ==> First(part + Rest(s, i)) != "..")
    && Resolve(Parts(part + Rest(s, i)), stack) == Resolve(Parts(s), [])
  }

  lemma StandsFirst(s: string)
    ensures Stands(s, 0, [], "", "")
  {
    assert "" + s[0..] == s;
  }

  // The next part is .. by itself.
  predicate DotDot(s: string, i: nat) {
    i + 1 < |s| && s[i] == '.' && s[i + 1] == '.' && (i + 2 == |s| || s[i + 2] == '/')
  }

  lemma ResolveOne(c: string, rest: seq<string>, stack: seq<string>)
    ensures Resolve([c] + rest, stack) == Resolve(rest, if c == ".." then Pop(stack) else stack + [c])
  {
    assert ([c] + rest)[0] == c && ([c] + rest)[1..] == rest;
  }

  // A slash at the front or behind another is dropped; any other ends a part.
  lemma SlashSkipped(s: string, i: nat, stack: seq<string>, out: string)
    requires i < |s| && s[i] == '/' && Stands(s, i, stack, "", out)
    ensures Stands(s, i + 1, stack, "", out)
  {
    hide Parts, Resolve, First, Dirs, Proper;
    assert "" + s[i..] == "" + "/" + s[i + 1..];
    PartsOf("", s[i + 1..]);
    assert [] + Parts(s[i + 1..]) == Parts(s[i + 1..]) && "" + s[i + 1..] == s[i + 1..];
  }

  lemma SlashEnds(s: string, i: nat, stack: seq<string>, part: string, out: string)
    requires i < |s| && s[i] == '/' && part != "" && Stands(s, i, stack, part, out)
    ensures Stands(s, i + 1, stack + [part], "", out + "/")
  {
    hide Parts, Resolve, First, Dirs, Proper, NoSlash;
    var rest := s[i + 1..];
    assert part + s[i..] == part + ("/" + rest) == part + "/" + rest && "" + rest == rest;
    FirstOf(part, "/" + rest);
    ProperPush(stack, part);
    PartsOf(part, rest);
    ResolveOne(part, Parts(rest), stack);
    EndPart(stack, part);
  }

  lemma EndPart(stack: seq<string>, part: string)
    ensures Dirs(stack) + part + "/" == Dirs(stack + [part]) + "" && NoSlash("")
  {
    hide Dirs;
    DirsAppend(stack, part);
  }

  // How the scan tells: what has been written is empty or ends in a slash exactly between parts.
  lemma BetweenParts(s: string, i: nat, stack: seq<string>, part: string, out: string)
    requires Stands(s, i, stack, part, out)
    ensures part == "" <==> out == "" || out[|out| - 1] == '/'
  {
    EndsInSlash(stack);
    assert part == "" ==> out == Dirs(stack);
  }

  lemma EndsInSlash(stack: seq<string>)
    ensures stack == [] <==> Dirs(stack) == ""
    ensures stack != [] ==> Dirs(stack)[|Dirs(stack)| - 1] == '/'
  {
    if stack != [] {
      DirsIsJoin(stack);
    }
  }

  lemma CharStep(s: string, i: nat, stack: seq<string>, part: string, out: string)
    requires i < |s| && s[i] != '/' && Stands(s, i, stack, part, out) && (part == "" ==> !DotDot(s, i))
    ensures Stands(s, i + 1, stack, part + [s[i]], out + [s[i]])
  {
    hide Parts, Resolve, Dirs, Proper, First;
    assert part + s[i..] == part + [s[i]] + s[i + 1..];
    assert Dirs(stack) + part + [s[i]] == Dirs(stack) + (part + [s[i]]);
    if part == "" {
      NotDots(s, i);
      assert "" + [s[i]] + s[i + 1..] == s[i..];
    }
  }

  lemma FirstIsDots(t: string)
    ensures First(t) == ".." <==> |t| >= 2 && t[0] == '.' && t[1] == '.' && (|t| == 2 || t[2] == '/')
  {
    if |t| >= 2 {
      assert t[1..][0] == t[1] && t[1..][1..] == t[2..];
      assert |t| > 2 ==> t[2..][0] == t[2];
      assert First(t) == ".." ==> First(t)[0] == '.' && First(t)[1..] == ".";
    }
  }

  lemma NotDots(s: string, i: nat)
    requires i < |s| && !DotDot(s, i)
    ensures First(s[i..]) != ".."
  {
    FirstIsDots(s[i..]);
  }

  lemma DotDotStep(s: string, i: nat, stack: seq<string>, out: string)
    requires DotDot(s, i) && Stands(s, i, stack, "", out)
    ensures Stands(s, i + 3, Pop(stack), "", Dirs(Pop(stack)))
    ensures out == Dirs(stack)
  {
    hide Parts, Resolve, First, Dirs, Proper, Pop, DotDot;
    AfterDotDot(s, i);
    assert "" + s[i..] == s[i..] && Dirs(stack) + "" == Dirs(stack) && Dirs(Pop(stack)) + "" == Dirs(Pop(stack));
    var rest := Rest(s, i + 3);
    ProperPop(stack);
    DotDotParts(s, i);
    ResolveOne("..", Parts(rest), stack);
    assert "" + rest == rest;
  }

  lemma ProperPush(stack: seq<string>, part: string)
    requires Proper(stack) && part != "" && NoSlash(part) && part != ".."
    ensures Proper(stack + [part])
  {
  }

  lemma ProperPop(stack: seq<string>)
    requires Proper(stack)
    ensures Proper(Pop(stack))
  {
  }

  lemma AfterDotDot(s: string, i: nat)
    requires DotDot(s, i)
    ensures i + 1 < |s| && (i + 3 > |s| || s[i + 2] == '/')
  {
  }

  lemma DotDotParts(s: string, i: nat)
    requires DotDot(s, i)
    ensures i <= |s| && Parts(s[i..]) == [".."] + Parts(Rest(s, i + 3))
  {
    hide Parts;
    if i + 2 == |s| {
      assert s[i..] == "..";
      PartsLast("..");
      PartsLast("");
      assert [".."] + [] == [".."];
    } else {
      assert s[i..] == ".." + "/" + s[i + 3..];
      PartsOf("..", s[i + 3..]);
    }
  }

  // What the scan leaves is the joined parts, with a slash too many at most.
  lemma StandsLast(s: string, i: nat, stack: seq<string>, part: string, out: string)
    requires i >= |s| && Stands(s, i, stack, part, out)
    ensures Trim(out) == Trim(Join(Resolve(Parts(s), [])))
  {
    assert Rest(s, i) == "" && part + "" == part;
    PartsLast(part);
    if part == "" {
      assert Dirs(stack) + "" == Dirs(stack);
      if stack != [] {
        DirsIsJoin(stack);
        TrimSlash(Join(stack));
      }
    } else {
      var all := stack + [part];
      assert Resolve([part], stack) == all;
      DirsAppend(stack, part);
      DirsIsJoin(all);
      assert Dirs(all) == out + "/";
      assert Join(all) == Dirs(all)[..|Dirs(all)| - 1] == out;
    }
  }

  // ---------- in place ----------

  // The first loop.
  method ToSlashes(path: array<char>, len: nat)
    requires len < path.Length
    modifies path
    ensures path[..len] == Slashes(old(path[..len])) && path[len..] == old(path[len..])
  {
    for i := 0 to len
      invariant forall k | 0 <= k < i :: path[k] == if old(path[k]) == '\\' then '/' else old(path[k])
      invariant forall k | i <= k < path.Length :: path[k] == old(path[k])
    {
      if path[i] == '\\' {
        path[i] := '/';
      }
    }
  }

  // What the scan still looks at, from the last character it read on, is as it was: nothing is written past the read
  // index.
  ghost predicate Unread(path: array<char>, s: string, i: nat, j: nat)
    reads path
  {
    |s| < path.Length && j <= i && j <= |s| && forall k | 0 <= k < |s| && i <= k + 1 :: path[k] == s[k]
  }

  // Back over a slash, and then to the slash before it.
  method PopPart(path: array<char>, j0: nat, ghost stack: seq<string>) returns (j: nat)
    requires j0 <= path.Length && path[..j0] == Dirs(stack) && Proper(stack)
    ensures j <= j0 && path[..j] == Dirs(Pop(stack)) && (stack != [] ==> j < j0)
  {
    hide Dirs, Proper;
    j := j0;
    EndsInSlash(stack);
    if j > 0 {
      ghost var c := stack[|stack| - 1];
      ghost var front := Dirs(Pop(stack));
      LastDir(stack);
      assert path[j - 1] == path[..j][j - 1] == '/';
      if path[j - 1] == '/' {
        j := j - 1;
      }
      assert path[..j] == path[..j0][..j] == front + c;
      j := BackToSlash(path, j, front, c);
    }
  }

  lemma LastDir(stack: seq<string>)
    requires Proper(stack) && stack != []
    ensures var c := stack[|stack| - 1];
            Dirs(stack) == Dirs(Pop(stack)) + (c + "/") && NoSlash(c) && c != ""
    ensures var front := Dirs(Pop(stack)); front == "" || front[|front| - 1] == '/'
  {
    assert stack == Pop(stack) + [stack[|stack| - 1]];
    DirsAppend(Pop(stack), stack[|stack| - 1]);
    EndsInSlash(Pop(stack));
  }

  method BackToSlash(path: array<char>, j0: nat, ghost front: string, ghost c: string) returns (j: nat)
    requires j0 <= path.Length && path[..j0] == front + c && NoSlash(c) && (front == "" || front[|front| - 1] == '/')
    ensures j == |front| && path[..j] == front
  {
    ghost var text := path[..j0];
    forall k | |front| <= k < |text| ensures text[k] != '/' {
      assert text[k] == c[k - |front|];
    }
    assert front != "" ==> text[|front| - 1] == '/';
    j := j0;
    while j > 0 && path[j - 1] != '/'
      invariant |front| <= j <= |text|
    {
      assert path[j - 1] == text[j - 1];
      j := j - 1;
    }
    assert j > 0 ==> path[j - 1] == text[j - 1];
    assert path[..j] == text[..j] == front;
  }

  // The scan, in the one array it reads and writes.
  method Scan(path: array<char>, len: nat) returns (j: nat)
    requires len < path.Length
    modifies path
    ensures j <= len && Trim(path[..j]) == Trim(Join(Resolve(Parts(old(path[..len])), [])))
    ensures path[len..] == old(path[len..])
  {
    hide Stands, Parts, Resolve, Join, Trim, Dirs;
    ghost var s, tail := path[..len], path[len..];
    ghost var stack: seq<string>, part: string := [], "";
    var i: nat := 0;
    j := 0;
    StandsFirst(s);
    assert path[..0] == "";
    while i < len
      invariant Unread(path, s, i, j) && path[len..] == tail
      invariant Stands(s, i, stack, part, path[..j])
      decreases len - i
    {
      NewPart(path, s, i, j, stack, part);
      BetweenParts(s, i, stack, part, path[..j]);
      if (i == 0 || path[i - 1] == '/') && i + 1 < len && path[i] == '.' && path[i + 1] == '.'
         && (i + 2 == len || path[i + 2] == '/')
      {
        DotDotStep(s, i, stack, path[..j]);
        StackIsProper(s, i, stack, part, path[..j]);
        i := i + 2;
        j := PopPart(path, j, stack);
        stack := Pop(stack);
      } else if path[i] == '/' && (j == 0 || path[j - 1] == '/') {
        SlashSkipped(s, i, stack, path[..j]);
      } else {
        if path[i] == '/' {
          SlashEnds(s, i, stack, part, path[..j]);
          stack, part := stack + [part], "";
        } else {
          CharStep(s, i, stack, part, path[..j]);
          part := part + [s[i]];
        }
        j := Write(path, i, j, s);
      }
      i := i + 1;
    }
    StandsLast(s, i, stack, part, path[..j]);
  }

  // path[j++] = path[i]
  method Write(path: array<char>, i: nat, j0: nat, ghost s: string) returns (j: nat)
    requires i < |s| && Unread(path, s, i, j0)
    modifies path
    ensures j == j0 + 1 && Unread(path, s, i + 1, j) && path[..j] == old(path[..j0]) + [s[i]]
    ensures path[|s|..] == old(path[|s|..])
  {
    path[j0] := path[i];
    j := j0 + 1;
    assert path[..j0] == old(path[..j0]);
  }

  // The test before a .. looks at what was read, which a write has not changed.
  lemma NewPart(path: array<char>, s: string, i: nat, j: nat, stack: seq<string>, part: string)
    requires i < |s| && Unread(path, s, i, j) && Stands(s, i, stack, part, path[..j])
    ensures path[i] == s[i] && (i + 1 < |s| ==> path[i + 1] == s[i + 1]) && (i + 2 < |s| ==> path[i + 2] == s[i + 2])
    ensures i > 0 ==> path[i - 1] == s[i - 1]
    ensures part == "" <==> i == 0 || path[i - 1] == '/'
  {
  }

  lemma StackIsProper(s: string, i: nat, stack: seq<string>, part: string, out: string)
    requires Stands(s, i, stack, part, out)
    ensures Proper(stack)
  {
  }

  // parse_path: the path is rewritten to its canonical form and its new length returned.  The write index never passes
  // the read index, and what lies behind the path's terminator is not touched.
  method ParsePath(path: array<char>, len: nat) returns (j: nat)
    requires len < path.Length && path[len] == '\0'
    modifies path
    ensures j <= len && path[..j] == Canonical(old(path[..len])) && path[j] == '\0'
    ensures path[len + 1..] == old(path[len + 1..])
  {
    hide Parts, Resolve, Join, Trim;
    ghost var tail := path[len..];
    ToSlashes(path, len);
    j := Scan(path, len);
    j := TrimBack(path, j);
    path[j] := '\0';
    assert path[len + 1..] == tail[1..];
  }

  // The last loop.
  method TrimBack(path: array<char>, j0: nat) returns (j: nat)
    requires j0 <= path.Length
    ensures j <= j0 && path[..j] == Trim(path[..j0])
  {
    j := j0;
    ghost var out := path[..j];
    assert out[..j] == out;
    while j > 0 && (path[j - 1] == '/' || path[j - 1] == '.' || path[j - 1] == ' ')
      invariant j <= |out| && Trim(out[..j]) == Trim(out)
    {
      assert out[..j][..j - 1] == out[..j - 1] && out[..j][j - 1] == path[j - 1];
      j := j - 1;
    }
    assert j > 0 ==> out[..j][j - 1] == path[j - 1];
    assert path[..j] == out[..j];
  }

  // ---------- what the canonical form is ----------

  lemma {:induction false} PartsAreParts(s: string)
    ensures forall i | 0 <= i < |Parts(s)| :: Parts(s)[i] != "" && NoSlash(Parts(s)[i])
    decreases |s|
  {
    var c := First(s);
    if |c| < |s| {
      PartsAreParts(s[|c| + 1..]);
    }
  }

  lemma {:induction false} ResolvedIsProper(parts: seq<string>, stack: seq<string>)
    requires Proper(stack) && forall i | 0 <= i < |parts| :: parts[i] != "" && NoSlash(parts[i])
    ensures Proper(Resolve(parts, stack))
    decreases |parts|
  {
    if parts != [] {
      ResolvedIsProper(parts[1..], if parts[0] == ".." then Pop(stack) else stack + [parts[0]]);
    }
  }

  lemma {:induction false} PartsOfJoin(parts: seq<string>)
    requires Proper(parts)
    ensures Parts(Join(parts)) == parts
  {
    if parts == [] {
      PartsLast("");
    } else if |parts| == 1 {
      PartsLast(parts[0]);
    } else {
      PartsOf(parts[0], Join(parts[1..]));
      assert Proper(parts[1..]);
      PartsOfJoin(parts[1..]);
    }
  }

  lemma {:induction false} ProperResolvesToItself(parts: seq<string>, stack: seq<string>)
    requires Proper(parts)
    ensures Resolve(parts, stack) == stack + parts
    decreases |parts|
  {
    if parts != [] {
      assert Proper(parts[1..]);
      ProperResolvesToItself(parts[1..], stack + [parts[0]]);
      assert stack + [parts[0]] + parts[1..] == stack + parts;
    }
  }

  lemma {:induction false} TrimTail(a: string, c: string)
    ensures Trim(a + c) == if Trim(c) == "" then Trim(a) else a + Trim(c)
    decreases |c|
  {
    if c == "" {
      assert a + c == a;
    } else if Trimmed(c[|c| - 1]) {
      assert (a + c)[..|a + c| - 1] == a + c[..|c| - 1];
      TrimTail(a, c[..|c| - 1]);
    }
  }

  lemma JoinAppend(front: seq<string>, c: string)
    ensures Join(front + [c]) == Dirs(front) + c
  {
    hide *;
    DirsAppend(front, c);
    DirsIsJoin(front + [c]);
    SameBeforeSlash(Join(front + [c]), Dirs(front), c);
  }

  lemma PopLast(parts: seq<string>)
    requires parts != []
    ensures Pop(parts) + [parts[|parts| - 1]] == parts
  {
  }

  lemma JoinIsDirs(parts: seq<string>)
    requires parts != []
    ensures Join(parts) == Dirs(Pop(parts)) + parts[|parts| - 1]
  {
    hide *;
    PopLast(parts);
    JoinAppend(Pop(parts), parts[|parts| - 1]);
  }

  lemma SameBeforeSlash(s: string, a: string, c: string)
    requires s + "/" == a + (c + "/")
    ensures s == a + c
  {
    assert s == (s + "/")[..|s|];
  }

  // The parts that are left when the end is trimmed: the last one loses its dots and spaces, and goes if nothing is
  // left.
  function TrimParts(parts: seq<string>): seq<string>
    decreases |parts|
  {
    if parts == [] then []
    else if Trim(parts[|parts| - 1]) == "" then TrimParts(Pop(parts))
    else Pop(parts) + [Trim(parts[|parts| - 1])]
  }

  lemma {:induction false} TrimOfJoin(parts: seq<string>)
    requires Proper(parts)
    ensures Trim(Join(parts)) == Join(TrimParts(parts)) && Proper(TrimParts(parts))
    decreases |parts|
  {
    if parts != [] {
      var c, front := parts[|parts| - 1], Pop(parts);
      JoinIsDirs(parts);
      TrimTail(Dirs(front), c);
      ProperPop(parts);
      if Trim(c) == "" {
        if front != [] {
          DirsIsJoin(front);
          TrimSlash(Join(front));
        }
        TrimOfJoin(front);
      } else {
        ProperPush(front, Trim(c));
        JoinIsDirs(front + [Trim(c)]);
        assert Pop(front + [Trim(c)]) == front;
      }
    }
  }

  predicate NoBackslash(s: string) {
    forall i | 0 <= i < |s| :: s[i] != '\\'
  }

  ghost predicate AllClean(parts: seq<string>) {
    forall i | 0 <= i < |parts| :: NoBackslash(parts[i])
  }

  lemma {:induction false} PartsClean(s: string)
    requires NoBackslash(s)
    ensures AllClean(Parts(s))
    decreases |s|
  {
    var c := First(s);
    if |c| < |s| {
      PartsClean(s[|c| + 1..]);
    }
  }

  lemma {:induction false} ResolveClean(parts: seq<string>, stack: seq<string>)
    requires AllClean(parts) && AllClean(stack)
    ensures AllClean(Resolve(parts, stack))
    decreases |parts|
  {
    if parts != [] {
      ResolveClean(parts[1..], if parts[0] == ".." then Pop(stack) else stack + [parts[0]]);
    }
  }

  lemma {:induction false} JoinClean(parts: seq<string>)
    requires AllClean(parts)
    ensures NoBackslash(Join(parts))
  {
    if |parts| > 1 {
      assert AllClean(parts[1..]);
      JoinClean(parts[1..]);
    }
  }

  // A canonical path is its parts joined: no empty part, none that is .., no slash at either end, and no dot or space
  // at the end.
  lemma CanonicalIsProper(path: string)
    ensures var t := Canonical(path);
            && Proper(Parts(t)) && Join(Parts(t)) == t && NoBackslash(t)
            && (t != "" ==> t[0] != '/' && t[|t| - 1] !in {'/', '.', ' '})
  {
    var s := Slashes(path);
    var parts := Resolve(Parts(s), []);
    PartsAreParts(s);
    ResolvedIsProper(Parts(s), []);
    TrimOfJoin(parts);
    PartsOfJoin(TrimParts(parts));
    assert NoBackslash(s);
    PartsClean(s);
    ResolveClean(Parts(s), []);
    JoinClean(parts);
    JoinFirst(TrimParts(parts));
  }

  lemma JoinFirst(parts: seq<string>)
    requires Proper(parts)
    ensures Join(parts) != "" ==> Join(parts)[0] != '/'
  {
    if parts != [] {
      assert Join(parts)[0] == parts[0][0];
    }
  }

  // Parsing a path a second time changes nothing.
  lemma Idempotent(path: string)
    ensures Canonical(Canonical(path)) == Canonical(path)
  {
    hide Parts, Join, Trim, Proper, Resolve, NoBackslash;
    var t := Canonical(path);
    CanonicalIsProper(path);
    SlashesKeep(t);
    ProperResolvesToItself(Parts(t), []);
    assert [] + Parts(t) == Parts(t);
    TrimTwice(Join(Resolve(Parts(Slashes(path)), [])));
  }

  lemma SlashesKeep(s: string)
    requires NoBackslash(s)
    ensures Slashes(s) == s
  {
  }

  lemma {:induction false} TrimTwice(s: string)
    ensures Trim(Trim(s)) == Trim(s)
  {
  }
}
