// What parse_path does to any path, as laws between paths: each rewrites a path to one with the same canonical form,
// down to the paths that are left as they are.
module PathLaws {
  import opened ParsePaths

  lemma SlashesApart(a: string, b: string)
    ensures Slashes(a + b) == Slashes(a) + Slashes(b)
  {
  }

  lemma {:induction false} PartsApart(a: string, b: string)
    ensures Parts(a + "/" + b) == Parts(a) + Parts(b)
    decreases |a|
  {
    hide *;
    var c := First(a);
    if |c| == |a| {
      assert c == a;
      PartsOf(a, b);
      PartsLast(a);
    } else {
      var rest := a[|c| + 1..];
      assert a == c + "/" + rest;
      assert a + "/" + b == c + "/" + (rest + "/" + b);
      PartsOf(c, rest + "/" + b);
      PartsOf(c, rest);
      PartsApart(rest, b);
    }
  }

  lemma {:induction false} ResolveApart(p: seq<string>, q: seq<string>, stack: seq<string>)
    ensures Resolve(p + q, stack) == Resolve(q, Resolve(p, stack))
    decreases |p|
  {
    if p == [] {
      assert p + q == q;
    } else {
      assert (p + q)[0] == p[0] && (p + q)[1..] == p[1..] + q;
      ResolveApart(p[1..], q, if p[0] == ".." then Pop(stack) else stack + [p[0]]);
    }
  }

  // The parts a path comes down to.
  function Value(path: string): seq<string> {
    Resolve(Parts(Slashes(path)), [])
  }

  lemma ValueApart(a: string, b: string)
    ensures Value(a + "/" + b) == Resolve(Parts(Slashes(b)), Value(a))
  {
    hide Parts, Resolve;
    SlashesApart(a, "/" + b);
    SlashesApart("/", b);
    assert a + ("/" + b) == a + "/" + b && Slashes("/") == "/";
    assert Slashes(a + "/" + b) == Slashes(a) + "/" + Slashes(b);
    PartsApart(Slashes(a), Slashes(b));
    ResolveApart(Parts(Slashes(a)), Parts(Slashes(b)), []);
  }

  lemma NoParts()
    ensures Value("") == [] && Parts(Slashes("")) == []
  {
    assert Slashes("") == "";
    PartsLast("");
  }

  // Backslashes are slashes.
  lemma BackslashIsSlash(a: string, b: string)
    ensures Canonical(a + "\\" + b) == Canonical(a + "/" + b)
  {
    hide Parts, Resolve, Join, Trim;
    assert Slashes(a + "\\" + b) == Slashes(a + "/" + b);
  }

  // A slash before another, at the front or at the end makes no difference.
  lemma SpareSlashes(a: string, b: string)
    ensures Canonical(a + "//" + b) == Canonical(a + "/" + b)
    ensures Canonical("/" + b) == Canonical(b) && Canonical(a + "/") == Canonical(a)
  {
    hide Resolve, Parts, Slashes, Join, Trim;
    NoParts();
    ValueApart(a, b);
    ValueApart(a, "/" + b);
    ValueApart("", b);
    ValueApart(a, "");
    ResolveNone(Value(a));
    assert a + "/" + ("/" + b) == a + "//" + b && "" + "/" + b == "/" + b && a + "/" + "" == a + "/";
    assert Slashes("/" + b) == "/" + Slashes(b) by {
      SlashesApart("/", b);
      SlashIsSlash();
    }
    PartsOf("", Slashes(b));
    assert "" + "/" + Slashes(b) == "/" + Slashes(b) && [] + Parts(Slashes(b)) == Parts(Slashes(b));
  }

  lemma SlashIsSlash()
    ensures Slashes("/") == "/"
  {
  }

  lemma ResolveNone(stack: seq<string>)
    ensures Resolve([], stack) == stack
  {
  }

  // A name: what can stand between two slashes and is no way back.
  predicate Name(x: string) {
    x != "" && NoSlash(x) && NoBackslash(x) && x != ".."
  }

  lemma PartsOfName(x: string)
    requires NoSlash(x) && NoBackslash(x) && x != ""
    ensures Parts(Slashes(x)) == [x]
  {
    SlashesKeep(x);
    PartsLast(x);
  }

  // A name and the .. behind it cancel.
  lemma NameAndBack(a: string, x: string, b: string)
    requires Name(x)
    ensures Canonical(a + "/" + x + "/../" + b) == Canonical(a + "/" + b)
    ensures Canonical(a + "/" + x + "/..") == Canonical(a)
  {
    hide Resolve, Parts, Slashes, Join, Trim;
    PartsOfName(x);
    PartsOfName("..");
    var at := a + "/" + x;
    assert at + "/../" + b == at + "/" + ".." + "/" + b && at + "/.." == at + "/" + "..";
    ValueApart(at + "/" + "..", b);
    ValueApart(at, "..");
    ValueApart(a, x);
    ValueApart(a, b);
    PushAndPop(Value(a), x);
  }

  lemma PushAndPop(stack: seq<string>, x: string)
    requires x != ".."
    ensures Resolve([".."], Resolve([x], stack)) == stack
  {
    assert Resolve([x], stack) == stack + [x];
    assert Pop(stack + [x]) == stack;
  }

  // There is no way out of where a path begins.
  lemma NoWayOut(b: string)
    ensures Canonical("../" + b) == Canonical(b)
  {
    hide Resolve, Parts, Slashes, Join, Trim;
    assert "../" + b == ".." + "/" + b;
    ValueApart("..", b);
    PartsOfName("..");
    assert Resolve([".."], []) == [] by {
      PopNone();
    }
  }

  lemma PopNone()
    ensures Resolve([".."], []) == []
  {
  }

  lemma {:induction false} TrimsAway(s: string, t: string)
    requires s != "" && s[|s| - 1] !in {'/', '.', ' '} && forall i | 0 <= i < |t| :: t[i] == '.' || t[i] == ' '
    ensures Trim(s + t) == s
    decreases |t|
  {
    if t == "" {
      assert s + t == s;
    } else {
      assert (s + t)[..|s + t| - 1] == s + t[..|t| - 1];
      TrimsAway(s, t[..|t| - 1]);
    }
  }

  // Names with single slashes between them, the last one ending in neither a dot nor a space, are left as they are, but
  // for dots and spaces behind them.
  lemma NamesStay(names: seq<string>, t: string)
    requires names != [] && forall i | 0 <= i < |names| :: Name(names[i])
    requires var last := names[|names| - 1]; last != "" && last[|last| - 1] !in {'.', ' '}
    requires forall i | 0 <= i < |t| :: t[i] == '.' || t[i] == ' '
    ensures Canonical(Join(names) + t) == Join(names)
  {
    hide *;
    var front, last := Pop(names), names[|names| - 1];
    var all := front + [last + t];
    FrontNames(names, t);
    JoinIsDirs(names);
    JoinAppend(front, last + t);
    assert Dirs(front) + (last + t) == Dirs(front) + last + t;
    PartsOfJoin(all);
    JoinClean(all);
    SlashesKeep(Join(all));
    ProperResolvesToItself(all, []);
    assert [] + all == all;
    CanonicalOf(Join(names) + t, all);
    assert Join(names)[|Join(names)| - 1] == last[|last| - 1];
    LastOfName(last);
    TrimsAway(Join(names), t);
  }

  lemma CanonicalOf(path: string, all: seq<string>)
    requires Slashes(path) == path && Parts(path) == all && Resolve(all, []) == all
    ensures Canonical(path) == Trim(Join(all))
  {
  }

  lemma LastOfName(last: string)
    requires Name(last)
    ensures last[|last| - 1] != '/'
  {
  }

  lemma FrontNames(names: seq<string>, t: string)
    requires names != [] && forall i | 0 <= i < |names| :: Name(names[i])
    requires var last := names[|names| - 1]; last != "" && last[|last| - 1] !in {'.', ' '}
    requires forall i | 0 <= i < |t| :: t[i] == '.' || t[i] == ' '
    ensures var all := Pop(names) + [names[|names| - 1] + t]; Proper(all) && AllClean(all) && names[|names| - 1] != ""
    ensures Name(names[|names| - 1])
  {
    var last := names[|names| - 1];
    assert NoSlash(last + t) && NoBackslash(last + t);
    assert last <= last + t;
    var all := Pop(names) + [last + t];
    forall i | 0 <= i < |all|
      ensures all[i] != "" && NoSlash(all[i]) && all[i] != ".." && NoBackslash(all[i])
    {
      assert i < |names| - 1 ==> all[i] == names[i];
    }
  }

  // Nothing but dots and spaces comes to nothing.
  lemma DotsVanish(t: string)
    requires forall i | 0 <= i < |t| :: t[i] == '.' || t[i] == ' '
    ensures Canonical(t) == ""
  {
    hide Resolve, Parts, Slashes, Join, Trim;
    NoParts();
    if t == "" {
      TrimsToNothing("");
      assert Join([]) == "" by {
        JoinNone();
      }
    } else {
      PartsOfName(t);
      ResolveSingle(t);
      TrimsToNothing(if t == ".." then "" else t);
    }
  }

  lemma JoinNone()
    ensures Join([]) == ""
  {
  }

  lemma ResolveSingle(t: string)
    ensures Join(Resolve([t], [])) == if t == ".." then "" else t
  {
    assert [] + [t] == [t];
  }

  lemma {:induction false} TrimsToNothing(t: string)
    requires forall i | 0 <= i < |t| :: t[i] == '.' || t[i] == ' '
    ensures Trim(t) == ""
    decreases |t|
  {
    if t != "" {
      TrimsToNothing(t[..|t| - 1]);
    }
  }
}
