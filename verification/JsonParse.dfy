// The parser of json/cJSON.c as loops.  A pointer into the text is the string it points at.
module JsonParse {
  import Spec = JsonText
  import opened CStrings
  import opened JsonText
  import opened JsonPrint
  import opened JsonStrings

  method SkipSpace(s: string) returns (r: string)
    ensures r == Skip(s)
  {
    r := s;
    while At(r, 0) != '\0' && At(r, 0) <= ' '
      invariant Skip(r) == Skip(s)
      decreases |r|
    {
      r := r[1..];
    }
  }

  method ReadDigits(s: string, start: nat) returns (n: nat, rest: string)
    ensures (n, rest) == Digits(s, start)
  {
    n, rest := start, s;
    while IsDigit(At(rest, 0))
      invariant Digits(rest, n) == Digits(s, start)
      decreases |rest|
    {
      n, rest := n * 10 + DigitValue(rest[0]), rest[1..];
    }
  }

  method ParseNumber(s: string) returns (r: Parsed<Value>)
    ensures r == Spec.ParseNumber(s)
  {
    var num, negative, n := s, false, 0;
    if At(num, 0) == '-' {
      negative, num := true, num[1..];
    }
    if At(num, 0) == '0' {
      num := num[1..];
    }
    if '1' <= At(num, 0) <= '9' {
      n, num := ReadDigits(num, 0);
    }
    var m := Negated(negative, n);
    if (At(num, 0) == '.' && IsDigit(At(num, 1))) || At(num, 0) == 'e' || At(num, 0) == 'E' {
      r := NotModelled;
    } else if -0x8000_0000 <= m < 0x8000_0000 {
      r := Ok(Number(m), num);
    } else {
      r := NotModelled;
    }
  }

  method MeasureString(s: string) returns (len: nat)
    requires WholeEscapes(s)
    ensures len == Measure(s).0
  {
    var ptr := s;
    len := 0;
    while At(ptr, 0) != '\"' && At(ptr, 0) != '\0'
      invariant WholeEscapes(ptr) && len + Measure(ptr).0 == Measure(s).0
      decreases |ptr|
    {
      len := len + 1;
      if ptr[0] == '\\' {
        ptr := ptr[2..];
      } else {
        ptr := ptr[1..];
      }
    }
  }

  lemma PrependTwice(a: string, b: string, r: Parsed<string>)
    ensures Prepend(a, Prepend(b, r)) == Prepend(a + b, r)
  {
    if r.Ok? {
      assert a + (b + r.value) == a + b + r.value;
    }
  }

  // One turn of the copying loop: a byte, or what an escape stands for.
  method CopyOne(out: array<char>, k: nat, ptr: string) returns (k': nat, ptr': string)
    requires At(ptr, 0) != '\0' && At(ptr, 0) != '\"' && WholeEscapes(ptr) && k + Measure(ptr).0 < out.Length
    modifies out
    ensures WholeEscapes(ptr') && |ptr'| < |ptr| && k <= k' && k' + Measure(ptr').0 < out.Length
    ensures k' + Measure(ptr').0 <= k + Measure(ptr).0
    ensures Prepend(out[..k'], Unescape(ptr')) == Prepend(old(out[..k]), Unescape(ptr))
  {
    hide Unescape1, Prepend;
    if ptr[0] != '\\' {
      k' := Put(out, k, [ptr[0]]);
      ptr' := ptr[1..];
      PrependTwice(old(out[..k]), [ptr[0]], Unescape(ptr'));
    } else {
      EscapeFits(ptr);
      var e := Unescape1(ptr[1..]);
      k' := Put(out, k, e.value);
      ptr' := e.rest;
      PrependTwice(old(out[..k]), e.value, Unescape(ptr'));
    }
  }

  // Allocates what the first loop counted; the second loop stays inside it.
  method ParseString(s: string) returns (r: Parsed<string>)
    ensures r == Spec.ParseString(s)
  {
    if At(s, 0) != '\"' {
      return Failed;
    }
    if !WholeEscapes(s[1..]) {
      return NotModelled;
    }
    var len := MeasureString(s[1..]);
    var out := new char[len + 1];
    var ptr, k: nat := s[1..], 0;
    PrependNothing(Unescape(ptr));
    assert out[..0] == "";
    while At(ptr, 0) != '\"' && At(ptr, 0) != '\0'
      invariant WholeEscapes(ptr) && k + Measure(ptr).0 < out.Length
      invariant Prepend(out[..k], Unescape(ptr)) == Unescape(s[1..])
      decreases |ptr|
    {
      k, ptr := CopyOne(out, k, ptr);
    }
    assert out[..k] + "" == out[..k];
    if At(ptr, 0) == '\"' {
      ptr := ptr[1..];
    }
    r := Ok(out[..k], ptr);
    out[k] := '\0';
  }

  lemma PrependNothing(r: Parsed<string>)
    ensures Prepend("", r) == r
  {
    assert r.Ok? ==> "" + r.value == r.value;
  }

  method ParseValue(s: string) returns (r: Parsed<Value>)
    ensures r == Spec.ParseValue(s)
    decreases |s|, 2
  {
    if Starts(s, "null") {
      r := Ok(Null, s[4..]);
    } else if Starts(s, "false") {
      r := Ok(False, s[5..]);
    } else if Starts(s, "true") {
      r := Ok(True, s[4..]);
    } else if At(s, 0) == '\"' {
      var t := ParseString(s);
      r := if t.Ok? then Ok(Text(t.value), t.rest) else if t.Failed? then Failed else NotModelled;
    } else if At(s, 0) == '-' || IsDigit(At(s, 0)) {
      r := ParseNumber(s);
    } else if At(s, 0) == '[' {
      r := ParseArray(s);
    } else if At(s, 0) == '{' {
      r := ParseObject(s);
    } else {
      r := Failed;
    }
  }

  // The chain of items whose first values these are.
  function Chain(values: seq<Value>, rest: Items): Items {
    if values == [] then rest else Item(values[0], Chain(values[1..], rest))
  }

  lemma {:induction false} ChainMore(values: seq<Value>, v: Value, rest: Items)
    ensures Chain(values + [v], rest) == Chain(values, Item(v, rest))
  {
    if values == [] {
      assert [v][1..] == [];
    } else {
      assert (values + [v])[1..] == values[1..] + [v];
      ChainMore(values[1..], v, rest);
    }
  }

  // What the rest of an array comes to after these values, with the pointer behind the last of them.
  function AfterItems(values: seq<Value>, s: string): Parsed<Items> {
    if At(s, 0) == ',' then
      var r := ParseItems(s[1..]);
      if r.Ok? then Ok(Chain(values, r.value), r.rest) else r
    else if At(s, 0) == ']' then Ok(Chain(values, NoItems), s[1..])
    else Failed
  }

  lemma ItemsUnfold(values: seq<Value>, s: string, v: Parsed<Value>)
    requires At(s, 0) == ',' && v == Spec.ParseValue(Skip(s[1..]))
    ensures !v.Ok? ==> AfterItems(values, s) == if v.Failed? then Failed else NotModelled
    ensures v.Ok? ==> AfterItems(values, s) == AfterItems(values + [v.value], Skip(v.rest))
  {
    hide Spec.ParseValue, Skip;
    if v.Ok? {
      var s1 := Skip(v.rest);
      if At(s1, 0) == ',' {
        var r := ParseItems(s1[1..]);
        if r.Ok? {
          ChainMore(values, v.value, r.value);
        }
      } else {
        ChainMore(values, v.value, NoItems);
      }
    }
  }

  lemma FirstItem(s: string, v: Parsed<Value>)
    requires v == Spec.ParseValue(Skip(s))
    ensures !v.Ok? ==> ParseItems(s) == if v.Failed? then Failed else NotModelled
    ensures v.Ok? ==> ParseItems(s) == AfterItems([v.value], Skip(v.rest))
  {
    hide Spec.ParseValue, Skip;
    if v.Ok? {
      assert [v.value][1..] == [];
      assert forall items :: Chain([v.value], items) == Item(v.value, Chain([], items));
    }
  }

  method ParseArray(s: string) returns (r: Parsed<Value>)
    requires At(s, 0) == '['
    ensures r == Spec.ParseArray(s)
    decreases |s|, 1
  {
    var value := SkipSpace(s[1..]);
    if At(value, 0) == ']' {
      return Ok(Array(NoItems), value[1..]);
    }
    ghost var start := value;
    var at := SkipSpace(value);
    var v := ParseValue(at);
    FirstItem(start, v);
    if !v.Ok? {
      return if v.Failed? then Failed else NotModelled;
    }
    var values := [v.value];
    value := SkipSpace(v.rest);
    while At(value, 0) == ','
      invariant |value| < |s| && AfterItems(values, value) == ParseItems(start)
      decreases |value|
    {
      at := SkipSpace(value[1..]);
      v := ParseValue(at);
      ItemsUnfold(values, value, v);
      if !v.Ok? {
        return if v.Failed? then Failed else NotModelled;
      }
      values := values + [v.value];
      value := SkipSpace(v.rest);
    }
    r := if At(value, 0) == ']' then Ok(Array(Chain(values, NoItems)), value[1..]) else Failed;
  }

  // The chain of members whose first these are.
  function Link(pairs: seq<(string, Value)>, rest: Members): Members {
    if pairs == [] then rest else Member(pairs[0].0, pairs[0].1, Link(pairs[1..], rest))
  }

  lemma {:induction false} LinkMore(pairs: seq<(string, Value)>, p: (string, Value), rest: Members)
    ensures Link(pairs + [p], rest) == Link(pairs, Member(p.0, p.1, rest))
  {
    if pairs == [] {
      assert [p][1..] == [];
    } else {
      assert (pairs + [p])[1..] == pairs[1..] + [p];
      LinkMore(pairs[1..], p, rest);
    }
  }

  function AfterMembers(pairs: seq<(string, Value)>, s: string): Parsed<Members> {
    if At(s, 0) == ',' then
      var r := ParseMembers(s[1..]);
      if r.Ok? then Ok(Link(pairs, r.value), r.rest) else r
    else if At(s, 0) == '}' then Ok(Link(pairs, NoMembers), s[1..])
    else Failed
  }

  // One member: its name, the colon and its value.
  function ParsePair(s: string): (r: Parsed<(string, Value)>)
    ensures r.Ok? ==> |r.rest| < |s|
  {
    var name := Spec.ParseString(Skip(s));
    if !name.Ok? then (if name.Failed? then Failed else NotModelled)
    else
      var s1 := Skip(name.rest);
      if At(s1, 0) != ':' then Failed
      else
        var v := Spec.ParseValue(Skip(s1[1..]));
        if v.Ok? then Ok((name.value, v.value), v.rest) else if v.Failed? then Failed else NotModelled
  }

  lemma PairUnfold(s: string)
    ensures var p := ParsePair(s);
            ParseMembers(s) ==
              if !p.Ok? then (if p.Failed? then Failed else NotModelled)
              else
                var s2 := Skip(p.rest);
                if At(s2, 0) == ',' then
                  var r := ParseMembers(s2[1..]);
                  if r.Ok? then Ok(Member(p.value.0, p.value.1, r.value), r.rest) else r
                else if At(s2, 0) == '}' then Ok(Member(p.value.0, p.value.1, NoMembers), s2[1..])
                else Failed
  {
    hide Spec.ParseValue, Spec.ParseString, Skip;
  }

  lemma MembersUnfold(pairs: seq<(string, Value)>, s: string, p: Parsed<(string, Value)>)
    requires At(s, 0) == ',' && p == ParsePair(s[1..])
    ensures !p.Ok? ==> AfterMembers(pairs, s) == if p.Failed? then Failed else NotModelled
    ensures p.Ok? ==> AfterMembers(pairs, s) == AfterMembers(pairs + [p.value], Skip(p.rest))
  {
    hide ParsePair, Skip, ParseMembers;
    PairUnfold(s[1..]);
    if p.Ok? {
      var s2 := Skip(p.rest);
      if At(s2, 0) == ',' {
        var r := ParseMembers(s2[1..]);
        if r.Ok? {
          LinkMore(pairs, p.value, r.value);
        }
      } else {
        LinkMore(pairs, p.value, NoMembers);
      }
    }
  }

  lemma FirstMember(s: string, p: Parsed<(string, Value)>)
    requires p == ParsePair(s)
    ensures !p.Ok? ==> ParseMembers(s) == if p.Failed? then Failed else NotModelled
    ensures p.Ok? ==> ParseMembers(s) == AfterMembers([p.value], Skip(p.rest))
  {
    hide ParsePair, Skip, ParseMembers;
    PairUnfold(s);
    if p.Ok? {
      assert [p.value][1..] == [];
      assert forall members :: Link([p.value], members) == Member(p.value.0, p.value.1, Link([], members));
    }
  }

  method ParseMember(s: string) returns (p: Parsed<(string, Value)>)
    ensures p == ParsePair(s)
    decreases |s|, 3
  {
    var at := SkipSpace(s);
    var name := ParseString(at);
    if !name.Ok? {
      return if name.Failed? then Failed else NotModelled;
    }
    var value := SkipSpace(name.rest);
    if At(value, 0) != ':' {
      return Failed;
    }
    at := SkipSpace(value[1..]);
    var v := ParseValue(at);
    p := if v.Ok? then Ok((name.value, v.value), v.rest) else if v.Failed? then Failed else NotModelled;
  }

  method ParseObject(s: string) returns (r: Parsed<Value>)
    requires At(s, 0) == '{'
    ensures r == Spec.ParseObject(s)
    decreases |s|, 1
  {
    var value := SkipSpace(s[1..]);
    if At(value, 0) == '}' {
      return Ok(Object(NoMembers), value[1..]);
    }
    ghost var start := value;
    var p := ParseMember(value);
    FirstMember(start, p);
    if !p.Ok? {
      return if p.Failed? then Failed else NotModelled;
    }
    var pairs := [p.value];
    value := SkipSpace(p.rest);
    while At(value, 0) == ','
      invariant |value| < |s| && AfterMembers(pairs, value) == ParseMembers(start)
      decreases |value|
    {
      p := ParseMember(value[1..]);
      MembersUnfold(pairs, value, p);
      if !p.Ok? {
        return if p.Failed? then Failed else NotModelled;
      }
      pairs := pairs + [p.value];
      value := SkipSpace(p.rest);
    }
    r := if At(value, 0) == '}' then Ok(Object(Link(pairs, NoMembers)), value[1..]) else Failed;
  }

  // cJSON_Parse
  method Parse(s: string) returns (r: Parsed<Value>)
    ensures r == Spec.Parse(s)
  {
    var at := SkipSpace(s);
    r := ParseValue(at);
  }
}
