// cJSON_PrintBuffered: printing into one buffer that grows by powers of two.
module JsonBuffer {
  import opened CStrings
  import opened JsonText
  import opened JsonPrint

  // ---------- the size of a grown buffer ----------

  function Or(a: nat, b: nat): nat
    decreases a + b
  {
    if a == 0 && b == 0 then 0 else 2 * Or(a / 2, b / 2) + (if a % 2 == 1 || b % 2 == 1 then 1 else 0)
  }

  function Shr(a: nat, n: nat): nat
    decreases n
  {
    if n == 0 then a else Shr(a / 2, n - 1)
  }

  // x |= x >> n
  function Smear(a: nat, n: nat): nat {
    Or(a, Shr(a, n))
  }

  // pow2gt, for a positive int
  function Pow2gt(x: nat): nat
    requires x > 0
  {
    Smear(Smear(Smear(Smear(Smear(x - 1, 1), 2), 4), 8), 16) + 1
  }

  function Power2(k: nat): nat {
    if k == 0 then 1 else 2 * Power2(k - 1)
  }

  // Bits k down to k - m + 1 are ones, and there is none above.
  predicate TopOnes(a: nat, k: nat, m: nat)
    requires m <= k
  {
    Power2(k) - Power2(k - m) <= a < Power2(k)
  }

  lemma {:induction false} OrBounds(a: nat, b: nat, k: nat)
    requires a < Power2(k) && b < Power2(k)
    ensures a <= Or(a, b) < Power2(k)
    decreases k
  {
    if k > 0 {
      OrBounds(a / 2, b / 2, k - 1);
    }
  }

  lemma {:induction false} Monotonic(j: nat, k: nat)
    requires j <= k
    ensures 1 <= Power2(j) <= Power2(k)
    decreases k
  {
    if j < k {
      Monotonic(j, k - 1);
    } else if j > 0 {
      Monotonic(j - 1, k - 1);
    }
  }

  lemma {:induction false} OrOfTopOnes(a: nat, b: nat, k: nat, m: nat, j: nat)
    requires m + j <= k && m >= 1 && TopOnes(a, k, m) && TopOnes(b, k - m, j)
    ensures TopOnes(Or(a, b), k, m + j)
    decreases k
  {
    Monotonic(k - m, k);
    if j == 0 {
      OrBounds(a, b, k);
    } else if m + j < k {
      OrOfTopOnes(a / 2, b / 2, k - 1, m, j);
    } else {
      OrOfTopOnes(a / 2, b / 2, k - 1, m, j - 1);
    }
  }

  lemma {:induction false} ShrOfTopOnes(a: nat, k: nat, m: nat, s: nat)
    requires s <= m <= k && TopOnes(a, k, m)
    ensures TopOnes(Shr(a, s), k - s, if m <= k - s then m else k - s)
    decreases s
  {
    if s > 0 {
      ShrOfTopOnes(a / 2, k - 1, if m < k then m else k - 1, s - 1);
    }
  }

  lemma {:induction false} ShrShrinks(a: nat, s: nat)
    ensures Shr(a, s) <= a
    decreases s
  {
    if s > 0 {
      ShrShrinks(a / 2, s - 1);
    }
  }

  function Min(a: nat, b: nat): nat {
    if a < b then a else b
  }

  lemma SmearStep(a: nat, k: nat, s: nat)
    requires s >= 1 && k >= 1 && TopOnes(a, k, Min(s, k))
    ensures TopOnes(Smear(a, s), k, Min(2 * s, k))
  {
    if s >= k {
      ShrShrinks(a, s);
      OrBounds(a, Shr(a, s), k);
    } else {
      ShrOfTopOnes(a, k, s, s);
      OrOfTopOnes(a, Shr(a, s), k, s, Min(s, k - s));
    }
  }

  // pow2gt rounds up to a power of two.
  lemma Pow2gtRoundsUp(x: nat, k: nat)
    requires Power2(k) < x <= Power2(k + 1) && k < 31
    ensures Pow2gt(x) == Power2(k + 1)
  {
    hide Smear;
    var a := x - 1;
    var b := Smear(a, 1);
    var c := Smear(b, 2);
    var d := Smear(c, 4);
    var e := Smear(d, 8);
    SmearStep(a, k + 1, 1);
    SmearStep(b, k + 1, 2);
    SmearStep(c, k + 1, 4);
    SmearStep(d, k + 1, 8);
    SmearStep(e, k + 1, 16);
  }

  lemma {:induction false} PowerBelow(x: nat, n: nat) returns (k: nat)
    requires 1 < x <= Power2(n)
    ensures Power2(k) < x <= Power2(k + 1) && k < n
    decreases n
  {
    if n > 0 && x <= Power2(n - 1) {
      k := PowerBelow(x, n - 1);
    } else {
      k := n - 1;
    }
  }

  // The largest size a buffer is grown to: past it pow2gt is no longer a positive int.
  const LIMIT: nat := 0x4000_0000

  lemma LimitIsPower()
    ensures Power2(30) == LIMIT
  {
    assert Power2(10) == 0x400;
    assert Power2(20) == 0x10_0000;
  }

  lemma NewSizeFits(needed: nat)
    requires 0 < needed <= LIMIT
    ensures needed <= Pow2gt(needed) <= LIMIT
  {
    LimitIsPower();
    if needed == 1 {
      assert Pow2gt(1) == 1;
    } else {
      var k := PowerBelow(needed, 30);
      Pow2gtRoundsUp(needed, k);
      Monotonic(k + 1, 30);
    }
  }

  lemma PastLimit(needed: nat)
    requires LIMIT < needed <= 2 * LIMIT
    ensures Pow2gt(needed) == 0x8000_0000
  {
    LimitIsPower();
    Pow2gtRoundsUp(needed, 30);
  }

  // ---------- how much room is asked for ----------

  function Max(a: nat, b: nat): nat {
    if a < b then b else a
  }

  // How far into the buffer the calls of ensure reach that print this value from here: the largest offset + needed.
  function Peak(v: Value, depth: nat, fmt: bool, at: nat): nat
    decreases v, 1
  {
    match v
    case Null => at + 5
    case False => at + 6
    case True => at + 5
    case Number(n) => at + (if n == 0 then 2 else 21)
    case Text(s) => at + |Quote(s)| + 1
    case Array(items) =>
      if items == NoItems then at + 3 else Max(at + 1, PeakItems(items, depth + 1, fmt, at + 1))
    case Object(members) =>
      if members == NoMembers then at + (if fmt then depth + 4 else 3)
      else Max(at + (if fmt then 3 else 2), PeakMembers(members, depth + 1, fmt, at + (if fmt then 2 else 1)))
  }

  // An item, the comma if there is one, the items after it and the bracket.
  function PeakItems(items: Items, depth: nat, fmt: bool, at: nat): nat
    decreases items, 0
  {
    if items == NoItems then at + 2
    else
      var end := at + |Print(items.value, depth, fmt)| + |ItemEnd(items, fmt)|;
      Max(Peak(items.value, depth, fmt, at),
        Max(if items.next == NoItems then 0 else end + 1, PeakItems(items.next, depth, fmt, end)))
  }

  // Tabs, name and colon, which ask for no more than they write; the value; the comma; the members after it; the brace.
  function PeakMembers(members: Members, depth: nat, fmt: bool, at: nat): nat
    decreases members, 0
  {
    if members == NoMembers then at + (if fmt then depth + 1 else 2)
    else
      var start := at + |MemberStart(members.name, depth, fmt)|;
      var end := start + |Print(members.value, depth, fmt)| + |MemberEnd(members, fmt)|;
      Max(start, Max(Peak(members.value, depth, fmt, start), Max(end + 1, PeakMembers(members.next, depth, fmt, end))))
  }

  // How far past its text a printer may ask for room: a number asks for 21 bytes, however short it is.
  const SLACK: nat := 20

  lemma SignedNotEmpty(n: int)
    ensures |Signed(n)| >= 1
  {
  }

  // The printer asks for the text and its terminator, and for at most twenty bytes more than the text.
  lemma {:induction false} PeakBounds(v: Value, depth: nat, fmt: bool, at: nat)
    ensures at + |Print(v, depth, fmt)| + 1 <= Peak(v, depth, fmt, at) <= at + |Print(v, depth, fmt)| + SLACK
    decreases v, 1
  {
    hide Quote, PeakItems, PeakMembers, PrintItems, PrintMembers;
    match v
    case Null =>
    case False =>
    case True =>
    case Text(s) =>
    case Number(n) =>
      NumberFits(n);
      SignedNotEmpty(n);
    case Array(items) =>
      if items != NoItems {
        PeakItemsBounds(items, depth + 1, fmt, at + 1);
      }
    case Object(members) =>
      if members != NoMembers {
        PeakMembersBounds(members, depth + 1, fmt, at + (if fmt then 2 else 1));
        ObjectLength(members, depth, fmt);
      }
  }

  lemma ObjectLength(members: Members, depth: nat, fmt: bool)
    requires members != NoMembers
    ensures |Print(Object(members), depth, fmt)|
         == (if fmt then 2 else 1) + |PrintMembers(members, depth + 1, fmt)| + (if fmt then depth + 1 else 1)
  {
    hide PrintMembers;
    assert Print(Object(members), depth, fmt) + "" == Print(Object(members), depth, fmt);
    ObjectText(members, depth, fmt, "");
  }

  lemma {:induction false} PeakItemsBounds(items: Items, depth: nat, fmt: bool, at: nat)
    ensures at + |PrintItems(items, depth, fmt)| + 2 <= PeakItems(items, depth, fmt, at)
    ensures PeakItems(items, depth, fmt, at) <= at + |PrintItems(items, depth, fmt)| + 1 + SLACK
    decreases items, 0
  {
    hide Print, Peak;
    if items != NoItems {
      PeakBounds(items.value, depth, fmt, at);
      PeakItemsBounds(items.next, depth, fmt, at + |Print(items.value, depth, fmt)| + |ItemEnd(items, fmt)|);
    }
  }

  lemma {:induction false} PeakMembersBounds(members: Members, depth: nat, fmt: bool, at: nat)
    ensures var end := at + |PrintMembers(members, depth, fmt)|;
            && end + (if fmt then depth + 1 else 2) <= PeakMembers(members, depth, fmt, at)
            && PeakMembers(members, depth, fmt, at) <= end + (if fmt then depth else 1) + SLACK
    decreases members, 0
  {
    hide Print, Peak, MemberStart;
    if members != NoMembers {
      var start := at + |MemberStart(members.name, depth, fmt)|;
      PeakBounds(members.value, depth, fmt, start);
      PeakMembersBounds(members.next, depth, fmt,
        start + |Print(members.value, depth, fmt)| + |MemberEnd(members, fmt)|);
    }
  }

  // ---------- the text so far ----------

  lemma TailNulFree(pre: string, t: string, off: nat)
    requires NulFree(t) && |pre| <= off <= |pre + t|
    ensures NulFree((pre + t)[off..])
  {
  }

  // Where the printing of an array stands: so much written, so many items left.
  ghost predicate ItemsLeft(written: string, child: Items, depth: nat, fmt: bool, whole: string) {
    StorableItems(child) && written + (PrintItems(child, depth, fmt) + "]") == whole
  }

  lemma ArrayParts(items: Items, depth: nat, fmt: bool, pre: string)
    requires items.Item? && StorableItems(items)
    ensures Peak(Array(items), depth, fmt, |pre|) == Max(|pre| + 1, PeakItems(items, depth + 1, fmt, |pre| + 1))
    ensures ItemsLeft(pre + "[", items, depth + 1, fmt, pre + Print(Array(items), depth, fmt))
  {
    hide PrintItems, StorableItems, PeakItems;
  }

  lemma ItemsStep(written: string, child: Items, depth: nat, fmt: bool, whole: string)
    requires child.Item? && ItemsLeft(written, child, depth, fmt, whole)
    ensures Storable(child.value)
    ensures ItemsLeft(written + Print(child.value, depth, fmt) + ItemEnd(child, fmt), child.next, depth, fmt, whole)
  {
    hide Print, PrintItems, ItemEnd;
    ItemsText(child, depth, fmt, "]");
    Gather3(written, Print(child.value, depth, fmt), ItemEnd(child, fmt), PrintItems(child.next, depth, fmt) + "]");
    Pair(written, Print(child.value, depth, fmt), ItemEnd(child, fmt));
  }

  // What an item and those after it ask for.
  lemma PeakItemsStep(child: Items, depth: nat, fmt: bool, at: nat)
    requires child.Item?
    ensures var mid := at + |Print(child.value, depth, fmt)|;
            var end := mid + |ItemEnd(child, fmt)|;
            PeakItems(child, depth, fmt, at)
            == Max(Peak(child.value, depth, fmt, at),
                 Max(if child.next == NoItems then 0 else mid + (if fmt then 2 else 1) + 1,
                   PeakItems(child.next, depth, fmt, end)))
  {
    hide Print, Peak;
  }

  lemma Pair(p: string, a: string, b: string)
    ensures p + (a + b) == p + a + b
  {
  }

  lemma NoItemsLeft(written: string, depth: nat, fmt: bool, whole: string)
    requires ItemsLeft(written, NoItems, depth, fmt, whole)
    ensures written + "]" == whole && PeakItems(NoItems, depth, fmt, |written|) == |written| + 2
  {
    assert "" + "]" == "]";
  }

  // Where the printing of an object stands: so much written, so many members left.
  ghost predicate MembersLeft(written: string, child: Members, depth: nat, fmt: bool, whole: string) {
    StorableMembers(child) && written + (PrintMembers(child, depth + 1, fmt) + Close(depth, fmt)) == whole
  }

  lemma ObjectParts(members: Members, depth: nat, fmt: bool, pre: string)
    requires members.Member? && StorableMembers(members)
    ensures MembersLeft(pre + (if fmt then "{\n" else "{"), members, depth, fmt,
              pre + Print(Object(members), depth, fmt))
  {
    hide PrintMembers, StorableMembers;
  }

  function Brace(fmt: bool): string {
    if fmt then "{\n" else "{"
  }

  lemma ObjectOpens(members: Members, depth: nat, fmt: bool, pre: string, room: nat)
    requires members.Member? && StorableMembers(members)
    ensures MembersLeft(pre + Brace(fmt), members, depth, fmt, pre + Print(Object(members), depth, fmt))
    ensures Peak(Object(members), depth, fmt, |pre|) <= room
            <==> |pre + Brace(fmt)| + 1 <= room && PeakMembers(members, depth + 1, fmt, |pre + Brace(fmt)|) <= room
  {
    ObjectParts(members, depth, fmt, pre);
    PeakObject(members, depth, fmt, |pre|);
    hide Print, Peak, PeakMembers, MembersLeft;
  }

  lemma PeakObject(members: Members, depth: nat, fmt: bool, at: nat)
    requires members.Member?
    ensures Peak(Object(members), depth, fmt, at)
         == Max(at + (if fmt then 3 else 2), PeakMembers(members, depth + 1, fmt, at + (if fmt then 2 else 1)))
  {
    hide PeakMembers;
  }

  lemma MembersStep(written: string, child: Members, depth: nat, fmt: bool, whole: string)
    requires child.Member? && MembersLeft(written, child, depth, fmt, whole)
    ensures Storable(child.value) && NulFree(child.name)
    ensures MembersLeft(
              written + MemberStart(child.name, depth + 1, fmt) + Print(child.value, depth + 1, fmt)
                  + MemberEnd(child, fmt),
              child.next, depth, fmt, whole)
  {
    MembersText(child, depth + 1, fmt, Close(depth, fmt));
    hide Print, PrintMembers, MemberStart, MemberEnd, Close;
    Regroup(written, MemberStart(child.name, depth + 1, fmt), Print(child.value, depth + 1, fmt), MemberEnd(child, fmt),
      PrintMembers(child.next, depth + 1, fmt) + Close(depth, fmt));
  }

  lemma PeakMembersStep(child: Members, depth: nat, fmt: bool, at: nat)
    requires child.Member?
    ensures var start := at + |MemberStart(child.name, depth, fmt)|;
            var end := start + |Print(child.value, depth, fmt)| + |MemberEnd(child, fmt)|;
            PeakMembers(child, depth, fmt, at)
            == Max(start,
                Max(Peak(child.value, depth, fmt, start), Max(end + 1, PeakMembers(child.next, depth, fmt, end))))
  {
    hide Print, Peak, MemberStart, MemberEnd;
  }

  lemma NoMembersLeft(written: string, depth: nat, fmt: bool, whole: string)
    requires MembersLeft(written, NoMembers, depth, fmt, whole)
    ensures written + Close(depth, fmt) == whole && |Close(depth, fmt)| == 1 + if fmt then depth else 0
    ensures PeakMembers(NoMembers, depth + 1, fmt, |written|) == |written| + |Close(depth, fmt)| + 1
  {
    assert "" + Close(depth, fmt) == Close(depth, fmt);
  }

  lemma StartParts(name: string, depth: nat, fmt: bool, pre: string)
    ensures |MemberStart(name, depth, fmt)| == (if fmt then depth + 1 else 0) + |Quote(name)| + 1
    ensures pre + (if fmt then Tabs(depth) else "") + Quote(name) + (if fmt then ":\t" else ":")
         == pre + MemberStart(name, depth, fmt)
  {
    hide Quote;
  }

  class PrintBuffer {
    var buffer: array<char>
    var length: nat
    var offset: nat

    ghost predicate Valid()
      reads this
    {
      0 < length == buffer.Length && offset <= length
    }

    // How large the buffer is or may become.
    ghost function Room(): nat
      reads this
    {
      Max(length, LIMIT)
    }

    // So much has been written.
    ghost predicate Ready(written: string, room: nat)
      reads this, buffer
    {
      Valid() && buffer[..offset] == written && Room() == room
    }

    // The buffer holds this text and its terminator, and the last piece printed begins at offset or later.
    ghost predicate Shows(s: string, room: nat)
      reads this, buffer
    {
      Valid() && offset <= |s| < length && buffer[..|s|] == s && buffer[|s|] == '\0' && Room() == room
    }

    constructor (prebuffer: nat)
      requires prebuffer > 0
      ensures Valid() && offset == 0 && fresh(buffer) && Room() == Max(prebuffer, LIMIT)
    {
      buffer := new char[prebuffer];
      length := prebuffer;
      offset := 0;
    }

    // Makes room for so many bytes at offset; what was written stays.  Where the buffer would have to grow past LIMIT,
    // pow2gt overflows: there is no buffer any more, and nothing is printed by this call or a later one.
    method Ensure(needed: nat) returns (ok: bool)
      requires Valid()
      modifies this
      ensures ok <==> old(offset) + needed <= old(Room())
      ensures ok ==> Valid() && offset == old(offset) && offset + needed <= length && Room() == old(Room())
      ensures ok ==> buffer == old(buffer) || fresh(buffer)
      ensures ok ==> buffer[..offset] == old(buffer[..offset])
    {
      var total := needed + offset;
      if total <= length {
        return true;
      }
      if total > LIMIT {
        return false;
      }
      NewSizeFits(total);
      var newSize := Pow2gt(total);
      var newBuffer := new char[newSize];
      MemCpy(newBuffer, 0, buffer, length);
      assert newBuffer[..length] == buffer[..length];
      assert newBuffer[..offset] == newBuffer[..length][..offset] == buffer[..length][..offset] == buffer[..offset];
      length := newSize;
      buffer := newBuffer;
      ok := true;
    }

    // Writes at offset, moves it on, and makes no room itself.
    method Write(s: string)
      requires Valid() && offset + |s| <= length
      modifies this`offset, buffer
      ensures Valid() && offset == old(offset) + |s| && buffer[..offset] == old(buffer[..offset]) + s
    {
      offset := Put(buffer, offset, s);
    }

    // Writes at offset with a terminator and leaves offset where it is.
    method Show(s: string)
      requires Valid() && offset + |s| < length
      modifies buffer
      ensures Shows(old(buffer[..offset]) + s, Room())
    {
      var end := Put(buffer, offset, s);
      buffer[end] := '\0';
      assert buffer[..end] == old(buffer[..offset]) + s;
    }

    // Writes at offset with a terminator and moves offset on to it.
    method ShowAndAdvance(s: string)
      requires Valid() && offset + |s| < length
      modifies this`offset, buffer
      ensures Valid() && offset == old(offset) + |s| && buffer[..offset] == old(buffer[..offset]) + s
    {
      Show(s);
      offset := offset + |s|;
    }

    lemma NotYet(s: string, room: nat, k: nat)
      requires Shows(s, room) && NulFree(s[offset..]) && offset <= k < |s|
      ensures buffer[k] != '\0'
    {
      assert buffer[k] == buffer[..|s|][k] == s[offset..][k - offset];
    }

    // update, as its callers use it: offset moves on to the terminator
    method Update(ghost s: string, ghost room: nat)
      requires Shows(s, room) && NulFree(s[offset..])
      modifies this`offset
      ensures Ready(s, room) && offset == |s|
    {
      forall k | offset <= k < |s| ensures buffer[k] != '\0' {
        NotYet(s, room, k);
      }
      var n: nat := 0;
      while buffer[offset + n] != '\0'
        invariant offset + n <= |s|
        decreases |s| - n
      {
        n := n + 1;
      }
      offset := offset + n;
    }

    // ---------- printing; each says whether there was room for it ----------

    // A whole text at once: make room for it and more, and show it.
    method ShowText(s: string, needed: nat, ghost pre: string, ghost room: nat) returns (ok: bool)
      requires Ready(pre, room) && |s| < needed
      modifies this, buffer
      ensures ok <==> |pre| + needed <= room
      ensures ok ==> Shows(pre + s, room) && offset == |pre| && (buffer == old(buffer) || fresh(buffer))
    {
      ok := Ensure(needed);
      if ok {
        Show(s);
      }
    }

    method PrintNumber(n: Int32, ghost pre: string, ghost room: nat) returns (ok: bool)
      requires Ready(pre, room)
      modifies this, buffer
      ensures ok <==> |pre| + (if n == 0 then 2 else 21) <= room
      ensures ok ==> Shows(pre + Signed(n), room) && offset == |pre| && (buffer == old(buffer) || fresh(buffer))
    {
      NumberFits(n);
      if n == 0 {
        ok := ShowText("0", 2, pre, room);
      } else {
        ok := ShowText(Signed(n), 21, pre, room);
      }
    }

    method PrintStringPtr(s: string, ghost pre: string, ghost room: nat) returns (ok: bool)
      requires Ready(pre, room) && NulFree(s)
      modifies this, buffer
      ensures ok <==> |pre| + |Quote(s)| + 1 <= room
      ensures ok ==> Shows(pre + Quote(s), room) && offset == |pre| && (buffer == old(buffer) || fresh(buffer))
    {
      var flag := HasSpecial(s);
      if !flag {
        NothingToEscape(s);
        ok := ShowText("\"" + s + "\"", |s| + 3, pre, room);
      } else {
        var len := EscapedLength(s);
        ok := Ensure(len + 3);
        if ok {
          var end := WriteEscaped(buffer, offset, s);
        }
      }
    }

    method PrintValue(v: Value, depth: nat, fmt: bool, ghost pre: string, ghost room: nat) returns (ok: bool)
      requires Ready(pre, room) && Storable(v)
      modifies this, buffer
      ensures ok <==> Peak(v, depth, fmt, |pre|) <= room
      ensures ok ==>
                Shows(pre + Print(v, depth, fmt), room) && offset >= |pre| && (buffer == old(buffer) || fresh(buffer))
      decreases v, 3
    {
      match v
      case Null => ok := ShowText("null", 5, pre, room);
      case False => ok := ShowText("false", 6, pre, room);
      case True => ok := ShowText("true", 5, pre, room);
      case Number(n) => ok := PrintNumber(n, pre, room);
      case Text(s) => ok := PrintStringPtr(s, pre, room);
      case Array(items) => ok := PrintArray(items, depth, fmt, pre, room);
      case Object(members) => ok := PrintObject(members, depth, fmt, pre, room);
    }

    // print_value and update
    method PrintOn(v: Value, depth: nat, fmt: bool, ghost pre: string, ghost room: nat) returns (ok: bool)
      requires Ready(pre, room) && Storable(v)
      modifies this, buffer
      ensures ok <==> Peak(v, depth, fmt, |pre|) <= room
      ensures ok ==> Ready(pre + Print(v, depth, fmt), room) && (buffer == old(buffer) || fresh(buffer))
      decreases v, 4
    {
      hide Print, Storable, NulFree, Peak;
      ok := PrintValue(v, depth, fmt, pre, room);
      if ok {
        PrintNulFree(v, depth, fmt);
        TailNulFree(pre, Print(v, depth, fmt), offset);
        Update(pre + Print(v, depth, fmt), room);
      }
    }

    method PrintArray(items: Items, depth: nat, fmt: bool, ghost pre: string, ghost room: nat) returns (ok: bool)
      requires Ready(pre, room) && StorableItems(items)
      modifies this, buffer
      ensures ok <==> Peak(Array(items), depth, fmt, |pre|) <= room
      ensures ok ==> Shows(pre + Print(Array(items), depth, fmt), room) && offset >= |pre|
      ensures ok ==> buffer == old(buffer) || fresh(buffer)
      decreases items, 3
    {
      if items == NoItems {
        ok := ShowText("[]", 3, pre, room);
      } else {
        ok := PrintFullArray(items, depth, fmt, pre, room);
      }
    }

    method PrintFullArray(items: Items, depth: nat, fmt: bool, ghost pre: string, ghost room: nat) returns (ok: bool)
      requires Ready(pre, room) && items.Item? && StorableItems(items)
      modifies this, buffer
      ensures ok <==> Peak(Array(items), depth, fmt, |pre|) <= room
      ensures ok ==> Shows(pre + Print(Array(items), depth, fmt), room) && offset >= |pre|
      ensures ok ==> buffer == old(buffer) || fresh(buffer)
      decreases items, 2
    {
      ghost var whole := pre + Print(Array(items), depth, fmt);
      ArrayParts(items, depth, fmt, pre);
      hide Print, PrintItems, StorableItems, Shows, Storable, ItemsLeft, Peak, PeakItems;
      ok := Ensure(1);
      if !ok {
        return;
      }
      Write("[");
      ok := PrintEachItem(items, depth + 1, fmt, whole, room);
      if ok {
        NoItemsLeft(buffer[..offset], depth + 1, fmt, whole);
        ok := ShowText("]", 2, buffer[..offset], room);
      }
    }

    // The loop over the items.
    method PrintEachItem(items: Items, depth: nat, fmt: bool, ghost whole: string, ghost room: nat) returns (ok: bool)
      requires Valid() && Room() == room && ItemsLeft(buffer[..offset], items, depth, fmt, whole)
      modifies this, buffer
      ensures PeakItems(items, depth, fmt, old(offset)) <= room <==>
                ok && PeakItems(NoItems, depth, fmt, offset) <= room
      ensures ok ==> Valid() && Room() == room && offset >= old(offset)
      ensures ok ==> ItemsLeft(buffer[..offset], NoItems, depth, fmt, whole)
      ensures ok ==> buffer == old(buffer) || fresh(buffer)
      decreases items, 1
    {
      hide PrintItems, Storable, ItemsLeft, PeakItems;
      var child := items;
      ok := true;
      while child != NoItems
        invariant ok && Valid() && Room() == room && old(offset) <= offset && (buffer == old(buffer) || fresh(buffer))
        invariant child == items || child < items
        invariant ItemsLeft(buffer[..offset], child, depth, fmt, whole)
        invariant PeakItems(items, depth, fmt, old(offset)) <= room <==> PeakItems(child, depth, fmt, offset) <= room
        decreases child
      {
        ok := PrintItem(child, depth, fmt, whole, room);
        if !ok {
          return;
        }
        child := child.next;
      }
    }

    // One turn of the loop: the item, and what separates it from the next.
    method PrintItem(child: Items, depth: nat, fmt: bool, ghost whole: string, ghost room: nat) returns (ok: bool)
      requires Valid() && Room() == room && child.Item? && ItemsLeft(buffer[..offset], child, depth, fmt, whole)
      modifies this, buffer
      ensures PeakItems(child, depth, fmt, old(offset)) <= room
              <==> ok && PeakItems(child.next, depth, fmt, offset) <= room
      ensures ok ==> Valid() && Room() == room && offset >= old(offset)
      ensures ok ==>
                ItemsLeft(buffer[..offset], child.next, depth, fmt, whole) && (buffer == old(buffer) || fresh(buffer))
      decreases child, 0
    {
      hide Print, PrintItems, Storable, ItemsLeft, Peak, PeakItems;
      PeakItemsStep(child, depth, fmt, offset);
      ItemsStep(buffer[..offset], child, depth, fmt, whole);
      ok := PrintOn(child.value, depth, fmt, buffer[..offset], room);
      if !ok {
        return;
      }
      if child.next != NoItems {
        ok := Ensure((if fmt then 2 else 1) + 1);
        if ok {
          ShowAndAdvance(if fmt then ", " else ",");
        }
      } else {
        assert buffer[..offset] + "" == buffer[..offset];
      }
    }

    method PrintObject(members: Members, depth: nat, fmt: bool, ghost pre: string, ghost room: nat) returns (ok: bool)
      requires Ready(pre, room) && StorableMembers(members)
      modifies this, buffer
      ensures ok <==> Peak(Object(members), depth, fmt, |pre|) <= room
      ensures ok ==> Shows(pre + Print(Object(members), depth, fmt), room) && offset >= |pre|
      ensures ok ==> buffer == old(buffer) || fresh(buffer)
      decreases members, 3
    {
      if members == NoMembers {
        ok := ShowText(if fmt then "{\n" + Tabs(depth - 1) + "}" else "{}", if fmt then depth + 4 else 3, pre, room);
      } else {
        ok := PrintFullObject(members, depth, fmt, pre, room);
      }
    }

    method PrintFullObject(members: Members, depth: nat, fmt: bool, ghost pre: string, ghost room: nat)
      returns (ok: bool)
      requires Ready(pre, room) && members.Member? && StorableMembers(members)
      modifies this, buffer
      ensures ok <==> Peak(Object(members), depth, fmt, |pre|) <= room
      ensures ok ==> Shows(pre + Print(Object(members), depth, fmt), room) && offset >= |pre|
      ensures ok ==> buffer == old(buffer) || fresh(buffer)
      decreases members, 2
    {
      ghost var whole := pre + Print(Object(members), depth, fmt);
      ghost var begun := pre + Brace(fmt);
      ObjectOpens(members, depth, fmt, pre, room);
      hide *;
      ok := PrintOpen(fmt, pre, room);
      if ok {
        IsReady(begun, room);
        ok := PrintEachMember(members, depth, fmt, whole, room);
      }
      if ok {
        ok := PrintClose(depth, fmt, whole, room);
      }
    }

    lemma IsReady(written: string, room: nat)
      requires Ready(written, room)
      ensures Valid() && buffer[..offset] == written && Room() == room && offset == |written|
    {
    }

    // The brace and its newline.
    method PrintOpen(fmt: bool, ghost pre: string, ghost room: nat) returns (ok: bool)
      requires Ready(pre, room)
      modifies this, buffer
      ensures ok <==> |pre + Brace(fmt)| + 1 <= room
      ensures ok ==> Ready(pre + Brace(fmt), room) && (buffer == old(buffer) || fresh(buffer))
    {
      ok := Ensure((if fmt then 2 else 1) + 1);
      if ok {
        ShowAndAdvance(Brace(fmt));
      }
    }

    // The loop over the members.
    method PrintEachMember(members: Members, depth: nat, fmt: bool, ghost whole: string, ghost room: nat)
      returns (ok: bool)
      requires Valid() && Room() == room && MembersLeft(buffer[..offset], members, depth, fmt, whole)
      modifies this, buffer
      ensures PeakMembers(members, depth + 1, fmt, old(offset)) <= room
              <==> ok && PeakMembers(NoMembers, depth + 1, fmt, offset) <= room
      ensures ok ==> Valid() && Room() == room && offset >= old(offset)
      ensures ok ==> MembersLeft(buffer[..offset], NoMembers, depth, fmt, whole)
      ensures ok ==> buffer == old(buffer) || fresh(buffer)
      decreases members, 1
    {
      hide PrintMembers, Storable, MembersLeft, PeakMembers;
      var child := members;
      ok := true;
      while child != NoMembers
        invariant ok && Valid() && Room() == room && old(offset) <= offset && (buffer == old(buffer) || fresh(buffer))
        invariant child == members || child < members
        invariant MembersLeft(buffer[..offset], child, depth, fmt, whole)
        invariant PeakMembers(members, depth + 1, fmt, old(offset)) <= room
                  <==> PeakMembers(child, depth + 1, fmt, offset) <= room
        decreases child
      {
        ok := PrintMember(child, depth, fmt, whole, room);
        if !ok {
          return;
        }
        child := child.next;
      }
    }

    // Tabs and brace.
    method PrintClose(depth: nat, fmt: bool, ghost whole: string, ghost room: nat) returns (ok: bool)
      requires Valid() && Room() == room && MembersLeft(buffer[..offset], NoMembers, depth, fmt, whole)
      modifies this, buffer
      ensures ok <==> PeakMembers(NoMembers, depth + 1, fmt, old(offset)) <= room
      ensures ok ==> Shows(whole, room) && offset == old(offset) && (buffer == old(buffer) || fresh(buffer))
    {
      hide Close, MembersLeft, PeakMembers;
      NoMembersLeft(buffer[..offset], depth, fmt, whole);
      ok := Ensure(if fmt then depth + 2 else 2);
      if ok {
        Show(Close(depth, fmt));
      }
    }

    // One turn of the loop.
    method PrintMember(child: Members, depth: nat, fmt: bool, ghost whole: string, ghost room: nat) returns (ok: bool)
      requires Valid() && Room() == room && child.Member? && MembersLeft(buffer[..offset], child, depth, fmt, whole)
      modifies this, buffer
      ensures PeakMembers(child, depth + 1, fmt, old(offset)) <= room
              <==> ok && PeakMembers(child.next, depth + 1, fmt, offset) <= room
      ensures ok ==> Valid() && Room() == room && offset >= old(offset)
      ensures ok ==> MembersLeft(buffer[..offset], child.next, depth, fmt, whole)
      ensures ok ==> buffer == old(buffer) || fresh(buffer)
      decreases child, 0
    {
      hide Print, PrintMembers, Storable, MembersLeft, MemberStart, MemberEnd, NulFree, Peak, PeakMembers;
      PeakMembersStep(child, depth + 1, fmt, offset);
      MembersStep(buffer[..offset], child, depth, fmt, whole);
      ok := PrintName(child.name, depth + 1, fmt, buffer[..offset], room);
      if !ok {
        return;
      }
      ok := PrintOn(child.value, depth + 1, fmt, buffer[..offset], room);
      if !ok {
        return;
      }
      ok := PrintEnd(child.next == NoMembers, fmt, child, room);
    }

    // Tabs, name and colon.
    method PrintName(name: string, depth: nat, fmt: bool, ghost pre: string, ghost room: nat) returns (ok: bool)
      requires Ready(pre, room) && NulFree(name)
      modifies this, buffer
      ensures ok <==> |pre| + |MemberStart(name, depth, fmt)| <= room
      ensures ok ==> Ready(pre + MemberStart(name, depth, fmt), room) && (buffer == old(buffer) || fresh(buffer))
    {
      StartParts(name, depth, fmt, pre);
      hide Quote, NulFree, Shows, MemberStart;
      ghost var tabs := if fmt then Tabs(depth) else "";
      if fmt {
        ok := Ensure(depth);
        if !ok {
          return;
        }
        Write(Tabs(depth));
      }
      assert buffer[..offset] == pre + tabs;
      ok := PrintStringPtr(name, pre + tabs, room);
      if !ok {
        return;
      }
      QuoteNulFree(name);
      TailNulFree(pre + tabs, Quote(name), offset);
      Update(pre + tabs + Quote(name), room);
      ok := Ensure(if fmt then 2 else 1);
      if ok {
        Write(if fmt then ":\t" else ":");
      }
    }

    // Comma and newline.
    method PrintEnd(last: bool, fmt: bool, ghost child: Members, ghost room: nat) returns (ok: bool)
      requires Valid() && Room() == room && child.Member? && last == (child.next == NoMembers)
      modifies this, buffer
      ensures ok <==> old(offset) + |MemberEnd(child, fmt)| + 1 <= room
      ensures ok ==>
                Ready(old(buffer[..offset]) + MemberEnd(child, fmt), room) && (buffer == old(buffer) || fresh(buffer))
    {
      ok := Ensure((if fmt then 1 else 0) + (if last then 0 else 1) + 1);
      if ok {
        ShowAndAdvance((if last then "" else ",") + (if fmt then "\n" else ""));
      }
    }
  }

  // cJSON_PrintBuffered: the same text as the printers without a buffer, exactly when everything it asks for is within
  // the buffer it starts from or within 2^30 bytes.
  method PrintBuffered(v: Value, prebuffer: nat, fmt: bool) returns (out: array?<char>)
    requires Storable(v) && prebuffer > 0
    ensures out != null <==> Peak(v, 0, fmt, 0) <= Max(prebuffer, LIMIT)
    ensures out != null ==> fresh(out) && Holds(out, Print(v, 0, fmt))
  {
    hide Print, Peak, Storable;
    var p := new PrintBuffer(prebuffer);
    assert p.buffer[..0] == "";
    var ok := p.PrintValue(v, 0, fmt, "", Max(prebuffer, LIMIT));
    if !ok {
      return null;
    }
    PrintNulFree(v, 0, fmt);
    assert "" + Print(v, 0, fmt) == Print(v, 0, fmt);
    out := p.buffer;
  }

  // In terms of the text: 20 bytes short of the room are always enough, and a text that fills it never fits.
  lemma TextThatFits(v: Value, prebuffer: nat, fmt: bool)
    ensures |Print(v, 0, fmt)| + SLACK <= Max(prebuffer, LIMIT) ==> Peak(v, 0, fmt, 0) <= Max(prebuffer, LIMIT)
    ensures |Print(v, 0, fmt)| >= Max(prebuffer, LIMIT) ==> Peak(v, 0, fmt, 0) > Max(prebuffer, LIMIT)
  {
    PeakBounds(v, 0, fmt, 0);
  }
}
