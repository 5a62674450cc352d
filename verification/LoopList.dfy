// loop/loop.c: a bounded deque in a circular array with one slot always free; a push on a full list drops the item at
// the other end.
module LoopLists {
  import opened Rings

  // The first item that passes the test, or the number of items.
  function FirstIndex<T>(s: seq<T>, p: T -> bool): (i: nat)
    ensures i <= |s| && (i < |s| ==> p(s[i]))
    ensures forall j | 0 <= j < i :: !p(s[j])
  {
    if s == [] || p(s[0]) then 0
    else
      var i := FirstIndex(s[1..], p);
      assert forall j | 1 <= j < i + 1 :: s[j] == s[1..][j - 1];
      i + 1
  }

  function Next(i: nat, size: nat): (r: nat)
    requires i < size
    ensures r < size && r == Wrap(i + 1, size)
  {
    ModOnce(i + 1, size);
    (i + 1) % size
  }

  function Prev(i: nat, size: nat): (r: nat)
    requires i < size
    ensures r < size && i == Wrap(r + 1, size)
  {
    ModOnce(size + i - 1, size);
    (size + i - 1) % size
  }

  // The items while those behind place k move up: place j is the next to be filled.
  ghost function Shifted<T>(r: seq<T>, k: nat, j: nat): seq<T>
    requires k <= j < |r|
  {
    r[..k] + r[k + 1..j + 1] + r[j..]
  }

  lemma ShiftedNext<T>(r: seq<T>, k: nat, j: nat)
    requires k <= j && j + 1 < |r|
    ensures |Shifted(r, k, j)| == |r| && Shifted(r, k, j)[j + 1] == r[j + 1]
    ensures Shifted(r, k, j)[j := r[j + 1]] == Shifted(r, k, j + 1)
  {
  }

  lemma ShiftedEnds<T>(r: seq<T>, k: nat)
    requires k < |r|
    ensures Shifted(r, k, k) == r
    ensures Shifted(r, k, |r| - 1)[..|r| - 1] == r[..k] + r[k + 1..]
  {
  }

  class LoopList<T(==)> {
    const size: nat
    var head: nat
    var tail: nat
    const items: array<T>

    // size 1 would leave no room for an item.
    ghost predicate Valid()
      reads this
    {
      2 <= size == items.Length && head < size && tail < size
    }

    function Count(): nat
      requires Valid()
      reads this
    {
      if head <= tail then tail - head else size - head + tail
    }

    // The items from head to tail.
    ghost function Contents(): (s: seq<T>)
      requires Valid()
      reads this, items
      ensures |s| == Count() < size
    {
      Ring(items[..], head, Count())
    }

    // loop_create
    constructor (size: nat, filler: T)
      requires size >= 2
      ensures Valid() && Contents() == [] && this.size == size && fresh(items)
    {
      this.size := size;
      head, tail := 0, 0;
      items := new T[size](_ => filler);
    }

    // loop_push_to_tail; what del_func is called with comes back as dropped
    method PushToTail(data: T) returns (dropped: seq<T>)
      requires Valid()
      modifies this, items
      ensures Valid()
      ensures var s := old(Contents());
              dropped == (if |s| == size - 1 then [s[0]] else []) && dropped + Contents() == s + [data]
    {
      hide Next, Prev;
      dropped := [];
      ghost var s := Contents();
      if Next(tail, size) == head {
        dropped := PopFromHead();
      }
      ghost var kept := Contents();
      assert dropped + kept == s;
      PutAtTail(data);
      assert dropped + (kept + [data]) == dropped + kept + [data];
    }

    method PutAtTail(data: T)
      requires Valid() && Count() < size - 1
      modifies this`tail, items
      ensures Valid() && Contents() == old(Contents()) + [data]
    {
      hide Next, Prev;
      ghost var a, n := items[..], Count();
      RingPutLast(a, head, n, data);
      assert tail == Wrap(head + n, size);
      items[tail] := data;
      assert items[..] == a[tail := data];
      tail := Next(tail, size);
      assert Count() == n + 1;
    }

    // loop_push_to_head
    method PushToHead(data: T) returns (dropped: seq<T>)
      requires Valid()
      modifies this, items
      ensures Valid()
      ensures var s := old(Contents());
              dropped == (if |s| == size - 1 then [s[|s| - 1]] else []) && Contents() + dropped == [data] + s
    {
      hide Next, Prev;
      dropped := [];
      ghost var s := Contents();
      if Prev(head, size) == tail {
        dropped := PopFromTail();
      }
      ghost var kept := Contents();
      assert kept + dropped == s;
      PutAtHead(data);
      assert [data] + kept + dropped == [data] + (kept + dropped);
    }

    method PutAtHead(data: T)
      requires Valid() && Count() < size - 1
      modifies this`head, items
      ensures Valid() && Contents() == [data] + old(Contents())
    {
      hide Next, Prev;
      ghost var a, n := items[..], Count();
      var h := Prev(head, size);
      RingPutFirst(a, h + 1, n, data);
      assert Wrap(h + 1, size) == head;
      head := h;
      items[head] := data;
      assert items[..] == a[h := data];
      assert Count() == n + 1;
    }

    // loop_pop_from_head
    method PopFromHead() returns (p: seq<T>)
      requires Valid()
      modifies this
      ensures Valid() && p + Contents() == old(Contents()) && |p| == if old(Contents()) == [] then 0 else 1
    {
      hide Next, Prev;
      p := [];
      if tail != head {
        RingRead(items[..], head, Count(), 1);
        p := [items[head]];
        head := Next(head, size);
      }
    }

    // loop_pop_from_tail
    method PopFromTail() returns (p: seq<T>)
      requires Valid()
      modifies this
      ensures Valid() && Contents() + p == old(Contents()) && |p| == if old(Contents()) == [] then 0 else 1
    {
      hide Next, Prev;
      p := [];
      if tail != head {
        RingRead(items[..], head, Count(), Count() - 1);
        assert Wrap(head + (Count() - 1), size) == Prev(tail, size);
        tail := Prev(tail, size);
        p := [items[tail]];
      }
    }

    // loop_search
    method Search(search: T -> bool) returns (p: seq<T>)
      requires Valid()
      ensures var k := FirstIndex(Contents(), search); p == Contents()[k..if k < Count() then k + 1 else k]
    {
      hide Next, Prev;
      ghost var s := Contents();
      ghost var k := 0;
      p := [];
      var i := head;
      while i != tail
        invariant i < size && k <= |s| && i == Wrap(head + k, size)
        invariant forall j | 0 <= j < k :: !search(s[j])
        decreases |s| - k
      {
        assert s[k] == items[i];
        if search(items[i]) {
          break;
        }
        i := Next(i, size);
        k := k + 1;
      }
      if i != tail {
        p := [items[i]];
      }
    }

    // The inner loop of loop_remove: the items behind place k move up by one.
    method ShiftUp(start: nat, ghost k: nat, ghost r: seq<T>)
      requires Valid() && k <= Count() < size - 1 && start == Wrap(head + k, size)
      requires r == Ring(items[..], head, Count() + 1)
      modifies items
      ensures Contents() == r[..k] + r[k + 1..]
    {
      hide Next, Prev, Shifted, Ring;
      ghost var n := Count();
      var i := start;
      ghost var j := k;
      ShiftedEnds(r, k);
      while i != tail
        invariant k <= j <= n && i == Wrap(head + j, size)
        invariant Ring(items[..], head, n + 1) == Shifted(r, k, j)
        decreases n - j
      {
        MoveUp(i, j, n + 1, r, k);
        i := Next(i, size);
        j := j + 1;
      }
      RingRead(items[..], head, n + 1, n);
    }

    // One store of that loop.
    method MoveUp(i: nat, ghost j: nat, ghost n: nat, ghost r: seq<T>, ghost k: nat)
      requires Valid() && k <= j && j + 1 < n <= size && i == Wrap(head + j, size)
      requires |r| == n && Ring(items[..], head, n) == Shifted(r, k, j)
      modifies items
      ensures Ring(items[..], head, n) == Shifted(r, k, j + 1)
    {
      hide Next, Prev, Shifted, Ring;
      ghost var a := items[..];
      ShiftedNext(r, k, j);
      assert items[Wrap(head + (j + 1), size)] == Ring(a, head, n)[j + 1] == r[j + 1];
      RingStore(a, head, n, j, r[j + 1]);
      items[i] := items[Next(i, size)];
      assert items[..] == a[i := r[j + 1]];
    }

    // loop_remove: the first item equal to data
    method Remove(data: T)
      requires Valid()
      modifies this, items
      ensures Valid()
      ensures var s := old(Contents());
              var i := FirstIndex(s, (x: T) => x == data);
              Contents() == if i < |s| then s[..i] + s[i + 1..] else s
    {
      hide Next, Prev;
      ghost var s := Contents();
      ghost var k := 0;
      var i := head;
      while i != tail
        invariant head == old(head) && tail == old(tail) && items[..] == old(items[..])
        invariant i < size && k <= |s| && i == Wrap(head + k, size)
        invariant forall j | 0 <= j < k :: s[j] != data
        decreases |s| - k
      {
        assert s[k] == items[i];
        if items[i] == data {
          ghost var n := Count();
          tail := Prev(tail, size);
          assert Count() == n - 1;
          ShiftUp(i, k, s);
          return;
        }
        i := Next(i, size);
        k := k + 1;
      }
    }

    // loop_clear
    method Clear() returns (dropped: seq<T>)
      requires Valid()
      modifies this
      ensures Valid() && Contents() == [] && dropped == old(Contents())
    {
      hide Next, Prev;
      dropped := [];
      ghost var s := Contents();
      ghost var k := 0;
      var i := head;
      while i != tail
        invariant head == old(head) && tail == old(tail)
        invariant i < size && k <= |s| && i == Wrap(head + k, size) && dropped == s[..k]
        decreases |s| - k
      {
        assert s[k] == items[i] && s[..k + 1] == s[..k] + [s[k]];
        dropped := dropped + [items[i]];
        i := Next(i, size);
        k := k + 1;
      }
      assert s[..k] == s;
      head, tail := 0, 0;
    }
  }
}
