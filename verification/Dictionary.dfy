// ini/dictionary.c: a string map over three parallel arrays with holes, filtered by hash and doubled when full.
module Dictionaries {
  import opened Wrappers
  import opened Sums

  // ---------- the hash ----------

  function CharBits(c: char): bv32 {
    if c as int < 0x1_0000_0000 then c as int as bv32 else 0
  }

  // hash += hash << n
  function AddUp3(hash: bv32): bv32 {
    hash + (hash << 3)
  }

  function AddUp10(hash: bv32): bv32 {
    hash + (hash << 10)
  }

  function AddUp15(hash: bv32): bv32 {
    hash + (hash << 15)
  }

  // hash ^= hash >> n
  function XorDown6(hash: bv32): bv32 {
    hash ^ (hash >> 6)
  }

  function XorDown11(hash: bv32): bv32 {
    hash ^ (hash >> 11)
  }

  function MixOne(hash: bv32, bits: bv32): bv32 {
    XorDown6(AddUp10(hash + bits))
  }

  function MixAll(key: string, hash: bv32): bv32 {
    if key == [] then hash else MixAll(key[1..], MixOne(hash, CharBits(key[0])))
  }

  function Hash(key: string): bv32 {
    AddUp15(XorDown11(AddUp3(MixAll(key, 0))))
  }

  lemma MixNext(key: string, i: nat, hash: bv32)
    requires i < |key|
    ensures MixAll(key[i..], hash) == MixAll(key[i + 1..], MixOne(hash, CharBits(key[i])))
  {
    hide MixOne, CharBits;
    assert key[i..][0] == key[i] && key[i..][1..] == key[i + 1..];
  }

  lemma MixLast(key: string, hash: bv32)
    ensures MixAll(key[|key|..], hash) == hash && key[0..] == key
  {
  }

  method DictionaryHash(key: string) returns (hash: bv32)
    ensures hash == Hash(key)
  {
    hide AddUp3, AddUp10, AddUp15, XorDown6, XorDown11, CharBits, MixAll;
    hash := 0;
    MixLast(key, 0);
    for i := 0 to |key|
      invariant MixAll(key[i..], hash) == MixAll(key, 0)
    {
      MixNext(key, i, hash);
      hash := hash + CharBits(key[i]);
      hash := AddUp10(hash);
      hash := XorDown6(hash);
    }
    MixLast(key, hash);
    hash := AddUp3(hash);
    hash := XorDown11(hash);
    hash := AddUp15(hash);
  }

  lemma MixOfKeys()
    ensures MixAll("", 0) == 0 && MixAll("a", 0) == MixOne(0, 97) && MixAll("ab", 0) == MixOne(MixOne(0, 97), 98)
  {
    hide MixOne;
    assert 'a' as int == 97 && 'b' as int == 98;
    assert "a"[1..] == "" && "ab"[1..] == "b" && "b"[1..] == "";
  }

  // The hash of some keys, worked out.
  lemma HashOfKeys()
    ensures Hash("") == 0 && Hash("a") == 0xCA2E_9442 && Hash("ab") == 0x45E6_1E58
  {
    hide MixAll;
    MixOfKeys();
  }

  // ---------- slots ----------

  type Cell = Option<string>

  const OCCUPIED: Cell -> nat := (c: Cell) => if c.Some? then 1 else 0

  // The slot that holds this key, or the number of slots.
  function Find(keys: seq<Cell>, key: string): (i: nat)
    ensures i <= |keys| && (i < |keys| ==> keys[i] == Some(key))
    ensures forall j | 0 <= j < i :: keys[j] != Some(key)
  {
    if keys == [] then 0
    else if keys[0] == Some(key) then 0
    else
      var i := Find(keys[1..], key);
      assert forall j | 1 <= j < i + 1 :: keys[j] == keys[1..][j - 1];
      i + 1
  }

  // No key is in two slots.
  ghost predicate Unique(keys: seq<Cell>) {
    forall i, j | 0 <= i < j < |keys| && keys[i].Some? :: keys[i] != keys[j]
  }

  ghost function Keys(keys: seq<Cell>): set<string> {
    set i | 0 <= i < |keys| && keys[i].Some? :: keys[i].value
  }

  // What the slots say: each key with its value, which may be NULL.
  ghost function Contents(keys: seq<Cell>, vals: seq<Cell>): map<string, Cell>
    requires |keys| == |vals|
  {
    map k | k in Keys(keys) :: vals[Find(keys, k)]
  }

  lemma FindUnique(keys: seq<Cell>, i: nat)
    requires Unique(keys) && i < |keys| && keys[i].Some?
    ensures Find(keys, keys[i].value) == i && keys[i].value in Keys(keys)
  {
  }

  lemma Absent(keys: seq<Cell>, key: string)
    ensures Find(keys, key) == |keys| <==> key !in Keys(keys)
  {
    if Find(keys, key) < |keys| {
      assert keys[Find(keys, key)].value in Keys(keys);
    }
  }

  // Fewer keys than slots: there is a hole.
  lemma {:induction false} Pigeonhole(keys: seq<Cell>)
    ensures Sum(OCCUPIED, keys) <= |keys|
    ensures Sum(OCCUPIED, keys) < |keys| <==> exists i :: 0 <= i < |keys| && keys[i] == None
  {
    if keys != [] {
      Pigeonhole(keys[1..]);
      if keys[0].Some? {
        if i :| 0 <= i < |keys| && keys[i] == None {
          assert keys[1..][i - 1] == None;
        }
        if i :| 0 <= i < |keys[1..]| && keys[1..][i] == None {
          assert keys[i + 1] == None;
        }
      }
    }
  }

  lemma {:induction false} SumConcat(a: seq<Cell>, b: seq<Cell>)
    ensures Sum(OCCUPIED, a + b) == Sum(OCCUPIED, a) + Sum(OCCUPIED, b)
  {
    if a == [] {
      assert a + b == b;
    } else {
      assert (a + b)[1..] == a[1..] + b;
      SumConcat(a[1..], b);
    }
  }

  // ---------- what the operations do to the slots ----------

  lemma Overwrite(keys: seq<Cell>, vals: seq<Cell>, i: nat, v: Cell)
    requires |keys| == |vals| && Unique(keys) && i < |keys| && keys[i].Some?
    ensures Contents(keys, vals[i := v]) == Contents(keys, vals)[keys[i].value := v]
  {
    FindUnique(keys, i);
    forall k | k in Keys(keys) ensures Find(keys, k) == i <==> k == keys[i].value {
      Absent(keys, k);
    }
  }

  lemma Insert(keys: seq<Cell>, vals: seq<Cell>, i: nat, key: string, v: Cell)
    requires |keys| == |vals| && Unique(keys) && i < |keys| && keys[i] == None && key !in Keys(keys)
    ensures Unique(keys[i := Some(key)])
    ensures Contents(keys[i := Some(key)], vals[i := v]) == Contents(keys, vals)[key := v]
    ensures Sum(OCCUPIED, keys[i := Some(key)]) == Sum(OCCUPIED, keys) + 1
  {
    var keys' := keys[i := Some(key)];
    SumUpdate(OCCUPIED, keys, i, Some(key));
    Absent(keys, key);
    KeysAfter(keys, i, Some(key));
    forall k | k in Keys(keys) ensures Find(keys', k) == Find(keys, k) && k != key {
      Absent(keys, k);
      FindUnique(keys', Find(keys, k));
    }
    FindUnique(keys', i);
  }

  lemma KeysAfter(keys: seq<Cell>, i: nat, c: Cell)
    requires Unique(keys) && i < |keys| && (c.Some? ==> c.value !in Keys(keys))
    ensures Unique(keys[i := c])
    ensures Keys(keys[i := c]) == Keys(keys) - (if keys[i].Some? then {keys[i].value} else {})
                                 + (if c.Some? then {c.value} else {})
  {
    var keys' := keys[i := c];
    forall j | 0 <= j < |keys| && keys[j].Some? ensures keys[j].value in Keys(keys) {
    }
    forall k | k in Keys(keys) && (keys[i].Some? ==> k != keys[i].value) ensures k in Keys(keys') {
      var j :| 0 <= j < |keys| && keys[j] == Some(k);
      assert keys'[j] == Some(k);
    }
    if c.Some? {
      assert keys'[i] == c;
    }
  }

  lemma Remove(keys: seq<Cell>, vals: seq<Cell>, i: nat, v: Cell)
    requires |keys| == |vals| && Unique(keys) && i < |keys| && keys[i].Some?
    ensures Unique(keys[i := None])
    ensures Contents(keys[i := None], vals[i := v]) == Contents(keys, vals) - {keys[i].value}
    ensures Sum(OCCUPIED, keys[i := None]) + 1 == Sum(OCCUPIED, keys)
  {
    hide Sum;
    var keys' := keys[i := None];
    SumUpdate(OCCUPIED, keys, i, None);
    KeysAfter(keys, i, None);
    FindUnique(keys, i);
    forall k | k in Keys(keys') ensures Find(keys', k) == Find(keys, k) != i {
      Absent(keys', k);
      FindUnique(keys, Find(keys', k));
    }
  }

  lemma Double(keys: seq<Cell>, vals: seq<Cell>, holes: seq<Cell>)
    requires |keys| == |vals| && Unique(keys) && forall i | 0 <= i < |holes| :: holes[i] == None
    ensures Unique(keys + holes)
    ensures Contents(keys + holes, vals + holes) == Contents(keys, vals)
    ensures Sum(OCCUPIED, keys + holes) == Sum(OCCUPIED, keys)
  {
    hide Keys, Unique, Find, Sum;
    SumConcat(keys, holes);
    SumZero(OCCUPIED, holes);
    DoubleKeys(keys, holes);
    forall k | k in Keys(keys) ensures Find(keys, k) < |keys| && Find(keys + holes, k) == Find(keys, k) {
      DoubleFind(keys, holes, k);
    }
  }

  lemma DoubleKeys(keys: seq<Cell>, holes: seq<Cell>)
    requires Unique(keys) && forall i | 0 <= i < |holes| :: holes[i] == None
    ensures Unique(keys + holes) && Keys(keys + holes) == Keys(keys)
  {
    var keys' := keys + holes;
    forall k | k in Keys(keys) ensures k in Keys(keys') {
      var j :| 0 <= j < |keys| && keys[j] == Some(k);
      assert keys'[j] == Some(k);
    }
  }

  lemma DoubleFind(keys: seq<Cell>, holes: seq<Cell>, k: string)
    requires k in Keys(keys) && Unique(keys + holes)
    ensures Find(keys, k) < |keys| && Find(keys + holes, k) == Find(keys, k)
  {
    hide Unique, Keys;
    Absent(keys, k);
    var i := Find(keys, k);
    assert (keys + holes)[i] == keys[i];
    FindUnique(keys + holes, i);
  }

  // The three arrays agree: n keys, each in one slot with its hash, and nothing in a hole.
  ghost predicate SlotsOk(keys: seq<Cell>, vals: seq<Cell>, hashes: seq<bv32>, n: nat) {
    && 0 < |keys| == |vals| == |hashes| && Unique(keys) && n == Sum(OCCUPIED, keys)
    && (forall i | 0 <= i < |keys| && keys[i].Some? :: hashes[i] == Hash(keys[i].value))
    && (forall i | 0 <= i < |keys| && keys[i] == None :: vals[i] == None)
  }

  lemma OverwriteOk(keys: seq<Cell>, vals: seq<Cell>, hashes: seq<bv32>, n: nat, i: nat, v: Cell)
    requires SlotsOk(keys, vals, hashes, n) && i < |keys| && keys[i].Some?
    ensures SlotsOk(keys, vals[i := v], hashes, n)
    ensures Contents(keys, vals[i := v]) == Contents(keys, vals)[keys[i].value := v]
  {
    Overwrite(keys, vals, i, v);
    hide Hash, Unique, Sum, Contents;
  }

  lemma InsertOk(keys: seq<Cell>, vals: seq<Cell>, hashes: seq<bv32>, n: nat, i: nat, k: string, v: Cell)
    requires SlotsOk(keys, vals, hashes, n) && i < |keys| && keys[i] == None && k !in Keys(keys)
    ensures SlotsOk(keys[i := Some(k)], vals[i := v], hashes[i := Hash(k)], n + 1)
    ensures Contents(keys[i := Some(k)], vals[i := v]) == Contents(keys, vals)[k := v]
  {
    Insert(keys, vals, i, k, v);
    hide Hash, Unique, Sum, Contents;
  }

  lemma RemoveOk(keys: seq<Cell>, vals: seq<Cell>, hashes: seq<bv32>, n: nat, i: nat)
    requires SlotsOk(keys, vals, hashes, n) && i < |keys| && keys[i].Some?
    ensures n > 0 && SlotsOk(keys[i := None], vals[i := None], hashes[i := 0], n - 1)
    ensures Contents(keys[i := None], vals[i := None]) == Contents(keys, vals) - {keys[i].value}
  {
    Remove(keys, vals, i, None);
    hide Hash, Unique, Sum, Contents;
  }

  lemma DoubleOk(keys: seq<Cell>, vals: seq<Cell>, hashes: seq<bv32>, n: nat, holes: seq<Cell>, zeros: seq<bv32>)
    requires SlotsOk(keys, vals, hashes, n) && |holes| == |zeros| && forall i | 0 <= i < |holes| :: holes[i] == None
    ensures SlotsOk(keys + holes, vals + holes, hashes + zeros, n)
    ensures Contents(keys + holes, vals + holes) == Contents(keys, vals)
  {
    Double(keys, vals, holes);
    hide Hash, Unique, Sum, Contents;
  }

  lemma EmptyOk(keys: seq<Cell>, hashes: seq<bv32>)
    requires 0 < |keys| == |hashes| && forall i | 0 <= i < |keys| :: keys[i] == None
    ensures SlotsOk(keys, keys, hashes, 0) && Contents(keys, keys) == map[]
  {
    SumZero(OCCUPIED, keys);
  }

  // The slots filled so far are counted by n, and when n is the number of slots there is no hole.
  lemma HoleOrFull(keys: seq<Cell>, vals: seq<Cell>, hashes: seq<bv32>, n: nat)
    requires SlotsOk(keys, vals, hashes, n)
    ensures 0 < |keys| && n <= |keys| && (n < |keys| ==> exists i :: 0 <= i < |keys| && keys[i] == None)
    ensures n == 0 ==> Keys(keys) == {}
  {
    Pigeonhole(keys);
    if n == 0 {
      forall i | 0 <= i < |keys| ensures keys[i] == None {
        SumHas(OCCUPIED, keys, i);
      }
    }
  }

  const DICTMINSZ: nat := 128

  // mem_double
  method MemDouble<T(0)>(a: array<T>, zero: T) returns (b: array<T>)
    ensures fresh(b) && b.Length == 2 * a.Length
    ensures b[..] == a[..] + seq(a.Length, _ => zero)
  {
    b := new T[2 * a.Length](_ => zero);
    for i := 0 to a.Length
      invariant b[..i] == a[..i] && forall j | a.Length <= j < b.Length :: b[j] == zero
    {
      b[i] := a[i];
    }
  }

  class Dictionary {
    var n: nat
    var size: nat
    var val: array<Cell>
    var key: array<Cell>
    var hash: array<bv32>

    ghost predicate Valid()
      reads this, val, key, hash
    {
      && key != val && (hash as object) != key && (hash as object) != val
      && size == key.Length && SlotsOk(key[..], val[..], hash[..], n)
    }

    ghost function Map(): map<string, Cell>
      requires Valid()
      reads this, val, key, hash
    {
      Contents(key[..], val[..])
    }

    // dictionary_new
    constructor (size0: nat)
      ensures Valid() && Map() == map[] && n == 0
      ensures size == if size0 < 128 then 128 else size0
      ensures fresh(val) && fresh(key) && fresh(hash)
    {
      var s := if size0 < DICTMINSZ then DICTMINSZ else size0;
      n := 0;
      size := s;
      val := new Cell[s](_ => None);
      key := new Cell[s](_ => None);
      hash := new bv32[s](_ => 0);
      new;
      assert val[..] == key[..];
      EmptyOk(key[..], hash[..]);
    }

    // The loop that get, set and unset share: the slot of a key, or size.  Strings are compared only where hashes
    // agree.
    method FindSlot(k: string, h: bv32) returns (i: nat)
      requires Valid() && h == Hash(k)
      ensures i == Find(key[..], k) && (i < size <==> k in Map())
    {
      hide Hash, Sum, Unique;
      Absent(key[..], k);
      i := 0;
      while i < size
        invariant i <= size
        invariant forall j | 0 <= j < i :: key[..][j] != Some(k)
      {
        assert key[i] == key[..][i] && hash[i] == hash[..][i];
        if key[i].Some? && h == hash[i] {
          if k == key[i].value {
            return;
          }
        }
        i := i + 1;
      }
    }

    // dictionary_get; isDef is what comparing the returned pointer with def tells.
    method Get(k: string, def: Cell) returns (v: Cell, isDef: bool)
      requires Valid()
      ensures (isDef <==> k !in Map()) && v == if k in Map() then Map()[k] else def
    {
      hide Hash, Sum, Unique;
      var h := DictionaryHash(k);
      var i := FindSlot(k, h);
      v, isDef := if i < size then val[i] else def, i >= size;
    }

    // Doubles the three arrays, as dictionary_set does when every slot is taken.
    method Grow()
      requires Valid()
      modifies this
      ensures Valid() && Map() == old(Map()) && n == old(n) && size == 2 * old(size)
      ensures fresh(val) && fresh(key) && fresh(hash)
    {
      hide Hash, Sum, Unique, Contents;
      DoubleOk(key[..], val[..], hash[..], n, seq(size, _ => None), seq(size, _ => 0));
      var val' := MemDouble(val, None);
      var key' := MemDouble(key, None);
      var hash' := MemDouble(hash, 0);
      val, key, hash, size := val', key', hash', size * 2;
    }

    // dictionary_set
    method Set(k: string, v: Cell)
      requires Valid()
      modifies this, val, key, hash
      ensures Valid() && Map() == old(Map())[k := v]
      ensures n == old(n) + if k in old(Map()) then 0 else 1
      ensures (val == old(val) && key == old(key) && hash == old(hash)) || (fresh(val) && fresh(key) && fresh(hash))
    {
      hide Hash, Sum, Unique, SlotsOk;
      HoleOrFull(key[..], val[..], hash[..], n);
      var h := DictionaryHash(k);
      if n > 0 {
        var i := FindSlot(k, h);
        if i < size {
          Replace(i, v);
          return;
        }
      }
      if n == size {
        Grow();
      }
      InsertNew(k, v, h);
    }

    method Replace(i: nat, v: Cell)
      requires Valid() && i < size && key[i].Some?
      modifies val
      ensures Valid() && Map() == old(Map())[key[i].value := v]
    {
      hide Hash, Sum, Unique, Contents;
      ghost var vals := val[..];
      OverwriteOk(key[..], vals, hash[..], n, i, v);
      val[i] := v;
      assert val[..] == vals[i := v];
    }

    // The end of dictionary_set: the key is new and there is a slot for it.
    method InsertNew(k: string, v: Cell, h: bv32)
      requires Valid() && k !in Map() && n < size && h == Hash(k)
      modifies this, val, key, hash
      ensures Valid() && Map() == old(Map())[k := v] && n == old(n) + 1
      ensures val == old(val) && key == old(key) && hash == old(hash)
    {
      hide Hash, Sum, Unique;
      HoleOrFull(key[..], val[..], hash[..], n);
      var i := 0;
      while i < size && key[i] != None
        invariant i <= size && forall j | 0 <= j < i :: key[..][j] != None
      {
        i := i + 1;
      }
      Write(i, Some(k), v, h, n + 1);
      hide SlotsOk;
      InsertOk(old(key[..]), old(val[..]), old(hash[..]), old(n), i, k, v);
    }

    // Three stores and the count.
    method Write(i: nat, c: Cell, v: Cell, h: bv32, n': nat)
      requires Valid() && i < size
      modifies this`n, val, key, hash
      ensures n == n' && key[..] == old(key[..])[i := c] && val[..] == old(val[..])[i := v]
      ensures hash[..] == old(hash[..])[i := h]
    {
      hide Hash, Sum, Unique;
      key[i] := c;
      val[i] := v;
      hash[i] := h;
      n := n';
    }

    // dictionary_unset
    method Unset(k: string)
      requires Valid()
      modifies this, val, key, hash
      ensures Valid() && Map() == old(Map()) - {k} && n == old(n) - if k in old(Map()) then 1 else 0
      ensures val == old(val) && key == old(key) && hash == old(hash)
    {
      hide Hash, Sum, Unique, SlotsOk, Contents;
      var h := DictionaryHash(k);
      var i := FindSlot(k, h);
      if i >= size {
        return;
      }
      RemoveOk(key[..], val[..], hash[..], n, i);
      Write(i, None, None, 0, n - 1);
    }
  }
}
