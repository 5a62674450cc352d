// pgDB/pgLocalDB.c: the list of files on this machine, kept in a table and, as far as it holds, in a bounded list in
// memory that is all a lookup asks.
module LocalDbs {
  import opened Rings
  import opened LoopLists

  datatype Stamp = Stamp(time: int, size: int)
  datatype Entry = Entry(name: string, stamp: Stamp)

  // The list, oldest entry first, and the table, by name.
  datatype Db = Db(cache: seq<Entry>, table: map<string, Stamp>)

  function Named(name: string): Entry -> bool {
    (e: Entry) => e.name == name
  }

  // The place of a name in the list, or the length of the list.
  function Place(cache: seq<Entry>, name: string): (i: nat)
    ensures i <= |cache| && (i < |cache| ==> cache[i].name == name)
    ensures forall j | 0 <= j < i :: cache[j].name != name
  {
    FirstIndex(cache, Named(name))
  }

  predicate Cached(db: Db, name: string) {
    Place(db.cache, name) < |db.cache|
  }

  // find_file_from_local_db of client.c
  predicate Current(db: Db, e: Entry) {
    Cached(db, e.name) && db.cache[Place(db.cache, e.name)].stamp == e.stamp
  }

  // loop_push_to_tail on a list with room for so many
  function Push(cache: seq<Entry>, e: Entry, room: nat): seq<Entry> {
    (if |cache| == room && room > 0 then cache[1..] else cache) + [e]
  }

  // UPDATE of the row of this name, if there is one
  function UpdateRow(table: map<string, Stamp>, e: Entry): map<string, Stamp> {
    if e.name in table then table[e.name := e.stamp] else table
  }

  // localDBAdd
  function Added(db: Db, e: Entry, room: nat): Db {
    if e.name in db.table then db.(table := UpdateRow(db.table, e))
    else Db(Push(db.cache, e, room), db.table[e.name := e.stamp])
  }

  // localDBUpdate
  function Updated(db: Db, e: Entry): Db {
    db.(table := UpdateRow(db.table, e))
  }

  // What client_pg_syncFile of clipg.c does for a file it has stored.
  function Stored(db: Db, e: Entry, room: nat): Db {
    if Cached(db, e.name) then Db(db.cache[Place(db.cache, e.name) := e], UpdateRow(db.table, e))
    else Added(db, e, room)
  }

  // ---------- list and table agree ----------

  ghost predicate Coherent(db: Db) {
    && (forall i, j | 0 <= i < j < |db.cache| :: db.cache[i].name != db.cache[j].name)
    && (forall i | 0 <= i < |db.cache| ::
         db.cache[i].name in db.table && db.table[db.cache[i].name] == db.cache[i].stamp)
  }

  // A hit is never stale.
  lemma HitIsTrue(db: Db, e: Entry)
    requires Coherent(db) && Current(db, e)
    ensures e.name in db.table && db.table[e.name] == e.stamp
  {
  }

  lemma PushKeepsCoherent(db: Db, e: Entry, room: nat)
    requires Coherent(db) && e.name !in db.table
    ensures Coherent(Db(Push(db.cache, e, room), db.table[e.name := e.stamp]))
  {
  }

  // Storing a file keeps list and table in agreement, records the file, and touches no other row.
  lemma StoreKeepsCoherent(db: Db, e: Entry, room: nat)
    requires Coherent(db)
    ensures Coherent(Stored(db, e, room)) && Stored(db, e, room).table == db.table[e.name := e.stamp]
  {
    if Cached(db, e.name) {
      assert db.cache[Place(db.cache, e.name)].name in db.table;
    } else if e.name !in db.table {
      PushKeepsCoherent(db, e, room);
    } else {
      assert forall i | 0 <= i < |db.cache| :: db.cache[i].name != e.name;
    }
  }

  // localDBAdd and localDBUpdate by themselves leave a stale entry exactly when the name is in the list with other
  // values.
  lemma AddIsCoherentIff(db: Db, e: Entry, room: nat)
    requires Coherent(db)
    ensures Coherent(Added(db, e, room)) <==> !Cached(db, e.name) || Current(db, e)
  {
    var db' := Added(db, e, room);
    if Cached(db, e.name) {
      var i := Place(db.cache, e.name);
      assert db.cache[i].name in db.table && db'.cache[i].stamp == db.cache[i].stamp;
    } else {
      assert forall i | 0 <= i < |db.cache| :: db.cache[i].name != e.name;
      if e.name !in db.table {
        PushKeepsCoherent(db, e, room);
      }
    }
  }

  lemma UpdateIsCoherentIff(db: Db, e: Entry)
    requires Coherent(db)
    ensures Coherent(Updated(db, e)) <==> !Cached(db, e.name) || Current(db, e)
  {
    var db' := Updated(db, e);
    if Cached(db, e.name) {
      var i := Place(db.cache, e.name);
      assert db.cache[i].name in db.table && db'.cache[i].stamp == db.cache[i].stamp;
    } else {
      assert forall i | 0 <= i < |db.cache| :: db.cache[i].name != e.name;
    }
  }

  // ---------- overflow ----------

  // The list holds every name of the table.
  ghost predicate Complete(db: Db) {
    forall name | name in db.table :: Cached(db, name)
  }

  lemma InCache(db: Db, name: string)
    ensures Cached(db, name) <==> exists i :: 0 <= i < |db.cache| && db.cache[i].name == name
  {
  }

  // The list goes on holding the whole table exactly as long as it has room for a new name.
  lemma StoreIsCompleteIff(db: Db, e: Entry, room: nat)
    requires Coherent(db) && Complete(db) && room >= 1 && |db.cache| <= room
    ensures Complete(Stored(db, e, room)) <==> e.name in db.table || |db.cache| < room
  {
    var db' := Stored(db, e, room);
    if e.name in db.table {
      assert Cached(db, e.name);
      forall name | name in db'.table ensures Cached(db', name) {
        assert Cached(db, name);
        assert db'.cache[Place(db.cache, name)].name == name;
      }
    } else {
      assert !Cached(db, e.name) by { InCache(db, e.name); }
      if |db.cache| < room {
        forall name | name in db'.table ensures Cached(db', name) {
          if name == e.name {
            assert db'.cache[|db.cache|].name == name;
          } else {
            assert Cached(db, name) && db'.cache[Place(db.cache, name)].name == name;
          }
        }
      } else {
        var lost := db.cache[0].name;
        assert lost in db'.table;
        forall i | 0 <= i < |db'.cache| ensures db'.cache[i].name != lost {
          assert i < room - 1 ==> db'.cache[i] == db.cache[i + 1];
        }
        assert !Cached(db', lost);
      }
    }
  }

  // A file that has dropped out of the list never comes back to it, however often it is stored again: every later
  // lookup misses although the table has the file.
  lemma DroppedStaysOut(db: Db, e: Entry, room: nat, name: string)
    requires Coherent(db) && name in db.table && !Cached(db, name)
    ensures name in Stored(db, e, room).table && !Cached(Stored(db, e, room), name)
  {
    var db' := Stored(db, e, room);
    forall i | 0 <= i < |db'.cache| ensures db'.cache[i].name != name {
      if !Cached(db, e.name) && e.name !in db.table {
        assert i + 1 < |db'.cache| && |db.cache| == room && room > 0 ==> db'.cache[i] == db.cache[i + 1];
      }
    }
  }

  // ---------- starting up ----------

  ghost predicate NamesDiffer(rows: seq<Entry>) {
    forall i, j | 0 <= i < j < |rows| :: rows[i].name != rows[j].name
  }

  // The rows of the table, by name.
  function Stamps(rows: seq<Entry>): map<string, Stamp> {
    if rows == [] then map[]
    else
      var last := rows[|rows| - 1];
      Stamps(rows[..|rows| - 1])[last.name := last.stamp]
  }

  // The list, filled row by row.
  function CacheOf(rows: seq<Entry>, room: nat): seq<Entry> {
    if rows == [] then [] else Push(CacheOf(rows[..|rows| - 1], room), rows[|rows| - 1], room)
  }

  // localDBInit
  function ReadBack(rows: seq<Entry>, room: nat): Db {
    Db(CacheOf(rows, room), Stamps(rows))
  }

  lemma {:induction false} CacheIsTail(rows: seq<Entry>, room: nat)
    requires room > 0
    ensures CacheOf(rows, room) == rows[if |rows| <= room then 0 else |rows| - room..]
    decreases |rows|
  {
    if rows != [] {
      var n := |rows| - 1;
      CacheIsTail(rows[..n], room);
      var k := if n <= room then 0 else n - room;
      assert rows[..n][k..] + [rows[n]] == rows[k..];
      assert n >= room ==> rows[k..][1..] == rows[k + 1..] && rows[..n][k..][1..] == rows[..n][k + 1..];
      assert n >= room ==> rows[..n][k + 1..] + [rows[n]] == rows[k + 1..];
    }
  }

  lemma {:induction false} RowsAreStamped(rows: seq<Entry>)
    requires NamesDiffer(rows)
    ensures forall i | 0 <= i < |rows| :: rows[i].name in Stamps(rows) && Stamps(rows)[rows[i].name] == rows[i].stamp
    decreases |rows|
  {
    if rows != [] {
      RowsAreStamped(rows[..|rows| - 1]);
    }
  }

  lemma {:induction false} OnlyRowsAreStamped(rows: seq<Entry>, name: string)
    requires name in Stamps(rows)
    ensures exists i :: 0 <= i < |rows| && rows[i].name == name
    decreases |rows|
  {
    var less := rows[..|rows| - 1];
    if name in Stamps(less) {
      OnlyRowsAreStamped(less, name);
      var i :| 0 <= i < |less| && less[i].name == name;
      assert rows[i].name == name;
    } else {
      assert rows[|rows| - 1].name == name;
    }
  }

  lemma TailAgrees(rows: seq<Entry>, k: nat)
    requires NamesDiffer(rows) && k <= |rows|
    ensures Coherent(Db(rows[k..], Stamps(rows)))
  {
    hide Stamps;
    RowsAreStamped(rows);
  }

  lemma TailIsComplete(rows: seq<Entry>, k: nat)
    requires NamesDiffer(rows) && k <= |rows|
    ensures Complete(Db(rows[k..], Stamps(rows))) <==> k == 0
  {
    hide Stamps, Place;
    var db := Db(rows[k..], Stamps(rows));
    if k == 0 {
      forall name | name in db.table ensures Cached(db, name) {
        OnlyRowsAreStamped(rows, name);
        var i :| 0 <= i < |rows| && rows[i].name == name;
        assert db.cache[i].name == name;
      }
    } else {
      RowsAreStamped(rows);
      assert rows[0].name in db.table;
      forall i | 0 <= i < |db.cache| ensures db.cache[i].name != rows[0].name {
        assert db.cache[i] == rows[k + i];
      }
      InCache(db, rows[0].name);
    }
  }

  // Reading the table back makes the list agree with it: the list holds the last rows it has room for, and the whole
  // table exactly when that has no more rows than the list has room.
  lemma ReadBackAgrees(rows: seq<Entry>, room: nat)
    requires NamesDiffer(rows) && room > 0
    ensures var db := ReadBack(rows, room);
            && Coherent(db) && |db.cache| <= room
            && db.cache == rows[if |rows| <= room then 0 else |rows| - room..]
            && (Complete(db) <==> |rows| <= room)
  {
    hide CacheOf, Stamps, Coherent, Complete, NamesDiffer;
    var k := if |rows| <= room then 0 else |rows| - room;
    CacheIsTail(rows, room);
    TailAgrees(rows, k);
    TailIsComplete(rows, k);
  }

  // ---------- the list is no longer than the table ----------

  lemma {:induction false} FewerThan(rows: seq<Entry>, names: set<string>)
    requires NamesDiffer(rows) && forall i | 0 <= i < |rows| :: rows[i].name in names
    ensures |rows| <= |names|
    decreases |rows|
  {
    if rows != [] {
      var last := rows[|rows| - 1].name;
      assert last in names;
      FewerThan(rows[..|rows| - 1], names - {last});
    }
  }

  // ---------- on the list of records ----------

  const MAX_FILES_NUM: nat := 1000

  class Record {
    const fileName: string
    var fileTime: int
    var fileSize: int

    constructor (name: string, stamp: Stamp)
      ensures fileName == name && fileTime == stamp.time && fileSize == stamp.size
    {
      fileName, fileTime, fileSize := name, stamp.time, stamp.size;
    }
  }

  ghost function EntryOf(r: Record): Entry
    reads r
  {
    Entry(r.fileName, Stamp(r.fileTime, r.fileSize))
  }

  // The records as values.
  ghost function Entries(rs: seq<Record>): (s: seq<Entry>)
    reads rs
    ensures |s| == |rs| && forall i | 0 <= i < |rs| :: s[i] == EntryOf(rs[i])
  {
    if rs == [] then [] else [EntryOf(rs[0])] + Entries(rs[1..])
  }

  lemma SamePlace(rs: seq<Record>, s: seq<Entry>, name: string)
    requires |rs| == |s| && forall i | 0 <= i < |s| :: rs[i].fileName == s[i].name
    ensures FirstIndex(rs, (r: Record) => r.fileName == name) == Place(s, name)
  {
  }

  ghost predicate Distinct(rs: seq<Record>) {
    forall i, j | 0 <= i < j < |rs| :: rs[i] != rs[j]
  }

  lemma DistinctPush(rs: seq<Record>, k: nat, r: Record)
    requires Distinct(rs) && r !in rs && k <= |rs|
    ensures Distinct(rs[k..] + [r])
  {
  }

  lemma PushIs(cache: seq<Entry>, k: nat, e: Entry, room: nat)
    requires |cache| <= room && room > 0 && k == if |cache| == room then 1 else 0
    ensures k <= |cache| && cache[k..] + [e] == Push(cache, e, room)
  {
  }

  class LocalDb {
    const list: LoopList<Record>
    var table: map<string, Stamp>

    ghost predicate Valid()
      reads this, list, list.items
    {
      list.Valid() && list.size == MAX_FILES_NUM && Distinct(list.Contents())
    }

    ghost function Records(): seq<Record>
      requires list.Valid()
      reads this, list, list.items
    {
      list.Contents()
    }

    ghost function Value(): Db
      requires Valid()
      reads this, list, list.items, Records()
    {
      Db(Entries(Records()), table)
    }

    // localDBInit, on a table with these rows
    constructor (rows: seq<Entry>)
      ensures Valid() && Value() == ReadBack(rows, MAX_FILES_NUM - 1) && fresh(list) && fresh(list.items)
    {
      var filler := new Record("", Stamp(0, 0));
      list := new LoopList<Record>(MAX_FILES_NUM, filler);
      table := Stamps(rows);
      new;
      hide Entries, Ring, FirstIndex, Distinct, Push, Stamps;
      assert Records() == [] && Entries(Records()) == CacheOf(rows[..0], MAX_FILES_NUM - 1);
      for i := 0 to |rows|
        invariant Valid() && fresh(list) && fresh(list.items) && table == Stamps(rows)
        invariant Entries(Records()) == CacheOf(rows[..i], MAX_FILES_NUM - 1)
      {
        PushNew(rows[i].name, rows[i].stamp);
        assert rows[..i + 1][..i] == rows[..i];
      }
      assert rows[..|rows|] == rows;
    }

    // localDBGetRec
    method GetRec(name: string) returns (r: Record?)
      requires Valid()
      ensures (r != null <==> Cached(Value(), name)) && (r != null ==> r == Records()[Place(Value().cache, name)])
    {
      hide Entries, Ring, FirstIndex;
      SamePlace(Records(), Entries(Records()), name);
      var p := list.Search((r: Record) => r.fileName == name);
      r := if p == [] then null else p[0];
    }

    // localDBAdd
    method Add(name: string, time: int, size: int)
      requires Valid()
      modifies this`table, list, list.items
      ensures Valid() && Value() == Added(old(Value()), Entry(name, Stamp(time, size)), MAX_FILES_NUM - 1)
    {
      hide Entries, Ring, FirstIndex;
      if name in table {
        table := table[name := Stamp(time, size)];
      } else {
        table := table[name := Stamp(time, size)];
        PushNew(name, Stamp(time, size));
      }
    }

    // The new record of localDBAdd.
    method PushNew(name: string, stamp: Stamp)
      requires Valid()
      modifies list, list.items
      ensures Valid() && Entries(Records()) == Push(old(Entries(Records())), Entry(name, stamp), MAX_FILES_NUM - 1)
    {
      hide Entries, Ring, FirstIndex, Distinct, Push;
      var r := new Record(name, stamp);
      ghost var rs := Records();
      ghost var cache := Entries(rs);
      var dropped := list.PushToTail(r);
      DropFront(dropped, Records(), rs, r);
      assert Entries(rs) == cache;
      DistinctPush(rs, |dropped|, r);
      EntriesPush(rs, |dropped|, r);
      PushIs(cache, |dropped|, Entry(name, stamp), MAX_FILES_NUM - 1);
    }

    // localDBUpdate
    method Update(name: string, time: int, size: int)
      requires Valid()
      modifies this`table
      ensures Valid() && Value() == Updated(old(Value()), Entry(name, Stamp(time, size)))
      ensures table == if name in old(table) then old(table)[name := Stamp(time, size)] else old(table)
    {
      if name in table {
        table := table[name := Stamp(time, size)];
      }
    }

    // localDBDelAll
    method DelAll()
      requires Valid()
      modifies this`table, list
      ensures Valid() && Value() == Db([], map[])
    {
      table := map[];
      var dropped := list.Clear();
    }

    // find_file_from_local_db of client.c
    method FindFile(e: Entry) returns (found: bool)
      requires Valid()
      ensures found <==> Current(Value(), e)
    {
      var r := GetRec(e.name);
      found := r != null && r.fileTime == e.stamp.time && r.fileSize == e.stamp.size;
    }

    // A record changed through its pointer.
    method Restamp(r: Record, ghost i: nat, e: Entry)
      requires Valid() && i < |Records()| && Records()[i] == r && r.fileName == e.name
      modifies r
      ensures Valid() && Entries(Records()) == old(Entries(Records()))[i := e]
    {
      hide Entries, Ring, FirstIndex;
      assert Distinct(Records());
      assert forall j | 0 <= j < |Records()| && j != i :: Records()[j] != r;
      r.fileSize := e.stamp.size;
      r.fileTime := e.stamp.time;
    }

    // What client_pg_syncFile of clipg.c does for a file it has stored: the record is changed through its pointer.
    method Store(e: Entry)
      requires Valid()
      modifies this`table, list, list.items, Records()
      ensures Valid() && Value() == Stored(old(Value()), e, MAX_FILES_NUM - 1)
    {
      hide Entries, Ring, FirstIndex, Place, Distinct, Push, Added, UpdateRow;
      var r := GetRec(e.name);
      if r != null {
        Restamp(r, Place(Value().cache, e.name), e);
        Update(e.name, e.stamp.time, e.stamp.size);
      } else {
        Add(e.name, e.stamp.time, e.stamp.size);
      }
    }
  }

  lemma DropFront<T>(dropped: seq<T>, s: seq<T>, before: seq<T>, x: T)
    requires dropped + s == before + [x] && |dropped| <= |before|
    ensures s == before[|dropped|..] + [x]
  {
    assert s == (dropped + s)[|dropped|..];
  }

  lemma EntriesPush(rs: seq<Record>, k: nat, r: Record)
    requires k <= |rs|
    ensures Entries(rs[k..] + [r]) == Entries(rs)[k..] + [EntryOf(r)]
  {
    hide *;
    var t := rs[k..] + [r];
    forall i | 0 <= i < |t| ensures Entries(t)[i] == (Entries(rs)[k..] + [EntryOf(r)])[i] {
      if i < |rs| - k {
        assert t[i] == rs[k + i];
        assert Entries(rs)[k..][i] == Entries(rs)[k + i];
      }
    }
  }
}
