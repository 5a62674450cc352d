// What whole runs of file syncs add up to: the bytes stored, and what a later sync asks for.
module SyncRuns {
  import opened Wrappers
  import opened LocalDbs
  import opened FileSyncs

  // ---------- the bytes stored ----------

  // A file that has come, with the bodies accepted for it.
  datatype Download = Download(name: string, bodies: seq<seq<byte>>)

  // The files that come with these messages; bodies are those accepted for the current one so far.
  function Downloads(s: Sync, ms: seq<Message>, bodies: seq<seq<byte>>): seq<Download>
    decreases |ms|
  {
    if ms == [] || !Enabled(s, ms[0]) then []
    else
      var s1 := Take(s, ms[0]);
      match ms[0]
      case Begin => Downloads(s1, ms[1..], [])
      case Body(data) => Downloads(s1, ms[1..], if AcceptsBody(s, data) then bodies + [data] else bodies)
      case End =>
        if AcceptsEnd(s) then [Download(s.files[s.curNo].name, bodies)] + Downloads(s1, ms[1..], [])
        else Downloads(s1, ms[1..], bodies)
  }

  function Written(disk: map<string, seq<byte>>, ds: seq<Download>): map<string, seq<byte>>
    decreases |ds|
  {
    if ds == [] then disk else Written(disk[ds[0].name := Concat(ds[0].bodies)], ds[1..])
  }

  // Each of these files is one of the list, whole.
  ghost predicate AllWhole(ds: seq<Download>, files: seq<File>) {
    forall d | d in ds ::
      exists i :: 0 <= i < |files| && files[i].name == d.name && |Concat(d.bodies)| == files[i].size
  }

  ghost predicate Holds(s: Sync, bodies: seq<seq<byte>>) {
    Got(s) == Concat(bodies) && (s.buffer.None? ==> bodies == [])
  }

  lemma {:induction false} ConcatOneMore(pieces: seq<seq<byte>>, p: seq<byte>)
    ensures Concat(pieces + [p]) == Concat(pieces) + p
  {
    if pieces == [] {
      assert pieces + [p] == [p] && [p][1..] == [] && p + [] == p;
      assert Concat([p]) == p + Concat([]);
    } else {
      assert (pieces + [p])[0] == pieces[0] && (pieces + [p])[1..] == pieces[1..] + [p];
      ConcatOneMore(pieces[1..], p);
      assert pieces[0] + (Concat(pieces[1..]) + p) == pieces[0] + Concat(pieces[1..]) + p;
    }
  }

  lemma BodyHolds(s: Sync, data: seq<byte>, bodies: seq<seq<byte>>)
    requires Holds(s, bodies) && Enabled(s, Body(data))
    ensures var s1 := Take(s, Body(data));
            && s1.disk == s.disk && s1.files == s.files
            && Holds(s1, if AcceptsBody(s, data) then bodies + [data] else bodies)
  {
    ConcatOneMore(bodies, data);
  }

  lemma EndHolds(s: Sync, bodies: seq<seq<byte>>)
    requires Holds(s, bodies) && Enabled(s, End)
    ensures var s1 := Take(s, End);
            s1.files == s.files
            && if AcceptsEnd(s) then s1.disk == s.disk[s.files[s.curNo].name := Concat(bodies)] && Holds(s1, [])
               else s1 == s
  {
    if AcceptsEnd(s) {
      GetGoesOn(AfterStore(s, Got(s)));
      hide Concat, NextFile, Stored;
      EmptyHolds();
    }
  }

  lemma EmptyHolds()
    ensures Concat([]) == []
  {
  }

  lemma WholeFirst(d: Download, ds: seq<Download>, files: seq<File>, i: nat)
    requires AllWhole(ds, files) && i < |files| && files[i].name == d.name && |Concat(d.bodies)| == files[i].size
    ensures AllWhole([d] + ds, files)
  {
  }

  lemma {:induction false} BodiesAreStored(s: Sync, ms: seq<Message>, s': Sync, bodies: seq<seq<byte>>)
    requires Run(s, ms, s') && GoodList(s.files) && Holds(s, bodies)
    ensures s'.disk == Written(s.disk, Downloads(s, ms, bodies)) && AllWhole(Downloads(s, ms, bodies), s.files)
    decreases |ms|
  {
    hide Take, Enabled, Holds, Concat, GoodList, Run;
    if ms == [] {
      RunIs(s, ms, s');
    } else {
      RunFirst(s, ms, s');
      var s1 := Take(s, ms[0]);
      match ms[0]
      case Begin =>
        BeginHolds(s);
        BodiesAreStored(s1, ms[1..], s', []);
      case Body(data) =>
        EnabledIs(s, ms[0]);
        BodyHolds(s, data, bodies);
        BodiesAreStored(s1, ms[1..], s', if AcceptsBody(s, data) then bodies + [data] else bodies);
      case End =>
        EnabledIs(s, ms[0]);
        EndHolds(s, bodies);
        if AcceptsEnd(s) {
          EndIsWhole(s, bodies);
          BodiesAreStored(s1, ms[1..], s', []);
          WholeFirst(Download(s.files[s.curNo].name, bodies), Downloads(s1, ms[1..], []), s.files, s.curNo);
        } else {
          BodiesAreStored(s1, ms[1..], s', bodies);
        }
    }
  }

  lemma BeginHolds(s: Sync)
    requires Enabled(s, Begin)
    ensures Take(s, Begin).disk == s.disk && Take(s, Begin).files == s.files && Holds(Take(s, Begin), [])
  {
  }

  lemma EnabledIs(s: Sync, m: Message)
    requires Enabled(s, m)
    ensures s.curNo < |s.files|
  {
  }

  lemma EndIsWhole(s: Sync, bodies: seq<seq<byte>>)
    requires Holds(s, bodies) && GoodList(s.files) && s.curNo < |s.files| && AcceptsEnd(s)
    ensures |Concat(bodies)| == s.files[s.curNo].size
  {
  }

  // The disk after any messages holds, for every file that has come whole, exactly the bodies accepted for it, one
  // after the other, with the listed size; and is otherwise as it was.
  lemma AcceptedBodiesAreStored(files: seq<File>, disk: map<string, seq<byte>>, db: Db, ms: seq<Message>, s: Sync)
    requires GoodList(files) && Run(Start(files, disk, db), ms, s)
    ensures var ds := Downloads(Start(files, disk, db), ms, []);
            s.disk == Written(disk, ds) && AllWhole(ds, files)
  {
    GetGoesOn(NewSync(files, disk, db));
    hide NextFile, Run, Downloads, Written, AllWhole, GoodList;
    BodiesAreStored(Start(files, disk, db), ms, s, []);
  }

  // ---------- what a sync asks for ----------

  // Going on comes to the end exactly when every file from here on is current, and else to the first that is not.
  lemma {:induction false} NextIsQuietIff(s: Sync)
    requires !s.finished && s.curNo <= |s.files|
    ensures NextFile(s).finished <==> forall j | s.curNo <= j < |s.files| :: Current(s.db, Listed(s.files[j]))
    ensures NextFile(s).finished ==> NextFile(s).asked == s.asked
    ensures !NextFile(s).finished ==>
              && s.curNo <= NextFile(s).curNo < |s.files| && !Current(s.db, Listed(s.files[NextFile(s).curNo]))
              && forall j | s.curNo <= j < NextFile(s).curNo :: Current(s.db, Listed(s.files[j]))
    decreases |s.files| - s.curNo
  {
    hide Current, NextFile;
    GetStep(s);
    if s.curNo < |s.files| && Current(s.db, Listed(s.files[s.curNo])) {
      NextIsQuietIff(s.(curNo := s.curNo + 1));
    }
  }

  // A sync is over at once, without a file asked for, exactly when every listed file is current.
  lemma StartIsQuietIff(files: seq<File>, disk: map<string, seq<byte>>, db: Db)
    ensures Start(files, disk, db).finished <==> forall i | 0 <= i < |files| :: Current(db, Listed(files[i]))
    ensures Start(files, disk, db).finished ==> Start(files, disk, db).asked == []
  {
    hide Current, NextFile;
    NextIsQuietIff(NewSync(files, disk, db));
  }

  // ---------- what the list in memory holds ----------

  // A message changes the table and the list by storing the current file, or not at all.
  lemma TakeStoresOrNot(s: Sync, m: Message)
    requires Enabled(s, m)
    ensures Take(s, m).files == s.files
    ensures Take(s, m).db == s.db || exists data :: Take(s, m).db == AfterStore(s, data).db
  {
    if m.End? {
      GetGoesOn(AfterStore(s, Got(s)));
      hide NextFile, Stored;
    }
  }

  function CacheNames(cache: seq<Entry>): (names: seq<string>)
    ensures |names| == |cache| && forall i | 0 <= i < |cache| :: names[i] == cache[i].name
  {
    seq(|cache|, i requires 0 <= i < |cache| => cache[i].name)
  }

  // The names of the listed files that have no row in the table yet, in list order.
  function NewNames(files: seq<File>, table: map<string, Stamp>): seq<string> {
    if files == [] then []
    else
      var f := files[|files| - 1];
      NewNames(files[..|files| - 1], table) + if f.name in table then [] else [f.name]
  }

  // The last so many of them.
  function LastOf(names: seq<string>, room: nat): seq<string> {
    if |names| <= room then names else names[|names| - room..]
  }

  // The list holds the names it began with and the new ones so far, as far as there is room.
  ghost predicate HoldsLast(s: Sync, db0: Db)
    requires s.curNo <= |s.files|
  {
    CacheNames(s.db.cache) == LastOf(CacheNames(db0.cache) + NewNames(s.files[..s.curNo], db0.table), ROOM)
  }

  lemma NewNamesNext(files: seq<File>, n: nat, table: map<string, Stamp>)
    requires n < |files|
    ensures NewNames(files[..n + 1], table)
         == NewNames(files[..n], table) + if files[n].name in table then [] else [files[n].name]
  {
    assert files[..n + 1][..n] == files[..n] && files[..n + 1][n] == files[n];
  }

  lemma LastOfNext(names: seq<string>, name: string, room: nat)
    requires room >= 1
    ensures var l := LastOf(names, room);
            LastOf(names + [name], room) == (if |l| == room then l[1..] else l) + [name]
  {
  }

  // A name that is still to come is in the table exactly when it was at the start.
  lemma StillToCome(s: Sync, disk0: map<string, seq<byte>>, db0: Db, i: nat)
    requires Inv(s, disk0, db0) && GoodList(s.files) && s.curNo <= i < |s.files|
    ensures s.files[i].name in s.db.table <==> s.files[i].name in db0.table
  {
    hide Coherent;
    assert !Fetched(s, s.files[i].name);
  }

  lemma SkipHoldsLast(s: Sync, disk0: map<string, seq<byte>>, db0: Db)
    requires Inv(s, disk0, db0) && GoodList(s.files) && s.curNo < |s.files| && HoldsLast(s, db0)
    requires Current(s.db, Listed(s.files[s.curNo]))
    ensures HoldsLast(s.(curNo := s.curNo + 1), db0)
  {
    hide *;
    IsCoherent(s, disk0, db0);
    HitIsTrue(s.db, Listed(s.files[s.curNo]));
    ListedName(s.files[s.curNo]);
    StillToCome(s, disk0, db0, s.curNo);
    NewNamesNext(s.files, s.curNo, db0.table);
    var names := NewNames(s.files[..s.curNo], db0.table);
    assert names + [] == names;
    HoldsLastIs(s, db0);
    HoldsLastIs(s.(curNo := s.curNo + 1), db0);
  }

  lemma ListedName(f: File)
    ensures Listed(f).name == f.name
  {
  }

  lemma {:induction false} NextHoldsLast(s: Sync, disk0: map<string, seq<byte>>, db0: Db)
    requires Inv(s, disk0, db0) && NothingAskedHere(s) && GoodList(s.files) && s.curNo <= |s.files| && HoldsLast(s, db0)
    ensures NextFile(s).curNo <= |s.files| && NextFile(s).files == s.files && HoldsLast(NextFile(s), db0)
    decreases |s.files| - s.curNo
  {
    hide Inv, NothingAskedHere, GoodList, Current, NextFile, LastOf, NewNames;
    GetStep(s);
    if s.curNo < |s.files| && Current(s.db, Listed(s.files[s.curNo])) {
      SkipHoldsLast(s, disk0, db0);
      SkipKeepsInv(s, disk0, db0);
      NextHoldsLast(s.(curNo := s.curNo + 1), disk0, db0);
    }
  }

  // Storing a file changes the names in the list by a push of a new one, or not at all.
  lemma StoredNames(db: Db, e: Entry)
    requires Coherent(db)
    ensures var names := CacheNames(Stored(db, e, ROOM).cache);
            names == if e.name in db.table then CacheNames(db.cache)
                     else (if |db.cache| == ROOM then CacheNames(db.cache)[1..] else CacheNames(db.cache)) + [e.name]
  {
    if Cached(db, e.name) {
      assert db.cache[Place(db.cache, e.name)].name in db.table;
    }
  }

  lemma LastHolds(first: seq<string>, news: seq<string>, names: seq<string>, name: string, known: bool)
    requires names == LastOf(first + news, ROOM)
    ensures LastOf(first + (news + if known then [] else [name]), ROOM)
         == if known then names else (if |names| == ROOM then names[1..] else names) + [name]
  {
    hide LastOf;
    if known {
      assert news + [] == news;
    } else {
      assert first + (news + [name]) == first + news + [name];
      LastOfNext(first + news, name, ROOM);
    }
  }

  lemma StoreHoldsLast(s: Sync, data: seq<byte>, disk0: map<string, seq<byte>>, db0: Db)
    requires Inv(s, disk0, db0) && GoodList(s.files) && s.curNo < |s.files| && HoldsLast(s, db0)
    ensures HoldsLast(AfterStore(s, data), db0)
  {
    hide *;
    var f, s1 := s.files[s.curNo], AfterStore(s, data);
    AfterStoreIs(s, data);
    IsCoherent(s, disk0, db0);
    StoredNames(s.db, Listed(f));
    StillToCome(s, disk0, db0, s.curNo);
    NewNamesNext(s.files, s.curNo, db0.table);
    HoldsLastIs(s, db0);
    HoldsLastIs(s1, db0);
    LastHolds(CacheNames(db0.cache), NewNames(s.files[..s.curNo], db0.table), CacheNames(s.db.cache),
              f.name, f.name in db0.table);
  }

  lemma AfterStoreIs(s: Sync, data: seq<byte>)
    requires s.curNo < |s.files|
    ensures var s1, f := AfterStore(s, data), s.files[s.curNo];
            && s1.files == s.files && s1.curNo == s.curNo + 1 && s1.db == Stored(s.db, Listed(f), ROOM)
            && Listed(f).name == f.name
  {
  }

  lemma IsCoherent(s: Sync, disk0: map<string, seq<byte>>, db0: Db)
    requires Inv(s, disk0, db0)
    ensures Coherent(s.db)
  {
  }

  lemma HoldsLastIs(s: Sync, db0: Db)
    requires s.curNo <= |s.files|
    ensures HoldsLast(s, db0) <==>
              CacheNames(s.db.cache) == LastOf(CacheNames(db0.cache) + NewNames(s.files[..s.curNo], db0.table), ROOM)
  {
  }

  lemma TakeHoldsLast(s: Sync, m: Message, disk0: map<string, seq<byte>>, db0: Db)
    requires Inv(s, disk0, db0) && Waiting(s) && GoodList(s.files) && Enabled(s, m)
    requires s.curNo <= |s.files| && HoldsLast(s, db0)
    ensures Take(s, m).files == s.files && Take(s, m).curNo <= |s.files| && HoldsLast(Take(s, m), db0)
  {
    hide Inv, NextFile, Stored, LastOf, NewNames, CacheNames, Current;
    if m.End? && AcceptsEnd(s) {
      SizeIsPositive(s);
      StoredKeepsInv(s, Got(s), disk0, db0);
      StoreHoldsLast(s, Got(s), disk0, db0);
      NextHoldsLast(AfterStore(s, Got(s)), disk0, db0);
    }
  }

  lemma SizeIsPositive(s: Sync)
    requires GoodList(s.files) && s.curNo < |s.files|
    ensures s.files[s.curNo].size > 0
  {
  }

  lemma {:induction false} RunHoldsLast(s: Sync, ms: seq<Message>, s': Sync, disk0: map<string, seq<byte>>, db0: Db)
    requires Inv(s, disk0, db0) && Waiting(s) && GoodList(s.files) && Run(s, ms, s')
    requires s.curNo <= |s.files| && HoldsLast(s, db0)
    ensures s'.curNo <= |s'.files| && HoldsLast(s', db0)
    decreases |ms|
  {
    hide Inv, Waiting, Take, Enabled, HoldsLast, GoodList, Run;
    if ms == [] {
      RunIs(s, ms, s');
    } else {
      RunFirst(s, ms, s');
      TakeKeepsInv(s, ms[0], disk0, db0);
      TakeHoldsLast(s, ms[0], disk0, db0);
      RunHoldsLast(Take(s, ms[0]), ms[1..], s', disk0, db0);
    }
  }

  lemma StartHoldsLast(files: seq<File>, disk: map<string, seq<byte>>, db: Db)
    requires Coherent(db) && |db.cache| <= ROOM && GoodList(files)
    ensures var s := Start(files, disk, db); s.curNo <= |s.files| && HoldsLast(s, db)
  {
    var s := NewSync(files, disk, db);
    assert CacheNames(db.cache) + [] == CacheNames(db.cache) && files[..0] == [];
    assert HoldsLast(s, db);
    hide Coherent, NextFile, HoldsLast;
    NextHoldsLast(s, disk, db);
  }

  lemma RecordedIsCurrentIff(db: Db, f: File)
    requires Coherent(db) && Recorded(db, f)
    ensures Current(db, Listed(f)) <==> f.name in CacheNames(db.cache)
  {
    InCache(db, f.name);
    if Cached(db, f.name) {
      assert CacheNames(db.cache)[Place(db.cache, f.name)] == f.name;
    }
    if f.name in CacheNames(db.cache) {
      var i :| 0 <= i < |db.cache| && CacheNames(db.cache)[i] == f.name;
      assert db.cache[i].name == f.name;
    }
  }

  // After a sync that came to its end, whatever its messages, the next one with the same list asks for nothing exactly
  // when every listed name is among the last 999 of those the list in memory began with and, behind them, those that
  // were new to the table.
  lemma NextSyncIsQuietIff(files: seq<File>, disk: map<string, seq<byte>>, db: Db, ms: seq<Message>, s: Sync)
    requires Coherent(db) && |db.cache| <= ROOM && GoodList(files)
    requires Run(Start(files, disk, db), ms, s) && s.finished
    ensures var t := Start(files, s.disk, s.db);
            && (t.finished <==>
                  forall i | 0 <= i < |files| ::
                    files[i].name in LastOf(CacheNames(db.cache) + NewNames(files, db.table), ROOM))
            && (t.finished ==> t.asked == [])
  {
    hide *;
    StartIsGood(files, disk, db);
    StartHoldsLast(files, disk, db);
    RunKeepsInv(Start(files, disk, db), ms, s, disk, db);
    RunHoldsLast(Start(files, disk, db), ms, s, disk, db);
    AtItsEnd(s, disk, db);
    SyncIsCorrect(files, disk, db, ms, s);
    forall i | 0 <= i < |files|
      ensures Current(s.db, Listed(files[i])) <==>
                files[i].name in LastOf(CacheNames(db.cache) + NewNames(files, db.table), ROOM)
    {
      RecordedIsCurrentIff(s.db, files[i]);
    }
    StartIsQuietIff(files, s.disk, s.db);
  }

  lemma AtItsEnd(s: Sync, disk0: map<string, seq<byte>>, db0: Db)
    requires Inv(s, disk0, db0) && s.finished && HoldsLast(s, db0)
    ensures Coherent(s.db)
    ensures CacheNames(s.db.cache) == LastOf(CacheNames(db0.cache) + NewNames(s.files, db0.table), ROOM)
  {
    assert s.files[..|s.files|] == s.files;
    hide Coherent, LastOf, NewNames;
  }

  // ---------- while everything fits the list ----------

  function Names(files: seq<File>): set<string> {
    set i | 0 <= i < |files| :: files[i].name
  }

  lemma {:induction false} NewNamesAre(files: seq<File>, table: map<string, Stamp>)
    requires GoodList(files)
    ensures var names := NewNames(files, table);
            && (forall i, j | 0 <= i < j < |names| :: names[i] != names[j])
            && (forall f | f in files :: f.name in table || f.name in names)
            && (forall n | n in names :: n !in table && n in Names(files))
  {
    if files != [] {
      var n := |files| - 1;
      var less := files[..n];
      assert forall i | 0 <= i < n :: less[i] == files[i];
      NewNamesAre(less, table);
      assert forall x | x in Names(less) :: x in Names(files) && x != files[n].name;
      assert forall f | f in files :: f in less || f == files[n];
    }
  }

  predicate Distinct(names: seq<string>) {
    forall i, j | 0 <= i < j < |names| :: names[i] != names[j]
  }

  lemma {:induction false} DistinctFit(names: seq<string>, all: set<string>)
    requires Distinct(names) && forall n | n in names :: n in all
    ensures |names| <= |all|
    decreases |names|
  {
    if names != [] {
      var last := names[|names| - 1];
      DistinctFit(names[..|names| - 1], all - {last});
    }
  }

  lemma CacheIsSmall(db: Db, files: seq<File>)
    requires Coherent(db) && GoodList(files)
    ensures |CacheNames(db.cache) + NewNames(files, db.table)| <= |db.table.Keys + Names(files)|
  {
    var first, news := CacheNames(db.cache), NewNames(files, db.table);
    NewNamesAre(files, db.table);
    assert Distinct(first) && forall n | n in first :: n in db.table;
    hide NewNames, CacheNames, Names, Coherent, GoodList;
    assert Distinct(first + news) by {
      assert forall i | 0 <= i < |first| :: first[i] in first;
      assert forall i | 0 <= i < |news| :: news[i] in news;
    }
    DistinctFit(first + news, db.table.Keys + Names(files));
  }

  // That is so as long as the list holds the whole table, and the names in the table and in the list of files have
  // room in memory together.
  lemma SecondSyncIsQuiet(files: seq<File>, disk: map<string, seq<byte>>, db: Db, ms: seq<Message>, s: Sync)
    requires Coherent(db) && Complete(db) && GoodList(files) && |db.table.Keys + Names(files)| <= ROOM
    requires Run(Start(files, disk, db), ms, s) && s.finished
    ensures var t := Start(files, s.disk, s.db); t.finished && t.asked == []
  {
    hide Run, Coherent, Complete, GoodList, Start, NewNames, Names;
    CacheIsSmall(db, files);
    NextSyncIsQuietIff(files, disk, db, ms, s);
    var names := CacheNames(db.cache) + NewNames(files, db.table);
    assert LastOf(names, ROOM) == names;
    NewNamesAre(files, db.table);
    forall i | 0 <= i < |files| ensures files[i].name in names {
      assert files[i] in files;
      if files[i].name in db.table {
        InTheCache(db, files[i].name);
      }
    }
  }

  lemma InTheCache(db: Db, name: string)
    requires Complete(db) && name in db.table
    ensures name in CacheNames(db.cache)
  {
    assert Cached(db, name);
    assert CacheNames(db.cache)[Place(db.cache, name)] == name;
  }

  // ---------- when it does not ----------

  lemma {:induction false} NamesOfCache(cache: seq<Entry>)
    ensures |set i | 0 <= i < |cache| :: cache[i].name| <= |cache|
    decreases |cache|
  {
    if cache != [] {
      var n := |cache| - 1;
      var less := cache[..n];
      NamesOfCache(less);
      assert (set i | 0 <= i < |cache| :: cache[i].name) == (set i | 0 <= i < n :: less[i].name) + {cache[n].name};
    }
  }

  // A list of more files than the list in memory has entries is never current as a whole.
  lemma MoreThanCached(files: seq<File>, db: Db)
    requires GoodList(files) && |files| > |db.cache|
    ensures exists i :: 0 <= i < |files| && !Current(db, Listed(files[i]))
  {
    var names := set i | 0 <= i < |db.cache| :: db.cache[i].name;
    var rows := seq(|files|, i requires 0 <= i < |files| => Listed(files[i]));
    NamesOfCache(db.cache);
    if forall i | 0 <= i < |files| :: Current(db, Listed(files[i])) {
      forall i | 0 <= i < |rows| ensures rows[i].name in names {
        assert Current(db, Listed(files[i]));
        assert db.cache[Place(db.cache, files[i].name)].name in names;
      }
      FewerThan(rows, names);
    }
  }

  lemma {:induction false} RunStaysBounded(s: Sync, ms: seq<Message>, s': Sync)
    requires Run(s, ms, s') && |s.db.cache| <= ROOM
    ensures |s'.db.cache| <= ROOM
    decreases |ms|
  {
    hide Take, Enabled, AfterStore, Run;
    if ms == [] {
      RunIs(s, ms, s');
    } else {
      RunFirst(s, ms, s');
      TakeStoresOrNot(s, ms[0]);
      EnabledIs(s, ms[0]);
      var s1 := Take(s, ms[0]);
      if s1.db != s.db {
        var data :| s1.db == AfterStore(s, data).db;
        StoreStaysBounded(s, data);
      }
      RunStaysBounded(s1, ms[1..], s');
    }
  }

  lemma StoreStaysBounded(s: Sync, data: seq<byte>)
    requires |s.db.cache| <= ROOM && s.curNo < |s.files|
    ensures |AfterStore(s, data).db.cache| <= ROOM
  {
  }

  // With a list of 1000 files or more no sync is ever the last: after each one the next asks for files again.
  lemma OverfullIsNeverQuiet(files: seq<File>, disk: map<string, seq<byte>>, db: Db, ms: seq<Message>, s: Sync)
    requires GoodList(files) && |files| >= 1000 && |db.cache| < 1000 && Run(Start(files, disk, db), ms, s)
    ensures !Start(files, s.disk, s.db).finished
  {
    hide Run, GoodList, Current, NextFile;
    GetGoesOn(NewSync(files, disk, db));
    RunStaysBounded(Start(files, disk, db), ms, s);
    MoreThanCached(files, s.db);
    StartIsQuietIff(files, s.disk, s.db);
  }

  // A listed file that is in the table but has dropped out of the list; it is not passed over.
  ghost predicate Out(s: Sync, i: nat) {
    && i < |s.files| && Coherent(s.db) && s.files[i].name in s.db.table && !Cached(s.db, s.files[i].name)
    && (i < s.curNo ==> i in s.asked)
  }

  lemma {:induction false} NextKeepsOut(s: Sync, i: nat)
    requires Out(s, i) && !s.finished
    ensures Out(NextFile(s), i)
    decreases |s.files| - s.curNo
  {
    hide Cached, Coherent, NextFile, Place;
    GetStep(s);
    if s.curNo < |s.files| && Current(s.db, Listed(s.files[s.curNo])) {
      NextKeepsOut(s.(curNo := s.curNo + 1), i);
    }
  }

  lemma StoreKeepsOut(s: Sync, data: seq<byte>, i: nat)
    requires Out(s, i) && s.curNo < |s.files| && s.curNo in s.asked
    ensures Out(AfterStore(s, data), i)
  {
    hide Cached, Coherent, Stored;
    DroppedStaysOut(s.db, Listed(s.files[s.curNo]), ROOM, s.files[i].name);
    StoreKeepsCoherent(s.db, Listed(s.files[s.curNo]), ROOM);
  }

  lemma TakeKeepsOut(s: Sync, m: Message, i: nat)
    requires Out(s, i) && Enabled(s, m) && Waiting(s)
    ensures Out(Take(s, m), i)
  {
    hide Cached, Coherent, Stored, NextFile;
    if m.End? {
      StoreKeepsOut(s, Got(s), i);
      NextKeepsOut(AfterStore(s, Got(s)), i);
    }
  }

  lemma {:induction false} RunKeepsOut(
      s: Sync, ms: seq<Message>, s': Sync, disk0: map<string, seq<byte>>, db0: Db, i: nat)
    requires Run(s, ms, s') && Out(s, i) && Inv(s, disk0, db0) && Waiting(s) && GoodList(s.files)
    ensures Out(s', i)
    decreases |ms|
  {
    hide Take, Enabled, Out, Inv, Waiting, GoodList, Run;
    if ms == [] {
      RunIs(s, ms, s');
    } else {
      RunFirst(s, ms, s');
      TakeKeepsOut(s, ms[0], i);
      TakeKeepsInv(s, ms[0], disk0, db0);
      RunKeepsOut(Take(s, ms[0]), ms[1..], s', disk0, db0, i);
    }
  }

  // A listed file that has dropped out of the list is fetched in every sync that comes to its end, and is still out
  // afterwards: it is fetched again by the next.
  lemma DroppedIsFetchedAgain(files: seq<File>, disk: map<string, seq<byte>>, db: Db, ms: seq<Message>, s: Sync, i: nat)
    requires Coherent(db) && GoodList(files) && Run(Start(files, disk, db), ms, s) && s.finished
    requires i < |files| && files[i].name in db.table && !Cached(db, files[i].name)
    ensures i in s.asked && files[i].name in s.db.table && !Cached(s.db, files[i].name) && Coherent(s.db)
  {
    hide Run, Coherent, GoodList, Cached, NextFile;
    var s0 := NewSync(files, disk, db);
    GetGoesOn(s0);
    NextKeepsOut(s0, i);
    StartIsGood(files, disk, db);
    RunKeepsOut(Start(files, disk, db), ms, s, disk, db, i);
    RunKeepsInv(Start(files, disk, db), ms, s, disk, db);
  }
}
