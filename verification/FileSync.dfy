// Bringing the files of a list up to date, one after the other: the SYNCFILE and SENDFILE cases of clirecvcmd5srv.c,
// client_getFileFromSet of client.c and client_pg_syncFile of clipg.c.
module FileSyncs {
  import opened Wrappers
  import opened Rings
  import opened LoopLists
  import opened LocalDbs

  datatype File = File(name: string, size: nat, time: int)

  function Listed(f: File): Entry {
    Entry(f.name, Stamp(f.time, f.size))
  }

  // A message of the download: BINFILE_BEGIN, BINFILE_BODY, or the end.
  datatype Message = Begin | Body(data: seq<byte>) | End

  // buffer is what has been received of the current file, once its first message has come; asked are the places in the
  // list of the files that were asked for; finished is set when client_syncFinish is sent.  wild says that the original
  // has used a NULL pointer, after which nothing can be said.
  datatype Sync = Sync(
    files: seq<File>, curNo: nat, buffer: Option<seq<byte>>, disk: map<string, seq<byte>>, db: Db, asked: seq<nat>,
    finished: bool, wild: bool)

  const ROOM: nat := MAX_FILES_NUM - 1

  // client_getFileFromSet: go on to the first file that is not current and ask for it
  function NextFile(s: Sync): Sync
    decreases |s.files| - s.curNo
  {
    if s.curNo >= |s.files| then s.(finished := true)
    else if Current(s.db, Listed(s.files[s.curNo])) then NextFile(s.(curNo := s.curNo + 1))
    else s.(asked := s.asked + [s.curNo])
  }

  function NewSync(files: seq<File>, disk: map<string, seq<byte>>, db: Db): Sync {
    Sync(files, 0, None, disk, db, [], false, false)
  }

  // The SYNCFILE message.
  function Start(files: seq<File>, disk: map<string, seq<byte>>, db: Db): Sync {
    NextFile(NewSync(files, disk, db))
  }

  // The current file written out, recorded, and done with.
  function AfterStore(s: Sync, data: seq<byte>): Sync
    requires s.curNo < |s.files|
  {
    var f := s.files[s.curNo];
    s.(disk := s.disk[f.name := data], db := Stored(s.db, Listed(f), ROOM), curNo := s.curNo + 1, buffer := None)
  }

  // client_pg_syncFile, and the buffer freed
  function FileDone(s: Sync, data: seq<byte>): Sync
    requires s.curNo < |s.files|
  {
    NextFile(AfterStore(s, data))
  }

  function Got(s: Sync): seq<byte> {
    if s.buffer.Some? then s.buffer.value else []
  }

  predicate AcceptsBody(s: Sync, data: seq<byte>)
    requires s.curNo < |s.files|
  {
    |Got(s)| + |data| <= s.files[s.curNo].size || s.files[s.curNo].size == 0
  }

  predicate AcceptsEnd(s: Sync)
    requires s.curNo < |s.files|
  {
    |Got(s)| == s.files[s.curNo].size || s.files[s.curNo].size == 0
  }

  // There is a current file, and a body that is to be copied has a buffer to go to.
  predicate Enabled(s: Sync, m: Message) {
    !s.wild && !s.finished && s.curNo < |s.files| && (m.Body? && AcceptsBody(s, m.data) ==> s.buffer.Some?)
  }

  // The SENDFILE message.
  function Take(s: Sync, m: Message): Sync {
    if !Enabled(s, m) then s.(wild := true)
    else
      match m
      case Begin => s.(buffer := Some([]))
      case Body(data) => if AcceptsBody(s, data) then s.(buffer := Some(Got(s) + data)) else s
      case End => if AcceptsEnd(s) then FileDone(s, Got(s)) else s
  }

  function TakeEach(s: Sync, ms: seq<Message>): Sync
    decreases |ms|
  {
    if ms == [] then s else TakeEach(Take(s, ms[0]), ms[1..])
  }

  // These messages lead from s to s', and each finds what it needs.
  predicate Run(s: Sync, ms: seq<Message>, s': Sync) {
    s' == TakeEach(s, ms) && !s'.wild
  }

  lemma {:induction false} WildStays(s: Sync, ms: seq<Message>)
    requires s.wild
    ensures TakeEach(s, ms) == s
    decreases |ms|
  {
    if ms != [] {
      assert Take(s, ms[0]) == s;
      WildStays(s, ms[1..]);
    }
  }

  // A run has used a NULL pointer exactly when some message of it came when there was no file to receive, or was a body
  // to be copied before the begin of its file.
  lemma {:induction false} WildIff(s: Sync, ms: seq<Message>)
    requires !s.wild
    ensures TakeEach(s, ms).wild <==> exists k | 0 <= k < |ms| :: !Enabled(TakeEach(s, ms[..k]), ms[k])
    decreases |ms|
  {
    hide Enabled, Take;
    if ms != [] {
      var m, rest := ms[0], ms[1..];
      var s1 := Take(s, m);
      TakeIsWild(s, m);
      assert ms[..0] == [];
      forall k | 0 <= k < |rest| ensures TakeEach(s, ms[..k + 1]) == TakeEach(s1, rest[..k]) {
        assert ms[..k + 1][0] == m && ms[..k + 1][1..] == rest[..k];
      }
      if s1.wild {
        WildStays(s1, rest);
        assert !Enabled(TakeEach(s, ms[..0]), ms[0]);
      } else {
        WildIff(s1, rest);
        if k :| 0 <= k < |ms| && !Enabled(TakeEach(s, ms[..k]), ms[k]) {
          assert k > 0 && rest[k - 1] == ms[k] && TakeEach(s1, rest[..k - 1]) == TakeEach(s, ms[..(k - 1) + 1]);
        }
        if k :| 0 <= k < |rest| && !Enabled(TakeEach(s1, rest[..k]), rest[k]) {
          assert ms[k + 1] == rest[k];
        }
      }
    }
  }

  lemma TakeIsWild(s: Sync, m: Message)
    requires !s.wild
    ensures Take(s, m).wild <==> !Enabled(s, m)
  {
    if Enabled(s, m) && m.End? {
      GetGoesOn(AfterStore(s, Got(s)));
      hide NextFile, Stored;
    }
  }

  // Both kinds are there: a body that is the first message for a file, and any message once the sync is over.
  lemma StrayMessages(s: Sync, data: seq<byte>, m: Message)
    requires !s.wild
    ensures !s.finished && s.curNo < |s.files| && s.buffer.None? && AcceptsBody(s, data) ==> Take(s, Body(data)).wild
    ensures s.finished ==> Take(s, m).wild
  {
    hide NextFile;
  }

  // The messages of a run can be taken one by one.
  lemma RunFirst(s: Sync, ms: seq<Message>, s': Sync)
    requires Run(s, ms, s') && ms != []
    ensures Enabled(s, ms[0]) && Run(Take(s, ms[0]), ms[1..], s')
  {
    hide NextFile;
    if !Enabled(s, ms[0]) {
      WildStays(Take(s, ms[0]), ms[1..]);
    }
  }

  // ---------- the invariant ----------

  // What the server lists: names that differ and sizes that are positive.
  ghost predicate GoodList(files: seq<File>) {
    && (forall i, j | 0 <= i < j < |files| :: files[i].name != files[j].name)
    && (forall i | 0 <= i < |files| :: files[i].size > 0)
  }

  predicate Recorded(db: Db, f: File) {
    f.name in db.table && db.table[f.name] == Stamp(f.time, f.size)
  }

  ghost predicate Basics(s: Sync) {
    && s.curNo <= |s.files| && (s.finished ==> s.curNo == |s.files|) && Coherent(s.db)
    && (s.buffer.Some? ==> s.curNo < |s.files| && |s.buffer.value| <= s.files[s.curNo].size)
    && (forall i | i in s.asked :: i <= s.curNo && i < |s.files|)
  }

  // The files dealt with so far are recorded.
  ghost predicate AllRecorded(s: Sync)
    requires s.curNo <= |s.files|
  {
    forall j | 0 <= j < s.curNo :: Recorded(s.db, s.files[j])
  }

  predicate StoredWhole(disk: map<string, seq<byte>>, f: File) {
    f.name in disk && |disk[f.name]| == f.size
  }

  // Those asked for are on disk with the listed size.
  ghost predicate OnDisk(s: Sync)
    requires s.curNo <= |s.files|
  {
    forall i | i in s.asked && i < s.curNo :: StoredWhole(s.disk, s.files[i])
  }

  // The name of a file that was asked for and has come.
  ghost predicate Fetched(s: Sync, name: string) {
    exists i :: i in s.asked && i < |s.files| && i < s.curNo && s.files[i].name == name
  }

  ghost predicate SameAt<T>(m: map<string, T>, m0: map<string, T>, name: string) {
    (name in m <==> name in m0) && (name in m ==> m[name] == m0[name])
  }

  // Everything else on disk and in the table is as it was.
  ghost predicate Untouched(s: Sync, disk0: map<string, seq<byte>>, db0: Db) {
    forall name | !Fetched(s, name) :: SameAt(s.disk, disk0, name) && SameAt(s.db.table, db0.table, name)
  }

  ghost predicate Inv(s: Sync, disk0: map<string, seq<byte>>, db0: Db) {
    Basics(s) && AllRecorded(s) && OnDisk(s) && Untouched(s, disk0, db0)
  }

  // While a file is on its way, it is the one asked for last.
  ghost predicate Waiting(s: Sync) {
    !s.finished ==> s.asked != [] && s.asked[|s.asked| - 1] == s.curNo < |s.files|
  }

  ghost predicate NothingAskedHere(s: Sync) {
    s.buffer == None && !s.finished && forall i | i in s.asked :: i < s.curNo
  }

  lemma FetchedGrows(s: Sync, s1: Sync)
    requires s1.files == s.files && s.curNo <= s1.curNo && forall i | i in s.asked :: i in s1.asked
    ensures forall name | Fetched(s, name) :: Fetched(s1, name)
  {
  }

  lemma SkipKeepsInv(s: Sync, disk0: map<string, seq<byte>>, db0: Db)
    requires Inv(s, disk0, db0) && NothingAskedHere(s) && s.curNo < |s.files|
    requires Current(s.db, Listed(s.files[s.curNo]))
    ensures var s1 := s.(curNo := s.curNo + 1); Inv(s1, disk0, db0) && NothingAskedHere(s1)
  {
    HitIsTrue(s.db, Listed(s.files[s.curNo]));
    hide Coherent, Current;
    var s1 := s.(curNo := s.curNo + 1);
    FetchedGrows(s, s1);
  }

  lemma AskKeepsInv(s: Sync, disk0: map<string, seq<byte>>, db0: Db)
    requires Inv(s, disk0, db0) && NothingAskedHere(s) && s.curNo < |s.files|
    ensures Inv(s.(asked := s.asked + [s.curNo]), disk0, db0)
  {
    hide Coherent;
    var s1 := s.(asked := s.asked + [s.curNo]);
    FetchedGrows(s, s1);
  }

  lemma EndKeepsInv(s: Sync, disk0: map<string, seq<byte>>, db0: Db)
    requires Inv(s, disk0, db0) && s.curNo == |s.files|
    ensures Inv(s.(finished := true), disk0, db0)
  {
    hide Coherent;
    var s1 := s.(finished := true);
    FetchedGrows(s, s1);
  }

  lemma {:induction false} GetKeepsInv(s: Sync, disk0: map<string, seq<byte>>, db0: Db)
    requires Inv(s, disk0, db0) && NothingAskedHere(s)
    ensures Inv(NextFile(s), disk0, db0) && Waiting(NextFile(s))
    decreases |s.files| - s.curNo
  {
    hide *;
    GetStep(s);
    if s.curNo >= |s.files| {
      AtTheEnd(s, disk0, db0);
      EndKeepsInv(s, disk0, db0);
    } else if Current(s.db, Listed(s.files[s.curNo])) {
      SkipKeepsInv(s, disk0, db0);
      GetKeepsInv(s.(curNo := s.curNo + 1), disk0, db0);
    } else {
      AskKeepsInv(s, disk0, db0);
      AskedHere(s);
    }
  }

  lemma GetStep(s: Sync)
    ensures s.curNo >= |s.files| ==> NextFile(s) == s.(finished := true)
    ensures s.curNo < |s.files| && Current(s.db, Listed(s.files[s.curNo])) ==>
              NextFile(s) == NextFile(s.(curNo := s.curNo + 1))
    ensures s.curNo < |s.files| && !Current(s.db, Listed(s.files[s.curNo])) ==>
              NextFile(s) == s.(asked := s.asked + [s.curNo])
  {
    hide Current;
  }

  lemma AtTheEnd(s: Sync, disk0: map<string, seq<byte>>, db0: Db)
    requires Inv(s, disk0, db0) && s.curNo >= |s.files|
    ensures s.curNo == |s.files| && Waiting(s.(finished := true))
  {
  }

  lemma AskedHere(s: Sync)
    requires s.curNo < |s.files|
    ensures Waiting(s.(asked := s.asked + [s.curNo]))
  {
  }

  lemma {:induction false} GetGoesOn(s: Sync)
    requires !s.finished
    ensures var s' := NextFile(s);
            && s'.files == s.files && s'.disk == s.disk && s'.db == s.db && s'.buffer == s.buffer && s'.wild == s.wild
            && s'.curNo >= s.curNo
            && s'.asked == (if s'.finished then s.asked else s.asked + [s'.curNo])
    decreases |s.files| - s.curNo
  {
    if s.curNo < |s.files| && Current(s.db, Listed(s.files[s.curNo])) {
      GetGoesOn(s.(curNo := s.curNo + 1));
    }
  }

  // A file that has come is stored, recorded and done with.
  lemma StoredKeepsInv(s: Sync, data: seq<byte>, disk0: map<string, seq<byte>>, db0: Db)
    requires Inv(s, disk0, db0) && Waiting(s) && GoodList(s.files) && !s.finished && |data| == s.files[s.curNo].size
    ensures Inv(AfterStore(s, data), disk0, db0) && NothingAskedHere(AfterStore(s, data))
  {
    var f := s.files[s.curNo];
    var s1 := AfterStore(s, data);
    StoreKeepsCoherent(s.db, Listed(f), ROOM);
    assert s.curNo in s.asked;
    hide Coherent, Stored;
    assert Basics(s1) && AllRecorded(s1) && OnDisk(s1);
    FetchedGrows(s, s1);
    forall name | !Fetched(s1, name) ensures SameAt(s1.disk, disk0, name) && SameAt(s1.db.table, db0.table, name) {
      assert name != f.name;
    }
  }

  lemma TakeKeepsInv(s: Sync, m: Message, disk0: map<string, seq<byte>>, db0: Db)
    requires Inv(s, disk0, db0) && Waiting(s) && GoodList(s.files) && Enabled(s, m)
    ensures Inv(Take(s, m), disk0, db0) && Waiting(Take(s, m)) && Take(s, m).files == s.files
  {
    hide Coherent, NextFile, Stored;
    var got := Got(s);
    if m.End? && |got| == s.files[s.curNo].size {
      StoredKeepsInv(s, got, disk0, db0);
      GetKeepsInv(AfterStore(s, got), disk0, db0);
      GetGoesOn(AfterStore(s, got));
    } else {
      BufferKeepsInv(s, Take(s, m).buffer, disk0, db0);
    }
  }

  lemma BufferKeepsInv(s: Sync, b: Option<seq<byte>>, disk0: map<string, seq<byte>>, db0: Db)
    requires Inv(s, disk0, db0) && Waiting(s) && !s.finished && (b.Some? ==> |b.value| <= s.files[s.curNo].size)
    ensures Inv(s.(buffer := b), disk0, db0) && Waiting(s.(buffer := b))
  {
    hide Coherent;
    FetchedGrows(s, s.(buffer := b));
  }

  lemma {:induction false} RunKeepsInv(s: Sync, ms: seq<Message>, s': Sync, disk0: map<string, seq<byte>>, db0: Db)
    requires Inv(s, disk0, db0) && Waiting(s) && GoodList(s.files) && Run(s, ms, s')
    ensures Inv(s', disk0, db0) && Waiting(s') && s'.files == s.files
    decreases |ms|
  {
    hide Inv, Waiting, Take, Enabled;
    if ms != [] {
      RunFirst(s, ms, s');
      TakeKeepsInv(s, ms[0], disk0, db0);
      RunKeepsInv(Take(s, ms[0]), ms[1..], s', disk0, db0);
    }
  }

  lemma StartIsGood(files: seq<File>, disk: map<string, seq<byte>>, db: Db)
    requires Coherent(db)
    ensures var s := Start(files, disk, db); Inv(s, disk, db) && Waiting(s) && s.files == files
  {
    var s := NewSync(files, disk, db);
    hide Coherent, NextFile;
    GetKeepsInv(s, disk, db);
    GetGoesOn(s);
  }

  // ---------- what every run keeps ----------

  // Whatever messages come, in whatever pieces, each finding what it needs: when the end of the sync is reported, every
  // listed file is in the table with the listed size and time; a file that was asked for is on disk with the listed
  // size, and one that was not was in the table like that before.  Nothing else on disk or in the table has changed.
  lemma SyncIsCorrect(files: seq<File>, disk: map<string, seq<byte>>, db: Db, ms: seq<Message>, s: Sync)
    requires Coherent(db) && GoodList(files) && Run(Start(files, disk, db), ms, s) && s.finished
    ensures forall f | f in files :: Recorded(s.db, f)
    ensures forall i | 0 <= i < |files| && i in s.asked :: StoredWhole(s.disk, files[i])
    ensures forall i | 0 <= i < |files| && i !in s.asked ::
              Recorded(db, files[i]) && SameAt(s.disk, disk, files[i].name)
    ensures forall name | !Fetched(s, name) :: SameAt(s.disk, disk, name) && SameAt(s.db.table, db.table, name)
  {
    StartIsGood(files, disk, db);
    RunKeepsInv(Start(files, disk, db), ms, s, disk, db);
    hide Run, Coherent, Start;
    forall i | 0 <= i < |files| && i !in s.asked ensures !Fetched(s, files[i].name) {
    }
  }

  // ---------- a server that sends what is asked for ----------

  function Bodies(pieces: seq<seq<byte>>): seq<Message> {
    if pieces == [] then [] else [Body(pieces[0])] + Bodies(pieces[1..])
  }

  // The messages that carry one file, cut into pieces.
  function Transfer(pieces: seq<seq<byte>>): seq<Message> {
    [Begin] + (Bodies(pieces) + [End])
  }

  lemma {:induction false} BodiesFill(s: Sync, got: seq<byte>, pieces: seq<seq<byte>>, s': Sync)
    requires !s.wild && !s.finished && s.curNo < |s.files| && s.buffer == Some(got)
    requires |got| + |Concat(pieces)| == s.files[s.curNo].size && s' == FileDone(s, got + Concat(pieces))
    ensures TakeEach(s, Bodies(pieces) + [End]) == s'
    decreases |pieces|
  {
    hide FileDone;
    if pieces == [] {
      assert got + [] == got && [] + [End] == [End] && [End][1..] == [];
      assert Take(s, End) == s';
      assert TakeEach(s, [End]) == TakeEach(Take(s, End), []);
    } else {
      var s1 := s.(buffer := Some(got + pieces[0]));
      assert got + (pieces[0] + Concat(pieces[1..])) == got + pieces[0] + Concat(pieces[1..]);
      FileDoneSame(s, s1, got + pieces[0] + Concat(pieces[1..]));
      BodiesFill(s1, got + pieces[0], pieces[1..], s');
      var ms := Bodies(pieces) + [End];
      assert ms[0] == Body(pieces[0]) && ms[1..] == Bodies(pieces[1..]) + [End];
      assert Take(s, ms[0]) == s1;
    }
  }

  lemma FileDoneIs(s: Sync, data: seq<byte>)
    requires s.curNo < |s.files|
    ensures FileDone(s, data) == NextFile(AfterStore(s, data))
  {
  }

  lemma FileDoneSame(s: Sync, s1: Sync, data: seq<byte>)
    requires s.curNo < |s.files| && s1 == s.(buffer := s1.buffer)
    ensures FileDone(s, data) == FileDone(s1, data)
  {
    hide NextFile, Stored;
    assert AfterStore(s, data) == AfterStore(s1, data);
  }

  // However a file is cut into pieces, its messages store exactly its bytes.
  lemma TransferStores(s: Sync, pieces: seq<seq<byte>>)
    requires !s.wild && !s.finished && s.curNo < |s.files| && |Concat(pieces)| == s.files[s.curNo].size
    ensures Run(s, Transfer(pieces), FileDone(s, Concat(pieces)))
  {
    GetGoesOn(AfterStore(s, Concat(pieces)));
    FileDoneIs(s, Concat(pieces));
    hide FileDone, NextFile, Stored;
    var s1 := s.(buffer := Some([]));
    assert [] + Concat(pieces) == Concat(pieces);
    FileDoneSame(s, s1, Concat(pieces));
    BodiesFill(s1, [], pieces, FileDone(s, Concat(pieces)));
    var ms := Transfer(pieces);
    assert ms[0] == Begin && ms[1..] == Bodies(pieces) + [End];
  }

  // What the server holds, and how it cuts it up.
  ghost predicate Serves(serve: string -> seq<seq<byte>>, files: seq<File>) {
    forall i | 0 <= i < |files| :: |Concat(serve(files[i].name))| == files[i].size
  }

  // All the messages of a sync: one file after another, as they are asked for.
  function Session(s: Sync, serve: string -> seq<seq<byte>>): seq<Message>
    decreases |s.files| - s.curNo
  {
    if s.finished || s.curNo >= |s.files| then []
    else
      var pieces := serve(s.files[s.curNo].name);
      GetGoesOn(AfterStore(s, Concat(pieces)));
      Transfer(pieces) + Session(FileDone(s, Concat(pieces)), serve)
  }

  lemma {:induction false} RunOn(s: Sync, a: seq<Message>, s1: Sync, b: seq<Message>, s2: Sync)
    requires TakeEach(s, a) == s1 && TakeEach(s1, b) == s2
    ensures TakeEach(s, a + b) == s2
    decreases |a|
  {
    hide Take;
    if a == [] {
      assert a + b == b;
    } else {
      assert (a + b)[0] == a[0] && (a + b)[1..] == a[1..] + b;
      RunOn(Take(s, a[0]), a[1..], s1, b, s2);
    }
  }

  // The files asked for, in order and each once; those that have come hold the server's bytes.
  ghost predicate Served(s: Sync, serve: string -> seq<seq<byte>>) {
    && (forall i, j | 0 <= i < j < |s.asked| :: s.asked[i] < s.asked[j])
    && (forall i | i in s.asked && i < s.curNo && i < |s.files| ::
          s.files[i].name in s.disk && s.disk[s.files[i].name] == Concat(serve(s.files[i].name)))
  }

  lemma ServedOn(s: Sync, serve: string -> seq<seq<byte>>, disk0: map<string, seq<byte>>, db0: Db)
    requires Inv(s, disk0, db0) && Waiting(s) && GoodList(s.files) && !s.finished && Served(s, serve)
    ensures Served(FileDone(s, Concat(serve(s.files[s.curNo].name))), serve)
  {
    hide Served, NextFile, Concat, Inv, GoodList;
    var data := Concat(serve(s.files[s.curNo].name));
    ServedStored(s, data, serve);
    GetGoesOn(AfterStore(s, data));
    ServedNext(s, AfterStore(s, data), NextFile(AfterStore(s, data)), serve);
  }

  lemma ServedStored(s: Sync, data: seq<byte>, serve: string -> seq<seq<byte>>)
    requires GoodList(s.files) && s.curNo < |s.files| && Served(s, serve)
    requires data == Concat(serve(s.files[s.curNo].name))
    ensures Served(AfterStore(s, data), serve)
  {
    hide Stored, Concat;
  }

  // Going on skips files, asks for at most one more, and that one comes later in the list.
  lemma ServedNext(s: Sync, s1: Sync, s2: Sync, serve: string -> seq<seq<byte>>)
    requires Waiting(s) && !s.finished && Served(s, serve) && Served(s1, serve)
    requires s1.files == s.files && s1.asked == s.asked && s1.curNo == s.curNo + 1
    requires s2.files == s.files && s2.disk == s1.disk && s2.curNo >= s1.curNo
    requires s2.asked == if s2.finished then s1.asked else s1.asked + [s2.curNo]
    ensures Served(s2, serve)
  {
    hide Concat;
    LastIsLargest(s.asked, s.curNo);
  }

  lemma LastIsLargest(asked: seq<nat>, last: nat)
    requires asked != [] && asked[|asked| - 1] == last && forall i, j | 0 <= i < j < |asked| :: asked[i] < asked[j]
    ensures forall i | i in asked :: i <= last
  {
  }

  // With a server that sends each file it is asked for, in whatever pieces, every sync comes to its end: each file is
  // asked for at most once and is then on disk byte for byte.
  lemma {:induction false} SessionEnds(s: Sync, serve: string -> seq<seq<byte>>, disk0: map<string, seq<byte>>, db0: Db)
    returns (s': Sync)
    requires Inv(s, disk0, db0) && Waiting(s) && GoodList(s.files) && Served(s, serve) && Serves(serve, s.files)
    requires !s.wild
    ensures Run(s, Session(s, serve), s') && s'.finished && Served(s', serve) && Inv(s', disk0, db0)
    ensures s'.files == s.files
    decreases |s.files| - s.curNo
  {
    if s.finished {
      s' := s;
    } else {
      var pieces := serve(s.files[s.curNo].name);
      var s1 := FileDone(s, Concat(pieces));
      assert |Concat(pieces)| == s.files[s.curNo].size;
      assert Session(s, serve) == Transfer(pieces) + Session(s1, serve);
      hide *;
      TransferStores(s, pieces);
      RunKeepsInv(s, Transfer(pieces), s1, disk0, db0);
      ServedOn(s, serve, disk0, db0);
      FileDoneGoesOn(s, Concat(pieces));
      RunIs(s, Transfer(pieces), s1);
      s' := SessionEnds(s1, serve, disk0, db0);
      RunIs(s1, Session(s1, serve), s');
      RunOn(s, Transfer(pieces), s1, Session(s1, serve), s');
      RunFrom(s, Transfer(pieces) + Session(s1, serve), s');
    }
  }

  lemma RunIs(s: Sync, ms: seq<Message>, s': Sync)
    requires Run(s, ms, s')
    ensures TakeEach(s, ms) == s' && !s'.wild
  {
  }

  lemma RunFrom(s: Sync, ms: seq<Message>, s': Sync)
    requires TakeEach(s, ms) == s' && !s'.wild
    ensures Run(s, ms, s')
  {
  }

  lemma FileDoneGoesOn(s: Sync, data: seq<byte>)
    requires !s.finished && s.curNo < |s.files|
    ensures FileDone(s, data).files == s.files && FileDone(s, data).curNo > s.curNo
  {
    GetGoesOn(AfterStore(s, data));
  }

  lemma SyncCompletes(files: seq<File>, disk: map<string, seq<byte>>, db: Db, serve: string -> seq<seq<byte>>)
    returns (s: Sync)
    requires Coherent(db) && GoodList(files) && Serves(serve, files)
    ensures Run(Start(files, disk, db), Session(Start(files, disk, db), serve), s) && s.finished && s.files == files
    ensures forall i, j | 0 <= i < j < |s.asked| :: s.asked[i] < s.asked[j]
    ensures forall i | i in s.asked && i < |files| ::
              files[i].name in s.disk && s.disk[files[i].name] == Concat(serve(files[i].name))
    ensures forall f | f in files :: Recorded(s.db, f)
    ensures Coherent(s.db)
  {
    StartIsGood(files, disk, db);
    StartIsServed(files, disk, db, serve);
    GetGoesOn(NewSync(files, disk, db));
    assert !Start(files, disk, db).wild;
    hide Start, Session, Run;
    s := SessionEnds(Start(files, disk, db), serve, disk, db);
  }

  lemma StartIsServed(files: seq<File>, disk: map<string, seq<byte>>, db: Db, serve: string -> seq<seq<byte>>)
    ensures Served(Start(files, disk, db), serve)
  {
    GetGoesOn(NewSync(files, disk, db));
  }

  // ---------- the file set in memory ----------

  // recv_file_info_set_t; the buffer and the count of the current file are the only ones in use.
  class FileSet {
    const files: seq<File>
    const localDb: LocalDb
    var curNo: nat
    var pFileData: array?<byte>
    var actRecvSize: nat
    var disk: map<string, seq<byte>>
    ghost var asked: seq<nat>
    var finished: bool
    var wild: bool

    ghost predicate Valid()
      reads this, localDb, localDb.list, localDb.list.items
    {
      && localDb.Valid() && GoodList(files) && curNo <= |files|
      && (pFileData == null ==> actRecvSize == 0) && (pFileData as object?) != localDb.list.items
      && (pFileData != null ==>
            curNo < |files| && pFileData.Length == files[curNo].size && actRecvSize <= pFileData.Length)
    }

    // What has been received of the current file.
    ghost function Buffer(): Option<seq<byte>>
      requires Valid()
      reads this, pFileData, localDb, localDb.list, localDb.list.items
    {
      if pFileData == null then None else Some(pFileData[..actRecvSize])
    }

    ghost function Value(): Sync
      requires Valid()
      reads this, pFileData, localDb, localDb.list, localDb.list.items, localDb.Records()
    {
      Sync(files, curNo, Buffer(), disk, localDb.Value(), asked, finished, wild)
    }

    // The SYNCFILE message, before it asks for a file.
    constructor (files: seq<File>, localDb: LocalDb, disk: map<string, seq<byte>>)
      requires localDb.Valid() && GoodList(files)
      ensures Valid() && Value() == NewSync(files, disk, localDb.Value())
      ensures this.localDb == localDb
    {
      this.files, this.localDb, this.disk := files, localDb, disk;
      curNo, pFileData, actRecvSize, asked, finished, wild := 0, null, 0, [], false, false;
    }

    // The loop of client_getFileFromSet: past the files that are current.
    method SkipCurrent(ghost s0: Sync)
      requires Valid() && pFileData == null && s0 == Value()
      modifies this`curNo
      ensures Valid() && curNo >= old(curNo) && NextFile(s0.(curNo := curNo)) == NextFile(s0)
      ensures curNo < |files| ==> !Current(s0.db, Listed(files[curNo]))
    {
      hide NextFile, Current, GoodList, Entries, Distinct, Ring, FirstIndex;
      ghost var db := localDb.Value();
      while curNo < |files|
        invariant Valid() && curNo >= old(curNo) && localDb.Value() == db == s0.db
        invariant NextFile(s0.(curNo := curNo)) == NextFile(s0)
        decreases |files| - curNo
      {
        GetStep(s0.(curNo := curNo));
        var found := localDb.FindFile(Listed(files[curNo]));
        if !found {
          return;
        }
        curNo := curNo + 1;
      }
    }

    // client_getFileFromSet: the file asked for, if there is one
    method GetFileFromSet() returns (request: Option<string>)
      requires Valid() && pFileData == null
      modifies this`curNo, this`asked, this`finished
      ensures Valid() && Value() == NextFile(old(Value()))
      ensures request == if curNo < |files| then Some(files[curNo].name) else None
    {
      hide NextFile, Current, GoodList, Entries, Distinct, Ring, FirstIndex;
      ghost var s := Value();
      SkipCurrent(s);
      GetStep(s.(curNo := curNo));
      if curNo < |files| {
        request := Some(files[curNo].name);
        asked := asked + [curNo];
      } else {
        request := None;
        finished := true;
      }
    }

    // client_pg_syncFile: the file goes to disk and into the database, and the next one is asked for
    method SyncFile() returns (request: Option<string>)
      requires Valid() && pFileData != null && actRecvSize == files[curNo].size
      modifies this, localDb`table, localDb.list, localDb.list.items, localDb.Records()
      ensures Valid() && Value() == FileDone(old(Value()), old(pFileData[..]))
      ensures request == if curNo < |files| then Some(files[curNo].name) else None
    {
      hide NextFile, GoodList, Entries, Stored, Distinct, Ring, FirstIndex;
      var f := files[curNo];
      ghost var s := Value();
      var data := pFileData[..];
      disk := disk[f.name := data];
      localDb.Store(Listed(f));
      curNo := curNo + 1;
      pFileData, actRecvSize := null, 0;
      assert Value() == AfterStore(s, data);
      request := GetFileFromSet();
    }

    // BINFILE_BEGIN: an empty buffer of the listed size
    method TakeBegin()
      requires Valid() && Enabled(Value(), Begin)
      modifies this`pFileData, this`actRecvSize
      ensures Valid() && Value() == Take(old(Value()), Begin)
    {
      hide GoodList, Entries, Distinct, Ring, FirstIndex;
      pFileData := new byte[files[curNo].size];
      actRecvSize := 0;
      assert pFileData[..0] == [];
    }

    lemma BodyIs(s: Sync, data: seq<byte>)
      requires Enabled(s, Body(data)) && s.files[s.curNo].size > 0
      ensures Take(s, Body(data)) ==
                if |Got(s)| + |data| <= s.files[s.curNo].size then s.(buffer := Some(Got(s) + data)) else s
      ensures |Got(s)| + |data| <= s.files[s.curNo].size ==> s.buffer.Some?
    {
    }

    // The body copied behind what has come.
    method CopyBody(data: seq<byte>)
      requires Valid() && pFileData != null && actRecvSize + |data| <= pFileData.Length
      modifies this`actRecvSize, pFileData
      ensures Valid() && Value() == old(Value()).(buffer := Some(old(Buffer().value) + data))
    {
      hide GoodList, Entries, Distinct, Ring, FirstIndex;
      ghost var db := localDb.Value();
      CopyTo(pFileData, actRecvSize, data);
      actRecvSize := actRecvSize + |data|;
      assert localDb.Value() == db;
    }

    // BINFILE_BODY: copied if it fits
    method TakeBody(data: seq<byte>)
      requires Valid() && Enabled(Value(), Body(data))
      modifies this`actRecvSize, pFileData
      ensures Valid() && Value() == Take(old(Value()), Body(data))
    {
      assert files[curNo].size > 0;
      BodyIs(Value(), data);
      hide GoodList, Entries, Distinct, Ring, FirstIndex, Take, Enabled;
      if actRecvSize + |data| <= files[curNo].size || files[curNo].size == 0 {
        CopyBody(data);
      }
    }

    // The end of a file: it is dealt with if all of it has come.
    method TakeEnd() returns (request: Option<string>)
      requires Valid() && Enabled(Value(), End)
      modifies this, localDb`table, localDb.list, localDb.list.items, localDb.Records()
      ensures Valid() && Value() == Take(old(Value()), End)
    {
      assert files[curNo].size > 0;
      hide FileDone, GoodList, Entries, Distinct, Ring, FirstIndex;
      request := None;
      if actRecvSize == files[curNo].size || files[curNo].size == 0 {
        assert pFileData[..] == pFileData[..actRecvSize];
        request := SyncFile();
      }
    }

    // Whether the message has a file and a buffer to work on.
    predicate FindsFile(m: Message)
      requires Valid()
      reads this, pFileData, localDb, localDb.list, localDb.list.items, localDb.Records()
      ensures FindsFile(m) <==> Enabled(Value(), m)
    {
      && !wild && !finished && curNo < |files|
      && (pFileData != null || !m.Body? || actRecvSize + |m.data| > files[curNo].size)
    }

    // The SENDFILE message; the next file asked for comes back, if there is one.
    method SendFile(m: Message) returns (request: Option<string>)
      requires Valid()
      modifies this, pFileData, localDb`table, localDb.list, localDb.list.items, localDb.Records()
      ensures Valid() && Value() == Take(old(Value()), m)
    {
      hide *;
      request := None;
      if !FindsFile(m) {
        GoWild(m);
      } else {
        match m {
          case Begin => TakeBegin();
          case Body(data) => TakeBody(data);
          case End => request := TakeEnd();
        }
      }
    }

    method GoWild(ghost m: Message)
      requires Valid() && !Enabled(Value(), m)
      modifies this`wild
      ensures Valid() && Value() == Take(old(Value()), m)
    {
      hide Entries, Distinct, Ring, FirstIndex, Enabled;
      ghost var db := localDb.Value();
      wild := true;
      assert localDb.Value() == db;
    }
  }

  // memcpy to buf + at
  method CopyTo(buf: array<byte>, at: nat, data: seq<byte>)
    requires at + |data| <= buf.Length
    modifies buf
    ensures buf[..at + |data|] == old(buf[..at]) + data
  {
    for i := 0 to |data|
      invariant buf[..at + i] == old(buf[..at]) + data[..i]
    {
      buf[at + i] := data[i];
      assert data[..i + 1] == data[..i] + [data[i]];
    }
    assert data[..|data|] == data;
  }
}
