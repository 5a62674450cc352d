// The bytes on the wire, one by one.
module WireFormats {
  import opened Wrappers
  import opened Crc
  import opened CrcPolynomials
  import opened Wire
  import opened Senders

  // Two bytes that write a number, the high one first; four that do.
  predicate Writes16(b: seq<byte>, at: nat, x: int)
    requires at + 2 <= |b|
  {
    x == b[at] as int * 256 + b[at + 1] as int
  }

  predicate Writes32(b: seq<byte>, at: nat, x: int)
    requires at + 4 <= |b|
  {
    x == ((b[at] as int * 256 + b[at + 1] as int) * 256 + b[at + 2] as int) * 256 + b[at + 3] as int
  }

  lemma Wrote16(b: seq<byte>, at: nat, x: u16)
    requires at + 2 <= |b| && b[at..at + 2] == Put16(x)
    ensures Writes16(b, at, x)
  {
    Field16(b, at, x);
  }

  lemma Wrote32(b: seq<byte>, at: nat, x: u32)
    requires at + 4 <= |b| && b[at..at + 4] == Put32(x)
    ensures Writes32(b, at, x)
  {
    Field32(b, at, x);
  }

  // What sendSocketCmd puts on the wire: 47 47, command, address, number, last number, type and length, the data as far
  // as the length goes, and its checksum, each number with its high byte first.
  lemma PacketBytes(s: Send)
    ensures var b, n := SendBytes(s), |s.data| % 65536;
            && |b| == 16 + n + 4 && Writes16(b, 0, 0x4747) && Writes16(b, 2, s.typeCmd % 65536)
            && Writes32(b, 4, s.ipnum) && Writes16(b, 8, s.curNo) && Writes16(b, 10, s.lastNo)
            && Writes16(b, 12, s.typeCmd / 65536) && Writes16(b, 14, n) && b[16..16 + n] == s.data[..n]
            && Writes32(b, 16 + n, if s.data == [] then 0 else Crc32(0xedb8_8320, s.data[..n]) as int)
  {
    hide *;
    var b, n := SendBytes(s), |s.data| % 65536;
    PacketIs(s);
    FieldsAt(b, SentFragment(s));
    Wrote32(b, 16 + n, SentCrc(s.data));
    CrcIs(s.data);
  }

  lemma PacketIs(s: Send)
    ensures var b, n, f := SendBytes(s), |s.data| % 65536, SentFragment(s);
            && |b| == 16 + n + 4 && b[..16] == Header(f) && b[16..16 + n] == s.data[..n]
            && b[16 + n..16 + n + 4] == Put32(SentCrc(s.data))
            && f.cmd == s.typeCmd % 65536 && f.kind == s.typeCmd / 65536 && f.ipnum == s.ipnum
            && f.curNo == s.curNo && f.lastNo == s.lastNo && |f.payload| == n
  {
    hide Header, Put32, SentCrc;
  }

  lemma CrcIs(data: seq<byte>)
    ensures SentCrc(data) == if data == [] then 0 else Crc32(0xedb8_8320, data[..|data| % 65536]) as int
  {
    hide Crc32;
  }

  lemma SyncIs()
    ensures SYNC_HEAD == 0x4747 && HEAD_LEN == 16
  {
  }

  lemma SameSlice(b: seq<byte>, n: nat, lo: nat, hi: nat)
    requires lo <= hi <= n <= |b|
    ensures b[..n][lo..hi] == b[lo..hi]
  {
  }

  lemma FieldsAt(b: seq<byte>, f: Fragment)
    requires |f.payload| < 65536 && |b| >= 16 && b[..16] == Header(f)
    ensures Writes16(b, 0, 0x4747) && Writes16(b, 2, f.cmd) && Writes32(b, 4, f.ipnum) && Writes16(b, 8, f.curNo)
    ensures Writes16(b, 10, f.lastNo) && Writes16(b, 12, f.kind) && Writes16(b, 14, |f.payload|)
  {
    hide *;
    HeaderLayout(f);
    SyncIs();
    SameSlice(b, 16, 0, 2);
    SameSlice(b, 16, 2, 4);
    SameSlice(b, 16, 4, 8);
    SameSlice(b, 16, 8, 10);
    SameSlice(b, 16, 10, 12);
    SameSlice(b, 16, 12, 14);
    SameSlice(b, 16, 14, 16);
    Wrote16(b, 0, SYNC_HEAD);
    Wrote16(b, 2, f.cmd);
    Wrote32(b, 4, f.ipnum);
    Wrote16(b, 8, f.curNo);
    Wrote16(b, 10, f.lastNo);
    Wrote16(b, 12, f.kind);
    Wrote16(b, 14, |f.payload|);
  }

  // The checksum of a packet, as a polynomial, is what is left of its data behind the start value, and 32 places in
  // front, after division by the generator.
  lemma PacketCrc(data: seq<byte>, c: bv32)
    requires 0 < |data| < 65536
    ensures SentCrc(data) == c as int <==> IsRemainder(WordPoly(c), Dividend(0xedb8_8320, data))
  {
    CrcIs(data);
    assert data[..|data|] == data;
    hide *;
    var w := Crc32(0xedb8_8320, data);
    CrcIsRemainder(0xedb8_8320, data, WordPoly(c));
    if w as int == c as int {
      SameNumberSameWord(w, c);
    }
    if WordPoly(c) == WordPoly(w) {
      SameTermsSameWord(c, w);
    }
  }

  // The i-th fragment of a long reply: type 2, command 2020, at most 1600 bytes, and the next fragment begins where it
  // ends.  An empty reply has no fragment, and one of a multiple of 1600 bytes an empty last one.
  lemma PieceIs(data: seq<byte>, i: nat)
    requires i <= |data| / 1600
    ensures LastNo(data) == |data| / 1600 && i * 1600 <= |data|
    ensures |Fragments(data)| == (if data == [] then 0 else |data| / 1600 + 1)
    ensures data != [] ==> Fragments(data)[i] == Piece(data, i)
    ensures var p := Piece(data, i);
            && p.typeCmd == 0x2_2020 && p.ipnum == 0 && p.curNo == i % 65536 && p.lastNo == |data| / 1600 % 65536
            && p.data == data[i * 1600..if i < |data| / 1600 then i * 1600 + 1600 else |data|]
  {
    PieceFollows(data, i);
  }

  // A stream that does not begin with 47 47 is never read, however much of it there is.
  lemma NoSyncNoPacket(b: seq<byte>)
    requires |b| >= 2 && !(b[0] == 0x47 && b[1] == 0x47)
    ensures TryRead(b) == 0
  {
    if Get16(b[0], b[1]) == 0x4747 {
      SyncWord(b[0], b[1]);
    }
  }

  lemma SyncWord(x: byte, y: byte)
    requires Get16(x, y) == 0x4747
    ensures x == 0x47 && y == 0x47
  {
    ByteAgain(x);
    ByteAgain(y);
    assert x as int == 0x47 && y as int == 0x47;
    assert (0x47 as byte) == x && (0x47 as byte) == y;
  }
}
