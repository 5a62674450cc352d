// The packet format of packsocket/packsocket.c: a 16-byte header, the payload and a CRC, all big-endian.
module Wire {
  import opened Wrappers
  import opened Crc

  type u16 = x: int | 0 <= x < 0x1_0000
  type u32 = x: int | 0 <= x < 0x1_0000_0000

  const SYNC_HEAD: u16 := 0x4747
  const HEAD_LEN: nat := 16
  const FIFO_MAX_LEN: nat := 40960
  const PACKAGE_MAX_LEN: nat := 1600

  // One packet as the receiver files it; `kind` is the header's type field.
  datatype Fragment = Fragment(cmd: u16, kind: u16, ipnum: u32, curNo: u16, lastNo: u16, payload: seq<byte>)

  lemma NextByte(b: byte)
    requires b < 0xFF
    ensures (b + 1) as int == b as int + 1
  {
  }

  lemma ByteWithValue(n: int) returns (b: byte)
    requires 0 <= n < 256
    ensures b as int == n
  {
    if n == 0 {
      b := 0;
    } else {
      var c := ByteWithValue(n - 1);
      NextByte(c);
      b := c + 1;
    }
  }

  lemma ByteAgain(b: byte)
    ensures (b as int) as byte == b
  {
  }

  lemma ByteKeepsValue(n: int)
    requires 0 <= n < 256
    ensures (n as byte) as int == n
  {
    var b := ByteWithValue(n);
    ByteAgain(b);
  }

  // One call of sendSocketCmd.
  datatype Send = Send(typeCmd: u32, ipnum: u32, curNo: u16, lastNo: u16, data: seq<byte>)

  function Put16(x: u16): (b: seq<byte>)
    ensures |b| == 2 && Get16(b[0], b[1]) == x
  {
    ByteKeepsValue(x / 256);
    ByteKeepsValue(x % 256);
    [(x / 256) as byte, (x % 256) as byte]
  }

  function Get16(a: byte, b: byte): u16 {
    (a as int) * 256 + (b as int)
  }

  function Put32(x: u32): (b: seq<byte>)
    ensures |b| == 4 && Get32(b[0], b[1], b[2], b[3]) == x
  {
    Put16(x / 0x1_0000) + Put16(x % 0x1_0000)
  }

  function Get32(a: byte, b: byte, c: byte, d: byte): u32 {
    Get16(a, b) * 0x1_0000 + Get16(c, d)
  }

  function Checksum(p: seq<byte>): u32 {
    Crc32(CRCPOLY_LE, p) as int
  }

  function Header(f: Fragment): (b: seq<byte>)
    requires |f.payload| < 0x1_0000
    ensures |b| == HEAD_LEN
  {
    Put16(SYNC_HEAD) + Put16(f.cmd) + Put32(f.ipnum) + Put16(f.curNo) + Put16(f.lastNo) + Put16(f.kind)
        + Put16(|f.payload|)
  }

  // The bytes of a packet with the given CRC field.
  function Packet(f: Fragment, crc: u32): (b: seq<byte>)
    requires |f.payload| < 0x1_0000
    ensures |b| == HEAD_LEN + |f.payload| + 4
  {
    Header(f) + f.payload + Put32(crc)
  }

  // ---------- sending ----------

  // The header's length field is 16 bits wide: only the low 16 bits of the caller's length survive.
  function SentFragment(s: Send): (f: Fragment)
    ensures |f.payload| < 0x1_0000
  {
    Fragment(Low16(s.typeCmd), High16(s.typeCmd), s.ipnum, s.curNo, s.lastNo, s.data[..|s.data| % 0x1_0000])
  }

  function Low16(x: u32): u16 {
    x % 0x1_0000
  }

  function High16(x: u32): u16 {
    x / 0x1_0000
  }

  function SentCrc(data: seq<byte>): u32 {
    if |data| == 0 then 0 else Checksum(data[..|data| % 0x1_0000])
  }

  function SendBytes(s: Send): seq<byte> {
    Packet(SentFragment(s), SentCrc(s.data))
  }

  // ---------- receiving ----------

  // The length of the packet at the front, once all of it is there; a wrong sync word never lets go.
  function TryRead(s: seq<byte>): (n: nat)
    ensures n == 0 || 20 <= n <= |s|
  {
    if |s| >= HEAD_LEN + 4 && Get16(s[0], s[1]) == SYNC_HEAD && |s| >= HEAD_LEN + Get16(s[14], s[15]) + 4
    then HEAD_LEN + Get16(s[14], s[15]) + 4
    else 0
  }

  function Decode(b: seq<byte>): Fragment
    requires |b| >= 20 && |b| == HEAD_LEN + Get16(b[14], b[15]) + 4
  {
    Fragment(Get16(b[2], b[3]), Get16(b[12], b[13]), Get32(b[4], b[5], b[6], b[7]),
             Get16(b[8], b[9]), Get16(b[10], b[11]), b[16..|b| - 4])
  }

  function CrcField(b: seq<byte>): u32
    requires |b| >= 20
  {
    var n := |b|;
    Get32(b[n - 4], b[n - 3], b[n - 2], b[n - 1])
  }

  // A zero CRC field switches the check off.
  predicate Accepted(b: seq<byte>)
    requires |b| >= 20
  {
    CrcField(b) == 0 || CrcField(b) == Checksum(b[16..|b| - 4])
  }

  // ---------- round trip ----------

  lemma Field16(b: seq<byte>, k: nat, x: u16)
    requires k + 2 <= |b| && b[k..k + 2] == Put16(x)
    ensures Get16(b[k], b[k + 1]) == x
  {
    var f := b[k..k + 2];
    assert f[0] == b[k] && f[1] == b[k + 1];
  }

  lemma Field32(b: seq<byte>, k: nat, x: u32)
    requires k + 4 <= |b| && b[k..k + 4] == Put32(x)
    ensures Get32(b[k], b[k + 1], b[k + 2], b[k + 3]) == x
  {
    var f := b[k..k + 4];
    assert f[0] == b[k] && f[1] == b[k + 1] && f[2] == b[k + 2] && f[3] == b[k + 3];
  }

  lemma HeaderLayout(f: Fragment)
    requires |f.payload| < 0x1_0000
    ensures var h := Header(f);
            && h[0..2] == Put16(SYNC_HEAD) && h[2..4] == Put16(f.cmd) && h[4..8] == Put32(f.ipnum)
            && h[8..10] == Put16(f.curNo) && h[10..12] == Put16(f.lastNo)
            && h[12..14] == Put16(f.kind) && h[14..16] == Put16(|f.payload|)
  {
  }

  lemma HeaderFields(f: Fragment, b: seq<byte>)
    requires |f.payload| < 0x1_0000 && |b| >= HEAD_LEN && b[..HEAD_LEN] == Header(f)
    ensures Get16(b[0], b[1]) == SYNC_HEAD && Get16(b[2], b[3]) == f.cmd
    ensures Get32(b[4], b[5], b[6], b[7]) == f.ipnum
    ensures Get16(b[8], b[9]) == f.curNo && Get16(b[10], b[11]) == f.lastNo
    ensures Get16(b[12], b[13]) == f.kind && Get16(b[14], b[15]) == |f.payload|
  {
    var h := b[..HEAD_LEN];
    HeaderLayout(f);
    Field16(h, 0, SYNC_HEAD);
    Field16(h, 2, f.cmd);
    Field32(h, 4, f.ipnum);
    Field16(h, 8, f.curNo);
    Field16(h, 10, f.lastNo);
    Field16(h, 12, f.kind);
    Field16(h, 14, |f.payload|);
  }

  lemma CrcFieldIsLast(a: seq<byte>, crc: u32)
    requires |a| >= HEAD_LEN
    ensures CrcField(a + Put32(crc)) == crc
  {
    var c := Put32(crc);
    var b := a + c;
    assert b[|b| - 4] == c[0] && b[|b| - 3] == c[1] && b[|b| - 2] == c[2] && b[|b| - 1] == c[3];
  }

  lemma PacketParts(f: Fragment, crc: u32)
    requires |f.payload| < 0x1_0000
    ensures var b := Packet(f, crc); b[..HEAD_LEN] == Header(f) && b[16..|b| - 4] == f.payload && CrcField(b) == crc
  {
    hide Header, CrcField;
    CrcFieldIsLast(Header(f) + f.payload, crc);
  }

  // A packet reads back as the fragment and the CRC that were written.
  lemma PacketDecodes(f: Fragment, crc: u32)
    requires |f.payload| < 0x1_0000
    ensures |Packet(f, crc)| == HEAD_LEN + Get16(Packet(f, crc)[14], Packet(f, crc)[15]) + 4
    ensures Decode(Packet(f, crc)) == f && CrcField(Packet(f, crc)) == crc
    ensures Packet(f, crc)[16..|Packet(f, crc)| - 4] == f.payload
  {
    PacketParts(f, crc);
    HeaderFields(f, Packet(f, crc));
  }

  // Whatever follows a packet in the stream, the reader cuts the packet off exactly.
  lemma PacketCutOff(f: Fragment, crc: u32, tail: seq<byte>)
    requires |f.payload| < 0x1_0000
    ensures var s := Packet(f, crc) + tail;
            && TryRead(s) == HEAD_LEN + |f.payload| + 4 == |Packet(f, crc)|
            && s[..TryRead(s)] == Packet(f, crc) && s[TryRead(s)..] == tail
  {
    var s := Packet(f, crc) + tail;
    assert s[..HEAD_LEN] == Header(f);
    HeaderFields(f, s);
  }

  // An incomplete packet is left alone.
  lemma PartialPacketWaits(f: Fragment, crc: u32, s: seq<byte>)
    requires |f.payload| < 0x1_0000
    requires |s| < |Packet(f, crc)| && s == Packet(f, crc)[..|s|]
    ensures TryRead(s) == 0
  {
    if |s| >= HEAD_LEN {
      assert s[..HEAD_LEN] == Header(f);
      HeaderFields(f, s);
    }
  }

  // More bytes behind a packet that can be read do not change what is read.
  lemma TryReadExtends(s: seq<byte>, t: seq<byte>)
    requires TryRead(s) != 0
    ensures TryRead(s + t) == TryRead(s) && (s + t)[..TryRead(s)] == s[..TryRead(s)]
    ensures (s + t)[TryRead(s)..] == s[TryRead(s)..] + t
  {
  }

  lemma SentPayload(data: seq<byte>)
    ensures |data[..|data| % 0x1_0000]| < 0x1_0000
    ensures data[..|data| % 0x1_0000] == data <==> |data| < 0x1_0000
    ensures SentCrc(data) == 0 || SentCrc(data) == Checksum(data[..|data| % 0x1_0000])
  {
  }

  // What the sender puts on the wire is always accepted; it is all the caller gave exactly when that fits 16 bits.
  lemma SentIsAccepted(s: Send)
    ensures Accepted(SendBytes(s))
    ensures SentFragment(s).payload == s.data <==> |s.data| < 0x1_0000
  {
    SentPayload(s.data);
    PacketParts(SentFragment(s), SentCrc(s.data));
  }

  lemma SameNumberSameWord(x: bv32, y: bv32)
    requires x as int == y as int
    ensures x == y
  {
    WordAgain(x);
    WordAgain(y);
  }

  lemma WordAgain(x: bv32)
    ensures 0 <= x as int < 0x1_0000_0000 && ((x as int) as bv32) == x
  {
  }

  lemma ChecksumTellsBursts(p: seq<byte>, q: seq<byte>, at: nat, n: nat)
    requires |p| == |q| && n <= 4 && at + n <= |p|
    requires p[..at] == q[..at] && p[at + n..] == q[at + n..]
    ensures Checksum(p) == Checksum(q) <==> p == q
  {
    BurstDetected(CRCPOLY_LE, p, q, at, n);
    if Checksum(p) == Checksum(q) {
      SameNumberSameWord(Crc32(CRCPOLY_LE, p), Crc32(CRCPOLY_LE, q));
    }
  }

  // A payload altered, at equal length, within four consecutive bytes.
  predicate Altered(sent: seq<byte>, got: seq<byte>, at: nat, n: nat) {
    && |got| == |sent| && n <= 4 && at + n <= |got| && got != sent
    && got[..at] == sent[..at] && got[at + n..] == sent[at + n..]
  }

  // A packet whose payload was altered is refused exactly when its CRC field is not the zero that switches the
  // check off.
  lemma AlteredPayloadRefused(s: Send, got: seq<byte>, at: nat, n: nat)
    requires Altered(SentFragment(s).payload, got, at, n)
    ensures Accepted(Packet(SentFragment(s).(payload := got), SentCrc(s.data))) <==> SentCrc(s.data) == 0
  {
    var f := SentFragment(s);
    SentPayload(s.data);
    PacketParts(f.(payload := got), SentCrc(s.data));
    ChecksumTellsBursts(f.payload, got, at, n);
  }

  // ---------- packets that go unchecked ----------

  // Every payload of at most 65531 bytes becomes one whose CRC field is zero by four more bytes: those of its own
  // checksum, low byte first.
  function Unchecked(p: seq<byte>): seq<byte> {
    p + OwnBytes(Crc32(CRCPOLY_LE, p))
  }

  lemma UncheckedIsZero(p: seq<byte>)
    requires |p| + 4 < 0x1_0000
    ensures SentCrc(Unchecked(p)) == 0
  {
    var c := Crc32(CRCPOLY_LE, p);
    CrcAppend(CRCPOLY_LE, p, OwnBytes(c));
    OwnBytesCancel(c);
    assert Unchecked(p)[..|Unchecked(p)|] == Unchecked(p);
  }

  // Such a payload can be altered any way at all and is still accepted.
  lemma UncheckedIsAccepted(s: Send, p: seq<byte>, got: seq<byte>, at: nat, n: nat)
    requires |p| + 4 < 0x1_0000 && s.data == Unchecked(p) && Altered(SentFragment(s).payload, got, at, n)
    ensures SentCrc(s.data) == 0 && Accepted(Packet(SentFragment(s).(payload := got), SentCrc(s.data)))
  {
    hide Packet, Accepted, Unchecked;
    UncheckedIsZero(p);
    AlteredPayloadRefused(s, got, at, n);
  }
}
