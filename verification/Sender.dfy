// The sending side: one packet into a buffer, and a long message in pieces of PACKAGE_MAX_LEN bytes.
module Senders {
  import opened Wrappers
  import opened Crc
  import opened Wire

  // memcpy to a moving write pointer
  method Append(buffer: array<byte>, at: nat, data: seq<byte>) returns (next: nat)
    requires at + |data| <= buffer.Length
    modifies buffer
    ensures next == at + |data|
    ensures buffer[..next] == old(buffer[..at]) + data
  {
    forall i | 0 <= i < |data| {
      buffer[at + i] := data[i];
    }
    next := at + |data|;
  }

  method WriteHeader(buffer: array<byte>, f: Fragment) returns (p: nat)
    requires HEAD_LEN <= buffer.Length && |f.payload| < 0x1_0000
    modifies buffer
    ensures p == HEAD_LEN && buffer[..p] == Header(f)
  {
    var sync, cmd, ipnum := Put16(SYNC_HEAD), Put16(f.cmd), Put32(f.ipnum);
    p := Append(buffer, 0, sync);
    p := Append(buffer, p, cmd);
    p := Append(buffer, p, ipnum);
    assert buffer[..p] == sync + cmd + ipnum;
    p := WriteCounts(buffer, p, f);
  }

  method WriteCounts(buffer: array<byte>, at: nat, f: Fragment) returns (p: nat)
    requires at == 8 && at + 8 <= buffer.Length && |f.payload| < 0x1_0000
    modifies buffer
    ensures p == at + 8
    ensures buffer[..p] == old(buffer[..at]) + Put16(f.curNo) + Put16(f.lastNo) + Put16(f.kind) + Put16(|f.payload|)
  {
    p := Append(buffer, at, Put16(f.curNo));
    p := Append(buffer, p, Put16(f.lastNo));
    p := Append(buffer, p, Put16(f.kind));
    p := Append(buffer, p, Put16(|f.payload|));
  }

  method CrcOf(data: seq<byte>, length: nat) returns (crc: u32)
    requires length == |data| % 0x1_0000
    ensures crc == SentCrc(data)
  {
    crc := 0;
    if |data| != 0 {
      var c := Crc32Le(CRCPOLY_LE, data[..length]);
      WordAgain(c);
      crc := c as int;
    }
  }

  method SendSocketCmd(s: Send) returns (buffer: array<byte>)
    ensures fresh(buffer) && buffer[..] == SendBytes(s)
  {
    var length := |s.data| % 0x1_0000;
    var f := Fragment(Low16(s.typeCmd), High16(s.typeCmd), s.ipnum, s.curNo, s.lastNo, s.data[..length]);
    var crc := CrcOf(s.data, length);
    buffer := new byte[HEAD_LEN + length + 4];
    var p := WriteHeader(buffer, f);
    WriteTail(buffer, p, f.payload, Put32(crc));
  }

  method WriteTail(buffer: array<byte>, at: nat, payload: seq<byte>, crc: seq<byte>)
    requires at + |payload| + |crc| == buffer.Length
    modifies buffer
    ensures buffer[..] == old(buffer[..at]) + payload + crc
  {
    var p := Append(buffer, at, payload);
    p := Append(buffer, p, crc);
    assert buffer[..] == buffer[..p];
  }

  // ---------- long messages ----------

  const REBACK_MIPI_CODE: u32 := 2
  const CLIENT_MSG_REBACK: u32 := 0x2020

  function LastNo(data: seq<byte>): nat {
    |data| / PACKAGE_MAX_LEN
  }

  // The i-th piece; an exact multiple of the piece length ends with an empty one.  Both counters are cut to 16 bits
  // by the call.
  function Piece(data: seq<byte>, i: nat): Send
    requires i <= LastNo(data)
  {
    Send(REBACK_MIPI_CODE * 0x1_0000 + CLIENT_MSG_REBACK, 0, i % 0x1_0000, LastNo(data) % 0x1_0000,
         if i < LastNo(data) then data[i * PACKAGE_MAX_LEN..(i + 1) * PACKAGE_MAX_LEN] else data[i * PACKAGE_MAX_LEN..])
  }

  function Pieces(data: seq<byte>, n: nat): (s: seq<Send>)
    requires n <= LastNo(data) + 1
    ensures |s| == n && forall i | 0 <= i < n :: s[i] == Piece(data, i)
  {
    if n == 0 then [] else Pieces(data, n - 1) + [Piece(data, n - 1)]
  }

  function Fragments(data: seq<byte>): seq<Send> {
    if data == [] then [] else Pieces(data, LastNo(data) + 1)
  }

  function Glue(s: seq<Send>): seq<byte> {
    if s == [] then [] else Glue(s[..|s| - 1]) + s[|s| - 1].data
  }

  lemma PieceFollows(data: seq<byte>, i: nat)
    requires i <= LastNo(data)
    ensures i * PACKAGE_MAX_LEN <= |data|
    ensures i < LastNo(data) ==> (i + 1) * PACKAGE_MAX_LEN <= |data| && |Piece(data, i).data| == PACKAGE_MAX_LEN
    ensures i < LastNo(data) ==>
              data[..i * PACKAGE_MAX_LEN] + Piece(data, i).data == data[..(i + 1) * PACKAGE_MAX_LEN]
    ensures i == LastNo(data) ==> data[..i * PACKAGE_MAX_LEN] + Piece(data, i).data == data
    ensures i == LastNo(data) ==> |Piece(data, i).data| == |data| % PACKAGE_MAX_LEN
  {
  }

  // The pieces cover the data once, in order and without gaps, and none is longer than the limit.
  lemma {:induction false} PiecesCover(data: seq<byte>, n: nat)
    requires n <= LastNo(data) + 1
    ensures n <= LastNo(data) ==> n * PACKAGE_MAX_LEN <= |data|
    ensures Glue(Pieces(data, n)) == if n <= LastNo(data) then data[..n * PACKAGE_MAX_LEN] else data
    ensures forall i | 0 <= i < n :: |Pieces(data, n)[i].data| <= PACKAGE_MAX_LEN
  {
    hide Piece;
    if n > 0 {
      PiecesCover(data, n - 1);
      assert Pieces(data, n)[..n - 1] == Pieces(data, n - 1);
      PieceFollows(data, n - 1);
    }
  }

  method RebackMipiCode(data: seq<byte>) returns (sends: seq<Send>)
    ensures sends == Fragments(data)
  {
    sends := [];
    if |data| > 0 {
      var packetLen := PACKAGE_MAX_LEN;
      var remainDataLen := |data|;
      var lastNo := |data| / packetLen;
      var i := 0;
      while i < lastNo + 1
        invariant 0 <= i <= lastNo + 1
        invariant i <= lastNo ==> remainDataLen == |data| - i * packetLen >= 0
        invariant sends == Pieces(data, i)
      {
        var sendLen := if remainDataLen >= packetLen then packetLen else remainDataLen;
        var piece := Send(REBACK_MIPI_CODE * 0x1_0000 + CLIENT_MSG_REBACK, 0, i % 0x1_0000, lastNo % 0x1_0000,
                          data[i * packetLen..i * packetLen + sendLen]);
        PieceFollows(data, i);
        assert piece == Piece(data, i);
        sends := sends + [piece];
        remainDataLen := remainDataLen - sendLen;
        i := i + 1;
      }
    }
  }
}
