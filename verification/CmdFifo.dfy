// The circular byte buffer between recv() and the packet parser.
module CmdFifos {
  import opened Wrappers
  import opened Wire
  import opened Rings

  // ---------- writing round the end ----------

  function Overwrite(a: seq<byte>, at: nat, data: seq<byte>): (b: seq<byte>)
    requires at + |data| <= |a|
    ensures |b| == |a|
    ensures forall i | 0 <= i < |a| :: b[i] == if at <= i < at + |data| then data[i - at] else a[i]
  {
    a[..at] + data + a[at + |data|..]
  }

  // Both branches that do not cross the end of the buffer.
  lemma RingWriteStraight(a: seq<byte>, read: nat, n: nat, data: seq<byte>, write: nat)
    requires read < |a| && n + |data| <= |a| && write == Wrap(read + n, |a|) && write + |data| <= |a|
    ensures Ring(Overwrite(a, write, data), read, n + |data|) == Ring(a, read, n) + data
  {
    var b := Overwrite(a, write, data);
    var r, s := Ring(b, read, n + |data|), Ring(a, read, n) + data;
    forall i | 0 <= i < n + |data| ensures r[i] == s[i] {
      assert r[i] == b[Wrap(read + i, |a|)];
      if i < n {
        assert s[i] == a[Wrap(read + i, |a|)];
      }
    }
  }

  function OverwriteAround(a: seq<byte>, write: nat, data: seq<byte>, len1: nat): (b: seq<byte>)
    requires write + len1 == |a| && len1 <= |data| <= |a|
    ensures |b| == |a|
    ensures forall p | 0 <= p < |a| ::
      b[p] == if write <= p then data[p - write] else if p < |data| - len1 then data[len1 + p] else a[p]
  {
    Overwrite(Overwrite(a, write, data[..len1]), 0, data[len1..])
  }

  // The branch that fills up to the end and goes on at the front.
  lemma RingWriteAround(a: seq<byte>, read: nat, n: nat, data: seq<byte>, write: nat, len1: nat)
    requires read < |a| && n + |data| <= |a| && write == Wrap(read + n, |a|) && read <= write
    requires write + |data| >= |a| && len1 == |a| - write
    ensures len1 <= |data| <= |a|
    ensures Ring(OverwriteAround(a, write, data, len1), read, n + |data|) == Ring(a, read, n) + data
  {
    var b := OverwriteAround(a, write, data, len1);
    var r, s := Ring(b, read, n + |data|), Ring(a, read, n) + data;
    forall i | 0 <= i < n + |data| ensures r[i] == s[i] {
      assert r[i] == b[Wrap(read + i, |a|)];
      if i < n {
        assert s[i] == a[Wrap(read + i, |a|)];
      }
    }
  }

  // ---------- the buffer ----------

  class CmdFifo {
    const cmd: array<byte>
    var read: nat
    var write: nat
    var len: nat

    ghost predicate Valid()
      reads this
    {
      && HEAD_LEN < cmd.Length
      && read < cmd.Length
      && len <= cmd.Length
      && write == Wrap(read + len, cmd.Length)
    }

    // The bytes waiting, oldest first.
    ghost function Contents(): (s: seq<byte>)
      requires Valid()
      reads this, cmd
      ensures |s| == len
    {
      Ring(cmd[..], read, len)
    }

    constructor (maxLen: nat)
      requires HEAD_LEN < maxLen
      ensures Valid() && fresh(cmd) && cmd.Length == maxLen && Contents() == []
    {
      cmd := new byte[maxLen];
      read, write, len := 0, 0, 0;
    }

    // memcpy into the buffer
    method CopyIn(at: nat, data: seq<byte>)
      requires at + |data| <= cmd.Length
      modifies cmd
      ensures cmd[..] == Overwrite(old(cmd[..]), at, data)
    {
      forall i | 0 <= i < |data| {
        cmd[at + i] := data[i];
      }
    }

    // The free space crosses the end of the buffer: copy in two pieces.
    method CopyAround(data: seq<byte>)
      requires Valid() && len + |data| <= cmd.Length
      requires read <= write && write + |data| >= cmd.Length
      modifies cmd
      ensures Ring(cmd[..], read, len + |data|) == old(Contents()) + data
    {
      var len1 := cmd.Length - write;
      RingWriteAround(cmd[..], read, len, data, write, len1);
      CopyIn(write, data[..len1]);
      CopyIn(0, data[len1..]);
    }

    method CopyStraight(data: seq<byte>)
      requires Valid() && len + |data| <= cmd.Length
      requires write + |data| <= cmd.Length
      modifies cmd
      ensures Ring(cmd[..], read, len + |data|) == old(Contents()) + data
    {
      RingWriteStraight(cmd[..], read, len, data, write);
      CopyIn(write, data);
    }

    // Where the copy went; still to be reduced modulo the size.
    method CopyBehind(data: seq<byte>) returns (end: nat)
      requires Valid() && len + |data| <= cmd.Length
      modifies cmd
      ensures Ring(cmd[..], read, len + |data|) == old(Contents()) + data
      ensures end < 2 * cmd.Length && Wrap(end, cmd.Length) == Wrap(read + (len + |data|), cmd.Length)
    {
      if write >= read {
        if write + |data| < cmd.Length {
          CopyStraight(data);
          end := write + |data|;
        } else {
          CopyAround(data);
          end := |data| - (cmd.Length - write);
        }
      } else {
        CopyStraight(data);
        end := write + |data|;
      }
    }

    // All of the data or nothing.
    method Write(data: seq<byte>) returns (ok: bool)
      requires Valid()
      modifies this, cmd
      ensures Valid()
      ensures ok <==> old(len) + |data| <= cmd.Length
      ensures ok ==> Contents() == old(Contents()) + data
      ensures !ok ==> cmd[..] == old(cmd[..]) && read == old(read) && write == old(write) && len == old(len)
    {
      if len + |data| > cmd.Length {
        return false;
      }
      var end := CopyBehind(data);
      ModOnce(end, cmd.Length);
      len := len + |data|;
      write := end % cmd.Length;
      ok := true;
    }

    // Looks at the front without taking anything.
    method PeekHead() returns (head: seq<byte>)
      requires Valid() && len >= HEAD_LEN
      ensures head == Contents()[..HEAD_LEN]
    {
      hide Ring;
      RingRead(cmd[..], read, len, HEAD_LEN);
      RingPieces(cmd[..], read, HEAD_LEN);
      var len1 := cmd.Length - read;
      if len1 > HEAD_LEN {
        head := cmd[read..read + HEAD_LEN];
      } else {
        head := cmd[read..read + len1] + cmd[..HEAD_LEN - len1];
      }
    }

    // The length of the packet at the front once it is whole, else 0.
    method TryReadLen() returns (n: nat)
      requires Valid()
      ensures n == TryRead(Contents())
    {
      ghost var s := Contents();
      n := 0;
      if len >= HEAD_LEN + 4 {
        var head := PeekHead();
        assert head[0] == s[0] && head[1] == s[1] && head[14] == s[14] && head[15] == s[15];
        if Get16(head[0], head[1]) == SYNC_HEAD {
          var validLen := Get16(head[14], head[15]);
          if len >= HEAD_LEN + validLen + 4 {
            n := HEAD_LEN + validLen + 4;
          }
        }
      }
    }

    method CopyOut(n: nat) returns (buffer: seq<byte>)
      requires Valid() && n <= len
      ensures buffer == Ring(cmd[..], read, n)
    {
      hide Ring;
      RingPieces(cmd[..], read, n);
      if read + n > cmd.Length {
        var len1 := cmd.Length - read;
        buffer := cmd[read..read + len1] + cmd[..n - len1];
      } else {
        buffer := cmd[read..read + n];
      }
    }

    method Read(n: nat) returns (buffer: seq<byte>)
      requires Valid() && n <= len
      modifies this
      ensures Valid()
      ensures buffer == old(Contents())[..n]
      ensures Contents() == old(Contents())[n..]
    {
      RingRead(cmd[..], read, len, n);
      buffer := CopyOut(n);
      ModOnce(read + n, cmd.Length);
      read := (read + n) % cmd.Length;
      len := len - n;
    }
  }
}
