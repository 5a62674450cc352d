// The bitwise little-endian CRC of util/util.c and what it detects.
module Crc {
  import opened Wrappers

  const CRCPOLY_LE: bv32 := 0xedb88320

  // One turn of the inner loop: shift right, fold the polynomial in when the bit shifted out was set.
  function Shift(x: bv32): bv32 {
    (x >> 1) ^ Feedback(x)
  }

  function Feedback(x: bv32): bv32 {
    if x & 1 == 1 then CRCPOLY_LE else 0
  }

  function ShiftN(x: bv32, n: nat): bv32 {
    if n == 0 then x else Shift(ShiftN(x, n - 1))
  }

  function StepByte(crc: bv32, b: byte): bv32 {
    ShiftN(crc ^ (b as bv32), 8)
  }

  function Crc32(crc: bv32, p: seq<byte>): bv32
    decreases |p|
  {
    if p == [] then crc else Crc32(StepByte(crc, p[0]), p[1..])
  }

  // The two nested loops.
  method Crc32Le(crc0: bv32, p: seq<byte>) returns (crc: bv32)
    ensures crc == Crc32(crc0, p)
  {
    crc := crc0;
    var k := 0;
    while k < |p|
      invariant 0 <= k <= |p|
      invariant Crc32(crc, p[k..]) == Crc32(crc0, p)
    {
      ghost var before := crc;
      assert p[k..][0] == p[k] && p[k..][1..] == p[k + 1..];
      crc := crc ^ (p[k] as bv32);
      for i := 0 to 8
        invariant crc == ShiftN(before ^ (p[k] as bv32), i)
      {
        crc := (crc >> 1) ^ (if crc & 1 == 1 then CRCPOLY_LE else 0);
      }
      k := k + 1;
    }
  }

  // ---------- one step is a bijection on 32-bit states ----------

  function Unshift(y: bv32): bv32 {
    if y & 0x8000_0000 != 0 then ((y ^ CRCPOLY_LE) << 1) | 1 else y << 1
  }

  lemma ShiftOneToOne(x: bv32)
    ensures Unshift(Shift(x)) == x
  {
  }

  lemma ShiftOntoOdd(x: bv32, u: bv32)
    requires x & 0x8000_0000 != 0 && u == ((x ^ CRCPOLY_LE) << 1) | 1
    ensures u & 1 == 1 && (u >> 1) ^ CRCPOLY_LE == x
  {
  }

  lemma ShiftOnto(x: bv32)
    ensures Shift(Unshift(x)) == x
  {
    if x & 0x8000_0000 != 0 {
      ShiftOntoOdd(x, ((x ^ CRCPOLY_LE) << 1) | 1);
    }
  }

  lemma {:induction false} ShiftNInjective(x: bv32, y: bv32, n: nat)
    requires ShiftN(x, n) == ShiftN(y, n)
    ensures x == y
  {
    if n > 0 {
      ShiftOneToOne(ShiftN(x, n - 1));
      ShiftOneToOne(ShiftN(y, n - 1));
      ShiftNInjective(x, y, n - 1);
    }
  }

  // The step function of a fixed byte is a bijection on states: every state is reached, from one state only.
  lemma StepBijective(c: bv32, d: bv32, b: byte)
    ensures StepByte(c, b) == StepByte(d, b) <==> c == d
    ensures exists e :: StepByte(e, b) == c
  {
    if StepByte(c, b) == StepByte(d, b) {
      ShiftNInjective(c ^ (b as bv32), d ^ (b as bv32), 8);
    }
    var e := UnshiftN(c, 8);
    ShiftNOnto(c, 8);
    assert StepByte(e ^ (b as bv32), b) == ShiftN(e, 8) by {
      assert (e ^ (b as bv32)) ^ (b as bv32) == e;
    }
  }

  function UnshiftN(y: bv32, n: nat): bv32
    decreases n
  {
    if n == 0 then y else UnshiftN(Unshift(y), n - 1)
  }

  lemma {:induction false} ShiftNOnto(y: bv32, n: nat)
    ensures ShiftN(UnshiftN(y, n), n) == y
    decreases n
  {
    if n > 0 {
      ShiftNOnto(Unshift(y), n - 1);
      ShiftOnto(y);
    }
  }

  lemma {:induction false} CrcInjectiveInState(c: bv32, d: bv32, p: seq<byte>)
    requires Crc32(c, p) == Crc32(d, p)
    ensures c == d
    decreases |p|
  {
    if p != [] {
      CrcInjectiveInState(StepByte(c, p[0]), StepByte(d, p[0]), p[1..]);
      StepBijective(c, d, p[0]);
    }
  }

  // The checksum chains over concatenation.
  lemma {:induction false} CrcAppend(c: bv32, p: seq<byte>, q: seq<byte>)
    ensures Crc32(c, p + q) == Crc32(Crc32(c, p), q)
    decreases |p|
  {
    if p == [] {
      assert p + q == q;
    } else {
      assert (p + q)[0] == p[0] && (p + q)[1..] == p[1..] + q;
      CrcAppend(StepByte(c, p[0]), p[1..], q);
    }
  }

  // ---------- how far back an agreement of two states reaches ----------

  // Two registers agree on the bits of a mask.
  predicate Agree(x: bv32, y: bv32, m: bv32) {
    x & m == y & m
  }

  // The polynomial's top bit is set, so the top bit after a turn is the bit the turn shifted out.
  lemma TopBitIsOldLowBit(x: bv32)
    ensures (Shift(x) >> 31) == x & 1
  {
  }

  lemma TopBitsEqual(x: bv32, y: bv32, m: bv32)
    requires m >> 31 == 1 && x & m == y & m
    ensures x >> 31 == y >> 31
  {
  }

  lemma SameFeedback(x: bv32, y: bv32, c: bv32, s: bv32, t: bv32, m: bv32)
    requires x & 1 == y & 1 && s == (x >> 1) ^ c && t == (y >> 1) ^ c && s & m == t & m
    ensures x & ((m << 1) | 1) == y & ((m << 1) | 1)
  {
  }

  lemma LowBitsEqual(x: bv32, y: bv32, m: bv32)
    requires m >> 31 == 1 && Agree(Shift(x), Shift(y), m)
    ensures x & 1 == y & 1
  {
    TopBitsEqual(Shift(x), Shift(y), m);
    TopBitIsOldLowBit(x);
    TopBitIsOldLowBit(y);
  }

  lemma SameLowBitSameFeedback(x: bv32, y: bv32, c: bv32)
    requires x & 1 == y & 1 && c == Feedback(x)
    ensures Shift(x) == (x >> 1) ^ c && Shift(y) == (y >> 1) ^ c
  {
  }

  lemma TurnBackWith(x: bv32, y: bv32, c: bv32, m: bv32)
    requires m >> 31 == 1 && Agree(Shift(x), Shift(y), m)
    requires c == Feedback(x)
    ensures Agree(x, y, (m << 1) | 1)
  {
    LowBitsEqual(x, y, m);
    SameLowBitSameFeedback(x, y, c);
    SameFeedback(x, y, c, Shift(x), Shift(y), m);
  }

  // A turn hands an agreement on a mask back to the mask moved up by one place, low bit included.
  lemma TurnBack(x: bv32, y: bv32, m: bv32)
    requires m >> 31 == 1 && Agree(Shift(x), Shift(y), m)
    ensures Agree(x, y, (m << 1) | 1)
  {
    TurnBackWith(x, y, Feedback(x), m);
  }

  // ---------- eight turns, seen without their bits ----------

  function Turns<T>(turn: T -> T, x: T, n: nat): T {
    if n == 0 then x else turn(Turns(turn, x, n - 1))
  }

  function Raised<M>(up: M -> M, m: M, n: nat): M
    decreases n
  {
    if n == 0 then m else Raised(up, up(m), n - 1)
  }

  predicate StaysOk<M>(ok: M -> bool, up: M -> M, m: M, n: nat)
    decreases n
  {
    n == 0 || (ok(m) && StaysOk(ok, up, up(m), n - 1))
  }

  lemma {:induction false} TurnsBack<T(!new), M(!new)>(
      turn: T -> T, agree: (T, T, M) -> bool, ok: M -> bool, up: M -> M,
                                                       x: T, y: T, m: M, n: nat)
    requires forall a, b, w :: ok(w) && agree(turn(a), turn(b), w) ==> agree(a, b, up(w))
    requires StaysOk(ok, up, m, n)
    requires agree(Turns(turn, x, n), Turns(turn, y, n), m)
    ensures agree(x, y, Raised(up, m, n))
    decreases n
  {
    if n > 0 {
      TurnsBack(turn, agree, ok, up, x, y, up(m), n - 1);
    }
  }

  const TURN: bv32 -> bv32 := x => Shift(x)
  const AGREE: (bv32, bv32, bv32) -> bool := (x, y, m) => Agree(x, y, m)
  const HAS_TOP: bv32 -> bool := m => m >> 31 == 1
  const UP: bv32 -> bv32 := m => (m << 1) | 1

  lemma {:induction false} ShiftNIsTurns(x: bv32, n: nat)
    ensures ShiftN(x, n) == Turns(TURN, x, n)
  {
    if n > 0 {
      ShiftNIsTurns(x, n - 1);
    }
  }

  lemma TurnTakesBack()
    ensures forall a, b, w :: HAS_TOP(w) && AGREE(TURN(a), TURN(b), w) ==> AGREE(a, b, UP(w))
  {
    forall a, b, w | HAS_TOP(w) && AGREE(TURN(a), TURN(b), w) ensures AGREE(a, b, UP(w)) {
      TurnBack(a, b, w);
    }
  }

  lemma ShiftNBack(x: bv32, y: bv32, m: bv32, n: nat)
    requires StaysOk(HAS_TOP, UP, m, n)
    requires AGREE(ShiftN(x, n), ShiftN(y, n), m)
    ensures AGREE(x, y, Raised(UP, m, n))
  {
    TurnTakesBack();
    ShiftNIsTurns(x, n);
    ShiftNIsTurns(y, n);
    TurnsBack(TURN, AGREE, HAS_TOP, UP, x, y, m, n);
  }

  // ---------- one byte ----------

  // States are near to k bytes when they agree in all but their low k bytes.
  function HighBytes(k: nat): bv32 {
    if k == 0 then 0xFFFF_FFFF else if k == 1 then 0xFFFF_FF00 else if k == 2 then 0xFFFF_0000
    else if k == 3 then 0xFF00_0000 else 0
  }

  predicate Near(s: bv32, t: bv32, k: nat) {
    AGREE(s, t, HighBytes(k))
  }

  lemma RaisedByteMasks(k: nat)
    requires k <= 3
    ensures StaysOk(HAS_TOP, UP, HighBytes(k), 8)
    ensures Raised(UP, HighBytes(k), 8) == HighBytes(k + 1) | 0xFF
  {
  }

  lemma ByteOut(s: bv32, a: byte, t: bv32, b: byte, m: bv32)
    requires (s ^ (a as bv32)) & (m | 0xFF) == (t ^ (b as bv32)) & (m | 0xFF)
    requires m & 0xFF == 0
    ensures s & m == t & m
  {
  }

  lemma ByteOutAgree(s: bv32, a: byte, t: bv32, b: byte, m: bv32)
    requires AGREE(s ^ (a as bv32), t ^ (b as bv32), m | 0xFF)
    requires m & 0xFF == 0
    ensures AGREE(s, t, m)
  {
    ByteOut(s, a, t, b, m);
  }

  lemma SameStateSameByte(s: bv32, a: byte, b: byte, m: bv32)
    requires (s ^ (a as bv32)) & (m | 0xFF) == (s ^ (b as bv32)) & (m | 0xFF)
    ensures a == b
  {
  }

  lemma NoHidingByte(s: bv32, a: byte, b: byte, m: bv32)
    requires AGREE(s ^ (a as bv32), s ^ (b as bv32), m | 0xFF)
    ensures a == b
  {
    SameStateSameByte(s, a, b, m);
  }

  lemma StepBack(s: bv32, a: byte, t: bv32, b: byte, k: nat)
    requires k <= 3 && Near(StepByte(s, a), StepByte(t, b), k)
    ensures AGREE(s ^ (a as bv32), t ^ (b as bv32), HighBytes(k + 1) | 0xFF)
  {
    RaisedByteMasks(k);
    ShiftNBack(s ^ (a as bv32), t ^ (b as bv32), HighBytes(k), 8);
  }

  lemma HighBytesClear(k: nat)
    requires 1 <= k
    ensures HighBytes(k) & 0xFF == 0
  {
  }

  lemma SpreadOut(s: bv32, a: byte, t: bv32, b: byte, k: nat, m: bv32)
    requires 1 <= k && m == HighBytes(k)
    requires AGREE(s ^ (a as bv32), t ^ (b as bv32), m | 0xFF)
    ensures Near(s, t, k)
  {
    HighBytesClear(k);
    ByteOutAgree(s, a, t, b, m);
  }

  // The step moves a difference up by one byte: it cannot cancel a nearby one ...
  lemma StepSpreads(s: bv32, a: byte, t: bv32, b: byte, k: nat)
    requires k <= 3 && Near(StepByte(s, a), StepByte(t, b), k)
    ensures Near(s, t, k + 1)
  {
    StepBack(s, a, t, b, k);
    SpreadOut(s, a, t, b, k + 1, HighBytes(k + 1));
  }

  // ... nor hide two different bytes.
  lemma StepTellsBytes(s: bv32, a: byte, b: byte, k: nat)
    requires k <= 3 && Near(StepByte(s, a), StepByte(s, b), k)
    ensures a == b
  {
    StepBack(s, a, s, b, k);
    NoHidingByte(s, a, b, HighBytes(k + 1));
  }

  lemma FullMask(s: bv32, t: bv32)
    requires s & 0xFFFF_FFFF == t & 0xFFFF_FFFF
    ensures s == t
  {
  }

  lemma NearZero(s: bv32, t: bv32)
    ensures Near(s, t, 0) <==> s == t
  {
    if Near(s, t, 0) {
      FullMask(s, t);
    }
  }

  // ---------- the whole text, seen without its bits ----------

  function Fold<S, A>(step: (S, A) -> S, s: S, p: seq<A>): S
    decreases |p|
  {
    if p == [] then s else Fold(step, step(s, p[0]), p[1..])
  }

  ghost predicate Spreads<S(!new), A(!new)>(step: (S, A) -> S, near: (S, S, int) -> bool, reach: nat) {
    && (forall s, t :: near(s, t, 0) <==> s == t)
    && (forall s, a, t, b, k: nat :: k < reach && near(step(s, a), step(t, b), k) ==>
         near(s, t, k + 1) && (s == t ==> a == b))
  }

  lemma {:induction false} EqualFoldsAreNear<S(!new), A(!new)>(step: (S, A) -> S, near: (S, S, int) -> bool, reach: nat,
                                                               s: S, t: S, p: seq<A>, q: seq<A>)
    requires Spreads(step, near, reach)
    requires |p| == |q| <= reach && Fold(step, s, p) == Fold(step, t, q)
    ensures near(s, t, |p|)
    decreases |p|
  {
    if p != [] {
      EqualFoldsAreNear(step, near, reach, step(s, p[0]), step(t, q[0]), p[1..], q[1..]);
    }
  }

  lemma {:induction false} EqualFoldsEqualTexts<S(!new), A(!new)>(
      step: (S, A) -> S, near: (S, S, int) -> bool, reach: nat,
                                                                  s: S, p: seq<A>, q: seq<A>)
    requires Spreads(step, near, reach)
    requires |p| == |q| <= reach && Fold(step, s, p) == Fold(step, s, q)
    ensures p == q
    decreases |p|
  {
    if p != [] {
      EqualFoldsAreNear(step, near, reach, step(s, p[0]), step(s, q[0]), p[1..], q[1..]);
      assert p[0] == q[0];
      EqualFoldsEqualTexts(step, near, reach, step(s, p[0]), p[1..], q[1..]);
      assert p == [p[0]] + p[1..] && q == [q[0]] + q[1..];
    }
  }

  const CRC_STEP: (bv32, byte) -> bv32 := (s, b) => StepByte(s, b)
  const CRC_NEAR: (bv32, bv32, int) -> bool := (s, t, k) => k >= 0 && Near(s, t, k)

  lemma {:induction false} CrcIsFold(c: bv32, p: seq<byte>)
    ensures Crc32(c, p) == Fold(CRC_STEP, c, p)
    decreases |p|
  {
    if p != [] {
      CrcIsFold(StepByte(c, p[0]), p[1..]);
    }
  }

  lemma CrcSpreads()
    ensures Spreads(CRC_STEP, CRC_NEAR, 4)
  {
    forall s, t ensures CRC_NEAR(s, t, 0) <==> s == t {
      NearZero(s, t);
    }
    forall s, a, t, b, k: nat | k < 4 && CRC_NEAR(CRC_STEP(s, a), CRC_STEP(t, b), k)
      ensures CRC_NEAR(s, t, k + 1) && (s == t ==> a == b)
    {
      StepSpreads(s, a, t, b, k);
      if s == t {
        StepTellsBytes(s, a, b, k);
      }
    }
  }

  lemma FourBytesTold(c: bv32, p: seq<byte>, q: seq<byte>)
    requires |p| == |q| <= 4 && Crc32(c, p) == Crc32(c, q)
    ensures p == q
  {
    CrcSpreads();
    CrcIsFold(c, p);
    CrcIsFold(c, q);
    EqualFoldsEqualTexts(CRC_STEP, CRC_NEAR, 4, c, p, q);
  }

  lemma Around(c: bv32, p: seq<byte>, at: nat, n: nat)
    requires at + n <= |p|
    ensures Crc32(c, p) == Crc32(Crc32(Crc32(c, p[..at]), p[at..at + n]), p[at + n..])
  {
    assert p == p[..at] + (p[at..at + n] + p[at + n..]);
    CrcAppend(c, p[..at], p[at..at + n] + p[at + n..]);
    CrcAppend(Crc32(c, p[..at]), p[at..at + n], p[at + n..]);
  }

  lemma EqualCrcsEqualTexts(c: bv32, p: seq<byte>, q: seq<byte>, at: nat, n: nat)
    requires |p| == |q| && n <= 4 && at + n <= |p|
    requires p[..at] == q[..at] && p[at + n..] == q[at + n..]
    requires Crc32(c, p) == Crc32(c, q)
    ensures p == q
  {
    Around(c, p, at, n);
    Around(c, q, at, n);
    var s := Crc32(c, p[..at]);
    CrcInjectiveInState(Crc32(s, p[at..at + n]), Crc32(s, q[at..at + n]), p[at + n..]);
    FourBytesTold(s, p[at..at + n], q[at..at + n]);
    assert p == p[..at] + p[at..at + n] + p[at + n..] && q == q[..at] + q[at..at + n] + q[at + n..];
  }

  // Two different texts of equal length that agree outside some four consecutive bytes never share a checksum.
  lemma BurstDetected(c: bv32, p: seq<byte>, q: seq<byte>, at: nat, n: nat)
    requires |p| == |q| && n <= 4 && at + n <= |p|
    requires p[..at] == q[..at] && p[at + n..] == q[at + n..]
    ensures Crc32(c, p) == Crc32(c, q) <==> p == q
  {
    if Crc32(c, p) == Crc32(c, q) {
      EqualCrcsEqualTexts(c, p, q, at, n);
    }
  }

  // ---------- a text that cancels its own checksum ----------

  function LowByte(c: bv32): byte {
    (c & 0xff) as byte
  }

  function Above(c: bv32): bv32 {
    c >> 8
  }

  // The four bytes of a word, low byte first.
  function OwnBytes(c: bv32): (b: seq<byte>)
    ensures |b| == 4
  {
    [LowByte(c), LowByte(Above(c)), LowByte(Above(Above(c))), LowByte(Above(Above(Above(c))))]
  }

  lemma EvenShifts(x: bv32)
    requires x & 1 == 0
    ensures Shift(x) == x >> 1
  {
  }

  lemma ShiftsAdd(x: bv32)
    ensures (x >> 1) >> 1 == x >> 2 && (x >> 2) >> 1 == x >> 3 && (x >> 3) >> 1 == x >> 4 && (x >> 4) >> 1 == x >> 5
    ensures (x >> 5) >> 1 == x >> 6 && (x >> 6) >> 1 == x >> 7 && (x >> 7) >> 1 == x >> 8
  {
  }

  lemma ZeroBits(x: bv32)
    requires x & 0xff == 0
    ensures x & 1 == 0 && (x >> 1) & 1 == 0 && (x >> 2) & 1 == 0 && (x >> 3) & 1 == 0
    ensures (x >> 4) & 1 == 0 && (x >> 5) & 1 == 0 && (x >> 6) & 1 == 0 && (x >> 7) & 1 == 0
  {
  }

  lemma ShiftNNext(x: bv32, n: nat)
    ensures ShiftN(x, n + 1) == Shift(ShiftN(x, n))
  {
    hide Shift;
  }

  lemma NextShift(x: bv32, n: nat)
    requires ShiftN(x, n) & 1 == 0
    ensures ShiftN(x, n + 1) == ShiftN(x, n) >> 1
  {
    hide *;
    ShiftNNext(x, n);
    EvenShifts(ShiftN(x, n));
  }

  // Eight zero bits fall out without feedback.
  lemma LowByteFalls(x: bv32)
    requires x & 0xff == 0
    ensures ShiftN(x, 8) == x >> 8
  {
    assert ShiftN(x, 0) == x;
    hide *;
    ZeroBits(x);
    ShiftsAdd(x);
    NextShift(x, 0);
    NextShift(x, 1);
    NextShift(x, 2);
    NextShift(x, 3);
    NextShift(x, 4);
    NextShift(x, 5);
    NextShift(x, 6);
    NextShift(x, 7);
  }

  lemma OwnByteFalls(c: bv32)
    ensures StepByte(c, LowByte(c)) == Above(c)
  {
    LowByteFalls(c ^ (c & 0xff));
    hide ShiftN;
    assert ((c & 0xff) as byte) as bv32 == c & 0xff;
    assert (c ^ (c & 0xff)) >> 8 == c >> 8;
  }

  lemma FirstStep(c: bv32, a: byte, b: seq<byte>)
    ensures Crc32(c, [a] + b) == Crc32(StepByte(c, a), b)
  {
    hide StepByte;
    assert ([a] + b)[0] == a && ([a] + b)[1..] == b;
  }

  lemma NoStep(c: bv32)
    ensures Crc32(c, []) == c
  {
  }

  lemma NothingAbove(c: bv32)
    ensures Above(Above(Above(Above(c)))) == 0
  {
  }

  // A state is taken to zero by its own bytes.
  lemma OwnBytesCancel(c: bv32)
    ensures Crc32(c, OwnBytes(c)) == 0
  {
    hide LowByte, Above, Crc32, StepByte;
    var c1, c2, c3 := Above(c), Above(Above(c)), Above(Above(Above(c)));
    assert OwnBytes(c) == [LowByte(c)] + ([LowByte(c1)] + ([LowByte(c2)] + ([LowByte(c3)] + [])));
    FirstStep(c, LowByte(c), [LowByte(c1)] + ([LowByte(c2)] + ([LowByte(c3)] + [])));
    OwnByteFalls(c);
    FirstStep(c1, LowByte(c1), [LowByte(c2)] + ([LowByte(c3)] + []));
    OwnByteFalls(c1);
    FirstStep(c2, LowByte(c2), [LowByte(c3)] + []);
    OwnByteFalls(c2);
    FirstStep(c3, LowByte(c3), []);
    OwnByteFalls(c3);
    NothingAbove(c);
    NoStep(Above(c3));
  }
}
