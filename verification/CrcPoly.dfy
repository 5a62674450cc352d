// What crc32_le computes: the remainder of a polynomial over the field of two elements (section 3.2.9 of IEEE 802.3).
module CrcPolynomials {
  import opened Wrappers
  import opened Crc

  // The exponents of a polynomial's terms.
  type Poly = set<nat>

  // x^32 + x^26 + x^23 + x^22 + x^16 + x^12 + x^11 + x^10 + x^8 + x^7 + x^5 + x^4 + x^2 + x + 1
  const GENERATOR: Poly := {32, 26, 23, 22, 16, 12, 11, 10, 8, 7, 5, 4, 2, 1, 0}

  // Equal terms cancel.
  function Add(a: Poly, b: Poly): (c: Poly)
    ensures forall e :: e in c <==> (e in a) != (e in b)
  {
    (a - b) + (b - a)
  }

  // a times x^k
  function Up(a: Poly, k: nat): Poly {
    set d | d in a :: d + k
  }

  lemma InUp(a: Poly, k: nat, e: nat)
    ensures e in Up(a, k) <==> e >= k && e - k in a
  {
    if e >= k && e - k in a {
      assert (e - k) + k == e;
    }
  }

  // The sum of x^k times g over the exponents of q.
  function Product(q: seq<nat>, g: Poly): Poly {
    if q == [] then {} else Add(Up(g, q[0]), Product(q[1..], g))
  }

  // r is what is left of a after division by the generator.
  ghost predicate IsRemainder(r: Poly, a: Poly) {
    (forall e | e in r :: e < 32) && exists q :: a == Add(Product(q, GENERATOR), r)
  }

  // ---------- words and texts ----------

  // The bit for x^e in a word: x^0 is the highest, x^31 the lowest.
  function Bit(e: nat): bv32 {
    if e == 0 then 0x8000_0000 else Half(Bit(e - 1))
  }

  function Half(c: bv32): bv32 {
    c >> 1
  }

  function Xor(a: bv32, b: bv32): bv32 {
    a ^ b
  }

  // At most one bit.
  predicate Single(m: bv32) {
    m & (m - 1) == 0
  }

  predicate Odd(c: bv32) {
    c & 1 == 1
  }

  predicate Common(c: bv32, m: bv32) {
    c & m != 0
  }

  predicate HasTerm(c: bv32, e: nat) {
    Common(c, Bit(e))
  }

  function WordPoly(c: bv32): Poly {
    set e: nat | e < 32 && HasTerm(c, e)
  }

  // The low eight bits as a polynomial of their own: the lowest is x^7.
  predicate HasLowTerm(c: bv32, e: nat) {
    HasTerm(c, 24 + e)
  }

  function LowPoly(c: bv32): Poly {
    set e: nat | e < 8 && HasLowTerm(c, e)
  }

  function BytePoly(b: byte): Poly {
    LowPoly(b as bv32)
  }

  // The first byte's terms are the highest.
  function TextPoly(p: seq<byte>): Poly {
    if p == [] then {} else Add(Up(BytePoly(p[0]), 8 * (|p| - 1)), TextPoly(p[1..]))
  }

  // What is divided: the start value in front of the text, and 32 places behind it.
  function Dividend(c: bv32, p: seq<byte>): Poly {
    Add(Up(WordPoly(c), 8 * |p|), Up(TextPoly(p), 32))
  }

  // ---------- bits ----------

  lemma BitsTo7()
    ensures Bit(0) == 0x8000_0000 && Bit(1) == 0x4000_0000 && Bit(2) == 0x2000_0000 && Bit(3) == 0x1000_0000
    ensures Bit(4) == 0x800_0000 && Bit(5) == 0x400_0000 && Bit(6) == 0x200_0000 && Bit(7) == 0x100_0000
  {
  }

  lemma BitsTo15()
    ensures Bit(8) == 0x80_0000 && Bit(9) == 0x40_0000 && Bit(10) == 0x20_0000 && Bit(11) == 0x10_0000
    ensures Bit(12) == 0x8_0000 && Bit(13) == 0x4_0000 && Bit(14) == 0x2_0000 && Bit(15) == 0x1_0000
  {
    BitsTo7();
  }

  lemma BitsTo23()
    ensures Bit(16) == 0x8000 && Bit(17) == 0x4000 && Bit(18) == 0x2000 && Bit(19) == 0x1000
    ensures Bit(20) == 0x800 && Bit(21) == 0x400 && Bit(22) == 0x200 && Bit(23) == 0x100
  {
    BitsTo15();
  }

  lemma BitsTo31()
    ensures Bit(24) == 0x80 && Bit(25) == 0x40 && Bit(26) == 0x20 && Bit(27) == 0x10
    ensures Bit(28) == 0x8 && Bit(29) == 0x4 && Bit(30) == 0x2 && Bit(31) == 0x1
  {
    BitsTo23();
  }

  lemma TermsTo7()
    ensures HasTerm(CRCPOLY_LE, 0) && HasTerm(CRCPOLY_LE, 1) && HasTerm(CRCPOLY_LE, 2) && !HasTerm(CRCPOLY_LE, 3)
    ensures HasTerm(CRCPOLY_LE, 4) && HasTerm(CRCPOLY_LE, 5) && !HasTerm(CRCPOLY_LE, 6) && HasTerm(CRCPOLY_LE, 7)
  {
    BitsTo7();
    hide Bit;
  }

  lemma TermsTo15()
    ensures HasTerm(CRCPOLY_LE, 8) && !HasTerm(CRCPOLY_LE, 9) && HasTerm(CRCPOLY_LE, 10) && HasTerm(CRCPOLY_LE, 11)
    ensures HasTerm(CRCPOLY_LE, 12) && !HasTerm(CRCPOLY_LE, 13) && !HasTerm(CRCPOLY_LE, 14) && !HasTerm(CRCPOLY_LE, 15)
  {
    BitsTo15();
    hide Bit;
  }

  lemma TermsTo23()
    ensures HasTerm(CRCPOLY_LE, 16) && !HasTerm(CRCPOLY_LE, 17) && !HasTerm(CRCPOLY_LE, 18) && !HasTerm(CRCPOLY_LE, 19)
    ensures !HasTerm(CRCPOLY_LE, 20) && !HasTerm(CRCPOLY_LE, 21) && HasTerm(CRCPOLY_LE, 22) && HasTerm(CRCPOLY_LE, 23)
  {
    BitsTo23();
    hide Bit;
  }

  lemma TermsTo31()
    ensures !HasTerm(CRCPOLY_LE, 24) && !HasTerm(CRCPOLY_LE, 25) && HasTerm(CRCPOLY_LE, 26) && !HasTerm(CRCPOLY_LE, 27)
    ensures !HasTerm(CRCPOLY_LE, 28) && !HasTerm(CRCPOLY_LE, 29) && !HasTerm(CRCPOLY_LE, 30) && !HasTerm(CRCPOLY_LE, 31)
  {
    BitsTo31();
    hide Bit;
  }

  // The constant of the loop is the generator without its highest term.
  lemma PolyIsGenerator()
    ensures WordPoly(CRCPOLY_LE) == GENERATOR - {32}
  {
    TermsTo7();
    TermsTo15();
    TermsTo23();
    TermsTo31();
    hide HasTerm;
  }

  lemma {:induction false} ZeroStaysZero(e: nat, k: nat)
    requires e <= k && Bit(e) == 0
    ensures Bit(k) == 0
    decreases k
  {
    if e < k {
      ZeroStaysZero(e, k - 1);
    }
  }

  lemma BitIsThere(e: nat)
    requires e < 32
    ensures Bit(e) != 0
  {
    BitsTo31();
    hide Bit;
    if Bit(e) == 0 {
      ZeroStaysZero(e, 31);
    }
  }

  lemma HalfOfOneBit(m: bv32)
    requires Single(m)
    ensures Single(Half(m))
    ensures Odd(m) ==> Half(m) == 0
  {
  }

  lemma {:induction false} OneBit(e: nat)
    requires e < 32
    ensures Bit(e) != 0 && Single(Bit(e))
  {
    BitIsThere(e);
    if e > 0 {
      NextBit(e);
      hide Bit;
      OneBit(e - 1);
      HalfOfOneBit(Bit(e - 1));
    }
  }

  lemma LowBitLast(e: nat)
    requires e < 31
    ensures !Odd(Bit(e))
  {
    OneBit(e);
    OneBit(e + 1);
    HalfOfOneBit(Bit(e));
    NextBit(e + 1);
    hide Bit, Half, Odd;
  }

  lemma XorOfBits(a: bv32, b: bv32, m: bv32)
    requires m & (m - 1) == 0
    ensures (a ^ b) & m != 0 <==> (a & m != 0) != (b & m != 0)
  {
  }

  lemma XorBit(a: bv32, b: bv32, m: bv32)
    requires Single(m)
    ensures Common(Xor(a, b), m) <==> Common(a, m) != Common(b, m)
  {
    XorOfBits(a, b, m);
  }

  lemma ShiftedBit(c: bv32, m: bv32)
    requires !Odd(m)
    ensures Common(Half(c), Half(m)) <==> Common(c, m)
  {
  }

  lemma TopBit(c: bv32)
    ensures !Common(Half(c), 0x8000_0000)
  {
  }

  lemma XorTerm(a: bv32, b: bv32, e: nat)
    requires e < 32
    ensures HasTerm(Xor(a, b), e) <==> HasTerm(a, e) != HasTerm(b, e)
  {
    hide *;
    OneBit(e);
    XorBit(a, b, Bit(e));
    TermIs(a, e);
    TermIs(b, e);
    TermIs(Xor(a, b), e);
  }

  lemma TermIs(c: bv32, e: nat)
    ensures HasTerm(c, e) <==> Common(c, Bit(e))
  {
    hide Common, Bit;
  }

  lemma XorAdds(a: bv32, b: bv32)
    ensures WordPoly(Xor(a, b)) == Add(WordPoly(a), WordPoly(b))
  {
    hide HasTerm, Xor;
    forall e: nat | e < 32 ensures HasTerm(Xor(a, b), e) <==> HasTerm(a, e) != HasTerm(b, e) {
      XorTerm(a, b, e);
    }
  }

  lemma HalfTerm(c: bv32, e: nat)
    requires 0 < e < 32
    ensures HasTerm(Half(c), e) <==> HasTerm(c, e - 1)
  {
    LowBitLast(e - 1);
    hide Half, Common, Odd;
    ShiftedBit(c, Bit(e - 1));
  }

  lemma NextBit(e: nat)
    requires e > 0
    ensures Bit(e) == Half(Bit(e - 1))
  {
  }

  lemma HalfTop(c: bv32)
    ensures !HasTerm(Half(c), 0)
  {
    TopBit(c);
  }

  lemma HalfGoesUp(c: bv32)
    ensures WordPoly(Half(c)) == Up(WordPoly(c) - {31}, 1)
  {
    hide HasTerm, Up, Half;
    HalfTop(c);
    forall e: nat ensures e in WordPoly(Half(c)) <==> e in Up(WordPoly(c) - {31}, 1) {
      InUp(WordPoly(c) - {31}, 1, e);
      if 0 < e < 32 {
        HalfTerm(c, e);
      }
    }
  }

  lemma LowestIs31(c: bv32)
    ensures 31 in WordPoly(c) <==> Odd(c)
  {
    BitsTo31();
    hide Bit;
    OddIs(c);
  }

  lemma OddIs(c: bv32)
    ensures Odd(c) <==> c & 1 != 0
  {
  }

  // One turn of the inner loop multiplies by x, and subtracts the generator when x^32 comes up.
  lemma ShiftDivides(c: bv32)
    ensures WordPoly(Shift(c))
         == Add(Up(WordPoly(c), 1), if 31 in WordPoly(c) then GENERATOR else {})
  {
    hide WordPoly, Up, Half, Odd, Xor, Shift;
    LowestIs31(c);
    HalfGoesUp(c);
    WordIsShort(c);
    ShiftIs(c);
    XorAdds(Half(c), CRCPOLY_LE);
    PolyIsGenerator();
    forall e: nat ensures e in WordPoly(Shift(c)) <==>
                            e in Add(Up(WordPoly(c), 1), if 31 in WordPoly(c) then GENERATOR else {})
    {
      InUp(WordPoly(c), 1, e);
      InUp(WordPoly(c) - {31}, 1, e);
    }
  }

  lemma ShiftIs(c: bv32)
    ensures Shift(c) == if Odd(c) then Xor(Half(c), CRCPOLY_LE) else Half(c)
  {
    assert (c >> 1) ^ 0 == c >> 1;
  }

  lemma WordIsShort(c: bv32)
    ensures forall e | e in WordPoly(c) :: e < 32
  {
  }

  // ---------- sums and multiples ----------

  lemma AddSwaps(a: Poly, b: Poly, c: Poly, d: Poly)
    ensures Add(Add(a, b), Add(c, d)) == Add(Add(a, c), Add(b, d))
  {
  }

  lemma AddNothing(a: Poly)
    ensures Add(a, {}) == a && Add({}, a) == a && Add(a, a) == {}
  {
  }

  lemma UpAdds(a: Poly, b: Poly, k: nat)
    ensures Up(Add(a, b), k) == Add(Up(a, k), Up(b, k))
  {
    hide Up;
    forall e: nat ensures e in Up(Add(a, b), k) <==> e in Add(Up(a, k), Up(b, k)) {
      InUp(Add(a, b), k, e);
      InUp(a, k, e);
      InUp(b, k, e);
    }
  }

  lemma UpTwice(a: Poly, j: nat, k: nat)
    ensures Up(Up(a, j), k) == Up(a, j + k)
  {
    hide Up;
    forall e: nat ensures e in Up(Up(a, j), k) <==> e in Up(a, j + k) {
      InUp(Up(a, j), k, e);
      InUp(a, j + k, e);
      if e >= k {
        InUp(a, j, e - k);
      }
    }
  }

  lemma UpNothing(a: Poly, k: nat)
    ensures Up(a, 0) == a && Up({}, k) == {}
  {
    hide Up;
    forall e: nat ensures e in Up(a, 0) <==> e in a {
      InUp(a, 0, e);
    }
    forall e: nat ensures e !in Up({}, k) {
      InUp({}, k, e);
    }
  }

  lemma {:induction false} ProductAppends(q: seq<nat>, q': seq<nat>, g: Poly)
    ensures Product(q + q', g) == Add(Product(q, g), Product(q', g))
  {
    if q == [] {
      assert q + q' == q';
    } else {
      assert (q + q')[0] == q[0] && (q + q')[1..] == q[1..] + q';
      ProductAppends(q[1..], q', g);
      AddSwaps(Up(g, q[0]), Product(q[1..], g), Product(q', g), {});
      hide Up, Product;
    }
  }

  function Raised(q: seq<nat>, k: nat): seq<nat> {
    if q == [] then [] else [q[0] + k] + Raised(q[1..], k)
  }

  lemma {:induction false} ProductGoesUp(q: seq<nat>, g: Poly, k: nat)
    ensures Up(Product(q, g), k) == Product(Raised(q, k), g)
  {
    hide Up;
    if q == [] {
      UpNothing(g, k);
    } else {
      UpAdds(Up(g, q[0]), Product(q[1..], g), k);
      UpTwice(g, q[0], k);
      ProductGoesUp(q[1..], g, k);
      assert Raised(q, k)[0] == q[0] + k && Raised(q, k)[1..] == Raised(q[1..], k);
    }
  }

  // Equal up to a multiple of the generator.
  ghost predicate Congruent(a: Poly, b: Poly) {
    exists q :: Add(a, b) == Product(q, GENERATOR)
  }

  lemma CongruentBy(a: Poly, b: Poly, q: seq<nat>)
    requires Add(a, b) == Product(q, GENERATOR)
    ensures Congruent(a, b)
  {
  }

  lemma CongruentOn(a: Poly, b: Poly, c: Poly)
    requires Congruent(a, b) && Congruent(b, c)
    ensures Congruent(a, c)
  {
    var q :| Add(a, b) == Product(q, GENERATOR);
    var q' :| Add(b, c) == Product(q', GENERATOR);
    hide *;
    ProductAppends(q, q', GENERATOR);
    assert Add(Add(a, b), Add(b, c)) == Add(a, c);
    CongruentBy(a, c, q + q');
  }

  lemma CongruentUp(a: Poly, b: Poly, k: nat)
    requires Congruent(a, b)
    ensures Congruent(Up(a, k), Up(b, k))
  {
    var q :| Add(a, b) == Product(q, GENERATOR);
    hide *;
    UpAdds(a, b, k);
    ProductGoesUp(q, GENERATOR, k);
    CongruentBy(Up(a, k), Up(b, k), Raised(q, k));
  }

  lemma CongruentPlus(a: Poly, b: Poly, c: Poly)
    requires Congruent(a, b)
    ensures Congruent(Add(a, c), Add(b, c))
  {
    var q :| Add(a, b) == Product(q, GENERATOR);
    hide *;
    assert Add(Add(a, c), Add(b, c)) == Add(a, b);
    CongruentBy(Add(a, c), Add(b, c), q);
  }

  lemma CongruentSame(a: Poly)
    ensures Congruent(a, a)
  {
    AddNothing(a);
    CongruentBy(a, a, []);
  }

  // ---------- one byte ----------

  lemma OnceGenerator()
    ensures Product([0], GENERATOR) == GENERATOR && Product([], GENERATOR) == {}
  {
    UpNothing(GENERATOR, 0);
    AddNothing(GENERATOR);
    assert [0][1..] == [];
    hide Up, Add;
  }

  lemma TurnDivides(c: bv32)
    ensures Congruent(Up(WordPoly(c), 1), WordPoly(Shift(c)))
  {
    hide *;
    ShiftDivides(c);
    OnceGenerator();
    var a, g := Up(WordPoly(c), 1), if 31 in WordPoly(c) then GENERATOR else {};
    assert Add(a, Add(a, g)) == g;
    CongruentBy(a, WordPoly(Shift(c)), if 31 in WordPoly(c) then [0] else []);
  }

  lemma {:induction false} TurnsDivide(c: bv32, n: nat)
    ensures Congruent(Up(WordPoly(c), n), WordPoly(ShiftN(c, n)))
  {
    hide Up, WordPoly, Congruent, Shift;
    if n == 0 {
      UpNothing(WordPoly(c), 0);
      CongruentSame(WordPoly(c));
    } else {
      TurnsDivide(c, n - 1);
      CongruentUp(Up(WordPoly(c), n - 1), WordPoly(ShiftN(c, n - 1)), 1);
      UpTwice(WordPoly(c), n - 1, 1);
      TurnDivides(ShiftN(c, n - 1));
      CongruentOn(Up(WordPoly(c), n), Up(WordPoly(ShiftN(c, n - 1)), 1), WordPoly(ShiftN(c, n)));
    }
  }

  lemma ByteIsLow(b: byte, e: nat)
    requires e < 24
    ensures !HasTerm(b as bv32, e)
  {
    hide *;
    HighBits(e);
    TermIs(b as bv32, e);
    NothingInCommon(b, Bit(e));
  }

  lemma HighBits(e: nat)
    requires e < 24
    ensures Bit(e) & 0xFF == 0
  {
    BitsTo7();
    BitsTo15();
    BitsTo23();
    hide Bit;
  }

  lemma NothingInCommon(b: byte, m: bv32)
    requires m & 0xFF == 0
    ensures !Common(b as bv32, m)
  {
  }

  lemma ByteGoesUp(b: byte)
    ensures WordPoly(b as bv32) == Up(BytePoly(b), 24)
  {
    hide HasTerm, Up;
    forall e: nat ensures e in WordPoly(b as bv32) <==> e in Up(BytePoly(b), 24) {
      InUp(BytePoly(b), 24, e);
      if e < 24 {
        ByteIsLow(b, e);
      } else if e < 32 {
        assert HasLowTerm(b as bv32, e - 24) <==> HasTerm(b as bv32, e);
      }
    }
  }

  lemma StepIs(c: bv32, b: byte)
    ensures StepByte(c, b) == ShiftN(Xor(c, b as bv32), 8)
  {
    hide ShiftN;
  }

  // A byte's step: eight places, with the byte's terms brought in on top.
  lemma StepDivides(c: bv32, b: byte)
    ensures Congruent(Add(Up(WordPoly(c), 8), Up(BytePoly(b), 32)), WordPoly(StepByte(c, b)))
  {
    hide *;
    var w := b as bv32;
    StepIs(c, b);
    TurnsDivide(Xor(c, w), 8);
    XorAdds(c, w);
    ByteGoesUp(b);
    UpAdds(WordPoly(c), WordPoly(w), 8);
    UpTwice(BytePoly(b), 24, 8);
  }

  // ---------- the whole text ----------

  lemma TextFirst(b: byte, p: seq<byte>)
    ensures TextPoly([b] + p) == Add(Up(BytePoly(b), 8 * |p|), TextPoly(p))
  {
    hide BytePoly, Up, Add;
    assert ([b] + p)[0] == b && ([b] + p)[1..] == p;
  }

  lemma DividendFirst(c: bv32, b: byte, p: seq<byte>)
    ensures Dividend(c, [b] + p)
         == Add(Up(Add(Up(WordPoly(c), 8), Up(BytePoly(b), 32)), 8 * |p|), Up(TextPoly(p), 32))
  {
    hide Up, WordPoly, BytePoly, TextPoly;
    var n := 8 * |p|;
    TextFirst(b, p);
    UpAdds(Up(BytePoly(b), n), TextPoly(p), 32);
    UpTwice(BytePoly(b), n, 32);
    UpAdds(Up(WordPoly(c), 8), Up(BytePoly(b), 32), n);
    UpTwice(WordPoly(c), 8, n);
    UpTwice(BytePoly(b), 32, n);
    assert |[b] + p| == 1 + |p|;
  }

  lemma DividendEmpty(c: bv32)
    ensures Dividend(c, []) == WordPoly(c)
  {
    UpNothing(WordPoly(c), 32);
    AddNothing(WordPoly(c));
    hide Up, WordPoly, Add;
  }

  lemma {:induction false} CrcDivides(c: bv32, p: seq<byte>)
    ensures Congruent(Dividend(c, p), WordPoly(Crc32(c, p)))
    decreases |p|
  {
    hide *;
    if p == [] {
      DividendEmpty(c);
      NoStep(c);
      CongruentSame(WordPoly(c));
    } else {
      var b, rest := p[0], p[1..];
      assert p == [b] + rest;
      var a := Add(Up(WordPoly(c), 8), Up(BytePoly(b), 32));
      var s := WordPoly(StepByte(c, b));
      StepDivides(c, b);
      CongruentUp(a, s, 8 * |rest|);
      CongruentPlus(Up(a, 8 * |rest|), Up(s, 8 * |rest|), Up(TextPoly(rest), 32));
      DividendFirst(c, b, rest);
      DividendIs(StepByte(c, b), rest);
      CrcDivides(StepByte(c, b), rest);
      FirstStep(c, b, rest);
      CongruentOn(Dividend(c, p), Dividend(StepByte(c, b), rest), WordPoly(Crc32(c, p)));
    }
  }

  lemma DividendIs(c: bv32, p: seq<byte>)
    ensures Dividend(c, p) == Add(Up(WordPoly(c), 8 * |p|), Up(TextPoly(p), 32))
  {
  }

  // ---------- there is one remainder ----------

  ghost predicate Falling(q: seq<nat>) {
    forall i, j | 0 <= i < j < |q| :: q[i] > q[j]
  }

  // x^k added to a quotient in order.
  function Insert(q: seq<nat>, k: nat): seq<nat> {
    if q == [] || k > q[0] then [k] + q
    else if k == q[0] then q[1..]
    else [q[0]] + Insert(q[1..], k)
  }

  lemma {:induction false} InsertFalls(q: seq<nat>, k: nat)
    requires Falling(q)
    ensures Falling(Insert(q, k)) && forall e | e in Insert(q, k) :: e == k || e in q
  {
    if q != [] && k < q[0] {
      InsertFalls(q[1..], k);
      assert forall e | e in q[1..] :: e < q[0];
    }
  }

  lemma {:induction false} InsertAdds(q: seq<nat>, k: nat, g: Poly)
    ensures Product(Insert(q, k), g) == Add(Up(g, k), Product(q, g))
  {
    hide Up;
    if q == [] || k > q[0] {
      assert ([k] + q)[1..] == q;
    } else if k == q[0] {
      assert Add(Up(g, k), Add(Up(g, k), Product(q[1..], g))) == Product(q[1..], g);
    } else {
      InsertAdds(q[1..], k, g);
      assert ([q[0]] + Insert(q[1..], k))[1..] == Insert(q[1..], k);
      assert Add(Up(g, q[0]), Add(Up(g, k), Product(q[1..], g))) == Add(Up(g, k), Add(Up(g, q[0]), Product(q[1..], g)));
    }
  }

  function InOrder(q: seq<nat>): seq<nat> {
    if q == [] then [] else Insert(InOrder(q[1..]), q[0])
  }

  lemma {:induction false} InOrderIsSame(q: seq<nat>, g: Poly)
    ensures Falling(InOrder(q)) && Product(InOrder(q), g) == Product(q, g)
  {
    if q != [] {
      InOrderIsSame(q[1..], g);
      InsertFalls(InOrder(q[1..]), q[0]);
      InsertAdds(InOrder(q[1..]), q[0], g);
      hide Insert, Up, Add, Falling;
    }
  }

  lemma {:induction false} ProductIsBelow(q: seq<nat>, k: nat, e: nat)
    requires (forall i | 0 <= i < |q| :: q[i] < k) && e >= k + 32
    ensures e !in Product(q, GENERATOR)
  {
    if q != [] {
      InUp(GENERATOR, q[0], e);
      ProductIsBelow(q[1..], k, e);
    }
  }

  lemma ProductFirst(q: seq<nat>, g: Poly)
    requires q != []
    ensures Product(q, g) == Add(Up(g, q[0]), Product(q[1..], g))
  {
    hide Up, Add;
  }

  lemma GeneratorTop()
    ensures 32 in GENERATOR
  {
  }

  lemma RestIsBelow(q: seq<nat>)
    requires Falling(q) && q != []
    ensures forall i | 0 <= i < |q[1..]| :: q[1..][i] < q[0]
  {
  }

  // A multiple of the generator that is not zero has a term of x^32 or above.
  lemma HighTerm(q: seq<nat>)
    requires Falling(q) && q != []
    ensures q[0] + 32 in Product(q, GENERATOR)
  {
    hide *;
    GeneratorTop();
    InUp(GENERATOR, q[0], q[0] + 32);
    RestIsBelow(q);
    ProductIsBelow(q[1..], q[0], q[0] + 32);
    ProductFirst(q, GENERATOR);
  }

  lemma ShortMultiple(q: seq<nat>)
    requires forall e | e in Product(q, GENERATOR) :: e < 32
    ensures Product(q, GENERATOR) == {}
  {
    hide *;
    InOrderIsSame(q, GENERATOR);
    OnceGenerator();
    if InOrder(q) != [] {
      HighTerm(InOrder(q));
    }
  }

  lemma TwoSums(p: Poly, p': Poly, r: Poly, r': Poly)
    requires Add(p, r) == Add(p', r')
    ensures Add(p, p') == Add(r, r') && (Add(r, r') == {} ==> r == r')
  {
    forall e: nat ensures e in Add(p, p') <==> e in Add(r, r') {
      assert e in Add(p, r) <==> e in Add(p', r');
    }
    if Add(r, r') == {} {
      forall e: nat ensures e in r <==> e in r' {
        assert e !in Add(r, r');
      }
    }
  }

  lemma RemainderIsUnique(r: Poly, r': Poly, a: Poly)
    requires IsRemainder(r, a) && IsRemainder(r', a)
    ensures r == r'
  {
    var q :| a == Add(Product(q, GENERATOR), r);
    var q' :| a == Add(Product(q', GENERATOR), r');
    TwoSums(Product(q, GENERATOR), Product(q', GENERATOR), r, r');
    ProductAppends(q, q', GENERATOR);
    hide Product, Add;
    assert forall e | e in Add(r, r') :: e < 32;
    ShortMultiple(q + q');
  }

  // The checksum is the remainder of the start value and the text: the text's bits, each byte's lowest first, are the
  // coefficients from the highest down, the start value is added to its first 32, and 32 zeros follow it.
  lemma CrcIsRemainder(c: bv32, p: seq<byte>, r: Poly)
    ensures IsRemainder(r, Dividend(c, p)) <==> r == WordPoly(Crc32(c, p))
  {
    hide *;
    CrcDivides(c, p);
    WordIsShort(Crc32(c, p));
    CongruentRemains(Dividend(c, p), WordPoly(Crc32(c, p)));
    if IsRemainder(r, Dividend(c, p)) {
      RemainderIsUnique(r, WordPoly(Crc32(c, p)), Dividend(c, p));
    }
  }

  lemma CongruentRemains(a: Poly, r: Poly)
    requires Congruent(a, r) && forall e | e in r :: e < 32
    ensures IsRemainder(r, a)
  {
    var q :| Add(a, r) == Product(q, GENERATOR);
    hide Product;
    assert a == Add(Product(q, GENERATOR), r);
  }

  lemma NoBitsIsZero(x: bv32)
    requires x & 0x8000_0000 == 0 && x & 0x4000_0000 == 0 && x & 0x2000_0000 == 0 && x & 0x1000_0000 == 0
    requires x & 0x800_0000 == 0 && x & 0x400_0000 == 0 && x & 0x200_0000 == 0 && x & 0x100_0000 == 0
    requires x & 0x80_0000 == 0 && x & 0x40_0000 == 0 && x & 0x20_0000 == 0 && x & 0x10_0000 == 0
    requires x & 0x8_0000 == 0 && x & 0x4_0000 == 0 && x & 0x2_0000 == 0 && x & 0x1_0000 == 0
    requires x & 0x8000 == 0 && x & 0x4000 == 0 && x & 0x2000 == 0 && x & 0x1000 == 0
    requires x & 0x800 == 0 && x & 0x400 == 0 && x & 0x200 == 0 && x & 0x100 == 0
    requires x & 0x80 == 0 && x & 0x40 == 0 && x & 0x20 == 0 && x & 0x10 == 0
    requires x & 0x8 == 0 && x & 0x4 == 0 && x & 0x2 == 0 && x & 0x1 == 0
    ensures x == 0
  {
  }

  lemma NoTermAt(x: bv32, e: nat, m: bv32)
    requires WordPoly(x) == {} && e < 32 && Bit(e) == m
    ensures x & m == 0
  {
    assert e !in WordPoly(x);
    hide Bit;
  }

  lemma NoTermsIsZero(x: bv32)
    requires WordPoly(x) == {}
    ensures x == 0
  {
    hide *;
    BitsTo31();
    BitsTo7();
    BitsTo15();
    BitsTo23();
    NoTermAt(x, 0, 0x8000_0000);
    NoTermAt(x, 1, 0x4000_0000);
    NoTermAt(x, 2, 0x2000_0000);
    NoTermAt(x, 3, 0x1000_0000);
    NoTermAt(x, 4, 0x800_0000);
    NoTermAt(x, 5, 0x400_0000);
    NoTermAt(x, 6, 0x200_0000);
    NoTermAt(x, 7, 0x100_0000);
    NoTermAt(x, 8, 0x80_0000);
    NoTermAt(x, 9, 0x40_0000);
    NoTermAt(x, 10, 0x20_0000);
    NoTermAt(x, 11, 0x10_0000);
    NoTermAt(x, 12, 0x8_0000);
    NoTermAt(x, 13, 0x4_0000);
    NoTermAt(x, 14, 0x2_0000);
    NoTermAt(x, 15, 0x1_0000);
    NoTermAt(x, 16, 0x8000);
    NoTermAt(x, 17, 0x4000);
    NoTermAt(x, 18, 0x2000);
    NoTermAt(x, 19, 0x1000);
    NoTermAt(x, 20, 0x800);
    NoTermAt(x, 21, 0x400);
    NoTermAt(x, 22, 0x200);
    NoTermAt(x, 23, 0x100);
    NoTermAt(x, 24, 0x80);
    NoTermAt(x, 25, 0x40);
    NoTermAt(x, 26, 0x20);
    NoTermAt(x, 27, 0x10);
    NoTermAt(x, 28, 0x8);
    NoTermAt(x, 29, 0x4);
    NoTermAt(x, 30, 0x2);
    NoTermAt(x, 31, 0x1);
    NoBitsIsZero(x);
  }

  lemma XorIsZero(c: bv32, d: bv32)
    requires Xor(c, d) == 0
    ensures c == d
  {
  }

  // A word is known by its terms.
  lemma SameTermsSameWord(c: bv32, d: bv32)
    requires WordPoly(c) == WordPoly(d)
    ensures c == d
  {
    hide *;
    XorAdds(c, d);
    AddNothing(WordPoly(c));
    NoTermsIsZero(Xor(c, d));
    XorIsZero(c, d);
  }
}
