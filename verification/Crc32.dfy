/** The CRC of src/main/qr-png.ts: the table-driven loop, the bit-by-bit division it stands for (PNG specification,
    second edition, section 5.5) and the errors it finds. A 32-bit register is its bits, the lowest first. */
module Crc32 {
  import opened Basics
  import opened Iteration

  type Register = s: seq<bool> | |s| == 32 witness seq(32, _ => false)

  type Byte = x: nat | x < 256

  function Zeros(n: nat): (z: seq<bool>)
    ensures |z| == n
  {
    seq(n, _ => false)
  }

  function Ones(): Register {
    seq(32, _ => true)
  }

  /** The low `k` bits of a number, the lowest first. */
  function Bits(n: nat, k: nat): (b: seq<bool>)
    ensures |b| == k
    decreases k
  {
    if k == 0 then [] else [n % 2 == 1] + Bits(n / 2, k - 1)
  }

  function Number(b: seq<bool>): nat
    decreases |b|
  {
    if b == [] then 0 else (if b[0] then 1 else 0) + 2 * Number(b[1..])
  }

  /** `a ^ b` */
  function Xor(a: Register, b: Register): Register {
    seq(32, i requires 0 <= i < 32 => a[i] != b[i])
  }

  /** `c >>> k` */
  function Shift(c: Register, k: nat): Register
    requires k <= 32
  {
    c[k..] + Zeros(k)
  }

  /** The register of a byte, and of the low byte of a register. */
  function Wide(b: Byte): Register {
    Bits(b, 8) + Zeros(24)
  }

  function Low(c: Register): Register {
    c[..8] + Zeros(24)
  }

  /** 0xedb88320, from its lowest byte up. */
  function Divisor(): Register {
    Bits(0x20, 8) + Bits(0x83, 8) + Bits(0xb8, 8) + Bits(0xed, 8)
  }

  /** The divisor is x^32 + x^26 + x^23 + x^22 + x^16 + x^12 + x^11 + x^10 + x^8 + x^7 + x^5 + x^4 + x^2 + x + 1, the
      highest power left out and the lowest bit for x^31 (PNG specification, second edition, section 5.5). */
  lemma DivisorIsPolynomial(i: nat)
    requires i < 32
    ensures Divisor()[i] <==> 31 - i in {26, 23, 22, 16, 12, 11, 10, 8, 7, 5, 4, 2, 1, 0}
  {
    DivisorBytes();
    hide Bits;
    var k := i % 8;
    assert k == 0 || k == 1 || k == 2 || k == 3 || k == 4 || k == 5 || k == 6 || k == 7;
    assert Divisor()[i] == if i < 8 then Bits(0x20, 8)[k] else if i < 16 then Bits(0x83, 8)[k]
      else if i < 24 then Bits(0xb8, 8)[k] else Bits(0xed, 8)[k];
  }

  lemma BitsNext(n: nat, k: nat)
    requires k > 0
    ensures Bits(n, k) == [n % 2 == 1] + Bits(n / 2, k - 1)
  {
  }

  lemma BitsNone(n: nat)
    ensures Bits(n, 0) == []
  {
  }

  lemma FourBits(n: nat, k: nat)
    requires k >= 4
    ensures Bits(n, k) == [n % 2 == 1, n / 2 % 2 == 1, n / 4 % 2 == 1, n / 8 % 2 == 1] + Bits(n / 16, k - 4)
  {
    hide Bits;
    BitsNext(n, k);
    BitsNext(n / 2, k - 1);
    assert n / 2 / 2 == n / 4 && n / 4 / 2 == n / 8 && n / 8 / 2 == n / 16;
    BitsNext(n / 4, k - 2);
    BitsNext(n / 8, k - 3);
  }

  lemma DivisorBytes()
    ensures Bits(0x20, 8) == [false, false, false, false, false, true, false, false]
    ensures Bits(0x83, 8) == [true, true, false, false, false, false, false, true]
    ensures Bits(0xb8, 8) == [false, false, false, true, true, true, false, true]
    ensures Bits(0xed, 8) == [true, false, true, true, false, true, true, true]
  {
    hide Bits;
    FourBits(0x20, 8);
    FourBits(0x2, 4);
    FourBits(0x83, 8);
    FourBits(0x8, 4);
    FourBits(0xb8, 8);
    FourBits(0xb, 4);
    FourBits(0xed, 8);
    FourBits(0xe, 4);
    BitsNone(0);
  }

  /* ---------- The division, bit by bit ---------- */

  /** One step of the reflected division. */
  function Step(c: Register): Register {
    if c[0] then Xor(Divisor(), Shift(c, 1)) else Shift(c, 1)
  }

  /** The register after one more byte: eight steps. */
  function Absorb(c: Register, b: Byte): Register {
    Iterate(Step, Xor(c, Wide(b)), 8)
  }

  /** The definition of the CRC: nothing but steps. */
  function Crc(buf: seq<Byte>): Register {
    Xor(Feed(Absorb, Ones(), buf), Ones())
  }

  /* ---------- Steps are linear and lose nothing ---------- */

  lemma XorLaws(a: Register, b: Register, c: Register)
    ensures Xor(a, Xor(b, c)) == Xor(Xor(a, b), c) && Xor(a, b) == Xor(b, a) && Xor(a, Zeros(32)) == a
    ensures Xor(Xor(c, a), Xor(c, b)) == Xor(a, b)
  {
  }

  lemma XorCancels(a: Register, b: Register, c: Register)
    requires Xor(a, c) == Xor(b, c)
    ensures a == b
  {
    forall i | 0 <= i < 32 ensures a[i] == b[i] {
      assert Xor(a, c)[i] == Xor(b, c)[i];
    }
  }

  lemma ShiftXor(a: Register, b: Register, k: nat)
    requires k <= 32
    ensures Shift(Xor(a, b), k) == Xor(Shift(a, k), Shift(b, k))
  {
  }

  lemma StepXor(a: Register, b: Register)
    ensures Step(Xor(a, b)) == Xor(Step(a), Step(b))
  {
    assert Xor(a, b)[0] == (a[0] != b[0]);
    ShiftXor(a, b, 1);
    var h, i, p := Shift(a, 1), Shift(b, 1), Divisor();
    hide Xor, Shift, Divisor;
    XorLaws(h, i, p);
    XorLaws(p, h, i);
    XorLaws(p, i, h);
  }

  lemma StepCommutes()
    ensures Commutes(Step, Xor)
  {
    hide Step, Xor;
    forall a, b ensures Step(Xor(a, b)) == Xor(Step(a), Step(b)) {
      StepXor(a, b);
    }
  }

  lemma PowerOfEight(k: nat)
    requires k == 8
    ensures Pow2(k) == 256
  {
    assert Pow2(k - 8) == 1;
    assert Pow2(k - 6) == 4;
    assert Pow2(k - 4) == 16;
    assert Pow2(k - 2) == 64;
  }

  lemma {:induction false} TopBit(n: nat, k: nat)
    requires k > 0 && Pow2(k - 1) <= n < Pow2(k)
    ensures Bits(n, k)[k - 1]
    decreases k
  {
    if k > 1 {
      TopBit(n / 2, k - 1);
      assert Bits(n, k)[k - 1] == Bits(n / 2, k - 1)[k - 2];
    }
  }

  lemma LastByte(n: nat, k: nat)
    requires k == 8 && 128 <= n < 256
    ensures Bits(n, k)[7]
  {
    PowerOfEight(k);
    TopBit(n, k);
  }

  lemma DivisorTop()
    ensures Divisor()[31]
  {
    hide Bits;
    LastByte(0xed, 8);
  }

  /** The top bit of a step tells whether the divisor went in, and the other bits can be recovered. */
  lemma StepSame(a: Register, b: Register)
    requires Step(a) == Step(b)
    ensures a == b
  {
    hide Divisor;
    DivisorTop();
    assert Step(a)[31] == a[0] && Step(b)[31] == b[0];
    forall i | 1 <= i < 32 ensures a[i] == b[i] {
      assert Step(a)[i - 1] == (if a[0] then Divisor()[i - 1] != a[i] else a[i]);
      assert Step(b)[i - 1] == (if b[0] then Divisor()[i - 1] != b[i] else b[i]);
    }
  }

  lemma StepInjective()
    ensures Injective(Step)
  {
    hide Step;
    forall a, b | Step(a) == Step(b) ensures a == b {
      StepSame(a, b);
    }
  }

  lemma StepsXor(a: Register, b: Register, k: nat)
    ensures Iterate(Step, Xor(a, b), k) == Xor(Iterate(Step, a, k), Iterate(Step, b, k))
  {
    hide Step, Xor;
    StepCommutes();
    IterateCommutes(Step, Xor, a, b, k);
  }

  /* ---------- Why a table will do ---------- */

  /** A register whose low bits are zero is only shifted. */
  lemma {:induction false} StepsShift(c: Register, k: nat)
    requires k <= 32 && forall i :: 0 <= i < k ==> !c[i]
    ensures Iterate(Step, c, k) == Shift(c, k)
    decreases k
  {
    hide Divisor;
    if k > 0 {
      var d := Shift(c, 1);
      assert forall i :: 0 <= i < k - 1 ==> d[i] == c[i + 1];
      StepsShift(d, k - 1);
      assert Shift(d, k - 1) == Shift(c, k);
    } else {
      assert Shift(c, 0) == c;
    }
  }

  function Upper(c: Register): Register {
    Zeros(8) + c[8..]
  }

  lemma SplitLow(c: Register)
    ensures c == Xor(Low(c), Upper(c)) && Shift(Upper(c), 8) == Shift(c, 8)
  {
  }

  /** Eight steps on a register are the eight steps on its low byte, put over the shifted rest. */
  lemma EightSteps(c: Register, k: nat)
    requires k == 8
    ensures Iterate(Step, c, k) == Xor(Iterate(Step, Low(c), k), Shift(c, k))
  {
    hide Step, Xor, Low, Iterate;
    SplitLow(c);
    StepsXor(Low(c), Upper(c), k);
    StepsShift(Upper(c), k);
  }

  /* ---------- The loops ---------- */

  lemma {:induction false} NumberOfBits(n: nat, k: nat)
    requires n < Pow2(k)
    ensures Number(Bits(n, k)) == n
    decreases k
  {
    if k > 0 {
      NumberOfBits(n / 2, k - 1);
      assert Bits(n, k)[1..] == Bits(n / 2, k - 1);
    }
  }

  lemma {:induction false} BitsOfNumber(b: seq<bool>)
    ensures Bits(Number(b), |b|) == b && Number(b) < Pow2(|b|)
    decreases |b|
  {
    if b != [] {
      BitsOfNumber(b[1..]);
      assert b == [b[0]] + b[1..];
    }
  }

  /** `c & 0xff`, as the index of a table entry. */
  function Bottom(c: Register): (n: Byte)
    ensures Bits(n, 8) == c[..8]
  {
    BitsOfNumber(c[..8]);
    PowerOfEight(8);
    Number(c[..8])
  }

  predicate IsTable(t: seq<Register>) {
    |t| == 256 && forall n: Byte :: t[n] == Iterate(Step, Wide(n), 8)
  }

  method BuildTable() returns (t: array<Register>)
    ensures fresh(t) && IsTable(t[..])
  {
    hide Iterate, Wide;
    t := new Register[256](_ => Ones());
    var n: nat := 0;
    while n < 256
      invariant 0 <= n <= 256 && t.Length == 256
      invariant forall x: nat :: x < n ==> t[x] == Iterate(Step, Wide(x), 8)
    {
      var c := Entry(n, 8);
      t[n] := c;
      n := n + 1;
    }
    assert forall x: Byte :: t[..][x] == t[x];
  }

  method Entry(n: Byte, bits: nat) returns (c: Register)
    ensures c == Iterate(Step, Wide(n), bits)
  {
    hide Divisor;
    c := Wide(n);
    var k := 0;
    while k < bits
      invariant 0 <= k <= bits
      invariant Iterate(Step, Wide(n), bits) == Iterate(Step, c, bits - k)
    {
      c := if c[0] then Xor(Divisor(), Shift(c, 1)) else Shift(c, 1);
      k := k + 1;
    }
  }

  lemma AddedByte(c: Register, b: Byte)
    ensures Shift(Xor(c, Wide(b)), 8) == Shift(c, 8)
    ensures Wide(Bottom(Xor(c, Wide(b)))) == Low(Xor(c, Wide(b)))
  {
    hide Bits;
  }

  /** One round of the table loop absorbs one byte. */
  lemma TableRound(t: seq<Register>, c: Register, b: Byte)
    requires IsTable(t)
    ensures Xor(t[Bottom(Xor(c, Wide(b)))], Shift(c, 8)) == Absorb(c, b)
  {
    hide Iterate, Step, Xor, Shift, Wide, Low, Bottom;
    AddedByte(c, b);
    EightSteps(Xor(c, Wide(b)), 8);
  }

  /** The table-driven loop is the division: for every buffer it gives the CRC. */
  method Crc32(table: array<Register>, buf: seq<Byte>) returns (crc: Register)
    requires IsTable(table[..])
    ensures crc == Crc(buf)
  {
    hide IsTable, Absorb, Xor, Shift, Wide, Bottom;
    var c := Ones();
    var i := 0;
    assert buf[0..] == buf;
    while i < |buf|
      invariant 0 <= i <= |buf|
      invariant Feed(Absorb, Ones(), buf) == Feed(Absorb, c, buf[i..])
    {
      TableRound(table[..], c, buf[i]);
      TableSize(table[..]);
      assert buf[i..][1..] == buf[i + 1..];
      c := Xor(table[Bottom(Xor(c, Wide(buf[i])))], Shift(c, 8));
      i := i + 1;
    }
    assert buf[i..] == [];
    crc := Xor(c, Ones());
  }

  lemma TableSize(t: seq<Register>)
    requires IsTable(t)
    ensures |t| == 256
  {
  }

  /* ---------- What the CRC finds ---------- */

  function Up(c: Register): Register {
    Zeros(8) + c[..24]
  }

  function NoBits(): Register {
    Zeros(32)
  }

  /** The register as a machine that takes in bytes. */
  function Taker(): Machine<Register, Byte> {
    Machine(Step, Xor, Up, Wide, NoBits())
  }

  /** Up to four bytes as one word, the first at the bottom. */
  function Pack(bs: seq<Byte>): Register {
    Packed(Taker(), bs)
  }

  lemma TakerIsLawful()
    ensures Lawful(Taker())
  {
    hide Step, Xor;
    StepCommutes();
    forall a, b, c ensures Xor(a, Xor(b, c)) == Xor(Xor(a, b), c) {
      XorLaws(a, b, c);
    }
    forall a ensures Xor(a, NoBits()) == a {
      XorLaws(a, a, a);
    }
  }

  /** All bits from `n` on are zero. */
  predicate Fits(c: Register, n: nat) {
    forall i :: n <= i < 32 ==> !c[i]
  }

  lemma {:induction false} PackFits(bs: seq<Byte>)
    ensures Fits(Pack(bs), 8 * |bs|)
    decreases |bs|
  {
    hide Bits;
    if bs != [] {
      PackFits(bs[1..]);
      var y := Pack(bs[1..]);
      forall i | 8 * |bs| <= i < 32 ensures !Xor(Wide(bs[0]), Up(y))[i] {
        assert Up(y)[i] == y[i - 8];
      }
    }
  }

  lemma UpAndDown(y: Register)
    requires Fits(y, 24)
    ensures Shift(Up(y), 8) == y
  {
    assert y[24..] == Zeros(8);
    assert y == y[..24] + y[24..];
  }

  lemma WordComesDown(bs: seq<Byte>)
    requires |bs| <= 3
    ensures ComesDown(Taker(), 8, bs)
  {
    hide Iterate, Step, Packed;
    var y := Pack(bs);
    PackFits(bs);
    UpAndDown(y);
    StepsShift(Up(y), 8);
  }

  /** Absorbing up to four bytes is stepping over their word. */
  lemma AbsorbPack(c: Register, bs: seq<Byte>)
    requires |bs| <= 4
    ensures Feed(Absorb, c, bs) == Iterate(Step, Xor(c, Pack(bs)), 8 * |bs|)
  {
    hide Iterate, Step, Xor, Feed, Packed, ComesDown, Lawful, Wide;
    TakerIsLawful();
    forall k | 1 <= k <= |bs| ensures ComesDown(Taker(), 8, bs[k..]) {
      WordComesDown(bs[k..]);
    }
    AbsorbWord(Taker(), Absorb, 8, c, bs);
  }

  lemma BytesOfWord(b: Byte, d: Byte, x: Register, y: Register)
    requires Fits(x, 24) && Fits(y, 24) && Xor(Wide(b), Up(x)) == Xor(Wide(d), Up(y))
    ensures b == d && x == y
  {
    PowerOfEight(8);
    NumberOfBits(b, 8);
    NumberOfBits(d, 8);
    hide Bits;
    UpAndDown(x);
    UpAndDown(y);
    LowByte(b, x);
    LowByte(d, y);
  }

  lemma LowByte(b: Byte, x: Register)
    ensures Xor(Wide(b), Up(x))[..8] == Bits(b, 8) && Shift(Xor(Wide(b), Up(x)), 8) == Shift(Up(x), 8)
  {
    hide Bits;
  }

  lemma {:induction false} PackInjective(a: seq<Byte>, b: seq<Byte>)
    requires |a| == |b| <= 4 && Pack(a) == Pack(b)
    ensures a == b
    decreases |a|
  {
    hide Xor, Wide, Up, Fits;
    if a != [] {
      PackRestFits(a);
      PackRestFits(b);
      BytesOfWord(a[0], b[0], Pack(a[1..]), Pack(b[1..]));
      PackInjective(a[1..], b[1..]);
      assert a == [a[0]] + a[1..] && b == [b[0]] + b[1..];
    }
  }

  lemma PackRestFits(a: seq<Byte>)
    requires 1 <= |a| <= 4
    ensures Fits(Pack(a[1..]), 24)
  {
    hide Packed;
    PackFits(a[1..]);
  }

  lemma AbsorbInjective(a: Register, b: Register, x: Byte)
    requires Absorb(a, x) == Absorb(b, x)
    ensures a == b
  {
    hide Iterate, Step, Xor, Wide;
    StepInjective();
    IterateInjective(Step, Xor(a, Wide(x)), Xor(b, Wide(x)), 8);
    XorCancels(a, b, Wide(x));
  }

  lemma WordsDiffer(c: Register, a: seq<Byte>, b: seq<Byte>)
    requires |a| == |b| <= 4 && Feed(Absorb, c, a) == Feed(Absorb, c, b)
    ensures a == b
  {
    hide Iterate, Feed, Packed, Step, Xor;
    AbsorbPack(c, a);
    AbsorbPack(c, b);
    StepInjective();
    IterateInjective(Step, Xor(c, Pack(a)), Xor(c, Pack(b)), 8 * |a|);
    XorLaws(c, Pack(a), c);
    XorLaws(c, Pack(b), c);
    XorCancels(Pack(a), Pack(b), c);
    PackInjective(a, b);
  }

  /** The CRC finds every change that stays within four neighbouring bytes, wherever it is. */
  lemma ChangesAreFound(before: seq<Byte>, a: seq<Byte>, b: seq<Byte>, after: seq<Byte>)
    requires |a| == |b| <= 4 && a != b
    ensures Crc(before + a + after) != Crc(before + b + after)
  {
    hide Feed, Absorb, Xor;
    if Crc(before + a + after) == Crc(before + b + after) {
      var c := Feed(Absorb, Ones(), before);
      FeedTwice(before, a, after);
      FeedTwice(before, b, after);
      XorCancels(Feed(Absorb, Ones(), before + a + after), Feed(Absorb, Ones(), before + b + after), Ones());
      forall x, y, z | Absorb(x, z) == Absorb(y, z) ensures x == y {
        AbsorbInjective(x, y, z);
      }
      FeedInjective(Absorb, Feed(Absorb, c, a), Feed(Absorb, c, b), after);
      WordsDiffer(c, a, b);
    }
  }

  lemma FeedTwice(before: seq<Byte>, a: seq<Byte>, after: seq<Byte>)
    ensures Feed(Absorb, Ones(), before + a + after) ==
      Feed(Absorb, Feed(Absorb, Feed(Absorb, Ones(), before), a), after)
  {
    hide Feed, Absorb;
    FeedAppend(Absorb, Ones(), before + a, after);
    FeedAppend(Absorb, Ones(), before, a);
  }

  /* ---------- The start and the end of the division ---------- */

  lemma {:induction false} ZeroStays(k: nat)
    ensures Iterate(Step, NoBits(), k) == NoBits()
    decreases k
  {
    if k > 0 {
      assert Step(NoBits()) == NoBits();
      ZeroStays(k - 1);
    }
  }

  lemma OnesByte()
    ensures Bits(255, 8) == [true, true, true, true, true, true, true, true]
  {
    hide Bits;
    FourBits(255, 8);
    FourBits(15, 4);
    BitsNone(0);
  }

  lemma PackNext(b: Byte, bs: seq<Byte>)
    ensures Pack([b] + bs) == Xor(Wide(b), Up(Pack(bs)))
  {
    assert ([b] + bs)[1..] == bs;
  }

  lemma XorAt(a: Register, b: Register, i: nat)
    requires i < 32
    ensures Xor(a, b)[i] == (a[i] != b[i])
  {
  }

  lemma PackNone()
    ensures Pack([]) == Zeros(32)
  {
  }

  /** A byte of ones in front of a word whose low bits are ones. */
  lemma OnesInFront(bs: seq<Byte>, n: nat)
    requires n <= 24 && forall i :: 0 <= i < 32 ==> (Pack(bs)[i] <==> i < n)
    ensures forall i :: 0 <= i < 32 ==> (Pack([255] + bs)[i] <==> i < n + 8)
  {
    hide Xor, Pack, Bits;
    PackNext(255, bs);
    OnesByte();
    var w, u := Wide(255), Up(Pack(bs));
    forall i | 0 <= i < 32 ensures Pack([255] + bs)[i] <==> i < n + 8 {
      XorAt(w, u, i);
      if i < 8 {
        assert w[i] == Bits(255, 8)[i] && u[i] == Zeros(8)[i];
      } else {
        assert w[i] == Zeros(24)[i - 8] && u[i] == Pack(bs)[..24][i - 8];
      }
    }
  }

  lemma FourOnes()
    ensures Pack([255, 255, 255, 255]) == Ones()
  {
    hide Pack;
    PackNone();
    OnesInFront([], 0);
    assert [255 as Byte] + [] == [255];
    OnesInFront([255], 8);
    assert [255 as Byte] + [255] == [255, 255];
    OnesInFront([255, 255], 16);
    assert [255 as Byte] + [255, 255] == [255, 255, 255];
    OnesInFront([255, 255, 255], 24);
    assert [255 as Byte] + [255, 255, 255] == [255, 255, 255, 255];
    assert Pack([255, 255, 255, 255]) == Ones();
  }

  /** The register starts with ones and is complemented at the end: nothing has the checksum 0, and four bytes of ones,
      which empty the register, have the complement of an empty one. */
  lemma StartAndEnd()
    ensures Crc([]) == Zeros(32) && Crc([255, 255, 255, 255]) == Ones()
  {
    hide Iterate, Step, Xor, Feed, Pack, Absorb;
    var ones: seq<Byte> := [255, 255, 255, 255];
    FedNone();
    XorSelf(Ones());
    AbsorbPack(Ones(), ones);
    FourOnes();
    ZeroStays(32);
    XorLaws(Ones(), NoBits(), NoBits());
    assert 8 * |ones| == 32;
  }

  lemma FedNone()
    ensures Feed(Absorb, Ones(), []) == Ones()
  {
  }

  lemma XorSelf(a: Register)
    ensures Xor(a, a) == Zeros(32)
  {
  }
}
