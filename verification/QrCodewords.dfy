/** `buildCodewords` of src/main/qr.ts: from bytes to the interleaved codewords of the
    smallest symbol that holds them, and the reader that undoes it. */
module QrCodewords {
  import opened Basics
  import opened Gf256
  import opened Options
  import opened ReedSolomon

  /** A finished code stream, or the error for a text that fits no version. */
  datatype Codewords = Codewords(version: nat, stream: seq<bv8>) | TooLong(length: nat)

  /* ---------- The table of versions, level M ---------- */

  datatype EcSpec = EcSpec(total: nat, ec: nat, b1: nat, d1: nat, b2: nat, d2: nat) {
    function Blocks(): nat {
      b1 + b2
    }

    function DataCw(): int {
      total - ec * (b1 + b2)
    }

    /** The data lengths of the blocks, in order. */
    function Lengths(): (r: seq<nat>)
      ensures |r| == b1 + b2
    {
      seq(b1 + b2, k => if k < b1 then d1 else d2)
    }

    function MaxLength(): nat {
      if d1 > d2 then d1 else d2
    }
  }

  const VERSIONS := 20

  /** What the code relies on about a row of the table. */
  predicate Consistent(s: EcSpec) {
    && s.DataCw() == s.b1 * s.d1 + s.b2 * s.d2
    && s.total == s.DataCw() + s.Blocks() * s.ec
    && 0 < s.ec <= 30 && 0 < s.Blocks() <= 16
    && s.d1 <= s.MaxLength() <= 51 && s.d2 <= s.MaxLength()
    && (s.b2 == 0 || s.d2 == s.MaxLength()) && (s.b1 == 0 || s.b2 > 0 || s.d1 == s.MaxLength())
  }

  lemma Swap(a: nat, b: nat)
    ensures a * b == b * a
  {
  }

  /** A row of the table; every one of them adds up. */
  function SpecRow(total: nat, ec: nat, b1: nat, d1: nat, b2: nat, d2: nat): (s: EcSpec)
    requires total == b1 * d1 + b2 * d2 + (b1 + b2) * ec
    requires 0 < ec <= 30 && 0 < b1 + b2 <= 16 && 0 < b1 && d1 <= 51 && d2 <= 51
    requires if b2 == 0 then d2 == 0 else d1 <= d2
    ensures Consistent(s)
  {
    Swap(b1 + b2, ec);
    EcSpec(total, ec, b1, d1, b2, d2)
  }

  /** The row of the table for version index `v`. */
  function EcM(v: nat): EcSpec
    requires v < VERSIONS
  {
    match v
    case 0 => SpecRow(26, 10, 1, 16, 0, 0)
    case 1 => SpecRow(44, 16, 1, 28, 0, 0)
    case 2 => SpecRow(70, 26, 1, 44, 0, 0)
    case 3 => SpecRow(100, 18, 2, 32, 0, 0)
    case 4 => SpecRow(134, 24, 2, 43, 0, 0)
    case 5 => SpecRow(172, 16, 4, 27, 0, 0)
    case 6 => SpecRow(196, 18, 4, 31, 0, 0)
    case 7 => SpecRow(242, 22, 2, 38, 2, 39)
    case 8 => SpecRow(292, 22, 3, 36, 2, 37)
    case 9 => SpecRow(346, 26, 4, 43, 1, 44)
    case 10 => SpecRow(404, 30, 1, 50, 4, 51)
    case 11 => SpecRow(466, 22, 6, 36, 2, 37)
    case 12 => SpecRow(532, 22, 8, 37, 1, 38)
    case 13 => SpecRow(581, 24, 4, 40, 5, 41)
    case 14 => SpecRow(655, 24, 5, 41, 5, 42)
    case 15 => SpecRow(733, 28, 7, 45, 3, 46)
    case 16 => SpecRow(815, 28, 10, 46, 1, 47)
    case 17 => SpecRow(901, 26, 9, 43, 4, 44)
    case 18 => SpecRow(991, 26, 3, 44, 11, 45)
    case _ => SpecRow(1085, 26, 3, 41, 13, 42)
  }

  lemma TableRow(v: nat)
    requires v < VERSIONS
    ensures Consistent(EcM(v))
  {
    hide Consistent;
  }

  const QR_MAX_BYTES := 666

  /** Width of the character count in the symbol with version index `v`. */
  function CountBits(v: nat): nat {
    if v + 1 < 10 then 8 else 16
  }

  predicate Fits(v: nat, length: nat)
    requires v < VERSIONS
  {
    4 + CountBits(v) + length * 8 <= EcM(v).DataCw() * 8
  }

  /** A length fits some version exactly when it is at most `QR_MAX_BYTES`, and then the count field can hold it. */
  lemma FitsSome(length: nat)
    ensures (exists v :: 0 <= v < VERSIONS && Fits(v, length)) <==> length <= QR_MAX_BYTES
  {
    if length <= QR_MAX_BYTES {
      assert Fits(19, length);
    }
  }

  /** The most bytes a version holds (ISO/IEC 18004:2015, table 7, level M, byte mode). */
  function Capacity(v: nat): nat
    requires v < VERSIONS
  {
    match v
    case 0 => 14
    case 1 => 26
    case 2 => 42
    case 3 => 62
    case 4 => 84
    case 5 => 106
    case 6 => 122
    case 7 => 152
    case 8 => 180
    case 9 => 213
    case 10 => 251
    case 11 => 287
    case 12 => 331
    case 13 => 362
    case 14 => 412
    case 15 => 450
    case 16 => 504
    case 17 => 560
    case 18 => 624
    case _ => 666
  }

  lemma CapacityLeft(v: nat)
    requires v < VERSIONS
    ensures Capacity(v) == EcM(v).DataCw() - (if v < 9 then 2 else 3)
  {
  }

  lemma FitsExactly(v: nat, length: nat)
    requires v < VERSIONS
    ensures Fits(v, length) <==> length <= Capacity(v)
  {
    CapacityLeft(v);
    hide EcM, Capacity;
  }

  lemma CountHolds(v: nat, length: nat)
    requires v < VERSIONS && Fits(v, length)
    ensures CountBits(v) == 8 ==> length < 256
    ensures length < 65536
  {
    TableRow(v);
  }

  /* ---------- Bits ---------- */

  /** The low `len` bits of `val`, most significant first. */
  function BitsOf(val: nat, len: nat): (r: seq<bool>)
    ensures |r| == len
  {
    if len == 0 then [] else BitsOf(val / 2, len - 1) + [val % 2 == 1]
  }

  function NatOf(bits: seq<bool>): (n: nat)
    ensures n < Pow2(|bits|)
    decreases bits
  {
    if bits == [] then 0
    else 2 * NatOf(bits[..|bits| - 1]) + (if bits[|bits| - 1] then 1 else 0)
  }

  lemma {:induction false} NatOfBitsOf(val: nat, len: nat)
    requires val < Pow2(len)
    ensures NatOf(BitsOf(val, len)) == val
  {
    if len > 0 {
      NatOfBitsOf(val / 2, len - 1);
      assert BitsOf(val, len)[..len - 1] == BitsOf(val / 2, len - 1);
    }
  }

  lemma {:induction false} BitsOfNatOf(bits: seq<bool>)
    ensures BitsOf(NatOf(bits), |bits|) == bits
    decreases bits
  {
    if bits != [] {
      BitsOfNatOf(bits[..|bits| - 1]);
    }
  }

  lemma Pow2Values()
    ensures Pow2(4) == 16 && Pow2(8) == 256 && Pow2(16) == 65536
  {
  }

  /** `val >> i` */
  function Shr(val: nat, i: nat): nat {
    if i == 0 then val else Shr(val, i - 1) / 2
  }

  /** `push`: append the low `len` bits of `val`, by shifting. */
  method Push(bits: seq<bool>, val: nat, len: nat) returns (r: seq<bool>)
    ensures r == bits + BitsOf(val, len)
  {
    r := bits;
    for i := len downto 0
      invariant r == bits + BitsOf(Shr(val, i), len - i)
    {
      r := r + [Shr(val, i) % 2 == 1];
    }
  }

  lemma {:induction false} ShrHalf(val: nat, i: nat)
    ensures Shr(val / 2, i) == Shr(val, i + 1)
  {
    if i > 0 {
      ShrHalf(val, i - 1);
    }
  }

  lemma MulAdd(a: int, b: int, d: int)
    ensures (a + b) * d == a * d + b * d
  {
  }

  lemma MulMono(a: int, b: int, d: nat)
    requires a <= b
    ensures a * d <= b * d
  {
  }

  lemma DivUnique(n: nat, d: nat, q: nat, r: nat)
    requires d > 0 && n == q * d + r && r < d
    ensures n / d == q
  {
    var k := n / d;
    var m := n % d;
    assert n == k * d + m;
    if k < q {
      MulMono(k + 1, q, d);
      MulAdd(k, 1, d);
    } else if k > q {
      MulMono(q + 1, k, d);
      MulAdd(q, 1, d);
    }
  }

  /* ---------- Packing ---------- */

  /** The bits of a sequence of codewords. */
  function Unpack(data: seq<bv8>): (r: seq<bool>)
    ensures |r| == 8 * |data|
    decreases data
  {
    if data == [] then [] else Unpack(data[..|data| - 1]) + BitsOf(Value(data[|data| - 1]), 8)
  }

  lemma {:induction false} UnpackConcat(a: seq<bv8>, b: seq<bv8>)
    ensures Unpack(a + b) == Unpack(a) + Unpack(b)
    decreases |b|
  {
    hide BitsOf, Value;
    if b == [] {
      assert a + b == a;
    } else {
      var n := |b| - 1;
      assert (a + b)[..|a + b| - 1] == a + b[..n];
      UnpackConcat(a, b[..n]);
    }
  }

  /** Every number below 256 is the value of a byte. */
  lemma ByteWithValue(n: nat) returns (x: bv8)
    requires n < 256
    ensures Value(x) == n
  {
    hide Value;
    if n == 0 {
      x := 0;
      ValueLaws(0, 0);
    } else {
      var y := ByteWithValue(n - 1);
      x := ByteAfter(y);
    }
  }

  lemma ByteAfter(y: bv8) returns (x: bv8)
    requires Value(y) < 255
    ensures Value(x) == Value(y) + 1
  {
    x := y + 1;
  }

  lemma ByteOfValue(x: bv8, n: nat)
    requires Value(x) == n
    ensures n as bv8 == x
  {
  }

  lemma ValueOfByte(n: nat)
    requires n < 256
    ensures Value(n as bv8) == n
  {
    hide Value;
    var x := ByteWithValue(n);
    ByteOfValue(x, n);
  }

  lemma UnpackAppend(data: seq<bv8>, group: seq<bool>)
    requires |group| == 8
    ensures NatOf(group) < 256
    ensures Unpack(data + [NatOf(group) as bv8]) == Unpack(data) + group
  {
    hide Value;
    Pow2Values();
    BitsOfNatOf(group);
    ValueOfByte(NatOf(group));
    assert (data + [NatOf(group) as bv8])[..|data|] == data;
  }

  /** Cut into bytes, eight bits at a time. */
  method PackBits(bits: seq<bool>) returns (data: seq<bv8>)
    requires |bits| % 8 == 0
    ensures Unpack(data) == bits
  {
    hide Unpack, NatOf;
    data := [];
    UnpackNone();
    var i := 0;
    while i < |bits|
      invariant i % 8 == 0 && i <= |bits|
      invariant Unpack(data) == bits[..i]
    {
      var group := bits[i..i + 8];
      UnpackAppend(data, group);
      data := data + [NatOf(group) as bv8];
      assert bits[..i + 8] == bits[..i] + group;
      i := i + 8;
    }
  }

  lemma UnpackNone()
    ensures Unpack([]) == []
  {
  }

  lemma {:induction false} UnpackAt(data: seq<bv8>, k: nat)
    requires k < |data|
    ensures Unpack(data)[8 * k..8 * k + 8] == BitsOf(Value(data[k]), 8)
    decreases data
  {
    hide BitsOf, Value;
    var n := |data| - 1;
    var front, last := Unpack(data[..n]), BitsOf(Value(data[n]), 8);
    assert Unpack(data) == front + last;
    if k < n {
      UnpackAt(data[..n], k);
      assert (front + last)[8 * k..8 * k + 8] == front[8 * k..8 * k + 8];
    } else {
      assert (front + last)[8 * n..8 * n + 8] == last;
    }
  }

  lemma ByteFromBits(x: bv8)
    ensures NatOf(BitsOf(Value(x), 8)) == Value(x) < 256
    ensures NatOf(BitsOf(Value(x), 8)) as bv8 == x
  {
    hide Value;
    Pow2Values();
    NatOfBitsOf(Value(x), 8);
    ValueOfByte(Value(x));
    ValueLaws(Value(x) as bv8, x);
  }

  /* ---------- The data codewords ---------- */

  /** Mode, character count and the bytes themselves. */
  function HeaderBits(v: nat, bytes: seq<bv8>): seq<bool> {
    BitsOf(4, 4) + BitsOf(|bytes|, CountBits(v)) + Unpack(bytes)
  }

  /** Length of the terminator and of the zeros up to the next byte boundary. */
  function TerminatorLength(length: nat, capacity: nat): nat
    requires length <= capacity
  {
    var t := if capacity - length < 4 then capacity - length else 4;
    t + (8 - (length + t) % 8) % 8
  }

  /** `n` zeros fill the last byte, and there are four of them, or as many as there is room for. */
  predicate Terminates(length: nat, capacity: nat, n: nat) {
    (length + n) % 8 == 0 && length + n <= capacity && (n >= 4 || length + n == capacity)
  }

  lemma TerminatorIsLeast(length: nat, capacity: nat)
    requires length <= capacity && capacity % 8 == 0
    ensures Terminates(length, capacity, TerminatorLength(length, capacity))
    ensures forall k: nat :: Terminates(length, capacity, k) ==> TerminatorLength(length, capacity) <= k
  {
    var t := if capacity - length < 4 then capacity - length else 4;
    var n := TerminatorLength(length, capacity);
    FillsByte(length + t, n - t);
    NoSooner(length + t, n - t, capacity - length - t);
    forall k: nat | Terminates(length, capacity, k) ensures n <= k {
      NoSooner(length + t, n - t, k - t);
    }
  }

  lemma FillsByte(m: nat, d: nat)
    requires d == (8 - m % 8) % 8
    ensures (m + d) % 8 == 0 && d < 8
  {
  }

  lemma NoSooner(m: nat, d: nat, k: nat)
    requires d == (8 - m % 8) % 8 && (m + k) % 8 == 0
    ensures d <= k
  {
  }

  function Falses(n: nat): (r: seq<bool>)
    ensures |r| == n
  {
    seq(n, _ => false)
  }

  /** The alternating pad codewords 11101100 and 00010001. */
  function PadCodewords(n: nat): (r: seq<bv8>)
    ensures |r| == n
  {
    seq(n, i => if i % 2 == 0 then 0xec else 0x11)
  }

  /** The first pad is 11101100, and of two neighbours one is that and the other 00010001. */
  lemma PadsAlternate(n: nat, i: nat)
    requires i < n
    ensures PadCodewords(n)[0] == 0xec
    ensures i + 1 < n ==> {PadCodewords(n)[i], PadCodewords(n)[i + 1]} == {0xec, 0x11}
  {
    if i % 2 == 0 {
      assert (i + 1) % 2 == 1;
    } else {
      assert (i + 1) % 2 == 0;
    }
  }

  /** `data` is the whole data area of the symbol for `bytes`. */
  ghost predicate HoldsBytes(v: nat, bytes: seq<bv8>, data: seq<bv8>)
    requires v < VERSIONS && Fits(v, |bytes|)
  {
    var bits := HeaderBits(v, bytes);
    var used := |bits| + TerminatorLength(|bits|, EcM(v).DataCw() * 8);
    && |data| == EcM(v).DataCw()
    && used % 8 == 0 && used <= 8 * |data|
    && Unpack(data) == bits + Falses(used - |bits|) + Unpack(PadCodewords(|data| - used / 8))
  }

  /** What a reader knows of the character count of byte mode: one byte in the versions 1 to 9, two behind. */
  function CountWidth(version: nat): nat {
    8 * if version <= 9 then 1 else 2
  }

  /** Read the bytes back from the data codewords of a symbol in byte mode. */
  function ParseData(v: nat, data: seq<bv8>): Option<seq<bv8>> {
    var bits, cc := Unpack(data), CountWidth(v + 1);
    if |bits| < 4 + cc || NatOf(bits[..4]) != 4 then None
    else
      var n := NatOf(bits[4..4 + cc]);
      if |bits| < 4 + cc + 8 * n then None
      else Some(BytesAt(bits, 4 + cc, n))
  }

  function BytesAt(bits: seq<bool>, at: nat, n: nat): (r: seq<bv8>)
    requires at + 8 * n <= |bits|
    ensures |r| == n && forall i :: 0 <= i < n ==> r[i] == ByteAt(bits, at + 8 * i)
  {
    seq(n, i requires 0 <= i < n => ByteAt(bits, at + 8 * i))
  }

  function ByteAt(bits: seq<bool>, at: nat): bv8
    requires at + 8 <= |bits|
  {
    Pow2Values();
    NatOf(bits[at..at + 8]) as bv8
  }

  lemma ParseHolds(v: nat, bytes: seq<bv8>, data: seq<bv8>)
    requires v < VERSIONS && Fits(v, |bytes|) && HoldsBytes(v, bytes, data)
    ensures ParseData(v, data) == Some(bytes)
  {
    var bits, cc, n := Unpack(data), CountBits(v), |bytes|;
    var rest := bits[4 + cc + 8 * n..];
    assert bits == BitsOf(4, 4) + BitsOf(n, cc) + Unpack(bytes) + rest;
    CountHolds(v, n);
    ParseStream(v, bytes, data, rest);
  }

  lemma ParseStream(v: nat, bytes: seq<bv8>, data: seq<bv8>, rest: seq<bool>)
    requires CountBits(v) == 8 ==> |bytes| < 256
    requires |bytes| < 65536
    requires Unpack(data) == BitsOf(4, 4) + BitsOf(|bytes|, CountBits(v)) + Unpack(bytes) + rest
    ensures ParseData(v, data) == Some(bytes)
  {
    hide Value, Unpack, BitsOf, NatOf, BytesAt;
    var bits, cc, n := Unpack(data), CountBits(v), |bytes|;
    Parts(BitsOf(4, 4), BitsOf(n, cc), Unpack(bytes), rest);
    HeadIsRead(bits, cc, n);
    BytesAreRead(bits, bytes, 4 + cc);
  }

  lemma HeadIsRead(bits: seq<bool>, cc: nat, n: nat)
    requires |bits| >= 4 + cc && bits[..4] == BitsOf(4, 4) && bits[4..4 + cc] == BitsOf(n, cc)
    requires cc == 8 || cc == 16
    requires if cc == 8 then n < 256 else n < 65536
    ensures NatOf(bits[..4]) == 4 && NatOf(bits[4..4 + cc]) == n
  {
    hide BitsOf, NatOf;
    Pow2Values();
    NatOfBitsOf(4, 4);
    NatOfBitsOf(n, cc);
  }

  lemma BytesAreRead(bits: seq<bool>, bytes: seq<bv8>, head: nat)
    requires head + 8 * |bytes| <= |bits| && bits[head..head + 8 * |bytes|] == Unpack(bytes)
    ensures BytesAt(bits, head, |bytes|) == bytes
  {
    hide *;
    var read := BytesAt(bits, head, |bytes|);
    forall i | 0 <= i < |bytes| ensures read[i] == bytes[i] {
      ByteInStream(bits, bytes, head, i);
    }
  }

  lemma ByteAtBits(bits: seq<bool>, at: nat, x: bv8)
    requires at + 8 <= |bits| && bits[at..at + 8] == BitsOf(Value(x), 8)
    ensures ByteAt(bits, at) == x
  {
    hide Value, BitsOf, NatOf;
    ByteFromBits(x);
  }

  lemma ByteInStream(bits: seq<bool>, bytes: seq<bv8>, head: nat, i: nat)
    requires i < |bytes| && head + 8 * |bytes| <= |bits|
    requires bits[head..head + 8 * |bytes|] == Unpack(bytes)
    ensures ByteAt(bits, head + 8 * i) == bytes[i]
  {
    hide *;
    UnpackAt(bytes, i);
    ByteInSlice(bits, bytes[i], head, head + 8 * |bytes|, 8 * i);
  }

  lemma ByteInSlice(bits: seq<bool>, x: bv8, head: nat, end: nat, at: nat)
    requires head <= end <= |bits| && at + 8 <= end - head
    requires bits[head..end][at..at + 8] == BitsOf(Value(x), 8)
    ensures ByteAt(bits, head + at) == x
  {
    hide *;
    SliceOfSlice(bits, head, end, at, at + 8);
    ByteAtBits(bits, head + at, x);
  }

  lemma Parts<T>(a: seq<T>, b: seq<T>, c: seq<T>, d: seq<T>)
    ensures (a + b + c + d)[..|a|] == a
    ensures (a + b + c + d)[|a|..|a| + |b|] == b
    ensures (a + b + c + d)[|a| + |b|..|a| + |b| + |c|] == c
  {
  }

  lemma SliceOfSlice<T>(s: seq<T>, a: nat, b: nat, c: nat, d: nat)
    requires a <= b <= |s| && c <= d <= b - a
    ensures s[a..b][c..d] == s[a + c..a + d]
  {
    var t := s[a..b];
    forall i | c <= i < d ensures t[i] == s[a + i] {
    }
  }

  /** Terminator, then zeros up to the next byte boundary. */
  method Terminate(bits: seq<bool>, capacity: nat) returns (r: seq<bool>)
    requires |bits| <= capacity && capacity % 8 == 0
    ensures r == bits + Falses(TerminatorLength(|bits|, capacity))
    ensures |r| % 8 == 0 && |r| <= capacity
  {
    r := bits;
    var i := 0;
    while i < 4 && |r| < capacity
      invariant 0 <= i <= 4 && r == bits + Falses(i) && |r| <= capacity
    {
      r := r + [false];
      i := i + 1;
    }
    ghost var t := i;
    ghost var n := |r|;
    while |r| % 8 != 0
      invariant n <= |r| <= capacity && r == bits + Falses(|r| - |bits|)
      invariant |r| - n <= (8 - n % 8) % 8
      decreases capacity - |r|
    {
      OneMoreZero(n, |r|, capacity);
      r := r + [false];
    }
    AllZeros(n, |r|);
  }

  lemma OneMoreZero(n: nat, m: nat, capacity: nat)
    requires n <= m <= capacity && capacity % 8 == 0 && m % 8 != 0 && m - n <= (8 - n % 8) % 8
    ensures m < capacity && m + 1 - n <= (8 - n % 8) % 8
  {
  }

  lemma AllZeros(n: nat, m: nat)
    requires n <= m && m % 8 == 0 && m - n <= (8 - n % 8) % 8
    ensures m - n == (8 - n % 8) % 8
  {
  }

  method PadData(data: seq<bv8>, n: nat) returns (r: seq<bv8>)
    requires |data| <= n
    ensures r == data + PadCodewords(n - |data|)
  {
    r := data;
    var pad: bv8 := 0xec;
    while |r| < n
      invariant |data| <= |r| <= n
      invariant r == data + PadCodewords(|r| - |data|)
      invariant pad == if (|r| - |data|) % 2 == 0 then 0xec else 0x11
    {
      r := r + [pad];
      pad := pad ^ 0xfd;
    }
  }

  /** The first three writes of `buildCodewords`. */
  method BuildHeader(v: nat, bytes: seq<bv8>) returns (bits: seq<bool>)
    ensures bits == HeaderBits(v, bytes)
  {
    hide Value, BitsOf;
    bits := Push([], 4, 4);
    bits := Push(bits, |bytes|, CountBits(v));
    ghost var head := bits;
    for i := 0 to |bytes|
      invariant bits == head + Unpack(bytes[..i])
    {
      bits := Push(bits, Value(bytes[i]), 8);
      assert bytes[..i + 1][..i] == bytes[..i];
    }
    assert bytes[..|bytes|] == bytes;
  }

  /** Everything up to the padding of `buildCodewords`. */
  method BuildData(v: nat, bytes: seq<bv8>) returns (data: seq<bv8>)
    requires v < VERSIONS && Fits(v, |bytes|)
    ensures HoldsBytes(v, bytes, data)
  {
    hide EcM, Unpack, BitsOf, PadCodewords, TerminatorLength;
    TableRow(v);
    var dataCw := EcM(v).DataCw();
    var header := BuildHeader(v, bytes);
    var bits := Terminate(header, dataCw * 8);
    var packed := PackBits(bits);
    data := PadData(packed, dataCw);
    PaddedData(v, bytes, packed);
  }

  lemma PaddedData(v: nat, bytes: seq<bv8>, packed: seq<bv8>)
    requires v < VERSIONS && Fits(v, |bytes|)
    requires |packed| <= EcM(v).DataCw()
    requires Unpack(packed) == HeaderBits(v, bytes)
      + Falses(TerminatorLength(|HeaderBits(v, bytes)|, EcM(v).DataCw() * 8))
    ensures HoldsBytes(v, bytes, packed + PadCodewords(EcM(v).DataCw() - |packed|))
  {
    hide *;
    var n: nat := EcM(v).DataCw();
    var bits := HeaderBits(v, bytes);
    var t := TerminatorLength(|bits|, n * 8);
    var pads := PadCodewords(n - |packed|);
    UnpackConcat(packed, pads);
    assert |bits| + t == 8 * |packed|;
    HoldsWhenPadded(v, bytes, packed + pads, n, bits, t, |packed|);
  }

  lemma HoldsWhenPadded(v: nat, bytes: seq<bv8>, data: seq<bv8>, n: nat, bits: seq<bool>, t: nat, filled: nat)
    requires v < VERSIONS && Fits(v, |bytes|)
    requires n == EcM(v).DataCw() && bits == HeaderBits(v, bytes) && t == TerminatorLength(|bits|, n * 8)
    requires |bits| + t == 8 * filled && filled <= n == |data|
    requires Unpack(data) == bits + Falses(t) + Unpack(PadCodewords(n - filled))
    ensures HoldsBytes(v, bytes, data)
  {
    hide EcM, Unpack, BitsOf, PadCodewords, TerminatorLength, HeaderBits, Fits, EcSpec.DataCw;
    assert 8 * filled / 8 == filled && 8 * filled % 8 == 0;
  }

  /* ---------- Interleaving ---------- */

  /** The `i`-th symbols of the blocks that are long enough, in block order. */
  function Row<T>(blocks: seq<seq<T>>, i: nat): seq<T>
    decreases |blocks|
  {
    if blocks == [] then []
    else
      var last := blocks[|blocks| - 1];
      Row(blocks[..|blocks| - 1], i) + (if i < |last| then [last[i]] else [])
  }

  function Rows<T>(blocks: seq<seq<T>>, n: nat): seq<T> {
    if n == 0 then [] else Rows(blocks, n - 1) + Row(blocks, n - 1)
  }

  /** How many of the first `k` blocks have an `i`-th symbol. */
  function Rank(lens: seq<nat>, k: nat, i: nat): nat
    requires k <= |lens|
  {
    if k == 0 then 0 else Rank(lens, k - 1, i) + (if i < lens[k - 1] then 1 else 0)
  }

  /** Where row `n` starts. */
  function Offset(lens: seq<nat>, n: nat): nat {
    if n == 0 then 0 else Offset(lens, n - 1) + Rank(lens, |lens|, n - 1)
  }

  /** `lens` starts with the lengths of the blocks. */
  ghost predicate Measures<T>(lens: seq<nat>, blocks: seq<seq<T>>) {
    |blocks| <= |lens| && forall k :: 0 <= k < |blocks| ==> lens[k] == |blocks[k]|
  }

  /** Block `k`, picked out of an interleaved stream that starts at `base`. */
  function Deinterleaved(stream: seq<bv8>, base: nat, lens: seq<nat>, k: nat): (r: seq<bv8>)
    requires k < |lens|
    ensures |r| == lens[k]
  {
    seq(lens[k], i requires 0 <= i < lens[k] => SymbolAt(stream, base + Offset(lens, i) + Rank(lens, k, i)))
  }

  function SymbolAt(stream: seq<bv8>, at: nat): bv8 {
    if at < |stream| then stream[at] else 0
  }

  lemma {:induction false} RowLength<T>(lens: seq<nat>, blocks: seq<seq<T>>, i: nat)
    requires Measures(lens, blocks)
    ensures |Row(blocks, i)| == Rank(lens, |blocks|, i)
    decreases |blocks|
  {
    if blocks != [] {
      RowLength(lens, blocks[..|blocks| - 1], i);
    }
  }

  lemma {:induction false} RowAt<T>(lens: seq<nat>, blocks: seq<seq<T>>, i: nat, k: nat)
    requires Measures(lens, blocks) && k < |blocks| && i < |blocks[k]|
    ensures Rank(lens, k, i) < |Row(blocks, i)|
    ensures Row(blocks, i)[Rank(lens, k, i)] == blocks[k][i]
    decreases |blocks|
  {
    var n := |blocks| - 1;
    if k < n {
      RowAt(lens, blocks[..n], i, k);
    } else {
      RowLength(lens, blocks[..n], i);
    }
  }

  lemma {:induction false} RowsLength<T>(lens: seq<nat>, blocks: seq<seq<T>>, n: nat)
    requires Measures(lens, blocks) && |lens| == |blocks|
    ensures |Rows(blocks, n)| == Offset(lens, n)
  {
    hide Row, Rank;
    if n > 0 {
      RowsLength(lens, blocks, n - 1);
      RowLength(lens, blocks, n - 1);
    }
  }

  lemma {:induction false} RowsAt<T>(lens: seq<nat>, blocks: seq<seq<T>>, n: nat, i: nat, j: nat)
    requires Measures(lens, blocks) && |lens| == |blocks|
    requires i < n && j < |Row(blocks, i)|
    ensures Offset(lens, i) + j < |Rows(blocks, n)|
    ensures Rows(blocks, n)[Offset(lens, i) + j] == Row(blocks, i)[j]
    decreases n
  {
    hide Row, Rank;
    if i < n - 1 {
      RowsAt(lens, blocks, n - 1, i, j);
    } else {
      RowsLength(lens, blocks, n - 1);
    }
  }

  /** De-interleaving finds each block again, wherever the rows stand in the stream. */
  lemma DeinterleavedRows(lens: seq<nat>, blocks: seq<seq<bv8>>, n: nat, before: seq<bv8>, after: seq<bv8>, k: nat)
    requires Measures(lens, blocks) && |lens| == |blocks|
    requires k < |blocks| && |blocks[k]| <= n
    ensures Deinterleaved(before + Rows(blocks, n) + after, |before|, lens, k) == blocks[k]
  {
    hide Row, Rank, Rows, Offset;
    var rows := Rows(blocks, n);
    var stream := before + rows + after;
    forall i | 0 <= i < lens[k]
      ensures SymbolAt(stream, |before| + Offset(lens, i) + Rank(lens, k, i)) == blocks[k][i] {
      RowAt(lens, blocks, i, k);
      RowsAt(lens, blocks, n, i, Rank(lens, k, i));
      var at := Offset(lens, i) + Rank(lens, k, i);
      assert stream[|before| + at] == rows[at];
    }
  }

  /* ---------- The code stream ---------- */

  function Flatten<T>(blocks: seq<seq<T>>): seq<T>
    decreases |blocks|
  {
    if blocks == [] then [] else Flatten(blocks[..|blocks| - 1]) + blocks[|blocks| - 1]
  }

  lemma {:induction false} FlattenConcat<T>(a: seq<seq<T>>, b: seq<seq<T>>)
    ensures Flatten(a + b) == Flatten(a) + Flatten(b)
    decreases |b|
  {
    if b == [] {
      assert a + b == a;
    } else {
      var n := |b| - 1;
      assert (a + b)[..|a + b| - 1] == a + b[..n];
      FlattenConcat(a, b[..n]);
    }
  }

  lemma FlattenAppend<T>(blocks: seq<seq<T>>, blk: seq<T>)
    ensures Flatten(blocks + [blk]) == Flatten(blocks) + blk
  {
    assert (blocks + [blk])[..|blocks|] == blocks;
  }

  lemma FlattenNone()
    ensures Flatten<bv8>([]) == []
  {
  }

  function CheckLengths(v: nat): seq<nat>
    requires v < VERSIONS
  {
    seq(EcM(v).Blocks(), _ => EcM(v).ec)
  }

  /** The data symbols of block `k` of a code stream. */
  function ReadBlock(v: nat, stream: seq<bv8>, k: nat): seq<bv8>
    requires v < VERSIONS && k < EcM(v).Blocks()
  {
    Deinterleaved(stream, 0, EcM(v).Lengths(), k)
  }

  /** The check symbols of block `k` of a code stream. */
  function ReadChecks(v: nat, stream: seq<bv8>, k: nat): seq<bv8>
    requires v < VERSIONS && k < EcM(v).Blocks()
  {
    TableRow(v);
    Deinterleaved(stream, EcM(v).DataCw(), CheckLengths(v), k)
  }

  function ReadBlocks(v: nat, stream: seq<bv8>): (r: seq<seq<bv8>>)
    requires v < VERSIONS
    ensures |r| == EcM(v).Blocks() && forall k :: 0 <= k < |r| ==> r[k] == ReadBlock(v, stream, k)
  {
    seq(EcM(v).Blocks(), k requires 0 <= k < EcM(v).Blocks() => ReadBlock(v, stream, k))
  }

  function ReadData(v: nat, stream: seq<bv8>): seq<bv8>
    requires v < VERSIONS
  {
    Flatten(ReadBlocks(v, stream))
  }

  /** De-interleave, drop the check symbols, and read mode, count and bytes. */
  function ReadBytes(v: nat, stream: seq<bv8>): Option<seq<bv8>>
    requires v < VERSIONS
  {
    ParseData(v, ReadData(v, stream))
  }

  ghost predicate AllBlocksValid(v: nat, stream: seq<bv8>)
    requires v < VERSIONS
  {
    forall k :: 0 <= k < EcM(v).Blocks() ==> IsCodeword(ReadBlock(v, stream, k) + ReadChecks(v, stream, k), EcM(v).ec)
  }

  /** Block `k` of a code stream with its check symbols. */
  function FullBlock(v: nat, stream: seq<bv8>, k: nat): seq<bv8>
    requires v < VERSIONS && k < EcM(v).Blocks()
  {
    ReadBlock(v, stream, k) + ReadChecks(v, stream, k)
  }

  /** No more damage than half the check symbols in each block. */
  ghost predicate Correctable(v: nat, sent: seq<bv8>, received: seq<bv8>)
    requires v < VERSIONS
  {
    forall k :: 0 <= k < EcM(v).Blocks() ==> 2 * Distance(FullBlock(v, sent, k), FullBlock(v, received, k)) <= EcM(v).ec
  }

  /** A damaged stream determines the text: two valid streams that explain it carry the same bytes. */
  lemma DamageTolerated(v: nat, a: seq<bv8>, b: seq<bv8>, received: seq<bv8>)
    requires v < VERSIONS && AllBlocksValid(v, a) && AllBlocksValid(v, b)
    requires Correctable(v, a, received) && Correctable(v, b, received)
    ensures ReadBytes(v, a) == ReadBytes(v, b)
  {
    hide EcM, ReadBlock, ReadChecks, IsCodeword, Distance;
    TableRow(v);
    var n := EcM(v).Blocks();
    forall k | 0 <= k < n ensures ReadBlock(v, a, k) == ReadBlock(v, b, k) {
      BlockLengths(v, a, k);
      BlockLengths(v, b, k);
      BlockLengths(v, received, k);
      UniqueCorrection(FullBlock(v, a, k), FullBlock(v, b, k), FullBlock(v, received, k), EcM(v).ec);
      assert ReadBlock(v, a, k) == FullBlock(v, a, k)[..|ReadBlock(v, a, k)|];
      assert ReadBlock(v, b, k) == FullBlock(v, b, k)[..|ReadBlock(v, b, k)|];
    }
    assert ReadBlocks(v, a) == ReadBlocks(v, b);
  }

  lemma BlockLengths(v: nat, stream: seq<bv8>, k: nat)
    requires v < VERSIONS && k < EcM(v).Blocks()
    ensures |ReadBlock(v, stream, k)| == EcM(v).Lengths()[k] <= 51
    ensures |ReadChecks(v, stream, k)| == EcM(v).ec <= 30
  {
    hide EcM, Deinterleaved;
    TableRow(v);
  }

  /** Cut `count` blocks of `len` data symbols from `off` on, and compute their check symbols. */
  /** The length of `count` blocks. */
  function Span(count: nat, len: nat): nat {
    count * len
  }

  lemma SpanIs(count: nat, len: nat)
    ensures Span(count, len) == count * len && Span(0, len) == 0
  {
  }

  lemma BlockFits(i: nat, count: nat, len: nat)
    requires i < count
    ensures Span(i + 1, len) == Span(i, len) + len <= Span(count, len)
  {
    MulMono(i + 1, count, len);
    MulAdd(i, 1, len);
  }

  lemma SliceGrows<T>(s: seq<T>, a: nat, b: nat, c: nat)
    requires a <= b <= c <= |s|
    ensures s[a..b] + s[b..c] == s[a..c]
  {
  }

  method EncodeGroup(t: Tables, data: seq<bv8>, off: nat, count: nat, len: nat, ec: nat)
    returns (blocks: seq<seq<bv8>>, ecs: seq<seq<bv8>>, next: nat)
    requires t.Valid() && 0 < ec && off + count * len <= |data|
    ensures next == off + count * len
    ensures |blocks| == |ecs| == count
    ensures forall k :: 0 <= k < count ==> |blocks[k]| == len && |ecs[k]| == ec && IsCodeword(blocks[k] + ecs[k], ec)
    ensures Flatten(blocks) == data[off..next]
  {
    hide *;
    blocks, ecs, next := [], [], off;
    FlattenNone();
    SpanIs(count, len);
    for i := 0 to count
      invariant next == off + Span(i, len)
      invariant |blocks| == |ecs| == i
      invariant forall k :: 0 <= k < i ==> |blocks[k]| == len && |ecs[k]| == ec && IsCodeword(blocks[k] + ecs[k], ec)
      invariant next <= |data| && Flatten(blocks) == data[off..next]
    {
      BlockFits(i, count, len);
      var blk := data[next..next + len];
      var e := RsEncode(t, blk, ec);
      ghost var before := blocks;
      blocks := blocks + [blk];
      ecs := ecs + [e];
      FlattenAppend(before, blk);
      SliceGrows(data, off, next, next + len);
      next := next + len;
    }
  }

  /** Row by row, skipping the blocks that are too short. */
  method Interleave<T>(stream: seq<T>, blocks: seq<seq<T>>, n: nat) returns (r: seq<T>)
    ensures r == stream + Rows(blocks, n)
  {
    hide Row, Rows;
    r := stream;
    RowsEmpty(blocks);
    for i := 0 to n
      invariant r == stream + Rows(blocks, i)
    {
      ghost var before := r;
      RowEmpty(blocks, i);
      for k := 0 to |blocks|
        invariant r == before + Row(blocks[..k], i)
      {
        RowNext(blocks, i, k);
        if i < |blocks[k]| {
          r := r + [blocks[k][i]];
        }
      }
      assert blocks[..|blocks|] == blocks;
      RowsNext(blocks, i);
    }
  }

  lemma RowsEmpty<T>(blocks: seq<seq<T>>)
    ensures Rows(blocks, 0) == []
  {
  }

  lemma RowsNext<T>(blocks: seq<seq<T>>, i: nat)
    ensures Rows(blocks, i + 1) == Rows(blocks, i) + Row(blocks, i)
  {
  }

  lemma RowEmpty<T>(blocks: seq<seq<T>>, i: nat)
    ensures Row(blocks[..0], i) == []
  {
  }

  lemma RowNext<T>(blocks: seq<seq<T>>, i: nat, k: nat)
    requires k < |blocks|
    ensures Row(blocks[..k + 1], i) == Row(blocks[..k], i) + if i < |blocks[k]| then [blocks[k][i]] else []
  {
    assert blocks[..k + 1][..k] == blocks[..k];
  }

  lemma {:induction false} MinSum(lens: seq<nat>, n: nat)
    ensures Offset(lens, n) == SumMin(lens, n)
    decreases n
  {
    if n > 0 {
      MinSum(lens, n - 1);
      SumMinStep(lens, n - 1);
    } else {
      SumMinZero(lens);
    }
  }

  /** The sum of min(length, n) over the blocks. */
  function SumMin(lens: seq<nat>, n: nat): nat
    decreases lens
  {
    if lens == [] then 0
    else SumMin(lens[..|lens| - 1], n) + (if lens[|lens| - 1] < n then lens[|lens| - 1] else n)
  }

  lemma {:induction false} SumMinZero(lens: seq<nat>)
    ensures SumMin(lens, 0) == 0
    decreases lens
  {
    if lens != [] {
      SumMinZero(lens[..|lens| - 1]);
    }
  }

  lemma {:induction false} SumMinStep(lens: seq<nat>, n: nat)
    ensures SumMin(lens, n + 1) == SumMin(lens, n) + Rank(lens, |lens|, n)
    decreases lens
  {
    if lens != [] {
      var m := |lens| - 1;
      SumMinStep(lens[..m], n);
      RankOfPrefix(lens, m, n);
    }
  }

  lemma {:induction false} RankOfPrefix(lens: seq<nat>, k: nat, i: nat)
    requires k <= |lens|
    ensures Rank(lens[..k], k, i) == Rank(lens, k, i)
    decreases k
  {
    if k > 0 {
      RankOfPrefix(lens, k - 1, i);
      RankOfPrefix(lens[..k], k - 1, i);
      assert lens[..k][..k - 1] == lens[..k - 1];
    }
  }

  lemma {:induction false} FlattenLength<T>(blocks: seq<seq<T>>, lens: seq<nat>, n: nat)
    requires Measures(lens, blocks) && |lens| == |blocks|
    requires forall k :: 0 <= k < |lens| ==> lens[k] <= n
    ensures SumMin(lens, n) == |Flatten(blocks)|
    decreases |blocks|
  {
    if blocks != [] {
      var m := |blocks| - 1;
      FlattenLength(blocks[..m], lens[..m], n);
    }
  }

  /** Interleaving every block in full keeps the number of symbols. */
  lemma RowsKeepAll<T>(lens: seq<nat>, blocks: seq<seq<T>>, n: nat)
    requires Measures(lens, blocks) && |lens| == |blocks|
    requires forall k :: 0 <= k < |lens| ==> lens[k] <= n
    ensures |Rows(blocks, n)| == |Flatten(blocks)|
  {
    RowsLength(lens, blocks, n);
    MinSum(lens, n);
    FlattenLength(blocks, lens, n);
  }

  /** A stream made of interleaved data blocks and interleaved check blocks is read back block by block. */
  lemma StreamReadsBack(v: nat, blocks: seq<seq<bv8>>, ecs: seq<seq<bv8>>)
    requires v < VERSIONS
    requires |blocks| == |ecs| == EcM(v).Blocks()
    requires forall k :: 0 <= k < |blocks| ==> |blocks[k]| == EcM(v).Lengths()[k] && |ecs[k]| == EcM(v).ec
    requires |Flatten(blocks)| == EcM(v).DataCw()
    ensures var stream := Rows(blocks, EcM(v).MaxLength()) + Rows(ecs, EcM(v).ec);
      && |stream| == EcM(v).total
      && ReadData(v, stream) == Flatten(blocks)
      && forall k :: 0 <= k < |blocks| ==> ReadBlock(v, stream, k) == blocks[k] && ReadChecks(v, stream, k) == ecs[k]
  {
    hide EcM, Rows, Flatten, Deinterleaved;
    TableRow(v);
    var s := EcM(v);
    var lens, checks := s.Lengths(), CheckLengths(v);
    var a, b := Rows(blocks, s.MaxLength()), Rows(ecs, s.ec);
    var stream := a + b;
    RowsKeepAll(lens, blocks, s.MaxLength());
    assert |a| == s.DataCw();
    forall k | 0 <= k < |blocks| ensures ReadBlock(v, stream, k) == blocks[k] && ReadChecks(v, stream, k) == ecs[k] {
      BlockReadsBack(v, blocks, ecs, k);
    }
    hide ReadBlock, ReadChecks;
    assert ReadBlocks(v, stream) == blocks;
    RowsKeepAll(checks, ecs, s.ec);
    EvenFlatten(ecs, s.ec);
  }

  lemma BlockReadsBack(v: nat, blocks: seq<seq<bv8>>, ecs: seq<seq<bv8>>, k: nat)
    requires v < VERSIONS && k < |blocks|
    requires |blocks| == |ecs| == EcM(v).Blocks()
    requires forall k :: 0 <= k < |blocks| ==> |blocks[k]| == EcM(v).Lengths()[k] && |ecs[k]| == EcM(v).ec
    requires |Rows(blocks, EcM(v).MaxLength())| == EcM(v).DataCw()
    ensures var stream := Rows(blocks, EcM(v).MaxLength()) + Rows(ecs, EcM(v).ec);
      ReadBlock(v, stream, k) == blocks[k] && ReadChecks(v, stream, k) == ecs[k]
  {
    hide EcM, Rows, Deinterleaved;
    TableRow(v);
    var s := EcM(v);
    var a, b := Rows(blocks, s.MaxLength()), Rows(ecs, s.ec);
    DeinterleavedRows(s.Lengths(), blocks, s.MaxLength(), [], b, k);
    assert [] + a + b == a + b;
    DeinterleavedRows(CheckLengths(v), ecs, s.ec, a, [], k);
    assert a + b + [] == a + b;
  }

  lemma {:induction false} EvenFlatten<T>(blocks: seq<seq<T>>, n: nat)
    requires forall k :: 0 <= k < |blocks| ==> |blocks[k]| == n
    ensures |Flatten(blocks)| == |blocks| * n
    decreases |blocks|
  {
    if blocks != [] {
      var m := |blocks| - 1;
      EvenFlatten(blocks[..m], n);
      MulAdd(m, 1, n);
    }
  }

  /** Codewords in final order, for the smallest version that holds the bytes. */
  method BuildCodewords(t: Tables, bytes: seq<bv8>) returns (r: Codewords)
    requires t.Valid()
    ensures r.TooLong? <==> |bytes| > QR_MAX_BYTES
    ensures r.TooLong? ==> r.length == |bytes|
    ensures r.Codewords? ==> r.version < VERSIONS && Fits(r.version, |bytes|)
    ensures r.Codewords? ==> forall u :: 0 <= u < r.version ==> !Fits(u, |bytes|)
    ensures r.Codewords? ==> |r.stream| == EcM(r.version).total
    ensures r.Codewords? ==> HoldsBytes(r.version, bytes, ReadData(r.version, r.stream))
    ensures r.Codewords? ==> AllBlocksValid(r.version, r.stream)
    ensures r.Codewords? ==> ReadBytes(r.version, r.stream) == Some(bytes)
  {
    hide EcM, Fits;
    FitsSome(|bytes|);
    var version := 0;
    while version < VERSIONS && !Fits(version, |bytes|)
      invariant 0 <= version <= VERSIONS
      invariant forall u :: 0 <= u < version ==> !Fits(u, |bytes|)
    {
      version := version + 1;
    }
    if version == VERSIONS {
      return TooLong(|bytes|);
    }
    TableRow(version);
    var stream := BuildStream(t, version, bytes);
    ParseHolds(version, bytes, ReadData(version, stream));
    r := Codewords(version, stream);
  }

  /** The blocks of one group, with their check symbols. */
  ghost predicate Group(blocks: seq<seq<bv8>>, ecs: seq<seq<bv8>>, count: nat, len: nat, ec: nat) {
    && |blocks| == |ecs| == count
    && forall k :: 0 <= k < count ==> |blocks[k]| == len && |ecs[k]| == ec && IsCodeword(blocks[k] + ecs[k], ec)
  }

  lemma GroupsJoin(b1: seq<seq<bv8>>, e1: seq<seq<bv8>>, b2: seq<seq<bv8>>, e2: seq<seq<bv8>>, s: EcSpec)
    requires Group(b1, e1, s.b1, s.d1, s.ec) && Group(b2, e2, s.b2, s.d2, s.ec)
    ensures var blocks, ecs := b1 + b2, e1 + e2;
      && |blocks| == |ecs| == s.Blocks()
      && forall k :: 0 <= k < |blocks| ==>
        |blocks[k]| == s.Lengths()[k] && |ecs[k]| == s.ec && IsCodeword(blocks[k] + ecs[k], s.ec)
  {
    hide IsCodeword;
  }

  lemma SplitInTwo<T>(s: seq<T>, i: nat)
    requires i <= |s|
    ensures s[0..i] + s[i..|s|] == s
  {
  }

  /** The blocks of both groups, with their check symbols. */
  method EncodeBlocks(t: Tables, v: nat, data: seq<bv8>) returns (blocks: seq<seq<bv8>>, ecs: seq<seq<bv8>>)
    requires t.Valid() && v < VERSIONS && |data| == EcM(v).DataCw()
    ensures |blocks| == |ecs| == EcM(v).Blocks()
    ensures forall k :: 0 <= k < |blocks| ==> |blocks[k]| == EcM(v).Lengths()[k] && |ecs[k]| == EcM(v).ec
    ensures forall k :: 0 <= k < |blocks| ==> IsCodeword(blocks[k] + ecs[k], EcM(v).ec)
    ensures Flatten(blocks) == data
  {
    hide EcM, Flatten, IsCodeword, EcSpec.Lengths, EcSpec.Blocks;
    TableRow(v);
    var s := EcM(v);
    var blocks1, ecs1, off := EncodeGroup(t, data, 0, s.b1, s.d1, s.ec);
    var blocks2, ecs2, end := EncodeGroup(t, data, off, s.b2, s.d2, s.ec);
    blocks, ecs := blocks1 + blocks2, ecs1 + ecs2;
    GroupsJoin(blocks1, ecs1, blocks2, ecs2, s);
    FlattenConcat(blocks1, blocks2);
    SplitInTwo(data, off);
  }

  method BuildStream(t: Tables, v: nat, bytes: seq<bv8>) returns (stream: seq<bv8>)
    requires t.Valid() && v < VERSIONS && Fits(v, |bytes|)
    ensures |stream| == EcM(v).total
    ensures HoldsBytes(v, bytes, ReadData(v, stream))
    ensures AllBlocksValid(v, stream)
  {
    hide EcM, Fits, HoldsBytes, Flatten, Rows, Deinterleaved, IsCodeword, EcSpec.Lengths, EcSpec.DataCw,
      EcSpec.Blocks, ReadData, ReadBlock, ReadChecks;
    TableRow(v);
    var data := BuildData(v, bytes);
    HoldsLength(v, bytes, data);
    var blocks, ecs := EncodeBlocks(t, v, data);
    stream := Interleave([], blocks, EcM(v).MaxLength());
    stream := Interleave(stream, ecs, EcM(v).ec);
    StreamReadsBack(v, blocks, ecs);
    assert stream == Rows(blocks, EcM(v).MaxLength()) + Rows(ecs, EcM(v).ec);
  }

  lemma HoldsLength(v: nat, bytes: seq<bv8>, data: seq<bv8>)
    requires v < VERSIONS && Fits(v, |bytes|) && HoldsBytes(v, bytes, data)
    ensures |data| == EcM(v).DataCw()
  {
  }
}
