/** The table generator `tools/makecrc.c` and the table-driven loop `src/volumes/crc32/crc32.c`,
    refined to the bit-serial shift register of clause 3.2.9 of IEEE 802.3.
    A word is the sequence of its bits, least significant first, which is also transmission order. */
module Crc32 {
  import opened Checks
  import opened Folds

  type Word = w: seq<bool> | |w| == 32 witness Zeros(32)
  type Byte = b: seq<bool> | |b| == 8 witness Zeros(8)

  /** Exponents of the generator polynomial, apart from x^32. */
  const TERMS: seq<nat> := [0, 1, 2, 4, 5, 7, 8, 10, 11, 12, 16, 22, 23, 26]

  /** The polynomial with its lowest power in the most significant bit. */
  function Pattern(): Word {
    seq(32, i => i in {5, 8, 9, 15, 19, 20, 21, 23, 24, 26, 27, 29, 30, 31})
  }

  function Zeros(n: nat): (z: seq<bool>)
    ensures |z| == n
  {
    seq(n, _ => false)
  }

  const ZERO: Word := Zeros(32)

  // ----- operations on words -----

  function Xor(x: Word, y: Word): Word {
    seq(32, i requires 0 <= i < 32 => x[i] != y[i])
  }

  function Complement(x: Word): Word {
    seq(32, i requires 0 <= i < 32 => !x[i])
  }

  /** x >> k, for k below the width. */
  function ShiftRight(x: Word, k: nat): Word
    requires k <= 32
  {
    x[k..] + Zeros(k)
  }

  /** A byte as the low bits of a word. */
  function Widen(b: Byte): Word {
    b + Zeros(24)
  }

  /** The number a bit sequence denotes, least significant bit first. */
  function Value(bits: seq<bool>): nat {
    if bits == [] then 0 else Bit(bits[0]) + 2 * Value(bits[1..])
  }

  function Bit(b: bool): nat { if b then 1 else 0 }

  // ----- the shift register -----

  /** One multiplication by x, modulo the polynomial. */
  function Shift(c: Word): Word {
    if c[0] then Xor(ShiftRight(c, 1), Pattern()) else ShiftRight(c, 1)
  }

  /** The register after one incoming bit. */
  function FeedBit(c: Word, bit: bool): Word {
    Shift(c[0 := c[0] != bit])
  }

  /** All bits of a buffer, in transmission order. */
  function Stream(data: seq<Byte>): seq<bool> {
    if data == [] then [] else data[0] + Stream(data[1..])
  }

  /** CRC-32 bit by bit, with the register complemented before and after. */
  function Crc(crc: Word, data: seq<Byte>): Word {
    Complement(Run(FeedBit, Complement(crc), Stream(data)))
  }

  // ----- many bits at a time -----

  lemma {:induction false} StreamAppend(a: seq<Byte>, b: seq<Byte>)
    ensures Stream(a + b) == Stream(a) + Stream(b)
  {
    if a == [] {
      assert a + b == b;
    } else {
      assert (a + b)[1..] == a[1..] + b;
      StreamAppend(a[1..], b);
    }
  }

  lemma StepUnder(c: Word, w: Word)
    ensures Shift(Xor(c, w)) == Xor(FeedBit(c, w[0]), ShiftRight(w, 1))
  {
    var c' := c[0 := c[0] != w[0]];
    assert c'[0] == Xor(c, w)[0];
    assert ShiftRight(Xor(c, w), 1) == Xor(ShiftRight(c', 1), ShiftRight(w, 1));
    assert Xor(Xor(ShiftRight(c', 1), ShiftRight(w, 1)), Pattern())
        == Xor(Xor(ShiftRight(c', 1), Pattern()), ShiftRight(w, 1));
  }

  /** Bits may be added to the register ahead of time: the shifts bring each one to the low end when its turn comes. */
  lemma {:induction false} FeedIsShift(c: Word, w: Word, k: nat)
    requires k <= 32
    ensures Xor(Run(FeedBit, c, w[..k]), ShiftRight(w, k)) == Iterate(Shift, Xor(c, w), k)
    decreases k
  {
    if k == 0 {
      assert ShiftRight(w, 0) == w;
    } else {
      StepUnder(c, w);
      var w' := ShiftRight(w, 1);
      assert w'[..k - 1] == w[..k][1..];
      assert ShiftRight(w', k - 1) == ShiftRight(w, k);
      FeedIsShift(FeedBit(c, w[0]), w', k - 1);
    }
  }

  lemma XorZero(x: Word)
    ensures Xor(x, ZERO) == x && Xor(ZERO, x) == x
  {
    assert Xor(x, ZERO) == x;
    assert Xor(ZERO, x) == x;
  }

  /** A byte shifted into an empty register, the word's higher bits being left alone. */
  lemma ByteOfWord(x: Word, b: Byte)
    requires x[..8] == b
    ensures Iterate(Shift, x, 8) == Xor(Iterate(Shift, Widen(b), 8), ShiftRight(x, 8))
  {
    var fed := Run(FeedBit, ZERO, b);
    FeedIsShift(ZERO, x, 8);
    FeedIsShift(ZERO, Widen(b), 8);
    XorZero(x);
    XorZero(Widen(b));
    assert Widen(b)[..8] == b && ShiftRight(Widen(b), 8) == ZERO;
    XorZero(fed);
  }

  /** Feeding a byte is adding it to the register and shifting eight times. */
  lemma FeedByte(c: Word, b: Byte)
    ensures Run(FeedBit, c, b) == Iterate(Shift, Xor(c, Widen(b)), 8)
  {
    FeedIsShift(c, Widen(b), 8);
    assert Widen(b)[..8] == b && ShiftRight(Widen(b), 8) == ZERO;
    XorZero(Run(FeedBit, c, b));
  }

  // ----- the register complemented before and after -----

  function Ones(n: nat): (r: seq<bool>)
    ensures |r| == n
  {
    seq(n, _ => true)
  }

  const ONES: Word := Ones(32)

  /** A whole word fed is added to the register and shifted through it. */
  lemma FeedWord(c: Word, w: Word)
    ensures Run(FeedBit, c, w) == Iterate(Shift, Xor(c, w), 32)
  {
    FeedIsShift(c, w, 32);
    assert w[..32] == w && ShiftRight(w, 32) == ZERO;
    XorZero(Run(FeedBit, c, w));
  }

  /** The CRC of the octets FF FF FF FF is 0xFFFFFFFF: they empty the register, which starts with all ones. */
  lemma CrcOfOnes()
    ensures Crc(ZERO, [Ones(8), Ones(8), Ones(8), Ones(8)]) == ONES
  {
    var b: Byte := Ones(8);
    StreamOfFour(b, b, b, b);
    assert b + b + b + b == ONES && Complement(ZERO) == ONES;
    FeedWord(ONES, ONES);
    assert Xor(ONES, ONES) == ZERO && Shift(ZERO) == ZERO;
    IterateFixed(Shift, ZERO, 32);
  }

  lemma StreamOfFour(a: Byte, b: Byte, c: Byte, d: Byte)
    ensures Stream([a, b, c, d]) == a + b + c + d
  {
    assert [a, b, c, d][1..] == [b, c, d] && [b, c, d][1..] == [c, d] && [c, d][1..] == [d];
    assert Stream([d]) == d && Stream([c, d]) == c + d && Stream([b, c, d]) == b + c + d;
  }

  /** The bytes of a word, low byte first. */
  function BytesOf(w: Word): seq<Byte> { [w[..8], w[8..16], w[16..24], w[24..]] }

  lemma BytesStream(w: Word)
    ensures Stream(BytesOf(w)) == w
  {
    StreamOfFour(w[..8], w[8..16], w[16..24], w[24..]);
  }

  /** A buffer followed by its own CRC, low byte first, has the same CRC whatever the buffer. */
  lemma Residue(data: seq<Byte>)
    ensures Crc(ZERO, data + BytesOf(Crc(ZERO, data))) == Complement(Iterate(Shift, ONES, 32))
  {
    var c, start := Crc(ZERO, data), Complement(ZERO);
    var r := Run(FeedBit, start, Stream(data));
    StreamAppend(data, BytesOf(c));
    BytesStream(c);
    RunAppend(FeedBit, start, Stream(data), c);
    FeedWord(r, c);
    assert Xor(r, Complement(r)) == ONES;
  }

  // ----- the generated table -----

  /** The table the generator prints: the entry of a byte is the register after eight shifts of that byte. */
  ghost predicate IsCrcTable(table: seq<Word>) {
    |table| == 256 && forall b: Byte :: Value(b) < 256 && table[Value(b)] == Iterate(Shift, Widen(b), 8)
  }

  /** The bits of a number below 2^n. */
  function BitsOf(v: nat, n: nat): (bits: seq<bool>)
    ensures |bits| == n
  {
    if n == 0 then [] else [v % 2 == 1] + BitsOf(v / 2, n - 1)
  }

  lemma {:induction false} BitsOfValue(bits: seq<bool>)
    ensures BitsOf(Value(bits), |bits|) == bits
  {
    if bits != [] {
      BitsOfValue(bits[1..]);
      assert Value(bits) / 2 == Value(bits[1..]);
    }
  }

  function Power2(n: nat): nat {
    if n == 0 then 1 else 2 * Power2(n - 1)
  }

  lemma {:induction false} ValueBound(bits: seq<bool>)
    ensures Value(bits) < Power2(|bits|)
  {
    if bits != [] {
      ValueBound(bits[1..]);
    }
  }

  lemma ByteBound(b: Byte)
    ensures Value(b) < 256
  {
    ValueBound(b);
    assert Power2(8) == 4 * Power2(6) == 16 * Power2(4) == 64 * Power2(2) == 256;
  }

  lemma ZeroEntry()
    ensures Iterate(Shift, Widen(BitsOf(0, 8)), 8) == ZERO
  {
    ZeroBits(8);
    assert Widen(BitsOf(0, 8)) == ZERO;
    assert Shift(ZERO) == ZERO;
    IterateFixed(Shift, ZERO, 8);
  }

  lemma {:induction false} ZeroBits(n: nat)
    ensures BitsOf(0, n) == Zeros(n)
  {
    if n > 0 {
      ZeroBits(n - 1);
    }
  }

  /** The generator's first loop: the exclusive-or pattern from the polynomial's terms. */
  method AssemblePattern() returns (e: Word)
    ensures e == Pattern()
  {
    e := ZERO;
    var n := 0;
    while n < |TERMS|
      invariant 0 <= n <= |TERMS|
      invariant forall i :: 0 <= i < 32 ==> (e[i] <==> exists m :: 0 <= m < n && i == 31 - TERMS[m])
    {
      e := e[31 - TERMS[n] := true];
      n := n + 1;
    }
    forall i | 0 <= i < 32 ensures e[i] == Pattern()[i] {
      PatternTerms(i);
    }
    assert e == Pattern();
  }

  lemma PatternTerms(i: nat)
    requires i < 32
    ensures Pattern()[i] <==> exists m :: 0 <= m < |TERMS| && i == 31 - TERMS[m]
  {
    if Pattern()[i] {
      var m := match i
        case 31 => 0 case 30 => 1 case 29 => 2 case 27 => 3 case 26 => 4 case 24 => 5 case 23 => 6
        case 21 => 7 case 20 => 8 case 19 => 9 case 15 => 10 case 9 => 11 case 8 => 12 case _ => 13;
      assert i == 31 - TERMS[m];
    }
  }

  /** The generator's inner loop. */
  method ShiftEight(start: Word, e: Word) returns (c: Word)
    requires e == Pattern()
    ensures c == Iterate(Shift, start, 8)
  {
    c := start;
    var k := 8;
    while k != 0
      invariant 0 <= k <= 8
      invariant Iterate(Shift, c, k) == Iterate(Shift, start, 8)
    {
      c := if c[0] then Xor(ShiftRight(c, 1), e) else ShiftRight(c, 1);
      k := k - 1;
    }
  }

  /** The register after eight shifts of a byte value. */
  function TableEntry(n: nat): Word { Iterate(Shift, Widen(BitsOf(n, 8)), 8) }

  /** The first n entries are right. */
  ghost function EntriesCheck(table: seq<Word>, n: nat): Check
    requires n <= |table|
  {
    if forall j: nat :: j < n ==> table[j] == TableEntry(j) then Holds else Fails
  }

  lemma OneEntryMore(table: seq<Word>, n: nat)
    requires n < |table| && EntriesCheck(table, n) == Holds
    ensures EntriesCheck(table[n := TableEntry(n)], n + 1) == Holds
  {}

  lemma EntriesMakeTable(table: seq<Word>)
    requires |table| == 256 && EntriesCheck(table, 256) == Holds
    ensures IsCrcTable(table)
  {
    forall b: Byte ensures Value(b) < 256 && table[Value(b)] == Iterate(Shift, Widen(b), 8) {
      ByteBound(b);
      BitsOfValue(b);
    }
  }

  /** The generator's second loop: every byte value is shifted eight times, entry 0 being printed as a constant. */
  method MakeTable() returns (table: array<Word>)
    ensures fresh(table) && IsCrcTable(table[..])
  {
    var e := AssemblePattern();
    table := new Word[256](_ => ZERO);
    ZeroEntry();
    assert table[0] == TableEntry(0);
    var i := 1;
    while i < 256
      invariant 1 <= i <= 256 && EntriesCheck(table[..], i) == Holds
    {
      OneEntryMore(table[..], i);
      table[i] := ShiftEight(Widen(BitsOf(i, 8)), e);
      i := i + 1;
    }
    EntriesMakeTable(table[..]);
  }

  function Nibble(w: Word, k: nat): nat
    requires k <= 28
  {
    Bit(w[k]) + 2 * Bit(w[k + 1]) + 4 * Bit(w[k + 2]) + 8 * Bit(w[k + 3])
  }

  lemma ValueNibble(w: Word, k: nat)
    requires k <= 28
    ensures Value(w[k..]) == Nibble(w, k) + 16 * Value(w[k + 4..])
  {
    assert w[k..][1..] == w[k + 1..] && w[k + 1..][1..] == w[k + 2..];
    assert w[k + 2..][1..] == w[k + 3..] && w[k + 3..][1..] == w[k + 4..];
    assert Value(w[k + 2..]) == Bit(w[k + 2]) + 2 * Value(w[k + 3..]);
  }

  lemma ValueNibbles(w: Word)
    ensures Value(w) == Nibble(w, 0) + 0x10 * Nibble(w, 4) + 0x100 * Nibble(w, 8) + 0x1000 * Nibble(w, 12)
                        + 0x1_0000 * Nibble(w, 16) + 0x10_0000 * Nibble(w, 20)
                        + 0x100_0000 * Nibble(w, 24) + 0x1000_0000 * Nibble(w, 28)
  {
    assert w[0..] == w;
    ValueNibble(w, 0);
    ValueNibble(w, 4);
    ValueNibble(w, 8);
    ValueNibble(w, 12);
    ValueNibble(w, 16);
    ValueNibble(w, 20);
    ValueNibble(w, 24);
    ValueNibble(w, 28);
  }

  /** The assembled pattern is the usual constant. */
  lemma PatternValue(w: Word)
    requires w == Pattern()
    ensures Value(w) == 0xedb8_8320
  {
    ValueNibbles(w);
    PatternNibbles(w);
  }

  lemma PatternNibbles(w: Word)
    requires w == Pattern()
    ensures Nibble(w, 0) == 0x0 && Nibble(w, 4) == 0x2 && Nibble(w, 8) == 0x3 && Nibble(w, 12) == 0x8
    ensures Nibble(w, 16) == 0x8 && Nibble(w, 20) == 0xb && Nibble(w, 24) == 0xd && Nibble(w, 28) == 0xe
  {
  }

  // ----- the table loop -----

  /** One iteration of the table loop is one byte of the register. */
  lemma TableStep(table: seq<Word>, c: Word, b: Byte)
    requires IsCrcTable(table)
    ensures var low := Xor(c, Widen(b))[..8];
            Value(low) < 256 && Xor(table[Value(low)], ShiftRight(c, 8)) == Run(FeedBit, c, b)
  {
    var x := Xor(c, Widen(b));
    FeedByte(c, b);
    ByteOfWord(x, x[..8]);
    assert ShiftRight(x, 8) == ShiftRight(c, 8);
  }

  method Crc32(table: seq<Word>, crc: Word, buf: seq<Byte>) returns (r: Word)
    requires IsCrcTable(table)
    ensures r == Crc(crc, buf)
  {
    var c := Complement(crc);
    var p := 0;
    while p < |buf|
      invariant 0 <= p <= |buf|
      invariant Run(FeedBit, c, Stream(buf[p..])) == Run(FeedBit, Complement(crc), Stream(buf))
    {
      TableStep(table, c, buf[p]);
      assert buf[p..][1..] == buf[p + 1..];
      RunAppend(FeedBit, c, buf[p], Stream(buf[p + 1..]));
      c := Xor(table[Value(Xor(c, Widen(buf[p]))[..8])], ShiftRight(c, 8));
      p := p + 1;
    }
    r := Complement(c);
  }

  // ----- what the check value promises -----

  lemma ComplementTwice(x: Word)
    ensures Complement(Complement(x)) == x
  {}

  /** A buffer may be checked in pieces. */
  lemma CrcAppend(crc: Word, a: seq<Byte>, b: seq<Byte>)
    ensures Crc(Crc(crc, a), b) == Crc(crc, a + b)
  {
    StreamAppend(a, b);
    RunAppend(FeedBit, Complement(crc), Stream(a), Stream(b));
    ComplementTwice(Run(FeedBit, Complement(crc), Stream(a)));
  }

  lemma XorTwice(x: Word, y: Word)
    ensures Xor(Xor(x, y), y) == x
  {}

  /** The polynomial has a constant term, so the top bit tells which way the shift went. */
  lemma ShiftInjective(x: Word, y: Word)
    requires Shift(x) == Shift(y)
    ensures x == y
  {
    assert Pattern()[31] by { assert TERMS[0] == 0; }
    assert Shift(x)[31] == x[0] && Shift(y)[31] == y[0];
    XorTwice(ShiftRight(x, 1), Pattern());
    XorTwice(ShiftRight(y, 1), Pattern());
    assert x == [x[0]] + ShiftRight(x, 1)[..31];
    assert y == [y[0]] + ShiftRight(y, 1)[..31];
  }

  lemma FeedBitInjective(x: Word, y: Word, bit: bool)
    requires FeedBit(x, bit) == FeedBit(y, bit)
    ensures x == y
  {
    var x', y' := x[0 := x[0] != bit], y[0 := y[0] != bit];
    ShiftInjective(x', y');
    assert x == x'[0 := x'[0] != bit] && y == y'[0 := y'[0] != bit];
  }

  /** At most 32 bits fed to the same register can be told apart from the result. */
  lemma BurstInjective(c: Word, x: seq<bool>, y: seq<bool>)
    requires |x| == |y| <= 32
    requires Run(FeedBit, c, x) == Run(FeedBit, c, y)
    ensures x == y
  {
    var k := |x|;
    var wx: Word := x + Zeros(32 - k);
    var wy: Word := y + Zeros(32 - k);
    FeedIsShift(c, wx, k);
    FeedIsShift(c, wy, k);
    assert wx[..k] == x && wy[..k] == y;
    assert ShiftRight(wx, k) == ZERO && ShiftRight(wy, k) == ZERO;
    forall p: Word, q: Word | Shift(p) == Shift(q) ensures p == q {
      ShiftInjective(p, q);
    }
    IterateInjective(Shift, Xor(c, wx), Xor(c, wy), k);
    XorCancel(c, wx, wy);
  }

  lemma XorCancel(c: Word, x: Word, y: Word)
    requires Xor(c, x) == Xor(c, y)
    ensures x == y
  {
    forall i | 0 <= i < 32 ensures x[i] == y[i] {
      assert Xor(c, x)[i] == Xor(c, y)[i];
    }
  }

  /** Any burst of at most 32 bits, anywhere in the bit stream, changes the register. */
  lemma BurstChangesRegister(c: Word, x: seq<bool>, y: seq<bool>, after: seq<bool>)
    requires |x| == |y| <= 32 && x != y
    ensures Run(FeedBit, c, x + after) != Run(FeedBit, c, y + after)
  {
    RunAppend(FeedBit, c, x, after);
    RunAppend(FeedBit, c, y, after);
    if Run(FeedBit, c, x + after) == Run(FeedBit, c, y + after) {
      forall p: Word, q: Word, i | FeedBit(p, i) == FeedBit(q, i) ensures p == q {
        FeedBitInjective(p, q, i);
      }
      RunInjective(FeedBit, Run(FeedBit, c, x), Run(FeedBit, c, y), after);
      BurstInjective(c, x, y);
    }
  }

  lemma {:induction false} StreamLength(data: seq<Byte>)
    ensures |Stream(data)| == 8 * |data|
  {
    if data != [] {
      StreamLength(data[1..]);
    }
  }

  lemma {:induction false} StreamInjective(x: seq<Byte>, y: seq<Byte>)
    requires |x| == |y| && Stream(x) == Stream(y)
    ensures x == y
  {
    if x != [] {
      assert Stream(x)[..8] == x[0] && Stream(y)[..8] == y[0];
      assert Stream(x)[8..] == Stream(x[1..]) && Stream(y)[8..] == Stream(y[1..]);
      StreamInjective(x[1..], y[1..]);
      assert x == [x[0]] + x[1..] && y == [y[0]] + y[1..];
    }
  }

  /** Two buffers of equal length that differ only inside four consecutive bytes have different CRCs. */
  lemma BurstDetected(crc: Word, before: seq<Byte>, x: seq<Byte>, y: seq<Byte>, after: seq<Byte>)
    requires |x| == |y| <= 4 && x != y
    ensures Crc(crc, before + x + after) != Crc(crc, before + y + after)
  {
    StreamLength(x);
    StreamLength(y);
    if Stream(x) == Stream(y) {
      StreamInjective(x, y);
    }
    var c := Run(FeedBit, Complement(crc), Stream(before));
    BurstChangesRegister(c, Stream(x), Stream(y), Stream(after));
    RegisterAfter(crc, before, x, after);
    RegisterAfter(crc, before, y, after);
  }

  lemma RegisterAfter(crc: Word, before: seq<Byte>, x: seq<Byte>, after: seq<Byte>)
    ensures Complement(Crc(crc, before + x + after))
         == Run(FeedBit, Run(FeedBit, Complement(crc), Stream(before)), Stream(x) + Stream(after))
  {
    assert before + x + after == before + (x + after);
    StreamAppend(before, x + after);
    StreamAppend(x, after);
    RunAppend(FeedBit, Complement(crc), Stream(before), Stream(x) + Stream(after));
    ComplementTwice(Run(FeedBit, Complement(crc), Stream(before + x + after)));
  }
}
