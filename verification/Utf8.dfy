/** UTF-8 octet sequences: the grammar of section 4 of RFC 3629, the arithmetic by which `src/hfs/Apple/utfconv.c` reads
    and writes one character, and the validator. */
module Utf8 {
  import opened MachineTypes

  const EINVAL := 22
  const ENAMETOOLONG := 63

  const SLASH: u16 := 0x2F

  /** U+2400 stands for NUL. */
  const ALT_NULL: u16 := 0x2400

  // ----- the grammar -----

  predicate Tail(b: u8) { 0x80 <= b <= 0xBF }

  /** UTF8-char: the four alternatives UTF8-1 to UTF8-4. */
  predicate CharOctets(c: seq<u8>) {
    match |c|
    case 1 => c[0] <= 0x7F
    case 2 => 0xC2 <= c[0] <= 0xDF && Tail(c[1])
    case 3 => && Tail(c[2])
              && (|| (c[0] == 0xE0 && 0xA0 <= c[1] <= 0xBF)
                  || (0xE1 <= c[0] <= 0xEC && Tail(c[1]))
                  || (c[0] == 0xED && 0x80 <= c[1] <= 0x9F)
                  || (0xEE <= c[0] <= 0xEF && Tail(c[1])))
    case 4 => && Tail(c[2]) && Tail(c[3])
              && (|| (c[0] == 0xF0 && 0x90 <= c[1] <= 0xBF)
                  || (0xF1 <= c[0] <= 0xF3 && Tail(c[1]))
                  || (c[0] == 0xF4 && 0x80 <= c[1] <= 0x8F))
    case _ => false
  }

  /** U+FFFE and U+FFFF. */
  predicate Noncharacter(c: seq<u8>) { c == [0xEF, 0xBF, 0xBE] || c == [0xEF, 0xBF, 0xBF] }

  /** The first k octets are a character the program accepts. */
  predicate Leads(s: seq<u8>, k: nat) {
    k <= |s| && CharOctets(s[..k]) && !Noncharacter(s[..k])
  }

  /** UTF8-octets, without U+FFFE and U+FFFF. */
  ghost predicate Text(s: seq<u8>) {
    s == [] || exists k: nat :: 0 < k && Leads(s, k) && Text(s[k..])
  }

  lemma LeadsUnique(s: seq<u8>, j: nat, k: nat)
    requires Leads(s, j) && Leads(s, k)
    ensures j == k
  {
    assert s[..j][0] == s[0] == s[..k][0];
  }

  lemma TextStep(s: seq<u8>, k: nat)
    requires Leads(s, k)
    ensures Text(s) <==> Text(s[k..])
  {
    if Text(s) {
      var j: nat :| 0 < j && Leads(s, j) && Text(s[j..]);
      LeadsUnique(s, j, k);
    }
  }

  /** The character number of section 3 of RFC 3629. */
  function Scalar(c: seq<u8>): nat
    requires CharOctets(c)
  {
    match |c|
    case 1 => c[0]
    case 2 => Join(c[0] - 0xC0, c[1])
    case 3 => Join(Join(c[0] - 0xE0, c[1]), c[2])
    case 4 => Join(Join(Join(c[0] - 0xF0, c[1]), c[2]), c[3])
  }

  /** Six more bits. */
  function Join(bits: nat, b: u8): nat
    requires Tail(b)
  {
    bits * 0x40 + (b - 0x80)
  }

  // ----- UTF-16, section 2 of RFC 2781 -----

  predicate High(c: u16) { 0xD800 <= c <= 0xDBFF }
  predicate Low(c: u16) { 0xDC00 <= c <= 0xDFFF }

  /** The number a surrogate pair stands for. */
  function PairScalar(hi: u16, lo: u16): (r: nat)
    requires High(hi) && Low(lo)
    ensures 0x10000 <= r <= 0x10FFFF
  {
    (hi - 0xD800) * 0x400 + (lo - 0xDC00) + 0x10000
  }

  // ----- reading a character -----

  /** What stands at the front of some octets: nothing acceptable, a code unit, or a surrogate pair. */
  datatype Scanned = Illegal | Unit(ch: u16) | Pair(hi: u16, lo: u16)

  /** utf_extrabytes */
  function ExtraBytes(b: u8): int {
    [ 0,  0,  0,  0,  0,  0,  0,  0,  0,  0,  0,  0,  0,  0,  0,  0,
     -1, -1, -1, -1, -1, -1, -1, -1,  1,  1,  1,  1,  2,  2,  3, -1][b / 8]
  }

  /** Subtraction on 32-bit unsigned numbers. */
  function Minus(a: nat, b: nat): u32 { (a - b) % 0x1_0000_0000 }

  function ScanTwo(b0: u8, b1: u8): Scanned
    requires 0xC0 <= b0 <= 0xDF
  {
    if b1 / 64 != 2 then Illegal
    else
      var ch := Minus(b0 * 64 + b1, 0x3080);
      if ch < 0x80 then Illegal else Unit(ch)
  }

  function ScanThree(b0: u8, b1: u8, b2: u8): Scanned
    requires 0xE0 <= b0 <= 0xEF
  {
    if b1 / 64 != 2 || b2 / 64 != 2 then Illegal
    else
      var ch := Minus((b0 * 64 + b1) * 64 + b2, 0xE2080);
      if ch < 0x800 then Illegal
      else if ch >= 0xD800 && (ch <= 0xDFFF || ch == 0xFFFE || ch == 0xFFFF) then Illegal
      else Unit(ch)
  }

  function ScanFour(b0: u8, b1: u8, b2: u8, b3: u8): Scanned {
    if b1 / 64 != 2 || b2 / 64 != 2 || b3 / 64 != 2 then Illegal
    else
      var ch := Minus(((b0 * 64 + b1) * 64 + b2) * 64 + b3, 0x03C82080 + 0x10000);
      var hi := ch / 0x400 + 0xD800;
      if hi < 0xD800 || hi > 0xDBFF then Illegal else Pair(hi, ch % 0x400 + 0xDC00)
  }

  /** The character at the front, as both the decoder and the validator read it. */
  function Scan(s: seq<u8>): Scanned
    requires s != []
  {
    var extra := ExtraBytes(s[0]);
    if s[0] < 0x80 then Unit(s[0])
    else if extra < 0 || |s| - 1 < extra then Illegal
    else match extra
      case 1 => ScanTwo(s[0], s[1])
      case 2 => ScanThree(s[0], s[1], s[2])
      case 3 => ScanFour(s[0], s[1], s[2], s[3])
      case _ => Illegal
  }

  /** How many octets a character beginning with b takes. */
  function Size(b: u8): (n: nat)
    ensures 1 <= n <= 4
  {
    if ExtraBytes(b) < 0 then 1 else 1 + ExtraBytes(b)
  }

  lemma TailTest(b: u8)
    ensures b / 64 == 2 <==> Tail(b)
  {}

  lemma MinusValue(a: nat, b: nat)
    requires a < 0x1_0000_0000 && b < 0x1_0000_0000
    ensures Minus(a, b) == if a >= b then a - b else a - b + 0x1_0000_0000
  {}

  lemma ScanTwoIsGrammar(c: seq<u8>)
    requires |c| == 2 && 0xC0 <= c[0] <= 0xDF
    ensures !ScanTwo(c[0], c[1]).Illegal? <==> CharOctets(c)
    ensures CharOctets(c) ==> match ScanTwo(c[0], c[1]) case Unit(ch) => ch == Scalar(c) case _ => false
  {
    TailTest(c[1]);
    MinusValue((c[0] as int) * 64 + c[1], 0x3080);
  }

  /** The number the subtraction leaves of three octets. */
  lemma ThreeValue(b0: u8, b1: u8, b2: u8)
    requires 0xE0 <= b0 <= 0xEF && Tail(b1) && Tail(b2)
    ensures Minus((b0 * 64 + b1) * 64 + b2, 0xE2080) == Join(Join(b0 - 0xE0, b1), b2)
  {
    MinusValue((b0 * 64 + b1) * 64 + b2, 0xE2080);
  }

  lemma ScanThreeIsGrammar(c: seq<u8>)
    requires |c| == 3 && 0xE0 <= c[0] <= 0xEF
    ensures !ScanThree(c[0], c[1], c[2]).Illegal? <==> CharOctets(c) && !Noncharacter(c)
    ensures CharOctets(c) && !Noncharacter(c) ==>
              match ScanThree(c[0], c[1], c[2]) case Unit(ch) => ch == Scalar(c) case _ => false
  {
    TailTest(c[1]);
    TailTest(c[2]);
    if Tail(c[1]) && Tail(c[2]) {
      ThreeValue(c[0], c[1], c[2]);
      assert Noncharacter(c) <==> c[0] == 0xEF && c[1] == 0xBF && 0xBE <= c[2];
    }
  }

  /** The number the subtraction leaves of four octets: what is below 0x10000 wraps around. */
  lemma FourValue(b0: u8, b1: u8, b2: u8, b3: u8)
    requires 0xF0 <= b0 <= 0xF7 && Tail(b1) && Tail(b2) && Tail(b3)
    ensures var x := Join(Join(Join(b0 - 0xF0, b1), b2), b3);
            Minus(((b0 * 64 + b1) * 64 + b2) * 64 + b3, 0x03C82080 + 0x10000)
            == if x >= 0x10000 then x - 0x10000 else x - 0x10000 + 0x1_0000_0000
  {
    MinusValue(((b0 * 64 + b1) * 64 + b2) * 64 + b3, 0x03C82080 + 0x10000);
  }

  /** The halves of a number above the first plane. */
  lemma HalvesInRange(x: nat)
    ensures 0xD800 <= x / 0x400 + 0xD800 <= 0xDBFF <==> x < 0x100000
    ensures x == x / 0x400 * 0x400 + x % 0x400
  {}

  lemma ScanFourIsGrammar(c: seq<u8>)
    requires |c| == 4 && 0xF0 <= c[0] <= 0xF7
    ensures !ScanFour(c[0], c[1], c[2], c[3]).Illegal? <==> CharOctets(c)
    ensures CharOctets(c) ==>
              match ScanFour(c[0], c[1], c[2], c[3])
              case Pair(hi, lo) => High(hi) && Low(lo) && PairScalar(hi, lo) == Scalar(c)
              case _ => false
  {
    TailTest(c[1]);
    TailTest(c[2]);
    TailTest(c[3]);
    if Tail(c[1]) && Tail(c[2]) && Tail(c[3]) {
      FourValue(c[0], c[1], c[2], c[3]);
      HalvesInRange(Minus((((c[0] as int) * 64 + c[1]) * 64 + c[2]) * 64 + c[3], 0x03C82080 + 0x10000));
    }
  }

  /** What the scan returns, in the terms of the grammar. */
  predicate Means(r: Scanned, c: seq<u8>) {
    CharOctets(c) && match r
      case Illegal => false
      case Unit(ch) => ch == Scalar(c) && !High(ch) && !Low(ch) && ch != 0xFFFE && ch != 0xFFFF
      case Pair(hi, lo) => High(hi) && Low(lo) && PairScalar(hi, lo) == Scalar(c)
  }

  /** What the subtractions and their wrap-around let through is what the grammar allows, and the units read stand for
      the character's number. */
  lemma ScanIsGrammar(s: seq<u8>)
    requires s != []
    ensures !Scan(s).Illegal? <==> Leads(s, Size(s[0]))
    ensures !Scan(s).Illegal? ==> Means(Scan(s), s[..Size(s[0])])
  {
    var n := Size(s[0]);
    if n <= |s| {
      var c := s[..n];
      assert forall i :: 0 <= i < n ==> c[i] == s[i];
      match n {
        case 2 => ScanTwoIsGrammar(c);
        case 3 => ScanThreeIsGrammar(c);
        case 4 => ScanFourIsGrammar(c);
        case _ =>
      }
    }
  }

  lemma LeadsSize(s: seq<u8>, k: nat)
    requires Leads(s, k)
    ensures 0 < k && s != [] && k == Size(s[0])
  {
    assert s[..k][0] == s[0];
  }

  /** At an illegal character, and only there, the octets stop being text. */
  lemma TextScan(s: seq<u8>)
    requires s != []
    ensures !Scan(s).Illegal? ==> Size(s[0]) <= |s|
    ensures Text(s) <==> !Scan(s).Illegal? && Text(s[Size(s[0])..])
  {
    ScanIsGrammar(s);
    if Scan(s).Illegal? {
      forall k: nat | Leads(s, k) ensures false {
        LeadsSize(s, k);
      }
    } else {
      TextStep(s, Size(s[0]));
    }
  }

  // ----- the part before the first NUL -----

  function BeforeNul(s: seq<u8>): seq<u8> {
    if s == [] || s[0] == 0 then [] else [s[0]] + BeforeNul(s[1..])
  }

  lemma {:induction false} BeforeNulSkip(s: seq<u8>, k: nat)
    requires k <= |s| && forall i :: 0 <= i < k ==> s[i] != 0
    ensures k <= |BeforeNul(s)| && BeforeNul(s)[..k] == s[..k] && BeforeNul(s)[k..] == BeforeNul(s[k..])
  {
    if k > 0 {
      BeforeNulSkip(s[1..], k - 1);
      assert s[1..][k - 1..] == s[k..];
      assert BeforeNul(s)[k..] == BeforeNul(s[1..])[k - 1..];
      assert s[..k] == [s[0]] + s[1..][..k - 1];
    }
  }

  lemma {:induction false} BeforeNulPrefix(s: seq<u8>)
    ensures |BeforeNul(s)| <= |s| && BeforeNul(s) == s[..|BeforeNul(s)|]
  {
    if s != [] && s[0] != 0 {
      BeforeNulPrefix(s[1..]);
    }
  }

  /** A character does not reach across a NUL. */
  lemma LegalHasNoNul(s: seq<u8>)
    requires s != [] && s[0] != 0 && !Scan(s).Illegal?
    ensures Size(s[0]) <= |s| && forall i :: 0 <= i < Size(s[0]) ==> s[i] != 0
  {
    ScanIsGrammar(s);
    assert forall i :: 0 <= i < Size(s[0]) ==> s[i] == s[..Size(s[0])][i];
  }

  /** The scan depends on the octets of the character only. */
  lemma ScanLocal(s: seq<u8>, t: seq<u8>)
    requires s != [] && t != [] && Size(s[0]) <= |s| && Size(s[0]) <= |t|
    requires forall i :: 0 <= i < Size(s[0]) ==> s[i] == t[i]
    ensures Scan(s) == Scan(t)
  {
    assert Size(s[0]) > 1 ==> s[1] == t[1];
    assert Size(s[0]) > 2 ==> s[2] == t[2];
    assert Size(s[0]) > 3 ==> s[3] == t[3];
  }

  lemma FrontBeforeNul(s: seq<u8>, n: nat)
    requires n <= |s| && forall i :: 0 <= i < n ==> s[i] != 0
    ensures n <= |BeforeNul(s)| && BeforeNul(s)[n..] == BeforeNul(s[n..])
    ensures forall i :: 0 <= i < n ==> BeforeNul(s)[i] == s[i]
  {
    BeforeNulSkip(s, n);
    forall i | 0 <= i < n ensures BeforeNul(s)[i] == s[i] {
      assert BeforeNul(s)[..n][i] == s[..n][i];
    }
  }

  /** A legal character is there before the NUL too. */
  lemma LegalBeforeNul(s: seq<u8>)
    requires s != [] && s[0] != 0 && !Scan(s).Illegal?
    ensures BeforeNul(s) != [] && Scan(BeforeNul(s)) == Scan(s)
    ensures Size(s[0]) <= |s| && BeforeNul(s[Size(s[0])..]) == BeforeNul(s)[Size(s[0])..]
  {
    LegalHasNoNul(s);
    FrontBeforeNul(s, Size(s[0]));
    ScanLocal(s, BeforeNul(s));
  }

  /** No character is legal before the NUL that is not legal in the whole. */
  lemma IllegalBeforeNul(s: seq<u8>)
    requires s != [] && s[0] != 0 && Scan(s).Illegal?
    ensures BeforeNul(s) != [] && Scan(BeforeNul(s)).Illegal?
  {
    var t := BeforeNul(s);
    if !Scan(t).Illegal? {
      BeforeNulPrefix(s);
      ScanIsGrammar(t);
      ScanLocal(s, t);
    }
  }

  /** Scanning does not look past the first NUL. */
  lemma ScanBeforeNul(s: seq<u8>)
    requires s != [] && s[0] != 0
    ensures BeforeNul(s) != [] && BeforeNul(s)[0] == s[0] && Scan(BeforeNul(s)) == Scan(s)
    ensures !Scan(s).Illegal? ==> Size(s[0]) <= |s| && BeforeNul(s[Size(s[0])..]) == BeforeNul(s)[Size(s[0])..]
  {
    if Scan(s).Illegal? {
      IllegalBeforeNul(s);
    } else {
      LegalBeforeNul(s);
    }
  }

  /** What is left before the NUL is text exactly if the next character is legal and what follows it is text. */
  lemma TextGoesOn(s: seq<u8>)
    requires s != [] && s[0] != 0
    ensures !Scan(s).Illegal? ==> Size(s[0]) <= |s|
    ensures Text(BeforeNul(s)) <==> !Scan(s).Illegal? && Text(BeforeNul(s[Size(s[0])..]))
  {
    ScanBeforeNul(s);
    TextScan(BeforeNul(s));
  }

  // ----- the validator -----

  /** utf8_validatestr */
  method Validate(s: seq<u8>) returns (r: int)
    ensures r == 0 <==> Text(BeforeNul(s))
    ensures r == 0 || r == EINVAL
  {
    var pos := 0;
    ghost var accepted := Text(BeforeNul(s));
    while pos < |s| && s[pos] != 0
      invariant 0 <= pos <= |s|
      invariant accepted == Text(BeforeNul(s[pos..]))
    {
      ghost var rest := s[pos..];
      TextGoesOn(rest);
      if Scan(s[pos..]).Illegal? {
        return EINVAL;
      }
      pos := pos + Size(s[pos]);
      assert s[pos..] == rest[Size(rest[0])..];
    }
    return 0;
  }

  // ----- writing a character -----

  /** One code unit as one, two or three octets. */
  function UnitOctets(c: u16): (r: seq<u8>)
    ensures 1 <= |r| <= 3
  {
    if c < 0x80 then [c]
    else if c < 0x800 then [0xC0 + c / 0x40, 0x80 + c % 0x40]
    else [0xE0 + c / 0x1000, 0x80 + c / 0x40 % 0x40, 0x80 + c % 0x40]
  }

  function PairOctets(hi: u16, lo: u16): (r: seq<u8>)
    requires High(hi) && Low(lo)
    ensures |r| == 4
  {
    var pair := PairScalar(hi, lo);
    [0xF0 + pair / 0x40000, 0x80 + pair / 0x1000 % 0x40, 0x80 + pair / 0x40 % 0x40, 0x80 + pair % 0x40]
  }

  /** A character and what it was read from. */
  predicate Spells(r: Scanned, c: seq<u8>) {
    match r
    case Illegal => false
    case Unit(ch) => c == UnitOctets(ch)
    case Pair(hi, lo) => High(hi) && Low(lo) && c == PairOctets(hi, lo)
  }

  lemma TwoRoundTrip(c: u16)
    requires 0x80 <= c < 0x800
    ensures ScanTwo(0xC0 + c / 0x40, 0x80 + c % 0x40) == Unit(c)
  {}

  lemma ThreeRoundTrip(c: u16)
    requires 0x800 <= c && !High(c) && !Low(c) && c != 0xFFFE && c != 0xFFFF
    ensures ScanThree(0xE0 + c / 0x1000, 0x80 + c / 0x40 % 0x40, 0x80 + c % 0x40) == Unit(c)
  {
    var x, y, z := c / 0x1000, c / 0x40 % 0x40, c % 0x40;
    assert (x * 0x40 + y) * 0x40 + z == c;
  }

  lemma UnitRoundTrip(c: u16, rest: seq<u8>)
    requires !High(c) && !Low(c) && c != 0xFFFE && c != 0xFFFF
    ensures Size(UnitOctets(c)[0]) == |UnitOctets(c)| && Scan(UnitOctets(c) + rest) == Unit(c)
  {
    var o := UnitOctets(c);
    ScanLocal(o, o + rest);
    if 0x80 <= c < 0x800 {
      TwoRoundTrip(c);
    } else if c >= 0x800 {
      ThreeRoundTrip(c);
    }
  }

  lemma FourRoundTrip(pair: nat, w: u8, x: u8, y: u8, z: u8)
    requires 0x10000 <= pair <= 0x10FFFF && pair == ((w * 0x40 + x) * 0x40 + y) * 0x40 + z
    requires w <= 4 && x < 0x40 && y < 0x40 && z < 0x40
    ensures ScanFour(0xF0 + w, 0x80 + x, 0x80 + y, 0x80 + z)
         == Pair((pair - 0x10000) / 0x400 + 0xD800, (pair - 0x10000) % 0x400 + 0xDC00)
  {}

  lemma PairParts(hi: u16, lo: u16)
    requires High(hi) && Low(lo)
    ensures (PairScalar(hi, lo) - 0x10000) / 0x400 + 0xD800 == hi
            && (PairScalar(hi, lo) - 0x10000) % 0x400 + 0xDC00 == lo
  {}

  lemma ScanOfFour(s: seq<u8>)
    requires |s| >= 4 && 0xF0 <= s[0] <= 0xF7
    ensures Size(s[0]) == 4 && Scan(s) == ScanFour(s[0], s[1], s[2], s[3])
  {}

  lemma PairDigits(pair: nat)
    requires pair <= 0x10FFFF
    ensures pair / 0x40000 <= 4
    ensures pair == ((pair / 0x40000 * 0x40 + pair / 0x1000 % 0x40) * 0x40 + pair / 0x40 % 0x40) * 0x40 + pair % 0x40
  {}

  lemma PairRoundTrip(hi: u16, lo: u16, rest: seq<u8>)
    requires High(hi) && Low(lo)
    ensures Size(PairOctets(hi, lo)[0]) == 4 && Scan(PairOctets(hi, lo) + rest) == Pair(hi, lo)
  {
    var s, pair := PairOctets(hi, lo) + rest, PairScalar(hi, lo);
    var w, x, y, z := pair / 0x40000, pair / 0x1000 % 0x40, pair / 0x40 % 0x40, pair % 0x40;
    PairDigits(pair);
    assert s[0] == 0xF0 + w && s[1] == 0x80 + x && s[2] == 0x80 + y && s[3] == 0x80 + z;
    ScanOfFour(s);
    FourRoundTrip(pair, w, x, y, z);
    PairParts(hi, lo);
  }

  /** Writing what was read gives the octets back. */
  lemma ScanSpells(s: seq<u8>)
    requires s != [] && !Scan(s).Illegal?
    ensures Size(s[0]) <= |s| && Spells(Scan(s), s[..Size(s[0])])
  {
    ScanIsGrammar(s);
    MeansSpells(Scan(s), s[..Size(s[0])]);
  }

  lemma MeansSpells(r: Scanned, c: seq<u8>)
    requires Means(r, c)
    ensures Spells(r, c)
  {
    match |c| {
      case 1 =>
      case 2 => JoinParts(c[0] - 0xC0, c[1]);
      case 3 =>
        JoinParts(c[0] - 0xE0, c[1]);
        JoinParts(Join(c[0] - 0xE0, c[1]), c[2]);
      case 4 => FourSpells(r, c);
    }
  }

  lemma FourSpells(r: Scanned, c: seq<u8>)
    requires Means(r, c) && |c| == 4
    ensures Spells(r, c)
  {
    var a, pair := Join(c[0] - 0xF0, c[1]), Scalar(c);
    var b := Join(a, c[2]);
    JoinParts(c[0] - 0xF0, c[1]);
    JoinParts(a, c[2]);
    JoinParts(b, c[3]);
    assert pair / 0x1000 == a && pair / 0x40 == b;
  }

  lemma JoinParts(bits: nat, b: u8)
    requires Tail(b)
    ensures Join(bits, b) / 0x40 == bits && Join(bits, b) % 0x40 == b - 0x80
  {}
}
