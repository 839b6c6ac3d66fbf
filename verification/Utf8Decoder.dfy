/** UTF-8 to UTF-16 (`utf8_decodestr` in `src/hfs/Apple/utfconv.c`), as it stands or decomposed or precomposed, without
    escaping, SFM conversion or byte swapping. The Unicode tables are parameters; Hangul is arithmetic. */
module Utf8Decoder {
  import opened MachineTypes
  import opened Sequences
  import opened Utf8
  import opened CanonicalOrder

  /** Reported where the C would sort code units lying before the buffer. */
  const OUTSIDE := -1

  /** The tables of utfconvdata.h: the two bitmaps, the combining classes and the mappings outside Hangul. */
  datatype Tables = Tables(combining: u16 -> bool, decomposing: u16 -> bool, decomposition: u16 -> seq<u16>,
                           composition: (u16, u16) -> u16, ccc: u16 -> nat)
  {
    /** unicode_combinable */
    predicate Combinable(c: u16) { c >= 0x0300 && combining(c) }

    /** unicode_decomposeable */
    predicate Decomposable(c: u16) { c >= 0x00C0 && decomposing(c) }

    /** unicode_decompose */
    function Decompose(c: u16): seq<u16> {
      if HANGUL_SBASE <= c <= HANGUL_SBASE + HANGUL_SCOUNT then HangulParts(c - HANGUL_SBASE) else decomposition(c)
    }

    /** unicode_combine: 0 where the two have no composite. */
    function Combine(base: u16, combining: u16): u16 {
      if IsVowel(combining) && HANGUL_LBASE <= base < HANGUL_LBASE + HANGUL_LCOUNT then
        HANGUL_SBASE + (base - HANGUL_LBASE) * HANGUL_NCOUNT + (combining - HANGUL_VBASE) * HANGUL_TCOUNT
      else if HANGUL_TBASE < combining < HANGUL_TBASE + HANGUL_TCOUNT
              && HANGUL_SBASE <= base < HANGUL_SBASE + HANGUL_SCOUNT then
        if (base - HANGUL_SBASE) % HANGUL_TCOUNT != 0 then 0 else base + (combining - HANGUL_TBASE)
      else composition(base, combining)
    }

    /** Every character marked as decomposable has a decomposition. */
    ghost predicate Valid() {
      forall c :: Decomposable(c) ==> 1 <= |Decompose(c)|
    }
  }

  const HANGUL_SBASE: u16 := 0xAC00
  const HANGUL_LBASE: u16 := 0x1100
  const HANGUL_VBASE: u16 := 0x1161
  const HANGUL_TBASE: u16 := 0x11A7
  const HANGUL_SCOUNT := 11172
  const HANGUL_LCOUNT := 19
  const HANGUL_VCOUNT := 21
  const HANGUL_TCOUNT := 28
  const HANGUL_NCOUNT := HANGUL_VCOUNT * HANGUL_TCOUNT

  predicate IsVowel(c: u16) { HANGUL_VBASE <= c < HANGUL_VBASE + HANGUL_VCOUNT }

  /** The jamo of syllable number i. */
  function HangulParts(i: nat): (r: seq<u16>)
    requires i <= HANGUL_SCOUNT
    ensures 2 <= |r| <= 3
  {
    var l, v, t := i / HANGUL_NCOUNT, i % HANGUL_NCOUNT / HANGUL_TCOUNT, i % HANGUL_TCOUNT;
    if t != 0 then [HANGUL_LBASE + l, HANGUL_VBASE + v, HANGUL_TBASE + t] else [HANGUL_LBASE + l, HANGUL_VBASE + v]
  }

  datatype Form = AsIs | Decomposed | Precomposed

  /** How the decoder can end. */
  datatype Outcome = Outcome(result: int, out: seq<u16>) | Outside

  /** After one character: more to come, with `run` combining characters pending, or the end. */
  datatype Next = More(out: seq<u16>, run: nat) | End(outcome: Outcome)

  /** What the decoder is asked to do. */
  datatype Decoder = Decoder(tables: Tables, form: Form, altslash: u16, room: nat)
  {
    /** U+2400 stands for NUL, and the alternate for the slash. */
    function Shown(c: u16): u16 {
      var d := if c == ALT_NULL then 0 else c;
      if d == altslash then SLASH else d
    }

    /** The pending run in canonical order. */
    function Settled(out: seq<u16>, run: nat): (r: seq<u16>)
      requires run <= 1 || run <= |out|
      ensures |r| == |out|
    {
      if run > 1 then EndOrdered(tables.ccc, out, run) else out
    }

    function Place(out: seq<u16>, run: nat, c: u16): Next {
      if tables.Combinable(c) then More(out + [c], run + 1)
      else if run > 1 && run > |out| then End(Outside)
      else More(Settled(out, run) + [c], 0)
    }

    function PlaceParts(out: seq<u16>, run: nat, parts: seq<u16>): Next
      requires parts != [] && |out| < room
    {
      if run > 1 && run > |out| then End(Outside)
      else
        var settled := Settled(out, run);
        if |settled| + |parts| < room then More(settled + parts, |parts| - 1)
        else End(Outcome(ENAMETOOLONG, settled + parts[..room - |settled|]))
    }

    function Composite(out: seq<u16>, c: u16): u16 {
      if form == Precomposed && out != [] && tables.Combinable(c) then tables.Combine(out[|out| - 1], c) else 0
    }

    /** One character. ASCII is neither decomposed nor combined, its numbers being below those of the tables. */
    function Step(out: seq<u16>, run: nat, c: Scanned): Next
      requires tables.Valid() && |out| < room
    {
      match c
      case Illegal => End(Outcome(EINVAL, out))
      case Pair(hi, lo) =>
        if |out| + 1 >= room then End(Outcome(ENAMETOOLONG, out + [hi])) else More(out + [hi] + [lo], run)
      case Unit(ch) =>
        if form == Decomposed && tables.Decomposable(ch) then PlaceParts(out, run, tables.Decompose(ch))
        else if Composite(out, ch) != 0 then Place(out[..|out| - 1], run, Shown(Composite(out, ch)))
        else Place(out, run, Shown(ch))
    }

    function Finish(out: seq<u16>, run: nat): Outcome {
      if run > 1 && run > |out| then Outside else Outcome(0, Settled(out, run))
    }

    function DecodeFrom(out: seq<u16>, run: nat, s: seq<u8>): Outcome
      requires tables.Valid()
      decreases |s|
    {
      if s == [] || s[0] == 0 then Finish(out, run)
      else if |out| >= room then Outcome(ENAMETOOLONG, out)
      else match Step(out, run, Scan(s))
        case More(out', run') => DecodeFrom(out', run', Rest(s))
        case End(outcome) => outcome
    }

    function Decode(s: seq<u8>): Outcome
      requires tables.Valid()
    {
      DecodeFrom([], 0, s)
    }
  }

  /** What follows the first character. */
  function Rest(s: seq<u8>): (r: seq<u8>)
    requires s != []
    ensures |r| < |s|
  {
    if Size(s[0]) <= |s| then s[Size(s[0])..] else []
  }

  // ----- the decoder -----

  /** The buffer is where the step leads. */
  ghost predicate Reached(next: Next, result: int, out: seq<u16>, run: nat) {
    match next
    case More(out', run') => result == 0 && out == out' && run == run'
    case End(Outcome(e, out')) => e != 0 && result == e && out == out'
    case End(Outside) => result == OUTSIDE
  }

  lemma PrefixOfPrefix(s: seq<u16>, i: nat, j: nat)
    requires i <= j <= |s|
    ensures s[..j][..i] == s[..i] && s[..j][i..] == s[i..j]
  {}

  lemma SortedEnd(ccc: u16 -> nat, s: seq<u16>, t: seq<u16>, start: nat, run: nat)
    requires start + run <= |s| == |t|
    requires t[start..start + run] == Order(ccc, s[start..start + run]) && t[..start] == s[..start]
    ensures t[..start + run] == EndOrdered(ccc, s[..start + run], run)
  {
    PrefixAndSlice(t, start, start + run);
    PrefixOfPrefix(s, start, start + run);
  }

  /** Sorts the pending run, if there is one to sort. */
  method Settle(d: Decoder, buf: array<u16>, len: nat, run: nat)
    requires len <= buf.Length && (run <= 1 || run <= len)
    modifies buf
    ensures buf[..len] == d.Settled(old(buf[..len]), run)
    ensures buf[len..] == old(buf[len..])
  {
    if run > 1 {
      ghost var before := buf[..];
      var start := len - run;
      PrioritySort(d.tables.ccc, buf, start, run);
      SortedEnd(d.tables.ccc, before, buf[..], start, run);
    }
  }

  /** Appends a character, which settles or prolongs the pending run. */
  method PlaceUnit(d: Decoder, buf: array<u16>, len: nat, run: nat, c: u16)
    returns (result: int, newRun: nat)
    requires len < buf.Length
    modifies buf
    ensures Reached(d.Place(old(buf[..len]), run, c), result, buf[..len + 1], newRun)
    ensures buf[len + 1..] == old(buf[len + 1..])
  {
    result, newRun := 0, run;
    if d.tables.Combinable(c) {
      newRun := run + 1;
    } else if run != 0 {
      if run > 1 {
        if run > len {
          return OUTSIDE, 0;
        }
        Settle(d, buf, len, run);
      }
      newRun := 0;
    }
    ghost var settled := buf[..len];
    buf[len] := c;
    assert buf[..len + 1] == settled + [c];
  }

  /** Appends a decomposition, after settling what was pending. */
  method PlaceDecomposition(d: Decoder, buf: array<u16>, len: nat, run: nat, parts: seq<u16>)
    returns (result: int, newLen: nat, newRun: nat)
    requires len < d.room <= buf.Length && parts != []
    modifies buf
    ensures newLen <= d.room && Reached(d.PlaceParts(old(buf[..len]), run, parts), result, buf[..newLen], newRun)
    ensures buf[d.room..] == old(buf[d.room..])
  {
    result, newLen, newRun := 0, len, 0;
    if run > 1 {
      if run > len {
        return OUTSIDE, len, 0;
      }
      Settle(d, buf, len, run);
    }
    var fits;
    fits, newLen := PutParts(d, buf, len, parts);
    if !fits {
      return ENAMETOOLONG, newLen, 0;
    }
    Whole(parts, |parts|);
    newRun := |parts| - 1;
  }

  /** Stores the parts one by one, until the buffer is full. */
  method PutParts(d: Decoder, buf: array<u16>, len: nat, parts: seq<u16>) returns (fits: bool, newLen: nat)
    requires len < d.room <= buf.Length && parts != []
    modifies buf
    ensures fits <==> len + |parts| < d.room
    ensures newLen == if fits then len + |parts| else d.room
    ensures buf[..newLen] == old(buf[..len]) + parts[..newLen - len]
    ensures buf[d.room..] == old(buf[d.room..])
  {
    ghost var out := buf[..len];
    var i := 0;
    newLen := len;
    while i < |parts|
      invariant i <= |parts| && newLen == len + i < d.room
      invariant buf[..newLen] == out + parts[..i]
      invariant buf[d.room..] == old(buf[d.room..])
    {
      buf[newLen] := parts[i];
      newLen := newLen + 1;
      assert parts[..i + 1] == parts[..i] + [parts[i]];
      if newLen >= d.room {
        return false, newLen;
      }
      i := i + 1;
    }
    fits := true;
  }

  /** Stores a unit at the end, or over the last one if it is a composite. */
  method StoreUnit(d: Decoder, unit: u16, buf: array<u16>, len: nat, run: nat)
    returns (result: int, newLen: nat, newRun: nat)
    requires len < d.room <= buf.Length
    modifies buf
    ensures newLen <= d.room
    ensures Reached(if d.Composite(old(buf[..len]), unit) != 0
                    then d.Place(old(buf[..len - 1]), run, d.Shown(d.Composite(old(buf[..len]), unit)))
                    else d.Place(old(buf[..len]), run, d.Shown(unit)), result, buf[..newLen], newRun)
    ensures buf[d.room..] == old(buf[d.room..])
  {
    var ch, at := unit, len;
    if d.form == Precomposed && len != 0 {
      if d.tables.Combinable(ch) {
        var composite := d.tables.Combine(buf[len - 1], ch);
        if composite != 0 {
          at := len - 1;
          ch := composite;
        }
      }
    }
    if ch == ALT_NULL {
      ch := 0;
    }
    if ch == d.altslash {
      ch := SLASH;
    }
    ghost var before := buf[..];
    result, newRun := PlaceUnit(d, buf, at, run, ch);
    newLen := at + 1;
    SameBehind(before, buf[..], at + 1, d.room);
  }

  /** One turn of the loop. */
  method DecodeChar(d: Decoder, c: Scanned, buf: array<u16>, len: nat, run: nat)
    returns (result: int, newLen: nat, newRun: nat)
    requires d.tables.Valid() && len < d.room <= buf.Length
    modifies buf
    ensures newLen <= d.room && Reached(d.Step(old(buf[..len]), run, c), result, buf[..newLen], newRun)
    ensures buf[d.room..] == old(buf[d.room..])
  {
    ghost var out := buf[..len];
    match c {
      case Illegal =>
        return EINVAL, len, run;
      case Pair(hi, lo) =>
        buf[len] := hi;
        assert buf[..len + 1] == out + [hi];
        if len + 1 >= d.room {
          return ENAMETOOLONG, len + 1, run;
        }
        buf[len + 1] := lo;
        assert buf[..len + 2] == out + [hi] + [lo];
        return 0, len + 2, run;
      case Unit(unit) =>
        if d.form == Decomposed && d.tables.Decomposable(unit) {
          result, newLen, newRun := PlaceDecomposition(d, buf, len, run, d.tables.Decompose(unit));
        } else {
          assert len > 0 ==> out[..len - 1] == buf[..len - 1];
          result, newLen, newRun := StoreUnit(d, unit, buf, len, run);
        }
    }
  }

  /** utf8_decodestr */
  method DecodeStr(d: Decoder, s: seq<u8>, buf: array<u16>) returns (result: int, ucslen: nat)
    requires d.tables.Valid() && d.room <= buf.Length
    modifies buf
    ensures match d.Decode(s)
            case Outcome(r, out) => result == r && ucslen <= d.room && buf[..ucslen] == out
            case Outside => result == OUTSIDE
    ensures buf[d.room..] == old(buf[d.room..])
  {
    var pos, run: nat := 0, 0;
    result, ucslen := 0, 0;
    ghost var whole := d.Decode(s);
    while pos < |s| && s[pos] != 0
      invariant pos <= |s| && ucslen <= d.room
      invariant whole == d.DecodeFrom(buf[..ucslen], run, s[pos..])
      invariant buf[d.room..] == old(buf[d.room..])
      decreases |s| - pos
    {
      if ucslen >= d.room {
        return ENAMETOOLONG, ucslen;
      }
      ghost var rest := s[pos..];
      var c := Scan(s[pos..]);
      if !c.Illegal? {
        TextScan(s[pos..]);
      }
      result, ucslen, run := DecodeChar(d, c, buf, ucslen, run);
      if result != 0 {
        return;
      }
      pos := pos + Size(s[pos]);
      assert s[pos..] == Rest(rest);
    }
    if run > 1 {
      if run > ucslen {
        return OUTSIDE, ucslen;
      }
      ghost var before := buf[..];
      Settle(d, buf, ucslen, run);
      SameBehind(before, buf[..], ucslen, d.room);
    }
  }
}
