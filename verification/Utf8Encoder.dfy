/** UTF-16 to UTF-8 (`utf8_encodestr` and `utf8_encodelen` in `src/hfs/Apple/utfconv.c`), without decomposition, SFM
    conversion or byte swapping. The input is the sequence of code units, the buffer an array. */
module Utf8Encoder {
  import opened MachineTypes
  import opened Checks
  import opened Sequences
  import opened Utf8

  const UNDERSCORE: u16 := 0x5F

  /** Slash and NUL are not permitted in the output. */
  function Mapped(c: u16, altslash: u16): u16 {
    if c == SLASH then (if altslash != 0 then altslash else UNDERSCORE)
    else if c == 0 then ALT_NULL
    else c
  }

  predicate Barred(c: u16) { c == 0xFFFE || c == 0xFFFF }

  /** A surrogate pair stands at the front. */
  predicate PairFirst(u: seq<u16>, altslash: u16)
    requires u != []
  {
    |u| > 1 && High(Mapped(u[0], altslash)) && Low(u[1])
  }

  /** The code units of the first character, and its octets. */
  function Units(u: seq<u16>, altslash: u16): (n: nat)
    requires u != []
    ensures 1 <= n <= 2 && n <= |u|
  {
    if PairFirst(u, altslash) then 2 else 1
  }

  function Octets(u: seq<u16>, altslash: u16): (r: seq<u8>)
    requires u != []
    ensures 1 <= |r| <= 4
  {
    if PairFirst(u, altslash) then PairOctets(Mapped(u[0], altslash), u[1]) else UnitOctets(Mapped(u[0], altslash))
  }

  /** All characters one after the other; a surrogate without its other half takes three octets. */
  function Encoding(u: seq<u16>, altslash: u16): seq<u8>
    decreases |u|
  {
    if u == [] then [] else Octets(u, altslash) + Encoding(u[Units(u, altslash)..], altslash)
  }

  /** The first n units end with a whole character. */
  predicate Whole(u: seq<u16>, n: nat, altslash: u16) {
    n <= |u| && !(0 < n < |u| && High(Mapped(u[n - 1], altslash)) && Low(u[n]))
  }

  lemma FirstCharacter(u: seq<u16>, n: nat, altslash: u16)
    requires Whole(u, n, altslash) && n > 0
    ensures Units(u, altslash) <= n && Whole(u[Units(u, altslash)..], n - Units(u, altslash), altslash)
    ensures Units(u[..n], altslash) == Units(u, altslash) && Octets(u[..n], altslash) == Octets(u, altslash)
  {}

  lemma {:induction false} EncodingAppend(a: seq<u16>, b: seq<u16>, altslash: u16)
    requires Whole(a + b, |a|, altslash)
    ensures Encoding(a + b, altslash) == Encoding(a, altslash) + Encoding(b, altslash)
    decreases |a|
  {
    if a == [] {
      assert a + b == b;
    } else {
      var u, k := a + b, Units(a + b, altslash);
      FirstCharacter(u, |a|, altslash);
      assert u[..|a|] == a && u[k..] == a[k..] + b;
      EncodingAppend(a[k..], b, altslash);
      var o, x, y := Octets(u, altslash), Encoding(a[k..], altslash), Encoding(b, altslash);
      assert Encoding(a, altslash) == o + x;
      assert Encoding(u, altslash) == o + (x + y);
      Associative(o, x, y);
    }
  }

  /** Text encoded up to a whole character is the encoding of its two parts. */
  lemma EncodingSplit(u: seq<u16>, n: nat, altslash: u16)
    requires Whole(u, n, altslash)
    ensures Encoding(u, altslash) == Encoding(u[..n], altslash) + Encoding(u[n..], altslash)
  {
    assert u == u[..n] + u[n..];
    EncodingAppend(u[..n], u[n..], altslash);
  }

  lemma WholeStep(u: seq<u16>, i: nat, altslash: u16)
    requires Whole(u, i, altslash) && i < |u|
    ensures var k := Units(u[i..], altslash);
            i + k <= |u| && Whole(u, i + k, altslash) && Whole(u[..i + k], i, altslash)
  {}

  lemma OneCharacter(u: seq<u16>, altslash: u16)
    requires u != []
    ensures Encoding(u[..Units(u, altslash)], altslash) == Octets(u, altslash)
  {
    var k := Units(u, altslash);
    FirstCharacter(u, k, altslash);
    assert u[..k][k..] == [] && Encoding([], altslash) == [];
  }

  /** Taking one more character. */
  lemma EncodingStep(u: seq<u16>, i: nat, altslash: u16)
    requires Whole(u, i, altslash) && i < |u|
    ensures var k := Units(u[i..], altslash);
            && i + k <= |u| && Whole(u, i + k, altslash)
            && Encoding(u[..i + k], altslash) == Encoding(u[..i], altslash) + Octets(u[i..], altslash)
  {
    var k := Units(u[i..], altslash);
    var v := u[..i + k];
    WholeStep(u, i, altslash);
    EncodingSplit(v, i, altslash);
    assert v[..i] == u[..i] && v[i..] == u[i..][..k];
    OneCharacter(u[i..], altslash);
  }

  // ----- the encoder -----

  function Room(buflen: nat, nullterm: bool): int { if nullterm then buflen - 1 else buflen }

  /** How the encoder ends, having encoded the first n units of u in len octets. */
  ghost predicate EndsWith(u: seq<u16>, n: nat, len: nat, room: int, altslash: u16, result: int) {
    if n < |u| then
      if Barred(Mapped(u[n], altslash)) then result == EINVAL
      else result == ENAMETOOLONG && len + |Octets(u[n..], altslash)| > room
    else
      result == if altslash == 0 && HasSlash(u, |u|) then EINVAL else 0
  }

  ghost predicate HasSlash(u: seq<u16>, n: nat)
    requires n <= |u|
  {
    exists i :: 0 <= i < n && u[i] == SLASH
  }

  /** No unit the program refuses to write. */
  ghost predicate Clean(u: seq<u16>, n: nat, altslash: u16)
    requires n <= |u|
  {
    forall i :: 0 <= i < n ==> !Barred(Mapped(u[i], altslash))
  }

  /** What happens to the character that comes next: written whole, refused, or not fitting. */
  ghost predicate CharWritten(u: seq<u16>, altslash: u16, len: nat, end: nat, result: int, written: seq<u8>)
    requires u != []
  {
    if Barred(Mapped(u[0], altslash)) then result == EINVAL && written == []
    else if len + |Octets(u, altslash)| <= end then result == 0 && written == Octets(u, altslash)
    else result == ENAMETOOLONG && written == []
  }

  lemma PairOctetsNext(u: seq<u16>, pos: nat, altslash: u16)
    requires pos + 1 < |u| && High(Mapped(u[pos], altslash)) && Low(u[pos + 1])
    ensures PairFirst(u[pos..], altslash) && Units(u[pos..], altslash) == 2
    ensures Octets(u[pos..], altslash) == PairOctets(Mapped(u[pos], altslash), u[pos + 1])
  {}

  lemma UnitNext(u: seq<u16>, pos: nat, altslash: u16, c: u16)
    requires pos < |u| && c == Mapped(u[pos], altslash) && !(High(c) && pos + 1 < |u| && Low(u[pos + 1]))
    ensures Units(u[pos..], altslash) == 1 && Octets(u[pos..], altslash) == UnitOctets(c)
  {}

  /** The stores for a character of one unit. */
  method PutUnit(buf: array<u8>, at: nat, c: u16)
    requires at + |UnitOctets(c)| <= buf.Length
    modifies buf
    ensures buf[at..at + |UnitOctets(c)|] == UnitOctets(c)
    ensures buf[..at] == old(buf[..at])
    ensures buf[at + |UnitOctets(c)|..] == old(buf[at + |UnitOctets(c)|..])
  {
    if c < 0x80 {
      buf[at] := c;
    } else if c < 0x800 {
      buf[at], buf[at + 1] := 0xC0 + c / 0x40, 0x80 + c % 0x40;
    } else {
      buf[at], buf[at + 1], buf[at + 2] := 0xE0 + c / 0x1000, 0x80 + c / 0x40 % 0x40, 0x80 + c % 0x40;
    }
  }

  method PutPair(buf: array<u8>, at: nat, pair: int)
    requires at + 4 <= buf.Length && 0x10000 <= pair <= 0x10FFFF
    modifies buf
    ensures buf[at..at + 4] == [0xF0 + pair / 0x40000, 0x80 + pair / 0x1000 % 0x40,
                                0x80 + pair / 0x40 % 0x40, 0x80 + pair % 0x40]
    ensures buf[..at] == old(buf[..at])
    ensures buf[at + 4..] == old(buf[at + 4..])
  {
    buf[at], buf[at + 1] := 0xF0 + pair / 0x40000, 0x80 + pair / 0x1000 % 0x40;
    buf[at + 2], buf[at + 3] := 0x80 + pair / 0x40 % 0x40, 0x80 + pair % 0x40;
  }

  /** The middle of the loop of utf8_encodestr: range checks and stores for the character at pos, mapped to c. */
  method EncodeChar(u: seq<u16>, pos: nat, altslash: u16, c: u16, buf: array<u8>, len: nat, end: nat)
    returns (result: int, used: nat, newLen: nat)
    requires pos < |u| && c == Mapped(u[pos], altslash) && len <= end <= buf.Length
    modifies buf
    ensures len <= newLen <= end && buf[..len] == old(buf[..len])
    ensures CharWritten(u[pos..], altslash, len, end, result, buf[len..newLen])
    ensures result == 0 ==> used == Units(u[pos..], altslash)
    ensures buf[end..] == old(buf[end..])
  {
    ghost var before := buf[..];
    result, used, newLen := 0, 1, len;
    if c < 0x80 {
      if len >= end {
        return ENAMETOOLONG, used, len;
      }
      newLen := len + 1;
    } else if c < 0x800 {
      if len + 1 >= end {
        return ENAMETOOLONG, used, len;
      }
      newLen := len + 2;
    } else {
      if c == 0xFFFE || c == 0xFFFF {
        return EINVAL, used, len;
      }
      if 0xD800 <= c <= 0xDBFF && pos + 1 < |u| {
        var ch2 := u[pos + 1];
        if 0xDC00 <= ch2 <= 0xDFFF {
          if len + 3 >= end {
            return ENAMETOOLONG, used, len;
          }
          PairOctetsNext(u, pos, altslash);
          PutPair(buf, len, (c - 0xD800) * 0x400 + (ch2 - 0xDC00) + 0x10000);
          SameBehind(before, buf[..], len + 4, end);
          return 0, 2, len + 4;
        }
      }
      if len + 2 >= end {
        return ENAMETOOLONG, used, len;
      }
      newLen := len + 3;
    }
    UnitNext(u, pos, altslash, c);
    PutUnit(buf, len, c);
    SameBehind(before, buf[..], newLen, end);
  }

  /** The first n units are in the buffer. */
  ghost predicate Written(u: seq<u16>, n: nat, buf: seq<u8>, len: nat, end: nat, altslash: u16) {
    && Whole(u, n, altslash) && Clean(u, n, altslash)
    && len <= end <= |buf| && buf[..len] == Encoding(u[..n], altslash)
  }

  lemma CleanStep(u: seq<u16>, n: nat, altslash: u16)
    requires n < |u| && Clean(u, n, altslash) && !Barred(Mapped(u[n], altslash))
    ensures Clean(u, n + Units(u[n..], altslash), altslash)
    ensures HasSlash(u, n + Units(u[n..], altslash)) <==> HasSlash(u, n) || u[n] == SLASH
  {
    var k := Units(u[n..], altslash);
    if k == 2 {
      assert Low(u[n + 1]) && Mapped(u[n + 1], altslash) == u[n + 1];
    }
    if u[n] == SLASH {
      assert HasSlash(u, n + k);
    }
  }

  /** The first n units are written, and the result so far is right. */
  ghost function Progress(u: seq<u16>, n: nat, buf: seq<u8>, len: nat, end: nat, altslash: u16, result: int): Check {
    if Written(u, n, buf, len, end, altslash) && result == (if altslash == 0 && HasSlash(u, n) then EINVAL else 0)
    then Holds else Fails
  }

  /** The next character was written. */
  lemma WrittenOne(u: seq<u16>, n: nat, buf: seq<u8>, buf': seq<u8>, len: nat, newLen: nat, end: nat, altslash: u16,
                   result: int)
    requires Progress(u, n, buf, len, end, altslash, result) == Holds && n < |u|
    requires len <= newLen <= end <= |buf'| && buf'[..len] == buf[..len]
    requires CharWritten(u[n..], altslash, len, end, 0, buf'[len..newLen])
    ensures Progress(u, n + Units(u[n..], altslash), buf', newLen, end, altslash,
                     if altslash == 0 && u[n] == SLASH then EINVAL else result) == Holds
  {
    EncodingStep(u, n, altslash);
    CleanStep(u, n, altslash);
    PrefixAndSlice(buf', len, newLen);
  }

  /** The next character was not written, or there is none. */
  lemma WrittenLast(u: seq<u16>, n: nat, buf: seq<u8>, buf': seq<u8>, len: nat, end: nat, altslash: u16,
                    result: int, r: int, written: seq<u8>)
    requires Progress(u, n, buf, len, end, altslash, result) == Holds
    requires end <= |buf'| && buf'[..len] == buf[..len]
    requires if n == |u| then r == result else r != 0 && CharWritten(u[n..], altslash, len, end, r, written)
    ensures Written(u, n, buf', len, end, altslash) && EndsWith(u, n, len, end, altslash, r)
  {}

  /** The loop of utf8_encodestr. */
  method EncodeLoop(u: seq<u16>, buf: array<u8>, end: nat, altslash: u16)
    returns (result: int, utf8len: nat, ghost done: nat)
    requires end <= buf.Length
    modifies buf
    ensures Written(u, done, buf[..], utf8len, end, altslash) && EndsWith(u, done, utf8len, end, altslash, result)
    ensures buf[end..] == old(buf[end..])
  {
    var pos := 0;
    result, utf8len := 0, 0;
    while pos < |u|
      invariant pos <= |u| && utf8len <= end
      invariant Progress(u, pos, buf[..], utf8len, end, altslash, result) == Holds
      invariant buf[end..] == old(buf[end..])
      decreases |u| - pos
    {
      var c, slashed := u[pos], result;
      if c == SLASH {
        if altslash != 0 {
          c := altslash;
        } else {
          c := UNDERSCORE;
          slashed := EINVAL;
        }
      } else if c == 0 {
        c := ALT_NULL;
      }
      ghost var before := buf[..];
      var r, used, newLen := EncodeChar(u, pos, altslash, c, buf, utf8len, end);
      if r != 0 {
        WrittenLast(u, pos, before, buf[..], utf8len, end, altslash, result, r, buf[utf8len..newLen]);
        return r, utf8len, pos;
      }
      WrittenOne(u, pos, before, buf[..], utf8len, newLen, end, altslash, result);
      result, utf8len, pos := slashed, newLen, pos + used;
    }
    WrittenLast(u, pos, buf[..], buf[..], utf8len, end, altslash, result, result, []);
    done := pos;
  }

  /** utf8_encodestr. What it wrote is the encoding of the first `done` units, a whole number of characters. */
  method EncodeStr(u: seq<u16>, buf: array<u8>, buflen: nat, altslash: u16, nullterm: bool)
    returns (result: int, utf8len: nat, ghost done: nat)
    requires buflen <= buf.Length && (nullterm ==> buflen > 0)
    modifies buf
    ensures Whole(u, done, altslash) && Clean(u, done, altslash)
    ensures utf8len <= Room(buflen, nullterm) && buf[..utf8len] == Encoding(u[..done], altslash)
    ensures EndsWith(u, done, utf8len, Room(buflen, nullterm), altslash, result)
    ensures nullterm ==> buf[utf8len] == 0
    ensures buf[buflen..] == old(buf[buflen..])
  {
    var end: nat := if nullterm then buflen - 1 else buflen;
    ghost var before := buf[..];
    result, utf8len, done := EncodeLoop(u, buf, end, altslash);
    assert buf[buflen..] == buf[end..][buflen - end..] && before[buflen..] == before[end..][buflen - end..];
    if nullterm {
      ghost var text := buf[..utf8len];
      buf[utf8len] := 0;
      assert buf[..utf8len] == text;
    }
  }

  // ----- what the encoder promises -----

  /** When the next character does not fit, no longer text of whole characters would: what was written is the longest
      prefix. */
  lemma LongestPrefix(u: seq<u16>, n: nat, m: nat, room: int, altslash: u16)
    requires n < m && Whole(u, n, altslash) && Whole(u, m, altslash)
    requires EndsWith(u, n, |Encoding(u[..n], altslash)|, room, altslash, ENAMETOOLONG)
    ensures |Encoding(u[..m], altslash)| > room
  {
    var v := u[..m];
    EncodingSplit(v, n, altslash);
    assert v[..n] == u[..n] && v[n..] == u[n..m];
    assert Octets(u[n..m], altslash) == Octets(u[n..], altslash);
  }

  /** Given room for everything and nothing to refuse, everything is written. */
  lemma AllWritten(u: seq<u16>, n: nat, room: int, altslash: u16, result: int)
    requires altslash != 0 && Clean(u, |u|, altslash) && |Encoding(u, altslash)| <= room
    requires Whole(u, n, altslash) && EndsWith(u, n, |Encoding(u[..n], altslash)|, room, altslash, result)
    ensures n == |u| && result == 0
  {
    assert u[..|u|] == u;
    if n < |u| {
      LongestPrefix(u, n, |u|, room, altslash);
    }
  }

  /** Well-formed UTF-16: every surrogate has its other half. */
  predicate WellFormed16(u: seq<u16>)
    decreases |u|
  {
    u == [] || if High(u[0]) then |u| > 1 && Low(u[1]) && WellFormed16(u[2..]) else !Low(u[0]) && WellFormed16(u[1..])
  }

  /** How many characters written are surrogates without their other half. */
  function LoneSurrogates(u: seq<u16>, altslash: u16): nat
    decreases |u|
  {
    if u == [] then 0
    else LoneSurrogates(u[Units(u, altslash)..], altslash)
         + if !PairFirst(u, altslash) && (High(Mapped(u[0], altslash)) || Low(Mapped(u[0], altslash))) then 1 else 0
  }

  lemma {:induction false} NoLoneSurrogates(u: seq<u16>, altslash: u16)
    requires !High(altslash) && !Low(altslash)
    ensures LoneSurrogates(u, altslash) == 0 <==> WellFormed16(u)
    decreases |u|
  {
    if u != [] {
      NoLoneSurrogates(u[Units(u, altslash)..], altslash);
    }
  }

  /** What is written for well-formed text is text of RFC 3629. */
  lemma {:induction false} EncodingIsText(u: seq<u16>, altslash: u16)
    requires WellFormed16(u) && Clean(u, |u|, altslash) && !High(altslash) && !Low(altslash)
    ensures Text(Encoding(u, altslash))
    decreases |u|
  {
    if u != [] {
      var k, e := Units(u, altslash), Encoding(u, altslash);
      var rest := Encoding(u[k..], altslash);
      assert Clean(u[k..], |u[k..]|, altslash);
      EncodingIsText(u[k..], altslash);
      assert !Barred(Mapped(u[0], altslash));
      if k == 2 {
        PairRoundTrip(u[0], u[1], rest);
      } else {
        UnitRoundTrip(Mapped(u[0], altslash), rest);
      }
      TextScan(e);
      assert e[Size(e[0])..] == rest;
    }
  }

  /** The output has no NUL, and no slash unless that is the alternate. */
  lemma {:induction false} NothingForbidden(u: seq<u16>, altslash: u16)
    ensures forall i :: 0 <= i < |Encoding(u, altslash)| ==> Encoding(u, altslash)[i] != 0
    ensures altslash != SLASH ==>
              forall i :: 0 <= i < |Encoding(u, altslash)| ==> Encoding(u, altslash)[i] != SLASH
    decreases |u|
  {
    if u != [] {
      NothingForbidden(u[Units(u, altslash)..], altslash);
      OctetsPermitted(u, altslash);
    }
  }

  lemma OctetsPermitted(u: seq<u16>, altslash: u16)
    requires u != []
    ensures forall i :: 0 <= i < |Octets(u, altslash)| ==> Octets(u, altslash)[i] != 0
    ensures altslash != SLASH ==> forall i :: 0 <= i < |Octets(u, altslash)| ==> Octets(u, altslash)[i] != SLASH
  {}

  // ----- the length predictor -----

  /** UNICODE_TO_UTF8_LEN */
  function UnitLength(c: u16): nat {
    if c < 0x80 then 1 else if c < 0x800 then 2 else if c / 0x800 == 0xD800 / 0x800 then 2 else 3
  }

  function UnitLengths(u: seq<u16>, altslash: u16): nat {
    if u == [] then 0 else UnitLength(Mapped(u[0], altslash)) + UnitLengths(u[1..], altslash)
  }

  /** The prediction falls short by one octet for every surrogate without its other half. */
  lemma {:induction false} LengthsOfEncoding(u: seq<u16>, altslash: u16)
    ensures UnitLengths(u, altslash) + LoneSurrogates(u, altslash) == |Encoding(u, altslash)|
    decreases |u|
  {
    if u != [] {
      LengthsOfEncoding(u[Units(u, altslash)..], altslash);
      if PairFirst(u, altslash) {
        assert u[1..][1..] == u[2..];
        assert UnitLengths(u[1..], altslash) == UnitLength(u[1]) + UnitLengths(u[2..], altslash);
      }
    }
  }

  /** One high surrogate alone: two octets predicted, three written. */
  lemma LoneSurrogateMiscounted(altslash: u16)
    ensures UnitLengths([0xD800], altslash) == 2 && |Encoding([0xD800], altslash)| == 3
    ensures !WellFormed16([0xD800])
  {
    var u: seq<u16> := [0xD800];
    assert u[1..] == [] && Encoding(u[1..], altslash) == [] && UnitLengths(u[1..], altslash) == 0;
  }

  /** utf8_encodelen */
  method EncodeLen(u: seq<u16>, altslash: u16) returns (len: nat)
    ensures len + LoneSurrogates(u, altslash) == |Encoding(u, altslash)|
    ensures !High(altslash) && !Low(altslash) ==> (len == |Encoding(u, altslash)| <==> WellFormed16(u))
  {
    len := 0;
    var pos := 0;
    while pos < |u|
      invariant pos <= |u| && len + UnitLengths(u[pos..], altslash) == UnitLengths(u, altslash)
    {
      var c := u[pos];
      if c == SLASH {
        c := if altslash != 0 then altslash else UNDERSCORE;
      } else if c == 0 {
        c := ALT_NULL;
      }
      len := len + UnitLength(c);
      assert u[pos..][1..] == u[pos + 1..];
      pos := pos + 1;
    }
    LengthsOfEncoding(u, altslash);
    if !High(altslash) && !Low(altslash) {
      NoLoneSurrogates(u, altslash);
    }
  }
}
