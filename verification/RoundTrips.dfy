/** Encoding and decoding undo each other, and so do decomposing and composing Hangul. */
module RoundTrips {
  import opened MachineTypes
  import opened Sequences
  import opened Utf8
  import opened Utf8Encoder
  import opened Utf8Decoder
  import opened CanonicalOrder
  import opened Transcoding

  predicate NoNul(s: seq<u8>) { forall i :: 0 <= i < |s| ==> s[i] != 0 }

  lemma {:induction false} BeforeNulAll(s: seq<u8>)
    requires NoNul(s)
    ensures BeforeNul(s) == s
  {
    if s != [] {
      BeforeNulAll(s[1..]);
      assert s == [s[0]] + s[1..];
    }
  }

  // ----- decode after encode -----

  /** The form is not changed, and the alternate for the slash is a character of its own. */
  predicate Straight(d: Decoder) {
    && d.form == AsIs
    && d.altslash != 0 && d.altslash != ALT_NULL
    && !High(d.altslash) && !Low(d.altslash) && !Barred(d.altslash)
  }

  /** Text the encoder writes without changing its meaning: well-formed, none of U+2400, U+FFFE and U+FFFF, and not the
      alternate for the slash unless that is the slash itself. */
  ghost predicate Encodable(u: seq<u16>, altslash: u16) {
    && WellFormed16(u)
    && forall i :: 0 <= i < |u| ==> u[i] != ALT_NULL && !Barred(u[i]) && (altslash == SLASH || u[i] != altslash)
  }

  /** Octets the decoder reads without changing their meaning: no slash, unless that is the alternate. */
  predicate SlashFree(s: seq<u8>, altslash: u16) {
    altslash == SLASH || forall i :: 0 <= i < |s| ==> s[i] != SLASH
  }

  /** The first character read back is the first character written. */
  lemma FirstReadBack(d: Decoder, u: seq<u16>)
    requires Straight(d) && u != [] && Encodable(u, d.altslash)
    ensures var e, k := Encoding(u, d.altslash), Units(u, d.altslash);
            && e != [] && Parts(d, Scan(e)) == u[..k] && Rest(e) == Encoding(u[k..], d.altslash)
  {
    var e, k := Encoding(u, d.altslash), Units(u, d.altslash);
    var o, rest := Octets(u, d.altslash), Encoding(u[k..], d.altslash);
    assert e == o + rest && e[0] == o[0] && e[|o|..] == rest;
    if k == 2 {
      PairRoundTrip(u[0], u[1], rest);
    } else {
      UnitRoundTrip(Mapped(u[0], d.altslash), rest);
    }
  }

  lemma {:induction false} RawOfEncoding(d: Decoder, u: seq<u16>)
    requires Straight(d) && Encodable(u, d.altslash)
    ensures Raw(d, Encoding(u, d.altslash)) == u && NoNul(Encoding(u, d.altslash))
    decreases |u|
  {
    NothingForbidden(u, d.altslash);
    if u != [] {
      var k := Units(u, d.altslash);
      RawOfEncoding(d, u[k..]);
      FirstReadBack(d, u);
      Halves(u, k);
    }
  }

  /** Decoding what was encoded accepts it and gives a string canonically equivalent to the original. */
  lemma DecodeOfEncoding(d: Decoder, u: seq<u16>)
    requires d.tables.Valid() && Straight(d) && Encodable(u, d.altslash) && |Encoding(u, d.altslash)| <= d.room
    ensures d.Decode(Encoding(u, d.altslash)).Outcome? && d.Decode(Encoding(u, d.altslash)).result == 0
    ensures Equivalent(d.tables.ccc, d.Decode(Encoding(u, d.altslash)).out, u)
    ensures Canonical(d.tables.ccc, u) ==> d.Decode(Encoding(u, d.altslash)).out == u
  {
    var e := Encoding(u, d.altslash);
    RawOfEncoding(d, u);
    BeforeNulAll(e);
    EncodingIsText(u, d.altslash);
    ValidatorAgrees(d, e);
    DecodeEquivalent(d, [], 0, e);
    assert [] + u == u;
    if Canonical(d.tables.ccc, u) {
      DecodeCanonical(d, [], 0, e);
    }
  }

  lemma UnchangedOrOrdered(d: Decoder, e: seq<u8>)
    requires d.tables.Valid() && d.form != Precomposed
    requires d.Decode(e).Outcome? && d.Decode(e).result == 0
    ensures d.Decode(e).out == Raw(d, e) <==> RunsInOrder(d, [], e)
    ensures Canonical(d.tables.ccc, Raw(d, e)) <==> RunsInOrder(d, [], e) && InOrder(d, [], [], e)
  {
    var none: seq<u16> := [];
    assert none + none == none && none + Raw(d, e) == Raw(d, e);
    DecodeUnchanged(d, none, none, e);
    DecodeOrders(d, e);
    if Canonical(d.tables.ccc, Raw(d, e)) {
      DecodeCanonical(d, none, 0, e);
    }
  }

  /** The round trip gives the original back exactly if no run is settled out of order. The original is in canonical
      order exactly if, besides, everything is settled in order with what came before. */
  lemma RoundTripExactly(d: Decoder, u: seq<u16>)
    requires d.tables.Valid() && Straight(d) && Encodable(u, d.altslash) && |Encoding(u, d.altslash)| <= d.room
    ensures d.Decode(Encoding(u, d.altslash)) == Outcome(0, u) <==> RunsInOrder(d, [], Encoding(u, d.altslash))
    ensures Canonical(d.tables.ccc, u)
       <==> RunsInOrder(d, [], Encoding(u, d.altslash)) && InOrder(d, [], [], Encoding(u, d.altslash))
  {
    DecodeOfEncoding(d, u);
    RawOfEncoding(d, u);
    UnchangedOrOrdered(d, Encoding(u, d.altslash));
  }

  /** Where ordering catches everything, the round trip gives the original back exactly if it was in order. */
  lemma RoundTripNeedsOrder(d: Decoder, u: seq<u16>)
    requires d.tables.Valid() && Straight(d) && Encodable(u, d.altslash) && |Encoding(u, d.altslash)| <= d.room
    requires Orderly(d, 0, Encoding(u, d.altslash))
    ensures d.Decode(Encoding(u, d.altslash)) == Outcome(0, u) <==> Canonical(d.tables.ccc, u)
  {
    RoundTripExactly(d, u);
    OrderlyInOrder(d, [], [], Encoding(u, d.altslash));
  }

  // ----- encode after decode -----

  /** The first character written back is the first character read. */
  lemma FirstWrittenBack(d: Decoder, s: seq<u8>, more: seq<u16>)
    requires Straight(d) && s != [] && s[0] != 0 && !Scan(s).Illegal? && SlashFree(s, d.altslash)
    ensures var p := Parts(d, Scan(s));
            && p != [] && Units(p + more, d.altslash) == |p| && Octets(p + more, d.altslash) + Rest(s) == s
  {
    ScanSpells(s);
    ScanIsGrammar(s);
    Halves(s, Size(s[0]));
    var p := Parts(d, Scan(s));
    assert (p + more)[0] == p[0] && (|p| > 1 ==> (p + more)[1] == p[1]);
    if Scan(s).Unit? {
      assert !High(p[0]);
      assert Mapped(p[0], d.altslash) == Scan(s).ch;
    }
  }

  lemma {:induction false} EncodingOfRaw(d: Decoder, s: seq<u8>)
    requires Straight(d) && NoNul(s) && Text(s) && SlashFree(s, d.altslash)
    ensures Encoding(Raw(d, s), d.altslash) == s
    decreases |s|
  {
    if s != [] {
      TextScan(s);
      assert Rest(s) == s[Size(s[0])..];
      EncodingOfRaw(d, Rest(s));
      var p, more := Parts(d, Scan(s)), Raw(d, Rest(s));
      FirstWrittenBack(d, s, more);
      assert (p + more)[|p|..] == more;
    }
  }

  /** Encoding what was decoded gives the octets back, if no run is settled out of order. A string whose characters
      are in canonical order is such a string. */
  lemma EncodingOfDecode(d: Decoder, s: seq<u8>)
    requires d.tables.Valid() && Straight(d) && NoNul(s) && Text(s) && SlashFree(s, d.altslash) && |s| <= d.room
    ensures d.Decode(s).Outcome? && d.Decode(s).result == 0
    ensures RunsInOrder(d, [], s) ==> Encoding(d.Decode(s).out, d.altslash) == s
    ensures Canonical(d.tables.ccc, Raw(d, s)) ==> RunsInOrder(d, [], s)
  {
    BeforeNulAll(s);
    ValidatorAgrees(d, s);
    UnchangedOrOrdered(d, s);
    EncodingOfRaw(d, s);
  }

  // ----- composing undoes decomposing -----

  /** Units written as characters of their own. */
  predicate Writable(altslash: u16, c: u16) { Mapped(c, altslash) == c && !High(c) && !Low(c) && !Barred(c) }

  predicate PairAhead(u: seq<u16>) { |u| > 1 && High(u[0]) && Low(u[1]) }

  function PartsOf(t: Tables, c: u16): seq<u16> { if t.Decomposable(c) then t.Decompose(c) else [c] }

  /** The full decomposition. */
  function Decomposition(t: Tables, u: seq<u16>): seq<u16> {
    if u == [] then []
    else if PairAhead(u) then [u[0], u[1]] + Decomposition(t, u[2..])
    else PartsOf(t, u[0]) + Decomposition(t, u[1..])
  }

  lemma EncodingOfPair(u: seq<u16>, altslash: u16)
    requires PairAhead(u)
    ensures Encoding(u, altslash) == PairOctets(u[0], u[1]) + Encoding(u[2..], altslash)
  {}

  lemma EncodingOfUnit(u: seq<u16>, altslash: u16)
    requires u != [] && Writable(altslash, u[0])
    ensures Encoding(u, altslash) == UnitOctets(u[0]) + Encoding(u[1..], altslash)
  {}

  // decomposing

  /** Characters the decoder, decomposing, reads as they were written. */
  predicate Decodable(d: Decoder, u: seq<u16>) {
    u == [] ||
    if PairAhead(u) then Decodable(d, u[2..])
    else
      && Writable(d.altslash, u[0]) && (d.tables.Decomposable(u[0]) || d.Shown(u[0]) == u[0])
      && Decodable(d, u[1..])
  }

  lemma {:induction false} RawIsDecomposition(d: Decoder, u: seq<u16>)
    requires d.form == Decomposed && Decodable(d, u)
    ensures Text(BeforeNul(Encoding(u, d.altslash)))
    ensures Raw(d, Encoding(u, d.altslash)) == Decomposition(d.tables, u)
  {
    if u != [] {
      var e := Encoding(u, d.altslash);
      if PairAhead(u) {
        var o := PairOctets(u[0], u[1]);
        RawIsDecomposition(d, u[2..]);
        EncodingOfPair(u, d.altslash);
        PairRoundTrip(u[0], u[1], Encoding(u[2..], d.altslash));
        assert e[0] == o[0] && e[|o|..] == Encoding(u[2..], d.altslash);
      } else {
        var o := UnitOctets(u[0]);
        RawIsDecomposition(d, u[1..]);
        EncodingOfUnit(u, d.altslash);
        UnitRoundTrip(u[0], Encoding(u[1..], d.altslash));
        assert e[0] == o[0] && e[|o|..] == Encoding(u[1..], d.altslash);
      }
      TextGoesOn(e);
    }
  }

  /** Decoding text decomposed gives its full decomposition exactly if no run is settled out of order, which is so if
      the decomposition is in canonical order. */
  lemma Decomposes(d: Decoder, u: seq<u16>)
    requires d.tables.Valid() && d.form == Decomposed && Decodable(d, u) && |Decomposition(d.tables, u)| < d.room
    ensures d.Decode(Encoding(u, d.altslash)) == Outcome(0, Decomposition(d.tables, u))
       <==> RunsInOrder(d, [], Encoding(u, d.altslash))
    ensures Canonical(d.tables.ccc, Decomposition(d.tables, u)) ==> RunsInOrder(d, [], Encoding(u, d.altslash))
  {
    var none: seq<u16> := [];
    var e := Encoding(u, d.altslash);
    RawIsDecomposition(d, u);
    DecodeSucceeds(d, none, 0, e);
    UnchangedOrOrdered(d, e);
  }

  // composing

  /** Composing b with the combining characters that follow, one after the other, ends in c. */
  predicate ComposesTo(d: Decoder, b: u16, marks: seq<u16>, c: u16)
    decreases |marks|
  {
    if marks == [] then b == c
    else
      var n := d.tables.Combine(b, marks[0]);
      d.tables.Combinable(marks[0]) && n != 0 && d.Shown(n) == n && ComposesTo(d, n, marks[1..], c)
  }

  /** What c is decomposed into composes to c again, and its first part stays apart from what is already out. A
      character that is not decomposed only has to stay apart. */
  predicate Recomposes(d: Decoder, out: seq<u16>, c: u16) {
    var p := PartsOf(d.tables, c);
    && (forall i :: 0 <= i < |p| ==> Writable(d.altslash, p[i]))
    && p != [] && d.Shown(p[0]) == p[0] && d.Composite(out, p[0]) == 0 && ComposesTo(d, p[0], p[1..], c)
  }

  predicate AllRecompose(d: Decoder, out: seq<u16>, u: seq<u16>)
    decreases |u|
  {
    u == [] ||
    if PairAhead(u) then AllRecompose(d, out + [u[0]] + [u[1]], u[2..])
    else Recomposes(d, out, u[0]) && AllRecompose(d, out + [u[0]], u[1..])
  }

  /** No combining character is a base or a composite on the way to c. */
  predicate Tame(t: Tables, c: u16) {
    t.Decomposable(c) ==>
      var p := t.Decompose(c);
      p != [] && !t.Combinable(p[0]) && NoCombiningComposite(t, p[0], p[1..])
  }

  predicate NoCombiningComposite(t: Tables, b: u16, marks: seq<u16>)
    decreases |marks|
  {
    marks == [] ||
    var n := t.Combine(b, marks[0]);
    !t.Combinable(n) && NoCombiningComposite(t, n, marks[1..])
  }

  predicate AllTame(t: Tables, u: seq<u16>) { forall i :: 0 <= i < |u| ==> Tame(t, u[i]) }

  /** The run after c is placed, and after b is combined with the marks in turn. */
  function RunAfter(t: Tables, run: nat, c: u16): nat { if t.Combinable(c) then run + 1 else 0 }

  function RunAfterMarks(t: Tables, run: nat, b: u16, marks: seq<u16>): nat
    decreases |marks|
  {
    if marks == [] then run
    else
      var n := t.Combine(b, marks[0]);
      RunAfterMarks(t, RunAfter(t, run, n), n, marks[1..])
  }

  /** The decoder either goes on as in b, or would sort from before the buffer. */
  predicate GoesOn(a: Outcome, b: Outcome) { a == b || a == Outside }

  /** In canonical order nothing is moved by placing a character. */
  lemma PlacedInOrder(d: Decoder, out: seq<u16>, run: nat, c: u16)
    requires Canonical(d.tables.ccc, out)
    ensures d.Place(out, run, c) == More(out + [c], RunAfter(d.tables, run, c)) || d.Place(out, run, c) == End(Outside)
    ensures run <= |out| ==> d.Place(out, run, c) == More(out + [c], RunAfter(d.tables, run, c))
  {
    if run <= |out| {
      SettledInOrder(d, out, run);
    }
  }

  /** Decoding a unit that stays apart. */
  lemma OpeningUnit(d: Decoder, out: seq<u16>, run: nat, c: u16, rest: seq<u8>)
    requires d.tables.Valid() && d.form == Precomposed && |out| < d.room && Canonical(d.tables.ccc, out)
    requires Writable(d.altslash, c) && d.Shown(c) == c && d.Composite(out, c) == 0
    ensures var a, b := d.DecodeFrom(out, run, UnitOctets(c) + rest),
                        d.DecodeFrom(out + [c], RunAfter(d.tables, run, c), rest);
            GoesOn(a, b) && (run <= |out| ==> a == b)
  {
    DecodeUnit(d, out, run, c, rest);
    PlacedInOrder(d, out, run, c);
  }

  lemma ComposedStep(d: Decoder, out: seq<u16>, run: nat, b: u16, c: u16, n: u16)
    requires d.tables.Valid() && d.form == Precomposed && |out| + 1 < d.room && d.tables.Combinable(c)
    requires n == d.tables.Combine(b, c) && n != 0 && d.Shown(n) == n
    ensures d.Step(out + [b], run, Unit(c)) == d.Place(out, run, n)
  {
    assert (out + [b])[..|out|] == out;
  }

  /** Decoding a combining unit that has a composite with the last one. */
  lemma ComposedUnit(d: Decoder, out: seq<u16>, run: nat, b: u16, c: u16, n: u16, rest: seq<u8>)
    requires d.tables.Valid() && d.form == Precomposed && |out| + 1 < d.room && Canonical(d.tables.ccc, out)
    requires Writable(d.altslash, c) && d.tables.Combinable(c)
    requires n == d.tables.Combine(b, c) && n != 0 && d.Shown(n) == n
    ensures GoesOn(d.DecodeFrom(out + [b], run, UnitOctets(c) + rest),
                   d.DecodeFrom(out + [n], RunAfter(d.tables, run, n), rest))
    ensures run <= |out| ==>
              d.DecodeFrom(out + [b], run, UnitOctets(c) + rest)
              == d.DecodeFrom(out + [n], RunAfter(d.tables, run, n), rest)
  {
    DecodeUnit(d, out + [b], run, c, rest);
    ComposedStep(d, out, run, b, c, n);
    PlacedInOrder(d, out, run, n);
  }

  lemma {:induction false} ComposedMarks(d: Decoder, out: seq<u16>, run: nat, b: u16, marks: seq<u16>, c: u16,
                                         rest: seq<u8>)
    requires d.tables.Valid() && d.form == Precomposed && |out| + 1 < d.room && Canonical(d.tables.ccc, out)
    requires ComposesTo(d, b, marks, c) && forall i :: 0 <= i < |marks| ==> Writable(d.altslash, marks[i])
    ensures var run' := RunAfterMarks(d.tables, run, b, marks);
            var x, y := d.DecodeFrom(out + [b], run, Encoding(marks, d.altslash) + rest),
                        d.DecodeFrom(out + [c], run', rest);
            && GoesOn(x, y)
            && (marks == [] || (run == 0 && NoCombiningComposite(d.tables, b, marks)) ==>
                  x == y && (run' == run))
    decreases |marks|
  {
    if marks == [] {
      assert Encoding(marks, d.altslash) + rest == rest;
    } else {
      var n, o := d.tables.Combine(b, marks[0]), Encoding(marks[1..], d.altslash);
      EncodingOfUnit(marks, d.altslash);
      Associative(UnitOctets(marks[0]), o, rest);
      ComposedUnit(d, out, run, b, marks[0], n, o + rest);
      ComposedMarks(d, out, RunAfter(d.tables, run, n), n, marks[1..], c, rest);
    }
  }

  function RunAfterParts(t: Tables, run: nat, p: seq<u16>): nat
    requires p != []
  {
    RunAfterMarks(t, RunAfter(t, run, p[0]), p[0], p[1..])
  }

  /** Decoding a decomposed character precomposed. */
  lemma ComposedChar(d: Decoder, out: seq<u16>, run: nat, c: u16, rest: seq<u8>)
    requires d.tables.Valid() && d.form == Precomposed && |out| + 1 < d.room && Canonical(d.tables.ccc, out)
    requires Recomposes(d, out, c)
    ensures var p := PartsOf(d.tables, c);
            var run' := RunAfterParts(d.tables, run, p);
            var x, y := d.DecodeFrom(out, run, Encoding(p, d.altslash) + rest), d.DecodeFrom(out + [c], run', rest);
            GoesOn(x, y) && (run <= |out| && Tame(d.tables, c) ==> x == y && run' <= |out| + 1)
  {
    var p := PartsOf(d.tables, c);
    var o := Encoding(p[1..], d.altslash);
    EncodingOfUnit(p, d.altslash);
    Associative(UnitOctets(p[0]), o, rest);
    OpeningUnit(d, out, run, p[0], o + rest);
    ComposedMarks(d, out, RunAfter(d.tables, run, p[0]), p[0], p[1..], c, rest);
  }

  lemma Behind(out: seq<u16>, u: seq<u16>, k: nat)
    requires k <= |u|
    ensures out + u[..k] + u[k..] == out + u
    ensures k == 1 ==> u[..k] == [u[0]]
    ensures k == 2 ==> u[..k] == [u[0]] + [u[1]]
  {
    Associative(out, u[..k], u[k..]);
    Halves(u, k);
  }

  lemma {:induction false} ComposedText(d: Decoder, out: seq<u16>, run: nat, u: seq<u16>)
    requires d.tables.Valid() && d.form == Precomposed && Canonical(d.tables.ccc, out + u)
    requires AllRecompose(d, out, u) && |out| + |u| < d.room
    ensures var x := d.DecodeFrom(out, run, Encoding(Decomposition(d.tables, u), d.altslash));
            && GoesOn(x, Outcome(0, out + u))
            && (run <= |out| && AllTame(d.tables, u) ==> x == Outcome(0, out + u))
    decreases |u|
  {
    var parts := Decomposition(d.tables, u);
    PrefixCanonical(d.tables.ccc, out, u);
    if u == [] {
      assert out + [] == out;
      if run <= |out| {
        SettledInOrder(d, out, run);
      }
    } else if PairAhead(u) {
      var more := Decomposition(d.tables, u[2..]);
      assert parts[2..] == more;
      EncodingOfPair(parts, d.altslash);
      PairNext(d, out, run, u[0], u[1], Encoding(more, d.altslash));
      Behind(out, u, 2);
      Associative(out, [u[0]], [u[1]]);
      ComposedText(d, out + [u[0]] + [u[1]], run, u[2..]);
    } else {
      var p, more := PartsOf(d.tables, u[0]), Decomposition(d.tables, u[1..]);
      EncodingAppend(p, more, d.altslash);
      ComposedChar(d, out, run, u[0], Encoding(more, d.altslash));
      Behind(out, u, 1);
      ComposedText(d, out + [u[0]], RunAfterParts(d.tables, run, p), u[1..]);
    }
  }

  /** For text in canonical order whose characters are what their decompositions compose to: decoding decomposed gives
      the full decomposition exactly if no run is settled out of order, and decoding that precomposed gives the text
      back exactly if the sort stays inside the buffer. */
  lemma ComposeUndoesDecompose(nfd: Decoder, nfc: Decoder, u: seq<u16>)
    requires nfd.tables == nfc.tables && nfd.tables.Valid() && nfd.form == Decomposed && nfc.form == Precomposed
    requires Decodable(nfd, u) && AllRecompose(nfc, [], u) && Canonical(nfd.tables.ccc, u)
    requires |Decomposition(nfd.tables, u)| < nfd.room && |u| < nfc.room
    ensures nfd.Decode(Encoding(u, nfd.altslash)) == Outcome(0, Decomposition(nfd.tables, u))
       <==> RunsInOrder(nfd, [], Encoding(u, nfd.altslash))
    ensures Canonical(nfd.tables.ccc, Decomposition(nfd.tables, u)) ==> RunsInOrder(nfd, [], Encoding(u, nfd.altslash))
    ensures nfc.Decode(Encoding(Decomposition(nfd.tables, u), nfc.altslash)) == Outcome(0, u)
       <==> !Overruns(nfc, 0, 0, 0, Encoding(Decomposition(nfd.tables, u), nfc.altslash))
    ensures AllTame(nfd.tables, u) ==> !Overruns(nfc, 0, 0, 0, Encoding(Decomposition(nfd.tables, u), nfc.altslash))
  {
    var none: seq<u16> := [];
    assert none + u == u;
    Decomposes(nfd, u);
    ComposedText(nfc, none, 0, u);
    OutsideExactly(nfc, none, 0, Encoding(Decomposition(nfd.tables, u), nfc.altslash));
  }

  // ----- Hangul, section 3.12 of the Unicode Standard -----

  predicate Syllable(c: u16) { HANGUL_SBASE <= c < HANGUL_SBASE + HANGUL_SCOUNT }

  predicate Leading(c: u16) { HANGUL_LBASE <= c < HANGUL_LBASE + HANGUL_LCOUNT }

  predicate Trailing(c: u16) { HANGUL_TBASE < c < HANGUL_TBASE + HANGUL_TCOUNT }

  /** What the tables say about Hangul. */
  ghost predicate KnowHangul(t: Tables) {
    && (forall c :: Syllable(c) ==> t.Decomposable(c) && !t.Combinable(c) && t.ccc(c) == 0)
    && (forall c :: Leading(c) ==> !t.Combinable(c) && t.ccc(c) == 0)
    && (forall c :: IsVowel(c) || Trailing(c) ==> t.Combinable(c) && t.ccc(c) == 0)
  }

  lemma SyllableIndex(i: nat)
    requires i < HANGUL_SCOUNT
    ensures var l, v, r := i / HANGUL_NCOUNT, i % HANGUL_NCOUNT / HANGUL_TCOUNT, i % HANGUL_TCOUNT;
            && i == l * HANGUL_NCOUNT + v * HANGUL_TCOUNT + r && l < HANGUL_LCOUNT && v < HANGUL_VCOUNT
            && (l * HANGUL_NCOUNT + v * HANGUL_TCOUNT) % HANGUL_TCOUNT == 0
  {}

  /** Composing the parts of a syllable, first two and then the third, gives the syllable. */
  lemma PartsCompose(t: Tables, c: u16)
    requires Syllable(c)
    ensures var p := HangulParts(c - HANGUL_SBASE);
            && Leading(p[0]) && IsVowel(p[1]) && Syllable(t.Combine(p[0], p[1]))
            && (|p| == 3 ==> Trailing(p[2]) && t.Combine(t.Combine(p[0], p[1]), p[2]) == c)
            && (|p| == 2 ==> t.Combine(p[0], p[1]) == c)
  {
    var i := c - HANGUL_SBASE;
    SyllableIndex(i);
  }

  lemma SyllableRecomposes(d: Decoder, out: seq<u16>, c: u16)
    requires KnowHangul(d.tables) && Syllable(c) && d.altslash < 0x80
    ensures Recomposes(d, out, c) && Tame(d.tables, c)
    ensures forall i :: 0 <= i < |d.tables.Decompose(c)| ==> d.tables.ccc(d.tables.Decompose(c)[i]) == 0
  {
    PartsCompose(d.tables, c);
    ChainOfTwo(d, d.tables.Decompose(c), c);
  }

  lemma ChainOfTwo(d: Decoder, p: seq<u16>, c: u16)
    requires KnowHangul(d.tables) && Syllable(c) && 2 <= |p| <= 3 && d.altslash < 0x80
    requires Leading(p[0]) && IsVowel(p[1]) && Syllable(d.tables.Combine(p[0], p[1]))
    requires |p| == 3 ==> Trailing(p[2]) && d.tables.Combine(d.tables.Combine(p[0], p[1]), p[2]) == c
    requires |p| == 2 ==> d.tables.Combine(p[0], p[1]) == c
    ensures ComposesTo(d, p[0], p[1..], c) && NoCombiningComposite(d.tables, p[0], p[1..])
  {
    var n := d.tables.Combine(p[0], p[1]);
    assert p[1..][1..] == p[2..];
    if |p| == 3 {
      assert p[2..][0] == p[2] && p[2..][1..] == [];
      assert ComposesTo(d, n, p[2..], c) && NoCombiningComposite(d.tables, n, p[2..]);
    }
  }

  lemma {:induction false} SyllablesRecompose(nfd: Decoder, nfc: Decoder, out: seq<u16>, u: seq<u16>)
    requires nfd.tables == nfc.tables && nfc.altslash < 0x80 && KnowHangul(nfd.tables)
    requires forall i :: 0 <= i < |u| ==> Syllable(u[i])
    ensures Decodable(nfd, u) && AllRecompose(nfc, out, u)
    ensures forall i :: 0 <= i < |Decomposition(nfd.tables, u)| ==> nfd.tables.ccc(Decomposition(nfd.tables, u)[i]) == 0
    decreases |u|
  {
    if u != [] {
      SyllableRecomposes(nfc, out, u[0]);
      SyllablesRecompose(nfd, nfc, out + [u[0]], u[1..]);
    }
  }

  /** NFD and then NFC is the identity on Hangul syllables. */
  lemma HangulRoundTrip(nfd: Decoder, nfc: Decoder, u: seq<u16>)
    requires nfd.tables == nfc.tables && nfd.tables.Valid() && nfd.form == Decomposed && nfc.form == Precomposed
    requires nfc.altslash < 0x80 && KnowHangul(nfd.tables) && forall i :: 0 <= i < |u| ==> Syllable(u[i])
    requires |Decomposition(nfd.tables, u)| < nfd.room && |u| < nfc.room
    ensures nfd.Decode(Encoding(u, nfd.altslash)) == Outcome(0, Decomposition(nfd.tables, u))
    ensures nfc.Decode(Encoding(Decomposition(nfd.tables, u), nfc.altslash)) == Outcome(0, u)
  {
    SyllablesRecompose(nfd, nfc, [], u);
    forall i | 0 <= i < |u| ensures Tame(nfd.tables, u[i]) {
      SyllableRecomposes(nfc, [], u[i]);
    }
    ComposeUndoesDecompose(nfd, nfc, u);
  }

  /** The jamo a syllable comes apart into, and how jamo combine, in the numbers of the standard. U+D7A4, behind the
      last syllable, is taken for one. */
  lemma HangulByNumber(t: Tables, c: u16)
    requires 0xAC00 <= c <= 0xD7A4
    ensures var i := c - 0xAC00;
            t.Decompose(c) == [0x1100 + i / 588, 0x1161 + i % 588 / 28]
                              + if i % 28 == 0 then [] else [0x11A7 + i % 28]
  {}

  lemma JamoByNumber(t: Tables, l: nat, v: nat, f: nat)
    requires l < 19 && v < 21 && 0 < f < 28
    ensures t.Combine(0x1100 + l, 0x1161 + v) == 0xAC00 + (l * 21 + v) * 28
    ensures t.Combine(0xAC00 + (l * 21 + v) * 28, 0x11A7 + f) == 0xAC00 + (l * 21 + v) * 28 + f
  {
    var n := l * 21 + v;
    assert n < 399 && n * 28 % 28 == 0;
  }

  /** A syllable that has a trailing consonant takes no other, and what is not Hangul is left to the table. */
  lemma OtherByTable(t: Tables, b: u16, c: u16)
    ensures 0xAC00 <= b <= 0xD7A3 && (b - 0xAC00) % 28 != 0 && 0x11A8 <= c <= 0x11C2 ==> t.Combine(b, c) == 0
    ensures !(0x1161 <= c <= 0x1175 || 0x11A8 <= c <= 0x11C2) ==> t.Combine(b, c) == t.composition(b, c)
    ensures !(0x1100 <= b <= 0x1112 || 0xAC00 <= b <= 0xD7A3) ==> t.Combine(b, c) == t.composition(b, c)
  {}

  // ----- decomposing by the tables -----

  /** The bitmaps have no bit for a character below those the program looks up. */
  ghost predicate BitmapsStart(t: Tables) {
    && (forall c: u16 :: c < 0x00C0 ==> !t.decomposing(c))
    && (forall c: u16 :: c < 0x0300 ==> !t.combining(c))
  }

  lemma BitmapsDecide(t: Tables, c: u16)
    requires BitmapsStart(t)
    ensures t.Decomposable(c) == t.decomposing(c) && t.Combinable(c) == t.combining(c)
  {}

  /** What the tables say a character comes apart into: itself if the bitmap does not have it; for Hangul the jamo, also
      for the code behind the last syllable; otherwise its mapping. */
  function TableParts(t: Tables, c: u16): seq<u16> {
    if !t.decomposing(c) then [c]
    else if 0xAC00 <= c <= 0xD7A4 then
      var i := c - 0xAC00;
      [0x1100 + i / 588, 0x1161 + i % 588 / 28] + if i % 28 == 0 then [] else [0x11A7 + i % 28]
    else t.decomposition(c)
  }

  function TableDecomposition(t: Tables, u: seq<u16>): seq<u16> {
    if u == [] then []
    else if PairAhead(u) then [u[0], u[1]] + TableDecomposition(t, u[2..])
    else TableParts(t, u[0]) + TableDecomposition(t, u[1..])
  }

  lemma {:induction false} DecompositionByTable(t: Tables, u: seq<u16>)
    requires BitmapsStart(t)
    ensures Decomposition(t, u) == TableDecomposition(t, u)
  {
    if u != [] {
      BitmapsDecide(t, u[0]);
      DecompositionByTable(t, u[if PairAhead(u) then 2 else 1..]);
    }
  }

  /** Well-formed text without NUL, U+2400 and the two noncharacters. */
  predicate Ordinary(u: seq<u16>) {
    u == [] ||
    if PairAhead(u) then Ordinary(u[2..])
    else
      && !(0xD800 <= u[0] <= 0xDFFF) && u[0] != 0 && u[0] != 0x2400 && u[0] != 0xFFFE && u[0] != 0xFFFF
      && Ordinary(u[1..])
  }

  lemma {:induction false} OrdinaryDecodable(d: Decoder, u: seq<u16>)
    requires d.altslash == 0x2F && Ordinary(u)
    ensures Decodable(d, u)
  {
    if u != [] {
      OrdinaryDecodable(d, u[if PairAhead(u) then 2 else 1..]);
    }
  }

  /** Decomposed decoding, with the slash as its own alternate, gives exactly what the tables say every character comes
      apart into, if that is in canonical order. */
  lemma DecomposesByTable(d: Decoder, u: seq<u16>)
    requires d.tables.Valid() && BitmapsStart(d.tables) && d.form == Decomposed && d.altslash == 0x2F && Ordinary(u)
    requires |TableDecomposition(d.tables, u)| < d.room
    requires Canonical(d.tables.ccc, TableDecomposition(d.tables, u))
    ensures d.Decode(Encoding(u, 0x2F)) == Outcome(0, TableDecomposition(d.tables, u))
  {
    DecompositionByTable(d.tables, u);
    OrdinaryDecodable(d, u);
    Decomposes(d, u);
  }

  /** Decoding a string of one unit that leaves at most one combining character pending. */
  lemma DecodeOne(d: Decoder, c: u16, out: seq<u16>, run: nat)
    requires d.tables.Valid() && d.room > 0 && c != 0 && !High(c) && !Low(c) && !Barred(c) && run <= 1
    requires d.Step([], 0, Unit(c)) == More(out, run)
    ensures d.Decode(UnitOctets(c)) == Outcome(0, out)
  {
    var none: seq<u8> := [];
    DecodeUnit(d, [], 0, c, none);
    assert UnitOctets(c) + none == UnitOctets(c);
    assert d.DecodeFrom(out, run, none) == d.Finish(out, run);
  }

  /** Encoding a string of one unit. */
  lemma EncodeOne(c: u16, altslash: u16)
    requires !High(Mapped(c, altslash))
    ensures Encoding([c], altslash) == UnitOctets(Mapped(c, altslash))
  {
    var u: seq<u16> := [c];
    assert u[1..] == [] && Encoding(u[1..], altslash) == [];
  }

  /** The octets C3 89, U+00C9, decomposed. */
  lemma UpperAcute(d: Decoder)
    requires d.tables.Valid() && d.form == Decomposed && d.altslash == 0x2F && d.room >= 3
    requires d.tables.decomposing(0xC9) && d.tables.decomposition(0xC9) == [0x45, 0x0301]
    ensures d.Decode([0xC3, 0x89]) == Outcome(0, [0x45, 0x0301])
  {
    var none: seq<u16> := [];
    assert UnitOctets(0xC9) == [0xC3, 0x89] && none + [0x45, 0x0301] == [0x45, 0x0301];
    assert d.Step([], 0, Unit(0xC9)) == More([0x45, 0x0301], 1);
    DecodeOne(d, 0xC9, [0x45, 0x0301], 1);
  }

  // ----- the characters that are not permitted in names -----

  /** NUL is written as U+2400, and read back from it. */
  lemma NulAlternate(d: Decoder, altslash: u16)
    requires d.tables.Valid() && d.form == AsIs && d.altslash == 0x2F && d.room >= 1
    ensures Encoding([0], altslash) == [0xE2, 0x90, 0x80]
    ensures d.Decode([0xE2, 0x90, 0x80]) == Outcome(0, [0])
  {
    var none: seq<u16> := [];
    EncodeOne(0, altslash);
    assert UnitOctets(0x2400) == [0xE2, 0x90, 0x80] && none + [0] == [0];
    assert d.Step([], 0, Unit(0x2400)) == More([0], 0);
    DecodeOne(d, 0x2400, [0], 0);
  }

  /** The slash is written as the alternate, or as an underscore without one, and read back from the alternate. */
  lemma SlashAlternate(d: Decoder)
    requires d.tables.Valid() && d.form == AsIs && d.altslash == 0x3A && d.room >= 1
    ensures Encoding([0x2F], 0x3A) == [0x3A] && Encoding([0x2F], 0) == [0x5F]
    ensures d.Decode([0x3A]) == Outcome(0, [0x2F])
  {
    var none: seq<u16> := [];
    EncodeOne(0x2F, 0x3A);
    EncodeOne(0x2F, 0);
    assert UnitOctets(0x3A) == [0x3A] && UnitOctets(0x5F) == [0x5F] && none + [0x2F] == [0x2F];
    assert d.Step([], 0, Unit(0x3A)) == More([0x2F], 0);
    DecodeOne(d, 0x3A, [0x2F], 0);
  }

  // ----- an accented letter -----

  /** What the tables say about U+00E9. */
  ghost predicate KnowAcute(t: Tables) {
    && t.decomposing(0xE9) && t.decomposition(0xE9) == [0x65, 0x0301] && t.composition(0x65, 0x0301) == 0xE9
    && t.combining(0x0301) && t.ccc(0x0301) == 230 && t.ccc(0xE9) == t.ccc(0x65) == 0
  }

  /** U+00E9 is a character the round trip is promised for: it comes apart as e and U+0301, and together again. */
  lemma AcuteRoundTrip(nfd: Decoder, nfc: Decoder)
    requires nfd.tables == nfc.tables && nfd.tables.Valid() && nfd.form == Decomposed && nfc.form == Precomposed
    requires nfd.altslash == nfc.altslash == SLASH && KnowAcute(nfd.tables) && nfd.room >= 3 && nfc.room >= 2
    ensures nfd.Decode(Encoding([0xE9], SLASH)) == Outcome(0, [0x65, 0x0301])
    ensures nfc.Decode(Encoding([0x65, 0x0301], SLASH)) == Outcome(0, [0xE9])
  {
    var u: seq<u16> := [0xE9];
    var p := nfd.tables.Decompose(0xE9);
    assert p == [0x65, 0x0301] && p[1..] == [0x0301] && nfc.tables.Combine(0x65, 0x0301) == 0xE9;
    assert ComposesTo(nfc, 0xE9, p[1..][1..], 0xE9);
    assert ComposesTo(nfc, 0x65, p[1..], 0xE9);
    assert Recomposes(nfc, [], 0xE9) && u[1..] == [] && p + [] == p;
    assert Decomposition(nfd.tables, u) == p;
    ComposeUndoesDecompose(nfd, nfc, u);
  }
}
