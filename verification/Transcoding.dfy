/** What UTF conversion promises as a whole: which strings are accepted, what the decoder's ordering does to them, and
    that encoding and decoding undo each other. */
module Transcoding {
  import opened MachineTypes
  import opened Checks
  import opened Sequences
  import opened Utf8
  import opened Utf8Decoder
  import opened CanonicalOrder

  // ----- which strings are accepted -----

  /** With a code unit of room for every octet, the decoder returns 0 exactly for the strings the grammar allows. */
  lemma {:induction false} DecodeAccepts(d: Decoder, out: seq<u16>, run: nat, s: seq<u8>)
    requires d.tables.Valid() && d.form == AsIs && run <= |out| && |out| + |s| <= d.room
    ensures d.DecodeFrom(out, run, s).Outcome?
    ensures d.DecodeFrom(out, run, s).result == if Text(BeforeNul(s)) then 0 else EINVAL
    decreases |s|
  {
    if s != [] && s[0] != 0 {
      TextGoesOn(s);
      match d.Step(out, run, Scan(s)) {
        case More(out', run') => DecodeAccepts(d, out', run', Rest(s));
        case End(outcome) =>
      }
    }
  }

  /** The validator and the decoder agree. */
  lemma ValidatorAgrees(d: Decoder, s: seq<u8>)
    requires d.tables.Valid() && d.form == AsIs && |s| <= d.room
    ensures d.Decode(s).Outcome?
    ensures d.Decode(s).result == 0 <==> Text(BeforeNul(s))
  {
    DecodeAccepts(d, [], 0, s);
  }

  // ----- sorting stays inside the buffer -----

  /** All that the window of the sort depends on: how many units are out, the last of them, and how many are pending. */
  datatype Track = Track(n: nat, last: u16, run: nat) | Overrun | Over

  function LastUnit(out: seq<u16>): u16 {
    if out == [] then 0 else out[|out| - 1]
  }

  function PlaceTrack(d: Decoder, n: nat, run: nat, c: u16): Track {
    if d.tables.Combinable(c) then Track(n + 1, c, run + 1)
    else if run > 1 && run > n then Overrun
    else Track(n + 1, c, 0)
  }

  /** The composite with the last unit, or 0. */
  function TrackComposite(d: Decoder, n: nat, last: u16, c: u16): u16 {
    if d.form == Precomposed && n > 0 && d.tables.Combinable(c) then d.tables.Combine(last, c) else 0
  }

  function StepTrack(d: Decoder, n: nat, last: u16, run: nat, c: Scanned): Track
    requires d.tables.Valid()
  {
    match c
    case Illegal => Over
    case Pair(hi, lo) => if n + 1 >= d.room then Over else Track(n + 2, lo, run)
    case Unit(ch) =>
      var composite := TrackComposite(d, n, last, ch);
      if d.form == Decomposed && d.tables.Decomposable(ch) then
        var parts := d.tables.Decompose(ch);
        if run > 1 && run > n then Overrun
        else if n + |parts| < d.room then Track(n + |parts|, parts[|parts| - 1], |parts| - 1)
        else Over
      else if composite != 0 then PlaceTrack(d, n - 1, run, d.Shown(composite))
      else PlaceTrack(d, n, run, d.Shown(ch))
  }

  /** A scan of the input that neither stores nor sorts: does the sort ever ask for more units than are out? */
  predicate Overruns(d: Decoder, n: nat, last: u16, run: nat, s: seq<u8>)
    requires d.tables.Valid()
    decreases |s|
  {
    if s == [] || s[0] == 0 then run > 1 && run > n
    else if n >= d.room then false
    else match StepTrack(d, n, last, run, Scan(s))
      case Track(n', last', run') => Overruns(d, n', last', run', Rest(s))
      case Overrun => true
      case Over => false
  }

  /** What the scan sees of the decoder. */
  function TrackOf(next: Next): Track {
    if next.More? then Track(|next.out|, LastUnit(next.out), next.run)
    else if next.outcome.Outside? then Overrun
    else Over
  }

  lemma PlaceTracks(d: Decoder, out: seq<u16>, run: nat, c: u16)
    ensures TrackOf(d.Place(out, run, c)) == PlaceTrack(d, |out|, run, c)
  {}

  lemma PlacePartsTracks(d: Decoder, out: seq<u16>, run: nat, parts: seq<u16>)
    requires parts != [] && |out| < d.room
    ensures TrackOf(d.PlaceParts(out, run, parts))
         == if run > 1 && run > |out| then Overrun
            else if |out| + |parts| < d.room then Track(|out| + |parts|, parts[|parts| - 1], |parts| - 1)
            else Over
  {}

  lemma StepTracks(d: Decoder, out: seq<u16>, run: nat, c: Scanned)
    requires d.tables.Valid() && |out| < d.room
    ensures TrackOf(d.Step(out, run, c)) == StepTrack(d, |out|, LastUnit(out), run, c)
  {
    if c.Unit? {
      var composite := d.Composite(out, c.ch);
      if d.form == Decomposed && d.tables.Decomposable(c.ch) {
        PlacePartsTracks(d, out, run, d.tables.Decompose(c.ch));
      } else if composite != 0 {
        PlaceTracks(d, out[..|out| - 1], run, d.Shown(composite));
      } else {
        PlaceTracks(d, out, run, d.Shown(c.ch));
      }
    }
  }

  /** The sort starts before the buffer exactly for the strings the scan says, in every form and with every table. */
  lemma {:induction false} OutsideExactly(d: Decoder, out: seq<u16>, run: nat, s: seq<u8>)
    requires d.tables.Valid()
    ensures d.DecodeFrom(out, run, s).Outside? <==> Overruns(d, |out|, LastUnit(out), run, s)
    decreases |s|
  {
    if s != [] && s[0] != 0 && |out| < d.room {
      StepTracks(d, out, run, Scan(s));
      match d.Step(out, run, Scan(s)) {
        case More(out', run') => OutsideExactly(d, out', run', Rest(s));
        case End(_) =>
      }
    }
  }

  /** No mark composes with a last unit that is itself a combining character. */
  predicate MarksApart(d: Decoder, n: nat, last: u16, run: nat, s: seq<u8>)
    requires d.tables.Valid()
    decreases |s|
  {
    s == [] || s[0] == 0 || n >= d.room ||
    var c := Scan(s);
    && !(c.Unit? && d.tables.Combinable(last) && TrackComposite(d, n, last, c.ch) != 0)
    && match StepTrack(d, n, last, run, c)
       case Track(n', last', run') => MarksApart(d, n', last', run', Rest(s))
       case _ => true
  }

  /** Then the sort stays inside the buffer. Without composing it always does. */
  lemma NeverOutside(d: Decoder, s: seq<u8>)
    requires d.tables.Valid() && (d.form == Precomposed ==> MarksApart(d, 0, 0, 0, s))
    ensures d.Decode(s).Outcome?
  {
    NoOverrun(d, 0, 0, 0, s);
    OutsideExactly(d, [], 0, s);
  }

  lemma {:induction false} NoOverrun(d: Decoder, n: nat, last: u16, run: nat, s: seq<u8>)
    requires d.tables.Valid() && run <= n && (0 < run == n ==> d.tables.Combinable(last) || d.form != Precomposed)
    requires d.form == Precomposed ==> MarksApart(d, n, last, run, s)
    ensures !Overruns(d, n, last, run, s)
    decreases |s|
  {
    if s != [] && s[0] != 0 && n < d.room {
      match StepTrack(d, n, last, run, Scan(s)) {
        case Track(n', last', run') => NoOverrun(d, n', last', run', Rest(s));
        case _ =>
      }
    }
  }

  // ----- what is decoded, before ordering -----

  function Parts(d: Decoder, c: Scanned): seq<u16> {
    match c
    case Illegal => []
    case Pair(hi, lo) => [hi, lo]
    case Unit(ch) => if d.form == Decomposed && d.tables.Decomposable(ch) then d.tables.Decompose(ch) else [d.Shown(ch)]
  }

  /** The code units in the order of the input. */
  function Raw(d: Decoder, s: seq<u8>): seq<u16>
    decreases |s|
  {
    if s == [] || s[0] == 0 then [] else Parts(d, Scan(s)) + Raw(d, Rest(s))
  }

  /** Text is decoded, decomposed or not, if there is room. */
  lemma {:induction false} DecodeSucceeds(d: Decoder, out: seq<u16>, run: nat, s: seq<u8>)
    requires d.tables.Valid() && d.form != Precomposed && run <= |out|
    requires Text(BeforeNul(s)) && |out| + |Raw(d, s)| < d.room
    ensures d.DecodeFrom(out, run, s).Outcome? && d.DecodeFrom(out, run, s).result == 0
    decreases |s|
  {
    if s != [] && s[0] != 0 {
      TextGoesOn(s);
      var n := d.Step(out, run, Scan(s));
      DecodeSucceeds(d, n.out, n.run, Rest(s));
    }
  }

  /** Both have the same canonical ordering. */
  ghost predicate Equivalent(ccc: u16 -> nat, s: seq<u16>, t: seq<u16>) {
    Order(ccc, s) == Order(ccc, t)
  }

  lemma SettledEquivalent(d: Decoder, out: seq<u16>, run: nat, more: seq<u16>)
    requires run <= |out|
    ensures Equivalent(d.tables.ccc, d.Settled(out, run) + more, out + more)
  {
    if run > 1 {
      EndOrderedEquivalent(d.tables.ccc, out, run);
      OrderExtend(d.tables.ccc, EndOrdered(d.tables.ccc, out, run), out, more);
    }
  }

  /** A step adds the units of its character and at most reorders what was there. */
  lemma StepEquivalent(d: Decoder, out: seq<u16>, run: nat, c: Scanned)
    requires d.tables.Valid() && d.form != Precomposed && run <= |out| < d.room && d.Step(out, run, c).More?
    ensures d.Step(out, run, c).run <= |d.Step(out, run, c).out|
    ensures Equivalent(d.tables.ccc, d.Step(out, run, c).out, out + Parts(d, c))
  {
    SettledEquivalent(d, out, run, Parts(d, c));
    if c.Pair? {
      Associative(out, [c.hi], [c.lo]);
      assert [c.hi] + [c.lo] == Parts(d, c);
    }
  }

  /** Decoding, decomposed or not, gives a string canonically equivalent to the characters read: both have the same
      canonical ordering. */
  lemma {:induction false} DecodeEquivalent(d: Decoder, out: seq<u16>, run: nat, s: seq<u8>)
    requires d.tables.Valid() && d.form != Precomposed && run <= |out|
    requires d.DecodeFrom(out, run, s).Outcome? && d.DecodeFrom(out, run, s).result == 0
    ensures Equivalent(d.tables.ccc, d.DecodeFrom(out, run, s).out, out + Raw(d, s))
    decreases |s|
  {
    if s == [] || s[0] == 0 {
      SettledEquivalent(d, out, run, []);
      assert out + [] == out && d.Settled(out, run) + [] == d.Settled(out, run);
    } else {
      var ccc, n, parts, raw := d.tables.ccc, d.Step(out, run, Scan(s)), Parts(d, Scan(s)), Raw(d, Rest(s));
      StepEquivalent(d, out, run, Scan(s));
      DecodeEquivalent(d, n.out, n.run, Rest(s));
      OrderExtend(ccc, n.out, out + parts, raw);
      assert Raw(d, s) == parts + raw;
      Associative(out, parts, raw);
    }
  }

  // ----- strings already in order -----

  lemma EndOfCanonical(ccc: u16 -> nat, s: seq<u16>, n: nat)
    requires Canonical(ccc, s) && n <= |s|
    ensures EndOrdered(ccc, s, n) == s
  {
    OrderOfCanonical(ccc, s[|s| - n..]);
    Halves(s, |s| - n);
  }

  lemma PrefixCanonical(ccc: u16 -> nat, s: seq<u16>, t: seq<u16>)
    requires Canonical(ccc, s + t)
    ensures Canonical(ccc, s)
  {
    assert forall i :: 0 <= i < |s| ==> (s + t)[i] == s[i];
  }

  lemma SettledInOrder(d: Decoder, out: seq<u16>, run: nat)
    requires run <= |out| && Canonical(d.tables.ccc, out)
    ensures d.Settled(out, run) == out
  {
    EndOfCanonical(d.tables.ccc, out, run);
  }

  lemma StepInOrder(d: Decoder, out: seq<u16>, run: nat, c: Scanned)
    requires d.tables.Valid() && d.form != Precomposed && run <= |out| < d.room && d.Step(out, run, c).More?
    requires Canonical(d.tables.ccc, out)
    ensures d.Step(out, run, c).out == out + Parts(d, c) && d.Step(out, run, c).run <= |out + Parts(d, c)|
  {
    SettledInOrder(d, out, run);
    if c.Pair? {
      Associative(out, [c.hi], [c.lo]);
    }
  }

  /** A string in canonical order is decoded as it is. */
  lemma {:induction false} DecodeCanonical(d: Decoder, out: seq<u16>, run: nat, s: seq<u8>)
    requires d.tables.Valid() && d.form != Precomposed && run <= |out|
    requires d.DecodeFrom(out, run, s).Outcome? && d.DecodeFrom(out, run, s).result == 0
    requires Canonical(d.tables.ccc, out + Raw(d, s))
    ensures d.DecodeFrom(out, run, s).out == out + Raw(d, s)
    decreases |s|
  {
    PrefixCanonical(d.tables.ccc, out, Raw(d, s));
    if s == [] || s[0] == 0 {
      SettledInOrder(d, out, run);
      assert out + [] == out;
    } else {
      var n := d.Step(out, run, Scan(s));
      StepInOrder(d, out, run, Scan(s));
      Associative(out, Parts(d, Scan(s)), Raw(d, Rest(s)));
      DecodeCanonical(d, n.out, n.run, Rest(s));
    }
  }

  // ----- when the result is in canonical order -----

  /** Nothing escapes the sorting: every character outside a run is of class 0, every decomposition begins with one, and
      a surrogate pair comes with at most one combining character pending, since it does not end the run. */
  predicate Orderly(d: Decoder, run: nat, s: seq<u8>)
    decreases |s|
  {
    s == [] || s[0] == 0 ||
    match Scan(s)
    case Illegal => Orderly(d, run, Rest(s))
    case Pair(hi, lo) => run <= 1 && d.tables.ccc(hi) == 0 && d.tables.ccc(lo) == 0 && Orderly(d, run, Rest(s))
    case Unit(ch) =>
      var parts := Parts(d, Unit(ch));
      if d.form == Decomposed && d.tables.Decomposable(ch) then
        parts != [] && d.tables.ccc(parts[0]) == 0 && Orderly(d, |parts| - 1, Rest(s))
      else if d.tables.Combinable(parts[0]) then Orderly(d, run + 1, Rest(s))
      else d.tables.ccc(parts[0]) == 0 && Orderly(d, 0, Rest(s))
  }

  /** Where the pending run begins: what is out is p + w, and the run is w. */
  lemma SettledAt(d: Decoder, p: seq<u16>, w: seq<u16>)
    ensures d.Settled(p + w, |w|) == p + Order(d.tables.ccc, w)
  {
    var ccc, out := d.tables.ccc, p + w;
    assert out[..|out| - |w|] == p && out[|out| - |w|..] == w;
    if |w| <= 1 {
      OrderOfCanonical(ccc, w);
    }
  }

  /** A combining character that joins the pending run. */
  predicate Joins(d: Decoder, ch: u16) {
    !(d.form == Decomposed && d.tables.Decomposable(ch)) && d.tables.Combinable(d.Shown(ch))
  }

  /** What is settled for good by the next character, behind p, and what is pending after it. */
  function Settles(d: Decoder, w: seq<u16>, c: Scanned): (seq<u16>, seq<u16>)
    requires d.tables.Valid()
  {
    var parts := Parts(d, c);
    match c
    case Illegal => ([], w)
    case Pair(_, _) => ((w + parts)[..2], (w + parts)[2..])
    case Unit(ch) =>
      if Joins(d, ch) then ([], w + parts) else (Order(d.tables.ccc, w) + [parts[0]], parts[1..])
  }

  lemma PairSettles(d: Decoder, p: seq<u16>, w: seq<u16>, hi: u16, lo: u16)
    ensures p + w + [hi] + [lo] == p + (w + [hi, lo])[..2] + (w + [hi, lo])[2..]
  {
    Halves(w + [hi, lo], 2);
    Associative(p, (w + [hi, lo])[..2], (w + [hi, lo])[2..]);
    Associative(p, w, [hi, lo]);
    assert p + w + [hi, lo] == p + w + [hi] + [lo];
  }

  lemma UnitSettles(p: seq<u16>, o: seq<u16>, parts: seq<u16>)
    requires parts != []
    ensures p + o + parts == p + (o + [parts[0]]) + parts[1..]
  {
    Halves(parts, 1);
    Associative(p + o, [parts[0]], parts[1..]);
    Associative(p, o, [parts[0]]);
  }

  lemma StepSettles(d: Decoder, p: seq<u16>, w: seq<u16>, c: Scanned)
    requires d.tables.Valid() && d.form != Precomposed && |p + w| < d.room && d.Step(p + w, |w|, c).More?
    ensures var (more, w') := Settles(d, w, c);
            d.Step(p + w, |w|, c) == More((p + more) + w', |w'|)
  {
    SettledAt(d, p, w);
    match c {
      case Pair(hi, lo) => PairSettles(d, p, w, hi, lo);
      case Unit(ch) =>
        if Joins(d, ch) {
          Associative(p, w, [d.Shown(ch)]);
          assert p + [] == p;
        } else {
          UnitSettles(p, Order(d.tables.ccc, w), Parts(d, c));
        }
    }
  }

  /** The last unit, if there is one. */
  function LastOf(p: seq<u16>): seq<u16> {
    if p == [] then [] else [p[|p| - 1]]
  }

  lemma CanonicalJoin(ccc: u16 -> nat, p: seq<u16>, more: seq<u16>)
    ensures Canonical(ccc, p + more) <==> Canonical(ccc, p) && Canonical(ccc, LastOf(p) + more)
    ensures LastOf(p + more) == LastOf(LastOf(p) + more)
  {
    var s, t, k := p + more, LastOf(p) + more, |p| - |LastOf(p)|;
    assert forall i :: 0 <= i < |p| ==> p[i] == s[i];
    assert forall i :: 0 <= i < |t| ==> t[i] == s[k + i];
    if Canonical(ccc, p) && Canonical(ccc, t) {
      forall i, j | 0 <= i < j < |s| && j == i + 1 ensures !Reorderable(ccc, s[i], s[j]) {
        if j < |p| {
          assert !Reorderable(ccc, p[i], p[j]);
        } else {
          assert !Reorderable(ccc, t[i - k], t[j - k]);
        }
      }
    }
    if Canonical(ccc, s) {
      forall i, j | 0 <= i < j < |t| && j == i + 1 ensures !Reorderable(ccc, t[i], t[j]) {
        assert !Reorderable(ccc, s[k + i], s[k + j]);
      }
    }
  }

  /** A scan of the input with the last settled unit and the pending run: is everything that is settled, each time in
      order with what came before? */
  ghost predicate InOrder(d: Decoder, last: seq<u16>, w: seq<u16>, s: seq<u8>)
    requires d.tables.Valid()
    decreases |s|
  {
    if s == [] || s[0] == 0 then Canonical(d.tables.ccc, last + Order(d.tables.ccc, w))
    else
      var (more, w') := Settles(d, w, Scan(s));
      Canonical(d.tables.ccc, last + more) && InOrder(d, LastOf(last + more), w', Rest(s))
  }

  /** What is decoded is in canonical order exactly if the scan says so. */
  lemma {:induction false} DecodeInOrder(d: Decoder, p: seq<u16>, w: seq<u16>, s: seq<u8>)
    requires d.tables.Valid() && d.form != Precomposed
    requires d.DecodeFrom(p + w, |w|, s).Outcome? && d.DecodeFrom(p + w, |w|, s).result == 0
    ensures Canonical(d.tables.ccc, d.DecodeFrom(p + w, |w|, s).out)
       <==> Canonical(d.tables.ccc, p) && InOrder(d, LastOf(p), w, s)
    decreases |s|
  {
    if s == [] || s[0] == 0 {
      SettledAt(d, p, w);
      CanonicalJoin(d.tables.ccc, p, Order(d.tables.ccc, w));
    } else {
      var (more, w') := Settles(d, w, Scan(s));
      StepSettles(d, p, w, Scan(s));
      CanonicalJoin(d.tables.ccc, p, more);
      DecodeInOrder(d, p + more, w', Rest(s));
    }
  }

  lemma CanonicalIsOrdered(ccc: u16 -> nat, out: seq<u16>, raw: seq<u16>)
    requires Equivalent(ccc, out, raw)
    ensures Canonical(ccc, out) <==> out == Order(ccc, raw)
  {
    OrderCanonical(ccc, raw);
    if Canonical(ccc, out) {
      OrderOfCanonical(ccc, out);
    }
  }

  lemma DecodedEquivalent(d: Decoder, s: seq<u8>, raw: seq<u16>)
    requires d.tables.Valid() && d.form != Precomposed && raw == Raw(d, s)
    requires d.Decode(s).Outcome? && d.Decode(s).result == 0
    ensures Equivalent(d.tables.ccc, d.Decode(s).out, raw)
  {
    assert [] + raw == raw;
    DecodeEquivalent(d, [], 0, s);
  }

  /** Decoding gives the canonical ordering of the characters read exactly for the strings the scan says. */
  lemma DecodeOrders(d: Decoder, s: seq<u8>)
    requires d.tables.Valid() && d.form != Precomposed
    requires d.Decode(s).Outcome? && d.Decode(s).result == 0
    ensures Canonical(d.tables.ccc, d.Decode(s).out) <==> InOrder(d, [], [], s)
    ensures d.Decode(s).out == Order(d.tables.ccc, Raw(d, s)) <==> InOrder(d, [], [], s)
  {
    var none: seq<u16> := [];
    assert none + none == none;
    DecodeInOrder(d, none, none, s);
    DecodedEquivalent(d, s, Raw(d, s));
    CanonicalIsOrdered(d.tables.ccc, d.Decode(s).out, Raw(d, s));
  }

  /** Orderly strings are such strings. */
  lemma OrderlyDecodes(d: Decoder, s: seq<u8>)
    requires d.tables.Valid() && d.form != Precomposed && Orderly(d, 0, s)
    requires d.Decode(s).Outcome? && d.Decode(s).result == 0
    ensures d.Decode(s).out == Order(d.tables.ccc, Raw(d, s))
  {
    OrderlyInOrder(d, [], [], s);
    DecodeOrders(d, s);
  }

  /** Nothing, or one unit of class 0. */
  ghost predicate Starter(ccc: u16 -> nat, last: seq<u16>) {
    |last| <= 1 && (last != [] ==> ccc(last[0]) == 0)
  }

  lemma PairOrderly(ccc: u16 -> nat, last: seq<u16>, w: seq<u16>, hi: u16, lo: u16)
    requires Starter(ccc, last) && |w| <= 1 && ccc(hi) == 0 && ccc(lo) == 0
    ensures Canonical(ccc, last + (w + [hi, lo])[..2]) && Starter(ccc, LastOf(last + (w + [hi, lo])[..2]))
  {}

  lemma UnitOrderly(ccc: u16 -> nat, last: seq<u16>, w: seq<u16>, c: u16)
    requires Starter(ccc, last) && ccc(c) == 0
    ensures var more := Order(ccc, w) + [c]; Canonical(ccc, last + more) && Starter(ccc, LastOf(last + more))
  {
    OrderCanonical(ccc, w);
  }

  /** The next character of an orderly string settles what is in order, and leaves an orderly string. */
  ghost function OrderlyCheck(d: Decoder, last: seq<u16>, w: seq<u16>, s: seq<u8>): Check
    requires d.tables.Valid() && s != []
  {
    var more := Settles(d, w, Scan(s)).0;
    if
      && Canonical(d.tables.ccc, last + more) && Starter(d.tables.ccc, LastOf(last + more))
      && Orderly(d, |Settles(d, w, Scan(s)).1|, Rest(s))
    then Holds else Fails
  }

  lemma UnitStep(d: Decoder, last: seq<u16>, w: seq<u16>, s: seq<u8>)
    requires d.tables.Valid() && s != [] && s[0] != 0 && Orderly(d, |w|, s) && Starter(d.tables.ccc, last)
    requires Scan(s).Unit? && !Joins(d, Scan(s).ch)
    ensures OrderlyCheck(d, last, w, s) == Holds
  {
    UnitOrderly(d.tables.ccc, last, w, Parts(d, Scan(s))[0]);
    assert Settles(d, w, Scan(s)).0 == Order(d.tables.ccc, w) + [Parts(d, Scan(s))[0]];
  }

  lemma PairStep(d: Decoder, last: seq<u16>, w: seq<u16>, s: seq<u8>)
    requires d.tables.Valid() && s != [] && s[0] != 0 && Orderly(d, |w|, s) && Starter(d.tables.ccc, last)
    requires Scan(s).Pair?
    ensures OrderlyCheck(d, last, w, s) == Holds
  {
    PairOrderly(d.tables.ccc, last, w, Scan(s).hi, Scan(s).lo);
  }

  lemma NothingOrderly(ccc: u16 -> nat, last: seq<u16>, more: seq<u16>)
    requires Starter(ccc, last) && more == []
    ensures Canonical(ccc, last + more) && Starter(ccc, LastOf(last + more))
  {
    assert last + more == last;
  }

  lemma IllegalStep(d: Decoder, last: seq<u16>, w: seq<u16>, s: seq<u8>)
    requires d.tables.Valid() && s != [] && s[0] != 0 && Orderly(d, |w|, s) && Starter(d.tables.ccc, last)
    requires Scan(s).Illegal?
    ensures OrderlyCheck(d, last, w, s) == Holds
  {
    NothingOrderly(d.tables.ccc, last, Settles(d, w, Scan(s)).0);
  }

  lemma JoinStep(d: Decoder, last: seq<u16>, w: seq<u16>, s: seq<u8>)
    requires d.tables.Valid() && s != [] && s[0] != 0 && Orderly(d, |w|, s) && Starter(d.tables.ccc, last)
    requires Scan(s).Unit? && Joins(d, Scan(s).ch)
    ensures OrderlyCheck(d, last, w, s) == Holds
  {
    NothingOrderly(d.tables.ccc, last, Settles(d, w, Scan(s)).0);
    assert |Settles(d, w, Scan(s)).1| == |w| + 1;
  }

  lemma OrderlyStep(d: Decoder, last: seq<u16>, w: seq<u16>, s: seq<u8>)
    requires d.tables.Valid() && s != [] && s[0] != 0 && Orderly(d, |w|, s) && Starter(d.tables.ccc, last)
    ensures OrderlyCheck(d, last, w, s) == Holds
  {
    if Scan(s).Pair? {
      PairStep(d, last, w, s);
    } else if Scan(s).Unit? && !Joins(d, Scan(s).ch) {
      UnitStep(d, last, w, s);
    } else if Scan(s).Illegal? {
      IllegalStep(d, last, w, s);
    } else {
      JoinStep(d, last, w, s);
    }
  }

  lemma {:induction false} OrderlyInOrder(d: Decoder, last: seq<u16>, w: seq<u16>, s: seq<u8>)
    requires d.tables.Valid() && Orderly(d, |w|, s) && Starter(d.tables.ccc, last)
    ensures InOrder(d, last, w, s)
    decreases |s|
  {
    if s == [] || s[0] == 0 {
      OrderCanonical(d.tables.ccc, w);
    } else {
      OrderlyStep(d, last, w, s);
      OrderlyInOrder(d, LastOf(last + Settles(d, w, Scan(s)).0), Settles(d, w, Scan(s)).1, Rest(s));
    }
  }

  // ----- when the result is the input -----

  /** The next character settles nothing that is out of order. */
  ghost predicate SettlesInOrder(d: Decoder, w: seq<u16>, c: Scanned) {
    c.Unit? && !Joins(d, c.ch) ==> Canonical(d.tables.ccc, w)
  }

  /** A scan of the input with the pending run: is every run that is settled in order? */
  ghost predicate RunsInOrder(d: Decoder, w: seq<u16>, s: seq<u8>)
    requires d.tables.Valid()
    decreases |s|
  {
    if s == [] || s[0] == 0 then Canonical(d.tables.ccc, w)
    else
      var c := Scan(s);
      SettlesInOrder(d, w, c) && RunsInOrder(d, Settles(d, w, c).1, Rest(s))
  }

  /** What is settled stays. */
  lemma {:induction false} SettledStays(d: Decoder, p: seq<u16>, w: seq<u16>, s: seq<u8>)
    requires d.tables.Valid() && d.form != Precomposed
    requires d.DecodeFrom(p + w, |w|, s).Outcome? && d.DecodeFrom(p + w, |w|, s).result == 0
    ensures p <= d.DecodeFrom(p + w, |w|, s).out
    decreases |s|
  {
    if s == [] || s[0] == 0 {
      SettledAt(d, p, w);
    } else {
      StepSettles(d, p, w, Scan(s));
      SettledStays(d, p + Settles(d, w, Scan(s)).0, Settles(d, w, Scan(s)).1, Rest(s));
    }
  }

  /** What is settled is then what was read, and otherwise something else. */
  lemma SettledUnchanged(d: Decoder, p: seq<u16>, w: seq<u16>, c: Scanned, raw: seq<u16>)
    requires d.tables.Valid() && !c.Illegal?
    ensures var (more, w') := Settles(d, w, c);
            if SettlesInOrder(d, w, c) then p + more + w' == p + w + Parts(d, c)
            else !(p + more <= p + w + (Parts(d, c) + raw))
  {
    var ccc, parts, o := d.tables.ccc, Parts(d, c), Order(d.tables.ccc, w);
    var (more, w') := Settles(d, w, c);
    Associative(p, more, w');
    Associative(p, w, parts);
    if c.Pair? {
      Halves(w + parts, 2);
    } else if Joins(d, c.ch) {
      assert more + w' == w + parts;
    } else if Canonical(ccc, w) {
      OrderOfCanonical(ccc, w);
      assert parts == [parts[0]] + parts[1..];
      Associative(w, [parts[0]], parts[1..]);
    } else {
      OrderCanonical(ccc, w);
      assert (p + more)[|p|..][..|w|] == o;
      assert (p + w + (parts + raw))[|p|..][..|w|] == w;
      PrefixesAgree(p + more, p + w + (parts + raw), |p|, |w|);
    }
  }

  lemma PrefixesAgree(s: seq<u16>, t: seq<u16>, i: nat, n: nat)
    requires i + n <= |s| <= |t|
    ensures s <= t ==> s[i..][..n] == t[i..][..n]
  {
    assert s <= t ==> forall k :: i <= k < i + n ==> s[k] == t[k];
  }

  /** The characters come out in the order they were read in exactly if every run was in order. */
  lemma {:induction false} DecodeUnchanged(d: Decoder, p: seq<u16>, w: seq<u16>, s: seq<u8>)
    requires d.tables.Valid() && d.form != Precomposed
    requires d.DecodeFrom(p + w, |w|, s).Outcome? && d.DecodeFrom(p + w, |w|, s).result == 0
    ensures d.DecodeFrom(p + w, |w|, s).out == p + w + Raw(d, s) <==> RunsInOrder(d, w, s)
    decreases |s|
  {
    if s == [] || s[0] == 0 {
      OrderCanonical(d.tables.ccc, w);
      SettledAt(d, p, w);
      if Canonical(d.tables.ccc, w) {
        OrderOfCanonical(d.tables.ccc, w);
      }
      assert p + w + [] == p + w;
      assert (p + Order(d.tables.ccc, w))[|p|..] == Order(d.tables.ccc, w) && (p + w)[|p|..] == w;
    } else {
      var c := Scan(s);
      var (more, w') := Settles(d, w, c);
      StepSettles(d, p, w, c);
      SettledUnchanged(d, p, w, c, Raw(d, Rest(s)));
      SettledStays(d, p + more, w', Rest(s));
      DecodeUnchanged(d, p + more, w', Rest(s));
      Associative(p + w, Parts(d, c), Raw(d, Rest(s)));
    }
  }

  // ----- where ordering fails -----

  /** The facts of the real tables the examples rest on. */
  ghost predicate KnowExamples(t: Tables) {
    && t.Combinable(0x0301) && t.ccc(0x0301) == 230
    && t.Combinable(0x0323) && t.ccc(0x0323) == 220
    && !t.Combinable(0x0350) && t.ccc(0x0350) == 230
    && t.Combinable(0x09BE) && t.Combinable(0x09CB) && t.Combine(0x09C7, 0x09BE) == 0x09CB && t.Combinable(0x09C7)
    && t.ccc(0xD800) == t.ccc(0xDC00) == 0
  }

  function Continued(d: Decoder, next: Next, rest: seq<u8>): Outcome
    requires d.tables.Valid()
  {
    if next.More? then d.DecodeFrom(next.out, next.run, rest) else next.outcome
  }

  /** Decoding the octets of one unit is one step. */
  lemma DecodeUnit(d: Decoder, out: seq<u16>, run: nat, c: u16, rest: seq<u8>)
    requires d.tables.Valid() && |out| < d.room && c != 0 && !High(c) && !Low(c) && c != 0xFFFE && c != 0xFFFF
    ensures d.DecodeFrom(out, run, UnitOctets(c) + rest) == Continued(d, d.Step(out, run, Unit(c)), rest)
  {
    UnitRoundTrip(c, rest);
    var s := UnitOctets(c) + rest;
    assert s[0] == UnitOctets(c)[0] && s[|UnitOctets(c)|..] == rest;
  }

  lemma PairNext(d: Decoder, out: seq<u16>, run: nat, hi: u16, lo: u16, rest: seq<u8>)
    requires d.tables.Valid() && |out| + 1 < d.room && High(hi) && Low(lo)
    ensures d.DecodeFrom(out, run, PairOctets(hi, lo) + rest) == d.DecodeFrom(out + [hi] + [lo], run, rest)
  {
    PairRoundTrip(hi, lo, rest);
    var s := PairOctets(hi, lo) + rest;
    assert s[0] == PairOctets(hi, lo)[0] && s[4..] == rest;
  }

  /** A surrogate pair does not end the pending run: U+0301 U+0323 U+10000 comes out unordered. */
  lemma PairDelaysOrdering(d: Decoder)
    requires d.tables.Valid() && KnowExamples(d.tables) && d.form == AsIs && d.altslash == SLASH && d.room >= 8
    ensures d.Decode(UnitOctets(0x0301) + (UnitOctets(0x0323) + (PairOctets(0xD800, 0xDC00) + [])))
         == Outcome(0, [0x0301, 0x0323] + [0xD800] + [0xDC00])
    ensures !Canonical(d.tables.ccc, [0x0301, 0x0323] + [0xD800] + [0xDC00])
  {
    var out: seq<u16> := [0x0301, 0x0323] + [0xD800] + [0xDC00];
    var pair := PairOctets(0xD800, 0xDC00) + [];
    DecodeUnit(d, [], 0, 0x0301, UnitOctets(0x0323) + pair);
    assert d.Step([], 0, Unit(0x0301)) == More([0x0301], 1);
    DecodeUnit(d, [0x0301], 1, 0x0323, pair);
    assert d.Step([0x0301], 1, Unit(0x0323)) == More([0x0301, 0x0323], 2);
    PairNext(d, [0x0301, 0x0323], 2, 0xD800, 0xDC00, []);
    LastTwoInOrder(d, out);
    assert Reorderable(d.tables.ccc, out[0], out[1]);
  }

  lemma LastTwoInOrder(d: Decoder, out: seq<u16>)
    requires |out| >= 2 && d.tables.ccc(out[|out| - 1]) == 0
    ensures d.Settled(out, 2) == out
  {
    OrderOfCanonical(d.tables.ccc, out[|out| - 2..]);
    Halves(out, |out| - 2);
  }

  /** A character with a class that the bitmap does not mark as combining is not sorted: U+0350 U+0323. */
  lemma UnmarkedStaysPut(d: Decoder)
    requires d.tables.Valid() && KnowExamples(d.tables) && d.form == AsIs && d.altslash == SLASH && d.room >= 4
    ensures d.Decode(UnitOctets(0x0350) + (UnitOctets(0x0323) + [])) == Outcome(0, [0x0350, 0x0323])
    ensures !Canonical(d.tables.ccc, [0x0350, 0x0323])
  {
    var out: seq<u16> := [0x0350, 0x0323];
    DecodeUnit(d, [], 0, 0x0350, UnitOctets(0x0323) + []);
    assert d.Step([], 0, Unit(0x0350)) == More([0x0350], 0);
    DecodeUnit(d, [0x0350], 0, 0x0323, []);
    assert d.Step([0x0350], 0, Unit(0x0323)) == More(out, 1);
    assert Reorderable(d.tables.ccc, out[0], out[1]);
  }

  /** U+09BE composes with the only unit in the buffer, and the run then is longer than what is out. */
  lemma ComposesAlone(d: Decoder)
    requires d.tables.Valid() && KnowExamples(d.tables) && d.form == Precomposed && d.altslash == SLASH && d.room >= 6
    ensures d.Step([0x09C7], 1, Unit(0x09BE)) == More([0x09CB], 2)
  {
    var none: seq<u16> := [];
    assert [0x09C7][..0] == none && d.Shown(0x09CB) == 0x09CB && d.Composite([0x09C7], 0x09BE) == 0x09CB;
  }

  /** Composed text that begins with a combining base asks for a sort from before the buffer: U+09C7 U+09BE. */
  lemma SortFromOutside(d: Decoder)
    requires d.tables.Valid() && KnowExamples(d.tables) && d.form == Precomposed && d.altslash == SLASH && d.room >= 6
    ensures d.Decode(UnitOctets(0x09C7) + (UnitOctets(0x09BE) + [])) == Outside
  {
    DecodeUnit(d, [], 0, 0x09C7, UnitOctets(0x09BE) + []);
    assert d.Step([], 0, Unit(0x09C7)) == More([0x09C7], 1);
    DecodeUnit(d, [0x09C7], 1, 0x09BE, []);
    ComposesAlone(d);
  }
}
