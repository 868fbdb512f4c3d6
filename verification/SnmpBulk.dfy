/**
 GETBULK against section 4.2.3 of RFC 3416. The section answers the first identifiers, the non-repeaters, once and
 walks all the others in rounds; an identifier with nothing above it is answered with an end-of-view binding. The
 source walks its first identifier alone, at least once, and stops at the end of the table.
 */
module SnmpBulk {
  import opened Wrappers
  import opened Bytes
  import opened Ber
  import opened Mib
  import opened Snmp

  datatype Binding = Found(varbind: Varbind) | EndOfView(oid: Oid)

  function NextBinding(values: seq<Entry>, oid: Oid): Binding {
    match NextOf(values, oid)
    case Some(next) => Found(Answer(next.oid, Some(next.text)))
    case None => EndOfView(oid)
  }

  function NameOf(b: Binding): Oid {
    match b case Found(v) => v.oid case EndOfView(oid) => oid
  }

  function Round(values: seq<Entry>, cursors: seq<Oid>): (r: seq<Binding>)
    ensures |r| == |cursors|
  {
    seq(|cursors|, i requires 0 <= i < |cursors| => NextBinding(values, cursors[i]))
  }

  function Names(bindings: seq<Binding>): (r: seq<Oid>)
    ensures |r| == |bindings|
  {
    seq(|bindings|, i requires 0 <= i < |bindings| => NameOf(bindings[i]))
  }

  /** The repeaters, round by round; each round goes on from the names of the one before. */
  function Repeated(values: seq<Entry>, cursors: seq<Oid>, rounds: nat): seq<Binding>
    decreases rounds
  {
    if rounds == 0 then []
    else Round(values, cursors) + Repeated(values, Names(Round(values, cursors)), rounds - 1)
  }

  function NonRepeaters(oids: seq<Oid>, control: int): (n: nat)
    ensures n <= |oids|
  {
    if control < 0 then 0 else Min(control, |oids|)
  }

  /** The whole answer the section describes. */
  function Standard(values: seq<Entry>, oids: seq<Oid>, control: int, repetitions: nat): seq<Binding> {
    var n := NonRepeaters(oids, control);
    Round(values, oids[..n]) + Repeated(values, oids[n..], repetitions)
  }

  function Founds(varbinds: seq<Varbind>): (r: seq<Binding>)
    ensures |r| == |varbinds|
  {
    seq(|varbinds|, i requires 0 <= i < |varbinds| => Found(varbinds[i]))
  }

  /** Each identifier lies in the gap just below its entry of the table's rest. */
  predicate InStep(above: seq<Entry>, oids: seq<Oid>)
    requires |oids| <= |above|
  {
    forall i :: 0 < i < |oids| ==> !Less(oids[i], above[i - 1].oid) && Less(oids[i], above[i].oid)
  }

  /**
   Where the source answers as the section says. No repetitions: nothing to walk, or a single non-repeater with an
   entry above it. Otherwise a single repeater asked for at most 32 times and with enough entries above it, or only
   non-repeaters that ask for exactly the entries of the walk.
   */
  predicate AsStandard(values: seq<Entry>, oids: seq<Oid>, control: int, repetitions: nat)
    requires oids != []
  {
    var n, above := NonRepeaters(oids, control), Above(values, oids[0]);
    if repetitions == 0 then (if n == 0 then above == [] else n == 1 && above != [])
    else if n == 0 then |oids| == 1 && repetitions <= |above| && repetitions <= 32
    else n == |oids| == Min(Min(repetitions, 32), |above|) && InStep(above, oids)
  }

  lemma {:induction false} RepeatedLength(values: seq<Entry>, cursors: seq<Oid>, rounds: nat)
    ensures |cursors| == 0 ==> Repeated(values, cursors, rounds) == []
    ensures |cursors| == 1 ==> |Repeated(values, cursors, rounds)| == rounds
    ensures |cursors| >= 1 ==> |Repeated(values, cursors, rounds)| >= rounds
    ensures |cursors| >= 2 ==> |Repeated(values, cursors, rounds)| >= 2 * rounds
    decreases rounds
  {
    hide NextBinding;
    if rounds > 0 {
      RepeatedLength(values, Names(Round(values, cursors)), rounds - 1);
    }
  }

  /** One repeater that never meets the end is a walk. */
  lemma {:induction false} RepeatedIsWalk(values: seq<Entry>, oid: Oid, rounds: nat)
    requires |Walk(values, oid, rounds)| == rounds
    ensures Repeated(values, [oid], rounds) == Founds(WalkAnswers(Walk(values, oid, rounds)))
    decreases rounds
  {
    hide Answer, NextOf;
    if rounds > 0 {
      var next := NextOf(values, oid).value;
      RepeatedIsWalk(values, next.oid, rounds - 1);
      assert Names(Round(values, [oid])) == [next.oid];
    }
  }

  lemma NextIndexIs(values: seq<Entry>, oid: Oid, j: nat)
    requires Sorted(values) && j < |values|
    ensures NextIndex(values, oid) == j <==> Less(oid, values[j].oid) && (j > 0 ==> !Less(oid, values[j - 1].oid))
  {
    hide Less;
    var n := NextIndex(values, oid);
    if n < j && Less(oid, values[j].oid) {
      if n < j - 1 {
        assert Less(values[n].oid, values[j - 1].oid);
        LessIsTransitive(oid, values[n].oid, values[j - 1].oid);
      }
    }
  }

  /** The GETNEXT answer for an identifier is entry `j` exactly when the identifier lies just below it. */
  lemma NextBindingIs(values: seq<Entry>, oid: Oid, j: nat)
    requires Sorted(values) && j < |values|
    ensures NextBinding(values, oid) == Found(Answer(values[j].oid, Some(values[j].text))) <==> NextIndex(values, oid) == j
  {
    hide Answer, Less, NextIndex;
    var n := NextIndex(values, oid);
    if n < |values| && n != j {
      LessIsStrict(values[j].oid);
    }
  }

  /** One non-repeater is answered with its entry of the walk exactly when it is in step with it. */
  lemma NonRepeaterIsWalk(values: seq<Entry>, oids: seq<Oid>, i: nat)
    requires Sorted(values) && i < |oids| <= |Above(values, oids[0])|
    ensures var above := Above(values, oids[0]);
            Round(values, oids)[i] == Founds(WalkAnswers(above[..|oids|]))[i] <==>
            (i > 0 ==> !Less(oids[i], above[i - 1].oid) && Less(oids[i], above[i].oid))
  {
    hide Less, Above, NextBinding, Answer, NextIndex;
    var above, k := Above(values, oids[0]), NextIndex(values, oids[0]);
    AboveIsSuffix(values, oids[0]);
    assert above[i] == values[k + i] && (i > 0 ==> above[i - 1] == values[k + i - 1]);
    NextBindingIs(values, oids[i], k + i);
    NextIndexIs(values, oids[i], k + i);
  }

  /** The bindings of the non-repeaters are the first entries of the walk exactly when they are in step with it. */
  lemma NonRepeatersAreWalk(values: seq<Entry>, oids: seq<Oid>)
    requires Sorted(values) && 1 <= |oids| <= |Above(values, oids[0])|
    ensures Round(values, oids) == Founds(WalkAnswers(Above(values, oids[0])[..|oids|])) <==> InStep(Above(values, oids[0]), oids)
  {
    hide Less, Above, Round, Founds, WalkAnswers;
    var above := Above(values, oids[0]);
    var asked, walked := Round(values, oids), Founds(WalkAnswers(above[..|oids|]));
    assert |asked| == |walked| == |oids|;
    if InStep(above, oids) {
      forall i | 0 <= i < |oids|
        ensures asked[i] == walked[i]
      {
        NonRepeaterIsWalk(values, oids, i);
      }
      assert asked == walked;
    }
    if asked == walked {
      forall i | 0 < i < |oids|
        ensures !Less(oids[i], above[i - 1].oid) && Less(oids[i], above[i].oid)
      {
        NonRepeaterIsWalk(values, oids, i);
      }
    }
  }

  /** What the source answers, as bindings. */
  function Walked(above: seq<Entry>, repetitions: nat): (r: seq<Binding>)
    ensures |r| == Min(if repetitions == 0 then 1 else repetitions, |above|)
  {
    Founds(WalkAnswers(above[..Min(if repetitions == 0 then 1 else repetitions, |above|)]))
  }

  lemma NoRepetitions(values: seq<Entry>, oids: seq<Oid>, n: nat)
    requires Sorted(values) && oids != [] && n <= |oids|
    ensures Walked(Above(values, oids[0]), 0) == Round(values, oids[..n]) <==>
            (if n == 0 then Above(values, oids[0]) == [] else n == 1 && Above(values, oids[0]) != [])
  {
    hide Round, Founds, WalkAnswers, Above, Less;
    if n == 1 && Above(values, oids[0]) != [] {
      NonRepeatersAreWalk(values, oids[..1]);
    }
  }

  lemma OnlyRepeaters(values: seq<Entry>, oids: seq<Oid>, m: nat)
    requires Sorted(values) && oids != [] && m > 0
    ensures Walked(Above(values, oids[0]), m) == Repeated(values, oids, m) <==>
            |oids| == 1 && m <= |Above(values, oids[0])|
  {
    hide Repeated, Round, Founds, WalkAnswers, Above, Walk, Less;
    RepeatedLength(values, oids, m);
    if |oids| == 1 && m <= |Above(values, oids[0])| {
      WalkVisitsAllAbove(values, oids[0], m);
      RepeatedIsWalk(values, oids[0], m);
      assert oids == [oids[0]];
    }
  }

  lemma SomeNonRepeaters(values: seq<Entry>, oids: seq<Oid>, n: nat, m: nat)
    requires Sorted(values) && 0 < n <= |oids| && m > 0
    ensures Walked(Above(values, oids[0]), m) == Round(values, oids[..n]) + Repeated(values, oids[n..], m) <==>
            n == |oids| == Min(m, |Above(values, oids[0])|) && InStep(Above(values, oids[0]), oids)
  {
    hide Repeated, Round, Founds, WalkAnswers, Above, InStep, Less;
    RepeatedLength(values, oids[n..], m);
    if n == |oids| == Min(m, |Above(values, oids[0])|) {
      NonRepeatersAreWalk(values, oids);
      assert oids[..n] == oids;
      assert Round(values, oids) + [] == Round(values, oids);
    }
  }

  /** The same for the repetitions the parser has kept. */
  lemma KeptBulkIsStandard(request: Request, values: seq<Entry>, control: int)
    requires WellFormed(request) && request.pduTag == 0xa5 && Sorted(values)
    ensures Founds(Answers(request, values)) == Standard(values, request.oids, control, request.maxRepetitions)
       <==> AsStandard(values, request.oids, control, request.maxRepetitions)
  {
    hide Repeated, Round, InStep, Less, Walk, Founds, WalkAnswers, Above;
    var oids, m, n := request.oids, request.maxRepetitions, NonRepeaters(request.oids, control);
    var above := Above(values, oids[0]);
    WalkVisitsAllAbove(values, oids[0], Rounds(request));
    assert Founds(Answers(request, values)) == Walked(above, m);
    if m == 0 {
      NoRounds(values, oids, n);
      NoRepetitions(values, oids, n);
    } else if n == 0 {
      NoNonRepeaters(values, oids, m);
      OnlyRepeaters(values, oids, m);
    } else {
      SomeNonRepeaters(values, oids, n, m);
    }
  }

  /** The repetitions a message asks for; a negative number counts as none. */
  function Asked(second: int): nat {
    if second < 0 then 0 else second
  }

  /**
   GETBULK answers as the section says exactly under that condition, whatever the table and the message's own two
   controls, the non-repeaters and the repetitions, of which the parser keeps at most 32.
   */
  lemma BulkIsStandardExactly(request: Request, values: seq<Entry>, first: I64, second: I64)
    requires WellFormed(request) && request.pduTag == 0xa5 && Sorted(values)
    requires request.maxRepetitions == KeptRepetitions(0xa5, second)
    ensures Founds(Answers(request, values)) == Standard(values, request.oids, first, Asked(second))
       <==> AsStandard(values, request.oids, first, Asked(second))
  {
    hide Repeated, Round, InStep, Less, Walk, Founds, WalkAnswers, Above;
    KeptBulkIsStandard(request, values, first);
    if second > 32 {
      BulkIsPrefixOfWalk(request, values);
      var oids, n := request.oids, NonRepeaters(request.oids, first);
      RepeatedLength(values, oids[n..], second);
      RepeatedLength(values, oids[n..], 32);
    }
  }

  /** The same from the message on: a printed GETBULK request is answered as the section says exactly under that condition. */
  lemma BulkMessageIsStandardExactly(
    version: I64, community: seq<Byte>, requestId: I64, first: I64, second: I64, oids: seq<Oid>, values: seq<Entry>)
    requires 0 <= version <= 1 && AllRepresentable(oids) && 1 <= |oids| <= 32 && Sorted(values)
    requires |PrintedRequest(version, community, 0xa5, requestId, first, second, oids)| < TWO_32
    ensures var parsed := ParsedRequest(PrintedRequest(version, community, 0xa5, requestId, first, second, oids));
            && parsed.Some? && WellFormed(parsed.value)
            && (Founds(Answers(parsed.value, values)) == Standard(values, oids, first, Asked(second))
                <==> AsStandard(values, oids, first, Asked(second)))
  {
    hide ParsedRequest, PrintedRequest, Answers, Standard, AsStandard, Representable;
    RequestRoundTrip(version, community, 0xa5, requestId, first, second, oids);
    ParsedRequestIsWellFormed(PrintedRequest(version, community, 0xa5, requestId, first, second, oids));
    var request := ParsedRequest(PrintedRequest(version, community, 0xa5, requestId, first, second, oids)).value;
    BulkIsStandardExactly(request, values, first, second);
  }

  /** A table of 40 entries below 1.3. */
  function LongTable(): (values: seq<Entry>)
    ensures |values| == 40
  {
    seq(40, i requires 0 <= i < 40 => Entry([1, 3, i], []))
  }

  lemma LongTableIsSorted()
    ensures Sorted(LongTable()) && Above(LongTable(), [1, 3]) == LongTable()
  {
    var values := LongTable();
    forall i, j | 0 <= i < j < 40
      ensures Less(values[i].oid, values[j].oid)
    {
      ThirdArcDecides(i, j);
    }
    PrefixIsLess(0);
    assert NextIndex(values, [1, 3]) == 0;
    AboveIsSuffix(values, [1, 3]);
  }

  lemma ThirdArcDecides(i: U32, j: U32)
    requires i < j
    ensures Less([1, 3, i], [1, 3, j])
  {
    assert [1, 3, i][1..] == [3, i] && [1, 3, j][1..] == [3, j] && [3, i][1..] == [i] && [3, j][1..] == [j];
    assert Less([3, i], [3, j]);
  }

  lemma PrefixIsLess(i: U32)
    ensures Less([1, 3], [1, 3, i])
  {
    assert [1, 3][1..] == [3] && [1, 3, i][1..] == [3, i] && [3][1..] == [] && [3, i][1..] == [i];
    assert Less([3], [3, i]);
  }

  /** A message that asks for 40 repetitions of one identifier with 40 entries above it: it gets 32 of them. */
  lemma RepetitionsAreCut(version: I64, community: seq<Byte>, requestId: I64)
    requires 0 <= version <= 1
    requires |PrintedRequest(version, community, 0xa5, requestId, 0, 40, [[1, 3]])| < TWO_32
    ensures var parsed := ParsedRequest(PrintedRequest(version, community, 0xa5, requestId, 0, 40, [[1, 3]]));
            && parsed.Some? && parsed.value.oids == [[1, 3]] && parsed.value.maxRepetitions == 32
            && |Answers(parsed.value, LongTable())| == 32 && |Standard(LongTable(), [[1, 3]], 0, 40)| == 40
  {
    hide ParsedRequest, PrintedRequest, WalkAnswers, LongTable, Above, Less, Walk, Repeated, Round;
    RequestRoundTrip(version, community, 0xa5, requestId, 0, 40, [[1, 3]]);
    var request := ParsedRequest(PrintedRequest(version, community, 0xa5, requestId, 0, 40, [[1, 3]])).value;
    LongTableIsSorted();
    WalkVisitsAllAbove(LongTable(), [1, 3], Rounds(request));
    NoNonRepeaters(LongTable(), [[1, 3]], 40);
    RepeatedLength(LongTable(), [[1, 3]], 40);
  }

  lemma NoRounds(values: seq<Entry>, oids: seq<Oid>, n: nat)
    requires n <= |oids|
    ensures Round(values, oids[..n]) + Repeated(values, oids[n..], 0) == Round(values, oids[..n])
  {
  }

  lemma NoNonRepeaters(values: seq<Entry>, oids: seq<Oid>, m: nat)
    ensures Round(values, oids[..0]) + Repeated(values, oids[0..], m) == Repeated(values, oids, m)
  {
    assert oids[0..] == oids;
  }

  /** The identifiers after the first do not matter to the source. */
  lemma OnlyTheFirstCounts(a: Request, b: Request, values: seq<Entry>)
    requires WellFormed(a) && WellFormed(b) && a.pduTag == b.pduTag == 0xa5
    requires a.oids[0] == b.oids[0] && a.maxRepetitions == b.maxRepetitions
    ensures Answers(a, values) == Answers(b, values)
  {
  }

  /** Two identifiers with an entry above each: the section answers both, the source the first. */
  lemma SecondIdentifierIsDropped(community: seq<Byte>, requestId: int)
    requires -TWO_63 <= requestId < TWO_63
    ensures var request := Request(1, community, 0xa5, requestId, 1, [[1, 3], [1, 4]]);
            var values := [Entry([1, 3, 1], [97]), Entry([1, 4, 1], [98])];
            && WellFormed(request) && Sorted(values)
            && Standard(values, request.oids, 0, 1) == [Found(Varbind([1, 3, 1], Text([97]))), Found(Varbind([1, 4, 1], Text([98])))]
            && Answers(request, values) == [Varbind([1, 3, 1], Text([97]))]
  {
    var request := Request(1, community, 0xa5, requestId, 1, [[1, 3], [1, 4]]);
    var values := [Entry([1, 3, 1], [97]), Entry([1, 4, 1], [98])];
    ExampleOrder();
    assert Sorted(values);
    ExampleNext(values);
    assert request.oids[0..] == request.oids;
    assert Round(values, request.oids) == [NextBinding(values, [1, 3]), NextBinding(values, [1, 4])];
    assert Repeated(values, Names(Round(values, request.oids)), 0) == [];
    assert Walk(values, [1, 3, 1], 0) == [];
  }

  lemma ExampleOrder()
    ensures Less([1, 3], [1, 3, 1]) && Less([1, 4], [1, 4, 1]) && Less([1, 3, 1], [1, 4, 1]) && !Less([1, 4], [1, 3, 1])
  {
    assert [1, 3][1..] == [3] && [1, 4][1..] == [4] && [1, 3, 1][1..] == [3, 1] && [1, 4, 1][1..] == [4, 1];
    assert [3][1..] == [] && [4][1..] == [] && [3, 1][1..] == [1] && [4, 1][1..] == [1];
    assert Less([3], [3, 1]) && Less([4], [4, 1]) && Less([3, 1], [4, 1]) && !Less([4], [3, 1]);
  }

  lemma ExampleNext(values: seq<Entry>)
    requires values == [Entry([1, 3, 1], [97]), Entry([1, 4, 1], [98])]
    ensures NextOf(values, [1, 3]) == Some(values[0]) && NextOf(values, [1, 4]) == Some(values[1])
  {
    hide Less;
    ExampleOrder();
    assert NextIndex(values, [1, 3]) == 0;
    assert NextIndex(values, [1, 4]) == 1;
  }
}
