/**
 The SNMP value table and the walk over it. A Rust `BTreeMap` is the sequence of its entries in iteration
 order, strictly ascending by the lexicographic order on object identifiers.
 */
module Mib {
  import opened Wrappers
  import opened Bytes
  import opened Ber

  datatype Entry = Entry(oid: Oid, text: seq<Byte>)

  /** The order of Rust slices: lexicographic, a proper prefix first. */
  predicate Less(a: Oid, b: Oid) {
    if b == [] then false
    else if a == [] then true
    else if a[0] != b[0] then a[0] < b[0]
    else Less(a[1..], b[1..])
  }

  lemma {:induction false} LessIsStrict(a: Oid)
    ensures !Less(a, a)
  {
    if a != [] {
      LessIsStrict(a[1..]);
    }
  }

  lemma {:induction false} LessIsTransitive(a: Oid, b: Oid, c: Oid)
    requires Less(a, b) && Less(b, c)
    ensures Less(a, c)
  {
    if a != [] && b != [] && c != [] && a[0] == b[0] == c[0] {
      LessIsTransitive(a[1..], b[1..], c[1..]);
    }
  }

  lemma {:induction false} LessIsTotal(a: Oid, b: Oid)
    ensures a == b || Less(a, b) || Less(b, a)
  {
    if a != [] && b != [] && a[0] == b[0] {
      LessIsTotal(a[1..], b[1..]);
      assert a == [a[0]] + a[1..] && b == [b[0]] + b[1..];
    }
  }

  ghost predicate Sorted(values: seq<Entry>) {
    forall i, j :: 0 <= i < j < |values| ==> Less(values[i].oid, values[j].oid)
  }

  /** The position `find` stops at: the first entry above `oid`, or the end. */
  function NextIndex(values: seq<Entry>, oid: Oid): (i: nat)
    ensures i <= |values|
    ensures i < |values| ==> Less(oid, values[i].oid)
    ensures forall k :: 0 <= k < i ==> !Less(oid, values[k].oid)
  {
    if values == [] || Less(oid, values[0].oid) then 0 else 1 + NextIndex(values[1..], oid)
  }

  function NextOf(values: seq<Entry>, oid: Oid): Option<Entry> {
    var i := NextIndex(values, oid);
    if i < |values| then Some(values[i]) else None
  }

  method NextValue(values: seq<Entry>, oid: Oid) returns (r: Option<Entry>)
    ensures r == NextOf(values, oid)
  {
    for i := 0 to |values|
      invariant forall k :: 0 <= k < i ==> !Less(oid, values[k].oid)
    {
      if Less(oid, values[i].oid) {
        assert NextIndex(values, oid) == i;
        return Some(values[i]);
      }
    }
    return None;
  }

  /** GETNEXT returns the least stored identifier above its argument, and nothing only when there is none. */
  lemma NextIsLeast(values: seq<Entry>, oid: Oid)
    requires Sorted(values)
    ensures match NextOf(values, oid)
            case None => forall e :: e in values ==> !Less(oid, e.oid)
            case Some(next) =>
              && next in values && Less(oid, next.oid)
              && forall e :: e in values && Less(oid, e.oid) ==> e == next || Less(next.oid, e.oid)
  {
  }

  /** `values.get(oid)`: the text stored for an identifier. */
  function TextOf(values: seq<Entry>, oid: Oid): (r: Option<seq<Byte>>)
    ensures match r
            case None => forall e :: e in values ==> e.oid != oid
            case Some(text) => Entry(oid, text) in values
  {
    if values == [] then None
    else if values[0].oid == oid then Some(values[0].text)
    else TextOf(values[1..], oid)
  }

  /** No identifier is stored twice, so a lookup finds the one text stored for it. */
  lemma TextOfStored(values: seq<Entry>, e: Entry)
    requires Sorted(values) && e in values
    ensures TextOf(values, e.oid) == Some(e.text)
  {
    var found := TextOf(values, e.oid);
    assert found.Some?;
    var i :| 0 <= i < |values| && values[i] == e;
    var j :| 0 <= j < |values| && values[j] == Entry(e.oid, found.value);
    LessIsStrict(e.oid);
  }

  /** `steps` GETNEXT requests in a row, each from the identifier the previous one returned. */
  function Walk(values: seq<Entry>, oid: Oid, steps: nat): seq<Entry>
    decreases steps
  {
    match NextOf(values, oid)
    case None => []
    case Some(next) => if steps == 0 then [] else [next] + Walk(values, next.oid, steps - 1)
  }

  lemma NextIndexOfStored(values: seq<Entry>, i: nat)
    requires Sorted(values) && i < |values|
    ensures NextIndex(values, values[i].oid) == i + 1
  {
    var n := NextIndex(values, values[i].oid);
    LessIsStrict(values[i].oid);
    if n <= i {
      if n < i {
        LessIsTransitive(values[n].oid, values[i].oid, values[n].oid);
        LessIsStrict(values[n].oid);
      }
    }
  }

  /** The entry at position `i` of a walk is the GETNEXT answer to the one before it. */
  lemma WalkStep(values: seq<Entry>, oid: Oid, steps: nat, i: nat)
    requires Sorted(values) && i < |Walk(values, oid, steps)|
    ensures NextOf(values, if i == 0 then oid else Walk(values, oid, steps)[i - 1].oid)
         == Some(Walk(values, oid, steps)[i])
  {
    hide Walk, Less;
    WalkIsStretch(values, oid, steps);
    if i > 0 {
      NextIndexOfStored(values, NextIndex(values, oid) + i - 1);
    }
  }

  function Min(a: nat, b: nat): nat {
    if a < b then a else b
  }

  /** A walk is a contiguous stretch of the table, cut off only by its end. */
  lemma {:induction false} WalkIsStretch(values: seq<Entry>, oid: Oid, steps: nat)
    requires Sorted(values)
    ensures var i := NextIndex(values, oid);
            Walk(values, oid, steps) == values[i..i + Min(steps, |values| - i)]
    decreases steps
  {
    hide Less, NextIndex;
    var i := NextIndex(values, oid);
    if i < |values| && steps > 0 {
      NextIndexOfStored(values, i);
      WalkIsStretch(values, values[i].oid, steps - 1);
    }
  }

  /** The entries above an identifier, in table order. */
  function Above(values: seq<Entry>, oid: Oid): seq<Entry> {
    if values == [] then []
    else (if Less(oid, values[0].oid) then [values[0]] else []) + Above(values[1..], oid)
  }

  lemma {:induction false} AboveIsSuffix(values: seq<Entry>, oid: Oid)
    requires Sorted(values)
    ensures Above(values, oid) == values[NextIndex(values, oid)..]
  {
    if values != [] {
      AboveIsSuffix(values[1..], oid);
      if Less(oid, values[0].oid) {
        if |values| > 1 {
          LessIsTransitive(oid, values[0].oid, values[1].oid);
        }
        assert NextIndex(values[1..], oid) == 0;
      }
    }
  }

  /** Enough GETNEXT steps visit every larger identifier exactly once, in order, and then stop. */
  lemma WalkVisitsAllAbove(values: seq<Entry>, oid: Oid, steps: nat)
    requires Sorted(values)
    ensures steps >= |Above(values, oid)| ==> Walk(values, oid, steps) == Above(values, oid)
    ensures Walk(values, oid, steps) == Above(values, oid)[..Min(steps, |Above(values, oid)|)]
    ensures Sorted(Walk(values, oid, steps))
  {
    hide Walk, Above, Less;
    WalkIsStretch(values, oid, steps);
    AboveIsSuffix(values, oid);
  }

  /** The GETBULK loop: `repetitions` rounds of GETNEXT, each moving the cursor. */
  method Bulk(values: seq<Entry>, oid: Oid, repetitions: nat) returns (found: seq<Entry>)
    ensures found == Walk(values, oid, repetitions)
  {
    found := [];
    var cursor := oid;
    for round := 0 to repetitions
      invariant Walk(values, oid, repetitions) == found + Walk(values, cursor, repetitions - round)
    {
      var next := NextValue(values, cursor);
      if next.None? {
        break;
      }
      assert found + ([next.value] + Walk(values, next.value.oid, repetitions - round - 1))
          == (found + [next.value]) + Walk(values, next.value.oid, repetitions - round - 1);
      found := found + [next.value];
      cursor := next.value.oid;
    }
  }
}
