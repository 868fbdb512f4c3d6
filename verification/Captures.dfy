/**
 Capture files: their names, and the sweep that removes at startup the files no instance refers to.
 */
module Captures {
  import opened Wrappers

  const PREFIX: string := "pcap_"
  const SUFFIX: string := ".pcap"

  function CaptureFileName(instanceId: string): string {
    PREFIX + instanceId + SUFFIX
  }

  predicate IsAlphanumeric(c: char) {
    '0' <= c <= '9' || 'A' <= c <= 'Z' || 'a' <= c <= 'z'
  }

  /** Non-empty, and made of ASCII letters, digits and hyphens only. */
  predicate IsPlainId(text: string) {
    text != [] && forall i :: 0 <= i < |text| ==> IsAlphanumeric(text[i]) || text[i] == '-'
  }

  function StripPrefix(text: string, prefix: string): Option<string> {
    if prefix <= text then Some(text[|prefix|..]) else None
  }

  function StripSuffix(text: string, suffix: string): Option<string> {
    if |suffix| <= |text| && text[|text| - |suffix|..] == suffix then Some(text[..|text| - |suffix|]) else None
  }

  predicate IsManagedCaptureFile(name: string) {
    match StripPrefix(name, PREFIX)
    case None => false
    case Some(rest) =>
      match StripSuffix(rest, SUFFIX)
      case None => false
      case Some(id) => IsPlainId(id)
  }

  lemma NameParts(id: string)
    ensures StripPrefix(CaptureFileName(id), PREFIX) == Some(id + SUFFIX)
    ensures StripSuffix(id + SUFFIX, SUFFIX) == Some(id)
  {
    var name := CaptureFileName(id);
    assert name == PREFIX + (id + SUFFIX);
    assert PREFIX <= name && name[|PREFIX|..] == id + SUFFIX;
    assert (id + SUFFIX)[|id|..] == SUFFIX && (id + SUFFIX)[..|id|] == id;
  }

  /** The same by the codes of the characters: 0 to 9, A to Z, a to z and the hyphen. */
  predicate HasPlainCodes(id: string) {
    |id| > 0 && forall i :: 0 <= i < |id| ==>
      var code := id[i] as int;
      48 <= code < 58 || 65 <= code < 91 || 97 <= code < 123 || code == 45
  }

  lemma PlainByCodes(id: string)
    ensures IsPlainId(id) <==> HasPlainCodes(id)
  {
  }

  /** A capture file is managed exactly when its instance id is plain. */
  lemma NameIsManaged(id: string)
    ensures IsManagedCaptureFile("pcap_" + id + ".pcap") <==> HasPlainCodes(id)
    ensures HasPlainCodes(id) <==> IsPlainId(id)
    ensures CaptureFileName(id) == "pcap_" + id + ".pcap"
  {
    hide StripPrefix, StripSuffix, IsPlainId, HasPlainCodes;
    NameParts(id);
    PlainByCodes(id);
  }

  /** The managed names are the capture names of plain ids, and no others. */
  lemma ManagedIsAName(name: string) returns (id: string)
    requires IsManagedCaptureFile(name)
    ensures HasPlainCodes(id) && name == "pcap_" + id + ".pcap" == CaptureFileName(id)
  {
    hide IsPlainId, HasPlainCodes;
    var rest := StripPrefix(name, PREFIX).value;
    id := StripSuffix(rest, SUFFIX).value;
    assert rest == id + SUFFIX;
    assert name == PREFIX + rest;
    assert PREFIX + (id + SUFFIX) == PREFIX + id + SUFFIX;
    PlainByCodes(id);
  }

  lemma NamesAreDistinct(a: string, b: string)
    requires CaptureFileName(a) == CaptureFileName(b)
    ensures a == b
  {
    hide CaptureFileName, StripPrefix, StripSuffix;
    NameParts(a);
    NameParts(b);
  }

  // ---------------------------------------------------------------------------
  // The sweep
  // ---------------------------------------------------------------------------

  /** A directory entry; a name that is not UTF-8 text reads as `None`. */
  datatype Kind = Regular | NotRegular | Unreadable
  datatype Entry = Entry(name: Option<string>, kind: Kind)

  /** The file system's answer to a removal. */
  datatype Attempt = Removed | NotFound | Denied(error: string)

  datatype Report = Report(removed: nat, failures: seq<(string, string)>)

  /** An entry the sweep looks at: a managed name nothing refers to. */
  predicate IsOrphan(entry: Entry, referenced: set<string>) {
    entry.name.Some? && entry.name.value !in referenced && IsManagedCaptureFile(entry.name.value)
  }

  predicate IsSwept(entry: Entry, referenced: set<string>) {
    IsOrphan(entry, referenced) && entry.kind == Regular
  }

  /** What is left of the entries once each swept one met its attempt. */
  function Left(entries: seq<Entry>, referenced: set<string>, attempts: seq<Attempt>): seq<Entry>
    requires |entries| == |attempts|
  {
    if entries == [] then []
    else
      var k := |entries| - 1;
      var init := Left(entries[..k], referenced, attempts[..k]);
      if IsSwept(entries[k], referenced) && !attempts[k].Denied? then init else init + [entries[k]]
  }

  function Failures(entries: seq<Entry>, referenced: set<string>, attempts: seq<Attempt>): seq<(string, string)>
    requires |entries| == |attempts|
  {
    if entries == [] then []
    else
      var k := |entries| - 1;
      var init := Failures(entries[..k], referenced, attempts[..k]);
      if IsSwept(entries[k], referenced) && attempts[k].Denied? then init + [(entries[k].name.value, attempts[k].error)]
      else init
  }

  function RemovedCount(entries: seq<Entry>, referenced: set<string>, attempts: seq<Attempt>): nat
    requires |entries| == |attempts|
  {
    if entries == [] then 0
    else
      var k := |entries| - 1;
      RemovedCount(entries[..k], referenced, attempts[..k])
      + (if IsSwept(entries[k], referenced) && attempts[k].Removed? then 1 else 0)
  }

  /** The entries before the first orphan whose file type cannot be read: there the sweep gives up. */
  function Readable(entries: seq<Entry>, referenced: set<string>): (n: nat)
    ensures n <= |entries|
    ensures forall i :: 0 <= i < n ==> !(IsOrphan(entries[i], referenced) && entries[i].kind == Unreadable)
    ensures n < |entries| ==> IsOrphan(entries[n], referenced) && entries[n].kind == Unreadable
  {
    if entries == [] then 0
    else
      var n := Readable(entries[..|entries| - 1], referenced);
      if n < |entries| - 1 then n
      else if IsOrphan(entries[n], referenced) && entries[n].kind == Unreadable then n
      else n + 1
  }

  lemma {:induction false} ReadableAt(entries: seq<Entry>, referenced: set<string>, k: nat)
    requires k < |entries| && Readable(entries[..k], referenced) == k
    requires IsOrphan(entries[k], referenced) && entries[k].kind == Unreadable
    ensures Readable(entries, referenced) == k
  {
    hide IsOrphan;
    var last := |entries| - 1;
    if k < last {
      assert entries[..last][..k] == entries[..k];
      ReadableAt(entries[..last], referenced, k);
    }
  }

  lemma ReadableStep(entries: seq<Entry>, referenced: set<string>, k: nat)
    requires k < |entries| && Readable(entries[..k], referenced) == k
    requires !(IsOrphan(entries[k], referenced) && entries[k].kind == Unreadable)
    ensures Readable(entries[..k + 1], referenced) == k + 1
  {
    hide IsOrphan;
    assert entries[..k + 1][..k] == entries[..k];
  }

  lemma SweepStep(entries: seq<Entry>, referenced: set<string>, attempts: seq<Attempt>, k: nat)
    requires k < |entries| == |attempts|
    ensures var swept := IsSwept(entries[k], referenced);
            && Left(entries[..k + 1], referenced, attempts[..k + 1])
            == (var kept := Left(entries[..k], referenced, attempts[..k]);
                if swept && !attempts[k].Denied? then kept else kept + [entries[k]])
            && Failures(entries[..k + 1], referenced, attempts[..k + 1])
            == (var failed := Failures(entries[..k], referenced, attempts[..k]);
                if swept && attempts[k].Denied? then failed + [(entries[k].name.value, attempts[k].error)] else failed)
            && RemovedCount(entries[..k + 1], referenced, attempts[..k + 1])
            == RemovedCount(entries[..k], referenced, attempts[..k]) + (if swept && attempts[k].Removed? then 1 else 0)
  {
    hide IsOrphan;
    assert entries[..k + 1][..k] == entries[..k] && attempts[..k + 1][..k] == attempts[..k];
  }

  function DropAt<T>(s: seq<T>, k: nat): seq<T>
    requires k < |s|
  {
    s[..k] + s[k + 1..]
  }

  lemma DropAfter<T>(kept: seq<T>, rest: seq<T>)
    requires rest != []
    ensures DropAt(kept + rest, |kept|) == kept + rest[1..]
  {
  }

  lemma KeepNext<T>(kept: seq<T>, listed: seq<T>, k: nat)
    requires k < |listed|
    ensures kept + listed[k..] == (kept + [listed[k]]) + listed[k + 1..]
    ensures listed[k..][1..] == listed[k + 1..]
  {
  }

  /** The capture directory. */
  class CaptureDirectory {
    var entries: seq<Entry>

    constructor (entries: seq<Entry>)
      ensures this.entries == entries
    {
      this.entries := entries;
    }

    /**
     Removes every orphaned capture file. `attempts` is what each removal would meet. The report is missing when
     the sweep gave up half way.
     */
    method CleanupOrphanedCaptureFiles(referenced: set<string>, attempts: seq<Attempt>) returns (report: Option<Report>)
      requires |attempts| == |entries|
      modifies this
      ensures var n := Readable(old(entries), referenced);
              entries == Left(old(entries)[..n], referenced, attempts[..n]) + old(entries)[n..]
      ensures report.Some? <==> Readable(old(entries), referenced) == |old(entries)|
      ensures report.Some? ==>
                report.value == Report(RemovedCount(old(entries), referenced, attempts),
                                       Failures(old(entries), referenced, attempts))
    {
      hide IsManagedCaptureFile, Left, Failures, RemovedCount, Readable, DropAt;
      var listed := entries;
      var removed: nat, failures := 0, [];
      StartOfSweep(listed, referenced, attempts);
      var i := 0;
      while i < |listed|
        invariant i <= |listed|
        invariant Readable(listed[..i], referenced) == i
        invariant entries == Left(listed[..i], referenced, attempts[..i]) + listed[i..]
        invariant removed == RemovedCount(listed[..i], referenced, attempts[..i])
        invariant failures == Failures(listed[..i], referenced, attempts[..i])
      {
        var entry := listed[i];
        ghost var kept := Left(listed[..i], referenced, attempts[..i]);
        SweepStep(listed, referenced, attempts, i);
        KeepNext(kept, listed, i);
        if IsOrphan(entry, referenced) && entry.kind == Unreadable {
          ReadableAt(listed, referenced, i);
          return None;
        }
        ReadableStep(listed, referenced, i);
        if IsOrphan(entry, referenced) && entry.kind == Regular {
          match attempts[i] {
            case Removed =>
              removed := removed + 1;
            case NotFound =>
            case Denied(error) =>
              failures := failures + [(entry.name.value, error)];
          }
          if !attempts[i].Denied? {
            DropAfter(kept, listed[i..]);
            entries := DropAt(entries, |entries| - (|listed| - i));
          }
        }
        i := i + 1;
      }
      assert listed[..|listed|] == listed && attempts[..|attempts|] == attempts;
      return Some(Report(removed, failures));
    }
  }

  lemma StartOfSweep(listed: seq<Entry>, referenced: set<string>, attempts: seq<Attempt>)
    requires |listed| == |attempts|
    ensures listed[..0] == [] && attempts[..0] == [] && listed[0..] == listed
    ensures Readable(listed[..0], referenced) == 0 == RemovedCount(listed[..0], referenced, attempts[..0])
    ensures Left(listed[..0], referenced, attempts[..0]) == []
    ensures Failures(listed[..0], referenced, attempts[..0]) == []
  {
  }

  /** The name is that of a capture of a plain id, and nothing refers to it. */
  ghost predicate Unreferenced(entry: Entry, referenced: set<string>) {
    exists id :: HasPlainCodes(id) && entry.name == Some("pcap_" + id + ".pcap") && entry.name.value !in referenced
  }

  lemma OrphansAreUnreferenced(entry: Entry, referenced: set<string>)
    ensures IsOrphan(entry, referenced) <==> Unreferenced(entry, referenced)
  {
    hide IsManagedCaptureFile, HasPlainCodes;
    if IsOrphan(entry, referenced) {
      var id := ManagedIsAName(entry.name.value);
      assert entry.name == Some("pcap_" + id + ".pcap");
    } else if Unreferenced(entry, referenced) {
      var id :| HasPlainCodes(id) && entry.name == Some("pcap_" + id + ".pcap") && entry.name.value !in referenced;
      NameIsManaged(id);
    }
  }

  /** What becomes of one entry: removed, gone already, reported with its error, or left alone. */
  lemma SweepOfOne(entry: Entry, referenced: set<string>, attempt: Attempt)
    ensures var swept := Unreferenced(entry, referenced) && entry.kind == Regular;
            && Left([entry], referenced, [attempt]) == (if swept && !attempt.Denied? then [] else [entry])
            && (swept && attempt.Denied? ==> entry.name.Some? && Failures([entry], referenced, [attempt]) == [(entry.name.value, attempt.error)])
            && (!(swept && attempt.Denied?) ==> Failures([entry], referenced, [attempt]) == [])
            && RemovedCount([entry], referenced, [attempt]) == (if swept && attempt == Removed then 1 else 0)
  {
    hide Unreferenced, IsOrphan;
    OrphansAreUnreferenced(entry, referenced);
    SweepStep([entry], referenced, [attempt], 0);
    assert [entry][..1] == [entry] && [attempt][..1] == [attempt];
    StartOfSweep([entry], referenced, [attempt]);
    if IsOrphan(entry, referenced) {
      OrphanHasName(entry, referenced);
    }
  }

  lemma OrphanHasName(entry: Entry, referenced: set<string>)
    requires IsOrphan(entry, referenced)
    ensures entry.name.Some?
  {
  }

  /** A listing is swept entry by entry, in order. */
  lemma {:induction false} SweepOfMore(
    first: seq<Entry>, second: seq<Entry>, referenced: set<string>, attempts: seq<Attempt>, more: seq<Attempt>)
    requires |first| == |attempts| && |second| == |more|
    ensures Left(first + second, referenced, attempts + more) == Left(first, referenced, attempts) + Left(second, referenced, more)
    ensures Failures(first + second, referenced, attempts + more)
         == Failures(first, referenced, attempts) + Failures(second, referenced, more)
    ensures RemovedCount(first + second, referenced, attempts + more)
         == RemovedCount(first, referenced, attempts) + RemovedCount(second, referenced, more)
  {
    hide IsSwept, Left, Failures, RemovedCount;
    if second == [] {
      assert first + second == first && attempts + more == attempts && second[..0] == second && more[..0] == more;
      StartOfSweep(second, referenced, more);
    } else {
      var k := |second| - 1;
      SweepOfMore(first, second[..k], referenced, attempts, more[..k]);
      SweepStep(second, referenced, more, k);
      SweepStep(first + second, referenced, attempts + more, |first| + k);
      assert (first + second)[..|first| + k] == first + second[..k] && (attempts + more)[..|first| + k] == attempts + more[..k];
      assert (first + second)[..|first| + k + 1] == first + second && (attempts + more)[..|first| + k + 1] == attempts + more;
      assert second[..k + 1] == second && more[..k + 1] == more;
    }
  }

  /** The sweep gives up exactly when it comes to an unreferenced capture file whose type it cannot read. */
  lemma GivesUpExactly(entries: seq<Entry>, referenced: set<string>)
    ensures Readable(entries, referenced) < |entries| <==>
            exists i :: 0 <= i < |entries| && Unreferenced(entries[i], referenced) && entries[i].kind == Unreadable
    ensures var n := Readable(entries, referenced);
            n < |entries| ==> Unreferenced(entries[n], referenced) && entries[n].kind == Unreadable
  {
    hide Unreferenced, IsOrphan;
    forall i | 0 <= i < |entries|
      ensures IsOrphan(entries[i], referenced) <==> Unreferenced(entries[i], referenced)
    {
      OrphansAreUnreferenced(entries[i], referenced);
    }
  }

  /**
   The sweep leaves an entry exactly when it is referenced, not managed or not a regular file, or when its removal
   failed; then it is reported.
   */
  lemma {:induction false} SweepIsExact(entries: seq<Entry>, referenced: set<string>, attempts: seq<Attempt>, entry: Entry)
    requires |entries| == |attempts|
    ensures var swept := Unreferenced(entry, referenced) && entry.kind == Regular;
            && (entry in Left(entries, referenced, attempts) <==>
                exists k :: 0 <= k < |entries| && entries[k] == entry && (swept ==> attempts[k].Denied?))
            && (swept && entry in Left(entries, referenced, attempts) ==>
                 entry.name.Some? && exists error :: (entry.name.value, error) in Failures(entries, referenced, attempts))
  {
    hide IsManagedCaptureFile, Unreferenced;
    OrphansAreUnreferenced(entry, referenced);
    if entries != [] {
      var k := |entries| - 1;
      SweepIsExact(entries[..k], referenced, attempts[..k], entry);
      if IsSwept(entry, referenced) && entry in Left(entries, referenced, attempts) {
        if entry in Left(entries[..k], referenced, attempts[..k]) {
          var error :| (entry.name.value, error) in Failures(entries[..k], referenced, attempts[..k]);
          assert (entry.name.value, error) in Failures(entries, referenced, attempts);
        } else {
          assert (entry.name.value, attempts[k].error) in Failures(entries, referenced, attempts);
        }
      }
    }
  }

  /** Every entry of the listing is left, removed, or was gone already. */
  lemma {:induction false} SweepAddsUp(entries: seq<Entry>, referenced: set<string>, attempts: seq<Attempt>)
    requires |entries| == |attempts|
    ensures |Left(entries, referenced, attempts)| + RemovedCount(entries, referenced, attempts) <= |entries|
    ensures (forall k :: 0 <= k < |attempts| ==> !attempts[k].NotFound?) ==>
              |Left(entries, referenced, attempts)| + RemovedCount(entries, referenced, attempts) == |entries|
  {
    hide IsSwept;
    if entries != [] {
      SweepAddsUp(entries[..|entries| - 1], referenced, attempts[..|entries| - 1]);
    }
  }
}
