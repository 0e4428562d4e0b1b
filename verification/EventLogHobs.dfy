/** Dumping the event log, and copying its events out as HOBs for the next boot phase. */
module EventLogHobs {
  import opened Bytes
  import opened EventLogFormat
  import opened EventLogWalk
  import opened EventLogIterator

  type Hob = seq<Byte>

  /** Whether a HOB can be created may depend on the HOBs so far and on the data to store. */
  type Allocator = (seq<Hob>, Hob) -> bool

  predicate SkippedAt(mem: Memory, sizeField: nat) {
    IsStartupLocality(mem, sizeField) && mem(sizeField + 4 + SIGNATURE_SIZE) != 3
  }

  function BuildOne(mem: Memory, a: nat, size: nat, allocate: Allocator, hobs: seq<Hob>): (r: (Status, seq<Hob>))
    ensures r.0 == Success || r.0 == Unsupported || r.0 == OutOfResources
  {
    match DigestsEnd(mem, a)
    case None => (Unsupported, hobs)
    case Some(end) =>
      if SkippedAt(mem, end) then (Success, hobs)
      else if allocate(hobs, Load(mem, a, size)) then (Success, hobs + [Load(mem, a, size)])
      else (OutOfResources, hobs)
  }

  function Remaining(base: nat, size: nat, c: Cursor): nat {
    if Position(base, c) >= base + size then 0 else base + size - Position(base, c)
  }

  /** The building loop, from any state of the iterator. */
  function BuildRest(mem: Memory, base: nat, size: nat, allocate: Allocator, c: Cursor, hobs: seq<Hob>): (Status,
      seq<Hob>)
    requires base > NULL
    decreases Remaining(base, size, c)
  {
    var (status, c') := Next(mem, base, size, c);
    if status == NotFound then (Success, hobs)
    else if status != Success then (status, hobs)
    else
      SuccessAdvances(mem, base, size, c);
      var (built, hobs') := BuildOne(mem, c'.event, c'.eventSize, allocate, hobs);
      if built != Success then (built, hobs') else BuildRest(mem, base, size, allocate, c', hobs')
  }

  /** The first event must be a specification event, and gets no HOB. */
  function Build(mem: Memory, log: Option<(nat, nat)>, allocate: Allocator, hobs: seq<Hob>): (Status, seq<Hob>)
    requires log.Some? ==> log.value.0 > NULL
  {
    if log.None? then (Success, hobs)
    else
      var (base, size) := log.value;
      var (status, c) := Next(mem, base, size, START);
      if status != Success || !IsSpecIdEvent(mem, c.event) then (InvalidParameter, hobs)
      else BuildRest(mem, base, size, allocate, c, hobs)
  }

  lemma {:induction false} BuildRestNeverNotFound(mem: Memory, base: nat, size: nat, allocate: Allocator, c: Cursor,
      hobs: seq<Hob>)
    requires base > NULL
    ensures BuildRest(mem, base, size, allocate, c, hobs).0 != NotFound
    ensures hobs <= BuildRest(mem, base, size, allocate, c, hobs).1
    decreases Remaining(base, size, c)
  {
    hide RecordSize, DigestsEnd, SkippedAt, Load;
    var (status, c') := Next(mem, base, size, c);
    if status == Success {
      SuccessAdvances(mem, base, size, c);
      var (built, hobs') := BuildOne(mem, c'.event, c'.eventSize, allocate, hobs);
      BuildRestNeverNotFound(mem, base, size, allocate, c', hobs');
    }
  }

  /** Without a log nothing is built and that is a success; the end of a log is never reported, and HOBs are only
      added. */
  lemma BuildNeverNotFound(mem: Memory, log: Option<(nat, nat)>, allocate: Allocator, hobs: seq<Hob>)
    requires log.Some? ==> log.value.0 > NULL
    ensures Build(mem, log, allocate, hobs).0 != NotFound
    ensures hobs <= Build(mem, log, allocate, hobs).1
    ensures log.None? ==> Build(mem, log, allocate, hobs) == (Success, hobs)
  {
    hide BuildRest, Next, IsSpecIdEvent;
    if log.Some? {
      var (base, size) := log.value;
      BuildRestNeverNotFound(mem, base, size, allocate, Next(mem, base, size, START).1, hobs);
    }
  }

  /** What the dump shows of the events from a state of the iterator on. */
  function DumpFrom(mem: Memory, base: nat, size: nat, c: Cursor): seq<Shown>
    requires base > NULL
    decreases Remaining(base, size, c)
  {
    var (status, c') := Next(mem, base, size, c);
    if status != Success then []
    else
      SuccessAdvances(mem, base, size, c);
      ShownAt(mem, c'.event) + DumpFrom(mem, base, size, c')
  }

  function ShownAt(mem: Memory, a: nat): seq<Shown> {
    if IsSpecIdEvent(mem, a) then [] else [Show(mem, a)]
  }

  method DumpTpmEventLog(mem: Memory, base: nat, size: nat) returns (shown: seq<Shown>)
    requires base > NULL
    ensures shown == DumpFrom(mem, base, size, START)
  {
    hide Next, Show, IsSpecIdEvent;
    shown := [];
    var iter := new Iterator(mem, base, size);
    var status, event, eventSize := iter.GetNext();
    ghost var c := START;
    while status == Success
      invariant iter.mem == mem && iter.eventLogBase == base && iter.eventLogSize == size
      invariant fresh(iter)
      invariant (status, Cursor(event, eventSize)) == Next(mem, base, size, c)
      invariant iter.State() == Cursor(event, eventSize)
      invariant shown + DumpFrom(mem, base, size, c) == DumpFrom(mem, base, size, START)
      decreases Remaining(base, size, c)
    {
      SuccessAdvances(mem, base, size, c);
      c := iter.State();
      Regroup(shown, ShownAt(mem, event), DumpFrom(mem, base, size, c));
      if !IsSpecIdEvent(mem, event) {
        var s := DumpEvent(mem, event);
        shown := shown + [s];
      }
      status, event, eventSize := iter.GetNext();
    }
    assert shown + [] == shown;
  }

  class HobProducer {
    const allocate: Allocator
    var hobs: seq<Hob>

    constructor (allocate: Allocator)
      ensures this.allocate == allocate && hobs == []
    {
      this.allocate, hobs := allocate, [];
    }

    method BuildGuidDataHob(data: Hob) returns (created: bool)
      modifies this
      ensures created == allocate(old(hobs), data)
      ensures hobs == if created then old(hobs) + [data] else old(hobs)
    {
      created := allocate(hobs, data);
      if created {
        hobs := hobs + [data];
      }
    }

    method BuildOnePeiEventLogHob(mem: Memory, a: nat, size: nat) returns (status: Status)
      modifies this
      ensures (status, hobs) == BuildOne(mem, a, size, allocate, old(hobs))
    {
      hide LoadUint16, LoadUint32;
      var count := LoadUint32(mem, a + COUNT_OFFSET);
      var alg := LoadUint16(mem, a + DIGESTS_OFFSET);
      var event := a + DIGESTS_OFFSET + 2;
      ghost var whole := Walk(mem, event, alg, count);
      for i := 0 to count
        invariant event >= a + DIGESTS_OFFSET + 2
        invariant Walk(mem, event, alg, count - i) == whole
        invariant hobs == old(hobs)
      {
        var info := GetHashInfo(alg);
        if info.None? {
          return Unsupported;
        }
        event := event + info.value;
        alg := LoadUint16(mem, event);
        event := event + 2;
      }
      event := event - 2;
      if SkippedAt(mem, event) {
        return Success;
      }
      var created := BuildGuidDataHob(Load(mem, a, size));
      return if created then Success else OutOfResources;
    }

    method BuildPeiEventLogHobs(mem: Memory, log: Option<(nat, nat)>) returns (status: Status)
      requires log.Some? ==> log.value.0 > NULL
      modifies this
      ensures (status, hobs) == Build(mem, log, allocate, old(hobs))
      ensures log.None? ==> status == Success && hobs == old(hobs)
      ensures status != NotFound
    {
      BuildNeverNotFound(mem, log, allocate, hobs);
      hide Next, BuildOne, IsSpecIdEvent;
      if log.None? {
        return Success;
      }
      var base, size := log.value.0, log.value.1;
      var iter := new Iterator(mem, base, size);
      var event, eventSize;
      status, event, eventSize := iter.GetNext();
      if status != Success || !IsSpecIdEvent(mem, event) {
        return InvalidParameter;
      }
      ghost var whole := BuildRest(mem, base, size, allocate, iter.State(), hobs);
      while status == Success
        invariant iter.mem == mem && iter.eventLogBase == base && iter.eventLogSize == size
        invariant fresh(iter)
        invariant whole == match status
                           case Success => BuildRest(mem, base, size, allocate, iter.State(), hobs)
                           case NotFound => (Success, hobs)
                           case _ => (status, hobs)
        decreases status == Success, Remaining(base, size, iter.State())
      {
        ghost var before := iter.State();
        status, event, eventSize := iter.GetNext();
        if status == Success {
          SuccessAdvances(mem, base, size, before);
          status := BuildOnePeiEventLogHob(mem, event, eventSize);
        }
      }
      if status == NotFound {
        status := Success;
      }
    }
  }

  // Logs serialized from records.

  /** The crypto-agile record that a shown event spells out. */
  function AsRecord(mem: Memory, s: Shown): Record {
    Agile(s.pcr, s.eventType, s.digests,
          if s.event.Some? then Load(mem, s.event.value.data, s.event.value.eventSize) else [])
  }

  function AsRecords(mem: Memory, shown: seq<Shown>): seq<Record> {
    if shown == [] then [] else [AsRecord(mem, shown[0])] + AsRecords(mem, shown[1..])
  }

  function AgileLeading(log: seq<Record>): seq<Record> {
    if log == [] || !Supported(log[0]) then []
    else (if log[0].SpecId? then [] else [log[0]]) + AgileLeading(log[1..])
  }

  lemma ShownOfRecord(mem: Memory, a: nat, r: Record)
    requires Encodable(r) && !Mistaken(mem, a, r) && Supported(r) && Holds(mem, a, Encode(r))
    ensures if r.SpecId? then ShownAt(mem, a) == []
            else |ShownAt(mem, a)| == 1 && AsRecord(mem, ShownAt(mem, a)[0]) == r
  {
    hide Show, IsSpecIdEvent, Encode, Holds, Load, Mistaken;
    SpecIdEventIff(mem, a, r);
    if r.Agile? {
      DumpShowsRecord(mem, a, r);
    }
  }

  /** The dump decodes the log: reading its output back gives every crypto-agile record up to the first
      unsupported one, in order. */
  lemma {:induction false} DumpDecodesLog(mem: Memory, base: nat, log: seq<Record>, size: nat, k: nat)
    requires LogAt(mem, base, log, size) && NoneMistaken(mem, base, log) && k <= Leading(log)
    ensures AsRecords(mem, DumpFrom(mem, base, size, CursorAt(base, log, k))) == AgileLeading(log[k..])
    decreases |log| - k
  {
    hide Next, Encodable, Supported, Encode, Holds, ShownAt, AsRecord, Offset, Mistaken, LogAt;
    NextDeliversIff(mem, base, log, size, k);
    LogStartsAboveNull(mem, base, log, size);
    if k < |log| && Supported(log[k]) {
      var a := base + Offset(log, k);
      RecordHolds(mem, base, log, size, k);
      ShownOfRecord(mem, a, log[k]);
      DumpDecodesLog(mem, base, log, size, k + 1);
      assert log[k..][1..] == log[k + 1..];
      var rest := DumpFrom(mem, base, size, CursorAt(base, log, k + 1));
      assert [] + rest == rest;
      if log[k].Agile? {
        assert (ShownAt(mem, a) + rest)[1..] == rest;
      }
    }
  }

  lemma LogStartsAboveNull(mem: Memory, base: nat, log: seq<Record>, size: nat)
    requires LogAt(mem, base, log, size)
    ensures base > NULL && AllEncodable(log)
  {
  }

  /** Startup-locality events are left out unless the locality is 3; the event type is not looked at. */
  predicate Skipped(r: Record) {
    Locality(r).Some? && Locality(r).value != 3
  }

  /** Of the startup-locality events, the one for locality 3 is kept; events with other data are all kept. */
  lemma SkippedData(r: Record, locality: Byte)
    ensures r.data == STARTUP_LOCALITY + [locality] ==> (Skipped(r) <==> locality != 3)
    ensures Skipped(r) ==> exists b: Byte :: b != 3 && r.data == STARTUP_LOCALITY + [b]
  {
    assert |STARTUP_LOCALITY| == SIGNATURE_SIZE;
    if r.data == STARTUP_LOCALITY + [locality] {
      assert r.data[..SIGNATURE_SIZE] == STARTUP_LOCALITY;
    }
    if Skipped(r) {
      assert r.data == r.data[..SIGNATURE_SIZE] + [r.data[SIGNATURE_SIZE]];
    }
  }

  lemma SkippedIff(mem: Memory, a: nat, r: Record)
    requires r.Agile? && Encodable(r) && Holds(mem, a, Encode(r))
    ensures SkippedAt(mem, a + DIGESTS_OFFSET + DigestsSize(r.digests)) <==> Skipped(r)
  {
    hide LoadUint32, Encode, Holds, Locality, IsStartupLocality;
    var sizeField := a + DIGESTS_OFFSET + DigestsSize(r.digests);
    AgileFields(mem, a, r);
    LocalityOfData(mem, sizeField, r);
    assert ShowData(mem, sizeField).locality == Locality(r);
  }

  lemma BuildOneOfRecord(mem: Memory, a: nat, r: Record, allocate: Allocator, hobs: seq<Hob>)
    requires r.Agile? && Encodable(r) && Supported(r) && Holds(mem, a, Encode(r))
    ensures BuildOne(mem, a, |Encode(r)|, allocate, hobs)
         == if Skipped(r) then (Success, hobs)
            else if allocate(hobs, Encode(r)) then (Success, hobs + [Encode(r)])
            else (OutOfResources, hobs)
  {
    hide SkippedAt, Skipped, Encode, DigestsEnd, Holds;
    DigestsEndOfRecord(mem, a, r);
    SkippedIff(mem, a, r);
    HoldsLoad(mem, a, Encode(r));
  }

  /** The HOBs due for a list of events: the events up to the first unsupported one, less the skipped. */
  function Wanted(events: seq<Record>): seq<Hob> {
    if events == [] || !Supported(events[0]) then []
    else (if Skipped(events[0]) then [] else [Encode(events[0])]) + Wanted(events[1..])
  }

  /** How many of the wanted HOBs are created before the first refusal. */
  function Granted(want: seq<Hob>, allocate: Allocator, hobs: seq<Hob>): (k: nat)
    ensures k <= |want|
    decreases |want|
  {
    if want == [] || !allocate(hobs, want[0]) then 0 else 1 + Granted(want[1..], allocate, hobs + [want[0]])
  }

  lemma {:induction false} GrantedIsFirstRefusal(want: seq<Hob>, allocate: Allocator, hobs: seq<Hob>)
    ensures var k := Granted(want, allocate, hobs);
            && (forall i :: 0 <= i < k ==> allocate(hobs + want[..i], want[i]))
            && (k < |want| ==> !allocate(hobs + want[..k], want[k]))
    decreases |want|
  {
    assert hobs + want[..0] == hobs;
    if want != [] && allocate(hobs, want[0]) {
      var hobs' := hobs + [want[0]];
      GrantedIsFirstRefusal(want[1..], allocate, hobs');
      assert forall i :: 0 < i <= |want| ==> hobs + want[..i] == hobs' + want[1..][..i - 1];
      assert forall i :: 0 < i < |want| ==> want[i] == want[1..][i - 1];
    }
  }

  /** The HOBs after the first `k` wanted ones are created; a refusal decides the status. */
  function Settle(want: seq<Hob>, k: nat, status: Status, hobs: seq<Hob>): (Status, seq<Hob>)
    requires k <= |want|
  {
    if k < |want| then (OutOfResources, hobs + want[..k]) else (status, hobs + want)
  }

  /** The outcome for a list of events: either the wanted HOBs up to the first refusal, or all of them
      and the status the iteration stops with. */
  function Outcome(events: seq<Record>, allocate: Allocator, hobs: seq<Hob>): (Status, seq<Hob>) {
    var want := Wanted(events);
    Settle(want, Granted(want, allocate, hobs),
           if Leading(events) == |events| then Success else InvalidParameter, hobs)
  }

  lemma SettleFirst(hob: Hob, rest: seq<Hob>, k: nat, status: Status, hobs: seq<Hob>)
    requires k <= |rest|
    ensures Settle([hob] + rest, 1 + k, status, hobs) == Settle(rest, k, status, hobs + [hob])
    ensures Settle([hob] + rest, 0, status, hobs) == (OutOfResources, hobs)
  {
    var want := [hob] + rest;
    assert hobs + want[..1 + k] == hobs + [hob] + rest[..k];
    assert hobs + want == hobs + [hob] + rest;
    assert hobs + want[..0] == hobs;
  }

  lemma WantedStep(events: seq<Record>)
    requires events != [] && Supported(events[0])
    ensures Wanted(events)
         == if Skipped(events[0]) then Wanted(events[1..]) else [Encode(events[0])] + Wanted(events[1..])
    ensures Leading(events) == |events| <==> Leading(events[1..]) == |events[1..]|
  {
    hide Supported, Skipped, Encode;
  }

  lemma GrantedStep(hob: Hob, rest: seq<Hob>, allocate: Allocator, hobs: seq<Hob>)
    ensures Granted([hob] + rest, allocate, hobs)
         == if allocate(hobs, hob) then 1 + Granted(rest, allocate, hobs + [hob]) else 0
  {
    assert ([hob] + rest)[1..] == rest;
  }

  /** How the outcome follows from the first event's. */
  lemma OutcomeStep(events: seq<Record>, allocate: Allocator, hobs: seq<Hob>)
    requires events != [] && Supported(events[0])
    ensures Outcome(events, allocate, hobs)
         == if Skipped(events[0]) then Outcome(events[1..], allocate, hobs)
            else if allocate(hobs, Encode(events[0])) then Outcome(events[1..], allocate, hobs + [Encode(events[0])])
            else (OutOfResources, hobs)
  {
    hide Supported, Skipped, Encode, Wanted, Granted, Leading, Settle;
    WantedStep(events);
    if !Skipped(events[0]) {
      var hob, rest := Encode(events[0]), Wanted(events[1..]);
      var status := if Leading(events) == |events| then Success else InvalidParameter;
      GrantedStep(hob, rest, allocate, hobs);
      SettleFirst(hob, rest, Granted(rest, allocate, hobs + [hob]), status, hobs);
    }
  }

  lemma {:induction false} BuildRestOfLog(mem: Memory, base: nat, log: seq<Record>, size: nat,
      allocate: Allocator, k: nat, hobs: seq<Hob>)
    requires LogAt(mem, base, log, size) && AllSizedRight(mem, base, log) && k <= Leading(log)
    requires forall i :: k <= i < |log| ==> log[i].Agile?
    ensures BuildRest(mem, base, size, allocate, CursorAt(base, log, k), hobs)
         == Outcome(log[k..], allocate, hobs)
    decreases |log| - k
  {
    hide Next, BuildOne, Outcome, Encodable, Supported, Encode, Holds, Skipped, Offset, SizedRight, LogAt;
    NextDeliversIff(mem, base, log, size, k);
    LogStartsAboveNull(mem, base, log, size);
    if k == |log| || !Supported(log[k]) {
      OutcomeStops(log[k..], allocate, hobs);
    } else {
      var r := log[k];
      RecordHolds(mem, base, log, size, k);
      BuildOneOfRecord(mem, base + Offset(log, k), r, allocate, hobs);
      OutcomeStep(log[k..], allocate, hobs);
      assert log[k..][1..] == log[k + 1..];
      BuildRestOfLog(mem, base, log, size, allocate, k + 1, hobs);
      BuildRestOfLog(mem, base, log, size, allocate, k + 1, hobs + [Encode(r)]);
    }
  }

  lemma OutcomeStops(events: seq<Record>, allocate: Allocator, hobs: seq<Hob>)
    requires events == [] || !Supported(events[0])
    ensures Outcome(events, allocate, hobs) == (if events == [] then Success else InvalidParameter, hobs)
  {
    assert hobs + [] == hobs;
  }

  /** On every log of a specification event and crypto-agile events that are sized right, the HOBs are the
      events after the first, byte for byte and in order, less the skipped startup-locality events.  The
      first refused HOB or the first unsupported event stops the building and gives the status; what was
      built stays. */
  lemma HobsAreFilteredEvents(mem: Memory, base: nat, log: seq<Record>, size: nat, allocate: Allocator, hobs: seq<Hob>)
    requires LogAt(mem, base, log, size) && AllSizedRight(mem, base, log)
    requires log != [] && log[0].SpecId? && forall i :: 1 <= i < |log| ==> log[i].Agile?
    ensures Build(mem, Some((base, size)), allocate, hobs) == Outcome(log[1..], allocate, hobs)
  {
    hide Next, Outcome, Encode, Holds, BuildRest, IsSpecIdEvent, SizedRight, Mistaken;
    NextDeliversIff(mem, base, log, size, 0);
    RecordHolds(mem, base, log, size, 0);
    SpecIdEventIff(mem, base, log[0]);
    BuildRestOfLog(mem, base, log, size, allocate, 1, hobs);
  }

  /** A log that does not start with a specification event, nor with one mistaken for it, gives no HOB and
      is invalid. */
  lemma FirstEventMustBeSpecId(mem: Memory, base: nat, log: seq<Record>, size: nat, allocate: Allocator, hobs: seq<Hob>)
    requires LogAt(mem, base, log, size)
    requires log == [] || (log[0].Agile? && !Mistaken(mem, base, log[0]))
    ensures Build(mem, Some((base, size)), allocate, hobs) == (InvalidParameter, hobs)
  {
    hide Next, Encode, Holds, BuildRest, IsSpecIdEvent, Mistaken;
    NextDeliversIff(mem, base, log, size, 0);
    if log != [] {
      RecordHolds(mem, base, log, size, 0);
      SpecIdEventIff(mem, base, log[0]);
    }
  }

  lemma {:induction false} WantedEndsWithLast(events: seq<Record>)
    requires events != [] && Leading(events) == |events| && !Skipped(events[|events| - 1])
    ensures Wanted(events) != [] && Wanted(events)[|Wanted(events)| - 1] == Encode(events[|events| - 1])
  {
    hide Supported, Skipped, Encode;
    if |events| > 1 {
      WantedEndsWithLast(events[1..]);
      assert events[1..][|events| - 2] == events[|events| - 1];
    }
  }

  /** Building HOBs from a log that ends inside its last record copies the bytes behind the log: the last HOB
      is that record, whole. */
  lemma HobReachesBehindLog(mem: Memory, base: nat, log: seq<Record>, size: nat, allocate: Allocator, hobs: seq<Hob>)
    requires LogAt(mem, base, log, size) && AllSizedRight(mem, base, log) && size < |EncodeLog(log)|
    requires |log| >= 2 && log[0].SpecId? && forall i :: 1 <= i < |log| ==> log[i].Agile?
    requires Leading(log) == |log| && !Skipped(log[|log| - 1])
    requires Build(mem, Some((base, size)), allocate, hobs).0 == Success
    ensures var built, a := Build(mem, Some((base, size)), allocate, hobs).1, base + Offset(log, |log| - 1);
            && built != [] && built[|built| - 1] == Load(mem, a, |Encode(log[|log| - 1])|)
            && a + |Encode(log[|log| - 1])| > base + size
  {
    hide Build, Supported, Skipped, Encode, Offset, EncodeLog, LogAt, AllSizedRight, Wanted, Granted, Holds, Load;
    var last := |log| - 1;
    HobsAreFilteredEvents(mem, base, log, size, allocate, hobs);
    assert log[1..][last - 1] == log[last];
    WantedEndsWithLast(log[1..]);
    RecordHolds(mem, base, log, size, last);
    HoldsLoad(mem, base + Offset(log, last), Encode(log[last]));
    LastEnd(log);
  }

  lemma LastEnd(log: seq<Record>)
    requires log != []
    ensures Offset(log, |log| - 1) + |Encode(log[|log| - 1])| == |EncodeLog(log)|
  {
    hide Encode;
    PartOffsetStep(EncodeAll(log), |log| - 1);
    OffsetGrows(log, |log|, |log|);
  }
}
