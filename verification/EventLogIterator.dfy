/** The restartable iterator over the event log. */
module EventLogIterator {
  import opened Bytes
  import opened EventLogFormat
  import opened EventLogWalk

  datatype Status = Success | NotFound | InvalidParameter | Unsupported | OutOfResources

  const NULL: nat := 0

  /** The two fields of the iterator that calls change. */
  datatype Cursor = Cursor(event: nat, eventSize: nat)

  const START := Cursor(NULL, 0)

  /** Where a call looks for its event. */
  function Position(base: nat, c: Cursor): nat {
    if c.event == NULL then base else c.event + c.eventSize
  }

  function RecordSize(mem: Memory, a: nat): (r: Option<nat>)
    ensures r.Some? ==> r.value >= SPEC_ID_DATA_OFFSET
  {
    if IsSpecIdEvent(mem, a) then Some(SpecIdEventSize(mem, a))
    else match DigestsEnd(mem, a)
      case None => None
      case Some(end) =>
        if end == a + DIGESTS_OFFSET then None
        else
          CountedDigests(mem, a);
          Some(end + 4 + LoadUint32(mem, end) - a)
  }

  lemma CountedDigests(mem: Memory, a: nat)
    requires DigestsEnd(mem, a).Some? && DigestsEnd(mem, a).value != a + DIGESTS_OFFSET
    ensures DigestsEnd(mem, a).value >= a + DIGESTS_OFFSET + 22
  {
  }

  /** One call: its status and the iterator afterwards. */
  function Next(mem: Memory, base: nat, size: nat, c: Cursor): (r: (Status, Cursor)) {
    var a := Position(base, c);
    if a >= base + size then (NotFound, START)
    else match RecordSize(mem, a)
      case None => (InvalidParameter, START)
      case Some(n) => (Success, Cursor(a, n))
  }

  class Iterator {
    const mem: Memory
    const eventLogBase: nat
    const eventLogSize: nat
    var event: nat
    var eventSize: nat

    function State(): Cursor
      reads this
    {
      Cursor(event, eventSize)
    }

    constructor (mem: Memory, base: nat, size: nat)
      ensures this.mem == mem && eventLogBase == base && eventLogSize == size
      ensures State() == START
    {
      this.mem, eventLogBase, eventLogSize := mem, base, size;
      event, eventSize := NULL, 0;
    }

    method GetNext() returns (status: Status, nextEvent: nat, nextEventSize: nat)
      modifies this
      ensures (status, State()) == Next(mem, eventLogBase, eventLogSize, old(State()))
      ensures State() == Cursor(nextEvent, nextEventSize)
    {
      hide IsSpecIdEvent, SpecIdEventSize, DigestsEnd, LoadUint32;
      if event == NULL {
        event := eventLogBase;
      } else {
        event := event + eventSize;
      }
      if event >= eventLogBase + eventLogSize {
        status, event, eventSize := NotFound, NULL, 0;
      } else if IsSpecIdEvent(mem, event) {
        status, eventSize := Success, SpecIdEventSize(mem, event);
      } else {
        var digestListSize := GetDigestListSize(mem, event);
        if digestListSize == 0 {
          status, event, eventSize := InvalidParameter, NULL, 0;
        } else {
          var p := event + DIGESTS_OFFSET + digestListSize;
          p := p + 4 + LoadUint32(mem, p);
          status, eventSize := Success, p - event;
        }
      }
      nextEvent, nextEventSize := event, eventSize;
    }
  }

  /** On any memory at all, a successful call starts inside the log and passes at least 32 bytes. */
  lemma SuccessAdvances(mem: Memory, base: nat, size: nat, c: Cursor)
    requires base > NULL && Next(mem, base, size, c).0 == Success
    ensures var c' := Next(mem, base, size, c).1;
            && c'.event == Position(base, c) < base + size
            && Position(base, c') >= Position(base, c) + 32
  {
  }

  /** The iterator after `n` calls. */
  function After(mem: Memory, base: nat, size: nat, n: nat): Cursor {
    if n == 0 then START else Next(mem, base, size, After(mem, base, size, n - 1)).1
  }

  function Call(mem: Memory, base: nat, size: nat, n: nat): (Status, Cursor) {
    Next(mem, base, size, After(mem, base, size, n))
  }

  /** On any memory, successes since a restart are bounded by the log's size. */
  lemma {:induction false} RunsAreBounded(mem: Memory, base: nat, size: nat, from: nat, n: nat)
    requires base > NULL && After(mem, base, size, from) == START
    requires forall i :: from <= i < from + n ==> Call(mem, base, size, i).0 == Success
    ensures Position(base, After(mem, base, size, from + n)) >= base + 32 * n
    ensures n > 0 ==> 32 * (n - 1) < size
    decreases n
  {
    hide RecordSize;
    if n > 0 {
      RunsAreBounded(mem, base, size, from, n - 1);
      assert Call(mem, base, size, from + n - 1).0 == Success;
      SuccessAdvances(mem, base, size, After(mem, base, size, from + n - 1));
    }
  }

  // Logs serialized from records.

  /** The size a record should be given: none when it is not supported. */
  function DueSize(r: Record): Option<nat> {
    if Supported(r) then Some(|Encode(r)|) else None
  }

  /** A record that is not mistaken for the other format, or is given its own size all the same. */
  predicate SizedRight(mem: Memory, a: nat, r: Record) {
    !Mistaken(mem, a, r) || (Supported(r) && SameSizeAsSpecId(r))
  }

  lemma UnmistakenSize(mem: Memory, a: nat, r: Record)
    requires Encodable(r) && Holds(mem, a, Encode(r)) && !Mistaken(mem, a, r)
    ensures RecordSize(mem, a) == DueSize(r)
  {
    hide IsSpecIdEvent, DigestsEnd, LoadUint32, Load, Encode, Holds, Mistaken;
    EncodedSize(r);
    SpecIdEventIff(mem, a, r);
    if r.SpecId? {
      SpecIdFields(mem, a, r);
    } else {
      AgileFields(mem, a, r);
      DigestsEndOfRecord(mem, a, r);
      if AllKnown(r.digests) {
        KnownDigestsSize(r.digests);
      }
    }
  }

  lemma MistakenSize(mem: Memory, a: nat, r: Record)
    requires Encodable(r) && Holds(mem, a, Encode(r)) && Mistaken(mem, a, r)
    ensures RecordSize(mem, a) == Some(SpecIdEventSize(mem, a))
    ensures Supported(r) ==> (SpecIdEventSize(mem, a) == |Encode(r)| <==> SameSizeAsSpecId(r))
  {
    hide IsSpecIdEvent, LoadUint32, Encode, Holds, ShowsSignature, DigestsEnd;
    SpecIdEventIff(mem, a, r);
    EncodedSize(r);
    if Supported(r) {
      KnownDigestsSize(r.digests);
      HoldsSlice(mem, a, Encode(r), SPEC_ID_SIZE_OFFSET, 4);
      LoadUint32Bytes(mem, a + SPEC_ID_SIZE_OFFSET, Encode(r)[SPEC_ID_SIZE_OFFSET..SPEC_ID_SIZE_OFFSET + 4]);
    }
  }

  /** Exactly when a record is sized, or refused, as it should be. */
  lemma RecordSizeIff(mem: Memory, a: nat, r: Record)
    requires Encodable(r) && Holds(mem, a, Encode(r))
    ensures RecordSize(mem, a) == DueSize(r) <==> SizedRight(mem, a, r)
  {
    hide RecordSize, Encodable, Holds, Mistaken, Supported, SameSizeAsSpecId, SpecIdEventSize, Encode;
    if Mistaken(mem, a, r) {
      MistakenSize(mem, a, r);
    } else {
      UnmistakenSize(mem, a, r);
    }
  }

  /** For a sizable crypto-agile record the condition is about its own bytes: they do not spell the
      signature in a no-action event, or they give the same size when read as the other format. */
  lemma AgileSizedRightIff(mem: Memory, a: nat, r: Record)
    requires r.Agile? && Encodable(r) && Supported(r) && Holds(mem, a, Encode(r))
    ensures RecordSize(mem, a) == Some(|Encode(r)|)
       <==> !(r.eventType == EV_NO_ACTION && SpellsSpecId(r)) || SameSizeAsSpecId(r)
  {
    hide RecordSize, Encodable, Holds, Mistaken, Supported, SpellsSpecId, SameSizeAsSpecId, Encode;
    RecordSizeIff(mem, a, r);
    MistakenIff(mem, a, r);
  }

  /** A SHA-384 digest may spell the signature: this no-action record of 66 bytes is sized as 32. */
  lemma SomeRecordIsMisread(mem: Memory, a: nat)
    requires Holds(mem, a, Encode(MisreadRecord()))
    ensures Encodable(MisreadRecord()) && Supported(MisreadRecord()) && |Encode(MisreadRecord())| == 66
    ensures RecordSize(mem, a) == Some(32)
  {
    hide Holds, IsSpecIdEvent;
    var r := MisreadRecord();
    var hash := r.digests[0].hash;
    assert r.digests[1..] == [];
    assert DigestsSize(r.digests) == 50;
    EncodedSize(r);
    DigestBytes(r);
    assert Encode(r)[32..48] == hash[18..34] == SPEC_ID_03;
    MistakenIff(mem, a, r);
    SpecIdEventIff(mem, a, r);
    ByteOf(mem, a, Encode(r), 28);
    ByteOf(mem, a, Encode(r), 29);
    ByteOf(mem, a, Encode(r), 30);
    ByteOf(mem, a, Encode(r), 31);
  }

  function MisreadRecord(): Record {
    Agile(0, EV_NO_ACTION, [Digest(0x000C, seq(18, _ => 0) + SPEC_ID_03 + seq(14, _ => 0))], [])
  }

  lemma DigestBytes(r: Record)
    requires r.Agile? && |r.digests| == 1
    ensures var hash := r.digests[0].hash;
            |Encode(r)| >= 14 + |hash| && Encode(r)[14..14 + |hash|] == hash
  {
    hide LittleEndian;
    assert r.digests[1..] == [];
    assert EncodeDigests(r.digests) == LittleEndian(r.digests[0].alg, 2) + r.digests[0].hash;
  }

  lemma ByteOf(mem: Memory, a: nat, s: seq<Byte>, i: nat)
    requires Holds(mem, a, s) && i < |s|
    ensures mem(a + i) == s[i]
  {
  }

  /** How many records the iterator delivers before it stops. */
  function Leading(log: seq<Record>): (k: nat)
    ensures k <= |log|
    ensures forall i :: 0 <= i < k ==> Supported(log[i])
    ensures k < |log| ==> !Supported(log[k])
  {
    if log == [] || !Supported(log[0]) then 0 else 1 + Leading(log[1..])
  }

  /** The iterator after delivering `k` records. */
  function CursorAt(base: nat, log: seq<Record>, k: nat): Cursor
    requires k <= |log|
  {
    if k == 0 then START else Cursor(base + Offset(log, k - 1), |Encode(log[k - 1])|)
  }

  /** The log ends with the last record, or inside it. */
  predicate EndsInLast(log: seq<Record>, size: nat) {
    if log == [] then size == 0 else Offset(log, |log| - 1) < size <= |EncodeLog(log)|
  }

  /** The records lie in memory at `base`, within 64-bit addresses, and a log of `size` bytes starts there. */
  ghost predicate LogAt(mem: Memory, base: nat, log: seq<Record>, size: nat) {
    && NULL < base < base + |EncodeLog(log)| + 1 <= TWO_64
    && AllEncodable(log)
    && Holds(mem, base, EncodeLog(log))
    && EndsInLast(log, size)
  }

  /** Every record that is reached is sized right. */
  ghost predicate AllSizedRight(mem: Memory, base: nat, log: seq<Record>) {
    forall k :: 0 <= k < |log| && k <= Leading(log) ==> SizedRight(mem, base + Offset(log, k), log[k])
  }

  /** No record that is reached is mistaken for a specification event. */
  ghost predicate NoneMistaken(mem: Memory, base: nat, log: seq<Record>) {
    forall k :: 0 <= k < |log| && k <= Leading(log) ==> !Mistaken(mem, base + Offset(log, k), log[k])
  }

  /** When every record is supported and none spells the signature in a no-action event, none is mistaken,
      whatever lies in memory behind the log. */
  lemma OwnBytesDecide(mem: Memory, base: nat, log: seq<Record>, size: nat)
    requires LogAt(mem, base, log, size)
    requires forall k :: 0 <= k < |log| ==> Supported(log[k])
    requires forall k :: 0 <= k < |log| && log[k].Agile? ==> !(log[k].eventType == EV_NO_ACTION && SpellsSpecId(log[k]))
    ensures NoneMistaken(mem, base, log) && AllSizedRight(mem, base, log)
  {
    hide Holds, Encode, Encodable, Supported, SpellsSpecId, Offset, ShowsSignature, EncodeLog;
    forall k | 0 <= k < |log| && k <= Leading(log) ensures !Mistaken(mem, base + Offset(log, k), log[k]) {
      if log[k].Agile? {
        RecordHolds(mem, base, log, size, k);
        MistakenIff(mem, base + Offset(log, k), log[k]);
      }
    }
  }

  lemma RecordHolds(mem: Memory, base: nat, log: seq<Record>, size: nat, k: nat)
    requires LogAt(mem, base, log, size) && k < |log|
    ensures Holds(mem, base + Offset(log, k), Encode(log[k]))
  {
    hide Holds, Encode;
    HoldsPart(mem, base, EncodeAll(log), k);
  }

  lemma PositionAt(base: nat, log: seq<Record>, k: nat)
    requires base > NULL && k <= |log|
    ensures Position(base, CursorAt(base, log, k)) == base + Offset(log, k)
  {
    if k > 0 {
      PartOffsetStep(EncodeAll(log), k - 1);
    }
  }

  /** What the call after `k` delivered records answers. */
  function Answer(base: nat, log: seq<Record>, k: nat): (Status, Cursor)
    requires k <= |log|
  {
    if k == |log| then (NotFound, START)
    else if !Supported(log[k]) then (InvalidParameter, START)
    else (Success, CursorAt(base, log, k + 1))
  }

  /** The next call answers as it should exactly when the next record is sized right. */
  lemma NextDeliversIff(mem: Memory, base: nat, log: seq<Record>, size: nat, k: nat)
    requires LogAt(mem, base, log, size) && k <= |log|
    ensures Next(mem, base, size, CursorAt(base, log, k)) == Answer(base, log, k)
       <==> k == |log| || SizedRight(mem, base + Offset(log, k), log[k])
  {
    hide RecordSize, Encodable, SizedRight, Supported, Encode, Holds;
    PositionAt(base, log, k);
    OffsetGrows(log, k, if k == |log| then k else |log| - 1);
    if k < |log| {
      RecordHolds(mem, base, log, size, k);
      RecordSizeIff(mem, base + Offset(log, k), log[k]);
    }
  }

  lemma {:induction false} OffsetGrows(log: seq<Record>, i: nat, j: nat)
    requires i <= j <= |log|
    ensures Offset(log, i) <= Offset(log, j)
    ensures Offset(log, |log|) == |EncodeLog(log)|
    decreases j
  {
    hide Encode;
    var parts := EncodeAll(log);
    assert parts[..|log|] == parts;
    if i < j {
      OffsetGrows(log, i, j - 1);
      PartOffsetStep(parts, j - 1);
    }
  }

  /** Calls since the last restart, when every `period`-th call restarts. */
  function Phase(n: nat, period: nat): (k: nat)
    requires period > 0
    ensures k < period
  {
    n % period
  }

  /** Over any number of calls the iterator is cyclic: all records up to the first unsupported one,
      in order and adjacent, then one stop, then all of them again. */
  lemma {:induction false} IterationIsCyclic(mem: Memory, base: nat, log: seq<Record>, size: nat, n: nat)
    requires LogAt(mem, base, log, size) && AllSizedRight(mem, base, log)
    ensures var k := Phase(n, Leading(log) + 1);
            && After(mem, base, size, n) == CursorAt(base, log, k)
            && Call(mem, base, size, n) == Answer(base, log, k)
    decreases n
  {
    hide Next, LogAt, Phase, EncodeLog, Offset, Encode, SizedRight;
    var period := Leading(log) + 1;
    PhaseStep(n, period);
    if n > 0 {
      IterationIsCyclic(mem, base, log, size, n - 1);
    }
    NextDeliversIff(mem, base, log, size, Phase(n, period));
  }

  /** All calls answer as the log demands. */
  ghost predicate DeliversLog(mem: Memory, base: nat, log: seq<Record>, size: nat) {
    forall n: nat :: Call(mem, base, size, n) == Answer(base, log, Phase(n, Leading(log) + 1))
  }

  lemma {:induction false} DeliveredSoFar(mem: Memory, base: nat, log: seq<Record>, size: nat, k: nat)
    requires LogAt(mem, base, log, size) && DeliversLog(mem, base, log, size) && k <= Leading(log)
    ensures After(mem, base, size, k) == CursorAt(base, log, k)
    ensures Call(mem, base, size, k) == Answer(base, log, k)
    decreases k
  {
    hide Next, LogAt, Phase, EncodeLog, Offset, Encode, Supported;
    PhaseUnique(k, Leading(log) + 1, 0, k);
    if k > 0 {
      DeliveredSoFar(mem, base, log, size, k - 1);
    }
  }

  /** The iteration delivers exactly the log, over any number of calls, if and only if every record that is
      reached is sized right. */
  lemma IterationDeliversLogIff(mem: Memory, base: nat, log: seq<Record>, size: nat)
    requires LogAt(mem, base, log, size)
    ensures DeliversLog(mem, base, log, size) <==> AllSizedRight(mem, base, log)
  {
    hide Call, LogAt, EncodeLog, Offset, SizedRight, Answer, Phase;
    if AllSizedRight(mem, base, log) {
      forall n: nat ensures Call(mem, base, size, n) == Answer(base, log, Phase(n, Leading(log) + 1)) {
        IterationIsCyclic(mem, base, log, size, n);
      }
    }
    if DeliversLog(mem, base, log, size) {
      forall k | 0 <= k < |log| && k <= Leading(log) ensures SizedRight(mem, base + Offset(log, k), log[k]) {
        DeliveredIsSizedRight(mem, base, log, size, k);
      }
    }
  }

  lemma DeliveredIsSizedRight(mem: Memory, base: nat, log: seq<Record>, size: nat, k: nat)
    requires LogAt(mem, base, log, size) && DeliversLog(mem, base, log, size) && k < |log| && k <= Leading(log)
    ensures SizedRight(mem, base + Offset(log, k), log[k])
  {
    hide Next, LogAt, EncodeLog, Offset, SizedRight, Answer, DeliversLog, CursorAt;
    DeliveredSoFar(mem, base, log, size, k);
    NextDeliversIff(mem, base, log, size, k);
  }

  lemma PhaseStep(n: nat, m: nat)
    requires m > 0
    ensures Phase(0, m) == 0
    ensures n > 0 ==> Phase(n, m) == if Phase(n - 1, m) == m - 1 then 0 else Phase(n - 1, m) + 1
  {
    if n > 0 {
      var q, r := (n - 1) / m, (n - 1) % m;
      if r == m - 1 {
        PhaseUnique(n, m, q + 1, 0);
      } else {
        PhaseUnique(n, m, q, r + 1);
      }
    }
  }

  lemma AtLeastOnce(d: int, m: nat)
    requires d >= 1
    ensures d * m >= m
  {
  }

  lemma PhaseUnique(n: nat, m: nat, q: int, r: nat)
    requires m > 0 && n == q * m + r && r < m
    ensures Phase(n, m) == r
  {
    var d := n / m - q;
    assert d * m == r - n % m;
    if d >= 1 {
      AtLeastOnce(d, m);
    } else if d <= -1 {
      AtLeastOnce(-d, m);
    }
  }

  /** Reading the delivered addresses back gives the records' bytes, and a log of supported records
      is delivered whole: the sizes add up to those of all records. */
  lemma DeliveredRecord(mem: Memory, base: nat, log: seq<Record>, size: nat, k: nat)
    requires LogAt(mem, base, log, size) && AllSizedRight(mem, base, log) && k < Leading(log)
    ensures var c := Call(mem, base, size, k).1;
            && Load(mem, c.event, c.eventSize) == Encode(log[k])
            && (k + 1 == |log| ==> c.event + c.eventSize == base + |EncodeLog(log)|)
  {
    hide Next, LogAt, Encode, Holds, AllSizedRight;
    IterationIsCyclic(mem, base, log, size, k);
    PhaseUnique(k, Leading(log) + 1, 0, k);
    RecordHolds(mem, base, log, size, k);
    HoldsLoad(mem, base + Offset(log, k), Encode(log[k]));
    PartOffsetStep(EncodeAll(log), k);
    assert EncodeAll(log)[..|log|] == EncodeAll(log);
  }

  // Logs that end inside a record.

  /** No delivered event goes beyond the log. */
  ghost predicate DeliveredInside(mem: Memory, base: nat, size: nat) {
    forall n: nat :: Call(mem, base, size, n).0 == Success ==> Position(base, Call(mem, base, size, n).1) <= base + size
  }

  lemma DeliveredEnd(mem: Memory, base: nat, log: seq<Record>, size: nat, n: nat)
    requires LogAt(mem, base, log, size) && AllSizedRight(mem, base, log)
    ensures var k := Phase(n, Leading(log) + 1);
            && (Call(mem, base, size, n).0 == Success <==> k < Leading(log))
            && (k < Leading(log) ==> Position(base, Call(mem, base, size, n).1) == base + Offset(log, k + 1))
  {
    hide Call, AllSizedRight, Offset, Phase, EncodeLog, EndsInLast, Holds, Supported, CursorAt, Position;
    var k := Phase(n, Leading(log) + 1);
    IterationIsCyclic(mem, base, log, size, n);
    if k < Leading(log) {
      PositionAt(base, log, k + 1);
    }
  }

  /** The iterator compares only where an event starts: it goes beyond the log exactly when the log ends inside
      its last record and the iteration gets there. */
  lemma DeliveredInsideIff(mem: Memory, base: nat, log: seq<Record>, size: nat)
    requires LogAt(mem, base, log, size) && AllSizedRight(mem, base, log)
    ensures DeliveredInside(mem, base, size) <==> size == |EncodeLog(log)| || Leading(log) < |log|
  {
    hide Call, AllSizedRight, Phase, EncodeLog, Offset, Position, Holds, AllEncodable, Leading;
    OffsetStart(log);
    OffsetGrows(log, 0, |log|);
    if size == |EncodeLog(log)| || Leading(log) < |log| {
      forall n: nat | Call(mem, base, size, n).0 == Success
        ensures Position(base, Call(mem, base, size, n).1) <= base + size
      {
        DeliveredEnd(mem, base, log, size, n);
        var k := Phase(n, Leading(log) + 1);
        OffsetGrows(log, k + 1, if Leading(log) < |log| then |log| - 1 else |log|);
      }
    } else {
      var last := |log| - 1;
      PhaseUnique(last, Leading(log) + 1, 0, last);
      DeliveredEnd(mem, base, log, size, last);
      assert Call(mem, base, size, last).0 == Success;
    }
  }

  /** How many records start below `size`, from record `k` on. */
  function Started(log: seq<Record>, size: nat, k: nat): (m: nat)
    requires k <= |log|
    requires k > 0 ==> Offset(log, k - 1) < size
    ensures k <= m <= |log|
    ensures m > 0 ==> Offset(log, m - 1) < size
    ensures m < |log| ==> Offset(log, m) >= size
    decreases |log| - k
  {
    if k == |log| || Offset(log, k) >= size then k else Started(log, size, k + 1)
  }

  lemma PrefixOffsets(log: seq<Record>, m: nat, k: nat)
    requires k <= m <= |log|
    ensures Offset(log[..m], k) == Offset(log, k)
    ensures |EncodeLog(log[..m])| == Offset(log, m)
  {
    hide Encode, Concat;
    assert EncodeAll(log[..m]) == EncodeAll(log)[..m];
    assert EncodeAll(log)[..m][..k] == EncodeAll(log)[..k];
  }

  /** Any cut leaves a log: that of the records that start below it. */
  lemma CutIsLog(mem: Memory, base: nat, log: seq<Record>, size: nat)
    requires LogAt(mem, base, log, |EncodeLog(log)|) && size <= |EncodeLog(log)|
    ensures LogAt(mem, base, log[..Started(log, size, 0)], size)
  {
    hide Encode, Concat, Encodable, Holds, Offset;
    var m := Started(log, size, 0);
    var prefix := log[..m];
    PrefixOffsets(log, m, if m == 0 then 0 else m - 1);
    OffsetGrows(log, m, |log|);
    assert EncodeAll(prefix) == EncodeAll(log)[..m];
    assert EncodeAll(log) == EncodeAll(log)[..m] + EncodeAll(log)[m..];
    ConcatSplit(EncodeAll(log)[..m], EncodeAll(log)[m..]);
    HoldsConcat(mem, base, EncodeLog(prefix), Concat(EncodeAll(log)[m..]));
    OffsetStart(log);
  }

  lemma OffsetStart(log: seq<Record>)
    ensures Offset(log, 0) == 0
  {
  }

  lemma {:induction false} LeadingOfPrefix(log: seq<Record>, m: nat)
    requires m <= |log|
    ensures Leading(log[..m]) == if Leading(log) < m then Leading(log) else m
  {
    hide Supported;
    if m > 0 {
      assert log[..m][1..] == log[1..][..m - 1];
      LeadingOfPrefix(log[1..], m - 1);
    }
  }

  lemma PrefixSizedRight(mem: Memory, base: nat, log: seq<Record>, m: nat)
    requires m <= |log| && AllSizedRight(mem, base, log)
    ensures AllSizedRight(mem, base, log[..m])
  {
    hide SizedRight, Offset;
    LeadingOfPrefix(log, m);
    forall k | 0 <= k < m && k <= Leading(log[..m]) ensures SizedRight(mem, base + Offset(log[..m], k), log[..m][k]) {
      PrefixOffsets(log, m, k);
      assert SizedRight(mem, base + Offset(log, k), log[k]);
    }
  }

  /** The log ends inside record `k`. */
  predicate Cuts(log: seq<Record>, size: nat, k: nat)
    requires k < |log|
  {
    Offset(log, k) < size < Offset(log, k + 1)
  }

  /** For every list of records and every size: all delivered events lie inside the log exactly when the log
      does not end inside a record that is delivered. */
  lemma DeliveredInsideIffUncut(mem: Memory, base: nat, log: seq<Record>, size: nat)
    requires LogAt(mem, base, log, |EncodeLog(log)|) && AllSizedRight(mem, base, log) && size <= |EncodeLog(log)|
    ensures DeliveredInside(mem, base, size) <==> forall k :: 0 <= k < Leading(log) ==> !Cuts(log, size, k)
  {
    hide Encode, EncodeLog, Offset, LogAt, AllSizedRight, DeliveredInside, Started;
    var m := Started(log, size, 0);
    CutIsLog(mem, base, log, size);
    PrefixSizedRight(mem, base, log, m);
    DeliveredInsideIff(mem, base, log[..m], size);
    PrefixOffsets(log, m, 0);
    LeadingOfPrefix(log, m);
    CutIsLast(log, size);
    EndOfPrefix(mem, base, log[..m], size);
    OffsetStart(log);
    if m > 0 && Leading(log) >= m && size < Offset(log, m) {
      assert Cuts(log, size, m - 1);
    }
  }

  lemma EndOfPrefix(mem: Memory, base: nat, log: seq<Record>, size: nat)
    requires LogAt(mem, base, log, size)
    ensures size <= |EncodeLog(log)|
  {
  }

  lemma CutIsLast(log: seq<Record>, size: nat)
    ensures forall k :: 0 <= k < |log| && Cuts(log, size, k) ==> k + 1 == Started(log, size, 0)
  {
    hide Offset, Started;
    var m := Started(log, size, 0);
    forall k | 0 <= k < |log| && Cuts(log, size, k) ensures k + 1 == m {
      if m <= k {
        OffsetGrows(log, m, k);
      } else if m > k + 1 {
        OffsetGrows(log, k + 1, m - 1);
      }
    }
  }

  function SmallestSpecId(): Record {
    SpecId(0, Zeros(SHA1_SIZE), SPEC_ID_03)
  }

  /** A log of one byte delivers a whole event of 48 bytes. */
  lemma CutEventIsDelivered(mem: Memory, base: nat)
    requires NULL < base && base + 48 < TWO_64 && Holds(mem, base, Encode(SmallestSpecId()))
    ensures |Encode(SmallestSpecId())| == 48
    ensures Call(mem, base, 1, 0) == (Success, Cursor(base, 48)) && !DeliveredInside(mem, base, 1)
  {
    hide Holds, Mistaken, RecordSize;
    var r := SmallestSpecId();
    EncodedSize(r);
    UnmistakenSpecId(mem, base, r);
    RecordSizeIff(mem, base, r);
    assert Call(mem, base, 1, 0) == (Success, Cursor(base, 48));
  }

  lemma UnmistakenSpecId(mem: Memory, a: nat, r: Record)
    requires r.SpecId?
    ensures !Mistaken(mem, a, r)
  {
  }
}
