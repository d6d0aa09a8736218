/** The overflow-signal handlers of the perf test programs.  On a signal for
    one of its events, a handler reads record after record from that event's
    ring: an 8-byte header, then the body, which it decodes when it is a
    sample (or a context switch, for the programs that ask for switches) and
    skips otherwise, until the ring has no more data; then it re-arms the
    event.  The programs differ in which signals they accept, what they
    count, and how they re-arm; `Program` names those differences and one
    `Handle` runs them all. */
module PerfHandler {
  import opened Wrappers
  import opened PerfBits
  import opened PerfRing
  import opened PerfDecode
  import AllocRegistry

  // ---------------------------------------------------------------------------
  // The record loop.
  // ---------------------------------------------------------------------------

  /** What the loop does with record types. */
  datatype Dispatch =
    | SampleAndSwitch   // decode samples and switches, skip other records
    | StopAtOther       // the same, but leave the loop after skipping another record
    | SampleOnly        // decode samples, skip everything else

  /** How the loop decides to go round again. */
  datatype MoreCheck =
    | RingMore            // `is_more_perf_data` on the event's own ring
    | Stray(answer: bool) // a test whose answer does not depend on the ring

  /** How much a skipped record's length covers once its header is read. */
  datatype SkipRule =
    | WholeRecord   // `skip_perf_data(ehdr.size)`: the header is counted again
    | BodyOnly      // the `ehdr.size - 8` bytes of the body

  datatype Policy = Policy(dispatch: Dispatch, sample: seq<Field>, switchFields: seq<Field>,
                           more: MoreCheck, skip: SkipRule)

  /** The loop decodes this record type. */
  predicate Parses(p: Policy, kind: nat)
  {
    kind == RecordSample || (kind == RecordSwitch && p.dispatch != SampleOnly)
  }

  /** The loop ends after skipping a record of this type. */
  predicate Stops(p: Policy, kind: nat)
  {
    p.dispatch == StopAtOther && !Parses(p, kind)
  }

  function FieldsFor(p: Policy, kind: nat): seq<Field>
  {
    if kind == RecordSample then p.sample else p.switchFields
  }

  function SkipLength(p: Policy, h: Header): nat
  {
    match p.skip
    case WholeRecord => h.size
    case BodyOnly => if h.size >= 8 then h.size - 8 else 0
  }

  /** The ring and the capture after one record's body. */
  datatype Step = Step(ring: Ring, capture: Capture)

  /** The body of a record whose header `h` has been read: a sample is
      decoded into the capture, a switch is decoded and nothing kept, any
      other record skipped. */
  function Body(p: Policy, h: Header, r: Ring, c: Capture): (s: Step)
    requires RingOk(r)
    ensures Follows(s.ring, r)
  {
    if h.kind == RecordSample then
      var d := Decode(r, p.sample, c);
      Step(d.ring, d.capture)
    else if Parses(p, h.kind) then
      Step(Decode(r, p.switchFields, c).ring, c)
    else
      SkipKeeps(r, SkipLength(p, h));
      Step(Skip(r, SkipLength(p, h)), c)
  }

  function More(p: Policy, r: Ring): bool
  {
    match p.more
    case RingMore => IsMore(r)
    case Stray(b) => b
  }

  /** How the loop ended: the header read failed (the handler returns at
      once), the more-data test said no, or another record was skipped under
      `StopAtOther`. */
  datatype Exit = HeaderFailed | Drained | LeftAtOther

  /** The headers read in order, the capture after each sample, the final
      capture and ring, and how the loop ended. */
  datatype Drain = Drain(headers: seq<Header>, samples: seq<Capture>, capture: Capture, ring: Ring, exit: Exit)

  /** One round of the loop: the header read, then the record's body. */
  function Round(p: Policy, r: Ring, c: Capture): (o: Option<(Header, Step)>)
    requires Linear(r)
    ensures o.None? <==> Avail(r) < 8
    ensures o.Some? ==> Follows(o.value.1.ring, r) && Linear(o.value.1.ring) && Avail(o.value.1.ring) < Avail(r)
  {
    ReadHeaderShape(r);
    match ReadHeader(r)
    case None => None
    case Some((h, r1)) =>
      StaysLinear(r, r1);
      var s := Body(p, h, r1, c);
      StaysLinear(r1, s.ring);
      Some((h, s))
  }

  /** The `again:` loop of the handlers. */
  function DrainFrom(p: Policy, r: Ring, c: Capture): (d: Drain)
    requires Linear(r)
    ensures Follows(d.ring, r) && Linear(d.ring)
    decreases Avail(r)
  {
    match Round(p, r, c)
    case None => Drain([], [], c, r, HeaderFailed)
    case Some((h, s)) =>
      var caps := if h.kind == RecordSample then [s.capture] else [];
      if Stops(p, h.kind) then Drain([h], caps, s.capture, s.ring, LeftAtOther)
      else if !More(p, s.ring) then Drain([h], caps, s.capture, s.ring, Drained)
      else
        var rest := DrainFrom(p, s.ring, s.capture);
        Drain([h] + rest.headers, caps + rest.samples, rest.capture, rest.ring, rest.exit)
  }

  // ---------------------------------------------------------------------------
  // Record streams: what the kernel writes into a ring.
  // ---------------------------------------------------------------------------

  /** A record as the kernel lays it out: its header, the field values of a
      record the loop decodes, and its body bytes. */
  datatype Record = Record(h: Header, values: seq<Value>, body: seq<byte>)

  /** The header's size covers the header and the body, and the body of a
      record the loop decodes carries exactly the fields it expects. */
  predicate WellFormed(p: Policy, rec: Record)
  {
    HeaderFits(rec.h) && rec.h.size == 8 + |rec.body| &&
    (Parses(p, rec.h.kind) ==> Fits(FieldsFor(p, rec.h.kind), rec.values) && rec.body == Encode(rec.values))
  }

  predicate AllWellFormed(p: Policy, recs: seq<Record>)
  {
    forall i :: 0 <= i < |recs| ==> WellFormed(p, recs[i])
  }

  /** No record in the stream ends the loop early. */
  predicate NoStop(p: Policy, recs: seq<Record>)
  {
    forall i :: 0 <= i < |recs| ==> !Stops(p, recs[i].h.kind)
  }

  /** Every record of the stream is one the loop decodes, so none is skipped. */
  predicate AllParsed(p: Policy, recs: seq<Record>)
  {
    forall i :: 0 <= i < |recs| ==> Parses(p, recs[i].h.kind)
  }

  /** The loop reads the stream record by record: either its skip covers just
      the body, or no record of the stream is skipped. */
  predicate ReadsExactly(p: Policy, recs: seq<Record>)
  {
    p.skip == BodyOnly || AllParsed(p, recs)
  }

  /** What is left unread of the bytes `rest` that follow a record of type
      `kind` once the loop is done with it: all of them, unless the record is
      skipped by its whole size after its header was read, which discards the
      first eight bytes after it too (or all of them, when fewer are left). */
  function Leftover(p: Policy, kind: nat, rest: seq<byte>): seq<byte>
  {
    if Parses(p, kind) || p.skip == BodyOnly then rest
    else if |rest| >= 8 then rest[8..] else []
  }

  function Bytes(rec: Record): (bs: seq<byte>)
    ensures |bs| == 8 + |rec.body|
  {
    EncodeHeader(rec.h) + rec.body
  }

  function Stream(recs: seq<Record>): seq<byte>
  {
    if recs == [] then [] else Bytes(recs[0]) + Stream(recs[1..])
  }

  function HeadersOf(recs: seq<Record>): (hs: seq<Header>)
    ensures |hs| == |recs| && forall i :: 0 <= i < |recs| ==> hs[i] == recs[i].h
  {
    if recs == [] then [] else [recs[0].h] + HeadersOf(recs[1..])
  }

  /** The reference for what the loop leaves in the capture after each
      sample: the fields of the sample stored over the previous capture. */
  function SampleCaptures(p: Policy, c: Capture, recs: seq<Record>): seq<Capture>
    requires AllWellFormed(p, recs)
    decreases |recs|
  {
    if recs == [] then []
    else if recs[0].h.kind == RecordSample then
      var c1 := StoreAll(c, p.sample, recs[0].values);
      [c1] + SampleCaptures(p, c1, recs[1..])
    else SampleCaptures(p, c, recs[1..])
  }

  /** The header at the front of the unread bytes comes back intact and only
      its eight bytes are consumed. */
  lemma HeaderConsumed(r: Ring, h: Header, more: seq<byte>)
    requires RingOk(r) && HeaderFits(h) && Pending(r) == EncodeHeader(h) + more
    ensures ReadHeader(r).Some? && ReadHeader(r).value.0 == h && Pending(ReadHeader(r).value.1) == more
  {
    ReadHeaderSpec(r);
    assert Pending(r)[..8] == EncodeHeader(h);
    HeaderRoundTrip(h);
    assert Pending(r)[8..] == more;
  }

  lemma HeadersSnoc(recs: seq<Record>, h: Header)
    requires recs != []
    ensures [recs[0].h] + (HeadersOf(recs[1..]) + [h]) == HeadersOf(recs) + [h]
  {
    assert HeadersOf(recs) == [recs[0].h] + HeadersOf(recs[1..]);
  }

  lemma SampleCapturesCons(p: Policy, c: Capture, recs: seq<Record>)
    requires recs != [] && AllWellFormed(p, recs) && AllWellFormed(p, recs[1..])
    ensures var c1 := if recs[0].h.kind == RecordSample then StoreAll(c, p.sample, recs[0].values) else c;
            (if recs[0].h.kind == RecordSample then [c1] else []) + SampleCaptures(p, c1, recs[1..]) ==
            SampleCaptures(p, c, recs)
  {
  }

  lemma StreamCons(recs: seq<Record>, x: seq<byte>)
    requires recs != []
    ensures Stream(recs) + x == Bytes(recs[0]) + (Stream(recs[1..]) + x)
    ensures HeadersOf(recs) == [recs[0].h] + HeadersOf(recs[1..])
  {
  }

  /** One record, read by the loop: its header comes back intact and a
      sample's fields land in the capture.  A decoded record, or a skipped one
      under the corrected skip, consumes exactly the record's bytes; a record
      skipped as written consumes eight more (see `Leftover`). */
  lemma RecordConsumed(p: Policy, r: Ring, c: Capture, rec: Record, rest: seq<byte>)
    requires Linear(r) && WellFormed(p, rec)
    requires Pending(r) == Bytes(rec) + rest
    ensures Round(p, r, c).Some? && Round(p, r, c).value.0 == rec.h
    ensures var s := Round(p, r, c).value.1;
            Pending(s.ring) == Leftover(p, rec.h.kind, rest) &&
            s.capture == if rec.h.kind == RecordSample then StoreAll(c, p.sample, rec.values) else c
  {
    HeaderConsumed(r, rec.h, rec.body + rest);
    var r1 := ReadHeader(r).value.1;
    if rec.h.kind == RecordSample {
      DecodeEncoded(r1, p.sample, rec.values, c, rest);
    } else if Parses(p, rec.h.kind) {
      DecodeEncoded(r1, p.switchFields, rec.values, c, rest);
    } else {
      SkipDrops(r1, SkipLength(p, rec.h));
      if p.skip == WholeRecord {
        if |rest| >= 8 {
          assert (rec.body + rest)[rec.h.size..] == rest[8..];
        } else {
          assert (rec.body + rest)[|rec.body| + |rest|..] == [];
        }
      }
    }
  }

  lemma StreamTail(p: Policy, recs: seq<Record>)
    requires recs != [] && AllWellFormed(p, recs) && NoStop(p, recs)
    ensures AllWellFormed(p, recs[1..]) && NoStop(p, recs[1..])
    ensures WellFormed(p, recs[0]) && !Stops(p, recs[0].h.kind)
    ensures ReadsExactly(p, recs) ==> ReadsExactly(p, recs[1..]) && (p.skip == BodyOnly || Parses(p, recs[0].h.kind))
  {
    assert forall i :: 0 <= i < |recs| - 1 ==> recs[1..][i] == recs[i + 1];
  }

  /** With the ring's own more-data test, a signal on a ring holding a stream
      of records without a stopping record, which the loop reads record by
      record, reads every header in order, stores every sample, and empties
      the ring. */
  lemma {:induction false} DrainsStream(p: Policy, r: Ring, c: Capture, recs: seq<Record>)
    requires Linear(r) && p.more == RingMore && ReadsExactly(p, recs)
    requires recs != [] && AllWellFormed(p, recs) && NoStop(p, recs) && Pending(r) == Stream(recs)
    ensures var d := DrainFrom(p, r, c);
            d.exit == Drained && d.headers == HeadersOf(recs) &&
            d.samples == SampleCaptures(p, c, recs) && Pending(d.ring) == []
    decreases |recs|
  {
    StreamTail(p, recs);
    RecordConsumed(p, r, c, recs[0], Stream(recs[1..]));
    var s := Round(p, r, c).value.1;
    IsMoreIff(s.ring);
    if |recs| > 1 {
      assert |Stream(recs[1..])| >= 8;
      DrainsStream(p, s.ring, s.capture, recs[1..]);
    }
  }

  /** The loop goes round again after a record that does not stop it when
      the more-data test says yes. */
  lemma DrainStep(p: Policy, r: Ring, c: Capture)
    requires Linear(r) && Round(p, r, c).Some?
    requires !Stops(p, Round(p, r, c).value.0.kind) && More(p, Round(p, r, c).value.1.ring)
    ensures var (h, s) := Round(p, r, c).value;
            var d1 := DrainFrom(p, s.ring, s.capture);
            DrainFrom(p, r, c) ==
              Drain([h] + d1.headers, (if h.kind == RecordSample then [s.capture] else []) + d1.samples,
                    d1.capture, d1.ring, d1.exit)
  {
  }

  /** A stopping record ends the loop at once and nothing after it is read;
      as written, its skip also discards the first eight bytes after it. */
  lemma StopsAtRecord(p: Policy, r: Ring, c: Capture, other: Record, rest: seq<byte>)
    requires Linear(r) && WellFormed(p, other) && Stops(p, other.h.kind)
    requires Pending(r) == Bytes(other) + rest
    ensures var d := DrainFrom(p, r, c);
            d.exit == LeftAtOther && d.headers == [other.h] && d.samples == [] &&
            Pending(d.ring) == Leftover(p, other.h.kind, rest)
  {
    RecordConsumed(p, r, c, other, rest);
  }

  /** The loop left at another record, having read headers `hs` and the
      samples `caps`, with `rest` unread. */
  predicate LeftAt(d: Drain, hs: seq<Header>, caps: seq<Capture>, rest: seq<byte>)
  {
    d.exit == LeftAtOther && d.headers == hs && d.samples == caps &&
    IsPow2(|d.ring.data|) && Pending(d.ring) == rest
  }

  lemma LeftAtCons(d1: Drain, h: Header, caps: seq<Capture>, hs: seq<Header>, cs: seq<Capture>, rest: seq<byte>)
    requires LeftAt(d1, hs, cs, rest)
    ensures LeftAt(Drain([h] + d1.headers, caps + d1.samples, d1.capture, d1.ring, d1.exit), [h] + hs, caps + cs, rest)
  {
  }

  /** Under `StopAtOther`, the loop reads the parsed records up to and
      including the first other record, and leaves what follows it in the
      ring for the next signal: all of it with the corrected skip, all but its
      first eight bytes as written. */
  lemma {:induction false} DrainStopsAtOther(p: Policy, r: Ring, c: Capture, recs: seq<Record>,
                                             other: Record, rest: seq<byte>)
    requires Linear(r) && p.more == RingMore
    requires AllWellFormed(p, recs) && NoStop(p, recs) && WellFormed(p, other) && Stops(p, other.h.kind)
    requires Pending(r) == Stream(recs) + (Bytes(other) + rest)
    ensures LeftAt(DrainFrom(p, r, c), HeadersOf(recs) + [other.h], SampleCaptures(p, c, recs),
                   Leftover(p, other.h.kind, rest))
    decreases |recs|
  {
    if recs == [] {
      StopsAtRecord(p, r, c, other, rest);
    } else {
      StreamTail(p, recs);
      var more := Stream(recs[1..]) + (Bytes(other) + rest);
      StreamCons(recs, Bytes(other) + rest);
      RecordConsumed(p, r, c, recs[0], more);
      var (h, s) := Round(p, r, c).value;
      IsMoreIff(s.ring);
      DrainStep(p, r, c);
      DrainStopsAtOther(p, s.ring, s.capture, recs[1..], other, rest);
      var caps := if h.kind == RecordSample then [s.capture] else [];
      var d1 := DrainFrom(p, s.ring, s.capture);
      LeftAtCons(d1, h, caps, HeadersOf(recs[1..]) + [other.h], SampleCaptures(p, s.capture, recs[1..]),
                 Leftover(p, other.h.kind, rest));
      HeadersSnoc(recs, other.h);
      SampleCapturesCons(p, c, recs);
    }
  }

  // ---------------------------------------------------------------------------
  // The loop as written.
  // ---------------------------------------------------------------------------

  /** Skipping `ehdr.size` bytes after the header was already read consumes
      the first 8 bytes of whatever follows a skipped record: the next
      record's header is lost and the loop reads its body as a header. */
  lemma OverSkipAsWritten(p: Policy, r: Ring, c: Capture, rec: Record, rest: seq<byte>)
    requires Linear(r) && p.skip == WholeRecord && WellFormed(p, rec) && !Parses(p, rec.h.kind)
    requires Pending(r) == Bytes(rec) + rest && |rest| >= 8
    ensures Round(p, r, c).Some? && Round(p, r, c).value.0 == rec.h
    ensures Pending(Round(p, r, c).value.1.ring) == rest[8..]
  {
    HeaderConsumed(r, rec.h, rec.body + rest);
    var r1 := ReadHeader(r).value.1;
    SkipDrops(r1, rec.h.size);
    assert (rec.body + rest)[rec.h.size..] == rest[8..];
  }

  /** A more-data test that always says no ends the loop after one record,
      whatever is left in the ring. */
  lemma StrayNoLeavesRecords(p: Policy, r: Ring, c: Capture, recs: seq<Record>)
    requires Linear(r) && p.more == Stray(false)
    requires |recs| >= 2 && AllWellFormed(p, recs) && NoStop(p, recs) && Pending(r) == Stream(recs)
    ensures |Stream(recs[1..])| >= 8
    ensures var d := DrainFrom(p, r, c);
            d.exit == Drained && d.headers == [recs[0].h] &&
            Pending(d.ring) == Leftover(p, recs[0].h.kind, Stream(recs[1..]))
  {
    StreamTail(p, recs);
    RecordConsumed(p, r, c, recs[0], Stream(recs[1..]));
    assert |Stream(recs[1..])| >= 8;
  }

  /** A more-data test that always says yes keeps reading until a header read
      fails: the loop never reaches the code after it. */
  lemma {:induction false} StrayYesNeverDrains(p: Policy, r: Ring, c: Capture)
    requires Linear(r) && p.more == Stray(true) && p.dispatch != StopAtOther
    ensures DrainFrom(p, r, c).exit == HeaderFailed
    decreases Avail(r)
  {
    if Round(p, r, c).Some? {
      var s := Round(p, r, c).value.1;
      StrayYesNeverDrains(p, s.ring, s.capture);
    }
  }

  // ---------------------------------------------------------------------------
  // The handlers.
  // ---------------------------------------------------------------------------

  /** `POLL_HUP`, the `si_code` an overflow signal carries. */
  const PollHup: int := 6

  /** What a handler does with a signal for a descriptor it does not know. */
  datatype UnknownFd =
    | Ignore               // report it and return
    | EnableAllThenReturn  // re-enable the events disabled on entry, then return
    | IndexMinusOne        // report it and go on with index -1

  /** What a handler counts per signal. */
  datatype CountRule =
    | PerSignal          // once on entry, whatever the loop does
    | PerRecord          // once per header read
    | PerSample          // once per sample record
    | PerSampleAndDrain  // once per sample, and once more when the loop drains the ring
    | PerDrain           // once when the loop drains the ring

  /** How a handler lets its events overflow again. */
  datatype Rearm = Refresh | EnableAll | StartCounters

  datatype Program = Program(checksHup: bool, disablesFirst: bool, unknownFd: UnknownFd,
                             policy: Policy, count: CountRule, rearm: Rearm)

  /** An event the program opened: its descriptor, ring, counter, and the
      capture its samples are stored into. */
  datatype Channel = Channel(fd: int, ring: Ring, count: nat, capture: Capture)

  /** The parts of `siginfo_t` the handlers read. */
  datatype Signal = Signal(code: int, fd: int)

  datatype Outcome =
    | Ignored(chans: seq<Channel>)
    | Unknown(chans: seq<Channel>, disabled: bool, enabled: bool)
    | UndefinedIndex
    | Handled(chans: seq<Channel>, index: nat, drain: Drain, disabled: bool, rearmed: Option<Rearm>)

  predicate AllLinear(chans: seq<Channel>)
  {
    forall i :: 0 <= i < |chans| ==> Linear(chans[i].ring)
  }

  /** The first channel with descriptor `fd`. */
  function Lookup(chans: seq<Channel>, fd: int): (i: Option<nat>)
    ensures i.Some? ==> i.value < |chans| && chans[i.value].fd == fd &&
                        forall j :: 0 <= j < i.value ==> chans[j].fd != fd
    ensures i.None? <==> forall j :: 0 <= j < |chans| ==> chans[j].fd != fd
  {
    if chans == [] then None
    else if chans[0].fd == fd then Some(0)
    else match Lookup(chans[1..], fd)
      case None => None
      case Some(k) => Some(k + 1)
  }

  function SampleCount(hs: seq<Header>): nat
  {
    if hs == [] then 0 else (if hs[0].kind == RecordSample then 1 else 0) + SampleCount(hs[1..])
  }

  /** How much a signal adds to the channel's counter. */
  function Counted(rule: CountRule, d: Drain): nat
  {
    match rule
    case PerSignal => 1
    case PerRecord => |d.headers|
    case PerSample => SampleCount(d.headers)
    case PerSampleAndDrain => SampleCount(d.headers) + (if d.exit == Drained then 1 else 0)
    case PerDrain => if d.exit == Drained then 1 else 0
  }

  /** The signal passes the handler's `si_code` checks. */
  predicate Accepts(prog: Program, sig: Signal)
  {
    sig.code >= 0 && (!prog.checksHup || sig.code == PollHup)
  }

  /** One signal: the `si_code` checks, the lookup, the record loop on the
      channel's ring, the counter and the re-arm. */
  function Handle(prog: Program, chans: seq<Channel>, sig: Signal): (o: Outcome)
    requires AllLinear(chans)
    ensures o.Ignored? <==> !Accepts(prog, sig)
    ensures o.Handled? ==> o.index < |chans| && |o.chans| == |chans| && AllLinear(o.chans) &&
                           (forall j :: 0 <= j < |chans| && j != o.index ==> o.chans[j] == chans[j]) &&
                           o.chans[o.index].fd == chans[o.index].fd == sig.fd &&
                           Follows(o.chans[o.index].ring, chans[o.index].ring) &&
                           (o.rearmed.Some? <==> o.drain.exit != HeaderFailed)
    ensures (o.Unknown? || o.UndefinedIndex?) <==> Accepts(prog, sig) && Lookup(chans, sig.fd).None?
  {
    if !Accepts(prog, sig) then Ignored(chans)
    else match Lookup(chans, sig.fd)
      case None =>
        if prog.unknownFd == IndexMinusOne then UndefinedIndex
        else Unknown(chans, prog.disablesFirst, prog.unknownFd == EnableAllThenReturn)
      case Some(i) =>
        var ch := chans[i];
        var d := DrainFrom(prog.policy, ch.ring, ch.capture);
        var ch' := ch.(ring := d.ring, count := ch.count + Counted(prog.count, d), capture := d.capture);
        Handled(chans[i := ch'], i, d, prog.disablesFirst,
                if d.exit == HeaderFailed then None else Some(prog.rearm))
  }

  // ---------------------------------------------------------------------------
  // The nine programs.
  // ---------------------------------------------------------------------------

  /** The loop of the context-switch programs: the sample layout of
      `sample_type` 423 and the switch fields (see `ProgramLayouts`). */
  const SwitchPolicy: Policy :=
    Policy(SampleAndSwitch, [Ip, Tid, Time, Cpu, Period, Callchain], SwitchOrder, RingMore, WholeRecord)

  const CsMulti: Program := Program(true, false, Ignore, SwitchPolicy, PerRecord, Refresh)
  const TestPmu: Program := Program(false, true, EnableAllThenReturn, SwitchPolicy, PerRecord, EnableAll)
  const CsDualFork: Program := Program(true, false, Ignore, SwitchPolicy, PerSignal, Refresh)
  const CsSwitch: Program := Program(true, false, Ignore, SwitchPolicy, PerSample, Refresh)
  const ContextSwitches: Program :=
    Program(true, false, Ignore, Policy(StopAtOther, SwitchPolicy.sample, SwitchOrder, RingMore, WholeRecord),
            PerSampleAndDrain, Refresh)
  const CsBasic: Program := Program(true, false, Ignore, SwitchPolicy, PerSignal, Refresh)
  const PeFrequency: Program := Program(true, false, Ignore, SwitchPolicy, PerSignal, Refresh)
  const PeSample: Program :=
    Program(true, false, IndexMinusOne,
            Policy(SampleOnly, [Ip, Addr, Period], [], RingMore, WholeRecord),
            PerDrain, StartCounters)
  const PePage: Program :=
    Program(true, false, IndexMinusOne,
            Policy(SampleOnly, [Ip, Tid, Addr, Cpu, Period], [], RingMore, WholeRecord),
            PerDrain, StartCounters)

  /** The field lists the programs decode are the ones their `sample_type`
      masks select. */
  lemma ProgramLayouts()
    ensures SwitchPolicy.sample == Fields(CommonMask, SampleOrder)
    ensures SwitchPolicy.switchFields == Fields(CommonMask, SwitchOrder)
    ensures PeSample.policy.sample == Fields(PeSampleMask, SampleOrderWithAddr)
    ensures PePage.policy.sample == Fields(PePageMask, SampleOrderWithAddr)
  {
    CommonLayouts();
    PeSampleLayout();
    PePageLayout();
  }

  // ---------------------------------------------------------------------------
  // What one signal does to a ring holding a stream of records.
  // ---------------------------------------------------------------------------

  /** The signal is accepted and names channel `i`, the first with its
      descriptor. */
  predicate Names(prog: Program, chans: seq<Channel>, sig: Signal, i: nat)
  {
    AllLinear(chans) && Accepts(prog, sig) && i < |chans| && chans[i].fd == sig.fd &&
    forall j :: 0 <= j < i ==> chans[j].fd != sig.fd
  }

  /** What a signal adds to the counter when the loop reads the whole stream
      `recs` and drains the ring. */
  function StreamCount(rule: CountRule, recs: seq<Record>): nat
  {
    match rule
    case PerSignal => 1
    case PerRecord => |recs|
    case PerSample => SampleRecords(recs)
    case PerSampleAndDrain => SampleRecords(recs) + 1
    case PerDrain => 1
  }

  /** What a signal adds to the counter when the loop reads the records
      `recs` and then leaves at a record of another type. */
  function StopCount(rule: CountRule, recs: seq<Record>): nat
  {
    match rule
    case PerSignal => 1
    case PerRecord => |recs| + 1
    case PerSample => SampleRecords(recs)
    case PerSampleAndDrain => SampleRecords(recs)
    case PerDrain => 0
  }

  /** The number of sample records in the stream. */
  function SampleRecords(recs: seq<Record>): nat
  {
    if recs == [] then 0 else (if recs[0].h.kind == RecordSample then 1 else 0) + SampleRecords(recs[1..])
  }

  lemma {:induction false} SampleRecordsCount(recs: seq<Record>)
    ensures SampleCount(HeadersOf(recs)) == SampleRecords(recs)
  {
    if recs != [] {
      assert HeadersOf(recs)[1..] == HeadersOf(recs[1..]);
      SampleRecordsCount(recs[1..]);
    }
  }

  /** The signal was handled on channel `i`: its counter now reads `count`,
      its ring holds `left` unread, and the event was re-armed by `rearm`. */
  predicate Serviced(o: Outcome, i: nat, count: nat, left: seq<byte>, rearm: Rearm)
  {
    o.Handled? && o.index == i && i < |o.chans| && o.chans[i].count == count &&
    IsPow2(|o.chans[i].ring.data|) && Pending(o.chans[i].ring) == left && o.rearmed == Some(rearm)
  }

  /** A signal for a channel whose ring holds a stream without stopping
      records, read record by record: every record is read, the ring is left
      empty, the counter grows by the program's count of the drain, the event
      is re-armed, and no other channel changes. */
  lemma HandleStream(prog: Program, chans: seq<Channel>, sig: Signal, i: nat, recs: seq<Record>)
    requires Names(prog, chans, sig, i) && prog.policy.more == RingMore && ReadsExactly(prog.policy, recs)
    requires recs != [] && AllWellFormed(prog.policy, recs) && NoStop(prog.policy, recs)
    requires Pending(chans[i].ring) == Stream(recs)
    ensures var o := Handle(prog, chans, sig);
            Serviced(o, i, chans[i].count + StreamCount(prog.count, recs), [], prog.rearm) &&
            o.drain.headers == HeadersOf(recs) &&
            o.drain.samples == SampleCaptures(prog.policy, chans[i].capture, recs)
  {
    DrainsStream(prog.policy, chans[i].ring, chans[i].capture, recs);
    SampleRecordsCount(recs);
    var d := DrainFrom(prog.policy, chans[i].ring, chans[i].capture);
    assert Counted(prog.count, d) == StreamCount(prog.count, recs);
  }

  /** A signal for a channel whose ring holds parsed records followed by a
      record that stops the loop: the loop reads up to that record, what
      follows it is left in the ring (less eight bytes as written), and the
      event is re-armed. */
  lemma HandleStops(prog: Program, chans: seq<Channel>, sig: Signal, i: nat, recs: seq<Record>,
                    other: Record, rest: seq<byte>)
    requires Names(prog, chans, sig, i) && prog.policy.more == RingMore
    requires AllWellFormed(prog.policy, recs) && NoStop(prog.policy, recs)
    requires WellFormed(prog.policy, other) && Stops(prog.policy, other.h.kind)
    requires Pending(chans[i].ring) == Stream(recs) + (Bytes(other) + rest)
    ensures var o := Handle(prog, chans, sig);
            Serviced(o, i, chans[i].count + StopCount(prog.count, recs),
                     Leftover(prog.policy, other.h.kind, rest), prog.rearm) &&
            o.drain.headers == HeadersOf(recs) + [other.h]
  {
    DrainStopsAtOther(prog.policy, chans[i].ring, chans[i].capture, recs, other, rest);
    SampleCountAppend(HeadersOf(recs), [other.h]);
    SampleRecordsCount(recs);
    var d := DrainFrom(prog.policy, chans[i].ring, chans[i].capture);
    assert Counted(prog.count, d) == StopCount(prog.count, recs);
  }

  lemma {:induction false} SampleCountAppend(a: seq<Header>, b: seq<Header>)
    ensures SampleCount(a + b) == SampleCount(a) + SampleCount(b)
  {
    if a == [] {
      assert a + b == b;
    } else {
      assert (a + b)[1..] == a[1..] + b;
      SampleCountAppend(a[1..], b);
    }
  }

  /** `cs_multi` counts every record read: on a stream of samples and
      switches it reads them all, counts each, and empties the ring. */
  lemma {:induction false} CsMultiHandler(chans: seq<Channel>, sig: Signal, i: nat, recs: seq<Record>)
    requires Names(CsMulti, chans, sig, i)
    requires recs != [] && AllWellFormed(SwitchPolicy, recs) && AllParsed(SwitchPolicy, recs)
    requires Pending(chans[i].ring) == Stream(recs)
    ensures Serviced(Handle(CsMulti, chans, sig), i, chans[i].count + |recs|, [], Refresh)
  {
    assert StreamCount(CsMulti.count, recs) == |recs|;
    HandleStream(CsMulti, chans, sig, i, recs);
  }

  /** `test_pmu` enables every event again once the loop drains a stream of
      samples and switches; it does not check for `POLL_HUP`. */
  lemma {:induction false} TestPmuHandler(chans: seq<Channel>, sig: Signal, i: nat, recs: seq<Record>)
    requires Names(TestPmu, chans, sig, i)
    requires recs != [] && AllWellFormed(SwitchPolicy, recs) && AllParsed(SwitchPolicy, recs)
    requires Pending(chans[i].ring) == Stream(recs)
    ensures Serviced(Handle(TestPmu, chans, sig), i, chans[i].count + |recs|, [], EnableAll)
  {
    assert StreamCount(TestPmu.count, recs) == |recs|;
    HandleStream(TestPmu, chans, sig, i, recs);
  }

  /** `test_pmu` disables every event before it looks the descriptor up, so
      every signal it handles reports the events disabled. */
  lemma TestPmuDisablesFirst(chans: seq<Channel>, sig: Signal, i: nat)
    requires Names(TestPmu, chans, sig, i)
    ensures var o := Handle(TestPmu, chans, sig);
            o.Handled? && o.disabled && o.index == i
  {
  }

  /** When the first header read of `test_pmu` fails, the handler returns with
      every event still disabled. */
  lemma TestPmuLeavesDisabled(chans: seq<Channel>, sig: Signal, i: nat)
    requires Names(TestPmu, chans, sig, i) && Avail(chans[i].ring) < 8
    ensures var o := Handle(TestPmu, chans, sig);
            o.Handled? && o.disabled && o.rearmed.None? && o.chans[i].count == chans[i].count
  {
  }

  /** `cs_dual_fork`, `cs_basic` and `pe_frequency` count the signal once,
      whatever the ring holds. */
  lemma PerSignalHandlers(prog: Program, chans: seq<Channel>, sig: Signal, i: nat)
    requires prog == CsDualFork || prog == CsBasic || prog == PeFrequency
    requires Names(prog, chans, sig, i)
    ensures var o := Handle(prog, chans, sig);
            o.Handled? && o.chans[i].count == chans[i].count + 1 &&
            (o.rearmed.Some? ==> o.rearmed == Some(Refresh))
  {
  }

  /** `cs_switch` counts the sample records of a stream of samples and
      switches. */
  lemma CsSwitchHandler(chans: seq<Channel>, sig: Signal, i: nat, recs: seq<Record>)
    requires Names(CsSwitch, chans, sig, i)
    requires recs != [] && AllWellFormed(SwitchPolicy, recs) && AllParsed(SwitchPolicy, recs)
    requires Pending(chans[i].ring) == Stream(recs)
    ensures Serviced(Handle(CsSwitch, chans, sig), i, chans[i].count + SampleRecords(recs), [], Refresh)
  {
    assert StreamCount(CsSwitch.count, recs) == SampleRecords(recs);
    HandleStream(CsSwitch, chans, sig, i, recs);
  }

  /** `context_switches` counts the sample records, plus one when the loop
      drains the ring.  A stream without stopping records holds only samples
      and switches, so nothing in it is skipped. */
  lemma ContextSwitchesDrains(chans: seq<Channel>, sig: Signal, i: nat, recs: seq<Record>)
    requires Names(ContextSwitches, chans, sig, i)
    requires recs != [] && AllWellFormed(ContextSwitches.policy, recs) && NoStop(ContextSwitches.policy, recs)
    requires Pending(chans[i].ring) == Stream(recs)
    ensures Serviced(Handle(ContextSwitches, chans, sig), i, chans[i].count + SampleRecords(recs) + 1, [], Refresh)
  {
    assert StreamCount(ContextSwitches.count, recs) == SampleRecords(recs) + 1;
    assert AllParsed(ContextSwitches.policy, recs) by {
      forall k | 0 <= k < |recs| ensures Parses(ContextSwitches.policy, recs[k].h.kind) {
        assert !Stops(ContextSwitches.policy, recs[k].h.kind);
      }
    }
    HandleStream(ContextSwitches, chans, sig, i, recs);
  }

  /** A record of another type makes `context_switches` jump past the extra
      count straight to the refresh.  Its skip of `ehdr.size` bytes after the
      header also discards the first eight bytes that follow it, so what waits
      for the next signal is the rest less those eight bytes. */
  lemma ContextSwitchesStops(chans: seq<Channel>, sig: Signal, i: nat, recs: seq<Record>,
                             other: Record, rest: seq<byte>)
    requires Names(ContextSwitches, chans, sig, i)
    requires AllWellFormed(ContextSwitches.policy, recs) && NoStop(ContextSwitches.policy, recs)
    requires WellFormed(ContextSwitches.policy, other) && Stops(ContextSwitches.policy, other.h.kind)
    requires Pending(chans[i].ring) == Stream(recs) + (Bytes(other) + rest)
    ensures Serviced(Handle(ContextSwitches, chans, sig), i, chans[i].count + SampleRecords(recs),
                     if |rest| >= 8 then rest[8..] else [], Refresh)
  {
    assert StopCount(ContextSwitches.count, recs) == SampleRecords(recs);
    HandleStops(ContextSwitches, chans, sig, i, recs, other, rest);
  }

  /** `pe_sample` and `pe_page` count a signal once the loop drains a stream
      of samples, and restart the counters. */
  lemma PeHandlers(prog: Program, chans: seq<Channel>, sig: Signal, i: nat, recs: seq<Record>)
    requires prog == PeSample || prog == PePage
    requires Names(prog, chans, sig, i)
    requires recs != [] && AllWellFormed(prog.policy, recs) && AllParsed(prog.policy, recs)
    requires Pending(chans[i].ring) == Stream(recs)
    ensures Serviced(Handle(prog, chans, sig), i, chans[i].count + 1, [], StartCounters)
  {
    assert StreamCount(prog.count, recs) == 1;
    HandleStream(prog, chans, sig, i, recs);
  }

  /** Signals the handlers turn away, and descriptors they do not know. */
  lemma SignalFilters(prog: Program, chans: seq<Channel>, sig: Signal)
    requires AllLinear(chans)
    requires prog in [CsMulti, TestPmu, CsDualFork, CsSwitch, ContextSwitches, CsBasic, PeFrequency, PeSample, PePage]
    ensures sig.code < 0 ==> Handle(prog, chans, sig) == Ignored(chans)
    ensures sig.code >= 0 && sig.code != PollHup ==>
              (Handle(prog, chans, sig) == Ignored(chans) <==> prog != TestPmu)
    ensures Accepts(prog, sig) && Lookup(chans, sig.fd).None? ==>
              Handle(prog, chans, sig) ==
                if prog == TestPmu then Unknown(chans, true, true)
                else if prog == PeSample || prog == PePage then UndefinedIndex
                else Unknown(chans, false, false)
  {
  }

  /** `pe_sample` as written: its more-data test is given the table of
      buffers instead of the event's buffer, so its answer `b` has nothing to
      do with the ring. */
  function PeSampleAsWritten(b: bool): Program
  {
    PeSample.(policy := PeSample.policy.(more := Stray(b)))
  }

  /** When that test says yes, the loop runs until a header read fails, so
      the handler never counts the signal and never restarts the counters. */
  lemma PeSampleStrayYes(chans: seq<Channel>, sig: Signal, i: nat)
    requires Names(PeSampleAsWritten(true), chans, sig, i)
    ensures var o := Handle(PeSampleAsWritten(true), chans, sig);
            o.Handled? && o.rearmed.None? && o.chans[i].count == chans[i].count
  {
    StrayYesNeverDrains(PeSampleAsWritten(true).policy, chans[i].ring, chans[i].capture);
  }

  /** When it says no, the handler reads one record and leaves the rest of
      the stream in the ring: all of it after a sample, all but its first
      eight bytes after a skipped record. */
  lemma PeSampleStrayNo(chans: seq<Channel>, sig: Signal, i: nat, recs: seq<Record>)
    requires Names(PeSampleAsWritten(false), chans, sig, i)
    requires |recs| >= 2 && AllWellFormed(PeSampleAsWritten(false).policy, recs)
    requires Pending(chans[i].ring) == Stream(recs)
    ensures var o := Handle(PeSampleAsWritten(false), chans, sig);
            o.Handled? && o.drain.headers == [recs[0].h] && o.rearmed == Some(StartCounters) &&
            Pending(o.chans[i].ring) ==
              if recs[0].h.kind == RecordSample then Stream(recs[1..]) else Stream(recs[1..])[8..]
  {
    StrayNoLeavesRecords(PeSampleAsWritten(false).policy, chans[i].ring, chans[i].capture, recs);
  }

  /** A program with the skip corrected to cover only the body. */
  function Corrected(prog: Program): Program
  {
    prog.(policy := prog.policy.(skip := BodyOnly))
  }

  /** With the corrected skip, the programs that do not leave at other
      records read a stream holding records of any type, skipped ones
      included, record by record: every header in order, an empty ring, the
      program's count and its re-arm. */
  lemma CorrectedReadsEveryRecord(prog: Program, chans: seq<Channel>, sig: Signal, i: nat, recs: seq<Record>)
    requires prog in [CsMulti, TestPmu, CsDualFork, CsSwitch, CsBasic, PeFrequency, PeSample, PePage]
    requires Names(Corrected(prog), chans, sig, i)
    requires recs != [] && AllWellFormed(prog.policy, recs) && Pending(chans[i].ring) == Stream(recs)
    ensures var o := Handle(Corrected(prog), chans, sig);
            Serviced(o, i, chans[i].count + StreamCount(prog.count, recs), [], prog.rearm) &&
            o.drain.headers == HeadersOf(recs)
  {
    var q := Corrected(prog);
    assert AllWellFormed(q.policy, recs) by {
      forall k | 0 <= k < |recs| ensures WellFormed(q.policy, recs[k]) {
        assert WellFormed(prog.policy, recs[k]);
      }
    }
    HandleStream(q, chans, sig, i, recs);
  }

  // ---------------------------------------------------------------------------
  // `pe_page`: sampled data addresses charged to the allocation registry.
  // ---------------------------------------------------------------------------

  function Addresses(caps: seq<Capture>): (addrs: seq<nat>)
    ensures |addrs| == |caps| && forall k :: 0 <= k < |caps| ==> addrs[k] == caps[k].address
  {
    seq(|caps|, k requires 0 <= k < |caps| => caps[k].address)
  }

  /** The data address each sample record of a `pe_page` stream carries. */
  function SampleAddrs(recs: seq<Record>): seq<nat>
    requires AllWellFormed(PePage.policy, recs)
    decreases |recs|
  {
    if recs == [] then []
    else if recs[0].h.kind == RecordSample then [recs[0].values[2].w] + SampleAddrs(recs[1..])
    else SampleAddrs(recs[1..])
  }

  /** The `pe_page` handler: after each sample it charges the address just
      stored in the capture to the registry. */
  function PePageHandle(chans: seq<Channel>, reg: AllocRegistry.Registry, sig: Signal)
    : (res: (Outcome, AllocRegistry.Registry))
    requires AllLinear(chans)
    ensures |res.1.slots| == |reg.slots| && res.1.count == reg.count
    ensures !res.0.Handled? ==> res.1 == reg
  {
    var o := Handle(PePage, chans, sig);
    (o, if o.Handled? then AllocRegistry.UpdateAll(reg, Addresses(o.drain.samples)) else reg)
  }

  lemma PePageStoresAddress(c: Capture, vs: seq<Value>)
    requires Fits(PePage.policy.sample, vs)
    ensures vs[2].Word? && StoreAll(c, PePage.policy.sample, vs).address == vs[2].w
  {
    assert FitsField(Ip, vs[0]) && FitsField(Tid, vs[1]) && FitsField(Addr, vs[2]) &&
           FitsField(Cpu, vs[3]) && FitsField(Period, vs[4]);
    assert vs == [Word(vs[0].w), Word(vs[1].w), Word(vs[2].w), Word(vs[3].w), Word(vs[4].w)];
    PePageCapture(c, vs[0].w, vs[1].w, vs[2].w, vs[3].w, vs[4].w);
  }

  lemma AddressesCons(c: Capture, caps: seq<Capture>)
    ensures Addresses([c] + caps) == [c.address] + Addresses(caps)
  {
  }

  /** IP | ADDR | RAW | WEIGHT: the `sample_type` `pe_page` opens its events
      with, while its decoder tests the static type `PePageMask`. */
  const PePageAttrMask: nat := 17417

  /** The body the kernel writes for a sample of type `PePageAttrMask`: the
      instruction pointer, the data address, the raw data behind its 32-bit
      size, and the weight. */
  function AttrSampleBody(ip: u64, addr: u64, raw: seq<byte>, weight: u64): seq<byte>
    requires |raw| < U32
  {
    ToLE(ip, 8) + (ToLE(addr, 8) + ((ToLE(|raw|, 4) + raw) + ToLE(weight, 8)))
  }

  /** The five words the `PePageMask` decoder reads from such a body when it
      carries twelve bytes of raw data. */
  function AttrWords(ip: u64, addr: u64, raw: seq<byte>, weight: u64): (vs: seq<Value>)
    requires |raw| == 12
    ensures |vs| == 5
  {
    Pow256Eight();
    [Word(ip), Word(addr), Word(FromLE(ToLE(12, 4) + raw[..4])), Word(FromLE(raw[4..])), Word(weight)]
  }

  lemma AttrBodyIsWords(ip: u64, addr: u64, raw: seq<byte>, weight: u64)
    requires |raw| == 12
    ensures AttrSampleBody(ip, addr, raw, weight) == Encode(AttrWords(ip, addr, raw, weight))
  {
    var lo, hi, w := ToLE(12, 4) + raw[..4], raw[4..], ToLE(weight, 8);
    assert (ToLE(12, 4) + raw) + w == lo + (hi + w) by {
      assert ToLE(12, 4) + raw == lo + hi;
    }
    Pow256Eight();
    ToFromLE(lo);
    ToFromLE(hi);
    var t1 := [Word(weight)];
    var t2 := [Word(FromLE(hi))] + t1;
    var t3 := [Word(FromLE(lo))] + t2;
    var t4 := [Word(addr)] + t3;
    EncodeWordCons(weight, []);
    EncodeWordCons(FromLE(hi), t1);
    EncodeWordCons(FromLE(lo), t2);
    EncodeWordCons(addr, t3);
    EncodeWordCons(ip, t4);
    assert AttrWords(ip, addr, raw, weight) == [Word(ip)] + t4;
  }

  lemma EncodeWordCons(v: u64, vs: seq<Value>)
    ensures Encode([Word(v)] + vs) == ToLE(v, 8) + Encode(vs)
  {
    assert ([Word(v)] + vs)[1..] == vs;
  }

  /** The word that starts with the raw size: the size in its low half. */
  lemma RawWordValue(raw: seq<byte>)
    requires |raw| == 12
    ensures FromLE(ToLE(12, 4) + raw[..4]) == 12 + U32 * FromLE(raw[..4])
  {
    Pow256Eight();
    FromLEConcat4(ToLE(12, 4), raw[..4]);
    FromToLE(12, 4);
  }

  /** `pe_page` as written, decoding such a sample with the fields of
      `PePageMask`.  With twelve bytes of raw data the body has the five words
      the decoder expects, so it succeeds and consumes exactly the body; but
      the data address lands in pid/tid, and the address it stores, which the
      handler charges, is the raw size in the low half and the first four raw
      bytes in the high half, whatever address was sampled. */
  lemma PePageAttrAsWritten(r: Ring, c: Capture, ip: u64, addr: u64, raw: seq<byte>, weight: u64, rest: seq<byte>)
    requires RingOk(r) && |raw| == 12 && Pending(r) == AttrSampleBody(ip, addr, raw, weight) + rest
    ensures var d := Decode(r, PePage.policy.sample, c);
            d.ok && Pending(d.ring) == rest && d.capture.ip == ip && d.capture.period == weight &&
            d.capture.pid == addr % U32 && d.capture.tid == addr / U32 &&
            d.capture.address == 12 + U32 * FromLE(raw[..4])
  {
    var vs := AttrWords(ip, addr, raw, weight);
    AttrBodyIsWords(ip, addr, raw, weight);
    DecodeEncoded(r, PePage.policy.sample, vs, c, rest);
    PePageCapture(c, ip, addr, vs[2].w, vs[3].w, weight);
    RawWordValue(raw);
  }

  /** Each sample's capture holds the data address the record carried. */
  lemma {:induction false} PePageAddresses(c: Capture, recs: seq<Record>)
    requires AllWellFormed(PePage.policy, recs)
    ensures Addresses(SampleCaptures(PePage.policy, c, recs)) == SampleAddrs(recs)
    decreases |recs|
  {
    if recs != [] {
      assert WellFormed(PePage.policy, recs[0]);
      assert AllWellFormed(PePage.policy, recs[1..]) by {
        assert forall k :: 0 <= k < |recs| - 1 ==> recs[1..][k] == recs[k + 1];
      }
      if recs[0].h.kind == RecordSample {
        var vs := recs[0].values;
        PePageStoresAddress(c, vs);
        var c1 := StoreAll(c, PePage.policy.sample, vs);
        PePageAddresses(c1, recs[1..]);
        AddressesCons(c1, SampleCaptures(PePage.policy, c1, recs[1..]));
      } else {
        PePageAddresses(c, recs[1..]);
      }
    }
  }

  /** A `pe_page` signal on a ring holding a stream of records charges every
      recorded allocation exactly the number of sampled addresses it
      contains, and changes nothing else in the registry. */
  lemma PePageCharges(chans: seq<Channel>, reg: AllocRegistry.Registry, sig: Signal, i: nat,
                      recs: seq<Record>, j: nat)
    requires Names(PePage, chans, sig, i)
    requires recs != [] && AllWellFormed(PePage.policy, recs) && AllParsed(PePage.policy, recs)
    requires Pending(chans[i].ring) == Stream(recs)
    requires j < |reg.slots|
    ensures PePageHandle(chans, reg, sig).1.slots[j] ==
            reg.slots[j].(samples := reg.slots[j].samples + AllocRegistry.CoveredCount(reg.slots[j], SampleAddrs(recs)))
  {
    HandleStream(PePage, chans, sig, i, recs);
    PePageAddresses(chans[i].capture, recs);
    AllocRegistry.UpdateAllCounts(reg, SampleAddrs(recs), j);
  }
}

