/** The record decoders of the perf test programs: the 8-byte record header,
    and the fields of a `PERF_RECORD_SAMPLE` or `PERF_RECORD_SWITCH` body, read
    one after another from the ring in the fixed order of the record format,
    each only when its flag is set in the event's `sample_type`. */
module PerfDecode {
  import opened Wrappers
  import opened Tiling
  import opened PerfBits
  import opened PerfRing

  const U32: nat := 0x1_0000_0000

  // ---------------------------------------------------------------------------
  // Sample-type flags and record layouts.
  // ---------------------------------------------------------------------------

  /** The fields the decoders know, one per `PERF_SAMPLE_*` flag they test. */
  datatype Field = Identifier | Ip | Tid | Time | Addr | Cpu | Period | Callchain

  /** The bit of the field's flag in `enum perf_event_sample_format`. */
  function Bit(f: Field): nat
  {
    match f
    case Ip => 0
    case Tid => 1
    case Time => 2
    case Addr => 3
    case Callchain => 5
    case Cpu => 7
    case Period => 8
    case Identifier => 16
  }

  function Flag(f: Field): nat
  {
    Pow2(Bit(f))
  }

  lemma FlagValues()
    ensures Flag(Ip) == 1 && Flag(Tid) == 2 && Flag(Time) == 4 && Flag(Addr) == 8
    ensures Flag(Callchain) == 32 && Flag(Cpu) == 128 && Flag(Period) == 256
    ensures Flag(Identifier) == 0x1_0000
  {
    assert Pow2(4) == 16;
    assert Pow2(8) == 256 by { Pow2Add(4, 4); }
    Pow2Add(8, 8);
  }

  /** The decoder reads field `f` when bit `Bit(f)` of the mask is set. */
  predicate Has(mask: nat, f: Field)
  {
    (mask / Flag(f)) % 2 == 1
  }

  /** The decoders test a flag as `type & PERF_SAMPLE_X`: that is `Has`. */
  lemma HasIsAnd(mask: nat, f: Field)
    ensures And(mask, Flag(f)) != 0 <==> Has(mask, f)
  {
    AndSingleBit(mask, Bit(f));
  }

  /** The order in which the sample decoders test the flags. */
  const SampleOrder: seq<Field> := [Identifier, Ip, Tid, Time, Cpu, Period, Callchain]

  /** The sample decoder order of the page-sampling programs, with the data
      address after the time stamp. */
  const SampleOrderWithAddr: seq<Field> := [Identifier, Ip, Tid, Time, Addr, Cpu, Period, Callchain]

  /** The fields the switch decoder tests. */
  const SwitchOrder: seq<Field> := [Tid, Time, Cpu]

  /** The fields of `order` whose flag is set in `mask`, in that order. */
  function Fields(mask: nat, order: seq<Field>): seq<Field>
  {
    if order == [] then []
    else (if Has(mask, order[0]) then [order[0]] else []) + Fields(mask, order[1..])
  }

  /** A field is decoded exactly when the layout has it and its flag is set,
      and the selection splits over a split layout, so it keeps the layout's
      order. */
  lemma {:induction false} FieldsSelect(mask: nat, order: seq<Field>, more: seq<Field>)
    ensures forall f :: f in Fields(mask, order) <==> f in order && Has(mask, f)
    ensures Fields(mask, order + more) == Fields(mask, order) + Fields(mask, more)
  {
    if order != [] {
      FieldsSelect(mask, order[1..], more);
      assert order == [order[0]] + order[1..];
      assert (order + more)[1..] == order[1..] + more;
    } else {
      assert order + more == more;
    }
  }

  /** IP | TID | TIME | CALLCHAIN | CPU | PERIOD: the `sample_type` of the
      context-switch and sampling programs. */
  const CommonMask: nat := 423

  /** PERIOD | IP | ADDR | CPU | TID: the type the page-sampling decoder tests. */
  const PePageMask: nat := 395

  /** PERIOD | IP | ADDR: the type of the address-sampling program. */
  const PeSampleMask: nat := 265

  /** The flags of `CommonMask`. */
  lemma CommonFlags()
    ensures Has(CommonMask, Ip) && Has(CommonMask, Tid) && Has(CommonMask, Time)
    ensures Has(CommonMask, Cpu) && Has(CommonMask, Period) && Has(CommonMask, Callchain)
    ensures !Has(CommonMask, Identifier) && !Has(CommonMask, Addr)
  {
    FlagValues();
  }

  /** The flags of `PePageMask` and `PeSampleMask`. */
  lemma PageFlags()
    ensures Has(PePageMask, Ip) && Has(PePageMask, Tid) && Has(PePageMask, Addr)
    ensures Has(PePageMask, Cpu) && Has(PePageMask, Period)
    ensures !Has(PePageMask, Identifier) && !Has(PePageMask, Time) && !Has(PePageMask, Callchain)
    ensures Has(PeSampleMask, Ip) && Has(PeSampleMask, Addr) && Has(PeSampleMask, Period)
    ensures !Has(PeSampleMask, Identifier) && !Has(PeSampleMask, Tid) && !Has(PeSampleMask, Time)
    ensures !Has(PeSampleMask, Cpu) && !Has(PeSampleMask, Callchain)
  {
    FlagValues();
  }

  /** Selecting from a layout one field at a time. */
  lemma FieldsCons(mask: nat, f: Field, rest: seq<Field>)
    ensures Fields(mask, [f] + rest) == (if Has(mask, f) then [f] else []) + Fields(mask, rest)
  {
    assert ([f] + rest)[1..] == rest;
  }

  /** The configured masks select these fields. */
  lemma CommonLayouts()
    ensures Fields(CommonMask, SampleOrder) == [Ip, Tid, Time, Cpu, Period, Callchain]
    ensures Fields(CommonMask, SwitchOrder) == SwitchOrder
  {
    CommonFlags();
    var m := CommonMask;
    FieldsCons(m, Callchain, []);
    FieldsCons(m, Period, [Callchain]);
    FieldsCons(m, Cpu, [Period, Callchain]);
    FieldsCons(m, Time, [Cpu, Period, Callchain]);
    FieldsCons(m, Tid, [Time, Cpu, Period, Callchain]);
    FieldsCons(m, Ip, [Tid, Time, Cpu, Period, Callchain]);
    FieldsCons(m, Identifier, [Ip, Tid, Time, Cpu, Period, Callchain]);
    FieldsCons(m, Cpu, []);
    FieldsCons(m, Time, [Cpu]);
    FieldsCons(m, Tid, [Time, Cpu]);
  }

  lemma PePageLayout()
    ensures Fields(PePageMask, SampleOrderWithAddr) == [Ip, Tid, Addr, Cpu, Period]
  {
    PageFlags();
    var m := PePageMask;
    FieldsCons(m, Callchain, []);
    FieldsCons(m, Period, [Callchain]);
    FieldsCons(m, Cpu, [Period, Callchain]);
    FieldsCons(m, Addr, [Cpu, Period, Callchain]);
    FieldsCons(m, Time, [Addr, Cpu, Period, Callchain]);
    FieldsCons(m, Tid, [Time, Addr, Cpu, Period, Callchain]);
    FieldsCons(m, Ip, [Tid, Time, Addr, Cpu, Period, Callchain]);
    FieldsCons(m, Identifier, [Ip, Tid, Time, Addr, Cpu, Period, Callchain]);
  }

  lemma PeSampleLayout()
    ensures Fields(PeSampleMask, SampleOrderWithAddr) == [Ip, Addr, Period]
  {
    PageFlags();
    var m := PeSampleMask;
    FieldsCons(m, Callchain, []);
    FieldsCons(m, Period, [Callchain]);
    FieldsCons(m, Cpu, [Period, Callchain]);
    FieldsCons(m, Addr, [Cpu, Period, Callchain]);
    FieldsCons(m, Time, [Addr, Cpu, Period, Callchain]);
    FieldsCons(m, Tid, [Time, Addr, Cpu, Period, Callchain]);
    FieldsCons(m, Ip, [Tid, Time, Addr, Cpu, Period, Callchain]);
    FieldsCons(m, Identifier, [Ip, Tid, Time, Addr, Cpu, Period, Callchain]);
  }

  // ---------------------------------------------------------------------------
  // Reading fields.
  // ---------------------------------------------------------------------------

  /** `read_from_perf_buffer_64`: one little-endian 64-bit word. */
  function ReadWord(r: Ring): Option<(u64, Ring)>
    requires RingOk(r)
  {
    match Read(r, 8)
    case None => None
    case Some((bs, r')) =>
      ReadShape(r, 8);
      Pow256Eight();
      Some((FromLE(bs), r'))
  }

  /** A word read fails exactly when fewer than eight bytes are unread, and
      a successful one advances the tail by eight. */
  lemma ReadWordShape(r: Ring)
    requires RingOk(r)
    ensures ReadWord(r).None? <==> Avail(r) < 8
    ensures ReadWord(r).Some? ==>
      ReadWord(r).value.1 == Advance(r, 8) && Follows(Advance(r, 8), r) && Avail(Advance(r, 8)) == Avail(r) - 8
  {
    ReadShape(r, 8);
    if Avail(r) >= 8 {
      AdvanceKeeps(r, 8);
    }
  }

  /** A successful word read takes the next eight pending bytes and leaves
      the rest pending. */
  lemma ReadWordSpec(r: Ring)
    requires RingOk(r)
    ensures ReadWord(r).None? <==> Avail(r) < 8
    ensures ReadWord(r).Some? ==>
      var (w, r') := ReadWord(r).value;
      w == FromLE(Pending(r)[..8]) && Follows(r', r) && Pending(r') == Pending(r)[8..]
  {
    ReadWordShape(r);
    ReadSpec(r, 8);
  }

  /** The ring after a read keeps the data area and the head, and has no
      more unread bytes than before. */
  predicate Follows(r': Ring, r: Ring)
  {
    RingOk(r') && r'.data == r.data && r'.head == r.head && Avail(r') <= Avail(r)
  }

  /** `while (nr--)` reading the call chain's instruction pointers: stops at
      the first failed read with the words read so far, leaving the ring
      where the successful reads left it. */
  function ReadIps(r: Ring, nr: nat): (res: (bool, seq<u64>, Ring))
    requires RingOk(r)
    ensures Follows(res.2, r)
    decreases nr
  {
    if nr == 0 then (true, [], r)
    else
      match ReadWord(r)
      case None => (false, [], r)
      case Some((ip, r1)) =>
        ReadWordShape(r);
        var (ok, ips, r2) := ReadIps(r1, nr - 1);
        (ok, [ip] + ips, r2)
  }

  /** A decoded field: a word, or the instruction pointers of a call chain. */
  datatype Value = Word(w: u64) | Chain(ips: seq<u64>)

  /** One field: a 64-bit word (the pid/tid and cpu/reserved pairs are read
      as one eight-byte word), or for the call chain the count `nr` followed
      by `nr` words.  `None` when a read fails. */
  function ReadField(r: Ring, f: Field): (res: (Option<Value>, Ring))
    requires RingOk(r)
    ensures Follows(res.1, r)
  {
    match ReadWord(r)
    case None => (None, r)
    case Some((w, r1)) =>
      ReadWordShape(r);
      if f != Callchain then (Some(Word(w)), r1)
      else
        var (ok, ips, r2) := ReadIps(r1, w);
        (if ok then Some(Chain(ips)) else None, r2)
  }

  /** What the page-sampling program keeps of a sample: its
      `struct perf_mmap_data_s`. */
  datatype Capture = Capture(period: u64, ip: u64, address: u64, cpu: nat, res: nat, pid: nat, tid: nat)

  /** Where the page-sampling decoder stores a field it has read: the low
      32 bits of an eight-byte pair are its first member. */
  function Store(c: Capture, f: Field, v: Value): Capture
  {
    match v
    case Chain(_) => c
    case Word(w) =>
      match f
      case Ip => c.(ip := w)
      case Tid => c.(pid := w % U32, tid := w / U32)
      case Addr => c.(address := w)
      case Cpu => c.(cpu := w % U32, res := w / U32)
      case Period => c.(period := w)
      case _ => c
  }

  function StoreAll(c: Capture, fs: seq<Field>, vs: seq<Value>): Capture
    requires |fs| == |vs|
    decreases |fs|
  {
    if fs == [] then c else StoreAll(Store(c, fs[0], vs[0]), fs[1..], vs[1..])
  }

  /** The result of `parse_perf_sample` / `parse_perf_switch`: success, the
      values of the fields read before any failure, what was stored, and the
      ring where the reads left it. */
  datatype Decoded = Decoded(ok: bool, values: seq<Value>, capture: Capture, ring: Ring)

  /** Reads the fields in order and returns -1 at the first failed read;
      the reads before it have consumed their bytes and stored their values. */
  function Decode(r: Ring, fs: seq<Field>, c: Capture): (d: Decoded)
    requires RingOk(r)
    ensures Follows(d.ring, r)
    ensures |d.values| <= |fs| && (d.ok <==> |d.values| == |fs|)
    decreases |fs|
  {
    if fs == [] then Decoded(true, [], c, r)
    else
      var (v, r1) := ReadField(r, fs[0]);
      match v
      case None => Decoded(false, [], c, r1)
      case Some(x) =>
        var d := Decode(r1, fs[1..], Store(c, fs[0], x));
        d.(values := [x] + d.values)
  }

  // ---------------------------------------------------------------------------
  // The record format the kernel writes, and what the decoder makes of it.
  // ---------------------------------------------------------------------------

  function EncodeWords(ws: seq<u64>): (bs: seq<byte>)
    ensures |bs| == 8 * |ws|
  {
    if ws == [] then [] else ToLE(ws[0], 8) + EncodeWords(ws[1..])
  }

  /** A word as eight little-endian bytes; a call chain as its length `nr`
      followed by the `nr` instruction pointers. */
  function EncodeValue(v: Value): seq<byte>
  {
    match v
    case Word(w) => ToLE(w, 8)
    case Chain(ips) => ToLE(|ips|, 8) + EncodeWords(ips)
  }

  function Encode(vs: seq<Value>): seq<byte>
  {
    if vs == [] then [] else EncodeValue(vs[0]) + Encode(vs[1..])
  }

  /** The value has the shape of the field: a chain, shorter than 2^64
      entries, exactly for the call chain. */
  predicate FitsField(f: Field, v: Value)
  {
    (v.Chain? <==> f == Callchain) && (v.Chain? ==> |v.ips| < U64)
  }

  predicate Fits(fs: seq<Field>, vs: seq<Value>)
  {
    |fs| == |vs| && forall i :: 0 <= i < |vs| ==> FitsField(fs[i], vs[i])
  }

  /** A word the kernel wrote is read back. */
  lemma ReadWordEncoded(r: Ring, w: u64, rest: seq<byte>)
    requires RingOk(r) && Pending(r) == ToLE(w, 8) + rest
    ensures ReadWord(r).Some? && ReadWord(r).value.0 == w
    ensures Follows(ReadWord(r).value.1, r) && Pending(ReadWord(r).value.1) == rest
  {
    ReadWordSpec(r);
    assert Pending(r)[..8] == ToLE(w, 8);
    assert Pending(r)[8..] == rest;
    Pow256Eight();
    FromToLE(w, 8);
  }

  /** The instruction pointers of a chain are read back. */
  lemma {:induction false} ReadIpsEncoded(r: Ring, ips: seq<u64>, rest: seq<byte>)
    requires RingOk(r) && Pending(r) == EncodeWords(ips) + rest
    ensures ReadIps(r, |ips|).0 && ReadIps(r, |ips|).1 == ips && Pending(ReadIps(r, |ips|).2) == rest
    decreases |ips|
  {
    if ips != [] {
      assert Pending(r) == ToLE(ips[0], 8) + (EncodeWords(ips[1..]) + rest);
      ReadWordEncoded(r, ips[0], EncodeWords(ips[1..]) + rest);
      var r1 := ReadWord(r).value.1;
      ReadIpsEncoded(r1, ips[1..], rest);
      assert ReadIps(r, |ips|).1 == [ips[0]] + ReadIps(r1, |ips| - 1).1;
    }
  }

  /** Reading `nr` words succeeds exactly when `8 * nr` bytes are unread. */
  lemma {:induction false} ReadIpsCount(r: Ring, nr: nat)
    requires RingOk(r)
    ensures ReadIps(r, nr).0 <==> Avail(r) >= 8 * nr
    decreases nr
  {
    if nr > 0 {
      ReadWordShape(r);
      if Avail(r) >= 8 {
        var r1 := Advance(r, 8);
        assert ReadIps(r, nr).0 == ReadIps(r1, nr - 1).0;
        ReadIpsCount(r1, nr - 1);
      }
    }
  }

  /** Reading a call chain once its count `nr` has been read. */
  lemma ReadFieldChain(r: Ring)
    requires RingOk(r) && ReadWord(r).Some?
    ensures var (w, r1) := ReadWord(r).value;
      RingOk(r1) &&
      ReadField(r, Callchain) ==
        (if ReadIps(r1, w).0 then Some(Chain(ReadIps(r1, w).1)) else None, ReadIps(r1, w).2)
  {
    ReadWordShape(r);
  }

  /** A call chain the kernel wrote is read back. */
  lemma ReadChainEncoded(r: Ring, ips: seq<u64>, rest: seq<byte>)
    requires RingOk(r) && |ips| < U64 && Pending(r) == ToLE(|ips|, 8) + (EncodeWords(ips) + rest)
    ensures ReadField(r, Callchain).0 == Some(Chain(ips)) && Pending(ReadField(r, Callchain).1) == rest
  {
    Pow256Eight();
    ReadWordEncoded(r, |ips|, EncodeWords(ips) + rest);
    ReadIpsEncoded(ReadWord(r).value.1, ips, rest);
    ReadFieldChain(r);
  }

  /** A field the kernel wrote is read back. */
  lemma ReadFieldEncoded(r: Ring, f: Field, v: Value, rest: seq<byte>)
    requires RingOk(r) && FitsField(f, v) && Pending(r) == EncodeValue(v) + rest
    ensures ReadField(r, f).0 == Some(v) && Pending(ReadField(r, f).1) == rest
  {
    if v.Word? {
      ReadWordEncoded(r, v.w, rest);
      assert ReadField(r, f) == (Some(v), ReadWord(r).value.1);
    } else {
      assert EncodeValue(v) + rest == ToLE(|v.ips|, 8) + (EncodeWords(v.ips) + rest);
      ReadChainEncoded(r, v.ips, rest);
    }
  }

  /** Fitting values for the remaining fields. */
  lemma FitsTail(fs: seq<Field>, vs: seq<Value>)
    requires Fits(fs, vs) && fs != []
    ensures FitsField(fs[0], vs[0]) && Fits(fs[1..], vs[1..])
  {
    forall i | 0 <= i < |vs| - 1 ensures FitsField(fs[1..][i], vs[1..][i]) {
      assert FitsField(fs[i + 1], vs[i + 1]);
    }
  }

  /** Decoding a non-empty field list after a successful first read. */
  lemma DecodeStep(r: Ring, fs: seq<Field>, c: Capture, x: Value)
    requires RingOk(r) && fs != [] && ReadField(r, fs[0]).0 == Some(x)
    ensures Decode(r, fs, c) ==
      var d := Decode(ReadField(r, fs[0]).1, fs[1..], Store(c, fs[0], x)); d.(values := [x] + d.values)
  {
  }

  /** A field whose bytes are cut short fails to read. */
  lemma ReadFieldTruncated(r: Ring, f: Field, v: Value)
    requires RingOk(r) && FitsField(f, v)
    requires |Pending(r)| < |EncodeValue(v)| && Pending(r) == EncodeValue(v)[..|Pending(r)|]
    ensures ReadField(r, f).0.None?
  {
    ReadWordSpec(r);
    if v.Chain? && Avail(r) >= 8 {
      var ips := v.ips;
      Pow256Eight();
      assert Pending(r)[..8] == ToLE(|ips|, 8);
      FromToLE(|ips|, 8);
      ReadIpsCount(ReadWord(r).value.1, |ips|);
    }
  }

  /** The bytes of the first value come first. */
  lemma EncodeCons(vs: seq<Value>, rest: seq<byte>)
    requires vs != []
    ensures Encode(vs) + rest == EncodeValue(vs[0]) + (Encode(vs[1..]) + rest)
  {
  }

  /** Decoding a record body the kernel wrote for these fields returns their
      values, stores them, and consumes exactly the body. */
  lemma {:induction false} DecodeEncoded(r: Ring, fs: seq<Field>, vs: seq<Value>, c: Capture, rest: seq<byte>)
    requires RingOk(r) && Fits(fs, vs) && Pending(r) == Encode(vs) + rest
    ensures Decode(r, fs, c).ok && Decode(r, fs, c).values == vs
    ensures Decode(r, fs, c).capture == StoreAll(c, fs, vs)
    ensures Pending(Decode(r, fs, c).ring) == rest
    decreases |fs|
  {
    if fs != [] {
      FitsTail(fs, vs);
      EncodeCons(vs, rest);
      ReadFieldEncoded(r, fs[0], vs[0], Encode(vs[1..]) + rest);
      var r1 := ReadField(r, fs[0]).1;
      var c1 := Store(c, fs[0], vs[0]);
      DecodeStep(r, fs, c, vs[0]);
      DecodeEncoded(r1, fs[1..], vs[1..], c1, rest);
      var d1 := Decode(r1, fs[1..], c1);
      assert Decode(r, fs, c) == d1.(values := [vs[0]] + d1.values);
      assert vs == [vs[0]] + vs[1..];
    } else {
      assert Pending(r) == rest;
    }
  }

  /** A record body cut short makes the decoder return -1. */
  lemma {:induction false} DecodeTruncated(r: Ring, fs: seq<Field>, vs: seq<Value>, c: Capture)
    requires RingOk(r) && Fits(fs, vs)
    requires |Pending(r)| < |Encode(vs)| && Pending(r) == Encode(vs)[..|Pending(r)|]
    ensures !Decode(r, fs, c).ok
    decreases |fs|
  {
    FitsTail(fs, vs);
    var e0 := EncodeValue(vs[0]);
    var p := Pending(r);
    if |p| < |e0| {
      assert e0[..|p|] == Encode(vs)[..|p|];
      ReadFieldTruncated(r, fs[0], vs[0]);
    } else {
      var tail := Encode(vs[1..])[..|p| - |e0|];
      assert p == e0 + tail;
      ReadFieldEncoded(r, fs[0], vs[0], tail);
      DecodeStep(r, fs, c, vs[0]);
      DecodeTruncated(ReadField(r, fs[0]).1, fs[1..], vs[1..], Store(c, fs[0], vs[0]));
    }
  }

  /** Whatever the outcome, the decoder has stored exactly the fields it
      read before stopping, in order. */
  lemma {:induction false} DecodeStoresPrefix(r: Ring, fs: seq<Field>, c: Capture)
    requires RingOk(r)
    ensures var d := Decode(r, fs, c); d.capture == StoreAll(c, fs[..|d.values|], d.values)
    decreases |fs|
  {
    if fs != [] {
      var (v, r1) := ReadField(r, fs[0]);
      if v.Some? {
        var x := v.value;
        DecodeStoresPrefix(r1, fs[1..], Store(c, fs[0], x));
        var d := Decode(r, fs, c);
        var n := |d.values|;
        assert fs[..n][1..] == fs[1..][..n - 1];
      }
    }
  }

  /** Storing fields other than the data address keeps the stored address. */
  lemma {:induction false} StoreAllKeepsAddress(c: Capture, fs: seq<Field>, vs: seq<Value>)
    requires |fs| == |vs| && Addr !in fs
    ensures StoreAll(c, fs, vs).address == c.address
    decreases |fs|
  {
    if fs != [] {
      assert fs[0] != Addr && Addr !in fs[1..];
      StoreAllKeepsAddress(Store(c, fs[0], vs[0]), fs[1..], vs[1..]);
    }
  }

  /** A page-sampling record fills every member of the capture. */
  lemma PePageCapture(c: Capture, ip: u64, pidTid: u64, addr: u64, cpuRes: u64, period: u64)
    ensures StoreAll(c, [Ip, Tid, Addr, Cpu, Period], [Word(ip), Word(pidTid), Word(addr), Word(cpuRes), Word(period)])
      == Capture(period, ip, addr, cpuRes % U32, cpuRes / U32, pidTid % U32, pidTid / U32)
  {
  }

  // ---------------------------------------------------------------------------
  // The record header.
  // ---------------------------------------------------------------------------

  const RecordSample: nat := 9
  const RecordSwitch: nat := 14

  /** `struct perf_event_header`: a 32-bit type, 16-bit misc flags and the
      16-bit size of the whole record, header included. */
  datatype Header = Header(kind: nat, misc: nat, size: nat)

  predicate HeaderFits(h: Header)
  {
    h.kind < U32 && h.misc < 0x1_0000 && h.size < 0x1_0000
  }

  function HeaderOf(bs: seq<byte>): Header
    requires |bs| == 8
  {
    Header(FromLE(bs[..4]), FromLE(bs[4..6]), FromLE(bs[6..]))
  }

  function EncodeHeader(h: Header): (bs: seq<byte>)
    ensures |bs| == 8
  {
    ToLE(h.kind, 4) + ToLE(h.misc, 2) + ToLE(h.size, 2)
  }

  lemma HeaderRoundTrip(h: Header)
    requires HeaderFits(h)
    ensures HeaderOf(EncodeHeader(h)) == h
  {
    var bs := EncodeHeader(h);
    assert bs[..4] == ToLE(h.kind, 4);
    assert bs[4..6] == ToLE(h.misc, 2);
    assert bs[6..] == ToLE(h.size, 2);
    Pow256Eight();
    FromToLE(h.kind, 4);
    FromToLE(h.misc, 2);
    FromToLE(h.size, 2);
  }

  lemma HeaderBytesRoundTrip(bs: seq<byte>)
    requires |bs| == 8
    ensures HeaderFits(HeaderOf(bs)) && EncodeHeader(HeaderOf(bs)) == bs
  {
    Pow256Eight();
    ToFromLE(bs[..4]);
    ToFromLE(bs[4..6]);
    ToFromLE(bs[6..]);
    assert bs == bs[..4] + bs[4..6] + bs[6..];
  }

  /** Reading the eight header bytes. */
  function ReadHeader(r: Ring): Option<(Header, Ring)>
    requires RingOk(r)
  {
    match Read(r, 8)
    case None => None
    case Some((bs, r')) =>
      ReadShape(r, 8);
      Some((HeaderOf(bs), r'))
  }

  /** A header read fails exactly when fewer than eight bytes are unread, and
      a successful one advances the tail by eight. */
  lemma ReadHeaderShape(r: Ring)
    requires RingOk(r)
    ensures ReadHeader(r).None? <==> Avail(r) < 8
    ensures ReadHeader(r).Some? ==>
      ReadHeader(r).value.1 == Advance(r, 8) && Follows(Advance(r, 8), r) && Avail(Advance(r, 8)) == Avail(r) - 8
  {
    ReadShape(r, 8);
    if Avail(r) >= 8 {
      AdvanceKeeps(r, 8);
    }
  }

  /** A header read fails exactly when fewer than eight bytes are unread; it
      decodes the next eight pending bytes and consumes them. */
  lemma ReadHeaderSpec(r: Ring)
    requires RingOk(r)
    ensures ReadHeader(r).None? <==> Avail(r) < 8
    ensures ReadHeader(r).Some? ==>
      var (h, r') := ReadHeader(r).value;
      h == HeaderOf(Pending(r)[..8]) && Follows(r', r) && Avail(r') == Avail(r) - 8 &&
      Pending(r') == Pending(r)[8..]
  {
    ReadSpec(r, 8);
    if Avail(r) >= 8 {
      AdvanceConsumes(r, 8);
    }
  }
}
