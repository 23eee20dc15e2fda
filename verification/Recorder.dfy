/**
  The whole recorder on one store: octets arrive and are polled, every speed report goes to the odometer, and
  settings are confirmed in between.
 */
module Recorders {
  import opened Bytes
  import opened Frames
  import opened Parser
  import opened ParserTheory
  import opened TextMessages
  import opened LinkTheory
  import opened SerialLinks
  import opened Eeproms
  import opened Records
  import opened StoreTheory
  import opened SaveTheory
  import opened Storage
  import opened StatusCaches
  import opened StoreRuns
  import opened Odometers

  // ---------- The reports in a stream of octets ----------

  /** The speed reports that a stream of octets carries. */
  function Reports(octets: seq<Byte>): seq<Sample> {
    DispatchAll(START, Run(IDLE, octets).events).samples
  }

  predicate AllSamples(samples: seq<Sample>) {
    forall s <- samples :: IsSample(s)
  }

  lemma DispatchReports(o: Outcome, e: Event)
    requires AllSamples(o.samples)
    ensures AllSamples(Dispatch(o, e).samples) && o.samples <= Dispatch(o, e).samples
  {
    hide ReadChunk, Truncate;
  }

  lemma {:induction false} DispatchAllReports(o: Outcome, events: seq<Event>)
    requires AllSamples(o.samples)
    ensures AllSamples(DispatchAll(o, events).samples) && o.samples <= DispatchAll(o, events).samples
  {
    hide Dispatch;
    if events != [] {
      var n := |events| - 1;
      DispatchAllReports(o, events[..n]);
      DispatchReports(DispatchAll(o, events[..n]), events[n]);
    }
  }

  /** More octets only add reports, and each is in the range of its two fields. */
  lemma ReportsGrow(octets: seq<Byte>, more: seq<Byte>)
    ensures AllSamples(Reports(octets)) && AllSamples(Reports(octets + more))
    ensures Reports(octets) <= Reports(octets + more)
  {
    hide Run, DispatchAll;
    var first := Run(IDLE, octets);
    RunConcat(IDLE, octets, more);
    DispatchAllConcat(START, first.events, Run(first.state, more).events);
    DispatchAllReports(START, first.events);
    DispatchAllReports(DispatchAll(START, first.events), Run(first.state, more).events);
  }

  /** The report in one frame, if there is one. */
  function ReportIn(f: seq<Byte>): seq<Sample> {
    if |f| < 93 || f[0] != HEAD || f[2] != TYPE_SOC_STATUS then []
    else [Sample(FromLe16(f[50..52]), FromLe32(f[46..50]))]
  }

  function ReportsIn(frames: seq<seq<Byte>>): seq<Sample> {
    if frames == [] then [] else ReportsIn(frames[..|frames| - 1]) + ReportIn(frames[|frames| - 1])
  }

  lemma {:induction false} ReceivedReports(o: Outcome, frames: seq<seq<Byte>>)
    ensures Received(o, frames).samples == o.samples + ReportsIn(frames)
  {
    hide Received, ReadChunk, Truncate;
    if frames == [] {
      ReceivedNone(o);
    } else {
      var n := |frames| - 1;
      ReceivedReports(o, frames[..n]);
      ReceivedSnoc(o, frames[..n], frames[n]);
      assert frames[..n] + [frames[n]] == frames;
    }
  }

  /** A clean stream reports exactly what its status frames say, once and in order. */
  lemma CleanStreamReports(junk: seq<seq<Byte>>, frames: seq<seq<Byte>>)
    requires CleanStream(junk, frames)
    ensures Reports(Weave(junk, frames)) == ReportsIn(frames)
  {
    hide Run, DispatchAll;
    CleanStreamDelivered(junk, frames);
    ReceivedReports(START, frames);
  }

  // ---------- The recorder ----------

  /** The reports have brought the odometer from `start` to `now`, over an exact distance of `total` in all. */
  predicate Brought(start: Odo, samples: seq<Sample>, now: Odo, total: nat) {
    && InRange(start) && AllSamples(samples)
    && now == AdvanceAll(start, samples) && total == Exact(start) + Travelled(start, samples)
  }

  /** The odometer started from the record at power-up, or from zero when reading it was refused. */
  predicate StartedFrom(start: Odo, initial: seq<Byte>, grounded: bool) {
    && |initial| == FieldLen(Mileage)
    && (start == Restored(initial) || (!grounded && start == Restored(Default(Mileage))))
  }

  lemma BroughtFurther(start: Odo, samples: seq<Sample>, before: Odo, total: nat, s: Sample)
    requires Brought(start, samples, before, total) && IsSample(s)
    ensures InRange(before) && Brought(start, samples + [s], Advance(before, s), total + Distance(before, s))
  {
    hide Advance, Distance, AdvanceAll, Travelled, Exact;
    AdvanceAllSnoc(start, samples, s);
  }

  lemma BroughtFirst(start: Odo, s: Sample)
    requires InRange(start) && IsSample(s)
    ensures Brought(start, [s], Advance(start, s), Exact(start) + Distance(start, s))
  {
    hide Advance, Distance, Exact;
    BroughtFurther(start, [], start, Exact(start), s);
    assert [] + [s] == [s];
  }

  /** The report with which the protocol task starts the odometer. */
  const BOOT := Sample(0, 1)

  class Recorder {
    const link: SerialLink
    const cache: StatusCache
    const odo: Odometer
    /** The mileage record at power-up. */
    ghost const initial: seq<Byte>
    /** The odometer before the first report. */
    ghost const start: Odo

    /** The odometer stands where these reports have brought it. */
    ghost predicate Counted(samples: seq<Sample>)
      reads this, odo, odo.store.chip
    {
      && odo.Valid() && odo.loaded
      && Brought(start, samples, odo.State(), odo.total) && StartedFrom(start, initial, odo.grounded)
    }

    ghost predicate Valid()
      reads this, link, link.rx, link.rx.buf, link.temp, link.text, link.panel, link.panel.text
      reads cache, odo, cache.store.chip, odo.store.chip
    {
      link.Valid() && cache.Valid() && odo.store == cache.store && Counted([BOOT] + link.samples)
    }

    /** The bus, the memory and the cached block at this moment. */
    ghost function Now(): Device
      reads cache, odo, odo.store.chip
    {
      Device(odo.store.chip.bus, odo.store.chip.mem, cache.block)
    }

    /** Power-up: the bus is looked for, the cache is filled and the odometer is started, which loads the mileage. */
    constructor (chip: Eeprom, found: bool)
      requires chip.Valid()
      modifies chip
      ensures Valid() && odo.store.chip == chip
      ensures chip.mem == old(chip.mem) && initial == Load(Mileage, chip.mem)
      ensures var b := old(chip.bus).(attached := found);
              && SameBus(chip.bus, b) && start == Restored(Seen(AfterRefresh(b), Mileage, chip.mem))
              && Shows(Now(), SeenBy(b, chip.mem))
      ensures var b, mem := old(chip.bus).(attached := found), chip.mem;
              cache.Agrees() <==> AllShown(b, Load(Config, mem), Load(Vin, mem), Load(Province, mem), Load(City, mem))
      ensures link.consumed == [] && link.rx.Valid() && link.rx.Contents() == []
    {
      hide Load, AllShown, BlockOf, AfterRefresh, SerialLink.Valid, Odometer.Valid, Brought, Seen, Bus.AfterRead, Restored;
      hide Block, AllValid;
      var ok := chip.Attach(found);
      SeenByIsPicture(chip.bus, chip.mem);
      var store := new Store(chip);
      link := new SerialLink();
      cache := new StatusCache(store);
      odo := new Odometer(store);
      initial := Load(Mileage, chip.mem);
      start := Restored(Seen(chip.bus, Mileage, chip.mem));
      new;
      RingIsValid(link);
      Begin();
      assert [BOOT] + [] == [BOOT];
    }

    /** The odometer's first report. */
    method Begin()
      requires odo.Valid() && !odo.loaded && initial == Load(Mileage, odo.store.chip.mem)
      requires start == Restored(Seen(odo.store.chip.bus, Mileage, odo.store.chip.mem))
      modifies odo, odo.store.chip
      ensures Counted([BOOT]) && odo.store.chip.mem == old(odo.store.chip.mem)
      ensures SameBus(odo.store.chip.bus, old(odo.store.chip.bus))
    {
      hide Load, Km, Metres, Advance, Distance, Exact, Brought, Counts, NotAhead, UpToDate, Pending, SaveVia, Reloaded;
      hide Stored, Image;
      BroughtFirst(start, BOOT);
      ghost var tried := odo.Update(BOOT);
    }

    /** Hand one report to the odometer, which may save the mileage. The cache shows nothing that this can change. */
    method HandOver(s: Sample, ghost earlier: seq<Sample>) returns (ghost ops: seq<Op>)
      requires Counted(earlier) && IsSample(s) && cache.Valid() && odo.store == cache.store
      modifies odo, odo.store.chip
      ensures Counted(earlier + [s]) && cache.Valid()
      ensures AreOps(ops) && SettingsIn(ops) == [] && Now() == ApplyAll(old(Now()), ops)
    {
      hide Load, Block, Km, Metres, Advance, Distance, Exact, Brought, Counts, NotAhead, UpToDate, Pending, SaveVia, Bus.AfterRead;
      hide Stored, Image, Reloaded, ApplyAll, SettingsIn;
      ghost var before := Now();
      BroughtFurther(start, earlier, odo.State(), odo.total, s);
      ghost var tried := odo.Update(s);
      ops := [];
      NoOps(before);
      if tried {
        ghost var op := Drive(Image(odo.km, odo.m));
        ApplyOne(before, op);
        ops := [op];
      }
    }

    /** The interrupt side. */
    method Receive(octets: seq<Byte>)
      requires Valid()
      modifies link.rx, link.rx.buf
      ensures Valid() && link.rx.buf == old(link.rx.buf)
      ensures link.rx.Contents() == Clip(old(link.rx.Contents()) + octets)
    {
      hide Load, Block, Run, DispatchAll, Reachable, Odometer.Valid, Brought;
      link.PushBytes(octets);
    }

    /** The protocol thread: consume what has arrived, handing every report to the odometer in order. */
    method Poll() returns (ghost ops: seq<Op>)
      requires Valid()
      modifies odo, odo.store.chip
      modifies link, link.rx, link.rx.buf, link.temp, link.text, link.panel, link.panel.text
      ensures Valid() && link.rx.buf == old(link.rx.buf) && link.panel.text == old(link.panel.text)
      ensures link.rx.Valid() && link.rx.Contents() == [] && link.consumed == old(link.consumed + link.rx.Contents())
      ensures AreOps(ops) && SettingsIn(ops) == [] && Now() == ApplyAll(old(Now()), ops)
      ensures cache.Agrees() <==> old(cache.Agrees())
    {
      hide Load, BlockOf, SerialLink.Valid, Odometer.Valid, Brought, Reports, ApplyAll, SettingsIn;
      RingIsValid(link);
      ReportsOf(link);
      var from := |link.samples|;
      ReportsGrow(link.consumed, link.rx.Contents());
      link.Poll();
      RingIsValid(link);
      ReportsOf(link);
      assert link.samples[..from] == old(link.samples);
      ops := Count(from);
      NoSettings(ops);
      DrivingSparesCache(old(Now()), ops);
    }

    method Count(from: nat) returns (ghost ops: seq<Op>)
      requires from <= |link.samples| && AllSamples(link.samples)
      requires Counted([BOOT] + link.samples[..from]) && cache.Valid() && odo.store == cache.store
      modifies odo, odo.store.chip
      ensures Counted([BOOT] + link.samples) && cache.Valid()
      ensures AreOps(ops) && SettingsIn(ops) == [] && Now() == ApplyAll(old(Now()), ops)
    {
      hide Load, Block, Odometer.Valid, Brought, ApplyAll, SettingsIn;
      ops := [];
      NoOps(Now());
      for i := from to |link.samples|
        invariant Counted([BOOT] + link.samples[..i]) && cache.Valid()
        invariant AreOps(ops) && SettingsIn(ops) == [] && Now() == ApplyAll(old(Now()), ops)
      {
        assert [BOOT] + link.samples[..i] + [link.samples[i]] == [BOOT] + link.samples[..i + 1];
        ghost var more := HandOver(link.samples[i], [BOOT] + link.samples[..i]);
        ApplyAllConcat(old(Now()), ops, more);
        SettingsInConcat(ops, more);
        ops := ops + more;
      }
      assert link.samples[..|link.samples|] == link.samples;
    }

    /** A settings page is confirmed. The odometer does not notice. */
    method Confirm(key: Key, part: seq<Byte>) returns (ok: bool)
      requires Valid() && key != KMileage
      modifies cache, odo.store.chip
      ensures Valid() && Now() == Confirmed(old(Now()), key, part)
      ensures old(cache.Agrees()) ==>
                (cache.Agrees() <==> StaysCurrent(old(odo.store.chip.bus), key, part, old(odo.store.chip.mem)))
    {
      hide Load, Block, SerialLink.Valid, Brought, StatusCache.Agrees, StaysCurrent, TryField, Refreshed, AfterRefresh;
      hide PartValid, NotAhead, UpToDate, Pending, Exact, Stored;
      ok := cache.ConfirmSetting(key, part);
    }
  }

  lemma NoOps(d: Device)
    requires |d.mem| == SIZE
    ensures AreOps([]) && ApplyAll(d, []) == d && SettingsIn([]) == []
  {
  }

  // ---------- Whole runs ----------

  datatype Happening = Octets(octets: seq<Byte>) | RunPoll | Setting(key: Key, part: seq<Byte>)

  /** What the link sees of a run. */
  function LinkSide(hs: seq<Happening>): seq<Moment> {
    if hs == [] then [] else Noticed(hs[0]) + LinkSide(hs[1..])
  }

  function Noticed(h: Happening): seq<Moment> {
    match h
    case Octets(octets) => [Moment.Arrive(octets)]
    case RunPoll => [Moment.RunPoll]
    case Setting(_, _) => []
  }

  /** The settings confirmed in a run. */
  function SettingsOf(hs: seq<Happening>): seq<Save> {
    if hs == [] then [] else Chosen(hs[0]) + SettingsOf(hs[1..])
  }

  function Chosen(h: Happening): seq<Save> {
    if h.Setting? then [Save(h.key, h.part)] else []
  }

  predicate IsSetting(h: Happening) {
    h.Setting? ==> h.key != KMileage
  }

  method Happen(r: Recorder, h: Happening) returns (ghost ops: seq<Op>)
    requires r.Valid() && IsSetting(h)
    modifies r.cache, r.odo, r.odo.store.chip
    modifies r.link, r.link.rx, r.link.rx.buf, r.link.temp, r.link.text, r.link.panel, r.link.panel.text
    ensures r.Valid() && r.link.rx.Valid()
    ensures r.link.rx.buf == old(r.link.rx.buf) && r.link.panel.text == old(r.link.panel.text)
    ensures h.Octets? ==>
              r.link.consumed == old(r.link.consumed) && r.link.rx.Contents() == Clip(old(r.link.rx.Contents()) + h.octets)
    ensures h.RunPoll? ==> r.link.rx.Contents() == [] && r.link.consumed == old(r.link.consumed + r.link.rx.Contents())
    ensures h.Setting? ==> r.link.consumed == old(r.link.consumed) && r.link.rx.Contents() == old(r.link.rx.Contents())
    ensures AreOps(ops) && SettingsIn(ops) == Chosen(h) && r.Now() == ApplyAll(old(r.Now()), ops)
  {
    hide SerialLink.Valid, Odometer.Valid, Brought, StaysCurrent, Load, Block, ApplyAll, Confirmed, SettingsIn;
    RingIsValid(r.link);
    ops := [];
    NoOps(r.Now());
    match h
    case Octets(octets) =>
      r.Receive(octets);
      RingIsValid(r.link);
    case RunPoll =>
      ops := r.Poll();
    case Setting(key, part) =>
      ops := [Op.Confirm(key, part)];
      ApplyOne(r.Now(), ops[0]);
      var ok := r.Confirm(key, part);
  }

  /** Any run, as the link and the store see it. */
  method Perform(r: Recorder, hs: seq<Happening>) returns (ghost ops: seq<Op>)
    requires r.Valid() && forall h <- hs :: IsSetting(h)
    modifies r.cache, r.odo, r.odo.store.chip
    modifies r.link, r.link.rx, r.link.rx.buf, r.link.temp, r.link.text, r.link.panel, r.link.panel.text
    ensures r.Valid() && r.link.rx.Valid()
    ensures r.link.rx.buf == old(r.link.rx.buf) && r.link.panel.text == old(r.link.panel.text)
    ensures r.link.consumed + r.link.rx.Contents() ==
            old(r.link.consumed) + Kept(LinkSide(hs), old(r.link.rx.Contents()))
    ensures AreOps(ops) && SettingsIn(ops) == SettingsOf(hs) && r.Now() == ApplyAll(old(r.Now()), ops)
    decreases |hs|
  {
    hide SerialLink.Valid, Odometer.Valid, Brought, Load, Block, Clip, StatusCache.Agrees, ApplyAll, SettingsIn;
    RingIsValid(r.link);
    ops := [];
    NoOps(r.Now());
    if hs != [] {
      KeptFirst(hs, r.link.rx.Contents());
      ghost var first := Happen(r, hs[0]);
      ghost var rest := Perform(r, hs[1..]);
      ApplyAllConcat(old(r.Now()), first, rest);
      SettingsInConcat(first, rest);
      ops := first + rest;
    }
  }

  /**
    Any run: octets, polls and settings in any order, on any bus. The recorder's invariant survives and nothing
    that got into the ring is lost. At its end the cache agrees with the memory exactly when what the last refresh
    saw is what is stored. On a bus that refuses nothing that is always so, once it was so, and every setting reads
    as it was last written.
   */
  method Operate(r: Recorder, hs: seq<Happening>) returns (ghost ops: seq<Op>)
    requires r.Valid() && forall h <- hs :: IsSetting(h)
    modifies r.cache, r.odo, r.odo.store.chip
    modifies r.link, r.link.rx, r.link.rx.buf, r.link.temp, r.link.text, r.link.panel, r.link.panel.text
    ensures r.Valid() && r.link.rx.Valid()
    ensures r.link.consumed + r.link.rx.Contents() ==
            old(r.link.consumed) + Kept(LinkSide(hs), old(r.link.rx.Contents()))
    ensures AreOps(ops) && SettingsIn(ops) == SettingsOf(hs) && r.Now() == ApplyAll(old(r.Now()), ops)
    ensures forall p :: Shows(old(r.Now()), p) ==>
              (r.cache.Agrees() <==> LastSeen(p, old(r.Now()), ops) == PictureOf(r.odo.store.chip.mem))
    ensures old(r.odo.store.chip.bus.Healthy()) ==>
              && (old(r.cache.Agrees()) ==> r.cache.Agrees())
              && forall key :: key != KMileage ==>
                   Read(key, r.odo.store.chip.mem) == LastWritten(SettingsOf(hs), key, Read(key, old(r.odo.store.chip.mem)))
  {
    hide SerialLink.Valid, Odometer.Valid, Brought, BlockOf, Clip, ApplyAll, SettingsIn, Shows, LastSeen, Read, PictureOf;
    hide SettingsOf, LastWritten, Kept, AllKeep, AlwaysCurrent, Bus.Healthy;
    RingIsValid(r.link);
    ghost var before := r.Now();
    ops := Perform(r, hs);
    forall p | Shows(before, p)
      ensures Current(r.Now()) <==> LastSeen(p, before, ops) == PictureOf(r.Now().mem)
    {
      CurrentAtEndIff(p, before, ops);
    }
    if before.bus.Healthy() {
      HealthyAlwaysCurrent(before, ops);
      if Current(before) {
        AlwaysCurrentIff(before, ops);
      }
      forall key | key != KMileage
        ensures Read(key, r.Now().mem) == LastWritten(SettingsOf(hs), key, Read(key, before.mem))
      {
        HealthyRunIsMap(before, ops, key);
        MileageAside(ops, key, Read(key, before.mem));
      }
    }
  }

  lemma KeptFirst(hs: seq<Happening>, ring: seq<Byte>)
    requires hs != []
    ensures hs[0].Octets? ==> Kept(LinkSide(hs), ring) == Kept(LinkSide(hs[1..]), Clip(ring + hs[0].octets))
    ensures hs[0].RunPoll? ==> Kept(LinkSide(hs), ring) == ring + Kept(LinkSide(hs[1..]), [])
    ensures hs[0].Setting? ==> Kept(LinkSide(hs), ring) == Kept(LinkSide(hs[1..]), ring)
  {
    hide Clip;
    var rest := LinkSide(hs[1..]);
    if hs[0].Setting? {
      assert LinkSide(hs) == rest;
    } else {
      assert LinkSide(hs)[1..] == rest;
    }
  }

  lemma ReportsOf(link: SerialLink)
    requires link.Valid()
    ensures link.samples == Reports(link.consumed)
  {
    hide Run, DispatchAll, Reachable;
    assert link.Progress().samples == link.samples;
  }

  /**
    In every reachable state of the recorder: the distance shown is that of the start plus the exact sum over
    the reports in the octets consumed, modulo 2^32 km. Unless the latest save failed a reboot would lose less
    than a kilometre of it, and none is invented if the first load was carried or a save has succeeded.
   */
  lemma DistanceOnTheWire(r: Recorder)
    requires r.Valid()
    ensures var reports := [BOOT] + Reports(r.link.consumed);
            && AllSamples(reports) && InRange(r.start) && StartedFrom(r.start, r.initial, r.odo.grounded)
            && Exact(r.odo.State()) % LIMIT == (Exact(r.start) + Legs(reports)) % LIMIT
            && (r.odo.m < 1000 ==> Exact(r.odo.State()) == (Exact(r.start) + Legs(reports)) % LIMIT)
            && (r.odo.m >= 1000 ==> Exact(r.odo.State()) == Exact(r.start) && Legs(reports) == 0)
            && (!r.odo.failed && Exact(r.start) + Legs(reports) < LIMIT ==>
                 Exact(r.start) + Legs(reports) < Reloaded(Load(Mileage, r.odo.store.chip.mem)) + KILOMETRE)
            && (r.odo.synced && Exact(r.start) + Legs(reports) < LIMIT ==>
                 Reloaded(Load(Mileage, r.odo.store.chip.mem)) <= Exact(r.start) + Legs(reports))
            && (r.odo.grounded ==> r.odo.synced)
  {
    hide Load, SerialLink.Valid, Reports, AdvanceAll, Travelled, Exact, Km, Metres, Pending, UpToDate, Reloaded, Legs;
    ReportsOf(r.link);
    Conservation(r.start, [BOOT] + r.link.samples);
    if !r.odo.failed && r.odo.total < LIMIT {
      ReloadIsClose(Load(Mileage, r.odo.store.chip.mem), r.odo.State(), r.odo.savedKm, r.odo.total);
    }
  }
}
