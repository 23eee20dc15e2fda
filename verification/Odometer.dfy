/**
  The odometer: kilometres, metres and a remainder in 1/36 m, advanced by speed reports in 0.1 km/h and saved
  whenever the kilometre count has moved.
 */
module Odometers {
  import opened Bytes
  import opened Eeproms
  import opened Records
  import opened StoreTheory
  import opened SaveTheory
  import opened Storage
  import opened TextMessages

  /** The static variables; `acc` counts 1/36 m. */
  datatype Odo = Odo(hasLast: bool, lastTime: nat, km: nat, m: nat, acc: nat)

  /** One kilometre, and the largest distance a 32-bit kilometre count can show, in 1/36 m. */
  const KILOMETRE := 36_000
  const LIMIT := KILOMETRE * TWO_32

  predicate InRange(o: Odo) {
    o.lastTime < TWO_32 && o.km < TWO_32 && o.m < 0x1_0000 && o.acc < 36
  }

  predicate IsSample(s: Sample) {
    s.speed < 0x1_0000 && s.timestamp < TWO_32
  }

  /** The distance shown, in 1/36 m. */
  function Exact(o: Odo): nat {
    36 * (1000 * o.km + o.m) + o.acc
  }

  /** An interval counts when time moves forward by at most five seconds. */
  predicate Counts(o: Odo, s: Sample) {
    o.hasLast && o.lastTime < s.timestamp <= o.lastTime + 5
  }

  /** speed * dt / 36 metres: the exact distance of the interval in 1/36 m. */
  function Distance(o: Odo, s: Sample): nat {
    if Counts(o, s) then s.speed * (s.timestamp - o.lastTime) else 0
  }

  function Advance(o: Odo, s: Sample): (r: Odo)
    requires InRange(o) && IsSample(s)
    ensures InRange(r)
  {
    var o' := o.(hasLast := true, lastTime := s.timestamp);
    if !Counts(o, s) then o'
    else
      var sum := o.acc + Distance(o, s);
      var total := o.m + sum / 36;
      o'.(km := (o.km + total / 1000) % TWO_32, m := total % 1000, acc := sum % 36)
  }

  function AdvanceAll(o: Odo, samples: seq<Sample>): (r: Odo)
    requires InRange(o) && forall s <- samples :: IsSample(s)
    ensures InRange(r)
    decreases |samples|
  {
    if samples == [] then o else AdvanceAll(Advance(o, samples[0]), samples[1..])
  }

  /** The exact sum of speed * dt over the intervals that count. */
  function Travelled(o: Odo, samples: seq<Sample>): nat
    requires InRange(o) && forall s <- samples :: IsSample(s)
    decreases |samples|
  {
    if samples == [] then 0 else Distance(o, samples[0]) + Travelled(Advance(o, samples[0]), samples[1..])
  }

  lemma CarryConserves(km: nat, m: nat, sum: nat)
    ensures var total := m + sum / 36;
            36 * (1000 * (km + total / 1000) + total % 1000) + sum % 36 == 36 * (1000 * km + m) + sum
  {
  }

  lemma WrapKilometres(x: nat, low: nat)
    requires low < KILOMETRE
    ensures KILOMETRE * (x % TWO_32) + low == (KILOMETRE * x + low) % LIMIT
  {
    var q := x / TWO_32;
    assert KILOMETRE * x + low == LIMIT * q + (KILOMETRE * (x % TWO_32) + low);
    assert KILOMETRE * (x % TWO_32) + low < LIMIT;
  }

  /** One report loses nothing, up to the overflow of the kilometre count. */
  lemma AdvanceConserves(o: Odo, s: Sample)
    requires InRange(o) && IsSample(s)
    ensures Advance(o, s).acc < 36 && (o.m < 1000 || Counts(o, s) ==> Advance(o, s).m < 1000)
    ensures Counts(o, s) ==> Exact(Advance(o, s)) == (Exact(o) + Distance(o, s)) % LIMIT
    ensures !Counts(o, s) ==> Exact(Advance(o, s)) == Exact(o)
  {
    if Counts(o, s) {
      var sum := o.acc + Distance(o, s);
      var total := o.m + sum / 36;
      var x, low := o.km + total / 1000, 36 * (total % 1000) + sum % 36;
      CarryConserves(o.km, o.m, sum);
      WrapKilometres(x, low);
      assert KILOMETRE * x + low == Exact(o) + Distance(o, s);
    }
  }

  // ---------- What counts, by the reports alone ----------

  /** The distance between a report at time `before` and this one, in 1/36 m: one to five seconds at its speed. */
  function Leg(before: nat, s: Sample): nat {
    var dt := s.timestamp - before;
    if 1 <= dt <= 5 then s.speed * dt else 0
  }

  /** The legs between consecutive reports, added up. */
  function Legs(samples: seq<Sample>): nat {
    if |samples| < 2 then 0 else Leg(samples[0].timestamp, samples[1]) + Legs(samples[1..])
  }

  /**
    One report: if there was one before and time has moved on by one to five seconds, speed times seconds is added;
    otherwise nothing is. In both cases it becomes the report that the next one is measured from.
   */
  lemma AdvanceMeans(o: Odo, s: Sample)
    requires InRange(o) && IsSample(s)
    ensures var r := Advance(o, s);
            && r.hasLast && r.lastTime == s.timestamp
            && (o.hasLast && 1 <= s.timestamp - o.lastTime <= 5 ==>
                 Exact(r) == (Exact(o) + s.speed * (s.timestamp - o.lastTime)) % LIMIT && r.m < 1000 && r.acc < 36)
            && (!(o.hasLast && 1 <= s.timestamp - o.lastTime <= 5) ==> r.km == o.km && r.m == o.m && r.acc == o.acc)
  {
    AdvanceConserves(o, s);
  }

  lemma {:induction false} TravelledIsLegs(o: Odo, samples: seq<Sample>)
    requires InRange(o) && forall s <- samples :: IsSample(s)
    ensures Travelled(o, samples) ==
            (if o.hasLast && samples != [] then Leg(o.lastTime, samples[0]) else 0) + Legs(samples)
    decreases |samples|
  {
    if samples != [] {
      TravelledIsLegs(Advance(o, samples[0]), samples[1..]);
      if |samples| > 1 {
        assert samples[1..][0] == samples[1];
      }
    }
  }

  /**
    Over any sequence of reports the distance shown is the initial one plus the exact sum, modulo 2^32 km. A
    metre count of 1000 or more, which the record check lets through, stands until the first interval that counts.
   */
  lemma {:induction false} Conservation(o: Odo, samples: seq<Sample>)
    requires InRange(o) && forall s <- samples :: IsSample(s)
    ensures var r := AdvanceAll(o, samples);
            && r.acc < 36 && (o.m < 1000 ==> r.m < 1000)
            && (r.m < 1000 ==> Exact(r) == (Exact(o) + Travelled(o, samples)) % LIMIT)
            && (r.m >= 1000 ==> Exact(r) == Exact(o) && Travelled(o, samples) == 0)
    ensures Travelled(o, samples) ==
            (if o.hasLast && samples != [] then Leg(o.lastTime, samples[0]) else 0) + Legs(samples)
    decreases |samples|
  {
    hide Advance, Counts, Distance;
    TravelledIsLegs(o, samples);
    if samples == [] {
      assert o.m < 1000 ==> Exact(o) < LIMIT;
    } else {
      var o' := Advance(o, samples[0]);
      AdvanceConserves(o, samples[0]);
      Conservation(o', samples[1..]);
      if Counts(o, samples[0]) {
        ModuloSum(Exact(o) + Distance(o, samples[0]), Travelled(o', samples[1..]));
      } else {
        StandsStill(o, samples[0]);
      }
    }
  }

  lemma {:induction false} AdvanceAllSnoc(o: Odo, samples: seq<Sample>, s: Sample)
    requires InRange(o) && IsSample(s) && forall s <- samples :: IsSample(s)
    ensures AdvanceAll(o, samples + [s]) == Advance(AdvanceAll(o, samples), s)
    ensures Travelled(o, samples + [s]) == Travelled(o, samples) + Distance(AdvanceAll(o, samples), s)
    decreases |samples|
  {
    hide Advance, Counts, Distance;
    if samples == [] {
      assert [s][1..] == [];
    } else {
      assert (samples + [s])[1..] == samples[1..] + [s];
      AdvanceAllSnoc(Advance(o, samples[0]), samples[1..], s);
    }
  }

  lemma NotCounted(o: Odo, s: Sample)
    requires InRange(o) && IsSample(s)
    ensures !Counts(o, s) ==>
              && Distance(o, s) == 0 && Advance(o, s) == o.(hasLast := true, lastTime := s.timestamp)
              && Exact(Advance(o, s)) == Exact(o)
  {
  }

  lemma StandsStill(o: Odo, s: Sample)
    requires !Counts(o, s)
    ensures Distance(o, s) == 0
  {
  }

  lemma ModuloSum(a: nat, b: nat)
    ensures (a % LIMIT + b) % LIMIT == (a + b) % LIMIT
  {
    var q, r := a / LIMIT, (a % LIMIT + b) / LIMIT;
    assert a + b == LIMIT * (q + r) + (a % LIMIT + b) % LIMIT;
    UniqueRemainder(a + b, q + r, (a % LIMIT + b) % LIMIT);
  }

  lemma UniqueRemainder(x: nat, q: nat, r: nat)
    requires x == LIMIT * q + r && r < LIMIT
    ensures x % LIMIT == r
  {
  }

  // ---------- Against the store ----------

  /** The memory image of the mileage structure. */
  function Image(km: nat, m: nat): (v: seq<Byte>)
    requires km < TWO_32 && m < 0x1_0000
    ensures |v| == FieldLen(Mileage)
  {
    ToLe32(km) + ToLe16(m) + [0, 0]
  }

  function Km(v: seq<Byte>): (km: nat)
    requires |v| == FieldLen(Mileage)
    ensures km < TWO_32
  {
    FromLe32(v[..4])
  }

  function Metres(v: seq<Byte>): (m: nat)
    requires |v| == FieldLen(Mileage)
    ensures m < 0x1_0000
  {
    FromLe16(v[4..6])
  }

  /** Kilometres in four octets and metres in two, low octet first. */
  lemma ImageOctets(a: nat, b: nat, c: nat, d: nat, e: nat, f: nat)
    requires a < 256 && b < 256 && c < 256 && d < 256 && e < 256 && f < 256
    ensures Image(a + 256 * b + 0x1_0000 * (c + 256 * d), e + 256 * f) == Octets([a, b, c, d, e, f]) + [0, 0]
  {
    hide ToLe32, ToLe16, Octets;
    LowHalfFirst(a, b, c, d);
    LowFirst(e, f);
    OctetsConcat([a, b, c, d], [e, f]);
    assert [a, b, c, d] + [e, f] == [a, b, c, d, e, f];
  }

  lemma ImageRoundTrip(km: nat, m: nat)
    requires km < TWO_32 && m < 0x1_0000
    ensures Km(Image(km, m)) == km && Metres(Image(km, m)) == m
  {
    hide ToLe32, FromLe32, ToLe16, FromLe16;
    var v := Image(km, m);
    assert v[..4] == ToLe32(km) && v[4..6] == ToLe16(m);
    Le32RoundTrip(km);
    Le16RoundTrip(m);
  }

  /** What a reboot would start from, in 1/36 m. */
  function Reloaded(v: seq<Byte>): nat
    requires |v| == FieldLen(Mileage)
  {
    36 * (1000 * Km(v) + Metres(v))
  }

  /** The odometer after a reboot, before the first report. */
  function Restored(v: seq<Byte>): Odo
    requires |v| == FieldLen(Mileage)
  {
    Odo(false, 0, Km(v), Metres(v), 0)
  }

  lemma DefaultIsZero()
    ensures Km(Default(Mileage)) == 0 && Metres(Default(Mileage)) == 0
  {
    assert Default(Mileage)[..4] == Zeros(4) && Default(Mileage)[4..6] == Zeros(2);
  }

  /**
    The first load takes up the stored distance exactly when the read is carried or there is none to take up. A
    refused read reports success with 0, and the first save that succeeds then replaces the true mileage.
   */
  lemma MileageTakenUpIff(b: Bus, mem: seq<Byte>)
    requires |mem| == SIZE
    ensures Restored(Seen(b, Mileage, mem)) == Restored(Load(Mileage, mem)) <==>
            b.CarriesRead() || Reloaded(Load(Mileage, mem)) == 0
  {
    hide Load, Km, Metres, Default, Bus.CarriesRead;
    DefaultIsZero();
  }

  /** The stored value is not ahead of the true total. */
  predicate NotAhead(v: seq<Byte>, total: nat)
    requires |v| == FieldLen(Mileage)
  {
    total < LIMIT ==> Reloaded(v) <= total
  }

  /** The stored value has reached the kilometre being driven, so it is less than a kilometre behind. */
  predicate UpToDate(v: seq<Byte>, o: Odo, savedKm: nat, total: nat)
    requires |v| == FieldLen(Mileage)
  {
    savedKm == o.km && KILOMETRE * savedKm <= Reloaded(v) && (total < LIMIT && o.m >= 1000 ==> total <= Reloaded(v))
  }

  /** The kilometre last saved has been driven, and after a failed save the next one too: there is one to save. */
  predicate Pending(savedKm: nat, failed: bool, total: nat) {
    total < LIMIT ==> KILOMETRE * (if failed then savedKm + 1 else savedKm) <= total
  }

  lemma FreshlyLoaded(v: seq<Byte>, stored: seq<Byte>)
    requires |v| == |stored| == FieldLen(Mileage) && (v == stored || v == Default(Mileage))
    ensures Exact(Restored(v)) == Reloaded(v) && (v == stored ==> NotAhead(stored, Reloaded(v)))
    ensures UpToDate(stored, Restored(v), Km(v), Reloaded(v)) && Pending(Km(v), false, Reloaded(v))
  {
    hide Km, Metres, Default;
    DefaultIsZero();
  }

  /** A reboot at any moment loses less than one kilometre, and invents nothing if the store is not ahead. */
  lemma ReloadIsClose(v: seq<Byte>, o: Odo, savedKm: nat, total: nat)
    requires |v| == FieldLen(Mileage) && InRange(o) && total < LIMIT && Exact(o) % LIMIT == total % LIMIT
    requires UpToDate(v, o, savedKm, total)
    ensures total < Reloaded(v) + KILOMETRE
    ensures NotAhead(v, total) ==> Reloaded(v) <= total
  {
    hide Km, Metres;
    if o.m < 1000 {
      assert Exact(o) < LIMIT;
    }
  }

  class Odometer {
    const store: Store
    var loaded: bool
    var hasLast: bool
    var lastTime: nat
    var km: nat
    var m: nat
    var acc: nat
    var savedKm: nat
    /** The exact distance since the value that was loaded, never wrapped. */
    ghost var total: nat
    /** The first load did yield what was stored. */
    ghost var grounded: bool
    /** The latest save that was tried did not report success. */
    ghost var failed: bool
    /** The store holds nothing that was not counted here: the first load yielded it, or a save replaced it. */
    ghost var synced: bool

    ghost function State(): Odo
      reads this
    {
      Odo(hasLast, lastTime, km, m, acc)
    }

    ghost predicate Valid()
      reads this, store.chip
    {
      && store.chip.Valid() && InRange(State()) && savedKm < TWO_32
      && (!loaded ==> !hasLast && lastTime == 0 && acc == 0)
      && (loaded ==>
           && Exact(State()) % LIMIT == total % LIMIT
           && (grounded ==> synced)
           && (synced ==> NotAhead(Load(Mileage, store.chip.mem), total))
           && (!failed ==> UpToDate(Load(Mileage, store.chip.mem), State(), savedKm, total))
           && Pending(savedKm, failed, total))
    }

    constructor (store: Store)
      requires store.chip.Valid()
      ensures Valid() && !loaded && !hasLast && this.store == store
    {
      this.store := store;
      loaded, hasLast, lastTime, km, m, acc, savedKm := false, false, 0, 0, 0, 0, 0;
      total, grounded, failed, synced := 0, false, false, false;
    }

    /** The first report brings the stored mileage in, unless reading it is refused. */
    method EnsureLoaded()
      requires Valid()
      modifies this, store.chip`bus
      ensures Valid() && loaded
      ensures old(loaded) ==>
                && State() == old(State()) && total == old(total) && savedKm == old(savedKm)
                && grounded == old(grounded) && failed == old(failed) && synced == old(synced) && store.chip.bus == old(store.chip.bus)
      ensures hasLast == old(hasLast) && lastTime == old(lastTime)
      ensures !old(loaded) ==>
                && !failed && synced == grounded && store.chip.bus == old(store.chip.bus).AfterRead()
                && grounded == ShowsStored(old(store.chip.bus), Mileage, Load(Mileage, store.chip.mem))
                && State() == Restored(Seen(old(store.chip.bus), Mileage, store.chip.mem)) && total == Exact(State())
    {
      hide Load, Km, Metres, FieldsValid, Default, Bus.CarriesRead, Bus.AfterRead, Advance, Distance;
      hide NotAhead, UpToDate, Pending, Exact, Reloaded;
      if loaded {
        return;
      }
      var _, v := store.LoadRecord(Mileage);
      km, m, savedKm := Km(v), Metres(v), Km(v);
      loaded := true;
      total, grounded, failed := Reloaded(v), v == Load(Mileage, store.chip.mem), false;
      synced := grounded;
      FreshlyLoaded(v, Load(Mileage, store.chip.mem));
    }

    /** The counters after the report; the first one starts from what loading yielded. */
    twostate predicate Moved(s: Sample)
      requires IsSample(s) && old(Valid())
      reads this, store.chip
    {
      var start := if old(loaded) then old(State()) else Restored(Seen(old(store.chip.bus), Mileage, old(store.chip.mem)));
      && State() == Advance(start, s)
      && total == (if old(loaded) then old(total) else Exact(start)) + Distance(start, s)
      && grounded == if old(loaded) then old(grounded)
                     else ShowsStored(old(store.chip.bus), Mileage, Load(Mileage, old(store.chip.mem)))
    }

    /** When a report saves, and what the bus makes of it. */
    twostate predicate SaveDecided(s: Sample, tried: bool)
      requires old(Valid()) && store.chip.Valid()
      reads this, store.chip
    {
      && tried == (old(loaded) && Counts(old(State()), s) && km != old(savedKm))
      && (tried ==>
           var r := SaveVia(old(store.chip.bus), Mileage);
           && failed == !r.ok && store.chip.bus == r.bus && km < TWO_32 && m < 1000
           && store.chip.mem == Stored(Mileage, old(store.chip.mem), Image(km, m), r.n))
      && (!tried ==>
           && failed == (old(loaded) && old(failed)) && store.chip.mem == old(store.chip.mem)
           && store.chip.bus == if old(loaded) then old(store.chip.bus) else old(store.chip.bus).AfterRead())
      && (old(loaded && failed) && Counts(old(State()), s) && total < LIMIT ==> tried)
      && synced == ((tried && !failed) || if old(loaded) then old(synced) else grounded)
    }

    /**
      Handle one speed report. Whatever the bus refused before: unless the latest save failed, a reboot would
      lose less than a kilometre of what was counted, and invents nothing if the first load was carried or a save
      has succeeded. A failed save is tried again at the next report that counts, and the first one that the bus
      carries restores both bounds.
     */
    method Update(s: Sample) returns (ghost tried: bool)
      requires Valid() && IsSample(s)
      modifies this, store.chip
      ensures Valid() && loaded
      ensures Moved(s) && SaveDecided(s, tried)
      ensures !failed && total < LIMIT ==> total < Reloaded(Load(Mileage, store.chip.mem)) + KILOMETRE
      ensures synced && total < LIMIT ==> Reloaded(Load(Mileage, store.chip.mem)) <= total
    {
      hide Load, Km, Metres, Advance, Pending, SaveVia, Moved, SaveDecided;
      tried := UpdateCounters(s);
      if !failed && total < LIMIT {
        ReloadIsClose(Load(Mileage, store.chip.mem), State(), savedKm, total);
      }
    }

    method UpdateCounters(s: Sample) returns (ghost tried: bool)
      requires Valid() && IsSample(s)
      modifies this, store.chip
      ensures Valid() && loaded
      ensures Moved(s) && SaveDecided(s, tried)
    {
      hide Load, Km, Metres, SaveVia, Seen, Bus.AfterRead, ShowsStored;
      hide Advance, Exact, Distance, Reloaded, Stored, Image;
      tried := false;
      EnsureLoaded();
      NotCounted(State(), s);
      if !hasLast {
        hasLast, lastTime := true, s.timestamp;
        return;
      }
      if s.timestamp <= lastTime {
        lastTime := s.timestamp;
        return;
      }
      var deltaSec := s.timestamp - lastTime;
      if deltaSec > 5 {
        lastTime := s.timestamp;
        return;
      }
      Move(s, deltaSec);
      tried := SaveIfMoved();
    }

    /** Add the distance of an interval that counts. Between this and the save the store may be out of date. */
    method Move(s: Sample, deltaSec: nat)
      requires Valid() && loaded && IsSample(s) && Counts(State(), s) && deltaSec == s.timestamp - lastTime
      modifies this`lastTime, this`acc, this`km, this`m, this`total
      ensures State() == Advance(old(State()), s) && total == old(total) + Distance(old(State()), s)
      ensures m < 1000 && InRange(State()) && Exact(State()) % LIMIT == total % LIMIT
    {
      hide Load, Km, Metres, Advance, Exact, Distance, NotAhead, UpToDate;
      ghost var before := State();
      TotalFollows(before, s, total);
      CounterArithmetic(before, s);
      lastTime := s.timestamp;
      acc := (acc + s.speed * deltaSec) % TWO_32;
      var addM := acc / 36;
      acc := acc % 36;
      var totalM := m + addM;
      km := (km + totalM / 1000) % TWO_32;
      m := totalM % 1000;
      total := total + Distance(before, s);
    }

    /** Save when the kilometre count has moved; a failed save leaves the count of the last good one in place. */
    method SaveIfMoved() returns (ghost tried: bool)
      requires store.chip.Valid() && InRange(State()) && savedKm < TWO_32 && loaded && m < 1000
      requires Exact(State()) % LIMIT == total % LIMIT && Pending(savedKm, failed, total)
      requires (grounded ==> synced) && (synced ==> NotAhead(Load(Mileage, store.chip.mem), total))
      requires !failed ==> KILOMETRE * savedKm <= Reloaded(Load(Mileage, store.chip.mem))
      modifies this`savedKm, this`failed, this`synced, store.chip
      ensures Valid() && tried == (km != old(savedKm))
      ensures tried ==>
                var r := SaveVia(old(store.chip.bus), Mileage);
                && failed == !r.ok && store.chip.bus == r.bus
                && store.chip.mem == Stored(Mileage, old(store.chip.mem), Image(km, m), r.n)
      ensures !tried ==> failed == old(failed) && store.chip.mem == old(store.chip.mem) && store.chip.bus == old(store.chip.bus)
      ensures old(failed) && total < LIMIT ==> tried
      ensures synced == (old(synced) || (tried && !failed))
    {
      hide Load, Km, Metres, Stored, SaveVia, ToLe32, ToLe16, Default, Cut, Counts;
      KilometresDriven(State(), total);
      tried := false;
      if (km - savedKm) % TWO_32 >= 1 {
        tried := true;
        var v := ToLe32(km) + ToLe16(m) + [0, 0];
        ImageRoundTrip(km, m);
        NowIsNotAhead(State(), total);
        ghost var before, n := store.chip.mem, SaveVia(store.chip.bus, Mileage).n;
        var ok := store.SaveRecord(Mileage, v);
        InterruptedSave(Mileage, before, v, n);
        if ok {
          savedKm, synced := km, true;
        }
        failed := !ok;
      }
    }
  }

  lemma KilometresDriven(o: Odo, total: nat)
    requires InRange(o) && o.m < 1000 && Exact(o) % LIMIT == total % LIMIT
    ensures total < LIMIT ==> KILOMETRE * o.km <= total < KILOMETRE * (o.km + 1)
  {
    assert Exact(o) < LIMIT;
  }

  lemma TotalFollows(o: Odo, s: Sample, total: nat)
    requires InRange(o) && IsSample(s) && Counts(o, s) && Exact(o) % LIMIT == total % LIMIT
    ensures Advance(o, s).m < 1000
    ensures Exact(Advance(o, s)) % LIMIT == (total + Distance(o, s)) % LIMIT
  {
    hide Advance, Exact, Distance;
    AdvanceConserves(o, s);
    ModuloSum(Exact(o), Distance(o, s));
    ModuloSum(total, Distance(o, s));
    ModuloSum(Exact(o) + Distance(o, s), 0);
  }

  /** The 32-bit accumulator of the source never overflows. */
  lemma CounterArithmetic(o: Odo, s: Sample)
    requires InRange(o) && IsSample(s) && Counts(o, s)
    ensures var sum := (o.acc + s.speed * (s.timestamp - o.lastTime)) % TWO_32;
            Advance(o, s) == Odo(true, s.timestamp, (o.km + (o.m + sum / 36) / 1000) % TWO_32,
                                 (o.m + sum / 36) % 1000, sum % 36)
  {
    var d := s.timestamp - o.lastTime;
    SmallProduct(s.speed, d);
    SmallIsUnchanged(o.acc + s.speed * d);
    assert Distance(o, s) == s.speed * d;
  }

  lemma SmallProduct(speed: nat, d: nat)
    requires speed < 0x1_0000 && d <= 5
    ensures speed * d <= 5 * 0xFFFF
  {
  }

  lemma SmallIsUnchanged(x: nat)
    requires x < TWO_32
    ensures x % TWO_32 == x
  {
  }

  lemma NowIsNotAhead(o: Odo, total: nat)
    requires InRange(o) && o.m < 1000 && Exact(o) % LIMIT == total % LIMIT
    ensures NotAhead(Image(o.km, o.m), total)
  {
    hide Image, Km, Metres;
    ImageRoundTrip(o.km, o.m);
    assert Exact(o) < LIMIT;
  }
}
