/**
  Whole runs against the store: any sequence of confirmed settings and mileage saves, on a bus that may refuse any
  of its transfers.
 */
module StoreRuns {
  import opened Bytes
  import opened Eeproms
  import opened Records
  import opened StoreTheory
  import opened SaveTheory
  import opened StatusCaches

  /** What reaches the store: the confirmation of a settings page, or a save by the odometer. */
  datatype Op = Confirm(key: Key, part: seq<Byte>) | Drive(v: seq<Byte>)

  predicate IsOp(op: Op) {
    match op
    case Confirm(key, _) => key != KMileage
    case Drive(v) => |v| == FieldLen(Mileage)
  }

  predicate AreOps(ops: seq<Op>) {
    forall op <- ops :: IsOp(op)
  }

  /** The bus, the memory and the cached block. */
  datatype Device = Device(bus: Bus, mem: seq<Byte>, block: seq<Byte>)

  function Confirmed(d: Device, key: Key, part: seq<Byte>): (r: Device)
    requires |d.mem| == SIZE
    ensures |r.mem| == SIZE && SameBus(d.bus, r.bus)
  {
    if !PartValid(key, part) then d
    else
      var a, mem := TryField(d.bus, key, part, d.mem), After(d.bus, key, part, d.mem);
      if a.ok then Device(AfterRefresh(a.bus), mem, Refreshed(a.bus, mem)) else Device(a.bus, mem, d.block)
  }

  function Driven(d: Device, v: seq<Byte>): (r: Device)
    requires |d.mem| == SIZE && |v| == FieldLen(Mileage)
    ensures |r.mem| == SIZE && SameBus(d.bus, r.bus)
  {
    var saving := SaveVia(d.bus, Mileage);
    Device(saving.bus, Stored(Mileage, d.mem, v, saving.n), d.block)
  }

  function Apply(d: Device, op: Op): (r: Device)
    requires |d.mem| == SIZE && IsOp(op)
    ensures |r.mem| == SIZE && SameBus(d.bus, r.bus)
  {
    match op
    case Confirm(key, part) => Confirmed(d, key, part)
    case Drive(v) => Driven(d, v)
  }

  function ApplyAll(d: Device, ops: seq<Op>): (r: Device)
    requires |d.mem| == SIZE && AreOps(ops)
    ensures |r.mem| == SIZE && SameBus(d.bus, r.bus)
    decreases |ops|
  {
    if ops == [] then d else ApplyAll(Apply(d, ops[0]), ops[1..])
  }

  lemma {:induction false} ApplyAllConcat(d: Device, a: seq<Op>, b: seq<Op>)
    requires |d.mem| == SIZE && AreOps(a) && AreOps(b)
    ensures AreOps(a + b) && ApplyAll(d, a + b) == ApplyAll(ApplyAll(d, a), b)
    decreases |a|
  {
    hide Apply;
    if a == [] {
      assert a + b == b;
    } else {
      assert (a + b)[1..] == a[1..] + b;
      ApplyAllConcat(Apply(d, a[0]), a[1..], b);
    }
  }

  // ---------- When the cache agrees ----------

  predicate Current(d: Device)
    requires |d.mem| == SIZE
  {
    d.block == BlockOf(d.mem)
  }

  /** What an operation must meet to leave a cache that is current so; a mileage save always does. */
  predicate Keeps(d: Device, op: Op)
    requires |d.mem| == SIZE
  {
    op.Confirm? ==> StaysCurrent(d.bus, op.key, op.part, d.mem)
  }

  lemma ConfirmedCurrentIff(d: Device, key: Key, part: seq<Byte>)
    requires |d.mem| == SIZE && key != KMileage && Current(d)
    ensures Current(Confirmed(d, key, part)) <==> StaysCurrent(d.bus, key, part, d.mem)
  {
    hide BlockOf, PartValid, TryField, After, Load, AllShown, Left, AfterRefresh, Refreshed, StaysCurrent;
    if PartValid(key, part) {
      SettledAgreesIff(d.bus, key, part, d.mem);
      RefreshAgreesIff(TryField(d.bus, key, part, d.mem).bus, After(d.bus, key, part, d.mem));
    } else {
      RejectedChangesNothing(d.bus, key, part, d.mem);
    }
  }

  lemma DrivenSparesShown(d: Device, v: seq<Byte>)
    requires |d.mem| == SIZE && |v| == FieldLen(Mileage)
    ensures BlockOf(Driven(d, v).mem) == BlockOf(d.mem)
  {
    hide Load, Stored, Block, SaveVia;
    var n := SaveVia(d.bus, Mileage).n;
    OthersUntouched(Mileage, d.mem, v, n, Config);
    OthersUntouched(Mileage, d.mem, v, n, Vin);
    OthersUntouched(Mileage, d.mem, v, n, Province);
    OthersUntouched(Mileage, d.mem, v, n, City);
  }

  lemma ApplyCurrentIff(d: Device, op: Op)
    requires |d.mem| == SIZE && IsOp(op) && Current(d)
    ensures Current(Apply(d, op)) <==> Keeps(d, op)
  {
    hide BlockOf, Confirmed, StaysCurrent;
    match op
    case Confirm(key, part) => ConfirmedCurrentIff(d, key, part);
    case Drive(v) => DrivenSparesShown(d, v);
  }

  predicate AlwaysCurrent(d: Device, ops: seq<Op>)
    requires |d.mem| == SIZE && AreOps(ops)
    decreases |ops|
  {
    Current(d) && (ops == [] || AlwaysCurrent(Apply(d, ops[0]), ops[1..]))
  }

  predicate AllKeep(d: Device, ops: seq<Op>)
    requires |d.mem| == SIZE && AreOps(ops)
    decreases |ops|
  {
    ops == [] || (Keeps(d, ops[0]) && AllKeep(Apply(d, ops[0]), ops[1..]))
  }

  /** Over a whole run the cache is current at every moment exactly when each operation, where it stands, keeps it so. */
  lemma {:induction false} AlwaysCurrentIff(d: Device, ops: seq<Op>)
    requires |d.mem| == SIZE && AreOps(ops) && Current(d)
    ensures AlwaysCurrent(d, ops) <==> AllKeep(d, ops)
    ensures AlwaysCurrent(d, ops) ==> Current(ApplyAll(d, ops))
    decreases |ops|
  {
    hide Current, Keeps, Apply;
    if ops != [] {
      ApplyCurrentIff(d, ops[0]);
      if Current(Apply(d, ops[0])) {
        AlwaysCurrentIff(Apply(d, ops[0]), ops[1..]);
      } else {
        assert !AlwaysCurrent(Apply(d, ops[0]), ops[1..]);
      }
    }
  }

  /** On a bus that refuses nothing every operation keeps the cache current. */
  lemma {:induction false} HealthyAlwaysCurrent(d: Device, ops: seq<Op>)
    requires |d.mem| == SIZE && AreOps(ops) && d.bus.Healthy()
    ensures AllKeep(d, ops)
    decreases |ops|
  {
    hide StaysCurrent, Apply;
    if ops != [] {
      if ops[0].Confirm? {
        HealthyStaysCurrent(d.bus, ops[0].key, ops[0].part, d.mem);
      }
      HealthyAlwaysCurrent(Apply(d, ops[0]), ops[1..]);
    }
  }

  // ---------- When the cache agrees at the end ----------

  /** The four records that a block is made of. */
  datatype Picture = Picture(config: seq<Byte>, vin: seq<Byte>, province: seq<Byte>, city: seq<Byte>)

  ghost predicate IsPicture(p: Picture) {
    AllValid(p.config, p.vin, p.province, p.city)
  }

  function PictureOf(mem: seq<Byte>): Picture
    requires |mem| == SIZE
  {
    Picture(Load(Config, mem), Load(Vin, mem), Load(Province, mem), Load(City, mem))
  }

  /** What a refresh gets to see. */
  function SeenBy(b: Bus, mem: seq<Byte>): Picture
    requires |mem| == SIZE
  {
    Picture(Seen(b, Config, mem), Seen(b.AfterRead(), Vin, mem), Seen(b.AfterRead().AfterRead(), Province, mem),
            Seen(b.AfterRead().AfterRead().AfterRead(), City, mem))
  }

  lemma SeenByIsPicture(b: Bus, mem: seq<Byte>)
    requires |mem| == SIZE
    ensures IsPicture(SeenBy(b, mem)) && IsPicture(PictureOf(mem))
  {
    hide FieldsValid, Load, Seen, Bus.AfterRead;
    LoadsValid(mem);
    SeenIsValid(b, Config, mem);
    SeenIsValid(b.AfterRead(), Vin, mem);
    SeenIsValid(b.AfterRead().AfterRead(), Province, mem);
    SeenIsValid(b.AfterRead().AfterRead().AfterRead(), City, mem);
  }

  /** What the cache shows after an operation: a confirmation that succeeds refreshes it. */
  function SeenAfter(p: Picture, d: Device, op: Op): Picture
    requires |d.mem| == SIZE && IsOp(op)
  {
    if op.Confirm? && PartValid(op.key, op.part) && TryField(d.bus, op.key, op.part, d.mem).ok
    then SeenBy(TryField(d.bus, op.key, op.part, d.mem).bus, Apply(d, op).mem)
    else p
  }

  /** What the last refresh of a run saw, or `p` if there was none. */
  function LastSeen(p: Picture, d: Device, ops: seq<Op>): Picture
    requires |d.mem| == SIZE && AreOps(ops)
    decreases |ops|
  {
    if ops == [] then p else LastSeen(SeenAfter(p, d, ops[0]), Apply(d, ops[0]), ops[1..])
  }

  ghost predicate Shows(d: Device, p: Picture) {
    IsPicture(p) && d.block == Block(p.config, p.vin, p.province, p.city)
  }

  lemma ApplyShows(p: Picture, d: Device, op: Op)
    requires |d.mem| == SIZE && IsOp(op) && Shows(d, p)
    ensures Shows(Apply(d, op), SeenAfter(p, d, op))
  {
    hide Block, PartValid, TryField, After, AllValid, Stored, SaveVia, Seen;
    if op.Confirm? && PartValid(op.key, op.part) {
      SeenByIsPicture(TryField(d.bus, op.key, op.part, d.mem).bus, Apply(d, op).mem);
    }
  }

  lemma {:induction false} RunShows(p: Picture, d: Device, ops: seq<Op>)
    requires |d.mem| == SIZE && AreOps(ops) && Shows(d, p)
    ensures Shows(ApplyAll(d, ops), LastSeen(p, d, ops))
    decreases |ops|
  {
    hide Shows, Apply, SeenAfter;
    if ops != [] {
      ApplyShows(p, d, ops[0]);
      RunShows(SeenAfter(p, d, ops[0]), Apply(d, ops[0]), ops[1..]);
    }
  }

  /**
    For every schedule of refusals and every run: at its end the cache agrees with the memory exactly when the
    records that the last refresh saw are those that a load would yield now.
   */
  lemma CurrentAtEndIff(p: Picture, d: Device, ops: seq<Op>)
    requires |d.mem| == SIZE && AreOps(ops) && Shows(d, p)
    ensures Current(ApplyAll(d, ops)) <==> LastSeen(p, d, ops) == PictureOf(ApplyAll(d, ops).mem)
  {
    hide ApplyAll, LastSeen, Block, Load, AllValid;
    var e, q := ApplyAll(d, ops), LastSeen(p, d, ops);
    var r := PictureOf(e.mem);
    RunShows(p, d, ops);
    LoadsValid(e.mem);
    BlockTellsAll(q.config, q.vin, q.province, q.city, r.config, r.vin, r.province, r.city);
  }

  // ---------- Without refusals ----------

  function AsSave(op: Op): Save {
    match op
    case Confirm(key, part) => Save(key, part)
    case Drive(v) => Save(KMileage, v)
  }

  function AsSaves(ops: seq<Op>): (r: seq<Save>)
    ensures |r| == |ops| && forall i :: 0 <= i < |r| ==> r[i] == AsSave(ops[i])
  {
    seq(|ops|, i requires 0 <= i < |ops| => AsSave(ops[i]))
  }

  lemma HealthyDriveIsPut(d: Device, v: seq<Byte>)
    requires |d.mem| == SIZE && |v| == FieldLen(Mileage) && d.bus.Healthy()
    ensures Driven(d, v).mem == Put(KMileage, v, d.mem)
  {
    hide Load, Stored, SaveVia;
    SaveTakes(d.bus, Mileage);
    assert Set(KMileage, Load(Mileage, d.mem), v) == v;
  }

  lemma HealthyApplyIsPut(d: Device, op: Op)
    requires |d.mem| == SIZE && IsOp(op) && d.bus.Healthy()
    ensures Apply(d, op).mem == Put(AsSave(op).key, AsSave(op).part, d.mem)
  {
    hide PartValid, Put, TryField, After, AfterRefresh, Refreshed, Driven;
    match op
    case Confirm(key, part) =>
      if PartValid(key, part) {
        HealthyIsPut(d.bus, key, part, d.mem);
      } else {
        PutRejects(key, part, d.mem);
      }
    case Drive(v) => HealthyDriveIsPut(d, v);
  }

  lemma {:induction false} PutAllFirst(first: Save, rest: seq<Save>, mem: seq<Byte>)
    requires |mem| == SIZE
    ensures PutAll([first] + rest, mem) == PutAll(rest, Put(first.key, first.part, mem))
    decreases |rest|
  {
    hide Put;
    if rest == [] {
      assert [first] + rest == [first] && [first][..0] == [];
    } else {
      var n := |rest| - 1;
      assert ([first] + rest)[..n + 1] == [first] + rest[..n];
      PutAllFirst(first, rest[..n], mem);
    }
  }

  /** On a bus that refuses nothing a run is the sequence of map updates, so for every key the last one written counts. */
  lemma {:induction false} HealthyRunIsMap(d: Device, ops: seq<Op>, key: Key)
    requires |d.mem| == SIZE && AreOps(ops) && d.bus.Healthy()
    ensures ApplyAll(d, ops).mem == PutAll(AsSaves(ops), d.mem)
    ensures Read(key, ApplyAll(d, ops).mem) == LastWritten(AsSaves(ops), key, Read(key, d.mem))
    decreases |ops|
  {
    hide Apply, Put, Read;
    LastWriterWins(AsSaves(ops), d.mem, key);
    if ops != [] {
      HealthyApplyIsPut(d, ops[0]);
      HealthyRunIsMap(Apply(d, ops[0]), ops[1..], key);
      assert AsSaves(ops) == [AsSave(ops[0])] + AsSaves(ops[1..]);
      PutAllFirst(AsSave(ops[0]), AsSaves(ops[1..]), d.mem);
    }
  }

  // ---------- The settings of a run ----------

  function SettingsIn(ops: seq<Op>): seq<Save> {
    if ops == [] then []
    else
      var n := |ops| - 1;
      SettingsIn(ops[..n]) + if ops[n].Confirm? then [Save(ops[n].key, ops[n].part)] else []
  }

  lemma {:induction false} SettingsInConcat(a: seq<Op>, b: seq<Op>)
    ensures SettingsIn(a + b) == SettingsIn(a) + SettingsIn(b)
    decreases |b|
  {
    if b == [] {
      assert a + b == a;
    } else {
      var n := |b| - 1;
      assert (a + b)[..|a + b| - 1] == a + b[..n];
      SettingsInConcat(a, b[..n]);
    }
  }

  /** The odometer's saves do not bear on any other key. */
  lemma {:induction false} MileageAside(ops: seq<Op>, key: Key, initial: seq<Byte>)
    requires key != KMileage
    ensures LastWritten(AsSaves(ops), key, initial) == LastWritten(SettingsIn(ops), key, initial)
  {
    hide PartValid;
    if ops != [] {
      var n := |ops| - 1;
      MileageAside(ops[..n], key, initial);
      assert AsSaves(ops)[..n] == AsSaves(ops[..n]);
      if ops[n].Confirm? {
        assert SettingsIn(ops)[..|SettingsIn(ops)| - 1] == SettingsIn(ops[..n]);
      } else {
        assert SettingsIn(ops) == SettingsIn(ops[..n]);
      }
    }
  }

  lemma {:induction false} NoSettings(ops: seq<Op>)
    requires SettingsIn(ops) == []
    ensures forall op <- ops :: op.Drive?
  {
    if ops != [] {
      NoSettings(ops[..|ops| - 1]);
      assert ops == ops[..|ops| - 1] + [ops[|ops| - 1]];
    }
  }

  /** A stretch without settings neither makes nor breaks the agreement. */
  lemma {:induction false} DrivingSparesCache(d: Device, ops: seq<Op>)
    requires |d.mem| == SIZE && AreOps(ops) && forall op <- ops :: op.Drive?
    ensures Current(ApplyAll(d, ops)) <==> Current(d)
    decreases |ops|
  {
    hide BlockOf, Driven;
    if ops != [] {
      assert IsOp(ops[0]);
      DrivenSparesShown(d, ops[0].v);
      DrivenKeepsBlock(d, ops[0].v);
      DrivingSparesCache(Driven(d, ops[0].v), ops[1..]);
    }
  }

  lemma DrivenKeepsBlock(d: Device, v: seq<Byte>)
    requires |d.mem| == SIZE && |v| == FieldLen(Mileage)
    ensures Driven(d, v).block == d.block
  {
  }

  lemma ApplyOne(d: Device, op: Op)
    requires |d.mem| == SIZE && IsOp(op)
    ensures AreOps([op]) && ApplyAll(d, [op]) == Apply(d, op)
    ensures SettingsIn([op]) == if op.Confirm? then [Save(op.key, op.part)] else []
  {
    hide Apply;
    assert [op][1..] == [] && [op][..0] == [];
    assert ApplyAll(Apply(d, op), []) == Apply(d, op);
  }
}
