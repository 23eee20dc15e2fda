/**
  The configuration block that periodic status frames carry. It is cached in RAM and rebuilt from the EEPROM
  after every setting that was saved.
 */
module StatusCaches {
  import opened Bytes
  import opened CrcRegister
  import opened Frames
  import opened Checksums
  import opened Eeproms
  import opened Records
  import opened StoreTheory
  import opened SaveTheory
  import opened Storage

  /** UTF-8 of the 31 province characters on a plate. */
  const PLATE_PROVINCES: seq<seq<Byte>> := [
    [0xE4, 0xBA, 0xAC], [0xE6, 0xB4, 0xA5], [0xE6, 0xB2, 0xAA], [0xE6, 0xB8, 0x9D],
    [0xE5, 0x86, 0x80], [0xE8, 0xB1, 0xAB], [0xE4, 0xBA, 0x91], [0xE8, 0xBE, 0xBD],
    [0xE9, 0xBB, 0x91], [0xE6, 0xB9, 0x98], [0xE7, 0x9A, 0x96], [0xE9, 0xB2, 0x81],
    [0xE6, 0x96, 0xB0], [0xE8, 0x8B, 0x8F], [0xE6, 0xB5, 0x99], [0xE8, 0xB5, 0xA3],
    [0xE9, 0x84, 0x82], [0xE6, 0xA1, 0x82], [0xE7, 0x94, 0x98], [0xE6, 0x99, 0x8B],
    [0xE8, 0x92, 0x99], [0xE9, 0x99, 0x95], [0xE5, 0x90, 0x89], [0xE9, 0x97, 0xBD],
    [0xE8, 0xB4, 0xB5], [0xE7, 0xB2, 0xA4], [0xE9, 0x9D, 0x92], [0xE8, 0x97, 0x8F],
    [0xE5, 0xB7, 0x9D], [0xE5, 0xAE, 0x81], [0xE7, 0x90, 0xBC]]

  const BLOCK_LEN := 46
  const STATUS_LEN := 55
  const UNSET_PHONE: seq<Byte> := [0x30, 0x30, 0x30, 0x30, 0x30, 0x30, 0x30, 0x30, 0x30, 0x30, 0x30]

  function Flag(on: bool, bit: Byte): Byte {
    if on then bit else 0
  }

  function ValidFlags(config: seq<Byte>, vin: seq<Byte>, province: seq<Byte>, city: seq<Byte>): Byte
    requires |config| == 23 && |vin| == 19 && |province| == 4 && |city| == 6
  {
    Flag(config[..11] != UNSET_PHONE, 1) | Flag(config[14] == 1, 2) | Flag(vin[0] == 1, 4) |
    Flag(province[0] == 1, 8) | Flag(city[0] == 1, 16)
  }

  function ProvinceName(index: Byte): (s: seq<Byte>)
    ensures |s| == 3
  {
    if index < 31 then PLATE_PROVINCES[index] else [0, 0, 0]
  }

  /** flags, phone, class, colour, province character, letter, five plate characters, VIN, province, city. */
  function Block(config: seq<Byte>, vin: seq<Byte>, province: seq<Byte>, city: seq<Byte>): (b: seq<Byte>)
    requires |config| == 23 && |vin| == 19 && |province| == 4 && |city| == 6
    ensures |b| == BLOCK_LEN
  {
    [ValidFlags(config, vin, province, city)] + config[..11] + [config[12], config[13]] +
    ProvinceName(config[15]) + [config[16]] + config[17..22] + vin[1..18] + province[1..3] + city[1..5]
  }

  /** The block that a reload of all records would give. */
  function BlockOf(mem: seq<Byte>): (b: seq<Byte>)
    requires |mem| == SIZE
    ensures |b| == BLOCK_LEN
  {
    Block(Load(Config, mem), Load(Vin, mem), Load(Province, mem), Load(City, mem))
  }

  function AfterRefresh(b: Bus): (c: Bus)
    ensures SameBus(b, c)
  {
    b.AfterRead().AfterRead().AfterRead().AfterRead()
  }

  /** The block that a refresh builds on this bus: four loads, each of which may be refused. */
  function Refreshed(b: Bus, mem: seq<Byte>): (r: seq<Byte>)
    requires |mem| == SIZE
    ensures |r| == BLOCK_LEN
  {
    Block(Seen(b, Config, mem), Seen(b.AfterRead(), Vin, mem), Seen(b.AfterRead().AfterRead(), Province, mem),
          Seen(b.AfterRead().AfterRead().AfterRead(), City, mem))
  }

  /** Each of the four loads is carried, or its record has nothing but the defaults to show. */
  predicate AllShown(b: Bus, config: seq<Byte>, vin: seq<Byte>, province: seq<Byte>, city: seq<Byte>) {
    && ShowsStored(b, Config, config)
    && ShowsStored(b.AfterRead(), Vin, vin)
    && ShowsStored(b.AfterRead().AfterRead(), Province, province)
    && ShowsStored(b.AfterRead().AfterRead().AfterRead(), City, city)
  }

  /**
    When the cache survives the confirmation of a setting, in terms of the schedule, the old memory and the part:
    a save that reports failure must have left the record's value as it was, and after one that reports success
    every refused load must concern a record at its defaults.
   */
  predicate StaysCurrent(b: Bus, key: Key, part: seq<Byte>, mem: seq<Byte>)
    requires |mem| == SIZE
  {
    PartValid(key, part) ==>
      var a, k := TryField(b, key, part, mem), KindOf(key);
      if a.ok then
        AllShown(a.bus, if k.Config? then a.value else Load(Config, mem), if k.Vin? then a.value else Load(Vin, mem),
                 if k.Province? then a.value else Load(Province, mem), if k.City? then a.value else Load(City, mem))
      else Left(k, mem, a.value, a.n) == Load(k, mem)
  }

  class StatusCache {
    const store: Store
    var block: seq<Byte>

    ghost predicate Valid()
      reads this, store.chip
    {
      store.chip.Valid() && |block| == BLOCK_LEN
    }

    /** The cache shows what is stored. */
    ghost predicate Agrees()
      reads this, store.chip
      requires Valid()
    {
      block == BlockOf(store.chip.mem)
    }

    /** Initialisation clears the block and fills it from the EEPROM. */
    constructor (store: Store)
      requires store.chip.Valid()
      modifies store.chip`bus
      ensures Valid() && this.store == store && store.chip.bus == AfterRefresh(old(store.chip.bus))
      ensures block == Refreshed(old(store.chip.bus), store.chip.mem)
      ensures var mem := store.chip.mem;
              Agrees() <==> AllShown(old(store.chip.bus), Load(Config, mem), Load(Vin, mem), Load(Province, mem), Load(City, mem))
    {
      this.store := store;
      block := Zeros(BLOCK_LEN);
      new;
      Refresh();
    }

    method Refresh()
      requires store.chip.Valid()
      modifies this, store.chip`bus
      ensures Valid() && store.chip.bus == AfterRefresh(old(store.chip.bus))
      ensures block == Refreshed(old(store.chip.bus), store.chip.mem)
      ensures var mem := store.chip.mem;
              Agrees() <==> AllShown(old(store.chip.bus), Load(Config, mem), Load(Vin, mem), Load(Province, mem), Load(City, mem))
    {
      hide Load, Block, FieldsValid, Seen, BlockOf, Bus.AfterRead, AllShown;
      RefreshAgreesIff(store.chip.bus, store.chip.mem);
      var _, config := store.LoadRecord(Config);
      var _, vin := store.LoadRecord(Vin);
      var _, province := store.LoadRecord(Province);
      var _, city := store.LoadRecord(City);
      block := Block(config, vin, province, city);
    }

    /** A settings page is confirmed: save, and refresh the cache only when the save reports success. */
    method ConfirmSetting(key: Key, part: seq<Byte>) returns (ok: bool)
      requires Valid() && key != KMileage
      modifies this, store.chip
      ensures Valid() && store.chip.mem == After(old(store.chip.bus), key, part, old(store.chip.mem))
      ensures !PartValid(key, part) ==> !ok && block == old(block) && store.chip.bus == old(store.chip.bus)
      ensures PartValid(key, part) ==>
                var a := TryField(old(store.chip.bus), key, part, old(store.chip.mem));
                && ok == a.ok
                && store.chip.bus == (if ok then AfterRefresh(a.bus) else a.bus)
                && block == if ok then Refreshed(a.bus, store.chip.mem) else old(block)
      ensures old(Agrees()) ==> (Agrees() <==> StaysCurrent(old(store.chip.bus), key, part, old(store.chip.mem)))
      ensures Load(Mileage, store.chip.mem) == Load(Mileage, old(store.chip.mem))
    {
      hide BlockOf, PartValid, TryField, After, Load, AllShown, Left, AfterRefresh, Refreshed;
      if PartValid(key, part) {
        LoadAfterField(store.chip.bus, key, part, store.chip.mem, Mileage);
        SettledAgreesIff(store.chip.bus, key, part, store.chip.mem);
      } else {
        RejectedChangesNothing(store.chip.bus, key, part, store.chip.mem);
      }
      ok := store.SaveField(key, part);
      if ok {
        Refresh();
      }
    }

    /** The odometer saves without touching the cache, which does not show the mileage. */
    method SaveMileage(v: seq<Byte>) returns (ok: bool)
      requires Valid() && |v| == FieldLen(Mileage)
      modifies store.chip
      ensures Valid()
      ensures Agrees() <==> old(Agrees())
      ensures ok ==> Load(Mileage, store.chip.mem) == v
    {
      hide Load, Stored, Block;
      ghost var before, n := store.chip.mem, SaveVia(store.chip.bus, Mileage).n;
      ok := store.SaveRecord(Mileage, v);
      OthersUntouched(Mileage, before, v, n, Config);
      OthersUntouched(Mileage, before, v, n, Vin);
      OthersUntouched(Mileage, before, v, n, Province);
      OthersUntouched(Mileage, before, v, n, City);
    }

    /** The status frame, written in place when the buffer is large enough; it carries the cached block. */
    method BuildStatusFrame(version: seq<Byte>, inputs: seq<Byte>, region: nat, buf: array<Byte>) returns (n: nat)
      requires Valid() && |version| == 3 && |inputs| == 2 && region < TWO_32
      modifies buf
      ensures buf.Length < STATUS_LEN + MIN_FRAME ==> n == 0 && buf[..] == old(buf[..])
      ensures buf.Length >= STATUS_LEN + MIN_FRAME ==>
                && n == STATUS_LEN + MIN_FRAME
                && buf[..n] == Encode(TYPE_MCU_VERSION, version + inputs + ToLe32(region) + block)
      ensures forall i :: n <= i < buf.Length ==> buf[i] == old(buf[i])
    {
      hide Crc, LowOctet, HighOctet, ToLe32;
      if buf.Length < STATUS_LEN + MIN_FRAME {
        return 0;
      }
      var status := version + inputs + ToLe32(region) + block;
      var crc := Crc16(status);
      var frame := [HEAD, (STATUS_LEN + MIN_FRAME) as Byte, TYPE_MCU_VERSION] + status +
                   [LowOctet(crc), HighOctet(crc), TAIL];
      n := |frame|;
      for i := 0 to n
        invariant forall j :: 0 <= j < i ==> buf[j] == frame[j]
        invariant forall j :: n <= j < buf.Length ==> buf[j] == old(buf[j])
      {
        buf[i] := frame[i];
      }
      assert buf[..n] == frame;
    }
  }

  /** Where each field is found in the block. */
  lemma BlockLayout(config: seq<Byte>, vin: seq<Byte>, province: seq<Byte>, city: seq<Byte>)
    requires |config| == 23 && |vin| == 19 && |province| == 4 && |city| == 6
    ensures var b := Block(config, vin, province, city);
            && b[0] == ValidFlags(config, vin, province, city)
            && b[1..12] == config[..11] && b[12] == config[12] && b[13] == config[13]
            && b[14..17] == ProvinceName(config[15]) && b[17] == config[16] && b[18..23] == config[17..22]
            && b[23..40] == vin[1..18] && b[40..42] == province[1..3] && b[42..46] == city[1..5]
  {
    hide ValidFlags, ProvinceName;
  }

  /** Each flag tells whether its setting has been made. */
  lemma FlagsTell(config: seq<Byte>, vin: seq<Byte>, province: seq<Byte>, city: seq<Byte>)
    requires |config| == 23 && |vin| == 19 && |province| == 4 && |city| == 6
    ensures var f := ValidFlags(config, vin, province, city);
            && (f & 1 != 0 <==> config[..11] != UNSET_PHONE) && (f & 2 != 0 <==> config[14] == 1)
            && (f & 4 != 0 <==> vin[0] == 1) && (f & 8 != 0 <==> province[0] == 1) && (f & 16 != 0 <==> city[0] == 1)
  {
    FlagBits(config[..11] != UNSET_PHONE, config[14] == 1, vin[0] == 1, province[0] == 1, city[0] == 1);
  }

  lemma FlagBits(a: bool, b: bool, c: bool, d: bool, e: bool)
    ensures var f := Flag(a, 1) | Flag(b, 2) | Flag(c, 4) | Flag(d, 8) | Flag(e, 16);
            (f & 1 != 0 <==> a) && (f & 2 != 0 <==> b) && (f & 4 != 0 <==> c) && (f & 8 != 0 <==> d) && (f & 16 != 0 <==> e)
  {
  }

  // ---------- The block tells the records apart ----------

  lemma ProvinceNamesDiffer(i: nat, j: nat)
    requires i < j < 31
    ensures PLATE_PROVINCES[i] != PLATE_PROVINCES[j]
  {
  }

  lemma SameProvince(i: nat, j: nat)
    requires i < 31 && j < 31 && PLATE_PROVINCES[i] == PLATE_PROVINCES[j]
    ensures i == j
  {
    hide PLATE_PROVINCES;
    if i < j {
      ProvinceNamesDiffer(i, j);
    } else if j < i {
      ProvinceNamesDiffer(j, i);
    }
  }

  /** The configuration octets of the block leave nothing of a valid configuration open. */
  lemma ConfigIsTold(c: seq<Byte>, d: seq<Byte>)
    requires |c| == |d| == 23 && ConfigValid(c) && ConfigValid(d)
    requires c[..11] == d[..11] && c[12] == d[12] && c[13] == d[13] && (c[14] == 1 <==> d[14] == 1)
    requires ProvinceName(c[15]) == ProvinceName(d[15]) && c[16] == d[16] && c[17..22] == d[17..22]
    ensures c == d
  {
    hide AllDigits, AllPlateChars;
    assert c[11] == c[..12][11] == 0 && d[11] == d[..12][11] == 0;
    PlateRest(c);
    PlateRest(d);
    SameProvince(c[15] as nat, d[15] as nat);
    OctetInjective(c[15], d[15]);
    assert c == c[..11] + [c[11], c[12], c[13], c[14], c[15], c[16]] + c[17..22] + [c[22]];
    assert d == d[..11] + [d[11], d[12], d[13], d[14], d[15], d[16]] + d[17..22] + [d[22]];
  }

  lemma PlateRest(c: seq<Byte>)
    requires |c| == 23 && PlateValid(c[14..])
    ensures c[14] <= 1 && c[15] < 31 && c[22] == 0
  {
    assert c[14..][0] == c[14] && c[14..][1] == c[15] && c[14..][8] == c[22];
  }

  /** VIN, province and city: a flag, the characters and a terminator. */
  lemma CodeIsTold(v: seq<Byte>, w: seq<Byte>)
    requires |v| == |w| >= 2 && v[0] <= 1 && w[0] <= 1 && v[|v| - 1] == 0 && w[|w| - 1] == 0
    requires (v[0] == 1 <==> w[0] == 1) && v[1..|v| - 1] == w[1..|w| - 1]
    ensures v == w
  {
    assert v == [v[0]] + v[1..|v| - 1] + [v[|v| - 1]];
    assert w == [w[0]] + w[1..|w| - 1] + [w[|w| - 1]];
  }

  ghost predicate AllValid(config: seq<Byte>, vin: seq<Byte>, province: seq<Byte>, city: seq<Byte>) {
    && |config| == 23 && |vin| == 19 && |province| == 4 && |city| == 6
    && FieldsValid(Config, config) && FieldsValid(Vin, vin) && FieldsValid(Province, province) && FieldsValid(City, city)
  }

  /** Records that pass their checks can be read back from the block: different records give different blocks. */
  lemma BlockTellsAll(c: seq<Byte>, v: seq<Byte>, p: seq<Byte>, y: seq<Byte>,
                      c': seq<Byte>, v': seq<Byte>, p': seq<Byte>, y': seq<Byte>)
    requires AllValid(c, v, p, y) && AllValid(c', v', p', y')
    ensures Block(c, v, p, y) == Block(c', v', p', y') <==> c == c' && v == v' && p == p' && y == y'
  {
    hide Block, ValidFlags, ProvinceName, AllDigits, AllPlateChars, ConfigValid;
    if Block(c, v, p, y) == Block(c', v', p', y') {
      BlockLayout(c, v, p, y);
      BlockLayout(c', v', p', y');
      FlagsTell(c, v, p, y);
      FlagsTell(c', v', p', y');
      ConfigIsTold(c, c');
      CodeIsTold(v, v');
      CodeIsTold(p, p');
      CodeIsTold(y, y');
    }
  }

  lemma LoadsValid(mem: seq<Byte>)
    requires |mem| == SIZE
    ensures AllValid(Load(Config, mem), Load(Vin, mem), Load(Province, mem), Load(City, mem))
  {
    hide FieldsValid, Load;
    LoadedIsValid(Config, mem);
    LoadedIsValid(Vin, mem);
    LoadedIsValid(Province, mem);
    LoadedIsValid(City, mem);
  }

  /** A refresh shows what is stored exactly when every refused load concerns a record at its defaults. */
  lemma RefreshAgreesIff(b: Bus, mem: seq<Byte>)
    requires |mem| == SIZE
    ensures Refreshed(b, mem) == BlockOf(mem) <==>
            AllShown(b, Load(Config, mem), Load(Vin, mem), Load(Province, mem), Load(City, mem))
  {
    hide FieldsValid, Load, Block, Bus.AfterRead, Bus.CarriesRead, Default;
    LoadsValid(mem);
    SeenIsValid(b, Config, mem);
    SeenIsValid(b.AfterRead(), Vin, mem);
    SeenIsValid(b.AfterRead().AfterRead(), Province, mem);
    SeenIsValid(b.AfterRead().AfterRead().AfterRead(), City, mem);
    BlockTellsAll(Seen(b, Config, mem), Seen(b.AfterRead(), Vin, mem), Seen(b.AfterRead().AfterRead(), Province, mem),
                  Seen(b.AfterRead().AfterRead().AfterRead(), City, mem),
                  Load(Config, mem), Load(Vin, mem), Load(Province, mem), Load(City, mem));
  }

  // ---------- When the cache survives a save ----------

  lemma RejectedChangesNothing(b: Bus, key: Key, part: seq<Byte>, mem: seq<Byte>)
    requires |mem| == SIZE && !PartValid(key, part)
    ensures After(b, key, part, mem) == mem && StaysCurrent(b, key, part, mem)
  {
    hide PartValid;
  }

  /** The cache as the save left it, and refreshed if the save reported success, against the memory afterwards. */
  lemma SettledAgreesIff(b: Bus, key: Key, part: seq<Byte>, mem: seq<Byte>)
    requires |mem| == SIZE && PartValid(key, part) && key != KMileage
    ensures var a, after := TryField(b, key, part, mem), After(b, key, part, mem);
            StaysCurrent(b, key, part, mem) <==>
            if a.ok then AllShown(a.bus, Load(Config, after), Load(Vin, after), Load(Province, after), Load(City, after))
            else BlockOf(mem) == BlockOf(after)
  {
    hide PartValid, FieldsValid, Load, Block, TryField, After, Left, AllShown;
    LoadAfterField(b, key, part, mem, Config);
    LoadAfterField(b, key, part, mem, Vin);
    LoadAfterField(b, key, part, mem, Province);
    LoadAfterField(b, key, part, mem, City);
    var a, after := TryField(b, key, part, mem), After(b, key, part, mem);
    if a.ok {
      CompleteIsNew(KindOf(key), mem, a.value);
    } else {
      LoadsValid(mem);
      LoadsValid(after);
      BlockTellsAll(Load(Config, mem), Load(Vin, mem), Load(Province, mem), Load(City, mem),
                    Load(Config, after), Load(Vin, after), Load(Province, after), Load(City, after));
    }
  }

  /** On a bus that refuses nothing every confirmation leaves the cache current. */
  lemma HealthyStaysCurrent(b: Bus, key: Key, part: seq<Byte>, mem: seq<Byte>)
    requires |mem| == SIZE && b.Healthy()
    ensures StaysCurrent(b, key, part, mem)
  {
    hide PartValid, TryField, Load, Default, After, Left, AllShown, Bus.Healthy;
    if PartValid(key, part) {
      HealthyIsPut(b, key, part, mem);
      HealthyShows(TryField(b, key, part, mem).bus);
    }
  }

  lemma HealthyShows(b: Bus)
    requires b.Healthy()
    ensures forall c, v, p, y :: AllShown(b, c, v, p, y)
  {
  }

  lemma CompleteIsNew(k: Kind, mem: seq<Byte>, v: seq<Byte>)
    requires |mem| == SIZE && |v| == FieldLen(k)
    ensures Left(k, mem, v, RecordLen(k)) == v
  {
    hide Load, Default;
  }
}
