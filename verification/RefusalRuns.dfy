/**
  Runs from power-up with a blank EEPROM in which the bus refuses a single transfer. Each reaches a state that
  the conditions in SaveTheory and StatusCaches exclude, so those conditions are not idle.
 */
module RefusalRuns {
  import opened Bytes
  import opened Eeproms
  import opened Records
  import opened StoreTheory
  import opened SaveTheory
  import opened Storage
  import opened StatusCaches
  import opened TextMessages
  import opened Odometers

  function Only(r: nat): nat -> bool {
    t => t == r
  }

  /** Transfer r is the only one refused, and c is the next one. */
  function Refusing(r: nat, c: nat): Bus {
    Bus(true, Only(r), c)
  }

  const ONES: seq<Byte> := [0x31, 0x31, 0x31, 0x31, 0x31, 0x31, 0x31, 0x31, 0x31, 0x31, 0x31, 0]
  const TWOS: seq<Byte> := [0x32, 0x32, 0x32, 0x32, 0x32, 0x32, 0x32, 0x32, 0x32, 0x32, 0x32, 0]
  const SOME_VIN: seq<Byte> := [
    1, 0x41, 0x41, 0x41, 0x41, 0x41, 0x41, 0x41, 0x41, 0x41, 0x41, 0x41, 0x41, 0x41, 0x41, 0x41, 0x41, 0x41, 0]

  function FirstConfig(): (v: seq<Byte>)
    ensures |v| == FieldLen(Config)
  {
    Set(KPhone, Default(Config), ONES)
  }

  lemma PartsAreValid()
    ensures PartValid(KPhone, ONES) && PartValid(KPhone, TWOS) && PartValid(KClass, [2]) && PartValid(KVin, SOME_VIN)
    ensures Get(KPhone, Default(Config))[0] == 0x30 && SOME_VIN != Default(Vin)
  {
    assert SOME_VIN[0] == 1;
  }

  lemma BlankIsDefault(k: Kind)
    ensures Load(k, Zeros(SIZE)) == Default(k)
  {
    hide Default, FieldsValid, Header;
    HeaderIsNotBlank(k);
    assert Raw(k, Zeros(SIZE))[..8] == Zeros(8);
  }

  lemma HeaderIsNotBlank(k: Kind)
    ensures Header(k) != Zeros(8)
  {
    hide ToLe32, FromLe32, ToLe16;
    assert Header(k)[..4] == ToLe32(Magic(k));
    assert Zeros(8)[..4] == Zeros(4);
    Le32RoundTrip(Magic(k));
    ZeroIsZero();
  }

  lemma ZeroIsZero()
    ensures FromLe32(Zeros(4)) == 0
  {
  }

  lemma ReadPasses(r: nat, c: nat)
    requires r < c || c + 1 < r
    ensures Refusing(r, c).CarriesRead() && Refusing(r, c).AfterRead() == Refusing(r, c + 2)
  {
  }

  lemma RefreshPasses(r: nat, c: nat)
    requires r < c || c + 7 < r
    ensures AfterRefresh(Refusing(r, c)) == Refusing(r, c + 8)
    ensures forall p, q, s, t :: AllShown(Refusing(r, c), p, q, s, t)
  {
    hide Refusing, Bus.CarriesRead, Bus.AfterRead;
    ReadPasses(r, c);
    ReadPasses(r, c + 2);
    ReadPasses(r, c + 4);
    ReadPasses(r, c + 6);
  }

  /** The bus is found at power-up. */
  method PowerUp(r: nat, mem: seq<Byte>) returns (chip: Eeprom)
    requires |mem| == SIZE
    ensures fresh(chip) && chip.Valid() && chip.mem == mem && chip.bus == Refusing(r, 0)
  {
    chip := new Eeprom(Bus(false, Only(r), 0), mem);
    var found := chip.Attach(true);
  }

  /** Power up on a blank EEPROM; initialisation takes transfers 0 to 7. */
  method Boot(r: nat) returns (cache: StatusCache)
    requires r >= 8
    ensures fresh(cache) && fresh(cache.store.chip) && cache.Valid() && cache.Agrees()
    ensures cache.store.chip.mem == Zeros(SIZE) && cache.store.chip.bus == Refusing(r, 8)
  {
    hide BlockOf, AllShown, AfterRefresh, Refreshed, Refusing, Load;
    RefreshPasses(r, 0);
    var chip := PowerUp(r, Zeros(SIZE));
    var store := new Store(chip);
    cache := new StatusCache(store);
  }

  lemma VinTakes(r: nat, c: nat, mem: seq<Byte>)
    requires |mem| == SIZE && r > c && PartValid(KVin, SOME_VIN)
    ensures var a := TryField(Refusing(r, c), KVin, SOME_VIN, mem);
            && a.n == RecordLen(Vin) && a.value == SOME_VIN && a.ok == (r != c + 1 && r != c + 2)
            && (a.ok ==> a.bus == Refusing(r, c + 3))
  {
    hide Load, PartValid, SaveVia;
    SaveTakes(Refusing(r, c), Vin);
    WholeRecord(KVin, Base(Refusing(r, c), KVin, mem), SOME_VIN);
  }

  /** The VIN is stored, its read-back is refused, the save reports failure and the cache is not refreshed. */
  method ReadBackRefused() returns (cache: StatusCache, ok: bool)
    ensures cache.Valid() && !ok && !cache.Agrees()
    ensures Load(Vin, cache.store.chip.mem) == SOME_VIN
  {
    hide BlockOf, Load, PartValid, TryField, After, Refusing, StatusCache.Agrees;
    PartsAreValid();
    BlankIsDefault(Vin);
    VinTakes(9, 8, Zeros(SIZE));
    LoadAfterField(Refusing(9, 8), KVin, SOME_VIN, Zeros(SIZE), Vin);
    cache := Boot(9);
    ok := cache.ConfirmSetting(KVin, SOME_VIN);
  }

  /** The VIN is saved with success, and then the refresh cannot read it: the cache shows that there is none. */
  method RefreshRefused() returns (cache: StatusCache, ok: bool)
    ensures cache.Valid() && ok && !cache.Agrees()
    ensures Load(Vin, cache.store.chip.mem) == SOME_VIN
  {
    hide BlockOf, Load, PartValid, TryField, After, StatusCache.Agrees, Left;
    PartsAreValid();
    VinTakes(13, 8, Zeros(SIZE));
    ReadPasses(13, 11);
    CompleteIsNew(Vin, Zeros(SIZE), SOME_VIN);
    LoadAfterField(Refusing(13, 8), KVin, SOME_VIN, Zeros(SIZE), Vin);
    cache := Boot(13);
    ok := cache.ConfirmSetting(KVin, SOME_VIN);
  }

  /** A configuration save takes a read, two pages and a read-back. */
  lemma ConfigTakes(r: nat, c: nat, key: Key, part: seq<Byte>, mem: seq<Byte>)
    requires |mem| == SIZE && KindOf(key).Config? && PartValid(key, part)
    ensures var a := TryField(Refusing(r, c), key, part, mem);
            && (r < c || r > c + 5 ==>
                 a.ok && a.bus == Refusing(r, c + 6) && a.value == Set(key, Load(Config, mem), part))
            && (r == c ==> a.ok && a.value == Set(key, Default(Config), part))
            && (r == c + 3 ==> !a.ok && a.n == PAGE && a.value == Set(key, Load(Config, mem), part))
  {
    hide Load, PartValid, SaveVia, Set, Default;
    var b := Refusing(r, c).AfterRead();
    assert b == Refusing(r, if r == c then c + 1 else c + 2);
    SaveTakes(b, Config);
  }

  lemma FirstPhoneStays(r: nat)
    requires r >= 22 && PartValid(KPhone, ONES)
    ensures var b, mem := Refusing(r, 8), Zeros(SIZE);
            && TryField(b, KPhone, ONES, mem).ok && StaysCurrent(b, KPhone, ONES, mem)
            && AfterRefresh(TryField(b, KPhone, ONES, mem).bus) == Refusing(r, 22)
            && Load(Config, After(b, KPhone, ONES, mem)) == FirstConfig()
  {
    hide Load, PartValid, TryField, After, Refusing, Left, AllShown, AfterRefresh, Set, Default;
    BlankIsDefault(Config);
    ConfigTakes(r, 8, KPhone, ONES, Zeros(SIZE));
    RefreshPasses(r, 14);
    LoadAfterField(Refusing(r, 8), KPhone, ONES, Zeros(SIZE), Config);
    CompleteIsNew(Config, Zeros(SIZE), FirstConfig());
  }

  /** A first phone number is saved, which takes transfers 8 to 21. */
  method FirstPhone(r: nat) returns (cache: StatusCache)
    requires r >= 22
    ensures fresh(cache) && fresh(cache.store.chip) && cache.Valid() && cache.Agrees()
    ensures cache.store.chip.bus == Refusing(r, 22)
    ensures Load(Config, cache.store.chip.mem) == FirstConfig()
  {
    hide Load, PartValid, TryField, After, Refusing, StatusCache.Agrees, StaysCurrent, AfterRefresh, Refreshed, FirstConfig;
    PartsAreValid();
    FirstPhoneStays(r);
    cache := Boot(r);
    var ok := cache.ConfirmSetting(KPhone, ONES);
  }

  lemma ThreePhones()
    ensures FirstConfig() != Default(Config) && FirstConfig() != Set(KPhone, FirstConfig(), TWOS)
  {
    var v := FirstConfig();
    assert v[0] == 0x31 && Default(Config)[0] == 0x30 && Set(KPhone, v, TWOS)[0] == 0x32;
  }

  /** The second page of a new phone number is refused: the old number stays cached but is no longer stored. */
  method SecondPageRefused() returns (cache: StatusCache, ok: bool)
    ensures cache.Valid() && !ok && !cache.Agrees()
  {
    hide BlockOf, Load, PartValid, TryField, After, Refusing, StatusCache.Agrees, Set, Default, OldTailFits;
    PartsAreValid();
    ThreePhones();
    cache := FirstPhone(25);
    ConfigTakes(25, 22, KPhone, TWOS, cache.store.chip.mem);
    ok := cache.ConfirmSetting(KPhone, TWOS);
  }

  /** The read before a class save is refused: the save succeeds and the phone number is gone. */
  method FieldReadRefused() returns (cache: StatusCache, ok: bool)
    ensures cache.Valid() && ok && Read(KClass, cache.store.chip.mem) == [2]
    ensures Read(KPhone, cache.store.chip.mem) == Get(KPhone, Default(Config)) != ONES
  {
    hide BlockOf, Load, PartValid, TryField, After, Refusing, StatusCache.Agrees, Set, Default, Left, Get;
    PartsAreValid();
    cache := FirstPhone(22);
    ghost var mem := cache.store.chip.mem;
    ConfigTakes(22, 22, KClass, [2], mem);
    LoadAfterField(Refusing(22, 22), KClass, [2], mem, Config);
    CompleteIsNew(Config, mem, Set(KClass, Default(Config), [2]));
    SetThenGet(KClass, Default(Config), [2], KPhone);
    SetThenGet(KClass, Default(Config), [2], KClass);
    ok := cache.ConfirmSetting(KClass, [2]);
  }

  // ---------- The mileage ----------

  /** A blank EEPROM but for a mileage of 5000 km. */
  function FiveThousand(): (mem: seq<Byte>)
    ensures |mem| == SIZE
  {
    Stored(Mileage, Zeros(SIZE), Image(5000, 0), RecordLen(Mileage))
  }

  /** The report that starts the odometer, and one of 720 km/h for five seconds, which is a kilometre. */
  const FIRST := Sample(0, 1)
  const SECOND := Sample(7200, 6)

  lemma OneKilometre()
    ensures var o := Advance(Restored(Default(Mileage)), FIRST);
            o == Odo(true, 1, 0, 0, 0) && Advance(o, SECOND) == Odo(true, 6, 1, 0, 0)
  {
    hide Km, Metres, Default;
    DefaultIsZero();
  }

  lemma MileageTakes(r: nat, c: nat)
    requires r < c
    ensures SaveVia(Refusing(r, c), Mileage).ok
  {
    hide SaveVia;
    SaveTakes(Refusing(r, c), Mileage);
  }

  lemma FiveThousandIsStored()
    ensures Load(Mileage, FiveThousand()) == Image(5000, 0) != Default(Mileage) && Km(Image(5000, 0)) == 5000
  {
    hide Load, Stored, Image, Default, Km, Metres;
    SavedIsLoaded(Mileage, Zeros(SIZE), Image(5000, 0));
    ImageRoundTrip(5000, 0);
    DefaultIsZero();
  }

  /** Power up with the read of the mileage refused: the load reports success with 0. */
  method StartFromZero() returns (odo: Odometer)
    ensures fresh(odo) && fresh(odo.store.chip) && odo.Valid() && odo.loaded && !odo.failed && !odo.grounded
    ensures odo.store.chip.mem == FiveThousand() && odo.store.chip.bus == Refusing(8, 9)
    ensures odo.State() == Odo(true, 1, 0, 0, 0)
  {
    hide Load, FiveThousand, Km, Metres, Advance, Image, Refreshed, BlockOf, AllShown, SaveVia, Refusing, Default, Stored;
    hide Bus.AfterRead, Bus.CarriesRead, AfterRefresh, Odometer.Valid;
    FiveThousandIsStored();
    RefreshPasses(8, 0);
    ReadFails(8);
    OneKilometre();
    var chip := PowerUp(8, FiveThousand());
    var store := new Store(chip);
    var cache := new StatusCache(store);
    odo := new Odometer(store);
    ghost var tried := odo.Update(FIRST);
  }

  /** After one kilometre the 5000 that were stored are overwritten by a save that succeeds. */
  method MileageReadRefused() returns (odo: Odometer)
    ensures Km(Load(Mileage, FiveThousand())) == 5000
    ensures odo.Valid() && !odo.failed && !odo.grounded && odo.synced
    ensures Load(Mileage, odo.store.chip.mem) == Image(1, 0) && Km(Image(1, 0)) == 1
  {
    hide Load, FiveThousand, Km, Metres, Advance, Image, SaveVia, Refusing, Default, Stored;
    hide NotAhead, Pending, Reloaded, Exact;
    FiveThousandIsStored();
    SavedIsLoaded(Mileage, FiveThousand(), Image(1, 0));
    ImageRoundTrip(1, 0);
    MileageTakes(8, 9);
    OneKilometre();
    odo := StartFromZero();
    ghost var tried := odo.Update(SECOND);
  }

  lemma ReadFails(c: nat)
    ensures !Refusing(c, c).CarriesRead() && Refusing(c, c).AfterRead() == Refusing(c, c + 1)
  {
  }
}
