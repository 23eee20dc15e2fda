/**
  The storage service: load and save of the five records, and the single-field saves that read, modify and
  write the configuration.
 */
module Storage {
  import opened Bytes
  import opened Checksums
  import opened Eeproms
  import opened Records
  import opened StoreTheory
  import opened SaveTheory

  /** The check made after a read: header, fields, checksum. */
  method CheckRecord(k: Kind, raw: seq<Byte>) returns (ok: bool)
    requires |raw| == RecordLen(k)
    ensures ok == RecordValid(k, raw)
  {
    hide FieldsValid, Checksum, FromLe32, ToLe32, ToLe16;
    if raw[..8] != Header(k) {
      return false;
    }
    if !FieldsValid(k, Fields(k, raw)) {
      return false;
    }
    var n := RecordLen(k) - 4;
    var sum := ComputeChecksum(raw[..n]);
    ok := sum == FromLe32(raw[n..]);
  }

  method BuildRecord(k: Kind, v: seq<Byte>) returns (r: seq<Byte>)
    requires |v| == FieldLen(k)
    ensures r == Record(k, v)
  {
    var covered := Header(k) + v + Zeros(PadLen(k));
    var sum := ComputeChecksum(covered);
    r := covered + ToLe32(sum);
  }

  class Store {
    const chip: Eeprom

    constructor (chip: Eeprom)
      ensures this.chip == chip
    {
      this.chip := chip;
    }

    /** Whatever goes wrong, a load yields the record or the defaults. */
    method LoadRecord(k: Kind) returns (found: bool, v: seq<Byte>)
      requires chip.Valid()
      modifies chip`bus
      ensures |v| == FieldLen(k) && FieldsValid(k, v)
      ensures v == Seen(old(chip.bus), k, chip.mem) && chip.bus == old(chip.bus).AfterRead()
      ensures found == (k.Mileage? || (old(chip.bus).CarriesRead() && RecordValid(k, Raw(k, chip.mem))))
    {
      hide RecordValid, FieldsValid, Default, Bus.CarriesRead, Bus.AfterRead;
      SeenIsValid(chip.bus, k, chip.mem);
      var read, raw := chip.Read(Addr(k), RecordLen(k));
      if read {
        var ok := CheckRecord(k, raw);
        if ok {
          return true, Fields(k, raw);
        }
      }
      return k.Mileage?, Default(k);
    }

    /**
      Save a whole record. Invalid fields are refused before anything is written; otherwise the bus decides how
      much of the record is stored and what is reported. After a success the value is what a load yields.
     */
    method SaveRecord(k: Kind, v: seq<Byte>) returns (ok: bool)
      requires chip.Valid() && |v| == FieldLen(k)
      modifies chip
      ensures chip.Valid()
      ensures !FieldsValid(k, v) ==> !ok && chip.mem == old(chip.mem) && chip.bus == old(chip.bus)
      ensures FieldsValid(k, v) ==>
                var r := SaveVia(old(chip.bus), k);
                ok == r.ok && chip.bus == r.bus && chip.mem == Stored(k, old(chip.mem), v, r.n)
      ensures ok ==> Load(k, chip.mem) == v
    {
      hide RecordValid, FieldsValid, Record, Load, Raw, Bus.CarriesRead, Bus.AfterRead;
      if !FieldsValid(k, v) {
        return false;
      }
      if !chip.bus.attached {
        NothingStored(k, chip.mem, v);
        return false;
      }
      var record := BuildRecord(k, v);
      var written := chip.Write(Addr(k), record);
      if !written {
        return false;
      }
      assert record[..|record|] == record;
      SavedIsLoaded(k, old(chip.mem), v);
      ok := VerifyRecord(k);
    }

    /** Read back and check; only the validity of what is there is looked at. */
    method VerifyRecord(k: Kind) returns (ok: bool)
      requires chip.Valid()
      modifies chip`bus
      ensures ok == (old(chip.bus).CarriesRead() && RecordValid(k, Raw(k, chip.mem)))
      ensures chip.bus == old(chip.bus).AfterRead()
    {
      hide RecordValid, Bus.CarriesRead, Bus.AfterRead;
      var read, verify := chip.Read(Addr(k), RecordLen(k));
      if !read {
        return false;
      }
      ok := CheckRecord(k, verify);
    }

    /**
      Save one setting: check the part, read the configuration (whole records need no reading), put the part in
      and save. The failure of the reading is ignored.
     */
    method SaveField(key: Key, part: seq<Byte>) returns (ok: bool)
      requires chip.Valid()
      modifies chip
      ensures chip.Valid() && chip.mem == After(old(chip.bus), key, part, old(chip.mem))
      ensures !PartValid(key, part) ==> !ok && chip.bus == old(chip.bus)
      ensures PartValid(key, part) ==>
                var a := TryField(old(chip.bus), key, part, old(chip.mem));
                ok == a.ok && chip.bus == a.bus
      ensures ok ==> Read(key, chip.mem) == part
    {
      hide PartValid, Load, FieldsValid, Stored, SaveVia, Set, Seen, Get;
      if !PartValid(key, part) {
        return false;
      }
      TriedIsValid(chip.bus, key, part, chip.mem);
      ghost var base := Base(chip.bus, key, chip.mem);
      SetThenGet(key, base, part, key);
      PartFits(key, part);
      var value := part;
      if KindOf(key).Config? {
        var _, v := LoadRecord(Config);
        value := Set(key, v, part);
      } else {
        WholeRecord(key, base, part);
      }
      ok := SaveRecord(KindOf(key), value);
    }
  }

  lemma PartFits(key: Key, part: seq<Byte>)
    requires PartValid(key, part)
    ensures |part| == Hi(key) - Lo(key)
  {
  }

  lemma WholeRecord(key: Key, v: seq<Byte>, part: seq<Byte>)
    requires !KindOf(key).Config? && |v| == FieldLen(KindOf(key)) && PartValid(key, part)
    ensures Set(key, v, part) == part
  {
  }
}
