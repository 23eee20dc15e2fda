/**
  What a save leaves behind: complete, interrupted, and after any number of others.
 */
module StoreTheory {
  import opened Bytes
  import opened Checksums
  import opened Eeproms
  import opened Records

  /** The memory after the first n octets of the record for v have been stored. */
  function Stored(k: Kind, mem: seq<Byte>, v: seq<Byte>, n: nat): (r: seq<Byte>)
    requires |mem| == SIZE && |v| == FieldLen(k) && n <= RecordLen(k)
    ensures |r| == SIZE
  {
    Flat(mem, Addr(k), Record(k, v)[..n])
  }

  /** A save leaves every other record alone, however far it gets. */
  lemma OthersUntouched(k: Kind, mem: seq<Byte>, v: seq<Byte>, n: nat, other: Kind)
    requires |mem| == SIZE && |v| == FieldLen(k) && n <= RecordLen(k) && other != k
    ensures Raw(other, Stored(k, mem, v, n)) == Raw(other, mem)
    ensures Load(other, Stored(k, mem, v, n)) == Load(other, mem)
  {
    hide Record, Default, Flat;
    var lo, hi := Addr(other), Addr(other) + RecordLen(other);
    assert hi <= Addr(k) || Addr(k) + RecordLen(k) <= lo;
    FlatElsewhere(mem, Addr(k), Record(k, v)[..n], lo, hi);
  }

  lemma OwnRecord(k: Kind, mem: seq<Byte>, v: seq<Byte>, n: nat)
    requires |mem| == SIZE && |v| == FieldLen(k) && n <= RecordLen(k)
    ensures Raw(k, Stored(k, mem, v, n)) == Record(k, v)[..n] + Raw(k, mem)[n..]
  {
    hide Record, Flat;
    FlatInside(mem, Addr(k), Record(k, v)[..n], RecordLen(k));
  }

  /** A complete save is what the next load yields. */
  lemma SavedIsLoaded(k: Kind, mem: seq<Byte>, v: seq<Byte>)
    requires |mem| == SIZE && |v| == FieldLen(k) && FieldsValid(k, v)
    ensures RecordValid(k, Raw(k, Stored(k, mem, v, RecordLen(k))))
    ensures Load(k, Stored(k, mem, v, RecordLen(k))) == v
  {
    hide Record, RecordValid, FieldsValid, Stored;
    OwnRecord(k, mem, v, RecordLen(k));
    assert Record(k, v)[..RecordLen(k)] + Raw(k, mem)[RecordLen(k)..] == Record(k, v);
    RecordIsValid(k, v);
  }

  /** Where a complete save puts what: the header octets, then the fields, then the padding; and nothing elsewhere. */
  lemma OnTheChip(k: Kind, mem: seq<Byte>, v: seq<Byte>)
    requires |mem| == SIZE && |v| == FieldLen(k)
    ensures var r, a := Stored(k, mem, v, RecordLen(k)), Addr(k);
            && a == (match k case Mileage => 0 case Config => 64 case Vin => 256 case Province => 320 case City => 384)
            && r[a..a + 8] == HeaderOctets(k) && r[a + 8..a + 8 + |v|] == v
            && r[a + 8 + |v|..a + RecordLen(k) - 4] == Zeros(PadLen(k))
            && r[..a] == mem[..a] && r[a + RecordLen(k)..] == mem[a + RecordLen(k)..]
  {
    hide Header, HeaderOctets, Checksum, ToLe32, Stored;
    var r, a, n := Stored(k, mem, v, RecordLen(k)), Addr(k), RecordLen(k);
    OwnRecord(k, mem, v, n);
    HeaderIs(k);
    RecordParts(k, v);
    StoredElsewhere(k, mem, v);
    var record := Record(k, v);
    assert record[..n] + Raw(k, mem)[n..] == record;
    RecordSpots(k, v);
    SliceOfSlice(r, a, a + n, 0, 8);
    SliceOfSlice(r, a, a + n, 8, 8 + |v|);
    SliceOfSlice(r, a, a + n, 8 + |v|, n - 4);
  }

  lemma SliceOfSlice(s: seq<Byte>, a: nat, b: nat, from: nat, to: nat)
    requires a <= b <= |s| && from <= to <= b - a
    ensures s[a + from..a + to] == s[a..b][from..to]
  {
    forall i | 0 <= i < to - from
      ensures s[a + from..a + to][i] == s[a..b][from..to][i]
    {
    }
  }

  lemma RecordSpots(k: Kind, v: seq<Byte>)
    requires |v| == FieldLen(k)
    ensures var r := Record(k, v);
            r[8..8 + |v|] == v && r[8 + |v|..RecordLen(k) - 4] == Zeros(PadLen(k))
  {
    hide Header, Checksum, ToLe32;
  }

  lemma StoredElsewhere(k: Kind, mem: seq<Byte>, v: seq<Byte>)
    requires |mem| == SIZE && |v| == FieldLen(k)
    ensures var r, a := Stored(k, mem, v, RecordLen(k)), Addr(k);
            r[..a] == mem[..a] && r[a + RecordLen(k)..] == mem[a + RecordLen(k)..]
  {
    hide Record;
  }

  lemma NothingStored(k: Kind, mem: seq<Byte>, v: seq<Byte>)
    requires |mem| == SIZE && |v| == FieldLen(k)
    ensures Stored(k, mem, v, 0) == mem
  {
    hide Record;
  }

  /** All five records start on a page; only the configuration needs a second one. */
  lemma CutsOf(k: Kind, n: nat)
    requires n <= RecordLen(k) && Cut(Addr(k), RecordLen(k), n)
    ensures n == 0 || n == RecordLen(k) || (k.Config? && n == 32)
  {
  }

  /** The first page of a configuration already holds all of its fields. */
  lemma FirstPageHasTheFields(mem: seq<Byte>, v: seq<Byte>)
    requires |mem| == SIZE && |v| == FieldLen(Config)
    ensures Fields(Config, Raw(Config, Stored(Config, mem, v, PAGE))) == v
  {
    hide Stored;
    OwnRecord(Config, mem, v, PAGE);
    RecordParts(Config, v);
    var r := Record(Config, v);
    assert (r[..PAGE] + Raw(Config, mem)[PAGE..])[8..31] == r[8..31];
  }

  /**
    If a save stops after any number of page writes, a later load of that record yields the old result or the
    new one; of the configuration it may also yield the defaults, but never a mixture of old and new fields.
   */
  lemma InterruptedSave(k: Kind, mem: seq<Byte>, v: seq<Byte>, n: nat)
    requires |mem| == SIZE && |v| == FieldLen(k) && FieldsValid(k, v)
    requires n <= RecordLen(k) && Cut(Addr(k), RecordLen(k), n)
    ensures var after := Load(k, Stored(k, mem, v, n));
            || after == Load(k, mem)
            || after == v
            || (k.Config? && n == PAGE && after == Default(Config))
  {
    hide Stored, Record, RecordValid, FieldsValid, Default;
    CutsOf(k, n);
    if n == 0 {
      NothingStored(k, mem, v);
    } else if n == RecordLen(k) {
      SavedIsLoaded(k, mem, v);
    } else {
      FirstPageHasTheFields(mem, v);
    }
  }

  /** The defaults do come up: exactly when the old tail does not happen to carry the right checksum. */
  lemma DefaultsAfterInterruption(mem: seq<Byte>, v: seq<Byte>)
    requires |mem| == SIZE && |v| == FieldLen(Config) && FieldsValid(Config, v)
    ensures var tail := Raw(Config, mem)[PAGE..];
            RecordValid(Config, Raw(Config, Stored(Config, mem, v, PAGE))) <==>
            Checksum(Covered(Config, v)[..PAGE] + tail[..4]) == FromLe32(tail[4..])
  {
    hide Stored, FieldsValid, Checksum, FromLe32;
    OwnRecord(Config, mem, v, PAGE);
    RecordParts(Config, v);
    FirstPageHasTheFields(mem, v);
    var r, tail := Record(Config, v), Raw(Config, mem)[PAGE..];
    var raw := r[..PAGE] + tail;
    assert raw[..8] == r[..8];
    assert raw[..36] == Covered(Config, v)[..PAGE] + tail[..4];
    assert raw[36..] == tail[4..];
  }

  // ---------- Last writer wins ----------

  /** What the settings menus and the odometer can store. */
  datatype Key = KMileage | KPhone | KClass | KColor | KPlate | KVin | KProvince | KCity

  function KindOf(key: Key): Kind {
    match key
    case KMileage => Mileage
    case KPhone | KClass | KColor | KPlate => Config
    case KVin => Vin
    case KProvince => Province
    case KCity => City
  }

  /** The part of the record's structure that belongs to the key. */
  function Lo(key: Key): nat {
    match key
    case KClass => 12
    case KColor => 13
    case KPlate => 14
    case _ => 0
  }

  function Hi(key: Key): nat {
    match key
    case KPhone => 12
    case KClass => 13
    case KColor => 14
    case _ => FieldLen(KindOf(key))
  }

  /** The check that a single-field save makes before it reads the record. */
  predicate PartValid(key: Key, part: seq<Byte>) {
    && |part| == Hi(key) - Lo(key)
    && match key
       case KPhone => PhoneValid(part)
       case KClass => ClassValid(part[0])
       case KColor => ColorValid(part[0])
       case KPlate => PlateValid(part)
       case _ => FieldsValid(KindOf(key), part)
  }

  function Get(key: Key, v: seq<Byte>): seq<Byte>
    requires |v| == FieldLen(KindOf(key))
  {
    v[Lo(key)..Hi(key)]
  }

  function Set(key: Key, v: seq<Byte>, part: seq<Byte>): (r: seq<Byte>)
    requires |v| == FieldLen(KindOf(key)) && |part| == Hi(key) - Lo(key)
    ensures |r| == |v|
  {
    v[..Lo(key)] + part + v[Hi(key)..]
  }

  lemma SetIsValid(key: Key, v: seq<Byte>, part: seq<Byte>)
    requires |v| == FieldLen(KindOf(key)) && FieldsValid(KindOf(key), v) && PartValid(key, part)
    ensures FieldsValid(KindOf(key), Set(key, v, part))
  {
    hide PhoneValid, PlateValid;
    var r := Set(key, v, part);
    if KindOf(key).Config? {
      assert r[..12] == (if key.KPhone? then part else v[..12]);
      assert r[12] == if key.KClass? then part[0] else v[12];
      assert r[13] == if key.KColor? then part[0] else v[13];
      assert r[14..] == (if key.KPlate? then part else v[14..]);
    } else {
      assert r == part;
    }
  }

  lemma SetThenGet(key: Key, v: seq<Byte>, part: seq<Byte>, other: Key)
    requires KindOf(other) == KindOf(key)
    requires |v| == FieldLen(KindOf(key)) && PartValid(key, part)
    ensures Get(other, Set(key, v, part)) == if other == key then part else Get(other, v)
  {
    if other == key {
      Spliced(v, Lo(key), Hi(key), part, Lo(key), Hi(key));
    } else {
      assert Hi(other) <= Lo(key) || Hi(key) <= Lo(other);
      Spliced(v, Lo(key), Hi(key), part, Lo(other), Hi(other));
    }
  }

  lemma Spliced(v: seq<Byte>, lo: nat, hi: nat, part: seq<Byte>, from: nat, to: nat)
    requires lo <= hi <= |v| && |part| == hi - lo && from <= to <= |v|
    ensures var r := v[..lo] + part + v[hi..];
            && (from == lo && to == hi ==> r[from..to] == part)
            && (to <= lo || hi <= from ==> r[from..to] == v[from..to])
  {
    var r := v[..lo] + part + v[hi..];
    assert forall i :: 0 <= i < |v| ==> r[i] == if lo <= i < hi then part[i - lo] else v[i];
  }

  /** What loading yields for a key. */
  function Read(key: Key, mem: seq<Byte>): seq<Byte>
    requires |mem| == SIZE
  {
    Get(key, Load(KindOf(key), mem))
  }

  /** A save through a bus that refuses nothing: read, modify, write. An invalid part is rejected. */
  function Put(key: Key, part: seq<Byte>, mem: seq<Byte>): (r: seq<Byte>)
    requires |mem| == SIZE
    ensures |r| == SIZE
  {
    var k := KindOf(key);
    if PartValid(key, part) then Stored(k, mem, Set(key, Load(k, mem), part), RecordLen(k)) else mem
  }

  lemma PutLoads(key: Key, part: seq<Byte>, mem: seq<Byte>)
    requires |mem| == SIZE && PartValid(key, part)
    ensures Load(KindOf(key), Put(key, part, mem)) == Set(key, Load(KindOf(key), mem), part)
  {
    hide Stored, Load, FieldsValid, Set;
    var k := KindOf(key);
    LoadedIsValid(k, mem);
    SetIsValid(key, Load(k, mem), part);
    SavedIsLoaded(k, mem, Set(key, Load(k, mem), part));
  }

  lemma PutSparesOthers(key: Key, part: seq<Byte>, mem: seq<Byte>, other: Kind)
    requires |mem| == SIZE && PartValid(key, part) && other != KindOf(key)
    ensures Load(other, Put(key, part, mem)) == Load(other, mem)
  {
    hide Stored, Load, Set;
    var k := KindOf(key);
    OthersUntouched(k, mem, Set(key, Load(k, mem), part), RecordLen(k), other);
  }

  lemma PutThenRead(key: Key, part: seq<Byte>, mem: seq<Byte>, other: Key)
    requires |mem| == SIZE
    ensures Read(other, Put(key, part, mem)) ==
            if other == key && PartValid(key, part) then part else Read(other, mem)
  {
    hide Load, Set, Get, Put, PartValid, FieldLen;
    if PartValid(key, part) {
      if KindOf(other) == KindOf(key) {
        PutLoads(key, part, mem);
        SetThenGet(key, Load(KindOf(key), mem), part, other);
      } else {
        PutSparesOthers(key, part, mem, KindOf(other));
      }
    } else {
      PutRejects(key, part, mem);
    }
  }

  lemma PutRejects(key: Key, part: seq<Byte>, mem: seq<Byte>)
    requires |mem| == SIZE && !PartValid(key, part)
    ensures Put(key, part, mem) == mem
  {
    hide PartValid, Stored, Load;
  }

  datatype Save = Save(key: Key, part: seq<Byte>)

  function PutAll(saves: seq<Save>, mem: seq<Byte>): (r: seq<Byte>)
    requires |mem| == SIZE
    ensures |r| == SIZE
  {
    if saves == [] then mem
    else
      var last := saves[|saves| - 1];
      Put(last.key, last.part, PutAll(saves[..|saves| - 1], mem))
  }

  /** The value a map would hold: the last acceptable one written to the key, or the initial one. */
  function LastWritten(saves: seq<Save>, key: Key, initial: seq<Byte>): seq<Byte> {
    if saves == [] then initial
    else
      var last := saves[|saves| - 1];
      if last.key == key && PartValid(key, last.part) then last.part
      else LastWritten(saves[..|saves| - 1], key, initial)
  }

  /** Any sequence of saves over the five records and the configuration fields is a last-writer-wins map. */
  lemma {:induction false} LastWriterWins(saves: seq<Save>, mem: seq<Byte>, key: Key)
    requires |mem| == SIZE
    ensures Read(key, PutAll(saves, mem)) == LastWritten(saves, key, Read(key, mem))
  {
    hide Put, Read, PartValid;
    if saves != [] {
      var n := |saves| - 1;
      LastWriterWins(saves[..n], mem, key);
      PutThenRead(saves[n].key, saves[n].part, PutAll(saves[..n], mem), key);
    }
  }
}
