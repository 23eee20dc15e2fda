/**
  What the bus makes of a save: for every schedule of refused transfers, how far the save gets, what it reports
  and what a later load yields.
 */
module SaveTheory {
  import opened Bytes
  import opened Checksums
  import opened Eeproms
  import opened Records
  import opened StoreTheory

  /** What a load yields on this bus: a refused read counts as a record that is not there. */
  function Seen(b: Bus, k: Kind, mem: seq<Byte>): (v: seq<Byte>)
    requires |mem| == SIZE
    ensures |v| == FieldLen(k)
  {
    if b.CarriesRead() then Load(k, mem) else Default(k)
  }

  lemma SeenIsValid(b: Bus, k: Kind, mem: seq<Byte>)
    requires |mem| == SIZE
    ensures FieldsValid(k, Seen(b, k, mem))
  {
    hide FieldsValid, Default, Load;
    DefaultIsValid(k);
    LoadedIsValid(k, mem);
  }

  /** A load shows what is stored exactly when it is carried, or when there is nothing but the defaults to show. */
  predicate ShowsStored(b: Bus, k: Kind, stored: seq<Byte>) {
    b.CarriesRead() || stored == Default(k)
  }

  /** The report of a save, the octets it stored and the bus after it. */
  datatype Saving = Saving(ok: bool, n: nat, bus: Bus)

  /** Write all pages, then read the record back. */
  function SaveVia(b: Bus, k: Kind): (r: Saving)
    ensures r.n <= RecordLen(k) && Cut(Addr(k), RecordLen(k), r.n) && (r.ok ==> r.n == RecordLen(k))
    ensures SameBus(b, r.bus)
  {
    var sent := Send(b, Addr(k), RecordLen(k));
    if sent.n < RecordLen(k) then Saving(false, sent.n, sent.bus)
    else Saving(sent.bus.CarriesRead(), sent.n, sent.bus.AfterRead())
  }

  /** A record takes one page transfer, the configuration two; success also takes the two of the read-back. */
  lemma SaveTakes(b: Bus, k: Kind)
    ensures var r := SaveVia(b, k);
            var last := if k.Config? then b.Next() else b;
            && (r.n == 0 <==> !b.Carries())
            && (k.Config? ==> (r.n == PAGE <==> b.Carries() && !last.Carries()))
            && (r.n == RecordLen(k) <==> b.Carries() && last.Carries())
            && (r.n == RecordLen(k) ==> r.ok == last.Next().CarriesRead() && r.bus == last.Next().AfterRead())
  {
    hide Bus.Carries, Bus.Next, Bus.AfterRead, Bus.CarriesRead;
    assert Addr(k) % PAGE == 0;
    if k.Config? {
      var c := b.Next();
      assert Send(c.Next(), 0x68, 0) == Sending(0, c.Next());
      assert c.Carries() ==> Send(c, 0x60, 8) == Sending(8, c.Next());
      assert b.Carries() ==> Send(b, 0x40, 40) == Sending(32 + Send(c, 0x60, 8).n, Send(c, 0x60, 8).bus);
    } else {
      assert Send(b.Next(), Addr(k) + RecordLen(k), 0) == Sending(0, b.Next());
    }
  }

  /** What a load yields when n octets of the record for v have been stored over the old memory. */
  function Left(k: Kind, mem: seq<Byte>, v: seq<Byte>, n: nat): (r: seq<Byte>)
    requires |mem| == SIZE && |v| == FieldLen(k)
    ensures |r| == FieldLen(k)
  {
    if n == 0 then Load(k, mem)
    else if n == RecordLen(k) then v
    else if k.Config? && OldTailFits(mem, v) then v
    else Default(k)
  }

  /** The eight octets of the old record's second page happen to end in the checksum of the new fields. */
  predicate OldTailFits(mem: seq<Byte>, v: seq<Byte>)
    requires |mem| == SIZE && |v| == FieldLen(Config)
  {
    var tail := Raw(Config, mem)[PAGE..];
    Checksum(Covered(Config, v)[..PAGE] + tail[..4]) == FromLe32(tail[4..])
  }

  lemma LoadAfter(k: Kind, mem: seq<Byte>, v: seq<Byte>, n: nat, j: Kind)
    requires |mem| == SIZE && |v| == FieldLen(k) && FieldsValid(k, v)
    requires n <= RecordLen(k) && Cut(Addr(k), RecordLen(k), n)
    ensures Load(j, Stored(k, mem, v, n)) == if j == k then Left(k, mem, v, n) else Load(j, mem)
  {
    hide Stored, RecordValid, FieldsValid, Default, Checksum, FromLe32, Covered;
    if j != k {
      OthersUntouched(k, mem, v, n, j);
    } else if n == 0 {
      NothingStored(k, mem, v);
    } else if n == RecordLen(k) {
      SavedIsLoaded(k, mem, v);
    } else {
      CutsOf(k, n);
      FirstPageHasTheFields(mem, v);
      DefaultsAfterInterruption(mem, v);
    }
  }

  // ---------- Single-field saves ----------

  /** A single-field save that passed its check: the structure it stores, and what became of it. */
  datatype Attempt = Attempt(ok: bool, value: seq<Byte>, n: nat, bus: Bus)

  /** The structure that the other fields are taken from. A whole record needs none. */
  function Base(b: Bus, key: Key, mem: seq<Byte>): (v: seq<Byte>)
    requires |mem| == SIZE
    ensures |v| == FieldLen(KindOf(key))
  {
    if KindOf(key).Config? then Seen(b, Config, mem) else Load(KindOf(key), mem)
  }

  function TryField(b: Bus, key: Key, part: seq<Byte>, mem: seq<Byte>): (a: Attempt)
    requires |mem| == SIZE && PartValid(key, part)
    ensures |a.value| == FieldLen(KindOf(key)) && (a.ok ==> a.n == RecordLen(KindOf(key)))
    ensures a.n <= RecordLen(KindOf(key)) && Cut(Addr(KindOf(key)), RecordLen(KindOf(key)), a.n)
    ensures SameBus(b, a.bus)
  {
    var r := SaveVia(if KindOf(key).Config? then b.AfterRead() else b, KindOf(key));
    Attempt(r.ok, Set(key, Base(b, key, mem), part), r.n, r.bus)
  }

  /** The memory after a single-field save. */
  function After(b: Bus, key: Key, part: seq<Byte>, mem: seq<Byte>): (r: seq<Byte>)
    requires |mem| == SIZE
    ensures |r| == SIZE
  {
    if !PartValid(key, part) then mem
    else
      var a := TryField(b, key, part, mem);
      Stored(KindOf(key), mem, a.value, a.n)
  }

  lemma TriedIsValid(b: Bus, key: Key, part: seq<Byte>, mem: seq<Byte>)
    requires |mem| == SIZE && PartValid(key, part)
    ensures FieldsValid(KindOf(key), Base(b, key, mem))
    ensures FieldsValid(KindOf(key), TryField(b, key, part, mem).value)
  {
    hide PartValid, FieldsValid, Load, Set, Seen;
    LoadedIsValid(KindOf(key), mem);
    SeenIsValid(b, Config, mem);
    SetIsValid(key, Base(b, key, mem), part);
  }

  /** What any load yields after a single-field save, for every schedule of refusals. */
  lemma LoadAfterField(b: Bus, key: Key, part: seq<Byte>, mem: seq<Byte>, j: Kind)
    requires |mem| == SIZE && PartValid(key, part)
    ensures var a := TryField(b, key, part, mem);
            Load(j, After(b, key, part, mem)) ==
            if j == KindOf(key) then Left(j, mem, a.value, a.n) else Load(j, mem)
  {
    hide PartValid, FieldsValid, Load, Stored, TryField, Left;
    TriedIsValid(b, key, part, mem);
    var a := TryField(b, key, part, mem);
    LoadAfter(KindOf(key), mem, a.value, a.n, j);
  }

  /** A bus that refuses nothing makes the save the map update. */
  lemma HealthyIsPut(b: Bus, key: Key, part: seq<Byte>, mem: seq<Byte>)
    requires |mem| == SIZE && PartValid(key, part) && b.Healthy()
    ensures TryField(b, key, part, mem).ok && TryField(b, key, part, mem).bus.Healthy()
    ensures After(b, key, part, mem) == Put(key, part, mem)
  {
    hide PartValid, Load, Stored, Set, Send, SaveVia;
    SaveTakes(if KindOf(key).Config? then b.AfterRead() else b, KindOf(key));
  }

  /**
    A configuration save that stored everything leaves another field alone exactly when its read was carried or
    that field was at its default anyway: the failed read is ignored, so the defaults are written back.
   */
  lemma OtherFieldKeptIff(b: Bus, key: Key, part: seq<Byte>, mem: seq<Byte>, other: Key)
    requires |mem| == SIZE && KindOf(key) == KindOf(other) == Config && other != key && PartValid(key, part)
    requires TryField(b, key, part, mem).n == RecordLen(Config)
    ensures Read(key, After(b, key, part, mem)) == part
    ensures Read(other, After(b, key, part, mem)) == Read(other, mem) <==>
            b.CarriesRead() || Get(other, Load(Config, mem)) == Get(other, Default(Config))
  {
    hide PartValid, Load, Set, Get, After, Default, Bus.CarriesRead, SaveVia;
    LoadAfterField(b, key, part, mem, Config);
    SetThenGet(key, Base(b, key, mem), part, key);
    SetThenGet(key, Base(b, key, mem), part, other);
  }
}
