/**
  The five checksummed records of the store, in the byte layout that C gives them:

    magic (4)  version (2)  length (2)  fields  zero padding  checksum (4)

  A value is the memory image of the API structure: 8 octets of mileage, 23 of configuration, 19 of VIN, 4 of
  province code and 6 of city code.
 */
module Records {
  import opened Bytes
  import opened Checksums
  import opened Eeproms

  datatype Kind = Mileage | Config | Vin | Province | City

  function Addr(k: Kind): nat {
    match k
    case Mileage => 0x0000
    case Config => 0x0040
    case Vin => 0x0100
    case Province => 0x0140
    case City => 0x0180
  }

  function Magic(k: Kind): nat {
    match k
    case Mileage => 0x4D494C45
    case Config => 0x434F4E46
    case Vin => 0x56494E31
    case Province => 0x50524944
    case City => 0x43495459
  }

  function Version(k: Kind): nat {
    if k.Config? then 2 else 1
  }

  /** Octets of the API structure. */
  function FieldLen(k: Kind): nat {
    match k
    case Mileage => 8
    case Config => 23
    case Vin => 19
    case Province => 4
    case City => 6
  }

  /** Reserved and alignment octets between the fields and the checksum. */
  function PadLen(k: Kind): nat {
    match k
    case Mileage => 0
    case Config => 5
    case Vin => 1
    case Province => 0
    case City => 2
  }

  /** sizeof the record: 20, 40, 32, 16 and 20. */
  function RecordLen(k: Kind): nat {
    8 + FieldLen(k) + PadLen(k) + 4
  }

  predicate IsDigit(c: Byte) {
    0x30 <= c <= 0x39
  }

  predicate IsPlateChar(c: Byte) {
    IsDigit(c) || 0x41 <= c <= 0x5A
  }

  predicate AllDigits(s: seq<Byte>) {
    forall i :: 0 <= i < |s| ==> IsDigit(s[i])
  }

  predicate AllPlateChars(s: seq<Byte>) {
    forall i :: 0 <= i < |s| ==> IsPlateChar(s[i])
  }

  predicate PhoneValid(s: seq<Byte>) {
    |s| == 12 && AllDigits(s[..11]) && s[11] == 0
  }

  predicate ClassValid(c: Byte) {
    1 <= c <= 5
  }

  predicate ColorValid(c: Byte) {
    1 <= c <= 5
  }

  /** valid flag, province index below 31, letter, five characters, NUL. */
  predicate PlateValid(s: seq<Byte>) {
    && |s| == 9 && s[0] <= 1 && s[1] < 31
    && 0x41 <= s[2] <= 0x5A && AllPlateChars(s[3..8]) && s[8] == 0
  }

  predicate ConfigValid(v: seq<Byte>) {
    |v| == 23 && PhoneValid(v[..12]) && ClassValid(v[12]) && ColorValid(v[13]) && PlateValid(v[14..])
  }

  predicate FieldsValid(k: Kind, v: seq<Byte>)
    requires |v| == FieldLen(k)
  {
    match k
    case Mileage => true
    case Config => ConfigValid(v)
    case Vin => v[0] <= 1 && v[18] == 0 && (v[0] == 0 || AllPlateChars(v[1..18]))
    case Province => v[0] <= 1 && v[3] == 0 && (v[0] == 0 || AllDigits(v[1..3]))
    case City => v[0] <= 1 && v[5] == 0 && (v[0] == 0 || AllDigits(v[1..5]))
  }

  /** Phone 00000000000, class 1, colour 1, plate not set. */
  const DEFAULT_CONFIG: seq<Byte> := [
    0x30, 0x30, 0x30, 0x30, 0x30, 0x30, 0x30, 0x30, 0x30, 0x30, 0x30, 0,
    1, 1,
    0, 0, 0x41, 0x30, 0x30, 0x30, 0x30, 0x30, 0]

  function Default(k: Kind): (v: seq<Byte>)
    ensures |v| == FieldLen(k)
  {
    if k.Config? then DEFAULT_CONFIG else Zeros(FieldLen(k))
  }

  // ---------- Layout ----------

  function Header(k: Kind): (h: seq<Byte>)
    ensures |h| == 8
  {
    ToLe32(Magic(k)) + ToLe16(Version(k)) + ToLe16(RecordLen(k))
  }

  /** Everything the checksum covers. */
  function Covered(k: Kind, v: seq<Byte>): (r: seq<Byte>)
    requires |v| == FieldLen(k)
    ensures |r| == RecordLen(k) - 4
  {
    Header(k) + v + Zeros(PadLen(k))
  }

  function Record(k: Kind, v: seq<Byte>): (r: seq<Byte>)
    requires |v| == FieldLen(k)
    ensures |r| == RecordLen(k)
  {
    Covered(k, v) + ToLe32(Checksum(Covered(k, v)))
  }

  function Fields(k: Kind, raw: seq<Byte>): (v: seq<Byte>)
    requires |raw| == RecordLen(k)
    ensures |v| == FieldLen(k)
  {
    raw[8..8 + FieldLen(k)]
  }

  predicate RecordValid(k: Kind, raw: seq<Byte>)
    requires |raw| == RecordLen(k)
  {
    && raw[..8] == Header(k)
    && FieldsValid(k, Fields(k, raw))
    && Checksum(raw[..RecordLen(k) - 4]) == FromLe32(raw[RecordLen(k) - 4..])
  }

  /** What is read at the record's address. */
  function Raw(k: Kind, mem: seq<Byte>): (r: seq<Byte>)
    requires |mem| == SIZE
    ensures |r| == RecordLen(k)
  {
    mem[Addr(k)..Addr(k) + RecordLen(k)]
  }

  /** What a load yields. */
  function Load(k: Kind, mem: seq<Byte>): (v: seq<Byte>)
    requires |mem| == SIZE
    ensures |v| == FieldLen(k)
  {
    if RecordValid(k, Raw(k, mem)) then Fields(k, Raw(k, mem)) else Default(k)
  }

  /** The eight octets that open each record on the chip: the magic reads "ELIM", "FNOC", "1NIV", "DIRP", "YTIC". */
  function HeaderOctets(k: Kind): seq<Byte> {
    match k
    case Mileage => Octets([0x45, 0x4C, 0x49, 0x4D, 1, 0, 20, 0])
    case Config => Octets([0x46, 0x4E, 0x4F, 0x43, 2, 0, 40, 0])
    case Vin => Octets([0x31, 0x4E, 0x49, 0x56, 1, 0, 32, 0])
    case Province => Octets([0x44, 0x49, 0x52, 0x50, 1, 0, 16, 0])
    case City => Octets([0x59, 0x54, 0x49, 0x43, 1, 0, 20, 0])
  }

  lemma HeaderFrom(a: nat, b: nat, c: nat, d: nat, version: nat, length: nat)
    requires a < 256 && b < 256 && c < 256 && d < 256 && version < 256 && length < 256
    ensures ToLe32(a + 256 * b + 0x1_0000 * (c + 256 * d)) + ToLe16(version) + ToLe16(length) ==
            Octets([a, b, c, d, version, 0, length, 0])
  {
    hide ToLe32, ToLe16, Octets;
    LowHalfFirst(a, b, c, d);
    LowFirst(version, 0);
    LowFirst(length, 0);
    var magic := [a, b, c, d];
    OctetsConcat(magic, [version, 0]);
    OctetsConcat(magic + [version, 0], [length, 0]);
    assert magic + [version, 0] + [length, 0] == [a, b, c, d, version, 0, length, 0];
  }

  /** Magic, version and length are stored low octet first. */
  lemma HeaderIs(k: Kind)
    ensures Header(k) == HeaderOctets(k)
  {
    hide ToLe32, ToLe16, Octets;
    match k
    case Mileage => HeaderFrom(0x45, 0x4C, 0x49, 0x4D, 1, 20);
    case Config => HeaderFrom(0x46, 0x4E, 0x4F, 0x43, 2, 40);
    case Vin => HeaderFrom(0x31, 0x4E, 0x49, 0x56, 1, 32);
    case Province => HeaderFrom(0x44, 0x49, 0x52, 0x50, 1, 16);
    case City => HeaderFrom(0x59, 0x54, 0x49, 0x43, 1, 20);
  }

  lemma RecordParts(k: Kind, v: seq<Byte>)
    requires |v| == FieldLen(k)
    ensures var r := Record(k, v);
            && r[..8] == Header(k) && Fields(k, r) == v
            && r[..RecordLen(k) - 4] == Covered(k, v)
            && r[RecordLen(k) - 4..] == ToLe32(Checksum(Covered(k, v)))
  {
    hide Header, Checksum;
  }

  lemma RecordIsValid(k: Kind, v: seq<Byte>)
    requires |v| == FieldLen(k) && FieldsValid(k, v)
    ensures RecordValid(k, Record(k, v)) && Fields(k, Record(k, v)) == v
  {
    hide FieldsValid, Checksum;
    RecordParts(k, v);
    Le32RoundTrip(Checksum(Covered(k, v)));
  }

  /** No two valid records differ in exactly one octet: one damaged octet, in data or checksum, is never accepted. */
  lemma DamagedRecordRejected(k: Kind, raw: seq<Byte>, i: nat, b: Byte)
    requires |raw| == RecordLen(k) && i < |raw| && raw[i] != b
    ensures RecordValid(k, raw) ==> !RecordValid(k, raw[i := b])
  {
    hide FieldsValid, Checksum, FromLe32, Header;
    var n := RecordLen(k) - 4;
    var bad := raw[i := b];
    if RecordValid(k, raw) {
      if i < n {
        assert bad[..n] == raw[..n][i := b] && bad[n..] == raw[n..];
        OneOctetChangesChecksum(raw[..n], i, b);
      } else {
        assert bad[..n] == raw[..n];
        assert bad[n..][i - n] == b && raw[n..][i - n] == raw[i];
        if FromLe32(bad[n..]) == FromLe32(raw[n..]) {
          Le32Injective(bad[n..], raw[n..]);
        }
      }
    }
  }

  lemma DefaultIsValid(k: Kind)
    ensures FieldsValid(k, Default(k))
  {
    if k.Config? {
      DefaultConfigIsValid();
    }
  }

  lemma DefaultConfigIsValid()
    ensures ConfigValid(DEFAULT_CONFIG)
  {
    var phone: seq<Byte> := [0x30, 0x30, 0x30, 0x30, 0x30, 0x30, 0x30, 0x30, 0x30, 0x30, 0x30, 0];
    var plate: seq<Byte> := [0, 0, 0x41, 0x30, 0x30, 0x30, 0x30, 0x30, 0];
    assert DEFAULT_CONFIG == phone + [1, 1] + plate;
    assert DEFAULT_CONFIG[..12] == phone && DEFAULT_CONFIG[14..] == plate;
    assert PhoneValid(phone);
    assert PlateValid(plate);
  }

  /** Whatever the memory holds, what is loaded is something that a save accepts. */
  lemma LoadedIsValid(k: Kind, mem: seq<Byte>)
    requires |mem| == SIZE
    ensures FieldsValid(k, Load(k, mem))
  {
    hide FieldsValid, Default;
    DefaultIsValid(k);
  }
}
