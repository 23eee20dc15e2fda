/**
  The I2C EEPROM and the writer that splits a transfer at page boundaries.

  The device takes a page write of up to 32 octets and wraps inside the page. Which transfers the bus refuses is
  an input, given for the whole life of the bus; a refused transfer stores nothing.
 */
module Eeproms {
  import opened Bytes

  const SIZE := 0x1_0000
  const PAGE := 32

  /** What the device stores when `data` is sent to `addr` in one transfer. */
  function PageWrite(mem: seq<Byte>, addr: nat, data: seq<Byte>): (r: seq<Byte>)
    requires |mem| == SIZE && addr < SIZE && |data| <= PAGE
    ensures |r| == SIZE
  {
    seq(SIZE, i requires 0 <= i < SIZE =>
      if i / PAGE == addr / PAGE && (i - addr) % PAGE < |data| then data[(i - addr) % PAGE] else mem[i])
  }

  /** A flat memory write. */
  function Flat(mem: seq<Byte>, addr: nat, data: seq<Byte>): (r: seq<Byte>)
    requires |mem| == SIZE && addr + |data| <= SIZE
    ensures |r| == SIZE
  {
    mem[..addr] + data + mem[addr + |data|..]
  }

  /** A transfer that stays inside its page does not wrap. */
  lemma PageWriteIsFlat(mem: seq<Byte>, addr: nat, data: seq<Byte>)
    requires |mem| == SIZE && addr < SIZE && addr % PAGE + |data| <= PAGE
    ensures addr + |data| <= SIZE && PageWrite(mem, addr, data) == Flat(mem, addr, data)
  {
    var base := addr - addr % PAGE;
    forall i | 0 <= i < SIZE
      ensures PageWrite(mem, addr, data)[i] == Flat(mem, addr, data)[i]
    {
      InPage(i, addr);
    }
  }

  /** A transfer that crosses its page never reaches the next one; this is what the splitting is for. */
  lemma CrossingTransferWraps(mem: seq<Byte>, addr: nat, data: seq<Byte>)
    requires |mem| == SIZE && addr + |data| <= SIZE && |data| <= PAGE && addr % PAGE + |data| > PAGE
    ensures var next := addr - addr % PAGE + PAGE;
            && PageWrite(mem, addr, data)[next..] == mem[next..]
            && (PageWrite(mem, addr, data) == Flat(mem, addr, data) ==> data[next - addr..] == mem[next..addr + |data|])
  {
    var next := addr - addr % PAGE + PAGE;
    var w, f := PageWrite(mem, addr, data), Flat(mem, addr, data);
    forall i | next <= i < SIZE
      ensures w[i] == mem[i]
    {
      InPage(i, addr);
    }
    assert forall i :: next <= i < addr + |data| ==> f[i] == data[i - addr];
  }

  lemma InPage(i: nat, addr: nat)
    ensures i / PAGE == addr / PAGE <==> addr - addr % PAGE <= i < addr - addr % PAGE + PAGE
    ensures i / PAGE == addr / PAGE ==>
              (i - addr) % PAGE == if addr <= i then i - addr else i - addr + PAGE
  {
  }

  lemma FlatExtends(mem: seq<Byte>, addr: nat, a: seq<Byte>, b: seq<Byte>)
    requires |mem| == SIZE && addr + |a| + |b| <= SIZE
    ensures Flat(Flat(mem, addr, a), addr + |a|, b) == Flat(mem, addr, a + b)
  {
  }

  /** A chunk that stays inside its page extends what has been written of `data`. */
  lemma ChunkExtends(mem: seq<Byte>, addr: nat, data: seq<Byte>, offset: nat, len: nat)
    requires |mem| == SIZE && offset + len <= |data| && addr + |data| <= SIZE && 0 < len
    requires (addr + offset) % PAGE + len <= PAGE
    ensures PageWrite(Flat(mem, addr, data[..offset]), addr + offset, data[offset..offset + len]) ==
            Flat(mem, addr, data[..offset + len])
  {
    hide PageWrite, Flat;
    var chunk := data[offset..offset + len];
    PageWriteIsFlat(Flat(mem, addr, data[..offset]), addr + offset, chunk);
    FlatExtends(mem, addr, data[..offset], chunk);
    assert data[..offset] + chunk == data[..offset + len];
  }

  lemma FlatNothing(mem: seq<Byte>, addr: nat)
    requires |mem| == SIZE && addr <= SIZE
    ensures Flat(mem, addr, []) == mem
  {
  }

  lemma FlatElsewhere(mem: seq<Byte>, addr: nat, data: seq<Byte>, lo: nat, hi: nat)
    requires |mem| == SIZE && addr + |data| <= SIZE && lo <= hi <= SIZE
    requires hi <= addr || addr + |data| <= lo
    ensures Flat(mem, addr, data)[lo..hi] == mem[lo..hi]
  {
    var f := Flat(mem, addr, data);
    assert forall i :: lo <= i < hi ==> f[i] == mem[i];
  }

  lemma FlatInside(mem: seq<Byte>, addr: nat, data: seq<Byte>, len: nat)
    requires |mem| == SIZE && |data| <= len && addr + len <= SIZE
    ensures Flat(mem, addr, data)[addr..addr + len] == data + mem[addr..addr + len][|data|..]
  {
    var f := Flat(mem, addr, data);
    assert forall i :: 0 <= i < len ==> f[addr + i] == if i < |data| then data[i] else mem[addr + i];
  }

  // ---------- The bus ----------

  /** Transfer number t is refused exactly when refuses(t); `clock` is the number of the next one. */
  datatype Bus = Bus(attached: bool, refuses: nat -> bool, clock: nat) {
    predicate Carries() {
      attached && !refuses(clock)
    }

    /** Without a bus nothing is even tried. */
    function Next(): Bus {
      if attached then this.(clock := clock + 1) else this
    }

    /** A read is two transfers, the address and then the data. */
    predicate CarriesRead() {
      Carries() && Next().Carries()
    }

    function AfterRead(): Bus {
      if Carries() then Next().Next() else Next()
    }

    ghost predicate Healthy() {
      attached && forall t :: !refuses(t)
    }
  }

  /** The same bus at another time. */
  ghost predicate SameBus(b: Bus, c: Bus) {
    b.attached == c.attached && b.refuses == c.refuses
  }

  /** `n` is where a transfer of `len` octets to `addr` may have stopped. */
  predicate Cut(addr: nat, len: nat, n: nat) {
    n == 0 || n == len || (n < len && (addr + n) % PAGE == 0)
  }

  datatype Sending = Sending(n: nat, bus: Bus)

  /** How many of `len` octets for `addr` are stored before the first page the bus refuses. */
  function Send(b: Bus, addr: nat, len: nat): (r: Sending)
    ensures r.n <= len && Cut(addr, len, r.n) && SameBus(b, r.bus)
    decreases len
  {
    if len == 0 then Sending(0, b)
    else if !b.Carries() then Sending(0, b.Next())
    else
      var room := PAGE - addr % PAGE;
      var step := if len > room then room else len;
      var more := Send(b.Next(), addr + step, len - step);
      Sending(step + more.n, more.bus)
  }

  /** How many of the next n transfers go through before the first that is refused. */
  function Carried(b: Bus, n: nat): (c: nat)
    ensures c <= n
    decreases n
  {
    if n == 0 || !b.Carries() then 0 else 1 + Carried(b.Next(), n - 1)
  }

  /** The pages that len octets at addr touch. */
  function PagesTouched(addr: nat, len: nat): nat {
    if len == 0 then 0 else (addr + len - 1) / PAGE - addr / PAGE + 1
  }

  lemma PagesLeft(addr: nat, len: nat)
    requires len > 0
    ensures var room := PAGE - addr % PAGE;
            && PagesTouched(addr, len) >= 1
            && (len <= room ==> PagesTouched(addr, len) == 1)
            && (len > room ==> (addr + room) % PAGE == 0 &&
                               PagesTouched(addr, len) == 1 + PagesTouched(addr + room, len - room))
  {
  }

  /**
    A write takes one transfer for each page it touches. It is complete exactly when all of them go through;
    otherwise it ends at the boundary before the first page that is refused.
   */
  lemma {:induction false} SendIs(b: Bus, addr: nat, len: nat)
    ensures var pages, c := PagesTouched(addr, len), Carried(b, PagesTouched(addr, len));
            && Send(b, addr, len).n == (if c == pages then len else if c == 0 then 0 else c * PAGE - addr % PAGE)
            && Send(b, addr, len).bus.clock ==
               b.clock + (if !b.attached then 0 else if c == pages then pages else c + 1)
    decreases len
  {
    hide Cut, PagesTouched;
    SendStep(b, addr, len);
    if len == 0 {
      NoPages(addr);
    } else {
      PagesLeft(addr, len);
      var room := PAGE - addr % PAGE;
      var step := if len > room then room else len;
      SendIs(b.Next(), addr + step, len - step);
      if len <= room {
        NoPages(addr + len);
      }
    }
  }

  lemma NoPages(addr: nat)
    ensures PagesTouched(addr, 0) == 0
  {
  }

  /** What the next page transfer makes of a sending. */
  lemma SendStep(b: Bus, addr: nat, len: nat)
    ensures len == 0 ==> Send(b, addr, len) == Sending(0, b)
    ensures len > 0 && !b.Carries() ==> Send(b, addr, len) == Sending(0, b.Next())
    ensures len > 0 && b.Carries() ==>
              var room := PAGE - addr % PAGE;
              var step := if len > room then room else len;
              var more := Send(b.Next(), addr + step, len - step);
              Send(b, addr, len) == Sending(step + more.n, more.bus)
  {
  }

  class Eeprom {
    var bus: Bus
    var mem: seq<Byte>

    ghost predicate Valid()
      reads this
    {
      |mem| == SIZE
    }

    constructor (bus: Bus, mem: seq<Byte>)
      requires |mem| == SIZE
      ensures Valid() && this.mem == mem && this.bus == bus
    {
      this.bus, this.mem := bus, mem;
    }

    /** Look for the bus; without it every read and write fails. */
    method Attach(found: bool) returns (ok: bool)
      modifies this`bus
      ensures ok == found && bus == old(bus).(attached := found)
    {
      bus := bus.(attached := found);
      ok := found;
    }

    /** One transfer, or none without a bus. */
    method Transfer() returns (ok: bool)
      modifies this`bus
      ensures ok == old(bus).Carries() && bus == old(bus).Next()
    {
      ok := bus.Carries();
      bus := bus.Next();
    }

    method WritePage(addr: nat, data: seq<Byte>) returns (ok: bool)
      requires Valid() && addr < SIZE
      modifies this
      ensures Valid()
      ensures ok == (1 <= |data| <= PAGE && old(bus).Carries())
      ensures bus == if 1 <= |data| <= PAGE then old(bus).Next() else old(bus)
      ensures ok ==> mem == PageWrite(old(mem), addr, data)
      ensures !ok ==> mem == old(mem)
    {
      if !bus.attached || |data| == 0 || |data| > PAGE {
        return false;
      }
      ok := Transfer();
      if ok {
        mem := PageWrite(mem, addr, data);
      }
    }

    /**
      Write data of any length. The memory afterwards is a flat write of a prefix that ends at a page boundary,
      and of all the data when the call succeeds; no other octet changes.
     */
    method Write(addr: nat, data: seq<Byte>) returns (ok: bool)
      requires Valid() && addr + |data| <= SIZE
      modifies this
      ensures Valid()
      ensures var sent := Send(old(bus), addr, |data|);
              && bus == sent.bus
              && mem == Flat(old(mem), addr, data[..sent.n])
              && ok == (data != [] && sent.n == |data|)
    {
      hide PageWrite, Flat, Send, Cut, Bus.Carries, Bus.Next;
      FlatNothing(mem, addr);
      SendStep(bus, addr, 0);
      if |data| == 0 {
        return false;
      }
      ghost var all := Send(bus, addr, |data|);
      var offset: nat := 0;
      while offset < |data|
        invariant offset <= |data|
        invariant Valid() && mem == Flat(old(mem), addr, data[..offset])
        invariant var more := Send(bus, addr + offset, |data| - offset); all == Sending(offset + more.n, more.bus)
      {
        var pageRemain := PAGE - (addr + offset) % PAGE;
        var writeLen := |data| - offset;
        if writeLen > pageRemain {
          writeLen := pageRemain;
        }
        var chunk := data[offset..offset + writeLen];
        ChunkExtends(old(mem), addr, data, offset, writeLen);
        SendStep(bus, addr + offset, |data| - offset);
        var sent := WritePage(addr + offset, chunk);
        if !sent {
          return false;
        }
        offset := offset + writeLen;
      }
      SendStep(bus, addr + offset, 0);
      ok := true;
    }

    method Read(addr: nat, len: nat) returns (ok: bool, data: seq<Byte>)
      requires Valid() && addr + len <= SIZE
      modifies this`bus
      ensures ok == (len > 0 && old(bus).CarriesRead())
      ensures bus == if len > 0 then old(bus).AfterRead() else old(bus)
      ensures ok ==> data == mem[addr..addr + len]
    {
      if !bus.attached || len == 0 {
        return false, [];
      }
      ok := Transfer();
      if !ok {
        return false, [];
      }
      ok := Transfer();
      data := if ok then mem[addr..addr + len] else [];
    }
  }
}
