/** The ATA driver as a sequence of port writes, and the requests and data a drive takes from it. */
module Ata {
  import opened Bits

  const ATA_DATA: uint16 := 0x1F0
  const ATA_SECTOR_CNT: uint16 := 0x1F2
  const ATA_LBA_LOW: uint16 := 0x1F3
  const ATA_LBA_MID: uint16 := 0x1F4
  const ATA_LBA_HIGH: uint16 := 0x1F5
  const ATA_DRIVE: uint16 := 0x1F6
  const ATA_STATUS: uint16 := 0x1F7

  const ATA_CMD_READ: uint8 := 0x20
  const ATA_CMD_WRITE: uint8 := 0x30
  const ATA_CMD_FLUSH: uint8 := 0xE7

  datatype PortWrite =
    | Out(port: uint16, value: uint8)
    | OutWord(port: uint16, word: uint16)

  /** The command block registers of the selected channel */
  datatype Registers = Registers(count: uint8, low: uint8, mid: uint8, high: uint8, device: uint8) {
    /** Bit 4 of the device register selects one of the two drives */
    function Unit(): nat {
      device / 16 % 2
    }

    /** The 28-bit address: the low half of the device register holds its top four bits */
    function Lba(): nat {
      low + mid * 0x100 + high * 0x1_0000 + device % 16 * 0x100_0000
    }

    /** Bit 6 of the device register selects addressing by LBA */
    predicate LbaMode() {
      device / 64 % 2 == 1
    }
  }

  /** What a drive receives: a request when the command register is written, or a data word */
  datatype Receipt =
    | Request(command: uint8, unit: nat, lba: nat, count: uint8, lbaMode: bool)
    | Word(word: uint16)

  function Latched(log: seq<PortWrite>): Registers {
    if log == [] then Registers(0, 0, 0, 0, 0)
    else
      var regs, w := Latched(log[..|log| - 1]), log[|log| - 1];
      if w.OutWord? then regs
      else if w.port == ATA_SECTOR_CNT then regs.(count := w.value)
      else if w.port == ATA_LBA_LOW then regs.(low := w.value)
      else if w.port == ATA_LBA_MID then regs.(mid := w.value)
      else if w.port == ATA_LBA_HIGH then regs.(high := w.value)
      else if w.port == ATA_DRIVE then regs.(device := w.value)
      else regs
  }

  /** A write to the command register issues a request with the registers as they are; a word
      written to the data register is a data word */
  function Received(log: seq<PortWrite>): seq<Receipt> {
    if log == [] then []
    else
      var before, w := log[..|log| - 1], log[|log| - 1];
      if w.OutWord? then if w.port == ATA_DATA then Received(before) + [Word(w.word)] else Received(before)
      else if w.port != ATA_STATUS then Received(before)
      else Received(before) + [RequestOf(Latched(before), w.value)]
  }

  function RequestOf(regs: Registers, command: uint8): Receipt {
    Request(command, regs.Unit(), regs.Lba(), regs.count, regs.LbaMode())
  }

  function Words(ws: seq<uint16>): (rs: seq<Receipt>)
    ensures |rs| == |ws|
  {
    seq(|ws|, n requires 0 <= n < |ws| => Word(ws[n]))
  }

  /** Each word goes to the data register */
  function WordWrites(ws: seq<uint16>): (log: seq<PortWrite>)
    ensures |log| == |ws| && forall n | 0 <= n < |ws| :: log[n] == OutWord(0x1F0, ws[n])
  {
    seq(|ws|, n requires 0 <= n < |ws| => OutWord(ATA_DATA, ws[n]))
  }

  /** The byte written to the device register */
  function DeviceByte(drive: uint8, lba: uint32): (b: uint8)
    ensures b == 0xE0 + 16 * (drive % 2) + lba / 0x100_0000 % 16
  {
    DeviceByteValue(drive, lba);
    U8(Or(Or(0xE0, Shl(drive, 4)), And(Shr(lba, 24), 0x0F)))
  }

  /** The fixed bits of 0xE0 absorb bits 5 to 7 of `drive << 4`; higher bits are cut off */
  lemma DeviceByteValue(drive: uint8, lba: uint32)
    ensures U8(Or(Or(0xE0, Shl(drive, 4)), And(Shr(lba, 24), 0x0F)))
            == 0xE0 + 16 * (drive % 2) + lba / 0x100_0000 % 16
  {
    var top := And(Shr(lba, 24), 0x0F);
    LowNibble(lba);
    assert Pow2(4) == 16;
    ShlIsProduct(0x0E, 4);
    OrShifted(0x0E, drive, 4);
    OrDisjoint(Or(0x0E, drive), top, 4);
    ShlIsProduct(Or(0x0E, drive), 4);
    AbsorbOnes(drive);
    ByteOfNibbles(Or(0x0E, drive), top);
  }

  lemma ByteOfNibbles(high: nat, low: nat)
    requires low < 16
    ensures U8(high * 16 + low) == high % 16 * 16 + low
  {
    DivModUnique(high * 16 + low, 256, high / 16, high % 16 * 16 + low);
  }

  lemma LowNibble(lba: uint32)
    ensures And(Shr(lba, 24), 0x0F) == lba / 0x100_0000 % 16
  {
    Pow2Values();
    ShrIsQuotient(lba, 24);
    AndMask(Shr(lba, 24), 4);
  }

  lemma AbsorbOnes(x: nat)
    ensures Or(0x0E, x) % 16 == 0x0E + x % 2
  {
    OrStep(0x0E, x);
    OrStep(0x07, x / 2);
    OrStep(0x03, x / 2 / 2);
    OrStep(0x01, x / 2 / 2 / 2);
  }

  class Channel {
    var log: seq<PortWrite>

    constructor ()
      ensures log == []
    {
      log := [];
    }

    method OutB(port: uint16, value: uint8)
      modifies this
      ensures log == old(log) + [Out(port, value)]
    {
      log := log + [Out(port, value)];
    }

    /** The register writes of `ata_read_sectors` ask drive `drive % 2` to read from the low
        28 bits of `lba` */
    method ReadSectors(drive: uint8, lba: uint32, count: uint8)
      modifies this
      ensures log == old(log) + [
                Out(0x1F6, 0xE0 + 16 * (drive % 2) + lba / 0x100_0000 % 16), Out(0x1F2, count), Out(0x1F3, lba % 0x100),
                Out(0x1F4, lba / 0x100 % 0x100), Out(0x1F5, lba / 0x1_0000 % 0x100), Out(0x1F7, 0x20)]
      ensures Received(log) == Received(old(log)) + [Request(0x20, drive % 2, lba % 0x1000_0000, count, true)]
    {
      ghost var before := log;
      Address(drive, lba, count);
      OutB(ATA_STATUS, ATA_CMD_READ);
      CommandIssues(before, drive, lba, count, ATA_CMD_READ);
    }

    /** `ata_write_sectors` asks for a write at the same address, sends 256 words for each
        sector of the count, and asks for a cache flush */
    method WriteSectors(drive: uint8, lba: uint32, count: uint8, buffer: array<uint16>)
      requires 256 * count <= buffer.Length
      modifies this
      ensures log == old(log) + [
                Out(0x1F6, 0xE0 + 16 * (drive % 2) + lba / 0x100_0000 % 16), Out(0x1F2, count), Out(0x1F3, lba % 0x100),
                Out(0x1F4, lba / 0x100 % 0x100), Out(0x1F5, lba / 0x1_0000 % 0x100), Out(0x1F7, 0x30)]
                + WordWrites(buffer[..256 * count]) + [Out(0x1F7, 0xE7)]
      ensures Received(log) == Received(old(log)) + [Request(0x30, drive % 2, lba % 0x1000_0000, count, true)]
                + Words(buffer[..256 * count]) + [Request(0xE7, drive % 2, lba % 0x1000_0000, count, true)]
    {
      ghost var before := log;
      Address(drive, lba, count);
      OutB(ATA_STATUS, ATA_CMD_WRITE);
      CommandIssues(before, drive, lba, count, ATA_CMD_WRITE);
      OutWords(buffer, 256 * count);
      FlushIssues(log, drive, lba, count);
      OutB(ATA_STATUS, ATA_CMD_FLUSH);
    }

    /** `outsw` to the data register: the words in order */
    method OutWords(buffer: array<uint16>, count: nat)
      requires count <= buffer.Length
      modifies this
      ensures log == old(log) + WordWrites(buffer[..count])
      ensures Received(log) == Received(old(log)) + Words(buffer[..count]) && Latched(log) == Latched(old(log))
    {
      ghost var start := log;
      var n := 0;
      while n < count
        invariant n <= count && log == start + WordWrites(buffer[..n])
        invariant Received(log) == Received(start) + Words(buffer[..n]) && Latched(log) == Latched(start)
      {
        WordReceived(log, buffer[n]);
        WordsNext(Received(start), buffer[..n], buffer[n]);
        assert buffer[..n + 1] == buffer[..n] + [buffer[n]];
        log := log + [OutWord(ATA_DATA, buffer[n])];
        n := n + 1;
      }
    }

    /** The five writes before the command byte */
    method Address(drive: uint8, lba: uint32, count: uint8)
      modifies this
      ensures log == old(log) + AddressWrites(drive, lba, count)
    {
      OutB(ATA_DRIVE, DeviceByte(drive, lba));
      OutB(ATA_SECTOR_CNT, count);
      LbaBytes(lba);
      OutB(ATA_LBA_LOW, And(lba, 0xFF));
      OutB(ATA_LBA_MID, And(Shr(lba, 8), 0xFF));
      OutB(ATA_LBA_HIGH, And(Shr(lba, 16), 0xFF));
    }
  }

  lemma LbaBytes(lba: uint32)
    ensures And(lba, 0xFF) == lba % 0x100
    ensures And(Shr(lba, 8), 0xFF) == lba / 0x100 % 0x100
    ensures And(Shr(lba, 16), 0xFF) == lba / 0x1_0000 % 0x100
  {
    Pow2Values();
    AndMask(lba, 8);
    ShrIsQuotient(lba, 8);
    AndMask(Shr(lba, 8), 8);
    ShrIsQuotient(lba, 16);
    AndMask(Shr(lba, 16), 8);
  }

  function AddressWrites(drive: uint8, lba: uint32, count: uint8): seq<PortWrite> {
    [Out(ATA_DRIVE, DeviceByte(drive, lba)), Out(ATA_SECTOR_CNT, count), Out(ATA_LBA_LOW, lba % 0x100),
     Out(ATA_LBA_MID, lba / 0x100 % 0x100), Out(ATA_LBA_HIGH, lba / 0x1_0000 % 0x100)]
  }

  function Addressed(drive: uint8, lba: uint32, count: uint8): Registers {
    Registers(count, lba % 0x100, lba / 0x100 % 0x100, lba / 0x1_0000 % 0x100, DeviceByte(drive, lba))
  }

  lemma WordReceived(log: seq<PortWrite>, word: uint16)
    ensures Received(log + [OutWord(ATA_DATA, word)]) == Received(log) + [Word(word)]
    ensures Latched(log + [OutWord(ATA_DATA, word)]) == Latched(log)
  {
    assert (log + [OutWord(ATA_DATA, word)])[..|log|] == log;
  }

  lemma WordsNext(rs: seq<Receipt>, ws: seq<uint16>, word: uint16)
    ensures rs + Words(ws + [word]) == (rs + Words(ws)) + [Word(word)]
  {
    assert Words(ws + [word]) == Words(ws) + [Word(word)];
  }

  lemma WriteNext(log: seq<PortWrite>, w: PortWrite)
    requires w.Out?
    ensures w.port == ATA_STATUS ==> Received(log + [w]) == Received(log) + [RequestOf(Latched(log), w.value)]
    ensures w.port != ATA_STATUS ==> Received(log + [w]) == Received(log)
    ensures Latched(log + [w]) ==
            var regs := Latched(log);
            if w.port == ATA_SECTOR_CNT then regs.(count := w.value)
            else if w.port == ATA_LBA_LOW then regs.(low := w.value)
            else if w.port == ATA_LBA_MID then regs.(mid := w.value)
            else if w.port == ATA_LBA_HIGH then regs.(high := w.value)
            else if w.port == ATA_DRIVE then regs.(device := w.value)
            else regs
  {
    assert (log + [w])[..|log|] == log;
  }

  lemma AddressLatches(before: seq<PortWrite>, drive: uint8, lba: uint32, count: uint8)
    ensures Latched(before + AddressWrites(drive, lba, count)) == Addressed(drive, lba, count)
    ensures Received(before + AddressWrites(drive, lba, count)) == Received(before)
  {
    var ws := AddressWrites(drive, lba, count);
    var l1 := before + [ws[0]];
    var l2 := l1 + [ws[1]];
    var l3 := l2 + [ws[2]];
    var l4 := l3 + [ws[3]];
    WriteNext(before, ws[0]);
    WriteNext(l1, ws[1]);
    WriteNext(l2, ws[2]);
    WriteNext(l3, ws[3]);
    WriteNext(l4, ws[4]);
    assert before + ws == l4 + [ws[4]];
  }

  /** The drive number (0 or 1) and the low 28 bits of the address can be read back */
  lemma AddressReadsBack(drive: uint8, lba: uint32, count: uint8)
    ensures var regs := Addressed(drive, lba, count);
            regs.Unit() == drive % 2 && regs.Lba() == lba % 0x1000_0000 && regs.LbaMode()
  {
    SplitAddress(lba);
    DeviceBits(drive % 2, lba / 0x100_0000 % 16);
  }

  lemma DeviceBits(unit: nat, top: nat)
    requires unit < 2 && top < 16
    ensures var b := 0xE0 + 16 * unit + top; b % 16 == top && b / 16 % 2 == unit && b / 64 % 2 == 1
  {
    DivModUnique(0xE0 + 16 * unit + top, 16, 14 + unit, top);
  }

  lemma SplitAddress(lba: uint32)
    ensures lba % 0x1000_0000 == lba % 0x100 + lba / 0x100 % 0x100 * 0x100 + lba / 0x1_0000 % 0x100 * 0x1_0000
                                 + lba / 0x100_0000 % 16 * 0x100_0000
  {
    var l1 := lba / 0x100;
    var l2 := l1 / 0x100;
    var l3 := l2 / 0x100;
    assert l2 == lba / 0x1_0000 && l3 == lba / 0x100_0000;
    var low := lba % 0x100 + l1 % 0x100 * 0x100 + l2 % 0x100 * 0x1_0000 + l3 % 16 * 0x100_0000;
    DivModUnique(lba, 0x1000_0000, l3 / 16, low);
  }

  lemma CommandIssues(before: seq<PortWrite>, drive: uint8, lba: uint32, count: uint8, command: uint8)
    ensures var log := before + AddressWrites(drive, lba, count) + [Out(ATA_STATUS, command)];
            && Received(log) == Received(before) + [Request(command, drive % 2, lba % 0x1000_0000, count, true)]
            && Latched(log) == Addressed(drive, lba, count)
  {
    AddressLatches(before, drive, lba, count);
    AddressReadsBack(drive, lba, count);
    WriteNext(before + AddressWrites(drive, lba, count), Out(ATA_STATUS, command));
  }

  lemma FlushIssues(log: seq<PortWrite>, drive: uint8, lba: uint32, count: uint8)
    requires Latched(log) == Addressed(drive, lba, count)
    ensures Received(log + [Out(ATA_STATUS, ATA_CMD_FLUSH)]) ==
            Received(log) + [Request(ATA_CMD_FLUSH, drive % 2, lba % 0x1000_0000, count, true)]
  {
    AddressReadsBack(drive, lba, count);
    WriteNext(log, Out(ATA_STATUS, ATA_CMD_FLUSH));
  }

  /** Two addresses get the same register settings exactly when they name the same drive of
      the pair and agree in 28 bits */
  lemma SettingsDetermineAddress(d1: uint8, l1: uint32, d2: uint8, l2: uint32, count: uint8)
    ensures Addressed(d1, l1, count) == Addressed(d2, l2, count) <==>
            d1 % 2 == d2 % 2 && l1 % 0x1000_0000 == l2 % 0x1000_0000
  {
    AddressReadsBack(d1, l1, count);
    AddressReadsBack(d2, l2, count);
    if d1 % 2 == d2 % 2 && l1 % 0x1000_0000 == l2 % 0x1000_0000 {
      SameDigits(l1, l2);
    }
  }

  lemma SameDigits(l1: uint32, l2: uint32)
    requires l1 % 0x1000_0000 == l2 % 0x1000_0000
    ensures l1 % 0x100 == l2 % 0x100 && l1 / 0x100 % 0x100 == l2 / 0x100 % 0x100
    ensures l1 / 0x1_0000 % 0x100 == l2 / 0x1_0000 % 0x100 && l1 / 0x100_0000 % 16 == l2 / 0x100_0000 % 16
  {
    SplitAddress(l1);
    SplitAddress(l2);
    UniqueDigits(l1 % 0x100, l1 / 0x100 % 0x100, l1 / 0x1_0000 % 0x100, l1 / 0x100_0000 % 16,
                 l2 % 0x100, l2 / 0x100 % 0x100, l2 / 0x1_0000 % 0x100, l2 / 0x100_0000 % 16);
  }

  lemma UniqueDigits(a0: uint8, a1: uint8, a2: uint8, a3: uint8, b0: uint8, b1: uint8, b2: uint8, b3: uint8)
    requires a0 + a1 * 0x100 + a2 * 0x1_0000 + a3 * 0x100_0000 == b0 + b1 * 0x100 + b2 * 0x1_0000 + b3 * 0x100_0000
    ensures a0 == b0 && a1 == b1 && a2 == b2 && a3 == b3
  {
    assert a3 == b3;
    assert a2 == b2;
  }

  /** Below 2^28 sectors, and for the drives 0 and 1, the settings determine the address */
  lemma SettingsAreInjective(d1: uint8, l1: uint32, d2: uint8, l2: uint32, count: uint8)
    requires d1 < 2 && d2 < 2 && l1 < 0x1000_0000 && l2 < 0x1000_0000
    ensures Addressed(d1, l1, count) == Addressed(d2, l2, count) <==> d1 == d2 && l1 == l2
  {
    AddressReadsBack(d1, l1, count);
    AddressReadsBack(d2, l2, count);
    OwnRemainder(l1, 0x1000_0000);
    OwnRemainder(l2, 0x1000_0000);
    OwnRemainder(d1, 2);
    OwnRemainder(d2, 2);
    var a1, a2 := Addressed(d1, l1, count), Addressed(d2, l2, count);
    if a1 == a2 {
      assert a1.Unit() == a2.Unit() && a1.Lba() == a2.Lba();
    }
  }

  lemma OwnRemainder(v: nat, m: nat)
    requires v < m
    ensures v % m == v
  {
  }
}
