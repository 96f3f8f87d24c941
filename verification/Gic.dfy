/**
 The shared peripheral interrupts of the distributor: spi.c packs their settings into
 arrays of registers, and gic_irq_enable of gicv3.c configures one of them. The registers
 behave as a plain map from INTID to settings.
 */
module Gic {
  import opened Words
  import opened Numerals
  import opened Bits

  const EINVAL: int := 22
  const SPI_FIRST_INTID: int := 32
  const SPI_LAST_INTID: int := 1019
  const GICD_ICFGR_LEVEL_SENSITIVE: u32 := 0x0
  const GICD_ICFGR_EDGE_TRIGGERED: u32 := 0x2

  /** The fields that the registers hold for each of 1024 INTIDs. */
  const INTIDS: int := 1024

  predicate IsSpi(intid: nat) { SPI_FIRST_INTID <= intid <= SPI_LAST_INTID }

  /** The words of the registers; `enable` is what ISENABLER and ICENABLER both read as. */
  datatype Regs = Regs(enable: seq<u32>, priority: seq<u32>, config: seq<u32>, group: seq<u32>, modifier: seq<u32>)

  predicate WellSized(r: Regs) {
    |r.enable| == 32 && |r.priority| == 256 && |r.config| == 64 && |r.group| == 32 && |r.modifier| == 32
  }

  /** The settings of one interrupt. */
  datatype Spi = Spi(enabled: bool, priority: nat, trigger: nat, group: bool, modifier: bool)

  /** Where the registers keep the settings of an INTID. */
  function SpiOf(r: Regs, id: nat): Spi
    requires WellSized(r) && id < INTIDS
  {
    Spi(Bit(r.enable[id / 32], id % 32),
        Field(r.priority[id / 4], id % 4 * 8, 8),
        Field(r.config[id / 16], id % 16 * 2, 2),
        Bit(r.group[id / 32], id % 32),
        Bit(r.modifier[id / 32], id % 32))
  }

  function View(r: Regs): map<nat, Spi>
    requires WellSized(r)
  {
    map id: nat | id < INTIDS :: SpiOf(r, id)
  }

  // ----- what a write to one register does to the fields of all INTIDs

  lemma BitWrite(ws: seq<u32>, intid: nat, b: bool, id: nat)
    requires |ws| == 32 && intid < INTIDS && id < INTIDS
    ensures var ws' := ws[intid / 32 := BitPut(ws[intid / 32], intid % 32, b)];
            Bit(ws'[id / 32], id % 32) == if id == intid then b else Bit(ws[id / 32], id % 32)
  {
    BitPutIs(ws[intid / 32], intid % 32, b, id % 32);
  }

  lemma PriorityWrite(ws: seq<u32>, intid: nat, v: u8, id: nat)
    requires |ws| == 256 && intid < INTIDS && id < INTIDS
    ensures var ws' := ws[intid / 4 := Insert(ws[intid / 4], 0xFF, v, intid % 4 * 8)];
            Field(ws'[id / 4], id % 4 * 8, 8) == if id == intid then v else Field(ws[id / 4], id % 4 * 8, 8)
  {
    Pow8();
    if id == intid {
      FieldInserted(ws[intid / 4], 0xFF, v, intid % 4 * 8, 8);
    } else if id / 4 == intid / 4 {
      FieldBeside(ws[intid / 4], 0xFF, v, intid % 4 * 8, 8, id % 4 * 8);
    }
  }

  lemma TriggerWrite(ws: seq<u32>, intid: nat, v: u32, id: nat)
    requires |ws| == 64 && intid < INTIDS && id < INTIDS && v < 4
    ensures var ws' := ws[intid / 16 := Insert(ws[intid / 16], 0x3, v, intid % 16 * 2)];
            Field(ws'[id / 16], id % 16 * 2, 2) == if id == intid then v else Field(ws[id / 16], id % 16 * 2, 2)
  {
    assert Pow2(2) == 4;
    if id == intid {
      FieldInserted(ws[intid / 16], 0x3, v, intid % 16 * 2, 2);
    } else if id / 16 == intid / 16 {
      FieldBeside(ws[intid / 16], 0x3, v, intid % 16 * 2, 2, id % 16 * 2);
    }
  }

  /** The high bit of a trigger field says whether the interrupt is edge-triggered; the low one is clear. */
  lemma TriggerBits(w: u32, bit: nat, edge: bool)
    requires bit < 31 && Field(w, bit, 2) == if edge then 0x2 else 0x0
    ensures Bit(w, bit + 1) == edge && !Bit(w, bit)
  {
    FieldBit(w, bit, 2, 0);
    FieldBit(w, bit, 2, 1);
  }

  lemma Pow8()
    ensures Pow2(8) == 0x100
  {
    assert Pow2(2) == 4;
    PowSum(2, 2);
    PowSum(4, 4);
  }

  // ----- the registers are determined by the map

  lemma SameWord(a: u32, b: u32)
    requires SameBits(a, b, 32)
    ensures a == b
  {
    Pow32();
    BitsDetermine(a, b, 32);
  }

  ghost predicate SameView(a: Regs, b: Regs)
    requires WellSized(a) && WellSized(b)
  {
    forall id: nat :: id < INTIDS ==> SpiOf(a, id) == SpiOf(b, id)
  }

  /** The field of an INTID, bit by bit: `per` INTIDs to a register, `n` bits each. */
  lemma WordsFromFields(a: u32, b: u32, per: nat, n: nat)
    requires (per == 4 && n == 8) || (per == 16 && n == 2)
    requires forall j: nat :: j < per ==> Field(a, j * n, n) == Field(b, j * n, n)
    ensures a == b
  {
    forall i: nat | i < 32 ensures Bit(a, i) == Bit(b, i) {
      var j, k := i / n, i % n;
      assert i == j * n + k;
      assert Field(a, j * n, n) == Field(b, j * n, n);
      FieldBit(a, j * n, n, k);
      FieldBit(b, j * n, n, k);
    }
    SameWord(a, b);
  }

  lemma ViewDeterminesBits(a: seq<u32>, b: seq<u32>)
    requires |a| == |b| == 32 && forall id: nat :: id < INTIDS ==> Bit(a[id / 32], id % 32) == Bit(b[id / 32], id % 32)
    ensures a == b
  {
    forall k | 0 <= k < 32 ensures a[k] == b[k] {
      forall i | 0 <= i < 32 ensures Bit(a[k], i) == Bit(b[k], i) {
        var id: nat := k * 32 + i;
        assert id / 32 == k && id % 32 == i;
      }
      SameWord(a[k], b[k]);
    }
  }

  lemma ViewDeterminesPriority(a: Regs, b: Regs)
    requires WellSized(a) && WellSized(b) && SameView(a, b)
    ensures a.priority == b.priority
  {
    forall k | 0 <= k < 256 ensures a.priority[k] == b.priority[k] {
      forall j: nat | j < 4 ensures Field(a.priority[k], j * 8, 8) == Field(b.priority[k], j * 8, 8) {
        var id: nat := k * 4 + j;
        assert SpiOf(a, id).priority == SpiOf(b, id).priority && id / 4 == k && id % 4 == j;
      }
      WordsFromFields(a.priority[k], b.priority[k], 4, 8);
    }
  }

  lemma ViewDeterminesConfig(a: Regs, b: Regs)
    requires WellSized(a) && WellSized(b) && SameView(a, b)
    ensures a.config == b.config
  {
    forall k | 0 <= k < 64 ensures a.config[k] == b.config[k] {
      forall j: nat | j < 16 ensures Field(a.config[k], j * 2, 2) == Field(b.config[k], j * 2, 2) {
        var id: nat := k * 16 + j;
        assert SpiOf(a, id).trigger == SpiOf(b, id).trigger && id / 16 == k && id % 16 == j;
      }
      WordsFromFields(a.config[k], b.config[k], 16, 2);
    }
  }

  /** The map says everything about the registers: no bit of them is outside it. */
  lemma ViewDeterminesRegs(a: Regs, b: Regs)
    requires WellSized(a) && WellSized(b) && View(a) == View(b)
    ensures a == b
  {
    forall id: nat | id < INTIDS ensures SpiOf(a, id) == SpiOf(b, id) {
      assert View(a)[id] == View(b)[id];
    }
    ViewDeterminesPriority(a, b);
    ViewDeterminesConfig(a, b);
    ViewDeterminesFlags(a, b);
  }

  lemma ViewDeterminesFlags(a: Regs, b: Regs)
    requires WellSized(a) && WellSized(b) && SameView(a, b)
    ensures a.enable == b.enable && a.group == b.group && a.modifier == b.modifier
  {
    assert a.enable == b.enable by {
      forall id: nat | id < INTIDS ensures Bit(a.enable[id / 32], id % 32) == Bit(b.enable[id / 32], id % 32) {
        assert SpiOf(a, id).enabled == SpiOf(b, id).enabled;
      }
      ViewDeterminesBits(a.enable, b.enable);
    }
    assert a.group == b.group by {
      forall id: nat | id < INTIDS ensures Bit(a.group[id / 32], id % 32) == Bit(b.group[id / 32], id % 32) {
        assert SpiOf(a, id).group == SpiOf(b, id).group;
      }
      ViewDeterminesBits(a.group, b.group);
    }
    assert a.modifier == b.modifier by {
      forall id: nat | id < INTIDS ensures Bit(a.modifier[id / 32], id % 32) == Bit(b.modifier[id / 32], id % 32) {
        assert SpiOf(a, id).modifier == SpiOf(b, id).modifier;
      }
      ViewDeterminesBits(a.modifier, b.modifier);
    }
  }
}
