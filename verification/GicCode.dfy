/**
 spi.c and gic_irq_enable of gicv3.c as code over the register arrays, proved against the
 map of `Gic`. ISENABLER sets and ICENABLER clears the bits that are written as one, and
 both read as the same enable bits (section 12.9 of Arm IHI 0069).
 */
module GicCode {
  import opened Words
  import opened Numerals
  import opened Bits
  import opened Gic

  /** Only the settings of `intid` change, and to `spi`. */
  ghost predicate Changes(a: Regs, b: Regs, intid: nat, spi: Spi)
    requires WellSized(a)
  {
    WellSized(b) && forall id: nat :: id < INTIDS ==> SpiOf(b, id) == if id == intid then spi else SpiOf(a, id)
  }

  /** The operations of spi.c, and what each does to a plain map. */
  datatype Op =
    | SetEnable(intid: u32, on: bool)
    | SetPriority(intid: u32, priority: u8)
    | SetTrigger(intid: u32, edge: bool)
    | SetSecurity(intid: u32, group: bool, secure: bool)

  function TriggerCode(edge: bool): u32 {
    if edge then GICD_ICFGR_EDGE_TRIGGERED else GICD_ICFGR_LEVEL_SENSITIVE
  }

  function Set(spi: Spi, op: Op): Spi {
    match op
    case SetEnable(_, on) => spi.(enabled := on)
    case SetPriority(_, p) => spi.(priority := p)
    case SetTrigger(_, edge) => spi.(trigger := TriggerCode(edge))
    case SetSecurity(_, group, secure) => if group then spi.(group := !secure) else spi.(modifier := !secure)
  }

  function MapStep(m: map<nat, Spi>, op: Op): map<nat, Spi> {
    if IsSpi(op.intid) && op.intid in m then m[op.intid := Set(m[op.intid], op)] else m
  }

  function MapRun(m: map<nat, Spi>, ops: seq<Op>): map<nat, Spi> {
    if ops == [] then m else MapStep(MapRun(m, ops[..|ops| - 1]), ops[|ops| - 1])
  }

  lemma ChangesIsMapStep(a: Regs, b: Regs, op: Op)
    requires WellSized(a) && IsSpi(op.intid) && Changes(a, b, op.intid, Set(SpiOf(a, op.intid), op))
    ensures View(b) == MapStep(View(a), op)
  {
  }

  class Gicd {
    const enable: array<u32>
    const ipriorityr: array<u32>
    const icfgr: array<u32>
    const igroupr: array<u32>
    const igrpmodr: array<u32>
    /** The state after each write so far. */
    ghost var trace: seq<Regs>

    ghost predicate Valid() {
      && enable.Length == igroupr.Length == igrpmodr.Length == 32 && ipriorityr.Length == 256 && icfgr.Length == 64
      && enable != igroupr && enable != igrpmodr && igroupr != igrpmodr
    }

    ghost function State(): Regs
      reads enable, ipriorityr, icfgr, igroupr, igrpmodr
    {
      Regs(enable[..], ipriorityr[..], icfgr[..], igroupr[..], igrpmodr[..])
    }

    constructor (e: array<u32>, p: array<u32>, c: array<u32>, g: array<u32>, m: array<u32>)
      requires e.Length == g.Length == m.Length == 32 && p.Length == 256 && c.Length == 64
      requires e != g && e != m && g != m
      ensures Valid() && trace == [] && State() == Regs(e[..], p[..], c[..], g[..], m[..])
    {
      enable, ipriorityr, icfgr, igroupr, igrpmodr := e, p, c, g, m;
      trace := [];
    }

    // ----- the registers as the hardware has them

    method WriteIsenabler(reg: nat, value: u32)
      requires Valid() && reg < 32
      modifies enable, `trace
      ensures State() == old(State()).(enable := old(enable[..])[reg := Or(old(enable[reg]), value)])
      ensures trace == old(trace) + [State()]
    {
      enable[reg] := Or(enable[reg], value);
      trace := trace + [State()];
    }

    method WriteIcenabler(reg: nat, value: u32)
      requires Valid() && reg < 32
      modifies enable, `trace
      ensures State() == old(State()).(enable := old(enable[..])[reg := And(old(enable[reg]), Not(value))])
      ensures trace == old(trace) + [State()]
    {
      enable[reg] := And(enable[reg], Not(value));
      trace := trace + [State()];
    }

    method Write(bank: array<u32>, reg: nat, value: u32)
      requires Valid() && bank in {ipriorityr, icfgr, igroupr, igrpmodr} && reg < bank.Length
      modifies bank, `trace
      ensures bank[..] == old(bank[..])[reg := value]
      ensures trace == old(trace) + [State()]
    {
      bank[reg] := value;
      trace := trace + [State()];
    }

    // ----- spi.c

    /** __gicd_set_clear_spi */
    method SetClearSpi(intid: u32, on: bool) returns (ret: int)
      requires Valid()
      modifies enable, `trace
      ensures !IsSpi(intid) ==> ret == -EINVAL && State() == old(State()) && trace == old(trace)
      ensures IsSpi(intid) ==> ret == 0 && trace == old(trace) + [State()]
      ensures IsSpi(intid) ==> Changes(old(State()), State(), intid, old(SpiOf(State(), intid)).(enabled := on))
      ensures 32 <= intid <= 1019 ==> Bit(enable[intid / 32], intid % 32) == on
    {
      if !IsSpi(intid) {
        return -EINVAL;
      }
      ghost var ws := enable[..];
      var reg, bit := intid / 32, intid % 32;
      if on {
        WriteIsenabler(reg, Shl(1, bit));
      } else {
        WriteIcenabler(reg, Shl(1, bit));
      }
      forall id: nat | id < INTIDS
        ensures Bit(enable[id / 32], id % 32) == if id == intid then on else Bit(ws[id / 32], id % 32)
      {
        BitWrite(ws, intid, on, id);
      }
      ret := 0;
    }

    /** __gicd_spi_set_priority */
    method SpiSetPriority(intid: u32, priority: u8) returns (ret: int)
      requires Valid()
      modifies ipriorityr, `trace
      ensures !IsSpi(intid) ==> ret == -EINVAL && State() == old(State()) && trace == old(trace)
      ensures IsSpi(intid) ==> ret == 0 && trace == old(trace) + [State()]
      ensures IsSpi(intid) ==> Changes(old(State()), State(), intid, old(SpiOf(State(), intid)).(priority := priority))
      ensures 32 <= intid <= 1019 ==> Field(ipriorityr[intid / 4], intid % 4 * 8, 8) == priority
    {
      if !IsSpi(intid) {
        return -EINVAL;
      }
      ghost var ws := ipriorityr[..];
      var reg, byte := intid / 4, intid % 4;
      var value := ipriorityr[reg];
      value := And(value, Not(Shl(0xFF, byte * 8)));
      value := Or(value, Shl(priority, byte * 8));
      Write(ipriorityr, reg, value);
      forall id: nat | id < INTIDS
        ensures Field(ipriorityr[id / 4], id % 4 * 8, 8) ==
                if id == intid then priority else Field(ws[id / 4], id % 4 * 8, 8)
      {
        PriorityWrite(ws, intid, priority, id);
      }
      ret := 0;
    }

    /** __gicd_spi_set_trigger */
    method SpiSetTrigger(intid: u32, edge: bool) returns (ret: int)
      requires Valid()
      modifies icfgr, `trace
      ensures !IsSpi(intid) ==> ret == -EINVAL && State() == old(State()) && trace == old(trace)
      ensures IsSpi(intid) ==> ret == 0 && trace == old(trace) + [State()]
      ensures IsSpi(intid) ==>
                Changes(old(State()), State(), intid, old(SpiOf(State(), intid)).(trigger := TriggerCode(edge)))
      ensures 32 <= intid <= 1019 ==>
                Bit(icfgr[intid / 16], intid % 16 * 2 + 1) == edge && !Bit(icfgr[intid / 16], intid % 16 * 2)
    {
      if !IsSpi(intid) {
        return -EINVAL;
      }
      ghost var ws := icfgr[..];
      var reg, bit := intid / 16, intid % 16 * 2;
      var value := icfgr[reg];
      value := And(value, Not(Shl(0x3, bit)));
      value := Or(value, Shl(if edge then GICD_ICFGR_EDGE_TRIGGERED else GICD_ICFGR_LEVEL_SENSITIVE, bit));
      Write(icfgr, reg, value);
      forall id: nat | id < INTIDS
        ensures Field(icfgr[id / 16], id % 16 * 2, 2) ==
                if id == intid then TriggerCode(edge) else Field(ws[id / 16], id % 16 * 2, 2)
      {
        TriggerWrite(ws, intid, TriggerCode(edge), id);
      }
      TriggerBits(icfgr[reg], bit, edge);
      ret := 0;
    }

    /** __gicd_spi_set_security: the group bit, or for group 0 the modifier bit alone. */
    method SpiSetSecurity(intid: u32, group: bool, secure: bool) returns (ret: int)
      requires Valid()
      modifies igroupr, igrpmodr, `trace
      ensures !IsSpi(intid) ==> ret == -EINVAL && State() == old(State()) && trace == old(trace)
      ensures IsSpi(intid) ==> ret == 0 && trace == old(trace) + [State()]
      ensures IsSpi(intid) && group ==>
                Changes(old(State()), State(), intid, old(SpiOf(State(), intid)).(group := !secure))
      ensures IsSpi(intid) && !group ==>
                Changes(old(State()), State(), intid, old(SpiOf(State(), intid)).(modifier := !secure))
      ensures 32 <= intid <= 1019 && group ==> Bit(igroupr[intid / 32], intid % 32) == !secure
      ensures 32 <= intid <= 1019 && !group ==> Bit(igrpmodr[intid / 32], intid % 32) == !secure
    {
      if !IsSpi(intid) {
        return -EINVAL;
      }
      var bank := if group then igroupr else igrpmodr;
      ghost var ws := bank[..];
      var reg, bit := intid / 32, intid % 32;
      var value := bank[reg];
      if secure {
        value := And(value, Not(Shl(1, bit)));
      } else {
        value := Or(value, Shl(1, bit));
      }
      Write(bank, reg, value);
      forall id: nat | id < INTIDS
        ensures Bit(bank[id / 32], id % 32) == if id == intid then !secure else Bit(ws[id / 32], id % 32)
      {
        BitWrite(ws, intid, !secure, id);
      }
      ret := 0;
    }

    method Dispatch(op: Op) returns (ret: int)
      requires Valid()
      modifies enable, ipriorityr, icfgr, igroupr, igrpmodr, `trace
      ensures !IsSpi(op.intid) ==> ret == -EINVAL && State() == old(State()) && trace == old(trace)
      ensures IsSpi(op.intid) ==> ret == 0
      ensures IsSpi(op.intid) ==> Changes(old(State()), State(), op.intid, Set(old(SpiOf(State(), op.intid)), op))
    {
      match op
      case SetEnable(intid, on) => ret := SetClearSpi(intid, on);
      case SetPriority(intid, p) => ret := SpiSetPriority(intid, p);
      case SetTrigger(intid, edge) => ret := SpiSetTrigger(intid, edge);
      case SetSecurity(intid, group, secure) => ret := SpiSetSecurity(intid, group, secure);
    }

    /** One operation of spi.c: on the map, one setting of one interrupt. */
    method Do(op: Op) returns (ret: int)
      requires Valid()
      modifies enable, ipriorityr, icfgr, igroupr, igrpmodr, `trace
      ensures ret == if IsSpi(op.intid) then 0 else -EINVAL
      ensures View(State()) == MapStep(old(View(State())), op)
      ensures !IsSpi(op.intid) ==> trace == old(trace)
    {
      ghost var before := State();
      ret := Dispatch(op);
      if IsSpi(op.intid) {
        ChangesIsMapStep(before, State(), op);
      }
    }

    /** After any operations the registers are what a plain map would be. */
    method DoAll(ops: seq<Op>)
      requires Valid()
      modifies enable, ipriorityr, icfgr, igroupr, igrpmodr, `trace
      ensures View(State()) == MapRun(old(View(State())), ops)
    {
      var i := 0;
      ghost var m := View(State());
      while i < |ops|
        invariant i <= |ops| && View(State()) == MapRun(m, ops[..i])
      {
        var ret := Do(ops[i]);
        assert ops[..i + 1][..i] == ops[..i];
        i := i + 1;
      }
      assert ops[..i] == ops;
    }

    // ----- gicv3.c

    /**
     gic_irq_enable on an SPI: five writes, of which only the last enables the interrupt. No
     other INTID is touched by any of them, and an INTID out of range is refused before the first.
     */
    method GicIrqEnable(intid: u32, priority: u8, group: bool, edge: bool) returns (ret: int)
      requires Valid()
      modifies enable, ipriorityr, icfgr, igroupr, igrpmodr, `trace
      ensures !IsSpi(intid) ==> ret == -EINVAL && State() == old(State()) && trace == old(trace)
      ensures IsSpi(intid) ==> ret == 0 && |trace| == |old(trace)| + 5 && trace[..|old(trace)|] == old(trace)
      ensures IsSpi(intid) ==>
                var spi := old(SpiOf(State(), intid));
                Changes(old(State()), State(), intid,
                        Spi(true, priority, TriggerCode(edge), group || spi.group, !group || spi.modifier))
      ensures IsSpi(intid) ==> KeepsDisabled(old(State()), trace[|old(trace)|..], intid)
      ensures ret == if 32 <= intid <= 1019 then 0 else -22
      ensures 32 <= intid <= 1019 ==>
                && Bit(enable[intid / 32], intid % 32)
                && Field(ipriorityr[intid / 4], intid % 4 * 8, 8) == priority
                && Bit(icfgr[intid / 16], intid % 16 * 2 + 1) == edge && !Bit(icfgr[intid / 16], intid % 16 * 2)
                && (group ==> Bit(igroupr[intid / 32], intid % 32))
                && (!group ==> Bit(igrpmodr[intid / 32], intid % 32))
    {
      ghost var start, n := State(), |trace|;
      ret := SetClearSpi(intid, false);
      if ret < 0 {
        return ret;
      }
      ghost var r1 := State();
      ret := SpiSetPriority(intid, priority);
      if ret < 0 {
        return ret;
      }
      ghost var r2 := State();
      ret := SpiSetSecurity(intid, group, false);
      if ret < 0 {
        return ret;
      }
      ghost var r3 := State();
      ret := SpiSetTrigger(intid, edge);
      if ret < 0 {
        return ret;
      }
      ghost var r4 := State();
      ret := SetClearSpi(intid, true);
      assert trace[n..] == [r1, r2, r3, r4, State()];
      Composed(start, [r1, r2, r3, r4, State()], intid, priority, group, edge);
      SettingsOf(State(), intid, priority, group, edge);
    }
  }

  /** The writes of gic_irq_enable leave other INTIDs alone, and only the last leaves this one enabled. */
  ghost predicate KeepsDisabled(start: Regs, states: seq<Regs>, intid: nat)
    requires WellSized(start) && intid < INTIDS
  {
    && |states| == 5
    && forall k :: 0 <= k < 5 ==>
         && WellSized(states[k])
         && SpiOf(states[k], intid).enabled == (k == 4)
         && forall id: nat :: id < INTIDS && id != intid ==> SpiOf(states[k], id) == SpiOf(start, id)
  }

  /** Where the settings stand in the registers. */
  lemma SettingsOf(r: Regs, intid: nat, priority: u8, group: bool, edge: bool)
    requires WellSized(r) && IsSpi(intid)
    requires var spi := SpiOf(r, intid);
             && spi.enabled && spi.priority == priority && spi.trigger == TriggerCode(edge)
             && if group then spi.group else spi.modifier
    ensures Bit(r.enable[intid / 32], intid % 32) && Field(r.priority[intid / 4], intid % 4 * 8, 8) == priority
    ensures Bit(r.config[intid / 16], intid % 16 * 2 + 1) == edge && !Bit(r.config[intid / 16], intid % 16 * 2)
    ensures if group then Bit(r.group[intid / 32], intid % 32) else Bit(r.modifier[intid / 32], intid % 32)
  {
    TriggerBits(r.config[intid / 16], intid % 16 * 2, edge);
  }

  lemma ChangesTwice(a: Regs, b: Regs, c: Regs, intid: nat, x: Spi, y: Spi)
    requires WellSized(a) && intid < INTIDS && Changes(a, b, intid, x) && Changes(b, c, intid, y)
    ensures SpiOf(b, intid) == x && Changes(a, c, intid, y)
  {
  }

  lemma Composed(a: Regs, s: seq<Regs>, intid: nat, priority: u8, group: bool, edge: bool)
    requires WellSized(a) && IsSpi(intid) && |s| == 5
    requires Changes(a, s[0], intid, SpiOf(a, intid).(enabled := false))
    requires Changes(s[0], s[1], intid, SpiOf(s[0], intid).(priority := priority))
    requires Changes(s[1], s[2], intid,
                     if group then SpiOf(s[1], intid).(group := true) else SpiOf(s[1], intid).(modifier := true))
    requires Changes(s[2], s[3], intid, SpiOf(s[2], intid).(trigger := TriggerCode(edge)))
    requires Changes(s[3], s[4], intid, SpiOf(s[3], intid).(enabled := true))
    ensures KeepsDisabled(a, s, intid)
    ensures var spi := SpiOf(a, intid);
            Changes(a, s[4], intid,
                    Spi(true, priority, TriggerCode(edge), group || spi.group, !group || spi.modifier))
  {
    var x0 := SpiOf(a, intid).(enabled := false);
    var x1 := x0.(priority := priority);
    var x2 := if group then x1.(group := true) else x1.(modifier := true);
    var x3 := x2.(trigger := TriggerCode(edge));
    ChangesTwice(a, s[0], s[1], intid, x0, x1);
    ChangesTwice(a, s[1], s[2], intid, x1, x2);
    ChangesTwice(a, s[2], s[3], intid, x2, x3);
    ChangesTwice(a, s[3], s[4], intid, x3, x3.(enabled := true));
    AllKept(a, s, intid, [x0, x1, x2, x3, x3.(enabled := true)]);
  }

  lemma AllKept(a: Regs, s: seq<Regs>, intid: nat, xs: seq<Spi>)
    requires WellSized(a) && intid < INTIDS && |s| == |xs| == 5
    requires forall k :: 0 <= k < 5 ==> xs[k].enabled == (k == 4)
    requires Changes(a, s[0], intid, xs[0]) && Changes(a, s[1], intid, xs[1]) && Changes(a, s[2], intid, xs[2])
    requires Changes(a, s[3], intid, xs[3]) && Changes(a, s[4], intid, xs[4])
    ensures KeepsDisabled(a, s, intid)
  {
    forall k | 0 <= k < 5 ensures Changes(a, s[k], intid, xs[k]) {
    }
  }
}
