/**
 A memory location and its exclusive reservations, one for each CPU (section B2.9 of
 Arm DDI 0487 issue F): a load-exclusive takes a reservation, any write by another
 CPU clears it, and a store-exclusive needs it. A store-exclusive may also fail for
 no reason. Steps are sequentially consistent.
 */
module Exclusive {
  datatype Cell = Cell(value: nat, reserved: set<nat>)

  /** `ldxr` and its variants; the value read is `cell.value`. */
  function LoadEx(cell: Cell, cpu: nat): Cell {
    cell.(reserved := cell.reserved + {cpu})
  }

  /** A successful `stxr`: every reservation is gone afterwards. */
  function StoreEx(cell: Cell, cpu: nat, v: nat): Cell
    requires cpu in cell.reserved
  {
    Cell(v, {})
  }

  /** A failed `stxr`. */
  function FailEx(cell: Cell, cpu: nat): Cell {
    cell.(reserved := cell.reserved - {cpu})
  }

  /** A plain store clears the reservations of the other CPUs. */
  function Store(cell: Cell, cpu: nat, v: nat): Cell {
    Cell(v, cell.reserved * {cpu})
  }
}
