/** Conversions between bytes, MiB and sectors, in 64-bit arithmetic. */
module Units {
  import opened Arithmetic
  import opened Bytes

  const MIB: int := 0x10_0000

  function RoundUp(val: uint64, multiple: uint64): uint64 {
    if multiple == 0 || val % multiple == 0 then val else U64(val + multiple - val % multiple)
  }

  function ToUnitCeiling(val: uint64, unit: uint64): uint64
    requires unit > 0
  {
    DivBound(RoundUp(val, unit), unit);
    RoundUp(val, unit) / unit
  }

  function ToMib(val: uint64): uint64 {
    ToUnitCeiling(val, MIB)
  }

  function ToMibFloor(val: uint64): uint64 {
    val / MIB
  }

  function MibToLba(lbaSize: uint32, mib: uint64): uint64
    requires lbaSize > 0
  {
    DivBound(U64(mib * MIB), lbaSize);
    U64(mib * MIB) / lbaSize
  }

  /** Rounding up gives the least count of units that holds the value. */
  lemma CeilingIsLeast(val: uint64, unit: uint64)
    requires 0 < unit && val + unit <= 0x1_0000_0000_0000_0000
    ensures var n := ToUnitCeiling(val, unit);
      val <= n * unit < val + unit && forall k :: val <= k * unit ==> n <= k
  {
    var r, n := val % unit, ToUnitCeiling(val, unit);
    var q := val / unit;
    assert val == unit * q + r;
    if r == 0 {
      assert n == q;
    } else {
      assert val + unit - r == unit * (q + 1);
      DivModUnique(val + unit - r, unit, q + 1, 0);
      assert n == q + 1;
    }
    assert n * unit == if r == 0 then val else val + unit - r;
    forall k | val <= k * unit ensures n <= k {
      MulCancel(n - 1, k, unit);
    }
  }
}
