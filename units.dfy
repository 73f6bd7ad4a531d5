/** Size units and `calculateDiskSize` (main.go:142-151). */
module Units {
  import opened Bytes
  import opened Int64
  import opened Outcomes

  const UNIT_B: seq<byte> := Str("B")
  const UNIT_K: seq<byte> := Str("K")
  const UNIT_M: seq<byte> := Str("M")

  /** `size * 1024` and `size * 1024 * 1024` as Go computes them: each product wraps. */
  function CalculateDiskSize(size: int64, unit: seq<byte>): (r: Result<int64>)
  {
    if unit == UNIT_K then Ok(Wrap(size as int * 1024))
    else if unit == UNIT_M then Ok(Wrap(Wrap(size as int * 1024) * 1024))
    else Err(InvalidUnit)
  }

  /** K means 1024 bytes and M 1024 * 1024 bytes, up to int64 wrap-around; every other
      unit, "B" included, is an error. */
  lemma CalculateDiskSizeUnits(size: int64, unit: seq<byte>)
    ensures CalculateDiskSize(size, unit).Err? <==> unit != UNIT_K && unit != UNIT_M
    ensures CalculateDiskSize(size, unit).Err? ==> CalculateDiskSize(size, unit).error == InvalidUnit
    ensures unit == UNIT_K ==> CalculateDiskSize(size, unit).value == Wrap(size as int * 1024)
    ensures unit == UNIT_M ==> CalculateDiskSize(size, unit).value == Wrap(size as int * 1048576)
    ensures unit == UNIT_K && size as int * 1024 < TWO_63 && size >= 0 ==> CalculateDiskSize(size, unit).value == size as int * 1024
    ensures unit == UNIT_M && size as int * 1048576 < TWO_63 && size >= 0 ==>
              CalculateDiskSize(size, unit).value == size as int * 1048576
  {
    assert UNIT_K != UNIT_M by { assert UNIT_K[0] == 75 && UNIT_M[0] == 77; }
    WrapMul(size as int * 1024, 1024);
    assert size as int * 1024 * 1024 == size as int * 1048576;
  }

  lemma CalculateDiskSizeExamples()
    ensures CalculateDiskSize(10, UNIT_K) == Ok(10240)
    ensures CalculateDiskSize(5, UNIT_M) == Ok(5242880)
    ensures CalculateDiskSize(5, UNIT_B) == Err(InvalidUnit)
  {
    assert UNIT_K != UNIT_M && UNIT_B != UNIT_K && UNIT_B != UNIT_M by {
      assert UNIT_K[0] == 75 && UNIT_M[0] == 77 && UNIT_B[0] == 66;
    }
  }
}
