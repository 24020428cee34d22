/** Operations at given times, and the saturating clock arithmetic of the
    registries. */
module Clock {

  const U64_MAX: nat := 0xFFFF_FFFF_FFFF_FFFF

  function SaturatingAdd(a: nat, b: nat): nat {
    if a + b > U64_MAX then U64_MAX else a + b
  }

  datatype Timed<Op> = Timed(op: Op, at: nat)

  /** No operation is earlier than the one before it, nor than `clock`. */
  ghost predicate Monotone<Op>(run: seq<Timed<Op>>, clock: nat)
    decreases |run|
  {
    run == [] || (clock <= run[0].at && Monotone(run[1..], run[0].at))
  }
}
