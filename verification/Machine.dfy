/** What the two instruction-set models share: partial step functions and sign extension. */
module Machine {
  import opened Bytes
  import opened Options

  function SignExtend8(b: Byte): int
  {
    if b < 0x80 then b else b - 0x100
  }

  function SignExtend32(v: nat): int
  {
    if v < TWO_TO_THE_31 then v else v - TWO_TO_THE_32
  }

  /** `steps` applications of `step`, `None` once one of them is stuck. */
  ghost function Iterate<C(!new)>(step: C -> Option<C>, c: C, steps: nat): Option<C>
    decreases steps
  {
    if steps == 0 then Some(c)
    else match step(c)
      case Some(d) => Iterate(step, d, steps - 1)
      case None => None
  }

  lemma {:induction false} IterateAppend<C(!new)>(step: C -> Option<C>, c: C, k1: nat, k2: nat)
    requires Iterate(step, c, k1).Some?
    ensures Iterate(step, c, k1 + k2) == Iterate(step, Iterate(step, c, k1).value, k2)
    decreases k1
  {
    if k1 > 0 {
      IterateAppend(step, step(c).value, k1 - 1, k2);
    }
  }
}
