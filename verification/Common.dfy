/** Types and small facts about sequences shared by the components. */
module Common {

  type byte = b: int | 0 <= b < 256

  datatype Option<T> = None | Some(value: T)

  /** The paths below the first i + 1 entries of p are those below the first i, and those through
      entry i. */
  lemma StepPath(p: seq<nat>, i: nat, q: seq<nat>)
    ensures p < q && q[|p|] < i + 1 <==> (p < q && q[|p|] < i) || p + [i] <= q
  {
    if p < q && q[|p|] == i {
      assert q == p + [i] + q[|p| + 1..];
    }
  }
}
