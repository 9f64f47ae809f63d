/** The two wrappers implement one state machine: on every sequence of the
    operations they share, `Tracked` and `TrackedRef` return the same results
    and end in the same state. */
module Agreement {
  import opened Freshness
  import Value
  import Reference

  /** Shared operations, as operations on a `TrackedRef`. */
  function Lift<T>(ops: seq<Op<T>>): (r: seq<Reference.RefOp<T>>)
    ensures |r| == |ops|
    ensures forall i :: 0 <= i < |ops| ==> r[i] == Reference.Shared(ops[i])
  {
    seq(|ops|, i requires 0 <= i < |ops| => Reference.Shared(ops[i]))
  }

  lemma {:induction false} SameTraces<T>(s: Cell<T>, ops: seq<Op<T>>)
    ensures Reference.Run(s, Lift(ops)) == Value.Run(s, ops)
    decreases |ops|
  {
    if ops != [] {
      var n := |ops| - 1;
      assert Lift(ops)[..n] == Lift(ops[..n]);
      SameTraces(s, ops[..n]);
    }
  }

  /** The two independent descriptions of the final state agree as well. */
  lemma SameDescriptions<T>(s: Cell<T>, ops: seq<Op<T>>)
    ensures Value.LastWrite(s.val, ops) == Reference.LastWrite(s.val, Lift(ops))
    ensures Value.MarkedSinceLastRead(s, ops) <==> Reference.MarkedSinceLastRead(s, Lift(ops))
  {
    SameTraces(s, ops);
    Value.ValueIsLastWrite(s, ops);
    Reference.ValueIsLastWrite(s, Lift(ops));
    Value.FreshIffMarkedSinceLastRead(s, ops);
    Reference.FreshIffMarkedSinceLastRead(s, Lift(ops));
  }
}
