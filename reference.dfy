/** The by-reference wrapper `TrackedRef<T>`: reads hand back the stored
    value itself, and `get_mut` grants write access. Here returning a
    reference is returning the value, and a write through the reference
    returned by `get_mut` is an optional new value supplied by the caller.
    The transitions are first given as functions on `Cell`, then as the
    in-place methods of the class `TrackedRef`, which are proved to follow
    those functions. */
module Reference {
  import opened Freshness

  /** The operations on a `TrackedRef`: those it shares with `Tracked`, and
      `get_mut` followed by the caller's write, if any. */
  datatype RefOp<T> = Shared(op: Op<T>) | GetMut(write: Option<T>)

  /** The freshness-consuming reads of a `TrackedRef`. */
  predicate RefConsumes<T>(op: RefOp<T>)
  {
    op.Shared? && Consumes(op.op)
  }

  /** `set` (the `TrackedRefSet` trait): compare-and-set. Only a value unequal
      to the stored one is written, and only then is the wrapper marked fresh. */
  function CompareAndSet<T(==)>(c: Cell<T>, v: T): (r: Cell<T>)
    ensures r.val == v
    ensures c.val == v ==> r == c
    ensures c.val != v ==> r.isFresh
  {
    if c.val != v then Cell(true, v) else c
  }

  /** `get`: returns the current value and always consumes freshness. */
  function Consume<T>(c: Cell<T>): (r: (Cell<T>, T))
    ensures r.1 == c.val
    ensures r.0.val == c.val && !r.0.isFresh
  {
    (Cell(false, c.val), c.val)
  }

  /** `get_mut`: marks the wrapper fresh whether or not the caller then
      writes; `write` is what the caller stores through the reference. The
      caller sees the value as it was before its write. */
  function MarkForWrite<T>(c: Cell<T>, write: Option<T>): (r: (Cell<T>, T))
    ensures r.1 == c.val
    ensures r.0.isFresh
    ensures write.None? ==> r.0.val == c.val
    ensures write.Some? ==> r.0.val == write.value
  {
    var marked := Cell(true, c.val);
    match write
    case None => (marked, c.val)
    case Some(w) => (marked.(val := w), c.val)
  }

  /** `get_if_fresh`: a `get` when fresh, nothing and no change when stale. */
  function ConsumeIfFresh<T>(c: Cell<T>): (r: (Cell<T>, Option<T>))
    ensures r.0.val == c.val && !r.0.isFresh
    ensures c.isFresh ==> r == (Consume(c).0, Some(Consume(c).1))
    ensures !c.isFresh ==> r == (c, None)
  {
    if c.isFresh then
      var g := Consume(c);
      (g.0, Some(g.1))
    else
      (c, None)
  }

  /** One operation on a wrapper in state `c`. */
  function Apply<T(==)>(c: Cell<T>, op: RefOp<T>): (r: Step<T>)
    ensures RefConsumes(op) ==> !r.next.isFresh
    ensures op.GetMut? ==> r.next.isFresh
    ensures c.isFresh && !RefConsumes(op) ==> r.next.isFresh
    ensures op.Shared? && (op.op.Peek? || op.op.IsFresh?) ==> r.next == c
    ensures op.Shared? && (op.op.Get? || op.op.Peek?) ==> r.out == Val(c.val)
  {
    match op
    case Shared(Set(v)) => Step(CompareAndSet(c, v), Done)
    case Shared(Get) =>
      var g := Consume(c);
      Step(g.0, Val(g.1))
    case Shared(GetIfFresh) =>
      var g := ConsumeIfFresh(c);
      Step(g.0, Maybe(g.1))
    case Shared(Peek) => Step(c, Val(c.val))
    case Shared(IsFresh) => Step(c, Flag(c.isFresh))
    case GetMut(write) =>
      var g := MarkForWrite(c, write);
      Step(g.0, Val(g.1))
  }

  /** A sequence of operations applied in order, starting from state `s`. */
  function Run<T(==)>(s: Cell<T>, ops: seq<RefOp<T>>): (r: Trace<T>)
    ensures |r.outs| == |ops|
    decreases |ops|
  {
    if ops == [] then Trace(s, [])
    else
      var t := Run(s, ops[..|ops| - 1]);
      var st := Apply(t.final, ops[|ops| - 1]);
      Trace(st.next, t.outs + [st.out])
  }

  lemma RunSnoc<T>(s: Cell<T>, ops: seq<RefOp<T>>, op: RefOp<T>)
    ensures Run(s, ops + [op]).final == Apply(Run(s, ops).final, op).next
    ensures Run(s, ops + [op]).outs == Run(s, ops).outs + [Apply(Run(s, ops).final, op).out]
  {
  }

  // ---- An independent description of the state a trace leaves behind ----

  /** Whether `op` stores a value, and which: `set` always names one (stored
      or already there), `get_mut` only when the caller writes. */
  predicate Writes<T>(op: RefOp<T>)
  {
    (op.Shared? && op.op.Set?) || (op.GetMut? && op.write.Some?)
  }

  function Written<T>(op: RefOp<T>): T
    requires Writes(op)
  {
    if op.Shared? then op.op.v else op.write.value
  }

  /** The value most recently handed to `set` or written through `get_mut`;
      `init` when there was none. */
  function LastWrite<T>(init: T, ops: seq<RefOp<T>>): T
    decreases |ops|
  {
    if ops == [] then init
    else if Writes(ops[|ops| - 1]) then Written(ops[|ops| - 1])
    else LastWrite(init, ops[..|ops| - 1])
  }

  /** Operation `i` marks the wrapper: a `get_mut`, or a `set` of a value
      different from the one then stored. */
  ghost predicate MarksAt<T>(s: Cell<T>, ops: seq<RefOp<T>>, i: nat)
    requires i < |ops|
  {
    || ops[i].GetMut?
    || (ops[i].Shared? && ops[i].op.Set? && ops[i].op.v != LastWrite(s.val, ops[..i]))
  }

  /** No freshness-consuming read comes after position `i`. */
  ghost predicate NoReadAfter<T>(ops: seq<RefOp<T>>, i: int)
  {
    forall j :: 0 <= j < |ops| && i < j ==> !RefConsumes(ops[j])
  }

  /** The wrapper was marked (by construction, if `s` is fresh, by a
      value-changing `set` or by a `get_mut`) and no freshness-consuming read
      came after. */
  ghost predicate MarkedSinceLastRead<T>(s: Cell<T>, ops: seq<RefOp<T>>)
  {
    || (s.isFresh && NoReadAfter(ops, -1))
    || exists i :: 0 <= i < |ops| && MarksAt(s, ops, i) && NoReadAfter(ops, i)
  }

  /** After any trace the stored value is the last one set or written. */
  lemma {:induction false} ValueIsLastWrite<T>(s: Cell<T>, ops: seq<RefOp<T>>)
    ensures Run(s, ops).final.val == LastWrite(s.val, ops)
    decreases |ops|
  {
    if ops != [] {
      ValueIsLastWrite(s, ops[..|ops| - 1]);
    }
  }

  /** How one more operation extends the description. */
  lemma MarkedSnoc<T>(s: Cell<T>, p: seq<RefOp<T>>, op: RefOp<T>)
    ensures MarkedSinceLastRead(s, p + [op]) <==>
      || (!RefConsumes(op) && MarkedSinceLastRead(s, p))
      || op.GetMut?
      || (op.Shared? && op.op.Set? && op.op.v != LastWrite(s.val, p))
  {
    var ops := p + [op];
    var n := |p|;
    assert ops[..n] == p;
    forall i | 0 <= i < n
      ensures MarksAt(s, ops, i) == MarksAt(s, p, i)
      ensures NoReadAfter(ops, i) == (NoReadAfter(p, i) && !RefConsumes(op))
    {
      assert ops[..i] == p[..i];
      assert ops[n] == op;
    }
    assert NoReadAfter(ops, -1) == (NoReadAfter(p, -1) && !RefConsumes(op)) by {
      assert ops[n] == op;
    }
    assert MarksAt(s, ops, n) ==
      (op.GetMut? || (op.Shared? && op.op.Set? && op.op.v != LastWrite(s.val, p)));
    assert NoReadAfter(ops, n);
    if MarkedSinceLastRead(s, ops) && !(s.isFresh && NoReadAfter(ops, -1)) {
      var i :| 0 <= i < |ops| && MarksAt(s, ops, i) && NoReadAfter(ops, i);
      if i < n {
        assert MarksAt(s, p, i) && NoReadAfter(p, i);
      }
    }
    if !RefConsumes(op) && MarkedSinceLastRead(s, p) && !(s.isFresh && NoReadAfter(p, -1)) {
      var i :| 0 <= i < |p| && MarksAt(s, p, i) && NoReadAfter(p, i);
      assert MarksAt(s, ops, i) && NoReadAfter(ops, i);
    }
  }

  /** The freshness flag after any trace is exactly "marked since the last
      freshness-consuming read". */
  lemma {:induction false} FreshIffMarkedSinceLastRead<T>(s: Cell<T>, ops: seq<RefOp<T>>)
    ensures Run(s, ops).final.isFresh <==> MarkedSinceLastRead(s, ops)
    decreases |ops|
  {
    if ops != [] {
      var p, op := ops[..|ops| - 1], ops[|ops| - 1];
      assert ops == p + [op];
      FreshIffMarkedSinceLastRead(s, p);
      ValueIsLastWrite(s, p);
      MarkedSnoc(s, p, op);
    }
  }

  /** What the observers report after any trace: `get` and `peek` the last
      value stored, `is_fresh` whether the wrapper was marked since the last
      consuming read, and `get_if_fresh` the value exactly in that case. */
  lemma ReadsReportState<T>(s: Cell<T>, ops: seq<RefOp<T>>)
    ensures Run(s, ops + [Shared(Get)]).outs[|ops|] == Val(LastWrite(s.val, ops))
    ensures Run(s, ops + [Shared(Peek)]).outs[|ops|] == Val(LastWrite(s.val, ops))
    ensures Run(s, ops + [Shared(IsFresh)]).outs[|ops|] == Flag(MarkedSinceLastRead(s, ops))
    ensures Run(s, ops + [Shared(GetIfFresh)]).outs[|ops|] ==
      Maybe(if MarkedSinceLastRead(s, ops) then Some(LastWrite(s.val, ops)) else None)
  {
    ValueIsLastWrite(s, ops);
    FreshIffMarkedSinceLastRead(s, ops);
    RunSnoc(s, ops, Shared(Get));
    RunSnoc(s, ops, Shared(Peek));
    RunSnoc(s, ops, Shared(IsFresh));
    RunSnoc(s, ops, Shared(GetIfFresh));
  }

  /** `get_mut` makes the wrapper fresh even when the caller writes nothing:
      the next `get_if_fresh` reports the value, unchanged. */
  lemma GetMutWithoutWriteStillReported<T>(s: Cell<T>, ops: seq<RefOp<T>>)
    ensures Run(s, ops + [GetMut(None), Shared(GetIfFresh)]).outs[|ops| + 1] ==
      Maybe(Some(Run(s, ops).final.val))
  {
    var granted := ops + [GetMut(None)];
    assert ops + [GetMut(None), Shared(GetIfFresh)] == granted + [Shared(GetIfFresh)];
    MarkedSnoc(s, ops, GetMut(None));
    ValueIsLastWrite(s, ops);
    ReadsReportState(s, granted);
  }

  // ---- The wrapper as an object updated in place ----

  class TrackedRef<T> {
    var isFresh: bool
    var val: T

    /** The two fields as one value. */
    function Snapshot(): Cell<T>
      reads this
    {
      Cell(isFresh, val)
    }

    /** `new`: a new wrapper is always fresh. */
    constructor (val: T)
      ensures this.val == val && isFresh
    {
      this.isFresh := true;
      this.val := val;
    }

    /** A wrapper built field by field, as the struct literals in the unit
        tests do. */
    constructor FromFields(isFresh: bool, val: T)
      ensures this.isFresh == isFresh && this.val == val
    {
      this.isFresh := isFresh;
      this.val := val;
    }

    method Get() returns (r: T)
      modifies this
      ensures (Snapshot(), r) == Consume(old(Snapshot()))
      ensures r == old(val) && val == old(val) && !isFresh
    {
      isFresh := false;
      r := val;
    }

    /** `get_mut` and the caller's use of the reference it returns: `seen` is
        the value the reference shows, `write` what the caller stores through
        it, if anything. */
    method GetMut(write: Option<T>) returns (seen: T)
      modifies this
      ensures (Snapshot(), seen) == MarkForWrite(old(Snapshot()), write)
      ensures seen == old(val) && isFresh
      ensures val == (if write.Some? then write.value else old(val))
    {
      isFresh := true;
      seen := val;
      if write.Some? {
        val := write.value;
      }
    }

    method GetIfFresh() returns (r: Option<T>)
      modifies this
      ensures (Snapshot(), r) == ConsumeIfFresh(old(Snapshot()))
      ensures old(isFresh) ==> r == Some(old(val)) && val == old(val) && !isFresh
      ensures !old(isFresh) ==> r == None && val == old(val) && isFresh == old(isFresh)
    {
      if isFresh {
        var v := Get();
        r := Some(v);
      } else {
        r := None;
      }
    }

    /** Reads the value without touching freshness. */
    method Peek() returns (r: T)
      ensures r == val
    {
      r := val;
    }

    method IsFresh() returns (r: bool)
      ensures r == isFresh
    {
      r := isFresh;
    }

    /** `clone`: a new wrapper with both fields copied. Having no `modifies`
        clause, it leaves this wrapper, and its freshness, as it was. */
    method Clone() returns (c: TrackedRef<T>)
      ensures fresh(c)
      ensures c.val == val && c.isFresh == isFresh
    {
      c := new TrackedRef.FromFields(isFresh, val);
    }
  }

  /** `set` from the `TrackedRefSet` trait, which exists only for value types
      with equality; hence a method outside the class with its own bound. */
  method Set<T(==)>(t: TrackedRef<T>, v: T)
    modifies t
    ensures t.Snapshot() == CompareAndSet(old(t.Snapshot()), v)
    ensures old(t.val) != v ==> t.val == v && t.isFresh
    ensures old(t.val) == v ==> t.val == old(t.val) && t.isFresh == old(t.isFresh)
  {
    if t.val != v {
      t.val := v;
      t.isFresh := true;
    }
  }
}
