/** The copy-semantics wrapper `Tracked<T>`: every read hands back a copy of
    the value. The transitions are first given as functions on `Cell`, then
    as the in-place methods of the class `Tracked`, which are proved to follow
    those functions. */
module Value {
  import opened Freshness

  /** `set`: compare-and-set. Only a value unequal to the stored one is
      written, and only then is the wrapper marked fresh. */
  function CompareAndSet<T(==)>(c: Cell<T>, v: T): (r: Cell<T>)
    ensures r.val == v
    ensures c.val == v ==> r == c
    ensures c.val != v ==> r.isFresh
  {
    if c.val != v then Cell(true, v) else c
  }

  /** `get`: returns the current value and always consumes freshness. */
  function Consume<T>(c: Cell<T>): (r: (Cell<T>, T))
    ensures r.1 == c.val
    ensures r.0.val == c.val && !r.0.isFresh
  {
    (Cell(false, c.val), c.val)
  }

  /** `get_if_fresh`: a `get` when fresh, nothing and no change when stale. */
  function ConsumeIfFresh<T>(c: Cell<T>): (r: (Cell<T>, Option<T>))
    ensures r.0.val == c.val && !r.0.isFresh
    ensures c.isFresh ==> r == (Consume(c).0, Some(Consume(c).1))
    ensures !c.isFresh ==> r == (c, None)
  {
    if c.isFresh then
      var g := Consume(c);
      (g.0, Some(g.1))
    else
      (c, None)
  }

  /** One operation on a wrapper in state `c`. */
  function Apply<T(==)>(c: Cell<T>, op: Op<T>): (r: Step<T>)
    ensures Consumes(op) ==> !r.next.isFresh
    ensures c.isFresh && !Consumes(op) ==> r.next.isFresh
    ensures op.Peek? || op.IsFresh? ==> r.next == c
    ensures op.Get? || op.Peek? ==> r.out == Val(c.val)
  {
    match op
    case Set(v) => Step(CompareAndSet(c, v), Done)
    case Get =>
      var g := Consume(c);
      Step(g.0, Val(g.1))
    case GetIfFresh =>
      var g := ConsumeIfFresh(c);
      Step(g.0, Maybe(g.1))
    case Peek => Step(c, Val(c.val))
    case IsFresh => Step(c, Flag(c.isFresh))
  }

  /** A sequence of operations applied in order, starting from state `s`. */
  function Run<T(==)>(s: Cell<T>, ops: seq<Op<T>>): (r: Trace<T>)
    ensures |r.outs| == |ops|
    decreases |ops|
  {
    if ops == [] then Trace(s, [])
    else
      var t := Run(s, ops[..|ops| - 1]);
      var st := Apply(t.final, ops[|ops| - 1]);
      Trace(st.next, t.outs + [st.out])
  }

  lemma RunSnoc<T>(s: Cell<T>, ops: seq<Op<T>>, op: Op<T>)
    ensures Run(s, ops + [op]).final == Apply(Run(s, ops).final, op).next
    ensures Run(s, ops + [op]).outs == Run(s, ops).outs + [Apply(Run(s, ops).final, op).out]
  {
  }

  // ---- An independent description of the state a trace leaves behind ----

  /** The value most recently handed to `set`, whether or not it differed from
      the stored one; `init` when there was none. */
  function LastWrite<T>(init: T, ops: seq<Op<T>>): T
    decreases |ops|
  {
    if ops == [] then init
    else if ops[|ops| - 1].Set? then ops[|ops| - 1].v
    else LastWrite(init, ops[..|ops| - 1])
  }

  /** Operation `i` writes a value different from the one then stored. */
  ghost predicate MarksAt<T>(s: Cell<T>, ops: seq<Op<T>>, i: nat)
    requires i < |ops|
  {
    ops[i].Set? && ops[i].v != LastWrite(s.val, ops[..i])
  }

  /** No freshness-consuming read comes after position `i`. */
  ghost predicate NoReadAfter<T>(ops: seq<Op<T>>, i: int)
  {
    forall j :: 0 <= j < |ops| && i < j ==> !Consumes(ops[j])
  }

  /** The wrapper was written (by construction, if `s` is fresh, or by a
      value-changing `set`) and no freshness-consuming read came after. */
  ghost predicate MarkedSinceLastRead<T>(s: Cell<T>, ops: seq<Op<T>>)
  {
    || (s.isFresh && NoReadAfter(ops, -1))
    || exists i :: 0 <= i < |ops| && MarksAt(s, ops, i) && NoReadAfter(ops, i)
  }

  /** After any trace the stored value is the last one handed to `set`: an
      equal value is not written, but then it is already the stored one. */
  lemma {:induction false} ValueIsLastWrite<T>(s: Cell<T>, ops: seq<Op<T>>)
    ensures Run(s, ops).final.val == LastWrite(s.val, ops)
    decreases |ops|
  {
    if ops != [] {
      ValueIsLastWrite(s, ops[..|ops| - 1]);
    }
  }

  /** How one more operation extends the description. */
  lemma MarkedSnoc<T>(s: Cell<T>, p: seq<Op<T>>, op: Op<T>)
    ensures MarkedSinceLastRead(s, p + [op]) <==>
      || (!Consumes(op) && MarkedSinceLastRead(s, p))
      || (op.Set? && op.v != LastWrite(s.val, p))
  {
    var ops := p + [op];
    var n := |p|;
    assert ops[..n] == p;
    forall i | 0 <= i < n
      ensures MarksAt(s, ops, i) == MarksAt(s, p, i)
      ensures NoReadAfter(ops, i) == (NoReadAfter(p, i) && !Consumes(op))
    {
      assert ops[..i] == p[..i];
      assert ops[n] == op;
    }
    assert NoReadAfter(ops, -1) == (NoReadAfter(p, -1) && !Consumes(op)) by {
      assert ops[n] == op;
    }
    assert MarksAt(s, ops, n) == (op.Set? && op.v != LastWrite(s.val, p));
    assert NoReadAfter(ops, n);
    if MarkedSinceLastRead(s, ops) && !(s.isFresh && NoReadAfter(ops, -1)) {
      var i :| 0 <= i < |ops| && MarksAt(s, ops, i) && NoReadAfter(ops, i);
      if i < n {
        assert MarksAt(s, p, i) && NoReadAfter(p, i);
      }
    }
    if !Consumes(op) && MarkedSinceLastRead(s, p) && !(s.isFresh && NoReadAfter(p, -1)) {
      var i :| 0 <= i < |p| && MarksAt(s, p, i) && NoReadAfter(p, i);
      assert MarksAt(s, ops, i) && NoReadAfter(ops, i);
    }
  }

  /** The freshness flag after any trace is exactly "written since the last
      freshness-consuming read". */
  lemma {:induction false} FreshIffMarkedSinceLastRead<T>(s: Cell<T>, ops: seq<Op<T>>)
    ensures Run(s, ops).final.isFresh <==> MarkedSinceLastRead(s, ops)
    decreases |ops|
  {
    if ops != [] {
      var p, op := ops[..|ops| - 1], ops[|ops| - 1];
      assert ops == p + [op];
      FreshIffMarkedSinceLastRead(s, p);
      ValueIsLastWrite(s, p);
      MarkedSnoc(s, p, op);
    }
  }

  /** What the observers report after any trace: `get` and `peek` the last
      value set, `is_fresh` whether it was written since the last consuming
      read, and `get_if_fresh` the value exactly in that case. */
  lemma ReadsReportState<T>(s: Cell<T>, ops: seq<Op<T>>)
    ensures Run(s, ops + [Get]).outs[|ops|] == Val(LastWrite(s.val, ops))
    ensures Run(s, ops + [Peek]).outs[|ops|] == Val(LastWrite(s.val, ops))
    ensures Run(s, ops + [IsFresh]).outs[|ops|] == Flag(MarkedSinceLastRead(s, ops))
    ensures Run(s, ops + [GetIfFresh]).outs[|ops|] ==
      Maybe(if MarkedSinceLastRead(s, ops) then Some(LastWrite(s.val, ops)) else None)
  {
    ValueIsLastWrite(s, ops);
    FreshIffMarkedSinceLastRead(s, ops);
    RunSnoc(s, ops, Get);
    RunSnoc(s, ops, Peek);
    RunSnoc(s, ops, IsFresh);
    RunSnoc(s, ops, GetIfFresh);
  }

  /** A fresh value is reported once: a second `get_if_fresh` with nothing
      written in between finds the wrapper stale. */
  lemma SecondGetIfFreshIsNone<T>(s: Cell<T>, ops: seq<Op<T>>)
    ensures Run(s, ops + [GetIfFresh, GetIfFresh]).outs[|ops| + 1] == Maybe(None)
  {
  }

  // ---- The wrapper as an object updated in place ----

  class Tracked<T(==)> {
    var isFresh: bool
    var val: T

    /** The two fields as one value. */
    function Snapshot(): Cell<T>
      reads this
    {
      Cell(isFresh, val)
    }

    /** `new`: a new wrapper is always fresh. */
    constructor (val: T)
      ensures this.val == val && isFresh
    {
      this.isFresh := true;
      this.val := val;
    }

    /** A wrapper built field by field, as the struct literals in the unit
        tests do. */
    constructor FromFields(isFresh: bool, val: T)
      ensures this.isFresh == isFresh && this.val == val
    {
      this.isFresh := isFresh;
      this.val := val;
    }

    /** `default`: `new` applied to the type's default value, which is
        passed in. */
    static method Default(d: T) returns (t: Tracked<T>)
      ensures fresh(t) && t.isFresh && t.val == d
    {
      t := new Tracked(d);
    }

    method Set(v: T)
      modifies this
      ensures Snapshot() == CompareAndSet(old(Snapshot()), v)
      ensures old(val) != v ==> val == v && isFresh
      ensures old(val) == v ==> val == old(val) && isFresh == old(isFresh)
    {
      if val != v {
        val := v;
        isFresh := true;
      }
    }

    method Get() returns (r: T)
      modifies this
      ensures (Snapshot(), r) == Consume(old(Snapshot()))
      ensures r == old(val) && val == old(val) && !isFresh
    {
      isFresh := false;
      r := val;
    }

    method GetIfFresh() returns (r: Option<T>)
      modifies this
      ensures (Snapshot(), r) == ConsumeIfFresh(old(Snapshot()))
      ensures old(isFresh) ==> r == Some(old(val)) && val == old(val) && !isFresh
      ensures !old(isFresh) ==> r == None && val == old(val) && isFresh == old(isFresh)
    {
      if isFresh {
        var v := Get();
        r := Some(v);
      } else {
        r := None;
      }
    }

    /** Reads the value without touching freshness. */
    method Peek() returns (r: T)
      ensures r == val
    {
      r := val;
    }

    method IsFresh() returns (r: bool)
      ensures r == isFresh
    {
      r := isFresh;
    }
  }
}
