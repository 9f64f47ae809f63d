/** Clients of the two classes that replay the inline unit tests of both
    source files and a construct/get/set(5)/set(6)/get_if_fresh twice
    scenario: each assertion follows from the method contracts alone. */
module Scenarios {
  import opened Freshness
  import Value
  import Reference

  /** An `i32` wrapped in a one-field struct, as in the `get_mut` test. */
  datatype Wrapper = Wrapper(inner: int)

  method ValueNew()
  {
    var t := new Value.Tracked(5);
    var f := t.IsFresh();
    var v := t.Peek();
    assert f && v == 5;
  }

  method ValueSetSameValue()
  {
    var t := new Value.Tracked(5);
    var _ := t.Get();
    t.Set(5);
    var f := t.IsFresh();
    assert !f;
  }

  method ValueSetDifferentValue()
  {
    var t := new Value.Tracked(5);
    var _ := t.Get();
    t.Set(6);
    var f := t.IsFresh();
    var v := t.Peek();
    assert f && v == 6;
  }

  method ValueGet()
  {
    var t := new Value.Tracked(5);
    var v := t.Get();
    var f := t.IsFresh();
    assert !f && v == 5;
  }

  method ValueGetIfFresh()
  {
    var t := new Value.Tracked("hello");
    var v := t.GetIfFresh();
    var f := t.IsFresh();
    assert !f && v == Some("hello");
  }

  method ValueGetIfFreshStale()
  {
    var t := new Value.Tracked("hello");
    var _ := t.Get();
    var v := t.GetIfFresh();
    assert v == None;
  }

  method ValuePeekAndFlags()
  {
    var t := new Value.Tracked(777);
    var v := t.Peek();
    var f := t.IsFresh();
    assert f && v == 777;
    var marked := new Value.Tracked.FromFields(true, 5);
    var stale := new Value.Tracked.FromFields(false, 5);
    var f1 := marked.IsFresh();
    var f2 := stale.IsFresh();
    assert f1 && !f2;
  }

  method ValueDefault()
  {
    var t := Value.Tracked.Default(0);
    var f := t.IsFresh();
    var v := t.Peek();
    assert f && v == 0;
  }

  /** Construct with 5, read, set 5, set 6, then `get_if_fresh` twice. */
  method ValueScenario()
  {
    var t := new Value.Tracked(5);
    var f := t.IsFresh();
    var v := t.Peek();
    assert f && v == 5;
    v := t.Get();
    f := t.IsFresh();
    assert v == 5 && !f;
    t.Set(5);
    f := t.IsFresh();
    assert !f;
    t.Set(6);
    f := t.IsFresh();
    v := t.Peek();
    assert f && v == 6;
    var o := t.GetIfFresh();
    f := t.IsFresh();
    assert o == Some(6) && !f;
    o := t.GetIfFresh();
    assert o == None;
  }

  /** The same scenario as a trace of the transition function. */
  method ValueScenarioTrace()
  {
    var s := Cell(true, 5);
    var p0: seq<Op<int>> := [];
    var p1 := p0 + [Get];
    var p2 := p1 + [Set(5)];
    var p3 := p2 + [Set(6)];
    var p4 := p3 + [GetIfFresh];
    var ops := p4 + [GetIfFresh];
    Value.RunSnoc(s, p0, Get);
    Value.RunSnoc(s, p1, Set(5));
    Value.RunSnoc(s, p2, Set(6));
    Value.RunSnoc(s, p3, GetIfFresh);
    Value.RunSnoc(s, p4, GetIfFresh);
    var t := Value.Run(s, ops);
    assert ops == [Get, Set(5), Set(6), GetIfFresh, GetIfFresh];
    assert t.outs == [Val(5), Done, Done, Maybe(Some(6)), Maybe(None)];
    assert !t.final.isFresh && t.final.val == 6;
  }

  method RefNew()
  {
    var t := new Reference.TrackedRef(5);
    var f := t.IsFresh();
    var v := t.Peek();
    assert f && v == 5;
  }

  method RefSetSameValue()
  {
    var t := new Reference.TrackedRef(5);
    var _ := t.Get();
    Reference.Set(t, 5);
    var f := t.IsFresh();
    assert !f;
  }

  method RefSetDifferentValue()
  {
    var t := new Reference.TrackedRef(5);
    var _ := t.Get();
    Reference.Set(t, 6);
    var f := t.IsFresh();
    var v := t.Peek();
    assert f && v == 6;
  }

  method RefGet()
  {
    var t := new Reference.TrackedRef(5);
    var v := t.Get();
    var f := t.IsFresh();
    assert !f && v == 5;
  }

  /** Writing 888 into the field of the wrapped struct through `get_mut`. */
  method RefGetMut()
  {
    var t := new Reference.TrackedRef(Wrapper(777));
    var _ := t.Get();
    var seen := t.GetMut(Some(Wrapper(888)));
    var f := t.IsFresh();
    var v := t.Peek();
    assert seen == Wrapper(777);
    assert f && v == Wrapper(888);
  }

  method RefGetIfFresh()
  {
    var t := new Reference.TrackedRef("hello");
    var v := t.GetIfFresh();
    var f := t.IsFresh();
    assert !f && v == Some("hello");
  }

  method RefGetIfFreshStale()
  {
    var t := new Reference.TrackedRef("hello");
    var _ := t.Get();
    var v := t.GetIfFresh();
    assert v == None;
  }

  method RefPeekAndFlags()
  {
    var t := new Reference.TrackedRef(777);
    var v := t.Peek();
    var f := t.IsFresh();
    assert f && v == 777;
    var marked := new Reference.TrackedRef.FromFields(true, 5);
    var stale := new Reference.TrackedRef.FromFields(false, 5);
    var f1 := marked.IsFresh();
    var f2 := stale.IsFresh();
    assert f1 && !f2;
  }

  /** A clone copies the flag and leaves the original's flag alone. */
  method RefClone()
  {
    var t := new Reference.TrackedRef(5);
    var c := t.Clone();
    var f := t.IsFresh();
    var g := c.IsFresh();
    var v := c.Peek();
    assert f && g && v == 5;
    var _ := c.Get();
    f := t.IsFresh();
    assert f;
  }
}
