/** A sequential model of `once_cell::sync::OnceCell`: a slot that is written at
    most once and read-only afterwards. Thread synchronisation is not modelled. */
module OnceCells {
  import opened Types

  datatype OnceCell<T> = OnceCell(slot: Option<T>) {

    /** True once a value has been stored. */
    predicate IsSet() {
      slot.Some?
    }

    /** `OnceCell::set`: the first call stores `v` and succeeds; on a cell that
        already holds a value the call fails, hands `v` back, and the cell is
        left exactly as it was. */
    function Set(v: T): (r: (OnceCell<T>, Result<(), T>))
      ensures r.0.IsSet()
      ensures r.1.Ok? <==> !IsSet()
      ensures !IsSet() ==> r.0.slot == Some(v)
      ensures IsSet() ==> r.0 == this && r.1 == Err(v)
    {
      match slot
      case None => (OnceCell(Some(v)), Ok(()))
      case Some(_) => (this, Err(v))
    }
  }

  /** Applies `Set` with each value of `vs` in turn, collecting every call's result. */
  function SetEach<T>(c: OnceCell<T>, vs: seq<T>): (r: (OnceCell<T>, seq<Result<(), T>>))
    ensures |r.1| == |vs|
    decreases |vs|
  {
    if |vs| == 0 then (c, [])
    else
      var (c1, res) := c.Set(vs[0]);
      var (c2, rest) := SetEach(c1, vs[1..]);
      (c2, [res] + rest)
  }

  /** Once a cell holds a value, no sequence of further `Set` calls changes it,
      and every one of those calls fails, returning the value it was given. */
  lemma {:induction false} SetEachOnSetCell<T>(c: OnceCell<T>, vs: seq<T>)
    requires c.IsSet()
    ensures SetEach(c, vs).0 == c
    ensures forall k :: 0 <= k < |vs| ==> SetEach(c, vs).1[k] == Err(vs[k])
  {
    if |vs| > 0 {
      SetEachOnSetCell(c, vs[1..]);
      var rest := SetEach(c, vs[1..]).1;
      assert SetEach(c, vs).1 == [Err(vs[0])] + rest;
    }
  }

  /** Write-once: starting from an unset cell, the first `Set` wins and stores its
      value; every later `Set` fails and the stored value stays the first one. */
  lemma {:induction false} FirstSetWins<T>(c: OnceCell<T>, vs: seq<T>)
    requires !c.IsSet()
    requires |vs| > 0
    ensures SetEach(c, vs).0.slot == Some(vs[0])
    ensures SetEach(c, vs).1[0] == Ok(())
    ensures forall k :: 1 <= k < |vs| ==> SetEach(c, vs).1[k] == Err(vs[k])
  {
    var c1 := OnceCell(Some(vs[0]));
    SetEachOnSetCell(c1, vs[1..]);
    var rest := SetEach(c1, vs[1..]).1;
    assert SetEach(c, vs).1 == [Ok(())] + rest;
  }
}
