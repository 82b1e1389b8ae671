/** The optional-value datatype used where the source gets back either a match
    or nothing, and the map-then-filter over sequences that a loop with
    `continue` computes. */
module Collect {

  datatype Option<+T> = None | Some(value: T)

  /** The values held by the `Some` elements of `xs`, in order. */
  function Present<T(!new)>(xs: seq<Option<T>>): (ys: seq<T>)
    ensures |ys| <= |xs|
    decreases |xs|
  {
    if |xs| == 0 then []
    else
      var init := Present(xs[..|xs| - 1]);
      var last := xs[|xs| - 1];
      match last
      case None => init
      case Some(y) => init + [y]
  }

  /** Collecting the values of a concatenation collects those of each half. */
  lemma {:induction false} PresentAppend<T(!new)>(xs: seq<Option<T>>, ys: seq<Option<T>>)
    ensures Present(xs + ys) == Present(xs) + Present(ys)
    decreases |ys|
  {
    if |ys| == 0 {
      assert xs + ys == xs;
    } else {
      var init := ys[..|ys| - 1];
      var last := ys[|ys| - 1];
      PresentAppend(xs, init);
      assert ys == init + [last];
      assert xs + ys == (xs + init) + [last];
      PresentLast(xs + init, last);
      PresentLast(init, last);
      if last.Some? {
        var v := [last.value];
        assert Present(xs) + Present(init) + v == Present(xs) + (Present(init) + v);
      }
    }
  }

  /** A value is collected exactly when some element holds it. */
  lemma {:induction false} PresentHas<T(!new)>(xs: seq<Option<T>>, y: T)
    ensures y in Present(xs) <==> Some(y) in xs
    decreases |xs|
  {
    if |xs| > 0 {
      var init := xs[..|xs| - 1];
      var last := xs[|xs| - 1];
      PresentHas(init, y);
      assert xs == init + [last];
      PresentLast(init, last);
    }
  }

  /** Two sequences with values at the same positions collect the same number of values. */
  lemma {:induction false} PresentLength<T(!new), U(!new)>(xs: seq<Option<T>>, ys: seq<Option<U>>)
    requires |xs| == |ys|
    requires forall i :: 0 <= i < |xs| ==> (xs[i].Some? <==> ys[i].Some?)
    ensures |Present(xs)| == |Present(ys)|
    decreases |xs|
  {
    if |xs| > 0 {
      PresentLength(xs[..|xs| - 1], ys[..|ys| - 1]);
    }
  }

  /** The value of a single element, if it has one. */
  lemma PresentSingle<T(!new)>(o: Option<T>)
    ensures Present([o]) == if o.Some? then [o.value] else []
  {
    PresentLast([], o);
    assert [] + [o] == [o];
  }

  /** One more element at the end adds its value, if it has one, at the end. */
  lemma PresentLast<T(!new)>(xs: seq<Option<T>>, o: Option<T>)
    ensures Present(xs + [o]) == if o.Some? then Present(xs) + [o.value] else Present(xs)
  {
    assert (xs + [o])[..|xs|] == xs;
  }

  /** `f` applied to every element of `xs`, in order. */
  function MapSeq<A, B>(f: A -> B, xs: seq<A>): (ys: seq<B>)
    ensures |ys| == |xs| && forall i :: 0 <= i < |xs| ==> ys[i] == f(xs[i])
  {
    seq(|xs|, i requires 0 <= i < |xs| => f(xs[i]))
  }

  /** Mapping distributes over concatenation. */
  lemma MapSeqAppend<A, B>(f: A -> B, xs: seq<A>, ys: seq<A>)
    ensures MapSeq(f, xs + ys) == MapSeq(f, xs) + MapSeq(f, ys)
  {
  }
}
