module Options {
  datatype Option<+T> = None | Some(value: T)

  /** What is in hand, before what is still to come. */
  function Prepend<T>(done: seq<T>, more: Option<seq<T>>): Option<seq<T>> {
    if more.Some? then Some(done + more.value) else None
  }

  lemma PrependNothing<T>(more: Option<seq<T>>)
    ensures Prepend([], more) == more
  {
    if more.Some? {
      assert [] + more.value == more.value;
    }
  }

  lemma PrependLaws<T>(done: seq<T>, one: T, more: Option<seq<T>>)
    ensures Prepend([], more) == more && Prepend(done, Some([])) == Some(done)
    ensures Prepend(done, Prepend([one], more)) == Prepend(done + [one], more)
  {
    PrependNothing(more);
    assert done + [] == done;
    if more.Some? {
      assert done + ([one] + more.value) == (done + [one]) + more.value;
    }
  }
}
