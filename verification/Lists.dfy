/** Lists without repetitions, in first-seen order. */
module Lists {

  function AddedOnce(target: seq<string>, x: string): seq<string> {
    if x in target then target else target + [x]
  }

  function AddedUnique(target: seq<string>, more: seq<string>): seq<string> {
    if more == [] then target
    else AddedOnce(AddedUnique(target, more[..|more| - 1]), more[|more| - 1])
  }

  function Distinct(xs: seq<string>): seq<string> { AddedUnique([], xs) }

  ghost predicate NoRepeats(xs: seq<string>) {
    forall i, j | 0 <= i < j < |xs| :: xs[i] != xs[j]
  }

  lemma {:induction false} AddedUniqueMeaning(target: seq<string>, more: seq<string>)
    ensures forall x :: x in AddedUnique(target, more) <==> x in target || x in more
    ensures NoRepeats(target) ==> NoRepeats(AddedUnique(target, more))
    ensures target <= AddedUnique(target, more)
  {
    if more != [] {
      var init, last := more[..|more| - 1], more[|more| - 1];
      AddedUniqueMeaning(target, init);
      assert forall x :: x in more <==> x in init || x == last;
    }
  }

  lemma DistinctAppend(xs: seq<string>, x: string)
    ensures Distinct(xs + [x]) == AddedOnce(Distinct(xs), x)
  {
    assert (xs + [x])[..|xs|] == xs;
  }

  function FirstIndex(xs: seq<string>, x: string): nat
    requires x in xs
  {
    if x in xs[..|xs| - 1] then FirstIndex(xs[..|xs| - 1], x) else |xs| - 1
  }

  lemma {:induction false} FirstIndexIsFirst(xs: seq<string>, x: string)
    requires x in xs
    ensures var i := FirstIndex(xs, x); i < |xs| && xs[i] == x && x !in xs[..i]
  {
    var init := xs[..|xs| - 1];
    if x in init {
      FirstIndexIsFirst(init, x);
      assert init[..FirstIndex(init, x)] == xs[..FirstIndex(init, x)];
    }
  }

  /** The list holds every element once, ordered by where it was first seen. */
  lemma {:induction false} DistinctMeaning(xs: seq<string>)
    ensures forall x :: x in Distinct(xs) <==> x in xs
    ensures forall i, j | 0 <= i < j < |Distinct(xs)| ::
              Distinct(xs)[i] in xs && Distinct(xs)[j] in xs
              && FirstIndex(xs, Distinct(xs)[i]) < FirstIndex(xs, Distinct(xs)[j])
  {
    if xs != [] {
      var init, last := xs[..|xs| - 1], xs[|xs| - 1];
      DistinctMeaning(init);
      assert forall x :: x in xs <==> x in init || x == last;
      var d := Distinct(xs);
      forall i, j | 0 <= i < j < |d|
        ensures d[i] in xs && d[j] in xs && FirstIndex(xs, d[i]) < FirstIndex(xs, d[j])
      {
        assert d[i] in init;
        FirstIndexIsFirst(init, d[i]);
        if j < |Distinct(init)| {
          assert d[j] in init;
        }
      }
    }
  }
}
