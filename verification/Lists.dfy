/** Lists that are built by prepending and then reversed. */
module Lists {
  function Backwards<T>(xs: seq<T>): (r: seq<T>)
    ensures |r| == |xs|
  {
    if xs == [] then [] else Backwards(xs[1..]) + [xs[0]]
  }

  lemma {:induction false} BackwardsTwice<T>(xs: seq<T>)
    ensures Backwards(Backwards(xs)) == xs
  {
    if xs != [] {
      BackwardsTwice(xs[1..]);
      BackwardsLast(Backwards(xs[1..]), xs[0]);
    }
  }

  lemma {:induction false} BackwardsLast<T>(xs: seq<T>, x: T)
    ensures Backwards(xs + [x]) == [x] + Backwards(xs)
  {
    if xs != [] {
      assert (xs + [x])[1..] == xs[1..] + [x];
      BackwardsLast(xs[1..], x);
    }
  }
}
