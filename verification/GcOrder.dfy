/** src/gc.c: which object a collection copies when, and to which of the new spaces, as a
    function of the heap before it.  No addresses of new objects occur here. */
module ScanOrder {
  import opened Heaps

  /** The old objects copied so far, space by space; how many of each space have been
      scanned; the room left in the last space; and the size of the next one. */
  datatype Order = Order(spaces: seq<seq<int>>, seen: seq<nat>, copied: set<int>, free: int, minspace: nat)

  predicate IsOrder(s: Order) {
    s.spaces != [] && |s.seen| == |s.spaces|
  }

  /** Copying only adds: at the end of the last space, or in new spaces not yet scanned. */
  ghost predicate Grown(s: Order, s': Order) {
    && IsOrder(s) && IsOrder(s') && |s.spaces| <= |s'.spaces|
    && (forall j | 0 <= j < |s.spaces| :: s.spaces[j] <= s'.spaces[j] && s'.seen[j] == s.seen[j])
    && (forall j | 0 <= j < |s.spaces| - 1 :: s'.spaces[j] == s.spaces[j])
    && (forall j | |s.spaces| <= j < |s'.spaces| :: s'.seen[j] == 0)
    && s.copied <= s'.copied
  }

  /** The objects that are still to be copied. */
  ghost function Left<P>(h: Store<P>, s: Order): set<int> { h.Keys - s.copied }

  /** An object goes to the last space, or to a new one. */
  ghost function CopyTo<P>(h: Store<P>, s: Order, p: int): (s': Order)
    requires IsOrder(s) && p in h && p !in s.copied
    ensures Grown(s, s') && s'.copied == s.copied + {p} && Left(h, s') < Left(h, s)
  {
    var last := |s.spaces| - 1;
    var n := Weight(h[p].size);
    assert p in Left(h, s) && Left(h, s) - {p} == h.Keys - (s.copied + {p});
    if n <= s.free then
      Order(s.spaces[last := s.spaces[last] + [p]], s.seen, s.copied + {p}, s.free - n, s.minspace)
    else
      var minspace := Bump(s.minspace, h[p].size);
      Order(s.spaces + [[p]], s.seen + [0], s.copied + {p}, Align(minspace) - n, minspace)
  }

  /** forward */
  ghost function ForwardOne<P>(h: Store<P>, s: Order, p: int): (s': Order)
    requires IsOrder(s)
    ensures Grown(s, s') && (s' == s || Left(h, s') < Left(h, s))
  {
    if p in h && p !in s.copied then CopyTo(h, s, p) else s
  }

  /** The roots, or the fields of one object. */
  ghost function ForwardAll<P>(h: Store<P>, s: Order, ps: seq<int>): (s': Order)
    requires IsOrder(s)
    ensures IsOrder(s')
    decreases |ps|
  {
    if ps == [] then s else ForwardAll(h, ForwardOne(h, s, ps[0]), ps[1..])
  }

  lemma GrownTwice(a: Order, b: Order, c: Order)
    requires Grown(a, b) && Grown(b, c)
    ensures Grown(a, c)
  {
    forall j | 0 <= j < |a.spaces|
      ensures a.spaces[j] <= c.spaces[j]
    {
      assert a.spaces[j] <= b.spaces[j] <= c.spaces[j];
    }
  }

  lemma {:induction false} ForwardAllGrows<P>(h: Store<P>, s: Order, ps: seq<int>)
    requires IsOrder(s)
    ensures var s' := ForwardAll(h, s, ps);
            Grown(s, s') && (s' == s || Left(h, s') < Left(h, s))
    decreases |ps|
  {
    if ps != [] {
      ForwardAllGrows(h, ForwardOne(h, s, ps[0]), ps[1..]);
      GrownTwice(s, ForwardOne(h, s, ps[0]), ForwardAll(h, s, ps));
    }
  }

  function FieldsOf<P>(h: Store<P>, p: int): seq<int> {
    if p in h then h[p].fields else []
  }

  /** Scanning the next object of space i. */
  ghost function Visit<P>(h: Store<P>, s: Order, i: nat): (s': Order)
    requires IsOrder(s) && i < |s.spaces| && s.seen[i] < |s.spaces[i]|
    ensures IsOrder(s') && |s.spaces| <= |s'.spaces| && s'.seen[i] == s.seen[i] + 1
    ensures s.spaces[i] <= s'.spaces[i]
    ensures (s'.spaces == s.spaces && Left(h, s') == Left(h, s)) || Left(h, s') < Left(h, s)
  {
    ForwardAllGrows(h, s, FieldsOf(h, s.spaces[i][s.seen[i]]));
    var s' := ForwardAll(h, s, FieldsOf(h, s.spaces[i][s.seen[i]]));
    s'.(seen := s'.seen[i := s.seen[i] + 1])
  }

  /** Scanning space i, up to wherever it ends by then. */
  ghost function ScanOne<P>(h: Store<P>, s: Order, i: nat): (s': Order)
    requires IsOrder(s) && i < |s.spaces|
    ensures IsOrder(s') && |s.spaces| <= |s'.spaces|
    ensures Left(h, s') <= Left(h, s) && (|s'.spaces| == |s.spaces| || Left(h, s') < Left(h, s))
    decreases Left(h, s), |s.spaces[i]| - s.seen[i]
  {
    if s.seen[i] >= |s.spaces[i]| then s else ScanOne(h, Visit(h, s, i), i)
  }

  /** One pass: the spaces from sp - 1 down to those already scanned. */
  ghost function Pass<P>(h: Store<P>, s: Order, scanned: nat, sp: nat): (s': Order)
    requires IsOrder(s) && sp <= |s.spaces|
    ensures IsOrder(s') && |s.spaces| <= |s'.spaces|
    ensures Left(h, s') <= Left(h, s) && (|s'.spaces| == |s.spaces| || Left(h, s') < Left(h, s))
    decreases sp
  {
    if sp <= scanned then s else Pass(h, ScanOne(h, s, sp - 1), scanned, sp - 1)
  }

  /** scanspace: passes while the last one made a new space. */
  ghost function Passes<P>(h: Store<P>, s: Order, scanned: nat): (s': Order)
    requires IsOrder(s)
    ensures IsOrder(s') && |s.spaces| <= |s'.spaces|
    decreases Left(h, s)
  {
    var s' := Pass(h, s, scanned, |s.spaces|);
    if |s'.spaces| == |s.spaces| then s' else Passes(h, s', |s.spaces|)
  }

  function Begin(minspace: nat): Order {
    Order([[]], [0], {}, Align(minspace), minspace)
  }

  /** A whole collection of the heap h. */
  ghost function Collected<P>(h: Store<P>, roots: seq<int>, minspace: nat): (s: Order)
    ensures IsOrder(s)
  {
    Passes(h, ForwardAll(h, Begin(minspace), roots), 0)
  }

  // ----- what is missed

  /** Object k of space i came there after the space had been scanned. */
  predicate Late(s: Order, i: nat, k: nat) {
    i < |s.spaces| && i < |s.seen| && s.seen[i] <= k < |s.spaces[i]|
  }

  /** Nothing that came too late leads to an object. */
  ghost predicate NothingLost<P>(h: Store<P>, s: Order) {
    forall i: nat, k: nat, q | Late(s, i, k) && q in FieldsOf(h, s.spaces[i][k]) :: q !in h
  }

  /** Each pass covers exactly one space. */
  ghost predicate Narrow<P>(h: Store<P>, s: Order, scanned: nat)
    requires IsOrder(s)
    decreases Left(h, s)
  {
    && |s.spaces| == scanned + 1
    && var s' := Pass(h, s, scanned, |s.spaces|);
       (|s'.spaces| == |s.spaces| || Narrow(h, s', |s.spaces|))
  }

  /** The first n spaces have been scanned to their ends. */
  predicate SeenTo(s: Order, n: nat) {
    n <= |s.seen| == |s.spaces| && forall j | 0 <= j < n :: s.seen[j] == |s.spaces[j]|
  }

  /** What scanning space i leaves: that space is done, the others are as they were. */
  lemma {:induction false} ScanOneSees<P>(h: Store<P>, s: Order, i: nat)
    requires IsOrder(s) && i < |s.spaces| && s.seen[i] <= |s.spaces[i]|
    ensures var s' := ScanOne(h, s, i);
            && s'.seen[i] == |s'.spaces[i]|
            && (forall j | 0 <= j < |s.spaces| && j != i :: s'.seen[j] == s.seen[j] && s.spaces[j] <= s'.spaces[j])
            && (forall j | 0 <= j < |s.spaces| - 1 && j != i :: s'.spaces[j] == s.spaces[j])
            && (forall j | |s.spaces| <= j < |s'.spaces| :: s'.seen[j] == 0)
    decreases Left(h, s), |s.spaces[i]| - s.seen[i]
  {
    if s.seen[i] < |s.spaces[i]| {
      ForwardAllGrows(h, s, FieldsOf(h, s.spaces[i][s.seen[i]]));
      var s1 := Visit(h, s, i);
      ScanOneSees(h, s1, i);
    }
  }

  /** If each pass covers one space, nothing comes too late. */
  lemma {:induction false} NarrowSeesAll<P>(h: Store<P>, s: Order, scanned: nat)
    requires IsOrder(s) && Narrow(h, s, scanned) && SeenTo(s, scanned) && s.seen[scanned] == 0
    ensures SeenTo(Passes(h, s, scanned), |Passes(h, s, scanned).spaces|)
    decreases Left(h, s)
  {
    ScanOneSees(h, s, scanned);
    var s' := ScanOne(h, s, scanned);
    assert Pass(h, s, scanned, |s.spaces|) == Pass(h, s', scanned, scanned) == s';
    if |s'.spaces| > |s.spaces| {
      NarrowSeesAll(h, s', |s.spaces|);
    }
  }

  lemma SeenLosesNothing<P>(h: Store<P>, s: Order)
    requires SeenTo(s, |s.spaces|)
    ensures NothingLost(h, s)
  {
  }

  /** If each pass of a collection covers one space, nothing is lost. */
  lemma NarrowLosesNothing<P>(h: Store<P>, roots: seq<int>, minspace: nat)
    requires Narrow(h, ForwardAll(h, Begin(minspace), roots), 0)
    ensures NothingLost(h, Collected(h, roots, minspace))
  {
    ForwardAllGrows(h, Begin(minspace), roots);
    NarrowSeesAll(h, ForwardAll(h, Begin(minspace), roots), 0);
    SeenLosesNothing(h, Collected(h, roots, minspace));
  }

  /** One pass over one space is enough if one space is. */
  lemma OneSpaceLosesNothing<P>(h: Store<P>, roots: seq<int>, minspace: nat)
    requires |Collected(h, roots, minspace).spaces| == 1
    ensures NothingLost(h, Collected(h, roots, minspace))
  {
    ForwardAllGrows(h, Begin(minspace), roots);
    NarrowLosesNothing(h, roots, minspace);
  }

  // ----- a heap that loses an object

  /** a leads to z and z to w; b leads nowhere. */
  ghost predicate LosingHeap<P>(h: Store<P>, a: int, b: int, z: int, w: int) {
    && a != b && a != z && a != w && b != z && b != w && z != w
    && a in h && h[a].size == 7496 && h[a].fields == [z]
    && b in h && h[b].size == 4992 && h[b].fields == []
    && z in h && h[z].size == 4992 && h[z].fields == [w]
    && w in h && h[w].size == 8 && h[w].fields == []
  }

  /** The roots: a fills most of the first space, so b goes to a second one. */
  lemma RootsFirst<P>(h: Store<P>, a: int, b: int, z: int, w: int)
    requires LosingHeap(h, a, b, z, w)
    ensures ForwardAll(h, Begin(MIN_MINSPACE), [a, b])
         == Order([[a], [b]], [0, 0], {a, b}, 5000, MIN_MINSPACE)
  {
    var s1 := ForwardOne(h, Begin(MIN_MINSPACE), a);
    assert s1 == Order([[a]], [0], {a}, 2496, MIN_MINSPACE) by {
      assert [] + [a] == [a];
    }
    assert [a, b][1..] == [b] && [b][1..] == [];
    assert ForwardOne(h, s1, b) == Order([[a], [b]], [0, 0], {a, b}, 5000, MIN_MINSPACE);
    assert ForwardAll(h, s1, [b]) == ForwardAll(h, ForwardOne(h, s1, b), []);
  }

  /** The pass scans the second space, then the first: z goes to the second one, where w is
      never seen. */
  lemma SecondThenFirst<P>(h: Store<P>, a: int, b: int, z: int, w: int)
    requires LosingHeap(h, a, b, z, w)
    ensures var s := Order([[a], [b]], [0, 0], {a, b}, 5000, MIN_MINSPACE);
            Pass(h, s, 0, 2) == Order([[a], [b, z]], [1, 1], {a, b, z}, 0, MIN_MINSPACE)
  {
    var s := Order([[a], [b]], [0, 0], {a, b}, 5000, MIN_MINSPACE);
    var s1 := Order([[a], [b]], [0, 1], {a, b}, 5000, MIN_MINSPACE);
    var s2 := Order([[a], [b, z]], [1, 1], {a, b, z}, 0, MIN_MINSPACE);
    assert Visit(h, s, 1) == s1;
    assert ScanOne(h, s, 1) == ScanOne(h, s1, 1) == s1;
    assert [z][1..] == [] && [b] + [z] == [b, z];
    assert ForwardOne(h, s1, z) == Order([[a], [b, z]], [0, 1], {a, b, z}, 0, MIN_MINSPACE);
    assert ForwardAll(h, s1, [z]) == ForwardAll(h, ForwardOne(h, s1, z), []);
    assert Visit(h, s1, 0) == s2;
    assert ScanOne(h, s1, 0) == ScanOne(h, s2, 0) == s2;
    assert Pass(h, s, 0, 2) == Pass(h, s1, 0, 1) == Pass(h, s2, 0, 0);
  }

  /** A collection into spaces of the least size can lose an object. */
  lemma ObjectLost<P>(h: Store<P>, a: int, b: int, z: int, w: int)
    requires LosingHeap(h, a, b, z, w)
    ensures !NothingLost(h, Collected(h, [a, b], MIN_MINSPACE))
  {
    RootsFirst(h, a, b, z, w);
    SecondThenFirst(h, a, b, z, w);
    var s := Collected(h, [a, b], MIN_MINSPACE);
    assert s == Order([[a], [b, z]], [1, 1], {a, b, z}, 0, MIN_MINSPACE);
    assert Late(s, 1, 1) && w in FieldsOf(h, s.spaces[1][1]);
  }
}
