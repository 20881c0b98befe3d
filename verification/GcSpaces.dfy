/** src/gc.c: spaces, their layout, and allocation by bumping. */
module Spaces {
  import opened Heaps

  /** The objects os fill the addresses from a to b without gaps, each after its tag word. */
  ghost predicate Tiled<P>(h: Store<P>, a: int, b: int, os: seq<int>)
    decreases |os|
  {
    if os == [] then a == b
    else os[0] in h && h[os[0]].size > 0 && os[0] == a + WORD
         && Tiled(h, os[0] + Align(h[os[0]].size), b, os[1..])
  }

  /** What tiling means for each object: it lies inside, after the ones before it. */
  ghost predicate Inside<P>(h: Store<P>, a: int, b: int, os: seq<int>) {
    && (forall k | 0 <= k < |os| :: os[k] in h && h[os[k]].size > 0 && a < os[k] < b)
    && (forall i, j | 0 <= i < j < |os| :: os[i] < os[j])
  }

  ghost predicate SpaceOk<P>(h: Store<P>, sp: Space, os: seq<int>) {
    && sp.bot <= sp.current <= sp.top
    && Tiled(h, sp.bot, sp.current, os) && Inside(h, sp.bot, sp.current, os)
  }

  lemma {:induction false} TiledAppend<P>(h: Store<P>, a: int, b: int, os: seq<int>, h': Store<P>, p: int)
    requires Tiled(h, a, b, os) && p !in os
    requires p in h' && h'[p].size > 0 && p == b + WORD
    requires forall q | q in os && q in h :: q in h' && h'[q].size == h[q].size
    ensures Tiled(h', a, b + Weight(h'[p].size), os + [p])
    decreases |os|
  {
    if os == [] {
      assert (os + [p])[1..] == [];
    } else {
      TiledAppend(h, os[0] + Align(h[os[0]].size), b, os[1..], h', p);
      assert (os + [p])[1..] == os[1..] + [p];
    }
  }

  /** The chain of spaces lies in [lo, hi), later spaces at higher addresses. */
  ghost predicate ChainOk<P>(h: Store<P>, chain: seq<Space>, objs: seq<seq<int>>, lo: int, hi: int) {
    && chain != [] && |objs| == |chain| && lo <= hi
    && (forall i | 0 <= i < |chain| :: SpaceOk(h, chain[i], objs[i]))
    && (forall i | 0 <= i < |chain| :: lo <= chain[i].bot && chain[i].top <= hi)
    && (forall i, j | 0 <= i < j < |chain| :: chain[i].top <= chain[j].bot)
  }

  ghost predicate Among(objs: seq<seq<int>>, p: int) {
    exists i, k :: 0 <= i < |objs| && 0 <= k < |objs[i]| && objs[i][k] == p
  }

  /** Every object at or above lo is in the chain. */
  ghost predicate Covered<P>(h: Store<P>, objs: seq<seq<int>>, lo: int) {
    forall p | p in h && p >= lo :: Among(objs, p)
  }

  /** The size that makes no progress in a blocked gcalloc: minspace is not raised,
      yet the request with its tag word does not fit a fresh space. */
  predicate Gap(size: nat, minspace: nat) {
    size <= minspace && Weight(size) > Align(minspace)
  }

  /** Size of the space made by the k-th retry of a blocked gcalloc. */
  ghost function RetryRoom(minspace: nat, size: nat, k: nat): nat
    decreases k
  {
    if k == 0 then Align(Bump(minspace, size)) else RetryRoom(Bump(minspace, size), size, k - 1)
  }

  /** A blocked gcalloc that does not fit at once succeeds after some retry exactly
      when the request is not in the gap, and then the first retry succeeds. */
  lemma {:induction false} RetriesHelpUnlessGap(minspace: nat, size: nat, k: nat)
    decreases k
    ensures Weight(size) <= RetryRoom(minspace, size, k) <==> !Gap(size, minspace)
  {
    if k > 0 {
      RetriesHelpUnlessGap(Bump(minspace, size), size, k - 1);
    }
  }

  /** The request fits the newest space. */
  ghost predicate Fits<P>(st: State<P>, size: nat) {
    st.chain != [] && var sp := st.chain[|st.chain| - 1]; sp.current + Weight(size) <= sp.top
  }

  /** What gcalloc does: bump the last space, or push a fresh one. */
  ghost predicate Allocated<P>(st: State<P>, obj: Obj<P>, p: int, st': State<P>)
    requires st.chain != [] && |st.objs| == |st.chain|
  {
    var last := |st.chain| - 1;
    var n := Weight(obj.size);
    && st'.mem == st.mem[p := obj]
    && if st.chain[last].current + n <= st.chain[last].top then
         && p == st.chain[last].current + WORD
         && st'.chain == st.chain[last := st.chain[last].(current := st.chain[last].current + n)]
         && st'.objs == st.objs[last := st.objs[last] + [p]]
         && st'.brk == st.brk && st'.minspace == st.minspace
       else
         && |st'.chain| == |st.chain| + 1 && st'.chain == st.chain + [st'.chain[|st.chain|]]
         && var sp := st'.chain[|st.chain|];
         && sp.bot >= st.brk && sp.top == sp.bot + Align(st'.minspace) && st'.brk == sp.top
         && sp.current == sp.bot + n && p == sp.bot + WORD
         && st'.objs == st.objs + [[p]]
         && st'.minspace == Bump(st.minspace, obj.size)
  }

  lemma BumpAllocated<P>(st: State<P>, obj: Obj<P>, p: int, st': State<P>)
    requires |st.chain| == |st.objs| == 1 && Fits(st, obj.size) && p == st.chain[0].current + WORD
    requires st' == State(st.mem[p := obj], [st.chain[0].(current := st.chain[0].current + Weight(obj.size))],
                          [st.objs[0] + [p]], st.brk, st.minspace)
    ensures Allocated(st, obj, p, st')
  {
  }

  lemma SpaceAppend<P>(h: Store<P>, sp: Space, os: seq<int>, p: int, obj: Obj<P>)
    requires SpaceOk(h, sp, os) && p !in h && obj.size > 0
    requires p == sp.current + WORD && sp.current + Weight(obj.size) <= sp.top
    ensures SpaceOk(h[p := obj], sp.(current := sp.current + Weight(obj.size)), os + [p])
  {
    TiledAppend(h, sp.bot, sp.current, os, h[p := obj], p);
  }

  /** The layout only depends on the sizes of the objects in it. */
  lemma {:induction false} SameSizes<P>(h: Store<P>, h': Store<P>, a: int, b: int, os: seq<int>)
    requires Tiled(h, a, b, os)
    requires forall q | q in os && q in h :: q in h' && h'[q].size == h[q].size
    ensures Tiled(h', a, b, os)
    decreases |os|
  {
    if os != [] {
      SameSizes(h, h', os[0] + Align(h[os[0]].size), b, os[1..]);
    }
  }

  lemma ObjectBelow<P>(h: Store<P>, chain: seq<Space>, objs: seq<seq<int>>, lo: int, hi: int, i: nat, k: nat)
    requires ChainOk(h, chain, objs, lo, hi) && i < |objs| && k < |objs[i]|
    ensures objs[i][k] < chain[|chain| - 1].current && objs[i][k] < hi
  {
    hide Tiled;
    var last := |chain| - 1;
    assert SpaceOk(h, chain[i], objs[i]) && SpaceOk(h, chain[last], objs[last]);
    assert objs[i][k] < chain[i].current;
    assert i < last ==> chain[i].top <= chain[last].bot;
  }

  /** Where the next object goes is free. */
  lemma FreshAddress<P>(h: Store<P>, chain: seq<Space>, objs: seq<seq<int>>, lo: int, hi: int)
    requires ChainOk(h, chain, objs, lo, hi) && Covered(h, objs, lo)
    ensures forall p | p in h && p >= lo :: p < chain[|chain| - 1].current + WORD
    ensures forall p | p in h && p >= lo :: p < hi
    ensures lo <= chain[|chain| - 1].current
  {
    var last := |chain| - 1;
    assert SpaceOk(h, chain[last], objs[last]);
    hide ChainOk, SpaceOk;
    forall p | p in h && p >= lo
      ensures p < chain[last].current + WORD && p < hi
    {
      var i, k :| 0 <= i < |objs| && 0 <= k < |objs[i]| && objs[i][k] == p;
      ObjectBelow(h, chain, objs, lo, hi, i, k);
    }
  }

  lemma SpaceFrame<P>(h: Store<P>, sp: Space, os: seq<int>, p: int, obj: Obj<P>)
    requires SpaceOk(h, sp, os) && p !in h
    ensures SpaceOk(h[p := obj], sp, os)
  {
    SameSizes(h, h[p := obj], sp.bot, sp.current, os);
  }

  lemma BumpKeepsChain<P>(h: Store<P>, chain: seq<Space>, objs: seq<seq<int>>, lo: int, brk: int, obj: Obj<P>, p: int)
    requires ChainOk(h, chain, objs, lo, brk) && p !in h && obj.size > 0
    requires var sp := chain[|chain| - 1]; p == sp.current + WORD && sp.current + Weight(obj.size) <= sp.top
    ensures var last := |chain| - 1;
            var chain' := chain[last := chain[last].(current := chain[last].current + Weight(obj.size))];
            ChainOk(h[p := obj], chain', objs[last := objs[last] + [p]], lo, brk)
            && Used(chain') == Used(chain) + Weight(obj.size)
  {
    var last := |chain| - 1;
    var chain' := chain[last := chain[last].(current := chain[last].current + Weight(obj.size))];
    SpaceAppend(h, chain[last], objs[last], p, obj);
    forall i | 0 <= i < last
      ensures SpaceOk(h[p := obj], chain[i], objs[i])
    {
      SpaceFrame(h, chain[i], objs[i], p, obj);
    }
    assert chain'[..last] == chain[..last];
  }

  lemma PushKeepsChain<P>(h: Store<P>, chain: seq<Space>, objs: seq<seq<int>>, lo: int, brk: int, obj: Obj<P>, p: int,
                          sp: Space)
    requires ChainOk(h, chain, objs, lo, brk) && p !in h && obj.size > 0
    requires sp.bot >= brk && p == sp.bot + WORD && sp.current == sp.bot + Weight(obj.size) <= sp.top
    ensures ChainOk(h[p := obj], chain + [sp], objs + [[p]], lo, sp.top)
    ensures Used(chain + [sp]) == Used(chain) + Weight(obj.size)
  {
    SpaceAppend(h, Space(sp.bot, sp.bot, sp.top), [], p, obj);
    assert [] + [p] == [p];
    forall i | 0 <= i < |chain|
      ensures SpaceOk(h[p := obj], chain[i], objs[i])
    {
      SpaceFrame(h, chain[i], objs[i], p, obj);
    }
    assert (chain + [sp])[..|chain|] == chain;
  }

  lemma ChainShape<P>(h: Store<P>, chain: seq<Space>, objs: seq<seq<int>>, lo: int, hi: int)
    requires ChainOk(h, chain, objs, lo, hi)
    ensures chain != [] && |objs| == |chain| && chain[|chain| - 1].top <= hi
  {
  }

  lemma AllocKeepsChain<P>(st: State<P>, lo: int, obj: Obj<P>, p: int, st': State<P>)
    requires ChainOk(st.mem, st.chain, st.objs, lo, st.brk) && Covered(st.mem, st.objs, lo) && obj.size > 0
    requires forall q | q in st.mem :: q < st.brk
    requires Fits(st, obj.size) || !Gap(obj.size, st.minspace)
    requires Allocated(st, obj, p, st')
    ensures p !in st.mem && p >= lo && p < st'.brk
    ensures ChainOk(st'.mem, st'.chain, st'.objs, lo, st'.brk)
    ensures forall q | q in st'.mem :: q < st'.brk
    ensures Used(st'.chain) == Used(st.chain) + Weight(obj.size)
  {
    hide ChainOk, Covered, SpaceOk, Used;
    FreshAddress(st.mem, st.chain, st.objs, lo, st.brk);
    ChainShape(st.mem, st.chain, st.objs, lo, st.brk);
    var last := |st.chain| - 1;
    if st.chain[last].current + Weight(obj.size) <= st.chain[last].top {
      BumpKeepsChain(st.mem, st.chain, st.objs, lo, st.brk, obj, p);
    } else {
      PushKeepsChain(st.mem, st.chain, st.objs, lo, st.brk, obj, p, st'.chain[|st.chain|]);
    }
  }

  lemma AllocCovers<P>(st: State<P>, lo: int, obj: Obj<P>, p: int, st': State<P>)
    requires st.chain != [] && |st.objs| == |st.chain| && Covered(st.mem, st.objs, lo)
    requires Allocated(st, obj, p, st')
    ensures Covered(st'.mem, st'.objs, lo)
    ensures forall q :: Among(st'.objs, q) <==> q == p || Among(st.objs, q)
  {
    var last := |st.chain| - 1;
    forall q
      ensures Among(st'.objs, q) <==> q == p || Among(st.objs, q)
    {
      if Among(st.objs, q) {
        var i, k :| 0 <= i < |st.objs| && 0 <= k < |st.objs[i]| && st.objs[i][k] == q;
        assert st'.objs[i][k] == q;
      }
      if q == p {
        var i := |st'.objs| - 1;
        assert st'.objs[i][|st'.objs[i]| - 1] == q;
      }
      if Among(st'.objs, q) && q != p {
        var i, k :| 0 <= i < |st'.objs| && 0 <= k < |st'.objs[i]| && st'.objs[i][k] == q;
        assert i < |st.objs| && k < |st.objs[i]| && st.objs[i][k] == q;
      }
    }
  }
}
