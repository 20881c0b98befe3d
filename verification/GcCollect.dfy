/** src/gc.c: the collector itself. */
module Collector {
  import opened Heaps
  import opened Spaces
  import opened ScanOrder
  import opened CopyInvariant
  import opened HeapGraphs

  class Collector<P(!new)> {
    var mem: Store<P>
    var chain: seq<Space>
    var past: seq<Space>
    var roots: seq<int>
    var minspace: nat
    var gcblocked: nat
    var brk: int
    ghost var objs: seq<seq<int>>
    ghost var g: Copying<P>
    ghost var order: Order

    ghost function Now(): State<P>
      reads this
    {
      State(mem, chain, objs, brk, minspace)
    }

    ghost predicate Valid()
      reads this
    {
      AtRest(Now(), roots) && past == []
    }

    /** The size of the first space. */
    ghost function Room(): int
      requires chain != []
      reads this
    {
      chain[0].top - chain[0].bot
    }

    /** A collection is under way and has come as far as `order`; object cur has had
        `done` fields forwarded. */
    ghost predicate Collecting(cur: int, done: nat)
      reads this
    {
      gcblocked > 0 && past == g.past && Inv(g, Now(), cur, done) && Follows(g, Now(), order)
    }

    /** initgc */
    constructor (start: int)
      ensures Valid() && mem == map[] && roots == [] && gcblocked == 0 && minspace == MIN_MINSPACE
      ensures chain == [Space(start, start, start + Align(MIN_MINSPACE))]
    {
      mem, roots, past, minspace, gcblocked := map[], [], [], MIN_MINSPACE, 0;
      chain, objs := [Space(start, start, start + Align(MIN_MINSPACE))], [[]];
      brk := start + Align(MIN_MINSPACE);
      order := Begin(MIN_MINSPACE);
      g := Start(State(map[], [], [], start, MIN_MINSPACE), []);
      new;
      UsedOne(chain);
      assert ChainOk(mem, chain, objs, chain[0].bot, brk);
    }

    /** isinspace */
    method IsInSpace(spaces: seq<Space>, p: int) returns (b: bool)
      ensures b <==> InChain(spaces, p)
    {
      var i := |spaces|;
      while i > 0
        invariant 0 <= i <= |spaces|
        invariant forall j | i <= j < |spaces| :: !InSpace(p, spaces[j])
      {
        i := i - 1;
        if InSpace(p, spaces[i]) {
          return true;
        }
      }
      return false;
    }

    /** newspace: a fresh region, at any address above those in use. */
    method NewSpace() returns (sp: Space)
      modifies this`brk
      ensures sp.bot >= old(brk) && sp.current == sp.bot && sp.top == sp.bot + Align(minspace) && brk == sp.top
    {
      var bot: int :| bot >= brk by { assert brk >= brk; }
      sp := Space(bot, bot, bot + Align(minspace));
      brk := sp.top;
    }

    /** gcalloc while collection is blocked: bump, or push a space and try again. */
    method GcAlloc(obj: Obj<P>) returns (p: int)
      requires gcblocked > 0 && chain != [] && |objs| == |chain|
      requires Fits(Now(), obj.size) || !Gap(obj.size, minspace)
      modifies this`mem, this`chain, this`brk, this`minspace, this`objs
      ensures Allocated(old(Now()), obj, p, Now())
    {
      var n := Align(obj.size + WORD);
      ghost var pushed := false;
      while true
        invariant mem == old(mem) && |objs| == |chain| > 0
        invariant !pushed ==> chain == old(chain) && objs == old(objs) && brk == old(brk) && minspace == old(minspace)
        invariant pushed ==> |chain| == |old(chain)| + 1
        invariant pushed ==>
                    var sp := chain[|old(chain)|];
                    && old(chain[|chain| - 1].current + n > chain[|chain| - 1].top)
                    && chain == old(chain) + [sp] && objs == old(objs) + [[]]
                    && minspace == Bump(old(minspace), obj.size)
                    && sp.bot >= old(brk) && sp.current == sp.bot && sp.top == sp.bot + Align(minspace) && brk == sp.top
        decreases !pushed
      {
        var last := |chain| - 1;
        var q := chain[last].current + n;
        if q <= chain[last].top {
          p := chain[last].current + WORD;
          chain := chain[last := chain[last].(current := q)];
          mem := mem[p := obj];
          objs := objs[last := objs[last] + [p]];
          assert [] + [p] == [p];
          return;
        }
        if minspace < obj.size {
          minspace := obj.size + WORD;
        }
        var sp := NewSpace();
        chain, objs, pushed := chain + [sp], objs + [[]], true;
      }
    }

    /** forward */
    method Forward(p: int, ghost cur: int, ghost done: nat) returns (np: int)
      requires Collecting(cur, done) && cur < brk && (cur in g.src || cur < g.limit)
      requires PtrOk(g.from, g.past, g.limit, p)
      requires p in g.from ==> Reachable(g.from, g.roots, p)
      modifies this`mem, this`chain, this`brk, this`minspace, this`objs, this`g, this`order
      ensures Collecting(cur, done) && brk >= old(brk)
      ensures Advanced(old(g), old(Now()), g, Now()) && g.scanned == old(g).scanned
      ensures Forwarded(g, p, np) && order == ForwardOne(g.from, old(order), p)
      ensures forall n | n in old(g).src :: n in mem && mem[n] == old(mem)[n]
    {
      var inOld := IsInSpace(past, p);
      if !inOld {
        return p;
      }
      assert mem[p] == if p in g.fwd then g.from[p].(tag := Moved(g.fwd[p])) else g.from[p];
      match mem[p].tag
      case Moved(to) =>
        np := to;
      case Live =>
        np := Copy(p, cur, done);
    }

    /** The unforwarded branch of forward: `(*tag->copy)(p)` and the mark. */
    method Copy(p: int, ghost cur: int, ghost done: nat) returns (np: int)
      requires Collecting(cur, done) && cur < brk && (cur in g.src || cur < g.limit)
      requires p in g.from && p !in g.fwd && Reachable(g.from, g.roots, p)
      modifies this`mem, this`chain, this`brk, this`minspace, this`objs, this`g, this`order
      ensures Collecting(cur, done) && brk >= old(brk)
      ensures Advanced(old(g), old(Now()), g, Now()) && g.scanned == old(g).scanned
      ensures Forwarded(g, p, np) && old(IsOrder(order)) && p !in old(order).copied && order == CopyTo(g.from, old(order), p)
      ensures forall n | n in old(g).src :: n in mem && mem[n] == old(mem)[n]
    {
      hide Inv, Advanced, Follows, CopyTo, Grown, Left, Reachable, PtrOk, Gap;
      CopiedSoFar(g, Now(), order);
      CopyReady(g, Now(), cur, done, p);
      var obj := mem[p];
      np := GcAlloc(obj);
      ghost var st1 := Now();
      mem := mem[p := obj.(tag := Moved(np))];
      g := g.(fwd := g.fwd[p := np], src := g.src[np := p]);
      order := CopyTo(g.from, order, p);
      CopyStep(old(g), old(Now()), cur, done, p, np, st1, g, mem);
      CopyFollows(old(g), old(Now()), old(order), p, np, st1);
      FollowsStore(g, st1, order, mem);
    }

    /** scanroots */
    method ScanRoots()
      requires Collecting(g.limit - 1, 0) && roots == g.roots
      modifies this`mem, this`chain, this`brk, this`minspace, this`objs, this`g, this`order, this`roots
      ensures Collecting(g.limit - 1, 0)
      ensures Advanced(old(g), old(Now()), g, Now()) && g.scanned == old(g).scanned
      ensures old(IsOrder(order)) && order == ForwardAll(g.from, old(order), g.roots)
      ensures |roots| == |g.roots| && forall k | 0 <= k < |roots| :: Forwarded(g, g.roots[k], roots[k])
    {
      hide Inv, Advanced, Forwarded, Follows, ForwardOne, Grown, Left, PtrOk, Reachable, SpaceOk;
      CopiedSoFar(g, Now(), order);
      SizesFixed(g, Now(), g.limit - 1, 0);
      AdvancedStill(g, Now());
      assert g.roots[0..] == g.roots;
      for i := 0 to |roots|
        invariant Collecting(g.limit - 1, 0) && IsOrder(order)
        invariant Advanced(old(g), old(Now()), g, Now()) && g.scanned == old(g).scanned
        invariant g.roots == old(g).roots && g.limit == old(g).limit && g.from == old(g).from
        invariant |roots| == |g.roots|
        invariant forall k | 0 <= k < i :: Forwarded(g, g.roots[k], roots[k])
        invariant forall k | i <= k < |roots| :: roots[k] == g.roots[k]
        invariant ForwardAll(g.from, order, g.roots[i..]) == ForwardAll(g.from, old(order), g.roots)
      {
        RootReady(g, Now(), g.limit - 1, i);
        SizesFixed(g, Now(), g.limit - 1, 0);
        ghost var g1, st1 := g, Now();
        assert g.roots[i..][1..] == g.roots[i + 1..];
        var np := Forward(roots[i], g.limit - 1, 0);
        CopiedSoFar(g, Now(), order);
        AdvancedKeeps(g1, st1, g, Now());
        forall k | 0 <= k < i
          ensures Forwarded(g, g.roots[k], roots[k])
        {
          ForwardedStays(g1, st1, g, Now(), g.roots[k], roots[k]);
        }
        AdvancedTwice(old(g), old(Now()), g1, st1, g, Now());
        roots := roots[i := np];
      }
    }

    /** `(*tag->scan)(p)`, for one field. */
    method ScanField(p: int, i: nat)
      requires Collecting(p, i) && p in g.src && p in mem && i < |mem[p].fields|
      modifies this`mem, this`chain, this`brk, this`minspace, this`objs, this`g, this`order
      ensures Collecting(p, i + 1) && p in g.src && p in mem && |mem[p].fields| == |old(mem)[p].fields|
      ensures Advanced(old(g), old(Now()), g, Now()) && g.scanned == old(g).scanned
      ensures old(IsOrder(order)) && i < |FieldsOf(g.from, g.src[p])|
      ensures order == ForwardOne(g.from, old(order), FieldsOf(g.from, g.src[p])[i])
    {
      hide Inv, Advanced, Forwarded, PtrOk, SpaceOk, Follows, ForwardOne, Grown, Left, Reachable;
      CopiedSoFar(g, Now(), order);
      FieldReady(g, Now(), p, i);
      var np := Forward(mem[p].fields[i], p, i);
      AdvancedKeeps(old(g), old(Now()), g, Now());
      FieldStep(g, Now(), p, i, np);
      ghost var st1 := Now();
      mem := mem[p := mem[p].(fields := mem[p].fields[i := np])];
      AdvancedStore(old(g), old(Now()), g, st1, mem);
      FollowsStore(g, st1, order, mem);
    }

    /** `(*tag->scan)(p)`: forward every field of the new object p, the next of space j. */
    method ScanObject(p: int, ghost j: nat)
      requires Collecting(g.limit - 1, 0) && IsOrder(order) && j < |objs| == |order.spaces|
      requires order.seen[j] < |objs[j]| == |order.spaces[j]| && p == objs[j][order.seen[j]]
      modifies this`mem, this`chain, this`brk, this`minspace, this`objs, this`g, this`order
      ensures Collecting(g.limit - 1, 0)
      ensures Advanced(old(g), old(Now()), g, Now())
      ensures order == Visit(g.from, old(order), j)
    {
      hide Inv, Advanced, Forwarded, PtrOk, SpaceOk, Follows, ForwardOne, Grown, Left, Reachable;
      NextIsNew(g, Now(), order, j);
      SizesFixed(g, Now(), g.limit - 1, 0);
      AdvancedStill(g, Now());
      ScanBegins(g, Now(), g.limit - 1, p);
      var n := |mem[p].fields|;
      ghost var fields := FieldsOf(g.from, g.src[p]);
      assert fields[0..] == fields;
      for i := 0 to n
        invariant Collecting(p, i) && p in g.src && p in mem && |mem[p].fields| == n == |fields|
        invariant Advanced(old(g), old(Now()), g, Now()) && g.scanned == old(g).scanned
        invariant IsOrder(order) && fields == FieldsOf(g.from, g.src[p]) && g.from == old(g).from && g.limit == old(g).limit
        invariant ForwardAll(g.from, order, fields[i..]) == ForwardAll(g.from, old(order), fields)
      {
        ghost var g1, st1 := g, Now();
        assert fields[i..][1..] == fields[i + 1..];
        ScanField(p, i);
        CopiedSoFar(g, Now(), order);
        AdvancedKeeps(g1, st1, g, Now());
        AdvancedTwice(old(g), old(Now()), g1, st1, g, Now());
      }
      ScanDone(old(g), old(Now()), old(order), g, Now(), order, j, p);
      order := order.(seen := order.seen[j := order.seen[j] + 1]);
      g := g.(scanned := g.scanned + {p});
    }

    /** The inner loop of scanspace: one space, up to wherever `current` is by then. */
    method ScanOne(i: nat)
      requires Collecting(g.limit - 1, 0) && IsOrder(order) && i < |chain| == |order.spaces| && order.seen[i] == 0
      modifies this`mem, this`chain, this`brk, this`minspace, this`objs, this`g, this`order
      ensures Collecting(g.limit - 1, 0)
      ensures Advanced(old(g), old(Now()), g, Now())
      ensures order == ScanOrder.ScanOne(g.from, old(order), i)
    {
      hide Inv, Advanced, Follows, Visit, Grown, Left, Inside, Tiled, StartOf;
      ScanStands(g, Now(), order, i);
      AdvancedStill(g, Now());
      var scan := chain[i].bot;
      while scan < chain[i].current
        invariant Collecting(g.limit - 1, 0) && g.from == old(g).from && g.limit == old(g).limit
        invariant IsOrder(order) && i < |chain| == |objs| == |order.spaces|
        invariant order.seen[i] <= |objs[i]| == |order.spaces[i]|
        invariant order.seen[i] > 0 ==> objs[i][order.seen[i] - 1] in mem
        invariant scan == StartOf(mem, chain[i].bot, objs[i], order.seen[i])
        invariant Advanced(old(g), old(Now()), g, Now())
        invariant ScanOrder.ScanOne(g.from, order, i) == ScanOrder.ScanOne(g.from, old(order), i)
        decreases Left(g.from, order), |order.spaces[i]| - order.seen[i]
      {
        ScanStands(g, Now(), order, i);
        ghost var g1, st1 := g, Now();
        var p := scan + WORD;
        ScanObject(p, i);
        AdvancedKeeps(g1, st1, g, Now());
        AdvancedTwice(old(g), old(Now()), g1, st1, g, Now());
        ScanStands(g, Now(), order, i);
        scan := p + Align(mem[p].size);
      }
      ScanStands(g, Now(), order, i);
    }

    /** One pass of scanspace: from the front space back to the ones already scanned. */
    method ScanPass(scanned: nat, front: nat)
      requires Collecting(g.limit - 1, 0) && IsOrder(order) && scanned < front == |chain| == |order.spaces|
      requires forall j | scanned <= j < front :: order.seen[j] == 0
      modifies this`mem, this`chain, this`brk, this`minspace, this`objs, this`g, this`order
      ensures Collecting(g.limit - 1, 0) && |chain| == |order.spaces|
      ensures Advanced(old(g), old(Now()), g, Now())
      ensures order == Pass(g.from, old(order), scanned, front)
      ensures forall j | front <= j < |order.spaces| :: order.seen[j] == 0
    {
      hide Inv, Advanced, Follows, ScanOrder.ScanOne;
      SizesFixed(g, Now(), g.limit - 1, 0);
      AdvancedStill(g, Now());
      var sp := front;
      while sp > scanned
        invariant scanned <= sp <= front <= |chain| == |order.spaces| && IsOrder(order)
        invariant Collecting(g.limit - 1, 0) && g.limit == old(g).limit && g.from == old(g).from
        invariant Advanced(old(g), old(Now()), g, Now())
        invariant forall j | scanned <= j < sp || front <= j < |order.spaces| :: order.seen[j] == 0
        invariant Pass(g.from, order, scanned, sp) == Pass(g.from, old(order), scanned, front)
      {
        sp := sp - 1;
        ghost var g1, st1, s1 := g, Now(), order;
        ScanOne(sp);
        ScanOneSees(g.from, s1, sp);
        AdvancedKeeps(g1, st1, g, Now());
        AdvancedTwice(old(g), old(Now()), g1, st1, g, Now());
        FollowsShape(g, Now(), order);
      }
    }

    /** scanspace */
    method ScanSpace()
      requires Collecting(g.limit - 1, 0) && g.scanned == {}
      modifies this`mem, this`chain, this`brk, this`minspace, this`objs, this`g, this`order
      ensures Collecting(g.limit - 1, 0)
      ensures Advanced(old(g), old(Now()), g, Now())
      ensures old(IsOrder(order)) && order == Passes(g.from, old(order), 0)
    {
      hide Inv, Advanced, Forwarded, Follows, Pass, SpaceOk;
      NothingSeen(g, Now(), order);
      SizesFixed(g, Now(), g.limit - 1, 0);
      AdvancedStill(g, Now());
      var scanned := 0;
      while true
        invariant Collecting(g.limit - 1, 0) && g.limit == old(g).limit && g.from == old(g).from
        invariant IsOrder(order) && 0 <= scanned < |chain| == |order.spaces|
        invariant Advanced(old(g), old(Now()), g, Now())
        invariant forall j | scanned <= j < |order.spaces| :: order.seen[j] == 0
        invariant Passes(g.from, order, scanned) == Passes(g.from, old(order), 0)
        decreases Left(g.from, order)
      {
        var front := |chain|;
        ghost var g1, st1 := g, Now();
        ScanPass(scanned, front);
        AdvancedKeeps(g1, st1, g, Now());
        AdvancedTwice(old(g), old(Now()), g1, st1, g, Now());
        if |chain| == front {
          break;
        }
        scanned := front;
      }
    }

    /** Roots, then new space, until there is nothing left to scan. */
    method CopyAll()
      requires Collecting(g.limit - 1, 0) && g.scanned == {} && roots == g.roots
      modifies this`mem, this`chain, this`brk, this`minspace, this`objs, this`g, this`order, this`roots
      ensures Collecting(g.limit - 1, 0) && brk >= g.limit
      ensures g.from == old(g).from && g.roots == old(g).roots && g.limit == old(g).limit && g.m0 == old(g).m0
      ensures old(IsOrder(order)) && order == Passes(g.from, ForwardAll(g.from, old(order), g.roots), 0)
      ensures |roots| == |g.roots| && forall k | 0 <= k < |roots| :: Forwarded(g, g.roots[k], roots[k])
    {
      hide Inv, Advanced, Forwarded, Follows, Passes, ForwardAll, SpaceOk, Left;
      ghost var g0, st0 := g, Now();
      ScanRoots();
      AdvancedKeeps(g0, st0, g, Now());
      ghost var g1, st1 := g, Now();
      ScanSpace();
      AdvancedKeeps(g1, st1, g, Now());
      forall k | 0 <= k < |roots|
        ensures Forwarded(g, g.roots[k], roots[k])
      {
        ForwardedStays(g1, st1, g, Now(), g.roots[k], roots[k]);
      }
      SizesFixed(g, Now(), g.limit - 1, 0);
    }

    /** The body of gc's loop, with collection blocked: fresh space, roots, scan,
        release of the old spaces, and the new minspace.  The result is a copy of the
        reachable graph if and only if nothing that leads to an object came to a new
        space after that had been scanned. */
    method CollectOnce() returns (ghost f: map<int, int>)
      requires Valid() && gcblocked > 0 && GapFree(mem, roots, minspace)
      modifies this
      ensures Valid() && gcblocked == old(gcblocked)
      ensures |chain| == 1 <==> Survivors(old(mem), old(roots)) <= Align(old(minspace))
      ensures 0 <= Used(chain) <= Survivors(old(mem), old(roots))
      ensures |chain| == 1 ==> minspace == Resize(old(minspace), Used(chain)) && Room() == Align(old(minspace))
                               && Used(chain) == Survivors(old(mem), old(roots))
      ensures |chain| > 1 ==> minspace == 4 * Used(chain) > 4 * Align(old(minspace))
      ensures order == Collected(old(mem), old(roots), old(minspace)) && |chain| == |order.spaces|
      ensures NothingLost(old(mem), order) ==> Isomorphic(old(mem), old(roots), mem, roots, f)
      ensures !NothingLost(old(mem), order) ==> Dangles(old(mem), mem)
      ensures |chain| == 1 ==> NothingLost(old(mem), order)
      ensures brk >= old(brk) && forall n | n in mem :: n >= old(brk)
    {
      hide AtRest, Inv, Advanced, Forwarded, GapFree, Isomorphic, Dangles, NothingLost, Follows, Passes, ForwardAll;
      past := chain;
      g := Start(Now(), roots);
      var sp := NewSpace();
      chain, objs, order := [sp], [[]], Begin(minspace);
      StartInv(old(Now()), roots, sp);
      BeginFollows(g, Now(), sp);
      CopyAll();
      f := g.fwd;
      Finish();
    }

    /** The end of gc's loop body: deprecate(old) and the sizing of the next space. */
    method Finish()
      requires Inv(g, Now(), g.limit - 1, 0) && past == g.past
      requires Follows(g, Now(), order) && order == Collected(g.from, g.roots, g.m0)
      requires |roots| == |g.roots| && forall k | 0 <= k < |roots| :: Forwarded(g, g.roots[k], roots[k])
      modifies this`mem, this`minspace, this`past
      ensures AtRest(Now(), roots) && past == [] && |chain| == |order.spaces|
      ensures Survivors(g.from, g.roots) <= Align(g.m0) <==> |chain| == 1
      ensures chain != [] && 0 <= Used(chain) <= Survivors(g.from, g.roots)
      ensures |chain| == 1 ==> minspace == Resize(g.m0, Used(chain)) && Room() == Align(g.m0)
                               && Used(chain) == Survivors(g.from, g.roots)
      ensures |chain| > 1 ==> minspace == 4 * Used(chain) > 4 * Align(g.m0)
      ensures NothingLost(g.from, order) ==> Isomorphic(g.from, g.roots, mem, roots, g.fwd)
      ensures !NothingLost(g.from, order) ==> Dangles(g.from, mem)
      ensures |chain| == 1 ==> NothingLost(g.from, order)
      ensures forall n | n in mem :: n >= g.limit
    {
      hide AtRest, Inv, Isomorphic, Dangles, Forwarded, Survivors, Used, Follows, NothingLost, Collected;
      PastHoldsOld(g, Now());
      FinishFacts(g, Now(), order, roots);
      FollowsLength(g, Now(), order);
      mem := map n | n in mem && !InChain(past, n) :: mem[n];
      past := [];
      assert mem == Kept(old(mem), g.src);
      ghost var st1 := Now();
      minspace := Resize(minspace, Used(chain));
      RestResized(st1, roots, minspace);
    }

    /** gc.  Unless collection is blocked: one or two rounds, one space at the end, at
        least twice as much room as data in the next one.  One round is enough if and only
        if what is reachable fits a space of the current size.  The result is a copy of the
        reachable graph if and only if the first round lost nothing. */
    method Gc() returns (rounds: nat)
      requires Valid() && (gcblocked == 0 ==> GapFree(mem, roots, minspace))
      modifies this
      ensures Valid() && gcblocked == old(gcblocked)
      ensures old(gcblocked) > 0 ==> rounds == 0 && mem == old(mem) && chain == old(chain) && roots == old(roots)
                                     && minspace == old(minspace)
      ensures old(gcblocked) == 0 ==>
                && |chain| == 1 && minspace >= 2 * Used(chain) && Survivors(mem, roots) == Used(chain)
                && (rounds == 1 <==> Survivors(old(mem), old(roots)) <= Align(old(minspace))) && 1 <= rounds <= 2
                && (rounds == 1 ==> NothingLost(old(mem), Collected(old(mem), old(roots), old(minspace))))
                && (SameGraph(old(mem), old(roots), mem, roots)
                    <==> NothingLost(old(mem), Collected(old(mem), old(roots), old(minspace))))
      ensures rounds == 1 ==> |chain| == 1 && minspace == Resize(old(minspace), Used(chain)) && Room() == Align(old(minspace))
                              && Used(chain) == Survivors(old(mem), old(roots))
      ensures rounds > 0 ==> brk >= old(brk) && forall n | n in mem :: n >= old(brk)
      ensures rounds == 2 ==> |chain| == 1 && Room() > 4 * Align(old(minspace)) && Room() >= 4 * Used(chain)
    {
      hide AtRest, GapFree, Isomorphic, Survivors, NothingLost, Collected, Dangles, SameGraph;
      rounds := 0;
      RestBelow(Now(), roots);
      ghost var h, r, f: map<int, int> := mem, roots, map[];
      ghost var kept := NothingLost(h, Collected(h, r, minspace));
      while true
        invariant Valid() && gcblocked == old(gcblocked) && 0 <= rounds <= 1
        invariant rounds == 0 ==> mem == h && chain == old(chain) && roots == r && minspace == old(minspace)
                                  && brk == old(brk) && objs == old(objs)
        invariant gcblocked == 0 ==> GapFree(mem, roots, minspace)
        invariant rounds == 1 ==> gcblocked == 0 && Survivors(h, r) > Align(old(minspace))
                                  && 0 <= 4 * Survivors(mem, roots) <= minspace
                                  && Footprint(mem, mem.Keys) <= Survivors(h, r)
                                  && minspace == 4 * Footprint(mem, mem.Keys) > 4 * Align(old(minspace))
        invariant rounds == 1 && kept ==> Isomorphic(h, r, mem, roots, f)
        invariant rounds == 1 && !kept ==> Dangles(h, mem)
        invariant rounds == 1 ==> forall n | n in mem :: n >= old(brk)
        invariant brk >= old(brk)
        decreases 2 - rounds
      {
        if gcblocked > 0 {
          return;
        }
        ghost var h1, r1 := mem, roots;
        gcblocked := gcblocked + 1;
        ghost var f1 := CollectOnce();
        gcblocked := gcblocked - 1;
        if rounds == 0 {
          f := f1;
          OneRound(h, r, mem, roots, f, kept);
        } else {
          RestPointers(old(Now()), r, h1);
          TwoRounds(h, r, h1, r1, mem, roots, f, f1, kept);
        }
        rounds := rounds + 1;
        RestFootprint(Now(), roots);
        SurvivorsAtMostUsed(mem, roots, Used(chain));
        if |chain| == 1 {
          AllSurvive(h1, r1, mem, roots, f1);
          break;
        }
        DoubleHasNoGap(mem, roots, Used(chain), minspace);
      }
    }

    /** gcalloc by the mutator while collection is blocked: the heap stays at rest. */
    method Allocate(obj: Obj<P>) returns (p: int)
      requires Valid() && gcblocked > 0
      requires obj.size > 0 && obj.tag.Live? && (Fits(Now(), obj.size) || !Gap(obj.size, minspace))
      requires forall k | 0 <= k < |obj.fields| :: PtrOk(mem, chain, brk, obj.fields[k])
      modifies this`mem, this`chain, this`brk, this`minspace, this`objs
      ensures Valid() && p !in old(mem) && mem == old(mem)[p := obj]
      ensures old(chain) != [] && |old(objs)| == |old(chain)| && Allocated(old(Now()), obj, p, Now())
    {
      assert chain != [] && |objs| == |chain|;
      p := GcAlloc(obj);
      hide AtRest;
      AllocAtRest(old(Now()), roots, obj, p, Now());
    }

    /** gcalloc by the mutator while collection is not blocked: collect until there is room.
        Unless the request spins, two calls of gc are enough.  The fields of the new object
        are filled in later. */
    method AllocateOrCollect(obj: Obj<P>) returns (p: int, ghost kept: Store<P>, ghost calls: nat)
      requires Valid() && gcblocked == 0 && |chain| == 1
      requires obj.size > 0 && obj.tag.Live? && obj.fields == []
      requires Fits(Now(), obj.size)
               || (GapFree(mem, roots, Bump(minspace, obj.size)) && !Spins(minspace, Survivors(mem, roots), obj.size))
      modifies this
      ensures Valid() && gcblocked == 0 && |chain| == 1
      ensures p !in kept && mem == kept[p := obj] && calls <= 2
      ensures calls == 0 <==> old(Fits(Now(), obj.size))
      ensures calls == 0 ==> kept == old(mem) && roots == old(roots)
      ensures calls > 0 ==>
                (SameGraph(old(mem), old(roots), kept, roots)
                 <==> NothingLost(old(mem), Collected(old(mem), old(roots), Bump(old(minspace), obj.size))))
    {
      hide AtRest, GapFree, SameGraph, NothingLost, Collected, Survivors, Spins, Allocated;
      var n := Align(obj.size + WORD);
      calls := 0;
      ghost var h, r := mem, roots;
      ghost var keeps := NothingLost(h, Collected(h, r, Bump(minspace, obj.size)));
      while true
        invariant Valid() && gcblocked == 0 && |chain| == 1 && calls <= 2
        invariant calls == 0 ==> Now() == old(Now()) && roots == r
        invariant calls > 0 ==> !old(Fits(Now(), obj.size)) && (SameGraph(h, r, mem, roots) <==> keeps)
                                && 0 <= 2 * Used(chain) <= minspace && Survivors(mem, roots) == Used(chain)
                                && brk >= old(brk) && forall n | n in mem :: n >= old(brk)
        invariant calls == 1 ==> Used(chain) + n <= Room() || (keeps && Used(chain) + n <= Align(Bump(minspace, obj.size)))
        invariant calls == 2 ==> Used(chain) + n <= Room()
        decreases 2 - calls
      {
        UsedOne(chain);
        RestFootprint(Now(), roots);
        var q := chain[0].current + n;
        if q <= chain[0].top {
          ghost var st := Now();
          kept := mem;
          p := chain[0].current + WORD;
          chain, mem, objs := [chain[0].(current := q)], mem[p := obj], [objs[0] + [p]];
          BumpAllocated(st, obj, p, Now());
          AllocAtRest(st, roots, obj, p, Now());
          return;
        }
        ghost var st, r1 := Now(), roots;
        if minspace < obj.size {
          minspace := obj.size + WORD;
        }
        RestResized(st, roots, minspace);
        if calls > 0 {
          DoubleHasNoGap(mem, roots, Used(chain), minspace);
        }
        var rounds := Gc();
        UsedOne(chain);
        if calls == 0 {
          SurvivorsAligned(h, r);
          RoomAfterCollection(st.minspace, Survivors(h, r), obj.size, rounds, Used(chain), Room(), minspace);
        } else {
          RestPointers(old(Now()), r, st.mem);
          SameGraphTwice(h, r, st.mem, r1, mem, roots);
        }
        calls := calls + 1;
      }
    }

    /** gcdisable */
    method GcDisable()
      requires Valid()
      modifies this`gcblocked
      ensures Valid() && gcblocked == old(gcblocked) + 1
    {
      gcblocked := gcblocked + 1;
    }

    /** gcenable: the last one collects if the blocked allocations needed another space,
        so that the mutator never runs unblocked on more than one space. */
    method GcEnable()
      requires Valid() && gcblocked > 0 && (gcblocked == 1 ==> GapFree(mem, roots, minspace))
      modifies this
      ensures Valid() && gcblocked == old(gcblocked) - 1
      ensures gcblocked == 0 ==> |chain| == 1
      ensures !(gcblocked == 0 && |old(chain)| > 1) ==>
                mem == old(mem) && chain == old(chain) && roots == old(roots) && minspace == old(minspace)
      ensures gcblocked == 0 && |old(chain)| > 1 ==>
                (SameGraph(old(mem), old(roots), mem, roots)
                 <==> NothingLost(old(mem), Collected(old(mem), old(roots), old(minspace))))
    {
      hide AtRest, GapFree, SameGraph, NothingLost, Collected;
      gcblocked := gcblocked - 1;
      RestFootprint(Now(), roots);
      if gcblocked == 0 && |chain| > 1 {
        var rounds := Gc();
      }
    }
  }

  /** A mutator's run that loses an object: four blocked allocations, two roots, and the
      collection that gcenable starts. */
  method LoseObject(start: int) returns (c: Collector<()>, a: int, b: int, z: int, w: int, ghost h: Store<()>)
    ensures fresh(c) && c.Valid() && c.gcblocked == 0
    ensures LosingHeap(h, a, b, z, w) && !SameGraph(h, [a, b], c.mem, c.roots)
  {
    hide AtRest, Allocated, PtrOk, GapFree, SameGraph, NothingLost, Collected, Used;
    c := new Collector(start);
    c.GcDisable();
    w := AllocateSmall(c, Obj(Live, 8, [], ()));
    z := AllocateSmall(c, Obj(Live, 4992, [w], ()));
    a := AllocateSmall(c, Obj(Live, 7496, [z], ()));
    b := AllocateSmall(c, Obj(Live, 4992, [], ()));
    h := c.mem;
    LeadsToObject(c.Now(), c.roots, a);
    LeadsToObject(c.Now(), c.roots, b);
    NewRoots(c.Now(), c.roots, [a, b]);
    c.roots := [a, b];
    TwoSpaces(c.Now(), c.roots, z, a);
    SmallHaveNoGap(h, c.roots, MIN_MINSPACE);
    assert LosingHeap(h, a, b, z, w);
    ObjectLost(h, a, b, z, w);
    c.GcEnable();
  }

  /** A blocked allocation of less than the least space. */
  method AllocateSmall(c: Collector<()>, obj: Obj<()>) returns (p: int)
    requires c.Valid() && c.gcblocked > 0 && c.minspace == MIN_MINSPACE && c.chain != []
    requires |c.chain| == 1 ==> c.Room() == MIN_MINSPACE
    requires 0 < obj.size <= 9000 && obj.tag.Live? && forall k | 0 <= k < |obj.fields| :: obj.fields[k] in c.mem
    modifies c
    ensures c.Valid() && c.gcblocked == old(c.gcblocked) && c.minspace == MIN_MINSPACE && c.chain != []
    ensures |c.chain| == 1 ==> c.Room() == MIN_MINSPACE
    ensures p !in old(c.mem) && c.mem == old(c.mem)[p := obj] && c.roots == old(c.roots)
  {
    hide AtRest, Allocated, PtrOk;
    forall k | 0 <= k < |obj.fields|
      ensures PtrOk(c.mem, c.chain, c.brk, obj.fields[k])
    {
      LeadsToObject(c.Now(), c.roots, obj.fields[k]);
    }
    p := c.Allocate(obj);
    SmallFits(old(c.Now()), obj, p, c.Now());
  }

  lemma SmallFits<P>(st: State<P>, obj: Obj<P>, p: int, st': State<P>)
    requires st.chain != [] && |st.objs| == |st.chain| && Allocated(st, obj, p, st') && obj.size <= st.minspace
    ensures st'.minspace == st.minspace && |st.chain| <= |st'.chain|
    ensures |st'.chain| == 1 ==> st'.chain[0].top - st'.chain[0].bot == st.chain[0].top - st.chain[0].bot
  {
  }

  lemma LeadsToObject<P>(st: State<P>, roots: seq<int>, p: int)
    requires AtRest(st, roots) && p in st.mem
    ensures PtrOk(st.mem, st.chain, st.brk, p)
  {
  }

  lemma NewRoots<P>(st: State<P>, roots: seq<int>, roots': seq<int>)
    requires AtRest(st, roots) && forall k | 0 <= k < |roots'| :: PtrOk(st.mem, st.chain, st.brk, roots'[k])
    ensures AtRest(st, roots')
  {
  }

  /** The two large objects do not fit one space of the least size. */
  lemma TwoSpaces<P>(st: State<P>, roots: seq<int>, z: int, a: int)
    requires AtRest(st, roots) && a in st.mem && z in st.mem && a != z
    requires st.mem[a].size == 7496 && st.mem[z].size == 4992
    requires |st.chain| == 1 ==> st.chain[0].top - st.chain[0].bot == MIN_MINSPACE
    ensures |st.chain| > 1
  {
    FootprintRemove(st.mem, st.mem.Keys, a);
    FootprintRemove(st.mem, st.mem.Keys - {a}, z);
    if |st.chain| == 1 {
      OneSpaceHolds(st);
    }
  }

  lemma OneSpaceHolds<P>(st: State<P>)
    requires |st.chain| == 1 && ChainOk(st.mem, st.chain, st.objs, st.chain[0].bot, st.brk)
    ensures Used(st.chain) <= st.chain[0].top - st.chain[0].bot
  {
    UsedOne(st.chain);
    assert SpaceOk(st.mem, st.chain[0], st.objs[0]);
  }

  lemma SmallHaveNoGap<P>(h: Store<P>, roots: seq<int>, minspace: nat)
    requires minspace % WORD == 0 && forall p | p in h :: h[p].size + WORD + 7 <= minspace
    ensures GapFree(h, roots, minspace)
  {
  }
}
