/** src/gc.c: the heap between collections, and what a collection makes of it. */
module HeapGraphs {
  import opened Heaps
  import opened Spaces
  import opened CopyInvariant
  import opened ScanOrder

  /** The heap between collections: every object is live and in the chain, and a
      pointer into the chain leads to an object. */
  ghost predicate AtRest<P>(st: State<P>, roots: seq<int>) {
    && st.chain != [] && ChainOk(st.mem, st.chain, st.objs, st.chain[0].bot, st.brk)
    && (forall n :: Among(st.objs, n) <==> n in st.mem)
    && (forall n | n in st.mem :: st.mem[n].tag.Live? && st.mem[n].size > 0 && n < st.brk)
    && (forall p, k | p in st.mem && 0 <= k < |st.mem[p].fields| :: PtrOk(st.mem, st.chain, st.brk, st.mem[p].fields[k]))
    && (forall k | 0 <= k < |roots| :: PtrOk(st.mem, st.chain, st.brk, roots[k]))
    && Used(st.chain) == Footprint(st.mem, st.mem.Keys)
  }

  function Moved1(f: map<int, int>, p: int): int { if p in f then f[p] else p }

  ghost predicate Hits(f: map<int, int>, n: int) {
    exists p :: p in f && f[p] == n
  }

  /** f maps exactly the reachable objects of h, one to one, onto all the objects of
      h', which are their copies with every pointer translated; pointers that do not
      lead to objects stay as they are. */
  ghost predicate Isomorphic<P>(h: Store<P>, roots: seq<int>, h': Store<P>, roots': seq<int>, f: map<int, int>) {
    && f.Keys == ReachSet(h, roots)
    && (forall p, q | p in f && q in f && p != q :: f[p] != f[q])
    && (forall n :: n in h' <==> Hits(f, n))
    && (forall p | p in f :: p in h && f[p] in h' && IsCopy(f, h[p], h'[f[p]]))
    && |roots'| == |roots|
    && (forall k | 0 <= k < |roots| :: roots'[k] == Moved1(f, roots[k]))
  }

  ghost predicate IsCopy<P>(f: map<int, int>, obj: Obj<P>, obj': Obj<P>) {
    && obj'.tag.Live? && obj'.size == obj.size && obj'.payload == obj.payload
    && |obj'.fields| == |obj.fields|
    && forall k | 0 <= k < |obj.fields| :: obj'.fields[k] == Moved1(f, obj.fields[k])
  }

  /** The record at the start of a collection. */
  ghost function Start<P>(st: State<P>, roots: seq<int>): Copying<P> {
    Copying(st.mem, st.chain, roots, st.brk, st.minspace, map[], map[], {})
  }

  /** The new spaces at the start of a collection: one that is empty. */
  ghost function Fresh<P>(st: State<P>, sp: Space): State<P> {
    State(st.mem, [sp], [[]], sp.top, st.minspace)
  }

  lemma ObjectInChain<P>(st: State<P>, roots: seq<int>, p: int)
    requires AtRest(st, roots) && p in st.mem
    ensures InChain(st.chain, p)
  {
    assert Among(st.objs, p);
    var i, k :| 0 <= i < |st.objs| && 0 <= k < |st.objs[i]| && st.objs[i][k] == p;
    assert SpaceOk(st.mem, st.chain[i], st.objs[i]);
    assert InSpace(p, st.chain[i]);
  }

  lemma StartFromOk<P>(st: State<P>, roots: seq<int>)
    requires AtRest(st, roots)
    ensures FromOk(Start(st, roots))
  {
    forall p | p in st.mem
      ensures InChain(st.chain, p)
    {
      ObjectInChain(st, roots, p);
    }
  }

  lemma StartCopies<P>(st: State<P>, roots: seq<int>)
    requires AtRest(st, roots)
    ensures var g := Start(st, roots);
            CopyOk(g, st.mem) && FieldsOk(g, st.mem, st.brk - 1, 0) && ReachOk(g)
  {
  }

  lemma StartLayout<P>(st: State<P>, roots: seq<int>,
                       sp: Space)
    requires forall n | n in st.mem :: n < st.brk
    requires sp.bot >= st.brk && sp.current == sp.bot && sp.top == sp.bot + Align(st.minspace)
    ensures LayoutOk(Start(st, roots), Fresh(st, sp))
  {
    assert ChainOk(st.mem, [sp], [[]], st.brk, sp.top);
  }

  lemma RestBelow<P>(st: State<P>, roots: seq<int>)
    requires AtRest(st, roots)
    ensures forall n | n in st.mem :: n < st.brk
  {
  }

  /** A collection starts with the invariant. */
  lemma StartInv<P>(st: State<P>, roots: seq<int>,
                    sp: Space)
    requires AtRest(st, roots) && GapFree(st.mem, roots, st.minspace)
    requires sp.bot >= st.brk && sp.current == sp.bot && sp.top == sp.bot + Align(st.minspace)
    ensures Inv(Start(st, roots), Fresh(st, sp), st.brk - 1, 0)
  {
    hide AtRest, GapFree, FromOk, CopyOk, FieldsOk, ReachOk, LayoutOk, ReachSet;
    StartFromOk(st, roots);
    StartCopies(st, roots);
    RestBelow(st, roots);
    StartLayout(st, roots, sp);
    UsedOne([sp]);
  }

  ghost function Kept<P>(mem: Store<P>, src: map<int, int>): Store<P>
    requires src.Keys <= mem.Keys
  {
    map n | n in src :: mem[n]
  }

  /** deprecate(old): what is left is a heap at rest. */
  lemma EndAtRest<P>(g: Copying<P>, st: State<P>, roots: seq<int>)
    requires Inv(g, st, g.limit - 1, 0) && g.src.Keys <= st.mem.Keys
    requires |roots| == |g.roots| && forall k | 0 <= k < |roots| :: Forwarded(g, g.roots[k], roots[k])
    ensures AtRest(st.(mem := Kept(st.mem, g.src)), roots)
  {
    hide Inv, ChainOk, PtrOk, Forwarded, Among, Used;
    EndChain(g, st);
    EndPointers(g, st, roots);
    EndFootprint(g, st);
  }

  lemma EndSpace<P>(g: Copying<P>, st: State<P>, i: nat)
    requires LayoutOk(g, st) && g.src.Keys <= st.mem.Keys && i < |st.chain|
    ensures SpaceOk(Kept(st.mem, g.src), st.chain[i], st.objs[i]) && st.chain[i].bot <= st.chain[i].top
  {
    forall q | q in st.objs[i]
      ensures q in g.src
    {
      var k :| 0 <= k < |st.objs[i]| && st.objs[i][k] == q;
      assert Among(st.objs, q);
    }
    SameSizes(st.mem, Kept(st.mem, g.src), st.chain[i].bot, st.chain[i].current, st.objs[i]);
  }

  lemma EndChain<P>(g: Copying<P>, st: State<P>)
    requires Inv(g, st, g.limit - 1, 0) && g.src.Keys <= st.mem.Keys
    ensures st.chain != [] && ChainOk(Kept(st.mem, g.src), st.chain, st.objs, st.chain[0].bot, st.brk)
    ensures forall n :: Among(st.objs, n) <==> n in Kept(st.mem, g.src)
    ensures forall n | n in g.src :: st.mem[n].tag.Live? && st.mem[n].size > 0 && n < st.brk
  {
    hide SpaceOk, FieldsOk, ReachOk, SizeOk;
    forall i | 0 <= i < |st.chain|
      ensures SpaceOk(Kept(st.mem, g.src), st.chain[i], st.objs[i]) && st.chain[i].bot <= st.chain[i].top
    {
      EndSpace(g, st, i);
    }
    forall n | n in g.src
      ensures st.mem[n].tag.Live? && st.mem[n].size > 0 && n < st.brk
    {
      var p := g.src[n];
      assert p in g.from && g.from[p].size > 0 && st.mem[n].size == g.from[p].size;
    }
  }

  /** Every field of a new object is that of the original or leads to a new object. */
  lemma FieldsLead<P>(g: Copying<P>, mem: Store<P>, n: int, k: nat)
    requires FromOk(g) && CopyOk(g, mem) && FieldsOk(g, mem, g.limit - 1, 0)
    requires n in g.src && n in mem && k < |mem[n].fields|
    ensures g.src[n] in g.from && k < |g.from[g.src[n]].fields|
    ensures var f := g.from[g.src[n]].fields[k];
            PtrOk(g.from, g.past, g.limit, f) && (mem[n].fields[k] == f || mem[n].fields[k] in g.src)
  {
    var p := g.src[n];
    assert p in g.from && k < |g.from[p].fields|;
    var f := g.from[p].fields[k];
    assert PtrOk(g.from, g.past, g.limit, g.from[p].fields[k]);
    assert mem[n].fields[k] == f || Forwarded(g, f, mem[n].fields[k]);
  }

  lemma EndPointer<P>(g: Copying<P>, st: State<P>, q: int)
    requires LayoutOk(g, st) && g.src.Keys <= st.mem.Keys && (q < g.limit || q in g.src)
    ensures PtrOk(Kept(st.mem, g.src), st.chain, st.brk, q)
  {
  }

  lemma EndPointers<P>(g: Copying<P>, st: State<P>, roots: seq<int>)
    requires Inv(g, st, g.limit - 1, 0) && g.src.Keys <= st.mem.Keys
    requires |roots| == |g.roots| && forall k | 0 <= k < |roots| :: Forwarded(g, g.roots[k], roots[k])
    ensures forall n, k | n in g.src && 0 <= k < |st.mem[n].fields| ::
              PtrOk(Kept(st.mem, g.src), st.chain, st.brk, st.mem[n].fields[k])
    ensures forall k | 0 <= k < |roots| :: PtrOk(Kept(st.mem, g.src), st.chain, st.brk, roots[k])
  {
    hide LayoutOk, FieldsOk, ReachOk, SizeOk;
    forall n, k | n in g.src && 0 <= k < |st.mem[n].fields|
      ensures PtrOk(Kept(st.mem, g.src), st.chain, st.brk, st.mem[n].fields[k])
    {
      FieldsLead(g, st.mem, n, k);
      EndPointer(g, st, st.mem[n].fields[k]);
    }
    forall k | 0 <= k < |roots|
      ensures PtrOk(Kept(st.mem, g.src), st.chain, st.brk, roots[k])
    {
      assert PtrOk(g.from, g.past, g.limit, g.roots[k]);
      EndPointer(g, st, roots[k]);
    }
  }

  lemma CopiesFootprint<P>(g: Copying<P>, mem: Store<P>)
    requires CopyOk(g, mem) && g.src.Keys <= mem.Keys
    ensures g.fwd.Keys <= g.from.Keys
    ensures Footprint(g.from, g.fwd.Keys) == Footprint(Kept(mem, g.src), Kept(mem, g.src).Keys)
  {
    var mem' := Kept(mem, g.src);
    forall n | n in mem'.Keys
      ensures exists p :: p in g.fwd.Keys && g.fwd[p] == n
    {
      var p := g.src[n];
      assert p in g.fwd && g.fwd[p] == n;
    }
    forall p | p in g.fwd.Keys
      ensures p in g.from.Keys && g.fwd[p] in mem'.Keys
    {
      assert p in g.fwd;
    }
    FootprintMapped(g.from, g.fwd.Keys, mem', mem'.Keys, g.fwd);
  }

  lemma EndFootprint<P>(g: Copying<P>, st: State<P>)
    requires Inv(g, st, g.limit - 1, 0) && g.src.Keys <= st.mem.Keys
    ensures st.chain != [] && Used(st.chain) == Footprint(Kept(st.mem, g.src), Kept(st.mem, g.src).Keys)
  {
    hide FieldsOk, ReachOk, FromOk;
    CopiesFootprint(g, st.mem);
  }

  /** If every field has been forwarded, exactly what is reachable has been copied, as an
      isomorphic graph. */
  lemma CompleteIsIsomorphic<P>(g: Copying<P>, st: State<P>, roots: seq<int>)
    requires Inv(g, st, g.limit - 1, 0) && g.src.Keys <= st.mem.Keys
    requires |roots| == |g.roots| && forall k | 0 <= k < |roots| :: Forwarded(g, g.roots[k], roots[k])
    requires AllForwarded(g, st.mem)
    ensures Isomorphic(g.from, g.roots, Kept(st.mem, g.src), roots, g.fwd)
  {
    hide Inv, FieldsOk, CopyOk, FromOk, ReachSet, AllForwarded, IsCopy, Forwarded, Hits, Moved1;
    InvParts(g, st);
    CopiedIsReachable(g, st, roots);
    CopiesAreCopies(g, st.mem);
    RootsTranslated(g, roots);
  }

  lemma InvParts<P>(g: Copying<P>, st: State<P>)
    requires Inv(g, st, g.limit - 1, 0)
    ensures FromOk(g) && CopyOk(g, st.mem)
  {
  }

  lemma RootsTranslated<P>(g: Copying<P>, roots: seq<int>)
    requires forall p | p in g.fwd :: p in g.from
    requires |roots| == |g.roots| && forall k | 0 <= k < |roots| :: Forwarded(g, g.roots[k], roots[k])
    ensures forall k | 0 <= k < |roots| :: roots[k] == Moved1(g.fwd, g.roots[k])
  {
  }

  lemma CopiedIsReachable<P>(g: Copying<P>, st: State<P>, roots: seq<int>)
    requires Inv(g, st, g.limit - 1, 0) && g.src.Keys <= st.mem.Keys
    requires |roots| == |g.roots| && forall k | 0 <= k < |roots| :: Forwarded(g, g.roots[k], roots[k])
    requires AllForwarded(g, st.mem)
    ensures g.fwd.Keys == ReachSet(g.from, g.roots) && forall p | p in g.fwd :: p in g.from
  {
    hide FieldsOk, LayoutOk, SizeOk, IsPath;
    CopiesClosed(g, st, roots);
    ClosedContainsReachable(g.from, g.roots, g.fwd.Keys);
    forall p | p in g.fwd.Keys
      ensures p in ReachSet(g.from, g.roots)
    {
      assert p in g.fwd;
    }
  }

  lemma CopiesAreCopies<P>(g: Copying<P>, mem: Store<P>)
    requires FromOk(g) && CopyOk(g, mem) && AllForwarded(g, mem)
    requires g.src.Keys <= mem.Keys
    ensures forall p | p in g.fwd ::
              p in g.from && g.fwd[p] in Kept(mem, g.src)
              && IsCopy(g.fwd, g.from[p], Kept(mem, g.src)[g.fwd[p]])
    ensures forall p, q | p in g.fwd && q in g.fwd && p != q :: g.fwd[p] != g.fwd[q]
    ensures forall n :: n in Kept(mem, g.src) <==> Hits(g.fwd, n)
  {
    hide FromOk;
    forall p | p in g.fwd
      ensures IsCopy(g.fwd, g.from[p], mem[g.fwd[p]])
    {
      CopyTranslated(g, mem, p);
    }
    forall n
      ensures n in g.src <==> Hits(g.fwd, n)
    {
      if n in g.src {
        var p := g.src[n];
        assert p in g.fwd && g.fwd[p] == n;
      }
      if Hits(g.fwd, n) {
        var p :| p in g.fwd && g.fwd[p] == n;
        assert g.fwd[p] in g.src;
      }
    }
  }

  lemma CopiesClosed<P>(g: Copying<P>, st: State<P>, roots: seq<int>)
    requires Inv(g, st, g.limit - 1, 0)
    requires |roots| == |g.roots| && forall k | 0 <= k < |roots| :: Forwarded(g, g.roots[k], roots[k])
    requires AllForwarded(g, st.mem)
    ensures forall r | r in g.roots && r in g.from :: r in g.fwd.Keys
    ensures forall p, q | p in g.fwd.Keys && p in g.from && q in g.from[p].fields && q in g.from :: q in g.fwd.Keys
  {
    forall p, q | p in g.fwd.Keys && p in g.from && q in g.from[p].fields && q in g.from
      ensures q in g.fwd.Keys
    {
      var k :| 0 <= k < |g.from[p].fields| && g.from[p].fields[k] == q;
      var n := g.fwd[p];
      assert n in g.src && n in st.mem && g.src[n] == p;
      assert Forwarded(g, g.from[g.src[n]].fields[k], st.mem[n].fields[k]);
    }
  }

  lemma CopyTranslated<P>(g: Copying<P>, mem: Store<P>, p: int)
    requires FromOk(g) && CopyOk(g, mem) && AllForwarded(g, mem) && p in g.fwd
    ensures IsCopy(g.fwd, g.from[p], mem[g.fwd[p]])
  {
    var n := g.fwd[p];
    forall k | 0 <= k < |g.from[p].fields|
      ensures mem[n].fields[k] == Moved1(g.fwd, g.from[p].fields[k])
    {
      assert Forwarded(g, g.from[g.src[n]].fields[k], mem[n].fields[k]);
    }
  }

  // ----- what is lost

  /** A new object points into the old heap. */
  ghost predicate Dangles<P>(h: Store<P>, h': Store<P>) {
    exists n, k :: n in h' && 0 <= k < |h'[n].fields| && h'[n].fields[k] in h
  }

  /** Then the new heap is no copy of the old one. */
  lemma DanglingIsNoCopy<P>(h: Store<P>, roots: seq<int>, h': Store<P>, roots': seq<int>, f: map<int, int>)
    requires Dangles(h, h') && forall n | n in h' :: n !in h
    ensures !Isomorphic(h, roots, h', roots', f)
  {
    if Isomorphic(h, roots, h', roots', f) {
      var n, k :| n in h' && 0 <= k < |h'[n].fields| && h'[n].fields[k] in h;
      assert Hits(f, n);
      var p :| p in f && f[p] == n;
      var q := h'[n].fields[k];
      assert IsCopy(f, h[p], h'[f[p]]);
      assert q == Moved1(f, h[p].fields[k]);
      if h[p].fields[k] !in f {
        assert p in ReachSet(h, roots);
        FieldReachable(h, roots, p, q);
      }
      assert false;
    }
  }

  lemma LostDangles<P>(g: Copying<P>, st: State<P>)
    requires Inv(g, st, g.limit - 1, 0) && g.src.Keys <= st.mem.Keys && !AllForwarded(g, st.mem)
    ensures Dangles(g.from, Kept(st.mem, g.src))
  {
    hide LayoutOk, SizeOk, ReachOk, InChain;
    var n, k :| n in g.src && n in st.mem && g.src[n] in g.from && 0 <= k < |st.mem[n].fields| <= |g.from[g.src[n]].fields|
                && !Forwarded(g, g.from[g.src[n]].fields[k], st.mem[n].fields[k]);
    assert n in Kept(st.mem, g.src) && st.mem[n].fields[k] in g.from;
  }

  /** One collection copies the reachable graph if and only if nothing came to a space too
      late that leads to an object. */
  lemma IsomorphicExactly<P>(g: Copying<P>, st: State<P>, s: Order, roots: seq<int>)
    requires Inv(g, st, g.limit - 1, 0) && g.src.Keys <= st.mem.Keys && Follows(g, st, s)
    requires |roots| == |g.roots| && forall k | 0 <= k < |roots| :: Forwarded(g, g.roots[k], roots[k])
    ensures NothingLost(g.from, s) ==> Isomorphic(g.from, g.roots, Kept(st.mem, g.src), roots, g.fwd)
    ensures !NothingLost(g.from, s) ==> Dangles(g.from, Kept(st.mem, g.src))
  {
    hide Inv, Follows, Forwarded, Isomorphic, Dangles, NothingLost, AllForwarded;
    CleanExactly(g, st, s);
    if NothingLost(g.from, s) {
      CompleteIsIsomorphic(g, st, roots);
    } else {
      LostDangles(g, st);
    }
  }

  // ----- two collections in a row

  lemma {:induction false} PathMoves<P>(h: Store<P>, roots: seq<int>, h': Store<P>, roots': seq<int>, f: map<int, int>,
                                        path: seq<int>)
    requires Isomorphic(h, roots, h', roots', f) && IsPath(h, roots, path)
    ensures path[|path| - 1] in f && Reachable(h', roots', f[path[|path| - 1]])
  {
    var last := path[|path| - 1];
    assert last in h && Reachable(h, roots, last);
    assert last in f;
    if |path| == 1 {
      var k :| 0 <= k < |roots| && roots[k] == last;
      assert roots'[k] == f[last];
      RootReachable(h', roots', f[last]);
    } else {
      var shorter := path[..|path| - 1];
      assert IsPath(h, roots, shorter);
      PathMoves(h, roots, h', roots', f, shorter);
      var p := shorter[|shorter| - 1];
      assert last in h[p].fields;
      var k :| 0 <= k < |h[p].fields| && h[p].fields[k] == last;
      assert IsCopy(f, h[p], h'[f[p]]);
      assert h'[f[p]].fields[k] == f[last];
      FieldReachable(h', roots', f[p], f[last]);
    }
  }

  /** Everything in the copied heap is reachable from the copied roots. */
  lemma AllReachable<P>(h: Store<P>, roots: seq<int>, h': Store<P>, roots': seq<int>, f: map<int, int>)
    requires Isomorphic(h, roots, h', roots', f)
    ensures ReachSet(h', roots') == h'.Keys
  {
    forall n | n in h'
      ensures Reachable(h', roots', n)
    {
      assert Hits(f, n);
      var p :| p in f && f[p] == n;
      assert p in ReachSet(h, roots);
      var path :| IsPath(h, roots, path) && path[|path| - 1] == p;
      PathMoves(h, roots, h', roots', f, path);
    }
  }

  ghost function Compose(f: map<int, int>, f': map<int, int>): map<int, int> {
    map p | p in f && f[p] in f' :: f'[f[p]]
  }

  lemma ComposeCopies<P>(h0: Store<P>, r0: seq<int>, h1: Store<P>, r1: seq<int>, f: map<int, int>,
                         h2: Store<P>, r2: seq<int>, f': map<int, int>, p: int)
    requires Isomorphic(h0, r0, h1, r1, f) && Isomorphic(h1, r1, h2, r2, f') && f'.Keys == h1.Keys
    requires forall p, k | p in h0 && 0 <= k < |h0[p].fields| :: h0[p].fields[k] !in h1
    requires p in f
    ensures f[p] in f' && p in h0 && f'[f[p]] in h2 && IsCopy(Compose(f, f'), h0[p], h2[f'[f[p]]])
  {
    hide ReachSet;
    assert f[p] in h1;
    var m := f[p];
    assert IsCopy(f, h0[p], h1[m]) && IsCopy(f', h1[m], h2[f'[m]]);
    CopyTwice(f, f', h0[p], h1[m], h2[f'[m]]);
  }

  lemma ComposeValues<P>(h0: Store<P>, r0: seq<int>, h1: Store<P>, r1: seq<int>, f: map<int, int>,
                         h2: Store<P>, r2: seq<int>, f': map<int, int>)
    requires Isomorphic(h0, r0, h1, r1, f) && Isomorphic(h1, r1, h2, r2, f') && f'.Keys == h1.Keys
    ensures Compose(f, f').Keys == f.Keys
    ensures forall n :: n in h2 <==> Hits(Compose(f, f'), n)
    ensures forall p, q | p in f && q in f && p != q :: Compose(f, f')[p] != Compose(f, f')[q]
  {
    hide ReachSet;
    var both := Compose(f, f');
    forall p | p in f
      ensures p in both && both[p] in h2
    {
      assert f[p] in h1;
    }
    forall n | n in h2
      ensures Hits(both, n)
    {
      assert Hits(f', n);
      var m :| m in f' && f'[m] == n;
      assert m in h1.Keys && Hits(f, m);
      var p :| p in f && f[p] == m;
      assert p in both && both[p] == n;
    }
  }

  lemma ComposeAllCopies<P>(h0: Store<P>, r0: seq<int>, h1: Store<P>, r1: seq<int>, f: map<int, int>,
                            h2: Store<P>, r2: seq<int>, f': map<int, int>)
    requires Isomorphic(h0, r0, h1, r1, f) && Isomorphic(h1, r1, h2, r2, f') && f'.Keys == h1.Keys
    requires forall p, k | p in h0 && 0 <= k < |h0[p].fields| :: h0[p].fields[k] !in h1
    ensures forall p | p in f ::
              f[p] in f' && p in h0 && f'[f[p]] in h2 && IsCopy(Compose(f, f'), h0[p], h2[f'[f[p]]])
  {
    hide Isomorphic;
    forall p | p in f
      ensures f[p] in f' && p in h0 && f'[f[p]] in h2 && IsCopy(Compose(f, f'), h0[p], h2[f'[f[p]]])
    {
      ComposeCopies(h0, r0, h1, r1, f, h2, r2, f', p);
    }
  }

  /** Collecting twice is collecting once. */
  lemma IsomorphicTwice<P>(h0: Store<P>, r0: seq<int>, h1: Store<P>, r1: seq<int>, f: map<int, int>,
                           h2: Store<P>, r2: seq<int>, f': map<int, int>)
    requires Isomorphic(h0, r0, h1, r1, f) && Isomorphic(h1, r1, h2, r2, f')
    requires forall p, k | p in h0 && 0 <= k < |h0[p].fields| :: h0[p].fields[k] !in h1
    requires forall k | 0 <= k < |r0| :: r0[k] !in h1
    ensures Isomorphic(h0, r0, h2, r2, Compose(f, f'))
  {
    hide IsCopy, Reachable, IsPath;
    AllReachable(h0, r0, h1, r1, f);
    ComposeValues(h0, r0, h1, r1, f, h2, r2, f');
    ComposeAllCopies(h0, r0, h1, r1, f, h2, r2, f');
    RootsTwice(r0, r1, r2, f, f');
  }

  lemma RootsTwice(r0: seq<int>, r1: seq<int>, r2: seq<int>, f: map<int, int>, f': map<int, int>)
    requires |r0| == |r1| == |r2|
    requires forall k | 0 <= k < |r0| :: r1[k] == Moved1(f, r0[k]) && r2[k] == Moved1(f', r1[k]) && r0[k] !in f'
    requires forall p | p in f :: f[p] in f'
    ensures forall k | 0 <= k < |r0| :: r2[k] == Moved1(Compose(f, f'), r0[k])
  {
  }

  lemma CopyTwice<P>(f: map<int, int>, f': map<int, int>, o0: Obj<P>, o1: Obj<P>, o2: Obj<P>)
    requires IsCopy(f, o0, o1) && IsCopy(f', o1, o2)
    requires forall p | p in f :: f[p] in f'
    requires forall k | 0 <= k < |o0.fields| :: o0.fields[k] !in f'
    ensures IsCopy(Compose(f, f'), o0, o2)
  {
    var both := Compose(f, f');
    forall k | 0 <= k < |o0.fields|
      ensures o2.fields[k] == Moved1(both, o0.fields[k])
    {
      assert o1.fields[k] == Moved1(f, o0.fields[k]);
      assert o2.fields[k] == Moved1(f', o1.fields[k]);
    }
  }

  // ----- the sizing rule

  /** The new minspace after a collection that left `live` bytes in use. */
  function Resize(minspace: nat, live: nat): (m: nat)
    ensures m >= 2 * live
  {
    if minspace < live * 2 then live * 4
    else if minspace > live * 12 && minspace > MIN_MINSPACE * 2 then minspace / 2
    else minspace
  }

  /** The next space is between twice and twelve times as large as what is live, twelve times
      or more only while it is small or was just halved; a size in these bounds is kept. */
  lemma ResizedExactly(minspace: nat, live: nat)
    ensures Resize(minspace, live) == minspace <==>
              2 * live <= minspace && (minspace <= 12 * live || minspace <= 2 * MIN_MINSPACE)
    ensures Resize(minspace, live) > minspace <==> minspace < 2 * live
    ensures Resize(minspace, live) > minspace ==> Resize(minspace, live) == 4 * live
    ensures Resize(minspace, live) < minspace ==> Resize(minspace, live) == minspace / 2 && 6 * live <= minspace / 2 && MIN_MINSPACE <= minspace / 2
  {
  }

  /** The bytes that are reachable. */
  ghost function Survivors<P>(h: Store<P>, roots: seq<int>): nat {
    Footprint(h, ReachSet(h, roots))
  }

  /** Size of the space of the k-th collection of an unblocked gcalloc that does not find
      room, where `live` bytes are reachable. */
  ghost function Retried(minspace: nat, live: nat, size: nat, k: nat): nat
    decreases k
  {
    if k == 0 then Bump(minspace, size) else Bump(Resize(Retried(minspace, live, size, k - 1), live), size)
  }

  /** The next space is at least twice what is in use, so minspace stays, and yet
      the request does not fit beside what is in use.  (Halving minspace leads out of the
      gap, but only if the space is empty.) */
  predicate Spins(minspace: nat, live: nat, size: nat) {
    var m := Bump(minspace, size);
    2 * live <= m && Align(m) < live + Weight(size) && (live > 0 || m <= 2 * MIN_MINSPACE)
  }

  lemma {:induction false} SpinningStays(minspace: nat, live: nat, size: nat, k: nat)
    requires Spins(minspace, live, size) && size > 0
    ensures Align(Retried(minspace, live, size, k)) < live + Weight(size)
    ensures Retried(minspace, live, size, k) >= 2 * live
    ensures live == 0 ==> Retried(minspace, live, size, k) == Bump(minspace, size)
    decreases k
  {
    if k > 0 {
      SpinningStays(minspace, live, size, k - 1);
    }
  }

  /** Either some space has room for the request, the second at the latest, or gcalloc
      collects forever. */
  lemma RetriesEndUnlessSpins(minspace: nat, live: nat, size: nat)
    requires size > 0 && live % WORD == 0
    ensures (exists k :: live + Weight(size) <= Align(Retried(minspace, live, size, k))) <==> !Spins(minspace, live, size)
    ensures !Spins(minspace, live, size) ==>
              || live + Weight(size) <= Align(Retried(minspace, live, size, 0))
              || live + Weight(size) <= Align(Retried(minspace, live, size, 1))
  {
    if Spins(minspace, live, size) {
      forall k: nat
        ensures Align(Retried(minspace, live, size, k)) < live + Weight(size)
      {
        SpinningStays(minspace, live, size, k);
      }
    } else {
      var k := if live + Weight(size) <= Align(Retried(minspace, live, size, 0)) then 0 else 1;
      assert live + Weight(size) <= Align(Retried(minspace, live, size, k));
    }
  }

  lemma AlignedSum(size: nat, n: nat)
    requires n % WORD == 0
    ensures (Weight(size) + n) % WORD == 0
  {
  }

  /** If the request does not fit after the first collection, it does after the second. */
  lemma RoomAfterCollection(minspace: nat, live: nat, size: nat, rounds: nat, used: nat, room: int, minspace': nat)
    requires size > 0 && !Spins(minspace, live, size) && live % WORD == 0 && used >= 0
    requires rounds == 1 ==> used == live && room == Align(Bump(minspace, size))
                             && minspace' == Resize(Bump(minspace, size), live)
    requires rounds == 2 ==> room > 4 * Align(Bump(minspace, size)) && room >= 4 * used
    requires 1 <= rounds <= 2
    ensures used + Weight(size) <= room || (rounds == 1 && used + Weight(size) <= Align(Bump(minspace', size)))
  {
    if rounds == 1 {
      RetriesEndUnlessSpins(minspace, live, size);
      assert Retried(minspace, live, size, 1) == Bump(Resize(Retried(minspace, live, size, 0), live), size);
    }
  }

  lemma SameGraphTwice<P>(h0: Store<P>, r0: seq<int>, h1: Store<P>, r1: seq<int>, h2: Store<P>, r2: seq<int>)
    requires SameGraph(h0, r0, h1, r1) && SameGraph(h1, r1, h2, r2)
    requires forall p, k | p in h0 && 0 <= k < |h0[p].fields| :: h0[p].fields[k] !in h1
    requires forall k | 0 <= k < |r0| :: r0[k] !in h1
    ensures SameGraph(h0, r0, h2, r2)
  {
    hide Isomorphic;
    var f :| Isomorphic(h0, r0, h1, r1, f);
    var f' :| Isomorphic(h1, r1, h2, r2, f');
    IsomorphicTwice(h0, r0, h1, r1, f, h2, r2, f');
  }

  lemma SurvivorsAligned<P>(h: Store<P>, roots: seq<int>)
    ensures Survivors(h, roots) % WORD == 0
  {
    FootprintAligned(h, ReachSet(h, roots));
  }

  lemma {:induction false} FootprintAligned<P>(h: Store<P>, s: set<int>)
    requires s <= h.Keys
    ensures Footprint(h, s) % WORD == 0
  {
    hide Weight;
    if s != {} {
      NonEmpty(s);
      var p :| p in s;
      FootprintRemove(h, s, p);
      FootprintAligned(h, s - {p});
      AlignedSum(h[p].size, Footprint(h, s - {p}));
    }
  }

  /** The heap h' with roots' is a copy of what is reachable in h. */
  ghost predicate SameGraph<P>(h: Store<P>, roots: seq<int>, h': Store<P>, roots': seq<int>) {
    exists f :: Isomorphic(h, roots, h', roots', f)
  }

  /** A copy holds nothing that is not reachable. */
  lemma AllSurvive<P>(h: Store<P>, roots: seq<int>, h': Store<P>, roots': seq<int>, f: map<int, int>)
    requires Isomorphic(h, roots, h', roots', f)
    ensures Survivors(h', roots') == Footprint(h', h'.Keys)
  {
    AllReachable(h, roots, h', roots', f);
  }

  /** Twice what is in use is too much for any object to be in the gap. */
  lemma DoubleHasNoGap<P>(h: Store<P>, roots: seq<int>, live: int, minspace: nat)
    requires Footprint(h, h.Keys) == live && minspace >= 2 * live
    ensures GapFree(h, roots, minspace)
  {
    forall p | p in h
      ensures Weight(h[p].size) <= live
    {
      FootprintRemove(h, h.Keys, p);
    }
  }

  lemma SurvivorsAtMostUsed<P>(h: Store<P>, roots: seq<int>, used: int)
    requires Footprint(h, h.Keys) == used
    ensures Survivors(h, roots) <= used
  {
    ReachFootprint(h, roots);
  }

  /** Everything the end of a round needs to know. */
  lemma FinishFacts<P>(g: Copying<P>, st: State<P>, s: Order, roots: seq<int>)
    requires Inv(g, st, g.limit - 1, 0) && g.src.Keys <= st.mem.Keys
    requires Follows(g, st, s) && s == Collected(g.from, g.roots, g.m0)
    requires |roots| == |g.roots| && forall k | 0 <= k < |roots| :: Forwarded(g, g.roots[k], roots[k])
    ensures AtRest(st.(mem := Kept(st.mem, g.src)), roots)
    ensures NothingLost(g.from, s) ==> Isomorphic(g.from, g.roots, Kept(st.mem, g.src), roots, g.fwd)
    ensures !NothingLost(g.from, s) ==> Dangles(g.from, Kept(st.mem, g.src))
    ensures |st.chain| == 1 ==> NothingLost(g.from, s)
    ensures st.chain != [] && 0 <= Used(st.chain) <= Survivors(g.from, g.roots)
    ensures |st.chain| == 1 <==> Survivors(g.from, g.roots) <= Align(g.m0)
    ensures |st.chain| == 1 ==> st.minspace == g.m0 && st.chain[0].top - st.chain[0].bot == Align(g.m0)
                                && Used(st.chain) == Survivors(g.from, g.roots)
    ensures |st.chain| > 1 ==> st.minspace < 2 * Used(st.chain) && Used(st.chain) > Align(g.m0)
    ensures forall n | n in g.src :: n >= g.limit
  {
    FollowsLength(g, st, s);
    hide AtRest, Inv, Follows, Forwarded, Isomorphic, Dangles, ReachSet, NothingLost, Collected;
    EndAtRest(g, st, roots);
    IsomorphicExactly(g, st, s, roots);
    if |st.chain| == 1 {
      OneSpaceLosesNothing(g.from, g.roots, g.m0);
      IsomorphicKeys(g.from, g.roots, Kept(st.mem, g.src), roots, g.fwd);
    }
    SizesAtEnd(g, st);
    SizesFixed(g, st, g.limit - 1, 0);
  }

  lemma RestResized<P>(st: State<P>, roots: seq<int>, minspace: nat)
    requires AtRest(st, roots)
    ensures AtRest(st.(minspace := minspace), roots)
  {
  }

  lemma FollowsLength<P>(g: Copying<P>, st: State<P>, s: Order)
    requires Follows(g, st, s)
    ensures |st.chain| == |s.spaces|
  {
  }

  // ----- two rounds

  lemma IsomorphicFootprint<P>(h: Store<P>, roots: seq<int>, h': Store<P>, roots': seq<int>, f: map<int, int>)
    requires Isomorphic(h, roots, h', roots', f)
    ensures ReachSet(h, roots) <= h.Keys && Footprint(h, ReachSet(h, roots)) == Footprint(h', h'.Keys)
  {
    hide ReachSet;
    assert f.Keys <= h.Keys by {
      forall p | p in f.Keys
        ensures p in h.Keys
      {
        assert p in f;
      }
    }
    forall n | n in h'.Keys
      ensures exists p :: p in f.Keys && f[p] == n
    {
      assert Hits(f, n);
    }
    FootprintMapped(h, f.Keys, h', h'.Keys, f);
  }

  /** If all the bytes in use are reachable, so is every object. */
  lemma AllBytesAllObjects<P>(h: Store<P>, roots: seq<int>, n: int)
    requires n in h && ReachSet(h, roots) <= h.Keys && Footprint(h, h.Keys) <= Footprint(h, ReachSet(h, roots))
    ensures n in ReachSet(h, roots)
  {
    if n !in ReachSet(h, roots) {
      FootprintRemove(h, h.Keys, n);
      FootprintMonotone(h, ReachSet(h, roots), h.Keys - {n});
    }
  }

  lemma OldIsNotCopied<P>(h: Store<P>, roots: seq<int>, h': Store<P>, roots': seq<int>, f: map<int, int>, q: int)
    requires Isomorphic(h, roots, h', roots', f) && q !in h
    ensures q !in f
  {
    assert q !in ReachSet(h, roots);
  }

  /** What the first of two rounds loses, the second does not bring back. */
  lemma LostStaysLost<P>(h0: Store<P>, r0: seq<int>, h1: Store<P>, r1: seq<int>, h2: Store<P>, r2: seq<int>,
                         f: map<int, int>, all: map<int, int>)
    requires Dangles(h0, h1) && Isomorphic(h1, r1, h2, r2, f)
    requires Footprint(h1, h1.Keys) <= Survivors(h0, r0)
    requires forall n | n in h1 :: n !in h0
    requires forall n | n in h2 :: n !in h0
    ensures !Isomorphic(h0, r0, h2, r2, all)
  {
    if Isomorphic(h0, r0, h2, r2, all) {
      IsomorphicFootprint(h0, r0, h2, r2, all);
      IsomorphicFootprint(h1, r1, h2, r2, f);
      var n, k :| n in h1 && 0 <= k < |h1[n].fields| && h1[n].fields[k] in h0;
      AllBytesAllObjects(h1, r1, n);
      OldIsNotCopied(h1, r1, h2, r2, f, h1[n].fields[k]);
      assert n in f && IsCopy(f, h1[n], h2[f[n]]);
      assert h2[f[n]].fields[k] in h0;
      assert Dangles(h0, h2);
      DanglingIsNoCopy(h0, r0, h2, r2, all);
    }
  }

  lemma OneRound<P>(h: Store<P>, r: seq<int>, h1: Store<P>, r1: seq<int>, f: map<int, int>, kept: bool)
    requires kept ==> Isomorphic(h, r, h1, r1, f)
    requires !kept ==> Dangles(h, h1)
    requires forall n | n in h1 :: n !in h
    ensures kept <==> SameGraph(h, r, h1, r1)
  {
    hide Isomorphic, Dangles;
    if all :| Isomorphic(h, r, h1, r1, all) && !kept {
      DanglingIsNoCopy(h, r, h1, r1, all);
    }
  }

  /** Whether the two rounds together copy the graph is decided in the first. */
  lemma TwoRounds<P>(h0: Store<P>, r0: seq<int>, h1: Store<P>, r1: seq<int>, h2: Store<P>, r2: seq<int>,
                     f: map<int, int>, f': map<int, int>, kept: bool)
    requires kept ==> Isomorphic(h0, r0, h1, r1, f)
    requires !kept ==> Dangles(h0, h1)
    requires Isomorphic(h1, r1, h2, r2, f') && Footprint(h1, h1.Keys) <= Survivors(h0, r0)
    requires forall n | n in h1 :: n !in h0
    requires forall n | n in h2 :: n !in h0
    requires forall p, k | p in h0 && 0 <= k < |h0[p].fields| :: h0[p].fields[k] !in h1
    requires forall k | 0 <= k < |r0| :: r0[k] !in h1
    ensures kept <==> SameGraph(h0, r0, h2, r2)
  {
    hide Isomorphic, Dangles, Survivors;
    if kept {
      IsomorphicTwice(h0, r0, h1, r1, f, h2, r2, f');
    } else if all :| Isomorphic(h0, r0, h2, r2, all) {
      LostStaysLost(h0, r0, h1, r1, h2, r2, f', all);
    }
  }

  lemma ReachFootprint<P>(h: Store<P>, roots: seq<int>)
    ensures ReachSet(h, roots) <= h.Keys
    ensures Footprint(h, ReachSet(h, roots)) <= Footprint(h, h.Keys)
  {
    FootprintMonotone(h, ReachSet(h, roots), h.Keys);
  }

  lemma IsomorphicKeys<P>(h: Store<P>, roots: seq<int>, h': Store<P>, roots': seq<int>, f: map<int, int>)
    requires Isomorphic(h, roots, h', roots', f)
    ensures f.Keys == ReachSet(h, roots)
  {
  }

  /** Only old objects lie in the old spaces. */
  lemma PastHoldsOld<P>(g: Copying<P>, st: State<P>)
    requires Inv(g, st, g.limit - 1, 0)
    ensures forall n | n in st.mem :: InChain(g.past, n) <==> n !in g.src
    ensures g.src.Keys <= st.mem.Keys
  {
    hide LayoutOk, FieldsOk, SizeOk, ReachOk;
    forall n | n in st.mem
      ensures InChain(g.past, n) <==> n !in g.src
    {
      assert n in g.from || n in g.src;
    }
  }

  lemma RestFootprint<P>(st: State<P>, roots: seq<int>)
    requires AtRest(st, roots)
    ensures st.chain != [] && |st.objs| == |st.chain| && Used(st.chain) == Footprint(st.mem, st.mem.Keys)
  {
  }

  /** No pointer of a heap at rest leads to an address that was not yet in use. */
  lemma RestPointers<P>(st: State<P>, roots: seq<int>, mem': Store<P>)
    requires AtRest(st, roots) && forall n | n in mem' :: n >= st.brk
    ensures forall p, k | p in st.mem && 0 <= k < |st.mem[p].fields| :: st.mem[p].fields[k] !in mem'
    ensures forall k | 0 <= k < |roots| :: roots[k] !in mem'
  {
    hide ChainOk;
    forall p, k | p in st.mem && 0 <= k < |st.mem[p].fields|
      ensures st.mem[p].fields[k] !in mem'
    {
      assert PtrOk(st.mem, st.chain, st.brk, st.mem[p].fields[k]);
    }
    forall k | 0 <= k < |roots|
      ensures roots[k] !in mem'
    {
      assert PtrOk(st.mem, st.chain, st.brk, roots[k]);
    }
  }

  // ----- allocation by the mutator

  lemma AllocPointers<P>(st: State<P>, obj: Obj<P>, p: int,
                         st': State<P>, q: int)
    requires st.chain != [] && |st.objs| == |st.chain| && st.brk <= st'.brk
    requires Allocated(st, obj, p, st')
    requires PtrOk(st.mem, st.chain, st.brk, q)
    ensures PtrOk(st'.mem, st'.chain, st'.brk, q)
  {
    if InChain(st'.chain, q) {
      var i :| 0 <= i < |st'.chain| && InSpace(q, st'.chain[i]);
      assert i < |st.chain|;
      assert InSpace(q, st.chain[i]);
    }
  }

  lemma AllocAllPointers<P>(st: State<P>, roots: seq<int>, obj: Obj<P>, p: int,
                            st': State<P>)
    requires st.chain != [] && |st.objs| == |st.chain| && st.brk <= st'.brk
    requires forall n, k | n in st.mem && 0 <= k < |st.mem[n].fields| :: PtrOk(st.mem, st.chain, st.brk, st.mem[n].fields[k])
    requires forall k | 0 <= k < |roots| :: PtrOk(st.mem, st.chain, st.brk, roots[k])
    requires forall k | 0 <= k < |obj.fields| :: PtrOk(st.mem, st.chain, st.brk, obj.fields[k])
    requires Allocated(st, obj, p, st')
    ensures forall n, k | n in st'.mem && 0 <= k < |st'.mem[n].fields| :: PtrOk(st'.mem, st'.chain, st'.brk, st'.mem[n].fields[k])
    ensures forall k | 0 <= k < |roots| :: PtrOk(st'.mem, st'.chain, st'.brk, roots[k])
  {
    assert st'.mem == st.mem[p := obj];
    hide Allocated, PtrOk;
    forall n, k | n in st'.mem && 0 <= k < |st'.mem[n].fields|
      ensures PtrOk(st'.mem, st'.chain, st'.brk, st'.mem[n].fields[k])
    {
      assert n != p ==> n in st.mem && st'.mem[n] == st.mem[n];
      AllocPointers(st, obj, p, st', st'.mem[n].fields[k]);
    }
    forall k | 0 <= k < |roots|
      ensures PtrOk(st'.mem, st'.chain, st'.brk, roots[k])
    {
      AllocPointers(st, obj, p, st', roots[k]);
    }
  }

  lemma AllocMoves<P>(st: State<P>, obj: Obj<P>, p: int,
                      st': State<P>)
    requires st.chain != [] && |st.objs| == |st.chain|
    requires Allocated(st, obj, p, st')
    ensures st'.mem == st.mem[p := obj] && st'.chain != [] && st'.chain[0].bot == st.chain[0].bot && st.brk <= st'.brk
  {
  }

  lemma AllocRestLayout<P>(st: State<P>, roots: seq<int>, obj: Obj<P>, p: int,
                           st': State<P>)
    requires AtRest(st, roots) && obj.size > 0 && (Fits(st, obj.size) || !Gap(obj.size, st.minspace))
    requires Allocated(st, obj, p, st')
    ensures p !in st.mem && st'.mem == st.mem[p := obj] && st.brk <= st'.brk
    ensures st'.chain != [] && ChainOk(st'.mem, st'.chain, st'.objs, st'.chain[0].bot, st'.brk)
    ensures forall n :: Among(st'.objs, n) <==> n in st'.mem
    ensures forall n | n in st'.mem :: n < st'.brk
    ensures Used(st'.chain) == Footprint(st'.mem, st'.mem.Keys)
  {
    hide ChainOk, PtrOk, Allocated, Among, Fits, Gap;
    RestFootprint(st, roots);
    var lo := st.chain[0].bot;
    AllocMoves(st, obj, p, st');
    AllocKeepsChain(st, lo, obj, p, st');
    AllocCovers(st, lo, obj, p, st');
    AllocFootprint(st.mem, obj, p);
  }

  /** A blocked allocation of an object with good pointers keeps the heap at rest. */
  lemma AllocAtRest<P>(st: State<P>, roots: seq<int>,
                       obj: Obj<P>, p: int,
                       st': State<P>)
    requires AtRest(st, roots) && obj.size > 0 && obj.tag.Live? && (Fits(st, obj.size) || !Gap(obj.size, st.minspace))
    requires forall k | 0 <= k < |obj.fields| :: PtrOk(st.mem, st.chain, st.brk, obj.fields[k])
    requires Allocated(st, obj, p, st')
    ensures p !in st.mem && AtRest(st', roots)
  {
    hide ChainOk, PtrOk, Allocated, Among, Fits, Gap;
    RestFootprint(st, roots);
    AllocRestLayout(st, roots, obj, p, st');
    AllocAllPointers(st, roots, obj, p, st');
  }

  lemma AllocFootprint<P>(mem: Store<P>, obj: Obj<P>, p: int)
    requires p !in mem
    ensures Footprint(mem[p := obj], mem[p := obj].Keys) == Footprint(mem, mem.Keys) + Weight(obj.size)
  {
    var mem' := mem[p := obj];
    FootprintRemove(mem', mem'.Keys, p);
    assert mem'.Keys - {p} == mem.Keys;
    FootprintSame(mem, mem', mem.Keys);
  }

  lemma {:induction false} FootprintSame<P>(h: Store<P>, h': Store<P>, s: set<int>)
    requires s <= h.Keys && s <= h'.Keys && forall p | p in s :: h'[p].size == h[p].size
    ensures Footprint(h', s) == Footprint(h, s)
  {
    if s != {} {
      NonEmpty(s);
      var p :| p in s;
      FootprintRemove(h, s, p);
      FootprintRemove(h', s, p);
      FootprintSame(h, h', s - {p});
    }
  }
}
