/** src/gc.c: what a collection in progress keeps. */
module CopyInvariant {
  import opened Heaps
  import opened ScanOrder
  import opened Spaces

  /** The ghost record of one collection: the old heap, the roots at its start, the
      first fresh address, minspace at its start, where objects went (fwd), where new
      objects came from (src), and which new objects have been scanned. */
  datatype Copying<+P> = Copying(
    from: Store<P>, past: seq<Space>, roots: seq<int>, limit: int, m0: nat,
    fwd: map<int, int>, src: map<int, int>, scanned: set<int>)

  /** A pointer either leads outside the old spaces or to an old object. */
  ghost predicate PtrOk<P>(h: Store<P>, past: seq<Space>, limit: int, q: int) {
    q < limit && (InChain(past, q) ==> q in h)
  }

  ghost predicate FromOk<P>(g: Copying<P>) {
    && (forall i | 0 <= i < |g.past| :: g.past[i].top <= g.limit)
    && (forall p | p in g.from :: InChain(g.past, p) && p < g.limit && g.from[p].tag.Live? && g.from[p].size > 0)
    && (forall p, k | p in g.from && 0 <= k < |g.from[p].fields| :: PtrOk(g.from, g.past, g.limit, g.from[p].fields[k]))
    && (forall k | 0 <= k < |g.roots| :: PtrOk(g.from, g.past, g.limit, g.roots[k]))
  }

  /** Old objects carry a forwarding mark exactly if they were copied; every new object
      is the copy of one old object and agrees with it but for its fields. */
  ghost predicate CopyOk<P>(g: Copying<P>, mem: Store<P>) {
    && (forall p | p in g.from ::
          p in mem && mem[p] == if p in g.fwd then g.from[p].(tag := Moved(g.fwd[p])) else g.from[p])
    && (forall p | p in g.fwd :: p in g.from && g.fwd[p] in g.src && g.src[g.fwd[p]] == p)
    && (forall n | n in g.src ::
          && n in mem && n >= g.limit && g.src[n] in g.fwd && g.fwd[g.src[n]] == n && g.src[n] in g.from
          && mem[n].tag.Live? && mem[n].size == g.from[g.src[n]].size
          && mem[n].payload == g.from[g.src[n]].payload && |mem[n].fields| == |g.from[g.src[n]].fields|)
    && mem.Keys == g.from.Keys + g.src.Keys
  }

  /** f' is what forward makes of f. */
  ghost predicate Forwarded<P>(g: Copying<P>, f: int, f': int) {
    if f in g.from then f in g.fwd && f' == g.fwd[f] else f' == f
  }

  /** Fields of scanned objects, and the first `done` of object cur, are forwarded;
      all others are still those of the original. */
  ghost predicate FieldsOk<P>(g: Copying<P>, mem: Store<P>, cur: int, done: nat)
    requires CopyOk(g, mem)
  {
    && cur !in g.scanned && g.scanned <= g.src.Keys
    && forall n, k | n in g.src && 0 <= k < |mem[n].fields| ::
         if n in g.scanned || (n == cur && k < done)
         then Forwarded(g, g.from[g.src[n]].fields[k], mem[n].fields[k])
         else mem[n].fields[k] == g.from[g.src[n]].fields[k]
  }

  ghost predicate ReachOk<P>(g: Copying<P>) {
    forall p | p in g.fwd :: Reachable(g.from, g.roots, p)
  }

  ghost predicate LayoutOk<P>(g: Copying<P>, st: State<P>) {
    && ChainOk(st.mem, st.chain, st.objs, g.limit, st.brk)
    && (forall n :: Among(st.objs, n) <==> n in g.src)
    && (forall q | q in st.mem :: q < st.brk)
  }

  /** No object that will be copied has a size that makes gcalloc spin, now or after minspace
      was raised. */
  ghost predicate GapFree<P>(h: Store<P>, roots: seq<int>, minspace: nat) {
    && (forall p | p in h && Reachable(h, roots, p) :: !Gap(h[p].size, minspace))
    && (forall p, q | p in h && q in h && Reachable(h, roots, p) && Reachable(h, roots, q) && h[q].size > minspace ::
          !Gap(h[p].size, h[q].size + WORD))
  }

  /** minspace is what it was, or was raised for some large object. */
  ghost predicate MinspaceOk<P>(h: Store<P>, roots: seq<int>, m0: nat, minspace: nat) {
    minspace == m0 || exists q :: q in h && Reachable(h, roots, q) && h[q].size > m0 && minspace == h[q].size + WORD
  }

  /** A second space means that what is reachable does not fit the first one. */
  ghost predicate UsedOk<P>(g: Copying<P>, st: State<P>)
    requires st.chain != []
  {
    && g.fwd.Keys <= g.from.Keys
    && Used(st.chain) == Footprint(g.from, g.fwd.Keys)
    && (|st.chain| == 1 ==> st.minspace == g.m0 && st.chain[0].top - st.chain[0].bot == Align(g.m0))
    && (|st.chain| > 1 ==> Footprint(g.from, ReachSet(g.from, g.roots)) >= Used(st.chain) > Align(g.m0)
                           && st.minspace <= Used(st.chain))
  }

  ghost predicate SizeOk<P>(g: Copying<P>, st: State<P>)
    requires st.chain != []
  {
    && GapFree(g.from, g.roots, g.m0) && MinspaceOk(g.from, g.roots, g.m0, st.minspace) && UsedOk(g, st)
  }

  ghost predicate Inv<P>(g: Copying<P>, st: State<P>, cur: int, done: nat)
  {
    && FromOk(g) && CopyOk(g, st.mem) && FieldsOk(g, st.mem, cur, done) && ReachOk(g)
    && LayoutOk(g, st) && SizeOk(g, st)
  }

  /** How the record and the chain develop: nothing is forgotten, and spaces stay where
      they are. */
  ghost predicate Advanced<P>(g: Copying<P>, st: State<P>, g': Copying<P>, st': State<P>) {
    && g' == g.(fwd := g'.fwd, src := g'.src, scanned := g'.scanned)
    && g.fwd.Keys <= g'.fwd.Keys && (forall p | p in g.fwd :: g'.fwd[p] == g.fwd[p])
    && g.src.Keys <= g'.src.Keys && (forall n | n in g.src :: g'.src[n] == g.src[n])
    && g.scanned <= g'.scanned <= g'.src.Keys
    && 0 < |st.chain| == |st.objs| <= |st'.objs| == |st'.chain|
    && (forall i | 0 <= i < |st.chain| :: st'.chain[i].bot == st.chain[i].bot && st.objs[i] <= st'.objs[i])
  }

  lemma AdvancedTwice<P>(g0: Copying<P>, st0: State<P>, g1: Copying<P>, st1: State<P>, g2: Copying<P>, st2: State<P>)
    requires Advanced(g0, st0, g1, st1) && Advanced(g1, st1, g2, st2)
    ensures Advanced(g0, st0, g2, st2)
  {
    forall i | 0 <= i < |st0.chain|
      ensures st0.objs[i] <= st2.objs[i]
    {
      assert st0.objs[i] <= st1.objs[i] <= st2.objs[i];
    }
  }

  // ----- copying one object

  lemma AllocAdvances<P>(g: Copying<P>, st: State<P>, p: int, obj: Obj<P>, n: int, st': State<P>)
    requires st.chain != [] && |st.objs| == |st.chain| && p !in g.fwd && n !in g.src && g.scanned <= g.src.Keys
    requires Allocated(st, obj, n, st')
    ensures Advanced(g, st, g.(fwd := g.fwd[p := n], src := g.src[n := p]), st')
  {
    assert p in g.fwd[p := n].Keys;
  }

  lemma CopyReady<P>(g: Copying<P>, st: State<P>, cur: int, done: nat, p: int)
    requires Inv(g, st, cur, done) && p in g.from && Reachable(g.from, g.roots, p)
    ensures st.chain != [] && |st.objs| == |st.chain| && !Gap(g.from[p].size, st.minspace)
    ensures p in st.mem && st.mem[p] == if p in g.fwd then g.from[p].(tag := Moved(g.fwd[p])) else g.from[p]
    ensures p < st.brk && g.src.Keys <= st.mem.Keys && (forall n | n in g.src :: n !in g.from) && g.scanned <= g.src.Keys
  {
    NoGapNow(g, st, p);
  }

  lemma NoGapNow<P>(g: Copying<P>, st: State<P>, p: int)
    requires st.chain != [] && SizeOk(g, st) && p in g.from && Reachable(g.from, g.roots, p)
    ensures !Gap(g.from[p].size, st.minspace)
  {
  }

  lemma CopyStepCopyOk<P>(g: Copying<P>, mem: Store<P>, cur: int, done: nat, p: int, n: int)
    requires FromOk(g) && CopyOk(g, mem) && FieldsOk(g, mem, cur, done)
    requires p in g.from && p !in g.fwd && n !in mem && n >= g.limit && n != cur
    ensures var g' := g.(fwd := g.fwd[p := n], src := g.src[n := p]);
            var mem' := mem[n := g.from[p]][p := g.from[p].(tag := Moved(n))];
            CopyOk(g', mem') && FieldsOk(g', mem', cur, done)
  {
    var g' := g.(fwd := g.fwd[p := n], src := g.src[n := p]);
    var mem' := mem[n := g.from[p]][p := g.from[p].(tag := Moved(n))];
    assert CopyOk(g', mem');
    forall m, k | m in g'.src && 0 <= k < |mem'[m].fields|
      ensures if m in g'.scanned || (m == cur && k < done)
              then Forwarded(g', g'.from[g'.src[m]].fields[k], mem'[m].fields[k])
              else mem'[m].fields[k] == g'.from[g'.src[m]].fields[k]
    {
      if m != n {
        assert m in g.src && mem'[m] == mem[m];
      }
    }
  }

  lemma MinspaceStep<P>(h: Store<P>, roots: seq<int>, m0: nat, minspace: nat, p: int)
    requires MinspaceOk(h, roots, m0, minspace) && p in h && Reachable(h, roots, p)
    ensures MinspaceOk(h, roots, m0, Bump(minspace, h[p].size))
  {
    if minspace < h[p].size {
      assert p in h && h[p].size > m0;
    }
  }

  /** Copying one more reachable object uses no more than all of them would. */
  lemma UsedAfter<P>(g: Copying<P>, p: int, n: int)
    requires ReachOk(g) && g.fwd.Keys <= g.from.Keys
    requires p in g.from && p !in g.fwd && Reachable(g.from, g.roots, p)
    ensures var f := g.fwd[p := n];
            f.Keys <= g.from.Keys
            && Footprint(g.from, f.Keys) == Footprint(g.from, g.fwd.Keys) + Weight(g.from[p].size)
            && Footprint(g.from, f.Keys) <= Footprint(g.from, ReachSet(g.from, g.roots))
  {
    var f := g.fwd[p := n];
    FootprintRemove(g.from, f.Keys, p);
    assert f.Keys - {p} == g.fwd.Keys;
    FootprintMonotone(g.from, f.Keys, ReachSet(g.from, g.roots));
  }

  lemma CopyStepSize<P>(g: Copying<P>, st: State<P>, p: int, n: int, st': State<P>)
    requires FromOk(g) && ReachOk(g) && st.chain != [] && |st.objs| == |st.chain| && SizeOk(g, st)
    requires p in g.from && p !in g.fwd && Reachable(g.from, g.roots, p)
    requires Allocated(st, g.from[p], n, st')
    requires Used(st'.chain) == Used(st.chain) + Weight(g.from[p].size)
    ensures SizeOk(g.(fwd := g.fwd[p := n], src := g.src[n := p]), st')
  {
    MinspaceStep(g.from, g.roots, g.m0, st.minspace, p);
    UsedAfter(g, p, n);
    if |st.chain| == 1 {
      UsedOne(st.chain);
    }
    var sp := st.chain[|st.chain| - 1];
    if sp.current + Weight(g.from[p].size) <= sp.top {
      assert st'.chain[0].top - st'.chain[0].bot == st.chain[0].top - st.chain[0].bot;
    }
    assert UsedOk(g.(fwd := g.fwd[p := n], src := g.src[n := p]), st');
  }

  lemma UsedOne(chain: seq<Space>)
    requires |chain| == 1
    ensures Used(chain) == chain[0].current - chain[0].bot
  {
    assert Used(chain[..0]) == 0;
  }

  lemma LayoutCovers<P>(g: Copying<P>, st: State<P>)
    requires FromOk(g) && CopyOk(g, st.mem) && LayoutOk(g, st)
    ensures Covered(st.mem, st.objs, g.limit)
  {
    forall p | p in st.mem && p >= g.limit
      ensures Among(st.objs, p)
    {
      assert p in g.src;
    }
  }

  lemma CopyStepLayout<P>(g: Copying<P>, st: State<P>, p: int, n: int, st': State<P>)
    requires FromOk(g) && CopyOk(g, st.mem) && LayoutOk(g, st)
    requires p in g.from && p !in g.fwd && !Gap(g.from[p].size, st.minspace)
    requires Allocated(st, g.from[p], n, st')
    ensures n !in st.mem && n >= g.limit && n < st'.brk
    ensures Used(st'.chain) == Used(st.chain) + Weight(g.from[p].size)
    ensures LayoutOk(g.(fwd := g.fwd[p := n], src := g.src[n := p]),
                     st'.(mem := st'.mem[p := g.from[p].(tag := Moved(n))]))
  {
    LayoutCovers(g, st);
    AllocKeepsChain(st, g.limit, g.from[p], n, st');
    AllocCovers(st, g.limit, g.from[p], n, st');
    RetagKeepsChain(st'.mem, st'.chain, st'.objs, g.limit, st'.brk, p, g.from[p].(tag := Moved(n)));
    LayoutAfter(g, p, n, st, st', st'.mem[p := g.from[p].(tag := Moved(n))]);
  }

  lemma LayoutAfter<P>(g: Copying<P>, p: int, n: int, st: State<P>, st': State<P>, mem: Store<P>)
    requires forall m :: Among(st.objs, m) <==> m in g.src
    requires forall m :: Among(st'.objs, m) <==> m == n || Among(st.objs, m)
    requires mem.Keys <= st'.mem.Keys && forall q | q in st'.mem :: q < st'.brk
    requires ChainOk(mem, st'.chain, st'.objs, g.limit, st'.brk)
    ensures LayoutOk(g.(fwd := g.fwd[p := n], src := g.src[n := p]), st'.(mem := mem))
  {
  }

  /** Replacing an object by one of the same size does not move anything. */
  lemma RetagKeepsChain<P>(h: Store<P>, chain: seq<Space>, objs: seq<seq<int>>, lo: int, hi: int, p: int, obj: Obj<P>)
    requires ChainOk(h, chain, objs, lo, hi) && p in h && obj.size == h[p].size
    ensures ChainOk(h[p := obj], chain, objs, lo, hi)
  {
    forall i | 0 <= i < |chain|
      ensures SpaceOk(h[p := obj], chain[i], objs[i])
    {
      SameSizes(h, h[p := obj], chain[i].bot, chain[i].current, objs[i]);
    }
  }

  lemma CopyStepReach<P>(g: Copying<P>, p: int, n: int)
    requires FromOk(g) && ReachOk(g) && Reachable(g.from, g.roots, p)
    ensures var g' := g.(fwd := g.fwd[p := n], src := g.src[n := p]); FromOk(g') && ReachOk(g')
  {
  }

  lemma AllocatedStore<P>(st: State<P>, obj: Obj<P>, n: int, st': State<P>)
    requires st.chain != [] && |st.objs| == |st.chain| && Allocated(st, obj, n, st')
    ensures st'.mem == st.mem[n := obj] && st'.chain != []
  {
  }

  lemma SizeOkStore<P>(g: Copying<P>, st: State<P>, mem: Store<P>)
    requires st.chain != []
    ensures SizeOk(g, st.(mem := mem)) <==> SizeOk(g, st)
  {
  }

  lemma CopyStepInv<P>(g: Copying<P>, st: State<P>, cur: int, done: nat, p: int, n: int, st': State<P>,
                       g'': Copying<P>, mem'': Store<P>)
    requires Inv(g, st, cur, done) && cur < st.brk && (cur in g.src || cur < g.limit)
    requires p in g.from && p !in g.fwd && Reachable(g.from, g.roots, p)
    requires Allocated(st, g.from[p], n, st')
    requires g'' == g.(fwd := g.fwd[p := n], src := g.src[n := p])
    requires mem'' == st'.mem[p := g.from[p].(tag := Moved(n))]
    ensures n !in st.mem && Inv(g'', st'.(mem := mem''), cur, done)
  {
    CopyReady(g, st, cur, done, p);
    AllocatedStore(st, g.from[p], n, st');
    SizeOkStore(g'', st', mem'');
    hide FromOk, CopyOk, FieldsOk, LayoutOk, SizeOk, ReachOk, Allocated, Gap, Reachable;
    CopyStepLayout(g, st, p, n, st');
    CopyStepCopyOk(g, st.mem, cur, done, p, n);
    CopyStepReach(g, p, n);
    CopyStepSize(g, st, p, n, st');
  }

  lemma CopyStep<P>(g: Copying<P>, st: State<P>, cur: int, done: nat, p: int, n: int, st': State<P>,
                       g'': Copying<P>, mem'': Store<P>)
    requires Inv(g, st, cur, done) && cur < st.brk && (cur in g.src || cur < g.limit)
    requires p in g.from && p !in g.fwd && Reachable(g.from, g.roots, p)
    requires Allocated(st, g.from[p], n, st')
    requires g'' == g.(fwd := g.fwd[p := n], src := g.src[n := p])
    requires mem'' == st'.mem[p := g.from[p].(tag := Moved(n))]
    ensures Inv(g'', st'.(mem := mem''), cur, done)
    ensures Advanced(g, st, g'', st'.(mem := mem'')) && st'.brk >= st.brk && n !in g.src && n !in g.scanned
    ensures forall m | m in g.src :: m in mem'' && mem''[m] == st.mem[m]
  {
    hide Inv, Advanced;
    CopyReady(g, st, cur, done, p);
    CopyStepInv(g, st, cur, done, p, n, st', g'', mem'');
    AllocAdvances(g, st, p, g.from[p], n, st');
    AdvancedStore(g, st, g'', st', mem'');
  }

  // ----- scanning one object

  lemma FieldStepFields<P>(g: Copying<P>, mem: Store<P>, cur: int, k: nat, f': int)
    requires CopyOk(g, mem) && FieldsOk(g, mem, cur, k) && FromOk(g)
    requires cur in g.src && k < |mem[cur].fields|
    requires Forwarded(g, g.from[g.src[cur]].fields[k], f')
    ensures var mem' := mem[cur := mem[cur].(fields := mem[cur].fields[k := f'])];
            CopyOk(g, mem') && FieldsOk(g, mem', cur, k + 1)
  {
    var mem' := mem[cur := mem[cur].(fields := mem[cur].fields[k := f'])];
    assert CopyOk(g, mem');
    forall n, j | n in g.src && 0 <= j < |mem'[n].fields|
      ensures if n in g.scanned || (n == cur && j < k + 1)
              then Forwarded(g, g.from[g.src[n]].fields[j], mem'[n].fields[j])
              else mem'[n].fields[j] == g.from[g.src[n]].fields[j]
    {
      assert n != cur ==> mem'[n] == mem[n];
    }
  }

  lemma RetagKeepsLayout<P>(g: Copying<P>, st: State<P>, p: int, obj: Obj<P>)
    requires LayoutOk(g, st) && p in st.mem && obj.size == st.mem[p].size
    ensures LayoutOk(g, st.(mem := st.mem[p := obj]))
  {
    RetagKeepsChain(st.mem, st.chain, st.objs, g.limit, st.brk, p, obj);
  }

  /** One field of object cur replaced by what forward made of it. */
  lemma FieldStep<P>(g: Copying<P>, st: State<P>, cur: int, k: nat, f': int)
    requires Inv(g, st, cur, k)
    requires cur in g.src && k < |st.mem[cur].fields|
    requires Forwarded(g, g.from[g.src[cur]].fields[k], f')
    ensures Inv(g, st.(mem := st.mem[cur := st.mem[cur].(fields := st.mem[cur].fields[k := f'])]), cur, k + 1)
  {
    FieldStepFields(g, st.mem, cur, k, f');
    RetagKeepsLayout(g, st, cur, st.mem[cur].(fields := st.mem[cur].fields[k := f']));
  }

  /** Between objects the scan stands nowhere; any object may be next. */
  lemma ScanBegins<P>(g: Copying<P>, st: State<P>, cur: int, cur': int)
    requires Inv(g, st, cur, 0) && cur' !in g.scanned
    ensures Inv(g, st, cur', 0)
  {
  }

  lemma ScanEnds<P>(g: Copying<P>, st: State<P>, cur: int)
    requires cur in g.src && cur in st.mem && Inv(g, st, cur, |st.mem[cur].fields|)
    ensures Inv(g.(scanned := g.scanned + {cur}), st, g.limit - 1, 0)
  {
    ScanEndsFields(g, st.mem, cur);
    ScannedKeepsLayout(g, st, g.scanned + {cur});
    assert UsedOk(g.(scanned := g.scanned + {cur}), st);
  }

  lemma ScanEndsFields<P>(g: Copying<P>, mem: Store<P>, cur: int)
    requires CopyOk(g, mem) && FromOk(g) && cur in g.src && FieldsOk(g, mem, cur, |mem[cur].fields|)
    ensures var g' := g.(scanned := g.scanned + {cur});
            CopyOk(g', mem) && FromOk(g') && FieldsOk(g', mem, g.limit - 1, 0)
  {
    var g' := g.(scanned := g.scanned + {cur});
    assert CopyOk(g', mem);
    forall n, k | n in g'.src && 0 <= k < |mem[n].fields|
      ensures if n in g'.scanned || (n == g.limit - 1 && k < 0)
              then Forwarded(g', g'.from[g'.src[n]].fields[k], mem[n].fields[k])
              else mem[n].fields[k] == g'.from[g'.src[n]].fields[k]
    {
      assert n in g.scanned || n == cur ==> Forwarded(g, g.from[g.src[n]].fields[k], mem[n].fields[k]);
    }
  }

  lemma ScannedKeepsLayout<P>(g: Copying<P>, st: State<P>, scanned: set<int>)
    requires LayoutOk(g, st)
    ensures LayoutOk(g.(scanned := scanned), st)
  {
  }

  // ----- walking a space

  /** Where the k-th object of a run of objects from a on starts. */
  ghost function StartOf<P>(h: Store<P>, a: int, os: seq<int>, k: nat): int
    requires k <= |os| && (k > 0 ==> os[k - 1] in h)
  {
    if k == 0 then a else os[k - 1] + Align(h[os[k - 1]].size)
  }

  lemma {:induction false} TiledSuffix<P>(h: Store<P>, a: int, b: int, os: seq<int>, k: nat)
    requires Tiled(h, a, b, os) && k <= |os|
    ensures k > 0 ==> os[k - 1] in h
    ensures Tiled(h, StartOf(h, a, os, k), b, os[k..])
    decreases k
  {
    if k == 0 {
      assert os[0..] == os;
    } else {
      TiledSuffix(h, os[0] + Align(h[os[0]].size), b, os[1..], k - 1);
      assert os[1..][k - 1..] == os[k..];
      assert k > 1 ==> os[1..][k - 2] == os[k - 1];
    }
  }

  /** The scan pointer before object k: it is below current exactly if there is one. */
  lemma ScanPoint<P>(h: Store<P>, sp: Space, os: seq<int>, k: nat)
    requires SpaceOk(h, sp, os) && k <= |os|
    ensures k > 0 ==> os[k - 1] in h
    ensures var scan := StartOf(h, sp.bot, os, k);
            && (scan < sp.current <==> k < |os|)
            && (k < |os| ==> os[k] in h && os[k] == scan + WORD
                             && StartOf(h, sp.bot, os, k + 1) == os[k] + Align(h[os[k]].size))
  {
    TiledSuffix(h, sp.bot, sp.current, os, k);
  }

  // ----- facts for callers that do not look inside the invariant

  lemma AdvancedStill<P>(g: Copying<P>, st: State<P>)
    requires 0 < |st.chain| == |st.objs| && g.scanned <= g.src.Keys
    ensures Advanced(g, st, g, st)
  {
  }

  lemma AdvancedKeeps<P>(g: Copying<P>, st: State<P>, g': Copying<P>, st': State<P>)
    requires Advanced(g, st, g', st')
    ensures g'.from == g.from && g'.past == g.past && g'.roots == g.roots && g'.limit == g.limit && g'.m0 == g.m0
    ensures g.fwd.Keys <= g'.fwd.Keys && g.scanned <= g'.scanned
    ensures forall n | n in g.src :: n in g'.src && g'.src[n] == g.src[n]
    ensures |st.chain| == |st.objs| <= |st'.chain| == |st'.objs|
    ensures forall i | 0 <= i < |st.chain| :: st'.chain[i].bot == st.chain[i].bot && st.objs[i] <= st'.objs[i]
  {
  }

  lemma AdvancedScan<P>(g: Copying<P>, st: State<P>, g': Copying<P>, st': State<P>, p: int)
    requires Advanced(g, st, g', st') && p in g'.src
    ensures Advanced(g, st, g'.(scanned := g'.scanned + {p}), st')
  {
  }

  /** Only the store may differ between the states that are compared. */
  lemma AdvancedStore<P>(g: Copying<P>, st: State<P>, g': Copying<P>, st': State<P>, mem: Store<P>)
    requires Advanced(g, st, g', st')
    ensures Advanced(g, st, g', st'.(mem := mem))
  {
  }

  lemma ForwardedStays<P>(g: Copying<P>, st: State<P>, g': Copying<P>, st': State<P>, f: int, f': int)
    requires Advanced(g, st, g', st') && Forwarded(g, f, f')
    ensures Forwarded(g', f, f')
  {
  }

  /** What the scan may assume about the field it is at. */
  lemma FieldReady<P>(g: Copying<P>, st: State<P>, cur: int, k: nat)
    requires Inv(g, st, cur, k) && cur in g.src && cur in st.mem && k < |st.mem[cur].fields|
    ensures g.src[cur] in g.from && k < |g.from[g.src[cur]].fields| && cur < st.brk
    ensures st.mem[cur].fields[k] == g.from[g.src[cur]].fields[k]
    ensures PtrOk(g.from, g.past, g.limit, st.mem[cur].fields[k])
    ensures st.mem[cur].fields[k] in g.from ==> Reachable(g.from, g.roots, st.mem[cur].fields[k])
  {
    var p, f := g.src[cur], st.mem[cur].fields[k];
    assert p in g.fwd;
    assert PtrOk(g.from, g.past, g.limit, g.from[p].fields[k]);
    if f in g.from {
      FieldReachable(g.from, g.roots, p, f);
    }
  }

  lemma RootReady<P>(g: Copying<P>, st: State<P>, cur: int, k: nat)
    requires Inv(g, st, cur, 0) && k < |g.roots|
    ensures PtrOk(g.from, g.past, g.limit, g.roots[k])
    ensures g.roots[k] in g.from ==> Reachable(g.from, g.roots, g.roots[k])
  {
    if g.roots[k] in g.from {
      RootReachable(g.from, g.roots, g.roots[k]);
    }
  }

  /** A new object keeps the size, and the number of fields, of its original. */
  lemma SizesFixed<P>(g: Copying<P>, st: State<P>, cur: int, done: nat)
    requires Inv(g, st, cur, done)
    ensures forall n | n in g.src :: n in st.mem && n >= g.limit && g.src[n] in g.from
              && st.mem[n].size == g.from[g.src[n]].size && |st.mem[n].fields| == |g.from[g.src[n]].fields|
    ensures 0 < |st.chain| == |st.objs| && g.scanned <= g.src.Keys && cur !in g.scanned && g.limit <= st.brk
    ensures g.fwd.Keys <= g.from.Keys
    ensures forall i, k | 0 <= i < |st.objs| && 0 <= k < |st.objs[i]| :: st.objs[i][k] in g.src
    ensures forall i | 0 <= i < |st.chain| :: SpaceOk(st.mem, st.chain[i], st.objs[i])
  {
    forall i, k | 0 <= i < |st.objs| && 0 <= k < |st.objs[i]|
      ensures st.objs[i][k] in g.src
    {
      assert Among(st.objs, st.objs[i][k]);
    }
  }

  // ----- scanning spaces

  lemma ObjectsDistinct<P>(g: Copying<P>, st: State<P>, cur: int, done: nat, i: nat)
    requires Inv(g, st, cur, done) && i < |st.objs|
    ensures forall k, l | 0 <= k < l < |st.objs[i]| :: st.objs[i][k] != st.objs[i][l]
    ensures forall j, k, l | 0 <= j < |st.objs| && j != i && 0 <= k < |st.objs[i]| && 0 <= l < |st.objs[j]| ::
              st.objs[i][k] != st.objs[j][l]
  {
    assert SpaceOk(st.mem, st.chain[i], st.objs[i]);
    forall j, k, l | 0 <= j < |st.objs| && j != i && 0 <= k < |st.objs[i]| && 0 <= l < |st.objs[j]|
      ensures st.objs[i][k] != st.objs[j][l]
    {
      assert SpaceOk(st.mem, st.chain[j], st.objs[j]);
      assert if i < j then st.chain[i].top <= st.chain[j].bot else st.chain[j].top <= st.chain[i].bot;
    }
  }

  // ----- following the order

  /** The new spaces hold the copies of the objects that the order names, in that order,
      and those are scanned that it has seen. */
  ghost predicate Follows<P>(g: Copying<P>, st: State<P>, s: Order) {
    && IsOrder(s) && |st.chain| == |st.objs| == |s.spaces|
    && (forall i | 0 <= i < |st.objs| :: |st.objs[i]| == |s.spaces[i]| && s.seen[i] <= |s.spaces[i]|)
    && (forall i, k | 0 <= i < |st.objs| && 0 <= k < |st.objs[i]| ::
          && st.objs[i][k] in g.src && g.src[st.objs[i][k]] == s.spaces[i][k]
          && (st.objs[i][k] in g.scanned <==> k < s.seen[i]))
    && s.copied == g.fwd.Keys && s.minspace == st.minspace
    && s.free == st.chain[|st.chain| - 1].top - st.chain[|st.chain| - 1].current
  }

  lemma BeginFollows<P>(g: Copying<P>, st: State<P>, sp: Space)
    requires g.fwd == map[] && g.scanned == {} && st.chain == [sp] && st.objs == [[]]
    requires sp.current == sp.bot && sp.top == sp.bot + Align(st.minspace)
    ensures Follows(g, st, Begin(st.minspace))
  {
  }

  /** Copying goes where the order says. */
  lemma CopyFollows<P>(g: Copying<P>, st: State<P>, s: Order, p: int, n: int, st': State<P>)
    requires Follows(g, st, s) && p in g.from && p !in g.fwd && n !in g.src && n !in g.scanned
    requires Allocated(st, g.from[p], n, st')
    ensures Follows(g.(fwd := g.fwd[p := n], src := g.src[n := p]), st', CopyTo(g.from, s, p))
  {
    var g' := g.(fwd := g.fwd[p := n], src := g.src[n := p]);
    var s' := CopyTo(g.from, s, p);
    assert g'.fwd.Keys == g.fwd.Keys + {p};
    forall i, k | 0 <= i < |st'.objs| && 0 <= k < |st'.objs[i]|
      ensures st'.objs[i][k] in g'.src && g'.src[st'.objs[i][k]] == s'.spaces[i][k]
      ensures st'.objs[i][k] in g'.scanned <==> k < s'.seen[i]
    {
      if i < |st.objs| && k < |st.objs[i]| {
        assert st'.objs[i][k] == st.objs[i][k] && st.objs[i][k] in g.src;
      } else {
        assert st'.objs[i][k] == n;
      }
    }
  }

  /** The object that was next in its space has been scanned. */
  lemma SeenFollows<P>(g: Copying<P>, st: State<P>, s: Order, p: int, i: nat)
    requires p in st.mem && Inv(g, st, p, |st.mem[p].fields|) && Follows(g, st, s)
    requires i < |s.spaces| && s.seen[i] < |s.spaces[i]| && p == st.objs[i][s.seen[i]]
    ensures Follows(g.(scanned := g.scanned + {p}), st, s.(seen := s.seen[i := s.seen[i] + 1]))
  {
    hide Inv;
    ObjectsDistinct(g, st, p, |st.mem[p].fields|, i);
  }

  /** Only the store may differ between the states that follow the same order. */
  lemma FollowsStore<P>(g: Copying<P>, st: State<P>, s: Order, mem: Store<P>)
    requires Follows(g, st, s)
    ensures Follows(g, st.(mem := mem), s)
  {
  }

  lemma FollowsShape<P>(g: Copying<P>, st: State<P>, s: Order)
    requires Follows(g, st, s)
    ensures IsOrder(s) && |st.chain| == |st.objs| == |s.spaces|
    ensures forall i | 0 <= i < |st.objs| :: s.seen[i] <= |st.objs[i]| == |s.spaces[i]|
  {
  }

  /** Where the scan of space i stands. */
  lemma ScanStands<P>(g: Copying<P>, st: State<P>, s: Order, i: nat)
    requires Inv(g, st, g.limit - 1, 0) && Follows(g, st, s) && i < |st.chain|
    ensures IsOrder(s) && |st.chain| == |st.objs| == |s.spaces| && g.scanned <= g.src.Keys
    ensures s.seen[i] <= |st.objs[i]| == |s.spaces[i]| && (s.seen[i] > 0 ==> st.objs[i][s.seen[i] - 1] in st.mem)
    ensures var scan := StartOf(st.mem, st.chain[i].bot, st.objs[i], s.seen[i]);
            && (scan < st.chain[i].current <==> s.seen[i] < |st.objs[i]|)
            && (s.seen[i] < |st.objs[i]| ==> st.objs[i][s.seen[i]] in st.mem && st.objs[i][s.seen[i]] == scan + WORD)
            && (s.seen[i] == 0 ==> scan == st.chain[i].bot)
            && (s.seen[i] > 0 ==> var p := st.objs[i][s.seen[i] - 1]; scan == p + Align(st.mem[p].size))
  {
    hide Inv, Follows, SpaceOk;
    FollowsShape(g, st, s);
    SizesFixed(g, st, g.limit - 1, 0);
    ScanPoint(st.mem, st.chain[i], st.objs[i], s.seen[i]);
  }

  lemma CopiedSoFar<P>(g: Copying<P>, st: State<P>, s: Order)
    requires Follows(g, st, s)
    ensures IsOrder(s) && s.copied == g.fwd.Keys
  {
  }

  lemma NextIsNew<P>(g: Copying<P>, st: State<P>, s: Order, j: nat)
    requires Follows(g, st, s) && j < |st.objs| && s.seen[j] < |st.objs[j]|
    ensures var p := st.objs[j][s.seen[j]]; p in g.src && p !in g.scanned && g.src[p] == s.spaces[j][s.seen[j]]
  {
  }

  lemma NothingSeen<P>(g: Copying<P>, st: State<P>, s: Order)
    requires Follows(g, st, s) && g.scanned == {}
    ensures IsOrder(s) && |st.chain| == |s.spaces| && forall i | 0 <= i < |s.spaces| :: s.seen[i] == 0
  {
    forall i | 0 <= i < |s.spaces|
      ensures s.seen[i] == 0
    {
      var none := |st.objs[i]| == 0;
      assert none || (st.objs[i][0] in g.scanned <==> 0 < s.seen[i]);
    }
  }

  /** The end of the scan of object p, which was next in space j when the scan began. */
  lemma ScanDone<P>(g: Copying<P>, st: State<P>, s: Order, g': Copying<P>, st': State<P>, s': Order, j: nat, p: int)
    requires Advanced(g, st, g', st') && g'.scanned == g.scanned && p in g.src
    requires IsOrder(s) && j < |st.objs| == |s.spaces| && s.seen[j] < |s.spaces[j]| == |st.objs[j]| && p == st.objs[j][s.seen[j]]
    requires p in st'.mem && Inv(g', st', p, |st'.mem[p].fields|) && Follows(g', st', s')
    requires s' == ForwardAll(g.from, s, FieldsOf(g.from, s.spaces[j][s.seen[j]]))
    ensures j < |s'.seen| && s'.seen[j] == s.seen[j]
    ensures var done := g'.(scanned := g'.scanned + {p});
            var seen := s'.(seen := s'.seen[j := s'.seen[j] + 1]);
            && Inv(done, st', g.limit - 1, 0) && Follows(done, st', seen)
            && Advanced(g, st, done, st') && seen == Visit(g.from, s, j)
  {
    hide Inv, Advanced, Follows, FieldsOf, SpaceOk;
    ForwardAllGrows(g.from, s, FieldsOf(g.from, s.spaces[j][s.seen[j]]));
    AdvancedKeeps(g, st, g', st');
    FollowsShape(g', st', s');
    SizesFixed(g', st', p, |st'.mem[p].fields|);
    ScanEnds(g', st', p);
    AdvancedScan(g, st, g', st', p);
    SeenFollows(g', st', s', p, j);
  }

  /** The objects that came too late to their space, and no others, were not scanned. */
  lemma LateUnscanned<P>(g: Copying<P>, st: State<P>, s: Order)
    requires Inv(g, st, g.limit - 1, 0) && Follows(g, st, s)
    ensures forall i: nat, k: nat | Late(s, i, k) ::
              i < |st.objs| && k < |st.objs[i]| && st.objs[i][k] in g.src && st.objs[i][k] !in g.scanned
              && g.src[st.objs[i][k]] == s.spaces[i][k]
    ensures forall n | n in g.src && n !in g.scanned ::
              exists i: nat, k: nat :: Late(s, i, k) && s.spaces[i][k] == g.src[n]
  {
    forall n | n in g.src && n !in g.scanned
      ensures exists i: nat, k: nat :: Late(s, i, k) && s.spaces[i][k] == g.src[n]
    {
      assert Among(st.objs, n);
      var i, k :| 0 <= i < |st.objs| && 0 <= k < |st.objs[i]| && st.objs[i][k] == n;
      assert Late(s, i, k) && s.spaces[i][k] == g.src[n];
    }
  }

  /** Every field of every new object is what forward makes of the original's. */
  ghost predicate AllForwarded<P>(g: Copying<P>, mem: Store<P>) {
    forall n, k | n in g.src && n in mem && g.src[n] in g.from && 0 <= k < |mem[n].fields| <= |g.from[g.src[n]].fields| ::
      Forwarded(g, g.from[g.src[n]].fields[k], mem[n].fields[k])
  }

  lemma NothingLostForwards<P>(g: Copying<P>, st: State<P>, s: Order, n: int, k: nat)
    requires Inv(g, st, g.limit - 1, 0) && Follows(g, st, s) && NothingLost(g.from, s)
    requires n in g.src && n in st.mem && g.src[n] in g.from && k < |st.mem[n].fields| <= |g.from[g.src[n]].fields|
    ensures Forwarded(g, g.from[g.src[n]].fields[k], st.mem[n].fields[k])
  {
    LateUnscanned(g, st, s);
    hide Follows, LayoutOk, SizeOk, ReachOk, FromOk, Late;
    if n !in g.scanned {
      var i: nat, j: nat :| Late(s, i, j) && s.spaces[i][j] == g.src[n];
      assert g.from[g.src[n]].fields[k] in FieldsOf(g.from, s.spaces[i][j]);
    }
  }

  lemma LostIsNotForwarded<P>(g: Copying<P>, st: State<P>, s: Order, i: nat, j: nat, q: int)
    requires Inv(g, st, g.limit - 1, 0) && Follows(g, st, s) && AllForwarded(g, st.mem)
    requires Late(s, i, j) && q in FieldsOf(g.from, s.spaces[i][j])
    ensures q !in g.from
  {
    LateUnscanned(g, st, s);
    hide Follows, LayoutOk, SizeOk, ReachOk, InChain, Late;
    var n := st.objs[i][j];
    assert n in g.src && n in st.mem && g.src[n] in g.from;
    var k :| 0 <= k < |g.from[g.src[n]].fields| && g.from[g.src[n]].fields[k] == q;
    assert st.mem[n].fields[k] == q && Forwarded(g, q, st.mem[n].fields[k]);
    NewAreNotOld(g, st, q);
  }

  /** New space is free of old pointers if and only if no object with an old pointer
      came to a space after that space had been scanned. */
  lemma CleanExactly<P>(g: Copying<P>, st: State<P>, s: Order)
    requires Inv(g, st, g.limit - 1, 0) && Follows(g, st, s)
    ensures NothingLost(g.from, s) <==> AllForwarded(g, st.mem)
  {
    hide Inv, Follows, Forwarded;
    if NothingLost(g.from, s) {
      forall n, k | n in g.src && n in st.mem && g.src[n] in g.from && 0 <= k < |st.mem[n].fields| <= |g.from[g.src[n]].fields|
        ensures Forwarded(g, g.from[g.src[n]].fields[k], st.mem[n].fields[k])
      {
        NothingLostForwards(g, st, s, n, k);
      }
    }
    if AllForwarded(g, st.mem) {
      forall i: nat, j: nat, q | Late(s, i, j) && q in FieldsOf(g.from, s.spaces[i][j])
        ensures q !in g.from
      {
        LostIsNotForwarded(g, st, s, i, j, q);
      }
    }
  }

  /** A pointer into old space is never what forward yields for an object. */
  lemma NewAreNotOld<P>(g: Copying<P>, st: State<P>, q: int)
    requires FromOk(g) && CopyOk(g, st.mem)
    ensures q in g.from ==> !Forwarded(g, q, q)
  {
    if q in g.from && q in g.fwd {
      assert g.fwd[q] in g.src && g.fwd[q] >= g.limit;
    }
  }

  /** How much a collection has copied, seen from its end. */
  lemma SizesAtEnd<P>(g: Copying<P>, st: State<P>)
    requires Inv(g, st, g.limit - 1, 0)
    requires |st.chain| == 1 ==> g.fwd.Keys == ReachSet(g.from, g.roots)
    ensures st.chain != [] && 0 <= Used(st.chain) <= Footprint(g.from, ReachSet(g.from, g.roots))
    ensures |st.chain| == 1 <==> Footprint(g.from, ReachSet(g.from, g.roots)) <= Align(g.m0)
    ensures |st.chain| == 1 ==> st.minspace == g.m0 && st.chain[0].top - st.chain[0].bot == Align(g.m0)
    ensures |st.chain| == 1 ==> Used(st.chain) == Footprint(g.from, ReachSet(g.from, g.roots))
    ensures |st.chain| > 1 ==> st.minspace < 2 * Used(st.chain) && Used(st.chain) > Align(g.m0)
  {
    hide FieldsOk, IsPath;
    var reach := ReachSet(g.from, g.roots);
    forall p | p in g.fwd.Keys
      ensures p in reach
    {
      assert p in g.fwd;
    }
    FootprintMonotone(g.from, g.fwd.Keys, reach);
    if |st.chain| == 1 {
      UsedOne(st.chain);
      assert SpaceOk(st.mem, st.chain[0], st.objs[0]);
    }
  }
}
