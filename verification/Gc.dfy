/** src/gc.c: the copying collector.  Objects are a size in bytes, pointer fields and
    a payload; an object's tag word sits one word below its address and is overwritten
    by a forwarding mark when the object moves.  Addresses are integers, spaces are
    address ranges filled by bumping `current`, and the chain of new spaces is listed
    oldest first, so the C variable `new` is its last element. */
module Heaps {
  const WORD: nat := 8
  const MIN_MINSPACE: nat := 10000

  /** The macro ALIGN with 8-byte pointers. */
  function Align(n: nat): nat { (n + 7) / 8 * 8 }

  datatype Tag = Live | Moved(to: int)

  datatype Obj<+P> = Obj(tag: Tag, size: nat, fields: seq<int>, payload: P)

  datatype Space = Space(bot: int, current: int, top: int)

  type Store<+P> = map<int, Obj<P>>

  /** The collector's variables: the store, the new spaces, the objects in each of them in
      the order of their addresses, the first address never used, and the size of the
      next space. */
  datatype State<+P> = State(mem: Store<P>, chain: seq<Space>, objs: seq<seq<int>>, brk: int, minspace: nat)

  /** Bytes an object takes up, with its tag word. */
  function Weight(size: nat): nat { Align(size + WORD) }

  /** What minspace becomes for a request that does not fit. */
  function Bump(minspace: nat, size: nat): (m: nat) {
    if minspace < size then size + WORD else minspace
  }

  predicate InSpace(p: int, sp: Space) { sp.bot <= p < sp.top }

  predicate InChain(chain: seq<Space>, p: int) {
    exists i :: 0 <= i < |chain| && InSpace(p, chain[i])
  }

  function Used(chain: seq<Space>): int {
    if chain == [] then 0
    else Used(chain[..|chain| - 1]) + chain[|chain| - 1].current - chain[|chain| - 1].bot
  }

  // ----- reachability

  ghost predicate IsPath<P>(h: Store<P>, roots: seq<int>, path: seq<int>) {
    && path != [] && path[0] in roots
    && (forall i | 0 <= i < |path| :: path[i] in h)
    && (forall i | 0 <= i < |path| - 1 :: path[i + 1] in h[path[i]].fields)
  }

  ghost predicate Reachable<P>(h: Store<P>, roots: seq<int>, p: int) {
    exists path :: IsPath(h, roots, path) && path[|path| - 1] == p
  }

  ghost function ReachSet<P>(h: Store<P>, roots: seq<int>): set<int> {
    set p | p in h && Reachable(h, roots, p)
  }

  lemma RootReachable<P>(h: Store<P>, roots: seq<int>, p: int)
    requires p in roots && p in h
    ensures Reachable(h, roots, p)
  {
    assert IsPath(h, roots, [p]);
  }

  lemma FieldReachable<P>(h: Store<P>, roots: seq<int>, p: int, q: int)
    requires Reachable(h, roots, p) && p in h && q in h && q in h[p].fields
    ensures Reachable(h, roots, q)
  {
    var path :| IsPath(h, roots, path) && path[|path| - 1] == p;
    var longer := path + [q];
    assert IsPath(h, roots, longer) && longer[|longer| - 1] == q;
  }

  /** A set that holds the roots and is closed under fields holds all that is reachable. */
  lemma {:induction false} PathStaysInside<P>(h: Store<P>, roots: seq<int>, s: set<int>, path: seq<int>)
    requires IsPath(h, roots, path)
    requires forall r | r in roots && r in h :: r in s
    requires forall p, q | p in s && p in h && q in h[p].fields && q in h :: q in s
    ensures path[|path| - 1] in s
  {
    if |path| == 1 {
      var r := path[0];
      assert r in roots && r in h;
      assert r in s;
    } else {
      var shorter := path[..|path| - 1];
      assert IsPath(h, roots, shorter);
      PathStaysInside(h, roots, s, shorter);
      assert path[|path| - 1] in h[shorter[|shorter| - 1]].fields;
    }
  }

  lemma ClosedContainsReachable<P>(h: Store<P>, roots: seq<int>, s: set<int>)
    requires forall r | r in roots && r in h :: r in s
    requires forall p, q | p in s && p in h && q in h[p].fields && q in h :: q in s
    ensures ReachSet(h, roots) <= s
  {
    forall p | p in ReachSet(h, roots)
      ensures p in s
    {
      var path :| IsPath(h, roots, path) && path[|path| - 1] == p;
      PathStaysInside(h, roots, s, path);
    }
  }

  // ----- sizes

  /** Sizes are rounded up to whole words. */
  lemma AlignIsLeast(n: nat, m: nat)
    ensures Align(n) % WORD == 0 && n <= Align(n)
    ensures m % WORD == 0 && n <= m ==> Align(n) <= m
  {
  }

  lemma NonEmpty(s: set<int>)
    ensures s != {} ==> exists p :: p in s
  {
    assert (forall p :: p !in s) ==> s == {};
  }

  /** Bytes that the objects in s take up together. */
  ghost function Footprint<P>(h: Store<P>, s: set<int>): nat
    requires s <= h.Keys
  {
    if s == {} then 0
    else
      NonEmpty(s);
      var p :| p in s;
      Weight(h[p].size) + Footprint(h, s - {p})
  }

  lemma {:induction false} FootprintRemove<P>(h: Store<P>, s: set<int>, p: int)
    requires s <= h.Keys && p in s
    ensures Footprint(h, s) == Weight(h[p].size) + Footprint(h, s - {p})
  {
    var q :| q in s && Footprint(h, s) == Weight(h[q].size) + Footprint(h, s - {q});
    if q != p {
      FootprintRemove(h, s - {q}, p);
      FootprintRemove(h, s - {p}, q);
      assert s - {q} - {p} == s - {p} - {q};
    }
  }

  lemma {:induction false} FootprintMonotone<P>(h: Store<P>, s: set<int>, t: set<int>)
    requires s <= t <= h.Keys
    ensures Footprint(h, s) <= Footprint(h, t)
  {
    if s == {} {
    } else {
      NonEmpty(s);
      var p :| p in s;
      FootprintRemove(h, s, p);
      FootprintRemove(h, t, p);
      FootprintMonotone(h, s - {p}, t - {p});
    }
  }

  /** A size-preserving bijection keeps the footprint. */
  lemma {:induction false} FootprintMapped<P>(h: Store<P>, s: set<int>, h': Store<P>, s': set<int>, f: map<int, int>)
    requires s <= h.Keys && s' <= h'.Keys && s <= f.Keys
    requires forall p | p in s :: f[p] in s' && h'[f[p]].size == h[p].size
    requires forall p, q | p in s && q in s && p != q :: f[p] != f[q]
    requires forall n | n in s' :: exists p :: p in s && f[p] == n
    ensures Footprint(h, s) == Footprint(h', s')
  {
    if s == {} {
      NonEmpty(s');
    } else {
      NonEmpty(s);
      var p :| p in s;
      forall n | n in s' - {f[p]}
        ensures exists q :: q in s - {p} && f[q] == n
      {
        var q :| q in s && f[q] == n;
      }
      FootprintRemove(h, s, p);
      FootprintRemove(h', s', f[p]);
      FootprintMapped(h, s - {p}, h', s' - {f[p]}, f);
    }
  }
}
