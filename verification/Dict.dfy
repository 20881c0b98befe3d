/** src/dict.c: open addressing with tombstones, growth by rehash and a backward
    tombstone sweep on removal.  A table is proved to agree with a finite map
    (`Contents`) after any sequence of operations, for every hash function. */
module Dictionary {
  import opened Options

  datatype Slot<+K, +V> = Empty | Dead | Live(name: K, value: V)

  /** The macro REMAIN: how many slots may be filled before growing. */
  function RemainOf(n: nat): nat { n * 2 / 3 }

  ghost predicate IsPowerOfTwo(n: nat)
    decreases n
  {
    n == 1 || (n > 1 && n % 2 == 0 && IsPowerOfTwo(n / 2))
  }

  /** The number of slots that are not empty; tombstones count. */
  ghost function Filled<K, V>(t: seq<Slot<K, V>>): nat {
    if t == [] then 0 else Filled(t[..|t| - 1]) + if t[|t| - 1].Empty? then 0 else 1
  }

  ghost function LiveCount<K, V>(t: seq<Slot<K, V>>): nat {
    if t == [] then 0 else LiveCount(t[..|t| - 1]) + if t[|t| - 1].Live? then 1 else 0
  }

  /** The slot after i on a ring of n slots: `(i + 1) & mask`. */
  function Next(i: nat, n: nat): (r: nat)
    requires i < n
  {
    if i + 1 == n then 0 else i + 1
  }

  function Prev(i: nat, n: nat): (r: nat)
    requires i < n
  {
    if i == 0 then n - 1 else i - 1
  }

  /** j lies on the walk that starts at h and stops before i. */
  ghost predicate OnWalk(h: nat, j: nat, i: nat) {
    if h <= i then h <= j < i else h <= j || j < i
  }

  /** The number of steps from i forward to e. */
  ghost function Distance(i: nat, e: nat, n: nat): int {
    if i <= e then e - i else n - i + e
  }

  lemma WalkStarts(h: nat)
    ensures forall j: nat :: !OnWalk(h, j, h)
  {
  }

  /** One more step of a walk that ends at e at the latest. */
  lemma WalkGoesOn(h: nat, e: nat, i: nat, n: nat)
    requires h < n && e < n && i < n && i != e && !OnWalk(h, e, i)
    ensures !OnWalk(h, e, Next(i, n)) && 0 <= Distance(Next(i, n), e, n) < Distance(i, e, n)
    ensures forall j | 0 <= j < n :: OnWalk(h, j, Next(i, n)) <==> OnWalk(h, j, i) || j == i
  {
  }

  function Home<K>(hash: K -> nat, name: K, n: nat): (h: nat)
    requires n > 0
    ensures h < n
  {
    hash(name) % n
  }

  /** No empty slot lies on the probe walk from a live name's home to its slot. */
  ghost predicate Chained<K, V>(hash: K -> nat, t: seq<Slot<K, V>>)
    requires |t| > 0
  {
    forall i, j | 0 <= i < |t| && 0 <= j < |t| && t[i].Live? && OnWalk(Home(hash, t[i].name, |t|), j, i)
      :: !t[j].Empty?
  }

  ghost predicate Distinct<K, V>(t: seq<Slot<K, V>>) {
    forall i, j | 0 <= i < j < |t| && t[i].Live? && t[j].Live? :: t[i].name != t[j].name
  }

  /** Every maximal run of tombstones is followed by a live slot: a run in front
      of an empty slot would have been swept. */
  ghost predicate Swept<K, V>(t: seq<Slot<K, V>>) {
    forall i | 0 <= i < |t| && t[i].Dead? :: !t[Next(i, |t|)].Empty?
  }

  /** The live slots are exactly the bindings of m. */
  ghost predicate Agrees<K, V>(t: seq<Slot<K, V>>, m: map<K, V>) {
    && (forall i | 0 <= i < |t| && t[i].Live? :: t[i].name in m && m[t[i].name] == t[i].value)
    && (forall k | k in m :: exists i :: 0 <= i < |t| && t[i].Live? && t[i].name == k)
  }

  ghost predicate Inv<K, V>(hash: K -> nat, t: seq<Slot<K, V>>, remain: int, m: map<K, V>) {
    && |t| >= 2 && IsPowerOfTwo(|t|)
    && remain >= 1 && remain + Filled(t) == RemainOf(|t|)
    && Chained(hash, t) && Distinct(t) && Swept(t) && Agrees(t, m)
  }

  // ----- counting

  lemma {:induction false} FilledUpdate<K, V>(t: seq<Slot<K, V>>, i: nat, s: Slot<K, V>)
    requires i < |t|
    ensures Filled(t[i := s]) == Filled(t) - (if t[i].Empty? then 0 else 1) + (if s.Empty? then 0 else 1)
  {
    var u := t[i := s];
    if i == |t| - 1 {
      assert u[..|t| - 1] == t[..|t| - 1];
    } else {
      FilledUpdate(t[..|t| - 1], i, s);
      assert u[..|t| - 1] == t[..|t| - 1][i := s];
    }
  }

  lemma {:induction false} EmptySlotExists<K, V>(t: seq<Slot<K, V>>) returns (e: nat)
    requires Filled(t) < |t|
    ensures e < |t| && t[e].Empty?
  {
    if t[|t| - 1].Empty? {
      e := |t| - 1;
    } else {
      e := EmptySlotExists(t[..|t| - 1]);
    }
  }

  lemma {:induction false} AllEmptyFilled<K, V>(t: seq<Slot<K, V>>)
    requires forall i | 0 <= i < |t| :: t[i].Empty?
    ensures Filled(t) == 0
  {
    if t != [] {
      AllEmptyFilled(t[..|t| - 1]);
    }
  }

  lemma {:induction false} LiveAtMostFilled<K, V>(t: seq<Slot<K, V>>, i: nat)
    requires i <= |t|
    ensures LiveCount(t[..i]) <= LiveCount(t) <= Filled(t)
    decreases |t|
  {
    if i < |t| {
      LiveAtMostFilled(t[..|t| - 1], i);
      assert t[..|t| - 1][..i] == t[..i];
    } else {
      assert t[..i] == t;
      if t != [] {
        LiveAtMostFilled(t[..|t| - 1], |t| - 1);
      }
    }
  }

  lemma AgreesExtend<K, V>(a: seq<Slot<K, V>>, s: Slot<K, V>, m: map<K, V>)
    requires Agrees(a, m) && Distinct(a + [s])
    ensures s.Live? ==> s.name !in m && Agrees(a + [s], m[s.name := s.value])
    ensures !s.Live? ==> Agrees(a + [s], m)
  {
    var u := a + [s];
    forall k | k in m
      ensures exists j :: 0 <= j < |u| && u[j].Live? && u[j].name == k
    {
      var j :| 0 <= j < |a| && a[j].Live? && a[j].name == k;
      assert u[j] == a[j];
    }
    if s.Live? {
      assert u[|a|] == s;
      forall j | 0 <= j < |a| && a[j].Live?
        ensures a[j].name != s.name
      {
        assert u[j] == a[j];
      }
    }
  }

  /** One step of the rehash loop: what has been copied agrees with the slots read. */
  lemma RehashStep<K, V>(t: seq<Slot<K, V>>, i: nat, m: map<K, V>)
    requires i < |t| && Distinct(t) && Agrees(t[..i], m)
    ensures LiveCount(t[..i + 1]) == LiveCount(t[..i]) + if t[i].Live? then 1 else 0
    ensures LiveCount(t[..i + 1]) <= Filled(t)
    ensures t[i].Live? ==> t[i].name !in m && Agrees(t[..i + 1], m[t[i].name := t[i].value])
    ensures !t[i].Live? ==> Agrees(t[..i + 1], m)
  {
    hide Agrees, Distinct, Filled;
    LiveAtMostFilled(t, i + 1);
    assert t[..i + 1][..i] == t[..i];
    assert t[..i + 1] == t[..i] + [t[i]];
    DistinctPrefix(t, i + 1);
    AgreesExtend(t[..i], t[i], m);
  }

  lemma DistinctPrefix<K, V>(t: seq<Slot<K, V>>, i: nat)
    requires Distinct(t) && i <= |t|
    ensures Distinct(t[..i])
  {
  }

  lemma AgreementIsUnique<K, V>(t: seq<Slot<K, V>>, m: map<K, V>, m': map<K, V>)
    requires Agrees(t, m) && Agrees(t, m')
    ensures m == m'
  {
  }

  /** A table that satisfies the invariant always has a slot where every probe and
      sweep loop can stop. */
  lemma ProbesStop<K, V>(hash: K -> nat, t: seq<Slot<K, V>>, remain: int, m: map<K, V>) returns (e: nat)
    requires Inv(hash, t, remain, m)
    ensures e < |t| && t[e].Empty?
  {
    e := EmptySlotExists(t);
  }

  /** A table in use is never more than two thirds full, and it grows exactly when two more
      slots than are filled would make it so. */
  lemma GrowsExactly<K, V>(hash: K -> nat, t: seq<Slot<K, V>>, remain: int, m: map<K, V>)
    requires Inv(hash, t, remain, m)
    ensures 3 * (Filled(t) + 1) <= 2 * |t|
    ensures remain <= 1 <==> 3 * (Filled(t) + 2) > 2 * |t|
  {
  }

  /** With no binding left there is no tombstone left, and the whole budget is back. */
  lemma EmptyMapFullBudget<K, V>(hash: K -> nat, t: seq<Slot<K, V>>, remain: int)
    requires Inv(hash, t, remain, map[])
    ensures forall i | 0 <= i < |t| :: t[i].Empty?
    ensures remain == RemainOf(|t|)
  {
    var e := ProbesStop(hash, t, remain, map[]);
    var i := e;
    var done := 0;
    while done < |t|
      invariant 0 <= i < |t| && t[i].Empty? && 0 <= done <= |t|
      invariant i == if done <= e then e - done else e - done + |t|
      invariant forall j | 0 <= j < |t| && OnWalk(i, j, e) :: t[j].Empty?
      invariant done == |t| ==> forall j | 0 <= j < |t| :: t[j].Empty?
    {
      var p := Prev(i, |t|);
      assert Next(p, |t|) == i;
      assert !t[p].Dead? && !t[p].Live?;
      i, done := p, done + 1;
    }
    AllEmptyFilled(t);
  }

  // ----- what put and rm do to the invariant

  /** The first slot on the walk from a name's home that is free: a tombstone, or empty. */
  ghost predicate FirstFree<K, V>(hash: K -> nat, t: seq<Slot<K, V>>, name: K, i: nat) {
    && i < |t| && !t[i].Live?
    && forall j | 0 <= j < |t| && OnWalk(Home(hash, name, |t|), j, i) :: t[j].Live?
  }

  lemma StoreKeepsInv<K, V>(hash: K -> nat, t: seq<Slot<K, V>>, remain: int, m: map<K, V>,
                            i: nat, name: K, value: V)
    requires Inv(hash, t, remain, m) && remain >= 2 && name !in m
    requires FirstFree(hash, t, name, i)
    ensures Inv(hash, t[i := Live(name, value)], remain - (if t[i].Empty? then 1 else 0), m[name := value])
  {
    var u := t[i := Live(name, value)];
    var m' := m[name := value];
    FilledUpdate(t, i, Live(name, value));
    forall k | k in m'
      ensures exists j :: 0 <= j < |u| && u[j].Live? && u[j].name == k
    {
      if k == name {
        assert u[i].Live? && u[i].name == k;
      } else {
        var j :| 0 <= j < |t| && t[j].Live? && t[j].name == k;
        assert u[j] == t[j];
      }
    }
  }

  lemma OverwriteKeepsInv<K, V>(hash: K -> nat, t: seq<Slot<K, V>>, remain: int, m: map<K, V>, i: nat, value: V)
    requires Inv(hash, t, remain, m)
    requires i < |t| && t[i].Live?
    ensures Inv(hash, t[i := Live(t[i].name, value)], remain, m[t[i].name := value])
  {
    var name := t[i].name;
    var u := t[i := Live(name, value)];
    FilledUpdate(t, i, Live(name, value));
    var m' := m[name := value];
    forall k | k in m'
      ensures exists j :: 0 <= j < |u| && u[j].Live? && u[j].name == k
    {
      var j :| 0 <= j < |t| && t[j].Live? && t[j].name == k;
      assert u[j].Live? && u[j].name == k;
    }
  }

  /** Only tombstones lie strictly between slot i and slot n. */
  ghost predicate Run<K, V>(t: seq<Slot<K, V>>, i: nat, n: nat)
    requires i < |t|
  {
    forall j | 0 <= j < |t| && OnWalk(Next(i, |t|), j, n) :: t[j].Dead?
  }

  /** A removed slot u[idx], whose tombstone run (n, e) before the empty slot e is
      cleared: `swept` differs from the old table t there only. */
  ghost predicate SweptFrom<K, V>(t: seq<Slot<K, V>>, idx: nat, n: nat, e: nat, u: seq<Slot<K, V>>)
    requires idx < |t| && n < |t| && e < |t|
  {
    && |u| == |t|
    && t[e].Empty?
    && forall j | 0 <= j < |t| ::
         if OnWalk(Next(n, |t|), j, e) then u[j].Empty? && (j == idx || t[j].Dead?)
         else u[j] == if j == idx then Dead else t[j]
  }

  lemma RemoveKeepsMap<K, V>(t: seq<Slot<K, V>>, u: seq<Slot<K, V>>, idx: nat, m: map<K, V>)
    requires Agrees(t, m) && Distinct(t)
    requires |u| == |t| && idx < |t| && t[idx].Live? && !u[idx].Live?
    requires forall j | 0 <= j < |t| && j != idx :: u[j] == t[j] || (t[j].Dead? && u[j].Empty?)
    ensures Agrees(u, m - {t[idx].name}) && Distinct(u)
  {
    forall k | k in m - {t[idx].name}
      ensures exists j :: 0 <= j < |u| && u[j].Live? && u[j].name == k
    {
      var j :| 0 <= j < |t| && t[j].Live? && t[j].name == k;
      assert u[j] == t[j];
    }
  }

  lemma SweepKeepsChains<K, V>(hash: K -> nat, t: seq<Slot<K, V>>, idx: nat, n: nat, e: nat, u: seq<Slot<K, V>>)
    requires |t| > 0 && Chained(hash, t)
    requires idx < |t| && n < |t| && e < |t| && SweptFrom(t, idx, n, e, u)
    ensures Chained(hash, u)
  {
    forall i, j | 0 <= i < |u| && 0 <= j < |u| && u[i].Live? && OnWalk(Home(hash, u[i].name, |u|), j, i)
      ensures !u[j].Empty?
    {
      assert t[i] == u[i];
      // a walk to i through a cleared j would also pass the empty slot e
      var h := Home(hash, t[i].name, |t|);
      assert OnWalk(Next(n, |t|), j, e) ==> OnWalk(h, e, i);
    }
  }

  lemma SweepKeepsSwept<K, V>(t: seq<Slot<K, V>>, idx: nat, n: nat, e: nat, u: seq<Slot<K, V>>)
    requires Swept(t)
    requires idx < |t| && n < |t| && e < |t| && SweptFrom(t, idx, n, e, u)
    requires !u[n].Dead?
    requires !OnWalk(Next(n, |t|), idx, e) ==> !t[Next(idx, |t|)].Empty?
    ensures Swept(u)
  {
    forall i | 0 <= i < |u| && u[i].Dead?
      ensures !u[Next(i, |u|)].Empty?
    {
      var k := Next(i, |u|);
      assert !OnWalk(Next(n, |t|), i, e);
      assert i != n;
      assert k != e && !OnWalk(Next(n, |t|), k, e);
    }
  }

  lemma BuryKeepsSwept<K, V>(t: seq<Slot<K, V>>, i: nat, n: nat)
    requires Swept(t)
    requires i < |t| && t[i].Live? && n < |t| && n != i && t[n].Live? && Run(t[i := Dead], i, n)
    ensures Swept(t[i := Dead])
  {
    var u := t[i := Dead];
    var k := Next(i, |t|);
    assert u[k].Live? || u[k].Dead?;
  }

  /** A tombstone whose run is followed by a live slot n keeps the invariant as it is. */
  lemma BuryKeepsInv<K, V>(hash: K -> nat, t: seq<Slot<K, V>>, remain: int, m: map<K, V>, i: nat, n: nat)
    requires Inv(hash, t, remain, m)
    requires i < |t| && t[i].Live? && n < |t| && n != i && t[n].Live?
    requires Run(t[i := Dead], i, n)
    ensures Inv(hash, t[i := Dead], remain, m - {t[i].name})
  {
    FilledUpdate(t, i, Dead);
    BuryKeepsSwept(t, i, n);
    RemoveKeepsMap(t, t[i := Dead], i, m);
  }

  /** One step of the backward sweep. */
  lemma SweepStep<K, V>(t: seq<Slot<K, V>>, idx: nat, n: nat, e: nat, u: seq<Slot<K, V>>)
    requires idx < |t| && n < |t| && e < |t| && SweptFrom(t, idx, n, e, u)
    requires t[idx].Live? && u[n].Dead?
    ensures n != e && SweptFrom(t, idx, Prev(n, |t|), e, u[n := Empty])
    ensures Distance(e, Prev(n, |t|), |t|) < Distance(e, n, |t|)
    ensures Filled(u[n := Empty]) == Filled(u) - 1
  {
    FilledUpdate(u, n, Empty);
    assert Next(Prev(n, |t|), |t|) == n;
  }

  lemma SweepReachesBuried<K, V>(t: seq<Slot<K, V>>, idx: nat, n: nat, e: nat, u: seq<Slot<K, V>>)
    requires idx < |t| && n < |t| && e < |t| && SweptFrom(t, idx, n, e, u)
    requires !u[n].Dead? && Run(t[idx := Dead], idx, e)
    ensures !OnWalk(Next(n, |t|), idx, e) ==> !t[Next(idx, |t|)].Empty?
  {
    var k := Next(idx, |t|);
    assert t[idx := Dead][k] == if k == idx then Dead else t[k];
  }

  lemma SweepKeepsInv<K, V>(hash: K -> nat, t: seq<Slot<K, V>>, remain: int, m: map<K, V>,
                            idx: nat, n: nat, e: nat, u: seq<Slot<K, V>>, remain': int)
    requires Inv(hash, t, remain, m)
    requires idx < |t| && n < |t| && e < |t| && t[idx].Live? && SweptFrom(t, idx, n, e, u)
    requires !u[n].Dead?
    requires Run(t[idx := Dead], idx, e)
    requires remain' >= 1 && remain' + Filled(u) == RemainOf(|t|)
    ensures Inv(hash, u, remain', m - {t[idx].name})
  {
    SweepKeepsChains(hash, t, idx, n, e, u);
    SweepReachesBuried(t, idx, n, e, u);
    SweepKeepsSwept(t, idx, n, e, u);
    RemoveKeepsMap(t, u, idx, m);
  }

  // ----- the table

  class Dict<K(==, !new), V(!new)> {
    ghost var Contents: map<K, V>
    const hash: K -> nat
    const table: array<Slot<K, V>>
    var remain: int

    ghost predicate Valid()
      reads this, table
    {
      Inv(hash, table[..], remain, Contents)
    }

    /** mkdict0 */
    constructor (hash: K -> nat, size: nat)
      requires size >= 2 && IsPowerOfTwo(size)
      ensures Valid() && fresh(table) && this.hash == hash && table.Length == size
      ensures Contents == map[] && remain == RemainOf(size)
      ensures forall i | 0 <= i < size :: table[i].Empty?
    {
      this.hash := hash;
      table := new Slot[size](_ => Empty);
      remain := RemainOf(size);
      Contents := map[];
      new;
      AllEmptyFilled(table[..]);
    }

    /** get: the slot of a live name, or -1 for NULL. */
    method Get(name: K) returns (at: int)
      requires Valid()
      ensures name in Contents ==> 0 <= at < table.Length && table[at] == Live(name, Contents[name])
      ensures name !in Contents ==> at == -1
    {
      ghost var e := ProbesStop(hash, table[..], remain, Contents);
      var n := Home(hash, name, table.Length);
      while !table[n].Empty?
        invariant 0 <= n < table.Length
        invariant !OnWalk(Home(hash, name, table.Length), e, n)
        invariant forall j | 0 <= j < table.Length && OnWalk(Home(hash, name, table.Length), j, n) ::
                    table[j].Live? ==> table[j].name != name
        decreases Distance(n, e, table.Length)
      {
        if table[n].Live? && table[n].name == name {
          assert table[..][n] == table[n];
          return n;
        }
        n := Next(n, table.Length);
      }
      forall i | 0 <= i < table.Length && table[i].Live?
        ensures table[i].name != name
      {
        assert table[..][i].Live? && table[..][n].Empty?;
      }
      return -1;
    }

    /** put: add a name that is not bound; a growing table is replaced by the result. */
    method Put(name: K, value: V) returns (r: Dict<K, V>)
      requires Valid() && name !in Contents
      modifies this, table
      ensures r.Valid() && r.hash == hash && r.Contents == old(Contents)[name := value]
      ensures old(remain) > 1 ==> r == this && r.remain >= old(remain) - 1
      ensures old(remain) <= 1 ==> fresh(r) && fresh(r.table) && r.table.Length == 2 * table.Length
                                   && unchanged(this) && unchanged(table)
      decreases if remain <= 1 then 1 else 0, 1
    {
      r := this;
      if remain <= 1 {
        r := Rehash();
      }
      ghost var at := r.Insert(name, value);
    }

    /** The second half of put: the name goes to the first free slot from home on, and only an
        empty slot is taken off the budget. */
    method Insert(name: K, value: V) returns (ghost at: nat)
      requires Valid() && name !in Contents && remain >= 2
      modifies this, table
      ensures Valid() && Contents == old(Contents)[name := value]
      ensures FirstFree(hash, old(table[..]), name, at) && table[..] == old(table[..])[at := Live(name, value)]
      ensures remain == old(remain) - if old(table[..])[at].Empty? then 1 else 0
    {
      hide Chained, Distinct, Swept, Agrees, IsPowerOfTwo, Filled, OnWalk, Distance;
      ghost var t := table[..];
      ghost var e := ProbesStop(hash, t, remain, Contents);
      WalkStarts(Home(hash, name, |t|));
      var n := Home(hash, name, table.Length);
      while !table[n].Dead?
        invariant 0 <= n < |t| && !OnWalk(Home(hash, name, |t|), e, n)
        invariant forall j | 0 <= j < |t| && OnWalk(Home(hash, name, |t|), j, n) :: t[j].Live?
        invariant table[..] == t && remain == old(remain) && Contents == old(Contents)
        decreases Distance(n, e, |t|)
      {
        assert t[n] == table[n];
        if table[n].Empty? {
          remain := remain - 1;
          break;
        }
        WalkGoesOn(Home(hash, name, |t|), e, n, |t|);
        n := Next(n, table.Length);
      }
      assert t[n] == table[n];
      at := n;
      StoreKeepsInv(hash, t, old(remain), Contents, n, name, value);
      table[n] := Live(name, value);
      Contents := Contents[name := value];
      assert table[..] == t[n := Live(name, value)];
    }

    /** mkdict0(GROW(size)) followed by dictforall(old, put, dnew); the result of
        each inner put is dropped, as dictforall drops it. */
    method Rehash() returns (d: Dict<K, V>)
      requires Valid() && remain <= 1
      ensures d.Valid() && fresh(d) && fresh(d.table) && d.hash == hash
      ensures d.Contents == Contents && d.table.Length == 2 * table.Length && d.remain >= 2
      decreases if remain <= 1 then 1 else 0, 0
    {
      d := new Dict(hash, 2 * table.Length);
      ghost var t := table[..];
      for i := 0 to table.Length
        invariant fresh(d) && fresh(d.table) && d.Valid() && d.hash == hash
        invariant d.table.Length == 2 * table.Length
        invariant d.remain >= RemainOf(2 * table.Length) - LiveCount(t[..i])
        invariant Agrees(t[..i], d.Contents)
      {
        RehashStep(t, i, d.Contents);
        if table[i].Live? {
          assert t[i] == table[i];
          var _ := d.Put(table[i].name, table[i].value);
        }
      }
      assert t[..table.Length] == t;
      LiveAtMostFilled(t, table.Length);
      AgreementIsUnique(t, Contents, d.Contents);
    }

    /** The forward loop of rm: the first slot after i that is not a tombstone. */
    method RunEnd(i: nat) returns (n: nat)
      requires i < table.Length && table[i].Dead?
      requires exists e :: 0 <= e < table.Length && table[e].Empty?
      ensures n < table.Length && n != i && !table[n].Dead?
      ensures Run(table[..], i, n)
    {
      ghost var e :| 0 <= e < table.Length && table[e].Empty?;
      n := Next(i, table.Length);
      while table[n].Dead?
        invariant 0 <= n < table.Length && !OnWalk(Next(i, table.Length), e, n)
        invariant forall j | 0 <= j < table.Length && OnWalk(Next(i, table.Length), j, n) :: table[j].Dead?
        decreases Distance(n, e, table.Length)
      {
        n := Next(n, table.Length);
      }
    }

    /** The backward loop of rm: clear the tombstones in front of the empty slot e. */
    method ClearRun(i: nat, e: nat, ghost t: seq<Slot<K, V>>) returns (ghost stop: nat)
      requires i < |t| == table.Length && t[i].Live? && table[..] == t[i := Dead]
      requires e < table.Length && table[e].Empty?
      modifies this`remain, table
      ensures stop < |t| && SweptFrom(t, i, stop, e, table[..]) && !table[stop].Dead?
      ensures remain >= old(remain) && remain + Filled(table[..]) == old(remain + Filled(table[..]))
    {
      var n := Prev(e, table.Length);
      while table[n].Dead?
        invariant 0 <= n < table.Length
        invariant remain >= old(remain) && remain + Filled(table[..]) == old(remain + Filled(table[..]))
        invariant SweptFrom(t, i, n, e, table[..])
        decreases Distance(e, n, table.Length)
      {
        SweepStep(t, i, n, e, table[..]);
        ghost var was := table[..];
        table[n] := Empty;
        assert table[..] == was[n := Empty];
        remain := remain + 1;
        n := Prev(n, table.Length);
      }
      stop := n;
    }

    /** rm: bury slot i; if its tombstone run ends at an empty slot, clear the run. */
    method Rm(i: nat)
      requires Valid() && i < table.Length && table[i].Live?
      modifies this, table
      ensures Valid() && Contents == old(Contents) - {old(table[i].name)}
    {
      hide Chained, Distinct, Swept, Agrees, IsPowerOfTwo, SweptFrom, Run;
      ghost var t := table[..];
      ghost var e0 := ProbesStop(hash, t, remain, Contents);
      assert t[i] == table[i];
      Contents := Contents - {table[i].name};
      table[i] := Dead;
      assert table[..] == t[i := Dead] && table[e0].Empty?;
      var n := RunEnd(i);
      assert n < |t| && table[n] == t[n];
      if !table[n].Empty? {
        BuryKeepsInv(hash, t, remain, old(Contents), i, n);
      } else {
        FilledUpdate(t, i, Dead);
        ghost var stop := ClearRun(i, n, t);
        SweepKeepsInv(hash, t, old(remain), old(Contents), i, stop, n, table[..], remain);
      }
    }

    /** dictget */
    method DictGet(name: K) returns (r: Option<V>)
      requires Valid()
      ensures r == if name in Contents then Some(Contents[name]) else None
    {
      var at := Get(name);
      r := if at == -1 then None else Some(table[at].value);
    }

    /** dictput: a NULL value removes the name. */
    method DictPut(name: K, value: Option<V>) returns (r: Dict<K, V>)
      requires Valid()
      modifies this, table
      ensures r.Valid() && r.hash == hash && (r == this || (fresh(r) && fresh(r.table)))
      ensures value.Some? ==> r.Contents == old(Contents)[name := value.value]
      ensures value.None? ==> r.Contents == old(Contents) - {name}
    {
      r := this;
      var at := Get(name);
      match value
      case Some(v) =>
        if at == -1 {
          r := Put(name, v);
        } else {
          ghost var t := table[..];
          OverwriteKeepsInv(hash, t, remain, Contents, at, v);
          table[at] := Live(name, v);
          assert table[..] == t[at := Live(name, v)];
          Contents := Contents[name := v];
        }
      case None =>
        if at != -1 {
          Rm(at);
        }
    }
  }

  // ----- whole runs

  datatype Op<+K, +V> = Store(name: K, value: V) | Delete(name: K)

  /** The finite map a sequence of operations stands for. */
  ghost function Apply<K, V>(ops: seq<Op<K, V>>): map<K, V> {
    if ops == [] then map[]
    else
      var m := Apply(ops[..|ops| - 1]);
      match ops[|ops| - 1]
      case Store(name, value) => m[name := value]
      case Delete(name) => m - {name}
  }

  /** Every run from mkdict() ends in a valid table that holds exactly the bindings of
      the run, however many growths and tombstones it went through. */
  method Replay<K(==, !new), V(!new)>(hash: K -> nat, ops: seq<Op<K, V>>) returns (d: Dict<K, V>)
    ensures d.Valid() && d.Contents == Apply(ops)
  {
    d := new Dict(hash, 2);
    for i := 0 to |ops|
      invariant fresh(d) && fresh(d.table) && d.Valid() && d.Contents == Apply(ops[..i])
    {
      assert ops[..i + 1][..i] == ops[..i];
      match ops[i]
      case Store(name, value) => d := d.DictPut(name, Some(value));
      case Delete(name) => d := d.DictPut(name, None);
    }
    assert ops[..|ops|] == ops;
  }
}
