/** src/fd.c: deferred descriptor operations and the list of reserved descriptors.
    The kernel table maps descriptor numbers to open files; `dup` may return any
    number that is not in use.  What a user command can see of the table (`View`) is
    everything open that the shell does not hold for itself. */
module FileDescriptors {
  import opened Options

  const UNREGISTERED := -999

  /** deftab entries; realfd is -1 for a deferred close. */
  datatype Defer = Defer(realfd: int, userfd: int)

  /** What a registered pointer points at: an entry's realfd, or a shell variable. */
  datatype Cell = Entry(at: nat) | Own(at: nat)

  datatype Reserve = Reserve(cell: Cell, closeonfork: bool)

  /** The kernel's table, the deferred entries, the shell's own variables for descriptors,
      and the list of registered cells. */
  datatype Table<+F> = Table(kernel: map<int, F>, deftab: seq<Defer>, own: seq<int>, reserved: seq<Reserve>)

  predicate HasCell<F>(t: Table<F>, c: Cell) {
    match c
    case Entry(i) => i < |t.deftab|
    case Own(i) => i < |t.own|
  }

  function Fetch<F>(t: Table<F>, c: Cell): int
    requires HasCell(t, c)
  {
    match c
    case Entry(i) => t.deftab[i].realfd
    case Own(i) => t.own[i]
  }

  function Store<F>(t: Table<F>, c: Cell, fd: int): Table<F>
    requires HasCell(t, c)
  {
    match c
    case Entry(i) => t.(deftab := t.deftab[i := t.deftab[i].(realfd := fd)])
    case Own(i) => t.(own := t.own[i := fd])
  }

  ghost predicate CellsOk<F>(t: Table<F>) {
    && (forall i | 0 <= i < |t.reserved| :: HasCell(t, t.reserved[i].cell))
    && (forall i, j | 0 <= i < j < |t.reserved| :: t.reserved[i].cell != t.reserved[j].cell)
  }

  /** What the i-th registered cell holds. */
  ghost function Held<F>(t: Table<F>, i: nat): int
    requires CellsOk(t) && i < |t.reserved|
  {
    Fetch(t, t.reserved[i].cell)
  }

  /** The descriptor number x is in some registered cell. */
  ghost predicate Holds<F>(t: Table<F>, x: int)
    requires CellsOk(t)
  {
    exists i :: 0 <= i < |t.reserved| && Held(t, i) == x
  }

  ghost predicate Registered(reserved: seq<Reserve>, c: Cell) {
    exists i :: 0 <= i < |reserved| && reserved[i].cell == c
  }

  /** Registered descriptors are open and all different (or negative, for none). */
  ghost predicate Sound<F>(t: Table<F>): (b: bool)
    ensures b ==> CellsOk(t) && -1 !in t.kernel
    ensures b ==> forall i | 0 <= i < |t.deftab| :: t.deftab[i].realfd >= -1 && t.deftab[i].userfd >= 0
  {
    && CellsOk(t)
    && (forall i | 0 <= i < |t.reserved| && Held(t, i) >= 0 :: Held(t, i) in t.kernel)
    && (forall i, j | 0 <= i < j < |t.reserved| && Held(t, i) >= 0 :: Held(t, i) != Held(t, j))
    && (forall x | x in t.kernel :: x >= 0)
    && (forall i | 0 <= i < |t.deftab| :: t.deftab[i].realfd >= -1 && t.deftab[i].userfd >= 0)
  }

  ghost function View<F>(t: Table<F>): map<int, F>
    requires CellsOk(t)
  {
    map x | x in t.kernel && !Holds(t, x) :: t.kernel[x]
  }

  /** The file behind a descriptor, None when it is negative or closed. */
  ghost function FileAt<F>(kernel: map<int, F>, fd: int): Option<F> {
    if fd in kernel then Some(kernel[fd]) else None
  }

  /** What one dup (Some file) or close (None) does to the user's table. */
  ghost function Put<F>(view: map<int, F>, userfd: int, file: Option<F>): map<int, F> {
    if file.Some? then view[userfd := file.value] else view - {userfd}
  }

  /** What the deferred entries [i..] do to the user's table, oldest first. */
  ghost function Settle<F>(view: map<int, F>, deftab: seq<Defer>, files: seq<Option<F>>, i: nat): map<int, F>
    requires |files| == |deftab| && i <= |deftab|
    decreases |deftab| - i
  {
    if i == |deftab| then view
    else Settle(Put(view, deftab[i].userfd, files[i]), deftab, files, i + 1)
  }

  /** The files the deferred entries stand for. */
  ghost function Files<F>(t: Table<F>): (r: seq<Option<F>>)
    ensures |r| == |t.deftab|
  {
    seq(|t.deftab|, i requires 0 <= i < |t.deftab| => FileAt(t.kernel, t.deftab[i].realfd))
  }

  /** The table that the user is going to have. */
  ghost function Settled<F>(t: Table<F>): map<int, F>
    requires CellsOk(t)
  {
    Settle(View(t), t.deftab, Files(t), 0)
  }

  /** The deferred entries from the given one on, and no others, are on the reserved list. */
  ghost predicate Pending<F>(t: Table<F>, from: nat) {
    forall i | 0 <= i < |t.deftab| :: Registered(t.reserved, Entry(i)) <==> from <= i
  }

  // ----- renumbering

  /** Registered cells still hold the same files, all other cells the same numbers. */
  ghost predicate CellsKept<F>(t: Table<F>, t': Table<F>) {
    && |t'.deftab| == |t.deftab| && |t'.own| == |t.own| && t'.reserved == t.reserved
    && (forall i | 0 <= i < |t.deftab| :: t'.deftab[i].userfd == t.deftab[i].userfd)
    && (forall c | HasCell(t, c) && HasCell(t', c) ::
          if Registered(t.reserved, c) then FileAt(t'.kernel, Fetch(t', c)) == FileAt(t.kernel, Fetch(t, c))
          else Fetch(t', c) == Fetch(t, c))
  }

  /** Two states that differ only in which numbers the registered cells use: the
      user sees the same table and every registered cell still holds its file. */
  ghost predicate Renumbered<F>(t: Table<F>, t': Table<F>) {
    Sound(t) && Sound(t') && View(t') == View(t) && CellsKept(t, t')
  }

  lemma CellsKeptTwice<F>(t0: Table<F>, t1: Table<F>, t2: Table<F>)
    requires CellsKept(t0, t1) && CellsKept(t1, t2)
    ensures CellsKept(t0, t2)
  {
    forall c | HasCell(t0, c) && HasCell(t2, c)
      ensures if Registered(t0.reserved, c) then FileAt(t2.kernel, Fetch(t2, c)) == FileAt(t0.kernel, Fetch(t0, c))
              else Fetch(t2, c) == Fetch(t0, c)
    {
      assert HasCell(t1, c);
    }
  }

  lemma RenumberedTwice<F>(t0: Table<F>, t1: Table<F>, t2: Table<F>)
    requires Renumbered(t0, t1) && Renumbered(t1, t2)
    ensures Renumbered(t0, t2)
  {
    CellsKeptTwice(t0, t1, t2);
  }

  /** What the user could read before is still there. */
  lemma SameFile<F>(t: Table<F>, t': Table<F>, fd: int)
    requires Renumbered(t, t')
    requires fd == -1 || (fd in t.kernel && !Holds(t, fd))
    ensures fd == -1 || (fd in t'.kernel && !Holds(t', fd))
    ensures FileAt(t'.kernel, fd) == FileAt(t.kernel, fd) && -1 !in t'.kernel
  {
    if fd != -1 {
      assert fd in View(t);
    }
  }

  lemma StoreFetches<F>(t: Table<F>, m: nat, y: int)
    requires CellsOk(t) && m < |t.reserved|
    ensures var t' := Store(t, t.reserved[m].cell, y);
            CellsOk(t') && forall i | 0 <= i < |t.reserved| :: Held(t', i) == if i == m then y else Held(t, i)
  {
    var t' := Store(t, t.reserved[m].cell, y);
    forall i | 0 <= i < |t.reserved|
      ensures HasCell(t', t.reserved[i].cell)
      ensures Fetch(t', t.reserved[i].cell) == if i == m then y else Held(t, i)
    {
      assert i != m ==> t.reserved[i].cell != t.reserved[m].cell;
    }
  }

  /** How storing y into the one cell m that holds n changes what the cells hold. */
  lemma StoreHolds<F>(t: Table<F>, m: nat, n: int, y: int)
    requires CellsOk(t) && m < |t.reserved| && Held(t, m) == n != y
    requires forall i | 0 <= i < |t.reserved| && i != m :: Held(t, i) != n
    ensures var t' := Store(t, t.reserved[m].cell, y);
            CellsOk(t') && forall x :: Holds(t', x) <==> x != n && (x == y || Holds(t, x))
  {
    var t' := Store(t, t.reserved[m].cell, y);
    StoreFetches(t, m, y);
    forall x
      ensures Holds(t', x) <==> x != n && (x == y || Holds(t, x))
    {
      if i :| 0 <= i < |t.reserved| && Held(t, i) == x && x != n {
        assert Held(t', i) == x;
      }
      if i :| 0 <= i < |t.reserved| && Held(t', i) == x {
        assert x != y ==> Held(t, i) == x;
      }
      assert Held(t', m) == y;
    }
  }

  /** The body of releasefd for the one cell that holds n: the file moves to y. */
  lemma MoveCell<F>(t: Table<F>, m: nat, y: int, t': Table<F>)
    requires Sound(t) && m < |t.reserved| && Held(t, m) >= 0
    requires y >= 0 && y !in t.kernel
    requires t' == Store(t, t.reserved[m].cell, y).(kernel := t.kernel[y := t.kernel[Held(t, m)]] - {Held(t, m)})
    ensures Renumbered(t, t') && !Holds(t', Held(t, m))
  {
    var n := Held(t, m);
    StoreFetches(t, m, y);
    StoreHolds(t, m, n, y);
    SameHolds(Store(t, t.reserved[m].cell, y), t');
    assert Holds(t, n);
    MovedCells(t, m, y, t');
  }

  /** What the cells hold does not depend on the kernel's table. */
  lemma SameHolds<F>(t: Table<F>, t': Table<F>)
    requires CellsOk(t) && t' == t.(kernel := t'.kernel)
    ensures CellsOk(t') && (forall i | 0 <= i < |t.reserved| :: Held(t', i) == Held(t, i))
    ensures forall x :: Holds(t', x) <==> Holds(t, x)
  {
    forall x
      ensures Holds(t', x) <==> Holds(t, x)
    {
      if i :| 0 <= i < |t.reserved| && Held(t, i) == x {
        assert Held(t', i) == x;
      }
      if i :| 0 <= i < |t.reserved| && Held(t', i) == x {
        assert Held(t, i) == x;
      }
    }
  }

  lemma MovedCells<F>(t: Table<F>, m: nat, y: int, t': Table<F>)
    requires Sound(t) && m < |t.reserved| && Held(t, m) >= 0
    requires y >= 0 && y !in t.kernel
    requires t' == Store(t, t.reserved[m].cell, y).(kernel := t.kernel[y := t.kernel[Held(t, m)]] - {Held(t, m)})
    ensures CellsKept(t, t')
  {
    var n := Held(t, m);
    forall c | HasCell(t, c) && HasCell(t', c)
      ensures if Registered(t.reserved, c) then FileAt(t'.kernel, Fetch(t', c)) == FileAt(t.kernel, Fetch(t, c))
              else Fetch(t', c) == Fetch(t, c)
    {
      if c != t.reserved[m].cell {
        assert Fetch(t', c) == Fetch(t, c);
        if i :| 0 <= i < |t.reserved| && t.reserved[i].cell == c {
          assert Held(t, i) == Fetch(t, c) && (Held(t, i) >= 0 ==> Held(t, i) != n);
        }
      }
    }
  }

  lemma NotAmongHeld<F>(t: Table<F>, x: int)
    requires CellsOk(t) && !Holds(t, x)
    ensures forall i | 0 <= i < |t.reserved| :: Held(t, i) != x
    ensures forall c | HasCell(t, c) && Registered(t.reserved, c) :: Fetch(t, c) != x
  {
    forall c | HasCell(t, c) && Registered(t.reserved, c)
      ensures Fetch(t, c) != x
    {
      var i :| 0 <= i < |t.reserved| && t.reserved[i].cell == c;
      assert Held(t, i) == Fetch(t, c);
    }
  }

  /** The two tables have the same open descriptors, but for some that no cell holds. */
  lemma OtherKernel<F>(t: Table<F>, kernel: map<int, F>, a: int, b: int)
    requires Sound(t) && !Holds(t, a) && (b == -1 || !Holds(t, b))
    requires forall x | x in kernel :: x >= 0
    requires forall x | x != a && x != b :: FileAt(kernel, x) == FileAt(t.kernel, x)
    ensures Sound(t.(kernel := kernel)) && CellsKept(t, t.(kernel := kernel))
  {
    var t' := t.(kernel := kernel);
    SameHolds(t, t');
    NotAmongHeld(t, a);
    if b != -1 {
      NotAmongHeld(t, b);
    }
    forall i | 0 <= i < |t.reserved| && Held(t, i) >= 0
      ensures Held(t, i) in kernel
    {
      assert FileAt(kernel, Held(t, i)) == FileAt(t.kernel, Held(t, i));
    }
    assert FileAt(t.kernel, -1) == None && FileAt(kernel, -1) == None;
  }

  /** dup2 and close on numbers that no registered cell holds. */
  lemma Overwrite<F>(t: Table<F>, realfd: int, userfd: int, kernel: map<int, F>)
    requires Sound(t) && userfd >= 0 && !Holds(t, userfd)
    requires realfd == -1 || (realfd in t.kernel && !Holds(t, realfd))
    requires kernel == Put(if realfd == userfd then t.kernel else t.kernel - {realfd}, userfd, FileAt(t.kernel, realfd))
    ensures var t' := t.(kernel := kernel);
            && Sound(t') && View(t') == Put(View(t) - {realfd}, userfd, FileAt(t.kernel, realfd))
            && CellsKept(t, t')
  {
    OtherKernel(t, kernel, userfd, realfd);
    hide Holds, CellsKept;
    SameHolds(t, t.(kernel := kernel));
  }

  // ----- the reserved list

  /** What the list becomes when cell c is taken off it: the last entry fills its place. */
  ghost predicate TakenOff(reserved: seq<Reserve>, c: Cell, rest: seq<Reserve>) {
    exists i :: 0 <= i < |reserved| && reserved[i].cell == c
                && rest == reserved[i := reserved[|reserved| - 1]][..|reserved| - 1]
  }

  /** Each place of the shorter list was a place of the longer one. */
  lemma TakeOffPlaces(reserved: seq<Reserve>, c: Cell, rest: seq<Reserve>) returns (at: nat)
    requires TakenOff(reserved, c, rest)
    ensures |reserved| == |rest| + 1 && at < |reserved| && reserved[at].cell == c
    ensures forall j | 0 <= j < |rest| :: rest[j] == reserved[if j == at then |rest| else j]
  {
    at :| at < |reserved| && reserved[at].cell == c
          && rest == reserved[at := reserved[|reserved| - 1]][..|reserved| - 1];
  }

  lemma TakeOffCells<F>(t: Table<F>, c: Cell, rest: seq<Reserve>)
    requires CellsOk(t) && TakenOff(t.reserved, c, rest)
    ensures CellsOk(t.(reserved := rest)) && HasCell(t, c) && Registered(t.reserved, c)
    ensures forall d :: Registered(rest, d) <==> d != c && Registered(t.reserved, d)
  {
    var at := TakeOffPlaces(t.reserved, c, rest);
    var t' := t.(reserved := rest);
    forall j | 0 <= j < |rest|
      ensures HasCell(t', rest[j].cell) && rest[j].cell != c
    {
      assert HasCell(t, t.reserved[if j == at then |rest| else j].cell);
    }
    forall d
      ensures Registered(rest, d) <==> d != c && Registered(t.reserved, d)
    {
      if d != c && Registered(t.reserved, d) {
        var j :| 0 <= j < |t.reserved| && t.reserved[j].cell == d;
        assert rest[if j == |rest| then at else j].cell == d;
      }
    }
  }

  /** Different cells hold different numbers. */
  lemma OneHolder<F>(t: Table<F>, c: Cell, d: Cell)
    requires Sound(t) && Registered(t.reserved, c) && Registered(t.reserved, d) && c != d
    ensures HasCell(t, c) && HasCell(t, d)
    ensures Fetch(t, c) >= 0 ==> Fetch(t, c) != Fetch(t, d)
  {
    var i :| 0 <= i < |t.reserved| && t.reserved[i].cell == c;
    var j :| 0 <= j < |t.reserved| && t.reserved[j].cell == d;
    assert Held(t, i) == Fetch(t, c) && Held(t, j) == Fetch(t, d);
  }

  lemma HeldIsOpen<F>(t: Table<F>, c: Cell)
    requires Sound(t) && Registered(t.reserved, c)
    ensures HasCell(t, c) && Holds(t, Fetch(t, c))
    ensures Fetch(t, c) >= 0 ==> Fetch(t, c) in t.kernel
    ensures forall x | x in t.kernel :: x >= 0
  {
    var i :| 0 <= i < |t.reserved| && t.reserved[i].cell == c;
    assert Held(t, i) == Fetch(t, c);
  }

  lemma HoldsCell<F>(t: Table<F>, x: int)
    requires CellsOk(t)
    ensures Holds(t, x) <==> exists c :: Registered(t.reserved, c) && HasCell(t, c) && Fetch(t, c) == x
  {
    if i :| 0 <= i < |t.reserved| && Held(t, i) == x {
      assert Registered(t.reserved, t.reserved[i].cell);
    }
    if c :| Registered(t.reserved, c) && HasCell(t, c) && Fetch(t, c) == x {
      var i :| 0 <= i < |t.reserved| && t.reserved[i].cell == c;
      assert Held(t, i) == x;
    }
  }

  lemma TakeOffHolds<F>(t: Table<F>, c: Cell, rest: seq<Reserve>, x: int)
    requires Sound(t) && TakenOff(t.reserved, c, rest) && x >= 0
    ensures CellsOk(t.(reserved := rest)) && HasCell(t, c)
    ensures Holds(t.(reserved := rest), x) <==> x != Fetch(t, c) && Holds(t, x)
  {
    hide Holds, Registered, TakenOff;
    var t' := t.(reserved := rest);
    TakeOffCells(t, c, rest);
    HoldsCell(t', x);
    HoldsCell(t, x);
    if d :| Registered(t.reserved, d) && HasCell(t, d) && Fetch(t, d) == x && d != c {
      OneHolder(t, d, c);
      assert HasCell(t', d) && Fetch(t', d) == x;
    }
    if d :| Registered(rest, d) && HasCell(t', d) && Fetch(t', d) == x {
      assert HasCell(t, d) && Fetch(t, d) == x;
    }
  }

  lemma TakeOffSound<F>(t: Table<F>, c: Cell, rest: seq<Reserve>)
    requires Sound(t) && TakenOff(t.reserved, c, rest)
    ensures Sound(t.(reserved := rest))
  {
    var t' := t.(reserved := rest);
    var at := TakeOffPlaces(t.reserved, c, rest);
    TakeOffCells(t, c, rest);
    assert forall j | 0 <= j < |rest| :: Held(t', j) == Held(t, if j == at then |rest| else j);
  }

  /** unregisterfd: the user sees the descriptor again, and all else as before. */
  lemma TakeOff<F>(t: Table<F>, c: Cell, rest: seq<Reserve>)
    requires Sound(t) && TakenOff(t.reserved, c, rest)
    ensures var t' := t.(reserved := rest);
            && Sound(t') && HasCell(t, c)
            && (forall d :: Registered(rest, d) <==> d != c && Registered(t.reserved, d))
            && var v := Fetch(t, c);
            && (v >= 0 ==> v in t.kernel && !Holds(t', v) && v !in View(t))
            && View(t') == (if v >= 0 then View(t)[v := t.kernel[v]] else View(t))
  {
    hide Registered, TakenOff, Holds, Fetch;
    var t' := t.(reserved := rest);
    TakeOffCells(t, c, rest);
    TakeOffSound(t, c, rest);
    HeldIsOpen(t, c);
    forall x | x >= 0
      ensures Holds(t', x) <==> x != Fetch(t, c) && Holds(t, x)
    {
      TakeOffHolds(t, c, rest, x);
    }
  }

  /** registerfd: the user does not see the descriptor any more. */
  lemma PutOn<F>(t: Table<F>, r: Reserve)
    requires Sound(t) && HasCell(t, r.cell) && !Registered(t.reserved, r.cell)
    requires var v := Fetch(t, r.cell); v == -1 || (v in t.kernel && !Holds(t, v))
    ensures var t' := t.(reserved := t.reserved + [r]);
            && Sound(t') && View(t') == View(t) - {Fetch(t, r.cell)}
            && (forall d :: Registered(t'.reserved, d) <==> d == r.cell || Registered(t.reserved, d))
            && (forall x :: Holds(t', x) <==> x == Fetch(t, r.cell) || Holds(t, x))
  {
    var t' := t.(reserved := t.reserved + [r]);
    var v := Fetch(t, r.cell);
    assert t'.reserved[|t.reserved|] == r;
    assert forall i | 0 <= i < |t.reserved| :: t'.reserved[i] == t.reserved[i];
    forall i | 0 <= i < |t.reserved|
      ensures t.reserved[i].cell != r.cell && (v >= 0 ==> Held(t, i) != v)
    {
    }
    assert CellsOk(t');
    assert Held(t', |t.reserved|) == v && forall i | 0 <= i < |t.reserved| :: Held(t', i) == Held(t, i);
    forall x
      ensures Holds(t', x) <==> x == v || Holds(t, x)
    {
      if j :| 0 <= j < |t.reserved| && Held(t, j) == x {
        assert Held(t', j) == x;
      }
    }
    forall d
      ensures Registered(t'.reserved, d) <==> d == r.cell || Registered(t.reserved, d)
    {
      if j :| 0 <= j < |t.reserved| && t.reserved[j].cell == d {
        assert t'.reserved[j].cell == d;
      }
    }
  }

  // ----- the deferred entries

  lemma SameFetch<F>(t: Table<F>, t': Table<F>)
    requires CellsOk(t) && CellsOk(t') && t' == t.(deftab := t'.deftab)
    requires t.deftab <= t'.deftab || t'.deftab <= t.deftab
    ensures forall i | 0 <= i < |t.reserved| :: Held(t', i) == Held(t, i)
    ensures forall x :: Holds(t', x) <==> Holds(t, x)
  {
    forall i | 0 <= i < |t.reserved|
      ensures Held(t', i) == Held(t, i)
    {
      assert HasCell(t, t.reserved[i].cell) && HasCell(t', t.reserved[i].cell);
    }
    forall x
      ensures Holds(t', x) <==> Holds(t, x)
    {
      if i :| 0 <= i < |t.reserved| && Held(t, i) == x {
        assert Held(t', i) == x;
      }
      if i :| 0 <= i < |t.reserved| && Held(t', i) == x {
        assert Held(t, i) == x;
      }
    }
  }

  lemma GrowKeeps<F>(t: Table<F>, d: Defer)
    requires Sound(t) && (d.realfd == -1 || d.realfd in t.kernel) && d.userfd >= 0
    ensures var t' := t.(deftab := t.deftab + [d]);
            && Sound(t') && View(t') == View(t) && !Registered(t.reserved, Entry(|t.deftab|))
            && (forall x :: Holds(t', x) <==> Holds(t, x))
  {
    var t' := t.(deftab := t.deftab + [d]);
    assert CellsOk(t');
    SameFetch(t, t');
  }

  /** deftab without its entries from n on, when these are not registered. */
  lemma ShrinkKeeps<F>(t: Table<F>, n: nat)
    requires Sound(t) && n <= |t.deftab| && forall i | n <= i < |t.deftab| :: !Registered(t.reserved, Entry(i))
    ensures var t' := t.(deftab := t.deftab[..n]); Sound(t') && View(t') == View(t) && forall x :: Holds(t', x) <==> Holds(t, x)
  {
    var t' := t.(deftab := t.deftab[..n]);
    forall i | 0 <= i < |t.reserved|
      ensures HasCell(t', t.reserved[i].cell)
    {
      assert Registered(t.reserved, t.reserved[i].cell);
    }
    SameFetch(t, t');
  }

  lemma CloseKeeps<F>(t: Table<F>, fd: int)
    requires Sound(t) && fd in t.kernel && !Holds(t, fd)
    ensures var t' := t.(kernel := t.kernel - {fd}); Sound(t') && View(t') == View(t) - {fd}
  {
    SameHolds(t, t.(kernel := t.kernel - {fd}));
    forall i | 0 <= i < |t.reserved|
      ensures Held(t, i) != fd
    {
      assert Holds(t, Held(t, i));
    }
  }

  /** Opening a file at a number that is not in use. */
  lemma OpenKeeps<F>(t: Table<F>, n: int, file: F)
    requires Sound(t) && n >= 0 && n !in t.kernel
    ensures var t' := t.(kernel := t.kernel[n := file]);
            && Sound(t') && View(t') == View(t)[n := file] && n !in View(t) && !Holds(t', n)
            && (forall x :: Holds(t', x) <==> Holds(t, x))
  {
    SameHolds(t, t.(kernel := t.kernel[n := file]));
  }

  /** undefer of the youngest entry. */
  lemma UndeferKeeps<F>(t: Table<F>, rest: seq<Reserve>, t': Table<F>)
    requires Sound(t) && Pending(t, 0) && t.deftab != [] && TakenOff(t.reserved, Entry(|t.deftab| - 1), rest)
    requires var n := |t.deftab| - 1; t' == Table(t.kernel - {t.deftab[n].realfd}, t.deftab[..n], t.own, rest)
    ensures Sound(t') && Pending(t', 0) && View(t') == View(t)
  {
    var n := |t.deftab| - 1;
    TakeOff(t, Entry(n), rest);
    var t1 := t.(reserved := rest);
    ShrinkKeeps(t1, n);
    var t2 := t1.(deftab := t.deftab[..n]);
    var v := t.deftab[n].realfd;
    if v >= 0 {
      CloseKeeps(t2, v);
      assert t' == t2.(kernel := t2.kernel - {v});
    } else {
      assert t'.kernel == t.kernel && t' == t2;
    }
  }

  lemma KeptFiles<F>(t: Table<F>, t': Table<F>)
    requires CellsKept(t, t')
    ensures |t'.deftab| == |t.deftab| && |t'.own| == |t.own| && t'.reserved == t.reserved
    ensures forall i | 0 <= i < |t.deftab| :: t'.deftab[i].userfd == t.deftab[i].userfd
    ensures forall j | 0 <= j < |t.deftab| && Registered(t.reserved, Entry(j)) ::
              FileAt(t'.kernel, t'.deftab[j].realfd) == FileAt(t.kernel, t.deftab[j].realfd)
    ensures forall j | 0 <= j < |t.own| && Registered(t.reserved, Own(j)) ::
              FileAt(t'.kernel, t'.own[j]) == FileAt(t.kernel, t.own[j])
  {
    forall j | 0 <= j < |t.deftab| && Registered(t.reserved, Entry(j))
      ensures FileAt(t'.kernel, t'.deftab[j].realfd) == FileAt(t.kernel, t.deftab[j].realfd)
    {
      assert HasCell(t, Entry(j)) && HasCell(t', Entry(j));
    }
    forall j | 0 <= j < |t.own| && Registered(t.reserved, Own(j))
      ensures FileAt(t'.kernel, t'.own[j]) == FileAt(t.kernel, t.own[j])
    {
      assert HasCell(t, Own(j)) && HasCell(t', Own(j));
    }
  }

  // ----- closefds

  /** A cell is forgotten; it held a number that no other cell holds. */
  lemma BlankHolds<F>(t: Table<F>, m: nat)
    requires CellsOk(t) && m < |t.reserved|
    requires Held(t, m) >= 0 ==> forall i | 0 <= i < |t.reserved| && i != m :: Held(t, i) != Held(t, m)
    ensures var t' := Store(t, t.reserved[m].cell, -1);
            && CellsOk(t')
            && (forall i | 0 <= i < |t.reserved| :: Held(t', i) == if i == m then -1 else Held(t, i))
            && (forall x | x >= 0 :: Holds(t', x) <==> x != Held(t, m) && Holds(t, x))
  {
    var t' := Store(t, t.reserved[m].cell, -1);
    StoreFetches(t, m, -1);
    forall x | x >= 0
      ensures Holds(t', x) <==> x != Held(t, m) && Holds(t, x)
    {
      if i :| 0 <= i < |t.reserved| && Held(t, i) == x {
        assert x != Held(t, m) ==> Held(t', i) == x;
      }
      if i :| 0 <= i < |t.reserved| && Held(t', i) == x {
        assert Held(t, i) == x;
      }
    }
  }

  lemma BlankStored<F>(t: Table<F>, m: nat)
    requires Sound(t) && m < |t.reserved|
    ensures var t' := Store(t, t.reserved[m].cell, -1);
            && Sound(t') && t'.kernel == t.kernel
            && (forall i | 0 <= i < |t.reserved| :: Held(t', i) == if i == m then -1 else Held(t, i))
            && var v := Held(t, m);
            && (v >= 0 ==> v in t.kernel && v !in View(t) && !Holds(t', v))
            && View(t') == if v >= 0 then View(t)[v := t.kernel[v]] else View(t)
  {
    BlankHolds(t, m);
    assert Holds(t, Held(t, m));
  }

  /** closefds on one cell: a descriptor below 3 is forgotten but left open. */
  lemma BlankCell<F>(t: Table<F>, m: nat, t': Table<F>)
    requires Sound(t) && m < |t.reserved|
    requires var v := Held(t, m);
             t' == Store(t, t.reserved[m].cell, -1).(kernel := if v >= 3 then t.kernel - {v} else t.kernel)
    ensures Sound(t')
    ensures forall i | 0 <= i < |t.reserved| :: Held(t', i) == if i == m then -1 else Held(t, i)
    ensures var v := Held(t, m);
            && (v >= 0 ==> v in t.kernel && v !in View(t))
            && View(t') == if 0 <= v < 3 then View(t)[v := t.kernel[v]] else View(t)
  {
    hide Sound, Holds, View, Store;
    var v, t1 := Held(t, m), Store(t, t.reserved[m].cell, -1);
    BlankStored(t, m);
    SameHolds(t1, t');
    if v >= 3 {
      CloseKeeps(t1, v);
    } else {
      assert t' == t1;
    }
  }

  // ----- fdmap

  /** The youngest of the first n entries that names fd, or -1. */
  ghost function LastNaming(deftab: seq<Defer>, n: nat, fd: int): (i: int)
    requires n <= |deftab|
    ensures -1 <= i < n
    ensures i >= 0 ==> deftab[i].userfd == fd
    ensures forall j | i < j < n :: deftab[j].userfd != fd
  {
    if n == 0 then -1
    else if deftab[n - 1].userfd == fd then n - 1
    else LastNaming(deftab, n - 1, fd)
  }

  /** The downward scan of fdmap, which goes on below a hit with the real number. */
  ghost function Chase(deftab: seq<Defer>, n: nat, fd: int): int
    requires n <= |deftab|
  {
    if n == 0 then fd
    else if deftab[n - 1].userfd == fd then
      if deftab[n - 1].realfd == -1 then -1 else Chase(deftab, n - 1, deftab[n - 1].realfd)
    else Chase(deftab, n - 1, fd)
  }

  ghost predicate DistinctReals(deftab: seq<Defer>) {
    && (forall i | 0 <= i < |deftab| :: deftab[i].realfd >= -1)
    && (forall i, j | 0 <= i < j < |deftab| && deftab[i].realfd >= 0 :: deftab[i].realfd != deftab[j].realfd)
  }

  lemma PendingAreDistinct<F>(t: Table<F>)
    requires Sound(t) && Pending(t, 0)
    ensures DistinctReals(t.deftab)
  {
    forall i, j | 0 <= i < j < |t.deftab| && t.deftab[i].realfd >= 0
      ensures t.deftab[i].realfd != t.deftab[j].realfd
    {
      OneHolder(t, Entry(i), Entry(j));
    }
  }

  lemma PendingAreOpen<F>(t: Table<F>)
    requires Sound(t) && Pending(t, 0)
    ensures forall i | 0 <= i < |t.deftab| :: t.deftab[i].realfd == -1 || t.deftab[i].realfd in t.kernel
  {
    forall i | 0 <= i < |t.deftab|
      ensures t.deftab[i].realfd == -1 || t.deftab[i].realfd in t.kernel
    {
      assert Registered(t.reserved, Entry(i));
      HeldIsOpen(t, Entry(i));
    }
  }

  lemma {:induction false} ChaseStays(deftab: seq<Defer>, n: nat, fd: int)
    requires n <= |deftab| && DistinctReals(deftab) && fd >= 0
    ensures LastNaming(deftab, n, fd) == -1 ==> Chase(deftab, n, fd) == fd
    ensures LastNaming(deftab, n, fd) >= 0 ==>
              Chase(deftab, n, fd) == -1 ||
              exists i :: 0 <= i < n && deftab[i].realfd == Chase(deftab, n, fd)
  {
    if n > 0 {
      if deftab[n - 1].userfd != fd {
        ChaseStays(deftab, n - 1, fd);
      } else if deftab[n - 1].realfd >= 0 {
        ChaseStays(deftab, n - 1, deftab[n - 1].realfd);
        if LastNaming(deftab, n - 1, deftab[n - 1].realfd) == -1 {
          assert deftab[n - 1].realfd == Chase(deftab, n, fd);
        }
      }
    }
  }

  /** The entry's real descriptor is no older entry's user descriptor. */
  predicate Direct(deftab: seq<Defer>, i: nat)
    requires i < |deftab|
  {
    deftab[i].realfd == -1 || forall j | 0 <= j < i :: deftab[j].userfd != deftab[i].realfd
  }

  /** fdmap yields the real descriptor of the youngest entry that names fd exactly when
      that entry is a close or no older entry has its real number as user number. */
  lemma {:induction false} FdMapExact(deftab: seq<Defer>, n: nat, fd: int)
    requires n <= |deftab| && DistinctReals(deftab) && fd >= 0
    ensures var i := LastNaming(deftab, n, fd);
            if i < 0 then Chase(deftab, n, fd) == fd
            else Chase(deftab, n, fd) == deftab[i].realfd <==> Direct(deftab, i)
  {
    if n > 0 {
      if deftab[n - 1].userfd != fd {
        FdMapExact(deftab, n - 1, fd);
      } else if deftab[n - 1].realfd >= 0 {
        ChaseStays(deftab, n - 1, deftab[n - 1].realfd);
      }
    }
  }

  /** What a user descriptor holds once all entries are settled: the file of the
      youngest entry that names it. */
  lemma {:induction false} SettleYoungestWins<F>(view: map<int, F>, deftab: seq<Defer>, files: seq<Option<F>>,
                                                 from: nat, fd: int)
    requires |files| == |deftab| && from <= |deftab|
    ensures var i := LastNaming(deftab, |deftab|, fd);
            FileAt(Settle(view, deftab, files, from), fd) == if i >= from then files[i] else FileAt(view, fd)
    decreases |deftab| - from
  {
    if from < |deftab| {
      SettleYoungestWins(Put(view, deftab[from].userfd, files[from]), deftab, files, from + 1, fd);
    }
  }

  /** The scan for fd is exact, and does not name a descriptor of the shell's. */
  ghost predicate Exact<F>(t: Table<F>, fd: int)
    requires CellsOk(t)
  {
    var i := LastNaming(t.deftab, |t.deftab|, fd);
    if i < 0 then !Holds(t, fd) else Direct(t.deftab, i)
  }

  /** When fdmap is exact, it names beforehand the very file the user will find. */
  lemma FdMapForetells<F>(t: Table<F>, fd: int)
    requires Sound(t) && Pending(t, 0) && fd >= 0 && Exact(t, fd)
    ensures FileAt(t.kernel, Chase(t.deftab, |t.deftab|, fd)) == FileAt(Settled(t), fd)
  {
    PendingAreDistinct(t);
    FdMapExact(t.deftab, |t.deftab|, fd);
    SettleYoungestWins(View(t), t.deftab, Files(t), 0, fd);
  }

  // ----- lazy against eager

  /** A redirection: a file that is opened, a close, or a dup of what another descriptor has. */
  datatype Op<F> = Open(file: F, userfd: nat) | Close(userfd: nat) | DupOf(from: nat, userfd: nat)

  /** What one redirection means; a dup of a closed descriptor fails. */
  ghost function Applied<F>(view: map<int, F>, op: Op<F>): Option<map<int, F>> {
    match op
    case Open(file, userfd) => Some(Put(view, userfd, Some(file)))
    case Close(userfd) => Some(Put(view, userfd, None))
    case DupOf(from, userfd) => if from in view then Some(Put(view, userfd, FileAt(view, from))) else None
  }

  /** What redirections mean, one after the other. */
  ghost function Redirected<F>(view: map<int, F>, ops: seq<Op<F>>): Option<map<int, F>>
    decreases |ops|
  {
    if ops == [] then Some(view)
    else match Redirected(view, ops[..|ops| - 1])
         case None => None
         case Some(v) => Applied(v, ops[|ops| - 1])
  }

  /** After a failure nothing more happens. */
  lemma {:induction false} FailureStays<F>(view: map<int, F>, ops: seq<Op<F>>, n: nat)
    requires n <= |ops| && Redirected(view, ops[..n]).None?
    ensures Redirected(view, ops).None?
    decreases |ops| - n
  {
    if n < |ops| {
      assert ops[..n + 1][..n] == ops[..n];
      FailureStays(view, ops, n + 1);
    } else {
      assert ops[..n] == ops;
    }
  }

  lemma OneMore<F>(view: map<int, F>, ops: seq<Op<F>>, n: nat)
    requires n < |ops|
    ensures Redirected(view, ops[..n + 1]) == match Redirected(view, ops[..n])
                                              case None => None
                                              case Some(v) => Applied(v, ops[n])
  {
    assert ops[..n + 1][..n] == ops[..n];
  }

  /** Nothing in ops[k..] sets fd. */
  ghost predicate Spares<F>(ops: seq<Op<F>>, k: nat, fd: int) {
    forall j | k <= j < |ops| :: ops[j].userfd != fd
  }

  /** What a descriptor holds after redirections: what the last one to name it gave it, where
      a dup gives what the other descriptor held just then, or what it held before. */
  lemma {:induction false} LastRedirectionWins<F>(view: map<int, F>, ops: seq<Op<F>>, k: nat, fd: int)
    requires Redirected(view, ops).Some? && k <= |ops| && Spares(ops, k, fd)
    ensures k == 0 ==> FileAt(Redirected(view, ops).value, fd) == FileAt(view, fd)
    ensures k > 0 && ops[k - 1].userfd == fd ==>
              var before := Redirected(view, ops[..k - 1]);
              && before.Some?
              && FileAt(Redirected(view, ops).value, fd) ==
                 match ops[k - 1]
                 case Open(file, _) => Some(file)
                 case Close(_) => None
                 case DupOf(from, _) => FileAt(before.value, from)
    decreases |ops| - k, |ops|
  {
    var last := |ops| - 1;
    if k < |ops| {
      var shorter := ops[..last];
      assert Spares(shorter, k, fd) && (k > 0 ==> shorter[..k - 1] == ops[..k - 1] && shorter[k - 1] == ops[k - 1]);
      LastRedirectionWins(view, shorter, k, fd);
    }
  }

  /** Redirections fail exactly if one of them is a dup of what is closed by then. */
  lemma {:induction false} FailsExactly<F>(view: map<int, F>, ops: seq<Op<F>>)
    ensures Redirected(view, ops).None? <==>
              exists k :: 0 <= k < |ops| && ops[k].DupOf?
                          && Redirected(view, ops[..k]).Some? && ops[k].from !in Redirected(view, ops[..k]).value
  {
    if ops != [] {
      var last := |ops| - 1;
      var shorter := ops[..last];
      FailsExactly(view, shorter);
      assert forall k | 0 <= k < last :: shorter[..k] == ops[..k] && shorter[k] == ops[k];
    }
  }

  /** One more entry is settled last. */
  lemma {:induction false} SettleSnoc<F>(view: map<int, F>, deftab: seq<Defer>, files: seq<Option<F>>, d: Defer,
                                         file: Option<F>, i: nat)
    requires |files| == |deftab| && i <= |deftab|
    ensures Settle(view, deftab + [d], files + [file], i) == Put(Settle(view, deftab, files, i), d.userfd, file)
    decreases |deftab| - i
  {
    if i < |deftab| {
      SettleSnoc(Put(view, deftab[i].userfd, files[i]), deftab, files, d, file, i + 1);
    } else {
      assert Settle(Put(view, d.userfd, file), deftab + [d], files + [file], i + 1) == Put(view, d.userfd, file);
    }
  }

  /** The file that a redirection gets in this state, with fdmap for a dup. */
  ghost function FileOf<F>(t: Table<F>, op: Op<F>): Option<F> {
    match op
    case Open(file, _) => Some(file)
    case Close(_) => None
    case DupOf(from, _) => FileAt(t.kernel, Chase(t.deftab, |t.deftab|, from))
  }

  /** Where the scan is exact, that is the file which the redirection means. */
  lemma ExactApplies<F>(t: Table<F>, op: Op<F>)
    requires Sound(t) && Pending(t, 0) && (op.DupOf? ==> Exact(t, op.from))
    ensures Applied(Settled(t), op) == if op.DupOf? && FileOf(t, op).None? then None
                                       else Some(Put(Settled(t), op.userfd, FileOf(t, op)))
  {
    if op.DupOf? {
      FdMapForetells(t, op.from);
    }
  }

  /** The entries that deferring the first operations adds, given the real descriptors. */
  function Entries<F>(ops: seq<Op<F>>, reals: seq<int>): seq<Defer>
    requires |reals| <= |ops|
  {
    seq(|reals|, i requires 0 <= i < |reals| => Defer(reals[i], ops[i].userfd))
  }

  /** The scan is exact at the k-th operation, if the ones before got these descriptors. */
  ghost predicate ExactAt<F>(t: Table<F>, ops: seq<Op<F>>, reals: seq<int>, k: nat)
    requires CellsOk(t) && k <= |reals| <= |ops| && k < |ops|
  {
    ops[k].DupOf? ==>
      var deftab := t.deftab + Entries(ops, reals[..k]);
      var i := LastNaming(deftab, |deftab|, ops[k].from);
      if i < 0 then !Holds(t, ops[k].from) && ops[k].from !in reals[..k] else Direct(deftab, i)
  }

  /** The scan is exact at every dup of the run. */
  ghost predicate AllExact<F>(t: Table<F>, ops: seq<Op<F>>, reals: seq<int>)
    requires CellsOk(t) && |reals| <= |ops|
  {
    forall k | 0 <= k < |ops| && k <= |reals| :: ExactAt(t, ops, reals, k)
  }

  lemma ExactSoFar<F>(t: Table<F>, ops: seq<Op<F>>, reals: seq<int>, fd: int)
    requires CellsOk(t) && |reals| < |ops| && AllExact(t, ops, reals + [fd])
    ensures AllExact(t, ops, reals)
  {
    forall k | 0 <= k < |ops| && k <= |reals|
      ensures ExactAt(t, ops, reals, k)
    {
      assert (reals + [fd])[..k] == reals[..k];
      assert ExactAt(t, ops, reals + [fd], k);
    }
  }

  /** No registered cell holds a descriptor. */
  ghost predicate Idle<F>(t: Table<F>)
    requires CellsOk(t)
  {
    forall i | 0 <= i < |t.reserved| :: Held(t, i) < 0
  }

  lemma IdleStays<F>(t: Table<F>, t': Table<F>)
    requires Sound(t) && Sound(t') && CellsKept(t, t') && Idle(t)
    ensures Idle(t')
  {
    forall i | 0 <= i < |t.reserved|
      ensures Held(t', i) < 0
    {
      var c := t.reserved[i].cell;
      assert Registered(t.reserved, c) && HasCell(t, c) && HasCell(t', c);
      assert FileAt(t.kernel, Held(t, i)) == None;
      assert FileAt(t'.kernel, Fetch(t', c)) == None;
    }
  }

  /** Then the user sees the whole table. */
  lemma IdleApplies<F>(t: Table<F>, op: Op<F>)
    requires Sound(t) && (op.DupOf? ==> Idle(t) && t.deftab == [])
    ensures Applied(View(t), op) == if op.DupOf? && FileOf(t, op).None? then None
                                    else Some(Put(View(t), op.userfd, FileOf(t, op)))
  {
  }

  class Descriptors<F> {
    var kernel: map<int, F>
    var deftab: seq<Defer>
    var own: seq<int>
    var reserved: seq<Reserve>

    function Now(): Table<F>
      reads this
    {
      Table(kernel, deftab, own, reserved)
    }

    ghost predicate Valid()
      reads this
    {
      Sound(Now())
    }

    ghost function UserView(): map<int, F>
      requires Valid()
      reads this
    {
      View(Now())
    }

    /** A shell that holds no descriptor yet. */
    constructor (kernel: map<int, F>)
      requires forall x | x in kernel :: x >= 0
      ensures Valid() && Now() == Table(kernel, [], [], [])
    {
      this.kernel, deftab, own, reserved := kernel, [], [], [];
    }

    /** A number that is not in use: the lowest one, as the kernel picks it. */
    method FreeNumber() returns (n: int)
      ensures n >= 0 && n !in kernel && forall x | 0 <= x < n :: x in kernel
    {
      n := 0;
      ghost var k := kernel.Keys;
      while n in kernel
        invariant n >= 0 && k == (set x | x in kernel.Keys && !(0 <= x < n))
        invariant forall x | 0 <= x < n :: x in kernel
        decreases |k|
      {
        assert n in k;
        k := k - {n};
        n := n + 1;
      }
    }

    /** dup */
    method Dup(fd: int) returns (n: int)
      requires fd in kernel
      modifies this`kernel
      ensures n >= 0 && n !in old(kernel) && kernel == old(kernel)[n := old(kernel)[fd]]
      ensures forall x | 0 <= x < n :: x in old(kernel)
    {
      n := FreeNumber();
      kernel := kernel[n := kernel[fd]];
    }

    /** releasefd: move whichever registered cell holds n to another number. */
    method ReleaseFd(n: int)
      requires Valid() && n >= 0
      modifies this`kernel, this`deftab, this`own
      ensures Renumbered(old(Now()), Now()) && !Holds(Now(), n)
    {
      hide Sound, CellsKept, View;
      Unchanged(Now());
      for i := 0 to |reserved|
        invariant Renumbered(old(Now()), Now())
        invariant forall j | 0 <= j < i :: Held(Now(), j) != n
      {
        var c := reserved[i].cell;
        if Fetch(Now(), c) == n {
          ghost var t := Now();
          MoveAway(i);
          RenumberedTwice(old(Now()), t, Now());
          NotHeld(Now(), n);
        }
      }
    }

    /** The body of that loop: `*fdp = dup(fd); close(fd)`. */
    method MoveAway(i: nat)
      requires Valid() && i < |reserved| && Held(Now(), i) >= 0
      modifies this`kernel, this`deftab, this`own
      ensures Renumbered(old(Now()), Now()) && !Holds(Now(), old(Held(Now(), i)))
    {
      var c := reserved[i].cell;
      var fd := Fetch(Now(), c);
      assert fd in kernel;
      var y := Dup(fd);
      var t := Store(Now(), c, y);
      deftab, own := t.deftab, t.own;
      kernel := kernel - {fd};
      MoveCell(old(Now()), i, y, Now());
    }

    /** dodeferred: the user's descriptor is freed for the user, then set or closed. */
    method DoDeferred(realfd: int, userfd: int)
      requires Valid() && userfd >= 0
      requires realfd == -1 || (realfd in kernel && !Holds(Now(), realfd))
      modifies this`kernel, this`deftab, this`own
      ensures Valid() && CellsKept(old(Now()), Now())
      ensures UserView() == Put(old(UserView()) - {realfd}, userfd, FileAt(old(kernel), realfd))
    {
      hide Sound, View, CellsKept, Holds;
      ReleaseFd(userfd);
      ghost var t := Now();
      SameFile(old(Now()), t, realfd);
      if realfd == -1 {
        kernel := kernel - {userfd};
      } else {
        MvFd(realfd, userfd);
      }
      Overwrite(t, realfd, userfd, kernel);
      CellsKeptTwice(old(Now()), t, Now());
    }

    /** mvfd */
    method MvFd(oldfd: int, newfd: int)
      requires oldfd in kernel
      modifies this`kernel
      ensures kernel == Put(if oldfd == newfd then old(kernel) else old(kernel) - {oldfd}, newfd,
                            Some(old(kernel)[oldfd]))
    {
      if oldfd != newfd {
        kernel := kernel[newfd := kernel[oldfd]];
        kernel := kernel - {oldfd};
      }
    }

    /** unregisterfd; a cell that is not on the list is a panic. */
    method UnregisterFd(fdp: Cell)
      requires Valid() && Registered(reserved, fdp)
      modifies this`reserved
      ensures TakenOff(old(reserved), fdp, reserved)
    {
      var i := 0;
      while i < |reserved|
        invariant 0 <= i <= |reserved| && reserved == old(reserved)
        invariant forall j | 0 <= j < i :: reserved[j].cell != fdp
      {
        if reserved[i].cell == fdp {
          reserved := reserved[i := reserved[|reserved| - 1]][..|reserved| - 1];
          return;
        }
        i := i + 1;
      }
    }

    /** registerfd: the user does not see the cell's descriptor any more. */
    method RegisterFd(fdp: Cell, closeonfork: bool)
      requires Valid() && HasCell(Now(), fdp) && !Registered(reserved, fdp)
      requires var v := Fetch(Now(), fdp); v == -1 || (v in kernel && !Holds(Now(), v))
      modifies this`reserved
      ensures Valid() && UserView() == old(UserView()) - {Fetch(Now(), fdp)}
      ensures forall x :: Holds(Now(), x) <==> x == Fetch(Now(), fdp) || old(Holds(Now(), x))
      ensures forall c :: Registered(reserved, c) <==> c == fdp || Registered(old(reserved), c)
      ensures |reserved| == |old(reserved)| + 1 && reserved[|old(reserved)|] == Reserve(fdp, closeonfork)
    {
      PutOn(Now(), Reserve(fdp, closeonfork));
      reserved := reserved + [Reserve(fdp, closeonfork)];
    }

    /** remapfds: the user's table becomes what the entries say, oldest first, whatever
        numbers collide on the way; the shell's other descriptors keep their files. */
    method RemapFds()
      requires Valid() && Pending(Now(), 0)
      modifies this
      ensures Valid() && deftab == []
      ensures UserView() == old(Settled(Now()))
      ensures |own| == |old(own)|
      ensures forall i | 0 <= i < |own| :: Registered(reserved, Own(i)) <==> Registered(old(reserved), Own(i))
      ensures forall i | 0 <= i < |own| && Registered(reserved, Own(i)) ::
                FileAt(kernel, own[i]) == FileAt(old(kernel), old(own)[i])
    {
      hide Sound, View, FileAt, Put, Registered;
      ghost var files := Files(Now());
      for i := 0 to |deftab|
        invariant Valid() && Pending(Now(), i) && |deftab| == |old(deftab)| == |files| && |own| == |old(own)|
        invariant forall j | 0 <= j < |deftab| :: deftab[j].userfd == old(deftab)[j].userfd
        invariant forall j | i <= j < |deftab| :: FileAt(kernel, deftab[j].realfd) == files[j]
        invariant Settle(UserView(), old(deftab), files, i) == old(Settled(Now()))
        invariant forall j | 0 <= j < |own| :: Registered(reserved, Own(j)) <==> Registered(old(reserved), Own(j))
        invariant forall j | 0 <= j < |own| && Registered(reserved, Own(j)) ::
                    FileAt(kernel, own[j]) == FileAt(old(kernel), old(own)[j])
      {
        RemapOne(i);
      }
      ShrinkKeeps(Now(), 0);
      deftab := deftab[..0];
    }

    method RemapOne(i: nat)
      requires Valid() && i < |deftab| && Pending(Now(), i)
      modifies this
      ensures Valid() && Pending(Now(), i + 1) && |deftab| == |old(deftab)| && |own| == |old(own)|
      ensures forall j | 0 <= j < |deftab| :: deftab[j].userfd == old(deftab)[j].userfd
      ensures forall j | i < j < |deftab| ::
                FileAt(kernel, deftab[j].realfd) == FileAt(old(kernel), old(deftab)[j].realfd)
      ensures UserView() == Put(old(UserView()), old(deftab)[i].userfd, FileAt(old(kernel), old(deftab)[i].realfd))
      ensures forall j | 0 <= j < |own| :: Registered(reserved, Own(j)) <==> Registered(old(reserved), Own(j))
      ensures forall j | 0 <= j < |own| && Registered(reserved, Own(j)) ::
                FileAt(kernel, own[j]) == FileAt(old(kernel), old(own)[j])
    {
      hide Sound, Holds, CellsKept;
      UnregisterFd(Entry(i));
      TakeOff(old(Now()), Entry(i), reserved);
      assert Pending(Now(), i + 1);
      ghost var t := Now();
      assert UserView() - {deftab[i].realfd} == old(UserView());
      DoDeferred(deftab[i].realfd, deftab[i].userfd);
      KeptFiles(t, Now());
    }

    /** pushdefer: in the parent the operation is queued and its descriptor hidden from
        the user; in a child it is done at once.  Returns a ticket. */
    method PushDefer(parent: bool, realfd: int, userfd: int) returns (ticket: int)
      requires Valid() && Pending(Now(), 0) && userfd >= 0
      requires realfd == -1 || (realfd in kernel && !Holds(Now(), realfd))
      modifies this
      ensures Valid() && Pending(Now(), 0)
      ensures parent ==> ticket == |old(deftab)| && deftab == old(deftab) + [Defer(realfd, userfd)]
                         && kernel == old(kernel) && own == old(own)
                         && UserView() == old(UserView()) - {realfd}
                         && forall x :: Holds(Now(), x) <==> x == realfd || old(Holds(Now(), x))
      ensures !parent ==> ticket == UNREGISTERED && CellsKept(old(Now()), Now())
                          && UserView() == Put(old(UserView()) - {realfd}, userfd, FileAt(old(kernel), realfd))
    {
      hide Sound, View, CellsKept, Holds;
      if parent {
        GrowKeeps(Now(), Defer(realfd, userfd));
        deftab := deftab + [Defer(realfd, userfd)];
        RegisterFd(Entry(|deftab| - 1), true);
        ticket := |deftab| - 1;
      } else {
        DoDeferred(realfd, userfd);
        PendingKept(old(Now()), Now());
        ticket := UNREGISTERED;
      }
    }

    /** undefer: drop the youngest entry and close its descriptor. */
    method Undefer(ticket: int)
      requires Valid() && Pending(Now(), 0)
      requires ticket == UNREGISTERED || ticket == |deftab| - 1 >= 0
      modifies this
      ensures Valid() && Pending(Now(), 0)
      ensures ticket == UNREGISTERED ==> deftab == old(deftab)
      ensures ticket != UNREGISTERED ==> deftab == old(deftab)[..ticket]
      ensures UserView() == old(UserView()) && own == old(own)
    {
      if ticket != UNREGISTERED {
        var realfd := deftab[ticket].realfd;
        UnregisterFd(Entry(ticket));
        deftab := deftab[..ticket];
        if realfd != -1 {
          kernel := kernel - {realfd};
        }
        assert -1 !in old(kernel);
        assert kernel == old(kernel) - {realfd};
        UndeferKeeps(old(Now()), reserved, Now());
      }
    }

    /** fdmap */
    method FdMap(fd: int) returns (r: int)
      ensures r == Chase(deftab, |deftab|, fd)
    {
      r := fd;
      var i := |deftab|;
      while i > 0
        invariant 0 <= i <= |deftab| && Chase(deftab, i, r) == Chase(deftab, |deftab|, fd)
      {
        i := i - 1;
        if r == deftab[i].userfd {
          r := deftab[i].realfd;
          if r == -1 {
            return -1;
          }
        }
      }
    }

    /** What redir does before it defers the operation: open, nothing, or dup of what fdmap
        says, which may fail. */
    method Obtain(op: Op<F>) returns (ok: bool, realfd: int)
      requires Valid()
      modifies this`kernel
      ensures Valid() && (realfd == -1 || (realfd in kernel && !Holds(Now(), realfd)))
      ensures UserView() - {realfd} == old(UserView())
      ensures ok == (op.DupOf? ==> FileOf(old(Now()), op).Some?) && (!ok ==> Now() == old(Now()))
      ensures ok ==> FileAt(kernel, realfd) == FileOf(old(Now()), op)
      ensures forall x :: Holds(Now(), x) <==> old(Holds(Now(), x))
      ensures forall fd | fd in old(kernel) :: fd in kernel && kernel[fd] == old(kernel)[fd]
      ensures ok && !op.Close? ==> realfd !in old(kernel) && realfd >= 0 && (forall x | 0 <= x < realfd :: x in old(kernel))
                                   && kernel == old(kernel)[realfd := FileOf(old(Now()), op).value]
      ensures ok && op.Close? ==> realfd == -1 && kernel == old(kernel)
    {
      ok, realfd := true, -1;
      match op
      case Close(_) =>
      case Open(file, _) =>
        realfd := FreeNumber();
        OpenKeeps(Now(), realfd, file);
        kernel := kernel[realfd := file];
      case DupOf(from, _) =>
        var fd := FdMap(from);
        if fd in kernel {
          realfd := FreeNumber();
          OpenKeeps(Now(), realfd, kernel[fd]);
          kernel := kernel[realfd := kernel[fd]];
        } else {
          ok := false;
        }
    }

    /** A list of redirections in a forked child, each done at once, up to the first that
        fails. */
    method EagerRun(ops: seq<Op<F>>) returns (done: nat)
      requires Valid() && Pending(Now(), 0)
      requires (exists k :: 0 <= k < |ops| && ops[k].DupOf?) ==> deftab == [] && Idle(Now())
      modifies this
      ensures Valid() && Pending(Now(), 0) && done <= |ops|
      ensures Redirected(old(UserView()), ops[..done]) == Some(UserView())
      ensures done < |ops| ==> Redirected(old(UserView()), ops) == None
    {
      hide Sound, View, CellsKept, Holds, Pending, Idle, FileOf, Applied;
      assert ops[..0] == [];
      done := 0;
      ghost var dups := exists k :: 0 <= k < |ops| && ops[k].DupOf?;
      while done < |ops|
        invariant Valid() && Pending(Now(), 0) && done <= |ops|
        invariant dups ==> deftab == [] && Idle(Now())
        invariant Redirected(old(UserView()), ops[..done]) == Some(UserView())
      {
        ghost var t := Now();
        IdleApplies(t, ops[done]);
        OneMore(old(UserView()), ops, done);
        var ok := EagerOne(ops[done]);
        if !ok {
          FailureStays(old(UserView()), ops, done + 1);
          return;
        }
        done := done + 1;
      }
    }

    method EagerOne(op: Op<F>) returns (ok: bool)
      requires Valid() && Pending(Now(), 0)
      modifies this
      ensures Valid() && Pending(Now(), 0)
      ensures ok == (op.DupOf? ==> FileOf(old(Now()), op).Some?) && (!ok ==> Now() == old(Now()))
      ensures ok ==> UserView() == Put(old(UserView()), op.userfd, FileOf(old(Now()), op))
      ensures |deftab| == |old(deftab)| && (old(Idle(Now())) ==> Idle(Now()))
    {
      hide Sound, View, CellsKept, Holds, FileOf, Idle;
      var realfd;
      ok, realfd := Obtain(op);
      if ok {
        ghost var t := Now();
        if old(Idle(Now())) {
          IdleOpened(old(Now()), t);
        }
        var ticket := PushDefer(false, realfd, op.userfd);
        KeptFiles(t, Now());
        if old(Idle(Now())) {
          IdleStays(t, Now());
        }
      }
    }

    /** The same list in the parent: every one deferred, and all settled in the end; after a
        failure, those before it undone.  The user gets the same table, whatever numbers the
        files were opened at, if at every dup the scan is exact. */
    method LazyRun(ops: seq<Op<F>>) returns (reals: seq<int>)
      requires Valid() && Pending(Now(), 0)
      modifies this
      ensures Valid() && |reals| <= |ops|
      ensures |reals| == |ops| ==> deftab == []
      ensures |reals| == |ops| && AllExact(old(Now()), ops, reals) ==> Redirected(old(Settled(Now())), ops) == Some(UserView())
      ensures |reals| < |ops| ==> deftab == old(deftab) && UserView() == old(UserView())
      ensures |reals| < |ops| && AllExact(old(Now()), ops, reals) ==> Redirected(old(Settled(Now())), ops) == None
    {
      var pending := |deftab|;
      reals := DeferAll(ops);
      assert ops[..|ops|] == ops;
      if |reals| == |ops| {
        RemapFds();
      } else {
        if AllExact(old(Now()), ops, reals) {
          FailureStays(old(Settled(Now())), ops, |reals| + 1);
        }
        UndeferTo(pending);
      }
    }

    method UndeferTo(n: nat)
      requires Valid() && Pending(Now(), 0) && n <= |deftab|
      modifies this
      ensures Valid() && Pending(Now(), 0) && deftab == old(deftab)[..n] && UserView() == old(UserView())
    {
      while |deftab| > n
        invariant Valid() && Pending(Now(), 0) && n <= |deftab| && deftab == old(deftab)[..|deftab|]
        invariant UserView() == old(UserView())
      {
        Undefer(|deftab| - 1);
      }
    }

    method DeferAll(ops: seq<Op<F>>) returns (reals: seq<int>)
      requires Valid() && Pending(Now(), 0)
      modifies this
      ensures Valid() && Pending(Now(), 0) && |reals| <= |ops|
      ensures UserView() == old(UserView()) && deftab == old(deftab) + Entries(ops, reals)
      ensures AllExact(old(Now()), ops, reals) ==>
                Redirected(old(Settled(Now())), ops[..|reals|]) == Some(Settled(Now()))
      ensures |reals| < |ops| && AllExact(old(Now()), ops, reals) ==>
                Redirected(old(Settled(Now())), ops[..|reals| + 1]) == None
    {
      hide Sound, View, Pending, Settle, Applied, FileOf, AllExact;
      ghost var t0 := Now();
      assert ops[..0] == [];
      reals := [];
      while |reals| < |ops|
        invariant Valid() && Pending(Now(), 0) && |reals| <= |ops| && UserView() == old(UserView())
        invariant deftab == t0.deftab + Entries(ops, reals)
        invariant forall x | x >= 0 :: Holds(Now(), x) <==> Holds(t0, x) || x in reals
        invariant AllExact(t0, ops, reals) ==> Redirected(Settled(t0), ops[..|reals|]) == Some(Settled(Now()))
      {
        ghost var t, k := Now(), |reals|;
        OneMore(Settled(t0), ops, k);
        var ok, realfd := DeferOne(ops[|reals|]);
        if AllExact(t0, ops, reals) {
          ExactNow(t0, ops, reals, t);
          ExactApplies(t, ops[k]);
        }
        if !ok {
          return;
        }
        if AllExact(t0, ops, reals + [realfd]) {
          ExactSoFar(t0, ops, reals, realfd);
        }
        MoreEntries(ops, reals, realfd);
        reals := reals + [realfd];
      }
    }

    method DeferOne(op: Op<F>) returns (ok: bool, realfd: int)
      requires Valid() && Pending(Now(), 0)
      modifies this
      ensures Valid() && Pending(Now(), 0) && UserView() == old(UserView())
      ensures ok == (op.DupOf? ==> FileOf(old(Now()), op).Some?) && (!ok ==> Now() == old(Now()))
      ensures ok ==> deftab == old(deftab) + [Defer(realfd, op.userfd)]
      ensures ok ==> forall x | x >= 0 :: Holds(Now(), x) <==> x == realfd || old(Holds(Now(), x))
      ensures ok ==> Settled(Now()) == Put(old(Settled(Now())), op.userfd, FileOf(old(Now()), op))
      ensures ok && !op.Close? ==> realfd !in old(kernel) && realfd >= 0 && (forall x | 0 <= x < realfd :: x in old(kernel))
                                   && kernel == old(kernel)[realfd := FileOf(old(Now()), op).value]
    {
      hide Sound, View, FileOf, Holds;
      ghost var t := Now();
      PendingAreOpen(t);
      ok, realfd := Obtain(op);
      if ok {
        ghost var t1 := Now();
        SameFiles(t, t1);
        var ticket := PushDefer(true, realfd, op.userfd);
        assert Files(Now()) == Files(t) + [FileOf(t, op)];
        SettleSnoc(View(t), t.deftab, Files(t), Defer(realfd, op.userfd), FileOf(t, op), 0);
      }
    }

    /** closefds, in a fresh child: settle the entries, then close the shell's own
        descriptors.  The user's table is the settled one, except that a reserved
        descriptor below 3 is left open. */
    method CloseFds()
      requires Valid() && Pending(Now(), 0)
      modifies this
      ensures Valid()
      ensures old(Settled(Now())).Keys <= UserView().Keys
      ensures forall fd | fd in UserView() ::
                if fd in old(Settled(Now())) then UserView()[fd] == old(Settled(Now()))[fd] else 0 <= fd < 3
      ensures forall i | 0 <= i < |reserved| && reserved[i].closeonfork ::
                HasCell(Now(), reserved[i].cell) && Fetch(Now(), reserved[i].cell) == -1
    {
      RemapFds();
      ghost var settled, res := UserView(), reserved;
      for i := 0 to |reserved|
        invariant Valid() && reserved == res && settled.Keys <= UserView().Keys
        invariant forall fd | fd in UserView() ::
                    if fd in settled then UserView()[fd] == settled[fd] else 0 <= fd < 3
        invariant forall j | 0 <= j < i && reserved[j].closeonfork :: Held(Now(), j) == -1
      {
        var r := reserved[i];
        if r.closeonfork {
          Blank(i);
        }
      }
    }

    method Blank(i: nat)
      requires Valid() && i < |reserved|
      modifies this`kernel, this`deftab, this`own
      ensures Valid()
      ensures var v := old(Held(Now(), i));
              UserView() == if 0 <= v < 3 then old(UserView())[v := old(kernel)[v]] else old(UserView())
      ensures old(UserView()).Keys <= UserView().Keys
      ensures forall fd | fd in UserView() ::
                if fd in old(UserView()) then UserView()[fd] == old(UserView())[fd] else 0 <= fd < 3
      ensures forall j | 0 <= j < |reserved| :: Held(Now(), j) == if j == i then -1 else old(Held(Now(), j))
    {
      var c := reserved[i].cell;
      var fd := Fetch(Now(), c);
      if fd >= 3 {
        kernel := kernel - {fd};
      }
      var t := Store(Now(), c, -1);
      deftab, own := t.deftab, t.own;
      BlankCell(old(Now()), i, Now());
    }
  }

  // ----- facts for callers that do not look inside the predicates

  lemma Unchanged<F>(t: Table<F>)
    requires Sound(t)
    ensures Renumbered(t, t)
  {
  }

  lemma NotHeld<F>(t: Table<F>, n: int)
    requires CellsOk(t) && !Holds(t, n)
    ensures forall j | 0 <= j < |t.reserved| :: Held(t, j) != n
  {
  }

  lemma PendingKept<F>(t: Table<F>, t': Table<F>)
    requires Pending(t, 0) && CellsKept(t, t')
    ensures Pending(t', 0)
  {
  }

  lemma IdleOpened<F>(t: Table<F>, t': Table<F>)
    requires CellsOk(t) && Idle(t) && t' == t.(kernel := t'.kernel)
    ensures CellsOk(t') && Idle(t')
  {
    SameHolds(t, t');
  }

  lemma SameFiles<F>(t: Table<F>, t': Table<F>)
    requires t' == t.(kernel := t'.kernel) && -1 !in t'.kernel
    requires forall i | 0 <= i < |t.deftab| :: t.deftab[i].realfd == -1 || t.deftab[i].realfd in t.kernel
    requires forall fd | fd in t.kernel :: fd in t'.kernel && t'.kernel[fd] == t.kernel[fd]
    ensures Files(t') == Files(t)
  {
  }

  lemma MoreEntries<F>(ops: seq<Op<F>>, reals: seq<int>, fd: int)
    requires |reals| < |ops|
    ensures Entries(ops, reals + [fd]) == Entries(ops, reals) + [Defer(fd, ops[|reals|].userfd)]
  {
  }

  /** Exactness in the run is exactness in the state it has come to. */
  lemma ExactNow<F>(t0: Table<F>, ops: seq<Op<F>>, reals: seq<int>, t: Table<F>)
    requires CellsOk(t0) && CellsOk(t) && |reals| < |ops| && AllExact(t0, ops, reals)
    requires t.deftab == t0.deftab + Entries(ops, reals)
    requires forall x | x >= 0 :: Holds(t, x) <==> Holds(t0, x) || x in reals
    ensures ops[|reals|].DupOf? ==> Exact(t, ops[|reals|].from)
  {
    assert reals[..|reals|] == reals;
    assert ExactAt(t0, ops, reals, |reals|);
  }

  // ----- states and runs that go wrong

  /** What makes fdmap inexact: file g was opened as 7, which the user is going to have for
      file f, and then deferred to 5.  Descriptor 5 will have file g, but fdmap names f. */
  lemma FdMapTwice<F>(f: F, g: F)
    requires f != g
    ensures var t := Table(map[9 := f, 7 := g], [Defer(9, 7), Defer(7, 5)], [],
                           [Reserve(Entry(0), true), Reserve(Entry(1), true)]);
            && Sound(t) && Pending(t, 0)
            && FileAt(t.kernel, Chase(t.deftab, |t.deftab|, 5)) == Some(f)
            && FileAt(Settled(t), 5) == Some(g)
  {
    var t := Table(map[9 := f, 7 := g], [Defer(9, 7), Defer(7, 5)], [],
                   [Reserve(Entry(0), true), Reserve(Entry(1), true)]);
    assert t.reserved[0].cell == Entry(0) && t.reserved[1].cell == Entry(1);
    assert Held(t, 0) == 9 && Held(t, 1) == 7;
    assert Sound(t) && Pending(t, 0);
    assert Chase(t.deftab, 0, 9) == 9;
    assert Chase(t.deftab, 1, 7) == 9;
    assert LastNaming(t.deftab, 2, 5) == 1;
    SettleYoungestWins(View(t), t.deftab, Files(t), 0, 5);
  }

  lemma WrongChase<F>(t: Table<F>)
    requires t.deftab == [Defer(3, 4), Defer(4, 5)]
    ensures Chase(t.deftab, |t.deftab|, 5) == 3
  {
    assert Chase(t.deftab, 0, 3) == 3;
    assert Chase(t.deftab, 1, 4) == 3;
  }

  /** `>[4] f >[5] g >[6=5]` in a shell with three descriptors open: g is opened as 4, and the
      dup of 5 finds f, which is going to be 4, where the user means g. */
  method WrongDup<F>(std: F, f: F, g: F) returns (d: Descriptors<F>)
    ensures fresh(d) && d.Valid() && d.deftab == []
    ensures d.UserView() == map[0 := std, 1 := std, 2 := std, 4 := f, 5 := g, 6 := f]
    ensures Redirected(map[0 := std, 1 := std, 2 := std], [Open(f, 4), Open(g, 5), DupOf(5, 6)])
         == Some(map[0 := std, 1 := std, 2 := std, 4 := f, 5 := g, 6 := g])
  {
    hide Sound, Holds;
    var view := map[0 := std, 1 := std, 2 := std];
    d := new Descriptors(view);
    StartView(view);
    assert 0 in d.kernel && 1 in d.kernel && 2 in d.kernel && 3 !in d.kernel;
    var ok, three := d.DeferOne(Open(f, 4));
    assert ok && three == 3;
    assert 3 in d.kernel && 4 !in d.kernel;
    var ok', four := d.DeferOne(Open(g, 5));
    assert ok' && four == 4;
    assert d.deftab == [Defer(3, 4), Defer(4, 5)];
    WrongChase(d.Now());
    var _, five := d.DeferOne(DupOf(5, 6));
    d.RemapFds();
    MeantByDup(std, f, g);
  }

  lemma StartView<F>(view: map<int, F>)
    ensures var t := Table(view, [], [], []); CellsOk(t) && View(t) == view && Settled(t) == view
  {
  }

  lemma MeantByDup<F>(std: F, f: F, g: F)
    ensures Redirected(map[0 := std, 1 := std, 2 := std], [Open(f, 4), Open(g, 5), DupOf(5, 6)])
         == Some(map[0 := std, 1 := std, 2 := std, 4 := f, 5 := g, 6 := g])
  {
    var view, ops := map[0 := std, 1 := std, 2 := std], [Open(f, 4), Open(g, 5), DupOf(5, 6)];
    assert ops[..0] == [] && ops[..3] == ops;
    OneMore(view, ops, 0);
    OneMore(view, ops, 1);
    OneMore(view, ops, 2);
  }
}
