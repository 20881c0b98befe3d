/** src/syntax.c: the same rewriting in place, on nodes that are named by their position
    in a growing store.  Each operation is proved to turn the trees it is given into the
    tree that the rewriting on values says, and to touch nothing but their nodes. */
module SyntaxRewriting {
  import opened SyntaxTrees

  const NULL := -1
  const PLACEHOLDER := -2
  const ERROR_NODE := -3

  datatype Cell = Cell(kind: Kind, s: string, car: int, cdr: int)

  /** The nodes of a tree. */
  ghost function Foot(h: seq<Cell>, r: int, t: Tree): set<int>
    decreases t
  {
    if t.Node? && 0 <= r < |h| then {r} + Foot(h, h[r].car, t.car) + Foot(h, h[r].cdr, t.cdr) else {}
  }

  /** The pointer r stands for the tree, whose nodes are all distinct. */
  ghost predicate Rep(h: seq<Cell>, r: int, t: Tree)
    decreases t
  {
    match t
    case Nil => r == NULL
    case Hole => r == PLACEHOLDER
    case Bad => r == ERROR_NODE
    case Node(kind, s, car, cdr) =>
      && 0 <= r < |h| && h[r].kind == kind && h[r].s == s
      && Rep(h, h[r].car, car) && Rep(h, h[r].cdr, cdr)
      && r !in Foot(h, h[r].car, car) && r !in Foot(h, h[r].cdr, cdr)
      && Foot(h, h[r].car, car) !! Foot(h, h[r].cdr, cdr)
  }

  predicate InStore(h: seq<Cell>, i: int) { 0 <= i < |h| }

  ghost function Nodes(h: seq<Cell>): set<int> {
    set i | 0 <= i < |h| && InStore(h, i)
  }

  lemma NodesGrow(h: seq<Cell>, h': seq<Cell>)
    requires |h| <= |h'|
    ensures Nodes(h) <= Nodes(h')
  {
  }

  /** Only the nodes of fp were changed, and new ones made. */
  ghost predicate Changed(h: seq<Cell>, h': seq<Cell>, fp: set<int>) {
    |h| <= |h'| && forall i | 0 <= i < |h| && i !in fp :: h'[i] == h[i]
  }

  /** What an operation yields: a tree made of the nodes that it was given and new ones. */
  ghost predicate Made(h: seq<Cell>, h': seq<Cell>, fp: set<int>, r: int, t: Tree) {
    Changed(h, h', fp) && Rep(h', r, t) && Foot(h', r, t) <= fp + (Nodes(h') - Nodes(h))
  }

  lemma {:induction false} FootIn(h: seq<Cell>, r: int, t: Tree)
    ensures Foot(h, r, t) <= Nodes(h)
    decreases t
  {
    if t.Node? && 0 <= r < |h| {
      FootIn(h, h[r].car, t.car);
      FootIn(h, h[r].cdr, t.cdr);
    }
  }

  /** A tree that has no node among the changed ones stays as it was. */
  lemma {:induction false} Keeps(h: seq<Cell>, h': seq<Cell>, fp: set<int>, r: int, t: Tree)
    requires Changed(h, h', fp) && Rep(h, r, t) && Foot(h, r, t) !! fp
    ensures Rep(h', r, t) && Foot(h', r, t) == Foot(h, r, t)
    decreases t
  {
    if t.Node? {
      Keeps(h, h', fp, h[r].car, t.car);
      Keeps(h, h', fp, h[r].cdr, t.cdr);
    }
  }

  /** Changing a field of the top node. */
  lemma SetTop(h: seq<Cell>, r: int, t: Tree, cell: Cell, t': Tree)
    requires Rep(h, r, t) && t.Node? && t'.Node? && cell.kind == t'.kind && cell.s == t'.s
    requires Rep(h, cell.car, t'.car) && Rep(h, cell.cdr, t'.cdr)
    requires r !in Foot(h, cell.car, t'.car) && r !in Foot(h, cell.cdr, t'.cdr)
    requires Foot(h, cell.car, t'.car) !! Foot(h, cell.cdr, t'.cdr)
    ensures Rep(h[r := cell], r, t')
    ensures Foot(h[r := cell], r, t') == {r} + Foot(h, cell.car, t'.car) + Foot(h, cell.cdr, t'.cdr)
  {
    var h' := h[r := cell];
    Keeps(h, h', {r}, cell.car, t'.car);
    Keeps(h, h', {r}, cell.cdr, t'.cdr);
  }

  /** A new node. */
  lemma NewTop(h: seq<Cell>, cell: Cell, t: Tree)
    requires t.Node? && cell.kind == t.kind && cell.s == t.s
    requires Rep(h, cell.car, t.car) && Rep(h, cell.cdr, t.cdr)
    requires Foot(h, cell.car, t.car) !! Foot(h, cell.cdr, t.cdr)
    ensures Rep(h + [cell], |h|, t)
    ensures Foot(h + [cell], |h|, t) == {|h|} + Foot(h, cell.car, t.car) + Foot(h, cell.cdr, t.cdr)
  {
    var h' := h + [cell];
    FootIn(h, cell.car, t.car);
    FootIn(h, cell.cdr, t.cdr);
    Keeps(h, h', {}, cell.car, t.car);
    Keeps(h, h', {}, cell.cdr, t.cdr);
  }

  // ----- the ends of lists

  /** The last cell of a list. */
  ghost function Last(h: seq<Cell>, r: int, t: Tree): int
    requires Rep(h, r, t) && t.Node?
    decreases t
  {
    if t.cdr.Node? then Last(h, h[r].cdr, t.cdr) else r
  }

  lemma {:induction false} SetLast(h: seq<Cell>, r: int, t: Tree, tail: int, tt: Tree)
    requires Rep(h, r, t) && t.Node? && Rep(h, tail, tt) && Foot(h, r, t) !! Foot(h, tail, tt)
    ensures var p := Last(h, r, t);
            && p in Foot(h, r, t) && 0 <= p < |h|
            && var h' := h[p := h[p].(cdr := tail)];
               Rep(h', r, Append(t, tt)) && Foot(h', r, Append(t, tt)) == Foot(h, r, t) + Foot(h, tail, tt)
    decreases t
  {
    var p := Last(h, r, t);
    if t.cdr.Node? {
      SetLast(h, h[r].cdr, t.cdr, tail, tt);
      var h' := h[p := h[p].(cdr := tail)];
      Keeps(h, h', {p}, h[r].car, t.car);
    } else {
      SetTop(h, r, t, h[r].(cdr := tail), t.(cdr := tt));
    }
  }

  /** The last of the queued redirections in front of a command. */
  ghost function LastRedir(h: seq<Cell>, r: int, t: Tree): int
    requires Rep(h, r, t) && Is(t, REDIR)
    decreases t
  {
    if Is(t.cdr, REDIR) then LastRedir(h, h[r].cdr, t.cdr) else r
  }

  ghost function AfterRedirs(t: Tree): Tree
    requires Is(t, REDIR)
  {
    if Is(t.cdr, REDIR) then AfterRedirs(t.cdr) else t.cdr
  }

  lemma {:induction false} LastRedirIn(h: seq<Cell>, r: int, t: Tree)
    requires Rep(h, r, t) && Is(t, REDIR)
    ensures var p := LastRedir(h, r, t);
            && p in Foot(h, r, t) && 0 <= p < |h| && Rep(h, h[p].cdr, AfterRedirs(t))
            && p !in Foot(h, h[p].cdr, AfterRedirs(t)) && Foot(h, h[p].cdr, AfterRedirs(t)) <= Foot(h, r, t)
    decreases t
  {
    if Is(t.cdr, REDIR) {
      LastRedirIn(h, h[r].cdr, t.cdr);
    }
  }

  /** The last redirection's CDR leads to the new node n, which leads to what it led to. */
  lemma {:induction false} Inserted(h: seq<Cell>, h': seq<Cell>, r: int, t: Tree, n: int, call: set<int>, ct: Tree)
    requires Rep(h, r, t) && Is(t, REDIR) && n >= |h| && Foot(h, r, t) !! call
    requires var p := LastRedir(h, r, t);
             0 <= p < |h| && Changed(h, h', {p}) && h'[p] == h[p].(cdr := n)
    requires Rep(h', n, Redir(ct, AfterRedirs(t)))
    requires var p := LastRedir(h, r, t);
             Foot(h', n, Redir(ct, AfterRedirs(t))) == {n} + call + Foot(h, h[p].cdr, AfterRedirs(t))
    ensures Rep(h', r, Insert(t, ct))
    ensures Foot(h', r, Insert(t, ct)) == Foot(h, r, t) + call + {n}
    decreases t
  {
    var p := LastRedir(h, r, t);
    FootIn(h, r, t);
    if Is(t.cdr, REDIR) {
      LastRedirIn(h, h[r].cdr, t.cdr);
      Inserted(h, h', h[r].cdr, t.cdr, n, call, ct);
      Keeps(h, h', {p}, h[r].car, t.car);
    } else {
      Keeps(h, h', {p}, h[r].car, t.car);
    }
  }

  lemma SetRedir(h: seq<Cell>, r: int, t: Tree, call: int, ct: Tree)
    requires Rep(h, r, t) && Is(t, REDIR) && Rep(h, call, ct) && Foot(h, r, t) !! Foot(h, call, ct)
    ensures var p := LastRedir(h, r, t);
            && p in Foot(h, r, t) && 0 <= p < |h|
            && var h' := (h + [Cell(REDIR, "", call, h[p].cdr)])[p := h[p].(cdr := |h|)];
               && Rep(h', r, Insert(t, ct))
               && Foot(h', r, Insert(t, ct)) == Foot(h, r, t) + Foot(h, call, ct) + {|h|}
  {
    hide Rep, Foot, LastRedir, AfterRedirs, Insert;
    LastRedirIn(h, r, t);
    FootIn(h, r, t);
    var p := LastRedir(h, r, t);
    var cell := Cell(REDIR, "", call, h[p].cdr);
    var node := Redir(ct, AfterRedirs(t));
    NewTop(h, cell, node);
    var h' := (h + [cell])[p := h[p].(cdr := |h|)];
    Keeps(h + [cell], h', {p}, |h|, node);
    Inserted(h, h', r, t, |h|, Foot(h, call, ct), ct);
  }

  /** The cell that holds the placeholder of a call. */
  ghost function HoleCell(h: seq<Cell>, r: int, t: Tree): int
    requires Rep(h, r, t) && IsCall(t)
    decreases t
  {
    if t.car.Hole? then r else HoleCell(h, h[r].cdr, t.cdr)
  }

  lemma {:induction false} SetHole(h: seq<Cell>, r: int, t: Tree, x: int, xt: Tree)
    requires Rep(h, r, t) && IsCall(t) && Rep(h, x, xt) && Foot(h, r, t) !! Foot(h, x, xt)
    ensures var p := HoleCell(h, r, t);
            && p in Foot(h, r, t) && 0 <= p < |h|
            && var h' := h[p := h[p].(car := x)];
               Rep(h', r, Fill(t, xt)) && Foot(h', r, Fill(t, xt)) == Foot(h, r, t) + Foot(h, x, xt)
    decreases t
  {
    var p := HoleCell(h, r, t);
    if t.car.Hole? {
      SetTop(h, r, t, h[r].(car := x), t.(car := xt));
    } else {
      SetHole(h, h[r].cdr, t.cdr, x, xt);
      var h' := h[p := h[p].(car := x)];
      Keeps(h, h', {p}, h[r].car, t.car);
    }
  }

  // ----- putting steps together

  /** What the node of a tree holds. */
  lemma Parts(h: seq<Cell>, r: int, t: Tree)
    requires Rep(h, r, t)
    ensures t.Node? <==> r >= 0
    ensures t.Nil? <==> r == NULL
    ensures t.Hole? <==> r == PLACEHOLDER
    ensures t.Node? ==>
              && r < |h| && h[r].kind == t.kind && h[r].s == t.s
              && Rep(h, h[r].car, t.car) && Rep(h, h[r].cdr, t.cdr)
              && r !in Foot(h, h[r].car, t.car) && r !in Foot(h, h[r].cdr, t.cdr)
              && Foot(h, h[r].car, t.car) !! Foot(h, h[r].cdr, t.cdr)
              && Foot(h, r, t) == {r} + Foot(h, h[r].car, t.car) + Foot(h, h[r].cdr, t.cdr)
    ensures !t.Node? ==> Foot(h, r, t) == {}
  {
  }

  lemma NilRep(h: seq<Cell>)
    ensures Rep(h, NULL, Nil) && Foot(h, NULL, Nil) == {}
    ensures Rep(h, PLACEHOLDER, Hole) && Foot(h, PLACEHOLDER, Hole) == {}
    ensures Rep(h, ERROR_NODE, Bad) && Foot(h, ERROR_NODE, Bad) == {}
  {
  }

  lemma Same(h: seq<Cell>, r: int, t: Tree)
    requires Rep(h, r, t)
    ensures Made(h, h, Foot(h, r, t), r, t)
  {
  }

  /** Another tree, beside what an operation has made. */
  lemma Beside(h: seq<Cell>, h': seq<Cell>, fp: set<int>, r: int, t: Tree, r2: int, t2: Tree)
    requires Made(h, h', fp, r, t) && Rep(h, r2, t2) && Foot(h, r2, t2) !! fp
    ensures Rep(h', r2, t2) && Foot(h', r2, t2) == Foot(h, r2, t2) && Foot(h', r2, t2) !! Foot(h', r, t)
  {
    hide Rep, Foot;
    FootIn(h, r2, t2);
    Keeps(h, h', fp, r2, t2);
  }

  /** One operation after another. */
  lemma Then(h: seq<Cell>, h1: seq<Cell>, h2: seq<Cell>, fp: set<int>, fp1: set<int>, fp2: set<int>,
             r1: int, t1: Tree, r2: int, t2: Tree)
    requires Made(h, h1, fp1, r1, t1) && Made(h1, h2, fp2, r2, t2)
    requires fp1 <= fp && fp2 <= fp + (Nodes(h1) - Nodes(h))
    ensures Made(h, h2, fp, r2, t2)
  {
    hide Rep, Foot;
    NodesGrow(h, h1);
    NodesGrow(h1, h2);
  }

  lemma Wider(h: seq<Cell>, h': seq<Cell>, fp: set<int>, more: set<int>, r: int, t: Tree)
    requires Made(h, h', fp, r, t) && fp <= more
    ensures Made(h, h', more, r, t) && Rep(h', r, t)
    ensures Foot(h', r, t) <= more + (Nodes(h') - Nodes(h))
  {
    hide Rep, Foot;
  }

  // ----- the operations

  class Trees {
    var heap: seq<Cell>

    constructor ()
      ensures heap == []
    {
      heap := [];
    }

    /** mk */
    method Mk(kind: Kind, s: string, car: int, cdr: int, ghost ct: Tree, ghost dt: Tree) returns (r: int)
      requires Rep(heap, car, ct) && Rep(heap, cdr, dt) && Foot(heap, car, ct) !! Foot(heap, cdr, dt)
      modifies this
      ensures Made(old(heap), heap, Foot(old(heap), car, ct) + Foot(old(heap), cdr, dt), r, Node(kind, s, ct, dt))
    {
      hide Rep, Foot;
      NewTop(heap, Cell(kind, s, car, cdr), Node(kind, s, ct, dt));
      r := |heap|;
      heap := heap + [Cell(kind, s, car, cdr)];
    }

    /** treeappend: the last cell of the list is found and its CDR set. */
    method TreeAppend(head: int, tail: int, ghost ht: Tree, ghost tt: Tree) returns (r: int)
      requires Rep(heap, head, ht) && Rep(heap, tail, tt) && Foot(heap, head, ht) !! Foot(heap, tail, tt)
      requires IsSpine(ht)
      modifies this
      ensures Made(old(heap), heap, Foot(old(heap), head, ht) + Foot(old(heap), tail, tt), r, Append(ht, tt))
    {
      hide Rep, Foot;
      Parts(heap, head, ht);
      if head == NULL {
        Same(heap, tail, tt);
        return tail;
      }
      SetLast(heap, head, ht, tail, tt);
      var p := head;
      ghost var pt := ht;
      LastStep(heap, p, pt);
      while heap[p].cdr != NULL
        invariant heap == old(heap) && 0 <= p < |heap| && Rep(heap, p, pt) && pt.Node? && IsSpine(pt)
        invariant Last(heap, p, pt) == Last(heap, head, ht)
        decreases pt
      {
        Parts(heap, p, pt);
        LastStep(heap, p, pt);
        p, pt := heap[p].cdr, pt.cdr;
        Parts(heap, p, pt);
      }
      LastStep(heap, p, pt);
      heap := heap[p := heap[p].(cdr := tail)];
      r := head;
    }

    /** firstis */
    method FirstIs(r: int, s: string, ghost t: Tree) returns (b: bool)
      requires Rep(heap, r, t)
      ensures b <==> SyntaxTrees.FirstIs(t, s)
    {
      if r < 0 || heap[r].kind != LIST {
        return false;
      }
      var car := heap[r].car;
      if car < 0 || heap[car].kind != WORD {
        return false;
      }
      b := heap[car].s == s;
    }

    /** thunkify */
    method Thunkify(r: int, ghost t: Tree) returns (r': int)
      requires Rep(heap, r, t)
      modifies this
      ensures Made(old(heap), heap, Foot(old(heap), r, t), r', SyntaxTrees.Thunkify(t))
    {
      var already := r >= 0 && (heap[r].kind == THUNK ||
                                (heap[r].kind == LIST && heap[r].car >= 0 && heap[heap[r].car].kind == THUNK && heap[r].cdr == NULL));
      assert already == IsThunk(t);
      if already {
        Same(heap, r, t);
        return r;
      }
      NilRep(heap);
      r' := Mk(THUNK, "", r, NULL, t, Nil);
    }

    /** prefix */
    method Prefix(s: string, r: int, ghost t: Tree) returns (r': int)
      requires Rep(heap, r, t)
      modifies this
      ensures Made(old(heap), heap, Foot(old(heap), r, t), r', SyntaxTrees.Prefix(s, t))
    {
      hide Rep, Foot, Made;
      NilRep(heap);
      assert Foot(heap, NULL, Nil) + Foot(heap, NULL, Nil) == {};
      var word := Mk(WORD, s, NULL, NULL, Nil, Nil);
      ghost var h1 := heap;
      Beside(old(heap), heap, {}, word, Leaf(WORD, s), r, t);
      MadeRep(old(heap), heap, {}, word, Leaf(WORD, s));
      r' := Mk(LIST, "", word, r, Leaf(WORD, s), t);
      Then(old(heap), h1, heap, Foot(old(heap), r, t), {}, Foot(h1, word, Leaf(WORD, s)) + Foot(h1, r, t),
           word, Leaf(WORD, s), r', SyntaxTrees.Prefix(s, t));
    }

    /** A list cell around a command, made a thunk. */
    method ThunkList(r: int, rest: int, ghost t: Tree, ghost rt: Tree) returns (r': int)
      requires Rep(heap, r, t) && Rep(heap, rest, rt) && Foot(heap, r, t) !! Foot(heap, rest, rt)
      modifies this
      ensures Made(old(heap), heap, Foot(old(heap), r, t) + Foot(old(heap), rest, rt), r', List(SyntaxTrees.Thunkify(t), rt))
    {
      hide Rep, Foot, Made;
      var thunk := Thunkify(r, t);
      ghost var h1, tt := heap, SyntaxTrees.Thunkify(t);
      Beside(old(heap), h1, Foot(old(heap), r, t), thunk, tt, rest, rt);
      MadeRep(old(heap), h1, Foot(old(heap), r, t), thunk, tt);
      r' := Mk(LIST, "", thunk, rest, tt, rt);
      Then(old(heap), h1, heap, Foot(old(heap), r, t) + Foot(old(heap), rest, rt), Foot(old(heap), r, t),
           Foot(h1, thunk, tt) + Foot(h1, rest, rt), thunk, tt, r', List(tt, rt));
    }

    /** Replacing what follows the first word of a call, which keeps its top node. */
    method SetTail(r: int, tail: int, ghost t: Tree, ghost h: seq<Cell>, ghost fp: set<int>, ghost tt: Tree)
      requires Rep(h, r, t) && t.Node? && Made(h, heap, fp, tail, tt)
      requires r !in fp && Foot(h, h[r].car, t.car) !! fp
      modifies this
      ensures Made(h, heap, fp + Foot(h, r, t), r, t.(cdr := tt))
    {
      hide Rep, Foot;
      Parts(h, r, t);
      FootIn(h, r, t);
      Keeps(h, heap, fp, h[r].car, t.car);
      NodeRep(heap, r, heap[r].car, heap[r].cdr, t, tt, tail);
      heap := heap[r := heap[r].(cdr := tail)];
    }

    /** The end of mkseq and mkpipe: the left command is put in front of the tail. */
    method Assemble(op: string, t1: int, t2: int, sametail: bool, tail: int,
                    ghost a: Tree, ghost b: Tree, ghost rest: Tree, ghost h: seq<Cell>, ghost tailfp: set<int>) returns (r: int)
      requires Rep(h, t1, a) && Rep(h, t2, b) && Foot(h, t1, a) !! Foot(h, t2, b)
      requires Made(h, heap, tailfp, tail, rest) && (SyntaxTrees.FirstIs(a, op) ==> IsSpine(a))
      requires if sametail then t2 >= 0 && t2 < |h| && b.Node? && tailfp == Foot(h, h[t2].cdr, b.cdr) else tailfp == Foot(h, t2, b)
      modifies this
      ensures Made(h, heap, Foot(h, t1, a) + Foot(h, t2, b), r, Assembled(op, a, b, sametail, rest))
    {
      hide Rep, Foot, Made;
      ghost var fp := Foot(h, t1, a) + Foot(h, t2, b);
      ghost var h1 := heap;
      Parts(h, t2, b);
      Beside(h, h1, tailfp, tail, rest, t1, a);
      MadeRep(h, h1, tailfp, tail, rest);
      var same := FirstIs(t1, op, a);
      ghost var both := Foot(h1, t1, a) + Foot(h1, tail, rest);
      if same {
        r := TreeAppend(t1, tail, a, rest);
        Then(h, h1, heap, fp, tailfp, both, tail, rest, r, Append(a, rest));
        return;
      }
      var list := ThunkList(t1, tail, a, rest);
      ghost var lt := List(SyntaxTrees.Thunkify(a), rest);
      Then(h, h1, heap, Foot(h, t1, a) + tailfp, tailfp, both, tail, rest, list, lt);
      if sametail {
        SetTail(t2, list, b, h, Foot(h, t1, a) + tailfp, lt);
        Wider(h, heap, Foot(h, t1, a) + tailfp + Foot(h, t2, b), fp, t2, b.(cdr := lt));
        return t2;
      }
      ghost var h2 := heap;
      MadeRep(h, h2, Foot(h, t1, a) + tailfp, list, lt);
      r := Prefix(op, list, lt);
      Then(h, h2, heap, fp, Foot(h, t1, a) + tailfp, Foot(h2, list, lt), list, lt, r, SyntaxTrees.Prefix(op, lt));
    }

    /** The operands of the right command: its own list, or a new one. */
    method Tail(op: string, t2: int, ghost b: Tree) returns (sametail: bool, tail: int)
      requires Rep(heap, t2, b)
      modifies this
      ensures sametail == SyntaxTrees.FirstIs(b, op)
      ensures sametail ==> heap == old(heap) && 0 <= t2 < |heap| && tail == heap[t2].cdr
                           && Made(old(heap), heap, Foot(old(heap), tail, b.cdr), tail, Operands(op, b))
      ensures !sametail ==> Made(old(heap), heap, Foot(old(heap), t2, b), tail, Operands(op, b))
    {
      hide Rep, Foot, Made;
      Parts(heap, t2, b);
      sametail := FirstIs(t2, op, b);
      if sametail {
        tail := heap[t2].cdr;
        Same(heap, tail, b.cdr);
      } else {
        NilRep(heap);
        assert Foot(heap, t2, b) + Foot(heap, NULL, Nil) == Foot(heap, t2, b);
        tail := ThunkList(t2, NULL, b, Nil);
      }
    }

    /** mkseq */
    method Mkseq(op: string, t1: int, t2: int, ghost a: Tree, ghost b: Tree) returns (r: int)
      requires Rep(heap, t1, a) && Rep(heap, t2, b) && Foot(heap, t1, a) !! Foot(heap, t2, b)
      requires SyntaxTrees.FirstIs(a, op) ==> IsSpine(a)
      modifies this
      ensures Made(old(heap), heap, Foot(old(heap), t1, a) + Foot(old(heap), t2, b), r, SyntaxTrees.Mkseq(op, a, b))
    {
      hide Rep, Foot, Made;
      ghost var h := heap;
      ghost var fp := Foot(h, t1, a) + Foot(h, t2, b);
      Parts(h, t1, a);
      Parts(h, t2, b);
      if op == "%seq" {
        if t1 == NULL {
          Same(h, t2, b);
          Wider(h, h, Foot(h, t2, b), fp, t2, b);
          return t2;
        }
        if t2 == NULL {
          Same(h, t1, a);
          Wider(h, h, Foot(h, t1, a), fp, t1, a);
          return t1;
        }
      }
      var sametail, tail := Tail(op, t2, b);
      ghost var tailfp := if sametail then Foot(h, tail, b.cdr) else Foot(h, t2, b);
      r := Assemble(op, t1, t2, sametail, tail, a, b, Operands(op, b), h, tailfp);
    }

    /** mkpipe */
    method Mkpipe(t1: int, outfd: string, infd: string, t2: int, ghost a: Tree, ghost b: Tree) returns (r: int)
      requires Rep(heap, t1, a) && Rep(heap, t2, b) && Foot(heap, t1, a) !! Foot(heap, t2, b)
      requires SyntaxTrees.FirstIs(a, "%pipe") ==> IsSpine(a)
      modifies this
      ensures Made(old(heap), heap, Foot(old(heap), t1, a) + Foot(old(heap), t2, b), r,
                   SyntaxTrees.Mkpipe(a, outfd, infd, b))
    {
      hide Rep, Foot, Made;
      ghost var h := heap;
      Parts(h, t2, b);
      var pipetail, tail := Tail("%pipe", t2, b);
      ghost var tailfp := if pipetail then Foot(h, tail, b.cdr) else Foot(h, t2, b);
      ghost var rest := Operands("%pipe", b);
      ghost var h1 := heap;
      MadeRep(h, h1, tailfp, tail, rest);
      var inner := Prefix(infd, tail, rest);
      ghost var it := SyntaxTrees.Prefix(infd, rest);
      Then(h, h1, heap, tailfp, tailfp, Foot(h1, tail, rest), tail, rest, inner, it);
      ghost var h2 := heap;
      MadeRep(h, h2, tailfp, inner, it);
      var outer := Prefix(outfd, inner, it);
      ghost var ot := SyntaxTrees.Prefix(outfd, it);
      Then(h, h2, heap, tailfp, tailfp, Foot(h2, inner, it), inner, it, outer, ot);
      r := Assemble("%pipe", t1, t2, pipetail, outer, a, b, ot, h, tailfp);
    }

    /** The words that a redirection adds are appended to the command; what is left is the
        call. */
    method AddWords(tree: int, redir: int, ghost t: Tree, ghost rt: Tree) returns (tree': int, call: int)
      requires Rep(heap, tree, t) && Rep(heap, redir, rt) && Foot(heap, tree, t) !! Foot(heap, redir, rt)
      requires IsRedirection(rt) && (Is(rt, REDIR) ==> IsSpine(t))
      modifies this
      ensures var fp := Foot(old(heap), tree, t) + Foot(old(heap), redir, rt);
              && Made(old(heap), heap, fp, tree', SyntaxTrees.AddWords(t, rt))
              && Made(old(heap), heap, fp, call, CallOf(rt))
              && Foot(heap, tree', SyntaxTrees.AddWords(t, rt)) !! Foot(heap, call, CallOf(rt))
    {
      hide Rep, Foot, Made;
      tree', call := tree, redir;
      ghost var h, fp := heap, Foot(heap, tree, t) + Foot(heap, redir, rt);
      ghost var tt, rr := t, rt;
      Same(h, tree, t);
      Same(h, redir, rt);
      Wider(h, h, Foot(h, tree, t), fp, tree, t);
      Wider(h, h, Foot(h, redir, rt), fp, redir, rt);
      Parts(heap, call, rr);
      while heap[call].kind == REDIR
        invariant Made(h, heap, fp, tree', tt) && Made(h, heap, fp, call, rr) && Foot(heap, tree', tt) !! Foot(heap, call, rr)
        invariant (Is(rr, REDIR) ==> IsSpine(tt)) && IsRedirection(rr) && 0 <= call < |heap| && rr.Node? && heap[call].kind == rr.kind
        invariant SyntaxTrees.AddWords(tt, rr) == SyntaxTrees.AddWords(t, rt) && CallOf(rr) == CallOf(rt)
        decreases rr
      {
        ghost var h1, r1, t1 := heap, call, tree';
        MadeRep(h, h1, fp, tree', tt);
        MadeRep(h, h1, fp, call, rr);
        Parts(h1, call, rr);
        WordsAreSpine(rr.car);
        AppendSpine(tt, rr.car);
        var car, cdr := heap[call].car, heap[call].cdr;
        ghost var both := Foot(h1, tree', tt) + Foot(h1, car, rr.car);
        tree' := TreeAppend(tree', car, tt, rr.car);
        Beside(h1, heap, both, tree', Append(tt, rr.car), cdr, rr.cdr);
        Then(h, h1, heap, fp, fp, both, t1, tt, tree', Append(tt, rr.car));
        MadeRep(h, heap, fp, tree', Append(tt, rr.car));
        MadeBeside(h, h1, heap, fp, both, tree', Append(tt, rr.car), cdr, rr.cdr, Foot(h1, r1, rr));
        call, tt, rr := cdr, Append(tt, rr.car), rr.cdr;
        Parts(heap, call, rr);
      }
    }

    /** redirappend */
    method RedirAppend(tree: int, redir: int, ghost t: Tree, ghost rt: Tree) returns (r: int)
      requires Rep(heap, tree, t) && Rep(heap, redir, rt) && Foot(heap, tree, t) !! Foot(heap, redir, rt)
      requires IsSpine(t) && IsRedirection(rt)
      modifies this
      ensures Made(old(heap), heap, Foot(old(heap), tree, t) + Foot(old(heap), redir, rt), r,
                   SyntaxTrees.RedirAppend(t, rt))
    {
      hide Rep, Foot, Made;
      ghost var h, fp := heap, Foot(heap, tree, t) + Foot(heap, redir, rt);
      var call;
      r, call := AddWords(tree, redir, t, rt);
      ghost var tt, ct, h1, top := SyntaxTrees.AddWords(t, rt), CallOf(rt), heap, r;
      ghost var both := Foot(h1, r, tt) + Foot(h1, call, ct);
      MadeRep(h, h1, fp, r, tt);
      MadeRep(h, h1, fp, call, ct);
      Parts(h1, r, tt);
      if r < 0 || heap[r].kind != REDIR {
        assert Foot(h1, call, ct) + Foot(h1, r, tt) == both;
        r := Mk(REDIR, "", call, r, ct, tt);
      } else {
        SetRedir(h1, r, tt, call, ct);
        var p := r;
        ghost var pt := tt;
        RedirStep(heap, p, pt);
        while heap[p].cdr >= 0 && heap[heap[p].cdr].kind == REDIR
          invariant heap == h1 && 0 <= p < |heap| && Rep(heap, p, pt) && Is(pt, REDIR)
          invariant heap[p].cdr < |heap| && LastRedir(heap, p, pt) == LastRedir(heap, r, tt)
          decreases pt
        {
          RedirStep(heap, p, pt);
          p, pt := heap[p].cdr, pt.cdr;
          RedirStep(heap, p, pt);
        }
        RedirStep(heap, p, pt);
        var node := |heap|;
        heap := heap + [Cell(REDIR, "", call, heap[p].cdr)];
        heap := heap[p := heap[p].(cdr := node)];
        MadeNew(h1, heap, both, r, Insert(tt, ct));
      }
      Then(h, h1, heap, fp, fp, both, top, tt, r, Insert(tt, ct));
    }

    /** queueheredoc, as far as it changes the tree: the call is renamed before its marker is
        looked at. */
    method QueueHeredoc(r: int, ghost t: Tree) returns (ok: bool)
      requires Rep(heap, r, t) && IsCall(t) && SyntaxTrees.FirstIs(t, "%heredoc")
      modifies this
      ensures ok == !BadHeredoc(t)
      ensures Made(old(heap), heap, Foot(old(heap), r, t), r, Queued(t))
              && IsCall(Queued(t)) && HoleCell(heap, r, Queued(t)) == HoleCell(old(heap), r, t)
    {
      HeredocParts(heap, r, t);
      SetWord(heap, r, t);
      var word, rest := heap[r].car, heap[r].cdr;
      heap := heap[word := heap[word].(s := "%here")];
      if rest < 0 || heap[rest].kind != LIST || heap[rest].cdr < 0 || heap[heap[rest].cdr].kind != LIST {
        return false;
      }
      var eof := heap[heap[rest].cdr].car;
      ok := eof >= 0 && (heap[eof].kind == WORD || heap[eof].kind == QWORD);
    }

    /** The cell of a call that holds the placeholder. */
    method FindHole(call: int, ghost ct: Tree) returns (p: int)
      requires Rep(heap, call, ct) && IsCall(ct)
      ensures p == HoleCell(heap, call, ct)
    {
      hide Rep, Foot, HoleCell, IsCall;
      p := call;
      ghost var pt := ct;
      HoleStep(heap, p, pt);
      while heap[p].car != PLACEHOLDER
        invariant 0 <= p < |heap| && Rep(heap, p, pt) && IsCall(pt)
        invariant HoleCell(heap, p, pt) == HoleCell(heap, call, ct)
        decreases pt
      {
        HoleStep(heap, p, pt);
        p, pt := heap[p].cdr, pt.cdr;
        HoleStep(heap, p, pt);
      }
      HoleStep(heap, p, pt);
    }

    /** The end of redirect: the rest of the command is rewritten and put into the call. */
    method FillCall(call: int, p: int, rest: int, ghost ct: Tree, ghost t: Tree)
      requires Rep(heap, call, ct) && IsCall(ct) && p == HoleCell(heap, call, ct)
      requires Rep(heap, rest, t) && IsCommand(t) && Foot(heap, rest, t) !! Foot(heap, call, ct)
      modifies this
      ensures Made(old(heap), heap, Foot(old(heap), call, ct) + Foot(old(heap), rest, t), call,
                   Fill(ct, SyntaxTrees.Thunkify(SyntaxTrees.Redirect(t))))
      decreases Redirs(t), 1
    {
      hide Rep, Foot, Made, HoleCell, IsCall, SyntaxTrees.Redirect, SyntaxTrees.Thunkify;
      ghost var h, fp := heap, Foot(heap, rest, t);
      ghost var xt := SyntaxTrees.Redirect(t);
      var x := Redirect(rest, t);
      ghost var h1, x1 := heap, x;
      MadeRep(h, h1, fp, x, xt);
      x := Thunkify(x, xt);
      ghost var h2, tt := heap, SyntaxTrees.Thunkify(xt);
      Then(h, h1, h2, fp, fp, Foot(h1, x1, xt), x1, xt, x, tt);
      Beside(h, h2, fp, x, tt, call, ct);
      MadeRep(h, h2, fp, x, tt);
      HoleKeeps(h, h2, fp, call, ct);
      SetHole(h2, call, ct, x, tt);
      heap := heap[p := heap[p].(car := x)];
      MadeFilled(h, h2, heap, fp, x, tt, call, ct, p, Fill(ct, tt));
    }

    /** redirect */
    method Redirect(tree: int, ghost t: Tree) returns (r: int)
      requires Rep(heap, tree, t) && IsCommand(t)
      modifies this
      ensures Made(old(heap), heap, Foot(old(heap), tree, t), r, SyntaxTrees.Redirect(t))
      decreases Redirs(t), 0
    {
      hide Rep, Foot, Made, HoleCell, BadHeredoc, SyntaxTrees.Redirect, SyntaxTrees.AddWords, Fill, Queued, IsCall;
      ghost var h, fp := heap, Foot(heap, tree, t);
      Parts(h, tree, t);
      if tree < 0 || heap[tree].kind != REDIR {
        Same(h, tree, t);
        NotRedirected(t);
        return tree;
      }
      RedirectStep(t);
      ghost var tt, ct := SyntaxTrees.AddWords(t.cdr, t.car), CallOf(t.car);
      ghost var inner := Foot(h, heap[tree].cdr, t.cdr) + Foot(h, heap[tree].car, t.car);
      var rest, call := AddWords(heap[tree].cdr, heap[tree].car, t.cdr, t.car);
      ghost var h1 := heap;
      Wider(h, h1, inner, fp, rest, tt);
      Wider(h, h1, inner, fp, call, ct);
      MadeRep(h, h1, fp, call, ct);
      var p := FindHole(call, ct);
      ghost var cfp, qt := Foot(h1, call, ct), Queued(ct);
      var heredoc := FirstIs(call, "%heredoc", ct);
      if heredoc {
        var ok := QueueHeredoc(call, ct);
        if !ok {
          Then(h, h1, heap, fp, fp, cfp, call, ct, call, qt);
          BadMade(h, heap, fp, call, qt);
          return ERROR_NODE;
        }
      } else {
        NotHeredoc(ct);
        Same(h1, call, ct);
      }
      ghost var h2 := heap;
      Beside(h1, h2, cfp, call, qt, rest, tt);
      MadeRep(h1, h2, cfp, call, qt);
      Then(h, h1, h2, fp, fp, cfp, call, ct, call, qt);
      MadeRep(h, h2, fp, call, qt);
      MadeBeside(h, h1, h2, fp, cfp, call, qt, rest, tt, Foot(h1, rest, tt));
      MadeRep(h, h2, fp, rest, tt);
      FillCall(call, p, rest, qt, tt);
      ghost var filled := Fill(qt, SyntaxTrees.Thunkify(SyntaxTrees.Redirect(tt)));
      Then(h, h2, heap, fp, fp, Foot(h2, call, qt) + Foot(h2, rest, tt), call, qt, call, filled);
      r := call;
    }
  }

  function Assembled(op: string, a: Tree, b: Tree, sametail: bool, rest: Tree): Tree {
    if SyntaxTrees.FirstIs(a, op) then Append(a, rest)
    else if sametail && b.Node? then b.(cdr := List(SyntaxTrees.Thunkify(a), rest))
    else SyntaxTrees.Prefix(op, List(SyntaxTrees.Thunkify(a), rest))
  }

  /** A part of what was there, which the last operation did not touch. */
  lemma MadeBeside(h: seq<Cell>, h1: seq<Cell>, h2: seq<Cell>, fp: set<int>, fp1: set<int>,
                   r: int, t: Tree, r2: int, t2: Tree, whole: set<int>)
    requires Changed(h, h2, fp) && |h| <= |h1| && Made(h1, h2, fp1, r, t)
    requires Rep(h1, r2, t2) && Foot(h1, r2, t2) <= whole <= fp + (Nodes(h1) - Nodes(h)) && Foot(h1, r2, t2) !! fp1
    ensures Made(h, h2, fp, r2, t2) && Foot(h2, r2, t2) !! Foot(h2, r, t)
  {
    hide Rep, Foot;
    Beside(h1, h2, fp1, r, t, r2, t2);
    NodesGrow(h, h1);
    NodesGrow(h1, h2);
  }

  lemma NodeRep(h: seq<Cell>, r: int, car: int, cdr: int, t: Tree, tt: Tree, tail: int)
    requires t.Node? && 0 <= r < |h| && h[r] == Cell(t.kind, t.s, car, cdr)
    requires Rep(h, car, t.car) && Rep(h, tail, tt)
    requires r !in Foot(h, car, t.car) && r !in Foot(h, tail, tt) && Foot(h, car, t.car) !! Foot(h, tail, tt)
    ensures var h' := h[r := h[r].(cdr := tail)];
            Rep(h', r, t.(cdr := tt)) && Foot(h', r, t.(cdr := tt)) == {r} + Foot(h, car, t.car) + Foot(h, tail, tt)
  {
    hide Rep, Foot;
    var h' := h[r := h[r].(cdr := tail)];
    Keeps(h, h', {r}, car, t.car);
    Keeps(h, h', {r}, tail, tt);
    MakeNode(h', r, t.(cdr := tt));
  }

  lemma MakeNode(h: seq<Cell>, r: int, t: Tree)
    requires t.Node? && 0 <= r < |h| && h[r].kind == t.kind && h[r].s == t.s
    requires Rep(h, h[r].car, t.car) && Rep(h, h[r].cdr, t.cdr)
    requires r !in Foot(h, h[r].car, t.car) && r !in Foot(h, h[r].cdr, t.cdr)
    requires Foot(h, h[r].car, t.car) !! Foot(h, h[r].cdr, t.cdr)
    ensures Rep(h, r, t) && Foot(h, r, t) == {r} + Foot(h, h[r].car, t.car) + Foot(h, h[r].cdr, t.cdr)
  {
  }

  lemma MadeRep(h: seq<Cell>, h': seq<Cell>, fp: set<int>, r: int, t: Tree)
    requires Made(h, h', fp, r, t)
    ensures Changed(h, h', fp) && Rep(h', r, t)
    ensures Foot(h', r, t) <= fp + (Nodes(h') - Nodes(h))
  {
  }

  lemma LastStep(h: seq<Cell>, r: int, t: Tree)
    requires Rep(h, r, t) && t.Node? && IsSpine(t)
    ensures 0 <= r < |h| && Rep(h, h[r].cdr, t.cdr) && (h[r].cdr == NULL <==> !t.cdr.Node?)
    ensures Last(h, r, t) == if h[r].cdr == NULL then r else Last(h, h[r].cdr, t.cdr)
  {
  }

  lemma RedirStep(h: seq<Cell>, r: int, t: Tree)
    requires Rep(h, r, t) && Is(t, REDIR)
    ensures 0 <= r < |h| && Rep(h, h[r].cdr, t.cdr) && h[r].cdr < |h|
    ensures (h[r].cdr >= 0 && h[h[r].cdr].kind == REDIR) <==> Is(t.cdr, REDIR)
    ensures LastRedir(h, r, t) == if Is(t.cdr, REDIR) then LastRedir(h, h[r].cdr, t.cdr) else r
  {
  }

  lemma MadeNew(h: seq<Cell>, h': seq<Cell>, fp: set<int>, r: int, t: Tree)
    requires Changed(h, h', fp) && |h'| == |h| + 1 && Rep(h', r, t) && Foot(h', r, t) == fp + {|h|}
    ensures Made(h, h', fp, r, t)
  {
    hide Rep, Foot;
    assert |h| in Nodes(h') && |h| !in Nodes(h);
  }

  lemma NotRedirected(t: Tree)
    requires IsCommand(t) && !Is(t, REDIR)
    ensures SyntaxTrees.Redirect(t) == t
  {
  }

  lemma NotHeredoc(t: Tree)
    requires !SyntaxTrees.FirstIs(t, "%heredoc")
    ensures !BadHeredoc(t) && Queued(t) == t
  {
  }

  lemma RedirectStep(t: Tree)
    requires IsCommand(t) && Is(t, REDIR)
    ensures (Is(t.car, REDIR) ==> IsSpine(t.cdr)) && IsRedirection(t.car) && IsCall(CallOf(t.car))
    ensures var tt := SyntaxTrees.AddWords(t.cdr, t.car);
            && IsCommand(tt) && Redirs(tt) < Redirs(t)
            && SyntaxTrees.Redirect(t) == if BadHeredoc(CallOf(t.car)) then Bad
                                          else Fill(Queued(CallOf(t.car)), SyntaxTrees.Thunkify(SyntaxTrees.Redirect(tt)))
  {
    AddWordsKeeps(t.cdr, t.car);
    CallOfIsCall(t.car);
  }

  lemma HoleStep(h: seq<Cell>, r: int, t: Tree)
    requires Rep(h, r, t) && IsCall(t)
    ensures 0 <= r < |h| && (h[r].car == PLACEHOLDER <==> t.car.Hole?) && t.Node?
    ensures h[r].car != PLACEHOLDER ==> Rep(h, h[r].cdr, t.cdr) && IsCall(t.cdr)
    ensures HoleCell(h, r, t) == if h[r].car == PLACEHOLDER then r else HoleCell(h, h[r].cdr, t.cdr)
  {
    Parts(h, h[r].car, t.car);
  }

  lemma {:induction false} HoleIn(h: seq<Cell>, r: int, t: Tree)
    requires Rep(h, r, t) && IsCall(t)
    ensures HoleCell(h, r, t) in Foot(h, r, t) && 0 <= HoleCell(h, r, t) < |h|
    decreases t
  {
    if !t.car.Hole? {
      HoleIn(h, h[r].cdr, t.cdr);
    }
  }

  /** The placeholder stays where it is while other nodes change. */
  lemma {:induction false} HoleKeeps(h: seq<Cell>, h': seq<Cell>, fp: set<int>, r: int, t: Tree)
    requires Changed(h, h', fp) && Rep(h, r, t) && Foot(h, r, t) !! fp && IsCall(t)
    ensures Rep(h', r, t) && HoleCell(h', r, t) == HoleCell(h, r, t)
    decreases t
  {
    Keeps(h, h', fp, r, t);
    if !t.car.Hole? {
      HoleKeeps(h, h', fp, h[r].cdr, t.cdr);
    }
  }

  lemma HeredocParts(h: seq<Cell>, r: int, t: Tree)
    requires Rep(h, r, t) && SyntaxTrees.FirstIs(t, "%heredoc")
    ensures 0 <= r < |h| && 0 <= h[r].car < |h| && h[r].cdr < |h|
    ensures h[r].cdr >= 0 ==> h[h[r].cdr].cdr < |h|
    ensures h[r].cdr >= 0 && h[h[r].cdr].cdr >= 0 ==> h[h[h[r].cdr].cdr].car < |h|
    ensures BadHeredoc(t) <==>
              !(h[r].cdr >= 0 && h[h[r].cdr].kind == LIST && h[h[r].cdr].cdr >= 0 && h[h[h[r].cdr].cdr].kind == LIST
                && var eof := h[h[h[r].cdr].cdr].car;
                   eof >= 0 && (h[eof].kind == WORD || h[eof].kind == QWORD))
  {
    Parts(h, r, t);
    Parts(h, h[r].cdr, t.cdr);
    if t.cdr.Node? {
      Parts(h, h[h[r].cdr].cdr, t.cdr.cdr);
      if t.cdr.cdr.Node? {
        Parts(h, h[h[h[r].cdr].cdr].car, t.cdr.cdr.car);
      }
    }
  }

  lemma SetWord(h: seq<Cell>, r: int, t: Tree)
    requires Rep(h, r, t) && IsCall(t) && SyntaxTrees.FirstIs(t, "%heredoc")
    ensures 0 <= r < |h| && 0 <= h[r].car < |h|
    ensures var h' := h[h[r].car := h[h[r].car].(s := "%here")];
            && Made(h, h', Foot(h, r, t), r, Queued(t))
            && IsCall(Queued(t)) && HoleCell(h', r, Queued(t)) == HoleCell(h, r, t)
  {
    var word := h[r].car;
    var cell := h[word].(s := "%here");
    var h' := h[word := cell];
    SetTop(h, word, t.car, cell, t.car.(s := "%here"));
    Keeps(h, h', {word}, h[r].cdr, t.cdr);
    HoleKeeps(h, h', {word}, h[r].cdr, t.cdr);
    MakeNode(h', r, Queued(t));
  }

  lemma BadMade(h: seq<Cell>, h': seq<Cell>, fp: set<int>, r: int, t: Tree)
    requires Made(h, h', fp, r, t)
    ensures Made(h, h', fp, ERROR_NODE, Bad)
  {
  }

  lemma MadeFilled(h: seq<Cell>, h2: seq<Cell>, h3: seq<Cell>, fp: set<int>, x: int, tt: Tree, call: int, ct: Tree,
                   p: int, filled: Tree)
    requires Made(h, h2, fp, x, tt) && Rep(h, call, ct) && Foot(h2, call, ct) == Foot(h, call, ct)
    requires p in Foot(h, call, ct) && Changed(h2, h3, {p}) && |h3| == |h2|
    requires Rep(h3, call, filled) && Foot(h3, call, filled) == Foot(h2, call, ct) + Foot(h2, x, tt)
    ensures Made(h, h3, Foot(h, call, ct) + fp, call, filled)
  {
    hide Rep, Foot;
    NodesGrow(h2, h3);
  }
}
