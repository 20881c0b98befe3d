/** src/eval.c: dealing lists of values out to names, by assignment, `let` and lambda
    parameters, and round by round in a `for` loop over groups of names. */
module GroupedBindings {
  import opened Lists

  type Name = string
  type Words = seq<string>

  datatype Binding = Binding(name: Name, value: Words)

  // ----- assign, letbindings, bindargs

  /** The value of name number i of n: one word each, and the rest for the last. */
  function Share(values: Words, n: nat, i: nat): Words
    requires i < n
  {
    if i >= |values| then [] else if i == n - 1 then values[i..] else [values[i]]
  }

  /** The names bound in order, the last one innermost. */
  function Dealt(names: seq<Name>, values: Words, i: nat, chain: seq<Binding>): seq<Binding>
    requires i <= |names|
  {
    if i == 0 then chain
    else [Binding(names[i - 1], Share(values, |names|, i - 1))] + Dealt(names, values, i - 1, chain)
  }

  /** The first n shares, end to end. */
  function Shares(values: Words, n: nat, k: nat): Words
    requires k <= n
  {
    if k == 0 then [] else Shares(values, n, k - 1) + Share(values, n, k - 1)
  }

  /** No word is lost, repeated or moved. */
  lemma {:induction false} SharesConserve(values: Words, n: nat, k: nat)
    requires k <= n && n > 0
    ensures Shares(values, n, k) == if k == n || k >= |values| then values else values[..k]
  {
    if k > 0 {
      SharesConserve(values, n, k - 1);
    }
  }

  /** Name m stands for nothing if there are not as many words, for the rest of them if it is
      the last name, and for word m otherwise; below the names is the outer chain. */
  lemma {:induction false} DealtAt(names: seq<Name>, values: Words, i: nat, chain: seq<Binding>)
    requires i <= |names|
    ensures var r := Dealt(names, values, i, chain);
            && |r| == i + |chain| && r[i..] == chain
            && forall m | 0 <= m < i ::
                 r[i - 1 - m] == Binding(names[m], if m >= |values| then []
                                                   else if m == |names| - 1 then values[m..]
                                                   else [values[m]])
  {
    if i > 0 {
      DealtAt(names, values, i - 1, chain);
      var r, rest := Dealt(names, values, i, chain), Dealt(names, values, i - 1, chain);
      assert r[i..] == rest[i - 1..];
      assert forall p | 1 <= p < i :: r[p] == rest[p - 1];
    }
  }

  /** What parameters are bound to. */
  predicate Bound(params: seq<Name>, args: Words, chain: seq<Binding>, binding: seq<Binding>) {
    if params == [] then binding == [Binding("*", args)] + chain
    else
      var n := |params|;
      && |binding| == n + |chain| && binding[n..] == chain
      && forall m | 0 <= m < n ::
           && binding[n - 1 - m].name == params[m]
           && binding[n - 1 - m].value == if m >= |args| then [] else if m == n - 1 then args[m..] else [args[m]]
  }

  /** The loop of letbindings and bindargs over one list of names. */
  method Deal(names: seq<Name>, values: Words, chain: seq<Binding>) returns (binding: seq<Binding>)
    ensures binding == Dealt(names, values, |names|, chain)
  {
    binding := chain;
    var rest := values;
    var i := 0;
    while i < |names|
      invariant i <= |names| && binding == Dealt(names, values, i, chain)
      invariant rest == (if i >= |values| || (i > 0 && i == |names|) then [] else values[i..])
    {
      var value: Words;
      if rest == [] {
        value := [];
      } else if i == |names| - 1 || |rest| == 1 {
        value := rest;
        rest := [];
      } else {
        value := [rest[0]];
        rest := rest[1..];
      }
      assert value == Share(values, |names|, i);
      binding := [Binding(names[i], value)] + binding;
      i := i + 1;
    }
  }

  /** bindargs: without parameters the arguments are bound to `*`. */
  method BindArgs(params: seq<Name>, args: Words, chain: seq<Binding>) returns (binding: seq<Binding>)
    ensures Bound(params, args, chain, binding)
  {
    if params == [] {
      return [Binding("*", args)] + chain;
    }
    binding := Deal(params, args, chain);
    DealtAt(params, args, |params|, chain);
  }

  // ----- for

  /** Names that take their values from one list in turn. */
  datatype Group = Group(names: seq<Name>, list: Words)

  predicate Named(groups: seq<Group>) {
    forall g | 0 <= g < |groups| :: groups[g].names != []
  }

  function Element(list: Words, n: nat): Words {
    if n < |list| then [list[n]] else []
  }

  function CeilDiv(n: nat, k: nat): (q: nat)
    requires k > 0
    ensures forall i: nat :: i < q <==> i * k < n
  {
    LeastRounds(n, k);
    (n + k - 1) / k
  }

  lemma LeastRounds(n: nat, k: nat)
    requires k > 0
    ensures (n + k - 1) / k >= 0
    ensures forall i: nat :: i < (n + k - 1) / k <==> i * k < n
  {
    var q := (n + k - 1) / k;
    var r := (n + k - 1) % k;
    assert q * k + r == n + k - 1;
    forall i: nat
      ensures i < q <==> i * k < n
    {
      if i < q {
        assert i * k <= (q - 1) * k;
      } else {
        assert i * k >= q * k;
      }
    }
  }

  /** How often the loop runs: until every list has been used up. */
  function Rounds(groups: seq<Group>): (r: nat)
    requires Named(groups)
  {
    if groups == [] then 0
    else
      var first := CeilDiv(|groups[0].list|, |groups[0].names|);
      var rest := Rounds(groups[1..]);
      if first > rest then first else rest
  }

  /** The first j names of a group bound to the elements from position `from` on. */
  function NameChain(g: Group, from: nat, j: nat, chain: seq<Binding>): (r: seq<Binding>)
    requires j <= |g.names|
    ensures |r| == j + |chain|
  {
    if j == 0 then chain
    else [Binding(g.names[j - 1], Element(g.list, from + j - 1))] + NameChain(g, from, j - 1, chain)
  }

  /** The bindings that the body sees in round i. */
  function RoundChain(groups: seq<Group>, i: nat, chain: seq<Binding>): seq<Binding> {
    if groups == [] then chain
    else RoundChain(groups[1..], i, NameChain(groups[0], i * |groups[0].names|, |groups[0].names|, chain))
  }

  /** Name j of k, in round i, stands for element i*k + j of its list. */
  lemma {:induction false} NameChainAt(g: Group, from: nat, j: nat, chain: seq<Binding>, m: nat)
    requires m < j <= |g.names|
    ensures NameChain(g, from, j, chain)[j - 1 - m] == Binding(g.names[m], Element(g.list, from + m))
  {
    if m < j - 1 {
      NameChainAt(g, from, j - 1, chain, m);
    }
  }

  function Width(groups: seq<Group>): nat {
    if groups == [] then 0 else |groups[0].names| + Width(groups[1..])
  }

  lemma {:induction false} RoundChainKeeps(groups: seq<Group>, i: nat, chain: seq<Binding>)
    ensures var r := RoundChain(groups, i, chain);
            |r| == Width(groups) + |chain| && r[Width(groups)..] == chain
  {
    if groups != [] {
      var k := |groups[0].names|;
      var inner := NameChain(groups[0], i * k, k, chain);
      NameChainKeeps(groups[0], i * k, k, chain);
      RoundChainKeeps(groups[1..], i, inner);
      var r := RoundChain(groups, i, chain);
      assert r[Width(groups)..] == r[Width(groups[1..])..][k..];
    }
  }

  lemma {:induction false} NameChainKeeps(g: Group, from: nat, j: nat, chain: seq<Binding>)
    requires j <= |g.names|
    ensures NameChain(g, from, j, chain)[j..] == chain
  {
    if j > 0 {
      NameChainKeeps(g, from, j - 1, chain);
    }
  }

  /** Every name of every group is bound, in the order written, the outer bindings below. */
  lemma {:induction false} RoundChainAt(groups: seq<Group>, i: nat, chain: seq<Binding>, g: nat, m: nat)
    requires g < |groups| && m < |groups[g].names|
    ensures var r := RoundChain(groups, i, chain);
            var n := Width(groups) - 1 - (Width(groups[..g]) + m);
            && 0 <= n < |r|
            && r[n] == Binding(groups[g].names[m], Element(groups[g].list, i * |groups[g].names| + m))
  {
    var k := |groups[0].names|;
    var inner := NameChain(groups[0], i * k, k, chain);
    var r := RoundChain(groups, i, chain);
    RoundChainKeeps(groups[1..], i, inner);
    RoundChainKeeps(groups, i, chain);
    if g == 0 {
      NameChainAt(groups[0], i * k, k, chain, m);
      assert r[Width(groups[1..])..][k - 1 - m] == r[Width(groups[1..]) + (k - 1 - m)];
    } else {
      RoundChainAt(groups[1..], i, inner, g - 1, m);
      assert groups[..g][1..] == groups[1..][..g - 1];
    }
  }

  // ----- the list the loop steps through

  /** The value list of a loop binding; the later names of a group share the first one's. */
  datatype Cell = Multiple | List(words: Words)

  datatype Loop = Loop(name: Name, defn: Cell)

  function Cells(g: Group): (r: seq<Loop>)
    requires g.names != []
    ensures |r| == |g.names|
  {
    seq(|g.names|, m requires 0 <= m < |g.names| => Loop(g.names[m], if m == 0 then List(g.list) else Multiple))
  }

  function Looping(groups: seq<Group>): seq<Loop>
    requires Named(groups)
  {
    if groups == [] then [] else Cells(groups[0]) + Looping(groups[1..])
  }

  /** One group of the first loop of forloop. */
  method AddGroup(g: Group, looping: seq<Loop>) returns (more: seq<Loop>)
    requires g.names != []
    ensures Backwards(more) == Backwards(looping) + Cells(g)
  {
    more := looping;
    var list := List(g.list);
    var j := 0;
    while j < |g.names|
      invariant j <= |g.names| && list == (if j == 0 then List(g.list) else Multiple)
      invariant Backwards(more) == Backwards(looping) + Cells(g)[..j]
    {
      more := [Loop(g.names[j], list)] + more;
      list := Multiple;
      j := j + 1;
    }
    assert Cells(g)[..j] == Cells(g);
  }

  /** The first loop of forloop: bindings are prepended, and reversed at the end. */
  method BuildLooping(groups: seq<Group>) returns (ok: bool, looping: seq<Loop>)
    ensures ok == Named(groups)
    ensures ok ==> looping == Looping(groups)
  {
    hide Cells, Backwards;
    looping := [];
    var g := 0;
    NoLooping();
    while g < |groups|
      invariant g <= |groups| && Named(groups[..g])
      invariant Backwards(looping) == Looping(groups[..g])
    {
      if groups[g].names == [] {
        return false, [];
      }
      LoopingSnoc(groups[..g], groups[g]);
      assert groups[..g + 1] == groups[..g] + [groups[g]];
      looping := AddGroup(groups[g], looping);
      g := g + 1;
    }
    assert groups[..g] == groups;
    looping := Backwards(looping);
    ok := true;
  }

  lemma NoLooping()
    ensures Backwards<Loop>([]) == Looping([])
  {
  }

  lemma {:induction false} LoopingSnoc(groups: seq<Group>, g: Group)
    requires Named(groups) && g.names != []
    ensures Looping(groups + [g]) == Looping(groups) + Cells(g)
  {
    if groups != [] {
      assert (groups + [g])[1..] == groups[1..] + [g];
      LoopingSnoc(groups[1..], g);
    } else {
      assert (groups + [g])[1..] == [];
    }
  }

  function Drop(list: Words, n: nat): Words {
    if n <= |list| then list[n..] else []
  }

  /** A group after some rounds: its list has lost k words a round. */
  function Remaining(g: Group, i: nat): Group {
    g.(list := Drop(g.list, i * |g.names|))
  }

  function AllRemaining(groups: seq<Group>, i: nat): (r: seq<Group>)
    ensures |r| == |groups| && forall g | 0 <= g < |r| :: r[g] == Remaining(groups[g], i)
  {
    seq(|groups|, g requires 0 <= g < |groups| => Remaining(groups[g], i))
  }

  predicate AllEmpty(groups: seq<Group>) {
    forall g | 0 <= g < |groups| :: groups[g].list == []
  }

  // ----- one round

  /** The cells of a group whose first j names have been given their values. */
  function Stepped(g: Group, j: nat): (r: seq<Loop>)
    requires g.names != []
    ensures |r| == |g.names|
  {
    Cells(g.(list := Drop(g.list, j)))
  }

  /** Taking a word off the list that a group shares. */
  lemma StepOnce(before: seq<Loop>, front: seq<Loop>, g: Group, j: nat, rest: seq<Loop>)
    requires g.names != [] && before == front + Stepped(g, j) + rest
    ensures |front| < |before| && before[|front|] == Loop(g.names[0], List(Drop(g.list, j)))
    ensures Drop(g.list, j) == [] ==> Element(g.list, j) == [] && before == front + Stepped(g, j + 1) + rest
    ensures Drop(g.list, j) != [] ==>
              && Element(g.list, j) == [Drop(g.list, j)[0]]
              && before[|front| := Loop(g.names[0], List(Drop(g.list, j)[1..]))] == front + Stepped(g, j + 1) + rest
  {
    if Drop(g.list, j) != [] {
      var after := before[|front| := Loop(g.names[0], List(Drop(g.list, j)[1..]))];
      assert Drop(g.list, j)[1..] == Drop(g.list, j + 1);
      assert after[|front|..|front| + |g.names|] == Stepped(g, j + 1);
      assert after == front + after[|front|..|front| + |g.names|] + rest;
    }
  }

  lemma CellAt(before: seq<Loop>, front: seq<Loop>, g: Group, j: nat, rest: seq<Loop>)
    requires g.names != [] && before == front + Stepped(g, j) + rest && j < |g.names|
    ensures |front| + j < |before|
    ensures before[|front| + j] == Loop(g.names[j], if j == 0 then List(g.list) else Multiple)
  {
  }

  lemma NextGroup(before: seq<Loop>, front: seq<Loop>, g: Group, rest: seq<Group>)
    requires g.names != [] && Named(rest) && before == front + Stepped(g, |g.names|) + Looping(rest)
    requires |front| + |g.names| < |before|
    ensures rest != [] && before == (front + Stepped(g, |g.names|)) + Stepped(rest[0], 0) + Looping(rest[1..])
    ensures Looping(AllRemaining(rest, 1)) == Stepped(rest[0], |rest[0].names|) + Looping(AllRemaining(rest[1..], 1))
  {
    assert rest[0].(list := Drop(rest[0].list, 0)) == rest[0];
    assert AllRemaining(rest, 1)[1..] == AllRemaining(rest[1..], 1);
  }

  lemma Begin(before: seq<Loop>, groups: seq<Group>, chain: seq<Binding>)
    requires Named(groups) && before == Looping(groups)
    ensures groups == [] ==> before == [] && Looping(AllRemaining(groups, 1)) == [] && AllEmpty(groups)
    ensures groups != [] ==> before == [] + Stepped(groups[0], 0) + Looping(groups[1..])
    ensures groups != [] ==>
              Looping(AllRemaining(groups, 1))
                == [] + (Stepped(groups[0], |groups[0].names|) + Looping(AllRemaining(groups[1..], 1)))
  {
    if groups != [] {
      var cells := Cells(groups[0]) + Looping(groups[1..]);
      assert cells == [] + Cells(groups[0]) + Looping(groups[1..]);
      assert groups[0].(list := Drop(groups[0].list, 0)) == groups[0];
      assert AllRemaining(groups, 1)[1..] == AllRemaining(groups[1..], 1);
    }
  }

  lemma NextChain(groups: seq<Group>, chain: seq<Binding>)
    ensures groups == [] ==> RoundChain(groups, 0, chain) == chain
    ensures groups != [] ==>
              RoundChain(groups, 0, chain)
                == RoundChain(groups[1..], 0, NameChain(groups[0], 0, |groups[0].names|, chain))
    ensures groups != [] ==> (AllEmpty(groups) <==> groups[0].list == [] && AllEmpty(groups[1..]))
    ensures AllEmpty([])
  {
  }

  lemma EmptyAtStart(list: Words, j: nat)
    ensures Drop(list, 0) == list && (list == [] ==> Drop(list, j) == [])
  {
  }

  lemma Finish(after: seq<Loop>, front: seq<Loop>, g: Group, j: nat, rest: seq<Group>)
    requires g.names != [] && Named(rest) && j <= |g.names|
    requires after == front + Stepped(g, j) + Looping(rest) && |after| == |front| + j
    ensures j == |g.names| && rest == [] && after == front + (Stepped(g, j) + Looping(AllRemaining(rest, 1)))
  {
  }

  /** The inner loop of forloop: every name gets the next word of its group, or nothing. */
  method Round(a: array<Loop>, ghost groups: seq<Group>, outer: seq<Binding>) returns (bp: seq<Binding>, allnull: bool)
    requires Named(groups) && a[..] == Looping(groups)
    modifies a
    ensures a[..] == Looping(AllRemaining(groups, 1))
    ensures bp == RoundChain(groups, 0, outer)
    ensures allnull <==> AllEmpty(groups)
  {
    hide Cells, Stepped, Element, AllEmpty, AllRemaining, Looping, Drop, RoundChain;
    bp, allnull := outer, true;
    var i, sequence := 0, 0;
    ghost var front: seq<Loop>, j, base := [], 0, outer;
    ghost var g, rest := Group([], []), groups;
    Begin(a[..], groups, outer);
    NextChain(groups, outer);
    if groups != [] {
      g, rest := groups[0], groups[1..];
    }
    while i < a.Length
      invariant i == |front| + j <= a.Length && Named(rest) && j <= |g.names|
      invariant groups == [] ==> a.Length == 0 && a[..] == Looping(AllRemaining(groups, 1)) && bp == RoundChain(groups, 0, outer) && (allnull <==> AllEmpty(groups))
      invariant groups != [] ==> g.names != [] && a[..] == front + Stepped(g, j) + Looping(rest)
      invariant groups != [] ==> front + (Stepped(g, |g.names|) + Looping(AllRemaining(rest, 1))) == Looping(AllRemaining(groups, 1))
      invariant groups != [] ==> RoundChain(rest, 0, NameChain(g, 0, |g.names|, base)) == RoundChain(groups, 0, outer)
      invariant groups != [] ==> (allnull && (j == 0 ==> g.list == []) && AllEmpty(rest) <==> AllEmpty(groups))
      invariant j > 0 ==> sequence == |front| && (g.list != [] ==> !allnull)
      invariant groups != [] ==> bp == NameChain(g, 0, j, base)
    {
      ghost var before := a[..];
      if j == |g.names| {
        NextGroup(before, front, g, rest);
        NextChain(rest, NameChain(g, 0, |g.names|, base));
        ghost var cells := Stepped(g, |g.names|);
        assert front + (cells + (Stepped(rest[0], |rest[0].names|) + Looping(AllRemaining(rest[1..], 1))))
            == (front + cells) + (Stepped(rest[0], |rest[0].names|) + Looping(AllRemaining(rest[1..], 1)));
        front, base := front + cells, bp;
        g, rest, j := rest[0], rest[1..], 0;
      }
      CellAt(before, front, g, j, Looping(rest));
      StepOnce(before, front, g, j, Looping(rest));
      EmptyAtStart(g.list, j);
      if a[i].defn != Multiple {
        sequence := i;
      }
      assert sequence == |front| && a[sequence] == before[|front|];
      var value: Words := [];
      if a[sequence].defn.words != [] {
        value := [a[sequence].defn.words[0]];
        a[sequence] := Loop(a[sequence].name, List(a[sequence].defn.words[1..]));
        assert a[..] == before[sequence := a[sequence]];
        allnull := false;
      }
      bp := [Binding(a[i].name, value)] + bp;
      i, j := i + 1, j + 1;
    }
    if groups != [] {
      Finish(a[..], front, g, j, rest);
      NextChain([], bp);
    }
  }

  // ----- the loop

  lemma {:induction false} RoundOfRemaining(groups: seq<Group>, i: nat, chain: seq<Binding>)
    ensures RoundChain(AllRemaining(groups, i), 0, chain) == RoundChain(groups, i, chain)
  {
    if groups != [] {
      var g := groups[0];
      var k := |g.names|;
      assert AllRemaining(groups, i)[1..] == AllRemaining(groups[1..], i);
      ChainOfRemaining(g, i, k, chain);
      RoundOfRemaining(groups[1..], i, NameChain(g, i * k, k, chain));
    }
  }

  lemma {:induction false} ChainOfRemaining(g: Group, i: nat, j: nat, chain: seq<Binding>)
    requires j <= |g.names|
    ensures NameChain(Remaining(g, i), 0, j, chain) == NameChain(g, i * |g.names|, j, chain)
  {
    if j > 0 {
      ChainOfRemaining(g, i, j - 1, chain);
      ElementOfDrop(g.list, i * |g.names|, j - 1);
    }
  }

  lemma ElementOfDrop(list: Words, n: nat, m: nat)
    ensures Element(Drop(list, n), m) == Element(list, n + m)
  {
  }

  lemma DropTwice(list: Words, n: nat, k: nat)
    ensures Drop(Drop(list, n), k) == Drop(list, n + k)
  {
  }

  lemma RemainingTwice(groups: seq<Group>, i: nat)
    ensures AllRemaining(AllRemaining(groups, i), 1) == AllRemaining(groups, i + 1)
  {
    hide Drop;
    forall g | 0 <= g < |groups|
      ensures Remaining(Remaining(groups[g], i), 1) == Remaining(groups[g], i + 1)
    {
      var k := |groups[g].names|;
      assert (i + 1) * k == i * k + k && 1 * k == k;
      DropTwice(groups[g].list, i * k, k);
    }
  }

  lemma RemainingNone(groups: seq<Group>)
    ensures AllRemaining(groups, 0) == groups
  {
    forall g | 0 <= g < |groups|
      ensures Remaining(groups[g], 0) == groups[g]
    {
    }
  }

  /** Everything has been used up after exactly that many rounds. */
  lemma {:induction false} UsedUp(groups: seq<Group>, i: nat)
    requires Named(groups)
    ensures AllEmpty(AllRemaining(groups, i)) <==> i >= Rounds(groups)
  {
    if groups != [] {
      var k := |groups[0].names|;
      UsedUp(groups[1..], i);
      assert AllRemaining(groups, i)[1..] == AllRemaining(groups[1..], i);
      assert AllRemaining(groups, i)[0] == Remaining(groups[0], i);
      assert Remaining(groups[0], i).list == [] <==> i * k >= |groups[0].list|;
      assert i < CeilDiv(|groups[0].list|, k) <==> i * k < |groups[0].list|;
      NextChain(AllRemaining(groups, i), []);
    }
  }

  /** What the body sees in every round, and what the loop yields. */
  function Trace(groups: seq<Group>, n: nat, outer: seq<Binding>): (r: seq<seq<Binding>>)
    ensures |r| == n && forall i | 0 <= i < n :: r[i] == RoundChain(groups, i, outer)
  {
    seq(n, i requires 0 <= i < n => RoundChain(groups, i, outer))
  }

  const TRUE: Words := ["0"]

  /** forloop, for a body that raises no exception: round i binds name j of each group of k
      names to element i*k + j of its list, and the rounds are the maximum over the
      groups of the list's length divided by k, rounded up. */
  method ForLoop(groups: seq<Group>, outer: seq<Binding>, walk: seq<Binding> -> Words)
    returns (ok: bool, result: Words, trace: seq<seq<Binding>>)
    ensures ok == Named(groups)
    ensures ok ==> trace == Trace(groups, Rounds(groups), outer)
    ensures ok ==> result == if trace == [] then TRUE else walk(trace[|trace| - 1])
  {
    hide AllEmpty, AllRemaining, Looping, RoundChain, Rounds, Named;
    result, trace := TRUE, [];
    var looping;
    ok, looping := BuildLooping(groups);
    if !ok {
      return;
    }
    var a := new Loop[|looping|](n requires 0 <= n < |looping| => looping[n]);
    RemainingNone(groups);
    NamedStays(groups, 0);
    assert a[..] == looping;
    while true
      invariant fresh(a) && Named(AllRemaining(groups, |trace|)) && a[..] == Looping(AllRemaining(groups, |trace|))
      invariant |trace| <= Rounds(groups) && trace == Trace(groups, |trace|, outer)
      invariant result == if trace == [] then TRUE else walk(trace[|trace| - 1])
      decreases Rounds(groups) - |trace|
    {
      ghost var now := AllRemaining(groups, |trace|);
      var bp, allnull := Round(a, now, outer);
      UsedUp(groups, |trace|);
      if allnull {
        break;
      }
      RoundOfRemaining(groups, |trace|, outer);
      RemainingTwice(groups, |trace|);
      NamedStays(groups, |trace| + 1);
      result := walk(bp);
      trace := trace + [bp];
    }
  }

  /** Emptying lists leaves the names. */
  lemma NamedStays(groups: seq<Group>, i: nat)
    requires Named(groups)
    ensures Named(AllRemaining(groups, i))
  {
  }
}
