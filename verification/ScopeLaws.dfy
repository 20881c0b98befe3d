/** src/eval.c, src/except.c, src/prim-ctl.c: laws between commands, which say what `return`,
    `break`, catching, calling by a name and the depth limit do. */
module ScopeLaws {
  import opened Options
  import opened DynamicScope

  // ----- return

  /** The second command yields as its value what the first one, in the last thing it does,
      returns. */
  ghost predicate ReturnsLike(c: Cmd, c': Cmd)
    decreases c
  {
    || c == c'
    || (c.Throw? && c.exception != [] && c.exception[0] == "return" && c' == Done(c.exception[1..]))
    || (c.Then? && c'.Then? && c.first == c'.first && c.next.Keys == c'.next.Keys
        && forall w | w in c.next :: w in c'.next && ReturnsLike(c.next[w], c'.next[w]))
    || (c.Depends? && c'.Depends? && c.choice.Keys == c'.choice.Keys
        && forall env | env in c.choice :: env in c'.choice && ReturnsLike(c.choice[env], c'.choice[env]))
    || (c.Local? && c'.Local? && c.binds == c'.binds && ReturnsLike(c.body, c'.body))
    || (c.Block? && c'.Block? && ReturnsLike(c.body, c'.body))
  }

  ghost predicate SameButReturned(r: (Outcome, Env), r': (Outcome, Env)) {
    r.1 == r'.1 && (r.0 == r'.0 || (r'.0.Returned? && r.0 == Thrown(["return"] + r'.0.value)))
  }

  lemma {:induction false} ReturnsLikeRuns(c: Cmd, c': Cmd, env: Env, depth: nat, max: nat)
    requires ReturnsLike(c, c')
    ensures SameButReturned(Sem(c, env, depth, max), Sem(c', env, depth, max))
    decreases c, 1
  {
    if c != c' {
      match c {
        case Throw(e) =>
          assert e == ["return"] + e[1..];
        case Then(first, next) =>
          var (out, env') := Sem(first, env, depth, max);
          if out.Returned? && out.value in next {
            ReturnsLikeRuns(next[out.value], c'.next[out.value], env', depth, max);
          }
        case Depends(choice) =>
          if env in choice {
            ReturnsLikeRuns(choice[env], c'.choice[env], env, depth, max);
          }
        case Local(binds, body) =>
          ReturnsLikeLocal(c, c', binds, env, depth, max);
        case Block(body) =>
          ReturnsLikeRuns(body, c'.body, env, depth + 1, max);
        case _ =>
      }
    }
  }

  lemma {:induction false} ReturnsLikeLocal(c: Cmd, c': Cmd, binds: seq<Push>, env: Env, depth: nat, max: nat)
    requires c.Local? && c'.Local? && ReturnsLike(c.body, c'.body)
    ensures SameButReturned(SemLocal(c, binds, env, depth, max), SemLocal(c', binds, env, depth, max))
    decreases c, 0, |binds|
  {
    if binds == [] {
      assert c.body < c;
      ReturnsLikeRuns(c.body, c'.body, env, depth, max);
    } else {
      ReturnsLikeLocal(c, c', binds[1..], Bind(env, binds[0].name, binds[0].defn), depth, max);
    }
  }

  lemma BodyRuns(funcname: Option<Name>, c: Cmd, c': Cmd, env: Env, depth: nat, max: nat)
    requires ReturnsLike(c, c')
    ensures SameButReturned(SemBody(Call(funcname, c), env, depth, max), SemBody(Call(funcname, c'), env, depth, max))
  {
    hide ReturnsLike;
    ReturnsLikeRuns(c, c', if funcname.None? then env else Bind(env, "0", [funcname.value]), depth, max);
  }

  lemma CallIs(c: Cmd, env: Env, depth: nat, max: nat)
    requires c.Call? && depth + 1 < max
    ensures var (out, env') := SemBody(c, env, depth + 1, max);
            Sem(c, env, depth, max)
            == (if out.Thrown? && Is(out.exception, "return") then Returned(out.exception[1..]) else out, env')
  {
    hide SemBody;
  }

  /** Returning words, as the last thing that the body of a lambda does, is having them as the
      value there, whether the lambda was called by a name or not. */
  lemma ReturnIsValue(funcname: Option<Name>, c: Cmd, c': Cmd, env: Env, depth: nat, max: nat)
    requires ReturnsLike(c, c')
    ensures Sem(Call(funcname, c), env, depth, max) == Sem(Call(funcname, c'), env, depth, max)
  {
    hide ReturnsLike, SemBody;
    if depth + 1 < max {
      hide Sem;
      BodyRuns(funcname, c, c', env, depth + 1, max);
      CallIs(Call(funcname, c), env, depth, max);
      CallIs(Call(funcname, c'), env, depth, max);
      var value := SemBody(Call(funcname, c'), env, depth + 1, max).0;
      if value.Returned? {
        assert (["return"] + value.value)[1..] == value.value;
      }
    }
  }

  /** In particular `return v` alone. */
  lemma ReturnYields(funcname: Option<Name>, v: Words, env: Env, depth: nat, max: nat)
    requires depth + 1 < max
    ensures Sem(Call(funcname, Throw(["return"] + v)), env, depth, max).0 == Returned(v)
  {
    assert (["return"] + v)[1..] == v;
    ReturnIsValue(funcname, Throw(["return"] + v), Done(v), env, depth, max);
    var inner := if funcname.None? then env else Bind(env, "0", [funcname.value]);
    assert Sem(Done(v), inner, depth + 1, max) == (Returned(v), inner);
  }

  /** What leaves the body of a lambda: a value, the words of a return, or any other exception
      unchanged. */
  lemma LambdaOutcome(body: Cmd, env: Env, depth: nat, max: nat)
    requires depth + 1 < max
    ensures var (out, env') := Sem(body, env, depth + 1, max);
            && (out.Returned? ==> Sem(Call(None, body), env, depth, max) == (out, env'))
            && (forall v | out == Thrown(["return"] + v) :: Sem(Call(None, body), env, depth, max) == (Returned(v), env'))
            && (out.Thrown? && (out.exception == [] || out.exception[0] != "return") ==>
                  Sem(Call(None, body), env, depth, max) == (out, env'))
  {
    var (out, env') := Sem(body, env, depth + 1, max);
    forall v | out == Thrown(["return"] + v)
      ensures Sem(Call(None, body), env, depth, max) == (Returned(v), env')
    {
      assert (["return"] + v)[1..] == v;
    }
  }

  /** Calling a function by a name is calling its lambda with $0 bound locally. */
  lemma NamedIsLocal(funcname: Name, body: Cmd, env: Env, depth: nat, max: nat)
    ensures Sem(Call(Some(funcname), body), env, depth, max)
         == Sem(Call(None, Local([Push("0", [funcname])], body)), env, depth, max)
  {
    var local := Local([Push("0", [funcname])], body);
    assert !IsCounting("0") by { assert "0"[1..] == ""; }
    assert FirstBad(local.binds) == None by { assert local.binds[1..] == []; }
    assert local.binds[1..] == [];
    var inner := Bind(env, "0", [funcname]);
    if depth + 1 < max {
      var (out, env') := Sem(body, inner, depth + 1, max);
      var restored := (out, Bind(env', "0", Lookup(env, "0")));
      assert SemLocal(local, [], inner, depth + 1, max) == (out, env');
      assert SemLocal(local, local.binds, env, depth + 1, max) == restored;
      assert Sem(local, env, depth + 1, max) == restored;
      assert SemBody(Call(Some(funcname), body), env, depth + 1, max) == restored;
      assert SemBody(Call(None, local), env, depth + 1, max) == restored;
    }
  }

  // ----- break

  lemma {:induction false} ForPrefix(pre: seq<Cmd>, more: seq<Cmd>, i: nat, result: Words, env: Env, depth: nat, max: nat)
    requires i <= |pre|
    ensures var (out, env') := SemFor(For(pre), i, result, env, depth, max);
            SemFor(For(pre + more), i, result, env, depth, max) ==
              if out.Thrown? then (out, env') else SemFor(For(pre + more), |pre|, out.value, env', depth, max)
    decreases |pre| - i
  {
    if i < |pre| {
      assert (pre + more)[i] == pre[i];
      var (out, env') := Sem(pre[i], env, depth, max);
      if out.Returned? {
        ForPrefix(pre, more, i + 1, out.value, env', depth, max);
      }
    }
  }

  /** After some iterations that were not left early: a break ends the loop with its words, and
      nothing later runs; another exception goes on out of the loop; and a value is that of
      the loop if there is nothing later. */
  lemma ForOutcome(pre: seq<Cmd>, c: Cmd, post: seq<Cmd>, env: Env, depth: nat, max: nat)
    requires SemFor(For(pre), 0, ["0"], env, depth, max).0.Returned?
    ensures var (_, env1) := SemFor(For(pre), 0, ["0"], env, depth, max);
            var (out, env2) := Sem(c, env1, depth, max);
            var loop := Sem(For(pre + [c] + post), env, depth, max);
            && (forall v | out == Thrown(["break"] + v) :: loop == (Returned(v), env2))
            && (out.Thrown? && (out.exception == [] || out.exception[0] != "break") ==> loop == (out, env2))
            && (out.Returned? && post == [] ==> loop == (out, env2))
  {
    var all := pre + [c] + post;
    assert all == pre + ([c] + post) && all[|pre|] == c;
    ForPrefix(pre, [c] + post, 0, ["0"], env, depth, max);
    var (_, env1) := SemFor(For(pre), 0, ["0"], env, depth, max);
    var (out, env2) := Sem(c, env1, depth, max);
    forall v | out == Thrown(["break"] + v)
      ensures Sem(For(all), env, depth, max) == (Returned(v), env2)
    {
      assert (["break"] + v)[1..] == v;
    }
  }

  /** A loop without iterations is true. */
  lemma EmptyFor(env: Env, depth: nat, max: nat)
    ensures Sem(For([]), env, depth, max) == (Returned(["0"]), env)
  {
  }

  // ----- catching, sequencing and looking up

  /** A catcher gets the exception that was thrown, in the state it left, and nothing else. */
  lemma CatchOutcome(body: Cmd, catcher: imap<Words, Cmd>, env: Env, depth: nat, max: nat)
    ensures var (out, env') := Sem(body, env, depth, max);
            && (out.Returned? ==> Sem(Catch(body, catcher), env, depth, max) == (out, env'))
            && (out.Thrown? && out.exception in catcher ==>
                  Sem(Catch(body, catcher), env, depth, max) == Sem(catcher[out.exception], env', depth, max))
  {
  }

  /** After an assignment the name looks up to the words, and others as before. */
  lemma AssignedIsSeen(x: Name, v: Words, y: Name, env: Env, depth: nat, max: nat)
    requires ValidName(x)
    ensures var (out, env') := Sem(Assign(x, v), env, depth, max);
            out == Returned(v) && Lookup(env', y) == if y == x then v else Lookup(env, y)
  {
  }

  // ----- depth

  function Blocks(n: nat, c: Cmd): Cmd { if n == 0 then c else Block(Blocks(n - 1, c)) }

  /** Blocks may be nested as deep as the limit says, and not deeper. */
  lemma {:induction false} NestedBlocks(n: nat, c: Cmd, env: Env, depth: nat, max: nat)
    requires depth < max
    ensures Sem(Blocks(n, c), env, depth, max)
         == if depth + n < max then Sem(c, env, depth + n, max) else (Thrown(DEPTH_EXCEEDED), env)
  {
    if n > 0 && depth + 1 < max {
      NestedBlocks(n - 1, c, env, depth + 1, max);
    }
  }

  // ----- names

  /** The names that variables may not have are the numbers greater than zero. */
  lemma {:induction false} CountingNames(name: Name)
    ensures IsCounting(name)
            <==> (forall i | 0 <= i < |name| :: '0' <= name[i] <= '9') && exists i :: 0 <= i < |name| && name[i] != '0'
  {
    if name != "" && name[0] == '0' {
      CountingNames(name[1..]);
      assert forall i | 1 <= i < |name| :: name[i] == name[1..][i - 1];
      assert forall i | 0 <= i < |name| - 1 :: name[1..][i] == name[i + 1];
    }
  }
}
