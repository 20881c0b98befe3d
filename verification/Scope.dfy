/** src/var.c, src/except.c, src/eval.c: dynamic binding, exceptions and evaluation
    depth.  The machine keeps a push stack that a throw unwinds to the catching
    handler's mark before control leaves; it is proved to refine a semantics in which
    every `local` saves and restores its names itself. */
module DynamicScope {
  import opened Options

  type Name = string
  type Words = seq<string>

  /** What a variable looks up to; an absent variable and an empty one look alike. */
  type Env = map<Name, Words>

  datatype Push = Push(name: Name, defn: Words)

  datatype Handler = Handler(pushlist: nat, evaldepth: nat)

  datatype Outcome = Returned(value: Words) | Thrown(exception: Words)

  /** Commands, reduced to what touches scopes, handlers and depth.  A call is that of a
      lambda; a block is a thunk, or a primitive with what it does as its body.  What is run
      may depend on the visible variables, on the value of the command before, or on the
      exception that is caught, in any way; where such a table has no entry nothing is run. */
  datatype Cmd =
    | Done(value: Words)
    | Assign(name: Name, words: Words)
    | Local(binds: seq<Push>, body: Cmd)
    | Depends(choice: imap<Env, Cmd>)
    | Then(first: Cmd, next: imap<Words, Cmd>)
    | Throw(exception: Words)
    | Catch(body: Cmd, catcher: imap<Words, Cmd>)
    | For(iterations: seq<Cmd>)
    | Call(funcname: Option<Name>, body: Cmd)
    | Block(body: Cmd)

  // ----- names

  predicate IsDigits(s: string) {
    forall i | 0 <= i < |s| :: '0' <= s[i] <= '9'
  }

  /** iscounting: a number greater than zero. */
  predicate IsCounting(name: Name) {
    name != "" && if name[0] == '0' then IsCounting(name[1..]) else IsDigits(name)
  }

  predicate ValidName(name: Name) { name != "" && !IsCounting(name) }

  const DEPTH_EXCEEDED: Words := ["error", "es:eval", "max-eval-depth exceeded"]

  function BadName(name: Name): Words { ["error", "desh:var", name] }

  /** $&throw of nothing is an error of its own. */
  function Raised(e: Words): Words {
    if e == [] then ["error", "$&throw", "usage: throw exception [args ...]"] else e
  }

  predicate Is(e: Words, kind: string) { e != [] && e[0] == kind }

  // ----- the semantics: every scope restores what it bound

  function Lookup(env: Env, x: Name): Words { if x in env then env[x] else [] }

  function Bind(env: Env, x: Name, v: Words): Env { if v == [] then env - {x} else env[x := v] }

  /** Only non-empty definitions can be seen. */
  ghost predicate Normal(env: Env) { forall x | x in env :: env[x] != [] }

  function FirstBad(binds: seq<Push>): Option<Name> {
    if binds == [] then None
    else if !ValidName(binds[0].name) then Some(binds[0].name)
    else FirstBad(binds[1..])
  }

  ghost function Sem(c: Cmd, env: Env, depth: nat, max: nat): (Outcome, Env)
    decreases c, 1, 0
  {
    match c
    case Done(value) => (Returned(value), env)
    case Assign(name, words) =>
      if ValidName(name) then (Returned(words), Bind(env, name, words)) else (Thrown(BadName(name)), env)
    case Local(binds, body) =>
      (match FirstBad(binds)
       case Some(name) => (Thrown(BadName(name)), env)
       case None => SemLocal(c, binds, env, depth, max))
    case Depends(choice) => if env in choice then Sem(choice[env], env, depth, max) else (Returned([]), env)
    case Then(first, next) =>
      var (out, env') := Sem(first, env, depth, max);
      if out.Thrown? || out.value !in next then (out, env') else Sem(next[out.value], env', depth, max)
    case Throw(e) => (Thrown(Raised(e)), env)
    case Catch(body, catcher) =>
      var (out, env') := Sem(body, env, depth, max);
      if out.Returned? then (out, env')
      else if out.exception in catcher then Sem(catcher[out.exception], env', depth, max)
      else (Returned([]), env')
    case For(iterations) =>
      var (out, env') := SemFor(c, 0, ["0"], env, depth, max);
      if out.Thrown? && Is(out.exception, "break") then (Returned(out.exception[1..]), env') else (out, env')
    case Call(funcname, body) =>
      if depth + 1 >= max then (Thrown(DEPTH_EXCEEDED), env)
      else
        var (out, env') := SemBody(c, env, depth + 1, max);
        if out.Thrown? && Is(out.exception, "return") then (Returned(out.exception[1..]), env') else (out, env')
    case Block(body) =>
      if depth + 1 >= max then (Thrown(DEPTH_EXCEEDED), env) else Sem(body, env, depth + 1, max)
  }

  /** The bindings one inside the other, each restored when its body is left. */
  ghost function SemLocal(c: Cmd, binds: seq<Push>, env: Env, depth: nat, max: nat): (Outcome, Env)
    requires c.Local?
    decreases c, 0, |binds|
  {
    if binds == [] then (assert c.body < c; Sem(c.body, env, depth, max))
    else
      var (out, env') := SemLocal(c, binds[1..], Bind(env, binds[0].name, binds[0].defn), depth, max);
      (out, Bind(env', binds[0].name, Lookup(env, binds[0].name)))
  }

  /** The body of a lambda, with $0 bound if it was called by a name. */
  ghost function SemBody(c: Cmd, env: Env, depth: nat, max: nat): (Outcome, Env)
    requires c.Call?
    decreases c, 0, 0
  {
    if c.funcname.None? then Sem(c.body, env, depth, max)
    else
      var (out, env') := Sem(c.body, Bind(env, "0", [c.funcname.value]), depth, max);
      (out, Bind(env', "0", Lookup(env, "0")))
  }

  ghost function SemFor(c: Cmd, i: nat, result: Words, env: Env, depth: nat, max: nat): (Outcome, Env)
    requires c.For? && i <= |c.iterations|
    decreases c, 0, |c.iterations| - i
  {
    if i == |c.iterations| then (Returned(result), env)
    else
      var (out, env') := Sem(c.iterations[i], env, depth, max);
      if out.Thrown? then (out, env') else SemFor(c, i + 1, out.value, env', depth, max)
  }

  /** What popping the given part of the push stack, top first, does. */
  ghost function Unwind(env: Env, pushes: seq<Push>): Env
    decreases |pushes|
  {
    if pushes == [] then env
    else
      var p := pushes[|pushes| - 1];
      Unwind(Bind(env, p.name, p.defn), pushes[..|pushes| - 1])
  }

  /** The visible part of the variable table. */
  function Visible(vars: Env): (env: Env)
    ensures Normal(env)
    ensures forall x :: Lookup(env, x) == Lookup(vars, x)
  {
    map x | x in vars && vars[x] != [] :: vars[x]
  }

  // ----- the machine

  class Shell {
    var vars: Env
    var pushlist: seq<Push>
    var handlers: seq<Handler>
    var evaldepth: nat
    var maxevaldepth: nat

    ghost predicate Valid()
      reads this
    {
      && handlers != []
      && forall i | 0 <= i < |handlers| :: handlers[i].pushlist <= |pushlist|
    }

    /** varpush: remember what the name looks up to, and bind it. */
    method VarPush(name: Name, defn: Words)
      modifies this`vars, this`pushlist
      ensures pushlist == old(pushlist) + [Push(name, Lookup(old(vars), name))]
      ensures Visible(vars) == Bind(Visible(old(vars)), name, defn)
    {
      if name !in vars {
        pushlist := pushlist + [Push(name, [])];
        vars := vars[name := defn];
      } else {
        pushlist := pushlist + [Push(name, vars[name])];
        vars := vars[name := defn];
      }
    }

    /** varpop of the top of the push stack. */
    method VarPop()
      requires pushlist != []
      modifies this`vars, this`pushlist
      ensures pushlist == old(pushlist)[..|old(pushlist)| - 1]
      ensures Visible(vars) == Bind(Visible(old(vars)), old(pushlist)[|old(pushlist)| - 1].name,
                                    old(pushlist)[|old(pushlist)| - 1].defn)
    {
      var push := pushlist[|pushlist| - 1];
      if push.name in vars {
        if push.defn != [] {
          vars := vars[push.name := push.defn];
        } else {
          vars := vars - {push.name};
        }
      } else if push.defn != [] {
        vars := vars[push.name := push.defn];
      }
      pushlist := pushlist[..|pushlist| - 1];
    }

    /** vardef of a dynamic variable. */
    method VarDef(name: Name, defn: Words)
      modifies this`vars
      ensures Visible(vars) == Bind(Visible(old(vars)), name, defn)
    {
      if name in vars {
        if defn != [] {
          vars := vars[name := defn];
        } else {
          vars := vars - {name};
        }
      } else if defn != [] {
        vars := vars[name := defn];
      }
    }

    /** throw_exception: take the innermost handler off, pop what was bound since it
        was installed, and restore its depth; control then goes to it. */
    method ThrowException(e: Words) returns (out: Outcome)
      requires Valid()
      modifies this`vars, this`pushlist, this`handlers, this`evaldepth
      ensures out == Thrown(e)
      ensures ThrownTo(old(pushlist), old(handlers), Visible(old(vars)))
    {
      var handler := handlers[|handlers| - 1];
      handlers := handlers[..|handlers| - 1];
      while |pushlist| != handler.pushlist
        invariant handler.pushlist <= |pushlist| <= |old(pushlist)| && pushlist == old(pushlist)[..|pushlist|]
        invariant Unwind(Visible(vars), pushlist[handler.pushlist..])
                  == Unwind(Visible(old(vars)), old(pushlist)[handler.pushlist..])
        invariant handlers == old(handlers)[..|old(handlers)| - 1]
      {
        ghost var before := pushlist[handler.pushlist..];
        VarPop();
        assert pushlist[handler.pushlist..] == before[..|before| - 1];
      }
      evaldepth := handler.evaldepth;
      out := Thrown(e);
    }

    /** The state a throw leaves, from a point with push stack ps, handlers hs and
        visible variables env: everything above the innermost handler's mark is undone. */
    ghost predicate ThrownTo(ps: seq<Push>, hs: seq<Handler>, env: Env)
      requires hs != [] && hs[|hs| - 1].pushlist <= |ps|
      reads this
    {
      var h := hs[|hs| - 1];
      && handlers == hs[..|hs| - 1]
      && pushlist == ps[..h.pushlist]
      && evaldepth == h.evaldepth
      && Visible(vars) == Unwind(env, ps[h.pushlist..])
    }

    /** The state after normal completion: same stacks, same depth. */
    ghost predicate Settled(ps: seq<Push>, hs: seq<Handler>, depth: nat, env: Env)
      reads this
    {
      pushlist == ps && handlers == hs && evaldepth == depth && Visible(vars) == env
    }

    /** What running a command that means r must have done. */
    ghost predicate Ran(out: Outcome, r: (Outcome, Env), ps: seq<Push>, hs: seq<Handler>, depth: nat)
      requires hs != [] && hs[|hs| - 1].pushlist <= |ps|
      reads this
    {
      && out == r.0
      && if out.Returned? then Settled(ps, hs, depth, r.1) else ThrownTo(ps, hs, r.1)
    }

    /** Evaluation.  Whatever the command does, it does what the semantics says, and
        on normal completion the push stack, the handlers and the depth are as they
        were; a throw leaves them as the innermost handler recorded them. */
    method Exec(c: Cmd) returns (out: Outcome)
      requires Valid()
      modifies this`vars, this`pushlist, this`handlers, this`evaldepth
      ensures Ran(out, Sem(c, Visible(old(vars)), old(evaldepth), maxevaldepth),
                  old(pushlist), old(handlers), old(evaldepth))
      decreases c, 1, 0
    {
      match c
      case Done(value) =>
        out := Returned(value);
      case Assign(name, words) =>
        if !ValidName(name) {
          out := ThrowException(BadName(name));
        } else {
          VarDef(name, words);
          out := Returned(words);
        }
      case Local(binds, body) =>
        match FirstBad(binds) {
          case Some(name) => out := ThrowException(BadName(name));
          case None => out := LocalBind(c, binds);
        }
      case Depends(choice) =>
        out := Returned([]);
        var env := Visible(vars);
        if env in choice {
          out := Exec(choice[env]);
        }
      case Then(first, next) =>
        out := Exec(first);
        if out.Returned? && out.value in next {
          out := Exec(next[out.value]);
        }
      case Throw(e) =>
        out := ThrowException(Raised(e));
      case Catch(body, catcher) =>
        out := CatchBody(c);
      case For(iterations) =>
        out := ForLoop(c);
      case Call(funcname, body) =>
        out := EvalLambda(c);
      case Block(body) =>
        out := EvalBlock(c);
    }

    /** localbind */
    method LocalBind(c: Cmd, dynamic: seq<Push>) returns (out: Outcome)
      requires Valid() && c.Local?
      modifies this`vars, this`pushlist, this`handlers, this`evaldepth
      ensures Ran(out, SemLocal(c, dynamic, Visible(old(vars)), old(evaldepth), maxevaldepth),
                  old(pushlist), old(handlers), old(evaldepth))
      decreases c, 0, |dynamic|
    {
      if dynamic == [] {
        assert c.body < c;
        out := Exec(c.body);
      } else {
        VarPush(dynamic[0].name, dynamic[0].defn);
        ghost var ps := pushlist;
        out := LocalBind(c, dynamic[1..]);
        if out.Returned? {
          VarPop();
          assert ps[..|ps| - 1] == old(pushlist);
        } else {
          ghost var mark := old(handlers)[|old(handlers)| - 1].pushlist;
          assert ps[mark..][..|ps| - mark - 1] == old(pushlist)[mark..];
          assert ps[..mark] == old(pushlist)[..mark];
        }
      }
    }

    /** ExceptionHandler */
    method PushHandler()
      requires Valid()
      modifies this`handlers
      ensures handlers == old(handlers) + [Handler(|pushlist|, evaldepth)] && Valid()
    {
      handlers := handlers + [Handler(|pushlist|, evaldepth)];
    }

    /** pophandler, on normal completion: the handler is still the innermost one. */
    method PopHandler(ghost handler: Handler)
      requires |handlers| > 1 && handlers[|handlers| - 1] == handler
      modifies this`handlers
      ensures handlers == old(handlers)[..|old(handlers)| - 1]
    {
      handlers := handlers[..|handlers| - 1];
    }

    /** $&catch, without retry. */
    method CatchBody(c: Cmd) returns (out: Outcome)
      requires Valid() && c.Catch?
      modifies this`vars, this`pushlist, this`handlers, this`evaldepth
      ensures Ran(out, Sem(c, Visible(old(vars)), old(evaldepth), maxevaldepth),
                  old(pushlist), old(handlers), old(evaldepth))
      decreases c, 0, 0
    {
      PushHandler();
      ghost var hs := handlers;
      out := Exec(c.body);
      assert hs[..|hs| - 1] == old(handlers);
      if out.Returned? {
        PopHandler(hs[|hs| - 1]);
      } else {
        assert old(pushlist)[..|old(pushlist)|] == old(pushlist);
        if out.exception in c.catcher {
          out := Exec(c.catcher[out.exception]);
        } else {
          out := Returned([]);
        }
      }
    }

    /** forloop: all iterations run under one handler, which `break` reaches. */
    method ForLoop(c: Cmd) returns (out: Outcome)
      requires Valid() && c.For?
      modifies this`vars, this`pushlist, this`handlers, this`evaldepth
      ensures Ran(out, Sem(c, Visible(old(vars)), old(evaldepth), maxevaldepth),
                  old(pushlist), old(handlers), old(evaldepth))
      decreases c, 0, 0
    {
      PushHandler();
      ghost var hs := handlers;
      ghost var r := SemFor(c, 0, ["0"], Visible(old(vars)), old(evaldepth), maxevaldepth);
      assert hs[..|hs| - 1] == old(handlers);
      assert old(pushlist)[..|old(pushlist)|] == old(pushlist);
      var result := ["0"];
      out := Returned(result);
      var i := 0;
      while i < |c.iterations|
        invariant 0 <= i <= |c.iterations| && out == Returned(result)
        invariant pushlist == old(pushlist) && handlers == hs && evaldepth == old(evaldepth)
        invariant SemFor(c, i, result, Visible(vars), evaldepth, maxevaldepth) == r
      {
        out := Exec(c.iterations[i]);
        if out.Thrown? {
          break;
        }
        result := out.value;
        i := i + 1;
      }
      if out.Returned? {
        PopHandler(hs[|hs| - 1]);
      } else if Is(out.exception, "break") {
        out := Returned(out.exception[1..]);
      } else {
        out := ThrowException(out.exception);
      }
    }

    /** eval of a lambda, named or not: depth is counted, `return` is caught, and $0 is
        bound while a named function runs. */
    method EvalLambda(c: Cmd) returns (out: Outcome)
      requires Valid() && c.Call?
      modifies this`vars, this`pushlist, this`handlers, this`evaldepth
      ensures Ran(out, Sem(c, Visible(old(vars)), old(evaldepth), maxevaldepth),
                  old(pushlist), old(handlers), old(evaldepth))
      decreases c, 0, 1
    {
      evaldepth := evaldepth + 1;
      if evaldepth >= maxevaldepth {
        out := ThrowException(DEPTH_EXCEEDED);
        return;
      }
      PushHandler();
      ghost var hs := handlers;
      assert hs[..|hs| - 1] == old(handlers);
      assert old(pushlist)[..|old(pushlist)|] == old(pushlist);
      out := RunBody(c);
      if out.Returned? {
        PopHandler(hs[|hs| - 1]);
      } else if Is(out.exception, "return") {
        out := Returned(out.exception[1..]);
      } else {
        out := ThrowException(out.exception);
        return;
      }
      evaldepth := evaldepth - 1;
    }

    /** eval of a thunk or a primitive: depth is counted, but nothing is caught. */
    method EvalBlock(c: Cmd) returns (out: Outcome)
      requires Valid() && c.Block?
      modifies this`vars, this`pushlist, this`handlers, this`evaldepth
      ensures Ran(out, Sem(c, Visible(old(vars)), old(evaldepth), maxevaldepth),
                  old(pushlist), old(handlers), old(evaldepth))
      decreases c, 0, 1
    {
      evaldepth := evaldepth + 1;
      if evaldepth >= maxevaldepth {
        out := ThrowException(DEPTH_EXCEEDED);
        return;
      }
      assert c.body < c;
      out := Exec(c.body);
      if out.Returned? {
        evaldepth := evaldepth - 1;
      }
    }

    method RunBody(c: Cmd) returns (out: Outcome)
      requires Valid() && c.Call?
      modifies this`vars, this`pushlist, this`handlers, this`evaldepth
      ensures Ran(out, SemBody(c, Visible(old(vars)), old(evaldepth), maxevaldepth),
                  old(pushlist), old(handlers), old(evaldepth))
      decreases c, 0, 0
    {
      assert c.body < c;
      if c.funcname.None? {
        out := Exec(c.body);
      } else {
        VarPush("0", [c.funcname.value]);
        ghost var ps := pushlist;
        ghost var mark := old(handlers)[|old(handlers)| - 1].pushlist;
        out := Exec(c.body);
        assert ps[..|ps| - 1] == old(pushlist);
        assert ps[mark..][..|ps| - mark - 1] == old(pushlist)[mark..];
        assert ps[..mark] == old(pushlist)[..mark];
        if out.Returned? {
          VarPop();
        }
      }
    }
  }

  // ----- what scopes guarantee

  ghost predicate Names(binds: seq<Push>, x: Name) {
    exists i :: 0 <= i < |binds| && binds[i].name == x
  }

  ghost function BindAll(env: Env, binds: seq<Push>): Env
    decreases |binds|
  {
    if binds == [] then env else BindAll(Bind(env, binds[0].name, binds[0].defn), binds[1..])
  }

  /** However the body of a `local` is left, and whatever it assigned or deleted, each
      name it binds then looks up to what it was before, and every other name to what
      the body made of it. */
  lemma {:induction false} LocalRestores(c: Cmd, binds: seq<Push>, env: Env, depth: nat, max: nat, x: Name)
    requires c.Local?
    ensures Names(binds, x) ==> Lookup(SemLocal(c, binds, env, depth, max).1, x) == Lookup(env, x)
    ensures !Names(binds, x) ==>
              Lookup(SemLocal(c, binds, env, depth, max).1, x)
              == Lookup(Sem(c.body, BindAll(env, binds), depth, max).1, x)
    ensures SemLocal(c, binds, env, depth, max).0 == Sem(c.body, BindAll(env, binds), depth, max).0
    decreases |binds|
  {
    if binds != [] {
      var env1 := Bind(env, binds[0].name, binds[0].defn);
      LocalRestores(c, binds[1..], env1, depth, max, x);
      if Names(binds, x) && binds[0].name != x {
        var i :| 0 <= i < |binds| && binds[i].name == x;
        assert binds[1..][i - 1].name == x;
      }
      if Names(binds[1..], x) {
        var i :| 0 <= i < |binds[1..]| && binds[1..][i].name == x;
        assert binds[i + 1].name == x;
      }
    }
  }

  /** A script run under a fresh root handler: nothing is left on any stack, and every
      name bound by an enclosing `local` anywhere in it has been restored. */
  method RunScript(sh: Shell, c: Cmd) returns (out: Outcome)
    requires sh.Valid() && sh.pushlist == []
    modifies sh`vars, sh`pushlist, sh`handlers, sh`evaldepth
    ensures sh.pushlist == [] && sh.handlers == old(sh.handlers) && sh.evaldepth == old(sh.evaldepth)
    ensures out == Sem(c, Visible(old(sh.vars)), old(sh.evaldepth), sh.maxevaldepth).0
    ensures Visible(sh.vars) == Sem(c, Visible(old(sh.vars)), old(sh.evaldepth), sh.maxevaldepth).1
  {
    sh.PushHandler();
    ghost var hs := sh.handlers;
    out := sh.Exec(c);
    assert hs[..|hs| - 1] == old(sh.handlers);
    if out.Returned? {
      sh.PopHandler(hs[|hs| - 1]);
    }
  }
}
