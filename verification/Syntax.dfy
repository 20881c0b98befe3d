/** src/syntax.c: the rewriting of parse trees, as values. */
module SyntaxTrees {
  datatype Kind = WORD | QWORD | PRIM | LIST | REDIR | THUNK | LAMBDA | VAR | CALL | CONCAT | OTHER(n: nat)

  /** A parse tree: NULL, the placeholder, the error node, or a node with its two fields. */
  datatype Tree = Nil | Hole | Bad | Node(kind: Kind, s: string, car: Tree, cdr: Tree)

  function Leaf(kind: Kind, s: string): Tree { Node(kind, s, Nil, Nil) }

  function List(car: Tree, cdr: Tree): Tree { Node(LIST, "", car, cdr) }

  function Redir(car: Tree, cdr: Tree): Tree { Node(REDIR, "", car, cdr) }

  function Thunk(body: Tree): Tree { Node(THUNK, "", body, Nil) }

  predicate Is(t: Tree, kind: Kind) { t.Node? && t.kind == kind }

  /** firstis */
  predicate FirstIs(t: Tree, s: string) { Is(t, LIST) && Is(t.car, WORD) && t.car.s == s }

  /** A list whose cells are joined by CDR, queued redirections included. */
  predicate IsSpine(t: Tree) {
    t.Nil? || ((Is(t, LIST) || Is(t, REDIR)) && IsSpine(t.cdr))
  }

  /** treeappend */
  function Append(head: Tree, tail: Tree): Tree {
    if head.Node? then head.(cdr := Append(head.cdr, tail)) else tail
  }

  predicate IsThunk(t: Tree) { Is(t, THUNK) || (Is(t, LIST) && Is(t.car, THUNK) && t.cdr.Nil?) }

  /** thunkify */
  function Thunkify(t: Tree): Tree { if IsThunk(t) then t else Thunk(t) }

  function Prefix(s: string, t: Tree): Tree { List(Leaf(WORD, s), t) }

  function Length(t: Tree): nat { if t.Node? then 1 + Length(t.cdr) else 0 }

  lemma {:induction false} AppendAssociates(a: Tree, b: Tree, c: Tree)
    ensures Append(Append(a, b), c) == Append(a, Append(b, c))
  {
    if a.Node? {
      AppendAssociates(a.cdr, b, c);
    }
  }

  lemma {:induction false} AppendLength(a: Tree, b: Tree)
    ensures Length(Append(a, b)) == Length(a) + Length(b)
  {
    if a.Node? {
      AppendLength(a.cdr, b);
    }
  }

  lemma {:induction false} AppendSpine(a: Tree, b: Tree)
    requires IsSpine(a) && IsSpine(b)
    ensures IsSpine(Append(a, b))
  {
    if a.Node? {
      AppendSpine(a.cdr, b);
    }
  }

  // ----- mkseq, mkpipe

  /** mkseq */
  function Mkseq(op: string, t1: Tree, t2: Tree): Tree {
    if op == "%seq" && t1.Nil? then t2
    else if op == "%seq" && t2.Nil? then t1
    else
      var same := FirstIs(t2, op);
      var tail := if same then t2.cdr else List(Thunkify(t2), Nil);
      if FirstIs(t1, op) then Append(t1, tail)
      else if same then t2.(cdr := List(Thunkify(t1), tail))
      else Prefix(op, List(Thunkify(t1), tail))
  }

  /** The operands that a command contributes to a flattened node. */
  function Operands(op: string, t: Tree): Tree {
    if FirstIs(t, op) then t.cdr else List(Thunkify(t), Nil)
  }

  /** Flattening puts the operands of the right command after those of the left one. */
  lemma MkseqOperands(op: string, t1: Tree, t2: Tree)
    requires op == "%seq" ==> !t1.Nil? && !t2.Nil?
    ensures FirstIs(Mkseq(op, t1, t2), op)
    ensures Mkseq(op, t1, t2).cdr == Append(Operands(op, t1), Operands(op, t2))
  {
  }

  /** mkpipe, with the two numbers as they are printed */
  function Mkpipe(t1: Tree, outfd: string, infd: string, t2: Tree): Tree {
    var same := FirstIs(t2, "%pipe");
    var tail := Prefix(outfd, Prefix(infd, if same then t2.cdr else List(Thunkify(t2), Nil)));
    if FirstIs(t1, "%pipe") then Append(t1, tail)
    else if same then t2.(cdr := List(Thunkify(t1), tail))
    else Prefix("%pipe", List(Thunkify(t1), tail))
  }

  /** The stages of a pipeline: a command, then two numbers and a command each time. */
  function Stages(args: Tree): (r: seq<Tree>) {
    if args.Node? then
      [args.car] + (if args.cdr.Node? && args.cdr.cdr.Node? then Stages(args.cdr.cdr.cdr) else [])
    else []
  }

  lemma {:induction false} StagesAppend(a: Tree, n: Tree, m: Tree, b: Tree)
    requires Length(a) % 3 == 1
    ensures Stages(Append(a, List(n, List(m, b)))) == Stages(a) + Stages(b)
    decreases Length(a)
  {
    var tail := List(n, List(m, b));
    if a.cdr.Node? {
      assert Length(a) == 2 + Length(a.cdr.cdr);
      var rest := a.cdr.cdr.cdr;
      assert Length(a) == 3 + Length(rest);
      StagesAppend(rest, n, m, b);
      assert Append(a.cdr.cdr, tail) == a.cdr.cdr.(cdr := Append(rest, tail));
      assert Append(a.cdr, tail) == a.cdr.(cdr := Append(a.cdr.cdr, tail));
      assert Append(a, tail) == a.(cdr := Append(a.cdr, tail));
    } else {
      assert Append(a, tail) == a.(cdr := tail);
    }
  }

  /** The pairs of numbers between the stages. */
  function Links(args: Tree): (r: seq<(Tree, Tree)>) {
    if args.Node? && args.cdr.Node? && args.cdr.cdr.Node? then
      [(args.cdr.car, args.cdr.cdr.car)] + Links(args.cdr.cdr.cdr)
    else []
  }

  lemma {:induction false} LinksAppend(a: Tree, n: Tree, m: Tree, b: Tree)
    requires Length(a) % 3 == 1
    ensures Links(Append(a, List(n, List(m, b)))) == Links(a) + [(n, m)] + Links(b)
    decreases Length(a)
  {
    var tail := List(n, List(m, b));
    if a.cdr.Node? {
      assert Length(a) == 2 + Length(a.cdr.cdr);
      var rest := a.cdr.cdr.cdr;
      assert Length(a) == 3 + Length(rest);
      LinksAppend(rest, n, m, b);
      assert Append(a.cdr.cdr, tail) == a.cdr.cdr.(cdr := Append(rest, tail));
      assert Append(a.cdr, tail) == a.cdr.(cdr := Append(a.cdr.cdr, tail));
      assert Append(a, tail) == a.(cdr := Append(a.cdr, tail));
    } else {
      assert Append(a, tail) == a.(cdr := tail);
    }
  }

  lemma MkpipeOperands(t1: Tree, outfd: string, infd: string, t2: Tree)
    ensures FirstIs(Mkpipe(t1, outfd, infd, t2), "%pipe")
    ensures Mkpipe(t1, outfd, infd, t2).cdr
         == Append(Operands("%pipe", t1), Prefix(outfd, Prefix(infd, Operands("%pipe", t2))))
  {
  }

  lemma TwoMore(n: Tree, m: Tree, b: Tree)
    ensures Length(List(n, List(m, b))) == 2 + Length(b)
  {
    assert Length(List(m, b)) == 1 + Length(b);
  }

  lemma OneModuloThree(a: nat, b: nat)
    requires a % 3 == 1 && b % 3 == 1
    ensures (a + (2 + b)) % 3 == 1
  {
  }

  /** mkpipe keeps the stages and the numbers between them in order, with the new pair where
      the two commands meet, and the length that $&pipe demands. */
  lemma MkpipeStages(t1: Tree, outfd: string, infd: string, t2: Tree)
    requires Length(Operands("%pipe", t1)) % 3 == 1 && Length(Operands("%pipe", t2)) % 3 == 1
    ensures var t := Mkpipe(t1, outfd, infd, t2);
            && FirstIs(t, "%pipe") && Length(t.cdr) % 3 == 1
            && Stages(t.cdr) == Stages(Operands("%pipe", t1)) + Stages(Operands("%pipe", t2))
            && Links(t.cdr) == Links(Operands("%pipe", t1)) + [(Leaf(WORD, outfd), Leaf(WORD, infd))] + Links(Operands("%pipe", t2))
  {
    hide Links, Stages, Operands, Append, FirstIs, Mkpipe, Length;
    var a, b := Operands("%pipe", t1), Operands("%pipe", t2);
    MkpipeOperands(t1, outfd, infd, t2);
    AppendLength(a, Prefix(outfd, Prefix(infd, b)));
    TwoMore(Leaf(WORD, outfd), Leaf(WORD, infd), b);
    OneModuloThree(Length(a), Length(b));
    StagesAppend(a, Leaf(WORD, outfd), Leaf(WORD, infd), b);
    LinksAppend(a, Leaf(WORD, outfd), Leaf(WORD, infd), b);
  }

  // ----- redirections

  /** A call with the placeholder among its words. */
  predicate IsCall(r: Tree) { Is(r, LIST) && (r.car.Hole? || IsCall(r.cdr)) }

  predicate IsWords(t: Tree) { t.Nil? || (Is(t, LIST) && IsWords(t.cdr)) }

  /** What mkredir yields: a call, under the words that it adds to the command. */
  predicate IsRedirection(r: Tree) {
    if Is(r, REDIR) then IsWords(r.car) && IsRedirection(r.cdr) else IsCall(r)
  }

  /** Queued redirections in front of anything else, or of a list if they bring words. */
  predicate IsCommand(t: Tree) {
    Is(t, REDIR) ==> IsRedirection(t.car) && (Is(t.car, REDIR) ==> IsSpine(t.cdr)) && IsCommand(t.cdr)
  }

  function CallOf(r: Tree): Tree { if Is(r, REDIR) then CallOf(r.cdr) else r }

  function WordsOf(r: Tree): Tree { if Is(r, REDIR) then Append(r.car, WordsOf(r.cdr)) else Nil }

  /** The words of a redirection, appended to a command one list after the other. */
  function AddWords(t: Tree, r: Tree): Tree
    decreases r
  {
    if Is(r, REDIR) then AddWords(Append(t, r.car), r.cdr) else t
  }

  function Insert(t: Tree, r: Tree): Tree {
    if Is(t, REDIR) then t.(cdr := Insert(t.cdr, r)) else Redir(r, t)
  }

  /** redirappend */
  function RedirAppend(t: Tree, r: Tree): Tree { Insert(AddWords(t, r), CallOf(r)) }

  /** The call with the placeholder replaced. */
  function Fill(r: Tree, x: Tree): Tree {
    if r.Node? then if r.car.Hole? then r.(car := x) else r.(cdr := Fill(r.cdr, x)) else r
  }

  predicate BadHeredoc(r: Tree) {
    FirstIs(r, "%heredoc") && !(Is(r.cdr, LIST) && Is(r.cdr.cdr, LIST) && (Is(r.cdr.cdr.car, WORD) || Is(r.cdr.cdr.car, QWORD)))
  }

  /** queueheredoc, as far as it changes the tree */
  function Queued(r: Tree): Tree {
    if FirstIs(r, "%heredoc") then r.(car := r.car.(s := "%here")) else r
  }

  function Redirs(t: Tree): nat { if Is(t, REDIR) then 1 + Redirs(t.cdr) else 0 }

  lemma {:induction false} AddWordsKeeps(t: Tree, r: Tree)
    requires IsRedirection(r) && IsCommand(t) && (Is(r, REDIR) ==> IsSpine(t))
    ensures IsCommand(AddWords(t, r)) && Redirs(AddWords(t, r)) == Redirs(t)
    decreases r
  {
    if Is(r, REDIR) {
      WordsAppend(t, r.car);
      AddWordsKeeps(Append(t, r.car), r.cdr);
    }
  }

  lemma {:induction false} WordsAppend(t: Tree, words: Tree)
    requires IsWords(words) && IsSpine(t) && IsCommand(t)
    ensures IsSpine(Append(t, words)) && IsCommand(Append(t, words)) && Redirs(Append(t, words)) == Redirs(t)
  {
    WordsAreSpine(words);
    AppendSpine(t, words);
    if Is(t, REDIR) {
      WordsAppend(t.cdr, words);
    }
  }

  lemma {:induction false} WordsAreSpine(words: Tree)
    requires IsWords(words)
    ensures IsSpine(words)
  {
    if words.Node? {
      WordsAreSpine(words.cdr);
    }
  }

  /** redirect */
  function Redirect(t: Tree): Tree
    requires IsCommand(t)
    decreases Redirs(t)
  {
    if !Is(t, REDIR) then t
    else
      AddWordsKeeps(t.cdr, t.car);
      if BadHeredoc(CallOf(t.car)) then Bad
      else Fill(Queued(CallOf(t.car)), Thunkify(Redirect(AddWords(t.cdr, t.car))))
  }

  // ----- simple commands

  /** What follows the first word of a simple command. */
  datatype Item = Word(word: Tree) | Redirection(redir: Tree)

  predicate Proper(items: seq<Item>) {
    forall i | 0 <= i < |items| :: items[i].Redirection? ==> IsRedirection(items[i].redir)
  }

  /** The actions of the grammar for a simple command. */
  function Build(t: Tree, items: seq<Item>): Tree
    decreases |items|
  {
    if items == [] then t
    else Build(match items[0]
               case Word(word) => if word.Nil? then t else Append(t, List(word, Nil))
               case Redirection(r) => RedirAppend(t, r), items[1..])
  }

  /** The words, in the order written; redirections from and to commands bring their own. */
  function Words(items: seq<Item>): Tree {
    if items == [] then Nil
    else Append(match items[0]
                case Word(word) => if word.Nil? then Nil else List(word, Nil)
                case Redirection(r) => WordsOf(r), Words(items[1..]))
  }

  /** The calls, in the order written. */
  function Calls(items: seq<Item>): seq<Tree> {
    if items == [] then []
    else (if items[0].Redirection? then [CallOf(items[0].redir)] else []) + Calls(items[1..])
  }

  /** Calls, each around a thunk of the next, the innermost around the words. */
  function Nest(calls: seq<Tree>, words: Tree): Tree {
    if calls == [] then words
    else if BadHeredoc(calls[0]) then Bad
    else Fill(Queued(calls[0]), Thunkify(Nest(calls[1..], words)))
  }

  /** Queued calls in front of words. */
  function Queue(calls: seq<Tree>, words: Tree): Tree {
    if calls == [] then words else Redir(calls[0], Queue(calls[1..], words))
  }

  lemma {:induction false} QueueAppend(calls: seq<Tree>, words: Tree, more: Tree)
    ensures Append(Queue(calls, words), more) == Queue(calls, Append(words, more))
  {
    if calls != [] {
      QueueAppend(calls[1..], words, more);
    }
  }

  lemma {:induction false} QueueInsert(calls: seq<Tree>, words: Tree, r: Tree)
    requires IsWords(words)
    ensures Insert(Queue(calls, words), r) == Queue(calls + [r], words)
  {
    if calls != [] {
      QueueInsert(calls[1..], words, r);
      assert (calls + [r])[1..] == calls[1..] + [r];
    }
  }

  lemma {:induction false} AddWordsQueue(calls: seq<Tree>, words: Tree, r: Tree)
    requires IsWords(words) && IsRedirection(r)
    ensures IsWords(Append(words, WordsOf(r)))
    ensures AddWords(Queue(calls, words), r) == Queue(calls, Append(words, WordsOf(r)))
    decreases r
  {
    if Is(r, REDIR) {
      QueueAppend(calls, words, r.car);
      AppendWords(words, r.car);
      AddWordsQueue(calls, Append(words, r.car), r.cdr);
      AppendAssociates(words, r.car, WordsOf(r.cdr));
    } else {
      AppendNil(words);
    }
  }

  lemma {:induction false} AppendNil(t: Tree)
    requires IsWords(t)
    ensures Append(t, Nil) == t
  {
    if t.Node? {
      AppendNil(t.cdr);
    }
  }

  lemma {:induction false} AppendWords(a: Tree, b: Tree)
    requires IsWords(a) && IsWords(b)
    ensures IsWords(Append(a, b))
  {
    if a.Node? {
      AppendWords(a.cdr, b);
    }
  }

  lemma {:induction false} CallOfIsCall(r: Tree)
    requires IsRedirection(r)
    ensures IsCall(CallOf(r)) && Is(CallOf(r), LIST) && IsWords(WordsOf(r))
  {
    if Is(r, REDIR) {
      CallOfIsCall(r.cdr);
      AppendWords(r.car, WordsOf(r.cdr));
    }
  }

  /** Words and redirections in any order: the redirections queue up in front. */
  lemma {:induction false} BuildQueues(calls: seq<Tree>, words: Tree, items: seq<Item>)
    requires IsWords(words) && Proper(items)
    ensures Build(Queue(calls, words), items) == Queue(calls + Calls(items), Append(words, Words(items)))
    ensures IsWords(Append(words, Words(items)))
    decreases |items|
  {
    if items == [] {
      AppendNil(words);
      assert calls + [] == calls;
    } else {
      var rest := items[1..];
      assert Proper(rest) by {
        forall i | 0 <= i < |rest|
          ensures rest[i].Redirection? ==> IsRedirection(rest[i].redir)
        {
          assert rest[i] == items[i + 1];
        }
      }
      match items[0] {
        case Word(word) =>
          assert calls + ([] + Calls(rest)) == calls + Calls(rest);
          if word.Nil? {
            BuildQueues(calls, words, rest);
          } else {
            QueueAppend(calls, words, List(word, Nil));
            AppendWords(words, List(word, Nil));
            BuildQueues(calls, Append(words, List(word, Nil)), rest);
            AppendAssociates(words, List(word, Nil), Words(rest));
          }
        case Redirection(r) =>
          var more := Append(words, WordsOf(r));
          AddWordsQueue(calls, words, r);
          QueueInsert(calls, more, CallOf(r));
          BuildQueues(calls + [CallOf(r)], more, rest);
          AppendAssociates(words, WordsOf(r), Words(rest));
          assert calls + [CallOf(r)] + Calls(rest) == calls + ([CallOf(r)] + Calls(rest));
      }
    }
  }

  predicate AreCalls(calls: seq<Tree>) { forall i | 0 <= i < |calls| :: IsCall(calls[i]) }

  lemma {:induction false} CallsAreCalls(items: seq<Item>)
    requires Proper(items)
    ensures AreCalls(Calls(items))
  {
    if items != [] {
      var rest := items[1..];
      forall i | 0 <= i < |rest|
        ensures rest[i].Redirection? ==> IsRedirection(rest[i].redir)
      {
        assert rest[i] == items[i + 1];
      }
      CallsAreCalls(rest);
      if items[0].Redirection? {
        CallOfIsCall(items[0].redir);
      }
    }
  }

  lemma {:induction false} RedirectQueue(calls: seq<Tree>, words: Tree)
    requires IsWords(words) && AreCalls(calls)
    ensures IsCommand(Queue(calls, words)) && IsSpine(Queue(calls, words))
    ensures Redirect(Queue(calls, words)) == Nest(calls, words)
  {
    if calls == [] {
      WordsAreSpine(words);
    } else {
      assert IsCall(calls[0]);
      RedirectQueue(calls[1..], words);
    }
  }

  /** A simple command of words and redirections in any order is rewritten to the calls,
      nested in the order written, around the words, in the order written. */
  lemma SimpleCommand(first: Tree, items: seq<Item>)
    requires Proper(items)
    ensures var start := if first.Nil? then Nil else List(first, Nil);
            var t := Build(start, items);
            && IsCommand(t)
            && Redirect(t) == Nest(Calls(items), Append(start, Words(items)))
  {
    var start := if first.Nil? then Nil else List(first, Nil);
    BuildQueues([], start, items);
    CallsAreCalls(items);
    assert [] + Calls(items) == Calls(items);
    RedirectQueue(Calls(items), Append(start, Words(items)));
  }

  // ----- nothing of the queue is left

  /** No queued redirection, placeholder or error node anywhere. */
  predicate Clean(t: Tree) {
    t.Nil? || (t.Node? && t.kind != REDIR && Clean(t.car) && Clean(t.cdr))
  }

  /** A call that is clean but for one placeholder. */
  predicate CleanCall(r: Tree) {
    Is(r, LIST) && if r.car.Hole? then Clean(r.cdr) else Clean(r.car) && CleanCall(r.cdr)
  }

  lemma {:induction false} FillClean(r: Tree, x: Tree)
    requires CleanCall(r)
    ensures Clean(Fill(r, x)) <==> Clean(x)
  {
    if !r.car.Hole? {
      FillClean(r.cdr, x);
    }
  }

  lemma {:induction false} NestClean(calls: seq<Tree>, words: Tree)
    requires Clean(words) && forall i | 0 <= i < |calls| :: CleanCall(calls[i])
    ensures Clean(Nest(calls, words)) <==> forall i | 0 <= i < |calls| :: !BadHeredoc(calls[i])
  {
    if calls != [] {
      var rest := calls[1..];
      assert forall i | 0 <= i < |rest| :: rest[i] == calls[i + 1];
      assert CleanCall(calls[0]);
      NestClean(rest, words);
      assert (forall i | 0 <= i < |calls| :: !BadHeredoc(calls[i]))
        <==> !BadHeredoc(calls[0]) && forall i | 0 <= i < |rest| :: !BadHeredoc(rest[i]);
      if !BadHeredoc(calls[0]) {
        FillClean(Queued(calls[0]), Thunkify(Nest(rest, words)));
      }
    }
  }

  // ----- what the parser builds

  /** mkclose */
  function Mkclose(fd: string): Tree { Prefix("%close", Prefix(fd, List(Hole, Nil))) }

  /** mkdup */
  function Mkdup(fd0: string, fd1: string): Tree { Prefix("%dup", Prefix(fd0, Prefix(fd1, List(Hole, Nil)))) }

  /** mkredircmd */
  function Mkredircmd(cmd: string, fd: string): Tree { Prefix(cmd, Prefix(fd, Nil)) }

  /** mkredir; only an input or an output may come from or go to a command. */
  function Mkredir(cmd: Tree, file: Tree, name: string): Tree {
    if Is(file, THUNK) then
      var op := if FirstIs(cmd, "%open") then "%readfrom" else if FirstIs(cmd, "%create") then "%writeto" else "";
      var call := Prefix(op, Prefix(name, Nil));
      Redir(List(Node(VAR, "", Leaf(WORD, name), Nil), Nil), Append(call, List(file, List(Hole, Nil))))
    else
      var one := if FirstIs(cmd, "%heredoc") || FirstIs(cmd, "%here") then file
                 else Node(CALL, "", Prefix("%one", List(file, Nil)), Nil);
      Append(cmd, List(one, List(Hole, Nil)))
  }

  /** A redirection that the rewriting can use, and that leaves nothing of itself behind. */
  predicate Usable(r: Tree) {
    IsRedirection(r) && CleanCall(CallOf(r)) && Clean(WordsOf(r))
  }

  /** Clean words, and redirections as the parser builds them. */
  predicate CleanItems(items: seq<Item>) {
    forall i | 0 <= i < |items| ::
      match items[i] case Word(word) => Clean(word) case Redirection(r) => Usable(r)
  }

  lemma {:induction false} AppendClean(a: Tree, b: Tree)
    requires IsWords(a) && Clean(a) && Clean(b)
    ensures Clean(Append(a, b))
  {
    if a.Node? {
      AppendClean(a.cdr, b);
    }
  }

  lemma {:induction false} ItemsClean(items: seq<Item>)
    requires CleanItems(items)
    ensures Proper(items) && IsWords(Words(items)) && Clean(Words(items))
    ensures forall i | 0 <= i < |Calls(items)| :: CleanCall(Calls(items)[i])
  {
    if items != [] {
      var rest := items[1..];
      assert forall i | 0 <= i < |rest| :: rest[i] == items[i + 1];
      ItemsClean(rest);
      match items[0] {
        case Word(word) =>
          if !word.Nil? {
            assert Append(List(word, Nil), Words(rest)) == List(word, Words(rest));
          }
        case Redirection(r) =>
          CallOfIsCall(r);
          AppendWords(WordsOf(r), Words(rest));
          AppendClean(WordsOf(r), Words(rest));
      }
    }
  }

  /** Whatever words and redirections a simple command is written with, in any order: nothing
      of the queue is left in its tree if and only if every here document names a word. */
  lemma SimpleCommandClean(first: Tree, items: seq<Item>)
    requires Clean(first) && CleanItems(items)
    ensures var start := if first.Nil? then Nil else List(first, Nil);
            var t := Build(start, items);
            && IsCommand(t)
            && (Clean(Redirect(t)) <==> forall i | 0 <= i < |Calls(items)| :: !BadHeredoc(Calls(items)[i]))
  {
    var start := if first.Nil? then Nil else List(first, Nil);
    ItemsClean(items);
    SimpleCommand(first, items);
    AppendClean(start, Words(items));
    NestClean(Calls(items), Append(start, Words(items)));
  }

  lemma CallCells(a: Tree, b: Tree, c: Tree)
    requires Clean(a) && Clean(b) && Clean(c)
    ensures var r := List(a, List(b, List(c, List(Hole, Nil))));
            IsCall(r) && IsRedirection(r) && CleanCall(r)
  {
    var d := List(c, List(Hole, Nil));
    assert IsCall(d) && CleanCall(d);
    assert IsCall(List(b, d)) && CleanCall(List(b, d));
  }

  lemma CloseIsUsable(fd: string, fd1: string)
    ensures Usable(Mkclose(fd)) && WordsOf(Mkclose(fd)) == Nil
    ensures Usable(Mkdup(fd, fd1)) && WordsOf(Mkdup(fd, fd1)) == Nil
  {
    CallCells(Leaf(WORD, "%dup"), Leaf(WORD, fd), Leaf(WORD, fd1));
    var d := List(Leaf(WORD, fd), List(Hole, Nil));
    assert IsCall(d) && CleanCall(d);
  }

  lemma TwoCells(a: Tree, b: Tree, tail: Tree)
    ensures Append(List(a, List(b, Nil)), tail) == List(a, List(b, tail))
  {
    assert Append(List(b, Nil), tail) == List(b, tail);
  }

  lemma OneWord(v: Tree, call: Tree)
    requires Clean(v) && Is(call, LIST) && IsCall(call) && CleanCall(call)
    ensures var r := Redir(List(v, Nil), call);
            Usable(r) && WordsOf(r) == List(v, Nil)
  {
    var words := List(v, Nil);
    assert IsWords(words) && Clean(words);
    AppendNil(words);
    assert WordsOf(Redir(words, call)) == Append(words, WordsOf(call)) && WordsOf(call) == Nil;
  }

  /** mkredir yields a usable redirection, which brings a word exactly when its file is a
      command. */
  lemma RedirIsUsable(cmd: string, fd: string, file: Tree, name: string)
    requires Clean(file)
    ensures var r := Mkredir(Mkredircmd(cmd, fd), file, name);
            && Usable(r)
            && WordsOf(r) == if Is(file, THUNK) then List(Node(VAR, "", Leaf(WORD, name), Nil), Nil) else Nil
  {
    hide Append, IsCall, CleanCall, Usable, FirstIs;
    var open := Mkredircmd(cmd, fd);
    var r := Mkredir(open, file, name);
    if Is(file, THUNK) {
      var op := Leaf(WORD, if FirstIs(open, "%open") then "%readfrom" else if FirstIs(open, "%create") then "%writeto" else "");
      TwoCells(op, Leaf(WORD, name), List(file, List(Hole, Nil)));
      CallCells(op, Leaf(WORD, name), file);
      OneWord(Node(VAR, "", Leaf(WORD, name), Nil), r.cdr);
    } else {
      var one := if FirstIs(open, "%heredoc") || FirstIs(open, "%here") then file
                 else Node(CALL, "", Prefix("%one", List(file, Nil)), Nil);
      OneIsClean(file);
      TwoCells(Leaf(WORD, cmd), Leaf(WORD, fd), List(one, List(Hole, Nil)));
      CallCells(Leaf(WORD, cmd), Leaf(WORD, fd), one);
      NoWords(r);
    }
  }

  lemma OneIsClean(file: Tree)
    requires Clean(file)
    ensures Clean(Node(CALL, "", Prefix("%one", List(file, Nil)), Nil))
  {
    assert Clean(List(file, Nil));
    assert Clean(Prefix("%one", List(file, Nil)));
  }

  lemma NoWords(r: Tree)
    requires Is(r, LIST) && IsCall(r) && CleanCall(r)
    ensures Usable(r) && WordsOf(r) == Nil
  {
  }

  /** What the cells of a list or a call hold. */
  function Cells(t: Tree): seq<Tree> { if t.Node? then [t.car] + Cells(t.cdr) else [] }

  function LiteralWord(s: string): Tree { Leaf(WORD, s) }

  lemma TwoWords(a: Tree, b: Tree, tail: Tree)
    ensures Cells(List(a, List(b, tail))) == [a, b] + Cells(tail)
  {
    assert Cells(List(b, tail)) == [b] + Cells(tail);
  }

  /** A closed descriptor, and a duplicate: the descriptor to set comes first, then the one
      it is taken from. */
  lemma DescriptorCells(fd0: string, fd1: string)
    ensures Cells(Mkclose(fd0)) == [LiteralWord("%close"), LiteralWord(fd0), Hole]
    ensures Cells(Mkdup(fd0, fd1)) == [LiteralWord("%dup"), LiteralWord(fd0), LiteralWord(fd1), Hole]
  {
    assert Cells(List(Hole, Nil)) == [Hole];
    TwoWords(LiteralWord("%close"), LiteralWord(fd0), List(Hole, Nil));
    TwoWords(LiteralWord("%dup"), LiteralWord(fd0), List(LiteralWord(fd1), List(Hole, Nil)));
    assert Cells(List(LiteralWord(fd1), List(Hole, Nil))) == [LiteralWord(fd1), Hole];
  }

  /** What the call of a redirection holds: the operation, its descriptor, the file and the
      place of the command.  The document of a here document stands for itself, any other
      file must be one word; a command is read from by an input and written to by an output,
      through the variable that the call names. */
  lemma RedirCells(cmd: string, fd: string, file: Tree, name: string)
    ensures var call := CallOf(Mkredir(Mkredircmd(cmd, fd), file, name));
            Cells(call) ==
              if Is(file, THUNK) then
                [LiteralWord(match cmd case "%open" => "%readfrom" case "%create" => "%writeto" case _ => ""),
                 LiteralWord(name), file, Hole]
              else if cmd in {"%heredoc", "%here"} then [LiteralWord(cmd), LiteralWord(fd), file, Hole]
              else [LiteralWord(cmd), LiteralWord(fd), Node(CALL, "", List(LiteralWord("%one"), List(file, Nil)), Nil), Hole]
  {
    hide Append, Cells;
    var open := Mkredircmd(cmd, fd);
    if Is(file, THUNK) {
      var op := if cmd == "%open" then "%readfrom" else if cmd == "%create" then "%writeto" else "";
      FourCells(LiteralWord(op), LiteralWord(name), file);
    } else {
      var one := if FirstIs(open, "%heredoc") || FirstIs(open, "%here") then file
                 else Node(CALL, "", Prefix("%one", List(file, Nil)), Nil);
      FourCells(LiteralWord(cmd), LiteralWord(fd), one);
    }
  }

  lemma FourCells(a: Tree, b: Tree, c: Tree)
    ensures var call := Append(List(a, List(b, Nil)), List(c, List(Hole, Nil)));
            Is(call, LIST) && Cells(call) == [a, b, c, Hole]
  {
    TwoCells(a, b, List(c, List(Hole, Nil)));
    TwoWords(a, b, List(c, List(Hole, Nil)));
    TwoWords(c, Hole, Nil);
  }

  /** The place of the command is the first hole of a call, and only it is filled. */
  lemma {:induction false} FillCells(r: Tree, x: Tree) returns (i: nat)
    requires IsCall(r)
    ensures i < |Cells(r)| && Cells(r)[i] == Hole && forall j | 0 <= j < i :: Cells(r)[j] != Hole
    ensures Cells(Fill(r, x)) == Cells(r)[i := x]
  {
    if r.car.Hole? {
      i := 0;
    } else {
      i := FillCells(r.cdr, x);
      i := i + 1;
    }
  }

  /** A here document whose text is read becomes a call of %here. */
  lemma QueuedCells(r: Tree)
    ensures Cells(Queued(r)) == if FirstIs(r, "%heredoc") then [r.car.(s := "%here")] + Cells(r)[1..] else Cells(r)
  {
  }

  /** Words and calls are taken from left to right, and an earlier call goes around a later
      one. */
  lemma {:induction false} ItemsInOrder(a: seq<Item>, b: seq<Item>)
    ensures Calls(a + b) == Calls(a) + Calls(b)
    ensures Words(a + b) == Append(Words(a), Words(b))
  {
    hide Append, WordsOf, CallOf;
    if a == [] {
      assert a + b == b && Calls(a) == [];
      NothingAppended(Words(b));
    } else {
      assert (a + b)[1..] == a[1..] + b && (a + b)[0] == a[0];
      ItemsInOrder(a[1..], b);
      var first := match a[0]
                   case Word(word) => if word.Nil? then Nil else List(word, Nil)
                   case Redirection(r) => WordsOf(r);
      AppendAssociates(first, Words(a[1..]), Words(b));
    }
  }

  lemma NothingAppended(t: Tree)
    ensures Append(Nil, t) == t
  {
  }

  lemma OneItem(word: Tree, r: Tree)
    requires !word.Nil?
    ensures Words([Item.Word(word)]) == List(word, Nil) && Calls([Item.Word(word)]) == []
    ensures Calls([Redirection(r)]) == [CallOf(r)]
    ensures IsRedirection(r) ==> Words([Redirection(r)]) == WordsOf(r)
  {
    assert Words([]) == Nil && Calls([]) == [];
    AppendNil(List(word, Nil));
    assert [Item.Word(word)][1..] == [] && [Redirection(r)][1..] == [];
    if IsRedirection(r) {
      CallOfIsCall(r);
      AppendNil(WordsOf(r));
    }
  }

  lemma NestedTwice(outer: Tree, inner: Tree, words: Tree)
    requires !BadHeredoc(outer) && !BadHeredoc(inner)
    ensures Nest([outer, inner], words) == Fill(Queued(outer), Thunkify(Fill(Queued(inner), Thunkify(words))))
  {
    assert [outer, inner][1..] == [inner] && [inner][1..] == [];
    assert Nest([inner], words) == Fill(Queued(inner), Thunkify(Nest([], words)));
  }

  // ----- a redirection in front of a command

  /** `redir cmd`, for a command that is already rewritten: it goes into the call, with the
      redirection's words at its end.  Only if there are such words must it be a list. */
  lemma RedirectionInFront(r: Tree, cmd: Tree)
    requires IsRedirection(r) && !BadHeredoc(CallOf(r)) && !Is(cmd, REDIR)
    requires Is(r, REDIR) ==> IsWords(cmd)
    ensures IsCommand(Redir(r, cmd))
    ensures Redirect(Redir(r, cmd))
         == Fill(Queued(CallOf(r)), Thunkify(if Is(r, REDIR) then Append(cmd, WordsOf(r)) else cmd))
  {
    if Is(r, REDIR) {
      WordsAreSpine(cmd);
      assert Queue([], cmd) == cmd;
      AddWordsQueue([], cmd, r);
    }
  }
}
