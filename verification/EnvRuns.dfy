/** src/var.c: runs of the exporting shell, with setnoexport in them. */
module ExportRuns {
  import opened Options
  import opened Environment
  import ExportedLists
  import ExportedNames

  // ----- what the environment holds

  /** The variable is exported: it has words, is not hidden as internal, is neither `*` nor
      `0`, and is not on the list. */
  ghost predicate ToExport(e: Exports, x: Name) {
    x in e.vars && e.vars[x].defn != [] && !e.vars[x].isinternal && x != "*" && x != "0" && x !in e.noexport
  }

  /** The fresh environment holds the strings without names, and one for each exported
      variable, and nothing else. */
  lemma EnvironmentHolds(e: Exporter, v: seq<string>)
    requires e.IsFresh(v)
    ensures forall x | ToExport(e.Now(), x) :: Render(e.pr, x, e.vars[x].defn, e.lexical) in v
    ensures forall s | s in v ::
              s in e.unnamed || exists x :: ToExport(e.Now(), x) && s == Render(e.pr, x, e.vars[x].defn, e.lexical)
  {
    hide Entries, Render, IsSorted, EntryOf;
    var t := e.Now();
    forall x | ToExport(t, x)
      ensures Render(t.pr, x, t.vars[x].defn, t.lex) in v
    {
      BareEntry(t, x);
      EntryIn(Bare(t), t.vars.Keys, x);
      assert Render(t.pr, x, t.vars[x].defn, t.lex) in multiset(v);
    }
    forall s | s in v
      ensures s in e.unnamed || exists x :: ToExport(t, x) && s == Render(t.pr, x, t.vars[x].defn, t.lex)
    {
      assert s in multiset(v);
      if s !in e.unnamed {
        assert s in Rendered(t);
        var x := EntriesFrom(Bare(t), t.vars.Keys, s);
        BareEntry(t, x);
        assert ToExport(t, x);
      }
    }
  }

  /** An exported variable with these words comes back from the environment under its name,
      and with exactly these words if and only if none of them holds two separators or
      escapes. */
  lemma WordsComeBack(e: Exporter, v: seq<string>, x: Name, words: seq<string>)
    requires e.IsFresh(v) && ToExport(e.Now(), x) && e.vars[x].defn == AsWords(words) && ExportedLists.AllNulFree(words)
    ensures exists s :: s in v && (exists back :: ReadsAs(s, x, back))
              && (ReadsAs(s, x, words) <==> forall i | 0 <= i < |words| :: ExportedLists.Specials(words[i]) <= 1)
  {
    hide Render, ReadsAs, Rendered, IsSorted;
    EnvironmentHolds(e, v);
    WordsPrint(e.pr, words, e.lexical);
    RenderReads(e.pr, x, e.vars[x].defn, e.lexical);
    var s := Render(e.pr, x, e.vars[x].defn, e.lexical);
    assert s in v;
  }

  // ----- one change of the list

  /** setnoexport, and the next mkenv: its result is the fresh environment if and only if no
      variable that comes off the list has an outdated string cached that will be used. */
  method ExportHiding(e: Exporter, names: set<Name>) returns (v: seq<string>)
    requires e.Valid()
    modifies e
    ensures e.noexport == names
    ensures e.IsFresh(v) <==> NoneOutdated(old(e.Now()), names)
  {
    hide CachesOk, NoneOutdated, IsSorted, Rendered, Current, Refreshed, Entries;
    NoneOutdatedIsCurrent(e.Now(), names);
    ValidLabels(e.Now());
    e.SetNoExport(names);
    v := e.MkEnv();
  }

  lemma ValidLabels(e: Exports)
    requires CachesOk(e)
    ensures Labels(e.vars)
  {
  }

  // ----- whole runs

  datatype Op =
    | Define(name: Name, defn: Defn)
    | Rebinding(cell: nat, value: Defn)
    | Enter(name: Name, defn: Defn)
    | Leave
    | Hide(names: set<Name>)
    | Export

  /** What a caller can keep track of: the list, whether there was a rebinding since the last
      export, and the names that were on the list at an export after a rebinding. */
  datatype Track = Track(noexport: set<Name>, pending: bool, missed: set<Name>)

  function Step(t: Track, op: Op): Track {
    match op
    case Define(name, _) => t.(missed := t.missed - {name})
    case Enter(name, _) => t.(missed := t.missed - {name})
    case Leave => t
    case Rebinding(_, _) => t.(pending := true)
    case Hide(names) => t.(noexport := names)
    case Export => if t.pending then Track(t.noexport, false, t.noexport) else t
  }

  /** No name that missed an export after a rebinding comes off the list, unless there was
      another rebinding since. */
  predicate Safe(t: Track, ops: seq<Op>)
    decreases |ops|
  {
    ops == [] || ((ops[0].Hide? ==> t.pending || t.missed <= ops[0].names) && Safe(Step(t, ops[0]), ops[1..]))
  }

  /** mkenv0 passes over the variable, whatever is on the list. */
  predicate NeverExported(x: Name, v: Var) { v.defn == [] || v.isinternal || SpecialVar(x) }

  /** Only names that missed an export have outdated strings. */
  ghost predicate Tracked(e: Exports, t: Track) {
    && e.noexport == t.noexport && e.rebound == t.pending
    && forall x | x in e.vars && e.vars[x].env.Some? ::
         e.vars[x].env.value == Render(e.pr, x, e.vars[x].defn, e.lex)
         || (e.vars[x].hasbindings && (t.pending || x in t.missed || NeverExported(x, e.vars[x])))
  }

  lemma TrackedAtFirst(e: Exports)
    requires CachesOk(e)
    ensures Tracked(e, Track(e.noexport, e.rebound, e.noexport))
  {
    hide HasBindings, Render, Labelled;
  }

  lemma TrackedWhenPending(e: Exports, missed: set<Name>)
    requires CachesOk(e) && e.rebound
    ensures Tracked(e, Track(e.noexport, true, missed))
  {
    hide HasBindings, Render, Labelled;
  }

  lemma TrackedAfterChange(e: Exports, name: Name, v: Var, t: Track)
    requires Tracked(e, t) && v.env.None?
    ensures Tracked(e.(vars := e.vars[name := v]), t.(missed := t.missed - {name}))
    ensures Tracked(e.(vars := e.vars - {name}), t.(missed := t.missed - {name}))
    ensures Tracked(e.(vars := e.vars[name := v]), t) && Tracked(e.(vars := e.vars - {name}), t)
  {
    hide Render, NeverExported;
  }

  /** An export without a rebinding leaves outdated what was outdated. */
  lemma TrackedAfterExport(e: Exports, t: Track, vars: map<Name, Var>)
    requires Tracked(e, t) && !t.pending
    requires vars == e.vars || Refreshed(e, e.vars.Keys, vars)
    requires CachesOk(e.(vars := vars))
    ensures Tracked(e.(vars := vars), t)
  {
    hide HasBindings, Render, Labelled, EntryOf;
  }

  lemma SafeIsCurrent(e: Exports, t: Track, names: set<Name>)
    requires Tracked(e, t) && (t.pending || t.missed <= names)
    ensures NoneOutdated(e, names)
    ensures Tracked(e.(noexport := names), t.(noexport := names))
  {
    hide Render;
  }

  method RunOne(e: Exporter, op: Op, ghost t: Track)
    requires e.Valid() && Tracked(e.Now(), t)
    requires op.Hide? ==> t.pending || t.missed <= op.names
    modifies e
    ensures e.Valid() && Tracked(e.Now(), Step(t, op))
  {
    hide CachesOk, IsSorted, Rendered, Refreshed, Entries, NoneOutdated, HasBindings, Current, Render;
    match op
    case Define(name, defn) =>
      TrackedAfterChange(e.Now(), name, Var(defn, None, HasBindings(defn), false), t);
      e.VarDef(name, defn);
    case Rebinding(cell, defn) =>
      e.Rebind(cell, defn);
      TrackedWhenPending(e.Now(), t.missed);
    case Enter(name, defn) =>
      TrackedAfterChange(e.Now(), name, Var(defn, None, HasBindings(defn), false), t);
      e.VarPush(name, defn);
    case Leave =>
      if e.pushlist != [] {
        var p := e.pushlist[|e.pushlist| - 1];
        TrackedAfterChange(e.Now(), p.name, Var(p.defn, None, p.hasbindings, p.isinternal), t);
        e.VarPop();
      }
    case Hide(names) =>
      SafeIsCurrent(e.Now(), t, names);
      e.SetNoExport(names);
    case Export =>
      var _ := e.MkEnv();
      if t.pending {
        TrackedAtFirst(e.Now());
      } else {
        TrackedAfterExport(old(e.Now()), t, e.vars);
      }
  }

  /** However assignments, lexical rebinding, pushes, pops, exports and changes of the list
      are interleaved, the environment handed out at the end is the fresh one, if no name
      comes off the list that missed an export after a rebinding. */
  method ExportAfter(e: Exporter, ops: seq<Op>) returns (v: seq<string>)
    requires e.Valid() && Safe(Track(e.noexport, e.rebound, e.noexport), ops)
    modifies e
    ensures e.Valid() && e.IsFresh(v)
  {
    hide CachesOk, Tracked, IsSorted, Rendered, Refreshed, Entries, Current;
    ghost var t := Track(e.noexport, e.rebound, e.noexport);
    TrackedAtFirst(e.Now());
    assert ops[0..] == ops;
    for i := 0 to |ops|
      invariant e.Valid() && Tracked(e.Now(), t)
      invariant Safe(t, ops[i..])
    {
      assert ops[i..][1..] == ops[i + 1..];
      RunOne(e, ops[i], t);
      t := Step(t, ops[i]);
    }
    v := e.MkEnv();
  }

  /** As long as the list is left alone, any run is safe. */
  lemma {:induction false} ListAloneIsSafe(t: Track, ops: seq<Op>)
    requires forall i | 0 <= i < |ops| :: !ops[i].Hide?
    ensures Safe(t, ops)
    decreases |ops|
  {
    if ops != [] {
      assert forall i | 0 <= i < |ops[1..]| :: ops[1..][i] == ops[i + 1];
      ListAloneIsSafe(Step(t, ops[0]), ops[1..]);
    }
  }

  /** So is one in which names only go on the list. */
  lemma {:induction false} HidingMoreIsSafe(t: Track, ops: seq<Op>)
    requires t.missed <= t.noexport
    requires forall i, j | 0 <= i < j < |ops| && ops[i].Hide? && ops[j].Hide? :: ops[i].names <= ops[j].names
    requires forall i | 0 <= i < |ops| && ops[i].Hide? :: t.noexport <= ops[i].names
    ensures Safe(t, ops)
    decreases |ops|
  {
    if ops != [] {
      assert forall i | 0 <= i < |ops[1..]| :: ops[1..][i] == ops[i + 1];
      HidingMoreIsSafe(Step(t, ops[0]), ops[1..]);
    }
  }

  /** There is only one fresh environment. */
  lemma FreshIsUnique(e: Exporter, v: seq<string>, w: seq<string>)
    requires e.IsFresh(v) && e.IsFresh(w)
    ensures v == w
  {
    SortedIsUnique(v, w);
  }

  // ----- runs that go wrong

  lemma EntriesOfOne(e: Exports, x: Name)
    requires e.vars.Keys == {x}
    ensures Entries(e, e.vars.Keys) == Entry(e, x)
  {
    EntriesRemove(e, e.vars.Keys, x);
    assert e.vars.Keys - {x} == {};
  }

  function OneBinding(body: string, bindings: seq<nat>, lex: Lexical): string {
    if bindings == [0] && 0 in lex && lex[0] == [Word("new")] then "new" else "old"
  }

  const STALE: Defn := [Closure("body", [0])]

  lemma PlainTexts()
    ensures Label("x") == "x" && ExportedLists.Exported(["old"]) == "old" && ExportedLists.Exported(["new"]) == "new"
  {
    assert ExportedNames.Encode("x", 1) == "" && ExportedNames.Piece("x", 0) == "x";
    assert "old"[1..] == "ld" && "ld"[1..] == "d" && "d"[1..] == "";
    assert "new"[1..] == "ew" && "ew"[1..] == "w" && "w"[1..] == "";
    assert ExportedLists.Escaped("d") == "d" && ExportedLists.Escaped("ld") == "ld";
    assert ExportedLists.Escaped("w") == "w" && ExportedLists.Escaped("ew") == "ew";
  }

  lemma OneRender(lex: Lexical)
    ensures Render(OneBinding, "x", STALE, lex)
            == if 0 in lex && lex[0] == [Word("new")] then "x=new" else "x=old"
  {
    hide Label, ExportedLists.Exported, HasBindings;
    assert Texts(OneBinding, STALE, lex) == [OneBinding("body", [0], lex)];
    PlainTexts();
  }

  lemma RefreshedOne(e: Exports, vars: map<Name, Var>)
    requires Refreshed(e, e.vars.Keys, vars) && e.vars.Keys == {"x"}
    ensures vars == map["x" := if Skipped(e.noexport, "x", e.vars["x"]) then e.vars["x"]
                               else e.vars["x"].(env := Some(EntryOf(e, "x", e.vars["x"])))]
  {
    assert "x" in e.vars.Keys;
  }

  /** Exported once while the binding still has its old value. */
  method ExportOld() returns (e: Exporter)
    ensures fresh(e) && e.Valid() && e.pr == OneBinding && e.noexport == {} && e.lexical == map[] && !e.rebound
    ensures e.unnamed == [] && e.vars == map["x" := Var(STALE, Some("x=old"), true, false)]
  {
    hide CachesOk, IsSorted, Entries, Refreshed, Render;
    OneRender(map[]);
    assert HasBindings(STALE) by { assert STALE[0].Closure?; }
    e := new Exporter(OneBinding, []);
    e.VarDef("x", STALE);
    ghost var before := e.Now();
    var _ := e.MkEnv();
    RefreshedOne(before, e.vars);
  }

  /** Hidden, rebound, exported without it, and put back. */
  method HideAndRebind(e: Exporter)
    requires e.Valid() && e.pr == OneBinding && e.noexport == {} && e.lexical == map[] && !e.rebound
    requires e.vars == map["x" := Var(STALE, Some("x=old"), true, false)]
    modifies e
    ensures e.isdirty && !e.rebound && e.noexport == {} && e.lexical == map[0 := [Word("new")]]
    ensures e.unnamed == old(e.unnamed) && e.vars == old(e.vars)
  {
    hide CachesOk, IsSorted, Entries, Refreshed, Render;
    e.SetNoExport({"x"});
    e.Rebind(0, [Word("new")]);
    ghost var before := e.Now();
    var _ := e.MkEnv();
    RefreshedOne(before, e.vars);
    e.SetNoExport({});
  }

  const NEW: Lexical := map[0 := [Word("new")]]

  lemma StaleEntries(e: Exports)
    requires "x" in e.vars
    requires e == Exports(OneBinding, map["x" := Var(STALE, Some("x=old"), e.vars["x"].hasbindings, false)], {}, NEW, e.rebound)
    requires !(e.rebound && e.vars["x"].hasbindings)
    ensures Entries(e, e.vars.Keys) == multiset{"x=old"} && Rendered(e) == multiset{"x=new"}
  {
    hide Render, Entries, Labelled, HasBindings, ExportedNames.IsCString;
    OneRender(NEW);
    EntriesOfOne(e, "x");
    EntriesOfOne(Bare(e), "x");
  }

  /** A name that is hidden from export while its closure is rebound, and an export
      happens, shows its old value when it is exported again. */
  method StaleAfterUnhiding() returns (e: Exporter, v: seq<string>)
    ensures v == ["x=old"] && Rendered(e.Now()) == multiset{"x=new"}
    ensures !e.IsFresh(v)
  {
    hide CachesOk, IsSorted, Entries, Rendered, Refreshed, Render, Labelled, Labels, HasBindings, Current;
    e := ExportOld();
    HideAndRebind(e);
    ghost var before := e.Now();
    v := e.MkEnv();
    RefreshedOne(before, e.vars);
    StaleEntries(before);
    RenderedAlways(before, false);
    assert e.Now() == before.(rebound := false);
    assert multiset(v) == multiset{"x=old"};
    OneString(v, "x=old");
    assert "x=new" in multiset{"x=new"} && "x=new" !in multiset(v);
  }

  /** getclosure, on a word of a variable that is called: the word becomes the closure that it
      spells, in place, and the variable is not told. */
  method ParseTerm(e: Exporter, name: Name, at: nat, body: string, bindings: seq<nat>)
    requires name in e.vars && at < |e.vars[name].defn| && e.vars[name].defn[at].Word?
    modifies e`vars
    ensures e.vars == old(e.vars)[name := old(e.vars)[name].(defn := old(e.vars)[name].defn[at := Closure(body, bindings)])]
  {
    var v := e.vars[name];
    e.vars := e.vars[name := v.(defn := v.defn[at := Closure(body, bindings)])];
  }

  /** Exported as a word that spells a closure. */
  method ExportWord() returns (e: Exporter)
    ensures fresh(e) && e.Valid() && e.pr == OneBinding && e.noexport == {} && e.lexical == map[] && !e.rebound
    ensures e.unnamed == [] && e.vars == map["x" := Var([Word("old")], Some("x=old"), false, false)]
  {
    hide CachesOk, IsSorted, Entries, Refreshed, Render;
    assert !HasBindings([Word("old")]);
    WordRender();
    e := new Exporter(OneBinding, []);
    e.VarDef("x", [Word("old")]);
    ghost var before := e.Now();
    var _ := e.MkEnv();
    RefreshedOne(before, e.vars);
  }

  lemma WordRender()
    ensures Render(OneBinding, "x", [Word("old")], map[]) == "x=old"
  {
    assert Texts(OneBinding, [Word("old")], map[]) == ["old"];
    PlainTexts();
  }

  /** A word that is assigned and exported, then called, and so becomes a closure, shows its
      old value after that closure's binding has been assigned to: whether a variable has
      bindings is only looked at when it is assigned. */
  method StaleAfterParsing() returns (e: Exporter, v: seq<string>)
    ensures v == ["x=old"] && Rendered(e.Now()) == multiset{"x=new"}
    ensures !e.IsFresh(v)
  {
    hide CachesOk, IsSorted, Entries, Rendered, Refreshed, Render, Labelled, Labels, HasBindings, Current;
    e := ExportWord();
    ParseTerm(e, "x", 0, "body", [0]);
    assert [Word("old")][0 := Closure("body", [0])] == STALE;
    e.Rebind(0, [Word("new")]);
    ghost var before := e.Now();
    v := e.MkEnv();
    RefreshedOne(before, e.vars);
    StaleEntries(before);
    RenderedAlways(before, false);
    assert e.Now() == before.(rebound := false);
    assert multiset(v) == multiset{"x=old"};
    OneString(v, "x=old");
    assert "x=new" in multiset{"x=new"} && "x=new" !in multiset(v);
  }

  lemma OneString(v: seq<string>, s: string)
    requires multiset(v) == multiset{s}
    ensures v == [s]
  {
    assert |v| == |multiset(v)| == 1;
    assert v[0] in multiset(v);
  }
}
