/** src/var.c: the exported environment and its caches.  A variable remembers the string
    it was last exported as, `isdirty` says that the set of exported definitions may
    have changed, and `rebound` that a lexical binding inside some closure may have.
    mkenv is proved to return what rendering everything afresh would. */
module Environment {
  import opened Options
  import ExportedLists
  import ExportedNames
  import Splitting

  /** Names are C strings; the empty one among them is refused elsewhere. */
  type Name = s: string | ExportedNames.IsCString(s)

  /** A closure prints its body, and the definitions of the lexical bindings it holds. */
  datatype Term = Word(s: string) | Closure(body: string, bindings: seq<nat>)

  type Defn = seq<Term>

  /** The current definition of every lexical binding. */
  type Lexical = map<nat, Defn>

  /** How a closure with bindings prints; the printer itself is not modelled. */
  type Printer = (string, seq<nat>, Lexical) -> string

  datatype Var = Var(defn: Defn, env: Option<string>, hasbindings: bool, isinternal: bool)

  datatype Push = Push(name: Name, defn: Defn, hasbindings: bool, isinternal: bool)

  predicate HasBindings(defn: Defn) {
    exists i :: 0 <= i < |defn| && defn[i].Closure? && defn[i].bindings != []
  }

  function Show(pr: Printer, t: Term, lex: Lexical): string {
    match t
    case Word(s) => s
    case Closure(body, bindings) => if bindings == [] then body else pr(body, bindings, lex)
  }

  /** The words of a definition, as they print. */
  function Texts(pr: Printer, defn: Defn, lex: Lexical): (r: seq<string>)
    ensures |r| == |defn|
  {
    seq(|defn|, i requires 0 <= i < |defn| => Show(pr, defn[i], lex))
  }

  /** The name as it is exported. */
  function Label(name: Name): string { ExportedNames.Encode(name, 0) }

  /** `%F=%W` */
  function Render(pr: Printer, name: Name, defn: Defn, lex: Lexical): string {
    Label(name) + "=" + ExportedLists.Exported(Texts(pr, defn, lex))
  }

  /** The string starts with the label of the name and an equals sign. */
  predicate Labelled(name: Name, s: string) {
    var front := Label(name);
    |front| < |s| && s[..|front|] == front && s[|front|] == '='
  }

  lemma RenderLabelled(pr: Printer, name: Name, defn: Defn, lex: Lexical)
    ensures Labelled(name, Render(pr, name, defn, lex))
    ensures Render(pr, name, defn, lex)[|Label(name)| + 1..] == ExportedLists.Exported(Texts(pr, defn, lex))
  {
    var s := Render(pr, name, defn, lex);
    assert s == (Label(name) + "=") + ExportedLists.Exported(Texts(pr, defn, lex));
    assert (Label(name) + "=")[..|Label(name)|] == Label(name) && (Label(name) + "=")[|Label(name)|] == '=';
  }

  /** The label ends at the first equals sign. */
  lemma FirstEquals(x: Name, s: string)
    requires Labelled(x, s)
    ensures Label(x) == s[..|Label(x)|] && forall i | 0 <= i < |Label(x)| :: s[i] != '='
  {
    if x != "" {
      ExportedNames.EncodedIsIdentifier(x, 0);
    } else {
      assert Label(x) == "";
    }
    forall i | 0 <= i < |Label(x)|
      ensures s[i] != '='
    {
      assert s[i] == Label(x)[i];
    }
  }

  /** A string is labelled with one name at most. */
  lemma OneLabel(x: Name, y: Name, s: string)
    requires Labelled(x, s) && Labelled(y, s)
    ensures x == y
  {
    FirstEquals(x, s);
    FirstEquals(y, s);
    ExportedNames.EncodeInjective(x, y);
  }

  /** Rebinding cannot change how a definition without bindings prints. */
  lemma UnboundIsStable(pr: Printer, defn: Defn, lex: Lexical, lex': Lexical)
    requires !HasBindings(defn)
    ensures Texts(pr, defn, lex) == Texts(pr, defn, lex')
  {
    forall i | 0 <= i < |defn|
      ensures Show(pr, defn[i], lex) == Show(pr, defn[i], lex')
    {
      assert !(defn[i].Closure? && defn[i].bindings != []);
    }
  }

  // ----- reading it back

  /** What initenv and importvar make of a string of the environment: the name before the
      first equals sign, and the words after it. */
  ghost predicate ReadsAs(s: string, name: string, words: seq<string>) {
    exists k :: 0 <= k < |s| && s[k] == '=' && '=' !in s[..k]
                && ExportedNames.Decode(s[..k]) == ExportedNames.Ok(name)
                && ExportedLists.Imported(Splitting.Fields(s[k + 1..], ExportedLists.SeparatorsOfLists())) == words
  }

  /** An exported variable is read back under its name, and with its words exactly if none
      of these holds two separators or escapes. */
  lemma RenderReads(pr: Printer, name: Name, defn: Defn, lex: Lexical)
    requires defn != [] && ExportedLists.AllNulFree(Texts(pr, defn, lex))
    ensures exists words :: ReadsAs(Render(pr, name, defn, lex), name, words)
    ensures ReadsAs(Render(pr, name, defn, lex), name, Texts(pr, defn, lex))
            <==> forall i | 0 <= i < |defn| :: ExportedLists.Specials(Texts(pr, defn, lex)[i]) <= 1
  {
    var s, texts, k := Render(pr, name, defn, lex), Texts(pr, defn, lex), |Label(name)|;
    RenderLabelled(pr, name, defn, lex);
    FirstEquals(name, s);
    ExportedNames.NameRoundTrip(name);
    ExportedLists.RoundTripExactly(texts);
    hide Render, Texts, Label, ExportedLists.Imported;
    assert s[k] == '=' && '=' !in s[..k];
    var words := ExportedLists.Imported(Splitting.Fields(s[k + 1..], ExportedLists.SeparatorsOfLists()));
    assert ReadsAs(s, name, words);
    forall other | ReadsAs(s, name, other)
      ensures other == words
    {
      var j :| 0 <= j < |s| && s[j] == '=' && '=' !in s[..j]
               && ExportedLists.Imported(Splitting.Fields(s[j + 1..], ExportedLists.SeparatorsOfLists())) == other;
      NoneBefore(s, j);
      NoneBefore(s, k);
    }
  }

  lemma NoneBefore(s: string, k: nat)
    requires k < |s| && '=' !in s[..k]
    ensures forall i | 0 <= i < k :: s[i] != '='
  {
    assert forall i | 0 <= i < k :: s[i] == s[..k][i];
  }

  function AsWords(words: seq<string>): Defn {
    seq(|words|, i requires 0 <= i < |words| => Word(words[i]))
  }

  /** A word prints as it is. */
  lemma WordsPrint(pr: Printer, words: seq<string>, lex: Lexical)
    ensures Texts(pr, AsWords(words), lex) == words
  {
  }

  // ----- sorting

  /** strcmp(a, b) <= 0 */
  predicate StrLe(a: string, b: string) {
    a == [] || (b != [] && (a[0] < b[0] || (a[0] == b[0] && StrLe(a[1..], b[1..]))))
  }

  lemma {:induction false} StrLeTotal(a: string, b: string)
    ensures StrLe(a, b) || StrLe(b, a)
    ensures StrLe(a, b) && StrLe(b, a) ==> a == b
  {
    if a != [] && b != [] && a[0] == b[0] {
      StrLeTotal(a[1..], b[1..]);
      assert a == [a[0]] + a[1..] && b == [b[0]] + b[1..];
    }
  }

  lemma {:induction false} StrLeTransitive(a: string, b: string, c: string)
    requires StrLe(a, b) && StrLe(b, c)
    ensures StrLe(a, c)
  {
    if a != [] && b != [] && c != [] && a[0] == b[0] == c[0] {
      StrLeTransitive(a[1..], b[1..], c[1..]);
    }
  }

  /** The order is that of the first characters that differ; a prefix comes first. */
  lemma {:induction false} StrLeIsLexicographic(a: string, b: string)
    ensures StrLe(a, b) <==> a <= b || exists k :: 0 <= k < |a| && k < |b| && a[..k] == b[..k] && a[k] < b[k]
  {
    if a != [] && b != [] {
      if a[0] == b[0] {
        StrLeIsLexicographic(a[1..], b[1..]);
        if k :| 0 <= k < |a[1..]| && k < |b[1..]| && a[1..][..k] == b[1..][..k] && a[1..][k] < b[1..][k] {
          assert a[..k + 1] == [a[0]] + a[1..][..k] && b[..k + 1] == [b[0]] + b[1..][..k];
          assert a[k + 1] < b[k + 1];
        }
        if k :| 0 <= k < |a| && k < |b| && a[..k] == b[..k] && a[k] < b[k] {
          assert a[1..][..k - 1] == a[..k][1..] && b[1..][..k - 1] == b[..k][1..];
          assert a[1..][k - 1] < b[1..][k - 1];
        }
        assert a == [a[0]] + a[1..] && b == [b[0]] + b[1..];
        if a <= b {
          assert a[1..] == b[..|a|][1..] == b[1..][..|a| - 1];
        }
      } else if a[0] < b[0] {
        assert a[..0] == b[..0];
      } else {
        assert forall k | 0 < k < |a| && k < |b| && a[..k] == b[..k] :: a[..k][0] == b[..k][0];
      }
    }
  }

  ghost predicate IsSorted(v: seq<string>) {
    forall i, j | 0 <= i < j < |v| :: StrLe(v[i], v[j])
  }

  function Insert(x: string, v: seq<string>): (w: seq<string>)
    ensures multiset(w) == multiset(v) + multiset{x}
  {
    if v == [] then [x]
    else if StrLe(x, v[0]) then [x] + v
    else
      assert v == [v[0]] + v[1..];
      [v[0]] + Insert(x, v[1..])
  }

  /** What qsort with strcmp leaves in the vector. */
  function SortVector(v: seq<string>): (w: seq<string>)
    ensures multiset(w) == multiset(v)
  {
    if v == [] then []
    else
      assert v == [v[0]] + v[1..];
      Insert(v[0], SortVector(v[1..]))
  }

  lemma {:induction false} InsertSorted(x: string, v: seq<string>)
    requires IsSorted(v)
    ensures IsSorted(Insert(x, v))
  {
    if v != [] {
      if StrLe(x, v[0]) {
        forall j | 0 <= j < |v|
          ensures StrLe(x, v[j])
        {
          if j > 0 {
            StrLeTransitive(x, v[0], v[j]);
          }
        }
      } else {
        StrLeTotal(x, v[0]);
        InsertSorted(x, v[1..]);
        var w := Insert(x, v[1..]);
        forall j | 0 <= j < |w|
          ensures StrLe(v[0], w[j])
        {
          assert w[j] in multiset(w);
          if w[j] != x {
            assert w[j] in v[1..];
            var k :| 0 <= k < |v[1..]| && v[1..][k] == w[j];
            assert v[k + 1] == w[j];
          }
        }
      }
    }
  }

  lemma {:induction false} SortVectorSorted(v: seq<string>)
    ensures IsSorted(SortVector(v))
  {
    if v != [] {
      SortVectorSorted(v[1..]);
      InsertSorted(v[0], SortVector(v[1..]));
    }
  }

  lemma FirstIsLeast(v: seq<string>, w: seq<string>)
    requires IsSorted(v) && multiset(v) == multiset(w) && v != [] && w != []
    ensures StrLe(v[0], w[0])
  {
    assert w[0] in multiset(v);
    var j :| 0 <= j < |v| && v[j] == w[0];
    StrLeTotal(v[0], v[0]);
  }

  lemma TailSorted(v: seq<string>)
    requires IsSorted(v) && v != []
    ensures IsSorted(v[1..]) && multiset(v[1..]) == multiset(v) - multiset{v[0]}
  {
    assert v == [v[0]] + v[1..];
  }

  /** There is only one sorted vector of given strings, so the order in which the
      dictionary is walked does not matter. */
  lemma {:induction false} SortedIsUnique(v: seq<string>, w: seq<string>)
    requires IsSorted(v) && IsSorted(w) && multiset(v) == multiset(w)
    ensures v == w
  {
    hide StrLe, IsSorted;
    assert |v| == |multiset(v)| == |multiset(w)| == |w|;
    if v != [] {
      FirstIsLeast(v, w);
      FirstIsLeast(w, v);
      StrLeTotal(v[0], w[0]);
      TailSorted(v);
      TailSorted(w);
      SortedIsUnique(v[1..], w[1..]);
      assert v == [v[0]] + v[1..] && w == [w[0]] + w[1..];
    }
  }

  // ----- what is exported

  predicate SpecialVar(name: Name) { name == "*" || name == "0" }

  predicate IsExported(noexport: set<Name>, name: Name) { !SpecialVar(name) && name !in noexport }

  /** mkenv0 passes over this variable. */
  predicate Skipped(noexport: set<Name>, name: Name, v: Var) {
    v.defn == [] || v.isinternal || !IsExported(noexport, name)
  }

  /** What mkenv0 works on: the printer, the variables, the names that are not exported, the
      lexical bindings, and whether one of these was rebound since the last export. */
  datatype Exports = Exports(pr: Printer, vars: map<Name, Var>, noexport: set<Name>, lex: Lexical, rebound: bool)

  /** The string mkenv0 exports: the cached one, unless there is none or a rebinding may
      have changed it. */
  function EntryOf(e: Exports, name: Name, v: Var): string {
    if v.env.None? || (e.rebound && v.hasbindings) then Render(e.pr, name, v.defn, e.lex) else v.env.value
  }

  ghost function Entries(e: Exports, names: set<Name>): multiset<string>
    requires names <= e.vars.Keys
  {
    if names != {} then
      SomeName(names);
      var x :| x in names;
      Entry(e, x) + Entries(e, names - {x})
    else multiset{}
  }

  ghost function Entry(e: Exports, x: Name): multiset<string>
    requires x in e.vars
  {
    if Skipped(e.noexport, x, e.vars[x]) then multiset{} else multiset{EntryOf(e, x, e.vars[x])}
  }

  /** Nothing is cached. */
  ghost function Bare(e: Exports): (bare: Exports)
    ensures bare.vars.Keys == e.vars.Keys
  {
    e.(vars := map x | x in e.vars :: e.vars[x].(env := None), rebound := false)
  }

  /** Every exported variable rendered from its definition, whatever is cached. */
  ghost function Rendered(e: Exports): multiset<string> {
    Entries(Bare(e), e.vars.Keys)
  }

  lemma SomeName(names: set<Name>)
    ensures names != {} ==> exists x :: x in names
  {
    assert (forall x :: x !in names) ==> names == {};
  }

  lemma {:induction false} EntriesRemove(e: Exports, names: set<Name>, x: Name)
    requires names <= e.vars.Keys && x in names
    ensures Entries(e, names) == Entry(e, x) + Entries(e, names - {x})
  {
    hide Entry;
    var y :| y in names && Entries(e, names) == Entry(e, y) + Entries(e, names - {y});
    if y != x {
      EntriesRemove(e, names - {y}, x);
      EntriesRemove(e, names - {x}, y);
      assert names - {y} - {x} == names - {x} - {y};
    }
  }

  lemma EntryIn(e: Exports, names: set<Name>, x: Name)
    requires names <= e.vars.Keys && x in names && !Skipped(e.noexport, x, e.vars[x])
    ensures EntryOf(e, x, e.vars[x]) in Entries(e, names)
  {
    EntriesRemove(e, names, x);
  }

  /** Every exported string is that of some exported variable. */
  lemma {:induction false} EntriesFrom(e: Exports, names: set<Name>, s: string) returns (x: Name)
    requires names <= e.vars.Keys && s in Entries(e, names)
    ensures x in names && !Skipped(e.noexport, x, e.vars[x]) && s == EntryOf(e, x, e.vars[x])
  {
    SomeName(names);
    x :| x in names;
    EntriesRemove(e, names, x);
    if s !in Entry(e, x) {
      x := EntriesFrom(e, names - {x}, s);
    }
  }

  /** Only what is exported, and as what, matters. */
  lemma {:induction false} EntriesAgree(e: Exports, names: set<Name>, e': Exports, names': set<Name>)
    requires names <= e.vars.Keys && names' <= e'.vars.Keys
    requires forall x | x in names && x !in names' :: Skipped(e.noexport, x, e.vars[x])
    requires forall x | x in names' && x !in names :: Skipped(e'.noexport, x, e'.vars[x])
    requires forall x | x in names && x in names' :: Entry(e, x) == Entry(e', x)
    ensures Entries(e, names) == Entries(e', names')
    decreases |names| + |names'|
  {
    if names != {} {
      SomeName(names);
      var x :| x in names;
      EntriesRemove(e, names, x);
      if x in names' {
        EntriesRemove(e', names', x);
        EntriesAgree(e, names - {x}, e', names' - {x});
      } else {
        EntriesAgree(e, names - {x}, e', names');
      }
    } else if names' != {} {
      SomeName(names');
      var x :| x in names';
      EntriesRemove(e', names', x);
      EntriesAgree(e, names, e', names' - {x});
    }
  }

  // ----- the cache invariant

  /** A cached string is what the variable renders to now, or mkenv0 will not use it.
      A variable mkenv0 passes over may hold an outdated one, if it has bindings. */
  ghost predicate CachesOk(e: Exports) {
    && (forall x | x in e.vars :: e.vars[x].hasbindings == HasBindings(e.vars[x].defn))
    && (forall x | x in e.vars && e.vars[x].env.Some? :: Labelled(x, e.vars[x].env.value))
    && (forall x | x in e.vars && e.vars[x].env.Some? ::
          e.vars[x].env.value == Render(e.pr, x, e.vars[x].defn, e.lex)
          || (e.vars[x].hasbindings && (e.rebound || Skipped(e.noexport, x, e.vars[x]))))
  }

  lemma CachedEntry(e: Exports, x: Name)
    requires CachesOk(e) && x in e.vars
    ensures Entry(e, x) == Entry(Bare(e), x)
  {
  }

  lemma CachedIsRendered(e: Exports)
    requires CachesOk(e)
    ensures Entries(e, e.vars.Keys) == Rendered(e)
  {
    hide Entry, CachesOk, Entries;
    forall x | x in e.vars
      ensures Entry(e, x) == Entry(Bare(e), x)
    {
      CachedEntry(e, x);
    }
    EntriesAgree(e, e.vars.Keys, Bare(e), e.vars.Keys);
  }

  /** Every string that mkenv0 would export now is the fresh one. */
  ghost predicate Current(e: Exports) {
    forall x | x in e.vars && !Skipped(e.noexport, x, e.vars[x]) ::
      EntryOf(e, x, e.vars[x]) == Render(e.pr, x, e.vars[x].defn, e.lex)
  }

  /** Cached strings are labelled with the names of their variables. */
  ghost predicate Labels(vars: map<Name, Var>) {
    forall x | x in vars && vars[x].env.Some? :: Labelled(x, vars[x].env.value)
  }

  lemma EntryLabelled(e: Exports, x: Name)
    requires Labels(e.vars) && x in e.vars
    ensures Labelled(x, EntryOf(e, x, e.vars[x]))
  {
    RenderLabelled(e.pr, x, e.vars[x].defn, e.lex);
  }

  /** An outdated string makes the environment differ from the fresh one. */
  lemma OutdatedShows(e: Exports, x: Name)
    requires Labels(e.vars) && x in e.vars && !Skipped(e.noexport, x, e.vars[x])
    requires EntryOf(e, x, e.vars[x]) != Render(e.pr, x, e.vars[x].defn, e.lex)
    ensures Entries(e, e.vars.Keys) != Rendered(e)
  {
    hide Entries, Labels, Render, EntryOf, Labelled;
    var s := Render(e.pr, x, e.vars[x].defn, e.lex);
    RenderLabelled(e.pr, x, e.vars[x].defn, e.lex);
    BareEntry(e, x);
    EntryIn(Bare(e), e.vars.Keys, x);
    if s in Entries(e, e.vars.Keys) {
      var y := EntriesFrom(e, e.vars.Keys, s);
      EntryLabelled(e, y);
      EntryLabelled(e, x);
      OneLabel(x, y, s);
    }
  }

  lemma BareEntry(e: Exports, x: Name)
    requires x in e.vars
    ensures EntryOf(Bare(e), x, Bare(e).vars[x]) == Render(e.pr, x, e.vars[x].defn, e.lex)
  {
  }

  lemma CurrentEntry(e: Exports, x: Name)
    requires Current(e) && x in e.vars
    ensures Entry(e, x) == Entry(Bare(e), x)
  {
  }

  /** The environment is the fresh one if and only if every exported string is. */
  lemma FreshExactly(e: Exports)
    requires Labels(e.vars)
    ensures Entries(e, e.vars.Keys) == Rendered(e) <==> Current(e)
  {
    hide Entry, Entries, EntryOf, Render, Labels;
    if Current(e) {
      forall x | x in e.vars
        ensures Entry(e, x) == Entry(Bare(e), x)
      {
        CurrentEntry(e, x);
      }
      EntriesAgree(e, e.vars.Keys, Bare(e), e.vars.Keys);
    } else {
      var x :| x in e.vars && !Skipped(e.noexport, x, e.vars[x])
               && EntryOf(e, x, e.vars[x]) != Render(e.pr, x, e.vars[x].defn, e.lex);
      OutdatedShows(e, x);
    }
  }

  /** Name x is exported from both tables with the same definition, or from neither. */
  ghost predicate SameExport(noexport: set<Name>, vars: map<Name, Var>, vars': map<Name, Var>, x: Name) {
    var skip := x !in vars || Skipped(noexport, x, vars[x]);
    var skip' := x !in vars' || Skipped(noexport, x, vars'[x]);
    skip == skip' && (!skip ==> vars[x].defn == vars'[x].defn)
  }

  /** Two tables that agree on what is exported render to the same strings. */
  lemma RenderedAgree(e: Exports, vars: map<Name, Var>)
    requires forall x :: SameExport(e.noexport, e.vars, vars, x)
    ensures Rendered(e.(vars := vars)) == Rendered(e)
  {
    hide Entries;
    var e' := e.(vars := vars);
    forall x
      ensures x in e.vars && x !in vars ==> Skipped(e.noexport, x, Bare(e).vars[x])
      ensures x in vars && x !in e.vars ==> Skipped(e.noexport, x, Bare(e').vars[x])
      ensures x in e.vars && x in vars ==> Entry(Bare(e), x) == Entry(Bare(e'), x)
    {
      assert SameExport(e.noexport, e.vars, vars, x);
    }
    EntriesAgree(Bare(e), e.vars.Keys, Bare(e'), vars.Keys);
  }

  lemma RebindKeepsCaches(e: Exports, lex: Lexical)
    requires CachesOk(e)
    ensures CachesOk(e.(lex := lex, rebound := true))
  {
    forall x | x in e.vars && !e.vars[x].hasbindings
      ensures Render(e.pr, x, e.vars[x].defn, lex) == Render(e.pr, x, e.vars[x].defn, e.lex)
    {
      UnboundIsStable(e.pr, e.vars[x].defn, lex, e.lex);
    }
  }

  /** The cached strings after mkenv0 has gone over the names done. */
  ghost predicate Refreshed(e: Exports, done: set<Name>, vars: map<Name, Var>) {
    && vars.Keys == e.vars.Keys
    && forall x | x in e.vars ::
         vars[x] == if x in done && !Skipped(e.noexport, x, e.vars[x])
                    then e.vars[x].(env := Some(EntryOf(e, x, e.vars[x])))
                    else e.vars[x]
  }

  lemma NothingRefreshed(e: Exports)
    ensures Refreshed(e, {}, e.vars) && Entries(e, {}) == multiset{}
  {
  }

  lemma EntryAgrees(e: Exports, vars: map<Name, Var>, x: Name)
    requires x in e.vars && x in vars && vars[x] == e.vars[x]
    ensures Entry(e.(vars := vars), x) == Entry(e, x)
    ensures EntryOf(e.(vars := vars), x, vars[x]) == EntryOf(e, x, e.vars[x])
  {
  }

  lemma RefreshStep(e: Exports, done: set<Name>, vars: map<Name, Var>, x: Name)
    requires Refreshed(e, done, vars) && x in e.vars && x !in done
    ensures x in vars && vars[x] == e.vars[x]
    ensures !Skipped(e.noexport, x, e.vars[x]) ==>
              Refreshed(e, done + {x}, vars[x := e.vars[x].(env := Some(EntryOf(e, x, e.vars[x])))])
    ensures Skipped(e.noexport, x, e.vars[x]) ==> Refreshed(e, done + {x}, vars)
  {
    hide EntryOf, Skipped;
  }

  lemma RefreshedIsOk(e: Exports, vars: map<Name, Var>)
    requires CachesOk(e) && Refreshed(e, e.vars.Keys, vars)
    ensures CachesOk(e.(vars := vars, rebound := false))
    ensures Rendered(e.(vars := vars)) == Rendered(e)
  {
    RefreshedCaches(e, vars);
    RefreshedRenders(e, vars);
  }

  lemma RefreshedRenders(e: Exports, vars: map<Name, Var>)
    requires Refreshed(e, e.vars.Keys, vars)
    ensures Rendered(e.(vars := vars)) == Rendered(e)
  {
    hide EntryOf, Render, Rendered;
    forall x
      ensures SameExport(e.noexport, e.vars, vars, x)
    {
    }
    RenderedAgree(e, vars);
  }

  /** The flag does not matter when everything is rendered. */
  lemma RenderedAlways(e: Exports, rebound: bool)
    ensures Rendered(e.(rebound := rebound)) == Rendered(e)
  {
    assert Bare(e.(rebound := rebound)) == Bare(e);
  }

  lemma RefreshedCaches(e: Exports, vars: map<Name, Var>)
    requires CachesOk(e) && Refreshed(e, e.vars.Keys, vars)
    ensures CachesOk(e.(vars := vars, rebound := false))
  {
    hide HasBindings, Render, Labelled;
    forall x | x in e.vars
      ensures Labelled(x, Render(e.pr, x, e.vars[x].defn, e.lex))
    {
      RenderLabelled(e.pr, x, e.vars[x].defn, e.lex);
    }
  }

  /** Only the variable `name` differs, and it has no cached string. */
  ghost predicate OneChanged(was: map<Name, Var>, name: Name, vars: map<Name, Var>) {
    && (forall x | x != name :: x in vars <==> x in was)
    && (forall x | x != name && x in was && x in vars :: vars[x] == was[x])
    && (name in vars ==> vars[name].env.None? && vars[name].hasbindings == HasBindings(vars[name].defn))
  }

  lemma SetOne(was: map<Name, Var>, name: Name, v: Var)
    requires v.env.None? && v.hasbindings == HasBindings(v.defn)
    ensures OneChanged(was, name, was[name := v]) && OneChanged(was, name, was - {name})
    ensures name !in was ==> was - {name} == was
  {
  }

  lemma ChangeKeepsCaches(e: Exports, name: Name, vars: map<Name, Var>)
    requires CachesOk(e) && OneChanged(e.vars, name, vars)
    ensures CachesOk(e.(vars := vars))
    ensures !IsExported(e.noexport, name) ==> Rendered(e.(vars := vars)) == Rendered(e)
  {
    hide HasBindings, Render, Rendered;
    if !IsExported(e.noexport, name) {
      forall x
        ensures SameExport(e.noexport, e.vars, vars, x)
      {
      }
      RenderedAgree(e, vars);
    }
  }

  lemma FlagsOk(e: Exports)
    requires CachesOk(e)
    ensures forall x | x in e.vars :: e.vars[x].hasbindings == HasBindings(e.vars[x].defn)
    ensures !HasBindings([])
  {
  }

  /** The sorted vector is the fresh environment exactly if the strings in it are fresh. */
  lemma SortedIsFresh(unnamed: seq<string>, env: seq<string>, e: Exports, vars: map<Name, Var>)
    requires multiset(env) == multiset(unnamed) + Entries(e, e.vars.Keys)
    requires Refreshed(e, e.vars.Keys, vars)
    ensures IsSorted(SortVector(env)) && multiset(SortVector(env)) == multiset(env)
    ensures multiset(SortVector(env)) == multiset(unnamed) + Rendered(e.(vars := vars, rebound := false))
            <==> Entries(e, e.vars.Keys) == Rendered(e)
  {
    hide Entries, Rendered, Refreshed, IsSorted;
    SortVectorSorted(env);
    RefreshedRenders(e, vars);
    RenderedAlways(e.(vars := vars), false);
    var a, b, c := multiset(unnamed), Entries(e, e.vars.Keys), Rendered(e);
    assert (a + b) - a == b && (a + c) - a == c;
  }

  /** No variable that comes off the list has an outdated string cached that mkenv0 would use. */
  ghost predicate NoneOutdated(e: Exports, noexport: set<Name>) {
    forall x | x in e.vars && x in e.noexport && !Skipped(noexport, x, e.vars[x])
               && e.vars[x].hasbindings && e.vars[x].env.Some? && !e.rebound ::
      e.vars[x].env.value == Render(e.pr, x, e.vars[x].defn, e.lex)
  }

  lemma NoneOutdatedIsCurrent(e: Exports, noexport: set<Name>)
    requires CachesOk(e)
    ensures NoneOutdated(e, noexport) <==> Current(e.(noexport := noexport))
  {
    hide HasBindings, Render, Labelled;
  }

  class Exporter {
    const pr: Printer
    var vars: map<Name, Var>
    var noexport: set<Name>
    var lexical: Lexical
    var isdirty: bool
    var rebound: bool
    var pushlist: seq<Push>
    var unnamed: seq<string>
    var sortenv: Option<seq<string>>

    function Now(): Exports
      reads this
    {
      Exports(pr, vars, noexport, lexical, rebound)
    }

    /** The sorted environment that rendering every exported variable afresh gives. */
    ghost predicate IsFresh(v: seq<string>)
      reads this
    {
      IsSorted(v) && multiset(v) == multiset(unnamed) + Rendered(Now())
    }

    ghost predicate Valid()
      reads this
    {
      && CachesOk(Now())
      && (forall i | 0 <= i < |pushlist| :: pushlist[i].hasbindings == HasBindings(pushlist[i].defn))
      && (isdirty || rebound || (sortenv.Some? && IsFresh(sortenv.value)))
    }

    /** initvars; the strings of the parent's environment that have no name are kept. */
    constructor (pr: Printer, unnamed: seq<string>)
      ensures Valid() && vars == map[] && noexport == {} && pushlist == []
      ensures this.pr == pr && this.unnamed == unnamed && lexical == map[] && isdirty && rebound
    {
      this.pr, this.unnamed := pr, unnamed;
      vars, noexport, lexical, isdirty, rebound, pushlist, sortenv := map[], {}, map[], true, true, [], None;
    }

    /** vardef of a dynamic variable. */
    method VarDef(name: Name, defn: Defn)
      requires Valid()
      modifies this`vars, this`isdirty
      ensures Valid()
      ensures vars == if defn == [] then old(vars) - {name}
                      else old(vars)[name := Var(defn, None, HasBindings(defn), false)]
    {
      hide CachesOk, Rendered, HasBindings, IsSorted, IsExported, OneChanged;
      if IsExported(noexport, name) {
        isdirty := true;
      }
      if name in vars {
        if defn != [] {
          vars := vars[name := vars[name].(defn := defn, env := None, hasbindings := HasBindings(defn), isinternal := false)];
        } else {
          vars := vars - {name};
        }
      } else if defn != [] {
        vars := vars[name := Var(defn, None, HasBindings(defn), false)];
      }
      SetOne(old(vars), name, Var(defn, None, HasBindings(defn), false));
      ChangeKeepsCaches(old(Now()), name, vars);
    }

    /** vardef of a lexical binding. */
    method Rebind(cell: nat, defn: Defn)
      modifies this`lexical, this`rebound
      ensures lexical == old(lexical)[cell := defn] && rebound
      ensures old(Valid()) ==> Valid()
    {
      if old(Valid()) {
        RebindKeepsCaches(Now(), lexical[cell := defn]);
      }
      lexical := lexical[cell := defn];
      rebound := true;
    }

    /** varpush */
    method VarPush(name: Name, defn: Defn)
      requires Valid()
      modifies this`vars, this`isdirty, this`pushlist
      ensures Valid()
      ensures vars == old(vars)[name := Var(defn, None, HasBindings(defn), false)]
      ensures pushlist == old(pushlist) +
                          [if name in old(vars)
                           then Push(name, old(vars)[name].defn, old(vars)[name].hasbindings, old(vars)[name].isinternal)
                           else Push(name, [], false, false)]
    {
      hide CachesOk, Rendered, HasBindings, IsSorted, IsExported, OneChanged;
      if IsExported(noexport, name) {
        isdirty := true;
      }
      FlagsOk(Now());
      if name !in vars {
        pushlist := pushlist + [Push(name, [], false, false)];
        vars := vars[name := Var(defn, None, HasBindings(defn), false)];
      } else {
        var v := vars[name];
        pushlist := pushlist + [Push(name, v.defn, v.hasbindings, v.isinternal)];
        vars := vars[name := v.(defn := defn, env := None, hasbindings := HasBindings(defn), isinternal := false)];
      }
      SetOne(old(vars), name, Var(defn, None, HasBindings(defn), false));
      ChangeKeepsCaches(old(Now()), name, vars);
    }

    /** varpop */
    method VarPop()
      requires Valid() && pushlist != []
      modifies this`vars, this`isdirty, this`pushlist
      ensures Valid()
      ensures pushlist == old(pushlist)[..|old(pushlist)| - 1]
      ensures var p := old(pushlist)[|old(pushlist)| - 1];
              vars == if p.defn == [] then old(vars) - {p.name}
                      else old(vars)[p.name := Var(p.defn, None, p.hasbindings, p.isinternal)]
    {
      hide CachesOk, Rendered, HasBindings, IsSorted, IsExported, OneChanged;
      var push := pushlist[|pushlist| - 1];
      if IsExported(noexport, push.name) {
        isdirty := true;
      }
      if push.name in vars {
        if push.defn != [] {
          vars := vars[push.name := vars[push.name].(defn := push.defn, hasbindings := push.hasbindings,
                                                     isinternal := push.isinternal, env := None)];
        } else {
          vars := vars - {push.name};
        }
      } else if push.defn != [] {
        vars := vars[push.name := Var(push.defn, None, push.hasbindings, push.isinternal)];
      }
      pushlist := pushlist[..|pushlist| - 1];
      SetOne(old(vars), push.name, Var(push.defn, None, push.hasbindings, push.isinternal));
      ChangeKeepsCaches(old(Now()), push.name, vars);
    }

    /** mkenv0: append the string of one variable, rendering it if need be. */
    method MkEnv0(env0: seq<string>, key: Name) returns (env: seq<string>)
      requires key in vars
      modifies this`vars
      ensures vars == if Skipped(noexport, key, old(vars)[key]) then old(vars)
                      else old(vars)[key := old(vars)[key].(env := Some(EntryOf(old(Now()), key, old(vars)[key])))]
      ensures multiset(env) == multiset(env0) + Entry(old(Now()), key)
    {
      hide HasBindings, Render;
      env := env0;
      var v := vars[key];
      if v.defn == [] || v.isinternal || !IsExported(noexport, key) {
        return;
      }
      if v.env.None? || (rebound && v.hasbindings) {
        vars := vars[key := v.(env := Some(Render(pr, key, v.defn, lexical)))];
      }
      env := env + [vars[key].env.value];
    }

    /** dictforall(vars, mkenv0), in whatever order the dictionary is walked. */
    method RenderAll() returns (env: seq<string>)
      modifies this`vars
      ensures multiset(env) == multiset(unnamed) + Entries(old(Now()), old(vars).Keys)
      ensures Refreshed(old(Now()), old(vars).Keys, vars)
    {
      hide Refreshed, Skipped, EntryOf, Entry, Entries;
      NothingRefreshed(Now());
      env := unnamed;
      var todo := vars.Keys;
      ghost var done: set<Name> := {};
      while todo != {}
        invariant todo == old(vars).Keys - done && done <= old(vars).Keys
        invariant Refreshed(old(Now()), done, vars)
        invariant multiset(env) == multiset(unnamed) + Entries(old(Now()), done)
        decreases todo
      {
        SomeName(todo);
        var key :| key in todo;
        EntriesRemove(old(Now()), done + {key}, key);
        assert done + {key} - {key} == done;
        RefreshStep(old(Now()), done, vars, key);
        EntryAgrees(old(Now()), vars, key);
        env := MkEnv0(env, key);
        todo, done := todo - {key}, done + {key};
      }
      assert done == old(vars).Keys;
    }

    /** mkenv.  If the caches are in order the result is fresh, and stays so until
        something is changed. */
    method MkEnv() returns (v: seq<string>)
      requires isdirty || rebound || sortenv.Some?
      modifies this`vars, this`isdirty, this`rebound, this`sortenv
      ensures old(Valid()) ==> Valid() && IsFresh(v)
      ensures old((isdirty || rebound) && Labels(vars)) ==>
                (IsFresh(v) <==> Current(old(Now())))
      ensures !isdirty && !rebound && sortenv == Some(v)
      ensures old(!isdirty && !rebound) ==> vars == old(vars)
      ensures old(isdirty || rebound) ==>
                multiset(v) == multiset(unnamed) + Entries(old(Now()), old(vars).Keys)
                && Refreshed(old(Now()), old(vars).Keys, vars)
    {
      hide CachesOk, Entries, Rendered, Refreshed, HasBindings, IsSorted, IsExported, Current, Labels, SortVector;
      if isdirty || rebound {
        var env := RenderAll();
        SortedIsFresh(unnamed, env, old(Now()), vars);
        if old(Valid()) {
          RefreshedCaches(old(Now()), vars);
          CachedIsRendered(old(Now()));
        }
        if old(Labels(vars)) {
          FreshExactly(old(Now()));
        }
        isdirty, rebound := false, false;
        sortenv := Some(SortVector(env));
      }
      v := sortenv.value;
    }

    /** setnoexport */
    method SetNoExport(names: set<Name>)
      requires Valid()
      modifies this`noexport, this`isdirty
      ensures noexport == names && isdirty
      ensures Valid() <==> NoneOutdated(old(Now()), names)
    {
      hide HasBindings, Render, Labelled;
      isdirty := true;
      noexport := names;
    }
  }
}
