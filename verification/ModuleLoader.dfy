/** The ES module loader: loading a possibly cyclic graph and evaluating it depth first, with
    bodies that import dynamically while they run (browser/js_module.go). */
module ModuleLoader {
  import opened Wrappers

  datatype Url = Url(href: string)

  /** A module body as the loader sees it: it ends, throws, or asks for a dynamic import, on
      behalf of some importer, and goes on according to whether the promise resolved. */
  datatype Script =
    | Return
    | Throw
    | Import(importer: Url, spec: string, resolved: Script, rejected: Script)

  /** What an URL gives: the specifiers rewriteModule finds, and the program the text compiles to,
      if it does. */
  datatype Text = Text(specs: set<string>, program: Option<Script>)

  /** The texts that can be had (the inline source of the page's own URL among them), and the
      resolution of specifiers. */
  datatype World = World(texts: map<Url, Text>, resolve: (Url, string) -> Option<Url>)

  /** What happens during evaluation: a module is entered, its body starts, and it is left. */
  datatype Event =
    | Enter(url: Url)
    | Start(url: Url)
    | Exit(url: Url, ok: bool)

  type Log = seq<Event>

  // ---------- the graph ----------

  /** What the static imports of u lead to: those that resolve to something that can be had. */
  ghost function Targets(w: World, u: Url): set<Url> {
    if u in w.texts
    then set spec | spec in w.texts[u].specs && Leads(w, u, spec) :: w.resolve(u, spec).value
    else {}
  }

  predicate Leads(w: World, u: Url, spec: string) {
    w.resolve(u, spec).Some? && w.resolve(u, spec).value in w.texts
  }

  /** What a body may import dynamically. */
  ghost function Requests(w: World, s: Script): set<Url> {
    match s
    case Return => {}
    case Throw => {}
    case Import(importer, spec, a, b) =>
      (if w.resolve(importer, spec).Some? then {w.resolve(importer, spec).value} else {}) + Requests(w, a)
        + Requests(w, b)
  }

  ghost function Dynamic(w: World, u: Url): set<Url> {
    if u in w.texts && w.texts[u].program.Some? then Requests(w, w.texts[u].program.value) else {}
  }

  /** v can be had from u in n steps along static imports. */
  ghost predicate ReachesIn(w: World, u: Url, v: Url, n: nat)
    decreases n
  {
    if n == 0 then u == v else exists d :: d in Targets(w, u) && ReachesIn(w, d, v, n - 1)
  }

  ghost predicate Reaches(w: World, u: Url, v: Url) {
    exists n: nat :: ReachesIn(w, u, v, n)
  }

  // ---------- runs ----------

  /** The modules being evaluated, the outermost first. */
  ghost function Stack(log: Log): seq<Url> {
    if log == [] then []
    else
      var s := Stack(log[..|log| - 1]);
      match log[|log| - 1]
      case Enter(u) => s + [u]
      case Start(_) => s
      case Exit(_, _) => if s == [] then [] else s[..|s| - 1]
  }

  ghost predicate Entered(log: Log, u: Url) {
    exists i :: 0 <= i < |log| && log[i].Enter? && log[i].url == u
  }

  ghost predicate Started(log: Log, u: Url) {
    exists i :: 0 <= i < |log| && log[i].Start? && log[i].url == u
  }

  ghost predicate Exited(log: Log, u: Url) {
    exists i :: 0 <= i < |log| && log[i].Exit? && log[i].url == u
  }

  ghost function Top(log: Log): Url
    requires Stack(log) != []
  {
    Stack(log)[|Stack(log)| - 1]
  }

  /** A dependency has just failed, and its importer has not run. */
  ghost predicate Failing(log: Log) {
    log != [] && log[|log| - 1].Exit? && !log[|log| - 1].ok && Stack(log) != [] && !Started(log, Top(log))
  }

  /** Who may be entered: anything from outside, a static import before the body of the module
      on top runs, a dynamic import of the body afterwards. */
  ghost predicate MayEnter(w: World, log: Log, u: Url) {
    Stack(log) == [] || u in (if Started(log, Top(log)) then Dynamic(w, Top(log)) else Targets(w, Top(log)))
  }

  ghost predicate Allowed(w: World, log: Log, e: Event) {
    && (Failing(log) ==> e == Exit(Top(log), false))
    && match e
       case Enter(u) => u in w.texts && !Entered(log, u) && MayEnter(w, log, u)
       case Start(u) =>
         && Stack(log) != [] && Top(log) == u && !Started(log, u)
         && u in w.texts && w.texts[u].program.Some?
         && forall d :: d in Targets(w, u) ==> Entered(log, d)
       case Exit(u, ok) => Stack(log) != [] && Top(log) == u && (ok ==> Started(log, u))
  }

  /** Every event of the run was allowed when it happened. */
  ghost predicate Good(w: World, log: Log) {
    log == [] || (Good(w, log[..|log| - 1]) && Allowed(w, log[..|log| - 1], log[|log| - 1]))
  }

  /** b goes on from a, and everything that happened since is about modules not entered in a. */
  ghost predicate Extends(a: Log, b: Log) {
    a <= b && Stack(b) == Stack(a) && forall i :: |a| <= i < |b| ==> !Entered(a, b[i].url)
  }

  /** How a dynamic import of u (or of nothing, when the specifier does not resolve) asked for at
      a is answered at b: what was entered is there, what cannot be had is not, and what is
      evaluated now is there unless it fails. */
  ghost predicate Answered(w: World, u: Option<Url>, a: Log, b: Log, resolved: bool) {
    if u.None? || u.value !in w.texts then !resolved && a == b
    else if Entered(a, u.value) then resolved && a == b
    else a < b && b[|b| - 1] == Exit(u.value, resolved)
  }

  /** A body that goes on from a can have come to its end at b, with that outcome. */
  ghost predicate Follows(w: World, s: Script, a: Log, b: Log, ok: bool) {
    match s
    case Return => ok && a == b
    case Throw => !ok && a == b
    case Import(importer, spec, x, y) =>
      exists mid, r: bool ::
        Answered(w, w.resolve(importer, spec), a, mid, r) && Follows(w, if r then x else y, mid, b, ok)
  }

  /** The whole evaluation of u, from a to b. It fails without running the body when the program
      does not compile or an import has just failed; otherwise the body decides. */
  ghost predicate Evaluation(w: World, u: Url, a: Log, b: Log, ok: bool) {
    && u in w.texts && a < b && b[|b| - 1] == Exit(u, ok)
    && var c := b[..|b| - 1];
       if !Started(c, u) then
         !ok && (w.texts[u].program.None? || (c != [] && c[|c| - 1].Exit? && !c[|c| - 1].ok
           && c[|c| - 1].url in Targets(w, u)))
       else
         w.texts[u].program.Some? &&
         exists mid :: mid <= c && mid != [] && mid[|mid| - 1].Start? && mid[|mid| - 1].url == u &&
           Follows(w, w.texts[u].program.value, mid, c, ok)
  }

  // ---------- facts about runs ----------

  lemma Appended(w: World, log: Log, e: Event)
    ensures Good(w, log + [e]) <==> Good(w, log) && Allowed(w, log, e)
    ensures forall u :: Entered(log + [e], u) <==> Entered(log, u) || e == Enter(u)
    ensures forall u :: Started(log + [e], u) <==> Started(log, u) || (e.Start? && e.url == u)
    ensures forall u :: Exited(log + [e], u) <==> Exited(log, u) || (e.Exit? && e.url == u)
    ensures Stack(log + [e]) == match e
            case Enter(u) => Stack(log) + [u]
            case Start(_) => Stack(log)
            case Exit(_, _) => if Stack(log) == [] then [] else Stack(log)[..|Stack(log)| - 1]
  {
    var b := log + [e];
    assert b[..|b| - 1] == log && b[|log|] == e;
    assert forall i :: 0 <= i < |log| ==> b[i] == log[i];
  }

  lemma Prefixed(a: Log, b: Log, u: Url)
    requires a <= b
    ensures Entered(a, u) ==> Entered(b, u)
    ensures Started(a, u) ==> Started(b, u)
  {}

  /** What is true of a prefix stays true of the rest: nothing new is about an entered module. */
  lemma ExtendsKeeps(a: Log, b: Log, u: Url)
    requires Extends(a, b) && Entered(a, u)
    ensures Entered(b, u) && (Started(b, u) <==> Started(a, u)) && (Exited(b, u) <==> Exited(a, u))
  {}

  lemma ExtendsTrans(a: Log, b: Log, c: Log)
    requires Extends(a, b) && Extends(b, c)
    ensures Extends(a, c)
  {
    forall i | |a| <= i < |c| ensures !Entered(a, c[i].url) {
      if i < |b| { assert c[i] == b[i]; } else { Prefixed(a, b, c[i].url); }
    }
  }

  // ---------- what holds of every run ----------

  lemma {:induction false} PrefixGood(w: World, log: Log, i: nat)
    requires Good(w, log) && i <= |log|
    ensures Good(w, log[..i])
    ensures i < |log| ==> Allowed(w, log[..i], log[i])
    decreases |log| - i
  {
    if i == |log| {
      assert log[..i] == log;
    } else {
      PrefixGood(w, log, i + 1);
      assert log[..i + 1][..i] == log[..i];
    }
  }

  /** The modules on the stack are those entered and not left, each once. */
  lemma {:induction false} OpenModules(w: World, log: Log)
    requires Good(w, log)
    ensures forall u :: u in Stack(log) <==> Entered(log, u) && !Exited(log, u)
    ensures forall i, j :: 0 <= i < j < |Stack(log)| ==> Stack(log)[i] != Stack(log)[j]
    ensures forall u :: Exited(log, u) || Started(log, u) ==> Entered(log, u)
  {
    if log != [] {
      var init, e := log[..|log| - 1], log[|log| - 1];
      OpenModules(w, init);
      assert log == init + [e];
      Appended(w, init, e);
      hide Good, Entered, Started, Exited, Stack, Targets, MayEnter, Failing;
      var s := Stack(init);
      if e.Exit? {
        TakenOff(s, e.url);
      }
    }
  }

  lemma TakenOff(s: seq<Url>, u: Url)
    requires s != [] && s[|s| - 1] == u
    requires forall i, j :: 0 <= i < j < |s| ==> s[i] != s[j]
    ensures forall v :: v in s[..|s| - 1] <==> v in s && v != u
  {
    assert s == s[..|s| - 1] + [u];
  }

  /** Every module is entered, started and left at most once. */
  lemma EachOnce(w: World, log: Log, i: nat, j: nat)
    requires Good(w, log) && i < j < |log| && log[i].url == log[j].url
    ensures log[i].Enter? ==> !log[j].Enter?
    ensures log[i].Start? ==> !log[j].Start?
    ensures log[i].Exit? ==> !log[j].Enter? && !log[j].Start? && !log[j].Exit?
  {
    hide Good, Targets, MayEnter, Failing, Stack;
    PrefixGood(w, log, j);
    assert log[..j][i] == log[i];
    if log[i].Exit? { AfterExit(w, log, j, log[i].url); }
  }

  /** Nothing more happens to a module that has been left. */
  lemma AfterExit(w: World, log: Log, j: nat, u: Url)
    requires Good(w, log) && j < |log| && Exited(log[..j], u)
    ensures log[j].url != u
  {
    hide Good, Targets, MayEnter, Failing, Stack;
    PrefixGood(w, log, j);
    OpenModules(w, log[..j]);
    assert u !in Stack(log[..j]);
    assert Stack(log[..j]) != [] ==> Top(log[..j]) in Stack(log[..j]);
  }

  /** When a body runs, every static import of it has been evaluated, successfully or not, or
      is on the stack below it. */
  lemma ReadyWhenRun(w: World, log: Log, i: nat, d: Url)
    requires Good(w, log) && i < |log| && log[i].Start?
    requires d in Targets(w, log[i].url)
    ensures Entered(log[..i], d)
    ensures Exited(log[..i], d) || d in Stack(log[..i])
  {
    PrefixGood(w, log, i);
    OpenModules(w, log[..i]);
  }

  /** Whenever a dependency fails its importer does not run, then or later. */
  lemma FailureStops(w: World, log: Log, i: nat)
    requires Good(w, log) && i + 1 < |log| && Failing(log[..i + 1])
    ensures log[i + 1] == Exit(Top(log[..i + 1]), false)
    ensures !Started(log, Top(log[..i + 1]))
  {
    PrefixGood(w, log, i + 1);
    var u := Top(log[..i + 1]);
    forall j | i + 1 <= j < |log| && log[j].url == u ensures !log[j].Start? {
      if j > i + 1 { EachOnce(w, log, i + 1, j); }
    }
    forall j | 0 <= j < i + 1 ensures log[j] == log[..i + 1][j] {}
  }

  /** From the j-th module of the stack up, no body is running. */
  ghost predicate NoneRuns(log: Log, j: nat) {
    forall m :: j <= m < |Stack(log)| ==> !Started(log, Stack(log)[m])
  }

  /** A failure passes on to the importer below. */
  lemma FailurePasses(w: World, log: Log, n: nat, j: nat)
    requires Good(w, log) && n < |log| && Failing(log[..n]) && j < |Stack(log[..n])| && NoneRuns(log[..n], j)
    ensures log[n] == Exit(Top(log[..n]), false)
    ensures j < |Stack(log[..n])| - 1 ==>
              Failing(log[..n + 1]) && Stack(log[..n + 1]) == Stack(log[..n])[..|Stack(log[..n])| - 1]
                && NoneRuns(log[..n + 1], j)
  {
    PrefixGood(w, log, n);
    assert log[..n + 1] == log[..n] + [log[n]];
    Appended(w, log[..n], log[n]);
    hide Good, Targets, MayEnter, Stack, Started;
  }

  /** As long as no body runs above it, a module whose import has failed fails too, without
      running. */
  lemma {:induction false} Unwinds(w: World, log: Log, n: nat, j: nat, i: nat)
    requires Good(w, log) && n <= i < |log| && Failing(log[..n]) && j < |Stack(log[..n])| && NoneRuns(log[..n], j)
    requires log[i].url == Stack(log[..n])[j]
    ensures !log[i].Start?
    decreases i - n
  {
    hide Good, NoneRuns, Failing, Stack;
    FailurePasses(w, log, n, j);
    if n < i {
      if j < |Stack(log[..n])| - 1 {
        Unwinds(w, log, n + 1, j, i);
      } else {
        EachOnce(w, log, n, i);
      }
    }
  }

  /** Above u on the stack some body is running. */
  ghost predicate RunsAbove(log: Log, u: Url) {
    exists j, m :: 0 <= j < m < |Stack(log)| && Stack(log)[j] == u && Started(log, Stack(log)[m])
  }

  /** A module that was entered before k and starts at i is on the stack in between. */
  lemma StillOpen(w: World, log: Log, k: nat, i: nat)
    requires Good(w, log) && k < i < |log| && log[i].Start? && Entered(log[..k], log[i].url)
    ensures log[i].url in Stack(log[..k + 1])
  {
    hide Good, Targets, MayEnter, Failing, Stack;
    var u := log[i].url;
    PrefixGood(w, log, k + 1);
    OpenModules(w, log[..k + 1]);
    Prefixed(log[..k], log[..k + 1], u);
    if Exited(log[..k + 1], u) { ExitedLater(log, k + 1, i, u); AfterExit(w, log, i, u); }
  }

  lemma ExitedLater(log: Log, a: nat, b: nat, u: Url)
    requires a <= b <= |log| && Exited(log[..a], u)
    ensures Exited(log[..b], u)
  {
    var n :| 0 <= n < a && log[..a][n].Exit? && log[..a][n].url == u;
    assert log[..b][n] == log[..a][n];
  }

  lemma NotStartedBefore(w: World, log: Log, k: nat, i: nat)
    requires Good(w, log) && k <= i < |log| && log[i].Start?
    ensures !Started(log[..k], log[i].url)
  {
    if Started(log[..k], log[i].url) {
      var n :| 0 <= n < k && log[..k][n].Start? && log[..k][n].url == log[i].url;
      EachOnce(w, log, n, i);
    }
  }

  /** A body that starts after a failure belongs to a module that was entered after it, or there
      was a body running between the two, and it was that body's import that failed. */
  lemma RunsAfterFailure(w: World, log: Log, k: nat, i: nat)
    requires Good(w, log) && k < i < |log| && log[k].Exit? && !log[k].ok && log[i].Start?
    ensures !Entered(log[..k], log[i].url) || RunsAbove(log[..k + 1], log[i].url)
  {
    hide Good, Targets, MayEnter, Stack, Entered, Started;
    var u, now := log[i].url, log[..k + 1];
    if Entered(log[..k], u) {
      StillOpen(w, log, k, i);
      var j :| 0 <= j < |Stack(now)| && Stack(now)[j] == u;
      NotStartedBefore(w, log, k + 1, i);
      if NoneRuns(now, j) {
        assert Failing(now) by { assert now[|now| - 1] == log[k]; }
        Unwinds(w, log, k + 1, j, i);
      }
    }
  }

  /** A module can be entered and its body run at once if and only if it may be entered, compiles,
      and everything it imports was entered before; how that ended does not count. */
  lemma SecondImporterRuns(w: World, log: Log, u: Url)
    requires Good(w, log) && !Failing(log) && u in w.texts && !Entered(log, u)
    ensures Good(w, log + [Enter(u)] + [Start(u)])
            <==> MayEnter(w, log, u) && w.texts[u].program.Some?
                 && forall d :: d in Targets(w, u) && d != u ==> Entered(log, d)
  {
    hide Good, Entered, Started, MayEnter, Stack, Targets, Allowed;
    var b := log + [Enter(u)];
    Appended(w, log, Enter(u));
    Appended(w, b, Start(u));
    OpenModules(w, log);
    EnterAllowed(w, log, u);
    StartAllowed(w, b, u);
  }

  lemma EnterAllowed(w: World, log: Log, u: Url)
    requires !Failing(log) && u in w.texts && !Entered(log, u)
    ensures Allowed(w, log, Enter(u)) <==> MayEnter(w, log, u)
  {
    hide Entered, MayEnter, Failing;
  }

  lemma StartAllowed(w: World, log: Log, u: Url)
    requires !Failing(log) && Stack(log) != [] && Top(log) == u && !Started(log, u)
    ensures Allowed(w, log, Start(u))
            <==> u in w.texts && w.texts[u].program.Some? && forall d :: d in Targets(w, u) ==> Entered(log, d)
  {}

  /** A running body may go on after a dynamic import of it has failed, and when it ends the
      importer below it can run. */
  lemma CaughtImporterRuns(w: World, log: Log, u: Url, v: Url)
    requires Good(w, log) && log != [] && log[|log| - 1].Exit? && !log[|log| - 1].ok
    requires |Stack(log)| >= 2 && Stack(log)[|Stack(log)| - 2] == u && Top(log) == v && Started(log, v)
             && !Started(log, u)
    ensures Good(w, log + [Exit(v, true)] + [Start(u)])
            <==> u in w.texts && w.texts[u].program.Some? && forall d :: d in Targets(w, u) ==> Entered(log, d)
  {
    Appended(w, log, Exit(v, true));
    Appended(w, log + [Exit(v, true)], Start(u));
  }

  /** Each module on the stack was imported, statically or dynamically, by the one below. */
  lemma {:induction false} StackIsLinked(w: World, log: Log, k: nat)
    requires Good(w, log) && k + 1 < |Stack(log)|
    ensures Stack(log)[k + 1] in Targets(w, Stack(log)[k]) + Dynamic(w, Stack(log)[k])
  {
    var init, e := log[..|log| - 1], log[|log| - 1];
    assert log == init + [e];
    Appended(w, init, e);
    if k + 1 < |Stack(init)| { StackIsLinked(w, init, k); }
  }

  /** An acyclic graph: a rank every import goes down in. */
  ghost predicate Ranked(w: World, rank: Url -> nat) {
    forall u, d :: d in Targets(w, u) + Dynamic(w, u) ==> rank(d) < rank(u)
  }

  lemma {:induction false} RankFalls(w: World, log: Log, rank: Url -> nat, i: nat, j: nat)
    requires Good(w, log) && Ranked(w, rank) && i <= j < |Stack(log)|
    ensures rank(Stack(log)[j]) <= rank(Stack(log)[i])
    decreases j
  {
    hide Good, Targets, Dynamic, Stack;
    if i < j {
      RankFalls(w, log, rank, i, j - 1);
      StackIsLinked(w, log, j - 1);
    }
  }

  lemma NotBelowItself(w: World, log: Log, rank: Url -> nat, d: Url)
    requires Good(w, log) && Ranked(w, rank) && Stack(log) != [] && d in Targets(w, Top(log))
    ensures d !in Stack(log)
  {
    hide Good, Targets, Dynamic, Stack;
    var s := Stack(log);
    forall k | 0 <= k < |s| ensures s[k] != d {
      RankFalls(w, log, rank, k, |s| - 1);
      assert d in Targets(w, Top(log)) + Dynamic(w, Top(log));
    }
  }

  /** In an acyclic graph the imports of a body have all been evaluated before it runs; when
      nothing failed, each has run from start to end by then. */
  lemma DependenciesFirst(w: World, log: Log, rank: Url -> nat, i: nat, d: Url)
    requires Good(w, log) && Ranked(w, rank) && i < |log| && log[i].Start?
    requires d in Targets(w, log[i].url)
    ensures exists k :: 0 <= k < i && log[k].Exit? && log[k].url == d
    ensures ErrorFree(log) ==>
              exists j, k :: 0 <= j < k < i && log[j].Start? && log[j].url == d && log[k] == Exit(d, true)
  {
    ReadyWhenRun(w, log, i, d);
    PrefixGood(w, log, i);
    NotBelowItself(w, log[..i], rank, d);
    var k :| 0 <= k < i && log[..i][k].Exit? && log[..i][k].url == d;
    assert log[k] == log[..i][k];
    if ErrorFree(log) {
      PrefixGood(w, log, k);
      var j :| 0 <= j < k && log[..k][j].Start? && log[..k][j].url == d;
      assert log[j] == log[..k][j];
      assert log[k] == Exit(d, true);
    }
  }

  ghost predicate ErrorFree(log: Log) {
    forall i :: 0 <= i < |log| && log[i].Exit? ==> log[i].ok
  }

  /** When nothing failed and nothing is under way, whatever an evaluated module reaches has run. */
  lemma {:induction false} EverythingRuns(w: World, log: Log, u: Url, v: Url, n: nat)
    requires Good(w, log) && Stack(log) == [] && ErrorFree(log) && Entered(log, u)
    requires ReachesIn(w, u, v, n)
    ensures Started(log, v) && Exited(log, v)
    decreases n
  {
    HasRun(w, log, u);
    if n > 0 {
      var d :| d in Targets(w, u) && ReachesIn(w, d, v, n - 1);
      ImportEntered(w, log, u, d);
      EverythingRuns(w, log, d, v, n - 1);
    }
  }

  lemma HasRun(w: World, log: Log, u: Url)
    requires Good(w, log) && Stack(log) == [] && ErrorFree(log) && Entered(log, u)
    ensures Started(log, u) && Exited(log, u)
  {
    OpenModules(w, log);
    var k :| 0 <= k < |log| && log[k].Exit? && log[k].url == u;
    PrefixGood(w, log, k);
    Prefixed(log[..k], log, u);
  }

  lemma ImportEntered(w: World, log: Log, u: Url, d: Url)
    requires Good(w, log) && Started(log, u) && d in Targets(w, u)
    ensures Entered(log, d)
  {
    var i :| 0 <= i < |log| && log[i].Start? && log[i].url == u;
    PrefixGood(w, log, i);
    Prefixed(log[..i], log, d);
  }

  // ---------- single steps ----------

  /** The modules there are to be entered. */
  ghost function Unevaluated(w: World, log: Log): set<Url> {
    set u | u in w.texts && !Entered(log, u)
  }

  lemma StepEnter(w: World, log: Log, u: Url)
    requires Good(w, log) && !Failing(log) && u in w.texts && !Entered(log, u) && MayEnter(w, log, u)
    ensures var b := log + [Enter(u)];
            && Good(w, b) && !Failing(b) && Stack(b) == Stack(log) + [u] && !Started(b, u)
            && (forall v :: Entered(b, v) <==> Entered(log, v) || v == u)
            && Unevaluated(w, b) < Unevaluated(w, log)
  {
    var b := log + [Enter(u)];
    Appended(w, log, Enter(u));
    OpenModules(w, log);
    assert u in Unevaluated(w, log) && u !in Unevaluated(w, b);
  }

  lemma StepStart(w: World, log: Log, u: Url)
    requires Good(w, log) && !Failing(log) && Allowed(w, log, Start(u))
    ensures var b := log + [Start(u)];
            Good(w, b) && !Failing(b) && Stack(b) == Stack(log) && Started(b, u)
  {
    Appended(w, log, Start(u));
  }

  /** u was entered after `before`, is on top of the stack, and nothing since is about a module
      entered before. */
  ghost predicate Above(before: Log, log: Log, u: Url) {
    && before + [Enter(u)] <= log && Stack(log) == Stack(before) + [u] && !Entered(before, u)
    && forall i :: |before| <= i < |log| ==> !Entered(before, log[i].url)
  }

  lemma AboveEnter(log: Log, u: Url)
    requires !Entered(log, u) && Stack(log + [Enter(u)]) == Stack(log) + [u]
    ensures Above(log, log + [Enter(u)], u)
  {}

  lemma AboveStart(before: Log, log: Log, u: Url)
    requires Above(before, log, u) && Stack(log + [Start(u)]) == Stack(log)
    ensures Above(before, log + [Start(u)], u)
  {}

  lemma AboveExtends(before: Log, a: Log, b: Log, u: Url)
    requires Above(before, a, u) && Extends(a, b)
    ensures Above(before, b, u)
  {
    forall i | |before| <= i < |b| ensures !Entered(before, b[i].url) {
      if i < |a| { assert a[i] == b[i]; } else { Prefixed(before, a, b[i].url); }
    }
  }

  /** Leaving the module that was entered after `before`. */
  lemma StepExit(w: World, before: Log, log: Log, u: Url, ok: bool)
    requires Good(w, log) && Good(w, before) && Above(before, log, u)
    requires ok ==> !Failing(log) && Started(log, u)
    ensures var b := log + [Exit(u, ok)];
            && Good(w, b) && Extends(before, b)
            && (forall v :: Entered(b, v) <==> Entered(log, v)) && Entered(b, u)
            && (Failing(b) <==> !ok && Stack(before) != [] && !Started(before, Top(before)))
  {
    hide Good, Entered, Started, Allowed, Stack, Extends, Above;
    var b := log + [Exit(u, ok)];
    Appended(w, log, Exit(u, ok));
    AboveIs(before, log, u);
    ExitAllowed(w, before, log, u, ok);
    assert Stack(b) == Stack(before);
    ExitExtends(before, log, u, ok);
    if Stack(before) != [] {
      OpenModules(w, before);
      assert Top(before) in Stack(before);
      ExtendsKeeps(before, b, Top(before));
    }
  }

  lemma AboveIs(before: Log, log: Log, u: Url)
    requires Above(before, log, u)
    ensures Stack(log) == Stack(before) + [u] && Entered(log, u)
  {
    assert log[|before|] == Enter(u);
  }

  lemma ExitExtends(before: Log, log: Log, u: Url, ok: bool)
    requires Above(before, log, u) && Stack(log + [Exit(u, ok)]) == Stack(before)
    ensures Extends(before, log + [Exit(u, ok)])
  {
    hide Stack, Entered;
  }

  lemma ExitAllowed(w: World, before: Log, log: Log, u: Url, ok: bool)
    requires Stack(log) == Stack(before) + [u]
    requires ok ==> !Failing(log) && Started(log, u)
    ensures Allowed(w, log, Exit(u, ok))
  {}

  lemma ExtendsSelf(log: Log)
    ensures Extends(log, log)
  {}

  /** A module that was on top of the stack, and had or had not started, still is. */
  lemma StillOnTop(w: World, a: Log, b: Log, u: Url)
    requires Extends(a, b) && Stack(a) != [] && Top(a) == u && Entered(a, u)
    ensures Stack(b) != [] && Top(b) == u && (Started(b, u) <==> Started(a, u))
    ensures (Started(b, u) ==> !Failing(b)) && a <= b
    ensures Unevaluated(w, b) <= Unevaluated(w, a)
  {
    ExtendsKeeps(a, b, u);
    EnteredGrows(w, a, b);
  }

  lemma EnteredSince(w: World, a: Log, b: Log)
    requires Extends(a, b)
    ensures forall u :: Entered(a, u) ==> Entered(b, u)
  {
    EnteredGrows(w, a, b);
  }

  lemma BodyMayImport(w: World, log: Log, d: Url)
    requires Stack(log) == [] || (Started(log, Top(log)) && d in Dynamic(w, Top(log)))
    ensures MayEnter(w, log, d) && !Failing(log)
  {}

  lemma EndsUnrun(w: World, u: Url, a: Log, c: Log)
    requires u in w.texts && a <= c && !Started(c, u)
    requires w.texts[u].program.None? || (c != [] && c[|c| - 1].Exit? && !c[|c| - 1].ok
             && c[|c| - 1].url in Targets(w, u))
    ensures Evaluation(w, u, a, c + [Exit(u, false)], false)
  {
    assert (c + [Exit(u, false)])[..|c|] == c;
  }

  lemma EndsRun(w: World, u: Url, a: Log, mid: Log, c: Log, ok: bool)
    requires u in w.texts && w.texts[u].program.Some? && a <= mid <= c && mid != []
    requires mid[|mid| - 1].Start? && mid[|mid| - 1].url == u && Follows(w, w.texts[u].program.value, mid, c, ok)
    ensures Evaluation(w, u, a, c + [Exit(u, ok)], ok)
  {
    assert (c + [Exit(u, ok)])[..|c|] == c;
    assert c[|mid| - 1] == mid[|mid| - 1];
  }

  lemma MayImport(w: World, log: Log, d: Url)
    requires Stack(log) != [] && d in (if Started(log, Top(log)) then Dynamic(w, Top(log)) else Targets(w, Top(log)))
    ensures MayEnter(w, log, d)
  {}

  lemma EnteredGrows(w: World, a: Log, b: Log)
    requires a <= b
    ensures forall u :: Entered(a, u) ==> Entered(b, u)
    ensures Unevaluated(w, b) <= Unevaluated(w, a)
  {
    forall u | Entered(a, u) ensures Entered(b, u) { Prefixed(a, b, u); }
  }

  // ---------- the loader ----------

  class Module {
    const url: Url
    const text: Text
    var imports: map<string, Module>
    var evaluated: bool

    constructor (url: Url, text: Text)
      ensures this.url == url && this.text == text && imports == map[] && !evaluated
    {
      this.url, this.text, imports, evaluated := url, text, map[], false;
    }
  }

  class Loader {
    const world: World
    var modules: map<Url, Module>
    ghost var log: Log

    constructor (world: World)
      ensures Valid() && Settled() && modules == map[] && log == [] && this.world == world
    {
      this.world, modules, log := world, map[], [];
    }

    /** Each module is registered under its URL, imports what its specifiers resolve to, and is
        marked once it has been entered. */
    ghost predicate Valid()
      reads this, modules.Values
    {
      && Good(world, log)
      && (forall u :: u in modules ==> IsModule(u))
      && (forall u :: Entered(log, u) ==> u in modules)
    }

    ghost predicate IsModule(u: Url)
      requires u in modules
      reads this, modules.Values
    {
      var m := modules[u];
      && m.url == u && u in world.texts && m.text == world.texts[u]
      && (m.evaluated <==> Entered(log, u))
      && forall spec :: spec in m.imports ==> IsImport(u, spec, m.imports[spec])
    }

    ghost predicate IsImport(u: Url, spec: string, m: Module)
      requires u in world.texts
      reads this
    {
      && spec in world.texts[u].specs && world.resolve(u, spec).Some?
      && world.resolve(u, spec).value in modules && modules[world.resolve(u, spec).value] == m
    }

    /** Every import that can be had is there. */
    ghost predicate Linked(m: Module)
      reads m
    {
      forall spec :: spec in m.text.specs && Leads(world, m.url, spec) ==> spec in m.imports
    }

    ghost predicate Settled()
      reads this, modules.Values
    {
      forall u :: u in modules ==> Linked(modules[u])
    }

    method Register(url: Url) returns (made: Module)
      requires Valid() && url in world.texts && url !in modules
      modifies this`modules
      ensures Valid() && fresh(made) && modules == old(modules)[url := made]
      ensures made.url == url && made.text == world.texts[url] && made.imports == map[]
    {
      hide Good;
      made := new Module(url, world.texts[url]);
      modules := modules[url := made];
    }

    method Link(made: Module, spec: string, dep: Module)
      requires Valid() && made.url in modules && modules[made.url] == made && IsImport(made.url, spec, dep)
      modifies made`imports
      ensures Valid() && made.imports == old(made.imports)[spec := dep]
    {
      hide Good;
      made.imports := made.imports[spec := dep];
    }

    /** Fetches and registers a module and, recursively, what it imports; specifiers are taken
        in any order. */
    method Load(url: Url) returns (m: Option<Module>)
      requires Valid()
      modifies this`modules
      ensures Valid()
      ensures forall u :: u in old(modules) ==> u in modules && modules[u] == old(modules)[u]
      ensures forall u :: u in modules && u !in old(modules) ==>
                fresh(modules[u]) && Linked(modules[u]) && Reaches(world, url, u)
      ensures m.Some? <==> url in world.texts
      ensures m.None? ==> modules == old(modules)
      ensures m.Some? ==> url in modules && m.value == modules[url]
      decreases world.texts.Keys - modules.Keys
    {
      hide Good, Entered, Reaches, Targets;
      if url in modules {
        return Some(modules[url]);
      }
      if url !in world.texts {
        return None;
      }
      var text := world.texts[url];
      var made := Register(url);
      ReachesSelf(world, url);
      var todo := text.specs;
      while todo != {}
        invariant todo <= text.specs
        invariant Valid()
        invariant url in modules && modules[url] == made && fresh(made)
        invariant forall u :: u in old(modules) ==> u in modules && modules[u] == old(modules)[u]
        invariant forall u :: u in modules && u !in old(modules) ==> fresh(modules[u]) && Reaches(world, url, u)
        invariant forall u :: u in modules && u !in old(modules) && u != url ==>
                  Linked(modules[u]) && modules[u] != made
        invariant forall spec :: spec in text.specs - todo && Leads(world, url, spec) ==> spec in made.imports
        decreases todo
      {
        var spec :| spec in todo;
        todo := todo - {spec};
        var target := world.resolve(url, spec);
        if target.Some? {
          ghost var before := modules;
          var dep := Load(target.value);
          if dep.Some? {
            TargetIs(world, url, spec);
            forall u | u in modules && u !in before ensures Reaches(world, url, u) {
              ReachesStep(world, url, target.value, u);
            }
            Link(made, spec, dep.value);
          }
        }
      }
      return Some(made);
    }

    ghost predicate Grew(before: map<Url, Module>)
      reads this
    {
      forall u :: u in before ==> u in modules && modules[u] == before[u]
    }

    /** The start of an evaluation. */
    method Mark(m: Module)
      requires Valid() && Settled() && m.url in modules && modules[m.url] == m && !m.evaluated
      requires !Failing(log) && MayEnter(world, log, m.url)
      modifies this`log, m`evaluated
      ensures Valid() && Settled() && log == old(log) + [Enter(m.url)] && Above(old(log), log, m.url)
      ensures !Failing(log) && Stack(log) == Stack(old(log)) + [m.url] && !Started(log, m.url) && Entered(log, m.url)
      ensures Unevaluated(world, log) < Unevaluated(world, old(log))
    {
      StepEnter(world, log, m.url);
      AboveEnter(log, m.url);
      hide Good, Entered, MayEnter, Failing, Stack, Started, Unevaluated, Above;
      m.evaluated := true;
      log := log + [Enter(m.url)];
    }

    /** The end of an evaluation that began after `before`. */
    ghost method Leave(before: Log, u: Url, ok: bool)
      requires Valid() && Settled() && Good(world, before) && Above(before, log, u)
      requires ok ==> !Failing(log) && Started(log, u)
      modifies this`log
      ensures Valid() && Settled() && log == old(log) + [Exit(u, ok)] && Extends(before, log) && Entered(log, u)
      ensures Failing(log) <==> !ok && Stack(before) != [] && !Started(before, Top(before))
    {
      hide Good, Entered, MayEnter, Failing, Stack, Started, Extends, Above;
      StepExit(world, before, log, u, ok);
      log := log + [Exit(u, ok)];
    }

    /** The imports object of a module that is about to run. */
    ghost function ImportsOf(m: Module): set<Url>
      reads m
    {
      set spec | spec in m.imports :: m.imports[spec].url
    }

    lemma ImportsRange(m: Module)
      requires Valid() && Settled() && m.url in modules && modules[m.url] == m
      ensures ImportsOf(m) == Targets(world, m.url)
    {
      hide Good, Entered;
      forall d | d in Targets(world, m.url) ensures d in ImportsOf(m) {
        var spec :| spec in m.text.specs && world.resolve(m.url, spec) == Some(d) && Leads(world, m.url, spec);
        assert IsImport(m.url, spec, m.imports[spec]);
      }
      forall d | d in ImportsOf(m) ensures d in Targets(world, m.url) {
        var spec :| spec in m.imports && m.imports[spec].url == d;
        ImportIsTarget(m, spec);
      }
    }

    lemma EvaluatedIsEntered(m: Module)
      requires Valid() && m.url in modules && modules[m.url] == m
      ensures m.evaluated <==> Entered(log, m.url)
      ensures Good(world, log) && m.url in world.texts && world.texts[m.url] == m.text
    {
      assert IsModule(m.url);
    }

    /** Whatever can be had along static imports from a registered module is registered. */
    lemma {:induction false} ReachableIsLoaded(u: Url, v: Url, n: nat)
      requires Valid() && Settled() && u in modules && ReachesIn(world, u, v, n)
      ensures v in modules
      decreases n
    {
      hide Good, Entered, Targets;
      if n > 0 {
        var d :| d in Targets(world, u) && ReachesIn(world, d, v, n - 1);
        assert IsModule(u);
        ImportsRange(modules[u]);
        var spec :| spec in modules[u].imports && modules[u].imports[spec].url == d;
        ImportIsTarget(modules[u], spec);
        ReachableIsLoaded(d, v, n - 1);
      }
    }

    lemma StartedIsEntered(m: Module)
      requires Valid() && Started(log, m.url)
      ensures Entered(log, m.url)
    {
      OpenModules(world, log);
    }

    lemma ImportIsTarget(m: Module, spec: string)
      requires Valid() && m.url in modules && modules[m.url] == m && spec in m.imports
      ensures m.imports[spec].url in Targets(world, m.url)
      ensures m.imports[spec].url in modules && modules[m.imports[spec].url] == m.imports[spec]
    {
      hide Good, Entered;
      assert IsModule(m.url) && IsImport(m.url, spec, m.imports[spec]);
      assert IsModule(world.resolve(m.url, spec).value);
    }

    /** The body begins to run, on the imports object. */
    ghost method Begin(m: Module)
      requires Valid() && Settled() && m.url in modules && modules[m.url] == m && m.text.program.Some?
      requires !Failing(log) && Stack(log) != [] && Top(log) == m.url && !Started(log, m.url)
      requires Entered(log, m.url) && forall spec :: spec in m.imports ==> Entered(log, m.imports[spec].url)
      modifies this`log
      ensures Valid() && Settled() && log == old(log) + [Start(m.url)]
      ensures !Failing(log) && Stack(log) == Stack(old(log)) && Started(log, m.url)
      ensures Unevaluated(world, log) == Unevaluated(world, old(log)) && Entered(log, m.url)
      ensures forall before :: Above(before, old(log), m.url) ==> Above(before, log, m.url)
    {
      ImportsRange(m);
      StepStart(world, log, m.url);
      forall before | Above(before, log, m.url) ensures Above(before, log + [Start(m.url)], m.url) {
        AboveStart(before, log, m.url);
      }
      hide Good, Entered, MayEnter, Failing, Stack, Started, Targets, Unevaluated, Above;
      log := log + [Start(m.url)];
    }

    /** evaluate: the dependencies, in any order, up to the first that fails, and then the body.
        A module counts as evaluated from the moment it is entered. */
    method Evaluate(m: Module) returns (ok: bool)
      requires Valid() && Settled() && m.url in modules && modules[m.url] == m && !Failing(log)
      requires Entered(log, m.url) || MayEnter(world, log, m.url)
      modifies this`modules, this`log, modules.Values`evaluated
      ensures Valid() && Settled() && Grew(old(modules))
      ensures forall u :: u in modules && u !in old(modules) ==> fresh(modules[u])
      ensures Extends(old(log), log) && Entered(log, m.url)
      ensures Failing(log) <==> !ok && Stack(old(log)) != [] && !Started(old(log), Top(old(log)))
      ensures old(m.evaluated) ==> ok && log == old(log)
      ensures !old(m.evaluated) ==> Evaluation(world, m.url, old(log), log, ok)
      decreases Unevaluated(world, log), 1
    {
      hide Good, Entered, MayEnter, Failing, Stack, Started, Targets, Unevaluated, Extends, Above;
      hide Valid, Settled, Evaluation, Follows;
      ghost var before := log;
      EvaluatedIsEntered(m);
      if m.evaluated {
        ExtendsSelf(log);
        return true;
      }
      Mark(m);
      ghost var entered := log;
      ok := EvaluateImports(m);
      AboveExtends(before, entered, log, m.url);
      StillOnTop(world, entered, log, m.url);
      EnteredSince(world, entered, log);
      ghost var end := log;
      if !ok {
        Leave(before, m.url, false);
        EndsUnrun(world, m.url, before, end);
        return;
      }
      match m.text.program
      case None =>
        Leave(before, m.url, false);
        EndsUnrun(world, m.url, before, end);
        ok := false;
      case Some(script) =>
        Begin(m);
        ghost var started := log;
        assert before <= started;
        assert Requests(world, script) <= Dynamic(world, m.url) by { EvaluatedIsEntered(m); }
        ok := RunBody(m, script);
        AboveExtends(before, started, log, m.url);
        StillOnTop(world, started, log, m.url);
        end := log;
        Leave(before, m.url, ok);
        EndsRun(world, m.url, before, started, end, ok);
    }

    /** The loop over the imports of a module that has been entered. */
    method EvaluateImports(m: Module) returns (ok: bool)
      requires Valid() && Settled() && m.url in modules && modules[m.url] == m && !Failing(log)
      requires Stack(log) != [] && Top(log) == m.url && Entered(log, m.url) && !Started(log, m.url)
      modifies this`modules, this`log, modules.Values`evaluated
      ensures Valid() && Settled() && Grew(old(modules))
      ensures forall u :: u in modules && u !in old(modules) ==> fresh(modules[u])
      ensures Extends(old(log), log)
      ensures ok ==> !Failing(log) && forall spec :: spec in m.imports ==> Entered(log, m.imports[spec].url)
      ensures !ok ==>
                log != [] && log[|log| - 1].Exit? && !log[|log| - 1].ok && log[|log| - 1].url in Targets(world, m.url)
      decreases Unevaluated(world, log), 2
    {
      hide Good, Entered, MayEnter, Failing, Stack, Started, Targets, Unevaluated, Extends;
      hide Valid, Settled;
      EvaluatedIsEntered(m);
      ghost var entered := log;
      ExtendsSelf(log);
      ok := true;
      var todo := m.imports.Keys;
      while todo != {}
        invariant todo <= m.imports.Keys
        invariant Valid() && Settled() && Grew(old(modules)) && !Failing(log) && ok
        invariant forall u :: u in modules && u !in old(modules) ==> fresh(modules[u])
        invariant Extends(entered, log)
        invariant forall spec :: spec in m.imports && spec !in todo ==> Entered(log, m.imports[spec].url)
        decreases todo
      {
        var spec :| spec in todo;
        todo := todo - {spec};
        ghost var here := log;
        StillOnTop(world, entered, log, m.url);
        ImportIsTarget(m, spec);
        MayImport(world, log, m.imports[spec].url);
        ok := Evaluate(m.imports[spec]);
        ExtendsTrans(entered, here, log);
        EnteredSince(world, here, log);
        if !ok {
          return;
        }
      }
    }

    /** Runs what is left of the body of m. */
    method RunBody(m: Module, s: Script) returns (ok: bool)
      requires Valid() && Settled() && m.url in modules && modules[m.url] == m
      requires Stack(log) != [] && Top(log) == m.url && Started(log, m.url)
      requires Requests(world, s) <= Dynamic(world, m.url)
      modifies this`modules, this`log, modules.Values`evaluated
      ensures Valid() && Settled() && Grew(old(modules))
      ensures forall u :: u in modules && u !in old(modules) ==> fresh(modules[u])
      ensures Extends(old(log), log) && Follows(world, s, old(log), log, ok)
      decreases Unevaluated(world, log), 4, s
    {
      hide Good, Entered, MayEnter, Failing, Stack, Started, Unevaluated, Extends, Valid, Settled, Dynamic, Answered;
      ghost var before := log;
      match s
      case Return =>
        ExtendsSelf(log);
        ok := true;
      case Throw =>
        ExtendsSelf(log);
        ok := false;
      case Import(importer, spec, a, b) =>
        StartedIsEntered(m);
        var resolved := DynamicImport(importer, spec);
        StillOnTop(world, before, log, m.url);
        ghost var between := log;
        ok := RunBody(m, if resolved then a else b);
        ExtendsTrans(before, between, log);
        assert Follows(world, s, before, log, ok) by {
          assert Answered(world, world.resolve(importer, spec), before, between, resolved);
        }
    }

    /** The dynamic import closure; also callable from outside any evaluation. */
    method DynamicImport(importer: Url, spec: string) returns (resolved: bool)
      requires Valid() && Settled()
      requires Stack(log) == [] || (Started(log, Top(log)) &&
                 (world.resolve(importer, spec).Some? ==>
                   world.resolve(importer, spec).value in Dynamic(world, Top(log))))
      modifies this`modules, this`log, modules.Values`evaluated
      ensures Valid() && Settled() && Grew(old(modules))
      ensures forall u :: u in modules && u !in old(modules) ==> fresh(modules[u])
      ensures Extends(old(log), log)
      ensures Answered(world, world.resolve(importer, spec), old(log), log, resolved)
      decreases Unevaluated(world, log), 3
    {
      hide Good, Entered, MayEnter, Failing, Stack, Started, Unevaluated, Extends, Dynamic;
      ExtendsSelf(log);
      var target := world.resolve(importer, spec);
      if target.None? {
        return false;
      }
      if target.value !in modules {
        var loaded := Load(target.value);
        if loaded.None? {
          return false;
        }
      }
      BodyMayImport(world, log, target.value);
      resolved := EvaluateLoaded(target.value);
    }

    method EvaluateLoaded(url: Url) returns (ok: bool)
      requires Valid() && Settled() && url in modules && !Failing(log) && MayEnter(world, log, url)
      modifies this`modules, this`log, modules.Values`evaluated
      ensures Valid() && Settled() && Grew(old(modules))
      ensures forall u :: u in modules && u !in old(modules) ==> fresh(modules[u])
      ensures Extends(old(log), log)
      ensures if Entered(old(log), url) then ok && log == old(log) else Evaluation(world, url, old(log), log, ok)
      decreases Unevaluated(world, log), 2
    {
      hide Good, Entered, MayEnter, Failing, Stack, Started, Unevaluated, Extends, Evaluation;
      assert IsModule(url);
      ok := Evaluate(modules[url]);
    }
  }

  /** runModuleScript: a new loader, one load, one evaluation. If nothing fails, the bodies of all
      modules that can be had from the script have run to their end. */
  method RunModuleScript(world: World, src: Url) returns (loader: Loader, loaded: bool, ok: bool)
    ensures loader.world == world && loader.Valid() && loader.Settled() && Stack(loader.log) == []
    ensures loaded <==> src in world.texts
    ensures !loaded ==> loader.log == [] && !ok
    ensures loaded ==> Evaluation(world, src, [], loader.log, ok)
    ensures loaded && ErrorFree(loader.log) ==>
              ok && forall v, n: nat :: ReachesIn(world, src, v, n) ==>
                Started(loader.log, v) && Exited(loader.log, v)
  {
    hide Evaluation, MayEnter, Failing, Started, Exited, Extends, ReachesIn;
    loader := new Loader(world);
    var m := loader.Load(src);
    loaded, ok := m.Some?, false;
    if loaded {
      assert loader.IsModule(src);
      NothingYet(world, src);
      ok := loader.Evaluate(m.value);
      StackKept([], loader.log);
      if ErrorFree(loader.log) {
        EvaluationOk(world, src, [], loader.log, ok);
        forall v, n: nat | ReachesIn(world, src, v, n) ensures Started(loader.log, v) && Exited(loader.log, v) {
          EverythingRuns(world, loader.log, src, v, n);
        }
      }
    }
  }

  lemma NothingYet(w: World, u: Url)
    ensures MayEnter(w, [], u) && !Failing([]) && Stack([]) == []
  {}

  lemma StackKept(a: Log, b: Log)
    requires Extends(a, b)
    ensures Stack(b) == Stack(a)
  {}

  lemma EvaluationOk(w: World, u: Url, a: Log, b: Log, ok: bool)
    requires Evaluation(w, u, a, b, ok) && ErrorFree(b)
    ensures ok
  {}

  lemma TargetIs(w: World, u: Url, spec: string)
    requires u in w.texts && spec in w.texts[u].specs && Leads(w, u, spec)
    ensures w.resolve(u, spec).value in Targets(w, u)
  {}

  lemma ReachesSelf(w: World, u: Url)
    ensures Reaches(w, u, u)
  {
    assert ReachesIn(w, u, u, 0);
  }

  lemma ReachesStep(w: World, u: Url, d: Url, v: Url)
    requires d in Targets(w, u) && Reaches(w, d, v)
    ensures Reaches(w, u, v)
  {
    var n: nat :| ReachesIn(w, d, v, n);
    assert ReachesIn(w, u, v, n + 1);
  }
}
