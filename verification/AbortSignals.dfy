/** AbortSignal: one signal's abort propagates to the signals derived from it
    (browser/js_abortsignal.go). Listeners are opaque and do not call back into signals. */
module AbortSignals {
  import opened Wrappers

  /** A listener, or the value of onabort. */
  datatype Listener = Listener(id: nat)

  /** An abort reason; the default one when the caller gives none, null or undefined. */
  datatype Reason = Default | Given(id: nat)

  /** One call of a listener, for the abort event of a signal. */
  datatype Call = Call(target: Signal, listener: Listener)

  /** What a signal was like before an abort. */
  datatype Snapshot = Snapshot(dependents: seq<Signal>, calls: seq<Call>)

  type Picture = map<Signal, Snapshot>

  // ---------- reachability, on a picture ----------

  ghost predicate Closed(was: Picture) {
    forall s :: s in was ==> forall d :: d in was[s].dependents ==> d in was
  }

  ghost predicate ReachesIn(was: Picture, s: Signal, t: Signal, n: nat)
    decreases n
  {
    s in was && if n == 0 then s == t else exists d :: d in was[s].dependents && ReachesIn(was, d, t, n - 1)
  }

  /** t is s or derived from it, at any number of steps. */
  ghost predicate Reaches(was: Picture, s: Signal, t: Signal) {
    exists n: nat :: ReachesIn(was, s, t, n)
  }

  /** Whatever is derived from an aborted signal is aborted, but for the signals in `open`. */
  ghost predicate Settled(was: Picture, aborted: set<Signal>, open: set<Signal>)
    requires aborted <= was.Keys
  {
    forall s, d :: s in aborted && s !in open && d in was[s].dependents ==> d in aborted
  }

  lemma ReachesSelf(was: Picture, s: Signal)
    requires s in was
    ensures Reaches(was, s, s)
  {
    assert ReachesIn(was, s, s, 0);
  }

  lemma ReachesStep(was: Picture, s: Signal, d: Signal, t: Signal)
    requires s in was && d in was[s].dependents && Reaches(was, d, t)
    ensures Reaches(was, s, t)
  {
    var n: nat :| ReachesIn(was, d, t, n);
    assert ReachesIn(was, s, t, n + 1);
  }

  lemma {:induction false} SettledReaches(was: Picture, aborted: set<Signal>, s: Signal, t: Signal, n: nat)
    requires aborted <= was.Keys && Settled(was, aborted, {}) && s in aborted && ReachesIn(was, s, t, n)
    ensures t in aborted
    decreases n
  {
    if n > 0 {
      var d :| d in was[s].dependents && ReachesIn(was, d, t, n - 1);
      SettledReaches(was, aborted, d, t, n - 1);
    }
  }

  /** The calls for the signals aborted, signal by signal. */
  ghost function Calls(was: Picture, order: seq<Signal>): seq<Call>
    requires forall s :: s in order ==> s in was
  {
    if order == [] then [] else Calls(was, order[..|order| - 1]) + was[order[|order| - 1]].calls
  }

  lemma {:induction false} CallsConcat(was: Picture, a: seq<Signal>, b: seq<Signal>)
    requires forall s :: s in a || s in b ==> s in was
    ensures forall s :: s in a + b ==> s in was
    ensures Calls(was, a + b) == Calls(was, a) + Calls(was, b)
    decreases |b|
  {
    if b == [] {
      assert a + b == a;
    } else {
      var init := b[..|b| - 1];
      assert (a + b)[..|a + b| - 1] == a + init;
      CallsConcat(was, a, init);
      assert Calls(was, a) + (Calls(was, init) + was[b[|b| - 1]].calls)
             == Calls(was, a) + Calls(was, init) + was[b[|b| - 1]].calls;
    }
  }

  ghost predicate Distinct(s: seq<Signal>) {
    forall i, j :: 0 <= i < j < |s| ==> s[i] != s[j]
  }

  /** The calls of a signal are for that signal. */
  ghost predicate Aimed(was: Picture) {
    forall s, k :: s in was && k in was[s].calls ==> k.target == s
  }

  /** Every listener of every signal aborted is called as often as it was registered. */
  lemma {:induction false} CalledOnce(was: Picture, order: seq<Signal>, c: Call)
    requires Distinct(order) && (forall s :: s in order ==> s in was) && Aimed(was)
    ensures multiset(Calls(was, order))[c] == if c.target in order then multiset(was[c.target].calls)[c] else 0
  {
    if order != [] {
      var init, last := order[..|order| - 1], order[|order| - 1];
      assert order == init + [last];
      CalledOnce(was, init, c);
      assert multiset(Calls(was, order)) == multiset(Calls(was, init)) + multiset(was[last].calls);
      if c.target != last {
        assert c !in was[last].calls;
        assert multiset(was[last].calls)[c] == 0;
      }
    }
  }

  lemma Joined(a: seq<Signal>, b: seq<Signal>)
    requires Distinct(a) && Distinct(b) && forall s :: s in b ==> s !in a
    ensures Distinct(a + b)
    ensures (set s | s in a + b) == (set s | s in a) + (set s | s in b)
  {
    forall i, j | 0 <= i < j < |a + b| ensures (a + b)[i] != (a + b)[j] {
      if i < |a| <= j { assert (a + b)[j] in b; }
    }
  }

  ghost function ListenerCalls(target: Signal, listeners: seq<Listener>): seq<Call> {
    if listeners == [] then []
    else ListenerCalls(target, listeners[..|listeners| - 1]) + [Call(target, listeners[|listeners| - 1])]
  }

  lemma SettledOpening(was: Picture, aborted: set<Signal>, s: Signal, open: set<Signal>)
    requires s in was && aborted <= was.Keys && Settled(was, aborted, open)
    ensures Settled(was, aborted + {s}, open + {s})
  {}

  lemma SettledClosing(was: Picture, aborted: set<Signal>, s: Signal, open: set<Signal>)
    requires s in was && aborted <= was.Keys && Settled(was, aborted, open + {s})
    requires forall d :: d in was[s].dependents ==> d in aborted
    ensures Settled(was, aborted, open)
  {}

  lemma AbortedExactly(was: Picture, before: set<Signal>, after: set<Signal>, s: Signal)
    requires before <= after <= was.Keys && Settled(was, after, {}) && s in after
    requires forall t :: t in after - before ==> Reaches(was, s, t)
    ensures after == before + (set t | t in was && Reaches(was, s, t))
  {
    forall t | t in was && Reaches(was, s, t) ensures t in after {
      var n: nat :| ReachesIn(was, s, t, n);
      SettledReaches(was, after, s, t, n);
    }
  }

  lemma OneSignal(was: Picture, s: Signal)
    requires s in was
    ensures Distinct([]) && Distinct([s]) && Calls(was, []) == [] && Calls(was, [s]) == was[s].calls
    ensures Reaches(was, s, s)
  {
    ReachesSelf(was, s);
    assert [s][..0] == [];
    assert [] + was[s].calls == was[s].calls;
  }

  // ---------- signals ----------

  class Signal {
    var aborted: bool
    var reason: Option<Reason>
    var onabort: Option<Listener>
    var listeners: seq<Listener>
    var dependents: seq<Signal>

    constructor ()
      ensures !aborted && reason == None && onabort == None && listeners == [] && dependents == []
    {
      aborted, reason, onabort, listeners, dependents := false, None, None, [], [];
    }

    /** The calls an abort of this signal makes: onabort first, then the listeners in order. */
    ghost function OwnCalls(): seq<Call>
      reads this`onabort, this`listeners
    {
      (if onabort.Some? then [Call(this, onabort.value)] else []) + ListenerCalls(this, listeners)
    }

    /** abort. `was` pictures the signals there are, `open` those an abort under way is still
        passing on; `order` lists the signals this abort reaches first. */
    method Abort(given: Option<Reason>, ghost was: Picture, ghost open: set<Signal>)
      returns (calls: seq<Call>, ghost order: seq<Signal>)
      requires this in was && Closed(was) && Pictured(was)
      requires open <= Aborted(was.Keys) && Settled(was, Aborted(was.Keys), open)
      modifies was.Keys`aborted, was.Keys`reason, was.Keys`listeners
      ensures Pictured(was) && aborted
      ensures Distinct(order) && forall s :: s in order ==>
              s in was && s !in old(Aborted(was.Keys)) && Reaches(was, this, s)
      ensures Aborted(was.Keys) == old(Aborted(was.Keys)) + (set s | s in order)
      ensures Settled(was, Aborted(was.Keys), open)
      ensures forall s :: s in order ==> s.reason == Some(Chosen(given)) && s.listeners == []
      ensures forall s :: s in was && s !in order ==> s.reason == old(s.reason) && s.listeners == old(s.listeners)
      ensures calls == Calls(was, order)
      ensures open == {} ==> Aborted(was.Keys) == old(Aborted(was.Keys)) + (set s | s in was && Reaches(was, this, s))
      decreases was.Keys - Aborted(was.Keys)
    {
      hide Calls, Reaches, Distinct, Settled, Pictured;
      calls, order := [], [];
      OneSignal(was, this);
      if aborted {
        if open == {} { AbortedExactly(was, Aborted(was.Keys), Aborted(was.Keys), this); }
        return;
      }
      var why := Chosen(given);
      calls := Announce(why, was);
      order := [this];
      ghost var gone := Aborted(was.Keys);
      SettledOpening(was, old(Aborted(was.Keys)), this, open);
      for i := 0 to |dependents|
        invariant Pictured(was) && gone == Aborted(was.Keys) && this in gone && reason == Some(why)
        invariant Distinct(order) && forall s :: s in order ==>
                  s in was && s !in old(Aborted(was.Keys)) && Reaches(was, this, s)
        invariant this in order && gone == old(Aborted(was.Keys)) + (set s | s in order)
        invariant Settled(was, gone, open + {this})
        invariant forall d :: d in dependents[..i] ==> d in gone
        invariant forall s :: s in order ==> s.reason == Some(why) && s.listeners == []
        invariant forall s :: s in was && s !in order ==> s.reason == old(s.reason) && s.listeners == old(s.listeners)
        invariant calls == Calls(was, order)
      {
        var d := dependents[i];
        assert dependents[..i + 1] == dependents[..i] + [d];
        var more, reached := d.Abort(Some(why), was, open + {this});
        forall s | s in reached ensures Reaches(was, this, s) {
          ReachesStep(was, this, d, s);
        }
        CallsConcat(was, order, reached);
        Joined(order, reached);
        calls, order, gone := calls + more, order + reached, Aborted(was.Keys);
      }
      assert dependents[..|dependents|] == dependents;
      SettledClosing(was, gone, this, open);
      if open == {} { AbortedExactly(was, old(Aborted(was.Keys)), gone, this); }
    }

    /** addEventListener: a listener added after the abort is called at once. */
    method AddListener(l: Listener) returns (calls: seq<Call>)
      modifies this`listeners
      ensures aborted ==> calls == [Call(this, l)] && listeners == old(listeners)
      ensures !aborted ==> calls == [] && OwnCalls() == old(OwnCalls()) + [Call(this, l)]
    {
      if aborted {
        return [Call(this, l)];
      }
      calls := [];
      assert (listeners + [l])[..|listeners|] == listeners;
      listeners := listeners + [l];
    }

    /** removeEventListener: the first registration goes. */
    method RemoveListener(l: Listener)
      modifies this`listeners
      ensures l !in old(listeners) ==> listeners == old(listeners)
      ensures l in old(listeners) ==>
                exists i :: 0 <= i < |old(listeners)| && old(listeners)[i] == l && l !in old(listeners)[..i]
                  && listeners == old(listeners)[..i] + old(listeners)[i + 1..]
    {
      for i := 0 to |listeners|
        invariant listeners == old(listeners) && l !in listeners[..i]
      {
        if listeners[i] == l {
          listeners := listeners[..i] + listeners[i + 1..];
          return;
        }
      }
    }

    /** Marks the signal and calls its own listeners, which it forgets. */
    method Announce(why: Reason, ghost was: Picture) returns (calls: seq<Call>)
      requires this in was && Pictured(was) && !aborted
      modifies this`aborted, this`reason, this`listeners
      ensures aborted && reason == Some(why) && listeners == [] && calls == was[this].calls
      ensures Pictured(was) && Aborted(was.Keys) == old(Aborted(was.Keys)) + {this}
              && dependents == was[this].dependents
    {
      aborted := true;
      reason := Some(why);
      calls := if onabort.Some? then [Call(this, onabort.value)] else [];
      var todo := listeners;
      listeners := [];
      ghost var first := calls;
      for i := 0 to |todo|
        invariant calls == first + ListenerCalls(this, todo[..i])
      {
        calls := calls + [Call(this, todo[i])];
        assert todo[..i + 1][..i] == todo[..i];
      }
      assert todo[..|todo|] == todo;
    }
  }

  function Chosen(given: Option<Reason>): Reason {
    match given case None => Default case Some(r) => r
  }

  ghost function Aborted(all: set<Signal>): set<Signal>
    reads all`aborted
  {
    set s | s in all && s.aborted
  }

  /** The picture shows the signals as they are; of aborted ones only the dependents. */
  ghost predicate Pictured(was: Picture)
    reads was.Keys
  {
    forall s :: s in was ==> s.dependents == was[s].dependents && (!s.aborted ==> s.OwnCalls() == was[s].calls)
  }

  // ---------- the signals of a page ----------

  /** What every operation keeps: an aborted signal has a reason, and so is every signal derived
      from it aborted. */
  ghost predicate Consistent(all: set<Signal>)
    reads all
  {
    forall s :: s in all ==>
      && (forall d :: d in s.dependents ==> d in all)
      && (s.aborted ==> s.reason.Some? && forall d :: d in s.dependents ==> d.aborted)
  }

  ghost function PictureOf(all: set<Signal>): Picture
    reads all
  {
    map s | s in all :: Snapshot(s.dependents, s.OwnCalls())
  }

  lemma PictureFits(all: set<Signal>)
    requires Consistent(all)
    ensures var was := PictureOf(all);
            was.Keys == all && Closed(was) && Pictured(was) && Settled(was, Aborted(all), {}) && Aimed(was)
    ensures forall s :: s in all && s.aborted ==> s.reason.Some?
  {
    forall t | t in all ensures forall c :: c in t.OwnCalls() ==> c.target == t {
      ListenerTargets(t, t.listeners);
    }
  }

  lemma {:induction false} ListenerTargets(s: Signal, listeners: seq<Listener>)
    ensures forall c :: c in ListenerCalls(s, listeners) ==> c.target == s
  {
    if listeners != [] { ListenerTargets(s, listeners[..|listeners| - 1]); }
  }

  /** AbortController.abort, or a signal's timeout: exactly what is derived from the signal is
      aborted, with one reason; `order` is the order in which. */
  method AbortSignal(ghost all: set<Signal>, s: Signal, given: Option<Reason>)
    returns (calls: seq<Call>, ghost order: seq<Signal>)
    requires Consistent(all) && s in all
    modifies all`aborted, all`reason, all`listeners
    ensures Consistent(all)
    ensures Aborted(all) == old(Aborted(all)) + (set t | t in all && Reaches(old(PictureOf(all)), s, t))
    ensures forall t :: t in order <==> t in Aborted(all) && t !in old(Aborted(all))
    ensures forall t :: t in order ==> t.reason == Some(Chosen(given)) && t.listeners == []
    ensures forall t :: t in all && t !in order ==> t.reason == old(t.reason) && t.listeners == old(t.listeners)
    ensures Distinct(order) && (forall t :: t in order ==> t in all) && calls == Calls(old(PictureOf(all)), order)
    ensures forall c: Call :: multiset(calls)[c] ==
              if c.target in order then multiset(old(PictureOf(all))[c.target].calls)[c] else 0
  {
    ghost var was := PictureOf(all);
    PictureFits(all);
    hide Calls, Reaches, Distinct, Settled, Pictured, Closed, Consistent;
    calls, order := s.Abort(given, was, {});
    forall t | t in all && t.aborted ensures t.reason.Some? {
      assert t in Aborted(was.Keys);
      if t !in order { assert t in old(Aborted(all)); }
    }
    StaysConsistent(all, was);
    CalledAll(was, order);
  }

  lemma CalledAll(was: Picture, order: seq<Signal>)
    requires Distinct(order) && (forall s :: s in order ==> s in was) && Aimed(was)
    ensures forall c: Call ::
              multiset(Calls(was, order))[c] == if c.target in order then multiset(was[c.target].calls)[c] else 0
  {
    forall c: Call
      ensures multiset(Calls(was, order))[c] == if c.target in order then multiset(was[c.target].calls)[c] else 0
    {
      CalledOnce(was, order, c);
    }
  }

  lemma StaysConsistent(all: set<Signal>, was: Picture)
    requires was.Keys == all && Closed(was) && Pictured(was) && Settled(was, Aborted(all), {})
    requires forall t :: t in all && t.aborted ==> t.reason.Some?
    ensures Consistent(all)
  {
    hide Signal.OwnCalls;
    forall t, d | t in all && t.aborted && d in t.dependents ensures d.aborted {
      assert d in was[t].dependents && d in Aborted(all);
    }
  }

  /** Only copies of `out` were added. */
  ghost predicate OnlyAdded(before: seq<Signal>, after: seq<Signal>, out: Signal) {
    before <= after && forall k :: |before| <= k < |after| ==> after[k] == out
  }

  lemma AddsNone(s: seq<Signal>, out: Signal)
    ensures OnlyAdded(s, s, out)
  {}

  lemma AddsOne(before: seq<Signal>, after: seq<Signal>, out: Signal)
    requires OnlyAdded(before, after, out)
    ensures OnlyAdded(before, after + [out], out)
  {}

  ghost predicate FirstAborted(sources: seq<Option<Signal>>, i: int)
    requires 0 <= i < |sources|
    reads set j | 0 <= j < |sources| && sources[j].Some? :: sources[j].value
  {
    && sources[i].Some? && sources[i].value.aborted
    && forall j :: 0 <= j < i && sources[j].Some? ==> !sources[j].value.aborted
  }

  /** The abort of a signal nothing is derived from and nobody listens to. */
  method AbortNew(s: Signal, given: Option<Reason>)
    requires !s.aborted && s.dependents == [] && s.listeners == [] && s.onabort == None
    modifies s`aborted, s`reason, s`listeners
    ensures s.aborted && s.reason == Some(Chosen(given)) && s.listeners == []
  {
    ghost var was: Picture := map[s := Snapshot([], [])];
    hide Reaches, Calls;
    var calls, order := s.Abort(given, was, {});
    assert s in Aborted(was.Keys);
  }

  /** AbortSignal.any: derived from its sources, unless one is aborted already; then it is aborted
      with the reason of the first such. Values that are not signals are skipped. */
  method Any(ghost all: set<Signal>, sources: seq<Option<Signal>>) returns (out: Signal)
    requires Consistent(all) && forall i :: 0 <= i < |sources| && sources[i].Some? ==> sources[i].value in all
    modifies all`dependents
    ensures fresh(out) && Consistent(all + {out}) && out.dependents == [] && out.listeners == []
    ensures out.aborted <==> exists i :: 0 <= i < |sources| && FirstAborted(sources, i)
    ensures forall i :: 0 <= i < |sources| && FirstAborted(sources, i) ==> out.reason == sources[i].value.reason
    ensures !out.aborted ==> forall i :: 0 <= i < |sources| && sources[i].Some? ==> out in sources[i].value.dependents
    ensures forall s :: s in all ==> OnlyAdded(old(s.dependents), s.dependents, out)
    ensures forall s :: s in all && Some(s) !in sources ==> s.dependents == old(s.dependents)
  {
    hide OnlyAdded;
    out := new Signal();
    forall s | s in all ensures OnlyAdded(s.dependents, s.dependents, out) { AddsNone(s.dependents, out); }
    for i := 0 to |sources|
      invariant fresh(out) && !out.aborted && out.dependents == [] && out.listeners == [] && out.onabort == None
      invariant Consistent(all + {out})
      invariant forall j :: 0 <= j < i && sources[j].Some? ==>
                !sources[j].value.aborted && out in sources[j].value.dependents
      invariant forall s :: s in all ==> OnlyAdded(old(s.dependents), s.dependents, out)
      invariant forall s :: s in all && Some(s) !in sources ==> s.dependents == old(s.dependents)
    {
      if sources[i].Some? {
        var src := sources[i].value;
        if src.aborted {
          assert FirstAborted(sources, i);
          AbortNew(out, src.reason);
          assert FirstAborted(sources, i);
          return;
        }
        AddsOne(old(src.dependents), src.dependents, out);
        src.dependents := src.dependents + [out];
      }
    }
  }
}
