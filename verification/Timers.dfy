/** The timer queue of a page: setTimeout, setInterval, deferred host tasks and the loop that
    runs them (browser/js_env.go). Time is an abstract clock that never goes back. */
module Timers {
  import opened Wrappers

  /** A callback as the queue sees it: it sets and clears timers, and ends, perhaps by a panic. */
  datatype Script =
    | End(panics: bool)
    | SetTimer(delay: int, interval: bool, callback: Script, next: Script)
    | Defer(delay: int, task: Script, next: Script)
    | ClearTimer(id: Option<int>, next: Script)

  datatype Timer = Timer(id: int, due: int, repeat: int, cleared: bool, callback: Script)

  // ---------- runs ----------

  /** What happens to the queue, with the time. A firing names the timer by its place in the queue,
      which never shrinks. */
  datatype Event =
    | Set(delay: int, interval: bool, callback: Script, at: int)
    | Deferred(delay: int, task: Script, at: int)
    | Clear(id: int)
    | Fire(k: nat, due: int, at: int)
    | Done(k: nat, panicked: bool, at: int)

  type Log = seq<Event>

  /** The queue, the last id given out, the clock and the timer whose callback is running. */
  datatype State = State(timers: seq<Timer>, ids: int, clock: int, running: Option<nat>)

  function Wait(delay: int): (d: int)
    ensures d >= 0
  {
    if delay < 0 then 0 else delay
  }

  function Cleared(timers: seq<Timer>, id: int): (r: seq<Timer>)
    ensures |r| == |timers|
    ensures forall i :: 0 <= i < |r| ==> r[i] == if timers[i].id == id then timers[i].(cleared := true) else timers[i]
  {
    seq(|timers|, i requires 0 <= i < |timers| => if timers[i].id == id then timers[i].(cleared := true) else timers[i])
  }

  /** A timer after its callback: an interval is due again, anything else is done with. */
  function Finished(t: Timer, at: int): Timer {
    if t.repeat > 0 then t.(due := at + t.repeat) else t.(cleared := true)
  }

  function Apply(s: State, e: Event): State {
    match e
    case Set(delay, interval, f, at) =>
      State(s.timers + [Timer(s.ids + 1, at + Wait(delay), if interval then Wait(delay) else 0, false, f)],
        s.ids + 1, at, s.running)
    case Deferred(delay, f, at) =>
      State(s.timers + [Timer(0, at + Wait(delay), 0, false, f)], s.ids, at, s.running)
    case Clear(id) => s.(timers := Cleared(s.timers, id))
    case Fire(k, _, at) => s.(clock := at, running := Some(k))
    case Done(k, panicked, at) =>
      State(if panicked || k >= |s.timers| then s.timers else s.timers[k := Finished(s.timers[k], at)], s.ids, at, None)
  }

  function After(log: Log): State {
    if log == [] then State([], 0, 0, None) else Apply(After(log[..|log| - 1]), log[|log| - 1])
  }

  /** k is due first; of timers due together it was set first. */
  predicate Earliest(timers: seq<Timer>, k: int) {
    && 0 <= k < |timers| && !timers[k].cleared
    && forall i :: 0 <= i < |timers| && !timers[i].cleared ==>
         timers[k].due < timers[i].due || (timers[k].due == timers[i].due && k <= i)
  }

  /** Time does not go back, and what fires is the earliest timer, when it is due, and alone. */
  predicate Allowed(s: State, e: Event) {
    match e
    case Set(_, _, _, at) => s.clock <= at
    case Deferred(_, _, at) => s.clock <= at
    case Clear(_) => true
    case Fire(k, due, at) => s.clock <= at && s.running == None && Earliest(s.timers, k) && due == s.timers[k].due <= at
    case Done(k, _, at) => s.clock <= at && s.running == Some(k) && k < |s.timers|
  }

  predicate Good(log: Log) {
    log == [] || (Good(log[..|log| - 1]) && Allowed(After(log[..|log| - 1]), log[|log| - 1]))
  }

  // ---------- what holds of every run ----------

  lemma {:induction false} PrefixGood(log: Log, i: nat)
    requires Good(log) && i <= |log|
    ensures Good(log[..i])
    ensures i < |log| ==> Allowed(After(log[..i]), log[i]) && After(log[..i + 1]) == Apply(After(log[..i]), log[i])
    decreases |log| - i
  {
    if i == |log| {
      assert log[..i] == log;
    } else {
      PrefixGood(log, i + 1);
      assert log[..i + 1][..i] == log[..i];
    }
  }

  lemma Appended(log: Log, e: Event)
    ensures After(log + [e]) == Apply(After(log), e)
    ensures Good(log + [e]) <==> Good(log) && Allowed(After(log), e)
  {
    assert (log + [e])[..|log|] == log;
  }

  /** The queue does not shrink and the clock does not go back. */
  lemma {:induction false} Grows(log: Log, i: nat, j: nat)
    requires Good(log) && i <= j <= |log|
    ensures |After(log[..i]).timers| <= |After(log[..j]).timers| && After(log[..i]).clock <= After(log[..j]).clock
    ensures After(log[..i]).ids <= After(log[..j]).ids
    decreases j
  {
    if i < j {
      Grows(log, i, j - 1);
      PrefixGood(log, j - 1);
    }
  }

  /** What a timer keeps: its id and period, being cleared, and never an earlier due time. */
  lemma {:induction false} Keeps(log: Log, i: nat, j: nat, k: nat)
    requires Good(log) && i <= j <= |log| && k < |After(log[..i]).timers|
    ensures k < |After(log[..j]).timers|
    ensures var t, u := After(log[..i]).timers[k], After(log[..j]).timers[k];
            u.id == t.id && u.repeat == t.repeat && (t.cleared ==> u.cleared)
    decreases j
  {
    hide Good, After, Apply, Allowed;
    if i < j {
      Keeps(log, i, j - 1, k);
      PrefixGood(log, j - 1);
      StepKeeps(After(log[..j - 1]), log[j - 1], k);
    }
  }

  lemma StepKeeps(s: State, e: Event, k: nat)
    requires Allowed(s, e) && k < |s.timers|
    ensures k < |Apply(s, e).timers|
    ensures var t, u := s.timers[k], Apply(s, e).timers[k];
            u.id == t.id && u.repeat == t.repeat && (t.cleared ==> u.cleared)
  {}

  predicate NoneBefore(s: State, bound: int) {
    bound <= s.clock && forall k :: 0 <= k < |s.timers| && !s.timers[k].cleared ==> bound <= s.timers[k].due
  }

  lemma StepKeepsBound(s: State, e: Event, bound: int)
    requires NoneBefore(s, bound) && Allowed(s, e)
    ensures NoneBefore(Apply(s, e), bound)
  {
    var t := Apply(s, e).timers;
    forall k | 0 <= k < |t| && !t[k].cleared ensures bound <= t[k].due {
      if k < |s.timers| { assert !s.timers[k].cleared; }
    }
  }

  /** From a firing on, every timer left is due no earlier, and the clock is past it. */
  lemma {:induction false} NoneDueBefore(log: Log, i: nat, j: nat)
    requires Good(log) && i < j <= |log| && log[i].Fire?
    ensures NoneBefore(After(log[..j]), log[i].due)
    decreases j
  {
    PrefixGood(log, j - 1);
    if i + 1 < j {
      NoneDueBefore(log, i, j - 1);
      StepKeepsBound(After(log[..j - 1]), log[j - 1], log[i].due);
    }
  }

  /** Over a whole run, due times of fired timers never decrease and no timer fires early. */
  lemma FiringOrder(log: Log, i: nat, j: nat)
    requires Good(log) && i < |log| && log[i].Fire?
    ensures log[i].due <= log[i].at
    ensures i < j < |log| && log[j].Fire? ==> log[i].due <= log[j].due
  {
    PrefixGood(log, i);
    if i < j < |log| && log[j].Fire? {
      PrefixGood(log, j);
      NoneDueBefore(log, i, j);
    }
  }

  /** A cleared timer never fires: no timer there was at a clear, with that id, fires after it. */
  lemma ClearedNeverFires(log: Log, i: nat, j: nat)
    requires Good(log) && i < j < |log| && log[i].Clear? && log[j].Fire?
    requires log[j].k < |After(log[..i]).timers|
    ensures After(log[..i]).timers[log[j].k].id != log[i].id
  {
    PrefixGood(log, i);
    PrefixGood(log, j);
    Keeps(log, i + 1, j, log[j].k);
  }

  /** The timer whose callback runs has fired since it was set, and was due. */
  lemma {:induction false} RunningHasFired(log: Log)
    requires Good(log) && After(log).running.Some?
    ensures var s := After(log); s.running.value < |s.timers| && s.timers[s.running.value].due <= s.clock
    ensures exists i :: 0 <= i < |log| && log[i].Fire? && log[i].k == After(log).running.value
  {
    var init := log[..|log| - 1];
    assert log[..|log|] == log;
    PrefixGood(log, |log| - 1);
    if log[|log| - 1].Fire? {
    } else {
      RunningHasFired(init);
      var i :| 0 <= i < |init| && init[i].Fire? && init[i].k == After(init).running.value;
      assert log[i] == init[i];
    }
  }

  lemma {:induction false} RunsUntilDone(log: Log, i: nat, j: nat)
    requires Good(log) && i < j <= |log| && log[i].Fire?
    ensures After(log[..j]).running == Some(log[i].k) || exists m :: i < m < j && log[m].Done? && log[m].k == log[i].k
    decreases j
  {
    PrefixGood(log, j - 1);
    if i + 1 < j { RunsUntilDone(log, i, j - 1); }
  }

  /** A timer without a period (an interval of 0 is one) fires a second time only if its callback
      panicked. */
  lemma OneShotOnce(log: Log, i: nat, j: nat)
    requires Good(log) && i < j < |log| && log[i].Fire? && log[j].Fire? && log[i].k == log[j].k
    requires log[i].k < |After(log[..i]).timers| && After(log[..i]).timers[log[i].k].repeat <= 0
    ensures exists m :: i < m < j && log[m].Done? && log[m].k == log[i].k && log[m].panicked
  {
    hide After, Good, Apply;
    PrefixGood(log, j);
    RunsUntilDone(log, i, j);
    var k := log[i].k;
    var m :| i < m < j && log[m].Done? && log[m].k == k;
    PrefixGood(log, m);
    Keeps(log, i, m, k);
    if !log[m].panicked {
      DoneClears(After(log[..m]), log[m]);
      Keeps(log, m + 1, j, k);
    }
  }

  lemma DoneClears(s: State, e: Event)
    requires e.Done? && !e.panicked && e.k < |s.timers| && s.timers[e.k].repeat <= 0
    ensures e.k < |Apply(s, e).timers| && Apply(s, e).timers[e.k].cleared
  {}

  // ---------- after a panic ----------

  /** k was due, and comes before every other timer, unless it has been cleared. */
  predicate Leads(s: State, k: nat) {
    k < |s.timers| && s.timers[k].due <= s.clock && (s.timers[k].cleared || Earliest(s.timers, k))
  }

  /** Whatever a callback or the page does keeps the timer ahead, until another callback ends. */
  lemma StepKeepsLead(s: State, e: Event, k: nat)
    requires Leads(s, k) && Allowed(s, e) && (e.Done? ==> e.k == k && e.panicked)
    ensures Leads(Apply(s, e), k)
  {}

  lemma {:induction false} RunningLeads(log: Log)
    requires Good(log) && After(log).running.Some?
    ensures Leads(After(log), After(log).running.value)
  {
    var init := log[..|log| - 1];
    assert log[..|log|] == log;
    PrefixGood(log, |log| - 1);
    if !log[|log| - 1].Fire? {
      RunningLeads(init);
      StepKeepsLead(After(init), log[|log| - 1], After(init).running.value);
    }
  }

  lemma {:induction false} LeadsUntilNext(log: Log, m: nat, j: nat)
    requires Good(log) && m < j <= |log| && log[m].Done? && log[m].panicked
    requires forall i :: m < i < j ==> !log[i].Fire?
    ensures Leads(After(log[..j]), log[m].k) && After(log[..j]).running == None
    decreases j
  {
    hide After, Good, Leads, Earliest;
    PrefixGood(log, j - 1);
    if m + 1 < j {
      LeadsUntilNext(log, m, j - 1);
    } else {
      RunningLeads(log[..m]);
    }
    StepKeepsLead(After(log[..j - 1]), log[j - 1], log[m].k);
  }

  /** The timer of a callback that panicked fires next, before any other, unless it is cleared. */
  lemma PanickedFiresNext(log: Log, m: nat, j: nat)
    requires Good(log) && m < j < |log| && log[m].Done? && log[m].panicked && log[j].Fire?
    requires forall i :: m < i < j ==> !log[i].Fire?
    ensures log[m].k < |After(log[..j]).timers|
    ensures log[j].k == log[m].k || After(log[..j]).timers[log[m].k].cleared
  {
    LeadsUntilNext(log, m, j);
    PrefixGood(log, j);
  }

  predicate FiresAt(log: Log, i: int, k: nat) {
    0 <= i < |log| && log[i].Fire? && log[i].k == k
  }

  predicate PanicsAt(log: Log, m: int, k: nat) {
    0 <= m < |log| && log[m].Done? && log[m].k == k && log[m].panicked
  }

  /** Some timer fires at j, while k is not cleared. */
  predicate PassedAt(log: Log, j: int, k: nat) {
    0 <= j < |log| && log[j].Fire? && k < |After(log[..j]).timers| && !After(log[..j]).timers[k].cleared
  }

  lemma {:induction false} NextFire(log: Log, m: nat, j: nat) returns (n: nat)
    requires m < j < |log| && log[j].Fire?
    ensures m < n <= j && log[n].Fire? && forall i :: m < i < n ==> !log[i].Fire?
    decreases j
  {
    if i :| m < i < j && log[i].Fire? { n := NextFire(log, m, i); } else { n := j; }
  }

  /** A timer without a period fires more than once if and only if its callback panics and
      anything at all fires afterwards while it is not cleared. */
  lemma FiresAgainWhen(log: Log, k: nat)
    requires Good(log) && k < |After(log).timers| && After(log).timers[k].repeat <= 0
    ensures (exists i, j :: i < j && FiresAt(log, i, k) && FiresAt(log, j, k))
            <==> exists m, j :: m < j && PanicsAt(log, m, k) && PassedAt(log, j, k)
  {
    if i, j :| i < j && FiresAt(log, i, k) && FiresAt(log, j, k) { TwiceMeansPanic(log, k, i, j); }
    if m, j :| m < j && PanicsAt(log, m, k) && PassedAt(log, j, k) { PanicMeansTwice(log, k, m, j); }
  }

  lemma TwiceMeansPanic(log: Log, k: nat, i: int, j: int)
    requires Good(log) && k < |After(log).timers| && After(log).timers[k].repeat <= 0
    requires i < j && FiresAt(log, i, k) && FiresAt(log, j, k)
    ensures exists m, j :: m < j && PanicsAt(log, m, k) && PassedAt(log, j, k)
  {
    hide After;
    assert log[..|log|] == log;
    PrefixGood(log, i);
    PrefixGood(log, j);
    Keeps(log, i, |log|, k);
    OneShotOnce(log, i, j);
    var m :| i < m < j && log[m].Done? && log[m].k == log[i].k && log[m].panicked;
    assert PanicsAt(log, m, k) && PassedAt(log, j, k);
  }

  lemma PanicMeansTwice(log: Log, k: nat, m: int, j: int)
    requires Good(log) && m < j && PanicsAt(log, m, k) && PassedAt(log, j, k)
    ensures exists i, j :: i < j && FiresAt(log, i, k) && FiresAt(log, j, k)
  {
    hide After;
    PrefixGood(log, m);
    RunningHasFired(log[..m]);
    var i :| 0 <= i < m && log[..m][i].Fire? && log[..m][i].k == k;
    var n := NextFire(log, m, j);
    PanickedFiresNext(log, m, n);
    Keeps(log, n, j, k);
    assert FiresAt(log, i, k) && FiresAt(log, n, k);
  }

  lemma StepKeepsDue(s: State, e: Event, k: nat)
    requires Allowed(s, e) && k < |s.timers|
    requires s.running.Some? ==> s.running.value < |s.timers| && s.timers[s.running.value].due <= s.clock
    ensures k < |Apply(s, e).timers| && s.timers[k].due <= Apply(s, e).timers[k].due
  {}

  /** A timer is never due earlier than it was. */
  lemma {:induction false} DueGrows(log: Log, i: nat, j: nat, k: nat)
    requires Good(log) && i <= j <= |log| && k < |After(log[..i]).timers|
    ensures k < |After(log[..j]).timers| && After(log[..i]).timers[k].due <= After(log[..j]).timers[k].due
    decreases j
  {
    hide After, Good, Apply, Allowed;
    if i < j {
      DueGrows(log, i, j - 1, k);
      PrefixGood(log, j - 1);
      var s := After(log[..j - 1]);
      if s.running.Some? { RunningHasFired(log[..j - 1]); }
      StepKeepsDue(s, log[j - 1], k);
    }
  }

  predicate Creates(e: Event) {
    e.Set? || e.Deferred?
  }

  /** Until a timer fires it is due when it was set to be. */
  lemma {:induction false} UnfiredKeepsDue(log: Log, p: nat, j: nat)
    requires Good(log) && p < j <= |log| && Creates(log[p])
    requires var a := |After(log[..p]).timers|; forall i :: 0 <= i < j && log[i].Fire? ==> log[i].k != a
    ensures var a := |After(log[..p]).timers|;
            a < |After(log[..j]).timers| && After(log[..j]).timers[a].due == log[p].at + Wait(log[p].delay)
    decreases j
  {
    hide After, Good;
    PrefixGood(log, j - 1);
    if p + 1 < j {
      UnfiredKeepsDue(log, p, j - 1);
      if log[j - 1].Done? {
        RunningHasFired(log[..j - 1]);
        var i :| 0 <= i < j - 1 && log[..j - 1][i].Fire? && log[..j - 1][i].k == log[j - 1].k;
        assert log[i] == log[..j - 1][i];
      }
    }
  }

  /** Timers set with equal delays, or the first with the smaller, fire in the order they were set:
      when the second fires, the first has fired or been cleared. */
  lemma CallOrder(log: Log, p: nat, q: nat, m: nat)
    requires Good(log) && p < q < m < |log| && Creates(log[p]) && Creates(log[q])
             && Wait(log[p].delay) <= Wait(log[q].delay)
    requires log[m].Fire? && log[m].k == |After(log[..q]).timers|
    ensures var a := |After(log[..p]).timers|;
            || (exists i :: p < i < m && log[i].Fire? && log[i].k == a)
            || (a < |After(log[..m]).timers| && After(log[..m]).timers[a].cleared)
  {
    hide After, Good;
    var a, b := |After(log[..p]).timers|, log[m].k;
    PrefixGood(log, p);
    PrefixGood(log, q);
    PrefixGood(log, m);
    Grows(log, p + 1, q);
    DueGrows(log, q + 1, m, b);
    if forall i :: p < i < m && log[i].Fire? ==> log[i].k != a {
      forall i | 0 <= i < m && log[i].Fire? ensures log[i].k != a {
        if i <= p { FiresExisting(log, i, p); }
      }
      UnfiredKeepsDue(log, p, m);
    }
  }

  lemma FiresExisting(log: Log, i: nat, p: nat)
    requires Good(log) && i <= p < |log| && log[i].Fire?
    ensures log[i].k < |After(log[..p]).timers|
  {
    PrefixGood(log, i);
    Grows(log, i, p);
  }

  /** Ids given out are positive and all different; deferred tasks have the id 0. */
  lemma {:induction false} Ids(log: Log, i: nat, j: nat)
    requires Good(log) && i < |After(log).timers| && j < |After(log).timers|
    ensures var s := After(log);
            && 0 <= s.timers[i].id <= s.ids
            && (i != j && s.timers[i].id == s.timers[j].id ==> s.timers[i].id == 0)
  {
    if log != [] {
      var init := log[..|log| - 1];
      assert log[..|log|] == log;
      PrefixGood(log, |log| - 1);
      var n := |After(init).timers|;
      IdsNotNegative(init);
      if i < n && j < n { Ids(init, i, j); }
      else if i < n { Ids(init, i, i); }
      else if j < n { Ids(init, j, j); }
    }
  }

  lemma {:induction false} IdsNotNegative(log: Log)
    ensures After(log).ids >= 0
  {
    if log != [] { IdsNotNegative(log[..|log| - 1]); }
  }

  /** clearTimeout of an id that was given out clears that timer alone. But clearTimeout(0), an id
      no page was given, clears every deferred task of the host. */
  lemma ClearHits(log: Log, id: int, i: nat)
    requires Good(log) && i < |After(log).timers|
    ensures var s, t := After(log), After(log + [Clear(id)]);
            && |t.timers| == |s.timers|
            && (s.timers[i].id == id <==> t.timers[i] != s.timers[i] || (s.timers[i].cleared && s.timers[i].id == id))
            && (id > 0 && s.timers[i].id == id ==> forall j :: 0 <= j < |s.timers| && j != i ==>
               t.timers[j] == s.timers[j])
            && (id == 0 ==> forall j :: 0 <= j < |s.timers| && s.timers[j].id == 0 ==> t.timers[j].cleared)
  {
    Appended(log, Clear(id));
    var s := After(log);
    forall j | 0 <= j < |s.timers| && j != i && id > 0 && s.timers[i].id == id ensures s.timers[j].id != id {
      Ids(log, i, j);
    }
  }

  // ---------- the queue ----------

  /** jsTimer. */
  class PageTimer {
    const id: int
    const repeat: int
    const callback: Script
    var due: int
    var cleared: bool

    constructor (id: int, due: int, repeat: int, callback: Script)
      ensures this.id == id && this.due == due && this.repeat == repeat && this.callback == callback && !cleared
    {
      this.id, this.due, this.repeat, this.callback, cleared := id, due, repeat, callback, false;
    }

    function Record(): Timer
      reads this
    {
      Timer(id, due, repeat, cleared, callback)
    }
  }

  class Queue {
    var timers: seq<PageTimer>
    var timerSeq: int
    var now: int
    ghost var log: Log

    ghost predicate Valid()
      reads this, timers
    {
      var s := After(log);
      && Good(log) && timerSeq == s.ids && s.clock <= now
      && |timers| == |s.timers|
      && (forall i :: 0 <= i < |timers| ==> timers[i].Record() == s.timers[i])
      && (forall i, j :: 0 <= i < j < |timers| ==> timers[i] != timers[j])
    }

    ghost function Running(): Option<nat>
      reads this
    {
      After(log).running
    }

    constructor ()
      ensures Valid() && log == []
    {
      timers, timerSeq, now, log := [], 0, 0, [];
    }

    /** Time passes. */
    method Pass(until: int)
      requires Valid()
      modifies this`now
      ensures Valid() && now >= old(now) && now >= until
    {
      var d: int := *;
      now := (if now < until then until else now) + Wait(d);
    }

    /** setTimeout and setInterval; without a callable argument nothing is set. */
    method AddTimer(f: Option<Script>, delay: int, interval: bool) returns (id: int)
      requires Valid()
      modifies this
      ensures Valid() && Running() == old(Running()) && id == timerSeq && now >= old(now)
      ensures f.None? ==> log == old(log) && timers == old(timers)
      ensures f.Some? ==> log == old(log) + [Set(delay, interval, f.value, now)]
      ensures f.Some? ==> |timers| == |old(timers)| + 1 && old(timers) <= timers && fresh(timers[|old(timers)|])
    {
      hide After, Good, Wait;
      if f.None? {
        return timerSeq;
      }
      Pass(now);
      timerSeq := timerSeq + 1;
      id := timerSeq;
      var t := new PageTimer(id, now + Wait(delay), if interval then Wait(delay) else 0, f.value);
      Appended(log, Set(delay, interval, f.value, now));
      timers := timers + [t];
      log := log + [Set(delay, interval, f.value, now)];
    }

    /** scheduleDelay: a task of the host, which gets no id. */
    method ScheduleDelay(delay: int, task: Script)
      requires Valid()
      modifies this
      ensures Valid() && Running() == old(Running()) && now >= old(now)
              && log == old(log) + [Deferred(delay, task, now)]
      ensures |timers| == |old(timers)| + 1 && old(timers) <= timers && fresh(timers[|old(timers)|])
    {
      Pass(now);
      var t := new PageTimer(0, now + Wait(delay), 0, task);
      Appended(log, Deferred(delay, task, now));
      hide After, Good;
      timers := timers + [t];
      log := log + [Deferred(delay, task, now)];
    }

    /** clearTimeout; an argument that is not a number is ignored. */
    method ClearTimer(id: Option<int>)
      requires Valid()
      modifies this`log, timers
      ensures Valid() && Running() == old(Running())
              && log == if id.None? then old(log) else old(log) + [Clear(id.value)]
    {
      if id.None? {
        return;
      }
      hide After, Good, Cleared;
      Appended(log, Clear(id.value));
      ghost var s := After(log);
      for i := 0 to |timers|
        invariant log == old(log)
        invariant forall j :: 0 <= j < |timers| ==>
                    timers[j].Record() == if j < i && s.timers[j].id == id.value then s.timers[j].(cleared := true)
                      else s.timers[j]
      {
        if timers[i].id == id.value {
          timers[i].cleared := true;
        }
      }
      log := log + [Clear(id.value)];
    }

    /** Runs a callback, with the mutation observers it wakes. */
    method RunScript(s: Script) returns (panics: bool, ghost events: Log)
      requires Valid()
      modifies this, timers
      ensures Valid() && now >= old(now) && Running() == old(Running())
      ensures log == old(log) + events && Performs(s, events, panics) && Firings(log) == Firings(old(log))
      ensures old(timers) <= timers
      ensures forall i :: |old(timers)| <= i < |timers| ==> fresh(timers[i])
      decreases s
    {
      hide After, Good, Valid, Firings;
      ghost var before := log;
      match s {
        case End(p) =>
          panics, events := p, [];
        case SetTimer(delay, interval, f, next) =>
          var id := AddTimer(Some(f), delay, interval);
          ghost var e := Set(delay, interval, f, now);
          panics, events := RunScript(next);
          events := [e] + events;
        case Defer(delay, f, next) =>
          ScheduleDelay(delay, f);
          ghost var e := Deferred(delay, f, now);
          panics, events := RunScript(next);
          events := [e] + events;
        case ClearTimer(id, next) =>
          ClearTimer(id);
          panics, events := RunScript(next);
          if id.Some? { events := [Clear(id.value)] + events; }
      }
      PerformsFiresNone(s, events, panics);
      FiringsConcat(before, events);
    }

    /** Runs the earliest timer's callback once it is due. If the callback panics, the timer is
        left as it is. */
    method Invoke(k: nat)
      requires Valid() && Running() == None && Earliest(After(log).timers, k) && timers[k].due <= now
      modifies this, timers
      ensures Valid() && Running() == None && now >= old(now)
      ensures exists at, events, panics ::
                Performs(old(timers[k].callback), events, panics) &&
                log == old(log) + [Fire(k, old(timers[k].due), at)] + events + [Done(k, panics, now)]
      ensures Firings(log) == Firings(old(log)) + 1
      ensures old(timers) <= timers
      ensures forall i :: |old(timers)| <= i < |timers| ==> fresh(timers[i])
    {
      assert k < |timers|;
      hide After, Good, Performs, Allowed, Earliest, Firings;
      var t := timers[k];
      ghost var before := log;
      Begin(k);
      ghost var fire := log[|before|];
      ghost var fired := log;
      var panics, events := RunScript(t.callback);
      Pass(now);
      Finish(k, panics);
      PerformsFiresNone(t.callback, events, panics);
      FiredOnce(before, fire, events, Done(k, panics, now));
    }

    ghost method Begin(k: nat)
      requires Valid() && Running() == None && Earliest(After(log).timers, k) && timers[k].due <= now
      modifies this`log
      ensures Valid() && Running() == Some(k) && log == old(log) + [Fire(k, timers[k].due, now)]
    {
      Appended(log, Fire(k, timers[k].due, now));
      log := log + [Fire(k, timers[k].due, now)];
    }

    /** What follows the callback in invokeTimer. */
    method Finish(k: nat, panics: bool)
      requires Valid() && Running() == Some(k) && k < |timers|
      modifies this`log, timers[k]
      ensures Valid() && Running() == None && log == old(log) + [Done(k, panics, now)]
    {
      Appended(log, Done(k, panics, now));
      hide After, Good;
      var t := timers[k];
      if !panics {
        if t.repeat > 0 {
          t.due := now + t.repeat;
        } else {
          t.cleared := true;
        }
      }
      log := log + [Done(k, panics, now)];
    }

    /** The earliest timer not cleared, if there is one. */
    method FindEarliest() returns (k: int)
      requires Valid()
      ensures k < 0 ==> forall i :: 0 <= i < |timers| ==> timers[i].cleared
      ensures k >= 0 ==> k < |timers| && !timers[k].cleared && Earliest(After(log).timers, k)
    {
      hide After, Good;
      k := -1;
      for i := 0 to |timers|
        invariant k < i
        invariant k < 0 ==> forall j :: 0 <= j < i ==> timers[j].cleared
        invariant k >= 0 ==> !timers[k].cleared && forall j :: 0 <= j < i && !timers[j].cleared ==>
                                timers[k].due < timers[j].due || (timers[k].due == timers[j].due && k <= j)
      {
        if !timers[i].cleared && (k < 0 || timers[i].due < timers[k].due) {
          k := i;
        }
      }
    }

    /** runTimers. `handlers` is what message handlers do when a round drains sockets and workers,
        `idle` the same for a round with no timer left, if there was a message, and `waits` whether
        such a round waits for an open socket. At most one timer fires a round. Unless the rounds
        run out, whatever is left is due after the time allowed; if they do, all but the quiet ones
        have fired a timer. */
    method RunTimers(maxRounds: nat, budget: int, handlers: nat -> Script, idle: nat -> Option<Script>,
                     waits: nat -> bool)
      returns (exhausted: bool)
      requires Valid() && Running() == None
      modifies this, timers
      ensures Valid() && Running() == None && now >= old(now) && old(log) <= log
      ensures old(timers) <= timers
      ensures !exhausted ==> forall i :: 0 <= i < |timers| && !timers[i].cleared ==> timers[i].due > old(now) + budget
      ensures Firings(log) <= Firings(old(log)) + maxRounds
      ensures exhausted ==> Firings(log) + Quiet(idle, waits, maxRounds) >= Firings(old(log)) + maxRounds
    {
      hide After, Good, Performs, Earliest, Valid, Firings;
      Pass(now);
      var deadline := now + budget;
      for round := 0 to maxRounds
        invariant Valid() && Running() == None && now >= old(now) && old(log) <= log
        invariant old(timers) <= timers
        invariant forall i :: |old(timers)| <= i < |timers| ==> fresh(timers[i])
        invariant Firings(log) <= Firings(old(log)) + round <= Firings(log) + Quiet(idle, waits, round)
      {
        var k := FindEarliest();
        if k < 0 {
          if idle(round).Some? {
            var panics, events := RunScript(idle(round).value);
          } else {
            if !waits(round) {
              return false;
            }
            Pass(now);
          }
        } else {
          if timers[k].due > now {
            if timers[k].due > deadline {
              EarliestIsLeast(k);
              return false;
            }
            Pass(timers[k].due);
          }
          Invoke(k);
          var panics, events := RunScript(handlers(round));
        }
      }
      return true;
    }

    lemma EarliestIsLeast(k: nat)
      requires Valid() && Earliest(After(log).timers, k)
      ensures k < |timers| && forall i :: 0 <= i < |timers| && !timers[i].cleared ==> timers[k].due <= timers[i].due
    {
      forall i | 0 <= i < |timers| && !timers[i].cleared ensures timers[k].due <= timers[i].due {
        assert timers[k].Record() == After(log).timers[k] && timers[i].Record() == After(log).timers[i];
      }
    }
  }

  /** How many timers have fired. */
  ghost function Firings(log: Log): nat {
    if log == [] then 0 else Firings(log[..|log| - 1]) + if log[|log| - 1].Fire? then 1 else 0
  }

  lemma {:induction false} FiringsConcat(a: Log, b: Log)
    ensures Firings(a + b) == Firings(a) + Firings(b)
  {
    if b == [] {
      assert a + b == a;
    } else {
      assert (a + b)[..|a + b| - 1] == a + b[..|b| - 1];
      FiringsConcat(a, b[..|b| - 1]);
    }
  }

  /** A callback fires nothing. */
  lemma {:induction false} PerformsFiresNone(s: Script, events: Log, panics: bool)
    requires Performs(s, events, panics)
    ensures Firings(events) == 0
  {
    if !s.End? {
      if s.ClearTimer? && s.id.None? {
        PerformsFiresNone(s.next, events, panics);
      } else {
        PerformsFiresNone(s.next, events[1..], panics);
        assert [events[0]] + events[1..] == events && [events[0]][..0] == [];
        FiringsConcat([events[0]], events[1..]);
        assert Firings([events[0]]) == 0;
      }
    }
  }

  lemma FiredOnce(before: Log, fire: Event, events: Log, done: Event)
    requires fire.Fire? && done.Done? && Firings(events) == 0
    ensures Firings(before + [fire] + events + [done]) == Firings(before) + 1
  {
    FiringsConcat(before + [fire] + events, [done]);
    FiringsConcat(before + [fire], events);
    FiringsConcat(before, [fire]);
    assert [fire][..0] == [] && [done][..0] == [];
  }

  /** The rounds that need not run a timer: there is a message to handle or a socket to wait for. */
  ghost function Quiet(idle: nat -> Option<Script>, waits: nat -> bool, n: nat): nat {
    if n == 0 then 0 else Quiet(idle, waits, n - 1) + if idle(n - 1).Some? || waits(n - 1) then 1 else 0
  }

  /** The events a callback causes: what it sets, defers and clears, in order. */
  ghost predicate Performs(s: Script, events: Log, panics: bool) {
    match s
    case End(p) => events == [] && panics == p
    case SetTimer(delay, interval, f, next) =>
      events != [] && events[0].Set? && events[0] == Set(delay, interval, f, events[0].at)
        && Performs(next, events[1..], panics)
    case Defer(delay, f, next) =>
      events != [] && events[0].Deferred? && events[0] == Deferred(delay, f, events[0].at)
        && Performs(next, events[1..], panics)
    case ClearTimer(id, next) =>
      if id.None? then Performs(next, events, panics)
      else events != [] && events[0] == Clear(id.value) && Performs(next, events[1..], panics)
  }
}
