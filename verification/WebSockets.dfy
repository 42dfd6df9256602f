/** A page's WebSocket: the reader goroutine against the page's own goroutine, one section under
    the lock at a time (browser/js_websocket.go). */
module WebSockets {

  datatype Message = Message(data: seq<int>, isBinary: bool)

  const OPEN := 1
  const CLOSING := 2
  const CLOSED := 3

  /** The sections under the lock: the reader's two, the two of close, and the two of drain. What
      a section decides is recorded with it. */
  datatype Step =
    | Receive(m: Message)
    | ReadError
    | CloseBegin
    | CloseEnd
    | Pop(m: Message)
    | Report(fires: bool)

  type Log = seq<Step>

  /** The fields under the lock, whether the reader is still running and whether the page is
      between the two sections of close. */
  datatype State = State(queue: seq<Message>, closed: bool, pending: bool, state: int, reading: bool, closing: bool)

  const CONNECTED := State([], false, false, OPEN, true, false)

  function Apply(s: State, e: Step): State {
    match e
    case Receive(m) => s.(queue := s.queue + [m])
    case ReadError => s.(closed := true, state := CLOSED, pending := s.pending || !s.closed, reading := false)
    case CloseBegin => s.(state := CLOSING, closing := true)
    case CloseEnd => s.(state := CLOSED, closed := true, pending := false, closing := false)
    case Pop(m) => if s.queue == [] then s else s.(queue := s.queue[1..])
    case Report(_) => s.(pending := false)
  }

  /** The reader runs until its error; the page does one thing at a time. */
  predicate Allowed(s: State, e: Step) {
    match e
    case Receive(_) => s.reading
    case ReadError => s.reading
    case CloseBegin => !s.closing
    case CloseEnd => s.closing
    case Pop(m) => !s.closing && s.queue != [] && s.queue[0] == m
    case Report(fires) => !s.closing && fires == s.pending
  }

  function After(log: Log): State {
    if log == [] then CONNECTED else Apply(After(log[..|log| - 1]), log[|log| - 1])
  }

  predicate Good(log: Log) {
    log == [] || (Good(log[..|log| - 1]) && Allowed(After(log[..|log| - 1]), log[|log| - 1]))
  }

  /** The messages read from the connection. */
  function Received(log: Log): seq<Message> {
    if log == [] then []
    else Received(log[..|log| - 1]) + match log[|log| - 1] case Receive(m) => [m] case _ => []
  }

  /** The messages handed to the page. */
  function Delivered(log: Log): seq<Message> {
    if log == [] then []
    else Delivered(log[..|log| - 1]) + match log[|log| - 1] case Pop(m) => [m] case _ => []
  }

  /** The close calls of the page; each schedules one close event. */
  function Closes(log: Log): nat {
    if log == [] then 0 else Closes(log[..|log| - 1]) + if log[|log| - 1] == CloseEnd then 1 else 0
  }

  /** The close events drain fires for the peer. */
  function Reports(log: Log): nat {
    if log == [] then 0 else Reports(log[..|log| - 1]) + if log[|log| - 1] == Report(true) then 1 else 0
  }

  lemma Appended(log: Log, e: Step)
    ensures After(log + [e]) == Apply(After(log), e)
    ensures Good(log + [e]) <==> Good(log) && Allowed(After(log), e)
  {
    assert (log + [e])[..|log|] == log;
  }

  lemma {:induction false} PrefixGood(log: Log, i: nat)
    requires Good(log) && i <= |log|
    ensures Good(log[..i])
    ensures i < |log| ==> Allowed(After(log[..i]), log[i]) && After(log[..i + 1]) == Apply(After(log[..i]), log[i])
    decreases |log| - i
  {
    if i == |log| {
      assert log[..i] == log;
    } else {
      PrefixGood(log, i + 1);
      assert log[..i + 1][..i] == log[..i];
    }
  }

  // ---------- what holds in every interleaving ----------

  /** Nothing is lost, repeated or reordered. */
  lemma {:induction false} Fifo(log: Log)
    requires Good(log)
    ensures Delivered(log) + After(log).queue == Received(log)
  {
    if log != [] {
      var init, e := log[..|log| - 1], log[|log| - 1];
      Fifo(init);
      var q := After(init).queue;
      if e.Pop? {
        assert q == [e.m] + q[1..];
      } else if e.Receive? {
        assert Delivered(init) + (q + [e.m]) == Delivered(init) + q + [e.m];
      }
    }
  }

  /** How the flags relate to the close events: an end is never forgotten, and what drain is about
      to report has not been reported by a close call. */
  lemma {:induction false} Ends(log: Log)
    requires Good(log)
    ensures var s := After(log);
            && (s.closed <==> !s.reading || Closes(log) > 0)
            && (s.pending ==> !s.reading && Closes(log) == 0 && Reports(log) == 0)
            && (s.reading ==> Reports(log) == 0)
            && (!s.reading ==> s.pending || Closes(log) + Reports(log) > 0)
            && Reports(log) <= 1
            && (!s.closing ==> (s.state == CLOSED <==> s.closed))
  {
    if log != [] { Ends(log[..|log| - 1]); }
  }

  /** The page is told of an end as soon as drain looks for it. */
  lemma EndIsReported(log: Log)
    requires Good(log) && !After(log).reading && !After(log).closing
    ensures var fires := After(log).pending;
            Good(log + [Report(fires)]) && Closes(log + [Report(fires)]) + Reports(log + [Report(fires)]) >= 1
  {
    var e := Report(After(log).pending);
    Appended(log, e);
    Ends(log + [e]);
    assert (log + [e])[..|log|] == log;
  }

  lemma {:induction false} Begun(log: Log, j: nat)
    requires Good(log) && j < |log| && (log[j] == CloseBegin || log[j] == CloseEnd)
    ensures After(log).closing || Closes(log) > 0
  {
    var init := log[..|log| - 1];
    assert log[..|log|] == log;
    PrefixGood(log, |log| - 1);
    if j < |init| {
      assert init[j] == log[j];
      Begun(init, j);
    }
  }

  /** When drain reports the end, the page has not called close yet. */
  lemma ReportedFirst(log: Log, i: nat, j: nat)
    requires Good(log) && i < |log| && log[i] == Report(true)
    requires j < |log| && (log[j] == CloseBegin || log[j] == CloseEnd)
    ensures i < j
  {
    if j < i {
      PrefixGood(log, i);
      assert log[..i][j] == log[j];
      Begun(log[..i], j);
      Ends(log[..i]);
    }
  }

  lemma {:induction false} Counted(log: Log)
    ensures Closes(log) > 0 <==> exists j :: 0 <= j < |log| && log[j] == CloseEnd
    ensures Reports(log) > 0 <==> exists j :: 0 <= j < |log| && log[j] == Report(true)
  {
    if log != [] {
      var init := log[..|log| - 1];
      Counted(init);
      assert forall j :: 0 <= j < |init| ==> init[j] == log[j];
    }
  }

  /** There is at most one close event if and only if the page calls close at most once, and not
      after drain has reported the end. */
  lemma OneCloseEvent(log: Log)
    requires Good(log)
    ensures Closes(log) + Reports(log) <= 1 <==>
            Closes(log) <= 1 && !(exists i, j :: 0 <= i < j < |log| && log[i] == Report(true) && log[j] == CloseEnd)
  {
    Ends(log);
    Counted(log);
    if Closes(log) > 0 && Reports(log) > 0 {
      var i :| 0 <= i < |log| && log[i] == Report(true);
      var j :| 0 <= j < |log| && log[j] == CloseEnd;
      ReportedFirst(log, i, j);
    }
  }

  /** Two close calls always give two events. */
  lemma SecondCloseFiresAgain(log: Log)
    requires Good(log) && !After(log).closing
    ensures var more := log + [CloseBegin] + [CloseEnd]; Good(more) && Closes(more) == Closes(log) + 1
  {
    Appended(log, CloseBegin);
    Appended(log + [CloseBegin], CloseEnd);
    assert (log + [CloseBegin])[..|log|] == log;
    var more := log + [CloseBegin] + [CloseEnd];
    assert more[..|more| - 1] == log + [CloseBegin];
  }

  /** One more step, all at once. */
  lemma Note(log: Log, e: Step)
    requires Good(log) && Allowed(After(log), e)
    ensures var more := log + [e];
            && Good(more) && After(more) == Apply(After(log), e)
            && Delivered(more) == Delivered(log) + (if e.Pop? then [e.m] else [])
            && Closes(more) == Closes(log) + (if e == CloseEnd then 1 else 0)
            && Reports(more) == Reports(log) + (if e == Report(true) then 1 else 0)
  {
    Appended(log, e);
    assert (log + [e])[..|log|] == log;
  }

  // ---------- the socket ----------

  class Socket {
    /** What the connection still has to give before it fails. */
    var wire: seq<Message>
    var queue: seq<Message>
    var closed: bool
    var closePending: bool
    var state: int
    var connected: bool
    /** The reader goroutine has not returned. */
    var reading: bool
    /** What the page's handlers were given, and the close events fired or scheduled. */
    var delivered: seq<Message>
    var closeEvents: nat
    ghost var log: Log

    ghost predicate Valid()
      reads this
    {
      && Good(log) && After(log) == State(queue, closed, closePending, state, reading, After(log).closing)
      && delivered == Delivered(log) && closeEvents == Closes(log) + Reports(log)
    }

    /** Valid, and the page is not inside close. */
    ghost predicate Idle()
      reads this
    {
      if connected then Valid() && !After(log).closing
      else
        && queue == [] && closed && !closePending && state == CLOSED && !reading && delivered == []
        && closeEvents == 1 && log == []
    }

    /** connect: a dial that fails schedules the error and the close event. */
    constructor (wire: seq<Message>, dialled: bool)
      ensures Idle() && connected == dialled && log == []
    {
      this.wire, connected, log, queue, closePending, delivered := wire, dialled, [], [], false, [];
      if dialled {
        closed, state, reading, closeEvents := false, OPEN, true, 0;
      } else {
        closed, state, reading, closeEvents := true, CLOSED, false, 1;
      }
    }

    /** One turn of readLoop. A read may fail at any time. */
    method ReadStep()
      requires Valid() && reading
      modifies this
      ensures Valid() && connected == old(connected) && After(log).closing == After(old(log)).closing
      ensures |log| == |old(log)| + 1 && old(log) <= log && (log[|old(log)|].Receive? || log[|old(log)|] == ReadError)
      ensures |wire| + |queue| <= |old(wire)| + |old(queue)|
      ensures delivered == old(delivered) && closeEvents == old(closeEvents)
      ensures |wire| < |old(wire)| || !reading
    {
      hide Good, After, Delivered, Closes, Reports;
      var fails: bool := *;
      if fails || wire == [] {
        Note(log, ReadError);
        log := log + [ReadError];
        var wasClosed := closed;
        closed, state := true, CLOSED;
        if !wasClosed {
          closePending := true;
        }
        reading := false;
      } else {
        Note(log, Receive(wire[0]));
        log := log + [Receive(wire[0])];
        queue := queue + [wire[0]];
        wire := wire[1..];
      }
    }

    /** The reader's steps that fall between two sections of the page. */
    method Interleave()
      requires Valid()
      modifies this
      ensures Valid() && connected == old(connected) && After(log).closing == After(old(log)).closing
      ensures old(log) <= log && forall i :: |old(log)| <= i < |log| ==> log[i].Receive? || log[i] == ReadError
      ensures |wire| + |queue| <= |old(wire)| + |old(queue)|
      ensures delivered == old(delivered) && closeEvents == old(closeEvents)
    {
      hide Good, After, Valid;
      var more: bool := *;
      while more && reading
        invariant Valid() && connected == old(connected) && After(log).closing == After(old(log)).closing
        invariant old(log) <= log && forall i :: |old(log)| <= i < |log| ==> log[i].Receive? || log[i] == ReadError
        invariant |wire| + |queue| <= |old(wire)| + |old(queue)|
        invariant delivered == old(delivered) && closeEvents == old(closeEvents)
        decreases reading, |wire|
      {
        ReadStep();
        more := *;
      }
    }

    /** close. The reader may come in between. */
    method Close()
      requires Idle()
      modifies this
      ensures Idle() && connected == old(connected)
      ensures !connected ==> log == old(log)
      ensures connected ==> closeEvents == old(closeEvents) + 1 && closed && !closePending && state == CLOSED
      ensures connected ==> old(log) + [CloseBegin] < log && log[|log| - 1] == CloseEnd
      ensures |wire| + |queue| <= |old(wire)| + |old(queue)| && delivered == old(delivered)
    {
      hide Good, After, Delivered, Closes, Reports;
      if !connected {
        return;
      }
      Note(log, CloseBegin);
      log := log + [CloseBegin];
      state := CLOSING;
      Interleave();
      Note(log, CloseEnd);
      state, closed, closePending := CLOSED, true, false;
      log := log + [CloseEnd];
      closeEvents := closeEvents + 1;
    }

    /** drain: hands over what is queued, in order, and then reports an end nobody asked for. The
        handlers may close the socket. */
    method Drain(closes: Message -> bool, closesAgain: bool) returns (any: bool)
      requires Idle()
      modifies this
      ensures Idle() && connected == old(connected) && old(log) <= log
      ensures old(delivered) <= delivered && !closePending
      ensures any <==> delivered != old(delivered) || closeEvents != old(closeEvents)
      ensures connected ==> exists i :: |old(log)| <= i < |log| && log[i].Report? && (log[i].fires ==> any)
    {
      hide Good, After, Delivered, Closes, Reports, Valid;
      any := false;
      if !connected {
        return;
      }
      Interleave();
      while queue != []
        invariant Idle() && connected && old(log) <= log && old(delivered) <= delivered
        invariant any <==> delivered != old(delivered)
        invariant !any ==> closeEvents == old(closeEvents)
        decreases |wire| + |queue|
      {
        any := true;
        Deliver(closes);
        Interleave();
      }
      Interleave();
      ghost var before := log;
      var fired := ReportEnd(closesAgain);
      any := any || fired;
      assert |old(log)| <= |before| && log[|before|].Report?;
    }

    /** Takes one message off the queue and hands it over. */
    method Deliver(closes: Message -> bool)
      requires Idle() && connected && queue != []
      modifies this
      ensures Idle() && connected && old(log) <= log
      ensures delivered == old(delivered) + [old(queue)[0]] && |wire| + |queue| < |old(wire)| + |old(queue)|
    {
      hide Good, After, Delivered, Closes, Reports;
      var msg := queue[0];
      Note(log, Pop(msg));
      queue := queue[1..];
      log := log + [Pop(msg)];
      delivered := delivered + [msg];
      if closes(msg) {
        Close();
      }
    }

    /** Takes the pending end and fires the close event for it. */
    method ReportEnd(closesAgain: bool) returns (fired: bool)
      requires Idle() && connected
      modifies this
      ensures Idle() && connected && old(log) + [Report(fired)] <= log && delivered == old(delivered) && !closePending
      ensures fired == old(closePending)
      ensures closeEvents == old(closeEvents) + (if !fired then 0 else if closesAgain then 2 else 1)
    {
      hide Good, After, Delivered, Closes, Reports;
      fired := closePending;
      Note(log, Report(fired));
      closePending := false;
      log := log + [Report(fired)];
      if fired {
        closeEvents := closeEvents + 1;
        if closesAgain {
          Close();
        }
      }
    }
  }
}
