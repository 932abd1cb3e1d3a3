/** Sequence numbers over many sessions, with a log service that compacts, reorders and repeats events. */
module Sessions {
  import opened Events
  import opened Replay
  import opened CacheSpec

  /** `history` is everything ever logged; `cache.log` is what the log service still delivers. */
  datatype System = System(history: seq<Event>, cache: Cache, up: bool)

  const INITIAL := System([], EMPTY, false)

  datatype Action =
    | Serve(op: Op, now: int)
    | Deliver(topic: seq<Event>)  // what the log service makes of the log
    | Crash
    | Init(at: int)               // `init(true)` of a new process

  /** The log service invents nothing, and keeps each key's highest event. */
  ghost predicate Delivers(log: seq<Event>, topic: seq<Event>) {
    && (forall e :: e in topic ==> e in log)
    && (forall k :: MaxSeq(topic, k) == MaxSeq(log, k))
  }

  ghost predicate Enabled(s: System, a: Action) {
    match a
    case Serve(_, _) => s.up
    case Deliver(topic) => Delivers(s.cache.log, topic)
    case Crash => s.up
    case Init(_) => !s.up
  }

  function Next(s: System, a: Action): System {
    match a
    case Serve(op, now) =>
      var c' := Step(s.cache.(log := []), op, now, true).0;
      System(s.history + c'.log, c'.(log := s.cache.log + c'.log), true)
    case Deliver(topic) => s.(cache := s.cache.(log := topic))
    case Crash => s.(up := false)
    case Init(at) =>
      var rs := ReplayLog(s.cache.log, at);
      s.(cache := Cache(rs.entries, rs.last, s.cache.log), up := true)
  }

  function After(actions: seq<Action>): System {
    if actions == [] then INITIAL else Next(After(actions[..|actions| - 1]), actions[|actions| - 1])
  }

  ghost predicate Possible(actions: seq<Action>) {
    forall i :: 0 <= i < |actions| ==> Enabled(After(actions[..i]), actions[i])
  }

  ghost predicate Increasing(log: seq<Event>) {
    forall i, j :: 0 <= i < j < |log| && log[i].key == log[j].key ==> 1 <= log[i].seqNo < log[j].seqNo
  }

  ghost predicate Numbered(log: seq<Event>) {
    Increasing(log) && forall e :: e in log ==> e.seqNo >= 1
  }

  ghost predicate Sound(s: System) {
    && Numbered(s.history)
    && (forall e :: e in s.cache.log ==> e in s.history)
    && (forall k :: MaxSeq(s.cache.log, k) == MaxSeq(s.history, k))
    && (s.up ==> forall k :: LastSeq(s.cache.counters, k) == MaxSeq(s.history, k))
  }

  lemma {:induction false} MaxSeqOfSum(log: seq<Event>, e: Event, k: string)
    ensures MaxSeq(log + [e], k) ==
            if e.key == k && e.seqNo > MaxSeq(log, k) then e.seqNo else MaxSeq(log, k)
  {
    assert (log + [e])[..|log|] == log;
  }

  /** A command logs nothing, or one event that is numbered one above its key's counter. */
  lemma StepLogsNextNumber(c: Cache, op: Op, now: int)
    requires c.log == []
    ensures var c' := Step(c, op, now, true).0;
            || (c'.log == [] && c'.counters == c.counters)
            || (|c'.log| == 1 && var e := c'.log[0];
                e.seqNo == LastSeq(c.counters, e.key) + 1 && c'.counters == c.counters[e.key := e.seqNo])
  {
  }

  lemma {:induction false} IncreasingGrows(log: seq<Event>, e: Event)
    requires Increasing(log) && e.seqNo == MaxSeq(log, e.key) + 1
    requires forall f :: f in log ==> f.seqNo >= 1
    ensures Increasing(log + [e])
  {
    var bound := MaxSeq(log, e.key);
    forall i | 0 <= i < |log| && log[i].key == e.key ensures 1 <= log[i].seqNo <= bound {
      assert log[i] in log;
    }
  }

  lemma {:induction false} NumberedGrows(a: seq<Event>, b: seq<Event>, counters: map<string, nat>, e: Event, k: string)
    requires LastSeq(counters, k) == MaxSeq(a, k) == MaxSeq(b, k)
    requires e.key == k ==> e.seqNo == MaxSeq(a, k) + 1
    ensures LastSeq(counters[e.key := e.seqNo], k) == MaxSeq(a + [e], k) == MaxSeq(b + [e], k)
  {
    MaxSeqOfSum(a, e, k);
    MaxSeqOfSum(b, e, k);
  }

  /** Logging one more event, numbered one above its key's counter, keeps a running system sound. */
  lemma LoggingIsSound(s: System, e: Event, entries: Entries)
    requires Sound(s) && s.up && e.seqNo == LastSeq(s.cache.counters, e.key) + 1
    ensures Sound(System(s.history + [e], Cache(entries, s.cache.counters[e.key := e.seqNo], s.cache.log + [e]), true))
  {
    var counters := s.cache.counters[e.key := e.seqNo];
    IncreasingGrows(s.history, e);
    forall k ensures MaxSeq(s.cache.log + [e], k) == MaxSeq(s.history + [e], k) == LastSeq(counters, k) {
      NumberedGrows(s.history, s.cache.log, s.cache.counters, e, k);
    }
  }

  lemma NextSound(s: System, a: Action)
    requires Sound(s) && Enabled(s, a)
    ensures Sound(Next(s, a))
  {
    match a {
      case Serve(op, now) =>
        var c := s.cache.(log := []);
        StepLogsNextNumber(c, op, now);
        var c' := Step(c, op, now, true).0;
        if c'.log == [] {
          assert s.history + [] == s.history && s.cache.log + [] == s.cache.log;
        } else {
          assert c'.log == [c'.log[0]];
          LoggingIsSound(s, c'.log[0], c'.entries);
        }
      case Deliver(topic) =>
      case Crash =>
      case Init(at) =>
        forall k ensures LastSeq(ReplayLog(s.cache.log, at).last, k) == MaxSeq(s.history, k) {
          TableIsMaxSeq(s.cache.log, k, at);
        }
    }
  }

  /**
   * Over any number of sessions the counters start at each key's highest logged number, and every
   * key's events are numbered in strictly increasing order of logging.
   */
  lemma {:induction false} SessionsAreSound(actions: seq<Action>)
    requires Possible(actions)
    ensures Sound(After(actions))
  {
    if actions == [] {
      assert forall k :: MaxSeq([], k) == 0;
    } else {
      var before := actions[..|actions| - 1];
      forall i | 0 <= i < |before| ensures before[..i] == actions[..i] { }
      SessionsAreSound(before);
      NextSound(After(before), actions[|actions| - 1]);
    }
  }

  lemma {:induction false} HistoryGrows(actions: seq<Action>, i: nat)
    requires i <= |actions|
    ensures After(actions[..i]).history <= After(actions).history
  {
    if i < |actions| {
      var before := actions[..|actions| - 1];
      assert before[..i] == actions[..i];
      HistoryGrows(before, i);
    } else {
      assert actions[..i] == actions;
    }
  }

  /** Replay logs nothing, and whatever is logged after any moment is numbered above all of that key before it. */
  lemma {:induction false} NewEventsAreNumberedAbove(actions: seq<Action>, i: nat, n: nat)
    requires Possible(actions) && i <= |actions|
    requires |After(actions[..i]).history| <= n < |After(actions).history|
    ensures var e := After(actions).history[n]; e.seqNo > MaxSeq(After(actions[..i]).history, e.key)
    ensures i < |actions| && actions[i].Init? ==> After(actions[..i + 1]).history == After(actions[..i]).history
  {
    SessionsAreSound(actions);
    HistoryGrows(actions, i);
    var early, e := After(actions[..i]).history, After(actions).history[n];
    if MaxSeq(early, e.key) > 0 {
      var f :| f in early && f.key == e.key && f.seqNo == MaxSeq(early, e.key);
      var j :| 0 <= j < |early| && early[j] == f;
      assert After(actions).history[j] == f;
    } else {
      assert e in After(actions).history;
    }
    if i < |actions| {
      assert actions[..i + 1][..i] == actions[..i];
    }
  }
}
