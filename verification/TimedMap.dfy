/** A cache without lazy removal: entries are simply invisible once their expiry instant has passed. */
module TimedMap {
  import opened Common
  import opened Events
  import opened CacheSpec

  function TimedStep(m: Entries, op: Op, now: int): (Entries, Reply) {
    match op
    case Set(key, value, ttl) => (m[key := NewEntry(value, ttl, now)], Flag(true))
    case Get(key) => (m, Text(if Visible(m, key, now).Some? then Some(m[key].value) else None))
    case Del(key) => (m - {key}, Flag(Visible(m, key, now).Some?))
    case Expire(key, ttl) =>
      if ttl <= 0 then (m, InvalidArgument)
      else if Visible(m, key, now).None? then (m, Flag(false))
      else (m[key := Entry(m[key].value, Some(now + ttl))], Flag(true))
    case Persist(key) =>
      if Visible(m, key, now).None? || m[key].expiresAt.None? then (m, Flag(false))
      else (m[key := Entry(m[key].value, None)], Flag(true))
    case Pttl(key) =>
      (m, Millis(if Visible(m, key, now).None? then -2
                 else if m[key].expiresAt.None? then -1
                 else m[key].expiresAt.value - now))
  }

  function TimedRun(m: Entries, calls: seq<Call>): Entries {
    if calls == [] then m
    else TimedStep(TimedRun(m, calls[..|calls| - 1]), calls[|calls| - 1].op, calls[|calls| - 1].now).0
  }

  function TimedReplyAt(m: Entries, calls: seq<Call>, i: nat): Reply
    requires i < |calls|
  {
    TimedStep(TimedRun(m, calls[..i]), calls[i].op, calls[i].now).1
  }

  /** The cache holds what the timed map holds, less some entries that have expired. */
  ghost predicate Simulates(entries: Entries, m: Entries, clock: int) {
    && (forall k :: k in entries ==> k in m && m[k] == entries[k])
    && (forall k :: k in m && k !in entries ==> m[k].IsExpired(clock))
  }

  lemma StepSimulates(c: Cache, m: Entries, op: Op, clock: int, now: int, logging: bool)
    requires Simulates(c.entries, m, clock) && clock <= now
    ensures Simulates(Step(c, op, now, logging).0.entries, TimedStep(m, op, now).0, now)
    ensures !op.Del? ==> Step(c, op, now, logging).1 == TimedStep(m, op, now).1
    ensures op.Del? ==> Step(c, op, now, logging).1 == Flag(op.key in c.entries)
  {
    assert Simulates(c.entries, m, now);
  }

  lemma {:induction false} RunSimulates(c: Cache, m: Entries, start: int, calls: seq<Call>, logging: bool)
    requires Simulates(c.entries, m, start) && Timed(start, calls)
    ensures Simulates(Run(c, calls, logging).entries, TimedRun(m, calls), Clock(start, calls))
  {
    if calls != [] {
      var n := |calls| - 1;
      RunSimulates(c, m, start, calls[..n], logging);
      StepSimulates(Run(c, calls[..n], logging), TimedRun(m, calls[..n]), calls[n].op,
                    Clock(start, calls[..n]), calls[n].now, logging);
    }
  }

  /** No result of a run, `DEL` aside, tells whether expired entries are still stored. */
  lemma LazyExpiryIsUnobservable(start: int, calls: seq<Call>, i: nat, logging: bool)
    requires Timed(start, calls) && i < |calls| && !calls[i].op.Del?
    ensures ReplyAt(EMPTY, calls, i, logging) == TimedReplyAt(map[], calls, i)
  {
    RunSimulates(EMPTY, map[], start, calls[..i], logging);
    StepSimulates(Run(EMPTY, calls[..i], logging), TimedRun(map[], calls[..i]), calls[i].op,
                  Clock(start, calls[..i]), calls[i].now, logging);
  }

  /** `DEL` answers yes to a visible key, and otherwise exactly when an expired entry has not been swept yet. */
  lemma {:induction false} DelReply(start: int, calls: seq<Call>, i: nat, logging: bool)
    requires Timed(start, calls) && i < |calls| && calls[i].op.Del?
    ensures var k, entries := calls[i].op.key, Run(EMPTY, calls[..i], logging).entries;
            ReplyAt(EMPTY, calls, i, logging) == TimedReplyAt(map[], calls, i) <==>
            !(k in entries && entries[k].IsExpired(calls[i].now))
  {
    RunSimulates(EMPTY, map[], start, calls[..i], logging);
  }

  /** Whether an expired entry was read before it is deleted shows in the answer of `DEL`. */
  lemma DelSeesUnsweptEntries()
    ensures var set', get', del := Call(Set("k", "v", Some(1)), 0), Call(Get("k"), 5), Call(Del("k"), 5);
            && ReplyAt(EMPTY, [set', del], 1, false) == Flag(true)
            && ReplyAt(EMPTY, [set', get', del], 2, false) == Flag(false)
  {
    var set', get', del := Call(Set("k", "v", Some(1)), 0), Call(Get("k"), 5), Call(Del("k"), 5);
    assert [set', del][..1] == [set'] && [set', get', del][..2] == [set', get'];
    assert [set'][..0] == [] && [set', get'][..1] == [set'];
    assert Run(EMPTY, [], false) == EMPTY;
    assert Run(EMPTY, [set'], false) == Step(EMPTY, set'.op, 0, false).0;
    assert Run(EMPTY, [set', get'], false) == Step(Run(EMPTY, [set'], false), get'.op, 5, false).0;
  }

  /** `PTTL` answers -2 for no visible entry, -1 for one that does not expire, else the exact time that is left. */
  lemma PttlReply(start: int, calls: seq<Call>, i: nat, logging: bool)
    requires Timed(start, calls) && i < |calls| && calls[i].op.Pttl?
    ensures var seen := Visible(TimedRun(map[], calls[..i]), calls[i].op.key, calls[i].now);
            match ReplyAt(EMPTY, calls, i, logging)
            case Millis(n) =>
              && (n == -2 <==> seen.None?)
              && (n == -1 <==> seen.Some? && seen.value.expiresAt.None?)
              && (n >= 0 <==> seen.Some? && seen.value.expiresAt == Some(calls[i].now + n))
            case _ => false
  {
    LazyExpiryIsUnobservable(start, calls, i, logging);
  }
}
