/** What each cache command does to the stored entries, the sequence counters and the event log. */
module CacheSpec {
  import opened Common
  import opened Events
  import opened Replay

  datatype Op =
    | Set(key: string, value: string, ttl: Option<int>)
    | Get(key: string)
    | Del(key: string)
    | Expire(key: string, newTtl: int)
    | Persist(key: string)
    | Pttl(key: string)

  datatype Reply =
    | Flag(b: bool)
    | Text(t: Option<string>)
    | Millis(n: int)
    | InvalidArgument

  datatype Cache = Cache(entries: Entries, counters: map<string, nat>, log: seq<Event>)

  const EMPTY := Cache(map[], map[], [])

  /** `next_seq` followed by producing the event it numbers. */
  function Logged(c: Cache, kind: EventType, key: string, value: string, ttlMs: int, now: int): Cache {
    var n := LastSeq(c.counters, key) + 1;
    c.(counters := c.counters[key := n], log := c.log + [Event(kind, key, value, ttlMs, n, now)])
  }

  function LogIf(logging: bool, c: Cache, kind: EventType, key: string, value: string, ttlMs: int, now: int): Cache {
    if logging then Logged(c, kind, key, value, ttlMs, now) else c
  }

  /** `process_and_remove_if`: an expired entry is removed, and the command then sees no entry. */
  function Swept(c: Cache, key: string, now: int): Cache {
    if key in c.entries && c.entries[key].IsExpired(now) then c.(entries := c.entries - {key}) else c
  }

  function NewEntry(value: string, ttl: Option<int>, now: int): Entry {
    Entry(value, if ttl.Some? then Some(now + ttl.value) else None)
  }

  function Step(c: Cache, op: Op, now: int, logging: bool): (Cache, Reply) {
    match op
    case Set(key, value, ttl) =>
      var c' := c.(entries := c.entries[key := NewEntry(value, ttl, now)]);
      (LogIf(logging, c', SET, key, value, if ttl.Some? then ttl.value else -1, now), Flag(true))
    case Get(key) =>
      var c' := Swept(c, key, now);
      (c', Text(if key in c'.entries then Some(c'.entries[key].value) else None))
    case Del(key) =>
      if key in c.entries then (LogIf(logging, c.(entries := c.entries - {key}), DELETE, key, "", -1, now), Flag(true))
      else (c, Flag(false))
    case Expire(key, ttl) =>
      if ttl <= 0 then (c, InvalidArgument)
      else
        var c' := Swept(c, key, now);
        if key !in c'.entries then (c', Flag(false))
        else
          var e := Entry(c'.entries[key].value, Some(now + ttl));
          (LogIf(logging, c'.(entries := c'.entries[key := e]), EXPIRE, key, e.value, ttl, now), Flag(true))
    case Persist(key) =>
      var c' := Swept(c, key, now);
      if key !in c'.entries || c'.entries[key].expiresAt.None? then (c', Flag(false))
      else
        var e := Entry(c'.entries[key].value, None);
        (LogIf(logging, c'.(entries := c'.entries[key := e]), PERSIST, key, e.value, -1, now), Flag(true))
    case Pttl(key) =>
      var c' := Swept(c, key, now);
      (c', Millis(if key !in c'.entries then -2
                  else if c'.entries[key].expiresAt.None? then -1
                  else c'.entries[key].expiresAt.value - now))
  }

  // ---------- Runs ----------

  /** A command and the clock reading it is served at. */
  datatype Call = Call(op: Op, now: int)

  /** The clock never goes back, neither before the first call nor between calls. */
  ghost predicate Timed(start: int, calls: seq<Call>) {
    && (forall i :: 0 <= i < |calls| ==> start <= calls[i].now)
    && (forall i, j :: 0 <= i < j < |calls| ==> calls[i].now <= calls[j].now)
  }

  function Clock(start: int, calls: seq<Call>): int {
    if calls == [] then start else calls[|calls| - 1].now
  }

  function Run(c: Cache, calls: seq<Call>, logging: bool): Cache {
    if calls == [] then c
    else
      var last := calls[|calls| - 1];
      Step(Run(c, calls[..|calls| - 1], logging), last.op, last.now, logging).0
  }

  function ReplyAt(c: Cache, calls: seq<Call>, i: nat, logging: bool): Reply
    requires i < |calls|
  {
    Step(Run(c, calls[..i], logging), calls[i].op, calls[i].now, logging).1
  }
}
