/** The cache object: its lifecycle, its commands, the event logger it drives, and replay at start-up. */
module ChronoCache {
  import opened Common
  import opened Events
  import opened Replay
  import opened CacheSpec

  datatype Result<+T> = Ok(value: T) | Throws(error: string)

  datatype CacheState = UNINITIALIZED | REPLAYING | REPLAY_FAILED | REPLAY_SUCCESS | READY

  const NOT_READY := "ChronoCache is not ready to accept operations"

  class CacheEventLogger {
    var seqCounters: map<string, nat>
    var log: seq<Event>  // the topic: what it held at start-up, then what was produced

    constructor (topic: seq<Event>)
      ensures seqCounters == map[] && log == topic
    {
      seqCounters, log := map[], topic;
    }

    /** Copies a whole sequence table into the counters, key by key. */
    method SetSeqCounters(lastApplied: map<string, nat>)
      modifies `seqCounters
      ensures seqCounters == old(seqCounters) + lastApplied
    {
      var rest := lastApplied.Keys;
      while rest != {}
        invariant rest <= lastApplied.Keys
        invariant seqCounters == old(seqCounters) + map k | k in lastApplied && k !in rest :: lastApplied[k]
        decreases rest
      {
        var k :| k in rest;
        seqCounters := seqCounters[k := lastApplied[k]];
        rest := rest - {k};
      }
    }

    /** Adds the key at 0 if it is new, then increments in place. */
    method NextSeq(key: string) returns (n: nat)
      modifies `seqCounters
      ensures n == LastSeq(old(seqCounters), key) + 1
      ensures seqCounters == old(seqCounters)[key := n]
    {
      if key !in seqCounters {
        seqCounters := seqCounters[key := 0];
      }
      seqCounters := seqCounters[key := seqCounters[key] + 1];
      n := seqCounters[key];
    }

    method LogSet(key: string, value: string, ttlMs: int, now: int)
      modifies this
      ensures var n := LastSeq(old(seqCounters), key) + 1;
              && seqCounters == old(seqCounters)[key := n]
              && log == old(log) + [Event(SET, key, value, ttlMs, n, now)]
    {
      var n := NextSeq(key);
      log := log + [Event(SET, key, value, ttlMs, n, now)];
    }

    method LogDel(key: string, now: int)
      modifies this
      ensures var n := LastSeq(old(seqCounters), key) + 1;
              && seqCounters == old(seqCounters)[key := n]
              && log == old(log) + [Event(DELETE, key, "", -1, n, now)]
    {
      var n := NextSeq(key);
      log := log + [Event(DELETE, key, "", -1, n, now)];
    }

    method LogExpire(key: string, value: string, ttlMs: int, now: int)
      modifies this
      ensures var n := LastSeq(old(seqCounters), key) + 1;
              && seqCounters == old(seqCounters)[key := n]
              && log == old(log) + [Event(EXPIRE, key, value, ttlMs, n, now)]
    {
      var n := NextSeq(key);
      log := log + [Event(EXPIRE, key, value, ttlMs, n, now)];
    }

    method LogPersist(key: string, value: string, now: int)
      modifies this
      ensures var n := LastSeq(old(seqCounters), key) + 1;
              && seqCounters == old(seqCounters)[key := n]
              && log == old(log) + [Event(PERSIST, key, value, -1, n, now)]
    {
      var n := NextSeq(key);
      log := log + [Event(PERSIST, key, value, -1, n, now)];
    }
  }

  class ChronoCache {
    var state: CacheState
    var hashMap: Entries
    const disableEventLogging: bool
    var logger: CacheEventLogger?

    ghost predicate Valid()
      reads this
    {
      && (state.UNINITIALIZED? ==> hashMap == map[] && logger == null)
      && (!disableEventLogging && IsAcceptingOps() ==> logger != null)
      && (disableEventLogging ==> logger == null)
    }

    ghost function Repr(): set<object>
      reads this
    {
      {this} + if logger == null then {} else {logger}
    }

    /** Entries, counters and topic as one value. */
    ghost function Snapshot(): Cache
      reads this, logger
    {
      if logger == null then Cache(hashMap, map[], []) else Cache(hashMap, logger.seqCounters, logger.log)
    }

    constructor (disableEventLogging: bool)
      ensures Valid() && state == UNINITIALIZED && this.disableEventLogging == disableEventLogging
    {
      state, hashMap, logger := UNINITIALIZED, map[], null;
      this.disableEventLogging := disableEventLogging;
    }

    predicate IsAcceptingOps(): (yes: bool)
      reads `state
      ensures yes <==> state == READY || state == REPLAYING
    {
      state == READY || state == REPLAYING
    }

    /** Its exception, a missing logger, cannot arise. */
    method CheckLoggingAllowed() returns (r: Result<bool>)
      requires Valid()
      ensures r == Ok(state == READY && !disableEventLogging)
    {
      if disableEventLogging || state != READY {
        return Ok(false);
      }
      if logger == null {
        return Throws("Event logging is enabled but logger was not initialized");
      }
      r := Ok(true);
    }

    method Set(key: string, value: string, ttl: Option<int>, now: int) returns (r: Result<bool>)
      requires Valid()
      modifies `hashMap, logger
      ensures Valid()
      ensures !(state == READY || state == REPLAYING) ==>
                r == Throws(NOT_READY) && hashMap == old(hashMap) && (logger != null ==> unchanged(logger))
      ensures state == READY || state == REPLAYING ==>
                && r == Ok(true)
                && hashMap == old(hashMap)[key := Entry(value, if ttl.Some? then Some(now + ttl.value) else None)]
      ensures state == READY && !disableEventLogging ==>
                var n := (if key in old(logger.seqCounters) then old(logger.seqCounters)[key] else 0) + 1;
                && logger.seqCounters == old(logger.seqCounters)[key := n]
                && logger.log == old(logger.log) + [Event(SET, key, value, if ttl.Some? then ttl.value else -1, n, now)]
      ensures !(state == READY && !disableEventLogging) && logger != null ==> unchanged(logger)
      ensures state == READY || state == REPLAYING ==>
                r.Ok? && (Snapshot(), Flag(r.value)) == Step(old(Snapshot()), Op.Set(key, value, ttl), now, state == READY && !disableEventLogging)
    {
      if !IsAcceptingOps() {
        return Throws(NOT_READY);
      }
      hashMap := hashMap[key := NewEntry(value, ttl, now)];
      var allowed := CheckLoggingAllowed();
      if allowed.value {
        logger.LogSet(key, value, if ttl.Some? then ttl.value else -1, now);
      }
      r := Ok(true);
    }

    /** The expiry branch of `process_and_remove_if`, and the entry its callback then sees. */
    method SweepAndFind(key: string, now: int) returns (entry: Option<Entry>)
      requires Valid() && IsAcceptingOps()
      modifies `hashMap
      ensures Valid() && Snapshot() == Swept(old(Snapshot()), key, now)
      ensures entry == Lookup(hashMap, key)
    {
      if key !in hashMap {
        return None;
      }
      if hashMap[key].IsExpired(now) {
        hashMap := hashMap - {key};
        return None;
      }
      entry := Some(hashMap[key]);
    }

    method Get(key: string, now: int) returns (r: Result<Option<string>>)
      requires Valid()
      modifies `hashMap
      ensures Valid()
      ensures !(state == READY || state == REPLAYING) ==> r == Throws(NOT_READY) && hashMap == old(hashMap)
      ensures state == READY || state == REPLAYING ==>
                var seen := Visible(old(hashMap), key, now);
                && r == Ok(if seen.Some? then Some(seen.value.value) else None)
                && hashMap == if seen.Some? then old(hashMap) else old(hashMap) - {key}
      ensures state == READY || state == REPLAYING ==>
                r.Ok? && (Snapshot(), Text(r.value)) == Step(old(Snapshot()), Op.Get(key), now, state == READY && !disableEventLogging)
    {
      if !IsAcceptingOps() {
        return Throws(NOT_READY);
      }
      var entry := SweepAndFind(key, now);
      r := Ok(if entry.Some? then Some(entry.value.value) else None);
    }

    method Del(key: string, now: int) returns (r: Result<bool>)
      requires Valid()
      modifies `hashMap, logger
      ensures Valid()
      ensures !(state == READY || state == REPLAYING) ==>
                r == Throws(NOT_READY) && hashMap == old(hashMap) && (logger != null ==> unchanged(logger))
      ensures state == READY || state == REPLAYING ==>
                r == Ok(key in old(hashMap)) && hashMap == old(hashMap) - {key}
      ensures state == READY && !disableEventLogging && key in old(hashMap) ==>
                var n := (if key in old(logger.seqCounters) then old(logger.seqCounters)[key] else 0) + 1;
                && logger.seqCounters == old(logger.seqCounters)[key := n]
                && logger.log == old(logger.log) + [Event(DELETE, key, "", -1, n, now)]
      ensures !(state == READY && !disableEventLogging && key in old(hashMap)) && logger != null ==> unchanged(logger)
      ensures state == READY || state == REPLAYING ==>
                r.Ok? && (Snapshot(), Flag(r.value)) == Step(old(Snapshot()), Op.Del(key), now, state == READY && !disableEventLogging)
    {
      if !IsAcceptingOps() {
        return Throws(NOT_READY);
      }
      if key !in hashMap {
        return Ok(false);
      }
      hashMap := hashMap - {key};
      var allowed := CheckLoggingAllowed();
      if allowed.value {
        logger.LogDel(key, now);
      }
      r := Ok(true);
    }

    method Expire(key: string, ttl: int, now: int) returns (r: Result<bool>)
      requires Valid()
      modifies `hashMap, logger
      ensures Valid()
      ensures !(state == READY || state == REPLAYING) ==>
                r == Throws(NOT_READY) && hashMap == old(hashMap) && (logger != null ==> unchanged(logger))
      ensures (state == READY || state == REPLAYING) && ttl <= 0 ==>
                r == Throws("TTL must be greater than 0") && hashMap == old(hashMap)
      ensures (state == READY || state == REPLAYING) && ttl > 0 ==>
                var seen := Visible(old(hashMap), key, now);
                && r == Ok(seen.Some?)
                && hashMap == if seen.None? then old(hashMap) - {key}
                              else old(hashMap)[key := Entry(seen.value.value, Some(now + ttl))]
      ensures state == READY && !disableEventLogging && ttl > 0 && Visible(old(hashMap), key, now).Some? ==>
                var n := (if key in old(logger.seqCounters) then old(logger.seqCounters)[key] else 0) + 1;
                && logger.seqCounters == old(logger.seqCounters)[key := n]
                && logger.log == old(logger.log) + [Event(EXPIRE, key, old(hashMap)[key].value, ttl, n, now)]
      ensures !(state == READY && !disableEventLogging && ttl > 0 && Visible(old(hashMap), key, now).Some?) && logger != null ==>
                unchanged(logger)
      ensures state == READY || state == REPLAYING ==>
                (Snapshot(), if r.Ok? then Flag(r.value) else InvalidArgument) ==
                Step(old(Snapshot()), Op.Expire(key, ttl), now, state == READY && !disableEventLogging)
    {
      if !IsAcceptingOps() {
        return Throws(NOT_READY);
      }
      if ttl <= 0 {
        return Throws("TTL must be greater than 0");
      }
      var entry := SweepAndFind(key, now);
      if entry.None? {
        return Ok(false);
      }
      hashMap := hashMap[key := Entry(entry.value.value, Some(now + ttl))];
      var allowed := CheckLoggingAllowed();
      if allowed.value {
        logger.LogExpire(key, entry.value.value, ttl, now);
      }
      r := Ok(true);
    }

    method Pttl(key: string, now: int) returns (r: Result<int>)
      requires Valid()
      modifies `hashMap
      ensures Valid()
      ensures !(state == READY || state == REPLAYING) ==> r == Throws(NOT_READY) && hashMap == old(hashMap)
      ensures state == READY || state == REPLAYING ==>
                var seen := Visible(old(hashMap), key, now);
                && r == Ok(if seen.None? then -2 else if seen.value.expiresAt == None then -1
                           else seen.value.expiresAt.value - now)
                && hashMap == if seen.Some? then old(hashMap) else old(hashMap) - {key}
      ensures state == READY || state == REPLAYING ==>
                r.Ok? && (Snapshot(), Millis(r.value)) == Step(old(Snapshot()), Op.Pttl(key), now, state == READY && !disableEventLogging)
    {
      if !IsAcceptingOps() {
        return Throws(NOT_READY);
      }
      var entry := SweepAndFind(key, now);
      if entry.None? {
        return Ok(-2);
      }
      r := Ok(if entry.value.expiresAt.Some? then entry.value.expiresAt.value - now else -1);
    }

    method Persist(key: string, now: int) returns (r: Result<bool>)
      requires Valid()
      modifies `hashMap, logger
      ensures Valid()
      ensures !(state == READY || state == REPLAYING) ==>
                r == Throws(NOT_READY) && hashMap == old(hashMap) && (logger != null ==> unchanged(logger))
      ensures state == READY || state == REPLAYING ==>
                var seen := Visible(old(hashMap), key, now);
                && r == Ok(seen.Some? && seen.value.expiresAt.Some?)
                && hashMap == if seen.None? then old(hashMap) - {key}
                              else old(hashMap)[key := Entry(seen.value.value, None)]
      ensures state == READY && !disableEventLogging && Visible(old(hashMap), key, now).Some? && old(hashMap)[key].expiresAt.Some? ==>
                var n := (if key in old(logger.seqCounters) then old(logger.seqCounters)[key] else 0) + 1;
                && logger.seqCounters == old(logger.seqCounters)[key := n]
                && logger.log == old(logger.log) + [Event(PERSIST, key, old(hashMap)[key].value, -1, n, now)]
      ensures !(state == READY && !disableEventLogging && Visible(old(hashMap), key, now).Some? && old(hashMap)[key].expiresAt.Some?) && logger != null ==>
                unchanged(logger)
      ensures state == READY || state == REPLAYING ==>
                r.Ok? && (Snapshot(), Flag(r.value)) == Step(old(Snapshot()), Op.Persist(key), now, state == READY && !disableEventLogging)
    {
      if !IsAcceptingOps() {
        return Throws(NOT_READY);
      }
      var entry := SweepAndFind(key, now);
      if entry.None? || entry.value.expiresAt.None? {
        return Ok(false);
      }
      hashMap := hashMap[key := Entry(entry.value.value, None)];
      var allowed := CheckLoggingAllowed();
      if allowed.value {
        logger.LogPersist(key, entry.value.value, now);
      }
      r := Ok(true);
    }

    /** Applies the delivered events in order; nothing is logged while replaying. */
    method ReplayEvents(events: seq<Event>, now: int)
      requires Valid() && state == REPLAYING && hashMap == map[]
      modifies `hashMap, logger
      ensures Valid() && hashMap == ReplayLog(events, now).entries
      ensures logger != null ==> logger.log == old(logger.log)
      ensures logger != null ==> logger.seqCounters == old(logger.seqCounters) + ReplayLog(events, now).last
    {
      var lastApplied: map<string, nat> := map[];
      for i := 0 to |events|
        invariant Valid() && ReplayState(hashMap, lastApplied) == ReplayLog(events[..i], now)
        invariant logger != null ==> logger.log == old(logger.log) && logger.seqCounters == old(logger.seqCounters)
      {
        assert events[..i + 1][..i] == events[..i];
        var event := events[i];
        if event.key !in lastApplied {
          lastApplied := lastApplied[event.key := 0];
        }
        if lastApplied[event.key] >= event.seqNo {
          continue;
        }
        lastApplied := lastApplied[event.key := event.seqNo];
        match event.kind {
          case SET =>
            if event.ttlMs > 0 {
              var expiresAtMs := event.timestamp + event.ttlMs;
              if expiresAtMs > now {
                var r := Set(event.key, event.value, Some(expiresAtMs - now), now);
              }
            } else {
              var r := Set(event.key, event.value, None, now);
            }
          case DELETE =>
            var r := Del(event.key, now);
          case EXPIRE =>
            var expiresAtMs := event.timestamp + event.ttlMs;
            if expiresAtMs > now {
              var r := Set(event.key, event.value, Some(expiresAtMs - now), now);
            }
          case PERSIST =>
            var r := Set(event.key, event.value, None, now);
        }
      }
      assert events[..|events|] == events;
      if logger != null {
        logger.SetSeqCounters(lastApplied);
      }
    }

    /** `delivered` is what the consumer reads from the topic; None stands for its exception. */
    method Init(withReplay: bool, topic: seq<Event>, delivered: Option<seq<Event>>, now: int) returns (r: Result<bool>)
      requires Valid()
      modifies this
      ensures Valid()
      ensures old(state.READY?) ==> r == Ok(true)
      ensures !old(state.READY? || state.UNINITIALIZED?) ==> r.Throws?
      ensures !old(state.UNINITIALIZED?) ==> unchanged(this)
      ensures old(state.UNINITIALIZED?) ==> (logger != null <==> !disableEventLogging)
      ensures old(state.UNINITIALIZED?) && logger != null ==> fresh(logger) && logger.log == topic
      ensures old(state.UNINITIALIZED?) && !withReplay ==>
                r == Ok(true) && state == READY && hashMap == map[] && (logger != null ==> logger.seqCounters == map[])
      ensures old(state.UNINITIALIZED?) && withReplay && delivered.None? ==> r.Throws? && state == REPLAY_FAILED
      ensures old(state.UNINITIALIZED?) && withReplay && delivered.Some? ==>
                var rs := ReplayLog(delivered.value, now);
                r == Ok(true) && state == READY && hashMap == rs.entries && (logger != null ==> logger.seqCounters == rs.last)
    {
      if state == READY {
        return Ok(true);
      }
      if state != UNINITIALIZED {
        return Throws("ChronoCache::init() requires UNINITIALIZED state");
      }
      if !disableEventLogging {
        logger := new CacheEventLogger(topic);
      }
      if !withReplay {
        state := READY;
        return Ok(true);
      }
      state := REPLAYING;
      if delivered.None? {
        state := REPLAY_FAILED;
        return Throws("replay failed");
      }
      ReplayEvents(delivered.value, now);
      assert map[] + ReplayLog(delivered.value, now).last == ReplayLog(delivered.value, now).last;
      state := REPLAY_SUCCESS;
      state := READY;
      r := Ok(true);
    }

    /** One command of any kind, in the READY state. */
    method Execute(op: Op, now: int) returns (reply: Reply)
      requires Valid() && state == READY
      modifies `hashMap, logger
      ensures Valid()
      ensures (Snapshot(), reply) == Step(old(Snapshot()), op, now, !disableEventLogging)
    {
      match op {
        case Set(key, value, ttl) => var r := Set(key, value, ttl, now); reply := Flag(r.value);
        case Get(key) => var r := Get(key, now); reply := Text(r.value);
        case Del(key) => var r := Del(key, now); reply := Flag(r.value);
        case Expire(key, ttl) => var r := Expire(key, ttl, now); reply := if r.Ok? then Flag(r.value) else InvalidArgument;
        case Persist(key) => var r := Persist(key, now); reply := Flag(r.value);
        case Pttl(key) => var r := Pttl(key, now); reply := Millis(r.value);
      }
    }

    /** Any run of commands does what the specification's run does, and answers alike. */
    method ExecuteAll(calls: seq<Call>) returns (replies: seq<Reply>)
      requires Valid() && state == READY
      modifies `hashMap, logger
      ensures Valid()
      ensures Snapshot() == Run(old(Snapshot()), calls, !disableEventLogging)
      ensures |replies| == |calls|
      ensures forall i :: 0 <= i < |calls| ==> replies[i] == ReplyAt(old(Snapshot()), calls, i, !disableEventLogging)
    {
      ghost var start := Snapshot();
      replies := [];
      for i := 0 to |calls|
        invariant Valid() && |replies| == i
        invariant Snapshot() == Run(start, calls[..i], !disableEventLogging)
        invariant forall j :: 0 <= j < i ==> replies[j] == ReplyAt(start, calls, j, !disableEventLogging)
      {
        assert calls[..i + 1][..i] == calls[..i];
        var reply := Execute(calls[i].op, calls[i].now);
        replies := replies + [reply];
      }
      assert calls[..|calls|] == calls;
    }
  }
}
