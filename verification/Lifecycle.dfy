/** Cache objects from one process to the next: what is served, logged, and found again after a restart. */
module Lifecycle {
  import opened Common
  import opened Events
  import opened Replay
  import opened CacheSpec
  import opened Restart
  import Sessions
  import ChronoCache

  /** A cache that logs, started on an empty topic, serves the calls. */
  method Serve(start: int, calls: seq<Call>) returns (cache: ChronoCache.ChronoCache, replies: seq<Reply>)
    ensures fresh(cache) && fresh(cache.Repr()) && cache.Valid()
    ensures cache.state == ChronoCache.READY && !cache.disableEventLogging && cache.logger != null
    ensures cache.Snapshot() == Run(EMPTY, calls, true)
    ensures |replies| == |calls| && forall i :: 0 <= i < |calls| ==> replies[i] == ReplyAt(EMPTY, calls, i, true)
  {
    cache := new ChronoCache.ChronoCache(false);
    var ready := cache.Init(true, [], Some([]), start);
    assert ReplayLog([], start) == FRESH;
    replies := cache.ExecuteAll(calls);
  }

  /** A new cache replays what is delivered of the topic. */
  method Restarted(topic: seq<Event>, delivered: seq<Event>, now: int) returns (cache: ChronoCache.ChronoCache)
    ensures fresh(cache) && fresh(cache.Repr()) && cache.Valid()
    ensures cache.state == ChronoCache.READY && cache.logger != null
    ensures cache.Snapshot() == Cache(ReplayLog(delivered, now).entries, ReplayLog(delivered, now).last, topic)
  {
    cache := new ChronoCache.ChronoCache(false);
    var ready := cache.Init(true, topic, Some(delivered), now);
  }

  /**
   * One cache serves any calls, and a second one replays what is delivered of the first one's topic. It
   * shows a key as the first one goes on to show it if and only if the restart restores the key, it counts
   * on from the first one's counters, and the topic is as the first one left it.
   */
  method ServeAndRestart(start: int, calls: seq<Call>, delivered: seq<Event>, now: int)
    returns (first: ChronoCache.ChronoCache, second: ChronoCache.ChronoCache)
    requires Timed(start, calls) && Clock(start, calls) <= now
    requires forall k :: Carries(delivered, Run(EMPTY, calls, true).log, k)
    ensures first.state == second.state == ChronoCache.READY
    ensures first.Snapshot() == Run(EMPTY, calls, true)
    ensures first.logger != null && second.logger != null && second.logger.log == first.logger.log
    ensures forall k :: SameView(second.hashMap, first.hashMap, k, now) <==> Restores(Session(start, calls), delivered, k, now)
    ensures forall k :: LastSeq(second.logger.seqCounters, k) == LastSeq(first.logger.seqCounters, k)
  {
    var replies;
    first, replies := Serve(start, calls);
    second := Restarted(first.logger.log, delivered, now);
    forall k ensures SameView(second.hashMap, first.hashMap, k, now) <==> Restores(Session(start, calls), delivered, k, now)
    {
      RunFidelity(start, calls, delivered, now, k);
    }
    forall k ensures LastSeq(second.logger.seqCounters, k) == LastSeq(first.logger.seqCounters, k) {
      assert Carries(delivered, Run(EMPTY, calls, true).log, k);
      TableIsMaxSeq(delivered, k, now);
      CountersAreHighest(start, calls, k);
    }
  }

  lemma {:induction false} CountersAreHighest(start: int, calls: seq<Call>, k: string)
    requires Timed(start, calls)
    ensures LastSeq(Run(EMPTY, calls, true).counters, k) == MaxSeq(Run(EMPTY, calls, true).log, k)
  {
    SessionIsRun(start, calls);
    SessionIsOrderly(start, calls);
    Sessions.SessionsAreSound(Session(start, calls));
  }
}
