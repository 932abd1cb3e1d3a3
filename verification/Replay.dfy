/** Replay of the event log: the sequence filter, the TTL arithmetic, and what they do to each key. */
module Replay {
  import opened Common
  import opened Events

  datatype ReplayState = ReplayState(entries: Entries, last: map<string, nat>)

  const FRESH := ReplayState(map[], map[])

  /** `last_applied_seq[key]`: a missing key reads as 0. */
  function LastSeq(last: map<string, nat>, k: string): nat {
    if k in last then last[k] else 0
  }

  /** The switch of `replay`: an event whose expiry instant has been reached changes nothing. */
  function Effect(entries: Entries, e: Event, now: int): Entries {
    match e.kind
    case SET =>
      if e.ttlMs > 0 then
        if e.timestamp + e.ttlMs <= now then entries
        else entries[e.key := Entry(e.value, Some(now + (e.timestamp + e.ttlMs - now)))]
      else entries[e.key := Entry(e.value, None)]
    case DELETE => entries - {e.key}
    case EXPIRE =>
      if e.timestamp + e.ttlMs <= now then entries
      else entries[e.key := Entry(e.value, Some(now + (e.timestamp + e.ttlMs - now)))]
    case PERSIST => entries[e.key := Entry(e.value, None)]
  }

  /** One turn of the replay loop. Looking a key up enters it in the table, even when the event is skipped. */
  function Apply(rs: ReplayState, e: Event, now: int): ReplayState {
    var seen := LastSeq(rs.last, e.key);
    if seen >= e.seqNo then rs.(last := rs.last[e.key := seen])
    else ReplayState(Effect(rs.entries, e, now), rs.last[e.key := e.seqNo])
  }

  function ReplayFrom(rs: ReplayState, log: seq<Event>, now: int): ReplayState {
    if log == [] then rs else Apply(ReplayFrom(rs, log[..|log| - 1], now), log[|log| - 1], now)
  }

  function ReplayLog(log: seq<Event>, now: int): ReplayState {
    ReplayFrom(FRESH, log, now)
  }

  // ---------- Each key on its own ----------

  lemma EffectOnKey(entries: Entries, e: Event, now: int)
    ensures Lookup(Effect(entries, e, now), e.key) == if e.Stale(now) then Lookup(entries, e.key) else e.Meaning()
    ensures forall k :: k != e.key ==> Lookup(Effect(entries, e, now), k) == Lookup(entries, k)
  {
  }

  ghost predicate AgreeOn(a: ReplayState, b: ReplayState, k: string) {
    && Lookup(a.entries, k) == Lookup(b.entries, k)
    && (k in a.last <==> k in b.last)
    && LastSeq(a.last, k) == LastSeq(b.last, k)
  }

  lemma ApplyOnKey(a: ReplayState, b: ReplayState, e: Event, k: string, now: int)
    requires AgreeOn(a, b, k)
    ensures if e.key == k then AgreeOn(Apply(a, e, now), Apply(b, e, now), k) else AgreeOn(Apply(a, e, now), b, k)
  {
    EffectOnKey(a.entries, e, now);
    EffectOnKey(b.entries, e, now);
  }

  lemma ReplayOneMore(log: seq<Event>, e: Event, now: int)
    ensures ReplayLog(log + [e], now) == Apply(ReplayLog(log, now), e, now)
  {
    assert (log + [e])[..|log|] == log;
  }

  /** Replay treats each key by that key's events only. */
  lemma {:induction false} ReplayIsPerKey(log: seq<Event>, k: string, now: int)
    ensures AgreeOn(ReplayLog(log, now), ReplayLog(ForKey(log, k), now), k)
  {
    if log != [] {
      var head, e := log[..|log| - 1], log[|log| - 1];
      ReplayIsPerKey(head, k, now);
      ApplyOnKey(ReplayLog(head, now), ReplayLog(ForKey(head, k), now), e, k, now);
      ReplayOneMore(ForKey(head, k), e, now);
      assert ForKey(log, k) == if e.key == k then ForKey(head, k) + [e] else ForKey(head, k);
    }
  }

  /**
   * Partitions may be merged in any way: logs that keep each key's own event order replay to the
   * same entries and the same sequence table.
   */
  lemma {:induction false} MergeOrderIsIrrelevant(a: seq<Event>, b: seq<Event>, now: int)
    requires forall k :: ForKey(a, k) == ForKey(b, k)
    ensures ReplayLog(a, now) == ReplayLog(b, now)
  {
    var ra, rb := ReplayLog(a, now), ReplayLog(b, now);
    forall k ensures AgreeOn(ra, rb, k) {
      ReplayIsPerKey(a, k, now);
      ReplayIsPerKey(b, k, now);
      assert ForKey(a, k) == ForKey(b, k);
    }
    forall k ensures Lookup(ra.entries, k) == Lookup(rb.entries, k) { assert AgreeOn(ra, rb, k); }
    SameLookups(ra.entries, rb.entries);
    forall k ensures k in ra.last <==> k in rb.last { assert AgreeOn(ra, rb, k); }
    forall k | k in ra.last ensures ra.last[k] == rb.last[k] { assert AgreeOn(ra, rb, k); }
    assert ra.last == rb.last;
  }

  lemma SameLookups(a: Entries, b: Entries)
    requires forall k :: Lookup(a, k) == Lookup(b, k)
    ensures a == b
  {
    forall k ensures k in a <==> k in b { assert Lookup(a, k) == Lookup(b, k); }
    forall k | k in a ensures a[k] == b[k] { assert Lookup(a, k) == Lookup(b, k); }
  }

  // ---------- The highest number ----------

  /** The highest sequence number logged for a key, 0 if there is none. */
  function MaxSeq(log: seq<Event>, k: string): (m: nat)
    ensures forall e :: e in log && e.key == k ==> e.seqNo <= m
    ensures m > 0 ==> exists e :: e in log && e.key == k && e.seqNo == m
  {
    if log == [] then 0
    else
      var n := |log| - 1;
      var m := MaxSeq(log[..n], k);
      if log[n].key == k && log[n].seqNo > m then log[n].seqNo else m
  }

  /** The table replay hands to the logger holds each key's highest logged number. */
  lemma {:induction false} TableIsMaxSeq(log: seq<Event>, k: string, now: int)
    ensures LastSeq(ReplayLog(log, now).last, k) == MaxSeq(log, k)
  {
    if log != [] {
      TableIsMaxSeq(log[..|log| - 1], k, now);
    }
  }

  // ---------- What passes the filter ----------

  /** The events of a key that replay lets through: each is numbered above every earlier one of the key. */
  function Passing(log: seq<Event>, k: string): seq<Event> {
    if log == [] then []
    else
      var n := |log| - 1;
      var passed := Passing(log[..n], k);
      if log[n].key == k && log[n].seqNo > MaxSeq(log[..n], k) then passed + [log[n]] else passed
  }

  /** The last event whose expiry instant has not been reached. */
  function LastFresh(es: seq<Event>, now: int): (r: Option<Event>)
    ensures r.Some? ==> r.value in es && !r.value.Stale(now)
    ensures r.None? <==> forall e :: e in es ==> e.Stale(now)
  {
    if es == [] then None
    else if es[|es| - 1].Stale(now) then LastFresh(es[..|es| - 1], now)
    else Some(es[|es| - 1])
  }

  lemma {:induction false} LastFreshOfSum(es: seq<Event>, e: Event, now: int)
    ensures LastFresh(es + [e], now) == if e.Stale(now) then LastFresh(es, now) else Some(e)
  {
    assert (es + [e])[..|es|] == es;
  }

  function MeaningOf(last: Option<Event>): Option<Entry> {
    match last
    case None => None
    case Some(e) => e.Meaning()
  }

  /** The event that passed last has expired, and one before it, no DELETE, has not. */
  predicate ComesBack(log: seq<Event>, k: string, now: int) {
    var es := Passing(log, k);
    && es != [] && es[|es| - 1].Stale(now)
    && LastFresh(es, now).Some? && !LastFresh(es, now).value.kind.DELETE?
  }

  /** What replay leaves of any key, for any log: the effect of the last event that passed and has not expired. */
  lemma {:induction false} ReplayedEntry(log: seq<Event>, k: string, now: int)
    ensures Lookup(ReplayLog(log, now).entries, k) == MeaningOf(LastFresh(Passing(log, k), now))
  {
    if log != [] {
      var head, e := log[..|log| - 1], log[|log| - 1];
      ReplayedEntry(head, k, now);
      TableIsMaxSeq(head, k, now);
      EffectOnKey(ReplayLog(head, now).entries, e, now);
      LastFreshOfSum(Passing(head, k), e, now);
    }
  }

  // ---------- Last writer wins ----------

  /** `e` carries the highest sequence number of its key, and no other event shares it. */
  ghost predicate IsWinner(log: seq<Event>, e: Event) {
    && e in log && e.seqNo >= 1
    && forall f :: f in log && f.key == e.key ==> f.seqNo < e.seqNo || f == e
  }

  /** Whatever the order and the duplicates, the winner is the last event to pass. */
  lemma {:induction false} WinnerPassesLast(log: seq<Event>, e: Event)
    requires IsWinner(log, e)
    ensures MaxSeq(log, e.key) == e.seqNo
    ensures Passing(log, e.key) != [] && Passing(log, e.key)[|Passing(log, e.key)| - 1] == e
  {
    var n := |log| - 1;
    var head, f := log[..n], log[n];
    assert log == head + [f];
    if e in head {
      WinnerPassesLast(head, e);
    } else if MaxSeq(head, e.key) > 0 {
      var g :| g in head && g.key == e.key && g.seqNo == MaxSeq(head, e.key);
      assert g in log;
    }
  }

  /**
   * The winner decides its key. If it has not expired, its effect is all that is left; if it has, the
   * key is absent exactly when no older event comes back.
   */
  lemma WinnerDecides(log: seq<Event>, e: Event, now: int)
    requires IsWinner(log, e)
    ensures LastSeq(ReplayLog(log, now).last, e.key) == e.seqNo
    ensures !e.Stale(now) ==> Lookup(ReplayLog(log, now).entries, e.key) == e.Meaning() && !ComesBack(log, e.key, now)
    ensures e.Stale(now) ==> (Lookup(ReplayLog(log, now).entries, e.key) == None <==> !ComesBack(log, e.key, now))
  {
    ReplayedEntry(log, e.key, now);
    TableIsMaxSeq(log, e.key, now);
    WinnerPassesLast(log, e);
  }

  /** Last writer wins: an unexpired winner's effect is all that a key is left with. */
  lemma LastWriterWins(log: seq<Event>, e: Event, now: int)
    requires IsWinner(log, e) && !e.Stale(now)
    ensures Lookup(ReplayLog(log, now).entries, e.key) == e.Meaning()
    ensures LastSeq(ReplayLog(log, now).last, e.key) == e.seqNo
  {
    WinnerDecides(log, e, now);
  }

  /** Dropping, repeating or permuting the other events changes nothing. */
  lemma OtherEventsAreIrrelevant(a: seq<Event>, b: seq<Event>, e: Event, now: int)
    requires IsWinner(a, e) && IsWinner(b, e) && !e.Stale(now)
    ensures Lookup(ReplayLog(a, now).entries, e.key) == Lookup(ReplayLog(b, now).entries, e.key)
  {
    LastWriterWins(a, e, now);
    LastWriterWins(b, e, now);
  }
}
