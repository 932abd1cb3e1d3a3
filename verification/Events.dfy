/** Cache entries, logged events, and what one event says about its key. */
module Events {
  import opened Common

  /** A stored value and the instant, in milliseconds, after which it has expired. */
  datatype Entry = Entry(value: string, expiresAt: Option<int>) {
    /** `is_expired`: the expiry instant itself still counts as alive. */
    predicate IsExpired(now: int) {
      expiresAt.Some? && now > expiresAt.value
    }
  }

  type Entries = map<string, Entry>

  function Lookup<V>(m: map<string, V>, k: string): Option<V> {
    if k in m then Some(m[k]) else None
  }

  /** What a reader at time t can see of a key. */
  function Visible(m: Entries, k: string, t: int): (seen: Option<Entry>)
    ensures seen.Some? <==> k in m && (m[k].expiresAt == None || t <= m[k].expiresAt.value)
    ensures seen.Some? ==> seen.value == m[k]
  {
    if k in m && !m[k].IsExpired(t) then Some(m[k]) else None
  }

  datatype EventType = SET | DELETE | EXPIRE | PERSIST

  datatype Event = Event(kind: EventType, key: string, value: string, ttlMs: int, seqNo: nat, timestamp: int) {

    /** Events that give their key an expiry instant. */
    predicate Expires() {
      kind.EXPIRE? || (kind.SET? && ttlMs > 0)
    }

    /** The expiry instant has been reached when replay looks at it. */
    predicate Stale(now: int) {
      Expires() && timestamp + ttlMs <= now
    }

    /** The effect of the event alone: the entry its key then has, or none. */
    function Meaning(): Option<Entry> {
      if kind.DELETE? then None
      else if Expires() then Some(Entry(value, Some(timestamp + ttlMs)))
      else Some(Entry(value, None))
    }
  }

  /** The events of one key, in order. */
  function ForKey(log: seq<Event>, k: string): (r: seq<Event>)
    ensures forall e :: e in r <==> e in log && e.key == k
  {
    if log == [] then []
    else
      var n := |log| - 1;
      ForKey(log[..n], k) + (if log[n].key == k then [log[n]] else [])
  }

  function LastFor(log: seq<Event>, k: string): (r: Option<Event>)
    ensures r.Some? ==> r.value in log && r.value.key == k
    ensures r.None? ==> forall e :: e in log ==> e.key != k
  {
    if log == [] then None
    else if log[|log| - 1].key == k then Some(log[|log| - 1])
    else LastFor(log[..|log| - 1], k)
  }

  lemma {:induction false} LastForOfSum(log: seq<Event>, e: Event, k: string)
    ensures LastFor(log + [e], k) == if e.key == k then Some(e) else LastFor(log, k)
  {
    assert (log + [e])[..|log|] == log;
  }
}
