/** What one write or delete does to what later reads see. */
module CacheLaws {
  import opened CacheTable

  /** A row written at `now` with `lifetime` is seen by reads at `later` exactly
      while `later < now + lifetime`, and then with the data and times written.
      At the time of the write itself it is seen only for a positive lifetime. */
  lemma WrittenIsRead(t: Table, key: Key, data: Data, lifetime: int, now: int, sweep: bool, later: int)
    ensures key in LiveRows(Written(t, key, data, lifetime, now, sweep), later) <==> later < now + lifetime
    ensures later < now + lifetime ==>
      LiveRows(Written(t, key, data, lifetime, now, sweep), later)[key] == Entry(data, now + lifetime, now)
    ensures key in LiveRows(Written(t, key, data, lifetime, now, sweep), now) <==> 0 < lifetime
  {
  }

  /** The sweep deletes only rows that no read at or after its time can see. */
  lemma SweptKeepsLaterReads(t: Table, now: int, later: int)
    requires now <= later
    ensures LiveRows(Swept(t, now), later) == LiveRows(t, later)
  {
  }

  /** A write at `now` changes what reads at or after `now` see only at its own
      key, whether or not the automatic cleaning ran first. */
  lemma WrittenKeepsOtherReads(t: Table, key: Key, data: Data, lifetime: int, now: int, sweep: bool, later: int)
    requires now <= later
    ensures LiveRows(Written(t, key, data, lifetime, now, sweep), later) - {key} == LiveRows(t, later) - {key}
  {
  }

  /** `set` sweeps before it writes. Sweeping after the write instead gives
      the same table exactly when the lifetime is not negative: otherwise the
      sweep would delete the row just written. */
  lemma SweepBeforeOrAfterWrite(t: Table, key: Key, data: Data, lifetime: int, now: int)
    ensures Written(t, key, data, lifetime, now, true) == Swept(Written(t, key, data, lifetime, now, false), now)
        <==> 0 <= lifetime
  {
  }

  /** A row whose timeout is exactly `now` is already invisible to reads at `now`
      but survives `clean(OLD)` at `now`: reads compare with `>`, the sweep with `<`. */
  lemma ExpiringRowSurvivesClean(t: Table, key: Key, now: int)
    requires key in t && t[key].timeout == now
    ensures key !in LiveRows(t, now)
    ensures key in Cleaned(t, Old, now) && Cleaned(t, Old, now)[key] == t[key]
    ensures key !in Cleaned(t, Old, now + 1)
  {
  }

  /** `clean(OLD)` twice is `clean(OLD)` once, at the later of the two times. */
  lemma SweptTwice(t: Table, first: int, second: int)
    ensures Swept(Swept(t, first), second) == Swept(t, if first <= second then second else first)
  {
  }

  /** `remove` twice is `remove` once, and after it no read sees the key. */
  lemma RemovedTwice(t: Table, key: Key, later: int)
    ensures Removed(Removed(t, key), key) == Removed(t, key)
    ensures key !in LiveRows(Removed(t, key), later)
  {
  }

  /** Two pattern removals are one removal by either pattern; the same pattern
      twice is the same as once. */
  lemma RemovedMatchingTwice(t: Table, p: Key -> bool, q: Key -> bool)
    ensures RemovedMatching(RemovedMatching(t, p), q) == RemovedMatching(t, k => p(k) || q(k))
    ensures RemovedMatching(RemovedMatching(t, p), p) == RemovedMatching(t, p)
  {
  }
}
