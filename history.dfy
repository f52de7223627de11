/** Sequences of calls on one cache, and what survives them. */
module History {
  import opened CacheTable
  import opened AlternateSQLiteCache

  /** One call that changes the table, with the clock reading it saw and, for
      `set`, whether the automatic cleaning ran. */
  datatype Call =
    | Set(key: Key, data: Data, lifetime: int, now: int, sweep: bool)
    | Remove(key: Key)
    | RemovePattern(matches: Key -> bool)
    | Clean(mode: CleanMode, now: int)

  function Apply(t: Table, c: Call): Table
  {
    match c
    case Set(key, data, lifetime, now, sweep) => Written(t, key, data, lifetime, now, sweep)
    case Remove(key) => Removed(t, key)
    case RemovePattern(matches) => RemovedMatching(t, matches)
    case Clean(mode, now) => Cleaned(t, mode, now)
  }

  /** The table after the calls, in order. */
  function Run(t: Table, calls: seq<Call>): Table
    decreases |calls|
  {
    if calls == [] then t else Run(Apply(t, calls[0]), calls[1..])
  }

  /** Whether the call `c` leaves the row `e` of `key` in place: it writes or
      removes another key, its pattern does not match, and any sweep it runs
      happens no later than the row's timeout. */
  predicate Keeps(c: Call, key: Key, e: Entry)
  {
    match c
    case Set(k, _, _, now, sweep) => k != key && (!sweep || now <= e.timeout)
    case Remove(k) => k != key
    case RemovePattern(matches) => !matches(key)
    case Clean(mode, now) => mode == Old && now <= e.timeout
  }

  /** A call other than a `set` of `key` keeps the row of `key` exactly when
      `Keeps` says so, and never alters it. */
  lemma ApplyKeeps(t: Table, c: Call, key: Key)
    requires key in t && !(c.Set? && c.key == key)
    ensures key in Apply(t, c) <==> Keeps(c, key, t[key])
    ensures key in Apply(t, c) ==> Apply(t, c)[key] == t[key]
  {
  }

  lemma {:induction false} RunAppend(t: Table, first: seq<Call>, second: seq<Call>)
    ensures Run(t, first + second) == Run(Run(t, first), second)
    decreases |first|
  {
    if first == [] {
      assert first + second == second;
    } else {
      assert (first + second)[0] == first[0];
      assert (first + second)[1..] == first[1..] + second;
      RunAppend(Apply(t, first[0]), first[1..], second);
    }
  }

  /** A row survives, unchanged, every sequence of calls each of which keeps it. */
  lemma {:induction false} RowSurvives(t: Table, calls: seq<Call>, key: Key)
    requires key in t
    requires forall i :: 0 <= i < |calls| ==> Keeps(calls[i], key, t[key])
    ensures key in Run(t, calls) && Run(t, calls)[key] == t[key]
    decreases |calls|
  {
    if calls != [] {
      ApplyKeeps(t, calls[0], key);
      RowSurvives(Apply(t, calls[0]), calls[1..], key);
    }
  }

  /** Every row after a sequence of calls is either a row that was there before,
      untouched, or the row some `set` of its key in the sequence wrote. */
  lemma {:induction false} EveryRowWasWritten(t: Table, calls: seq<Call>, key: Key)
    requires key in Run(t, calls)
    ensures || (key in t && Run(t, calls)[key] == t[key])
            || exists i :: 0 <= i < |calls| && calls[i].Set? && calls[i].key == key &&
                 Run(t, calls)[key] == WrittenEntry(calls[i].data, calls[i].lifetime, calls[i].now)
    decreases |calls|
  {
    if calls != [] {
      var c, next := calls[0], Apply(t, calls[0]);
      EveryRowWasWritten(next, calls[1..], key);
      if key in next && Run(t, calls)[key] == next[key] {
        if c.Set? && c.key == key {
          assert calls[0].Set? && calls[0].key == key;
        } else {
          ApplyKeeps(t, c, key);
        }
      } else {
        var i :| 0 <= i < |calls[1..]| && calls[1..][i].Set? && calls[1..][i].key == key &&
                 Run(t, calls)[key] == WrittenEntry(calls[1..][i].data, calls[1..][i].lifetime, calls[1..][i].now);
        assert calls[i + 1] == calls[1..][i];
      }
    }
  }

  /** On a cache that starts empty, a key that no `set` wrote is never in the
      live view. */
  lemma NeverWrittenNeverSeen(calls: seq<Call>, key: Key, now: int)
    requires forall i :: 0 <= i < |calls| ==> !(calls[i].Set? && calls[i].key == key)
    ensures key !in LiveRows(Run(map[], calls), now)
  {
    if key in Run(map[], calls) {
      EveryRowWasWritten(map[], calls, key);
    }
  }

  /** What the four reads of an engine return, on the table that a sequence of
      calls left behind from an empty one, for a key that no `set` wrote. */
  method ReadNeverWritten(calls: seq<Call>, key: Key, default: Option<Data>, now: int)
    returns (data: Option<Data>, present: bool, timeout: int, lastModified: int)
    requires forall i :: 0 <= i < |calls| ==> !(calls[i].Set? && calls[i].key == key)
    ensures data == default && !present && timeout == 0 && lastModified == 0
  {
    NeverWrittenNeverSeen(calls, key, now);
    var cache := new Cache(0, Run(map[], calls));
    data := cache.Get(key, default, now);
    present := cache.Has(key, now);
    timeout := cache.GetTimeout(key, now);
    lastModified := cache.GetLastModified(key, now);
  }

  /** The last write wins: after `set(key, data, lifetime)` at `now`, followed by
      calls that each keep the row it wrote, reads at `later` see exactly that
      row while it is live, whatever came before. */
  lemma LastWriteWins(t: Table, before: seq<Call>, key: Key, data: Data, lifetime: int, now: int, sweep: bool,
                      after: seq<Call>, later: int)
    requires forall i :: 0 <= i < |after| ==> Keeps(after[i], key, WrittenEntry(data, lifetime, now))
    ensures var final := Run(t, before + [Set(key, data, lifetime, now, sweep)] + after);
      && key in final && final[key] == Entry(data, now + lifetime, now)
      && (key in LiveRows(final, later) <==> later < now + lifetime)
  {
    var write := Set(key, data, lifetime, now, sweep);
    RunAppend(t, before + [write], after);
    RunAppend(t, before, [write]);
    var written := Run(Run(t, before), [write]);
    assert written == Written(Run(t, before), key, data, lifetime, now, sweep);
    RowSurvives(written, after, key);
  }
}
