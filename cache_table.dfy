/** The `cache` table of the SQLite cache database, reduced to what it means.

    The table has the columns `key`, `data`, `timeout` and `last_modified`, and a
    unique index on `key`, so at any moment it holds at most one row per key: it is
    a map from key to the rest of the row. Times are seconds since the epoch. */
module CacheTable {

  type Key = string
  type Data = string

  datatype Option<T> = None | Some(value: T)

  /** One row of the table, without its key column. */
  datatype Entry = Entry(data: Data, timeout: int, lastModified: int)

  /** The whole table. */
  type Table = map<Key, Entry>

  /** The modes of `clean`: every mode other than `Old` deletes every row. */
  datatype CleanMode = All | Old

  /** The liveness filter of every read, `timeout > now`. */
  predicate IsLive(e: Entry, now: int)
  {
    now < e.timeout
  }

  /** The rows a read at time `now` can see. */
  function LiveRows(t: Table, now: int): Table
  {
    map k | k in t && IsLive(t[k], now) :: t[k]
  }

  /** `SELECT ... FROM cache WHERE key = :key AND timeout > :now`. */
  function Select(t: Table, key: Key, now: int): Option<Entry>
  {
    if key in t && IsLive(t[key], now) then Some(t[key]) else None
  }

  /** `DELETE FROM cache WHERE cond`. */
  function DeleteWhere(t: Table, cond: (Key, Entry) -> bool): Table
  {
    map k | k in t && !cond(k, t[k]) :: t[k]
  }

  /** `INSERT OR REPLACE INTO cache`: the unique index makes the new row replace
      any row that has the same key. */
  function InsertOrReplace(t: Table, key: Key, e: Entry): Table
  {
    t[key := e]
  }

  /** The table after `remove(key)`: the row of `key` is gone, live or not, and
      every other row is as it was. */
  function Removed(t: Table, key: Key): (r: Table)
    ensures key !in r
    ensures forall k :: k != key && k in t ==> k in r && r[k] == t[k]
    ensures r.Keys <= t.Keys
  {
    t - {key}
  }

  /** The table after `removePattern`, with the compiled pattern as `matches`:
      exactly the rows whose key matches are gone, whatever their timeout. */
  function RemovedMatching(t: Table, matches: Key -> bool): (r: Table)
    ensures forall k :: k in r <==> k in t && !matches(k)
    ensures forall k :: k in r ==> r[k] == t[k]
  {
    t - set k | k in t && matches(k)
  }

  /** The table after `clean(OLD)` at time `now`: exactly the rows with
      `timeout < now` are gone. */
  function Swept(t: Table, now: int): (r: Table)
    ensures forall k :: k in r <==> k in t && now <= t[k].timeout
    ensures forall k :: k in r ==> r[k] == t[k]
  {
    t - set k | k in t && t[k].timeout < now
  }

  /** The table after `clean(mode)` at time `now`. */
  function Cleaned(t: Table, mode: CleanMode, now: int): (r: Table)
    ensures forall k :: k in r <==> mode == Old && k in t && now <= t[k].timeout
    ensures forall k :: k in r ==> r[k] == t[k]
  {
    match mode
    case All => map[]
    case Old => Swept(t, now)
  }

  /** The row `set` writes at time `now` for a resolved lifetime. */
  function WrittenEntry(data: Data, lifetime: int, now: int): (e: Entry)
    ensures e.timeout - e.lastModified == lifetime
    ensures e.lastModified == now
    ensures e.data == data
  {
    Entry(data, now + lifetime, now)
  }

  /** The table after `set(key, data, lifetime)` at time `now`, where `sweep`
      says whether the automatic cleaning ran first. */
  function Written(t: Table, key: Key, data: Data, lifetime: int, now: int, sweep: bool): (r: Table)
    ensures key in r && r[key] == WrittenEntry(data, lifetime, now)
    ensures forall k :: k != key ==> (k in r <==> k in t && (!sweep || now <= t[k].timeout))
    ensures forall k :: k != key && k in r ==> r[k] == t[k]
    ensures !sweep ==> r.Keys == t.Keys + {key}
  {
    (if sweep then Swept(t, now) else t)[key := WrittenEntry(data, lifetime, now)]
  }
}
