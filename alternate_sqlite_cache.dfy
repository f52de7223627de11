/** The cache engine: an object that owns one SQLite database handle. Each read,
    `remove`, `removePattern` and `clean` runs one SQL statement on its `cache`
    table; `set` runs an `INSERT OR REPLACE`, preceded by the `DELETE` of
    `clean(OLD)` when the automatic cleaning fires.

    The clock (`time()`) is the parameter `now` of each operation, the lifetime is
    the already resolved number of seconds, the random number `set` draws is the
    parameter `draw`, and the compiled invalidation pattern is a key predicate. */
module AlternateSQLiteCache {
  import opened CacheTable

  class Cache {
    /** The rows of the `cache` table behind the database handle. */
    var rows: Table
    /** The `automatic_cleaning_factor` option: a sweep on one `set` in N. */
    const cleaningFactor: int

    /** An engine over an opened database whose table holds `rows`
        (empty when the schema has just been created). */
    constructor (cleaningFactor: int, rows: Table)
      ensures this.cleaningFactor == cleaningFactor
      ensures this.rows == rows
    {
      this.cleaningFactor := cleaningFactor;
      this.rows := rows;
    }

    /** `get`: the data of the live row of `key`, or `default`, which is `None`
        (PHP's `null`) when the caller passes none. */
    function Get(key: Key, default: Option<Data>, now: int): (r: Option<Data>)
      reads this
      ensures key in LiveRows(rows, now) ==> r == Some(LiveRows(rows, now)[key].data)
      ensures key !in LiveRows(rows, now) ==> r == default
    {
      match Select(rows, key, now)
      case None => default
      case Some(row) => Some(row.data)
    }

    /** `has`: whether `key` has a live row, by the same filter as `Get`. */
    function Has(key: Key, now: int): (present: bool)
      reads this
      ensures present <==> key in LiveRows(rows, now)
    {
      Select(rows, key, now).Some?
    }

    /** `getTimeout`: the timeout of the live row of `key`, 0 when there is none.
        With a clock that is not negative, 0 never stands for a live row. */
    function GetTimeout(key: Key, now: int): (timeout: int)
      reads this
      ensures key in LiveRows(rows, now) ==> timeout == LiveRows(rows, now)[key].timeout
      ensures key !in LiveRows(rows, now) ==> timeout == 0
      ensures 0 <= now ==> (now < timeout <==> Has(key, now))
    {
      match Select(rows, key, now)
      case None => 0
      case Some(row) => row.timeout
    }

    /** `getLastModified`: when the live row of `key` was written, 0 when there is none. */
    function GetLastModified(key: Key, now: int): (lastModified: int)
      reads this
      ensures key in LiveRows(rows, now) ==> lastModified == LiveRows(rows, now)[key].lastModified
      ensures key !in LiveRows(rows, now) ==> lastModified == 0
    {
      match Select(rows, key, now)
      case None => 0
      case Some(row) => row.lastModified
    }

    /** `set`: with `draw` the number `rand(1, factor)` returned, the expired rows
        are swept first when the factor is positive and the draw is 1; then the row
        of `key` is inserted or replaced. */
    method Set(key: Key, data: Data, lifetime: int, now: int, draw: int)
      requires 0 < cleaningFactor ==> 1 <= draw <= cleaningFactor
      modifies this
      ensures rows == Written(old(rows), key, data, lifetime, now, 0 < cleaningFactor && draw == 1)
      ensures cleaningFactor <= 0 ==> rows == old(rows)[key := WrittenEntry(data, lifetime, now)]
      ensures cleaningFactor == 1 ==> rows == Written(old(rows), key, data, lifetime, now, true)
    {
      if 0 < cleaningFactor && draw == 1 {
        Clean(Old, now);
      }
      rows := InsertOrReplace(rows, key, WrittenEntry(data, lifetime, now));
    }

    /** `remove`: `DELETE FROM cache WHERE key = :key`. */
    method Remove(key: Key)
      modifies this
      ensures rows == Removed(old(rows), key)
    {
      rows := DeleteWhere(rows, (k, e) => k == key);
    }

    /** `removePattern`: deletes every row whose key the compiled pattern matches. */
    method RemovePattern(matches: Key -> bool)
      modifies this
      ensures rows == RemovedMatching(old(rows), matches)
    {
      rows := DeleteWhere(rows, (k, e) => matches(k));
    }

    /** `clean`: `DELETE FROM cache`, restricted to `timeout < now` in mode `Old`. */
    method Clean(mode: CleanMode, now: int)
      modifies this
      ensures rows == Cleaned(old(rows), mode, now)
    {
      match mode
      case Old =>
        rows := DeleteWhere(rows, (k, e: Entry) => e.timeout < now);
      case All =>
        rows := DeleteWhere(rows, (k, e) => true);
    }
  }

  /** Two call sequences and what the contracts above let a user conclude: a
      pattern removal leaves other keys readable; a row written with a negative
      lifetime is stored, unreadable, and removed by `clean(OLD)`. */
  method Scenarios(now: int)
  {
    var cache := new Cache(0, map[]);
    cache.Set("a", "1", 10, now, 0);
    cache.Set("b", "2", 10, now, 0);
    cache.RemovePattern(k => |k| > 0 && k[0] == 'a');
    assert !cache.Has("a", now) && cache.Has("b", now);
    assert cache.Get("b", None, now) == Some("2");

    cache.Set("x", "v", -1, now, 0);
    assert "x" in cache.rows && cache.Get("x", None, now) == None;
    cache.Clean(Old, now);
    assert "x" !in cache.rows && cache.Has("b", now);
  }
}
