# AlternateSQLiteCache, modelled in Dafny

`AlternateSQLiteCache` is a symfony 1.4 cache engine that keeps its entries in
one SQLite table, `cache(key, data, timeout, last_modified)`, with a unique index
on `key`. `get`, `has`, `getTimeout`, `getLastModified`, `remove`, `removePattern`
and `clean` each run one SQL statement on that table, and `set` runs one or two:

- `get`, `has`, `getTimeout` and `getLastModified` select the row of a key, but
  only while it is live, that is while `timeout > now`;
- `set` runs `INSERT OR REPLACE` with `timeout = now + lifetime` and
  `last_modified = now`; when the `automatic_cleaning_factor` option N is positive
  and `rand(1, N)` returns 1, it first runs the `DELETE` of `clean(OLD)`;
- `remove` deletes the row of one key, `removePattern` every row whose key matches
  the compiled pattern, and `clean` either the rows with `timeout < now` (mode
  OLD) or all rows.

The model replaces the table by what it means: because of the unique index it
is a map from key to entry `(data, timeout, lastModified)`.

- `cache_table.dfy`, module `CacheTable`: entries, the table, the liveness filter
  and the live view `LiveRows` that every read goes through, the SQL statements
  (`Select`, `DeleteWhere`, `InsertOrReplace`) and the abstract effect of each
  write (`Written`, `Removed`, `RemovedMatching`, `Swept`, `Cleaned`), each
  stating which rows it deletes or writes and that every other row is unchanged.
- `alternate_sqlite_cache.dfy`, module `AlternateSQLiteCache`: the class `Cache`,
  whose field `rows` is the table and whose constant `cleaningFactor` is the
  option. The reads are functions of `rows`; the writes are methods that run the
  statement the source runs and are proved to have the abstract effect.
- `cache_laws.dfy`, module `CacheLaws`: what one write does to later reads.
- `history.dfy`, module `History`: sequences of calls, and what survives them.

The clock `time()` is the parameter `now`; the lifetime is the number of seconds
already resolved by the base class; `rand(1, N)` is the parameter `draw`; the
compiled pattern is a predicate on keys.

`clean` deletes every row for every mode other than `sfCache::OLD`
(AlternateSQLiteCache.class.php:116), not only for its default `sfCache::ALL`
(:114); the model's `All` case stands for every mode other than `Old`. A row
whose timeout equals the current time is already invisible to reads but survives
`clean(OLD)`, since reads test `timeout > now` and the sweep `timeout < now`
(`CacheLaws.ExpiringRowSurvivesClean`).

## Model

| member | source | states |
|---|---|---|
| `CacheTable.WrittenEntry` | AlternateSQLiteCache.class.php:82-86 | the row `set` writes holds the data, `last_modified = now`, and a timeout exactly `lifetime` after it |
| `CacheTable.Written` | AlternateSQLiteCache.class.php:76-89 | after `set` the key's row is the new entry, replacing any older one; another key keeps its row unchanged unless the sweep ran and its timeout was before `now`; without a sweep the keys are the old keys plus the written one |
| `CacheTable.Removed` | AlternateSQLiteCache.class.php:94-99 | `remove` deletes the key's row, live or not, and leaves every other row unchanged |
| `CacheTable.RemovedMatching` | AlternateSQLiteCache.class.php:104-109 | `removePattern` keeps exactly the rows whose key the pattern does not match, whatever their timeout, unchanged |
| `CacheTable.Swept` | AlternateSQLiteCache.class.php:116 | `clean(OLD)` keeps exactly the rows with `timeout >= now`, unchanged |
| `CacheTable.Cleaned` | AlternateSQLiteCache.class.php:114-117 | `clean(ALL)` leaves the table empty; `clean(OLD)` keeps exactly the rows with `timeout >= now` |
| `AlternateSQLiteCache.Cache.Get` | AlternateSQLiteCache.class.php:52-60 | returns the data of the key's row when it is live at `now`, the default otherwise (`None`, PHP's `null`, when none is given) |
| `AlternateSQLiteCache.Cache.Has` | AlternateSQLiteCache.class.php:65-71 | true exactly when the key's row is live, the view `Get` reads; as a function it changes nothing |
| `AlternateSQLiteCache.Cache.GetTimeout` | AlternateSQLiteCache.class.php:122-130 | the timeout of the live row, 0 without one; for a clock that is not negative the result exceeds `now` exactly when `Has` holds |
| `AlternateSQLiteCache.Cache.GetLastModified` | AlternateSQLiteCache.class.php:135-144 | the `last_modified` of the live row, 0 without one |
| `AlternateSQLiteCache.Cache.Set` | AlternateSQLiteCache.class.php:76-89 | the new table is `Written` of the old one, with the sweep run exactly when the factor is positive and the draw is 1; a factor of 0 or less never deletes other rows; a factor of 1 always sweeps |
| `AlternateSQLiteCache.Cache.Remove` | AlternateSQLiteCache.class.php:94-99 | the `DELETE ... WHERE key = :key` statement has the effect `Removed` |
| `AlternateSQLiteCache.Cache.RemovePattern` | AlternateSQLiteCache.class.php:104-109 | deleting by the pattern callback has the effect `RemovedMatching` |
| `AlternateSQLiteCache.Cache.Clean` | AlternateSQLiteCache.class.php:114-117 | the `DELETE` statement of either mode has the effect `Cleaned` |
| `CacheLaws.WrittenIsRead` | AlternateSQLiteCache.class.php:82-86 | a row written at `now` is seen at `later` exactly while `later < now + lifetime`, with the written data and times; at `now` itself only for a positive lifetime |
| `CacheLaws.SweptKeepsLaterReads` | AlternateSQLiteCache.class.php:116 | the sweep at `now` never changes what a read at `now` or later sees |
| `CacheLaws.WrittenKeepsOtherReads` | AlternateSQLiteCache.class.php:78-86 | a `set`, with or without its sweep, changes what reads at or after its time see only at its own key |
| `CacheLaws.SweepBeforeOrAfterWrite` | AlternateSQLiteCache.class.php:78-86 | sweeping after the write instead of before gives the same table exactly when the lifetime is not negative |
| `CacheLaws.ExpiringRowSurvivesClean` | AlternateSQLiteCache.class.php:114-117 | a row with `timeout == now` is invisible at `now` yet survives `clean(OLD)` at `now`, and is deleted by one a second later |
| `CacheLaws.SweptTwice` | AlternateSQLiteCache.class.php:116 | two `clean(OLD)` calls are one at the later of the two times |
| `CacheLaws.RemovedTwice` | AlternateSQLiteCache.class.php:94-99 | `remove` twice is `remove` once, and the key is then invisible at every time |
| `CacheLaws.RemovedMatchingTwice` | AlternateSQLiteCache.class.php:104-109 | two pattern removals are one removal by the disjunction of the patterns; one pattern twice is once |
| `History.ApplyKeeps` | AlternateSQLiteCache.class.php:76-117 | a call other than a `set` of the key keeps its row exactly when `Keeps` holds, and never alters it |
| `History.RowSurvives` | AlternateSQLiteCache.class.php:76-117 | a row survives unchanged any sequence of calls that each keep it |
| `History.EveryRowWasWritten` | AlternateSQLiteCache.class.php:76-117 | every row after a sequence of calls was there before, untouched, or was written by a `set` of its key in the sequence |
| `History.NeverWrittenNeverSeen` | AlternateSQLiteCache.class.php:52-71 | on a cache that starts empty, a key no `set` wrote is never in the live view every read goes through |
| `History.ReadNeverWritten` | AlternateSQLiteCache.class.php:52-71 | on an engine whose table a sequence of calls left behind from an empty one, for a key no `set` wrote, `Get` returns the default, `Has` is false and `GetTimeout` and `GetLastModified` return 0 (lines 122-144 for the two times) |
| `History.LastWriteWins` | AlternateSQLiteCache.class.php:82-86 | after a `set` followed by calls that keep its row, the key's single row is the one that `set` wrote, visible exactly until its timeout |

## Left out

- `initialize`, `setDatabase` and `createSchema` (checks for the SQLite extension, the `database` option, creating the directory and file, opening the connection, registering the `regexp` callback, the DDL): driver and file-system plumbing; the constructor of `Cache` stands for an opened database whose table holds the given rows, and the unique index is the reason the table is a map.
- `getMany`: it binds all keys joined by `', '` into one `IN (:keys)` placeholder and iterates over the single row `fetchArray` returns, so its result depends on the driver rather than on the cache logic.
- `getBackend`: it only returns the driver handle.
- `get`'s `$default` may be any PHP value; the model gives it the type `Option<Data>`, where `None` stands for the `null` default and `Some(d)` for a string default.
- `patternToRegexp` (in the base class `sfCache`, which is not part of this model) and `preg_match`: the compiled pattern is an arbitrary predicate on keys.
- `getLifetime` (base class): the lifetime is passed already resolved.
- The boolean results of `set`, `remove`, `removePattern` and `clean`: they cast the result of `fetchArray()` or `query()` on data-changing statements and depend on the driver.
- `AlternateSQLiteCache.Cache.Set`: reads the clock once; the source calls `time()` separately for the sweep, the timeout and `last_modified`, which can differ when a second boundary falls between the calls.
- PHP's 64-bit integers: `now + lifetime` is unbounded here, where PHP would turn an overflowing sum into a float.
- `clean(OLD)` compares `timeout` with the current time written as a quoted string; the column's numeric affinity makes SQLite compare numbers, which is what the model does.
- Failures of the driver during a statement, and concurrent processes sharing the database file, which SQLite serialises.
