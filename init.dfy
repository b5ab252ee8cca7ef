/** The two SQLite tables as in-memory state (api/database/init.ts): `ip_records`
    (autoincrement id, unique ip, creation time) and `config` (key to text value),
    the default seeding done by `initDatabase`, and the bulk expiry delete
    `cleanupExpiredIPs`. Timestamps are whole seconds, the resolution of SQLite's
    CURRENT_TIMESTAMP and datetime('now'). */
module Init {
  import opened Base
  import Decimal

  const TimeoutKey: string := "timeout"
  const EnabledKey: string := "auto_cleanup_enabled"
  const IntervalKey: string := "auto_cleanup_interval"

  /** The rows `initDatabase` inserts with INSERT OR IGNORE. */
  const DefaultConfig: map<string, string> :=
    map[TimeoutKey := "3600", EnabledKey := "true", IntervalKey := "300"]

  datatype IPRecord = IPRecord(id: nat, ip: string, createdAt: int)

  /** The schema's constraints: id is the primary key, ip is UNIQUE, and every id
      AUTOINCREMENT has handed out lies below the next one it will hand out. */
  ghost predicate TableInvariant(rows: seq<IPRecord>, nextId: nat) {
    && (forall i, j :: 0 <= i < j < |rows| ==> rows[i].id != rows[j].id && rows[i].ip != rows[j].ip)
    && (forall i :: 0 <= i < |rows| ==> 0 < rows[i].id < nextId)
  }

  /** The numeric settings hold decimal text, as `toString()` writes it. */
  predicate ConfigWellFormed(config: map<string, string>) {
    && (TimeoutKey in config ==> Decimal.IsDigits(config[TimeoutKey]))
    && (IntervalKey in config ==> Decimal.IsDigits(config[IntervalKey]))
  }

  /** A write that keeps the configuration well formed. */
  predicate EntryWellFormed(key: string, value: string) {
    key == TimeoutKey || key == IntervalKey ==> Decimal.IsDigits(value)
  }

  class Db {
    var rows: seq<IPRecord>
    var nextId: nat
    var config: map<string, string>

    ghost predicate Valid()
      reads this
    {
      nextId >= 1 && TableInvariant(rows, nextId) && ConfigWellFormed(config)
    }

    /** A fresh database file: both tables exist and are empty. */
    constructor ()
      ensures Valid()
      ensures rows == [] && nextId == 1 && config == map[]
    {
      rows := [];
      nextId := 1;
      config := map[];
    }
  }

  /** The rows of `rows` for which `keep` holds, in their order: what a DELETE with
      the negated condition leaves behind. */
  function Filter(rows: seq<IPRecord>, keep: IPRecord -> bool): (kept: seq<IPRecord>)
    ensures |kept| <= |rows|
    ensures forall r :: r in kept <==> r in rows && keep(r)
  {
    if rows == [] then []
    else (if keep(rows[0]) then [rows[0]] else []) + Filter(rows[1..], keep)
  }

  /** The number of rows for which `keep` does not hold: SQLite's `changes`. */
  function CountDropped(rows: seq<IPRecord>, keep: IPRecord -> bool): nat {
    if rows == [] then 0
    else (if keep(rows[0]) then 0 else 1) + CountDropped(rows[1..], keep)
  }

  lemma {:induction false} FilterDropsCounted(rows: seq<IPRecord>, keep: IPRecord -> bool)
    ensures |rows| == |Filter(rows, keep)| + CountDropped(rows, keep)
  {
    if rows != [] {
      FilterDropsCounted(rows[1..], keep);
    }
  }

  lemma {:induction false} FilterIdempotent(rows: seq<IPRecord>, keep: IPRecord -> bool)
    ensures Filter(Filter(rows, keep), keep) == Filter(rows, keep)
  {
    if rows != [] {
      FilterIdempotent(rows[1..], keep);
      if keep(rows[0]) {
        assert Filter(rows, keep) == [rows[0]] + Filter(rows[1..], keep);
        var f := Filter(rows, keep);
        assert f[0] == rows[0] && f[1..] == Filter(rows[1..], keep);
        assert Filter(f, keep) == [f[0]] + Filter(f[1..], keep);
      } else {
        assert Filter(rows, keep) == Filter(rows[1..], keep);
      }
    }
  }

  /** Deleting rows never breaks the schema's constraints. */
  lemma {:induction false} FilterKeepsInvariant(rows: seq<IPRecord>, keep: IPRecord -> bool, nextId: nat)
    requires TableInvariant(rows, nextId)
    ensures TableInvariant(Filter(rows, keep), nextId)
  {
    if rows != [] {
      var tail := rows[1..];
      assert TableInvariant(tail, nextId) by {
        forall i, j | 0 <= i < j < |tail| ensures tail[i].id != tail[j].id && tail[i].ip != tail[j].ip {
          assert tail[i] == rows[i + 1] && tail[j] == rows[j + 1];
        }
      }
      FilterKeepsInvariant(tail, keep, nextId);
      var rest := Filter(tail, keep);
      var kept := Filter(rows, keep);
      if keep(rows[0]) {
        assert kept == [rows[0]] + rest;
        forall j | 0 <= j < |rest| ensures rows[0].id != rest[j].id && rows[0].ip != rest[j].ip {
          assert rest[j] in tail;
          var k :| 0 <= k < |tail| && tail[k] == rest[j];
          assert rows[k + 1] == rest[j];
        }
        forall i, j | 0 <= i < j < |kept| ensures kept[i].id != kept[j].id && kept[i].ip != kept[j].ip {
          if i > 0 {
            assert kept[i] == rest[i - 1] && kept[j] == rest[j - 1];
          } else {
            assert kept[j] == rest[j - 1];
          }
        }
      } else {
        assert kept == rest;
      }
    }
  }

  /** The expiry condition of the sweep: `datetime(created_at, '+<timeout> seconds') < datetime('now')`.
      A row whose expiry equals now is kept. */
  predicate IsExpiredRow(r: IPRecord, timeout: int, now: int) {
    r.createdAt + timeout < now
  }

  /** The rows the sweep at `now` keeps under timeout `t`. */
  function NotExpired(t: int, now: int): IPRecord -> bool {
    r => !IsExpiredRow(r, t, now)
  }

  /** The value the sweep's subquery yields: the stored timeout, or NULL when the key is
      absent (or holds text SQLite cannot read as a number of seconds). */
  function SweepTimeout(config: map<string, string>): Option<nat> {
    if TimeoutKey in config && Decimal.IsDigits(config[TimeoutKey])
    then Some(Decimal.ParseDigits(config[TimeoutKey]))
    else None
  }

  /** The rows that survive `cleanupExpiredIPs` run at time `now`. With no timeout the
      condition is NULL for every row and nothing is deleted. */
  function AfterSweep(rows: seq<IPRecord>, config: map<string, string>, now: int): (kept: seq<IPRecord>)
    ensures TimeoutKey !in config ==> kept == rows
    ensures |kept| <= |rows|
  {
    match SweepTimeout(config)
    case None => rows
    case Some(t) => Filter(rows, NotExpired(t, now))
  }

  /** The sweep deletes exactly the expired rows: every survivor was there before and is
      not expired, every row that was there and is not expired survives. */
  lemma SweepKeepsExactlyFresh(rows: seq<IPRecord>, config: map<string, string>, now: int, t: nat)
    requires SweepTimeout(config) == Some(t)
    ensures forall r :: r in AfterSweep(rows, config, now) <==> r in rows && r.createdAt + t >= now
  {
  }

  /** A second sweep at the same time deletes nothing. */
  lemma SweepTwiceDeletesNothing(rows: seq<IPRecord>, config: map<string, string>, now: int)
    ensures AfterSweep(AfterSweep(rows, config, now), config, now) == AfterSweep(rows, config, now)
  {
    match SweepTimeout(config)
    case None =>
    case Some(t) => FilterIdempotent(rows, NotExpired(t, now));
  }

  /** `cleanupExpiredIPs` (init.ts): one DELETE that removes the rows whose creation time
      plus the configured timeout lies before `now`; it returns the number deleted. */
  method CleanupExpiredIPs(db: Db, now: int) returns (deleted: nat)
    requires db.Valid()
    modifies db`rows
    ensures db.Valid()
    ensures db.rows == AfterSweep(old(db.rows), db.config, now)
    ensures deleted == |old(db.rows)| - |db.rows|
    ensures db.config == old(db.config) && db.nextId == old(db.nextId)
  {
    var before := db.rows;
    match SweepTimeout(db.config)
    case None =>
      deleted := 0;
    case Some(t) =>
      var keep := NotExpired(t, now);
      FilterKeepsInvariant(before, keep, db.nextId);
      db.rows := Filter(before, keep);
      deleted := |before| - |db.rows|;
  }

  /** The configuration after `INSERT OR IGNORE` of the three defaults. */
  function Seeded(config: map<string, string>): (seeded: map<string, string>)
    ensures seeded.Keys == config.Keys + DefaultConfig.Keys
    ensures forall k :: k in config ==> seeded[k] == config[k]
    ensures forall k :: k in DefaultConfig && k !in config ==> seeded[k] == DefaultConfig[k]
  {
    DefaultConfig + config
  }

  /** Seeding twice is seeding once. */
  lemma SeedingIdempotent(config: map<string, string>)
    ensures Seeded(Seeded(config)) == Seeded(config)
  {
  }

  /** After seeding the three settings are present, with their stored values kept. */
  lemma SeededHasSettings(config: map<string, string>)
    requires ConfigWellFormed(config)
    ensures TimeoutKey in Seeded(config) && EnabledKey in Seeded(config) && IntervalKey in Seeded(config)
    ensures ConfigWellFormed(Seeded(config))
  {
    assert Decimal.IsDigits("3600") && Decimal.IsDigits("300");
  }

  /** `initDatabase` (init.ts): CREATE TABLE IF NOT EXISTS leaves existing rows alone; the
      defaults are inserted only for the keys that are absent. */
  method InitDatabase(db: Db)
    requires db.Valid()
    modifies db`config
    ensures db.Valid()
    ensures db.config == Seeded(old(db.config))
  {
    SeededHasSettings(db.config);
    db.config := Seeded(db.config);
  }
}
