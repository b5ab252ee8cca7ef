/** The data-access objects of api/database/models.ts: `IPRecordDAO` over the
    `ip_records` table and `ConfigDAO` over the `config` table. Each static method
    of the source becomes a method that takes the database it works on. */
module Models {
  import opened Base
  import Decimal
  import opened Init

  const DefaultTimeout: nat := 3600

  // ----- lookups -----

  /** The first row satisfying `matches`, as `db.get` returns it. */
  function Find(rows: seq<IPRecord>, matches: IPRecord -> bool): (found: Option<IPRecord>)
    ensures found.Some? ==> found.value in rows && matches(found.value)
    ensures found.None? ==> forall r :: r in rows ==> !matches(r)
  {
    if rows == [] then None
    else if matches(rows[0]) then Some(rows[0])
    else Find(rows[1..], matches)
  }

  function IdIs(id: int): IPRecord -> bool { (x: IPRecord) => x.id == id }
  function IdIsNot(id: int): IPRecord -> bool { (x: IPRecord) => x.id != id }
  function IpIs(ip: string): IPRecord -> bool { (x: IPRecord) => x.ip == ip }

  // ----- ORDER BY created_at DESC -----

  predicate SortedByCreatedDesc(rows: seq<IPRecord>) {
    forall i, j :: 0 <= i < j < |rows| ==> rows[i].createdAt >= rows[j].createdAt
  }

  /** A row no older than everything in a sorted list can go in front of it. */
  lemma PrependSorted(y: IPRecord, s: seq<IPRecord>)
    requires SortedByCreatedDesc(s)
    requires forall k :: 0 <= k < |s| ==> s[k].createdAt <= y.createdAt
    ensures SortedByCreatedDesc([y] + s)
  {
    var t := [y] + s;
    forall i, j | 0 <= i < j < |t| ensures t[i].createdAt >= t[j].createdAt {
      assert t[j] == s[j - 1];
      if i > 0 { assert t[i] == s[i - 1]; }
    }
  }

  function InsertByCreatedDesc(x: IPRecord, sorted: seq<IPRecord>): (r: seq<IPRecord>)
    requires SortedByCreatedDesc(sorted)
    ensures SortedByCreatedDesc(r)
    ensures multiset(r) == multiset(sorted) + multiset{x}
  {
    if sorted == [] || x.createdAt >= sorted[0].createdAt then
      PrependSorted(x, sorted);
      [x] + sorted
    else
      var head, tail := sorted[0], sorted[1..];
      assert sorted == [head] + tail;
      assert SortedByCreatedDesc(tail);
      var rest := InsertByCreatedDesc(x, tail);
      forall k | 0 <= k < |rest| ensures rest[k].createdAt <= head.createdAt {
        assert rest[k] in multiset(tail) + multiset{x};
      }
      PrependSorted(head, rest);
      [head] + rest
  }

  /** The row order SQLite returns for ORDER BY created_at DESC. Rows with equal
      creation times may come in any order; this model fixes one of those orders. */
  function SortByCreatedDesc(rows: seq<IPRecord>): (sorted: seq<IPRecord>)
    ensures SortedByCreatedDesc(sorted)
    ensures multiset(sorted) == multiset(rows)
  {
    if rows == [] then []
    else
      assert rows == [rows[0]] + rows[1..];
      InsertByCreatedDesc(rows[0], SortByCreatedDesc(rows[1..]))
  }

  // ----- IPRecordDAO -----

  /** `getIPById`: the row with that id, or the 'IP record not found' rejection. */
  method GetIPById(db: Db, id: int) returns (r: Result<IPRecord>)
    requires db.Valid()
    ensures r.Ok? <==> exists x :: x in db.rows && x.id == id
    ensures r.Ok? ==> r.value in db.rows && r.value.id == id
    ensures r.Err? ==> r.error == NotFound
  {
    var found := Find(db.rows, IdIs(id));
    if found.Some? {
      r := Ok(found.value);
    } else {
      r := Err(NotFound);
    }
  }

  /** `addIP`: INSERT of a new row. The UNIQUE constraint on ip rejects a second row for
      the same address; otherwise the row gets the next autoincrement id and the current
      time, and is read back by id. */
  method AddIP(db: Db, ip: string, now: int) returns (r: Result<IPRecord>)
    requires db.Valid()
    modifies db`rows, db`nextId
    ensures db.Valid()
    ensures (exists x :: x in old(db.rows) && x.ip == ip) ==>
      r == Err(UniqueViolation) && db.rows == old(db.rows) && db.nextId == old(db.nextId)
    ensures (forall x :: x in old(db.rows) ==> x.ip != ip) ==>
      && r == Ok(IPRecord(old(db.nextId), ip, now))
      && db.rows == old(db.rows) + [r.value]
      && db.nextId == old(db.nextId) + 1
      && (forall x :: x in old(db.rows) ==> x.id < r.value.id)
  {
    if Find(db.rows, IpIs(ip)).Some? {
      return Err(UniqueViolation);
    }
    var row := IPRecord(db.nextId, ip, now);
    forall x | x in db.rows ensures x.id < row.id && x.ip != ip {
      var k :| 0 <= k < |db.rows| && db.rows[k] == x;
    }
    db.rows := db.rows + [row];
    db.nextId := db.nextId + 1;
    r := GetIPById(db, row.id);
    if r.Ok? {
      var k :| 0 <= k < |db.rows| && db.rows[k] == r.value;
      assert k == |db.rows| - 1;
    }
  }

  /** `checkIPExists`: the row with this ip, or null. Reads only. */
  method CheckIPExists(db: Db, ip: string) returns (r: Option<IPRecord>)
    requires db.Valid()
    ensures r.Some? <==> exists x :: x in db.rows && x.ip == ip
    ensures r.Some? ==> r.value in db.rows && r.value.ip == ip
  {
    r := Find(db.rows, IpIs(ip));
  }

  /** `getAllIPs`: every row exactly once, newest first. */
  method GetAllIPs(db: Db) returns (r: seq<IPRecord>)
    requires db.Valid()
    ensures SortedByCreatedDesc(r)
    ensures multiset(r) == multiset(db.rows)
  {
    r := SortByCreatedDesc(db.rows);
  }

  /** `deleteIP`: DELETE WHERE id = ?; true iff a row was removed. */
  method DeleteIP(db: Db, id: int) returns (deleted: bool)
    requires db.Valid()
    modifies db`rows
    ensures db.Valid()
    ensures deleted <==> exists x :: x in old(db.rows) && x.id == id
    ensures db.rows == Filter(old(db.rows), IdIsNot(id))
  {
    var before := db.rows;
    FilterKeepsInvariant(before, IdIsNot(id), db.nextId);
    db.rows := Filter(before, IdIsNot(id));
    FilterDropsCounted(before, IdIsNot(id));
    deleted := |before| - |db.rows| > 0;
    if !deleted {
      assert Filter(before, IdIsNot(id)) == before by {
        NothingDroppedKeepsAll(before, IdIsNot(id));
      }
    } else {
      var x :| x in before && x.id == id by {
        SomethingDropped(before, IdIsNot(id));
      }
    }
  }

  /** When the count of dropped rows is zero, every row was kept. */
  lemma {:induction false} NothingDroppedKeepsAll(rows: seq<IPRecord>, keep: IPRecord -> bool)
    requires CountDropped(rows, keep) == 0
    ensures Filter(rows, keep) == rows
    ensures forall x :: x in rows ==> keep(x)
  {
    if rows != [] {
      NothingDroppedKeepsAll(rows[1..], keep);
    }
  }

  /** When some row was dropped, one of the rows fails `keep`. */
  lemma {:induction false} SomethingDropped(rows: seq<IPRecord>, keep: IPRecord -> bool)
    requires |Filter(rows, keep)| < |rows|
    ensures exists x :: x in rows && !keep(x)
  {
    if keep(rows[0]) {
      SomethingDropped(rows[1..], keep);
      var x :| x in rows[1..] && !keep(x);
      assert x in rows;
    }
  }

  /** `clearAllIPs`: DELETE of every row; returns how many there were. The autoincrement
      counter is not reset, so ids are never reused. */
  method ClearAllIPs(db: Db) returns (count: nat)
    requires db.Valid()
    modifies db`rows
    ensures db.Valid()
    ensures count == |old(db.rows)| && db.rows == []
  {
    count := |db.rows|;
    db.rows := [];
  }

  // ----- ConfigDAO -----

  /** `getConfig`: the stored value, or null for a missing key. Reads only. */
  method GetConfig(db: Db, key: string) returns (v: Option<string>)
    requires db.Valid()
    ensures v.Some? <==> key in db.config
    ensures v.Some? ==> v.value == db.config[key]
  {
    v := if key in db.config then Some(db.config[key]) else None;
  }

  /** `setConfig`: INSERT OR REPLACE of one key; the other keys are untouched. */
  method SetConfig(db: Db, key: string, value: string)
    requires db.Valid() && EntryWellFormed(key, value)
    modifies db`config
    ensures db.Valid()
    ensures db.config == old(db.config)[key := value]
  {
    db.config := db.config[key := value];
  }

  /** A write is read back under its key; every other key reads as before. */
  method ConfigReadsBackWrite(db: Db, key: string, value: string, other: string)
    returns (written: Option<string>, untouched: Option<string>)
    requires db.Valid() && EntryWellFormed(key, value) && other != key
    modifies db`config
    ensures written == Some(value)
    ensures untouched == if other in old(db.config) then Some(old(db.config)[other]) else None
  {
    SetConfig(db, key, value);
    written := GetConfig(db, key);
    untouched := GetConfig(db, other);
  }

  /** What `getTimeout` returns: the stored timeout read as a number, 3600 when the key
      is missing (or its text is empty, which `timeoutStr ?` also treats as missing). */
  function TimeoutOf(config: map<string, string>): (t: nat)
    requires ConfigWellFormed(config)
    ensures TimeoutKey !in config ==> t == DefaultTimeout
    ensures SweepTimeout(config).Some? ==> t == SweepTimeout(config).value
  {
    if TimeoutKey in config && config[TimeoutKey] != "" then Decimal.ParseDigits(config[TimeoutKey])
    else DefaultTimeout
  }

  /** A timeout written as text reads back as the same number, and no other key moves. */
  lemma TimeoutRoundTrip(config: map<string, string>, seconds: nat)
    requires ConfigWellFormed(config)
    ensures ConfigWellFormed(config[TimeoutKey := Decimal.NatToString(seconds)])
    ensures TimeoutOf(config[TimeoutKey := Decimal.NatToString(seconds)]) == seconds
    ensures SweepTimeout(config[TimeoutKey := Decimal.NatToString(seconds)]) == Some(seconds)
  {
    Decimal.ParseNatToString(seconds);
  }

  /** `ConfigDAO.getTimeout`. Reads only. */
  method GetTimeout(db: Db) returns (t: nat)
    requires db.Valid()
    ensures TimeoutKey !in db.config ==> t == DefaultTimeout
    ensures TimeoutKey in db.config ==> t == Decimal.ParseDigits(db.config[TimeoutKey])
    ensures t == TimeoutOf(db.config)
  {
    t := TimeoutOf(db.config);
  }

  /** `ConfigDAO.setTimeout`: stores `seconds.toString()` under `timeout`. */
  method SetTimeout(db: Db, seconds: nat)
    requires db.Valid()
    modifies db`config
    ensures db.Valid()
    ensures db.config == old(db.config)[TimeoutKey := Decimal.NatToString(seconds)]
    ensures TimeoutOf(db.config) == seconds
  {
    TimeoutRoundTrip(db.config, seconds);
    SetConfig(db, TimeoutKey, Decimal.NatToString(seconds));
  }
}
