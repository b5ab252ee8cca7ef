/** The service layer of api/services/ipService.ts: `IPService` (validation, idempotent
    add, lookup, lazily cleaned listing, delete, clear) and `ConfigService` (timeout and
    auto-cleanup settings). Storage errors cannot happen in the in-memory tables, so the
    services' catch branches have no counterpart here. */
module IpService {
  import opened Base
  import Decimal
  import opened Init
  import Models

  // ===== isValidIP =====

  /** The pieces of `s` between dots, as `s.split('.')`. */
  function Split(s: string): (parts: seq<string>)
    ensures |parts| >= 1
  {
    if s == [] then [""]
    else
      var rest := Split(s[1..]);
      if s[0] == '.' then [""] + rest else [[s[0]] + rest[0]] + rest[1..]
  }

  /** One octet of the address pattern: `25[0-5]|2[0-4][0-9]|[01]?[0-9][0-9]?`, its last
      alternative written out for each choice of its two optional parts. */
  predicate MatchesOctetPattern(g: string) {
    || (|g| == 3 && g[0] == '2' && g[1] == '5' && '0' <= g[2] <= '5')
    || (|g| == 3 && g[0] == '2' && '0' <= g[1] <= '4' && Decimal.IsDigit(g[2]))
    || (|g| == 1 && Decimal.IsDigit(g[0]))
    || (|g| == 2 && (g[0] == '0' || g[0] == '1') && Decimal.IsDigit(g[1]))
    || (|g| == 2 && Decimal.IsDigit(g[0]) && Decimal.IsDigit(g[1]))
    || (|g| == 3 && (g[0] == '0' || g[0] == '1') && Decimal.IsDigit(g[1]) && Decimal.IsDigit(g[2]))
  }

  /** `isValidIP`: the anchored pattern `^(?:O\.){3}O$`. No octet alternative contains a
      dot, so a string matches exactly when its dot-separated pieces are four octets. */
  predicate IsValidIP(ip: string) {
    var parts := Split(ip);
    |parts| == 4 && forall i :: 0 <= i < 4 ==> MatchesOctetPattern(parts[i])
  }

  /** The plain reading of an octet: one to three decimal digits, leading zeros allowed,
      with a value of at most 255. */
  predicate IsOctet(g: string) {
    1 <= |g| <= 3 && Decimal.IsDigits(g) && Decimal.ParseDigits(g) <= 255
  }

  lemma ParseTwo(g: string)
    requires |g| == 2 && Decimal.IsDigits(g)
    ensures Decimal.ParseDigits(g) == Decimal.DigitValue(g[0]) * 10 + Decimal.DigitValue(g[1])
  {
    assert g[..1][..0] == [] && g[..1][0] == g[0];
    assert Decimal.ParseDigits(g[..1]) == Decimal.DigitValue(g[0]);
  }

  lemma ParseThree(g: string)
    requires |g| == 3 && Decimal.IsDigits(g)
    ensures Decimal.ParseDigits(g) ==
      Decimal.DigitValue(g[0]) * 100 + Decimal.DigitValue(g[1]) * 10 + Decimal.DigitValue(g[2])
  {
    ParseTwo(g[..2]);
  }

  /** The octet pattern accepts exactly the one-to-three-digit strings of value at most 255. */
  lemma OctetPatternIsOctet(g: string)
    ensures MatchesOctetPattern(g) <==> IsOctet(g)
  {
    if |g| == 1 && Decimal.IsDigit(g[0]) {
      assert g[..0] == [];
      assert Decimal.ParseDigits(g) == Decimal.DigitValue(g[0]);
    } else if |g| == 2 && Decimal.IsDigits(g) {
      ParseTwo(g);
    } else if |g| == 3 && Decimal.IsDigits(g) {
      ParseThree(g);
    }
  }

  /** `isValidIP` accepts exactly four dot-separated octets. */
  lemma ValidIPIsDottedQuad(ip: string)
    ensures IsValidIP(ip) <==> |Split(ip)| == 4 && forall i :: 0 <= i < 4 ==> IsOctet(Split(ip)[i])
  {
    var parts := Split(ip);
    forall i | 0 <= i < |parts| ensures MatchesOctetPattern(parts[i]) <==> IsOctet(parts[i]) {
      OctetPatternIsOctet(parts[i]);
    }
  }

  lemma {:induction false} SplitWithoutDot(x: string)
    requires '.' !in x
    ensures Split(x) == [x]
  {
    if x != [] {
      assert '.' !in x[1..] by {
        forall c | c in x[1..] ensures c in x { }
      }
      SplitWithoutDot(x[1..]);
      assert x == [x[0]] + x[1..];
    }
  }

  lemma {:induction false} SplitAtDot(x: string, y: string)
    requires '.' !in x
    ensures Split(x + "." + y) == [x] + Split(y)
  {
    if x == [] {
      assert (x + "." + y)[1..] == y;
    } else {
      assert (x + "." + y)[1..] == x[1..] + "." + y;
      assert '.' !in x[1..] by {
        forall c | c in x[1..] ensures c in x { }
      }
      SplitAtDot(x[1..], y);
      assert x == [x[0]] + x[1..];
    }
  }

  /** An address written from four numbers, as `a.b.c.d`. */
  function FormatIP(a: nat, b: nat, c: nat, d: nat): string {
    Decimal.NatToString(a) + "." + Decimal.NatToString(b) + "." +
    Decimal.NatToString(c) + "." + Decimal.NatToString(d)
  }

  lemma DigitsHaveNoDot(s: string)
    requires Decimal.IsDigits(s)
    ensures '.' !in s
  {
    forall i | 0 <= i < |s| ensures s[i] != '.' {
      assert Decimal.IsDigit(s[i]);
    }
  }

  lemma NatToStringIsOctet(n: nat)
    requires n <= 255
    ensures IsOctet(Decimal.NatToString(n))
  {
    Decimal.ParseNatToString(n);
    var s := Decimal.NatToString(n);
    if n >= 10 {
      assert s == Decimal.NatToString(n / 10) + [Decimal.DigitChar(n % 10)];
      if n >= 100 {
        assert Decimal.NatToString(n / 10) == Decimal.NatToString(n / 100) + [Decimal.DigitChar(n / 10 % 10)];
      }
    }
  }

  /** Four dot-free pieces joined with dots split back into those four pieces. */
  lemma SplitFour(sa: string, sb: string, sc: string, sd: string)
    requires '.' !in sa && '.' !in sb && '.' !in sc && '.' !in sd
    ensures Split(sa + "." + sb + "." + sc + "." + sd) == [sa, sb, sc, sd]
  {
    var tail2 := sc + "." + sd;
    var tail1 := sb + "." + tail2;
    SplitWithoutDot(sd);
    SplitAtDot(sc, sd);
    SplitAtDot(sb, tail2);
    SplitAtDot(sa, tail1);
    assert sa + "." + sb + "." + sc + "." + sd == sa + "." + tail1;
  }

  /** Every address written from four numbers in 0..255 passes `isValidIP`. */
  lemma FormattedAddressIsValid(a: nat, b: nat, c: nat, d: nat)
    requires a <= 255 && b <= 255 && c <= 255 && d <= 255
    ensures IsValidIP(FormatIP(a, b, c, d))
  {
    var sa, sb, sc, sd := Decimal.NatToString(a), Decimal.NatToString(b),
                          Decimal.NatToString(c), Decimal.NatToString(d);
    DigitsHaveNoDot(sa); DigitsHaveNoDot(sb); DigitsHaveNoDot(sc); DigitsHaveNoDot(sd);
    SplitFour(sa, sb, sc, sd);
    var parts := Split(FormatIP(a, b, c, d));
    assert parts == [sa, sb, sc, sd];
    NatToStringIsOctet(a); NatToStringIsOctet(b); NatToStringIsOctet(c); NatToStringIsOctet(d);
    OctetPatternIsOctet(sa); OctetPatternIsOctet(sb); OctetPatternIsOctet(sc); OctetPatternIsOctet(sd);
    assert forall i :: 0 <= i < 4 ==> MatchesOctetPattern(parts[i]);
  }

  /** "192.168.1.1" is accepted. */
  lemma AcceptsPrivateAddress()
    ensures IsValidIP("192.168.1.1")
  {
    FormattedAddressIsValid(192, 168, 1, 1);
    assert Decimal.NatToString(192) == "192" && Decimal.NatToString(168) == "168";
    assert FormatIP(192, 168, 1, 1) == "192.168.1.1";
  }

  /** "999.1.1.1" is rejected: its first piece is above 255. */
  lemma RejectsOctetAbove255()
    ensures !IsValidIP("999.1.1.1")
  {
    assert "999.1.1.1" == "999" + "." + "1.1.1";
    SplitAtDot("999", "1.1.1");
    assert Split("999.1.1.1")[0] == "999";
    assert Decimal.IsDigits("999");
    ParseThree("999");
    assert Decimal.ParseDigits("999") == 999;
    OctetPatternIsOctet("999");
    assert !MatchesOctetPattern(Split("999.1.1.1")[0]);
  }

  /** "1.2.3" is rejected: three pieces. */
  lemma RejectsThreeOctets()
    ensures !IsValidIP("1.2.3")
  {
    assert "1.2.3" == "1" + "." + ("2" + "." + "3");
    SplitWithoutDot("3");
    SplitAtDot("2", "3");
    SplitAtDot("1", "2.3");
  }

  /** "abc" is rejected: one piece. */
  lemma RejectsText()
    ensures !IsValidIP("abc")
  {
    SplitWithoutDot("abc");
  }

  // ===== calculateExpiryTime =====

  /** A JavaScript Date holds at most 8.64e15 milliseconds either side of the epoch. */
  const MaxDateMs: int := 8_640_000_000_000_000

  /** The seconds SQLite's date functions cover: 0000-01-01 00:00:00 to 9999-12-31 23:59:59. */
  const SqliteMinSec: int := -62_167_219_200
  const SqliteMaxSec: int := 253_402_300_799

  predicate InDateRange(ms: int) {
    -MaxDateMs <= ms <= MaxDateMs
  }

  /** `createdDate.getTime() + timeoutSeconds * 1000`: the expiry in milliseconds. */
  function ExpiryMs(createdAtMs: int, timeoutSeconds: int): int {
    createdAtMs + timeoutSeconds * 1000
  }

  /** `calculateExpiryTime`: the expiry, or None where `new Date` of it is an Invalid Date
      and `toISOString()` throws a RangeError. */
  function CalculateExpiryTime(createdAtMs: int, timeoutSeconds: int): Option<int> {
    var ms := ExpiryMs(createdAtMs, timeoutSeconds);
    if InDateRange(ms) then Some(ms) else None
  }

  /** For a row SQLite can date, every timeout up to 8.64e12 s less the last SQLite second
      gives an expiry. */
  lemma ExpiryDefinedForStoredRows(createdAt: int, timeout: int)
    requires SqliteMinSec <= createdAt <= SqliteMaxSec
    requires 0 <= timeout <= MaxDateMs / 1000 - SqliteMaxSec
    ensures CalculateExpiryTime(createdAt * 1000, timeout) == Some(ExpiryMs(createdAt * 1000, timeout))
  {
  }

  /** A timeout above 8.64e12 s leaves no expiry for a row stored after 1970. */
  lemma OversizedTimeoutHasNoExpiry(createdAt: int, timeout: int)
    requires createdAt >= 0 && timeout > MaxDateMs / 1000
    ensures CalculateExpiryTime(createdAt * 1000, timeout) == None
  {
  }

  /** At a whole-second instant `now * 1000`, the expiry lies before it exactly when the
      sweep at second `now` deletes the row. */
  lemma ExpiryAgreesWithSweep(r: IPRecord, timeout: int, now: int)
    ensures ExpiryMs(r.createdAt * 1000, timeout) < now * 1000 <==> IsExpiredRow(r, timeout, now)
  {
  }

  // ===== IPService =====

  datatype AddMessage = InvalidFormat | AlreadyExists | Added
  datatype AddIPResult = AddIPResult(success: bool, message: AddMessage, data: Option<IPRecord>)

  lemma UniqueIpRow(rows: seq<IPRecord>, nextId: nat, x: IPRecord, y: IPRecord)
    requires TableInvariant(rows, nextId) && x in rows && y in rows && x.ip == y.ip
    ensures x == y
  {
    var i :| 0 <= i < |rows| && rows[i] == x;
    var j :| 0 <= j < |rows| && rows[j] == y;
  }

  /** `IPService.addIP`: reject a malformed address; return the stored row if the address
      is present; otherwise insert it. */
  method AddIP(db: Db, ip: string, now: int) returns (res: AddIPResult)
    requires db.Valid()
    modifies db`rows, db`nextId
    ensures db.Valid()
    ensures !IsValidIP(ip) ==>
      res == AddIPResult(false, InvalidFormat, None) && db.rows == old(db.rows) && db.nextId == old(db.nextId)
    ensures IsValidIP(ip) && (exists x :: x in old(db.rows) && x.ip == ip) ==>
      && res.success && res.message == AlreadyExists
      && res.data.Some? && res.data.value in old(db.rows) && res.data.value.ip == ip
      && db.rows == old(db.rows) && db.nextId == old(db.nextId)
    ensures IsValidIP(ip) && (forall x :: x in old(db.rows) ==> x.ip != ip) ==>
      && res == AddIPResult(true, Added, Some(IPRecord(old(db.nextId), ip, now)))
      && db.rows == old(db.rows) + [res.data.value]
      && db.nextId == old(db.nextId) + 1
  {
    if !IsValidIP(ip) {
      return AddIPResult(false, InvalidFormat, None);
    }
    var existing := Models.CheckIPExists(db, ip);
    if existing.Some? {
      return AddIPResult(true, AlreadyExists, existing);
    }
    var inserted := Models.AddIP(db, ip, now);
    res := AddIPResult(true, Added, Some(inserted.value));
  }

  /** Adding the same valid address twice stores it once: the second call reports the
      row the first call returned. */
  method AddIPTwice(db: Db, ip: string, now1: int, now2: int) returns (first: AddIPResult, second: AddIPResult)
    requires db.Valid() && IsValidIP(ip)
    modifies db`rows, db`nextId
    ensures db.Valid()
    ensures first.success && second.success && second.message == AlreadyExists
    ensures second.data == first.data
    ensures |db.rows| <= |old(db.rows)| + 1
    ensures exists x :: x in db.rows && x.ip == ip
  {
    first := AddIP(db, ip, now1);
    assert first.data.value in db.rows by {
      if first.message == Added {
        assert db.rows[|db.rows| - 1] == first.data.value;
      }
    }
    second := AddIP(db, ip, now2);
    UniqueIpRow(db.rows, db.nextId, first.data.value, second.data.value);
  }

  datatype CheckResult = CheckResult(found: bool, data: Option<IPRecord>)

  /** `IPService.checkIP`: whether the address is stored, and its row. Reads only. */
  method CheckIP(db: Db, ip: string) returns (res: CheckResult)
    requires db.Valid()
    ensures res.found <==> exists x :: x in db.rows && x.ip == ip
    ensures res.found <==> res.data.Some?
    ensures res.found ==> res.data.value in db.rows && res.data.value.ip == ip
  {
    var record := Models.CheckIPExists(db, ip);
    res := CheckResult(record.Some?, record);
  }

  /** A listed row together with its expiry in milliseconds. */
  datatype IPRecordWithExpiry = IPRecordWithExpiry(record: IPRecord, expiresAt: int)

  function Records(list: seq<IPRecordWithExpiry>): (records: seq<IPRecord>)
    ensures |records| == |list|
    ensures forall i :: 0 <= i < |list| ==> records[i] == list[i].record
  {
    seq(|list|, i requires 0 <= i < |list| => list[i].record)
  }

  /** The `records.map` of `getIPList`: each row with its expiry under `timeout`, or None
      when some expiry is outside the Date range and the map throws. */
  function AttachExpiry(records: seq<IPRecord>, timeout: int): (list: Option<seq<IPRecordWithExpiry>>)
    ensures list.Some? <==>
      forall i :: 0 <= i < |records| ==> CalculateExpiryTime(records[i].createdAt * 1000, timeout).Some?
    ensures list.Some? ==> Records(list.value) == records
    ensures list.Some? ==> forall i :: 0 <= i < |records| ==>
      CalculateExpiryTime(records[i].createdAt * 1000, timeout) == Some(list.value[i].expiresAt)
  {
    if forall i :: 0 <= i < |records| ==> InDateRange(ExpiryMs(records[i].createdAt * 1000, timeout)) then
      var list := seq(|records|, i requires 0 <= i < |records| =>
        IPRecordWithExpiry(records[i], ExpiryMs(records[i].createdAt * 1000, timeout)));
      assert Records(list) == records;
      Some(list)
    else
      None
  }

  /** After the sweep at `now`, no row left in the table shows an expiry before `now`
      when the timeout is configured. */
  lemma ListedRecordsNotExpired(rows: seq<IPRecord>, config: map<string, string>, now: int)
    requires ConfigWellFormed(config) && TimeoutKey in config
    ensures forall r :: r in AfterSweep(rows, config, now) ==>
      ExpiryMs(r.createdAt * 1000, Models.TimeoutOf(config)) >= now * 1000
  {
    var t := Models.TimeoutOf(config);
    forall r | r in AfterSweep(rows, config, now)
      ensures ExpiryMs(r.createdAt * 1000, t) >= now * 1000
    {
      SweepKeepsExactlyFresh(rows, config, now, t);
      ExpiryAgreesWithSweep(r, t, now);
    }
  }

  /** Every remaining row has an expiry under `timeout`. */
  ghost predicate AllExpiriesDefined(rows: seq<IPRecord>, timeout: int) {
    forall r :: r in rows ==> CalculateExpiryTime(r.createdAt * 1000, timeout).Some?
  }

  /** `IPService.getIPList`: sweep first, then list newest first with each row's expiry
      computed from the timeout in force now. When some expiry is outside the Date range
      the map throws and the catch block returns an empty list. */
  method GetIPList(db: Db, now: int) returns (list: seq<IPRecordWithExpiry>)
    requires db.Valid()
    modifies db`rows
    ensures db.Valid()
    ensures db.rows == AfterSweep(old(db.rows), db.config, now)
    ensures !AllExpiriesDefined(db.rows, Models.TimeoutOf(db.config)) ==> list == []
    ensures AllExpiriesDefined(db.rows, Models.TimeoutOf(db.config)) ==>
      && Models.SortedByCreatedDesc(Records(list))
      && multiset(Records(list)) == multiset(db.rows)
    ensures forall i :: 0 <= i < |list| ==>
      CalculateExpiryTime(list[i].record.createdAt * 1000, Models.TimeoutOf(db.config)) == Some(list[i].expiresAt)
    ensures TimeoutKey in db.config ==> forall i :: 0 <= i < |list| ==> list[i].expiresAt >= now * 1000
  {
    ghost var before := db.rows;
    var _ := CleanupExpiredIPs(db, now);
    var records := Models.GetAllIPs(db);
    var timeout := Models.GetTimeout(db);
    var attached := AttachExpiry(records, timeout);
    if attached.None? {
      var i :| 0 <= i < |records| && CalculateExpiryTime(records[i].createdAt * 1000, timeout).None?;
      assert records[i] in multiset(db.rows);
      return [];
    }
    list := attached.value;
    forall r | r in db.rows ensures CalculateExpiryTime(r.createdAt * 1000, timeout).Some? {
      assert r in multiset(records);
      var i :| 0 <= i < |records| && records[i] == r;
    }
    if TimeoutKey in db.config {
      ListedRecordsNotExpired(before, db.config, now);
      forall i | 0 <= i < |list| ensures list[i].expiresAt >= now * 1000 {
        assert records[i] in multiset(db.rows);
        assert records[i] in db.rows;
      }
    }
  }

  /** A timeout `isValidTimeout` accepts can put every expiry outside the Date range: after
      `setTimeout(9000000000000)` a stored row is kept by the sweep and the listing is
      empty. */
  method OversizedTimeoutListsNothing() returns (stored: nat, listed: nat)
    ensures stored == 1 && listed == 0
  {
    var db := new Db();
    InitDatabase(db);
    var added := Models.AddIP(db, "10.0.0.1", 0);
    assert (9000000000000.0).Floor == 9000000000000;
    ghost var config := db.config;
    var res := SetTimeout(db, 9000000000000.0);
    Models.TimeoutRoundTrip(config, 9000000000000);
    ghost var rows := db.rows;
    var list := GetIPList(db, 0);
    SweepKeepsExactlyFresh(rows, db.config, 0, 9000000000000);
    stored := |db.rows|;
    listed := |list|;
  }

  datatype DeleteMessage = Deleted | RecordNotFound
  datatype DeleteResult = DeleteResult(success: bool, message: DeleteMessage)

  /** `IPService.deleteIP`: success iff a row with that id existed. */
  method DeleteIP(db: Db, id: int) returns (res: DeleteResult)
    requires db.Valid()
    modifies db`rows
    ensures db.Valid()
    ensures res.success <==> exists x :: x in old(db.rows) && x.id == id
    ensures res.message == if res.success then Deleted else RecordNotFound
    ensures db.rows == Filter(old(db.rows), Models.IdIsNot(id))
  {
    var deleted := Models.DeleteIP(db, id);
    res := if deleted then DeleteResult(true, Deleted) else DeleteResult(false, RecordNotFound);
  }

  datatype ClearResult = ClearResult(success: bool, deletedCount: Option<nat>)

  /** `IPService.clearAllIPs`: empties the table and reports how many rows it held. */
  method ClearAllIPs(db: Db) returns (res: ClearResult)
    requires db.Valid()
    modifies db`rows
    ensures db.Valid()
    ensures res == ClearResult(true, Some(|old(db.rows)|)) && db.rows == []
  {
    var count := Models.ClearAllIPs(db);
    res := ClearResult(true, Some(count));
  }

  // ===== ConfigService =====

  /** `Number.isInteger` on a finite number. */
  predicate IsInteger(x: real) {
    x.Floor as real == x
  }

  /** `isValidTimeout`: a positive integer. */
  predicate IsValidTimeout(seconds: real) {
    IsInteger(seconds) && seconds > 0.0
  }

  /** 10 is accepted; 0, -5 and 1.5 are rejected. */
  lemma TimeoutValidationExamples()
    ensures IsValidTimeout(10.0)
    ensures !IsValidTimeout(0.0) && !IsValidTimeout(-5.0) && !IsValidTimeout(1.5)
  {
    assert (1.5).Floor == 1;
  }

  /** On whole numbers, `isValidTimeout` accepts exactly the positive ones. */
  lemma ValidTimeoutOnWholeNumbers(n: int)
    ensures IsValidTimeout(n as real) <==> n >= 1
  {
    assert (n as real).Floor == n;
  }

  /** A number strictly between two consecutive whole numbers is never a valid timeout. */
  lemma FractionalTimeoutRejected(n: int, x: real)
    requires n as real < x < (n + 1) as real
    ensures !IsValidTimeout(x)
  {
    assert x.Floor == n;
  }

  /** `ConfigService.getTimeout`. Reads only. */
  method GetTimeout(db: Db) returns (t: nat)
    requires db.Valid()
    ensures TimeoutKey !in db.config ==> t == Models.DefaultTimeout
    ensures TimeoutKey in db.config ==> t == Decimal.ParseDigits(db.config[TimeoutKey])
  {
    t := Models.GetTimeout(db);
  }

  datatype SetTimeoutMessage = TimeoutNotPositiveInteger | TimeoutUpdated
  datatype SetTimeoutResult = SetTimeoutResult(success: bool, message: SetTimeoutMessage, timeout: Option<int>)

  /** `ConfigService.setTimeout`: store the timeout if it is a positive integer. */
  method SetTimeout(db: Db, seconds: real) returns (res: SetTimeoutResult)
    requires db.Valid()
    modifies db`config
    ensures db.Valid()
    ensures res.success <==> IsValidTimeout(seconds)
    ensures !res.success ==> res == SetTimeoutResult(false, TimeoutNotPositiveInteger, None) && db.config == old(db.config)
    ensures res.success ==>
      && res == SetTimeoutResult(true, TimeoutUpdated, Some(seconds.Floor))
      && db.config == old(db.config)[TimeoutKey := Decimal.NatToString(seconds.Floor)]
      && Models.TimeoutOf(db.config) as real == seconds
  {
    if !IsValidTimeout(seconds) {
      return SetTimeoutResult(false, TimeoutNotPositiveInteger, None);
    }
    Models.SetTimeout(db, seconds.Floor);
    res := SetTimeoutResult(true, TimeoutUpdated, Some(seconds.Floor));
  }

  datatype AutoCleanupConfig = AutoCleanupConfig(enabled: bool, interval: int)

  const DefaultInterval: nat := 300
  const MinInterval: nat := 30

  /** What `getAutoCleanup` reads: enabled only when the stored text is exactly "true"
      (a missing key reads as disabled); the interval read as a number, 300 when missing. */
  function AutoCleanupOf(config: map<string, string>): AutoCleanupConfig
    requires ConfigWellFormed(config)
  {
    AutoCleanupConfig(
      EnabledKey in config && config[EnabledKey] == "true",
      if IntervalKey in config && config[IntervalKey] != "" then Decimal.ParseDigits(config[IntervalKey])
      else DefaultInterval)
  }

  /** `enabled.toString()`. */
  function BoolToString(b: bool): string {
    if b then "true" else "false"
  }

  /** The two writes of a successful `setAutoCleanup`. */
  function WriteAutoCleanup(config: map<string, string>, enabled: bool, interval: nat): map<string, string> {
    config[EnabledKey := BoolToString(enabled)][IntervalKey := Decimal.NatToString(interval)]
  }

  /** What `setAutoCleanup` writes, `getAutoCleanup` reads back; the timeout is untouched. */
  lemma AutoCleanupRoundTrip(config: map<string, string>, enabled: bool, interval: nat)
    requires ConfigWellFormed(config)
    ensures ConfigWellFormed(WriteAutoCleanup(config, enabled, interval))
    ensures AutoCleanupOf(WriteAutoCleanup(config, enabled, interval)) == AutoCleanupConfig(enabled, interval)
    ensures Models.TimeoutOf(WriteAutoCleanup(config, enabled, interval)) == Models.TimeoutOf(config)
  {
    Decimal.ParseNatToString(interval);
  }

  /** A freshly seeded configuration reads as the documented defaults. */
  lemma SeededDefaultsReadBack()
    ensures ConfigWellFormed(Seeded(map[]))
    ensures AutoCleanupOf(Seeded(map[])) == AutoCleanupConfig(true, 300)
    ensures Models.TimeoutOf(Seeded(map[])) == 3600
  {
    SeededHasSettings(map[]);
    Decimal.ParseNatToString(300);
    Decimal.ParseNatToString(3600);
    assert Decimal.NatToString(300) == "300" && Decimal.NatToString(3600) == "3600";
  }

  /** `ConfigService.getAutoCleanup`. Reads only. */
  method GetAutoCleanup(db: Db) returns (c: AutoCleanupConfig)
    requires db.Valid()
    ensures c.enabled <==> EnabledKey in db.config && db.config[EnabledKey] == "true"
    ensures IntervalKey !in db.config ==> c.interval == DefaultInterval
    ensures IntervalKey in db.config ==> c.interval == Decimal.ParseDigits(db.config[IntervalKey])
  {
    c := AutoCleanupOf(db.config);
  }

  datatype SetAutoCleanupMessage = IntervalInvalid | AutoCleanupUpdated
  datatype SetAutoCleanupResult = SetAutoCleanupResult(success: bool, message: SetAutoCleanupMessage)

  /** `ConfigService.setAutoCleanup`: reject a non-integer interval or one below 30 with
      no write; otherwise store both settings. */
  method SetAutoCleanup(db: Db, enabled: bool, interval: real) returns (res: SetAutoCleanupResult)
    requires db.Valid()
    modifies db`config
    ensures db.Valid()
    ensures res.success <==> IsInteger(interval) && interval >= MinInterval as real
    ensures !res.success ==> res.message == IntervalInvalid && db.config == old(db.config)
    ensures res.success ==>
      && res.message == AutoCleanupUpdated
      && db.config == WriteAutoCleanup(old(db.config), enabled, interval.Floor)
      && AutoCleanupOf(db.config) == AutoCleanupConfig(enabled, interval.Floor)
  {
    if !IsInteger(interval) || interval < MinInterval as real {
      return SetAutoCleanupResult(false, IntervalInvalid);
    }
    AutoCleanupRoundTrip(db.config, enabled, interval.Floor);
    Models.SetConfig(db, EnabledKey, BoolToString(enabled));
    Models.SetConfig(db, IntervalKey, Decimal.NatToString(interval.Floor));
    res := SetAutoCleanupResult(true, AutoCleanupUpdated);
  }
}
