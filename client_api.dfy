/** The browser-side expiry helpers of src/services/api.ts: `isIPExpired` and
    `getTimeRemaining`, on times in milliseconds. */
module ClientApi {
  import Decimal
  import opened Init
  import IpService

  const MsPerHour: nat := 3600000
  const MsPerMinute: nat := 60000
  const MsPerSecond: nat := 1000

  const ExpiredText: string := "已过期"
  const HoursUnit: string := "小时"
  const MinutesUnit: string := "分钟"
  const SecondsUnit: string := "秒"

  /** `isIPExpired`: the expiry lies strictly before now. */
  predicate IsIPExpired(expiresAtMs: int, nowMs: int) {
    expiresAtMs < nowMs
  }

  datatype Breakdown = Breakdown(hours: nat, minutes: nat, seconds: nat)

  /** `hours`, `minutes` and `seconds` of `getTimeRemaining` for a positive difference. */
  function BreakdownOf(diff: nat): Breakdown {
    Breakdown(diff / MsPerHour, diff % MsPerHour / MsPerMinute, diff % MsPerMinute / MsPerSecond)
  }

  /** `getTimeRemaining`: "已过期" once the expiry is not in the future, otherwise the two
      largest non-zero units (or just the seconds). */
  function GetTimeRemaining(expiresAtMs: int, nowMs: int): string {
    var diff := expiresAtMs - nowMs;
    if diff <= 0 then ExpiredText
    else
      var b := BreakdownOf(diff);
      if b.hours > 0 then Decimal.NatToString(b.hours) + HoursUnit + Decimal.NatToString(b.minutes) + MinutesUnit
      else if b.minutes > 0 then Decimal.NatToString(b.minutes) + MinutesUnit + Decimal.NatToString(b.seconds) + SecondsUnit
      else Decimal.NatToString(b.seconds) + SecondsUnit
  }

  /** The three parts cover the difference to the second, with minutes and seconds below 60. */
  lemma BreakdownBounds(diff: nat)
    ensures var b := BreakdownOf(diff);
      && b.minutes < 60 && b.seconds < 60
      && b.hours * MsPerHour + b.minutes * MsPerMinute + b.seconds * MsPerSecond <= diff
      && diff < b.hours * MsPerHour + b.minutes * MsPerMinute + b.seconds * MsPerSecond + MsPerSecond
  {
    var h, rh := diff / MsPerHour, diff % MsPerHour;
    var m, rm := rh / MsPerMinute, rh % MsPerMinute;
    var sec, rs := rm / MsPerSecond, rm % MsPerSecond;
    assert diff == h * MsPerHour + rh && 0 <= rh < MsPerHour;
    assert rh == m * MsPerMinute + rm && 0 <= rm < MsPerMinute;
    assert rm == sec * MsPerSecond + rs && 0 <= rs < MsPerSecond;
    assert m < 60;
    assert diff == (h * 60 + m) * MsPerMinute + rm;
    ModOfMultiple(diff, h * 60 + m, rm);
    assert BreakdownOf(diff) == Breakdown(h, m, sec);
  }

  /** The remainder by a minute of `q` whole minutes plus `r` is `r`. */
  lemma ModOfMultiple(x: int, q: nat, r: int)
    requires x == q * MsPerMinute + r && 0 <= r < MsPerMinute
    ensures x % MsPerMinute == r
  {
    var q', r' := x / MsPerMinute, x % MsPerMinute;
    assert (q - q') * MsPerMinute == r' - r;
  }

  /** The text is "已过期" exactly when the expiry is not after now. */
  lemma ExpiredExactlyWhenNotFuture(expiresAtMs: int, nowMs: int)
    ensures GetTimeRemaining(expiresAtMs, nowMs) == ExpiredText <==> expiresAtMs - nowMs <= 0
  {
    var r := GetTimeRemaining(expiresAtMs, nowMs);
    if expiresAtMs - nowMs > 0 {
      assert r[|r| - 1] == '钟' || r[|r| - 1] == '秒';
      assert ExpiredText[|ExpiredText| - 1] == '期';
    }
  }

  /** Which form the text takes, by the size of the difference. */
  lemma RemainingForm(expiresAtMs: int, nowMs: int)
    requires expiresAtMs - nowMs > 0
    ensures var diff := expiresAtMs - nowMs; var b := BreakdownOf(diff);
      && (diff >= MsPerHour ==>
            GetTimeRemaining(expiresAtMs, nowMs) ==
              Decimal.NatToString(b.hours) + HoursUnit + Decimal.NatToString(b.minutes) + MinutesUnit)
      && (MsPerMinute <= diff < MsPerHour ==>
            GetTimeRemaining(expiresAtMs, nowMs) ==
              Decimal.NatToString(b.minutes) + MinutesUnit + Decimal.NatToString(b.seconds) + SecondsUnit)
      && (diff < MsPerMinute ==>
            GetTimeRemaining(expiresAtMs, nowMs) == Decimal.NatToString(b.seconds) + SecondsUnit)
  {
    var diff := expiresAtMs - nowMs;
    if MsPerMinute <= diff < MsPerHour {
      assert diff % MsPerHour == diff;
    } else if diff < MsPerMinute {
      assert diff % MsPerHour == diff;
    }
  }

  /** Under a second left reads "0秒", not expired. */
  lemma UnderASecondReadsZeroSeconds(expiresAtMs: int, nowMs: int)
    requires 0 < expiresAtMs - nowMs < MsPerSecond
    ensures GetTimeRemaining(expiresAtMs, nowMs) == "0秒"
  {
    var diff := expiresAtMs - nowMs;
    assert diff % MsPerHour == diff && diff % MsPerMinute == diff;
    assert BreakdownOf(diff) == Breakdown(0, 0, 0);
    assert Decimal.NatToString(0) == "0";
  }

  /** At whole-second instants the client's check and the server's sweep use the same
      strict comparison: a row's displayed expiry is past exactly when the sweep at that
      second deletes it. */
  lemma ClientAgreesWithSweep(r: IPRecord, timeout: int, nowSec: int)
    ensures IsIPExpired(IpService.ExpiryMs(r.createdAt * 1000, timeout), nowSec * 1000)
            <==> IsExpiredRow(r, timeout, nowSec)
  {
    IpService.ExpiryAgreesWithSweep(r, timeout, nowSec);
  }

  /** At any millisecond `nowMs` the sweep runs at second `nowMs / 1000`. A row that sweep
      deletes already shows as expired; a row that shows as expired is deleted by the
      sweep of the next second at the latest. */
  lemma ClientAndSweepAtMilliseconds(r: IPRecord, timeout: int, nowMs: int)
    ensures IsExpiredRow(r, timeout, nowMs / 1000) ==>
      IsIPExpired(IpService.ExpiryMs(r.createdAt * 1000, timeout), nowMs)
    ensures IsIPExpired(IpService.ExpiryMs(r.createdAt * 1000, timeout), nowMs) ==>
      IsExpiredRow(r, timeout, nowMs / 1000 + 1)
  {
    var e, q := r.createdAt + timeout, nowMs / 1000;
    assert nowMs == q * 1000 + nowMs % 1000 && 0 <= nowMs % 1000 < 1000;
    assert IpService.ExpiryMs(r.createdAt * 1000, timeout) == e * 1000;
    if e * 1000 < nowMs {
      assert e * 1000 < q * 1000 + 1000;
      assert e < q + 1;
    }
  }

  /** Within a second the two can differ: created at 0 with a timeout of 5 s, at 5500 ms
      the client shows the row as expired while the sweep of second 5 keeps it. */
  lemma ClientAheadOfSweepWithinSecond()
    ensures var r := IPRecord(1, "10.0.0.1", 0);
      IsIPExpired(IpService.ExpiryMs(r.createdAt * 1000, 5), 5500)
      && !IsExpiredRow(r, 5, 5500 / 1000)
  {
  }

  /** At the exact expiry instant the two helpers disagree: the text already says expired,
      `isIPExpired` does not yet. */
  lemma BoundaryInstant(t: int)
    ensures GetTimeRemaining(t, t) == ExpiredText && !IsIPExpired(t, t)
  {
  }
}
