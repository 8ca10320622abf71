/** The share-expiry countdown shown next to shared files (the `ExpiresCountdown`
    component of src/pages/Dashboard.jsx): the stored expiry is read as UTC and the
    time left is shown in its two largest units. Parsing the date and reading the
    clock are left to the caller, which passes the difference in milliseconds. */
module Countdown {

  /** The index of the first `c` in `s`, `|s|` when there is none. */
  function IndexOf(s: string, c: char): (i: nat)
    ensures i <= |s|
    ensures forall k :: 0 <= k < i ==> s[k] != c
    ensures i < |s| ==> s[i] == c
  {
    if s == [] then 0 else if s[0] == c then 0 else 1 + IndexOf(s[1..], c)
  }

  /** `s.replace(a, b)` with a one-character pattern: only the first occurrence. */
  function ReplaceFirst(s: string, a: char, b: char): (r: string)
    ensures |r| == |s|
    ensures forall k :: 0 <= k < |s| && k != IndexOf(s, a) ==> r[k] == s[k]
    ensures a in s ==> r[IndexOf(s, a)] == b
    ensures a !in s ==> r == s
  {
    var i := IndexOf(s, a);
    if i == |s| then s else s[..i] + [b] + s[i + 1..]
  }

  /** A timestamp that already names its offset ('Z' or '+') is kept; otherwise the
      first space becomes 'T' and 'Z' is appended, so the database's
      `YYYY-MM-DD hh:mm:ss` is read as UTC rather than local time. */
  function NormalizeUtc(expiresAt: string): (r: string)
    ensures 'Z' in r || '+' in r
    ensures 'Z' in expiresAt || '+' in expiresAt ==> r == expiresAt
    ensures !('Z' in expiresAt || '+' in expiresAt) ==>
      |r| == |expiresAt| + 1 && r[|expiresAt|] == 'Z' && ' ' !in r[..IndexOf(expiresAt, ' ')]
    // the first space becomes 'T' and every other character is kept
    ensures !('Z' in expiresAt || '+' in expiresAt) ==>
      forall k :: 0 <= k < |expiresAt| ==> r[k] == (if k == IndexOf(expiresAt, ' ') then 'T' else expiresAt[k])
  {
    if 'Z' in expiresAt || '+' in expiresAt then expiresAt
    else
      var r := ReplaceFirst(expiresAt, ' ', 'T') + "Z";
      assert r[|expiresAt|] == 'Z';
      r
  }

  /** Normalising twice is normalising once: the result always names its offset. */
  lemma NormalizeUtcIdempotent(expiresAt: string)
    ensures NormalizeUtc(NormalizeUtc(expiresAt)) == NormalizeUtc(expiresAt)
  {
  }

  /** What the countdown shows: 'Expired', or the time left in its two largest units. */
  datatype TimeLeft =
    | Expired                       // 'Expired'
    | Days(days: nat, hours: nat)   // '{d}d {h}h left'
    | Hours(hours: nat, minutes: nat)
    | Minutes(minutes: nat, seconds: nat)
    | Seconds(seconds: nat)

  /** `updateTimer` for `diff = expires - now` milliseconds. Every unit is the floor of
      the smaller one, so each label rounds the time left down: the bounds below are in
      milliseconds (a day is 86400000, an hour 3600000, a minute 60000). */
  function Countdown(diff: int): (t: TimeLeft)
    ensures t == Expired <==> diff <= 0
    ensures t.Days? ==>
      (t.days >= 1 && t.hours < 24 &&
       t.days * 86400000 + t.hours * 3600000 <= diff < t.days * 86400000 + (t.hours + 1) * 3600000)
    ensures t.Hours? ==>
      (1 <= t.hours < 24 && t.minutes < 60 &&
       t.hours * 3600000 + t.minutes * 60000 <= diff < t.hours * 3600000 + (t.minutes + 1) * 60000)
    ensures t.Minutes? ==>
      (1 <= t.minutes < 60 && t.seconds < 60 &&
       t.minutes * 60000 + t.seconds * 1000 <= diff < t.minutes * 60000 + (t.seconds + 1) * 1000)
    ensures t.Seconds? ==> (t.seconds < 60 && t.seconds * 1000 <= diff < (t.seconds + 1) * 1000)
  {
    if diff <= 0 then Expired
    else
      var seconds := diff / 1000;
      var minutes := seconds / 60;
      var hours := minutes / 60;
      var days := hours / 24;
      if days > 0 then Days(days, hours % 24)
      else if hours > 0 then Hours(hours, minutes % 60)
      else if minutes > 0 then Minutes(minutes, seconds % 60)
      else Seconds(seconds)
  }

  /** A countdown that is not expired shows at least one full unit of time, except
      for the last second, which reads '0s left'. */
  lemma LastSecondShowsZero(diff: int)
    requires 0 < diff < 1000
    ensures Countdown(diff) == Seconds(0)
  {
  }
}
