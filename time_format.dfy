/** Rendering of a duration in seconds as days, hours and minutes ("1 дн 2 ч 5 мин").
    Seconds below a minute are dropped; zero units are left out, except that
    minutes are shown when no other unit is. */
module TimeFormat {

  /** Whole days, hours within the day and minutes within the hour of `s` seconds. */
  function SplitSeconds(s: nat): (r: (nat, nat, nat))
    ensures r.1 < 24 && r.2 < 60
    ensures r.0 * 86400 + r.1 * 3600 + r.2 * 60 <= s < r.0 * 86400 + r.1 * 3600 + r.2 * 60 + 60
  {
    var days := s / 86400;
    var inDay := s % 86400;
    var hours := inDay / 3600;
    var inHour := inDay % 3600;
    (days, hours, inHour / 60)
  }

  function DigitChar(d: nat): char
    requires d < 10
  {
    "0123456789"[d]
  }

  /** Decimal notation of a natural number. */
  function NatToString(n: nat): (s: string)
    ensures |s| >= 1
    ensures n < 10 ==> s == [DigitChar(n)]
  {
    if n < 10 then [DigitChar(n)] else NatToString(n / 10) + [DigitChar(n % 10)]
  }

  /** The words shown for a split duration: days and hours when non-zero, minutes
      when non-zero or when neither days nor hours are shown. */
  function TimeParts(days: nat, hours: nat, minutes: nat): (parts: seq<string>)
    ensures |parts| >= 1
    ensures forall i :: 0 <= i < |parts| ==> parts[i] != ""
  {
    (if days > 0 then [NatToString(days) + " дн"] else [])
    + (if hours > 0 then [NatToString(hours) + " ч"] else [])
    + (if minutes > 0 || (days == 0 && hours == 0) then [NatToString(minutes) + " мин"] else [])
  }

  /** The parts joined with single spaces. */
  function JoinWords(parts: seq<string>): (s: string)
    ensures |parts| > 0 && parts[|parts| - 1] != "" ==> s != ""
  {
    if |parts| == 0 then ""
    else if |parts| == 1 then parts[0]
    else JoinWords(parts[..|parts| - 1]) + " " + parts[|parts| - 1]
  }

  /** Formats a duration; the result is never empty and is "0 мин" below one minute. */
  method FormatTime(seconds: nat) returns (text: string)
    ensures var (d, h, m) := SplitSeconds(seconds); text == JoinWords(TimeParts(d, h, m))
    ensures text != ""
    ensures seconds < 60 ==> text == "0 мин"
  {
    var rest := seconds;
    var days := rest / 86400;
    rest := rest % 86400;
    var hours := rest / 3600;
    rest := rest % 3600;
    var minutes := rest / 60;

    var parts: seq<string> := [];
    if days > 0 {
      parts := parts + [NatToString(days) + " дн"];
    }
    if hours > 0 {
      parts := parts + [NatToString(hours) + " ч"];
    }
    if minutes > 0 || parts == [] {
      parts := parts + [NatToString(minutes) + " мин"];
    }
    assert parts == TimeParts(days, hours, minutes);
    text := JoinWords(parts);
  }
}
