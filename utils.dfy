/** The display helpers of client/src/lib/utils.ts: day-bucket date labels,
    the duration fallback and text truncation. Dates are time values in
    milliseconds; the current time is a parameter. */
module Utils {
  import opened Common

  const MsPerDay: int := 1000 * 60 * 60 * 24

  /** A label, or the locale-formatted calendar date (a foreign call). */
  datatype DateLabel = Label(text: string) | LocaleDate(date: int)

  /** `Math.floor((now - date) / MsPerDay)`: with a positive divisor,
      Dafny's division already rounds toward minus infinity. */
  function DaysAgo(date: int, now: int): (d: int)
    ensures d * MsPerDay <= now - date < (d + 1) * MsPerDay
  {
    (now - date) / MsPerDay
  }

  /** `formatDate`. */
  function FormatDate(date: int, now: int): (r: DateLabel)
    ensures r == Label("Today") <==> 0 <= now - date < MsPerDay
    ensures r == Label("Yesterday") <==> MsPerDay <= now - date < 2 * MsPerDay
    ensures r.LocaleDate? <==> now - date >= 30 * MsPerDay
    ensures r.LocaleDate? ==> r.date == date
  {
    var d := DaysAgo(date, now);
    if d == 0 then Label("Today")
    else if d == 1 then Label("Yesterday")
    else if d < 30 then Label(IntToString(d) + " days ago")
    else LocaleDate(date)
  }

  /** Every day count below thirty other than 0 and 1, negative ones
      included, is spelled out as "<d> days ago". */
  lemma DaysAgoLabel(date: int, now: int)
    requires var d := DaysAgo(date, now); d < 30 && d != 0 && d != 1
    ensures FormatDate(date, now) == Label(IntToString(DaysAgo(date, now)) + " days ago")
  {
  }

  /** A date one millisecond in the future is "-1 days ago". */
  lemma FutureDateLabel(now: int)
    ensures FormatDate(now + 1, now) == Label("-1 days ago")
  {
    assert DaysAgo(now + 1, now) == -1;
    assert NatToString(1) == "1";
  }

  /** `formatDuration`: null and the empty string are unknown; anything else
      is shown as given. */
  function FormatDuration(duration: Option<string>): (r: string)
    ensures duration.Some? && duration.value != "" ==> r == duration.value
    ensures duration.None? || duration.value == "" ==> r == "Unknown duration"
  {
    if duration.None? || duration.value == "" then "Unknown duration" else duration.value
  }

  /** `truncateText`. `substring(0, m)` clamps a negative `m` to 0. */
  function TruncateText(text: string, maxLength: int): (r: string)
    ensures |text| <= maxLength ==> r == text
    ensures 0 <= maxLength < |text| ==> r == text[..maxLength] + "..." && |r| == maxLength + 3
    ensures maxLength < 0 ==> r == "..."
  {
    if |text| <= maxLength then text
    else if maxLength < 0 then text[..0] + "..."
    else text[..maxLength] + "..."
  }

  /** Truncating twice with the same bound gives the same text as once:
      a truncated text is longer than the bound, and its first `maxLength`
      characters are the original's. */
  lemma TruncateIdempotent(text: string, maxLength: int)
    ensures TruncateText(TruncateText(text, maxLength), maxLength) == TruncateText(text, maxLength)
  {
    if maxLength < |text| && 0 <= maxLength {
      var once := TruncateText(text, maxLength);
      assert once[..maxLength] == text[..maxLength];
    }
  }

  /** The result never exceeds the bound by more than the ellipsis. */
  lemma TruncateBound(text: string, maxLength: int)
    requires maxLength >= 0
    ensures |TruncateText(text, maxLength)| <= maxLength + 3
  {
  }
}
