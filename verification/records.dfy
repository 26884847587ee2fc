/**
 The rows of the PHOTOS table as the repository's queries see them: the ten
 selected columns, with the upload timestamp kept as the fields of a
 LocalDateTime.
 */
module Records {

  datatype Option<T> = None | Some(value: T)

  /** An upload timestamp, field by field (no time zone). */
  datatype DateTime = DateTime(
    year: nat, month: nat, day: nat,
    hour: nat, minute: nat, second: nat, nano: nat)

  /** Each field within its calendar or clock range (years before the
      common era are not part of this model). */
  predicate ValidDateTime(d: DateTime) {
    && 1 <= d.year
    && 1 <= d.month <= 12
    && 1 <= d.day <= 31
    && d.hour < 24
    && d.minute < 60
    && d.second < 60
    && d.nano < NanosPerSecond
  }

  /** Chronological order: the most significant field that differs decides. */
  predicate Earlier(a: DateTime, b: DateTime) {
    if a.year != b.year then a.year < b.year
    else if a.month != b.month then a.month < b.month
    else if a.day != b.day then a.day < b.day
    else if a.hour != b.hour then a.hour < b.hour
    else if a.minute != b.minute then a.minute < b.minute
    else if a.second != b.second then a.second < b.second
    else a.nano < b.nano
  }

  // Place values of the fields on the time line, in nanoseconds. They are
  // written as literals so that the instant stays linear in the fields.
  const NanosPerSecond: nat := 1_000_000_000
  const NanosPerMinute: nat := 60_000_000_000
  const NanosPerHour: nat := 3_600_000_000_000
  const NanosPerDay: nat := 86_400_000_000_000
  /** Room for 31 days, so that no valid day overflows into the next month. */
  const NanosPerMonthSlot: nat := 2_764_800_000_000_000
  /** Room for months 0 to 12. */
  const NanosPerYearSlot: nat := 35_942_400_000_000_000

  /** The position of a timestamp on one time line, the way the database
      compares two timestamps. Calendar gaps (months shorter than 31 days)
      leave unused values but do not change the order. */
  function Instant(d: DateTime): int {
    d.year * 35_942_400_000_000_000 + SinceYearStart(d)
  }

  function SinceYearStart(d: DateTime): int {
    d.month * 2_764_800_000_000_000 + SinceMonthStart(d)
  }

  function SinceMonthStart(d: DateTime): int {
    d.day * 86_400_000_000_000 + SinceDayStart(d)
  }

  function SinceDayStart(d: DateTime): int {
    d.hour * 3_600_000_000_000 + SinceHourStart(d)
  }

  function SinceHourStart(d: DateTime): int {
    d.minute * 60_000_000_000 + SinceMinuteStart(d)
  }

  function SinceMinuteStart(d: DateTime): int {
    d.second * 1_000_000_000 + d.nano
  }

  /** A row of PHOTOS. Nullable columns are `Option`s; PHOTO_DATA is an
      opaque blob that every query carries through unchanged. */
  datatype Photo = Photo(
    id: string,
    originalFileName: string,
    photoData: Option<seq<bv8>>,
    storedFileName: string,
    filePath: Option<string>,
    fileSize: int,
    mimeType: string,
    uploadedAt: DateTime,
    width: Option<int>,
    height: Option<int>)

  /** The key of ORDER BY UPLOADED_AT. */
  function UploadedInstant(p: Photo): int {
    Instant(p.uploadedAt)
  }

  /** The argument of SUM(FILE_SIZE). */
  function FileSize(p: Photo): int {
    p.fileSize
  }

  /** Every timestamp in the store is a valid LocalDateTime. */
  predicate ValidStore(store: seq<Photo>) {
    forall i :: 0 <= i < |store| ==> ValidDateTime(store[i].uploadedAt)
  }

  /** Positional notation with one more significant digit: the high digit
      decides unless it is equal. */
  lemma PlaceValue(h1: nat, l1: nat, h2: nat, l2: nat, w: nat)
    requires l1 < w && l2 < w
    ensures h1 * w + l1 < h2 * w + l2 <==> h1 < h2 || (h1 == h2 && l1 < l2)
    ensures h1 * w + l1 == h2 * w + l2 <==> h1 == h2 && l1 == l2
  {
    if h1 < h2 {
      assert (h1 + 1) * w <= h2 * w;
    } else if h2 < h1 {
      assert (h2 + 1) * w <= h1 * w;
    }
  }

  /** The digits below a place value stay below it. */
  lemma PlaceBound(h: nat, l: nat, w: nat, n: nat)
    requires h < n && l < w
    ensures h * w + l < n * w
  {
    assert (h + 1) * w <= n * w;
  }

  /** Each partial instant of a valid timestamp fits in its slot. */
  lemma SlotBounds(d: DateTime)
    requires ValidDateTime(d)
    ensures 0 <= SinceMinuteStart(d) < NanosPerMinute
    ensures 0 <= SinceHourStart(d) < NanosPerHour
    ensures 0 <= SinceDayStart(d) < NanosPerDay
    ensures 0 <= SinceMonthStart(d) < NanosPerMonthSlot
    ensures 0 <= SinceYearStart(d) < NanosPerYearSlot
  {
    PlaceBound(d.second, d.nano, 1_000_000_000, 60);
    PlaceBound(d.minute, SinceMinuteStart(d), 60_000_000_000, 60);
    PlaceBound(d.hour, SinceHourStart(d), 3_600_000_000_000, 24);
    PlaceBound(d.day, SinceDayStart(d), 86_400_000_000_000, 32);
    PlaceBound(d.month, SinceMonthStart(d), 2_764_800_000_000_000, 13);
  }

  /** Comparing partial instants from one field down: the field decides,
      and on a tie the rest does. One lemma per field. */
  lemma CompareSinceMinuteStart(a: DateTime, b: DateTime)
    requires ValidDateTime(a) && ValidDateTime(b)
    ensures SinceMinuteStart(a) < SinceMinuteStart(b) <==> a.second < b.second || (a.second == b.second && a.nano < b.nano)
    ensures SinceMinuteStart(a) == SinceMinuteStart(b) <==> a.second == b.second && a.nano == b.nano
  {
    SlotBounds(a);
    SlotBounds(b);
    PlaceValue(a.second, a.nano, b.second, b.nano, 1_000_000_000);
  }

  lemma CompareSinceHourStart(a: DateTime, b: DateTime)
    requires ValidDateTime(a) && ValidDateTime(b)
    ensures SinceHourStart(a) < SinceHourStart(b) <==> a.minute < b.minute || (a.minute == b.minute && SinceMinuteStart(a) < SinceMinuteStart(b))
    ensures SinceHourStart(a) == SinceHourStart(b) <==> a.minute == b.minute && SinceMinuteStart(a) == SinceMinuteStart(b)
  {
    SlotBounds(a);
    SlotBounds(b);
    PlaceValue(a.minute, SinceMinuteStart(a), b.minute, SinceMinuteStart(b), 60_000_000_000);
  }

  lemma CompareSinceDayStart(a: DateTime, b: DateTime)
    requires ValidDateTime(a) && ValidDateTime(b)
    ensures SinceDayStart(a) < SinceDayStart(b) <==> a.hour < b.hour || (a.hour == b.hour && SinceHourStart(a) < SinceHourStart(b))
    ensures SinceDayStart(a) == SinceDayStart(b) <==> a.hour == b.hour && SinceHourStart(a) == SinceHourStart(b)
  {
    SlotBounds(a);
    SlotBounds(b);
    PlaceValue(a.hour, SinceHourStart(a), b.hour, SinceHourStart(b), 3_600_000_000_000);
  }

  lemma CompareSinceMonthStart(a: DateTime, b: DateTime)
    requires ValidDateTime(a) && ValidDateTime(b)
    ensures SinceMonthStart(a) < SinceMonthStart(b) <==> a.day < b.day || (a.day == b.day && SinceDayStart(a) < SinceDayStart(b))
    ensures SinceMonthStart(a) == SinceMonthStart(b) <==> a.day == b.day && SinceDayStart(a) == SinceDayStart(b)
  {
    SlotBounds(a);
    SlotBounds(b);
    PlaceValue(a.day, SinceDayStart(a), b.day, SinceDayStart(b), 86_400_000_000_000);
  }

  lemma CompareSinceYearStart(a: DateTime, b: DateTime)
    requires ValidDateTime(a) && ValidDateTime(b)
    ensures SinceYearStart(a) < SinceYearStart(b) <==> a.month < b.month || (a.month == b.month && SinceMonthStart(a) < SinceMonthStart(b))
    ensures SinceYearStart(a) == SinceYearStart(b) <==> a.month == b.month && SinceMonthStart(a) == SinceMonthStart(b)
  {
    SlotBounds(a);
    SlotBounds(b);
    PlaceValue(a.month, SinceMonthStart(a), b.month, SinceMonthStart(b), 2_764_800_000_000_000);
  }

  lemma CompareInstants(a: DateTime, b: DateTime)
    requires ValidDateTime(a) && ValidDateTime(b)
    ensures Instant(a) < Instant(b) <==> a.year < b.year || (a.year == b.year && SinceYearStart(a) < SinceYearStart(b))
    ensures Instant(a) == Instant(b) <==> a.year == b.year && SinceYearStart(a) == SinceYearStart(b)
  {
    SlotBounds(a);
    SlotBounds(b);
    PlaceValue(a.year, SinceYearStart(a), b.year, SinceYearStart(b), 35_942_400_000_000_000);
  }

  /** For valid timestamps, comparing instants is comparing chronologically,
      and two timestamps at the same instant are the same timestamp. */
  lemma InstantIsChronological(a: DateTime, b: DateTime)
    requires ValidDateTime(a) && ValidDateTime(b)
    ensures Earlier(a, b) <==> Instant(a) < Instant(b)
    ensures Instant(a) == Instant(b) <==> a == b
  {
    CompareSinceMinuteStart(a, b);
    CompareSinceHourStart(a, b);
    CompareSinceDayStart(a, b);
    CompareSinceMonthStart(a, b);
    CompareSinceYearStart(a, b);
    CompareInstants(a, b);
  }
}
