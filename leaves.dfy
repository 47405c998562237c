/** The leave-statistics page script: reading a duration written as
    "D日H時M分" (days of 8 hours, hours, minutes) into hours, writing hours
    back in that form, the combined sick-plus-personal column of each row,
    and the order of the rows. Hours are exact reals here. */
module Leaves {
  import opened Wrappers
  import opened Decimal

  const DayMark: char := '日'
  const HourMark: char := '時'
  const MinuteMark: char := '分'

  /** What a missing leave type is shown as. */
  const NoLeave: string := "0日0時0分"

  // ---------------------------------------------------------------------
  // Reading: `str.match(/(\d+)X/)` and `parseInt(match[1], 10)`.

  /** The length of the run of digits that starts at `p`. */
  function DigitRun(s: string, p: nat): (n: nat)
    requires p <= |s|
    ensures p + n <= |s|
    ensures forall i :: p <= i < p + n ==> IsDigit(s[i])
    ensures p + n == |s| || !IsDigit(s[p + n])
    decreases |s| - p
  {
    if p < |s| && IsDigit(s[p]) then 1 + DigitRun(s, p + 1) else 0
  }

  /** The search of `(\d+)X` from position `p` on: the first position where a
      run of digits is followed by the mark. The run taken there is the whole
      run, since a shorter one is followed by a digit and not by the mark. */
  function MatchFrom(s: string, mark: char, p: nat): (m: Option<string>)
    requires p <= |s|
    ensures m.Some? ==> |m.value| >= 1 && AllDigits(m.value)
    decreases |s| - p
  {
    if p == |s| then None
    else
      var n := DigitRun(s, p);
      if n > 0 && p + n < |s| && s[p + n] == mark then Some(s[p..p + n])
      else MatchFrom(s, mark, p + 1)
  }

  /** The number written before the mark, or 0 when the pattern does not match. */
  function Field(s: string, mark: char): nat {
    match MatchFrom(s, mark, 0)
    case None => 0
    case Some(digits) => DecimalValue(digits)
  }

  /** `parseLeaveToHours`: days times 8, plus hours, plus minutes over 60. */
  function ParseLeaveToHours(s: string): (t: real)
    ensures t >= 0.0
  {
    (8 * Field(s, DayMark) + Field(s, HourMark)) as real + Field(s, MinuteMark) as real / 60.0
  }

  // ---------------------------------------------------------------------
  // Writing: `formatHoursToLeave`.

  /** `Math.round`: the nearest integer, halves rounded up. */
  function Round(x: real): (n: int)
    ensures n as real - 0.5 <= x < n as real + 0.5
  {
    (x + 0.5).Floor
  }

  /** JavaScript's `%` on integers: the remainder takes the sign of the dividend. */
  function JsRem(a: int, b: int): (r: int)
    requires b > 0
    ensures a >= 0 ==> 0 <= r < b && r == a % b
    ensures a < 0 ==> -b < r <= 0 && (-a) % b == -r
  {
    if a >= 0 then a % b else -((-a) % b)
  }

  /** The three numbers `formatHoursToLeave` prints. */
  datatype LeaveFields = LeaveFields(days: int, hours: int, mins: int)

  /** The string `${days}日${hours}時${mins}分`. */
  function Render(f: LeaveFields): string {
    IntToString(f.days) + "日" + IntToString(f.hours) + "時" + IntToString(f.mins) + "分"
  }

  /** The days come from the hours directly; the hours and minutes from the
      total rounded to the minute, less whole 8-hour days. */
  function FormatFields(t: real): (f: LeaveFields)
    ensures t >= 0.0 ==> f.days >= 0 && 0 <= f.hours < 8 && 0 <= f.mins < 60
  {
    var days := (t / 8.0).Floor;
    var totalMinutes := Round(t * 60.0);
    var remainderMinutes := JsRem(totalMinutes, 8 * 60);
    var hours := (remainderMinutes as real / 60.0).Floor;
    FloorDiv(remainderMinutes, 60);
    LeaveFields(days, hours, JsRem(remainderMinutes, 60))
  }

  function FormatHoursToLeave(t: real): string {
    Render(FormatFields(t))
  }

  /** Dividing by a positive integer and flooring is integer division. */
  lemma FloorDiv(a: int, b: int)
    requires b > 0
    ensures (a as real / b as real).Floor == a / b
  {
    var q := a / b;
    var r := a % b;
    assert a as real == q as real * b as real + r as real;
    assert q as real <= a as real / b as real < q as real + 1.0 by {
      assert a as real / b as real == q as real + r as real / b as real;
      assert 0.0 <= r as real / b as real < 1.0;
    }
  }

  // ---------------------------------------------------------------------
  // Where the pattern matches in a rendered duration.

  /** From any point of a run of digits, the run ends where the whole run does. */
  lemma {:induction false} RunEnds(s: string, p: nat, q: nat)
    requires p <= q < |s|
    requires forall i :: p <= i < q ==> IsDigit(s[i])
    requires !IsDigit(s[q])
    ensures DigitRun(s, p) == q - p
    decreases q - p
  {
    if p < q {
      RunEnds(s, p + 1, q);
    }
  }

  /** A run of digits followed by something other than the mark is passed over. */
  lemma {:induction false} SkipRun(s: string, mark: char, p: nat, q: nat)
    requires p <= q < |s|
    requires forall i :: p <= i < q ==> IsDigit(s[i])
    requires !IsDigit(s[q]) && s[q] != mark
    ensures MatchFrom(s, mark, p) == MatchFrom(s, mark, q + 1)
    decreases q - p
  {
    RunEnds(s, p, q);
    if p < q {
      SkipRun(s, mark, p + 1, q);
    }
  }

  /** A run of digits starting at `p` and followed by the mark is the match. */
  lemma MatchAt(s: string, mark: char, p: nat, q: nat)
    requires p < q < |s|
    requires forall i :: p <= i < q ==> IsDigit(s[i])
    requires s[q] == mark && !IsDigit(mark)
    ensures MatchFrom(s, mark, p) == Some(s[p..q])
  {
    RunEnds(s, p, q);
  }

  /** Digits from `a` up to the mark at `b`: a place where `(\d+)X` matches. */
  predicate MarkedRun(s: string, mark: char, a: int, b: int) {
    0 <= a < b < |s| && s[b] == mark && forall i :: a <= i < b ==> IsDigit(s[i])
  }

  /** No match starts at `p` when the search passes over it. */
  lemma NoRunAt(s: string, mark: char, p: nat, b: int)
    requires p < |s| && !IsDigit(mark) && MarkedRun(s, mark, p, b)
    ensures var n := DigitRun(s, p); n > 0 && p + n < |s| && s[p + n] == mark
  {
    RunEnds(s, p, b);
  }

  /** The search from `p` is the regular expression's: it fails exactly when
      no run of digits at or after `p` is followed by the mark, and otherwise
      takes the leftmost such run, whole, which a non-digit (or `p`) precedes. */
  lemma {:induction false} MatchFromLeftmost(s: string, mark: char, p: nat)
    requires p <= |s| && !IsDigit(mark)
    ensures MatchFrom(s, mark, p).None? <==> forall a, b :: MarkedRun(s, mark, a, b) ==> a < p
    ensures MatchFrom(s, mark, p).Some? ==>
      exists a, b :: p <= a && MarkedRun(s, mark, a, b) && MatchFrom(s, mark, p).value == s[a..b]
        && (a == p || !IsDigit(s[a - 1]))
        && forall c, d :: MarkedRun(s, mark, c, d) && p <= c ==> a <= c
    decreases |s| - p
  {
    if p < |s| {
      var n := DigitRun(s, p);
      if n > 0 && p + n < |s| && s[p + n] == mark {
        assert MarkedRun(s, mark, p, p + n);
      } else {
        forall b | MarkedRun(s, mark, p, b) ensures false {
          NoRunAt(s, mark, p, b);
        }
        MatchFromLeftmost(s, mark, p + 1);
        if MatchFrom(s, mark, p).Some? {
          var a, b :| p + 1 <= a && MarkedRun(s, mark, a, b) && MatchFrom(s, mark, p + 1).value == s[a..b]
            && (a == p + 1 || !IsDigit(s[a - 1]))
            && forall c, d :: MarkedRun(s, mark, c, d) && p + 1 <= c ==> a <= c;
          assert !MarkedRun(s, mark, p, b);
        }
      }
    }
  }

  /** A rendered duration of non-negative fields, piece by piece. */
  lemma Layout(d: nat, h: nat, m: nat)
    ensures Render(LeaveFields(d, h, m))
         == NatToString(d) + [DayMark] + NatToString(h) + [HourMark] + NatToString(m) + [MinuteMark]
  {
  }

  /** Past a prefix, the run of digits does not look back at it. */
  lemma {:induction false} DigitRunShift(pre: string, rest: string, i: nat)
    requires i <= |rest|
    ensures DigitRun(pre + rest, |pre| + i) == DigitRun(rest, i)
    decreases |rest| - i
  {
    if i < |rest| {
      assert (pre + rest)[|pre| + i] == rest[i];
      DigitRunShift(pre, rest, i + 1);
    }
  }

  /** Past a prefix, the search does not look back at it. */
  lemma {:induction false} MatchShift(pre: string, rest: string, mark: char, i: nat)
    requires i <= |rest|
    ensures MatchFrom(pre + rest, mark, |pre| + i) == MatchFrom(rest, mark, i)
    decreases |rest| - i
  {
    if i < |rest| {
      DigitRunShift(pre, rest, i);
      var n := DigitRun(rest, i);
      MatchShift(pre, rest, mark, i + 1);
      if i + n < |rest| {
        assert (pre + rest)[|pre| + i + n] == rest[i + n];
        SliceShift(pre, rest, i, i + n);
      }
    }
  }

  /** A slice past the prefix is the same slice of the rest. */
  lemma SliceShift(pre: string, rest: string, a: nat, b: nat)
    requires a <= b <= |rest|
    ensures (pre + rest)[|pre| + a..|pre| + b] == rest[a..b]
  {
    assert forall k :: 0 <= k < b - a ==> (pre + rest)[|pre| + a..|pre| + b][k] == rest[a..b][k];
  }

  /** Digits followed by the mark are what the search finds first. */
  lemma FieldFirst(x: string, rest: string, mark: char)
    requires |x| >= 1 && AllDigits(x) && !IsDigit(mark)
    ensures MatchFrom(x + [mark] + rest, mark, 0) == Some(x)
  {
    var s := x + [mark] + rest;
    assert forall i :: 0 <= i < |x| ==> s[i] == x[i];
    assert s[..|x|] == x;
    MatchAt(s, mark, 0, |x|);
  }

  /** Digits followed by another non-digit are passed over. */
  lemma FieldSkip(x: string, c: char, rest: string, mark: char)
    requires AllDigits(x) && !IsDigit(c) && c != mark
    ensures MatchFrom(x + [c] + rest, mark, 0) == MatchFrom(rest, mark, 0)
  {
    var s := x + [c] + rest;
    assert forall i :: 0 <= i < |x| ==> s[i] == x[i];
    SkipRun(s, mark, 0, |x|);
    MatchShift(x + [c], rest, mark, 0);
  }

  /** In "D日H時M分" with digit strings D, H and M, each pattern finds its own digits. */
  lemma DayMatch(D: string, H: string, M: string)
    requires |D| >= 1 && AllDigits(D)
    ensures MatchFrom(D + [DayMark] + H + [HourMark] + M + [MinuteMark], DayMark, 0) == Some(D)
  {
    assert D + [DayMark] + H + [HourMark] + M + [MinuteMark] == D + [DayMark] + (H + [HourMark] + M + [MinuteMark]);
    FieldFirst(D, H + [HourMark] + M + [MinuteMark], DayMark);
  }

  lemma HourMatch(D: string, H: string, M: string)
    requires |H| >= 1 && AllDigits(D) && AllDigits(H)
    ensures MatchFrom(D + [DayMark] + H + [HourMark] + M + [MinuteMark], HourMark, 0) == Some(H)
  {
    var rest := H + [HourMark] + (M + [MinuteMark]);
    assert D + [DayMark] + H + [HourMark] + M + [MinuteMark] == D + [DayMark] + rest;
    FieldSkip(D, DayMark, rest, HourMark);
    FieldFirst(H, M + [MinuteMark], HourMark);
  }

  lemma MinuteMatch(D: string, H: string, M: string)
    requires |M| >= 1 && AllDigits(D) && AllDigits(H) && AllDigits(M)
    ensures MatchFrom(D + [DayMark] + H + [HourMark] + M + [MinuteMark], MinuteMark, 0) == Some(M)
  {
    var rest := M + [MinuteMark] + [];
    var mid := H + [HourMark] + rest;
    assert D + [DayMark] + H + [HourMark] + M + [MinuteMark] == D + [DayMark] + mid;
    FieldSkip(D, DayMark, mid, MinuteMark);
    FieldSkip(H, HourMark, rest, MinuteMark);
    FieldFirst(M, [], MinuteMark);
  }

  /** A rendered duration reads back as its days, hours and minutes. */
  lemma ParseRendered(d: nat, h: nat, m: nat)
    ensures ParseLeaveToHours(Render(LeaveFields(d, h, m))) == (8 * d + h) as real + m as real / 60.0
    ensures ParseLeaveToHours(Render(LeaveFields(d, h, m))) == (480 * d + 60 * h + m) as real / 60.0
  {
    var D, H, M := NatToString(d), NatToString(h), NatToString(m);
    Layout(d, h, m);
    DayMatch(D, H, M);
    HourMatch(D, H, M);
    MinuteMatch(D, H, M);
    NatToStringValue(d);
    NatToStringValue(h);
    NatToStringValue(m);
  }

  /** The default for a missing leave type reads as no time at all. */
  lemma NoLeaveIsZero()
    ensures ParseLeaveToHours(NoLeave) == 0.0
  {
    ParseRendered(0, 0, 0);
    assert Render(LeaveFields(0, 0, 0)) == NoLeave;
  }

  // ---------------------------------------------------------------------
  // The two conversions undo each other.

  /** A whole number of minutes as whole 8-hour days, then hours, then minutes. */
  function SplitMinutes(total: nat): LeaveFields {
    var rest := total % 480;
    LeaveFields(total / 480, rest / 60, rest % 60)
  }

  /** The split has hours below 8 and minutes below 60, and adds back up to the total. */
  lemma SplitAddsUp(total: nat)
    ensures var f := SplitMinutes(total);
      && f.days >= 0 && 0 <= f.hours < 8 && 0 <= f.mins < 60
      && 480 * f.days + 60 * f.hours + f.mins == total
  {
    var rest := total % 480;
    assert total == 480 * (total / 480) + rest;
    assert rest == 60 * (rest / 60) + rest % 60;
  }

  /** Days, hours below 8 and minutes below 60 are recovered from the minutes they make up. */
  lemma MinutesSplit(d: nat, h: nat, m: nat)
    requires h < 8 && m < 60
    ensures SplitMinutes(480 * d + 60 * h + m) == LeaveFields(d, h, m)
  {
    var total := 480 * d + 60 * h + m;
    var rest := 60 * h + m;
    assert total / 480 == d && total % 480 == rest;
    assert rest / 60 == h && rest % 60 == m;
  }

  /** `formatHoursToLeave` on a whole number of minutes prints its split. */
  lemma FieldsOfMinutes(t: real, total: nat)
    requires t == total as real / 60.0
    ensures FormatFields(t) == SplitMinutes(total)
  {
    FloorDiv(total, 480);
    assert t / 8.0 == total as real / 480.0;
    assert t * 60.0 == total as real;
    assert Round(t * 60.0) == total;
    FloorDiv(total % 480, 60);
  }

  /** The split of a whole number of minutes reads back as that number. */
  lemma SplitReadsBack(total: nat)
    ensures ParseLeaveToHours(Render(SplitMinutes(total))) == total as real / 60.0
  {
    var f := SplitMinutes(total);
    SplitAddsUp(total);
    ParseRendered(f.days, f.hours, f.mins);
  }

  /** Writing a whole number of minutes and reading it back gives it again. */
  lemma ParseFormat(t: real, total: nat)
    requires t == total as real / 60.0
    ensures ParseLeaveToHours(FormatHoursToLeave(t)) == t
  {
    FieldsOfMinutes(t, total);
    SplitReadsBack(total);
  }

  /** The same, for a string known to be the writing of a whole number of minutes. */
  lemma ReadsBackAt(t: real, written: string, total: nat)
    requires t == total as real / 60.0 && written == FormatHoursToLeave(t)
    ensures ParseLeaveToHours(written) == t
  {
    ParseFormat(t, total);
  }

  /** A duration written with hours below 8 and minutes below 60 is written
      back the same after reading it. */
  lemma FormatParse(d: nat, h: nat, m: nat)
    requires h < 8 && m < 60
    ensures FormatHoursToLeave(ParseLeaveToHours(Render(LeaveFields(d, h, m)))) == Render(LeaveFields(d, h, m))
  {
    var total := 480 * d + 60 * h + m;
    var t := ParseLeaveToHours(Render(LeaveFields(d, h, m)));
    assert t == total as real / 60.0 by {
      ParseRendered(d, h, m);
    }
    FormatSplit(t, d, h, m);
  }

  /** Writing hours that make up whole days, hours below 8 and minutes below 60. */
  lemma FormatSplit(t: real, d: nat, h: nat, m: nat)
    requires h < 8 && m < 60 && t == (480 * d + 60 * h + m) as real / 60.0
    ensures FormatHoursToLeave(t) == Render(LeaveFields(d, h, m))
  {
    MinutesSplit(d, h, m);
    FieldsOfMinutes(t, 480 * d + 60 * h + m);
  }

  // ---------------------------------------------------------------------
  // A defect of `formatHoursToLeave`: the days are taken from the hours as
  // given, but the hours and minutes from the total rounded to the minute.
  // Just under a whole day the rounding carries into the days, which the
  // days field never sees.

  /** 7.995 hours are 479.7 minutes, rounded to 480: a whole day, written as none. */
  lemma FormatDropsDay()
    ensures FormatHoursToLeave(7.995) == NoLeave
    ensures ParseLeaveToHours(FormatHoursToLeave(7.995)) == 0.0
  {
    assert (7.995 / 8.0).Floor == 0;
    assert Round(7.995 * 60.0) == 480;
    FloorDiv(0, 60);
    assert FormatFields(7.995) == LeaveFields(0, 0, 0);
    assert Render(LeaveFields(0, 0, 0)) == NoLeave;
    NoLeaveIsZero();
  }

  /** The evident intent: every field from the total rounded to the minute. */
  function RoundedFields(t: real): (f: LeaveFields)
    ensures t >= 0.0 ==> f.days >= 0 && 0 <= f.hours < 8 && 0 <= f.mins < 60
  {
    var totalMinutes := Round(t * 60.0);
    var days := (totalMinutes as real / 480.0).Floor;
    var remainderMinutes := JsRem(totalMinutes, 8 * 60);
    var hours := (remainderMinutes as real / 60.0).Floor;
    FloorDiv(remainderMinutes, 60);
    LeaveFields(days, hours, JsRem(remainderMinutes, 60))
  }

  function FormatHoursToLeaveRounded(t: real): string {
    Render(RoundedFields(t))
  }

  /** The corrected fields of a non-negative number of hours are those of
      its total rounded to the minute. */
  lemma RoundedFieldsSplit(t: real)
    requires t >= 0.0
    ensures Round(t * 60.0) >= 0
    ensures RoundedFields(t) == SplitMinutes(Round(t * 60.0))
  {
    var total := Round(t * 60.0);
    FloorDiv(total, 480);
    FloorDiv(total % 480, 60);
  }

  /** The corrected writing reads back as the hours rounded to the minute,
      so it is never more than half a minute off. */
  lemma RoundedReadsBack(t: real)
    requires t >= 0.0
    ensures ParseLeaveToHours(FormatHoursToLeaveRounded(t)) == Round(t * 60.0) as real / 60.0
    ensures -1.0 / 120.0 < ParseLeaveToHours(FormatHoursToLeaveRounded(t)) - t <= 1.0 / 120.0
  {
    var total := Round(t * 60.0);
    RoundedFieldsSplit(t);
    SplitReadsBack(total);
    assert total as real - 0.5 <= t * 60.0 < total as real + 0.5;
  }

  /** On whole minutes in exact arithmetic, both writings agree. */
  lemma RoundedAgrees(t: real, written: string, total: nat)
    requires t == total as real / 60.0 && written == FormatHoursToLeave(t)
    ensures written == FormatHoursToLeaveRounded(t)
  {
    FieldsOfMinutes(t, total);
    assert t * 60.0 == total as real;
    assert Round(t * 60.0) == total;
    RoundedFieldsSplit(t);
  }

  // ---------------------------------------------------------------------
  // One row of the table: `main`'s mapping over the scraped rows.

  const Vacation: string := "休假"
  const FamilyCare: string := "家庭照顧假"
  const Personal: string := "事假"
  const Sick: string := "病假"

  /** A table line as scraped: its leave type and the value in its last cell. */
  datatype LeaveEntry = LeaveEntry(kind: string, value: string)

  /** One person's block: the title and the kept leave lines. */
  datatype Person = Person(title: string, leaves: seq<LeaveEntry>)

  /** One row of the printed table. */
  datatype TableRow = TableRow(name: string, vacation: string, familyCare: string,
                               personal: string, sick: string, combined: string)

  /** Where `leaves.find((l) => l.type === kind)` stops: the first line of
      that kind, or the end when there is none. */
  function FirstOfKind(leaves: seq<LeaveEntry>, kind: string): (i: nat)
    ensures i <= |leaves|
    ensures i < |leaves| ==> leaves[i].kind == kind
    ensures forall j :: 0 <= j < i ==> leaves[j].kind != kind
  {
    if leaves == [] || leaves[0].kind == kind then 0 else 1 + FirstOfKind(leaves[1..], kind)
  }

  /** `leaves.find((l) => l.type === kind)?.value`. */
  function Find(leaves: seq<LeaveEntry>, kind: string): Option<string> {
    var i := FirstOfKind(leaves, kind);
    if i < |leaves| then Some(leaves[i].value) else None
  }

  /** `… ?.value || "0日0時0分"`: the default also replaces an empty value,
      which JavaScript treats as false. */
  function ValueOr(leaves: seq<LeaveEntry>, kind: string): (v: string)
    ensures v != ""
    ensures Find(leaves, kind).None? ==> v == NoLeave
    ensures Find(leaves, kind) == Some("") ==> v == NoLeave
    ensures Find(leaves, kind).Some? && Find(leaves, kind).value != "" ==> v == Find(leaves, kind).value
  {
    match Find(leaves, kind)
    case Some(value) => if value != "" then value else NoLeave
    case None => NoLeave
  }

  /** The "事假+病假合計" column: sick and personal leave read, added and
      written back with `formatHoursToLeave`. */
  function Combined(sick: string, personal: string): string {
    FormatHoursToLeave(ParseLeaveToHours(sick) + ParseLeaveToHours(personal))
  }

  function Tabulate(p: Person): TableRow {
    var personal := ValueOr(p.leaves, Personal);
    var sick := ValueOr(p.leaves, Sick);
    TableRow(p.title, ValueOr(p.leaves, Vacation), ValueOr(p.leaves, FamilyCare), personal, sick,
             Combined(sick, personal))
  }

  /** Two leave strings add up to a whole number of minutes. */
  lemma SumInMinutes(sick: string, personal: string) returns (total: nat)
    ensures ParseLeaveToHours(sick) + ParseLeaveToHours(personal) == total as real / 60.0
  {
    total := 480 * Field(sick, DayMark) + 60 * Field(sick, HourMark) + Field(sick, MinuteMark)
           + 480 * Field(personal, DayMark) + 60 * Field(personal, HourMark) + Field(personal, MinuteMark);
  }

  /** The combined column reads back as the sick and personal leave added up. */
  lemma CombinedIsSum(sick: string, personal: string)
    ensures ParseLeaveToHours(Combined(sick, personal)) == ParseLeaveToHours(sick) + ParseLeaveToHours(personal)
  {
    var t := ParseLeaveToHours(sick) + ParseLeaveToHours(personal);
    var total := SumInMinutes(sick, personal);
    ReadsBackAt(t, Combined(sick, personal), total);
  }

  /** In exact arithmetic the combined column is what the corrected formatter
      prints for the sum. In doubles a sum of whole minutes can fall just
      short of a whole day, and the defect then shows in this column too. */
  lemma CombinedUnaffected(sick: string, personal: string)
    ensures Combined(sick, personal)
         == FormatHoursToLeaveRounded(ParseLeaveToHours(sick) + ParseLeaveToHours(personal))
  {
    var t := ParseLeaveToHours(sick) + ParseLeaveToHours(personal);
    var total := SumInMinutes(sick, personal);
    RoundedAgrees(t, Combined(sick, personal), total);
  }

  /** The lines of the given kinds, in order. */
  function OfKinds(leaves: seq<LeaveEntry>, kinds: set<string>): (r: seq<LeaveEntry>)
    ensures forall i :: 0 <= i < |r| ==> r[i].kind in kinds
    ensures forall e :: e in r <==> e in leaves && e.kind in kinds
  {
    if leaves == [] then []
    else if leaves[0].kind in kinds then [leaves[0]] + OfKinds(leaves[1..], kinds)
    else OfKinds(leaves[1..], kinds)
  }

  /** Dropping lines of other kinds does not change what is found for a kept kind. */
  lemma {:induction false} FindOfKinds(leaves: seq<LeaveEntry>, kinds: set<string>, kind: string)
    requires kind in kinds
    ensures Find(OfKinds(leaves, kinds), kind) == Find(leaves, kind)
    decreases |leaves|
  {
    if leaves != [] {
      var rest := OfKinds(leaves[1..], kinds);
      FindOfKinds(leaves[1..], kinds, kind);
      FindCons(leaves, kind);
      if leaves[0].kind in kinds {
        assert OfKinds(leaves, kinds) == [leaves[0]] + rest;
        FindCons([leaves[0]] + rest, kind);
        assert ([leaves[0]] + rest)[1..] == rest;
      } else {
        assert OfKinds(leaves, kinds) == rest;
      }
    }
  }

  /** `find` looks at the first line, then at the rest. */
  lemma FindCons(leaves: seq<LeaveEntry>, kind: string)
    requires leaves != []
    ensures Find(leaves, kind) == if leaves[0].kind == kind then Some(leaves[0].value) else Find(leaves[1..], kind)
  {
  }

  /** Vacation and family-care leave play no part in the combined column:
      keeping only the sick and personal lines leaves it as it is. */
  lemma CombinedIgnoresOthers(p: Person)
    ensures Tabulate(Person(p.title, OfKinds(p.leaves, {Personal, Sick}))).combined == Tabulate(p).combined
  {
    var q := Person(p.title, OfKinds(p.leaves, {Personal, Sick}));
    FindOfKinds(p.leaves, {Personal, Sick}, Personal);
    FindOfKinds(p.leaves, {Personal, Sick}, Sick);
    assert ValueOr(q.leaves, Personal) == ValueOr(p.leaves, Personal);
    assert ValueOr(q.leaves, Sick) == ValueOr(p.leaves, Sick);
  }

  // ---------------------------------------------------------------------
  // The order of the rows: `dataForTable.sort((a, b) => key(b) - key(a))`,
  // a stable sort, largest key first. The sort is stated for any key, and
  // used with the combined total read back.

  function Key(r: TableRow): real {
    ParseLeaveToHours(r.combined)
  }

  predicate Descending<T>(key: T -> real, rows: seq<T>) {
    forall i, j :: 0 <= i < j < |rows| ==> key(rows[i]) >= key(rows[j])
  }

  predicate AtMost<T>(key: T -> real, rows: seq<T>, bound: real) {
    forall i :: 0 <= i < |rows| ==> key(rows[i]) <= bound
  }

  /** The rows with the given key, in their order. */
  function WithKey<T>(key: T -> real, rows: seq<T>, k: real): (r: seq<T>)
    ensures forall i :: 0 <= i < |r| ==> key(r[i]) == k
  {
    if rows == [] then []
    else if key(rows[0]) == k then [rows[0]] + WithKey(key, rows[1..], k)
    else WithKey(key, rows[1..], k)
  }

  /** Puts a row in front of the first row whose key is not larger: after the
      larger ones, before the equal ones that came after it. */
  function Insert<T>(key: T -> real, x: T, rows: seq<T>): (r: seq<T>)
    ensures multiset(r) == multiset(rows) + multiset{x}
  {
    if rows == [] || key(rows[0]) <= key(x) then [x] + rows
    else
      assert rows == [rows[0]] + rows[1..];
      [rows[0]] + Insert(key, x, rows[1..])
  }

  function SortBy<T>(key: T -> real, rows: seq<T>): (r: seq<T>)
    ensures multiset(r) == multiset(rows)
  {
    if rows == [] then []
    else
      assert rows == [rows[0]] + rows[1..];
      Insert(key, rows[0], SortBy(key, rows[1..]))
  }

  /** A row put in front of rows no larger than it keeps them descending. */
  lemma DescendingCons<T>(key: T -> real, x: T, rows: seq<T>)
    requires Descending(key, rows) && AtMost(key, rows, key(x))
    ensures Descending(key, [x] + rows)
  {
    var r := [x] + rows;
    forall i, j | 0 <= i < j < |r| ensures key(r[i]) >= key(r[j]) {
      assert r[j] == rows[j - 1];
      if i > 0 {
        assert r[i] == rows[i - 1];
      }
    }
  }

  lemma {:induction false} InsertAtMost<T>(key: T -> real, x: T, rows: seq<T>, bound: real)
    requires AtMost(key, rows, bound) && key(x) <= bound
    ensures AtMost(key, Insert(key, x, rows), bound)
    decreases |rows|
  {
    if rows != [] && key(rows[0]) > key(x) {
      InsertAtMost(key, x, rows[1..], bound);
      var r := Insert(key, x, rows[1..]);
      assert forall i :: 0 <= i < |r| ==> ([rows[0]] + r)[i + 1] == r[i];
    }
  }

  lemma {:induction false} InsertDescending<T>(key: T -> real, x: T, rows: seq<T>)
    requires Descending(key, rows)
    ensures Descending(key, Insert(key, x, rows))
    decreases |rows|
  {
    if rows == [] || key(rows[0]) <= key(x) {
      assert AtMost(key, rows, key(x)) by {
        if rows != [] {
          assert forall j :: 0 < j < |rows| ==> key(rows[0]) >= key(rows[j]);
        }
      }
      DescendingCons(key, x, rows);
    } else {
      InsertDescending(key, x, rows[1..]);
      assert AtMost(key, rows[1..], key(rows[0])) by {
        assert forall j :: 0 <= j < |rows[1..]| ==> rows[1..][j] == rows[j + 1];
      }
      InsertAtMost(key, x, rows[1..], key(rows[0]));
      DescendingCons(key, rows[0], Insert(key, x, rows[1..]));
    }
  }

  /** The sorted rows run from the largest key to the smallest. */
  lemma {:induction false} SortDescending<T>(key: T -> real, rows: seq<T>)
    ensures Descending(key, SortBy(key, rows))
    decreases |rows|
  {
    if rows != [] {
      SortDescending(key, rows[1..]);
      InsertDescending(key, rows[0], SortBy(key, rows[1..]));
    }
  }

  lemma {:induction false} InsertWithKey<T>(key: T -> real, x: T, rows: seq<T>, k: real)
    ensures WithKey(key, Insert(key, x, rows), k) == WithKey(key, [x] + rows, k)
    decreases |rows|
  {
    if rows == [] || key(rows[0]) <= key(x) {
    } else {
      InsertWithKey(key, x, rows[1..], k);
      assert ([rows[0]] + Insert(key, x, rows[1..]))[1..] == Insert(key, x, rows[1..]);
      assert ([x] + rows)[1..] == rows;
      assert ([x] + rows[1..])[1..] == rows[1..];
      if key(x) == k {
        assert key(rows[0]) != k;
      }
    }
  }

  /** The sort is stable: rows with equal keys keep their order. */
  lemma {:induction false} SortStable<T>(key: T -> real, rows: seq<T>, k: real)
    ensures WithKey(key, SortBy(key, rows), k) == WithKey(key, rows, k)
    decreases |rows|
  {
    if rows != [] {
      SortStable(key, rows[1..], k);
      InsertWithKey(key, rows[0], SortBy(key, rows[1..]), k);
      assert ([rows[0]] + SortBy(key, rows[1..]))[1..] == SortBy(key, rows[1..]);
    }
  }

  /** `main`'s table: one row per person, in the order the sort leaves. */
  function Table(people: seq<Person>): seq<TableRow> {
    SortBy(Key, Tabulated(people))
  }

  function Tabulated(people: seq<Person>): (rows: seq<TableRow>)
    ensures |rows| == |people|
    ensures forall i :: 0 <= i < |people| ==> rows[i] == Tabulate(people[i])
  {
    if people == [] then [] else [Tabulate(people[0])] + Tabulated(people[1..])
  }

  /** The table holds every person's row once, largest combined total first,
      ties in the page's order. */
  lemma TableOrder(people: seq<Person>)
    ensures multiset(Table(people)) == multiset(Tabulated(people))
    ensures Descending(Key, Table(people))
    ensures forall k :: WithKey(Key, Table(people), k) == WithKey(Key, Tabulated(people), k)
  {
    SortDescending(Key, Tabulated(people));
    forall k ensures WithKey(Key, Table(people), k) == WithKey(Key, Tabulated(people), k) {
      SortStable(Key, Tabulated(people), k);
    }
  }
}
