/** The contribution-art planner of scripts/contribution_art.py: a table of
    5x5 glyphs, the layout of a word's glyphs into five text rows, and the
    mapping of each filled cell of those rows to a weekday of a given year
    on a Sunday-first contribution calendar. */
module ContributionArt {

  import opened Text
  import opened Calendar

  /** A filled cell and an empty cell of a glyph. */
  const Full: char := '█'
  const Blank: char := ' '

  /** A glyph is five rows; a pattern is the rows of a laid-out word. */
  type Glyph = seq<string>
  type Pattern = seq<string>

  const GlyphRows: nat := 5

  /** The characters the glyph table (`letters`) has an entry for. */
  const GlyphChars: set<char> := {'P', 'A', 'N', 'G', 'E', 'M', 'C', 'R', 'Y', 'T', 'O', 'I', '.', 'L', 'V', '5', ' '}
  /** The entries of the glyph table; the last case is the entry for ' '. */
  function GlyphOfKey(c: char): Glyph {
    match c
    case 'P' => ["████ ", "█   █", "████ ", "█    ", "█    "]
    case 'A' => [" ███ ", "█   █", "█████", "█   █", "█   █"]
    case 'N' => ["█   █", "██  █", "█ █ █", "█  ██", "█   █"]
    case 'G' => [" ████", "█    ", "█ ███", "█   █", " ████"]
    case 'E' => ["█████", "█    ", "████ ", "█    ", "█████"]
    case 'M' => ["█   █", "██ ██", "█ █ █", "█   █", "█   █"]
    case 'C' => [" ████", "█    ", "█    ", "█    ", " ████"]
    case 'R' => ["████ ", "█   █", "████ ", "█  █ ", "█   █"]
    case 'Y' => ["█   █", "█   █", " ███ ", "  █  ", "  █  "]
    case 'T' => ["█████", "  █  ", "  █  ", "  █  ", "  █  "]
    case 'O' => [" ███ ", "█   █", "█   █", "█   █", " ███ "]
    case 'I' => ["█████", "  █  ", "  █  ", "  █  ", "█████"]
    case '.' => ["     ", "     ", "     ", "     ", "  █  "]
    case 'L' => ["█    ", "█    ", "█    ", "█    ", "█████"]
    case 'V' => ["█   █", "█   █", "█   █", " █ █ ", "  █  "]
    case '5' => ["█████", "█    ", "████ ", "    █", "████ "]
    case _ => ["     ", "     ", "     ", "     ", "     "]
  }
  /** The glyph table (`letters`). */
  const Letters: map<char, Glyph> := map c | c in GlyphChars :: GlyphOfKey(c)

  predicate IsGlyphRow(s: string) {
    |s| == 5 && forall k :: 0 <= k < 5 ==> s[k] == Full || s[k] == Blank
  }

  predicate WellFormedGlyph(g: Glyph) {
    |g| == GlyphRows && forall r :: 0 <= r < GlyphRows ==> IsGlyphRow(g[r])
  }

  /** Every glyph of the table is five rows of five cells, each '█' or ' '. */
  lemma GlyphTableWellFormed()
    ensures forall c :: c in Letters ==> WellFormedGlyph(Letters[c])
  {
    forall c | c in Letters
      ensures WellFormedGlyph(Letters[c])
    {
      GlyphWellFormed(c);
    }
  }

  lemma GlyphWellFormed(c: char)
    ensures WellFormedGlyph(GlyphOfKey(c))
  {
    var g := GlyphOfKey(c);
    forall r | 0 <= r < GlyphRows
      ensures IsGlyphRow(g[r])
    {
      assert |g[r]| == 5;
      forall k | 0 <= k < 5
        ensures g[r][k] == Full || g[r][k] == Blank
      {
      }
    }
  }

  /** The glyph drawn for an (already upper-cased) character: unknown
      characters are drawn as the space glyph. */
  function GlyphFor(c: char): (g: Glyph)
    ensures WellFormedGlyph(g)
    ensures c !in Letters ==> g == Letters[' ']
  {
    GlyphTableWellFormed();
    if c in Letters then Letters[c] else Letters[' ']
  }

  /** The glyphs of the upper-cased word, left to right. */
  function GlyphsOf(word: string): (gs: seq<Glyph>)
    ensures |gs| == |word|
    ensures forall j :: 0 <= j < |word| ==> gs[j] == GlyphFor(UpperChar(word[j]))
  {
    seq(|word|, j requires 0 <= j < |word| => GlyphFor(UpperChar(word[j])))
  }

  /** Row `r` of the glyphs, each followed by one separating space, before
      trailing spaces are stripped. */
  function RawRow(gs: seq<Glyph>, r: nat): string
    requires r < GlyphRows
    requires forall j :: 0 <= j < |gs| ==> WellFormedGlyph(gs[j])
  {
    if gs == [] then ""
    else
      var last := gs[|gs| - 1];
      assert WellFormedGlyph(last);
      RawRow(gs[..|gs| - 1], r) + last[r] + " "
  }

  /** What `get_word_pattern` returns for `word`. */
  function WordPattern(word: string): Pattern {
    var gs := GlyphsOf(Upper(word));
    seq(GlyphRows, r requires 0 <= r < GlyphRows => RStrip(RawRow(gs, r)))
  }

  /** `get_word_pattern`: upper-cases the word, collects one glyph per
      character, then combines the glyphs row by row. */
  method GetWordPattern(word: string) returns (combined: Pattern)
    requires IsAscii(word)
    ensures combined == WordPattern(word)
  {
    var patterns := CollectGlyphs(Upper(word));
    assert patterns == GlyphsOf(Upper(word));
    combined := CombineRows(patterns);
    assert forall r :: 0 <= r < GlyphRows ==> combined[r] == WordPattern(word)[r];
  }

  /** The first loop of `get_word_pattern`: the glyph of each character,
      or the space glyph when the table has none. */
  method CollectGlyphs(upper: string) returns (patterns: seq<Glyph>)
    ensures |patterns| == |upper|
    ensures forall j :: 0 <= j < |upper| ==> patterns[j] == GlyphFor(upper[j])
  {
    patterns := [];
    for i := 0 to |upper|
      invariant |patterns| == i
      invariant forall j :: 0 <= j < i ==> patterns[j] == GlyphFor(upper[j])
    {
      if upper[i] in Letters {
        patterns := patterns + [Letters[upper[i]]];
      } else {
        patterns := patterns + [Letters[' ']];
      }
    }
  }

  /** The second loop of `get_word_pattern`: each row is every glyph's row
      followed by a space, with trailing spaces stripped. */
  method CombineRows(patterns: seq<Glyph>) returns (combined: Pattern)
    requires forall j :: 0 <= j < |patterns| ==> WellFormedGlyph(patterns[j])
    ensures |combined| == GlyphRows
    ensures forall r :: 0 <= r < GlyphRows ==> combined[r] == RStrip(RawRow(patterns, r))
  {
    combined := [];
    for row := 0 to GlyphRows
      invariant |combined| == row
      invariant forall r :: 0 <= r < row ==> combined[r] == RStrip(RawRow(patterns, r))
    {
      var line := "";
      for j := 0 to |patterns|
        invariant line == RawRow(patterns[..j], row)
      {
        assert patterns[..j + 1][..j] == patterns[..j];
        line := line + patterns[j][row] + " ";
      }
      assert patterns[..|patterns|] == patterns;
      combined := combined + [RStrip(line)];
    }
  }

  /** The unstripped row is six cells per glyph: the glyph's five cells and
      a separating space. */
  lemma {:induction false} RawRowAt(gs: seq<Glyph>, r: nat, k: nat)
    requires r < GlyphRows
    requires forall j :: 0 <= j < |gs| ==> WellFormedGlyph(gs[j])
    ensures |RawRow(gs, r)| == 6 * |gs|
    ensures k < 6 * |gs| ==> RawRow(gs, r)[k] == if k % 6 < 5 then gs[k / 6][r][k % 6] else Blank
    decreases |gs|
  {
    if gs != [] {
      var n := |gs| - 1;
      RawRowAt(gs[..n], r, k);
      if k < 6 * |gs| && k >= 6 * n {
        assert k / 6 == n && k % 6 == k - 6 * n;
      }
    }
  }

  /** Row `r` of a word's pattern: `get_word_pattern` always returns five
      rows; each row is a prefix of the six-cells-per-glyph layout, reads
      '█' exactly where the corresponding glyph cell is filled, has at most
      six cells per character, and does not end in a space; every cell of
      the layout past the row's end is blank, so the row is the layout with
      its trailing blanks removed. */
  lemma WordPatternRow(word: string, r: nat, k: nat)
    requires r < GlyphRows
    ensures |WordPattern(word)| == GlyphRows
    ensures |WordPattern(word)[r]| <= 6 * |word|
    ensures WordPattern(word)[r] == [] || WordPattern(word)[r][|WordPattern(word)[r]| - 1] != Blank
    ensures k < |WordPattern(word)[r]| ==>
      WordPattern(word)[r][k] == if k % 6 < 5 then GlyphFor(UpperChar(word[k / 6]))[r][k % 6] else Blank
    ensures k < |WordPattern(word)[r]| ==> WordPattern(word)[r][k] in {Full, Blank}
    ensures |WordPattern(word)[r]| <= k < 6 * |word| ==>
      (if k % 6 < 5 then GlyphFor(UpperChar(word[k / 6]))[r][k % 6] else Blank) == Blank
  {
    var gs := GlyphsOf(Upper(word));
    var raw := RawRow(gs, r);
    var row := RStrip(raw);
    assert WordPattern(word)[r] == row;
    RawRowAt(gs, r, k);
    if k < 6 * |word| && k % 6 < 5 {
      var j := k / 6;
      assert gs[j] == GlyphFor(UpperChar(word[j])) by {
        assert Upper(word)[j] == UpperChar(word[j]);
        assert UpperChar(UpperChar(word[j])) == UpperChar(word[j]);
      }
    }
    if k < |row| {
      assert row[k] == raw[k];
      if k % 6 < 5 {
        var j := k / 6;
        assert j < |word|;
        assert gs[j] == GlyphFor(UpperChar(word[j])) by {
          assert Upper(word)[j] == UpperChar(word[j]);
          assert UpperChar(UpperChar(word[j])) == UpperChar(word[j]);
        }
        assert IsGlyphRow(gs[j][r]);
      }
    }
  }

  /** Upper-casing the word first changes nothing. */
  lemma WordPatternUpper(word: string)
    ensures WordPattern(Upper(word)) == WordPattern(word)
  {
    UpperIdempotent(word);
    assert GlyphsOf(Upper(Upper(word))) == GlyphsOf(Upper(word));
  }

  /** The word with every character that has no glyph (after upper-casing)
      replaced by a space. */
  function Sanitized(word: string): (s: string)
    ensures |s| == |word|
  {
    seq(|word|, i requires 0 <= i < |word| => if UpperChar(word[i]) in Letters then word[i] else ' ')
  }

  /** A character without a glyph renders exactly like a space. */
  lemma UnknownRendersAsSpace(word: string)
    ensures WordPattern(Sanitized(word)) == WordPattern(word)
  {
    var a, b := GlyphsOf(Upper(Sanitized(word))), GlyphsOf(Upper(word));
    forall j | 0 <= j < |word|
      ensures a[j] == b[j]
    {
      var c := UpperChar(word[j]);
      if c !in Letters {
        assert UpperChar(Sanitized(word)[j]) == ' ';
      }
    }
    assert a == b;
  }

  /** The empty word yields five empty rows. */
  lemma EmptyWordPattern()
    ensures WordPattern("") == ["", "", "", "", ""]
  {
  }

  // generate_dates

  /** Why `generate_dates` raises instead of returning: `datetime(start_year,
      1, 1)` rejects a year outside 1..9999, `pattern[0]` fails on an empty
      pattern, and adding days past 9999-12-31 overflows. */
  datatype DateError = YearOutOfRange | EmptyPattern | DateOverflow

  /** Only the Monday-to-Friday rows are drawn. */
  const WeekdayRows: nat := 5

  /** Row `day`, column `week` of the pattern holds a '█'. */
  predicate Filled(p: Pattern, week: nat, day: nat) {
    day < |p| && week < |p[day]| && p[day][week] == Full
  }

  /** Days from 1 January of `y` to the date of cell (`week`, `day`): the
      first Sunday plus `week` weeks plus `day + 1` days. */
  function CellOffset(y: int, week: nat, day: nat): int
    requires y >= 1
  {
    DaysUntilSunday(y) + 7 * week + day + 1
  }

  /** The column and row a day offset belongs to (inverse of `CellOffset`). */
  function CellWeek(y: int, off: int): int
    requires y >= 1
  {
    (off - DaysUntilSunday(y) - 1) / 7
  }

  function CellDay(y: int, off: int): int
    requires y >= 1
  {
    (off - DaysUntilSunday(y) - 1) % 7
  }

  lemma CellOffsetInverse(y: int, week: nat, day: nat)
    requires y >= 1 && day < 7
    ensures CellWeek(y, CellOffset(y, week, day)) == week
    ensures CellDay(y, CellOffset(y, week, day)) == day
  {
  }

  /** A filled cell whose date falls inside the year. */
  predicate Kept(p: Pattern, y: int, week: nat, day: nat)
    requires y >= 1
  {
    Filled(p, week, day) && CellOffset(y, week, day) < DaysInYear(y)
  }

  /** A filled cell whose date lies beyond 9999-12-31. */
  predicate Overflows(p: Pattern, y: int, week: nat, day: nat)
    requires y >= 1
  {
    Filled(p, week, day) && YearStart(y) + CellOffset(y, week, day) > MaxOrdinal
  }

  /** Cell (`w`, `d`) is visited before cell (`week`, `day`): weeks outer,
      days inner. */
  predicate Before(w: int, d: int, week: int, day: int) {
    w < week || (w == week && d < day)
  }

  /** The day offsets of the kept cells visited before (`week`, `day`), in
      visiting order. */
  function KeptOffsets(p: Pattern, y: int, week: nat, day: nat): (offs: seq<int>)
    requires y >= 1 && day <= WeekdayRows
    ensures forall i :: 0 <= i < |offs| ==> 0 < offs[i] < DaysInYear(y)
    decreases week, day
  {
    if day == 0 then
      (if week == 0 then [] else KeptOffsets(p, y, week - 1, WeekdayRows))
    else
      KeptOffsets(p, y, week, day - 1)
        + (if Kept(p, y, week, day - 1) then [CellOffset(y, week, day - 1)] else [])
  }

  /** The date `off` days after 1 January of `y`, as `strftime('%Y-%m-%d')`
      writes it. */
  function DayString(y: int, off: int): string
    requires MinYear <= y <= MaxYear && 0 <= off < DaysInYear(y)
  {
    IsoDate(DateInYear(y, off))
  }

  /** The date strings of the kept cells visited before (`week`, `day`), in
      visiting order. */
  function KeptDates(p: Pattern, y: int, week: nat, day: nat): seq<string>
    requires MinYear <= y <= MaxYear && day <= WeekdayRows
    decreases week, day
  {
    if day == 0 then
      (if week == 0 then [] else KeptDates(p, y, week - 1, WeekdayRows))
    else
      KeptDates(p, y, week, day - 1)
        + (if Kept(p, y, week, day - 1) then [DayString(y, CellOffset(y, week, day - 1))] else [])
  }

  /** No examined filled cell lands beyond 9999-12-31. */
  predicate NoOverflow(p: Pattern, y: int)
    requires y >= 1 && |p| > 0
  {
    forall week: nat, day: nat :: week < |p[0]| && day < WeekdayRows ==> !Overflows(p, y, week, day)
  }

  /** What `generate_dates(pattern, y)` returns, or the exception it raises. */
  function PlannedDates(p: Pattern, y: int): Result<seq<string>, DateError> {
    if !(MinYear <= y <= MaxYear) then Failure(YearOutOfRange)
    else if |p| == 0 then Failure(EmptyPattern)
    else if !NoOverflow(p, y) then Failure(DateOverflow)
    else Success(KeptDates(p, y, |p[0]|, 0))
  }

  /** `generate_dates`: anchors on the first Sunday of the year, walks the
      columns of row 0's width (weeks outer, the five weekday rows inner), and
      keeps the date of each filled cell that falls in the year. Dates are
      handled as day ordinals. */
  method GenerateDates(pattern: Pattern, startYear: int) returns (result: Result<seq<string>, DateError>)
    ensures result == PlannedDates(pattern, startYear)
  {
    if !(MinYear <= startYear <= MaxYear) {
      return Failure(YearOutOfRange);
    }
    var startDate := YearStart(startYear);
    var daysUntilSunday := (Sunday - Weekday(startDate)) % 7;
    var firstSunday := startDate + daysUntilSunday;
    if |pattern| == 0 {
      return Failure(EmptyPattern);
    }
    var dates: seq<string> := [];
    for week := 0 to |pattern[0]|
      invariant dates == KeptDates(pattern, startYear, week, 0)
      invariant forall w: nat, d: nat :: w < week && d < WeekdayRows ==> !Overflows(pattern, startYear, w, d)
    {
      for day := 0 to WeekdayRows
        invariant dates == KeptDates(pattern, startYear, week, day)
        invariant forall w: nat, d: nat :: Before(w, d, week, day) && d < WeekdayRows ==> !Overflows(pattern, startYear, w, d)
      {
        assert firstSunday - startDate == DaysUntilSunday(startYear);
        if day < |pattern| && week < |pattern[day]| {
          if pattern[day][week] == Full {
            var commitDate := firstSunday + 7 * week + day + 1;
            assert commitDate - startDate == CellOffset(startYear, week, day);
            if commitDate > MaxOrdinal {
              assert Overflows(pattern, startYear, week, day);
              return Failure(DateOverflow);
            }
            // `commit_date.year == start_year`, by SameYearIff
            if commitDate - startDate < DaysInYear(startYear) {
              dates := dates + [DayString(startYear, commitDate - startDate)];
            }
          }
        }
      }
    }
    return Success(dates);
  }

  // What generate_dates promises

  /** `KeptDates` is the date string of each offset of `KeptOffsets`. */
  lemma {:induction false} KeptDatesAreOffsets(p: Pattern, y: int, week: nat, day: nat)
    requires MinYear <= y <= MaxYear && day <= WeekdayRows
    ensures |KeptDates(p, y, week, day)| == |KeptOffsets(p, y, week, day)|
    ensures forall i :: 0 <= i < |KeptOffsets(p, y, week, day)| ==>
      KeptDates(p, y, week, day)[i] == DayString(y, KeptOffsets(p, y, week, day)[i])
    decreases week, day
  {
    if day == 0 {
      if week > 0 {
        KeptDatesAreOffsets(p, y, week - 1, WeekdayRows);
        DatesAcrossWeek(p, y, week - 1);
      }
    } else {
      KeptDatesAreOffsets(p, y, week, day - 1);
      DatesStep(p, y, week, day - 1);
    }
  }

  /** Each kept date is the day string of the matching kept offset. */
  predicate DatesMatchOffsets(p: Pattern, y: int, week: nat, day: nat)
    requires MinYear <= y <= MaxYear && day <= WeekdayRows
  {
    var ds, offs := KeptDates(p, y, week, day), KeptOffsets(p, y, week, day);
    |ds| == |offs| && forall i :: 0 <= i < |offs| ==> ds[i] == DayString(y, offs[i])
  }

  lemma DatesAcrossWeek(p: Pattern, y: int, week: nat)
    requires MinYear <= y <= MaxYear && DatesMatchOffsets(p, y, week, WeekdayRows)
    ensures DatesMatchOffsets(p, y, week + 1, 0)
  {
  }

  lemma DatesStep(p: Pattern, y: int, week: nat, day: nat)
    requires MinYear <= y <= MaxYear && day < WeekdayRows && DatesMatchOffsets(p, y, week, day)
    ensures DatesMatchOffsets(p, y, week, day + 1)
  {
    var ds, offs := KeptDates(p, y, week, day), KeptOffsets(p, y, week, day);
    if Kept(p, y, week, day) {
      var off := CellOffset(y, week, day);
      assert KeptDates(p, y, week, day + 1) == ds + [DayString(y, off)];
      assert KeptOffsets(p, y, week, day + 1) == offs + [off];
    } else {
      assert KeptDates(p, y, week, day + 1) == ds;
      assert KeptOffsets(p, y, week, day + 1) == offs;
    }
  }

  /** `off` is the offset of a kept cell visited before (`week`, `day`). */
  predicate OffsetOfKeptCell(p: Pattern, y: int, week: nat, day: nat, off: int)
    requires y >= 1
  {
    var w, d := CellWeek(y, off), CellDay(y, off);
    w >= 0 && d < WeekdayRows && Before(w, d, week, day)
      && Kept(p, y, w, d) && off == CellOffset(y, w, d)
  }

  /** Every offset the walk keeps belongs to a kept cell it has visited. */
  lemma {:induction false} KeptOffsetsSound(p: Pattern, y: int, week: nat, day: nat)
    requires y >= 1 && day <= WeekdayRows
    ensures forall i :: 0 <= i < |KeptOffsets(p, y, week, day)| ==>
      OffsetOfKeptCell(p, y, week, day, KeptOffsets(p, y, week, day)[i])
    decreases week, day
  {
    if day == 0 {
      if week > 0 {
        KeptOffsetsSound(p, y, week - 1, WeekdayRows);
      }
    } else {
      KeptOffsetsSound(p, y, week, day - 1);
      CellOffsetInverse(y, week, day - 1);
    }
  }

  /** Every kept cell the walk has visited contributes its offset. */
  lemma {:induction false} KeptOffsetsComplete(p: Pattern, y: int, week: nat, day: nat)
    requires y >= 1 && day <= WeekdayRows
    ensures forall w: nat, d: nat :: d < WeekdayRows && Before(w, d, week, day) && Kept(p, y, w, d) ==>
      CellOffset(y, w, d) in KeptOffsets(p, y, week, day)
    decreases week, day
  {
    if day == 0 {
      if week > 0 {
        KeptOffsetsComplete(p, y, week - 1, WeekdayRows);
      }
    } else {
      KeptOffsetsComplete(p, y, week, day - 1);
    }
  }

  /** The kept offsets strictly increase, and all lie before the offset of
      the next cell to visit. */
  lemma {:induction false} KeptOffsetsIncreasing(p: Pattern, y: int, week: nat, day: nat)
    requires y >= 1 && day <= WeekdayRows
    ensures forall i :: 0 <= i < |KeptOffsets(p, y, week, day)| ==>
      KeptOffsets(p, y, week, day)[i] < CellOffset(y, week, day)
    ensures forall i, j :: 0 <= i < j < |KeptOffsets(p, y, week, day)| ==>
      KeptOffsets(p, y, week, day)[i] < KeptOffsets(p, y, week, day)[j]
    decreases week, day
  {
    if day == 0 {
      if week > 0 {
        KeptOffsetsIncreasing(p, y, week - 1, WeekdayRows);
      }
    } else {
      KeptOffsetsIncreasing(p, y, week, day - 1);
    }
  }

  /** The date of cell (`week`, `day`) falls on weekday `day` (Monday is 0),
      so the five drawn rows are Monday to Friday. */
  lemma CellWeekday(y: int, week: nat, day: nat)
    requires y >= 1 && day < 7
    ensures Weekday(YearStart(y) + CellOffset(y, week, day)) == day
  {
    FirstSundayAnchor(y);
    var sunday := YearStart(y) + DaysUntilSunday(y);
    WeekdayShift(sunday, 7 * week + day + 1);
    assert (Sunday + 7 * week + day + 1) % 7 == day;
  }

  /** A day string reads back as the date `off` days after 1 January of `y`. */
  lemma DayStringParses(y: int, off: int)
    requires MinYear <= y <= MaxYear && 0 <= off < DaysInYear(y)
    ensures ParseIsoDate(DayString(y, off)).Some?
    ensures ParseIsoDate(DayString(y, off)).value.year == y
    ensures Ordinal(ParseIsoDate(DayString(y, off)).value) == YearStart(y) + off
  {
    IsoDateRoundTrip(DateInYear(y, off));
  }

  /** Distinct offsets give distinct day strings. */
  lemma DayStringInjective(y: int, a: int, b: int)
    requires MinYear <= y <= MaxYear && 0 <= a < DaysInYear(y) && 0 <= b < DaysInYear(y)
    requires DayString(y, a) == DayString(y, b)
    ensures a == b
  {
    IsoDateInjective(DateInYear(y, a), DateInYear(y, b));
  }

  /** The filled cells of a pattern, as (row, column) pairs. */
  function FilledCells(p: Pattern): set<(int, int)> {
    set r, c | 0 <= r < |p| && 0 <= c < |p[r]| && p[r][c] == Full :: (r, c)
  }

  /** The filled cells, as (row, column), visited before (`week`, `day`). */
  function VisitedFilled(p: Pattern, week: nat, day: nat): set<(int, int)>
    requires day <= WeekdayRows
    decreases week, day
  {
    if day == 0 then
      (if week == 0 then {} else VisitedFilled(p, week - 1, WeekdayRows))
    else
      VisitedFilled(p, week, day - 1) + (if Filled(p, week, day - 1) then {(day - 1 as int, week as int)} else {})
  }

  lemma SubsetCardinality<T>(a: set<T>, b: set<T>)
    requires a <= b
    ensures |a| <= |b|
  {
    assert b == a + (b - a);
  }

  /** The cells collected are filled cells the walk has visited. */
  lemma {:induction false} VisitedFilledCells(p: Pattern, week: nat, day: nat)
    requires day <= WeekdayRows
    ensures VisitedFilled(p, week, day) <= FilledCells(p)
    ensures forall c :: c in VisitedFilled(p, week, day) ==> Before(c.1, c.0, week, day)
    decreases week, day
  {
    if day == 0 {
      if week > 0 {
        VisitedFilledCells(p, week - 1, WeekdayRows);
      }
    } else {
      VisitedFilledCells(p, week, day - 1);
      if Filled(p, week, day - 1) {
        assert (day - 1 as int, week as int) in FilledCells(p);
      }
    }
  }

  /** The walk keeps at most one offset per filled cell it visits. */
  lemma {:induction false} KeptOffsetsCount(p: Pattern, y: int, week: nat, day: nat)
    requires y >= 1 && day <= WeekdayRows
    ensures CountBounded(p, y, week, day)
    decreases week, day
  {
    if day == 0 {
      if week == 0 {
        CountStart(p, y);
      } else {
        KeptOffsetsCount(p, y, week - 1, WeekdayRows);
        CountAcrossWeek(p, y, week - 1);
      }
    } else {
      KeptOffsetsCount(p, y, week, day - 1);
      CountStep(p, y, week, day - 1);
    }
  }

  /** No more offsets kept than filled cells visited before (`week`, `day`). */
  predicate CountBounded(p: Pattern, y: int, week: nat, day: nat)
    requires y >= 1 && day <= WeekdayRows
  {
    |KeptOffsets(p, y, week, day)| <= |VisitedFilled(p, week, day)|
  }

  /** Before the walk starts both counts are zero. */
  lemma CountStart(p: Pattern, y: int)
    requires y >= 1
    ensures CountBounded(p, y, 0, 0)
  {
  }

  /** Both counts carry over unchanged from one column to the next. */
  lemma CountAcrossWeek(p: Pattern, y: int, week: nat)
    requires y >= 1
    requires CountBounded(p, y, week, WeekdayRows)
    ensures CountBounded(p, y, week + 1, 0)
  {
  }

  /** One cell adds at least as much to the filled cells as to the offsets. */
  lemma CountStep(p: Pattern, y: int, week: nat, day: nat)
    requires y >= 1 && day < WeekdayRows
    requires CountBounded(p, y, week, day)
    ensures CountBounded(p, y, week, day + 1)
  {
    VisitedFilledGrows(p, week, day);
    KeptOffsetsGrows(p, y, week, day);
  }

  /** Visiting a cell keeps at most one more offset, and only for a filled
      cell. */
  lemma KeptOffsetsGrows(p: Pattern, y: int, week: nat, day: nat)
    requires y >= 1 && day < WeekdayRows
    ensures |KeptOffsets(p, y, week, day + 1)| <= |KeptOffsets(p, y, week, day)| + (if Filled(p, week, day) then 1 else 0)
  {
  }

  /** Visiting a cell adds one to the count of visited filled cells exactly
      when the cell is filled. */
  lemma VisitedFilledGrows(p: Pattern, week: nat, day: nat)
    requires day < WeekdayRows
    ensures |VisitedFilled(p, week, day + 1)| == |VisitedFilled(p, week, day)| + (if Filled(p, week, day) then 1 else 0)
  {
    var prev := VisitedFilled(p, week, day);
    if Filled(p, week, day) {
      VisitedFilledCells(p, week, day);
      assert (day as int, week as int) !in prev;
    }
  }

  /** In any year but 9999, only a cell at least a year past the end of
      `y` can overflow, so a pattern of at most 100 columns never does. */
  lemma NarrowPatternNeverOverflows(p: Pattern, y: int)
    requires MinYear <= y < MaxYear && |p| > 0 && |p[0]| <= 100
    ensures NoOverflow(p, y)
  {
    YearStartStep(y);
    YearStartMonotone(y + 1, MaxYear + 1);
  }

  /** In year 9999 a filled cell past 31 December is not dropped: it
      overflows, and `generate_dates` raises. */
  lemma LastYearOverflow(p: Pattern, week: nat, day: nat)
    ensures Overflows(p, MaxYear, week, day) <==> Filled(p, week, day) && !Kept(p, MaxYear, week, day)
  {
    YearStartStep(MaxYear);
  }

  /** The date of a kept cell: it reads back as a date of year `y`, `7 *
      week + day + 1` days after the first Sunday, on weekday `day`. */
  lemma CellDate(y: int, week: nat, day: nat)
    requires MinYear <= y <= MaxYear && day < WeekdayRows && CellOffset(y, week, day) < DaysInYear(y)
    ensures ParseIsoDate(DayString(y, CellOffset(y, week, day))).Some?
    ensures ParseIsoDate(DayString(y, CellOffset(y, week, day))).value.year == y
    ensures Ordinal(ParseIsoDate(DayString(y, CellOffset(y, week, day))).value)
      == YearStart(y) + DaysUntilSunday(y) + 7 * week + day + 1
    ensures Weekday(Ordinal(ParseIsoDate(DayString(y, CellOffset(y, week, day))).value)) == day
  {
    var off := CellOffset(y, week, day);
    DayStringParses(y, off);
    CellWeekday(y, week, day);
    var o := Ordinal(ParseIsoDate(DayString(y, off)).value);
    assert o == YearStart(y) + off;
    assert Weekday(o) == day;
  }

  /** `s` is the date string of a kept cell in the columns the walk examines. */
  predicate IsCellDate(p: Pattern, y: int, s: string)
    requires MinYear <= y <= MaxYear && |p| > 0
  {
    exists week: nat, day: nat :: week < |p[0]| && day < WeekdayRows && Kept(p, y, week, day)
      && s == DayString(y, CellOffset(y, week, day))
  }

  /** Every date `generate_dates` returns is the date of a filled cell within
      row 0's width, a Monday to Friday of `start_year`. */
  lemma PlannedDatesSound(p: Pattern, y: int)
    requires PlannedDates(p, y).Success?
    ensures var ds := PlannedDates(p, y).value;
      forall i :: 0 <= i < |ds| ==> IsCellDate(p, y, ds[i])
    ensures var ds := PlannedDates(p, y).value;
      forall i :: 0 <= i < |ds| ==>
        ParseIsoDate(ds[i]).Some? && ParseIsoDate(ds[i]).value.year == y
        && Weekday(Ordinal(ParseIsoDate(ds[i]).value)) < WeekdayRows
  {
    var width := |p[0]|;
    var ds, offs := PlannedDates(p, y).value, KeptOffsets(p, y, width, 0);
    KeptDatesAreOffsets(p, y, width, 0);
    KeptOffsetsSound(p, y, width, 0);
    forall i | 0 <= i < |ds|
      ensures IsCellDate(p, y, ds[i])
      ensures ParseIsoDate(ds[i]).Some? && ParseIsoDate(ds[i]).value.year == y
        && Weekday(Ordinal(ParseIsoDate(ds[i]).value)) < WeekdayRows
    {
      var w, d := CellWeek(y, offs[i]), CellDay(y, offs[i]);
      assert OffsetOfKeptCell(p, y, width, 0, offs[i]);
      CellDate(y, w, d);
    }
  }

  /** Every filled cell within row 0's width whose date falls in `start_year`
      yields its date. */
  lemma PlannedDatesComplete(p: Pattern, y: int)
    requires PlannedDates(p, y).Success?
    ensures var ds := PlannedDates(p, y).value;
      forall week: nat, day: nat :: week < |p[0]| && day < WeekdayRows && Kept(p, y, week, day) ==>
        DayString(y, CellOffset(y, week, day)) in ds
  {
    var width := |p[0]|;
    var ds, offs := PlannedDates(p, y).value, KeptOffsets(p, y, width, 0);
    KeptDatesAreOffsets(p, y, width, 0);
    KeptOffsetsComplete(p, y, width, 0);
    forall week: nat, day: nat | week < width && day < WeekdayRows && Kept(p, y, week, day)
      ensures DayString(y, CellOffset(y, week, day)) in ds
    {
      var i :| 0 <= i < |offs| && offs[i] == CellOffset(y, week, day);
      assert ds[i] == DayString(y, CellOffset(y, week, day));
    }
  }

  /** No cell at or beyond row 0's width yields a date, whatever the longer
      rows hold. */
  lemma PlannedDatesIgnoreWiderRows(p: Pattern, y: int)
    requires PlannedDates(p, y).Success?
    ensures var ds := PlannedDates(p, y).value;
      forall week: nat, day: nat :: |p[0]| <= week && day < WeekdayRows && CellOffset(y, week, day) < DaysInYear(y) ==>
        DayString(y, CellOffset(y, week, day)) !in ds
  {
    var width := |p[0]|;
    var ds, offs := PlannedDates(p, y).value, KeptOffsets(p, y, width, 0);
    KeptDatesAreOffsets(p, y, width, 0);
    KeptOffsetsSound(p, y, width, 0);
    forall week: nat, day: nat | width <= week && day < WeekdayRows && CellOffset(y, week, day) < DaysInYear(y)
      ensures DayString(y, CellOffset(y, week, day)) !in ds
    {
      if DayString(y, CellOffset(y, week, day)) in ds {
        var i :| 0 <= i < |ds| && ds[i] == DayString(y, CellOffset(y, week, day));
        DayStringInjective(y, offs[i], CellOffset(y, week, day));
        CellOffsetInverse(y, week, day);
        assert false;
      }
    }
  }

  /** The dates come out strictly increasing, so none repeats. */
  lemma PlannedDatesOrdered(p: Pattern, y: int)
    requires PlannedDates(p, y).Success?
    ensures var ds := PlannedDates(p, y).value;
      forall i, j :: 0 <= i < j < |ds| ==>
        ParseIsoDate(ds[i]).Some? && ParseIsoDate(ds[j]).Some?
        && Ordinal(ParseIsoDate(ds[i]).value) < Ordinal(ParseIsoDate(ds[j]).value)
    ensures var ds := PlannedDates(p, y).value;
      forall i, j :: 0 <= i < j < |ds| ==> ds[i] != ds[j]
  {
    var width := |p[0]|;
    var ds, offs := PlannedDates(p, y).value, KeptOffsets(p, y, width, 0);
    KeptDatesAreOffsets(p, y, width, 0);
    KeptOffsetsIncreasing(p, y, width, 0);
    forall i | 0 <= i < |ds|
      ensures ParseIsoDate(ds[i]).Some? && Ordinal(ParseIsoDate(ds[i]).value) == YearStart(y) + offs[i]
    {
      DayStringParses(y, offs[i]);
    }
    forall i, j | 0 <= i < j < |ds|
      ensures ds[i] != ds[j]
    {
      assert offs[i] < offs[j];
    }
  }

  /** There are no more dates than filled cells in the pattern. */
  lemma PlannedDatesCount(p: Pattern, y: int)
    requires PlannedDates(p, y).Success?
    ensures |PlannedDates(p, y).value| <= |FilledCells(p)|
  {
    var width := |p[0]|;
    KeptDatesAreOffsets(p, y, width, 0);
    KeptOffsetsCount(p, y, width, 0);
    VisitedFilledCells(p, width, 0);
    SubsetCardinality(VisitedFilled(p, width, 0), FilledCells(p));
  }

  /** In "A.I." the second period is the '█' at column 20 of row 4, but row 0
      is only 17 cells wide, so the walk never reaches it and its date,
      Friday 2023-05-26, is not planned. */
  lemma SecondPeriodDropped()
    ensures |WordPattern("A.I.")[0]| == 17
    ensures |WordPattern("A.I.")[4]| > 20 && WordPattern("A.I.")[4][20] == Full
    ensures PlannedDates(WordPattern("A.I."), 2023).Success?
    ensures CellOffset(2023, 20, 4) < DaysInYear(2023)
    ensures DayString(2023, CellOffset(2023, 20, 4)) == "2023-05-26"
    ensures "2023-05-26" !in PlannedDates(WordPattern("A.I."), 2023).value
  {
    var p := WordPattern("A.I.");
    AIRowTop();
    AIRowBottom();
    NarrowPatternNeverOverflows(p, 2023);
    SecondPeriodDate();
    PlannedDatesIgnoreWiderRows(p, 2023);
  }

  /** Cell (20, 4) of 2023 is Friday 26 May: 1 January 2023 was a Sunday. */
  lemma SecondPeriodDate()
    ensures CellOffset(2023, 20, 4) == 145 < DaysInYear(2023)
    ensures DayString(2023, 145) == "2023-05-26"
  {
    assert DaysUntilSunday(2023) == 0;
    assert DateInYear(2023, 145) == Date(2023, 5, 26);
    SecondPeriodIsoDate();
  }

  lemma SecondPeriodIsoDate()
    ensures IsoDate(Date(2023, 5, 26)) == "2023-05-26"
  {
    SecondPeriodDigits();
    var s := IsoDate(Date(2023, 5, 26));
    assert s == "2023" + "-" + "05" + "-" + "26";
  }

  lemma SecondPeriodDigits()
    ensures Digits(2023, 4) == "2023" && Digits(5, 2) == "05" && Digits(26, 2) == "26"
  {
    assert Digits(202, 3) == "202" by {
      assert Digits(2, 1) == "2" && Digits(20, 2) == "20";
    }
  }

  /** The glyphs of "A.I.". */
  lemma AIGlyphs()
    ensures GlyphsOf(Upper("A.I.")) == [GlyphOfKey('A'), GlyphOfKey('.'), GlyphOfKey('I'), GlyphOfKey('.')]
  {
    assert Upper("A.I.") == "A.I.";
  }

  /** A row whose cell `n - 1` is not a space and whose later cells all are
      is stripped to exactly `n` cells. */
  lemma StrippedLength(raw: string, n: nat)
    requires 0 < n <= |raw| && raw[n - 1] != ' '
    requires forall k :: n <= k < |raw| ==> raw[k] == ' '
    ensures |RStrip(raw)| == n
  {
  }

  /** Row 0 of "A.I." is 17 cells wide: it ends with the top bar of the 'I'. */
  lemma AIRowTop()
    ensures |WordPattern("A.I.")[0]| == 17
  {
    var gs := GlyphsOf(Upper("A.I."));
    AIGlyphs();
    forall j | 0 <= j < |gs|
      ensures WellFormedGlyph(gs[j])
    {
      GlyphWellFormed('A');
      GlyphWellFormed('.');
      GlyphWellFormed('I');
    }
    var raw := RawRow(gs, 0);
    RawRowAt(gs, 0, 16);
    assert raw[16] == GlyphOfKey('I')[0][4] == Full;
    forall k | 17 <= k < |raw|
      ensures raw[k] == ' '
    {
      RawRowAt(gs, 0, k);
      assert k / 6 == 2 || k / 6 == 3;
    }
    StrippedLength(raw, 17);
  }

  /** Row 4 of "A.I." has a '█' at column 20: the second period. */
  lemma AIRowBottom()
    ensures |WordPattern("A.I.")[4]| > 20 && WordPattern("A.I.")[4][20] == Full
  {
    var gs := GlyphsOf(Upper("A.I."));
    AIGlyphs();
    forall j | 0 <= j < |gs|
      ensures WellFormedGlyph(gs[j])
    {
      GlyphWellFormed('A');
      GlyphWellFormed('.');
      GlyphWellFormed('I');
    }
    var raw := RawRow(gs, 4);
    RawRowAt(gs, 4, 20);
    assert raw[20] == GlyphOfKey('.')[4][2] == Full;
    assert |RStrip(raw)| > 20;
  }

  // create_art_plan

  /** The plan covers the years 2019 to 2025. */
  const FirstPlanYear: int := 2019
  const LastPlanYear: int := 2025

  /** The word drawn in each year of the plan. */
  function PlanWord(year: int): (w: string)
    ensures IsAscii(w) && |w| <= 7
  {
    if year <= 2021 then "PANGEAM"
    else if year == 2022 then "CRYPTO"
    else if year == 2023 then "A.I."
    else if year == 2024 then "AGENTIC"
    else "LEVEL 5"
  }

  /** One entry of the plan: the dates that draw the year's word across
      that year. Each word is at most 7 characters, so at most 42 cells wide,
      and the walk never overflows. */
  method PlanEntry(year: int) returns (dates: seq<string>)
    requires FirstPlanYear <= year <= LastPlanYear
    ensures PlannedDates(WordPattern(PlanWord(year)), year) == Success(dates)
  {
    var word := PlanWord(year);
    var pattern := GetWordPattern(word);
    WordPatternRow(word, 0, 0);
    NarrowPatternNeverOverflows(pattern, year);
    var result := GenerateDates(pattern, year);
    dates := result.value;
  }

  /** What the plan holds for `year`: the dates that draw that year's word. */
  ghost function PlanSpec(year: int): Result<seq<string>, DateError> {
    PlannedDates(WordPattern(PlanWord(year)), year)
  }

  /** `plan` maps exactly the years from 2019 up to (not including) `upTo`,
      each to what `entry` says for it. */
  ghost predicate PlannedUpTo(plan: map<int, seq<string>>, upTo: int, entry: int -> Result<seq<string>, DateError>) {
    (forall year :: year in plan <==> FirstPlanYear <= year < upTo)
    && forall year :: year in plan ==> entry(year) == Success(plan[year])
  }

  /** Adding the next year's entry extends the plan by one year. */
  lemma PlannedUpToStep(plan: map<int, seq<string>>, year: int, dates: seq<string>, entry: int -> Result<seq<string>, DateError>)
    requires FirstPlanYear <= year && PlannedUpTo(plan, year, entry)
    requires entry(year) == Success(dates)
    ensures PlannedUpTo(plan[year := dates], year + 1, entry)
  {
    var next := plan[year := dates];
    forall y | y in next
      ensures entry(y) == Success(next[y])
    {
      if y != year {
        assert next[y] == plan[y];
      }
    }
  }

  /** `create_art_plan`: the seven years 2019 to 2025, each mapped to the
      dates that draw that year's word. */
  method CreateArtPlan() returns (plan: map<int, seq<string>>)
    ensures forall year :: year in plan <==> FirstPlanYear <= year <= LastPlanYear
    ensures forall year :: year in plan ==> PlannedDates(WordPattern(PlanWord(year)), year) == Success(plan[year])
  {
    plan := map[];
    for year := FirstPlanYear to LastPlanYear + 1
      invariant PlannedUpTo(plan, year, PlanSpec)
    {
      var dates := PlanEntry(year);
      PlannedUpToStep(plan, year, dates, PlanSpec);
      plan := plan[year := dates];
    }
    assert forall year :: year in plan ==> PlanSpec(year) == Success(plan[year]);
  }
}
