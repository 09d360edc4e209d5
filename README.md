# GitHub profile scripts: contribution art, live terminal, knowledge base, project classifier

This project models four Python scripts that maintain a GitHub profile, and proves properties of the model.

- **Contribution art** (`scripts/contribution_art.py`). A table of 5×5 glyph bitmaps. `get_word_pattern` lays a word's glyphs side by side into five text rows. `generate_dates` maps each filled cell of such a pattern to a date in a year's contribution graph. `create_art_plan` assigns a word to each year from 2019 to 2025. The date side rests on a small proleptic-Gregorian calendar (module `Calendar`). It follows Python's `datetime` conventions: day ordinals with 0001-01-01 as day 1, Monday as weekday 0, and `YYYY-MM-DD` output as in section 4.1.2.2 of ISO 8601:2004.
- **Live terminal** (`scripts/generate_terminal.py`). `format_event` turns a GitHub event into a shell-like command and a colour name. `get_color` resolves colour names. The activity loop keeps at most eight lines with distinct commands. The SVG height follows from the line count.
- **Knowledge base** (`scripts/extract_knowledge.py`). A language histogram sorted by count, the sorted set of topics, the ten most-starred repositories with summaries of the first five, totals, and the recent-activity list. It also covers the project filter and topic cap of the system prompt.
- **Project classifier** (`scripts/ai_update.py`). A priority-ordered keyword substring match over the repository names of the last ten events, plus the activity summary built from the first five events.

Modules:
- `Text`: string helpers standing in for Python's `str` methods.
- `Calendar`: the calendar described above.
- `Sorting`: Python's stable `sorted(..., reverse=True)` by a key, `sorted` of a set of strings, and `sum`.
- `GitHubRecords`: the JSON records as datatypes.
- One module per script: `ContributionArt`, `Terminal`, `Knowledge` and `AiUpdate`.

How the model is built:
- Loops that update lists, dicts, sets and counters are methods. Each is proved equal to a specification function, and the properties are proved about that function.
- A JSON field that may be absent is an `Option`.
- The results of HTTP requests are parameters.
- The exceptions `generate_dates` can raise are `Failure` values:
  - `datetime(start_year, 1, 1)` for a year outside 1..9999;
  - `pattern[0]` on an empty pattern;
  - `timedelta` arithmetic past 9999-12-31.

Two consequences of the code are worth stating:
- Rows are `rstrip`-ped (`scripts/contribution_art.py:151`), so rows of one pattern differ in length and never end in a blank.
- `generate_dates` walks the columns of row 0 only (`scripts/contribution_art.py:165`). In "A.I." this drops the second period (`ContributionArt.SecondPeriodDropped`).

## Model

| member | source | states |
|---|---|---|
| ContributionArt.GlyphTableWellFormed | scripts/contribution_art.py:12-132 | every glyph in the table has five rows of exactly five cells, each '█' or ' ' |
| ContributionArt.GlyphFor | scripts/contribution_art.py:139-143 | the glyph looked up for a character is well formed, and a character missing from the table gets the space glyph |
| ContributionArt.CollectGlyphs | scripts/contribution_art.py:137-143 | the first loop yields one glyph per character, in order: the table's glyph or the space glyph |
| ContributionArt.CombineRows | scripts/contribution_art.py:145-151 | the second loop yields five rows; row r is every glyph's row r followed by one space, with trailing spaces stripped |
| ContributionArt.GetWordPattern | scripts/contribution_art.py:134-153 | `get_word_pattern` returns exactly the pattern `WordPattern(word)` |
| ContributionArt.WordPatternRow | scripts/contribution_art.py:146-153 | five rows; each row is at most six cells per character, does not end in a space, and reads cell k%6 of the glyph of character k/6 (a blank at every sixth position); every cell is '█' or ' '; every cell of that layout past the row's end is blank, so the row is the layout without its trailing blanks |
| ContributionArt.WordPatternUpper | scripts/contribution_art.py:136 | `get_word_pattern(w) == get_word_pattern(w.upper())` |
| ContributionArt.UnknownRendersAsSpace | scripts/contribution_art.py:140-143 | replacing each character with no glyph by ' ' leaves the pattern unchanged |
| ContributionArt.EmptyWordPattern | scripts/contribution_art.py:146-153 | the empty word yields five empty rows |
| ContributionArt.RawRowAt | scripts/contribution_art.py:148-150 | before stripping, a row is six cells per glyph: the glyph's five cells, then a space |
| ContributionArt.GenerateDates | scripts/contribution_art.py:155-173 | the loop returns `PlannedDates`: the failure for a year outside 1..9999, an empty pattern or a date past 9999-12-31, else the dates of the kept cells in visiting order |
| ContributionArt.KeptOffsets | scripts/contribution_art.py:165-171 | each kept cell lies strictly inside the year: its offset from 1 January is positive and below the year's length |
| ContributionArt.KeptOffsetsSound | scripts/contribution_art.py:165-171 | every kept offset belongs to a visited filled cell inside the year, and that cell's offset is `days_until_sunday + 7*week + day + 1` |
| ContributionArt.KeptOffsetsComplete | scripts/contribution_art.py:165-171 | every visited filled cell inside the year contributes its offset |
| ContributionArt.KeptOffsetsIncreasing | scripts/contribution_art.py:165-171 | the kept offsets strictly increase, week outer and day inner |
| ContributionArt.KeptOffsetsCount | scripts/contribution_art.py:165-171 | no more offsets are kept than filled cells are visited |
| ContributionArt.KeptDatesAreOffsets | scripts/contribution_art.py:169-171 | the date strings are the `%Y-%m-%d` strings of the kept offsets, one for one |
| ContributionArt.CellOffsetInverse | scripts/contribution_art.py:169 | a cell's day offset determines its column and its row |
| ContributionArt.CellWeekday | scripts/contribution_art.py:161-169 | the date of cell (week, day) falls on weekday `day`, Monday being 0 |
| ContributionArt.CellDate | scripts/contribution_art.py:161-171 | a kept cell's date string reads back as a date of `start_year`, `7*week + day + 1` days after the first Sunday, on weekday `day` |
| ContributionArt.DayStringParses | scripts/contribution_art.py:171 | a day string reads back as the date it was made from |
| ContributionArt.DayStringInjective | scripts/contribution_art.py:171 | distinct days of a year give distinct date strings |
| ContributionArt.PlannedDatesSound | scripts/contribution_art.py:165-171 | every returned date is the date of a filled cell within row 0's width, lies in `start_year`, and is a Monday to Friday |
| ContributionArt.PlannedDatesComplete | scripts/contribution_art.py:165-171 | every filled cell within row 0's width whose date is in `start_year` yields its date |
| ContributionArt.PlannedDatesIgnoreWiderRows | scripts/contribution_art.py:165-168 | no cell at or right of row 0's length yields a date, even when a longer row fills it |
| ContributionArt.PlannedDatesOrdered | scripts/contribution_art.py:165-173 | the returned dates strictly increase, so none repeats |
| ContributionArt.PlannedDatesCount | scripts/contribution_art.py:165-173 | there are at most as many dates as '█' cells in the pattern |
| ContributionArt.NarrowPatternNeverOverflows | scripts/contribution_art.py:169 | in years 1..9998 a pattern at most 100 columns wide never steps past 9999-12-31 |
| ContributionArt.LastYearOverflow | scripts/contribution_art.py:169-170 | in year 9999 exactly the filled cells falling after the year overflow, so `generate_dates` raises instead of dropping them |
| ContributionArt.SecondPeriodDropped | scripts/contribution_art.py:165-168 | in "A.I." row 0 is 17 cells wide, row 4 has a '█' at column 20, and that cell's date 2023-05-26 is not planned |
| ContributionArt.AIRowTop | scripts/contribution_art.py:146-151 | row 0 of "A.I." is 17 cells long once stripped |
| ContributionArt.AIRowBottom | scripts/contribution_art.py:146-151 | row 4 of "A.I." holds a '█' at column 20 |
| ContributionArt.PlanEntry | scripts/contribution_art.py:178-184 | each year of the plan gets the successful `generate_dates(get_word_pattern(word), year)` for its word, with no exception |
| ContributionArt.CreateArtPlan | scripts/contribution_art.py:175-187 | the plan's keys are exactly 2019..2025, and each value is `generate_dates(get_word_pattern(word), year)` for that year's word |
| ContributionArt.PlanWord | scripts/contribution_art.py:178-184 | each year's word is ASCII and at most 7 characters |
| Calendar.DaysBeforeMonthAgrees | scripts/contribution_art.py:169-171 | month lengths add up to the days before each month and to the year's length |
| Calendar.YearStartStep | scripts/contribution_art.py:161 | 1 January of the next year comes one year's length after 1 January of this year |
| Calendar.YearStartMonotone | scripts/contribution_art.py:161 | 1 January of a later year is at least 365 days per year later |
| Calendar.OrdinalWithinYear | scripts/contribution_art.py:169-170 | a valid date's ordinal lies within its year |
| Calendar.SameYearIff | scripts/contribution_art.py:170 | `commit_date.year == start_year` exactly when the offset from 1 January is below the year's length |
| Calendar.DateInYear | scripts/contribution_art.py:169 | the date `off` days into a year is valid, is in that year, and has that ordinal |
| Calendar.FirstSundayAnchor | scripts/contribution_art.py:161-163 | `first_sunday` is 0 to 6 days after 1 January, is a Sunday, and no earlier day of the year is one |
| Calendar.WeekdayShift | scripts/contribution_art.py:162-169 | moving k days forward moves the weekday forward by k modulo 7 |
| Calendar.Weekday | scripts/contribution_art.py:162 | a weekday number is between 0 and 6 |
| Calendar.DigitsRoundTrip | scripts/contribution_art.py:171 | a zero-padded field reads back as the number written |
| Calendar.IsoDate | scripts/contribution_art.py:171 | `%Y-%m-%d` is ten characters with '-' at positions 4 and 7 |
| Calendar.IsoDateRoundTrip | scripts/contribution_art.py:171 | parsing a `%Y-%m-%d` string gives back the date |
| Calendar.IsoDateInjective | scripts/contribution_art.py:171 | distinct dates give distinct strings |
| Terminal.KindOfNames | scripts/generate_terminal.py:86-98 | each of the seven type names gets its own kind; every other type, the empty one included, is "other" |
| Terminal.KindColor | scripts/generate_terminal.py:86-96 | `type_colors.get(event_type, "text")` is one of five colour names, and "text" exactly for a type outside the table |
| Terminal.ShownRepo | scripts/generate_terminal.py:83 | the repository shown is the suffix of `repo.name` after its last '/': it holds no '/', and it is all of the name or is preceded by a '/'; "unknown" when the field is absent |
| Terminal.CommitSubject | scripts/generate_terminal.py:101 | a commit subject is the first line of the message (`split("\n")[0]`) cut to `min(50, len)` characters: a prefix of that line of exactly that length, with no line break |
| Terminal.ShortTitle | scripts/generate_terminal.py:115 | a title is the title ("" when absent) cut to `min(40, len)` characters: a prefix of it of exactly that length |
| Terminal.FormatEvent | scripts/generate_terminal.py:80-130 | every event gives a non-empty command, and its colour is never "text" |
| Terminal.PushEventShown | scripts/generate_terminal.py:98-103 | a push with commits gives `git commit -m "<m>"`, m being the first commit's subject (`CommitSubject`); without commits it gives `git push origin <repo>`; the colour is "success" |
| Terminal.CreateEventShown | scripts/generate_terminal.py:105-110 | a create event whose ref type is absent or "repository" gives `git init <repo>`, else `git checkout -b <ref>`; the colour is "accent" |
| Terminal.PullRequestEventShown | scripts/generate_terminal.py:112-116 | a pull request gives `gh pr <action>: "<t>"`, the action defaulting to "opened" and t the title cut to 40 characters (`ShortTitle`); the colour is "warning" |
| Terminal.IssuesEventShown | scripts/generate_terminal.py:118-122 | an issue gives `gh issue <action>: "<t>"`, the action defaulting to "opened" and t the title cut to 40 characters (`ShortTitle`); the colour is "error" |
| Terminal.WatchForkEventShown | scripts/generate_terminal.py:124-128 | a star gives `gh repo star <repo>` in "accent", a fork gives `gh repo fork <repo>` in "success" |
| Terminal.OtherEventShown | scripts/generate_terminal.py:86-96 | DeleteEvent and every unhandled type give `# Activity in <repo>` in "comment", although `type_colors` lists DeleteEvent as "error" |
| Terminal.CommandLead | scripts/generate_terminal.py:98-130 | every command begins with the lead of its kind's family |
| Terminal.CommandFamily | scripts/generate_terminal.py:98-130 | a command starts with "git " iff the event is a push or create, with "gh " iff it is a pull request, issue, star or fork, and with "# " iff it is anything else |
| Terminal.GetColor | scripts/generate_terminal.py:133-144 | the colour is one of the seven configured values, and any unknown name gets the text colour |
| Terminal.GetColorDistinct | scripts/generate_terminal.py:135-143 | the seven known names map to seven different colours |
| Terminal.EventColorNotText | scripts/generate_terminal.py:80-144 | no formatted event is drawn in the text colour |
| Terminal.Formatted | scripts/generate_terminal.py:181 | one command per event |
| Terminal.SelectActivity | scripts/generate_terminal.py:176-186 | the loop produces `ActivityLines(events)`: the first eight distinct commands, in event order, each with its prefix |
| Terminal.DedupSound | scripts/generate_terminal.py:181-183 | every kept command comes from an event |
| Terminal.DedupDistinctCovers | scripts/generate_terminal.py:182-183 | the kept commands are pairwise distinct, and every command of the events is among them |
| Terminal.FirstIndicesSpec | scripts/generate_terminal.py:178-183 | the positions `FirstIndices` lists increase, each is the first occurrence of its command, and every first occurrence is listed |
| Terminal.DedupAtFirstIndices | scripts/generate_terminal.py:181-183 | the commands kept are the entries at those first-occurrence positions, in that order |
| Terminal.ActivityLinesFirst | scripts/generate_terminal.py:176-186 | there are `min(8, #distinct commands)` lines; line k shows the event at the k-th first occurrence of a command, with its colour and prefix; the positions increase and no first occurrence before a shown one is skipped, so the lines are the first eight distinct commands in event order |
| Terminal.ActivityLinesSound | scripts/generate_terminal.py:176-186 | at most 8 lines; line k is some event's colour and text `Prefix(k) + " " + cmd`, "│ ●" for the first seven lines and "└ ○" for the eighth |
| Terminal.ActivityLinesDistinct | scripts/generate_terminal.py:182-185 | no two activity lines have the same text |
| Terminal.ActivityLinesComplete | scripts/generate_terminal.py:178-186 | when fewer than 8 lines are shown, every event's command is shown |
| Terminal.TotalHeight | scripts/generate_terminal.py:197-199 | the height is the larger of 480 and `lines*22 + 80` |
| Terminal.ProjectLines | scripts/generate_terminal.py:160-171 | the current-project block has no line without repositories, two with one, and three exactly when the first repository's description is non-empty |
| Terminal.LineCount | scripts/generate_terminal.py:152-197 | `len(lines)` is 11 plus the activity lines plus 0 to 3 project lines, and exactly 11 plus the activity lines when there are no repositories |
| Terminal.TotalHeightFixed | scripts/generate_terminal.py:197-199 | the height stays 480 exactly when there are at most 18 lines |
| Terminal.TerminalHeightBounds | scripts/generate_terminal.py:152-199 | the terminal has 11 to 22 lines, so its height is between 480 and 564 |
| Knowledge.AnalyzeLanguages | scripts/extract_knowledge.py:75-82 | the loop returns `Languages(repos)`: the first-seen-ordered counts of truthy languages, stably sorted by count, descending |
| Knowledge.AnalyzeLanguagesSpec | scripts/extract_knowledge.py:77-82 | one entry per language, sorted by count descending, a permutation of the counts in first-seen order, ties in first-seen order, exactly the languages present, counts summing to the repos with a language |
| Knowledge.LanguageOrderSpec | scripts/extract_knowledge.py:78-81 | the dict's keys are distinct and are exactly the languages that occur |
| Knowledge.CountsSum | scripts/extract_knowledge.py:78-81 | the counts sum to the number of repos with a truthy language |
| Knowledge.ExtractTopics | scripts/extract_knowledge.py:85-91 | the loops return the sorted set of all topics |
| Knowledge.ExtractTopicsSpec | scripts/extract_knowledge.py:86-91 | topics strictly ascend, and a topic is listed iff some repo has it |
| Knowledge.AllTopicsIff | scripts/extract_knowledge.py:87-90 | the set holds exactly the topics of the repos |
| Knowledge.FetchReadme | scripts/extract_knowledge.py:68-72 | a fetched README is its text cut to `min(5000, len)` characters: a prefix of exactly that length; "" when not fetched |
| Knowledge.Excerpt | scripts/extract_knowledge.py:118 | an excerpt is the README cut to `min(1000, len)` characters: a prefix of exactly that length, "" for an empty README |
| Knowledge.TopReposSpec | scripts/extract_knowledge.py:106 | `top_repos` has `min(10, len(repos))` entries, sorted by stars descending, drawn from the repos, with no omitted repo having more stars than one kept |
| Knowledge.ProfileOf | scripts/extract_knowledge.py:123-134 | each profile field is the user record's value, or its default when absent: the user name for `name`, "" for text, 0 for counts |
| Knowledge.GenerateKnowledgeBase | scripts/extract_knowledge.py:94-153 | the knowledge base holds the profile block, `analyze_languages`, its first five keys, `extract_topics`, `len(repos)`, the sum of stars, `min(5, n)` project summaries and `min(10, n)` recent entries |
| Knowledge.SummariesSpec | scripts/extract_knowledge.py:109-119 | `min(5, len(repos))` summaries, taken in order from `top_repos`; each excerpt is the README's first `min(1000, len)` characters (a prefix of exactly that length), or "" when the README was not fetched |
| Knowledge.PrimaryLanguagesSpec | scripts/extract_knowledge.py:136 | `min(5, #languages)` languages, each present, with no omitted language counted more often than a listed one |
| Knowledge.TotalsSpec | scripts/extract_knowledge.py:139-140 | `total_repos` is `len(repos)`; `total_stars` does not depend on the order of the repos (it equals the sum over the star-sorted list), and when no count is negative it is at least the stars of `top_repos` |
| Knowledge.RecentSpec | scripts/extract_knowledge.py:143-150 | `recent_activity` has `min(10, len(repos))` entries naming the repos in order |
| Knowledge.DescribedSpec | scripts/extract_knowledge.py:163-166 | the prompt lists exactly the projects with a non-empty description, and all of them when every project has one |
| Knowledge.ProjectTextEmpty | scripts/extract_knowledge.py:163-166 | the project text is empty iff no project has a description |
| Knowledge.ProjectLine | scripts/extract_knowledge.py:164 | a project's line opens with `- **<name>**: `, and holds no line break when its name, description and language hold none |
| Knowledge.ProjectTextLines | scripts/extract_knowledge.py:163-166 | with single-line fields, `project_text` splits into exactly one line per described project, in order, each that project's line |
| Knowledge.PromptTopicsSmallest | scripts/extract_knowledge.py:178 | the prompt shows `min(15, #topics)` topics, and no topic left out sorts before one shown |
| Knowledge.DecimalStringRoundTrip | scripts/extract_knowledge.py:164 | a star count is written in decimal digits without leading zero and reads back as the count |
| AiUpdate.SummaryLine | scripts/ai_update.py:37-39 | each summary line ends with a line break |
| AiUpdate.BuildActivitySummary | scripts/ai_update.py:34-42 | the loop returns `ActivitySummary(activity)` |
| AiUpdate.ActivitySummarySpec | scripts/ai_update.py:36-42 | the fallback line is used iff there are no events; otherwise the summary ends in a line break and, for single-line fields, has `min(5, len(events))` lines |
| AiUpdate.SplitLines | scripts/ai_update.py:36-39 | with single-line fields, the summary lines split at line breaks into `- <type> in <repo>` for each event in order, then the empty piece after the last line break |
| AiUpdate.ActivitySummaryLines | scripts/ai_update.py:34-42 | for at least one event, the summary splits into `- <type> in <repo>` for each of the first `min(5, n)` events, in order (type and repo defaulting to ""), then "" |
| AiUpdate.LinesNewlines | scripts/ai_update.py:36-39 | one line per event summarised |
| AiUpdate.RecentRepos | scripts/ai_update.py:85-88 | `recent_repos` has `min(10, len(activity))` names, the k-th being the lower-cased repo name of the k-th event ("" when absent) |
| AiUpdate.GetCurrentProject | scripts/ai_update.py:74-95 | the nested loops with early return compute `CurrentProject(activity)` |
| AiUpdate.ClassifyFirstHit | scripts/ai_update.py:90-93 | when category i is the first with a matching repo, its upper-cased name is returned |
| AiUpdate.ClassifyCases | scripts/ai_update.py:90-95 | with no matching category the result is "LEVEL 5 SYSTEMS"; otherwise some category is the first hit |
| AiUpdate.CategoryLabels | scripts/ai_update.py:78-83 | the four categories upper-case to "AI", "BLOCKCHAIN", "AUTOMATION" and "AGENTIC" |
| AiUpdate.CurrentProjectSpec | scripts/ai_update.py:78-95 | the result is one of the five labels; it is the first matching category's label; it is "LEVEL 5 SYSTEMS" iff no category matches any of the first ten repo names |
| AiUpdate.OnlyFirstTen | scripts/ai_update.py:86 | events after the tenth never change the result |
| AiUpdate.CaseInsensitive | scripts/ai_update.py:87-93 | two event lists whose repo names agree once lower-cased give the same project |
| AiUpdate.UpperCaseNameMatches | scripts/ai_update.py:87-93 | one event in a repo named "OpenAI-Tools" gives "AI", because the name is lower-cased before matching |
| AiUpdate.NoEvents | scripts/ai_update.py:95 | no events give "LEVEL 5 SYSTEMS" |
| AiUpdate.SubstringMatch | scripts/ai_update.py:92 | a repo named "email" classifies as "AI", since "ai" occurs inside it |
| Sorting.SortDescSorted | scripts/extract_knowledge.py:82 | `sorted(..., reverse=True)` output is ordered by key, descending |
| Sorting.SortDescPermutation | scripts/extract_knowledge.py:82 | the sort is a permutation of its input |
| Sorting.SortDescStable | scripts/extract_knowledge.py:82 | elements with equal keys keep their input order |
| Sorting.SortDescTop | scripts/extract_knowledge.py:106 | the first n of the sorted list come from the input, and none left out has a larger key |
| Sorting.SortDescSum | scripts/extract_knowledge.py:140 | sorting does not change a sum |
| Sorting.SortedSetSpec | scripts/extract_knowledge.py:91 | `sorted(set)` strictly ascends and holds exactly the set's elements |
| Sorting.LeastUnique | scripts/extract_knowledge.py:91 | a set of strings has one least element |
| Text.RStrip | scripts/contribution_art.py:151 | on rows made of '█' and ' ', `rstrip()` removes exactly the trailing spaces: the result is a prefix, everything cut is ' ', and it does not end in ' ' |
| Text.RStripPadded | scripts/contribution_art.py:151 | stripping spaces appended to a string that does not end in one gives back that string |
| Text.LastSegment | scripts/generate_terminal.py:83 | `split("/")[-1]` is the suffix after the last '/' |
| Text.FirstLine | scripts/generate_terminal.py:101 | `split("\n")[0]` is the prefix before the first line break |
| Text.SplitJoin | scripts/extract_knowledge.py:163 | `"\n".join(lines)` splits back into `lines` when no line holds a line break |
| Text.ContainsIff | scripts/ai_update.py:92 | `keyword in repo` holds iff the keyword occurs at some index |
| Text.StrLessTransitive | scripts/extract_knowledge.py:91 | the string order `sorted` uses is transitive |
| Text.StrLessTotal | scripts/extract_knowledge.py:91 | any two distinct strings are ordered one way or the other |
| Text.UpperIdempotent | scripts/contribution_art.py:136 | upper-casing twice is upper-casing once |

## Left out

- HTTP requests. The results of `fetch_github_activity`, `fetch_recent_repos`, `fetch_user_profile`, `fetch_repos`, `fetch_readme` and `get_github_activity` are inputs: event and repo sequences, a profile record, and a map from repository name to the text of each README that was fetched with status 200. Their own caps (`[:15]` events, `[:10]` events) are applied by the caller and not modelled.
- The OpenAI chat completion in `generate_ai_status`, and the prompt template around the activity summary. The call is a foreign, non-deterministic service.
- File and console I/O: `main`, `save_plan`, `preview_pattern`'s printing, and the README regex patching in `update_readme`.
- JSON serialisation: the plan's integer year keys become strings, and `null` differs from an absent key. In the model both `null` and an absent field are `None`. So where Python would print "None" for a `null` language or description, the model uses the field's default.
- SVG markup: the templating, `html.escape`, and the float arithmetic of the animation delays and widths.
- The terminal's header lines (the first holds the wall-clock time) and its fixed status lines are counted; their text is not modelled. Nor are `extracted_at` and the other wall-clock timestamps.
- `scripts/generate_svg_animations.py` is not part of this model.
- Text.RStrip: strips trailing ' ' only, where Python's `str.rstrip()` strips every trailing whitespace character. The two agree on glyph rows, which hold only '█' and ' '.
- Text.Upper: `str.upper()` and `str.lower()` are modelled on ASCII letters only, so non-ASCII case mapping (which can change a string's length) is not captured.
- ContributionArt.GetWordPattern: requires an ASCII word, for the same reason.
- AiUpdate.GetCurrentProject: repo names are lower-cased on ASCII letters only.
- ContributionArt.CreateArtPlan: it builds the map in a loop over the years, where the source writes a literal dict of seven calls. The entries are the same.
- Calendar.IsoDate: `%Y` is written with four digits. Python's `strftime` may print fewer for years before 1000 on some platforms.
- The rest of `generate_system_prompt`'s text (name, bio, guidelines) is fixed template text around the modelled pieces.
