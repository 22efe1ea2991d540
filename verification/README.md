# School lunch menu finder — a Dafny model

This project models the core of the Spinney school lunch menu finder. The
core is `school_dinner_checker/school_lunch_new.py`. It covers:

- the menu data: three rotating menu weeks for spring 2026, each with a
  standard and a vegetarian table keyed by weekday name, plus the start
  dates of each week's five-day runs;
- `parse_user_date`: reads `dd/mm` (year 2026) or `dd/mm/yyyy` the way
  `datetime.strptime(..., "%d/%m/%Y")` does, and gives `None` on failure;
- `determine_menu_week`: the first listed run whose interval
  `[start, start + 4 days]` holds the date;
- `get_meals_for_date`: nothing at weekends or outside every run, otherwise
  the weekday's entries of the week's two tables;
- the highlight keywords: the comma-separated input, split and stripped
  (line 137), then `expand_word_variants` (lower-case each word, add `s`,
  and add `es` after a final `o`);
- `highlight_text_markdown`: a single case-insensitive `re.sub` over the
  literal alternation of the keywords, wrapping each match as
  `**:orange[...]:**`.

Modules:

- `Wrappers` (wrappers.dfy): `Option` and `dict.get`.
- `Calendar` (calendar.dfy): the proleptic Gregorian calendar. `Ordinal` is
  `date.toordinal` and `Weekday` is `date.weekday`, with Monday as 0.
- `Text` (text.dfy): the string operations used, namely `split`, `strip`
  with Python's white-space set, ASCII `lower`, and decimal digits.
- `DateParse` (dateparse.dfy): `parse_user_date`, with the field grammar
  of `strptime`.
- `Menu` (menu.dfy): the tables, `determine_menu_week` and
  `get_meals_for_date`.
- `Keywords` (keywords.dfy): line 137 and `expand_word_variants`.
- `Highlight` (highlight.dfy): `highlight_text_markdown`, modelled as a scan
  into pieces (`Plain` character or `Marked` match) that are then rendered.

Dates are whole days (`Date(year, month, day)`). Comparing two datetimes at
midnight is comparing their ordinals.

Two behaviours of the code are worth stating plainly:

- A second highlighting pass over highlighted text is not a no-op. With
  the keyword `potato` the markers hold no match, but the wrapped word
  still does, so it is wrapped again (`Highlight.HighlightTwiceRewraps`).
  Other keywords can match inside the markers themselves: `orange`
  occurs in `**:orange[` (`Highlight.MarkerHoldsOrange`).
- For words ending in `o`, both `+s` and `+es` are added; the two are not
  exclusive.

A missing weekday key is modelled with `Get`, which returns `None`, as
`dict.get` does. All six tables do in fact hold the five working days.

## Model

| member | source | states |
|---|---|---|
| Wrappers.Get | school_dinner_checker/school_lunch_new.py:124 | `dict.get` finds a value exactly when the key is present, and then it is the stored value |
| Calendar.OrdinalOrder | school_dinner_checker/school_lunch_new.py:112 | comparing ordinals is comparing dates in calendar order, and equal ordinals mean the same date |
| Calendar.SameMonthOffset | school_dinner_checker/school_lunch_new.py:111 | `k` days later in the same month is a valid date whose ordinal is `k` more and whose weekday moves on by `k` modulo 7 |
| Calendar.Weekday | school_dinner_checker/school_lunch_new.py:118 | `weekday()` is 0 (Monday) to 6 (Sunday); `Calendar.SameMonthOffset` moves it on by `k` modulo 7 for a date `k` days later in the same month, and `Menu.StartsAreMondays` fixes 19 January 2026 as weekday 0 |
| Calendar.WeekdayName | school_dinner_checker/school_lunch_new.py:123 | `strftime("%A")` gives one of seven distinct English day names, so the name tells the weekday, and it is `Saturday` or `Sunday` exactly at the weekend |
| Text.Split | school_dinner_checker/school_lunch_new.py:137 | `split(",")` gives at least one piece, the pieces joined with the separator give back the input, and no piece holds the separator |
| Text.Strip | school_dinner_checker/school_lunch_new.py:137 | `strip()` gives the infix left after removing white space from both ends; it is empty exactly when the input is all white space, and otherwise starts and ends with a non-space character |
| Text.Lower | school_dinner_checker/school_lunch_new.py:83 | `lower()` keeps the length, turns each `A`-`Z` into the matching `a`-`z` and leaves every other character as it is |
| DateParse.ParseDmy | school_dinner_checker/school_lunch_new.py:101-104 | `strptime(s, "%d/%m/%Y")` yields only existing dates, with the year read from a four-digit third field |
| DateParse.ParseUserDate | school_dinner_checker/school_lunch_new.py:97-104 | a parsed date always exists, and a five-character input that parses gives a date in 2026 |
| DateParse.ShortForm | school_dinner_checker/school_lunch_new.py:100-101 | a `dd/mm` of digits gives day `dd` of month `mm` of 2026 when that date exists, and `None` otherwise |
| DateParse.FormatRoundTrip | school_dinner_checker/school_lunch_new.py:97-104 | every existing date, written as zero-padded `dd/mm/yyyy`, parses back to itself |
| DateParse.ShortFormatRoundTrip | school_dinner_checker/school_lunch_new.py:100-101 | every 2026 date, written as `dd/mm`, parses back to itself |
| DateParse.LongForm | school_dinner_checker/school_lunch_new.py:102-104 | a `dd/mm/yyyy` of digits gives day `dd` of month `mm` of year `yyyy` when that date exists, and `None` otherwise |
| DateParse.NonexistentDate | school_dinner_checker/school_lunch_new.py:99-104 | `31/02` and `29/02` (2026 is not a leap year) give `None` rather than an error |
| DateParse.NonexistentLongDate | school_dinner_checker/school_lunch_new.py:102-104 | `31/02/2026`, `00/01/2026` and `29/02/2027` give `None` rather than an error |
| Menu.StartDates | school_dinner_checker/school_lunch_new.py:110 | every parsed start keeps its week, is an existing date, and is what the parser gives for its `dd/mm` entry |
| Menu.MenuStartsAre | school_dinner_checker/school_lunch_new.py:57-61 | every entry of `MENU_WEEKS_2026`, in visiting order, parses (with `/2026`) to the listed start dates |
| Menu.FirstCovering | school_dinner_checker/school_lunch_new.py:108-114 | some week is found exactly when some interval holds the date, and it is the week of the first such interval in visiting order |
| Menu.DetermineMenuWeek | school_dinner_checker/school_lunch_new.py:106-114 | a week is found exactly when some run of the cycle holds the date, and it is the week of the first such run in visiting order |
| Menu.StartsAreMondays | school_dinner_checker/school_lunch_new.py:57-61 | every start is a Monday in 2026 whose five days stay inside its month |
| Menu.CoversCalendar | school_dinner_checker/school_lunch_new.py:111-112 | a run that stays in its month covers exactly the five calendar days from its start |
| Menu.IntervalsDisjoint | school_dinner_checker/school_lunch_new.py:57-61 | the nine five-day intervals never overlap |
| Menu.RunUnique | school_dinner_checker/school_lunch_new.py:108-113 | a date lies in at most one run |
| Menu.MenuWeekExact | school_dinner_checker/school_lunch_new.py:106-114 | the menu week is `w` exactly when the date lies in a run listed for `w`, and `None` exactly when it lies in no run |
| Menu.InRunCalendar | school_dinner_checker/school_lunch_new.py:110-112 | a date lies in a run exactly when it is one of the run's five days in 2026 |
| Menu.OtherYearsHaveNoWeek | school_dinner_checker/school_lunch_new.py:106-114 | no date outside 2026 has a menu week |
| Menu.HalfTermHasNoWeek | school_dinner_checker/school_lunch_new.py:106-114 | the half-term gap, 21 February to 1 March 2026, has no menu week |
| Menu.OutsideTermHasNoWeek | school_dinner_checker/school_lunch_new.py:106-114 | nothing before 19 January or after 27 March 2026 has a menu week |
| Menu.RunInTerm | school_dinner_checker/school_lunch_new.py:57-61 | every run lies between 19 January and 27 March 2026 |
| Menu.TablesComplete | school_dinner_checker/school_lunch_new.py:9-73 | the standard and the vegetarian table of every week are keyed by exactly Monday to Friday |
| Menu.GetMealsForDate | school_dinner_checker/school_lunch_new.py:116-124 | the standard meal exists exactly when the vegetarian one does, and both exist exactly on a weekday that has a menu week |
| Menu.RunDayWeek | school_dinner_checker/school_lunch_new.py:106-118 | day `k` (0 to 4) of every run is an existing date, falls on weekday `k`, and has the run's week as its menu week |
| Menu.RunDayMeals | school_dinner_checker/school_lunch_new.py:57-124 | day `k` (0 to 4) of every run is served weekday `k`'s entries of both tables of the run's week, and both are present |
| Menu.MealsOfWeekday | school_dinner_checker/school_lunch_new.py:116-124 | on weekday `k` of menu week `w`, the meals are the two tables' entries for that day's name, and both are present |
| Menu.FirstDayOfTerm | school_dinner_checker/school_lunch_new.py:9-58 | Monday 19 January 2026 gets Chicken Curry (standard) and Pasta Twists (vegetarian) |
| Menu.NoMealsOutsideRuns | school_dinner_checker/school_lunch_new.py:118-122 | weekends, and weekdays outside every run, get no meals |
| Keywords.Expand | school_dinner_checker/school_lunch_new.py:79-88 | the variant set holds exactly the lower-cased words, each plus `s`, and each plus `es` when it ends in `o` |
| Keywords.ExpandWordVariants | school_dinner_checker/school_lunch_new.py:79-88 | the returned list has no duplicates and holds exactly the variants of the words, in any order |
| Keywords.ExpandExamples | school_dinner_checker/school_lunch_new.py:80-88 | `potato` expands to `potato`, `potatos` and `potatoes`; `Apple` expands to `apple` and `apples` |
| Keywords.VariantsNonEmpty | school_dinner_checker/school_lunch_new.py:79-88 | variants of non-empty words are non-empty, and no words give no variants |
| Keywords.NonEmptyStrippedSound | school_dinner_checker/school_lunch_new.py:137 | every kept word is non-empty and is some piece stripped |
| Keywords.NonEmptyStrippedComplete | school_dinner_checker/school_lunch_new.py:137 | every piece that is not blank after stripping is kept |
| Keywords.KeptWordsClean | school_dinner_checker/school_lunch_new.py:137 | the kept words are non-empty, hold no comma, and neither start nor end with white space |
| Keywords.KeywordsFrom | school_dinner_checker/school_lunch_new.py:137 | every keyword taken from the input is non-empty, comma-free and trimmed |
| Highlight.FirstMatch | school_dinner_checker/school_lunch_new.py:94 | the alternative taken at a position is one of the keywords and fits in the remaining text |
| Highlight.FirstMatchSpec | school_dinner_checker/school_lunch_new.py:94-95 | the alternative taken at a position matches there, no earlier keyword does, and there is no match only when no keyword matches |
| Highlight.Scan | school_dinner_checker/school_lunch_new.py:95 | the pieces of the scan cover the text exactly, with wrappers removed |
| Highlight.ScanIsLeftmostFirst | school_dinner_checker/school_lunch_new.py:94-95 | every piece is what the regular expression engine finds at the piece's own position |
| Highlight.PieceAtMeaning | school_dinner_checker/school_lunch_new.py:94-95 | a copied character starts no match; a wrapped run is the text equal, ignoring case, to the first keyword that matches there |
| Highlight.Render | school_dinner_checker/school_lunch_new.py:95 | the output is the text plus exactly the 14 marker characters per match, and with no match it is the text itself |
| Highlight.RenderAppend | school_dinner_checker/school_lunch_new.py:95 | the output for consecutive pieces is their outputs in the same order, so every piece is rendered in its own place |
| Highlight.RenderOne | school_dinner_checker/school_lunch_new.py:95 | a copied character comes out as itself, and a match comes out as `**:orange[` + the matched text + `]:**` |
| Highlight.UnwrapRender | school_dinner_checker/school_lunch_new.py:95 | deleting the wrappers from the output gives back the input, for text without square brackets |
| Highlight.ScanWithoutKeywords | school_dinner_checker/school_lunch_new.py:91-93 | with no keywords the output is the input |
| Highlight.HighlightText | school_dinner_checker/school_lunch_new.py:90-95 | the output is the rendered scan; an empty keyword list returns the text; unwrapping gives the text back when it has no square brackets |
| Highlight.CopyUnmatched | school_dinner_checker/school_lunch_new.py:95 | characters that begin no keyword are copied to the output unchanged |
| Highlight.MashPotatoExample | school_dinner_checker/school_lunch_new.py:90-95 | in `Mash Potato` only `Potato` is wrapped, keeping its capital |
| Highlight.OrderDecidesOverlap | school_dinner_checker/school_lunch_new.py:94-95 | at one position the first listed keyword wins: `potato` first wraps only `Potato` of `Potatoes`, while `potatoes` first wraps the whole word |
| Highlight.HighlightPotato | school_dinner_checker/school_lunch_new.py:90-95 | `Potato` is wrapped once |
| Highlight.HighlightTwiceRewraps | school_dinner_checker/school_lunch_new.py:90-95 | highlighting the highlighted `Potato` again wraps it a second time |
| Highlight.MarkerHoldsOrange | school_dinner_checker/school_lunch_new.py:95 | the opening marker written around every match itself holds the keyword `orange` |
| Highlight.HighlightMeal | school_dinner_checker/school_lunch_new.py:137-158 | a meal is highlighted with the keyword variants in some order; blank keyword input leaves it unchanged, and unwrapping gives back a meal without square brackets |

## Left out

- The Streamlit page (lines 1 and 126-159): titles, text inputs, columns and the error and warning messages. `Highlight.HighlightMeal` models only the path a meal text takes on that page.
- `strptime` accepts non-ASCII Unicode decimal digits in its numeric fields; the model accepts ASCII digits only.
- Text.Lower: `str.lower` and `re.IGNORECASE` use Unicode case rules; the model folds only `A`-`Z` to `a`-`z`.
- The general regular-expression engine is not modelled. Because `re.escape` makes every keyword a literal, the pattern is a literal alternation, and that is modelled directly.
- Highlight.HighlightText: requires every keyword to be non-empty. Python would match the empty string at every position for an empty keyword, but line 137 and `expand_word_variants` never produce one (`Keywords.VariantsNonEmpty`, `Keywords.KeptWordsClean`).
- Highlight.FirstMatch: its ensures states only that the index is a keyword no longer than the text; that it is the first keyword in list order that matches there is stated by `Highlight.FirstMatchSpec`, kept apart to keep the scan proofs small.
- Highlight.UnwrapRender: the round trip is stated only for text without `[` or `]`. A meal text holding a closing bracket could not be told apart from the end of a wrapper.
- Keywords.ExpandWordVariants: Python's set iteration order is a hash order; the method returns the elements in an arbitrary order, and `Highlight.HighlightMeal` holds for every order.
- Keywords.KeywordsFrom: its ensures states that the words are clean; that they are exactly the non-blank stripped pieces is stated by `Keywords.NonEmptyStrippedSound` and `Keywords.NonEmptyStrippedComplete`.
- Times of day and `timedelta` arithmetic beyond whole days are not modelled. Parsed datetimes are always at midnight.
- Calendar.WeekdayName: `strftime("%A")` is modelled only for the English (C) locale, as the fixed list of day names.
