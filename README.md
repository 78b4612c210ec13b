# BGA2BGG games-history report, modelled in Dafny

BGA2BGG turns a saved Board Game Arena "games history" page into a play log
for BoardGameGeek. The page is stored as a JSON tree of nodes. Each node may
have `text`, `href`, `class` and `children` keys. This project models the core
of `script.py` as four stages.

- **The page tree** (`Dom.dfy`): nodes with optional keys, and the ways that
  reading a key or an index can fail. Each kind of failure that the model
  covers is one constructor of `Dom.Error`. Each operation returns a
  `Result`, so a `KeyError`, an `IndexError`, a `ValueError`, an
  `OverflowError` or an `AssertionError` becomes a `Failure`. A key whose
  value is JSON `null` is read as an absent key (see "Left out").
- **The locator** (`History.dfy`, `extract_games_history`): it scans the
  top-level items for the first one whose first child is titled
  "Games history". It then descends the fixed path `[1][0][0][0]` to the game
  nodes, and cuts every game into the four entries `info`, `time`, `players`
  and `game_rank`.
- **The record extractor** (`Extract.dfy`, `extract_game_info`): a method
  whose loop runs over a game's entries in order, with an inner loop over the
  players. It is proved equal to a fold, `GameInfoOf`. The fold resolves the
  relative "when" texts against the creation time of the page file:
  - "N hours ...";
  - "yesterday at HH:MM";
  - "YYYY-MM-DD at HH:MM".

  It also reads the duration, looks players up in the known-players table and
  builds the rank-change annotation.
- **The report** (`Report.dfy`, the body of `main`):
  - the records of all games;
  - the distinct game names, in case-insensitive order;
  - the optional game filter;
  - the nested tally loop, which counts the plays and keeps the earliest and
    the latest play time.

The supporting modules are:

- `Text.dfy`: Python's `in`, `split`, `join`, `replace`, `lower`, slicing and
  string order;
- `Numerals.dfy`: `int()`, `str()` and the zero-padded fields of `strftime`;
- `Calendar.dfy`: proleptic Gregorian dates from 0001-01-01 to 9999-12-31,
  date arithmetic, and `strftime`/`strptime` for `%Y-%m-%d %H:%M`.

Three inputs become explicit parameters:

- The creation time of the file, which the source reads with `getctime`.
- The global `known` table, which the source loads in `__main__`. Only the
  part the extractor reads is modelled: player id to BGG name.
- The game filter from the command line.

The methods `Extract.ExtractGameInfo`, `Report.ExtractAll` and `Report.Tally`
keep the loops of the source, and `Report.Summarize` runs the steps of `main`
by calling them. Each is proved equal to a specification function. The
properties are then proved about those functions.

Some facts about the code that the model keeps:

- The locator takes child 1 of the section item, then first children three
  times.
- The tier is taken with `replace`, which removes every occurrence of
  "gamerank gamerank_". `Text.ReplacePrefix` and `Extract.TierOfClass` show
  that this strips the class prefix when the tier does not itself contain it.
- A record's players list may be empty.
- The rank entry is required of every located game: the locator always reads
  `game[3]['children']`.

## Model

| member | source | states |
|---|---|---|
| History.FindSection | script.py:115-117 | the scan yields the index of the first item whose first child's text is "Games history", with every earlier item checked and not matching; None exactly when no item matches; an error only as the error of an item's check raised before any section item is found |
| History.PartsOf | script.py:119 | succeeds exactly when every game node has children, and then gives each game's children, in order |
| History.AllFields | script.py:120-124 | succeeds exactly when every game's parts give four entries, and then cuts each game into info, time, players and game_rank, the children of its parts 0 to 3 |
| History.NoSectionNoGames | script.py:115-125 | when every top-level item is checked without error and none is the "Games history" section, the locator returns an empty list |
| History.LocatedGames | script.py:117-124 | the located list has one entry per game node of the first section, in order, each built from that game's parts |
| History.FieldsOfSucceeds | script.py:120-123 | a game is cut into its four entries exactly when it has at least four parts and each of the first four has children |
| History.LocatedGamesSucceed | script.py:117-124 | once the section and the game list are found, the locator fails exactly when some game lacks children, has fewer than four parts, or has a part without children |
| Extract.IdAfterLastEquals | script.py:26 | `href.split('=')[-1]` is the text after the last '=' of the link |
| Extract.ParseDuration | script.py:29-34 | a duration text gives no minutes exactly when it does not mention "mn" (the value of "N mn..." is given by `Extract.DurationText`) |
| Extract.DurationText | script.py:29-31 | a text "N mn..." gives N minutes |
| Extract.ResolveTime | script.py:39-63 | every resolved time is a valid date-time |
| Extract.HoursForm | script.py:39-42 | "N hours" succeeds exactly when the creation time minus N hours stays within the calendar, and is then the date-time whose minute count is 60·N less, at the same minute of the hour |
| Extract.YesterdayForm | script.py:43-54 | "... yesterday ... at HH:MM" fails only on the first day of the calendar, and is otherwise that clock time on the day before the creation date |
| Extract.YesterdayText | script.py:43-54 | the text "yesterday at HH:MM" resolves to that clock time on the previous calendar day |
| Extract.YesterdayEvening | script.py:43-54 | "yesterday at 20:15", read on 2024-03-05 at 09:00, resolves to 2024-03-04 20:15 |
| Extract.ThreeHoursBefore | script.py:39-42 | a "3 hours ..." text, read on 2024-01-10 at 18:00, resolves to 2024-01-10 15:00 |
| Extract.AbsoluteIgnoresCreation | script.py:55-63 | a text with neither "hours" nor "yesterday" resolves the same whatever the creation time |
| Extract.AbsoluteText | script.py:55-63 | "YYYY-MM-DD at HH:MM" resolves to exactly that date and time |
| Extract.ParseTime | script.py:29-66 | when both the duration and the time are read, the time is a valid date-time |
| Extract.ExtractPlayers | script.py:69-75 | the players list succeeds exactly when every entry parses, and then holds one player per entry, in entry order |
| Extract.ParsePlayerEntry | script.py:70-74 | an entry with rank label "<rank><2-char suffix>", a link ending "=<id>" and a score text gives that rank and score, and the known BGG name of the id or "Anonymous" |
| Extract.ParseGameRank | script.py:76-83 | an annotation is produced only when the rank-change marker has class "gamerank_value"; `Extract.RankEntryReads` gives its content |
| Extract.MarkerMismatchFails | script.py:78 | a marker of any other class raises, naming that class |
| Extract.TierOfClass | script.py:80 | the tier of class "gamerank gamerank_<tier>" is `<tier>` |
| Extract.RankEntryReads | script.py:76-83 | a rank entry with delta text, rank class "gamerank gamerank_<tier>" and marker "gamerank_value" carrying the ELO reads as the annotation with the table id, `<tier>`, that ELO and that delta |
| Extract.GameInfoFailureSticks | script.py:23-83 | once one entry raises, the whole record fails with that error |
| Extract.PlayersFailureSticks | script.py:69-75 | once one player entry raises, the players list fails with that error |
| Extract.ExtractGameInfo | script.py:14-84 | the loop over the entries (and over the players) computes exactly the fold `GameInfoOf` over the entries, starting from the all-None record |
| Extract.LocatedRecord | script.py:23-83 | for a located game the record succeeds exactly when the info, time, players and rank entries all read, and then holds the name and table id of the info link, the duration, the formatted time, the players in order, and the annotation built with that table id |
| Extract.LocatedRecordComplete | script.py:24-66 | a record of a located game has a name, a table id and an annotation, and its time text reads back as the resolved date-time |
| Text.Find | script.py:30 | the leftmost occurrence of a pattern, or none at all |
| Text.SplitJoin | script.py:80 | joining the pieces of a split with the separator gives back the string |
| Text.SplitPiecesFree | script.py:45 | no piece of a split contains the separator |
| Text.FirstPieceIsPrefix | script.py:31 | `s.split(' ')[0]` is the longest prefix of `s` without a space |
| Text.LastPieceIsSuffix | script.py:26 | `s.split('=')[-1]` is the longest suffix of `s` without '=' |
| Text.DropLastAppend | script.py:71 | `(a + b)[:-len(b)]` is `a`, so the rank label minus its two-letter suffix is the number |
| Text.ReplacePrefix | script.py:80 | removing every `p` from `p + t`, where `t` holds no `p`, gives `t` |
| Text.LowerHasNoCapital | script.py:137 | a lower-cased string holds no capital letter |
| Text.LowerIdempotent | script.py:137 | lower-casing twice is lower-casing once |
| Text.LowerAppend | script.py:137 | lower-casing distributes over concatenation |
| Text.StrLeTotal | script.py:137 | the string order compares any two strings |
| Text.StrLeAntisymmetric | script.py:137 | strings ordered both ways are equal |
| Text.StrLeTransitive | script.py:137 | the string order is transitive |
| Numerals.PadValue | script.py:66 | reading a zero-padded field gives back the number |
| Numerals.ValuePad | script.py:66 | every w-digit string is the padded form of its value |
| Numerals.ParseIntToString | script.py:79-83 | `int(str(i)) == i` |
| Calendar.PreviousDay | script.py:48 | the day before fails only on 0001-01-01, and is otherwise a valid date |
| Calendar.PreviousDayNumber | script.py:48 | the previous day has the day number one less |
| Calendar.NextOfPrevious | script.py:48 | the next day of the previous day is the day itself |
| Calendar.AddDaysNumber | script.py:41-42 | moving by k days succeeds exactly when the day number plus k stays in the calendar, and then moves the day number by k |
| Calendar.ShiftHoursStamp | script.py:41-42 | shifting by d hours succeeds exactly when the minute count plus 60·d stays in the calendar, and then moves the minute count by 60·d and keeps the minute of the hour |
| Calendar.BeforeIsStampOrder | script.py:151-153 | the field-by-field order of date-times is the order of their minute counts |
| Calendar.StampInjective | script.py:151-153 | distinct date-times have distinct minute counts |
| Calendar.BeforeTransitive | script.py:151-153 | the date-time order is transitive |
| Calendar.BeforeTrichotomy | script.py:151-153 | any two date-times are ordered one way or the other, or are equal |
| Calendar.WithinCalendar | script.py:143-144 | every valid date-time lies between `datetime.min` and `datetime.max` |
| Calendar.FormatDateParse | script.py:58 | reading a formatted date gives it back |
| Calendar.FormatClockParse | script.py:51 | reading a formatted clock time gives it back |
| Calendar.FormatThenParse | script.py:66 | `strptime(t.strftime('%Y-%m-%d %H:%M'))` gives back `t` |
| Calendar.ParseThenFormat | script.py:150 | every text that parses is the formatted form of its date-time |
| Report.GameInfosOf | script.py:136 | the records succeed exactly when every game's record does, and then there is one per game, in order |
| Report.GameInfosFailureSticks | script.py:136 | once one record raises, the list comprehension fails with that error |
| Report.ExtractAll | script.py:136 | the loop over the located games computes exactly `GameInfosOf` |
| Report.GameNames | script.py:137 | the names succeed exactly when every record has a game name, one name per record in order; otherwise the sort key raises |
| Report.InsertName | script.py:137 | inserting keeps the list strictly ordered and adds exactly the name |
| Report.SortedNames | script.py:137 | the sorted names are strictly ordered and hold exactly the names given |
| Report.SortedNamesByKey | script.py:137 | the sorted names hold every name exactly once, with non-decreasing lower-cased forms |
| Report.NameLeTotal | script.py:137 | the sort order compares any two names |
| Report.NameLeTransitive | script.py:137 | the sort order is transitive |
| Report.SelectGames | script.py:138-140 | without a filter (or with an empty one) every game is kept; a filter succeeds exactly when it is one of the games, and leaves only it; otherwise the error names the filter and the games |
| Report.MatchesMembers | script.py:146-147 | a game's plays are exactly the records bearing its name |
| Report.ListingMembers | script.py:145-147 | the plays visited are exactly the records named after one of the games |
| Report.ListingCount | script.py:145-149 | for distinct games the number of plays visited is the number of records named after one of them |
| Report.CountNamedAll | script.py:145-149 | when every record's name is among the games, every record is counted |
| Report.PlayTime | script.py:150 | a play time is read exactly when the record has a time that parses, and is then valid |
| Report.TallyOf | script.py:142-154 | a successful tally counts every play visited |
| Report.TallySucceeds | script.py:150 | the tally succeeds exactly when every visited play has a readable time |
| Report.TallyFailureSticks | script.py:150 | once one play time fails to parse, the tally fails with that error |
| Report.TallyWithin | script.py:150-154 | no visited play is earlier than `first_game` or later than `last_game` |
| Report.TallyAttained | script.py:142-154 | with no plays `first_game` stays `datetime.max` and `last_game` stays `datetime.min`; otherwise both are times of visited plays |
| Report.Tally | script.py:142-154 | the nested loop computes exactly `TallyOf` over the plays listed game by game, each game's plays in record order |
| Report.Summarize | script.py:128-154 | `main` step by step computes exactly `ReportOf`: locate, extract, sort, filter, tally |
| Report.UnfilteredReport | script.py:136-149 | without a filter the report names every game of the records once, in lower-cased order, and counts every record |
| Report.FilteredReport | script.py:138-149 | a filter naming no record's game fails with the sorted games; a successful filtered report names only the filter and counts exactly its records |

## Left out

- Reading the JSON files (`load_json`, script.py:8-11) is file I/O. The page becomes a `seq<Dom.Node>` parameter.
- The file's creation time (`getctime` and `fromtimestamp`, script.py:130-131) is read from the operating system. It becomes a `DateTime` parameter.
- The command line and its input checks (script.py:165-188) are argument parsing and file checks.
- `print_game` and the summary line (script.py:87-99, 156-158) are output only. `Report.Listing` gives the order in which the plays are printed, and `Report.Report` holds the counters of the summary line.
- The BoardGameGeek link for a filtered game (script.py:159-162) is not modelled. Its lookup `known['games'][game_filter]['BGG']` raises `KeyError` for a game missing from that table or without a 'BGG' entry. The source then fails after printing the report, while `Report.Summarize` succeeds.
- The first definition of `extract_games_history` (script.py:102-110) is shadowed by the second and never runs.
- `download.py` is not part of this model.
- Numerals.ParseInt: Python's `int()` also accepts surrounding whitespace, underscores and non-ASCII digits; the model accepts an optional sign followed by ASCII digits.
- Calendar.Parse: `strptime` also accepts fields narrower than their full width (such as "9:5"); the model requires the zero-padded widths that `strftime` writes.
- Text.Lower: only ASCII letters are lower-cased; Python's `str.lower` also folds other scripts.
- Report.SortedNames: distinct names with the same lower-cased form are ordered by code point; Python's stable sort leaves them in the set's iteration order, which is not specified.
- Time zones, seconds and microseconds are not modelled. Date-times have minute precision, and `datetime.min`/`datetime.max` are taken at minute precision.
- Years below 1000 are written with four zero-padded digits. Python's `strftime` output for them depends on the platform.
- Extract.Known: a known player without a 'BGG' entry (a `KeyError` in the source) is not modelled; the table maps an id straight to its BGG name.
- A key whose value is JSON `null` is read as an absent key, which changes four outcomes. At the locator (script.py:117), an item whose first child has `"text": null` is skipped by the source (`None == 'Games history'` is false), while `History.IsSection` fails with `MissingKey("text")`. A top-level item with `"children": null` makes the source raise `TypeError`, while the model skips it. In the extractor, an info link with `"text": null` gives the source a record without a game name, which fails only later at the sort key (script.py:25, 137), while `Extract.ParseInfo` fails at once with `MissingKey("text")`. A rank delta with `"text": null` is written as "(delta None)" by the source (script.py:81-83), while `Extract.ParseGameRank` fails with `MissingKey("text")`.
