# Models of the calendar, FIX message and string cores

This project models, in Dafny, the algorithms of the repository that carry the most reasoning, and proves what they
are for.

* **Calendars** (`MachineInts`, `Gregorian`, `Weekdays`, `WeekDates`, `DateFields`, `DateNames`, `Islamic`, `Keywords`). The closed
  forms between day counts and Gregorian (ISO 8601:2004, section 3.2.1) and tabular Islamic dates, with the fixed-width
  arithmetic of the C++ code, refine counting one year and one month at a time. On top of them stand weekday-indexed
  dates, the week fields that `to_stream` prints (ISO 8601:2004, section 3.2.2) and their resolution in `from_stream`.
  `scan_keyword` is proved to be maximal munch.
* **FIX messages** (`FixGroups`, `FixReading`, `FixTree`, `FixSelfMerge`, `FixMergeValues`, `FixMergeShape`, `FixMergeNodes`,
  `FixMergePlaces`, `RuvTree`, `StartStop`, `MsgFixTree`). `FixGroups.Parse` divides a token list into leaves and group instances; it never looks at a tree.
  `FixReading` says, without it, what a right reading of a message is, and that there is exactly one division.
  `FixTree.Merge` says what reading the items into a slot does to a tree. The heap methods `Rmake`, `Ssmake` and
  `MsgFixRmake` are proved to do exactly that, in place. Conservation, shape, frame and self-merge are proved of the two
  functions, for every group table, tree and depth.
* **Tag/value reader** (`TvpTable`, `TvpScanner`, `TvpReader`, `TvpWriter`). The index table of any tag list, the
  branchless clip, the table-driven number reader, the incremental scanner and the position cache together answer like a
  rescan of the message, and read back what the writer wrote.
* **Host name patterns and string distance** (`PatternMatch`, `Levenshtein`). `pattern_match` (RFC 2818, section 3.1)
  decides a declarative relation; `levenshtein_distance` is characterised by edit scripts.

`Wrappers` holds the option type that stands for the stream fail bit, null pointers and missing results.
`dafny verify dfyconfig.toml` checks the whole project. The verifier checks the models; none of the modelled code is part
of the project.

## What the code does differently from what one might expect

* `from_stream` accepts ISO week 53 in a year of 52 weeks (it becomes week 1 of the next year, `EveryIsoWeekAccepted`) and
  day 366 of a common year (it becomes 1 January of the same year, `EveryDayOfYearAccepted`); `ResolvedAgrees` says exactly
  when the fields agree with the result. A lone `%G` or `%V` is not looked at beside `%U` or `%W` (`LoneIsoFieldIgnored`), a
  lone `%j` never (`LoneDayOfYearIgnored`), and month and day without a year resolve in the year 0 (`MissingYearIsYearZero`).
* `%V` is -3419451 for 1 and 2 January of the first valid year, whose ISO year is looked up in the last December
  (`TrialWeek`, `FormatV`).
* `from_days` outside the valid years still returns a date; its year is stored as a short (`FromDaysThenToDays` is the
  exact condition for coming back).
* `levenshtein_distance` is not the edit distance: its first row and column are zero, so a leading part of either string
  is free (`DistanceIsLeastCost`, `ZeroIsSuffix`).
* A merge into its own tree does not leave equal slots when a tag is repeated at the top level of the message
  (`SelfMerge`, `RepeatedTagDisagrees`), and a repeated top-level tag displaces the earlier value in a merge
  (`MergeConserves`, `RepeatedTagLoses`).
* Where the nodes of one counter are apart in the tree, a merge inserts the node of a further instance in front of an
  older one, so that the instances change places (`LastNodeStaysLast`, `InstancesSwap`).
* The value that a counter has in a merged message is dropped when the node of the instance is there already
  (`CountersKept`).
* A numeric tag beyond the range of `int` is kept modulo 2^32 (`TagIsExactIffSmall`, `LargeTagIsMistaken`), and positions and lengths of values
  modulo 2^16 (`LookupInLongMessage`, `LongValueIsLost`).

## Model

| member | source | states |
|---|---|---|
| Gregorian.ToDaysCountsDays | HowardHinnant_date/include/date/date.h:2748-2762 | `to_days` equals the naive sum of year and month lengths from 1970-01-01, for every stored year, every month and every day field, also 0 and days past the end of the month |
| Gregorian.YearsClosedForm | HowardHinnant_date/include/date/date.h:2760 | the days before a year, summed one year at a time with `is_leap`, have the closed form 365y + y/4 - y/100 + y/400 |
| Gregorian.YearOfEraCorrect | HowardHinnant_date/include/date/date.h:2870 | the chain of divisions by 1460, 36524, 146096 and 365 finds the year of the era that contains the day |
| Gregorian.FromDaysCounts | HowardHinnant_date/include/date/date.h:2861-2877 | for every count whose first addition does not overflow, `from_days` gives the month and day of the date that is counted, and its year as a short; every intermediate is in the range written beside it |
| Gregorian.CountingIncreases | HowardHinnant_date/include/date/date.h:2748-2762 | a calendar date that is earlier field by field is counted earlier |
| Gregorian.LessIsDayOrder | HowardHinnant_date/include/date/date.h:2804-2814 | `operator<` on valid dates is the order of their day counts, in both directions |
| Gregorian.LessIsLexicographic | HowardHinnant_date/include/date/date.h:2804-2814 | `operator<` is the lexicographic order of year, month and day, on dates that are not valid, too |
| Gregorian.FromDaysThenToDays | HowardHinnant_date/include/date/date.h:2861-2877 | a count comes back, through a valid date, if and only if it lies between the first and the last valid date |
| Gregorian.ToDaysThenFromDays | HowardHinnant_date/include/date/date.h:2781-2786 | every valid date comes back unchanged from its day count |
| Gregorian.NextDayIsNextCount | HowardHinnant_date/include/date/date.h:2528-2539 | the calendar successor of a valid date is valid, is one count later, and is what `from_days` gives for that count |
| Gregorian.RangeEnds | HowardHinnant_date/include/date/date.h:421-422 | the first and last valid date are the counts -12687428 and 11248737 |
| Weekdays.FromDayCountIsResidue | HowardHinnant_date/include/date/date.h:1734-1738 | for every 32-bit count, negative ones through 2^32 = 4 modulo 7 included, the weekday is the Euclidean (z + 4) mod 7 |
| Weekdays.FromDayCountSignedIsResidue | HowardHinnant_date/include/date/islamic.h:1193-1197 | the signed formula gives the same residue wherever its addition does not overflow |
| Weekdays.WeekdaysAdvance | HowardHinnant_date/include/date/date.h:1816-1831 | weekdays advance with the count under `operator+`, forwards and backwards, and `operator-` gives the days between modulo 7 |
| Weekdays.FromDaysNearMonth | HowardHinnant_date/include/date/date.h:2861-2877 | near a month `from_days` finds its year and month exactly for the days inside it |
| Weekdays.IndexedRoundTrip | HowardHinnant_date/include/date/date.h:3036-3066 | for every storable weekday-indexed date with a valid year, the way through day counts gives it back if and only if it is `ok()` |
| Weekdays.DayRoundTrip | HowardHinnant_date/include/date/date.h:3050-3066 | every representable day becomes a valid indexed date that converts back to it |
| Weekdays.LastWeekdayIsLast | HowardHinnant_date/include/date/date.h:3239-3243 | the result is a day of the month on that weekday, and seven days later is another month |
| WeekDates.WeekOneStartCorrect | HowardHinnant_date/include/date/date.h:5571-5577 | Monday after the last Thursday of the previous December is the Monday of the week with the first Thursday of the year |
| WeekDates.IsoYearByStart | HowardHinnant_date/include/date/date.h:5108-5112 | the week of a day has its Thursday in a year exactly when the day lies between that year's first ISO Monday and the next one |
| WeekDates.IsoYearIsYear | HowardHinnant_date/include/date/date.h:5104-5112 | the computed year contains the Thursday of the week, and is at most one away from the year of the date |
| WeekDates.FormatG | HowardHinnant_date/include/date/date.h:5104-5114 | `%G` fails exactly on invalid dates and is the year of the week's Thursday for every valid date |
| WeekDates.FormatV | HowardHinnant_date/include/date/date.h:5563-5583 | `%V` fails exactly on invalid dates; for valid ones it is the number of Thursdays of the ISO year so far, counted one by one and from 1 to 53, if and only if the date is not one of the first two valid dates, for which -3419451 is printed |
| WeekDates.IsoWeekByStart | HowardHinnant_date/include/date/date.h:5570-5579 | for every date but those two the week number is at most the number of weeks of the ISO year, which is 52 or 53 |
| WeekDates.TrialWeek | HowardHinnant_date/include/date/date.h:5570-5579 | the year that both cases settle on is the ISO year of every valid date; the quotient is the ISO week for all dates but the first two, and -3419451 for these |
| WeekDates.IsoYearRange | HowardHinnant_date/include/date/date.h:5108-5112 | the ISO year of a valid date always fits a short, and is a valid year exactly from the third valid date on |
| WeekDates.CountDaysClosedForm | HowardHinnant_date/include/date/date.h:5531 | counting the days on a weekday one by one gives a division by 7 |
| DateFields.FormatWeekOfYear | HowardHinnant_date/include/date/date.h:5521-5535 | `%U` (and `%W`, lines 5646 to 5660) is the number of Sundays (Mondays) of the year so far, counted one by one, 0 before the first |
| DateFields.IsoWeekRoundTrip | HowardHinnant_date/include/date/date.h:7448-7452 | ISO year, week and weekday of a valid date lead `from_stream` back to that date if and only if it is not one of the first two valid dates |
| DateFields.IsoTrialIsInWeek | HowardHinnant_date/include/date/date.h:7448-7466 | the valid date computed from a week date is in the named week if and only if the ISO year has that week, and is on the named weekday in any case |
| DateFields.WeekOfYearRoundTrip | HowardHinnant_date/include/date/date.h:7467-7471 | year, `%U` or `%W` and weekday give the date back, week 00 included |
| DateFields.WeekTrialIsInWeek | HowardHinnant_date/include/date/date.h:7486-7490 | a trial date that stays in its year has the week number and weekday it was computed from |
| DateFields.DayOfYearRoundTrip | HowardHinnant_date/include/date/date.h:7505-7507 | `%j` is the day plus the lengths of the months before, is between 1 and the length of the year, and gives the date back |
| DateFields.WeekdayRoundTrip | HowardHinnant_date/include/date/date.h:5482-5496 | `%u` counts the days from Monday on, from 1 to 7, and `from_stream` (lines 6414 to 6424) reads the weekday back |
| DateFields.Resolve | HowardHinnant_date/include/date/date.h:7445-7565 | the stages of the resolution, with their early exits, compute the one-expression form that the following lemmas are about |
| DateNames.ResolvedIffNamed | HowardHinnant_date/include/date/date.h:7445-7565 | for all fields and every value: fields resolve to a date exactly when they name it, that is, when it is what the stages leave (the date of the week fields or of the day of the year, with year, month and day that were read, or these as they were read with 0 for the missing ones) and, if valid, agrees with weekday and week fields; fields that name nothing are refused |
| DateNames.IncompleteDateKept | HowardHinnant_date/include/date/date.h:7518-7565 | year, month and day that are not a valid date are handed on as they were read, a missing month or day as 0 |
| DateFields.ResolvesToDate | HowardHinnant_date/include/date/date.h:7445-7565 | any fields that agree with a valid date and suffice to name one resolve to that date; the exact exception is the ISO week of one of the first two dates read without ISO year and without a date computed from week fields, which is refused |
| DateFields.ResolvedAgrees | HowardHinnant_date/include/date/date.h:7445-7565 | a valid date that is resolved agrees with year, month, day, weekday and the Sunday and Monday weeks that were read; with ISO year and week exactly when the ISO year has the week, if they gave the date, and always if no week fields did; with the day of the year exactly when the year has the day; without a year the day of the year has no influence |
| DateFields.LoneIsoFieldIgnored | HowardHinnant_date/include/date/date.h:7525-7548 | an ISO year or ISO week read alone has no influence once Sunday or Monday weeks gave the date |
| DateFields.LoneDayOfYearIgnored | HowardHinnant_date/include/date/date.h:7505 | a day of the year has no influence when there is no year |
| DateFields.EveryIsoWeekAccepted | HowardHinnant_date/include/date/date.h:7448-7466 | ISO year, week and weekday alone always resolve, to the day counted on from the first ISO week, which is a valid date exactly if it lies between the first and the last valid day: the Monday of its week is the first ISO Monday and as many weeks as were read; week 53 of a year of 52 weeks is week 1 of the next year |
| DateFields.EveryDayOfYearAccepted | HowardHinnant_date/include/date/date.h:7505-7517 | year and day of the year alone always resolve, in that year, to month and day of the day counted on from the first: the day after the last one is 1 January of the same year |
| DateFields.InverseNearYear | HowardHinnant_date/include/date/date.h:7450-7452 | near a valid year a day that becomes a valid date is the day of that date, in spite of the storage of years as shorts |
| DateNames.MissingYearIsYearZero | HowardHinnant_date/include/date/date.h:7518-7564 | without a year, month and day are resolved in the year 0, and accepted exactly when that date is invalid or agrees with all week fields |
| Islamic.LeapTermCounts | HowardHinnant_date/include/date/islamic.h:1052-1074 | the term (11(yoe+1)+3)/30 counts exactly the earlier leap years in the list of `is_leap` |
| Islamic.YearStep | HowardHinnant_date/include/date/islamic.h:2154 | the closed form for the days before a year grows by exactly that year's length, eras included |
| Islamic.ToDaysCountsDays | HowardHinnant_date/include/date/islamic.h:2142-2156 | `to_days` equals the naive sum of year and month lengths from the epoch, for every day field |
| Islamic.YearOfEraCorrect | HowardHinnant_date/include/date/islamic.h:2261 | (30 doe + 10646)/10631 - 1 is the year of the era that contains the day |
| Islamic.MonthOfYearCorrect | HowardHinnant_date/include/date/islamic.h:2264 | (11 doy + 330)/325 is the month that contains the day |
| Islamic.FromDaysCounts | HowardHinnant_date/include/date/islamic.h:2252-2267 | `from_days` names the day that is counted, with all intermediates in their ranges |
| Islamic.FromDaysThenToDays | HowardHinnant_date/include/date/islamic.h:2252-2267 | a count comes back, through a valid date, if and only if its year fits a short |
| Islamic.ToDaysThenFromDays | HowardHinnant_date/include/date/islamic.h:2142-2156 | every valid date comes back unchanged from its day count |
| Keywords.ScanKeyword | HowardHinnant_date/include/date/date.h:4694-4796 | maximal munch: exactly the longest prefix of the input that begins some keyword, ignoring case, is consumed; the result is the first keyword it spells out, and the stream fails exactly when there is none; the end of the input is met exactly when nothing follows and some keyword would go on |
| Keywords.UpperIgnoresCase | HowardHinnant_date/include/date/date.h:4737-4750 | two characters have the same upper case exactly when they are the same but for the case of a letter |
| Keywords.Initialize | HowardHinnant_date/include/date/date.h:4712-4726 | empty keywords match at once; both counters are the counts of their statuses |
| Keywords.TestKeywords | HowardHinnant_date/include/date/date.h:4745-4766 | each status moves by the next character alone; a character is consumed exactly when some keyword goes on with it; both counters stay the counts |
| Keywords.DropStale | HowardHinnant_date/include/date/date.h:4774-4785 | keywords matched on an earlier character no longer match; both counters stay the counts |
| Keywords.Iterate | HowardHinnant_date/include/date/date.h:4739-4786 | one iteration keeps the invariant that statuses describe the consumed characters, and consumes exactly when some keyword begins with one more of them |
| Keywords.NothingStale | HowardHinnant_date/include/date/date.h:4774 | the test on the two counters is safe: when at most one status is live, nothing would have to be dropped |
| PatternMatch.PatternMatch | net/mam/openssl.c:628-652 | terminates and is true if and only if the string is the pattern with every `*` replaced by some run without dots, other characters compared ignoring case |
| PatternMatch.MatchStar | net/mam/openssl.c:633-645 | the branch for `*`, with its early exit on a dot, decides the match of the remaining pattern and string |
| PatternMatch.MatchesIsStepwise | net/mam/openssl.c:614-619 | replacing all asterisks at once and matching one character at a time are the same relation |
| PatternMatch.PlainPatternIsEquality | net/mam/openssl.c:625-626 | without wildcards the match is equality ignoring case |
| PatternMatch.LowerIgnoresCase | net/mam/openssl.c:646-650 | two characters have the same lower case exactly when they are the same but for the case of a letter |
| PatternMatch.MatchKeepsComponents | net/mam/openssl.c:619-623 | a match has as many dots as its pattern: a wildcard stays within one domain name component |
| Levenshtein.LevenshteinDistance | pbx_levenshtein.h:5-46 | the in-place table computes the cell recursion that the following lemmas are about |
| Levenshtein.FillRow | pbx_levenshtein.h:15-27 | one row is filled, and nothing else of the table is disturbed |
| Levenshtein.GreedyIsFullMinimum | pbx_levenshtein.h:17-26 | taking the diagonal on equal characters is the full three-way minimum |
| Levenshtein.DistanceIsLeastCost | pbx_levenshtein.h:11-28 | the result is the least cost of an edit script between one string and a suffix of the other |
| Levenshtein.DistanceAtMostEditDistance | pbx_levenshtein.h:11-28 | it is at most the cost of any script between the whole strings |
| Levenshtein.DistanceSymmetricAndBounded | pbx_levenshtein.h:5-46 | it is symmetric and at most the shorter length |
| Levenshtein.ZeroIsSuffix | pbx_levenshtein.h:11-28 | it is zero if and only if one string ends with the other |
| FixGroups.ParseConserves | tst_ruv.cpp:260-373 | the division reads the whole message, and its leaves are exactly the tokens that are not counters, in order, each once, for every group table and depth |
| FixGroups.ParseKeepsLeaves | tst_ruv.cpp:266-372 | the same for every activation and the tokens that it consumes |
| FixGroups.ParseShapes | msgfix.cpp:171-208 | in a group instance all tags belong to the counter's set, leaf tags are distinct, and instances of one inner counter form one run |
| FixGroups.Parse | tst_ruv.cpp:266-280 | an activation ends within the message and, entered on a tag that it takes, consumes at least one token |
| FixReading.DivisionIsRight | tst_ruv.cpp:266-346 | from every position: a right reading exists, and every right reading has the items and the end of the division. A reading is right when an instance takes members only, each tag once, and ends exactly at the end of the message, at a tag that is no member or at one that it has taken; when a counter followed by a member opens instances, and they go on exactly as long as members follow; and when no other counter opens any |
| FixReading.FlatInstance | tst_ruv.cpp:269-280 | an instance of a group without inner counters is the longest stretch of members with different tags, and its items are these tokens |
| FixReading.CounterOpensInstance | tst_ruv.cpp:285-296 | a counter that is followed by a member of its group opens an instance, whatever surrounds it |
| FixTree.InsertPosition | tst_ruv.cpp:308-328 | the computed insert position is within bounds |
| FixTree.RefStep | tst_ruv.cpp:309-324 | the running counters `ref` and `count` follow the siblings passed so far |
| FixTree.NthIsCount | tst_ruv.cpp:313-320 | the n-th instance is the node with n - 1 nodes of its tag before it |
| FixTree.BuildAppends | tst_ruv.cpp:301-305 | building in slot 0 appends the tree of the tokens, whatever is there already |
| FixTree.BuiltTree | tst_ruv.cpp:260-373 | the tree built in slot 0 has the tokens that are not counters as its leaves, in order, each once, and the prescribed shape; node by node it shows the division: the tag, the value of a leaf and of every instance, in slot 0 and no other |
| FixTree.MergeExtends | tst_ruv.cpp:306-370 | a merge into slot k > 0 changes no other slot of any node, keeps all nodes with their order at every level, and gives new nodes slot k only |
| FixTree.ExtendsTransitive | tst_ruv.cpp:306-370 | the frame of two merges into one slot is a frame again |
| FixSelfMerge.SelfMerge | tst_ruv.cpp:260-373 | merging a message into its own tree adds no node and touches no other slot; slots 0 and k agree at every leaf if and only if top-level leaves with one tag are unique or all empty |
| FixSelfMerge.SelfMergeOfItems | tst_ruv.cpp:260-373 | the same for any division of tokens into leaves and instances |
| FixSelfMerge.MergeOwnItems | tst_ruv.cpp:306-370 | after the first d items exactly their nodes have been found again, at every depth |
| FixSelfMerge.OnlyTopConflicts | tst_ruv.cpp:269-280 | inside group instances the condition always holds |
| FixSelfMerge.RepeatedTagDisagrees | tst_ruv.cpp:354-369 | a message with tag 58 twice at the top level, with different values, for which the slots disagree |
| FixMergeValues.MergeConserves | tst_ruv.cpp:306-370 | a message merged into an empty slot of any tree: the slot holds values of that message only, each at most as often as sent, and all of them if and only if no top-level value is displaced by a later token with its tag |
| FixMergeValues.MergeConservesItems | tst_ruv.cpp:306-370 | the same for any division of tokens into leaves and instances |
| FixMergeValues.RepeatedTagLoses | tst_ruv.cpp:354-369 | the same message, whatever the tree: the slot holds the second value and has lost the first |
| FixMergeValues.MergeLeaves | tst_ruv.cpp:354-369 | the slot holds, over the whole tree, what is left of the items when every leaf displaces the earlier value of its tag on its level, and nothing else |
| FixMergeValues.EveryMessageIsHeld | tst_ruv.cpp:681-699 | over any run of merges every slot holds its own message, in the sense of MergeConserves, and unused slots stay empty |
| FixMergeValues.ExtendsKeepsValues | tst_ruv.cpp:306-370 | a merge leaves the values of every other slot as they are |
| FixMergeShape.MergeKeepsShape | tst_ruv.cpp:306-370 | merging a message into any tree of the prescribed shape keeps the shape at every depth |
| FixMergeShape.InsertExtendsRun | tst_ruv.cpp:308-328 | a new instance is inserted directly behind the run of earlier instances of its counter |
| FixMergeShape.EveryTreeIsShaped | tst_ruv.cpp:681-699 | every tree that a run of merges makes has the shape that the group table prescribes |
| FixMergeNodes.MergeItemIsPut | tst_ruv.cpp:300-333 | for any tree: an instance is read into the node of its number; a node that is there keeps all its values, a new one has the counter's value in the slot and no other |
| FixMergeNodes.MergedNodes | tst_ruv.cpp:306-333 | if for every counter the nodes are next to each other or there is one for every instance, the n-th instance is read into the n-th node, below which its body is merged |
| FixMergeNodes.CountersKept | tst_ruv.cpp:316-328 | for any tree: the nodes of a counter keep their own values, and as many are added as there are further instances, with the counter's values of just these; the value that comes with an instance whose node is there is dropped |
| FixMergeNodes.ItemSiblings | tst_ruv.cpp:306-369 | for any tree: reading an item keeps the tags of the siblings in their order if there is a node for it; otherwise exactly one is added, behind all siblings when the tag is new, and otherwise as many places behind the first node with the tag as there are such nodes, which is the end of their run when they are one |
| FixMergePlaces.LastNodeStaysLast | tst_ruv.cpp:308-328 | if the nodes of a counter are apart and there are more instances than nodes, the node with the number of the last instance holds the values of the one numbered like the nodes before |
| FixMergePlaces.MergeInPlace | tst_ruv.cpp:306-370 | for any division of tokens: every value is in its place, at every depth, if on every level the nodes of every counter are next to each other or numerous enough; and only then, unless two instances of one counter have the same values |
| FixMergePlaces.MergePlaces | tst_ruv.cpp:306-370 | every value is in its place, at every depth (the body of the n-th instance of a counter below its n-th node, the last value of a leaf tag in the first node with the tag, and nothing else), for any tree of the prescribed shape, if the top-level nodes of every counter are next to each other or there is one for every top-level instance; and only then, unless two of these instances have the same values |
| FixMergePlaces.InstancesSwap | tst_ruv.cpp:308-328 | two messages for which it fails: counter 9 twice with another field between, then three instances of it; the third node ends up with the second instance |
| RuvTree.Ruv.constructor | tst_ruv.cpp:139-142 | a new node has its value in one slot and no children |
| RuvTree.Ruv.SetVal | tst_ruv.cpp:191-195 | one slot is overwritten, the rest of the node stays |
| RuvTree.Ruv.PushBack | tst_ruv.cpp:164-167 | the child is appended behind the others |
| RuvTree.Ruv.Insert | tst_ruv.cpp:168-171 | the child is inserted, the others keep their order |
| RuvTree.Ruv.FindInstance | tst_ruv.cpp:308-324 | the search finds the n-th sibling with the tag, or the insert position when there is none |
| RuvTree.Ruv.SetLeaf | tst_ruv.cpp:349-368 | slot idx of the first sibling with the tag is set, or a node appended |
| RuvTree.Ruv.PlaceInstance | tst_ruv.cpp:300-330 | the node of the n-th instance is found or created at the insert position |
| RuvTree.Rmake | tst_ruv.cpp:260-373 | on the heap, in place: the position returned depends on the tokens alone, and the tree becomes the merge of the divided tokens |
| RuvTree.RmakeGroup | tst_ruv.cpp:289-341 | the inner loop reads the remaining instances and leaves the rest of the activation as it was |
| RuvTree.RmakeInstance | tst_ruv.cpp:296-334 | one turn reads one instance below the node of its number |
| RuvTree.RmakeKid | tst_ruv.cpp:332-334 | the recursive call changes its own node only |
| RuvTree.BuildAndMerge | tst_ruv.cpp:681-699 | two messages: each slot holds its own message, the first message keeps its nodes in order, the tree has the prescribed shape, and the values of the second message are in their places under the condition of MergePlaces, and only then |
| StartStop.Ssmake | tst_ruv.cpp:384-486 | on the heap, in place: the position returned depends on the tokens alone, and the tree becomes the merge of the divided tokens |
| StartStop.SsmakeGroup | tst_ruv.cpp:404-454 | the inner loop makes exactly one turn: its recursive call ends at the stop tag or at the end of the message |
| StartStop.BuiltTreeKeepsMessage | tst_ruv.cpp:384-486 | preorder over the built tree is the message without the start tags that are followed by their own stop tag, also with unclosed groups and groups nested in their own kind |
| StartStop.StopDivisionIsRight | tst_ruv.cpp:390-459 | from every position: a right reading exists, and every right reading has the items and the end of the division; a group is read up to the first own token with its stop tag, whatever the value, or to the end of the message |
| StartStop.GroupEndsAtStop | tst_ruv.cpp:393-396 | a group ends in front of its stop tag or at the end of the message and has no item with that tag at its own level; the outermost level ends with the message |
| StartStop.ParseKeepsTokens | tst_ruv.cpp:390-485 | the same for every activation and the tokens that it consumes |
| StartStop.StartStopSelfMerge | tst_ruv.cpp:384-486 | merging a message into its own tree adds no node, and the slots agree at every leaf if and only if leaves of one level with one tag are unique or all empty |
| StartStop.StartStopConserves | tst_ruv.cpp:420-483 | a message merged into an empty slot is held as with repeating groups |
| StartStop.StartStopPlaces | tst_ruv.cpp:414-483 | a message merged into an empty slot of any tree: every value is in its place if on every level the nodes of every start tag are next to each other or numerous enough; and only then, unless two groups of one start tag have the same values |
| MsgFixTree.MsgFixRmake | msgfix.cpp:163-225 | on the heap: the tree of the divided tokens is appended below the node, and the position depends on the tokens alone |
| MsgFixTree.MakeGroup | msgfix.cpp:198-215 | the inner loop appends one node for every instance |
| MsgFixTree.BuiltTree | msgfix.cpp:163-225 | flagged nodes are the tokens that are not counters, in order, each once, with nothing below them; below a counter are members of its group only, with distinct leaf tags and inner instances in runs; node by node the tree shows the division |
| MsgFixTree.MsgFix.constructor | msgfix.h:56-60 | a new node with its flag, tag and value |
| TvpTable.MapTable | constexpr/tvp.h:54-68 | the table filled in two loops holds, for every tag between the bounds, its index in the list |
| TvpTable.IndexIsPerfect | constexpr/tvp.h:101-132 | for any list of tags the index is nonzero exactly on the listed ones, at most the number of entries, and different for different tags |
| TvpTable.IndexCounts | constexpr/tvp.h:54-68 | the index is the number of different tags in front of the first occurrence, plus one |
| TvpTable.ClipIsExact | constexpr/tvp.h:87-93 | every tag between the bounds goes to its own table entry, every other int to entry 0 |
| TvpTable.LookupIsIndex | constexpr/tvp.h:94-99 | for every int the clipped table lookup is the index |
| TvpTable.DigitIndex | constexpr/tvp.h:169 | `numeric_t` is nonzero exactly on digits and at most 10 |
| TvpScanner.Fatoi | constexpr/tvp.h:204-212 | the sum over the table of powers is the decimal value, for texts of up to 16 digits |
| TvpScanner.DecimalOfNumeral | constexpr/tvp.h:204-212 | the decimal value of every number, written with the digits 0 to 9, is the number |
| TvpScanner.NumCheckStep | constexpr/tvp.h:239-243 | the running 64-bit product of digit indices is zero exactly when some character was not a digit, up to 16 digits |
| TvpScanner.Step | constexpr/tvp.h:224-275 | one incremental step is the search for `=` and then for the separator, with the tag value and the three exceptions |
| TvpScanner.StepMeans | constexpr/tvp.h:224-275 | a field `tag=value` with its separator: the value is what lies between, an empty one throws, the tag is the number written in front and 0 if a character is no digit |
| TvpScanner.StepThrows | constexpr/tvp.h:224-275 | without `=` or without separator the step throws, at the end of the message |
| TvpScanner.TagIsExactIffSmall | constexpr/tvp.h:250-254 | a numeric tag text is kept as its value if and only if it fits an int |
| TvpScanner.LargeTagIsMistaken | constexpr/tvp.h:253 | the text 4294967331 is kept as tag 35 |
| TvpReader.Reader.constructor | constexpr/tvp.h:305-307 | a new reader has an empty cache |
| TvpReader.Reader.Set | constexpr/tvp.h:347-360 | the content is the buffer or the buffer without its last seven characters, the latter exactly when separator 1 and `10=` stand eight characters before the end |
| TvpReader.Reader.GetPair | constexpr/tvp.h:308-341 | the value is that of a rescan of the whole message, whatever was requested before |
| TvpReader.Reader.Remember | constexpr/tvp.h:324-330 | the cache holds the last position of every accepted tag after one more field |
| TvpReader.GetPairs | constexpr/tvp.h:308-341 | any sequence of requests is answered as if each were the only one |
| TvpReader.LookupIsValue | constexpr/tvp.h:289-300 | in well-formed messages of at most 65535 characters the rescan gives the value of the last field with the tag, or nothing |
| TvpReader.LookupInLongMessage | constexpr/tvp.h:281-283 | in well-formed messages of any length the text read starts and ends at the stored position and length modulo 2^16, and is the value if and only if the length fits 16 bits and either the position does, too, or the same text stands where the reading starts |
| TvpReader.LongValueIsLost | constexpr/tvp.h:328 | a value of 65536 characters is read as the empty one |
| TvpReader.FieldsInside | constexpr/tvp.h:224-275 | every field found lies inside the message and is not empty |
| TvpWriter.Write | constexpr/tvp.h:382-392 | the output is field 8 and then the pairs in order, each with its separator |
| TvpWriter.ScanOfWritten | constexpr/tvp.h:382-392 | a written message is well formed and its fields are the pairs in order; values may contain `=` |
| TvpWriter.LookupOfWritten | constexpr/tvp.h:308-341 | a lookup in a written message gives the last value written under that number |
| TvpWriter.TrimmedWritten | constexpr/tvp.h:350-356 | of a written message `set` cuts off exactly a last field 10 with three characters |
| TvpWriter.SurvivingPairs | constexpr/tvp.h:347-360 | what is left after the cut is again a written message |
| TvpWriter.WriteAndRead | constexpr/tvp.h:382-392 | write, set and any sequence of requests give back the last value written under each number, a trailer excepted; when all tags are numerals, this is the last pair with the numeral of the request |

## Left out

- DateFields.Resolve: covers fields as reading with the default field widths leaves them; wider `%m`, `%d`, `%V` or `%G` fields are not modelled.
- Weekdays.FromDayCountSignedIsResidue: not for the four largest counts, where the signed addition of the source overflows.
- Gregorian.FromDaysCounts: not for the counts where the signed addition of the source overflows; the same for Islamic.FromDaysCounts.
- TvpScanner.Fatoi: tag texts of more than 16 digits would be read outside the number table and are excluded by a precondition.
- TvpReader.LookupIsValue: for messages of at most 65535 characters; TvpReader.LookupInLongMessage has the exact condition for longer ones.
- TvpReader.Reader.Set: buffers of one to seven characters are excluded, since the source compares the eight characters before the end.
- RuvTree.Rmake: a message that ends with a group counter is excluded, since the token behind it is read; the same for Ssmake and start tags, and for MsgFixRmake.
- Two-digit years, centuries, 12-hour clocks, time of day, offsets, locales, field widths and padding in `to_stream` and `from_stream`; `%g`; only the computed date fields are modelled.
- The arithmetic operators on years and months, and the weekday-indexed dates of islamic.h, whose code repeats that of date.h.
- `toupper` and `c_tolower` are modelled on ASCII letters, other characters staying as they are; `peek` and `get` are modelled on a stream over a string.
- The allocation failure in `scan_keyword`, and the overflow of `n * m` in `levenshtein_distance`.
- Heap ownership and destructors of the trees, `_COUNT`, and display: nodes are objects with disjoint footprints that are never freed.
- Inner loops of the sources are methods of their own (`RmakeGroup`, `SsmakeGroup`, `MakeGroup`, `FillRow`, `MatchStar`, `TestKeywords`, `DropStale`); the fixed `std::array` of slot values is a sequence of fixed length.
- Splitting raw FIX text into tokens, and failures of the conversion of tags to numbers.
- Template arguments and compile-time checks of `intclipper` other than the properties that they check; tag lists with negative members do not compile.
- A difference that leaves the range of `int` in `clipTag` is taken to wrap around.
- Message checksums, sockets, timers, HTML, process and OS access, and the rest of net/mam/openssl.c.
