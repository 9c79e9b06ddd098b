# Calendars, orderings and small machines of zmax-core

A Dafny model of the parts of `zmax-core` whose correctness is an argument and not a reading:

- the arithmetic calendars of `calendar.rs`, each a closed form or an estimate followed by a search,
  proved to be a bijection with the dates that its leap rule and month table allow;
- the Hebrew calendar down to its fourteen kinds of year, and what `diary.rs` builds on them: the
  weekly portion, yahrzeits and birthdays;
- the wildcard matcher and the argument list of `arglist.rs`;
- the embedding levels and the visual order of `bidi.rs` (rule L2 in section 3.4 of UAX #9);
- the tokenizer and the argument parser of `command_line.rs`;
- the preprocessor conditionals of `cmode.rs`, found by two depth counters and by a stack machine;
- the unique names of `buffer_name.rs`.

Loops, searches and in-place rewriting in the source are methods with loops here, proved against
specification functions; closed forms are functions, and the lemmas are about both. `Arithmetic`
holds the truncating division and remainder of the source language, `Counting` the pigeonhole
principle, `Wrappers` the optional values and results. Check everything with `dafny verify dfyconfig.toml`.

How the parts build up:

- `Gregorian` is the base of `IsoWeek`, `Islamic`, `French`, `Persian`, `Bahai` and `Concordance`.
  A calendar's `Fixed` is the R.D. day number of a date, `IsDate` the dates that exist.
- `HebrewYear` holds the molad arithmetic and the case analysis over weekdays and parts,
  `HebrewDates` the months and the conversions, `ParashaTables` and `Parasha` the reading cycle,
  `ParashaWeeks` what is read on which date, `Anniversaries` yahrzeits and birthdays. That the readings
  go in order, which weeks are skipped and which portions are joined fixes every slot of the tables.
- `Glob` defines the meaning of a pattern (`Matches`) apart from what the matcher accepts
  (`Decides`), and compares the two.
- `Bidi` has the levels and neighbours, `BidiOrder` the reordering as a relation between the lowest
  level between two characters and their order.
- `Tokens` is the tokenizer as functions of a position, `CommandLine` the objects that advance,
  `TokenRoundTrip` and `Expansions` the writing and reading back, and `ArgumentLists` a grammar of the
  argument lists a signature accepts.
- `Concordance` names one day in every calendar, which pins the epochs to one another.

Where code and documentation disagree the model follows the code:

- The documentation of `hebrew_birthday` (zmax-core/src/diary.rs:1767-1775) promises the evening
  before the birthday as well. For a birth on 1 Tishri that evening is in the year before, and the
  code does not recognise it. `Anniversaries.HebrewBirthday` states the exact condition.
- `glob_match` tries a pattern's `*` as a literal first (zmax-core/src/arglist.rs:230), so a `*` in
  the text uses up the one in the pattern. `Glob.ExactOnTextsWithoutStars` states exactly which texts
  are safe, and `Glob.ExactOnPatternsWithoutStars` which patterns.
- `backward_conditional` reads line 0 of an empty file (zmax-core/src/cmode.rs:79-95), where its
  documentation promises an answer or none. `Conditionals.BackwardConditional` has that outcome, and
  states that it occurs for no other file.
- `hebrew_parasha` says that the fourteen keviot are exhaustive (zmax-core/src/diary.rs:1730). They are
  from year 1 on: in year 0, which the conversion still reaches, every Saturday falls through.
  `HebrewYear.RulesHoldFromYearOne`, `Parasha.TablesFromYearOne` and `HebrewDates.ConversionDomain` state
  exactly from when on the rules, the tables and the conversion hold.
- A flag that takes an argument and has none is an error (zmax-core/src/command_line.rs:915-917), but not
  in front of `--`, which is looked at first. `ArgumentLists.Allowed` has that as a case of its own.

## Model

| member | source | states |
|---|---|---|
| `Gregorian.DateRoundTrip` | zmax-core/src/calendar.rs:22-48 | Every date that exists, in any year, is the date computed back from its serial day. |
| `Gregorian.SerialRoundTrip` | zmax-core/src/calendar.rs:22-48 | Every integer is the serial day of the date computed from it. |
| `Gregorian.FromSerial` | zmax-core/src/calendar.rs:33-48 | The date computed for any integer exists: month 1 to 12, day within the month by the leap rule. |
| `Gregorian.FromSerialSteps` | zmax-core/src/calendar.rs:33-73 | The closed form refines the simple calendar: day `z + 1` is always the successor of day `z` under the month table and the leap rule, starting from 1970-01-01. |
| `Gregorian.SerialOfNext` | zmax-core/src/calendar.rs:22-30 | The successor of a date that exists also exists and has the next serial day. |
| `Gregorian.YearOfEraExact` | zmax-core/src/calendar.rs:36-38 | The three-correction division for the year of an era returns the year every day of that year was taken from, over all 400 years. |
| `Gregorian.YearOfEraBounds` | zmax-core/src/calendar.rs:36-39 | Every day of an era lies inside the year the division names, whose length follows the leap rule. |
| `Gregorian.EraIsFloor` | zmax-core/src/calendar.rs:24-36 | The era adjusted for negative years under truncating division is the floor of the division. |
| `Gregorian.SerialWithinYear` | zmax-core/src/calendar.rs:22-57 | A date lies between its New Year and the next one, and those are 365 or 366 days apart by the leap rule. |
| `Gregorian.YearOfSerial` | zmax-core/src/calendar.rs:33-48 | A day gets a year exactly when that year's New Years enclose it (if and only if). |
| `Gregorian.YearFitsInt32` | zmax-core/src/calendar.rs:33-48 | The computed year fits the 32 bits it is cast to exactly on the days -784353015833 to 784351576776; outside the cast wraps. |
| `Gregorian.RdBijection` | zmax-core/src/calendar.rs:273-280 | R.D. numbers and dates are in bijection, and the weekday (a truncating remainder shifted and reduced again) is the R.D. number modulo 7. |
| `IsoWeek.DateRoundTripsThroughWeek` | zmax-core/src/calendar.rs:143-152 | `date_from_iso` undoes `iso_week` for every date; weeks are 1 to 53 and weekdays 1 to 7. |
| `IsoWeek.WeekRoundTripsThroughDate` | zmax-core/src/calendar.rs:984-990 | `iso_week` undoes `date_from_iso` exactly on the weeks the year has: 53 when it starts on a Thursday, or is leap and starts on a Wednesday, else 52. |
| `IsoWeek.ThursdaysOfYear` | zmax-core/src/calendar.rs:143-152 | Counting by sevens from the first Thursday stays in the year exactly for as many weeks as the year has. |
| `IsoWeek.SerialOfWeekDate` | zmax-core/src/calendar.rs:984-990 | The day counted from January 4 is the one counted from the year's first Thursday. |
| `Julian.RoundTrip` | zmax-core/src/calendar.rs:287-333 | Every Julian date that exists is recovered from its day, with BCE years and no year 0. |
| `Julian.FromFixed` | zmax-core/src/calendar.rs:314-333 | The date computed for any integer day exists and has that day as its R.D. number. |
| `Julian.FixedOfNext` | zmax-core/src/calendar.rs:287-302 | The closed form steps with the leap rule and the month lengths, from the last day of year -1 to the first of year 1 too. |
| `Julian.YearOfDate` | zmax-core/src/calendar.rs:304-320 | The quotient of the cycle formula is the year of every date. |
| `Coptic.RoundTrip` | zmax-core/src/calendar.rs:365-391 | Every Coptic or Ethiopic date that exists is recovered from its day, whatever the epoch. |
| `Coptic.FromFixed` | zmax-core/src/calendar.rs:373-378 | The date computed for any integer day exists and has that day as its R.D. number. |
| `Coptic.FixedOfNext` | zmax-core/src/calendar.rs:365-371 | The closed form steps with the thirteenth month of five days, six in every fourth year. |
| `Coptic.EthiopicIsCoptic` | zmax-core/src/calendar.rs:380-391 | The two calendars name the same days, 276 years apart. |
| `HebrewYear.MoladIsLinear` | zmax-core/src/calendar.rs:426-437 | Splitting months by 1080 and parts by hours loses nothing: day and parts of the molad are one linear form in the months, in mixed radix. |
| `HebrewYear.MonthsElapsedStep` | zmax-core/src/calendar.rs:413-430 | The cycle formula adds thirteen months exactly in the years the leap rule names. |
| `HebrewYear.NextMolad` | zmax-core/src/calendar.rs:426-437 | From one molad of Tishri to the next the day and the parts move by a constant, with its carry, that depends only on the leap flag. |
| `HebrewYear.KeviahOfMolad` | zmax-core/src/calendar.rs:438-452 | Two consecutive moladot of any weekday and part, postponed by the four rules, give a year length and New Year weekday out of fourteen combinations. |
| `HebrewYear.KeviotExhaustive` | zmax-core/src/calendar.rs:413-452 | In every year from 1 on the New Year is never on Sunday, Wednesday or Friday, a common year has 353, 354 or 355 days and a leap year 383, 384 or 385, and weekday and length are one of exactly seven and seven combinations. |
| `HebrewYear.EveryKeviahOccurs` | zmax-core/src/diary.rs:1713-1732 | Each of the fourteen combinations is the kind of some year. |
| `HebrewYear.RulesHoldFromYearOne` | zmax-core/src/calendar.rs:413-452 | Every year from a given one on is one of the fourteen kinds if and only if that year is at least 1; year 0 is a leap year of 354 days that starts on a Thursday. |
| `HebrewDates.MonthsFillYear` | zmax-core/src/calendar.rs:451-471 | The month lengths, derived from the year length, sum to that year length. |
| `HebrewDates.SpringMonthStarts` | zmax-core/src/calendar.rs:461-489 | In every year the months from Nisan to Elul begin 0, 30, 59, 89, 118 and 148 days after 1 Nisan. |
| `HebrewDates.AutumnMonthStarts` | zmax-core/src/calendar.rs:461-489 | In every year 1 Tishri is the New Year, Heshvan begins 30 days later, Shevat 29 days after 1 Tevet, Adar 30 days after 1 Shevat, and Nisan 29 days after 1 Adar, or 59 with an Adar II that begins 30 days after it. |
| `HebrewDates.VaryingMonths` | zmax-core/src/calendar.rs:454-471 | Heshvan has 30 days exactly in years of 355 and 385 days, Kislev 29 exactly in years of 353 and 383. |
| `HebrewDates.ElulEnds` | zmax-core/src/calendar.rs:461-489 | The next New Year is 29 days after 1 Elul. |
| `HebrewDates.DateWithinYear` | zmax-core/src/calendar.rs:474-489 | A date that exists lies between its New Year and the next. |
| `HebrewDates.FixedInjective` | zmax-core/src/calendar.rs:474-489 | Two dates that exist on the same day are the same date. |
| `HebrewDates.FixedFromHebrew` | zmax-core/src/calendar.rs:474-489 | The loops over months, wrapping from the last month to Nisan, compute the day counted from the New Year through the months before. |
| `HebrewDates.HebrewFromFixed` | zmax-core/src/calendar.rs:492-509 | For every integer day both searches end; the result is a date the calendar counts if and only if the day is not before 1 Tishri of year 1, and then it is on that day and the only such date. |
| `HebrewDates.ConversionDomain` | zmax-core/src/calendar.rs:474-509 | Every day from a given one on converts to a month and a day of the month table and back if and only if that day is at least 1 Tishri of year -8, R.D. -1376703. |
| `HebrewDates.DateRoundTrip` | zmax-core/src/calendar.rs:474-509 | A date that exists is not before 1 Tishri of year 1, and its day converts back to it. |
| `HebrewDates.NewYearBound` | zmax-core/src/calendar.rs:492-496 | From year -8 on the estimate of the year is never too late, so the upward search cannot miss. |
| `ParashaTables.ReadInTurn` | zmax-core/src/diary.rs:1524-1671 | A table whose readings are never out of turn reads consecutive portions, starting over after the last, in the diaspora and in Israel. |
| `Parasha.PassoverBeforeNewYear` | zmax-core/src/diary.rs:1702-1703 | 15 Nisan is 163 days before the next New Year in every year. |
| `Parasha.KeviahServed` | zmax-core/src/diary.rs:1713-1732 | Each of the fourteen kinds selects a table with as many slots as the kind has Saturdays, whose readings go in turn to the portion due in the next year. |
| `Parasha.EveryYearServed` | zmax-core/src/diary.rs:1695-1732 | Every Hebrew year from 1 on selects a table, one that serves its kind. |
| `Parasha.TablesFromYearOne` | zmax-core/src/diary.rs:1713-1732 | No year from a given one on reaches the fallback arm if and only if that year is at least 1. |
| `Parasha.YearZeroFallsThrough` | zmax-core/src/diary.rs:1729-1731 | Year 0 reaches the fallback arm, which the comment there calls impossible. |
| `Parasha.SlotForEverySaturday` | zmax-core/src/diary.rs:1733-1736 | A Saturday's index is inside the table exactly when the Saturday is in the year: one slot for each, no slot unused. |
| `Parasha.HebrewParasha` | zmax-core/src/diary.rs:1695-1747 | For every civil date: a day other than Saturday has no entry; a Saturday from 1 Tishri of year 1 on gets the slot at its index in the table of its own Hebrew year; in year 0 there is no entry. |
| `Parasha.CycleUnbroken` | zmax-core/src/diary.rs:1524-1747 | Over any run of consecutive years each community reads the 53 portions in order: none is skipped, repeated or out of turn, across years of every kind and through combined, displaced and differing weeks. |
| `ParashaWeeks.ReadByDate` | zmax-core/src/diary.rs:1524-1747 | For every Saturday of every year from 1 on: nothing is read exactly on 1, 10 and 15 to 22 Tishri and 15 to 21 Nisan; only Israel reads exactly on 22 Nisan and 7 Sivan; portion 43 is read exactly on the Saturday on or before 9 Av; and a slot that tells the communities apart has different readings for them. |
| `ParashaWeeks.JoinedByYear` | zmax-core/src/diary.rs:1524-1747 | Two portions are read together on some Saturday of a year exactly if they are neighbours and one of seven rules, on the weekdays and the length of the year and on the community, joins them. |
| `ParashaWeeks.YearKept` | zmax-core/src/diary.rs:1713-1732 | The table a year selects keeps those rules for that year, week by week and pair by pair. |
| `Anniversaries.YahrzeitWithinYear` | zmax-core/src/diary.rs:1805-1827 | For every death date and year the yahrzeit is a real date of that Hebrew year: the same day where the year has it, else the day the Heshvan, Kislev and Adar rules put in its place. |
| `Anniversaries.HebrewYahrzeit` | zmax-core/src/diary.rs:1850-1858 | Any count returned is positive and leads to the day computed for that year. From year 1 on, the computed day of a later year is recognised if and only if it lies in that year; for a death date that exists it is recognised always, and no other day is. |
| `Anniversaries.YahrzeitDatesListed` | zmax-core/src/diary.rs:1831-1846 | Every year of the range is listed once, in order, with the civil date whose R.D. number is the yahrzeit. |
| `Anniversaries.BirthdayWithinYear` | zmax-core/src/diary.rs:1754-1765 | The birthday stays inside its Hebrew year, and opens it exactly when the birth was on 1 Tishri. |
| `Anniversaries.BirthdayIsDate` | zmax-core/src/diary.rs:1754-1765 | The birthday of a year is a real date: in the last month for a birth in the last month, otherwise the same day of the same month, or the first of the next month where there is no such day. |
| `Anniversaries.BirthdayAnnounced` | zmax-core/src/diary.rs:1776-1788 | In every later year the birthday is announced with its age and no other day is; the evening before is announced if and only if the birth was not on 1 Tishri. |
| `Anniversaries.NewYearEveMissed` | zmax-core/src/diary.rs:1767-1788 | For a birth on 1 Tishri the evening before is never announced, in any year. |
| `Anniversaries.EveMissedInSeptember2001` | zmax-core/src/diary.rs:1767-1788 | Born on R.D. 730393, 30 September 2000: the birthday on R.D. 730746 is announced and the evening before is not. |
| `Anniversaries.HebrewBirthday` | zmax-core/src/diary.rs:1776-1788 | The civil birth date, moved by a day after sunset, is converted, and the entry is the one for that Hebrew date; from year 1 on it is the announcement that BirthdayAnnounced describes. |
| `Islamic.LeapDaysStep` | zmax-core/src/calendar.rs:543-564 | The division by 30 counts exactly the years the leap rule names. |
| `Islamic.DateWithinYear` | zmax-core/src/calendar.rs:549-564 | A date that exists lies between its New Year and the next. |
| `Islamic.MonthStarts` | zmax-core/src/calendar.rs:549-564 | Months of 30 and 29 days take turns from the New Year on, and a year has 354 days, 355 when leap. |
| `Islamic.FixedInjective` | zmax-core/src/calendar.rs:561-564 | Two dates that exist on the same day are the same date. |
| `Islamic.FromFixed` | zmax-core/src/calendar.rs:566-581 | From the epoch on the low estimate and the search find the only date of a day; before it there is no date and none is returned. |
| `French.LeapDaysStep` | zmax-core/src/calendar.rs:709-740 | The closed form counts exactly the leap years, the five by decree and those by rule, on both sides of year 20. |
| `French.DateWithinYear` | zmax-core/src/calendar.rs:716-740 | A date that exists, in a month of 30 days or in the short thirteenth, lies between its New Year and the next. |
| `French.MonthStarts` | zmax-core/src/calendar.rs:716-740 | Months begin every 30 days, and a year has 365 days, 366 when leap. |
| `French.FixedInjective` | zmax-core/src/calendar.rs:727-740 | Two dates that exist on the same day are the same date. |
| `French.FromFixed` | zmax-core/src/calendar.rs:742-757 | From the epoch on the estimate and the searches find the only date of a day; before it there is no date and none is returned. |
| `Bahai.YearLength` | zmax-core/src/calendar.rs:806-815 | The intercalary days, taken as what a year between two Naw-Ruz days leaves over, are five exactly when the February inside the year is leap, else four. |
| `Bahai.MonthStarts` | zmax-core/src/calendar.rs:806-848 | The year begins on 21 March; eighteen months of nineteen days follow one another, then the intercalary days, and the last month takes the last nineteen days of the year. |
| `Bahai.FixedInjective` | zmax-core/src/calendar.rs:839-848 | Two dates that exist on the same day are the same date, with the intercalary days between months 18 and 19. |
| `Bahai.FromFixed` | zmax-core/src/calendar.rs:817-837 | For every integer day the estimate corrected both ways finds the only date of the day. |
| `Persian.LeapDaysStep` | zmax-core/src/calendar.rs:614-646 | The quotients of the closed form count exactly the years the leap rule names, in every year before and after the epoch. |
| `Persian.FixedFromYearStart` | zmax-core/src/calendar.rs:630-646 | A year before the first, moved into the cycle from year 1, starts where counting back across the missing year 0 puts it. |
| `Persian.MonthStarts` | zmax-core/src/calendar.rs:619-646 | In every year, before and after the epoch, six months of 31 days and five of 30 follow one another; the twelfth has 30 days in a leap year and 29 otherwise, and then the next year begins, 1 after -1. |
| `Persian.NeverWhole` | zmax-core/src/calendar.rs:614-617 | The leap fraction 683/2820 is never whole inside a cycle, which makes the closed form exact there. |
| `Persian.BlockYear` | zmax-core/src/calendar.rs:649-658 | Inside a 768-year block the one division names exactly the year whose days hold the given one. |
| `Persian.YearIndexFound` | zmax-core/src/calendar.rs:649-658 | Every integer day lies in the year named by cycles, blocks and division; the day 1029617 of a cycle is the only one that needs its correction. |
| `Persian.YearOfDay` | zmax-core/src/calendar.rs:649-663 | The year of a day is never 0 and its first day and that of the next year enclose the day. |
| `Persian.FixedInjective` | zmax-core/src/calendar.rs:630-646 | Two dates that exist on the same day are the same date. |
| `Persian.FixedFromPersian` | zmax-core/src/calendar.rs:630-646 | The accumulating loop and the recursive call for early years compute the day of the date. |
| `Persian.FromFixed` | zmax-core/src/calendar.rs:665-673 | For every integer day, before or after the epoch, the month search finds a date that exists, has that day, and is the only one. |
| `Mayan.LongCountBijection` | zmax-core/src/calendar.rs:874-890 | Every day is named by its long count with each digit in range; a long count is recovered from its day exactly when its digits are in range. |
| `Mayan.RoundPeriod` | zmax-core/src/calendar.rs:893-911 | A day and the days 18980, or any multiple of that, before and after carry the same haab and tzolkin. |
| `Mayan.RoundsApart` | zmax-core/src/calendar.rs:893-911 | Any two days that carry the same haab and tzolkin are a multiple of 18980 days apart. |
| `Mayan.NextHaab` | zmax-core/src/calendar.rs:914-925 | The nearest day strictly past the start, either way, with the haab date; the start itself if and only if no integer day has it. |
| `Mayan.NextTzolkin` | zmax-core/src/calendar.rs:928-939 | The nearest day strictly past the start, either way, with the tzolkin date; the start itself if and only if no integer day has it. |
| `Mayan.NextRound` | zmax-core/src/calendar.rs:943-953 | The nearest day strictly past the start, either way, with both dates; the start itself if and only if no integer day carries the pair. |
| `Mayan.PairOccurs` | zmax-core/src/calendar.rs:893-953 | Some day carries a haab and a tzolkin together if and only if both are in range and tzolkin name less haab day is 2 modulo 5. |
| `Mayan.NamesOfNextDay` | zmax-core/src/calendar.rs:874-911 | From one day to the next the long count goes on like an odometer, the haab by its months of 20 days and a last one of five, and the tzolkin by its number and its name together. |
| `Mayan.EndOfThirteenthBaktun` | zmax-core/src/calendar.rs:1917-1924 | R.D. 734858, 21 December 2012, is 13.0.0.0.0, 4 Ahau, 3 Kankin. |
| `Glob.GlobMatch` | zmax-core/src/arglist.rs:223-249 | The loop that remembers only its last star ends; what it accepts is a match by the meaning of `*` and `?`, and on a text without `*` it accepts exactly the matches. |
| `Glob.Sound` | zmax-core/src/arglist.rs:223-249 | What is accepted with a literal `*` tried first is always a match. |
| `Glob.Complete` | zmax-core/src/arglist.rs:223-249 | On a text without `*` every match is accepted. |
| `Glob.ExactOnTextsWithoutStars` | zmax-core/src/arglist.rs:230-233 | The matcher agrees with the meaning on all patterns if and only if the text has no `*`. |
| `Glob.StarInTextRefused` | zmax-core/src/arglist.rs:230-233 | `*?` means the text `*` and is refused: the star of the text is taken against the star of the pattern. |
| `Glob.RefusedPattern` | zmax-core/src/arglist.rs:230-233 | For every text with a `*` there is a pattern that means it and that is refused. |
| `Glob.ExactOnPatternsWithoutStars` | zmax-core/src/arglist.rs:230-236 | The matcher agrees with the meaning on all texts if and only if the pattern has no `*`. |
| `Glob.RefusedText` | zmax-core/src/arglist.rs:230-236 | For every pattern with a `*` there is a text that it means and that is refused. |
| `Glob.SegmentCommits` | zmax-core/src/arglist.rs:225-246 | Going back to the last star is enough: if a segment between stars matches early, any later start that leads to a match leaves a suffix the early one can reach too. |
| `Glob.SegmentEnds` | zmax-core/src/arglist.rs:225-248 | A segment that reaches the end of the text leaves only stars, if any later start would have matched. |
| `ArgLists.ArgList.Set` | zmax-core/src/arglist.rs:47-50 | The list is replaced and its first entry is current. |
| `ArgLists.ArgList.Add` | zmax-core/src/arglist.rs:55-64 | Names go in just after the current entry, which stays current; on an empty list the first is current. |
| `ArgLists.ArgList.AddAfter` | zmax-core/src/arglist.rs:70-78 | Names go in after the given entry, clamped to the list; a current entry stays current wherever they land. |
| `ArgLists.ArgList.DeleteRange` | zmax-core/src/arglist.rs:84-102 | A range, clamped and possibly empty, is cut out and counted; the current entry stays current unless it was in the range, and then the index is at most `line1`, as in the code, and clamped to the list. |
| `ArgLists.ArgList.Edit` | zmax-core/src/arglist.rs:106-118 | The file is current afterwards; the list is unchanged if it was already, otherwise the file goes in after the current entry and the rest is unchanged. |
| `ArgLists.ArgList.DeleteMatching` | zmax-core/src/arglist.rs:123-142 | Exactly the entries that no pattern matches are kept, in order; the first kept one from the current entry on is current, or the last when none is left. |
| `ArgLists.ArgList.Dedupe` | zmax-core/src/arglist.rs:145-156 | First occurrences are kept in order and the same name is current. |
| `ArgLists.ArgList.Next` | zmax-core/src/arglist.rs:161-168 | A step of `count`, at least one, is taken and reported, or nothing changes when it would pass the end. |
| `ArgLists.ArgList.Prev` | zmax-core/src/arglist.rs:171-178 | The same backwards. |
| `ArgLists.ArgList.First` | zmax-core/src/arglist.rs:181-184 | The first entry is current and reported, nothing on an empty list. |
| `ArgLists.ArgList.Last` | zmax-core/src/arglist.rs:187-190 | The last entry is current and reported, nothing on an empty list. |
| `ArgLists.ArgList.Goto` | zmax-core/src/arglist.rs:194-200 | The entry with the number is current and reported, or nothing changes when there is none. |
| `ArgLists.CurrentAfterKept` | zmax-core/src/arglist.rs:123-142 | The number of kept entries before the current index is the place of the first kept entry from there on. |
| `ArgLists.KeptMembers` | zmax-core/src/arglist.rs:123-142 | Exactly the entries that no pattern matches are kept. |
| `ArgLists.FirstOccurrencesOrder` | zmax-core/src/arglist.rs:145-156 | Removing duplicates keeps exactly the names there were, each once, ordered by first occurrence. |
| `BidiOrder.VisualPairs` | zmax-core/src/bidi.rs:264-298 | The visual order is a permutation, and of any two characters the logically first one comes first if and only if the lowest level between them is even. |
| `BidiOrder.PassReorders` | zmax-core/src/bidi.rs:276-296 | One reversal pass keeps the relation between levels and order, for one level lower. |
| `BidiOrder.PassesReorder` | zmax-core/src/bidi.rs:276-296 | All the passes down to a level establish that relation for that level. |
| `BidiOrder.RunIsBlock` | zmax-core/src/bidi.rs:264-298 | Every maximal logical run at or above any level fills one contiguous visual block. |
| `BidiOrder.SameLevelReadsByParity` | zmax-core/src/bidi.rs:264-298 | A run of one level reads ascending when the level is even and descending when it is odd. |
| `BidiOrder.ReverseRuns` | zmax-core/src/bidi.rs:280-295 | The in-place scan for runs and reversal of slices is one pass: every position of a run is mirrored in it, and no other moves. |
| `BidiOrder.Reorder` | zmax-core/src/bidi.rs:264-298 | The passes from the highest level down to the lowest odd one, in place, compute the visual order. |
| `Bidi.ComputeLevels` | zmax-core/src/bidi.rs:153-259 | The phases, each rewriting its array in place, compute the level the rules give each character from its surroundings. |
| `Bidi.ResolveMarks` | zmax-core/src/bidi.rs:158-169 | In place, a mark takes the resolved class of the character before it or of the paragraph. |
| `Bidi.ResolveNumbers` | zmax-core/src/bidi.rs:171-181 | In place, a European number becomes Arabic if and only if the last strong class before it, or the paragraph's, is right to left. |
| `Bidi.AssignLevels` | zmax-core/src/bidi.rs:183-229 | Letters and numbers get the levels of rules I1 and I2, numbers by the strong class before them; neutrals none. |
| `Bidi.FillNeutrals` | zmax-core/src/bidi.rs:231-258 | Filling runs gives every neutral the level its nearest levelled neighbours share, or else the paragraph's. |
| `Bidi.LevelParity` | zmax-core/src/bidi.rs:153-259 | Levels are between the paragraph's and 2; left-to-right letters and numbers are even, right-to-left letters odd, and a mark has the level of the character before it. |
| `Bidi.LevelsOfCharacters` | zmax-core/src/bidi.rs:183-229 | A left-to-right letter has level 0, or 2 in a right-to-left paragraph; a right-to-left letter has level 1; a number has level 2 if the last letter before it or the paragraph is right to left, else 0. |
| `Bidi.NeutralsBetween` | zmax-core/src/bidi.rs:231-258 | Neutrals, with the marks on them, between two other characters have the level of the two if they agree, else the paragraph's. |
| `Bidi.NeutralsAtEdge` | zmax-core/src/bidi.rs:231-258 | Neutrals that touch an edge of the line have the paragraph's level. |
| `Bidi.UniformLine` | zmax-core/src/bidi.rs:153-298 | A line of letters of the paragraph's own direction reads in logical order, or reversed. |
| `Bidi.NeighborsUndo` | zmax-core/src/bidi.rs:309-328 | A step to the visual neighbour is undone by the opposite step; from past the end of the line a step reaches an edge, which has nothing beyond it. |
| `Bidi.NeighborsPastEnd` | zmax-core/src/bidi.rs:310-319 | From past the end of a line the step back into it leads to the last character on the screen, or the first in a right-to-left paragraph, and the other step nowhere. |
| `Bidi.NeighborsAlongScreen` | zmax-core/src/bidi.rs:320-327 | From every screen position a step leads to the next position on its side, and stops only at the edge. |
| `Bidi.VisualNeighbor` | zmax-core/src/bidi.rs:309-328 | The neighbour is computed from the line's levels and order, and the opposite neighbour of the result is where the step started. |
| `Tokens.NextStep` | zmax-core/src/command_line.rs:681-727 | Every step but the end moves strictly forward and stays in the line, and the end comes only at the end of the line. |
| `TokenRoundTrip.QuotedRoundTrip` | zmax-core/src/command_line.rs:526-561 | Text with its quotes doubled comes back undoubled, closed, up to just past the closing quote, whatever follows that is not a quote. |
| `TokenRoundTrip.ListRoundTrip` | zmax-core/src/command_line.rs:526-727 | Any list of texts, each in single, double or backtick quotes with that quote doubled inside and blanks between, tokenizes without error to exactly those texts in order, of the right kinds and terminated. |
| `TokenRoundTrip.BalancedRoundTrip` | zmax-core/src/command_line.rs:640-675 | Text whose delimiters balance is read through to the closing delimiter of its level. |
| `TokenRoundTrip.BalancedBodyWhole` | zmax-core/src/command_line.rs:567-675 | An expansion of any kind with a body that balances its own delimiters is one terminated token with that body, whatever follows. |
| `TokenRoundTrip.WordRoundTrip` | zmax-core/src/command_line.rs:481-520 | Text with its blanks escaped is read back whole up to where it ends, unless a backslash stands in front of what follows: then it is cut short or read too far. |
| `TokenRoundTrip.PlainWordStep` | zmax-core/src/command_line.rs:481-727 | A word with its blanks escaped is one token with the word as content if and only if it is not empty, does not start with a quote or a percent sign and, on Unix, neither ends in a backslash nor starts with an escaped quote or percent sign; elsewhere it must have no blanks, and backslashes are free. |
| `Expansions.EscapedStart` | zmax-core/src/command_line.rs:711-725 | On Unix a word that starts with a quote or a percent sign is one token with the word as content when a backslash is put in front. |
| `Expansions.SpacesAndTabsSkipped` | zmax-core/src/command_line.rs:475-479 | Spaces and tabs, and nothing else, are skipped in front of a token. |
| `Expansions.BracketedExpansion` | zmax-core/src/command_line.rs:567-675 | An expansion in brackets with a body that balances them is of the kind its name says, variable, Unicode, shell or register; any other name is an error that gives the name when validating, and a token to expand otherwise. |
| `Expansions.QuotedExpansion` | zmax-core/src/command_line.rs:567-632 | The same between quotes or bars, doubled inside the text. |
| `Expansions.NoDelimiter` | zmax-core/src/command_line.rs:589-599 | A name without a delimiter is an error that gives the name when validating, and a token of the name otherwise. |
| `Expansions.OpenQuoteStep` | zmax-core/src/command_line.rs:686-705 | A quoted token that the line ends in has all the text undoubled; it is an error with that token when validating, and that token, known to be open, otherwise. |
| `Expansions.OpenBracketStep` | zmax-core/src/command_line.rs:619-675 | The same for an expansion whose body never closes its bracket. |
| `Expansions.ValidationRefuses` | zmax-core/src/command_line.rs:417-419 | A validating step is either the step without validation, with a token that is closed or a word, or an error in place of a token; an error about an open token is about that very token. |
| `CommandLine.Tokenizer.SkipBlanks` | zmax-core/src/command_line.rs:475-479 | The cursor moves to the next character that is not a blank. |
| `CommandLine.Tokenizer.Rest` | zmax-core/src/command_line.rs:444-459 | What is left after blanks is one token with quoting not interpreted, or the end, and the cursor is at the end. |
| `CommandLine.Tokenizer.ParseUnquoted` | zmax-core/src/command_line.rs:481-520 | The loop that copies finished parts at each escaped blank computes the word and where it ends. |
| `CommandLine.Tokenizer.ParseQuoted` | zmax-core/src/command_line.rs:526-561 | The loop that copies up to each doubled quote computes the undoubled text, where it ends and whether it is closed. |
| `CommandLine.Tokenizer.ParseQuotedBalanced` | zmax-core/src/command_line.rs:640-675 | The loop with its level counter computes the text up to the delimiter that closes the first. |
| `CommandLine.Tokenizer.ParsePercentToken` | zmax-core/src/command_line.rs:567-632 | The expansion at a percent sign: its kind and body, or the token that stands for an incomplete one, or the errors for an unknown kind, a missing or an unclosed delimiter. |
| `CommandLine.Tokenizer.Next` | zmax-core/src/command_line.rs:681-727 | The next token, end or error, and the cursor after it; the cursor always advances except at the end. |
| `CommandLine.Args.Push` | zmax-core/src/command_line.rs:856-906 | One argument ends the flags, gives a waiting flag its argument, names a flag or is a positional; when validating, a flag that is unknown or already given is an error and the state is unchanged. |
| `CommandLine.Args.ReadToken` | zmax-core/src/command_line.rs:808-822 | The rest of the line is one token once the raw positionals are there, otherwise the next token is read. |
| `ArgumentLists.AcceptedExactly` | zmax-core/src/command_line.rs:856-922 | A list of arguments is accepted when validating if and only if the grammar writes it with an allowed number of positionals: positionals, flags of the signature each at most once, an argument after each flag that takes one, then nothing, `--` or raw text. |
| `ArgumentLists.AllowedAccepted` | zmax-core/src/command_line.rs:856-906 | A list the grammar writes is taken without error, to exactly its positionals and the values of its flags, with no flag waiting. |
| `ArgumentLists.AcceptedAllowed` | zmax-core/src/command_line.rs:856-906 | A list taken without error, with no flag waiting, is written by the grammar; the pieces are given. |
| `ArgumentLists.FlagsOfSignature` | zmax-core/src/command_line.rs:871-896 | In a list the grammar writes no flag comes twice, every flag is one of the signature, and the flags set are exactly those named. |
| `ArgumentLists.NamedIsOfSignature` | zmax-core/src/command_line.rs:874-886 | The flag looked up is in the signature and is written as two dashes and its name or a dash and its alias; when none is found the argument is neither for any flag. |
| `ArgumentLists.FlagRefused` | zmax-core/src/command_line.rs:888-898 | After any list the grammar writes, an unknown flag or one given before is the error that says so, whatever follows. |
| `ArgumentLists.DashesForArgument` | zmax-core/src/command_line.rs:857-866 | A flag that takes an argument waits for it at the end of a list, but in front of `--` it is accepted without one. |
| `ArgumentLists.ArgumentMissing` | zmax-core/src/command_line.rs:910-918 | A list that ends in a flag without its argument is an error that names the flag, whatever the number of positionals. |
| `ArgumentLists.WrongCount` | zmax-core/src/command_line.rs:182-189 | A list with fewer positionals than the least number or more than the greatest is an error with both and the number. |
| `ArgumentLists.StateOfLast` | zmax-core/src/command_line.rs:856-906 | After a list the state says what its last argument was, a positional, a flag, the argument of a flag or the end of the flags. |
| `ArgumentLists.ValidatedParse` | zmax-core/src/command_line.rs:828-922 | Whatever a validated command line parses to is the meaning of a list the grammar writes: every flag is of the signature and set once, none is waiting, and the number of positionals is allowed. |
| `ArgumentLists.WrittenListParses` | zmax-core/src/command_line.rs:681-922 | Any list the grammar writes, each argument quoted, parses from its text to its own positionals and flags. |
| `ArgumentLists.ParsesTokens` | zmax-core/src/command_line.rs:828-850 | Without raw text a command line is taken as the list of what its tokens expand to. |
| `ArgumentLists.FirstFailure` | zmax-core/src/command_line.rs:842-845 | A token that cannot be read or expanded is the error returned. |
| `ArgumentLists.RestIsOneToken` | zmax-core/src/command_line.rs:444-459 | What follows the blanks is one token to expand, with all its quotes, blanks, percent signs and dashes. |
| `ArgumentLists.RawListParses` | zmax-core/src/command_line.rs:808-906 | Flags and positionals the grammar writes up to the raw text, each quoted, and then any text parse to their own meaning and that text, unchanged, as one more positional. |
| `ArgumentLists.WordsAndTextParse` | zmax-core/src/command_line.rs:808-906 | As many quoted words as come before raw text, and then any text, parse to exactly the words and the text, and no flags, validating or not. |
| `ArgumentLists.NeverFails` | zmax-core/src/command_line.rs:417-419 | A tokenizer that does not validate never returns an error. |
| `ArgumentLists.UnvalidatedParse` | zmax-core/src/command_line.rs:828-906 | A command line that is not validated always parses, if its tokens expand. |
| `ArgumentLists.UnknownFlagsKept` | zmax-core/src/command_line.rs:888-895 | Without validation, when no flag is known, every argument but `--` becomes a positional, in order. |
| `CommandLine.Args.Parse` | zmax-core/src/command_line.rs:828-850 | The loop over the tokens of a line computes the fold of the argument rules over them, or their first error. |
| `CommandLine.PositionalsOnly` | zmax-core/src/command_line.rs:808-906 | Once flags have ended, any quoted list is added to the positionals and the flags stay. |
| `CommandLine.DashedListIsPositional` | zmax-core/src/command_line.rs:828-906 | After `--`, with no raw mode and an allowed count, a quoted list parses to exactly those positionals and no flags. |
| `Conditionals.ForwardConditional` | zmax-core/src/cmode.rs:57-75 | The depth counter returns the first `#endif` that leaves nothing open since the start, and nothing exactly when there is none. |
| `Conditionals.WrittenDirective` | zmax-core/src/cmode.rs:33-50 | A line of spaces, a `#`, spaces, a word and a rest that does not go on with a letter opens a conditional exactly for if, ifdef and ifndef, continues one exactly for elif, elifdef, elifndef and else, and closes one exactly for endif; its keyword is the word. |
| `Conditionals.DirectiveIsWritten` | zmax-core/src/cmode.rs:33-50 | A line that cannot be split like that is no directive. |
| `Conditionals.WrittenCondition` | zmax-core/src/cmode.rs:260-267 | The condition of such a line is the rest without the spaces around it. |
| `Conditionals.ForwardFromAnywhere` | zmax-core/src/cmode.rs:57-75 | From any line the motion forward is decided by the next line that opens or closes: it stops at an `#endif`, and from an `#if` goes where that one's motion goes. |
| `Conditionals.BackwardFromAnywhere` | zmax-core/src/cmode.rs:79-95 | The mirror: the last line that opens or closes, up to the start, decides. |
| `Conditionals.BackwardConditional` | zmax-core/src/cmode.rs:79-95 | The mirrored counter returns the last `#if` that opens what no later line up to the start closes, and nothing exactly when there is none; its first read is out of range if and only if the file has no lines. |
| `Conditionals.BackwardUndoesForward` | zmax-core/src/cmode.rs:57-95 | From an `#if` forward and from the `#endif` found backward is the same `#if`. |
| `Conditionals.ForwardUndoesBackward` | zmax-core/src/cmode.rs:57-95 | From an `#endif` backward and from the `#if` found forward is the same `#endif`. |
| `Conditionals.ConditionalBranches` | zmax-core/src/cmode.rs:336-405 | The stack machine reports exactly one branch for each opening or else line and nothing else, in order of lines, each with the end, condition and verdict found by scanning ahead from its own line. |
| `Conditionals.SpanOfBranch` | zmax-core/src/cmode.rs:336-405 | A branch runs from the line after its own to the first else or `#endif` with nothing left open in between, or to the end of the file. |
| `Conditionals.BranchesNest` | zmax-core/src/cmode.rs:336-405 | Branches never cross: one opened inside another ends no later, and strictly before unless the file ends first. |
| `Conditionals.OneBranchEnds` | zmax-core/src/cmode.rs:351-384 | No line ends two branches; two that end together run to the end of the file. |
| `Conditionals.GroupEndIsForward` | zmax-core/src/cmode.rs:57-75 | A group opened at an `#if` ends where the forward motion from there goes, or at the end of the file exactly when the motion finds nothing. |
| `Conditionals.MotionsMeet` | zmax-core/src/cmode.rs:57-95 | Forward from an `#if` reaches the end of its group, and backward from there reaches the `#if`. |
| `Conditionals.DeadAfterTaken` | zmax-core/src/cmode.rs:373-429 | Once a branch of a group is provably taken, every later branch of the group is provably dead, however conditions evaluate. |
| `Conditionals.VerdictOfBranch` | zmax-core/src/cmode.rs:351-429 | A branch is provably dead if an earlier one of its group is provably taken; otherwise it is undecided after an `#else`, and else what its own condition says. |
| `BufferNames.StripExact` | zmax-core/src/buffer_name.rs:16-29 | A name is shortened to a base if and only if it is that base, an opening bracket, one or more digits and a closing bracket. |
| `BufferNames.StripSuffixed` | zmax-core/src/buffer_name.rs:16-48 | Stripping recovers the base whenever a number was added. |
| `BufferNames.SuffixedInjective` | zmax-core/src/buffer_name.rs:37-50 | Different numbers make different names. |
| `BufferNames.NoLeadingZero` | zmax-core/src/buffer_name.rs:43 | Numbers are written without leading zeros. |
| `BufferNames.FreeNumber` | zmax-core/src/buffer_name.rs:37-50 | With fewer names taken than there are numbers, one is free, by pigeonhole. |
| `BufferNames.FreeNumberOfTest` | zmax-core/src/buffer_name.rs:37-50 | When fewer than 2^32 - 1 names are taken, a number of 32 bits is free. |
| `BufferNames.GenerateUniqueName` | zmax-core/src/buffer_name.rs:37-50 | For any test of names: the base itself if it is free, else the free name with the least number; the counter overflows if and only if the base and all its numbers of 32 bits are taken. |
| `BufferNames.RenameUniquely` | zmax-core/src/buffer_name.rs:55-57 | The new name is free and has the same base; it is the bare base exactly when that is free; there is none exactly when the counter overflows. |

## Left out

- HebrewDates.HebrewFromFixed: that the date is the only one on its day is promised from 1 Tishri of year 1 on; in year 0 the month table is longer than the year, so a day has two names.
- Parasha.HebrewParasha: the slot is returned in place of the text made of portion names; before year 0 it is only tied to the date the conversion gives.
- Anniversaries.HebrewYahrzeit: before year 1 it promises that what is recognised is the computed day, not that every such day is recognised.
- Anniversaries.HebrewBirthday: before year 1 it is only tied to the date the conversion gives.
- Bahai.FromFixed: the year begins on March 21 as in the code, not at the astronomical equinox.
- Glob.GlobMatch: on a text with a `*` it promises that what is accepted is a match, not that every match is accepted, because that is false there.
- Conditionals.ConditionalBranches: `eval_condition` with the macros of the file and of the environment is a parameter, as is which characters are white space; the standard library's sort is an insertion sort here.
- BufferNames.GenerateUniqueName: what an overflow of the counter does, a panic or a return to 0 by the way the program is built, is one outcome without a name.
- CommandLine.DashedListIsPositional: the expansion of tokens, which is a parameter of parsing, leaves contents as they are; the same in `ArgumentLists.WrittenListParses`, which has no raw mode, and in `ArgumentLists.RawListParses`, which has it.
- Bidi.ComputeLevels: the class of a character is an arbitrary function; the Unicode tables behind it are not modelled.
- Integer widths, other than the 32-bit year of `Gregorian.YearFitsInt32`, day of `HebrewDates.DateOn` and counter of `BufferNames.GenerateUniqueName`: serial days, years, depths and levels are unbounded.
- Bytes of UTF-8 text and borrowed slices: text is a sequence of characters and positions count characters.
- Display strings, month, day and portion names, holidays, and the line forms of diary entries.
- `add_months`, `nth_weekday`, `float_match` and the appointment list: they would add easy members only.
- Everything on floating point: solar and lunar positions, sunrise, the Chinese calendar, and the calculator.
- `up_conditional`, `dead_branches`, the warning scanners, comment filling, backslash alignment and statement motion of `cmode.rs`.
- `paragraph_direction` of `bidi.rs`, `ArgList::display`, and the accessors and completion helpers of `command_line.rs`.
