# OPFL extension: verified model

The repository is a C++ extension for a game server: a date library, a text format for nested tagged values, a
thread runtime with message queues and a registry of handles, a connection pool, and a worker protocol that keeps
player accounts in a database. This project models that behaviour in Dafny and proves what it keeps.

| part | files |
|---|---|
| Dates (`DatabaseConnector/DateTime.cpp`) | `Words`, `Arithmetic`, `Calendar`, `Duration`, `DateTimes` |
| Wire format (`OPFL/ThreadHive.h`) | `WireFormat`, `WireNumbers`, `WireParser`, `WireReading`, `WireRoundTrip`, `WireMessage` |
| Message queues (`OPFL/ThreadHive.h`) | `RingQueue`, `ListQueue`, `QueueTwins` |
| Thread handles and messages (`OPFL/ThreadHive.h`) | `Registry`, `Channel`, `Mailbox` |
| Connection pool (`OPFL/ConnectionPool.h`, `OPFL/OPFL.cpp`) | `ConnectionPool`, `Borrowing` |
| Worker protocol (`OPFL/OPFL.cpp`, `DatabaseConnector/DatabaseConnector.cpp`) | `Handoff`, `Database`, `Session`, `PooledSession`, `LeavePenalty` |

Code that updates objects in place is a class with the source's fields, loops and branches, each method proved
against a specification; the thread protocols are state machines whose steps are what one thread does between two
points where another may run, and their theorems are about every sequence of steps. Unsigned 32-bit arithmetic wraps
around wherever the source's does.

Where the code does not do what its names promise, the model follows the code and the theorem says exactly when the
promise is kept:

* `timeBetween` reloads its own day of the year before the last loop, where the length of the earlier year belongs.
  It is exact if and only if the stop date is in this year or the later of the two days of the year is the last day of
  the stop year; it answers one day too many exactly when the stop date is in an earlier common year and this date is
  day 366, and too few in all other cases (`DateTimes.ShortfallSign`, with `DateTimes.TimeBetweenFallsShort` and
  `DateTimes.TimeBetweenOvercounts` as examples). `DateTimes.DateTime.AddBack` gives the exact condition for getting the
  date back, `DateTimes.DateTime.AddBackRepaired` that for the loops with the year length reloaded.
* `add` and `subtract` move on the cycle of the unsigned years and throw exactly where a step stops in year 0 (or the day
  counter wraps to zero). `add` is exact if and only if the result is in the range of the unsigned year and the day
  counter does not wrap; `subtract` if and only if the result is not before year 1. There and back again gives the same
  date if and only if no step stops in year 0 and the day counter does not wrap, laps of the years included.
* A value survives printing and parsing if and only if it is a number, an address, or a non-empty array of such values
  and of strings that are non-empty and contain neither `@` nor the unit mark, arrays nesting likewise
  (`WireRoundTrip.RoundTrip`). `@[]` reads past the end of the text, and a string on its own keeps its two unit marks.
* `@` inside a string of an array drops the string and makes the parser read on from the `@` as if an element began
  there. If no `[` follows it, the process ends, and as long as no string holds `@[` an array's text gives the array or
  nothing (`WireRoundTrip.NothingElseComesOut`). With `@[` in a string it may give another array
  (`WireRoundTrip.AnotherValueComesOut`), exactly if the rest of the text reads as elements
  (`WireRoundTrip.ArrayIsReread`).
* `grow` leaves a proper ring if and only if the ring was empty, full or wrapped around; `push` only calls it when full.
  The ring refuses messages at 4294967250, the list never does; up to there they are the same queue.
* A player who rejoins is never reported as banned, because the rejoin takes the counter below the ban before the flag
  is computed (`LeavePenalty.BanIsReportedUnlessRejoining`).

## Model

| member | source | states |
|---|---|---|
| Calendar.GregorianDayCount | DatabaseConnector/DateTime.cpp:1129-1158 | summing `daysInYear` over all earlier years is the closed Gregorian day count |
| Calendar.EndOfYears | DatabaseConnector/DateTime.cpp:1150-1158 | the last year an unsigned int can hold ends 1568704592244 days after 0001-01-01, and no year ends later |
| Calendar.YearsInOrder | DatabaseConnector/DateTime.cpp:1150-1158 | a year ends before any later year begins |
| Calendar.DayOfYearInOrder | DatabaseConnector/DateTime.cpp:1172-1186 | the day of the year of a valid date lies in the year, and orders dates of one year as (month, day) does |
| Calendar.InstantBounds | DatabaseConnector/DateTime.cpp:1134-1148 | a valid date lies inside its year and its instant splits uniquely into days and time of day |
| Calendar.ClockFields | DatabaseConnector/DateTime.cpp:633-699 | the remainders of an instant by day, hour, minute and second are the clock fields below |
| Calendar.CompareIsTimeOrder | DatabaseConnector/DateTime.cpp:337-431 | the nested field test is the sign of the difference of instants, across months, leap days and years; equal instants are equal dates |
| Calendar.NextYear | DatabaseConnector/DateTime.cpp:736-741 | the unsigned year after 4294967295 is year 0, and otherwise the next year starts where this one ends |
| Calendar.PreviousYear | DatabaseConnector/DateTime.cpp:717-719 | the unsigned year before year 0 is 4294967295, and otherwise the year before ends where this one starts |
| Calendar.WalkFindsDate | DatabaseConnector/DateTime.cpp:736-741 | walking over whole years from year 1 finds the year and the day of the year of any valid date |
| Calendar.EveryInstantHasStamp | DatabaseConnector/DateTime.cpp:1134-1148 | every instant before the end of the unsigned years is that of a valid date; with `CompareIsTimeOrder`, of exactly one |
| Duration.CompareIsMagnitudeOrder | DatabaseConnector/DateTime.cpp:25-88 | on normal durations `compare` is the order of total milliseconds and never looks at the sign |
| Duration.TotalIsCarried | DatabaseConnector/DateTime.cpp:199-280 | the four nested carries together wrap like one carry of the whole total |
| Duration.DateTimeDuration.constructor | DatabaseConnector/DateTime.cpp:14-18 | a new duration is normal and has the given total modulo 2^32 days; normal fields stay as given |
| Duration.DateTimeDuration.Copy | DatabaseConnector/DateTime.cpp:20-23 | copying through the carrying setters changes no field |
| Duration.DateTimeDuration.SetDateTimeDuration | DatabaseConnector/DateTime.cpp:169-178 | the total is conserved modulo 2^32 days and every field ends below its radix |
| Duration.DateTimeDuration.SetHours | DatabaseConnector/DateTime.cpp:211-223 | carries whole days; days and hours together keep their total |
| Duration.DateTimeDuration.SetMinutes | DatabaseConnector/DateTime.cpp:230-242 | carries whole hours through `hours`; the total in minutes is kept |
| Duration.DateTimeDuration.SetSeconds | DatabaseConnector/DateTime.cpp:249-261 | carries whole minutes through `minutes`; the total in seconds is kept |
| Duration.DateTimeDuration.SetMilliseconds | DatabaseConnector/DateTime.cpp:268-280 | carries whole seconds through `seconds`; the total in milliseconds is kept |
| DateTimes.DateTime.GetDayOfYear | DatabaseConnector/DateTime.cpp:1172-1186 | the days before the month plus the day, cut to an unsigned short; for month 0 just the day |
| DateTimes.DateTime.GetReverseDayOfYear | DatabaseConnector/DateTime.cpp:1188-1205 | gives the date of that year whose day of the year is asked for, and throws exactly outside 1..daysInYear or for year 0 |
| DateTimes.DateTime.ReverseOfDayOfYear | DatabaseConnector/DateTime.cpp:1172-1205 | the date that GetReverseDayOfYear makes of the day of the year of a valid date is that date |
| DateTimes.DateTime.DayOfYear | DatabaseConnector/DateTime.cpp:618-621 | on a valid date the cut to an unsigned short loses nothing |
| DateTimes.DateTime.SetDateTime | DatabaseConnector/DateTime.cpp:537-551 | sets all fields, or throws and changes nothing, exactly when one is out of range |
| DateTimes.DateTime.SetYear | DatabaseConnector/DateTime.cpp:558-573 | a date the new year does not have becomes the first of January; year 0 throws |
| DateTimes.DateTime.SetMonth | DatabaseConnector/DateTime.cpp:580-597 | a day the new month does not have becomes the first |
| DateTimes.DateTime.SetDay | DatabaseConnector/DateTime.cpp:604-616 | accepts exactly the days of the month |
| DateTimes.DateTime.SetDayOfYear | DatabaseConnector/DateTime.cpp:623-631 | reaches the date with that day of the year although the day may be reset on the way |
| DateTimes.DateTime.SetHour | DatabaseConnector/DateTime.cpp:638-648 | moves the instant by the difference of the hours, and refuses 24 and more |
| DateTimes.DateTime.SetMinute | DatabaseConnector/DateTime.cpp:655-665 | moves the instant by the difference of the minutes |
| DateTimes.DateTime.SetSecond | DatabaseConnector/DateTime.cpp:672-682 | moves the instant by the difference of the seconds |
| DateTimes.DateTime.SetMillisecond | DatabaseConnector/DateTime.cpp:689-699 | moves the instant by the difference of the milliseconds |
| DateTimes.DateTime.WalkForward | DatabaseConnector/DateTime.cpp:736-741 | the year loop keeps the day it stands for, up to wrap-arounds of the year, and ends inside a year |
| DateTimes.DateTime.WalkBackward | DatabaseConnector/DateTime.cpp:707-721 | the year loop ends, inside a year, and has moved back by exactly the days, up to wrap-arounds of the year |
| DateTimes.WalkForwardLands | DatabaseConnector/DateTime.cpp:729-747 | the walk ends where the move on the cycle of the unsigned years ends, and in year 0 exactly if that does |
| DateTimes.WalkBackwardLands | DatabaseConnector/DateTime.cpp:701-727 | the same for the walk back |
| DateTimes.DateTime.AddDays | DatabaseConnector/DateTime.cpp:729-747 | lands days later on the cycle of the unsigned years, less 2^32 days if the day counter wraps; throws exactly in year 0 and when the counter wraps to zero |
| DateTimes.DateTime.SubtractDays | DatabaseConnector/DateTime.cpp:701-727 | lands days earlier on the cycle of the unsigned years, and throws exactly in year 0 |
| DateTimes.DateTime.CarryOver | DatabaseConnector/DateTime.cpp:779-807 | new field plus carry times radix is the old field plus the amount, the field below the radix |
| DateTimes.DateTime.BorrowFrom | DatabaseConnector/DateTime.cpp:749-777 | new field minus borrow times radix is the old field minus the amount, the field below the radix |
| DateTimes.FieldMoves | DatabaseConnector/DateTime.cpp:749-987 | a carry into the next field and a new value of this one move round the cycle like the whole amount |
| DateTimes.DateTime.AddHours | DatabaseConnector/DateTime.cpp:779-807 | lands hours later on the cycle of the unsigned years, and throws exactly in year 0 |
| DateTimes.DateTime.SubtractHours | DatabaseConnector/DateTime.cpp:749-777 | lands hours earlier on the cycle of the unsigned years, and throws exactly in year 0 |
| DateTimes.DateTime.AddMinutes | DatabaseConnector/DateTime.cpp:839-867 | the same for minutes, through the hours |
| DateTimes.DateTime.SubtractMinutes | DatabaseConnector/DateTime.cpp:809-837 | the same for minutes, through the hours |
| DateTimes.DateTime.AddSeconds | DatabaseConnector/DateTime.cpp:899-927 | the same for seconds, through the minutes |
| DateTimes.DateTime.SubtractSeconds | DatabaseConnector/DateTime.cpp:869-897 | the same for seconds, through the minutes |
| DateTimes.DateTime.AddMilliseconds | DatabaseConnector/DateTime.cpp:959-987 | the same for milliseconds, through the seconds |
| DateTimes.DateTime.SubtractMilliseconds | DatabaseConnector/DateTime.cpp:929-957 | the same for milliseconds, through the seconds |
| DateTimes.ClockSteps | DatabaseConnector/DateTime.cpp:1002-1013 | the four clock steps, each from where the one before stands, lead where the clock part as a whole leads, unless one stops in year 0 |
| DateTimes.DateTime.AddClock | DatabaseConnector/DateTime.cpp:1002-1013 | the clock part of `add` makes these four steps |
| DateTimes.AddedIsExact | DatabaseConnector/DateTime.cpp:1002-1013 | the landing of `add` is instant plus total if and only if nothing wraps, and otherwise at least 2^32 days too early |
| DateTimes.DateTime.Add | DatabaseConnector/DateTime.cpp:1002-1013 | the whole cascade lands exactly there or throws; it yields instant plus total if and only if nothing wraps |
| DateTimes.DateTime.SubtractClock | DatabaseConnector/DateTime.cpp:989-1000 | the clock part of `subtract` makes the four steps back |
| DateTimes.SubtractedIsExact | DatabaseConnector/DateTime.cpp:989-1000 | the landing of `subtract` is instant minus total if and only if that is not before year 1, and otherwise at least 2^32 days too late |
| DateTimes.DateTime.Subtract | DatabaseConnector/DateTime.cpp:989-1000 | the whole cascade lands exactly there or throws; it yields instant minus total if and only if that is not before year 1 |
| DateTimes.DateTime.AddDuration | DatabaseConnector/DateTime.cpp:1025-1035 | moves by the signed duration under the exact conditions of `Add` and `Subtract` |
| DateTimes.DateTime.SubtractDuration | DatabaseConnector/DateTime.cpp:1015-1023 | moves by the duration with its sign turned, under the same conditions |
| DateTimes.AddedAndBack | DatabaseConnector/DateTime.cpp:989-1013 | `add` and then `subtract` lead back if and only if no step of the way stops in year 0 and the day counter does not wrap |
| DateTimes.SubtractedAndBack | DatabaseConnector/DateTime.cpp:989-1013 | `subtract` and then `add` lead back if and only if the same holds on their way |
| DateTimes.DateTime.AddThenSubtract | DatabaseConnector/DateTime.cpp:1015-1035 | adding a duration of either sign and subtracting it gives the same date back if and only if that condition holds |
| DateTimes.DateTime.CountDaysDownTo | DatabaseConnector/DateTime.cpp:1093-1121 | what the two counting loops add up to, wrap-around included |
| DateTimes.CountIsShortOfDays | DatabaseConnector/DateTime.cpp:1097-1121 | the loops count the true whole days minus the signed rest of the stop year after the later of the two days of the year, and all of them within one year |
| DateTimes.ShortfallSign | DatabaseConnector/DateTime.cpp:1097-1121 | no gap if and only if the stop year is this year or the later day number is the length of the stop year; one day too many if and only if this date is day 366 and the stop year an earlier common year |
| DateTimes.RepairIsExact | DatabaseConnector/DateTime.cpp:1097-1121 | with the year length reloaded the count is the true number of days; the code agrees with it if and only if there is no gap |
| DateTimes.DateTime.CountDaysRepaired | DatabaseConnector/DateTime.cpp:1093-1121 | the two loops with the year length reloaded count exactly that |
| DateTimes.DateTime.TimeSinceRepaired | DatabaseConnector/DateTime.cpp:1049-1126 | the difference of two dates with the repaired loops is exact, up to 2^32 days |
| DateTimes.DateTime.AddBackRepaired | DatabaseConnector/DateTime.cpp:1025-1127 | with the repaired loops the date comes back if and only if the days fit the counter on the way |
| DateTimes.CountIsShort | DatabaseConnector/DateTime.cpp:1060-1121 | with the stop date of the code, the days counted are the true days minus the shortfall |
| DateTimes.DateTime.StopFor | DatabaseConnector/DateTime.cpp:1060-1078 | the stop date is the earlier date or a day later, and the clock part is the exact time-of-day remainder |
| DateTimes.DateTime.SplitClock | DatabaseConnector/DateTime.cpp:1079-1091 | hours, minutes, seconds and milliseconds are in range and add up to the remainder |
| DateTimes.DateTime.TimeSince | DatabaseConnector/DateTime.cpp:1049-1126 | the difference of two dates in order: exact clock part, days short by the shortfall |
| DateTimes.DateTime.TimeBetween | DatabaseConnector/DateTime.cpp:1037-1127 | the same for any two dates, negative exactly when this date is the earlier one |
| DateTimes.MeasureIsExact | DatabaseConnector/DateTime.cpp:1037-1127 | the answer is the true difference if and only if there is no shortfall and the days fit the counter |
| DateTimes.TimeBetweenFallsShort | DatabaseConnector/DateTime.cpp:1114 | from 0001-12-01 to 0002-01-01 the answer lacks 30 of 31 days |
| DateTimes.TimeBetweenOvercounts | DatabaseConnector/DateTime.cpp:1114 | from 0003-12-31 to 0004-12-31 the answer is 367 days for 366 |
| DateTimes.DateTime.AddBack | DatabaseConnector/DateTime.cpp:1025-1127 | `rhs.add(this.timeBetween(rhs))` is this date if and only if there is no shortfall and the sum fits |
| WireFormat.DeparseArmaData | OPFL/ThreadHive.h:1300-1378 | appends the printed form to the buffer and reports whether there was data |
| WireFormat.DeparseItems | OPFL/ThreadHive.h:1328-1351 | the array branch, with its loop and the trailing separator taken back, appends the printed form of the array |
| WireFormat.DeparseFields | OPFL/ThreadHive.h:1335-1343 | the loop prints every item that has data with a separator behind it |
| WireNumbers.DigitsStandFor | OPFL/ThreadHive.h:1322-1327 | printed digits are digits of the base and stand for the number |
| WireNumbers.DigitsReadBack | OPFL/ThreadHive.h:1424-1435 | printed digits, with or without a minus sign, read back as the number |
| WireParser.BuildNested | OPFL/ThreadHive.h:1457-1551 | the bracket loop with quote flag and counters does what its recursive specification says, for every text |
| WireParser.BuildScalars | OPFL/ThreadHive.h:1552-1616 | the inner loop for plain elements does what its recursive specification says, for every text and every exit |
| WireParser.BuildArray | OPFL/ThreadHive.h:1437-1623 | the two interleaved loops together do what the specification of the array branch says |
| WireParser.BuildData | OPFL/ThreadHive.h:1393-1665 | the whole parser, with each way it can leave the text, agrees with the specification for every text; what that reads from text is in `WireReading` and `WireRoundTrip` |
| WireParser.ParseArmaData | OPFL/ThreadHive.h:1291-1298 | parsing a fresh object agrees with the specification; the empty text is refused |
| WireReading.NumberIsRead | OPFL/ThreadHive.h:1424-1435 | a number is read whatever its spelling: blanks, a sign, `0x` if hexadecimal, capital or small digits, leading zeros, and anything behind that is no digit |
| WireReading.SignedIsRead | OPFL/ThreadHive.h:1424-1429 | every spelling of a signed number of 64 bits gives the number, every other number throws |
| WireReading.UnsignedIsRead | OPFL/ThreadHive.h:1430-1435 | every spelling of an unsigned number gives the number, modulo 2^64 behind a minus sign; from 2^64 on it throws |
| WireReading.AddressIsRead | OPFL/ThreadHive.h:1627-1658 | every spelling of an address in digits of `0123456789ABCDEF` or its small twin, with any leading zeros, gives the address; from 2^64 on the largest one |
| WireReading.NothingIsRead | OPFL/ThreadHive.h:1424-1435 | where no digit follows, integers throw and an address is 0 |
| WireReading.PlainArrayIsRead | OPFL/ThreadHive.h:1552-1616 | texts without marks and brackets that parse on their own parse as the elements of an array, in order |
| WireReading.AddressesAreRead | OPFL/ThreadHive.h:1627-1658 | addresses in any spelling parse as the elements of an array, as they come back from the game |
| WireReading.DigitsAreSmall | OPFL/ThreadHive.h:1325-1330 | printed digits are those of `0123456789abcdef`, spell the number and have no leading zero |
| WireReading.PrintedCharacters | OPFL/ThreadHive.h:1300-1378 | the text of a string, a number, an address and an empty array, character by character |
| WireReading.PrintedArray | OPFL/ThreadHive.h:1331-1353 | the text of an array is `@[`, the texts of its elements with commas between them, and `]` |
| WireRoundTrip.ParsedIsNestable | OPFL/ThreadHive.h:1393-1665 | whatever text is parsed, an array that comes out has only elements that can be printed safely |
| WireRoundTrip.ScanArray | OPFL/ThreadHive.h:1476-1494 | the quote-aware scan passes over a whole printed array with balanced counters, whatever its strings contain |
| WireRoundTrip.ScanString | OPFL/ThreadHive.h:1476-1494 | the scan passes over a quoted string without counting its brackets |
| WireRoundTrip.NestedIsCut | OPFL/ThreadHive.h:1476-1497 | the scan stops exactly at the matching bracket of a nested array, for all well-formed contents |
| WireRoundTrip.ScalarIsCollected | OPFL/ThreadHive.h:1554-1572 | the inner loop collects exactly the text of a scalar without array tag, without the unit marks of a string, and the element parses as the scalar does |
| WireRoundTrip.TagReopens | OPFL/ThreadHive.h:1552-1562 | a string with an array tag is given up at the first tag, whatever stands around it: what was collected is dropped and the text is read on from the tag |
| WireRoundTrip.TagTerminates | OPFL/ThreadHive.h:1462-1475 | if no bracket follows that tag, the process ends |
| WireRoundTrip.ItemsParse | OPFL/ThreadHive.h:1437-1622 | the loops parse all remaining printed items in order, up to the first that fails |
| WireRoundTrip.PrintedArrayParses | OPFL/ThreadHive.h:1437-1622 | over all arrays whose strings hold no unit mark and no `@[`: the parse of the text is the array, or exactly the failure of its first element that fails |
| WireRoundTrip.NothingElseComesOut | OPFL/ThreadHive.h:1291-1665 | for these arrays the text gives the array or nothing, never another value |
| WireRoundTrip.EmptyArrayReadsPastEnd | OPFL/ThreadHive.h:1437-1622 | `@[]` is not parsed |
| WireRoundTrip.RoundTrip | OPFL/ThreadHive.h:1291-1665 | parsing the printed text gives the value back if and only if the value is in the domain, over all values |
| WireRoundTrip.PrintIsInjective | OPFL/ThreadHive.h:1300-1378 | values of the domain with the same text are equal |
| WireRoundTrip.LoneStringKeepsItsMarks | OPFL/ThreadHive.h:1408-1414 | a string that is not an element comes back with both unit marks |
| WireRoundTrip.QuotedTagTerminates | OPFL/ThreadHive.h:1552-1562 | an array of these with a tag in a string, and only elements that parse in front of it, ends the process |
| WireRoundTrip.QuotedAtSignTerminates | OPFL/ThreadHive.h:1552-1554 | the array of the one string `@` ends the process |
| WireRoundTrip.ArrayIsReread | OPFL/ThreadHive.h:1552-1562 | whatever follows the first tag: an array with elements that parse in front of the string gives what the elements and the text from the tag on give, and never itself |
| WireRoundTrip.AnotherValueComesOut | OPFL/ThreadHive.h:1457-1562 | an array of a string with `@[` and an array comes back as an array of two arrays |
| WireMessage.ReadName | OPFL/ThreadHive.h:1820-1829 | the loop takes everything before the first separator |
| WireMessage.ParseArmaMessage | OPFL/ThreadHive.h:1795-1840 | parsing a fresh message agrees with its specification for every text |
| WireMessage.DeparseArmaMessage | OPFL/ThreadHive.h:1842-1853 | appends name, separator and data as the specification says |
| WireMessage.MessageRoundTrip | OPFL/ThreadHive.h:1795-1853 | a message parses back from its text if and only if its name has no separator, does not start with a type tag, and its data is in the domain |
| WireMessage.NameOrData | OPFL/ThreadHive.h:1811-1829 | a text that begins with one of the six type tags is data without a name, any other has a name |
| WireMessage.RefusedAndMissing | OPFL/ThreadHive.h:1805-1839 | data that is refused leaves the message without data and answers false; a name alone answers true, the empty text false, and a name with a separator reads past the end |
| RingQueue.HiveQueueC.constructor | OPFL/ThreadHive.h:1000-1010 | an empty ring of fifty slots |
| RingQueue.HiveQueueC.Push | OPFL/ThreadHive.h:1021-1055 | appends to the sequence of messages across wrap-around and growth, and fails if and only if 4294967250 are queued |
| RingQueue.HiveQueueC.PushRoom | OPFL/ThreadHive.h:1033-1042 | in a ring with room the message lands behind the last one and the tail wraps |
| RingQueue.HiveQueueC.Grow | OPFL/ThreadHive.h:1106-1148 | the messages stand in order at the front of the larger array; the ring is proper if and only if it was empty, full or wrapped |
| RingQueue.HiveQueueC.CopySlots | OPFL/ThreadHive.h:1118-1134 | a copying loop appends exactly the slots it runs over |
| RingQueue.HiveQueueC.MessagesComeFirst | OPFL/ThreadHive.h:1118-1134 | unrolled from the head, the ring starts with its messages, and holds nothing else exactly when full or wrapped |
| RingQueue.HiveQueueC.Remove | OPFL/ThreadHive.h:1057-1077 | drops the first message, across the end of the array; fails exactly on an empty ring |
| RingQueue.HiveQueueC.Peek | OPFL/ThreadHive.h:1079-1091 | gives the first message, if any |
| RingQueue.HiveQueueC.Pop | OPFL/ThreadHive.h:1093-1104 | gives and drops the first message, if any |
| RingQueue.HiveQueueC.Size | OPFL/ThreadHive.h:1150-1154 | the number of messages |
| ListQueue.HiveQueue.Push | OPFL/ThreadHive.h:922-942 | appends a new node to the chain; all other nodes stay |
| ListQueue.HiveQueue.Remove | OPFL/ThreadHive.h:944-966 | unlinks the first node and keeps the chain; fails exactly on an empty list |
| ListQueue.HiveQueue.Peek | OPFL/ThreadHive.h:968-980 | gives the first message, if any |
| ListQueue.HiveQueue.Pop | OPFL/ThreadHive.h:982-993 | gives and drops the first message, if any |
| ListQueue.HiveQueue.Size | OPFL/ThreadHive.h:994-998 | the number of messages modulo 2^32 |
| QueueTwins.RunRing | OPFL/ThreadHive.h:1021-1154 | any trace of operations on the ring gives the replies of a bounded sequence |
| QueueTwins.RunList | OPFL/ThreadHive.h:922-998 | any trace of operations on the list gives the replies of an unbounded sequence |
| QueueTwins.TwinsAgree | OPFL/ThreadHive.h:922-1154 | both queues give the same replies to a trace if and only if no push of it finds the ring at its capacity |
| Registry.HandleList.constructor | OPFL/ThreadHive.h:512-517 | the registry starts empty and valid |
| Registry.HandleList.NewHive | OPFL/ThreadHive.h:521-526 | a new hive refers to no handle, and no count changes |
| Registry.HandleList.Push | OPFL/ThreadHive.h:589-606 | links a new handle, with no shares, behind the tail |
| Registry.HandleList.AddThread | OPFL/ThreadHive.h:618-641 | gives a hive without a handle a new one at the end of the list, with one share; otherwise refuses and changes nothing |
| Registry.HandleList.SpawnThread | OPFL/ThreadHive.h:643-654 | the copy that the new thread runs shares the handle |
| Registry.HandleList.Find | OPFL/ThreadHive.h:553-566 | the walk finds the hive's handle and the one in front of it |
| Registry.HandleList.Bypass | OPFL/ThreadHive.h:567-572 | links past a handle that is not the first; no other link changes |
| Registry.HandleList.UnlinkFirst | OPFL/ThreadHive.h:546-550 | without its first handle the chain runs from head to tail through the others |
| Registry.HandleList.UnlinkInner | OPFL/ThreadHive.h:551-574 | without the hive's handle, wherever it stands behind the first, the chain runs through the others |
| Registry.HandleList.Unlink | OPFL/ThreadHive.h:545-580 | takes one handle out of the list, keeps the order of the others, and leaves a proper chain |
| Registry.HandleList.Destroy | OPFL/ThreadHive.h:534-587 | a handle is unlinked and freed exactly when its last owner or copy dies, and never twice; otherwise only its count drops |
| Registry.HandleList.GetThreadHandle | OPFL/ThreadHive.h:793-816 | the first handle of that name, or null exactly when there is none |
| Registry.OwnerJoins | OPFL/ThreadHive.h:633-648 | a hive that starts to refer to a handle adds one owner there and nowhere else |
| Registry.OwnerLeaves | OPFL/ThreadHive.h:540-543 | a hive that dies takes one owner from its handle and from no other |
| Channel.HandleQueue.LoadMsg | OPFL/ThreadHive.h:608-616 | the wait predicate pops the first message into `currentMsg` exactly when it succeeds, and changes nothing otherwise |
| Channel.HandleQueue.SendMsg | OPFL/ThreadHive.h:656-666 | appends one message, and replies whether the queue took it |
| Channel.HandleQueue.SendAll | OPFL/ThreadHive.h:668-680 | appends as much of the batch as fits; the reply, only that of the last push, is true if and only if a non-empty batch fitted whole |
| Channel.HandleQueue.Drain | OPFL/ThreadHive.h:721-736 | the loop of receiveAll fills its array exactly, in order, and empties the queue |
| Channel.HandleQueue.TakeRest | OPFL/ThreadHive.h:718-724 | after a blocking wait: the popped message and all others, in order, in an array of the right size |
| Channel.HandleQueue.ReceiveAllNow | OPFL/ThreadHive.h:729-739 | without blocking: all messages in order, and whether there were any |
| Channel.OneMore | OPFL/ThreadHive.h:673-676 | the queue that took what it could of a batch takes the next message exactly if the batch still fitted |
| Mailbox.ExclusiveKept | OPFL/ThreadHive.h:656-740 | at every step at most one thread is in its critical section |
| Mailbox.WakeupKept | OPFL/ThreadHive.h:656-706 | every step keeps a wakeup owed to a receiver that sleeps beside a message |
| Mailbox.OrderKept | OPFL/ThreadHive.h:608-740 | every step keeps: received, then in hand, then queued, are the accepted messages in lock order |
| Mailbox.ArrayKept | OPFL/ThreadHive.h:708-740 | the array of receiveAll always has room for exactly the messages still to be popped |
| Mailbox.AnswersKept | OPFL/ThreadHive.h:682-740 | a blocking receive answers with one message, receiveAll with all that were left |
| Mailbox.BatchesKept | OPFL/ThreadHive.h:656-680 | the accepted part of a batch stays unbroken at the end of the accepted messages while it is sent |
| Mailbox.EveryRun | OPFL/ThreadHive.h:608-740 | every state of every interleaving of any number of senders and one receiver, spurious wakeups included, keeps all of these |
| Mailbox.SleepsOnlyOnEmpty | OPFL/ThreadHive.h:656-706 | when no send is under way a sleeping receiver has an empty queue: no wakeup is lost |
| Mailbox.ReceivedInOrder | OPFL/ThreadHive.h:608-740 | in every run the messages received are the first of those accepted, and with the queued ones they are all of them |
| Mailbox.CallsReturnWhole | OPFL/ThreadHive.h:608-740 | a call that returns with messages popped exactly one message, or filled its whole array, left the queue empty and completed everything accepted; calls that find nothing are in `EmptyHanded` and `WaitsOnEmpty` |
| Mailbox.RepliesAreForBatches | OPFL/ThreadHive.h:656-680 | the reply of a send, only that of its last push, is true if and only if the whole non-empty batch was accepted, in one piece |
| Mailbox.SleeperCanReceive | OPFL/ThreadHive.h:656-706 | no deadlock: from any such state the sends under way can finish, wake the receiver and hand it the first queued message |
| Mailbox.OnlyWaitersSleep | OPFL/ThreadHive.h:682-740 | in every run only a call that blocks ever sleeps |
| Mailbox.EmptyHanded | OPFL/ThreadHive.h:696-706 | a call that does not block and finds no message returns at once without one, lets the mutex go and changes nothing else |
| Mailbox.WaitsOnEmpty | OPFL/ThreadHive.h:682-727 | a call that blocks and finds no message sleeps, and sleeps again after a spurious wakeup, with nothing else changed |
| Mailbox.CallAlone | OPFL/ThreadHive.h:682-740 | a call with no other thread in between gives the first message, or all, or none, leaves exactly the rest queued and nothing else changed |
| Mailbox.SendAlone | OPFL/ThreadHive.h:656-680 | a send with no other thread in between queues what fits of its batch, wakes a sleeping receiver and leaves everything else as it was |
| Mailbox.PushesAreSendAll | OPFL/ThreadHive.h:668-680 | the pushes of a sender, step by step, do to the queue and the reply what the method SendAll does, and nothing else |
| Mailbox.PopsAreDrain | OPFL/ThreadHive.h:721-736 | the pops of receiveAll, step by step, do to the queue and the array what the method Drain does |
| ConnectionPool.BorrowKeepsShelves | OPFL/ConnectionPool.h:131-176 | whatever borrow does keeps the number of connections, lends none that is borrowed, and fails exactly with nothing free and either nothing abandoned or no new connection |
| ConnectionPool.Pool.Make | OPFL/ConnectionPool.h:103-116 | the pool is filled with different new connections up to its size if and only if the factory can make that many; else there is no pool |
| ConnectionPool.Pool.FindAbandoned | OPFL/ConnectionPool.h:140-162 | finds a borrowed connection that nobody references, if there is one |
| ConnectionPool.Pool.Borrow | OPFL/ConnectionPool.h:131-176 | lends the first free connection or a replacement of an abandoned one, never one on loan and always one with nothing to commit; unavailable and impossible exactly in their cases, which change nothing |
| ConnectionPool.Pool.Replace | OPFL/ConnectionPool.h:144-153 | recovery destroys one connection, which nobody references, and lends a new one |
| ConnectionPool.Pool.TakeFront | OPFL/ConnectionPool.h:168-175 | the front of the pool moves to the borrowed set |
| ConnectionPool.Pool.Unborrow | OPFL/ConnectionPool.h:184-195 | the connection moves from the borrowed set to the back of the pool; references may linger |
| ConnectionPool.Pool.Drop | OPFL/ConnectionPool.h:128-129 | letting the last reference go ends the loan and abandons the connection |
| Borrowing.BorrowIsThePools | OPFL/ConnectionPool.h:131-176 | the borrow step of the workers is one that the pool class allows |
| Borrowing.SlotsKept | OPFL/OPFL.cpp:65-106 | each step between two locked calls leaves every worker with exactly the loans that the place it stands at says |
| Borrowing.CountedKept | OPFL/ConnectionPool.h:131-195 | each step keeps the number of connections, and a destroyed one never comes back |
| Borrowing.ExclusiveKept | OPFL/OPFL.cpp:65-106 | each step keeps loans borrowed and of one worker each, and everything referenced in existence |
| Borrowing.CleanKept | OPFL/OPFL.cpp:264-280 | each step keeps free connections, and those lent for a session to come, with nothing to commit |
| Borrowing.EveryRun | OPFL/OPFL.cpp:65-106 | every state of every interleaving of any number of workers, from borrowing through their sessions to their end, keeps all of these |
| Borrowing.LoansAreSafe | OPFL/ConnectionPool.h:131-195 | in every run pool and loans add up to the pool size, a loan is of one worker only, and a destroyed connection is referenced nowhere |
| Borrowing.OthersAreLeftAlone | OPFL/OPFL.cpp:65-106 | in every run a step of one worker leaves the slots, the loans and the uncommitted writes of every other worker as they are |
| Borrowing.SessionsBeginClean | OPFL/OPFL.cpp:65-110 | in every run a worker that has borrowed twice has two different connections, on loan to it alone, with nothing to commit on either, and its session begins if no Commit is waiting |
| Borrowing.NothingStaysBehind | OPFL/OPFL.cpp:288-295 | in every run a worker that is gone has no loan and no reference |
| Borrowing.BothAreLent | OPFL/OPFL.cpp:65-77 | in every run, with two connections free, a worker borrows the first two of the pool, and whatever else it held is let go |
| Borrowing.AbandonedIsReplaced | OPFL/ConnectionPool.h:140-162 | in every run, with nothing free and a connection that no worker points to, a new connection takes its place and is lent |
| Borrowing.UnavailableTriesAgain | OPFL/OPFL.cpp:69-106 | in every run, with nothing free and every lent connection in use, either borrow leads back to the top of the loop, or out of it on a Commit, and changes nothing else |
| Borrowing.ImpossibleGivesUp | OPFL/OPFL.cpp:69-106 | in every run, with nothing free, something abandoned and no new connection to be had, either borrow leads out of the loop and changes nothing else |
| Borrowing.CommitGivesBoth | OPFL/OPFL.cpp:79-96 | in every run a Commit that finds both connections borrowed puts the second and then the first behind the pool, and no loan is left |
| Borrowing.WritesWait | DatabaseConnector/DatabaseConnector.cpp:55-82 | in every run a write of a session waits behind those before it on its own connection and a commit empties that one; no other connection is touched |
| Borrowing.EveryWorkerCanEnd | OPFL/OPFL.cpp:65-296 | from every reachable state every worker can come to its end by steps of its own without a crash, gives back what it owes, and leaves every other worker as it stood |
| Handoff.TurnKept | OPFL/OPFL.cpp:494-511 | Commit messages pass from dispatcher to queue to cleanup thread in the order they were sent |
| Handoff.GoneKept | OPFL/OPFL.cpp:321-329 | every worker the cleanup thread has passed is gone and stays gone |
| Handoff.AddressKept | OPFL/OPFL.cpp:501-509 | each step keeps: every message in an inbox or being read is protected and names that worker; that it is sent at all is `DeliveredKept` |
| Handoff.DeliveredKept | OPFL/OPFL.cpp:499-509 | each step keeps: of every entry the dispatcher has passed, the named worker has its message unread, reads it, is past it or left, and no other worker was sent anything |
| Handoff.FreedKept | OPFL/ThreadHive.h:1183-1227 | the arrays freed are those of the deleted original messages, in turn; deleting a message whose protection is on frees none |
| Handoff.EveryRun | OPFL/OPFL.cpp:310-335 | every state of every interleaving of dispatcher, workers and cleanup thread keeps the hand-off invariant |
| Handoff.CommitArrives | OPFL/OPFL.cpp:499-509 | in every run, of every entry the dispatcher has passed, the protected message is the only one in the inbox of the worker it names, unless that worker reads it, is past it or left; nobody else has it |
| Handoff.CommitReachesAll | OPFL/OPFL.cpp:494-511 | in every run a Commit of known workers not named before can send each of them its message, and only them, and then hand the original to the cleanup thread |
| Handoff.CommitIsServed | OPFL/OPFL.cpp:203-285 | in every run a worker whose message is unread can read it, delete it, which frees nothing, and leave |
| Handoff.FreedSafely | OPFL/OPFL.cpp:310-335 | in every run each array is freed at most once, by the cleanup thread, after all workers of its message have left, and no worker reads a freed array |
| Handoff.HivesDeletedSafely | OPFL/OPFL.cpp:316-331 | in every run the hives of a worker are deleted at most once, after it left, and the dispatcher never sends to deleted ones |
| Handoff.NothingLeaks | OPFL/OPFL.cpp:310-335 | when all Commit messages have passed through, every array was freed and every hive deleted |
| Handoff.EveryRunCanFinish | OPFL/OPFL.cpp:310-335 | from every reachable state what is under way can finish without a new message and with no worker leaving before it has read its message, and then every array was freed and every hive deleted |
| LeavePenalty.CounterIsEarned | OPFL/OPFL.cpp:161-187 | over every run from zero the counter stays in 0..5 and never exceeds the punishments since it was last zero; that they count is `EveryStep` and `PunishmentsCount` |
| LeavePenalty.EveryStep | OPFL/OPFL.cpp:161-268 | in every run a committed punishment takes the counter from 0..3 one up, from 4 to 5 with the stamp of that time, and from 5 to 1; a committed rejoin takes one off or clears a ban that is over; what is not committed changes nothing |
| LeavePenalty.PunishmentsCount | OPFL/OPFL.cpp:238-268 | after k committed punishments and no committed rejoin the counter is k up to 5, and starts again at 1 after each fifth |
| LeavePenalty.StampIsOfLatestBan | OPFL/OPFL.cpp:238-268 | the stamp is that of the latest step from four to five, or of the creation of the row; a counter of five has had such a step |
| LeavePenalty.StampChangesOnlyOnBan | OPFL/OPFL.cpp:238-268 | only the step from four to five changes the stamp or reaches five |
| LeavePenalty.RejoinWorksOff | OPFL/OPFL.cpp:161-177 | on every reachable row a rejoin takes one off or clears a ban that is over, and leaves less than a ban |
| LeavePenalty.BanIsReportedUnlessRejoining | OPFL/OPFL.cpp:200 | the ban flag sent to the client is set if and only if the ban lasts, the counter is five and the player does not rejoin |
| Database.RowsAreSeparate | DatabaseConnector/DatabaseConnector.cpp:55-60 | account writes and administration writes do not touch or read each other's row |
| Database.Connection.CommitData | DatabaseConnector/DatabaseConnector.cpp:69-82 | a commit makes the pending writes durable in order and as a whole; a failed one may have done so or nothing |
| Session.OpenBan | OPFL/OPFL.cpp:149-187 | the player's own transaction commits the rejoined row as a whole or leaves the row alone |
| Session.Open | OPFL/OPFL.cpp:110-201 | opening a session leaves the durable account row alone; the reply carries the rows the transactions see |
| Session.End | OPFL/OPFL.cpp:233-285 | punishment and account are each committed as a whole or not at all; a connection returned has nothing pending |
| Session.PublishedOne | OPFL/OPFL.cpp:203-232 | each served message adds its write behind those before |
| Session.AddsAreSums | DatabaseConnector/DatabaseConnector.cpp:55-60 | without a published account the row is the old one, or that of a new player, with the sums of all published kills and chickens added and the other columns as they were |
| Session.AddsBehindAccount | OPFL/OPFL.cpp:203-232 | a published account replaces the row whatever was published before, and kills and chickens published behind it are added to that |
| Session.WritesTally | OPFL/OPFL.cpp:203-232 | over every message sequence the writes leave the last account published, or the row before, plus the sums behind it |
| Session.TallyIsUnique | OPFL/OPFL.cpp:203-232 | there is only one such row |
| Session.Serve | OPFL/OPFL.cpp:108-296 | for every message sequence and every failure the durable account row is the one before or the last account published plus the kills and chickens published behind it, the latter only after the client's Commit; connections go back to the pool with nothing left to commit, and both do if no call fails |
| Session.SessionsAreRuns | OPFL/OPFL.cpp:161-268 | what sessions do to the administration row are steps of a penalty run, so the bounds of runs hold for them |
| PooledSession.BorrowBoth | OPFL/OPFL.cpp:69-77 | two borrows lend one worker two different connections with nothing to commit, or leave references and loans as they were |
| PooledSession.GiveBack | OPFL/OPFL.cpp:264-294 | connections with nothing to commit go back as asked, and no loan or reference of the worker is left |
| PooledSession.ServeFromPool | OPFL/OPFL.cpp:65-296 | a worker on its own, from borrowing to giving back: the session may be called on what the pool lends, the pool is valid afterwards, the durable account row is the old one or the tally of all messages served, and with two connections free it crashes only if a call fails |

## Left out

- Floating-point data and its precision: the parser model ends with an outcome of its own at a float tag.
- Malformed text behind the points where the code reads past the end, throws or terminates: these are outcomes, not continued.
- The 32-bit branch of addresses: the 64-bit build is modelled. The widths of the bracket counters: they are unbounded here.
- `std::to_string`, `std::stoll`, `std::stoull` and hexadecimal streams are modelled by their documented behaviour on digits, signs, spaces and overflow.
- ArmaData as an object that is parsed into twice, and `ClearData` beyond what the hand-off needs of it: parsing starts from a fresh object.
- `setDate`, `setTime`, the comparison operators of DateTime and DateTimeDuration, which call the members modelled.
- `mktime`, `difftime`, `now`, `now_utc` and the clock reading of `IsBanned`: whether a ban lasts is an input, and a stamp is a point in time rather than its printed form.
- WireRoundTrip.NothingElseComesOut: one way only beyond its arrays; with `@[` in a string the outcome depends on all the text behind it, and `WireRoundTrip.ArrayIsReread` says how.
- DateTimes.DateTime.GetDayOfYear: months above 13, for which the code reads past its table of month lengths.
- DateTimes.DateTime.CountDaysDownTo: calls `dayOfYear` of the stop date once before the loops, where the code calls it in every test.
- Registry.HandleList.SpawnThread: one copy of the hive is made and lives until the thread ends; `shares` starts at zero, which the source leaves uninitialised, and its updates under two different mutexes are atomic steps.
- `running`, `finished` and `success` of a handle appear only as the phases of a worker in the hand-off; `jdThread`, `increment`, `displayI` are plumbing.
- Mailbox.EveryRun: steps on values rather than methods, since other threads run between them; its queue is the sequence that the ring is proved to be, and its critical sections are tied to the methods of `Channel` by lemmas. The sizes and `int` indices of receiveAll are natural numbers.
- The walk of a second receiver on one handle: one receiver per handle is assumed.
- Borrowing.EveryRun: no claim that the borrowing loop ends by itself, since workers can hold one connection each and wait for a second (`Borrowing.EveryWorkerCanEnd` ends it by a Commit); the sessions in it write and commit in any order, and give back only what has nothing to commit, which is what `Session.Serve` proves of them.
- PooledSession.ServeFromPool: no other worker acts in between, and the second connection goes back after the account was committed rather than before; `Borrowing` has the interleavings and the source's order.
- A worker whose very first borrow is impossible ends by calling `ThreadEnd` through an empty pointer; `Borrowing` lets it leave.
- Handoff.EveryRun: the client commits known workers only, each at most once. A protected message left unread in the queue of a worker that crashed is not deleted, and its own memory is not modelled.
- Session.Serve: the row locks of `SELECT ... FOR UPDATE` are taken to keep other sessions from the same rows; SQL, driver, table widths and connection set-up are not modelled. The session keeps the connections it was given.
- The output thread's text, `RVExtension`'s other branches, output-buffer copying, `DllMain` and `ErrorFile`.
- Vendored headers under `Dependencies/` and the game's own configuration and scripts.
