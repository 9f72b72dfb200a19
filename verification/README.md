# Sipana, verified

Sipana observes SIP traffic passively, groups messages into sessions, ships finished sessions to a server,
and shows them in a web front end with a calendar widget and sequence diagrams. This project models the
parts of it that carry state or arithmetic, and proves what they promise:

* **Session tracker** (`SipMessages`, `SipTracker`, `SipReading`, `SipRuns`, `SipHandlers`, `SipMetrics`).
  `SipHandlers` has the mutable classes; each handler is proved to compute the functions of `SipTracker`.
  The theorems are about runs over arbitrary traces.
* **Delayed sender** (`DelayedSender`, `NullPayloads`, `DrainerStops`). The capture thread and the drainer
  thread as atomic steps over a shared queue; the theorems hold for every sequence of steps. The i-th
  session accepted is represented by the number i. This loses nothing because a session object is handed
  over at most once, which `SipHandlers.SipHandler.Valid` states. Testing the queue size and reading the
  running flag are separate steps, and so are the two size reads of the overflow test.
* **Calendar widget** (`CivilDate`, `IsoWeek`, `JsDates`, `MonthGrid`, `CalendarWidget`). `JsDate` is the
  mutable ECMAScript date with the overflow rule MakeDay of section 15.9.1.12 of ECMA-262 5.1, extended by
  the widget's methods; `Calendar` is the widget with its 42 cells.
* **Printing and parsing** (`Decimals`, `DateFormat`, `DateRoundTrip`, `DateSpecifiers`, `PartialFormats`,
  `InputField`, `EnglishNames`, `MillisConverter`, `TypedDates`). The date text as the calendar prints and
  parses it, and as the JSF converter reads and renders it.
* **Sequence diagrams** (`SipScenarios`). Columns, boxes and colours.

`Wrappers` holds the shared `Option` type.

Where the code does something other than its documentation suggests, the code is followed, and the exact
condition is proved:

* An arrow key moves by its number of days exactly when the target year is in the year range; otherwise
  drawing clamps the year and keeps month and day (`CalendarWidget.Calendar.ArrowKey`). So at the lower
  bound, the left key on 1 January leads to 31 December of the same year (`MonthGrid.ClampedDate`,
  `MonthGrid.ClampedAtBounds`).
* A printed date parses back exactly under the year and hour conditions of `DateRoundTrip.RoundTrip`;
  `EnglishNames.NotRestored` shows dates that do not come back. `%k` is among them, because hour 0 is falsy
  and the specifier is printed instead.
* A remark beside `%u` says that 1 stands for Monday. What is printed counts from Sunday, so it is wrong in
  that sense on every day (`DateSpecifiers.DayNumberAhead`). `%w` on Sundays, `%k` in the hour of midnight
  and `%s` in second 0 print the specifier (`DateSpecifiers.WeekPrinted`, `DateSpecifiers.ClockPrinted`).
* A text typed into the input field means the same minute to the calendar and to the converter exactly when
  neither its day nor its month is 00 (`TypedDates.TypedAgree`).
* The printed week number is that of the row's first day, and holds for the whole row exactly when Monday is
  the first column (`CalendarWidget.Calendar.PrintedWeekHolds`).
* The converter renders a text back exactly when the number is positive: 0 and negative numbers give the
  empty string (`MillisConverter.TextToText`, `MillisConverter.EpochVanishes`). The other way round, a
  number comes back from its text exactly when it is positive and its year has at most four digits
  (`MillisConverter.NumberToNumber`).
* The duration metric is negative for an established call that ended without BYE or CANCEL, and the request
  delay is negative when no set-up time was recorded (`SipMetrics.DelaysOfEmittedSessions`, with
  `SipMetrics.CanceledCall` and `SipMetrics.FailedReInvite`).
* The drainer can send a null payload in two ways: a stored message makes the second loop peek the session
  queue, which may be empty, and the producer can empty the queue between the size test and the peek.
  `NullPayloads.NullDeliverable` says exactly for which numbers of calls that can happen.
* The discard counter also counts polls of an empty queue, exactly when it can count at all
  (`NullPayloads.NullPollable`).
* A drain pass ends by itself exactly when no message is stored; otherwise it delivers the queue and then
  null again and again (`DelayedSender.PassEnds`, `DelayedSender.DrainRepeatsNull`).
* A first-response time of 0 means "none yet", so responses stamped 0 are skipped
  (`SipTracker.IsTimedResponse`).

`dafny verify dfyconfig.toml` checks everything.

## Model

| member | source | states |
|---|---|---|
| SipRuns.RunIndependent | sipana-agent/src/main/java/org/sipana/agent/sip/SIPHandler.java:49-119 | For every trace and Call-ID, the table entry and the sequence of sends of that Call-ID are those of its own packets run alone. |
| SipRuns.SendsGrow | sipana-agent/src/main/java/org/sipana/agent/sip/SIPHandler.java:285-302 | Sends are never taken back or reordered: those after any part of the trace come first among those after the whole, and each further message adds at most one. |
| SipRuns.HandleEntry | sipana-agent/src/main/java/org/sipana/agent/sip/SIPHandler.java:49-161 | A message changes only the entry and the sends of its own Call-ID, and changes those as the session handlers say. |
| SipReading.RunFaithful | sipana-agent/src/main/java/org/sipana/agent/sip/SIPHandler.java:121-302 | After any trace every table entry sits under its Call-ID, holds only messages of that Call-ID, has seen no final response, and equals the declarative reading of its messages; every emitted session equals its reading closed by its last message, the only final one. |
| SipReading.AbsorbReads | sipana-agent/src/main/java/org/sipana/agent/sip/SIPHandler.java:83-107 | For any message list, absorbing one more message gives the reading of the longer list, or that reading closed when the message is final. |
| SipReading.CreatedShape | sipana-commons/src/main/java/org/sipana/protocol/sip/SIPSession.java:76-86 | A session made from an opening request is the reading of that one request. |
| SipReading.FirstTimeMeans | sipana-agent/src/main/java/org/sipana/agent/sip/SIPHandler.java:86-88 | The first-event time used in the readings is the time at the first index that satisfies the event, or 0. |
| SipReading.LastTimeMeans | sipana-agent/src/main/java/org/sipana/agent/sip/SIPHandler.java:147-153 | The last-event time used in the readings is the time at the last index that satisfies the event, or 0. |
| SipReading.TalkingMeans | sipana-agent/src/main/java/org/sipana/agent/sip/SIPHandler.java:147-153 | The talking part of a message list is what comes before its first BYE or CANCEL. |
| SipRuns.RunConserves | sipana-agent/src/main/java/org/sipana/agent/sip/SIPHandler.java:49-161 | The multiset of handled messages is the sum of those in live, emitted and overwritten sessions, sent alone, and dropped. |
| SipRuns.LiveWithout | sipana-agent/src/main/java/org/sipana/agent/sip/SIPHandler.java:271-283 | The messages held by the table are those of any one entry plus those of the rest. |
| SipRuns.RunUnbroken | sipana-agent/src/main/java/org/sipana/agent/sip/SIPHandler.java:83-84 | A live session holds everything captured for its Call-ID since it began; an emitted session holds an unbroken stretch of it. |
| SipRuns.RunForward | sipana-agent/src/main/java/org/sipana/agent/sip/SIPHandler.java:163-253 | Until a final response or a request with another method, a session stays in the table, collects exactly its packets, keeps its recorded times and never moves to an earlier state. |
| SipRuns.AckSendsNothing | sipana-agent/src/main/java/org/sipana/agent/sip/SIPHandler.java:132-145 | After any trace an ACK sends nothing: the FAILED branch is dead. |
| SipRuns.RunTimes | sipana-agent/src/main/java/org/sipana/agent/sip/SIPHandler.java:86-88 | With nondecreasing positive packet times, start, first response, set-up, established, disconnection and end times are ordered in every live and emitted session. |
| SipMetrics.DelaysOfEmittedSessions | sipana-server-ejb/src/main/java/org/sipana/server/ejb/impl/SIPPerformanceMetricsBean.java:133-181 | With positive nondecreasing packet times, registration and disconnect delays of emitted sessions are never negative. The request delay is nonnegative exactly when the session's messages hold a ringing or a 200 to an INVITE before the first BYE or CANCEL, or do not end with a 200 to a BYE or CANCEL; the duration exactly when they hold a BYE or CANCEL, or no 200 to an INVITE. |
| SipMetrics.DelaysInMessages | sipana-server-ejb/src/main/java/org/sipana/server/ejb/impl/SIPPerformanceMetricsBean.java:133-181 | For every trace, the four delays of an emitted session are differences of the times of its own opening request, last message, last BYE or CANCEL, first 200 to an INVITE and first ringing or answer. |
| SipMetrics.CanceledCall | sipana-server-ejb/src/main/java/org/sipana/server/ejb/impl/SIPPerformanceMetricsBean.java:179-181 | INVITE, CANCEL and the 200 to the CANCEL emit a session with request delay -1. |
| SipMetrics.FailedReInvite | sipana-server-ejb/src/main/java/org/sipana/server/ejb/impl/SIPPerformanceMetricsBean.java:162-164 | INVITE, its 200 and a failure emit a session with duration -2. |
| SipHandlers.SipSession.constructor | sipana-commons/src/main/java/org/sipana/protocol/sip/SIPSession.java:76-86 | The new session has the request as its only message, the request's identity and time, and no other time. |
| SipHandlers.SipHandler.OnTrace | sipana-agent/src/main/java/org/sipana/agent/sip/SIPHandler.java:312-349 | Handling a whole capture leaves the handler in the state of the run over values; sent session objects are distinct, gone from the table and never changed afterwards. |
| SipHandlers.SipHandler.OnMessage | sipana-agent/src/main/java/org/sipana/agent/sip/SIPHandler.java:335-340 | One message, dispatched by kind, has the effect of one step of the run. |
| SipHandlers.SipHandler.ProcessSessionResponse | sipana-agent/src/main/java/org/sipana/agent/sip/SIPHandler.java:83-108 | The handler for a known session does to the object, the table and the sends what the effect over values says. |
| SipHandlers.SipHandler.ProcessSuccessful | sipana-agent/src/main/java/org/sipana/agent/sip/SIPHandler.java:181-220 | 200 responses by related method, including the two ways of ending a session. |
| SipHandlers.SipHandler.ProcessFailure | sipana-agent/src/main/java/org/sipana/agent/sip/SIPHandler.java:259-269 | A failure ends the session, and its set-up time moves because the state is overwritten before it is tested. |
| SipHandlers.SipHandler.TerminateSession | sipana-agent/src/main/java/org/sipana/agent/sip/SIPHandler.java:285-302 | The session is handed over once with its current value and leaves the table. |
| SipHandlers.SipHandler.AddSession | sipana-agent/src/main/java/org/sipana/agent/sip/SIPHandler.java:271-274 | The session takes the place of whatever its Call-ID held. |
| DelayedSender.EverySessionAccountedFor | sipana-agent/src/main/java/org/sipana/agent/sender/jms/JMSSender.java:80-92 | Under every interleaving each accepted session is queued, delivered, or polled out; queued sessions were never polled, and polls never outnumber the discard counter. |
| DelayedSender.DeliveredOnceInOrder | sipana-agent/src/main/java/org/sipana/agent/sender/jms/JMSSender.java:278-310 | Under every interleaving, with failing and retried sends, real deliveries rise strictly in acceptance order, hence happen at most once each. |
| DelayedSender.QueueBounded | sipana-agent/src/main/java/org/sipana/agent/sender/jms/JMSSender.java:257-259 | The session queue never exceeds the buffer size (or 0, if that is negative) by more than one. |
| NullPayloads.QueueBoundReached | sipana-agent/src/main/java/org/sipana/agent/sender/jms/JMSSender.java:84-91 | The bound is tight for every buffer size, negative ones included. |
| NullPayloads.NullDeliverable | sipana-agent/src/main/java/org/sipana/agent/sender/jms/JMSSender.java:80-116 | For every buffer size, a run with n calls of send(session) and k stored messages that sends a null payload exists exactly when k is at least 1 or n is at least two more than the buffer holds. |
| NullPayloads.NullPollable | sipana-agent/src/main/java/org/sipana/agent/sender/jms/JMSSender.java:84-91 | For every buffer size, n calls and k stored messages, a run that polls an empty queue and counts that as a discard exists exactly when n reaches the number of calls from which an overflow is possible; below it nothing is counted. |
| DelayedSender.StepInv | sipana-agent/src/main/java/org/sipana/agent/sender/jms/JMSSender.java:80-116 | Every step of either thread, of a failing send, of stopping and of restarting keeps the queue a contiguous tail of the accepted sessions and the other invariants. |
| DelayedSender.DrainDelivers | sipana-agent/src/main/java/org/sipana/agent/sender/jms/JMSSender.java:292-302 | With no stored messages, no other thread, no failure and no stop, both drain loops end after delivering exactly the queue in order. |
| DelayedSender.PassEnds | sipana-agent/src/main/java/org/sipana/agent/sender/jms/JMSSender.java:290-302 | With no other thread, no failure and no stop, a drain pass ends exactly when no message is stored. |
| DelayedSender.DrainRepeatsNull | sipana-agent/src/main/java/org/sipana/agent/sender/jms/JMSSender.java:298-302 | With stored messages the pass delivers the queue in order and then null, once per turn of the second loop, for any number of turns. |
| DelayedSender.FirstReadDecides | sipana-agent/src/main/java/org/sipana/agent/sender/jms/JMSSender.java:257-259 | Under every interleaving, whether a session is discarded is decided by the queue length at the producer's first size read, however much is drained before the sum is compared. |
| DelayedSender.PassRefused | sipana-agent/src/main/java/org/sipana/agent/sender/jms/JMSSender.java:290-302 | A pass begun with the running flag clear changes nothing and ends. |
| DrainerStops.StoppedDelivers | sipana-agent/src/main/java/org/sipana/agent/sender/jms/JMSSender.java:323-332 | Once the running flag is clear, and until a restart, at most the one item that the drainer was about to send is delivered, under every interleaving; none when it was not past its last test. |
| DrainerStops.StoppedRests | sipana-agent/src/main/java/org/sipana/agent/sender/jms/JMSSender.java:323-332 | A stopped drainer is at rest after at most seven steps of its own, under every interleaving, and stays at rest. |
| DrainerStops.FailureEndsPass | sipana-agent/src/main/java/org/sipana/agent/sender/jms/JMSSender.java:292-311 | A send that throws leaves the queue alone and ends the pass: under every interleaving nothing is delivered before the next wake-up. |
| DrainerStops.RetryDelivers | sipana-agent/src/main/java/org/sipana/agent/sender/jms/JMSSender.java:278-310 | The pass after a send that threw delivers the whole queue in order, the failed session included. |
| DrainerStops.RestartDelivers | sipana-agent/src/main/java/org/sipana/agent/sender/jms/JMSSender.java:230-256 | A stopped drainer ignores wake-ups; after a restart the next wake-up delivers the queue. |
| DelayedSender.JmsSender.Send | sipana-agent/src/main/java/org/sipana/agent/sender/jms/JMSSender.java:80-101 | An uninterrupted call is the run of the producer's steps in delayed mode; otherwise the session is sent when connected and discarded when not. |
| DelayedSender.JmsSender.DrainPass | sipana-agent/src/main/java/org/sipana/agent/sender/jms/JMSSender.java:290-302 | One drain pass empties the queue in order exactly when the drainer is running; otherwise it changes nothing; with stored messages it then sends null until it is stopped. It is a run of the drainer's steps, with that stop. |
| CivilDate.CivilOfDay | sipana-server-war/src/main/webapp/sipsession/resources/calendar/calendar.js:1677-1687 | Every day number has a valid civil date, whose day number is that day. |
| CivilDate.DayOfCivil | sipana-server-war/src/main/webapp/sipsession/resources/calendar/calendar.js:1677-1687 | Every valid civil date is recovered from its day number. |
| CivilDate.YearLength | sipana-server-war/src/main/webapp/sipsession/resources/calendar/calendar.js:1682-1683 | Years are 365 days long, or 366 by the leap rule of the widget. |
| CivilDate.Anchored | sipana-server-war/src/main/webapp/sipsession/resources/calendar/calendar.js:1677-1687 | Day 0 is 1 January 1970, a Thursday; weekdays advance by one each day, and 400 years are 146097 days, whole weeks. |
| JsDates.LocalFields | sipana-server-war/src/main/webapp/sipsession/resources/calendar/calendar.js:1646 | A date built from year, month, day, hours, minutes and seconds in their ranges has those fields, except that the years 0 to 99 become 1900 to 1999. |
| JsDates.ClockFields | sipana-server-war/src/main/webapp/sipsession/resources/calendar/calendar.js:1739-1741 | Hours, minutes, seconds and milliseconds make up the time of day, each in its range. |
| JsDates.JsDate.SetFullYear | sipana-server-war/src/main/webapp/sipsession/resources/calendar/calendar.js:1793-1800 | The patched setter gives the year, the same month, and the day capped at that month's length, with the time of day unchanged. |
| JsDates.JsDate.SetDateOnly | sipana-server-war/src/main/webapp/sipsession/resources/calendar/calendar.js:1718-1724 | From any start date, the date becomes exactly the target date and the time of day stays. |
| JsDates.JsDate.GetWeekNumber | sipana-server-war/src/main/webapp/sipsession/resources/calendar/calendar.js:1698-1706 | The week number is the ISO week, counted in Thursdays, of the date in the century the constructor gives its year. |
| JsDates.RebuiltDay | sipana-server-war/src/main/webapp/sipsession/resources/calendar/calendar.js:1698-1699 | Outside the years 0 to 99 the rebuilt date is the date itself, so the week number is its own ISO week. |
| IsoWeek.SameWeek | sipana-server-war/src/main/webapp/sipsession/resources/calendar/calendar.js:1697-1706 | Week and week year are constant from Monday to Sunday and advance by one on the next Monday of the same week year. |
| IsoWeek.Week53 | sipana-server-war/src/main/webapp/sipsession/resources/calendar/calendar.js:1705 | Week 53 exists exactly in years starting on a Thursday or leap years starting on a Wednesday; all weeks lie in 1 to 53. |
| IsoWeek.WeekChanges | sipana-server-war/src/main/webapp/sipsession/resources/calendar/calendar.js:1697-1706 | A week later the week number is another one, across year ends too. |
| IsoWeek.RoundedDistance | sipana-server-war/src/main/webapp/sipsession/resources/calendar/calendar.js:1700-1705 | The rounded distance from 4 January to the week's Thursday counts the Thursdays of the year. |
| JsDates.JsDate.GetDayOfYear | sipana-server-war/src/main/webapp/sipsession/resources/calendar/calendar.js:1690-1695 | Days since the last day of the previous year. |
| JsDates.DayOfYearCounts | sipana-server-war/src/main/webapp/sipsession/resources/calendar/calendar.js:1690-1695 | The day of the year is the sum of the earlier month lengths plus the day of month, and lies in 1 to 365 or 366. |
| JsDates.DayOfYearIsDistance | sipana-server-war/src/main/webapp/sipsession/resources/calendar/calendar.js:1690-1695 | The day of the year is the distance from 1 January plus one, for every date; only from March of year 0 on, which the constructor reads as 1900, it is one less. |
| JsDates.DayOfYearDetermines | sipana-server-war/src/main/webapp/sipsession/resources/calendar/calendar.js:1690-1695 | Year and day of the year determine the date, for every year; only 29 February and 1 March of year 0 share their number. |
| JsDates.JsDate.EqualsTo | sipana-server-war/src/main/webapp/sipsession/resources/calendar/calendar.js:1709-1715 | Two dates are equal for the widget exactly when day and minute of the day agree. |
| MonthGrid.ShownMonth | sipana-server-war/src/main/webapp/sipsession/resources/calendar/calendar.js:1131 | Among the 42 days shown, having the month's number is the same as lying in the month. |
| MonthGrid.InMonthMeans | sipana-server-war/src/main/webapp/sipsession/resources/calendar/calendar.js:1131 | Lying in the month of a date is having its year and month. |
| MonthGrid.FirstRow | sipana-server-war/src/main/webapp/sipsession/resources/calendar/calendar.js:1104-1109 | The grid begins on the first weekday chosen, within the week of the first of the month. |
| MonthGrid.GridShowsMonth | sipana-server-war/src/main/webapp/sipsession/resources/calendar/calendar.js:1104-1131 | Each day of the month is shown in exactly one of the 42 cells. |
| MonthGrid.RowWeek | sipana-server-war/src/main/webapp/sipsession/resources/calendar/calendar.js:1118-1122 | All days of a row lie in the same ISO week exactly when Monday is the first column. |
| MonthGrid.ClicksTraced | sipana-server-war/src/main/webapp/sipsession/resources/calendar/calendar.js:616-669 | Any run of month and year clicks stays in the year range, moves the month index by exactly the unblocked clicks, and leaves the day at the smallest of the start day and the lengths of the months visited. |
| MonthGrid.OneClick | sipana-server-war/src/main/webapp/sipsession/resources/calendar/calendar.js:616-669 | A click goes to the month its number of months away, with the day capped, exactly when the year of that month is in the range, across year ends too; otherwise the date stays. |
| MonthGrid.ClampedInRange | sipana-server-war/src/main/webapp/sipsession/resources/calendar/calendar.js:1087-1094 | Drawing lands in the year range and leaves a date alone exactly when its year is in range. |
| MonthGrid.ClampedDate | sipana-server-war/src/main/webapp/sipsession/resources/calendar/calendar.js:1087-1094 | Clamping keeps the month and, up to the length of the month, the day, and takes the nearer bound for the year. |
| MonthGrid.ClampedAtBounds | sipana-server-war/src/main/webapp/sipsession/resources/calendar/calendar.js:1087-1094 | The day before the first year of the range is drawn as the last day of that year, and the day after the last year as the first day of that one. |
| CalendarWidget.Calendar.Init | sipana-server-war/src/main/webapp/sipsession/resources/calendar/calendar.js:1081-1193 | Every cell holds its day, time, position and flags, each row its week number, and the selected cell is the one that shows the (clamped) date. |
| CalendarWidget.Calendar.MoveToFirstShown | sipana-server-war/src/main/webapp/sipsession/resources/calendar/calendar.js:1104-1109 | The cursor goes to the first of the month minus the lead of its weekday over the first column. |
| CalendarWidget.Calendar.DrawCell | sipana-server-war/src/main/webapp/sipsession/resources/calendar/calendar.js:1125-1183 | One cell is drawn by the widget's rules, the others stay, and the selection moves exactly on the selected date. |
| CalendarWidget.Calendar.CellsShown | sipana-server-war/src/main/webapp/sipsession/resources/calendar/calendar.js:1125-1183 | Every cell of the grid is enabled exactly when its day has the month and year of the date or other months are shown, and carries its day with the date's time. |
| CalendarWidget.Calendar.CellClick | sipana-server-war/src/main/webapp/sipsession/resources/calendar/calendar.js:578-601 | Clicking an enabled cell selects its day, redrawing only for another month, and the grid invariant holds again. |
| CalendarWidget.Calendar.ClickButton | sipana-server-war/src/main/webapp/sipsession/resources/calendar/calendar.js:607-698 | A month or year button moves to the target month with the day capped, or nowhere when the target year is out of range. |
| CalendarWidget.ButtonTarget | sipana-server-war/src/main/webapp/sipsession/resources/calendar/calendar.js:638-669 | The year and month each of the four buttons leads to, with the day capped, and that it leads nowhere exactly when that year is out of range. |
| CalendarWidget.Calendar.SetMonthCapped | sipana-server-war/src/main/webapp/sipsession/resources/calendar/calendar.js:618-625 | The nested month setter caps the day and never spills into another month. |
| CalendarWidget.Calendar.SetDate | sipana-server-war/src/main/webapp/sipsession/resources/calendar/calendar.js:1233-1237 | The date is taken over and drawn unless it equals the selected one up to the minute. |
| CalendarWidget.Calendar.SetFirstDayOfWeek | sipana-server-war/src/main/webapp/sipsession/resources/calendar/calendar.js:1250-1253 | Redrawing with another first column keeps the selected date. |
| CalendarWidget.Calendar.ArrowKey | sipana-server-war/src/main/webapp/sipsession/resources/calendar/calendar.js:994-1066 | An arrow key moves the date by -1, -7, 1 or 7 days, in the grid or off it, up to clamping, and by exactly that exactly when the target year is in range; the loop ends and the selection is consistent again. |
| CalendarWidget.KeysOnGrid | sipana-server-war/src/main/webapp/sipsession/resources/calendar/calendar.js:1019-1062 | Within the grid the days of an arrow key are those to the neighbouring cell. |
| CalendarWidget.Calendar.CurrentCell | sipana-server-war/src/main/webapp/sipsession/resources/calendar/calendar.js:1002-1007 | The selected cell is enabled, shows the selected date, and its position decodes to its row and column. |
| CalendarWidget.Calendar.DisplayWeekdays | sipana-server-war/src/main/webapp/sipsession/resources/calendar/calendar.js:1520-1540 | The header weekday of a column is the weekday of every day shown in it. |
| CalendarWidget.Calendar.PrintedWeekHolds | sipana-server-war/src/main/webapp/sipsession/resources/calendar/calendar.js:1118-1122 | The printed week number is that of the row's first day, and the ISO week of all seven days exactly when Monday is the first column. |
| DateFormat.ParseDate | sipana-server-war/src/main/webapp/sipsession/resources/calendar/calendar.js:1584-1647 | The parsing loop computes the fields token by token, with NaN replaced by today's values, up to the guessing part. |
| DateFormat.FindMonth | sipana-server-war/src/main/webapp/sipsession/resources/calendar/calendar.js:1615-1617 | The month loop finds the first month that the token abbreviates, case-blind, and otherwise changes nothing. |
| DateRoundTrip.AbbreviatesMeans | sipana-server-war/src/main/webapp/sipsession/resources/calendar/calendar.js:1616 | A token abbreviates a name when it is no longer and agrees with its start letter by letter, in either case. |
| DateRoundTrip.MentionsAnywhere | sipana-server-war/src/main/webapp/sipsession/resources/calendar/calendar.js:1629-1632 | The marks am and pm are found in either case and anywhere in a token. |
| DateRoundTrip.PrintHead | sipana-server-war/src/main/webapp/sipsession/resources/calendar/calendar.js:1777-1779 | A specifier, the text after it and the rest of the format are printed one after the other, and give the specifiers in order. |
| DateRoundTrip.LineEndLiteral | sipana-server-war/src/main/webapp/sipsession/resources/calendar/calendar.js:1590-1777 | A percent sign before a line end is printed as it is and is no specifier. |
| DateRoundTrip.SplitWord | sipana-server-war/src/main/webapp/sipsession/resources/calendar/calendar.js:1589 | A word, a gap of other characters and the rest split into the word and the tokens of the rest. |
| DateSpecifiers.NumeralUnique | sipana-server-war/src/main/webapp/sipsession/resources/calendar/calendar.js:1748-1766 | A number has one numeral of each width, so that value and width below say exactly what is printed. |
| DateSpecifiers.DatePrinted | sipana-server-war/src/main/webapp/sipsession/resources/calendar/calendar.js:1747-1774 | %d and %m print two digits, %j three, %e, %Y and %C no padding; a year 0 or century 0 prints the specifier. |
| DateSpecifiers.ClockPrinted | sipana-server-war/src/main/webapp/sipsession/resources/calendar/calendar.js:1752-1765 | %H, %I, %M and %S print two digits, %k and %l no padding, %s the floored UTC second; 0 prints the specifier for %k and %s; %p and %P tell morning from afternoon. |
| DateSpecifiers.WeekPrinted | sipana-server-war/src/main/webapp/sipsession/resources/calendar/calendar.js:1768-1770 | %U, %V and %W print the ISO week with two digits, %u the weekday from Sunday, 1, and %w from Sunday, 0, which prints the specifier. |
| DateSpecifiers.DayNumberAhead | sipana-server-war/src/main/webapp/sipsession/resources/calendar/calendar.js:1769 | On every day %u prints the ISO number of the next day, and never that of the day itself, which the remark beside it announces. |
| DateSpecifiers.ShortYearPrinted | sipana-server-war/src/main/webapp/sipsession/resources/calendar/calendar.js:1773 | %y prints the third and fourth digit of %Y as far as there are any, and the specifier in the years 0 to 99. |
| DateSpecifiers.ClockReadsBack | sipana-server-war/src/main/webapp/sipsession/resources/calendar/calendar.js:1752-1765 | %H, %M and %S read back give the second of the day. |
| DateSpecifiers.OrdinalReadsBack | sipana-server-war/src/main/webapp/sipsession/resources/calendar/calendar.js:1754-1774 | %Y and %j read back give the day, from year 1 on. |
| DateSpecifiers.EpochReadsBack | sipana-server-war/src/main/webapp/sipsession/resources/calendar/calendar.js:1764 | %s read back gives the UTC second, before and after 1970, except that second 0 prints the specifier. |
| DateSpecifiers.NamesPrinted | sipana-server-war/src/main/webapp/sipsession/resources/calendar/calendar.js:1742-1745 | %b and %B print the names of the month that %m prints, %a and %A those of the weekday; an empty name prints the specifier. |
| DateSpecifiers.NamesUnderHeader | sipana-server-war/src/main/webapp/sipsession/resources/calendar/calendar.js:1520-1540 | The weekday name printed for a day of the grid is the one that the header shows over its column. |
| DateSpecifiers.OthersPrinted | sipana-server-war/src/main/webapp/sipsession/resources/calendar/calendar.js:1759-1779 | %n, %t and %% print one character, and a specifier without a meaning is printed as it is. |
| DateRoundTrip.PrintedTokens | sipana-server-war/src/main/webapp/sipsession/resources/calendar/calendar.js:1727-1779 | From its first word on, printed text splits into the tokens of its specifiers in order, for every date and every format that starts with a specifier and separates specifiers by non-word characters. |
| DateRoundTrip.TwoDigits | sipana-server-war/src/main/webapp/sipsession/resources/calendar/calendar.js:1773 | A two-digit year is read as 1930 to 2029, and is right exactly in those years. |
| DateRoundTrip.MonthFound | sipana-server-war/src/main/webapp/sipsession/resources/calendar/calendar.js:1613-1618 | Short and full month names are recognised as their own month. |
| DateRoundTrip.MeridiemRestores | sipana-server-war/src/main/webapp/sipsession/resources/calendar/calendar.js:1627-1633 | AM and PM after a 12-hour or 24-hour value give back the hour. |
| DateRoundTrip.RoundTrip | sipana-server-war/src/main/webapp/sipsession/resources/calendar/calendar.js:1584-1646 | For every date, parsing what was printed restores year, month, day, hour and minute exactly when the year is at least 100, the last year specifier is %Y or the year is in 1930 to 2029, and the last hour specifier is %H, or %k and the hour is not 0 or today's is 0, or %I or %l with %p or %P after it or an hour from 1 to 12. |
| DateRoundTrip.ParsedYearFrom100 | sipana-server-war/src/main/webapp/sipsession/resources/calendar/calendar.js:1606-1610 | Whatever the text and the format, a parsed date lies in year 100 or later. |
| DateRoundTrip.CleanStart | sipana-server-war/src/main/webapp/sipsession/resources/calendar/calendar.js:1727-1779 | From year 100 on, text starts with a word whenever the first specifier is one that prints its token alone. |
| PartialFormats.GuessesExactly | sipana-server-war/src/main/webapp/sipsession/resources/calendar/calendar.js:1645 | Printed text is guessed at exactly when its format lacks year, month or day. |
| PartialFormats.FieldsLacking | sipana-server-war/src/main/webapp/sipsession/resources/calendar/calendar.js:1586-1594 | What stands for a field that the format lacks: no date field, and midnight, or noon when an afternoon mark comes without an hour. |
| PartialFormats.DateOnlyRoundTrip | sipana-server-war/src/main/webapp/sipsession/resources/calendar/calendar.js:1584-1646 | A format with a date and no time brings the date back at midnight exactly when the year is at least 100 and the last year specifier keeps it. |
| InputField.FieldRoundTrip | sipana-server-war/src/main/webapp/sipsession/resources/calendar/calendar.js:1584-1646 | The input field's format with any year and hour specifier: which dates come back, exactly. |
| InputField.InputFieldRoundTrip | sipana-server-war/src/main/webapp/sipsession/resources/script/script.js:7 | A date comes back from the input field's own format, to the minute, exactly when its year is at least 100. |
| EnglishNames.EnglishIsGood | sipana-server-war/src/main/webapp/sipsession/resources/calendar/lang/calendar-en.js:13-84 | The names of the English language file are words, and each short month name abbreviates its own month only, as the round trip requires. |
| EnglishNames.NotRestored | sipana-server-war/src/main/webapp/sipsession/resources/calendar/calendar.js:1606-1625 | Midnight of 1 January 2030, printed with the English names, does not come back from %y or from %I, and comes back from %k exactly when parsed in the hour of midnight. |
| MillisConverter.AcceptedSplits | sipana-server-war/src/main/java/org/sipana/server/web/sip/converter/MillisConverter.java:37-50 | An accepted text splits into three or five nonempty numbers, so no index and no number parse can fail. |
| MillisConverter.RefusedExactly | sipana-server-war/src/main/java/org/sipana/server/web/sip/converter/MillisConverter.java:34-62 | Exactly the texts that are neither two, two and four digits with blanks after them, nor these, blanks, two and two digits with blanks after them, are refused; 0 stands for the literal empty string alone. |
| MillisConverter.DateTimeTextToMillis | sipana-server-war/src/main/java/org/sipana/server/web/sip/converter/MillisConverter.java:38-53 | Every accepted date with a time from year 1583 on is read by its five numbers, whatever they are, with overflowing fields carried over. |
| MillisConverter.TextToMillis | sipana-server-war/src/main/java/org/sipana/server/web/sip/converter/MillisConverter.java:37-53 | The text of any minute in a four-digit year from 1583 parses to that minute plus the clock's seconds and milliseconds. |
| MillisConverter.DateTextToMillis | sipana-server-war/src/main/java/org/sipana/server/web/sip/converter/MillisConverter.java:38-45 | A date without a time gives that day at the clock's time of day, with day and month texts from 00 to 99 rolling over. |
| MillisConverter.TextToText | sipana-server-war/src/main/java/org/sipana/server/web/sip/converter/MillisConverter.java:66-81 | Rendering the parsed number gives the text back exactly when the number is positive. |
| MillisConverter.NumberToNumber | sipana-server-war/src/main/java/org/sipana/server/web/sip/converter/MillisConverter.java:66-81 | Rendering a number and reading the text gives back its minute exactly when the number is positive and its year has at most four digits. |
| MillisConverter.LongYearRefused | sipana-server-war/src/main/java/org/sipana/server/web/sip/converter/MillisConverter.java:37-38 | A date from year 10000 on is rendered as text that is not accepted. |
| MillisConverter.EpochVanishes | sipana-server-war/src/main/java/org/sipana/server/web/sip/converter/MillisConverter.java:66-81 | The text of the first minute of 1970 parses to 0, which renders as the empty string. |
| MillisConverter.PositiveText | sipana-server-war/src/main/java/org/sipana/server/web/sip/converter/MillisConverter.java:69-71 | The digits-only test that excludes "0" accepts exactly the positive numbers. |
| MillisConverter.AcrossComponents | sipana-server-war/src/main/webapp/sipsession/resources/script/script.js:7 | Text printed by the calendar for the input field is accepted by the converter, gives the same minute, and is rendered back as the same text exactly when the number is positive. |
| TypedDates.ParseIntMeans | sipana-server-war/src/main/webapp/sipsession/resources/calendar/calendar.js:1600-1636 | The number of a token is that of its leading digits, and none without any. |
| TypedDates.NoSpecifiersExactly | sipana-server-war/src/main/webapp/sipsession/resources/calendar/calendar.js:1590-1598 | Parsing fails exactly when the format has no specifier and the text has a word. |
| TypedDates.TypedWords | sipana-server-war/src/main/webapp/sipsession/resources/calendar/calendar.js:1584-1646 | Any five words typed into the input field are read as numbers; what is no number stands for today's value, and a year, month or day of 0 leaves the date to be guessed. |
| TypedDates.TypedNumbers | sipana-server-war/src/main/webapp/sipsession/resources/calendar/calendar.js:1584-1646 | Any five numbers typed give the date they say, short years pivoted and large fields carried over, unless day or month is 0. |
| TypedDates.TypedAgree | sipana-server-war/src/main/webapp/sipsession/resources/script/script.js:7 | For numbers of the converter's lengths, from year 1583 on, calendar and converter read the same minute, overflowing fields included, exactly when neither day nor month is 00. |
| SipScenarios.KeyInjective | sipana-sipscenario/src/main/java/org/sipana/sip/SIPScenario.java:206-207 | Endpoint keys are distinct per address and port. |
| SipScenarios.FirstAppearancesOrdered | sipana-sipscenario/src/main/java/org/sipana/sip/SIPScenario.java:205-218 | The endpoints listed are those that occur, each once, in order of first appearance. |
| SipScenarios.EndpointKeysOf | sipana-sipscenario/src/main/java/org/sipana/sip/SIPScenario.java:205-218 | Endpoints are listed message by message, source before destination, and Call-IDs message by message. |
| SipScenarios.SipScenario.CreateHostList | sipana-sipscenario/src/main/java/org/sipana/sip/SIPScenario.java:200-221 | The k-th endpoint to appear gets column 134 + 150k, and no other endpoint is listed. |
| SipScenarios.SipScenario.Create | sipana-sipscenario/src/main/java/org/sipana/sip/SIPScenario.java:82-180 | Every lookup while drawing succeeds; columns, box positions, image size and colours are those of the layout. |
| SipScenarios.SipScenario.GetSessionColor | sipana-sipscenario/src/main/java/org/sipana/sip/SIPScenario.java:223-241 | The j-th distinct Call-ID gets colour j modulo the palette size, on every later call too. |
| SipScenarios.LayoutFits | sipana-sipscenario/src/main/java/org/sipana/sip/SIPScenario.java:86-87 | All columns and boxes lie inside the image, boxes tile downwards, and an arrow has zero width exactly for equal endpoints. |
| SipScenarios.ArrowEnds | sipana-sipscenario/src/main/java/org/sipana/sip/SIPScenario.java:130-153 | An arrow runs from column 134 + 150i of the source, the i-th endpoint to appear, to that of the destination, with box k at height 32 + 26k. |

## Left out

- Packet capture and the SIP parser: messages arrive parsed (a packet that fails to parse is logged and changes nothing), with the fields that the tracker and the diagrams read; display names, request address, reason phrase and max-forwards are not kept.
- Failing sends in the tracker: the exception is caught and the entry removed regardless, so the log of sends counts attempts.
- Logging, configuration, JMS and JNDI set-up, and the reconnector's waiting. A restart is a step taken while the old drainer waits; two drainers at work at once are not modelled.
- Stored standalone messages: only their number is kept, because the second drain loop reads and removes sessions, never messages.
- Loop guards of the drainer: the weakly consistent `size()` of the concurrent queue is read as an exact size.
- Averages and ratios of the performance metrics, and hops per request: the averages assign where they should add, and the completion ratio divides integers.
- Document structure, styles, events, positioning, dragging, tooltips, combo boxes, the time row, the today and close buttons, and multiple-date mode of the calendar.
- Date-status handlers and `hiliteToday` switched off: no cell is disabled for its date, and the selected day is always highlighted.
- Time zones with clock shifts, the range limit of ECMAScript times, and the loss of milliseconds when older engines copy a date through text.
- DateRoundTrip.PrintedTokens: leaves out formats with `%n`, `%t`, `%%` and other specifiers that are no word character, which print no token and so shift all later ones, and formats that start with literal text, which shifts them too.
- DateRoundTrip.RoundTrip: is about the same formats, with year, month, day, hour and minute all present, about text that starts with a word (it always does when a clean specifier comes first, `DateRoundTrip.CleanStart`), and a current date from year 100 on.
- CalendarWidget.Calendar.PrintedWeekHolds: leaves out rows that start in the years 0 to 99, whose number is that of a date 1900 years later.
- DateFormat.ParseDate: stops where the source starts guessing year, month and day from unmatched tokens, and numbers are exact where JavaScript rounds very long digit strings.
- The replacement loop of `print` for old browsers, and the other language files: the name tables are parameters, of which the English ones are given.
- MillisConverter.TextToMillis: years before 1583 are left out because the Java calendar, whose code is not part of this model, turns Julian there; the model's calendar is Gregorian throughout.
- MillisConverter.DateTextToMillis: years before 1583 are left out for the same reason.
- MillisConverter.DateTimeTextToMillis: years before 1583 are left out for the same reason.
- TypedDates.TypedAgree: years before 1583 are left out for the same reason.
- DateSpecifiers.WeekPrinted: in the years 0 to 99 the week printed is that of a date 1900 years later, as in the grid.
- MillisConverter.GetAsObject: a null parameter, and the reference comparison with the empty literal, which is a parameter here.
- Image encoding, fonts and arrow heads of the diagrams; only columns, boxes and colours are kept.
- Persistence, web services, XML mapping and the rest of the web front end.
