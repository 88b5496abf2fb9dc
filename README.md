# Booking service core, modelled in Dafny

The backend of a small booking service keeps two pieces of in-memory state.
The first is a **schedule**: one bucket of hourly slots per calendar day, each slot being available, booked or blocked.
The second is a **ledger** of guest reservations.
An administrator fills and books the schedule through chat commands. A web front end reads free days and a day's timeline, and creates or cancels reservations.

This project models that core as follows:

- `wrappers.dfy`, `types.dfy` hold the records: `Slot`, `Reservation` and the create-request body.
- `js_text.dfy` (module `JsText`) covers the JavaScript string behaviour the core relies on:
  - the order `sort()` and `localeCompare` put the fixed-format keys in, modelled as character (code-point) order;
  - `iso.split('T')[0]`;
  - `String(h).padStart(2, '0')`;
  - the `YYYY-MM-DD` pattern;
  - sorting a set of keys.
- `schedule_spec.dfy` (module `ScheduleSpec`) gives the value semantics of every store operation on `map<string, seq<Slot>>`.
  `schedule_proofs.dfy` (module `ScheduleProofs`) proves what those operations do.
- `schedule.dfy` (module `Schedule`) holds the slot store as a class `SlotStore` whose `buckets` field the methods update.
  Each method that changes the store is proved to leave it as its specification function does. Each read-only projection (all slots, scheduled days, available days) is specified by its own `ensures`.
- `api.dfy` (module `Api`) holds the reservation ledger, a class `Ledger` sharing the slot store, and the `/day-slots` route.
- `bot.dfy` (module `Bot`) covers the computational side of the chat commands:
  - the administrator check;
  - the range checks of the two command parsers;
  - weekday resolution and the `daysUntil` arithmetic;
  - the week builder;
  - the booking handler.

Times are strings compared in character (code-point) order.
"Now" and "today" are parameters.
In the chat commands a date is an abstract day number `d`: it falls on weekday `d % 7`, with 0 a Sunday, and the caller supplies its calendar key as `dateKeyOf`.

The invariant of the store is `WellFormed`:

- every bucket is non-empty;
- a bucket's slots all carry its date key;
- a bucket's slots are strictly ordered by datetime, so no two slots share a datetime.

Every `SlotStore` method keeps this invariant.
Every lookup is stated through `Find(buckets, datetime)`, the slot stored at that datetime if any.

## Model

| member | source | states |
|---|---|---|
| JsText.LessIrreflexive | backend/src/services/schedule.ts:95 | the string order never puts a key before itself |
| JsText.LessTransitive | backend/src/services/schedule.ts:95 | the string order is transitive |
| JsText.LessTotal | backend/src/services/schedule.ts:95 | any two different keys are ordered one way or the other, so sorting is determined |
| JsText.LessAsymmetric | backend/src/services/schedule.ts:95 | two keys are never ordered both ways |
| JsText.DateKeyOf | backend/src/services/schedule.ts:20-22 | the date key is the longest prefix of the datetime without a `T`, followed by `T` when the datetime goes on |
| JsText.DateKeyOfJoin | backend/src/services/schedule.ts:20-22 | splitting `key + "T" + rest` at the first `T` gives back `key` when `key` has no `T` |
| JsText.DecimalTextSpec | backend/src/services/schedule.ts:133 | `String(n)` of a natural number is a non-empty digit string without leading zero whose decimal value is `n` |
| JsText.HourTextTwoDigits | backend/src/services/schedule.ts:133 | an hour below 100 pads to exactly its tens and units digits |
| JsText.HourDateTimeKey | backend/src/services/schedule.ts:133 | the datetime built for an hour of a day lies in that day's bucket |
| JsText.HourDateTimeOrdered | backend/src/services/schedule.ts:133 | earlier hours of a day give earlier datetimes in the string order, so the hour loop appends in sorted order |
| JsText.DateKeyFormatKey | backend/src/routes/api.ts:71 | a date passing the `YYYY-MM-DD` pattern contains no `T`, so the hour datetimes built on it belong to it |
| JsText.InsertKey | backend/src/services/schedule.ts:45 | inserting a new key into a strictly sorted list keeps it strictly sorted and adds exactly that key |
| JsText.SortKeys | backend/src/services/schedule.ts:45 | sorting a set of keys yields a strictly increasing list with exactly those keys |
| JsText.SliceEnd | backend/src/services/schedule.ts:165 | `slice(0, limit)` never keeps more elements than the list has |
| ScheduleSpec.IndexOf | backend/src/services/schedule.ts:106 | `findIndex` by datetime: the first position holding it, or none exactly when no slot has it |
| ScheduleSpec.InsertSlotMembers | backend/src/services/schedule.ts:93-95 | push-then-sort keeps every old slot and adds the new one, one copy |
| ScheduleSpec.InsertSlotSorted | backend/src/services/schedule.ts:93-95 | inserting a slot with a new datetime keeps the bucket in time order |
| ScheduleSpec.BucketStats | backend/src/services/schedule.ts:173-180 | the counted total is the sum of the three per-status counts |
| ScheduleProofs.SortedIndexOf | backend/src/services/schedule.ts:106 | in a time-ordered bucket every slot is found at its own position |
| ScheduleProofs.FindInSpec | backend/src/services/schedule.ts:85 | `find` by datetime returns a slot exactly when it is in the bucket with that datetime |
| ScheduleProofs.FindSpec | backend/src/services/schedule.ts:82-85 | a store lookup finds exactly the slots of the bucket named by the datetime's key |
| ScheduleProofs.UpsertFind | backend/src/services/schedule.ts:76-98 | `addSlot` keeps the store well-formed, puts at the datetime the new slot or the updated existing one (note kept when none given), and changes no other datetime |
| ScheduleProofs.UpsertWellFormed | backend/src/services/schedule.ts:76-98 | `addSlot` keeps the store well-formed |
| ScheduleProofs.UpsertSize | backend/src/services/schedule.ts:76-98 | `addSlot` adds the day key if absent, grows that day's bucket by one exactly when the datetime was free, and leaves other days alone |
| ScheduleProofs.UpsertNoChange | backend/src/services/schedule.ts:85-91 | re-adding an existing slot with its own duration and status and no note changes nothing |
| ScheduleProofs.RemoveBucketMembers | backend/src/services/schedule.ts:106-109 | splicing out the found slot keeps exactly the other slots |
| ScheduleProofs.RemoveWellFormed | backend/src/services/schedule.ts:101-112 | `removeSlot` keeps the store well-formed, reports true exactly when a slot was there, and shrinks that day by exactly that slot |
| ScheduleProofs.RemoveFind | backend/src/services/schedule.ts:101-112 | after `removeSlot` nothing is at that datetime and every other datetime keeps its slot |
| ScheduleProofs.SetStatusFind | backend/src/services/schedule.ts:115-126 | `setSlotStatus` restatuses the slot at the datetime if any (note replaced only when given), returns it or null, touches nothing else and no day key |
| ScheduleProofs.AddHoursWellFormed | backend/src/services/schedule.ts:129-137 | `addDaySlots` keeps the store well-formed |
| ScheduleProofs.AddHoursFind | backend/src/services/schedule.ts:129-137 | after `addDaySlots` every hour of the range holds a one-hour available slot keeping any earlier note, and every other datetime is unchanged |
| ScheduleProofs.AddedHoursAt | backend/src/services/schedule.ts:129-137 | the i-th returned slot is the one-hour available slot for hour `start + i` |
| ScheduleProofs.AddHoursIdempotent | backend/src/services/schedule.ts:129-137 | filling the same day and hours twice leaves the store as filling it once |
| ScheduleProofs.AddHoursFreshDay | backend/src/services/schedule.ts:129-137 | on a day with no bucket yet, the day becomes exactly the fresh hour slots in hour order |
| ScheduleProofs.BookHoursWellFormed | backend/src/services/schedule.ts:140-148 | `bookRange` keeps the store well-formed |
| ScheduleProofs.BookHoursFind | backend/src/services/schedule.ts:140-148 | `bookRange` books every existing slot in the hour range with the note, and creates or changes nothing else |
| ScheduleProofs.BookHoursCount | backend/src/services/schedule.ts:140-148 | the returned count is the number of hours in the range that had a slot |
| ScheduleProofs.HoursWithSlotBound | backend/src/services/schedule.ts:142 | at most as many hours have a slot as the range is long |
| ScheduleProofs.BookHoursNothingBooked | backend/src/services/schedule.ts:140-148 | the count is at most the number of hours, and zero exactly when no hour of the range had a slot |
| ScheduleProofs.StatsOverPick | backend/src/services/schedule.ts:173 | the statistics over all days add up day by day, in any order |
| ScheduleProofs.BucketStatsCounts | backend/src/services/schedule.ts:173-180 | the per-day counters are the numbers of not-yet-past slots, and of those with each status |
| ScheduleProofs.BucketStatsCount | backend/src/services/schedule.ts:174-179 | each counter counts exactly the not-yet-past slots it is meant for |
| Schedule.SlotStore.constructor | backend/src/services/schedule.ts:9 | the store starts empty |
| Schedule.SlotStore.SlotsForDate | backend/src/services/schedule.ts:27-29 | a day's slots in time order, empty exactly when the day has no bucket, and exactly the stored slots of that date |
| Schedule.SlotStore.SlotsForDateFull | backend/src/services/schedule.ts:49-62 | the copied fields are the day's slots unchanged |
| Schedule.SlotStore.AllSlots | backend/src/services/schedule.ts:65-73 | one entry per day, strictly ordered by date key, each with that day's slots |
| Schedule.SlotStore.AddSlot | backend/src/services/schedule.ts:76-98 | the store becomes the `addSlot` result, the returned slot is the one now stored at the datetime, and the store stays well-formed |
| Schedule.SlotStore.RemoveSlot | backend/src/services/schedule.ts:101-112 | the store becomes the `removeSlot` result, the result says whether a slot was there, nothing is left at the datetime |
| Schedule.SlotStore.SetSlotStatus | backend/src/services/schedule.ts:115-126 | the store becomes the `setSlotStatus` result, the returned slot is the restatused stored one or none, day keys unchanged |
| Schedule.SlotStore.AddDaySlots | backend/src/services/schedule.ts:129-137 | the hour loop leaves the store as `AddHours` and returns the slots for each hour in order |
| Schedule.SlotStore.BookRange | backend/src/services/schedule.ts:140-148 | the hour loop leaves the store as `BookHours` and returns the number of hours that had a slot |
| Schedule.SlotStore.ClearDay | backend/src/services/schedule.ts:151-157 | the day's bucket is dropped and its size returned, zero when it had none |
| Schedule.SlotStore.ScheduledDays | backend/src/services/schedule.ts:160-166 | the earliest `limit` day keys not before today, strictly sorted; every day left out comes after all returned ones |
| Schedule.SlotStore.AvailableDateKeys | backend/src/services/schedule.ts:32-46 | exactly the days with an available slot strictly after now, strictly sorted |
| Schedule.SlotStore.GetStats | backend/src/services/schedule.ts:169-184 | the statistics are the sum over all days of the per-day counts |
| Schedule.CountSlots | backend/src/services/schedule.ts:174-180 | the counting loop over one day adds that day's counts to the running counters |
| Api.IndexOfId | backend/src/routes/api.ts:50 | `findIndex` by id: the first position with that id, or none exactly when no reservation has it |
| Api.AppendNewest | backend/src/routes/api.ts:25 | appending a reservation under the counter's id keeps ids unique and increasing, and makes it findable at the end |
| Api.NewReservation | backend/src/routes/api.ts:24-32 | the new reservation carries the id, name, date and time given, is confirmed, with 1 guest and an empty comment by default |
| Api.Ledger.constructor | backend/src/routes/api.ts:7-8 | the ledger starts empty with the counter at 1 |
| Api.Ledger.Create | backend/src/routes/api.ts:16-38 | a missing or empty name or date gives the 400 error and changes nothing; otherwise the next id is taken, the slot at the date (if any) is booked under the name, the reservation is appended and found by its id |
| Api.Ledger.GetById | backend/src/routes/api.ts:40-47 | the reservation with that id when one exists, otherwise the 404 error |
| Api.Ledger.Cancel | backend/src/routes/api.ts:49-59 | an unknown id gives the 404 error and changes nothing; otherwise that reservation alone becomes cancelled, and the slot at its date (if any) becomes available with its note kept |
| Api.DaySlots | backend/src/routes/api.ts:69-76 | the 400 error exactly when the date is missing or not `YYYY-MM-DD`; otherwise exactly the slots the store holds on that day, in time order, including every hour slot stored on that date |
| Bot.IsAdmin | backend/src/services/bot.ts:20-24 | with no (or a falsy) administrator id every chat may command; otherwise exactly the administrator's chat |
| Bot.ParseScheduleCommand | backend/src/services/bot.ts:89-103 | accepted exactly when `0 <= start < 24` and `start < end <= 24`; `эту` picks this week, any other word the next |
| Bot.ParseBookingCommand | backend/src/services/bot.ts:105-121 | accepted exactly when the hour lies in a day, the minutes are 0 and the duration is at least 1 |
| Bot.Weekday | backend/src/services/bot.ts:44-46 | a weekday number lies in 0..6 |
| Bot.WeekdayShift | backend/src/services/bot.ts:80-81 | adding days to a weekday wraps round the week like adding them to the date |
| Bot.DayForm | backend/src/services/bot.ts:52-62 | every listed word form names a weekday in 0..6 |
| Bot.DayFormsAgree | backend/src/services/bot.ts:52-60 | each full weekday name maps to its own index in the weekday list |
| Bot.FirstWithPrefix | backend/src/services/bot.ts:65 | the first full weekday name the word is a prefix of, or none exactly when it prefixes none |
| Bot.ResolveWeekday | backend/src/services/bot.ts:62-66 | a listed word form wins; otherwise the first weekday whose full name starts with the word; none when neither applies |
| Bot.DaysUntil | backend/src/services/bot.ts:79-81 | the days to wait lie in 1..7, land on the target weekday, pass no earlier such day, and are 7 exactly when today is that weekday |
| Bot.NextOn | backend/src/services/bot.ts:77-84 | the first day strictly after today on the target weekday, at most a week ahead |
| Bot.NextWeekday | backend/src/services/bot.ts:48-85 | none exactly when the word names no weekday; otherwise the first day after today, within a week, falling on that weekday |
| Bot.WorkDaysStep | backend/src/services/bot.ts:241-247 | each loop step adds the day unless it is a Sunday |
| Bot.WorkDaysMembers | backend/src/services/bot.ts:236-247 | the filled days are exactly the non-Sundays of the seven days |
| Bot.OneSundayAWeek | backend/src/services/bot.ts:236-241 | seven consecutive days hold exactly six non-Sundays |
| Bot.BuildWeekWellFormed | backend/src/services/bot.ts:236-247 | building a week keeps the store well-formed |
| Bot.BuildWeekFind | backend/src/services/bot.ts:236-247 | after the week is built, every command hour of every non-Sunday holds a one-hour available slot keeping any earlier note, and nothing else changed |
| Bot.TotalIsProduct | backend/src/services/bot.ts:245 | the running total after `n` filled days is `n` times the hours per day |
| Bot.WeekStart | backend/src/services/bot.ts:225-230 | the week starts today, or seven days later exactly for the next week |
| Bot.HandleScheduleCommand | backend/src/services/bot.ts:224-247 | the store becomes the built week; the days filled are the six non-Sundays; the reported total is six times the hours per day |
| Bot.WednesdayAccusativeUnresolved | backend/src/services/bot.ts:52-66 | as written, the accusative `среду` (Wednesday) resolves to no day, while every other accusative weekday form resolves to its day |
| Bot.DayFormCorrected | backend/src/services/bot.ts:52-60 | the table of forms with `среду` added maps to weekdays 0..6 and agrees with the original table on every other word |
| Bot.ResolveWeekdayCorrected | backend/src/services/bot.ts:62-66 | a word in the corrected table resolves to its entry; any other word resolves as before |
| Bot.NextWeekdayCorrected | backend/src/services/bot.ts:48-85 | none exactly when the word names no weekday under the corrected table; otherwise the first day after today on that weekday |
| Bot.AccusativesResolve | backend/src/services/bot.ts:52-60 | with the correction every accusative weekday form leads to the next day on its weekday, and every other word gives the same day as before |
| Bot.HandleBookingCommand | backend/src/services/bot.ts:259-272 | the day word is resolved through the corrected table; an unresolved day word changes nothing; otherwise that day's hours are booked with the note `Бронь`; "nothing booked" exactly when no hour had a slot; else the count of hours that had one, at most the duration |

## Left out

- Calendar dates: `toDateKey`, `getDay`, `setDate` and `setHours` are not modelled. A day is an abstract number whose weekday is `d % 7`, and its date key is the `dateKeyOf` parameter.
- Clocks: `new Date()` is not modelled. "Now", "today" and `createdAt` are parameters.
- Date comparison: the `Date` comparisons in `getAvailableDateKeys` and `getStats` are modelled as string comparisons of the datetimes. This agrees for the fixed-format local datetimes the store holds. Malformed datetimes, which become `Invalid Date`, and time-zone offsets are not modelled.
- String order: `localeCompare` and `sort()` are modelled as character (code-point) order. The model does not distinguish UTF-16 code units from code points, and it does not model locale collation. Neither matters for the ASCII date keys and datetimes.
- Slot identity: `addSlot` and `setSlotStatus` return the live stored slot object, and later mutation through that reference is not modelled. The model returns slot values, and `getAllSlots`' array copies are plain values.
- Text extraction: the regular expressions that extract fields from chat messages and `toLowerCase` are left out. The parsers start from the extracted fields, and `Number()` of a digit string is the integer itself.
- Request and environment values:
  - the `:id` route parameter goes through `Number()`, which is modelled as an integer id given directly;
  - `ADMIN_CHAT_ID` goes through `Number()`, which is modelled as an optional integer;
  - JSON body fields of the wrong type are not modelled.
- Chat and HTTP plumbing: Telegraf replies and message texts, `fmtDate`, the show-schedule and help handlers, Express routing and the JSON encoding of responses are left out. The handlers return the outcome the route or the reply would report.
- Bot.HandleBookingCommand: resolves the day word through the corrected table of forms, so `среду` books Wednesday where the source replies that it does not know the day (see Findings).
- Bot.HandleScheduleCommand: returns the filled days as day numbers rather than the `fmtDate` labels of the source.
- Bot.HandleScheduleCommand: the reported total counts every hour of every filled day, as the source does, even when the slot already existed.
- The list route `GET /reservations` returns the ledger unchanged and is not a separate member. `GET /available-dates` is `Schedule.SlotStore.AvailableDateKeys`.
- Schedule.SlotStore.ScheduledDays: the source's default `limit` of 14 is not modelled, so the caller always passes a limit.
- Types.Slot: carries `duration`, which the stored records have, although the `TimeSlot` interface declaration omits it.
- Integer width: hours and counts are unbounded integers, since JavaScript numbers stay exact at these sizes.
- Concurrency: the source runs handlers one at a time on a single thread, so the model has no concurrency.
- The server bootstrap and the React front end are not part of this model.

## Findings

| source | as written | input that shows it | evidently intended | confidence | as-written member | corrected member |
|---|---|---|---|---|---|---|
| backend/src/services/bot.ts:52-66 | the table of weekday forms has `пятницу` and `субботу` but not `среду`, and `среду` is no prefix of a full day name | the booking command "в среду бронь на 15:00 на 3 часа" gets day word `среду`, which resolves to no day, so the command is answered as an unknown day | `среду` names Wednesday (3), like the other accusative forms | high; not executed | Bot.WednesdayAccusativeUnresolved | Bot.AccusativesResolve |
