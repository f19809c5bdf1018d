# rx_logger medication log: Dafny model

This project models the two pieces of the medication logger that carry
logic:

- **The history list's timestamp formatter and icon picker** (`frontend/src/components/MedicationList.tsx`).
  - `formatMedTimestamp` turns the moment a dose was logged into a label.
    The label is "This morning", "This afternoon", "This evening", "This night" or
    "This overnight" for today, "Yesterday" for the previous calendar day,
    a weekday name for up to a week back, and "Mar 4, 2024" otherwise.
  - It also produces a fine time of day from the runtime's locale (`toLocaleTimeString`).
    The model fixes that to a 24-hour "HH:MM" (see "## Left out").
  - `getPartOfDayIconAndColor` then picks the chip icon by testing the label text in a fixed order.
- **The Flask API** (`backend/backend.py`).
  - `POST /log` (`log_med`) validates a JSON body, fills in defaults and appends a row to the `medications` table.
  - `GET /medications` (`get_medications`) returns every row, newest timestamp first.

Modules:

- `Strings` (`strings.dfy`): substring test (`includes`), decimal text of numbers, and the code-point lexicographic order SQLite uses on TEXT.
- `Calendar` (`calendar.dfy`): proleptic Gregorian dates from a day count (day 0 is 1970-01-01).
  Proves the conversion round-trips both ways.
- `MedTimestamp` (`timestamp.dfy`): the formatter.
  - Time is an integer number of milliseconds on one local clock with fixed 86 400 000 ms days.
  - The instant `now`, which the component reads from the system clock, is a parameter.
  - The structured `Label` (`This(part) | Yesterday | Weekday(0..6) | Absolute(date)`) is rendered to en-US label text.
  - The fine time is rendered as in a 24-hour locale such as en-GB ("09:00").
- `MedTimestampScenarios` (`scenarios.dfy`): worked examples at now = 2024-03-15T14:30.
- `Icons` (`icons.dfy`): the ordered icon tests, and their composition with the formatter.
- `MedicationStore` (`backend.dfy`): the table as a sequence of rows plus the AUTOINCREMENT counter.
  - A request body is a map from keys to JSON `null` or string values.
  - Responses carry the status code and JSON body the endpoints return.

Behaviours of the code worth knowing:

- **Seven days back** (`MedicationList.tsx:66-73`). A weekday label goes to any entry for which `0 < daysAgo < 7`, with `daysAgo` counted in whole elapsed days.
  So an entry seven calendar days back that was logged at a later time of day than now still gets a weekday name: today's own.
  It does not get the calendar date. `MedTimestamp.SameWeekdayAWeekAgo` proves this.
- **Unparsable timestamps raise no error** (`MedicationList.tsx:38`). `new Date` of such a string is an invalid date.
  Neither date test matches it and `daysAgo` is NaN, so it falls to the last branch. There both the label and the fine text read "Invalid Date".
- **The icon comes from the label text** (`MedicationList.tsx:216`). The list hands `getPartOfDayIconAndColor` the label string, which re-reads it with substring and pattern tests.
- **Any `source` string is stored** (`backend.py:45`). `log_med` stores whatever string the request gives.

## Model

| member | source | states |
|---|---|---|
| `MedTimestamp.Day` | frontend/src/components/MedicationList.tsx:40-43 | definition (no contract): the local calendar day, the instant divided by the day length, rounded down |
| `MedTimestamp.DaysAgo` | frontend/src/components/MedicationList.tsx:66-68 | definition (no contract): floor of elapsed milliseconds over one day |
| `MedTimestamp.WeekdayOf` | frontend/src/components/MedicationList.tsx:71 | definition (no contract): weekday of a day number, day 0 being a Thursday |
| `MedTimestamp.Render` | frontend/src/components/MedicationList.tsx:61-81 | definition (no contract): the label text of each branch |
| `MedTimestamp.DateText` | frontend/src/components/MedicationList.tsx:76-80 | definition (no contract): "Mon D, YYYY" |
| `MedTimestamp.Fine` | frontend/src/components/MedicationList.tsx:47-50 | definition (no contract): two-digit hour, colon, two-digit minute |
| `Icons.MatchesDayPattern` | frontend/src/components/MedicationList.tsx:104 | definition (no contract): the regex /^[A-Za-z]+day$/ |
| `Strings.Contains` | frontend/src/components/MedicationList.tsx:94-100 | definition (no contract): `includes`, as an occurrence at some position |
| `MedicationStore.Truthy` | backend/backend.py:47 | definition (no contract): Python truthiness; `None` and `''` are false |
| `MedicationStore.Supplies` | backend/backend.py:47 | definition (no contract): the key is present with a non-empty string |
| `Strings.LexLe` | backend/backend.py:68 | definition (no contract): code-point lexicographic order, SQLite's BINARY collation on UTF-8 text |
| `MedTimestamp.MsOfDay` | frontend/src/components/MedicationList.tsx:46 | the time since local midnight is in [0, one day), and day × day-length + it gives back the instant |
| `MedTimestamp.Hour` | frontend/src/components/MedicationList.tsx:46 | the hour is in 0..23, and the time since midnight falls inside that hour |
| `MedTimestamp.Minute` | frontend/src/components/MedicationList.tsx:47-50 | the minute is in 0..59, and the time since midnight falls inside that hour-and-minute |
| `MedTimestamp.PartOfDayOf` | frontend/src/components/MedicationList.tsx:53-58 | overnight, morning, afternoon, evening and night are exactly hours [0,5), [5,12), [12,17), [17,21) and [21,24); each hour gets exactly one |
| `MedTimestamp.Classify` | frontend/src/components/MedicationList.tsx:40-83 | "This" iff the same calendar day as now, with the part of day of the entry's hour. Yesterday iff not today and the day before now's. Weekday iff neither and 0 < floor(elapsed days) < 7, naming the entry's own weekday. Otherwise the calendar date of the entry's day |
| `MedTimestamp.FormatMedTimestamp` | frontend/src/components/MedicationList.tsx:34-85 | the label is the rendering of the classified label, never empty, and the fine text is five characters |
| `MedTimestamp.DaysAgoFromCalendarDays` | frontend/src/components/MedicationList.tsx:66-68 | floor(elapsed ms / day) equals the calendar-day difference, minus one exactly when the entry's time of day is later than now's |
| `MedTimestamp.RecentDaysGetWeekday` | frontend/src/components/MedicationList.tsx:66-73 | an entry two to six calendar days back is labelled with its weekday name |
| `MedTimestamp.WeekdayWindow` | frontend/src/components/MedicationList.tsx:62-73 | a weekday label only goes to an entry two to seven calendar days back |
| `MedTimestamp.SameWeekdayAWeekAgo` | frontend/src/components/MedicationList.tsx:66-73 | seven calendar days back, at a later time of day than now, the label is the weekday of now itself |
| `MedTimestamp.OldEntriesGetDate` | frontend/src/components/MedicationList.tsx:74-82 | eight or more calendar days back, or seven at the same or an earlier time of day, the label is the entry's calendar date |
| `MedTimestamp.FutureEntriesGetDate` | frontend/src/components/MedicationList.tsx:66-82 | an entry after now on a later calendar day gets its calendar date, not an error |
| `MedTimestamp.ClassifyAgreesWithCalendarDays` | frontend/src/components/MedicationList.tsx:40-83 | the formatter's branch chain equals an independent description by calendar-day difference and time of day, on every input |
| `MedTimestamp.FineShowsHourAndMinute` | frontend/src/components/MedicationList.tsx:47-50 | the fine text is the same whatever now is, has a colon in the middle, and reads back as the entry's hour and minute |
| `MedTimestamp.FineDependsOnlyOnClockReading` | frontend/src/components/MedicationList.tsx:47-50 | two entries with equal hour and minute get equal fine text, whatever the two evaluation instants |
| `MedTimestamp.DateTextInjective` | frontend/src/components/MedicationList.tsx:76-80 | distinct calendar dates render to distinct "Mon D, YYYY" texts |
| `MedTimestamp.RenderInjective` | frontend/src/components/MedicationList.tsx:60-83 | distinct labels render to distinct texts, so the shown text determines the branch taken |
| `Calendar.CivilFromDays` | frontend/src/components/MedicationList.tsx:76-80 | the date shown for a day number is a valid Gregorian date whose day number is that day |
| `Calendar.CivilRoundTrip` | frontend/src/components/MedicationList.tsx:76-80 | converting a valid date to its day number and back gives the same date |
| `Calendar.DaysFromCivilInjective` | frontend/src/components/MedicationList.tsx:76-80 | distinct valid dates have distinct day numbers |
| `Calendar.YearStartStep` | frontend/src/components/MedicationList.tsx:76-80 | consecutive New Year's days are 365 or 366 days apart by the Gregorian leap rule |
| `Strings.NatToStringRoundTrip` | frontend/src/components/MedicationList.tsx:76-80 | the numeric day and year text reads back as the number |
| `Strings.ContainsOnlyCharsOf` | frontend/src/components/MedicationList.tsx:94-101 | a text that `includes` a word has every character of that word |
| `MedTimestampScenarios.ThisMorning` | frontend/src/components/MedicationList.tsx:60-61 | 09:00 on the same day reads "This morning", "09:00" |
| `MedTimestampScenarios.LastNight` | frontend/src/components/MedicationList.tsx:62-63 | 22:00 the day before reads "Yesterday", "22:00" |
| `MedTimestampScenarios.ThreeDaysBack` | frontend/src/components/MedicationList.tsx:69-73 | 08:00 three days back reads "Tuesday", "08:00" |
| `MedTimestampScenarios.TwoWeeksBack` | frontend/src/components/MedicationList.tsx:74-82 | 08:00 fourteen days back reads "Mar 1, 2024", "08:00" |
| `MedTimestampScenarios.Tomorrow` | frontend/src/components/MedicationList.tsx:74-82 | 08:00 the next day reads "Mar 16, 2024", "08:00" |
| `Icons.PartOfDayIconAndColor` | frontend/src/components/MedicationList.tsx:93-107 | colour is always "default". Sun iff the text has "morning" or "afternoon". Moon iff not, and it has "evening". Night sky iff neither, and it has "night" or "overnight". The day icon iff none of these and the text is exactly "Yesterday". Calendar iff none of these and it matches /^[A-Za-z]+day$/. Clock otherwise |
| `Icons.YesterdayIsDayShaped` | frontend/src/components/MedicationList.tsx:102-105 | "Yesterday" matches the weekday pattern too, yet gets the day icon because its test comes first |
| `Icons.OvernightTestIsRedundant` | frontend/src/components/MedicationList.tsx:100 | any text containing "overnight" contains "night", so the second half of that test never decides |
| `Icons.IconOfPartOfDayText` | frontend/src/components/MedicationList.tsx:94-101 | "This morning"/"This afternoon" get the sun, "This evening" the moon, "This night"/"This overnight" the night sky |
| `Icons.IconOfWeekdayText` | frontend/src/components/MedicationList.tsx:104-105 | each of the seven English weekday names gets the calendar icon |
| `Icons.IconOfDateText` | frontend/src/components/MedicationList.tsx:106 | every "Mon D, YYYY" text fails all earlier tests and gets the clock |
| `Icons.IconOfRenderedLabel` | frontend/src/components/MedicationList.tsx:93-106 | every renderable label gets the icon its kind is meant to have, with colour "default" |
| `Icons.IconOfFormattedEntry` | frontend/src/components/MedicationList.tsx:215-216 | composed as the list does: today's labels get sun, moon or night sky, weekday labels the calendar, and the clock exactly when the label is a calendar date |
| `MedicationStore.InitDb` | backend/backend.py:11-24 | the new table is empty, holds no id, and satisfies the id invariant |
| `MedicationStore.Get` | backend/backend.py:43-46 | `data.get(key, default)` is the stored value when the key is present, the default when absent |
| `MedicationStore.LogMed` | backend/backend.py:42-56 | 201 iff medication and timestamp are both non-empty strings, else 400 with the error and the table unchanged. On 201 exactly one row is appended, earlier rows untouched. The row has a fresh id, the given medication and timestamp, source as given or "nfc" when absent, notes as given or "" when absent. The id invariant is kept |
| `MedicationStore.InsertByTimestamp` | backend/backend.py:68 | inserting into a newest-first sequence keeps it newest-first and adds exactly that row |
| `MedicationStore.SortByTimestampDesc` | backend/backend.py:68 | the result is a permutation of the rows, ordered by timestamp descending |
| `MedicationStore.GetMedications` | backend/backend.py:58-70 | status 200, every stored row exactly as often as stored, newest timestamp first |
| `MedicationStore.LoggedEntryIsListed` | backend/backend.py:31-70 | after an accepted log the listing holds the old rows plus the new one; after a rejected one, the old rows only |
| `MedicationStore.ListingIdsDistinct` | backend/backend.py:17 | no two listed rows share an id |
| `Strings.LexLeTotal` | backend/backend.py:68 | any two timestamps are comparable in SQLite's text order |
| `Strings.LexLeTransitive` | backend/backend.py:68 | SQLite's text order is transitive |
| `Strings.LexLeAntisymmetric` | backend/backend.py:68 | two timestamps each no later than the other are the same text, so with totality and transitivity the order is a total order |

## Left out

- The clock read at `MedicationList.tsx:39` is the parameter `now`.
- `new Date(isoString)` parsing, time zones and daylight saving are left out. Timestamps are already integer instants on a fixed-length-day local clock.
- An unparsable timestamp is left out. The browser's invalid-date (NaN) behaviour belongs to the JavaScript engine.
- MedTimestamp.FormatMedTimestamp: `Intl` formatting is fixed to one choice, and no single locale gives both halves.
  The label follows en-US ("Mar 1, 2024", "Tuesday").
  The fine time follows a 24-hour locale such as en-GB ("09:00"); in en-US the code gives "09:00 AM".
  The `|fine| == 5` clause holds for that choice, not in every locale. So does the "HH:MM" read-back of `MedTimestamp.FineShowsHourAndMinute`.
- MedTimestamp.DateText: years before year 1 are written as the signed proleptic year (0, -1, …).
  `Intl` writes the era year, so its texts for 1 BC and AD 1 can coincide. `DateTextInjective` holds for the model's rendering only.
- Icons.PartOfDayIconAndColor: the icons are an enumeration named after the Material icons. Their JSX elements and `fontSize` are not modelled.
- React components, hooks, MUI layout, and the fetch/response handling in `MedicationList.tsx:126-153` are left out.
  So is the log form in `MedicationLogForm.tsx`. These are UI plumbing and I/O.
- MedicationStore.LogMed: JSON values other than strings and `null` are not modelled. These are numbers, booleans, arrays and objects.
- MedicationStore.LogMed: a body that is valid JSON but not an object is not modelled. This covers an array, string, number or `null`.
  `request.json` (`backend.py:42`) parses it, then `data.get` (`backend.py:43`) raises AttributeError and Flask answers HTTP 500.
  The model has no 500 response. `LogMed`'s `status == 201 || status == 400` therefore covers object bodies only.
- MedicationStore.LogMed: a body that is not JSON at all is not modelled. Flask fails it inside `request.json` (`backend.py:42`), before `data.get` runs.
  Malformed JSON gets Flask's own 400 without `RequiredError`. A non-JSON content type gets 415, or 500 in older Flask.
  `LogMed`'s "400 with the error" covers only requests whose body parsed as a JSON object.
- Flask routing, the `/` welcome route, and SQLite execution and transactions are left out. The table is an in-memory sequence.
- MedicationStore.GetMedications: SQLite leaves the order of rows with equal timestamps unspecified.
  The contract states only "a permutation, newest first". The model's own tie order (insertion order) is not promised.
- AUTOINCREMENT's `sqlite_sequence` bookkeeping and its 2^63 id limit are left out. The counter is an unbounded integer.
- Deleting and recreating the database at startup (`backend.py:75-78`) is left out. It is development-only.
- `backend/populate_db.py` is left out. It is a seed script driven by `random` and `datetime.now()`.
