# Reminder bot: a Dafny model

This project models the logic of a Telegram reminder bot. The bot reads
free text such as "remind me in 10 seconds to drink water", works out when
the reminder is due and what it says, and stores a row in an SQLite table.
A periodic job sends every row that has come due and then deletes it.

The model covers four parts of `reminder_bot1.py`:

- **The fallback chain of `parse_reminder`.** A usable reply from the
  language model wins. Otherwise the regular expression
  `in (\d+) (second|seconds|minute|minutes|hour|hours)` is searched
  case-insensitively. Its leftmost match gives `now + N·unit`, and the
  message is the text after the first `"to"`, stripped. Otherwise the
  general date parser is tried, with the whole text as the message.
  Otherwise the result is `(None, None)` (`NotFound`).
- **The `reminders` table.** It is a class holding `map<int, Row>`, an
  AUTOINCREMENT counter `nextId`, and a ghost set of every id ever issued.
  It supports insert, delete by id, and the due query
  `remind_time <= now.strftime("%Y-%m-%d %H:%M:%S")`.
- **The `check_reminders` sweep.** It loops over the due rows, sending
  each one and deleting it after the send returns. Each send's outcome is
  given by an oracle `ack: nat -> bool`. A send that raises ends the sweep.
- **The request handlers.** `handle_reminder_request` inserts a row only
  when the parser produced both a time and a message.
  `handle_text_reminder` ignores text unless `"remind" in text.lower()`.

Modules:

- `Wrappers`: the `Option` datatype.
- `Text`: the Python string operations used: `strip` (with the white
  space of `isspace`), `in`, `lower`, and the search for the first
  occurrence of a substring that `split(sub, 1)` performs. Also the
  code-point order SQLite's BINARY collation uses to compare TEXT values.
- `Timestamp`: instants as integer seconds since 0001-01-01 00:00:00 in
  the proleptic Gregorian calendar, up to `datetime.max` truncated to
  whole seconds. Also the conversion to calendar fields and the
  `"%Y-%m-%d %H:%M:%S"` rendering. The central result is `RenderOrder`:
  comparing two rendered instants as text gives the same answer as
  comparing the instants.
- `Parser`: the regular expression, the `"to"` split and the fallback
  chain.
- `Store`: the table.
- `Dispatch`: the sweep.
- `Bot`: the handlers.

The clock (`datetime.now()`) is a parameter `now: Instant`. The language
model's decoded reply is a parameter `reply: Option<Reply>`.
`dateparser.parse` is a parameter `dateParse: string -> Option<Instant>`.
The chat id is a parameter that is already a string.

When the regular expression matches but `now + N·unit` is past year 9999,
the `timedelta` addition raises. The addition runs inside the `except`
block, so the exception escapes `parse_reminder`. This outcome is modelled
as `ParseResult.Raised`, and the handler then stores nothing and replies
nothing (`Response.Crashed`). A digit run whose value is too large for
`timedelta` raises in the same place, and its value always describes an
offset past year 9999, so the same outcome covers it. The limit on the
length of digit strings that `int()` accepts is a separate case, listed
under "Left out".

The source allows an empty message, and the model follows it. On the
regular-expression path, a text whose first `"to"` is followed only by white
space (for example "remind me in 5 minutes to") stores a reminder with an
empty message. The split is at the first `"to"`, so "remind me in 5 minutes
to go to" stores "go to". `SegmentAfterFirstTo` states this case.

## Model

| member | source | states |
|---|---|---|
| Text.Strip | reminder_bot1.py:97 | `strip()`: the result is the input with the longest leading and trailing runs of `isspace` characters removed, and it neither starts nor ends with one |
| Text.FindFrom | reminder_bot1.py:97 | the first occurrence of the separator at or after `i`, or the fact that there is none |
| Text.ContainsIff | reminder_bot1.py:125 | `sub in s` holds exactly when `sub` occurs at some position of `s` |
| Text.Cmp | reminder_bot1.py:56 | the BINARY-collation comparison is three-way and is zero exactly for equal texts |
| Text.TextLeTransitive | reminder_bot1.py:56 | text `<=` is transitive |
| Timestamp.FromSeconds | reminder_bot1.py:139 | every instant has one valid calendar date and time, whose seconds count is that instant |
| Timestamp.ToSecondsInjective | reminder_bot1.py:139 | two valid dates with the same seconds count are the same date |
| Timestamp.FieldCmpIsChronological | reminder_bot1.py:56 | comparing dates field by field (year, month, day, hour, minute, second) is comparing the instants they denote |
| Timestamp.FormatCmp | reminder_bot1.py:56 | comparing two fixed-width zero-padded `%Y-%m-%d %H:%M:%S` texts gives the field-by-field comparison of the dates |
| Timestamp.Format | reminder_bot1.py:139 | the `"%Y-%m-%d %H:%M:%S"` layout: a fixed 19-character text of zero-padded fields; `FormatCmp` states its order |
| Timestamp.Render | reminder_bot1.py:56 | `strftime("%Y-%m-%d %H:%M:%S")` of an instant, always 19 characters; `RenderOrder` states its order and injectivity |
| Timestamp.RenderOrder | reminder_bot1.py:56 | `Render(t1) <= Render(t2)` as text exactly when `t1 <= t2`, and the rendering is one-to-one |
| Parser.MatchAt | reminder_bot1.py:86 | the pattern anchored at one position: a reported match starts there (what it holds is stated by `MatchAtSound` and `MatchAtComplete`) |
| Parser.UnitAt | reminder_bot1.py:86 | the alternatives of the unit group are tried in the order the pattern lists them: the one reported is spelled at that place and no earlier alternative is; none is reported only when no alternative is spelled there |
| Parser.MatchAtSound | reminder_bot1.py:86 | a match reported at `i` is a match of the pattern there: "in ", the whole digit run, a space, and the first unit alternative that fits |
| Parser.MatchAtComplete | reminder_bot1.py:86 | wherever the pattern can match, the anchored matcher finds a match with the whole digit run |
| Parser.SearchFrom | reminder_bot1.py:86 | `re.search` reports the leftmost match, and none exists before it; no result means no match anywhere |
| Parser.Search | reminder_bot1.py:86 | a match `re.search` reports lies inside the text: its digit group is all digits and its unit group ends within the text |
| Parser.SearchSound | reminder_bot1.py:86 | a match found in the text is a match of the pattern on the lower-cased text |
| Parser.NoneIffNoMatch | reminder_bot1.py:86-87 | `re.search` returns `None` exactly when the pattern matches at no position of the text, so the general parser at :100-104 runs only when no part of the text reads "in N unit" |
| Parser.NoMatchBefore | reminder_bot1.py:86 | where the pattern does not match, the anchored matcher reports nothing |
| Parser.LeftmostIs | reminder_bot1.py:86 | the search reports the first position where the anchored matcher succeeds |
| Parser.LeftmostMatch | reminder_bot1.py:86 | `re.search` on the text reports the leftmost match of the pattern, with its digits and the alternative that wins there |
| Parser.SearchFindsLeftmost | reminder_bot1.py:86 | the search reports the match anchored at the leftmost position where the pattern matches, and the anchored matcher succeeds there |
| Text.Lower | reminder_bot1.py:89 | `.lower()` on ASCII letters, every other character kept; `LowerSlice` states that it commutes with slicing |
| Parser.GroupLowered | reminder_bot1.py:89 | `match.group(2).lower()` is the alternative of the unit group that matched |
| Parser.WinnerScale | reminder_bot1.py:86-96 | the alternative that wins is a singular unit word, and the `if`/`elif` chain on it gives the scale of any unit word spelled at that place |
| Parser.DecimalValue | reminder_bot1.py:88 | `int(match.group(1))`: the decimal value of the digit group, most significant digit first |
| Parser.UnitSeconds | reminder_bot1.py:89-96 | the seconds one unit of group 2 stands for, read after `.lower()`; `UnitOfMatch` states its value on every match |
| Parser.LoweredUnitSeconds | reminder_bot1.py:91-96 | the `if "second" in unit / elif "minute" / elif "hour"` chain, with no change for a unit none of them recognises; `LoweredUnitSecondsOfSingular` states its value on each singular word |
| Parser.Offset | reminder_bot1.py:88-96 | the `timedelta` added to `now`, in seconds; `UnitOfMatch` states it is `int(digits)` times the unit's scale |
| Parser.Scale | reminder_bot1.py:86-96 | the seconds each alternative of the unit group denotes: 1 for "second(s)", 60 for "minute(s)", 3600 for "hour(s)"; the reference `WinnerScale` and `OffsetArithmetic` compare against |
| Parser.UnitOfMatch | reminder_bot1.py:89-96 | the matched unit group is always a singular word, and the `if`/`elif` chain on it gives 1, 60 or 3600 for whichever unit word the text spells |
| Parser.OffsetArithmetic | reminder_bot1.py:86-98 | when the semantic step fails and the pattern matches, the result is `now + N·unit` with the `"to"` segmentation as message, or an escaping exception past year 9999 |
| Parser.Segment | reminder_bot1.py:97 | without `"to"` the message is the whole text; with it, the message is the stripped text after the first, case-sensitive occurrence |
| Text.StripUnique | reminder_bot1.py:97 | a string has exactly one strip: any slice that cuts off only white space and keeps none at either end is `Strip`'s result |
| Parser.SegmentUnique | reminder_bot1.py:97 | the stripped text after the first `"to"` is the message, with no other choice |
| Parser.SegmentAfterFirstTo | reminder_bot1.py:97 | the split happens at the first `"to"` even inside a word such as "tomorrow", and the message is empty when nothing but space follows it |
| Parser.ParseReminder | reminder_bot1.py:69-105 | fallback order: the semantic result wins outright; the regex path gives a time not before `now`; the general parser's message is the whole text; `NotFound` exactly when all three fail; `Raised` exactly when the regex offset overflows |
| Parser.RegexBeforeGeneral | reminder_bot1.py:86-103 | when the pattern occurs, the general parser's opinion of the text does not affect the result |
| Store.IsDue | reminder_bot1.py:56 | `remind_time <= ?` compares the stored text with the rendered now by BINARY collation; `DueIffPast` states what it means for rendered times |
| Store.ReminderStore.constructor | reminder_bot1.py:31-43 | a new table is empty and has issued no id |
| Store.ReminderStore.Add | reminder_bot1.py:45-50 | exactly one row is added, with an id larger than every id issued before (so never reused); the other rows are untouched |
| Store.ReminderStore.Delete | reminder_bot1.py:61-66 | only the row with that id is removed, if present; issued ids stay issued |
| Store.DeleteIdempotent | reminder_bot1.py:61-66 | deleting an id twice is deleting it once |
| Store.ReminderStore.Due | reminder_bot1.py:52-59 | the query returns exactly the rows with `remind_time <= now` as text, each once, with their chat and message |
| Store.Scan | reminder_bot1.py:56 | the scan returns only picked rows of the table, in increasing id order |
| Store.ScanComplete | reminder_bot1.py:56 | the scan misses no picked row |
| Store.IdsOfSnoc | reminder_bot1.py:153 | support for `CheckReminders`: after one more delivered row is deleted, the deleted ids are the earlier ones plus that row's id |
| Store.DueIffPast | reminder_bot1.py:56 | a row stored with the rendering of `t` is due at `now` exactly when `t <= now` |
| Store.DueStaysDue | reminder_bot1.py:56 | a row that is due stays due at every later instant |
| Store.NothingDueAfterRemoval | reminder_bot1.py:56 | removing the due rows leaves nothing due at the same instant |
| Dispatch.Trace | reminder_bot1.py:147-153 | the sends and deletes of the loop from one position of the batch on; `TraceShape` and `TraceLength` state its form |
| Dispatch.Delivered | reminder_bot1.py:147-153 | the position of the first send that raises: every earlier send returned |
| Dispatch.CheckReminders | reminder_bot1.py:145-153 | the batch is the due query's result; the log is the send-then-delete trace; exactly the rows whose send returned are deleted; a full pass leaves nothing due |
| Dispatch.TraceShape | reminder_bot1.py:147-153 | the log alternates a send of each batch row with its deletion; a deletion occurs only after a send that returned |
| Dispatch.TraceLength | reminder_bot1.py:147-153 | the log has two events per delivered row, plus one for the send that raised |
| Dispatch.RemovalFollowsDelivery | reminder_bot1.py:148-153 | each deletion comes right after the returned send of the same row |
| Dispatch.SentAtMostOnce | reminder_bot1.py:147-152 | no reminder is sent twice in one sweep |
| Dispatch.UndeliveredStay | reminder_bot1.py:145-153 | after a send raises, that row and every later row of the batch are still stored, unchanged |
| Bot.LooksLikeReminder | reminder_bot1.py:125 | `"remind" in text.lower()`; `TriggerIgnoresCase` states what it accepts |
| Bot.TriggerIgnoresCase | reminder_bot1.py:125 | the trigger fires exactly when six consecutive characters spell "remind" in some mix of cases |
| Bot.HandleReminderRequest | reminder_bot1.py:128-143 | a row with the rendered time is inserted exactly when the parser gave a time and a message; otherwise the store is unchanged and the reply is the guidance (or nothing, when the parser raised) |
| Bot.RequestHandled | reminder_bot1.py:128-143 | the outcome of `handle_reminder_request`, shared by both handlers: a row with the rendered time under the next id when the parser gave a time and a message, otherwise no change |
| Bot.HandleTextReminder | reminder_bot1.py:122-126 | text without "remind" is ignored and changes nothing; text with it is handled exactly as `handle_reminder_request` does |
| Bot.DueExactlyFrom | reminder_bot1.py:139 | a reminder stored for instant `t` is due at exactly the ticks at or after `t` |

## Left out

- The language-model request and its JSON decoding (lines 72-79) are not modelled. The decoded reply is an input. A reply that is missing, undecodable, or lacks a key counts as no reply. This includes a missing `"message"` key, because its `KeyError` also leads to the fallback.
- A JSON `"message"` value that is not a string or `null` is not modelled.
- `dateparser.parse` is an uninterpreted input function. Its time zones and its relative phrases are not modelled.
- SQLite connections, commits and durability are not modelled, nor `AUTOINCREMENT` running out of ids.
- The order of rows returned by the due query is assumed to be increasing id (a rowid scan). SQL does not promise any order without `ORDER BY`.
- Telegram, `async`/`await` and the job queue with its 5-second interval are not modelled. A sweep is one atomic step, so handlers running during its awaited sends are not modelled.
- The `/start` and `/remind` command handlers are not modelled. For `/remind`, this includes the `" ".join(context.args)` of its words.
- The text of replies and notifications, Markdown, and the `%I:%M %p` display format are not modelled.
- Lower-casing and case-insensitive matching cover ASCII letters only. Unicode case folding is not modelled, for example `ſ` matching `s` under `re.IGNORECASE`. `\d` covers only ASCII digits, not other Unicode digits.
- `int()` on Python 3.11 and later refuses digit strings longer than 4300 characters, leading zeros included, and the `ValueError` escapes `parse_reminder`. The model reads any digit run, so such a text with a small value gives `Found` where the program raises. Telegram's 4096-character message limit keeps such text from reaching the handlers.
- Microseconds of `datetime.now()` are dropped. The overflow test `now + offset > datetime.max` is still exact for whole-second offsets.
- Timestamp.Render pads years below 1000 to four digits. The C library's `%Y` may not pad them. Such instants can only come from the semantic step or the general parser.
- Configuration and logging are not modelled. Note that `os` is used at line 18 without being imported.
