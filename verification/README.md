# gsquire channel sweep and birthday file, modelled in Dafny

gsquire is a chat bot that retires idle temporary channels. It stores no state
of its own: on every run it reconstructs from each channel's message history
how long the channel has been idle and whether it has already been warned.
This project models that sweep (`src/channel_management.rs`) and the
line format of the bot's birthday file (`src/birthday_management.rs`), and
proves properties of both.

- `options.dfy` — module `Options`: the `Option` datatype.
- `channel_management.dfy` — module `ChannelManagement`. A `Channel` class
  holds the platform's view of a channel: its name and kind, its history
  (oldest message first), a `deleted` flag and the log of messages the sweep
  posted (`Filler` or `Warning`). Each message carries its author, its
  timestamp as seconds (`None` when it does not parse) and its text. The
  clock reading is a parameter `now`. The bot's own account id is a parameter `me`.
  Platform failures come from a `Faults` oracle. It gives the first step of the
  backward walk whose fetch fails, and whether the warning lookup's fetch fails.
  The decision of a run is specified by the pure function `TextChannelRun`.
  The class methods are proved to change the channel exactly as it says, and
  the lemmas state the warn/delete rules about it.
- `birthday_management.dfy` — module `BirthdayManagement`: the
  `UserBirthday` record, the line parser and the loading loop, the serialiser
  and the writing loop, with the file given as a string (`None` when it does
  not open).

The thresholds are the ones in the code. A channel is warned at exactly 5
whole days idle. At 6 or more it is warned when no warning marker is found,
and deleted when the marker is at least 22 whole hours old. Whole days and
hours truncate toward zero as chrono's `num_days`/`num_hours` do, so a
negative age of less than a day counts as 0 days.

## Model

| member | source | states |
|---|---|---|
| `ChannelManagement.IsTemp` | src/channel_management.rs:29-31 | a channel is permanent exactly when its name is some string followed by '-' |
| `ChannelManagement.TruncDiv` | src/channel_management.rs:44 | whole units truncate toward zero: the quotient never exceeds the age in magnitude and is within one unit of it, for negative ages too |
| `ChannelManagement.NewestOther` | src/channel_management.rs:144-167 | the index found is a message not by `me` with only messages by `me` after it; none is found only when every message is by `me` |
| `ChannelManagement.FindReference` | src/channel_management.rs:142-173 | the backward walk terminates and returns the reference message: the newest message not by `me` if the fetches reaching it succeed, otherwise the newest message |
| `ChannelManagement.Reference` | src/channel_management.rs:142-173 | the reference index lies in the history; a reference not by `me` has only bot messages after it, and a reference by `me` is the newest message |
| `ChannelManagement.ReferenceChoice` | src/channel_management.rs:169-173 | with no fetch failure at all and some other author present, the reference is not by `me`; when the walk's first failure, if any, comes after it has reached the newest message not by `me`, the reference is that message; an all-bot history falls back to the newest message |
| `ChannelManagement.WalkFailureFallsBack` | src/channel_management.rs:150-173 | a fetch that fails while the walk is still on the bot's own messages, including the fetch that would reach someone else's message, makes the newest message the reference |
| `ChannelManagement.AgeAfterWalkFailure` | src/channel_management.rs:150-187 | after such a failure the age is `now` minus the newest message's timestamp |
| `ChannelManagement.InactiveAge` | src/channel_management.rs:118-190 | a non-zero age means the first fetch succeeded and the reference message carries the timestamp `now` minus the age |
| `ChannelManagement.AgeFromNewestOther` | src/channel_management.rs:142-187 | when the walk reaches the newest message not by `me` and its timestamp parses, the age is `now` minus that timestamp |
| `ChannelManagement.OwnHistoryAgesFromNewest` | src/channel_management.rs:169-187 | in a history written entirely by the bot, the age is measured from the newest message |
| `ChannelManagement.WarningMarker` | src/channel_management.rs:106-113 | a marker is found iff the newest message exists, is by `me` and starts with the warning prefix; the marker is that newest message |
| `ChannelManagement.FirstFetchFailureOnlyPostsFiller` | src/channel_management.rs:127-139 | an empty history or a failed first fetch gives age zero and exactly one filler message, with no warning and no delete |
| `ChannelManagement.UnparsableReferenceIsAgeZero` | src/channel_management.rs:176-184 | a reference timestamp that does not parse gives age zero, and the run does nothing |
| `ChannelManagement.RecentChannelIsLeftAlone` | src/channel_management.rs:44-49 | fewer than 5 whole days, negative ages included: no warning and no delete |
| `ChannelManagement.DayFiveWarnsOnce` | src/channel_management.rs:45-48 | exactly 5 whole days: exactly one warning is posted and nothing is deleted |
| `ChannelManagement.UnwarnedStaleChannelIsWarned` | src/channel_management.rs:49-81 | 6 or more days with no marker, or with a failed lookup fetch: a warning is posted, after a filler if the lookup failed, and the channel is not deleted |
| `ChannelManagement.UnparsableMarkerIsRewarned` | src/channel_management.rs:51-69 | 6 or more days and a marker whose timestamp does not parse: one warning is posted again and nothing is deleted |
| `ChannelManagement.DeleteOnlyAfterAgedWarning` | src/channel_management.rs:49-76 | a run deletes iff age is 6 or more whole days, the lookup succeeds, the newest message is a marker with a parsable timestamp and that marker is 22 or more whole hours old; a deleting run posts nothing |
| `ChannelManagement.NewestOtherAfterOwnMessage` | src/channel_management.rs:145-167 | a bot message appended to the history does not change which message is the newest one by someone else |
| `ChannelManagement.WarningMatures` | src/channel_management.rs:43-116 | across two runs: after a warning becomes the newest message, a fault-free run 22 or more hours later on a channel whose last other message is 6 or more days old deletes it and posts nothing |
| `ChannelManagement.TextChannelRun` | src/channel_management.rs:43-84 | a deleting run posts nothing and needs a warning marker as the newest message |
| `ChannelManagement.AtMostOneWarning` | src/channel_management.rs:43-84 | a run posts at most one warning, and only fillers before it |
| `ChannelManagement.PendingWarningDoesNothing` | src/channel_management.rs:49-76 | 6 or more days and a marker with a parsable timestamp fewer than 22 whole hours old: nothing is posted and nothing deleted |
| `ChannelManagement.ChannelRun` | src/channel_management.rs:17-41 | a run that posts or deletes anything is on a temporary text channel |
| `ChannelManagement.OnlyTempTextChannelsAct` | src/channel_management.rs:17-41 | permanent channels and voice channels get no message and no delete; temporary text channels get the text-channel evaluation |
| `ChannelManagement.SweepExamples` | src/channel_management.rs:18-49 | "general-" is left alone; "temp-raid" with a last message 6 days 3 hours old and no warning gets exactly one warning |
| `ChannelManagement.Channel.SendFillerMessage` | src/channel_management.rs:192-203 | appends one filler message to the channel's log |
| `ChannelManagement.Channel.SendDeleteWarning` | src/channel_management.rs:205-216 | appends one warning to the channel's log |
| `ChannelManagement.Channel.DeleteChannel` | src/channel_management.rs:71-74 | marks the channel deleted |
| `ChannelManagement.Channel.GetChannelInactiveDuration` | src/channel_management.rs:118-190 | returns the inactivity age of the history; posts one filler exactly when the first fetch brings nothing back |
| `ChannelManagement.Channel.GetWarning` | src/channel_management.rs:86-116 | returns the marker unless its fetch fails; posts one filler exactly when the fetch fails or the history is empty |
| `ChannelManagement.Channel.ProcessTempTextChannel` | src/channel_management.rs:43-84 | posts exactly the messages of `TextChannelRun` and deletes exactly when it says so |
| `ChannelManagement.Channel.ProcessTempChannel` | src/channel_management.rs:33-41 | a text channel is evaluated; any other kind is left unchanged |
| `ChannelManagement.Channel.Sweep` | src/channel_management.rs:18-24 | a temporary channel is processed and a permanent one left unchanged |
| `ChannelManagement.ClearOldChannels` | src/channel_management.rs:10-27 | each listed channel keeps its history and ends in the state its own run on that history gives it; a failed listing changes nothing |
| `BirthdayManagement.Split` | src/birthday_management.rs:32-34 | splitting gives at least one piece, and no piece holds the separator |
| `BirthdayManagement.JoinSplit` | src/birthday_management.rs:32-34 | joining the pieces of a split with the separator gives back the string |
| `BirthdayManagement.SplitJoin` | src/birthday_management.rs:66-79 | splitting a join on the separator gives back the pieces when none holds the separator |
| `BirthdayManagement.ParseUnsigned` | src/birthday_management.rs:35-42 | a parsed value is below the type's bound and is the value of the digits after an optional '+', which are one or more decimal digits |
| `BirthdayManagement.Decimal` | src/birthday_management.rs:74-78 | the numeral is a non-empty string of digits whose value is the number, one digit long exactly below 10 and with no leading zero |
| `BirthdayManagement.DecimalParses` | src/birthday_management.rs:35-42 | every written numeral of a value in range parses back to that value |
| `BirthdayManagement.ParsedIsPaddedNumeral` | src/birthday_management.rs:35-42 | every accepted numeral is an optional '+', then zeros, then the written numeral of its value |
| `BirthdayManagement.PaddedNumeralParses` | src/birthday_management.rs:35-42 | an optional '+', any zeros and the written numeral of a value in range are read as that value |
| `BirthdayManagement.ParseLine` | src/birthday_management.rs:34-51 | a line gives a record or panics only once its first field parses as the user id, and the record holds that id |
| `BirthdayManagement.SplitHasSeparator` | src/birthday_management.rs:34-40 | a split has two pieces or more exactly when the separator occurs |
| `BirthdayManagement.CrashIff` | src/birthday_management.rs:34-42 | once the id parses, the line panics exactly when it has no ' ' or its second field has no '/' |
| `BirthdayManagement.ParseDateLine` | src/birthday_management.rs:34-51 | a line `<id> <month>/<day>` gives a record when all three fields parse, for any month and day in 0..255, and is skipped otherwise |
| `BirthdayManagement.FormatLine` | src/birthday_management.rs:74-78 | a written line is non-empty and holds no '\n' |
| `BirthdayManagement.FormatThenParseLine` | src/birthday_management.rs:74-78 | a written line parses back to its record |
| `BirthdayManagement.LenientNumeralsExample` | src/birthday_management.rs:35-42 | "42 +13/007" reads as user 42, month 13, day 7 |
| `BirthdayManagement.ByteOverflowExample` | src/birthday_management.rs:41-50 | "42 256/1" is skipped, because 256 is not a u8 |
| `BirthdayManagement.MissingFieldsExample` | src/birthday_management.rs:34-42 | an empty line is skipped; "42" and "42 5" panic on the missing field |
| `BirthdayManagement.ParseLines` | src/birthday_management.rs:33-52 | a panicking load names a line that exists and panics when read |
| `BirthdayManagement.ParseFile` | src/birthday_management.rs:28-58 | a panic comes only from a file that opens, at one of its '\n'-separated lines that panics |
| `BirthdayManagement.SkippedLineIsDropped` | src/birthday_management.rs:36-39 | a skipped line contributes nothing, and the lines after it are still read |
| `BirthdayManagement.ParseLinesKeepsOrder` | src/birthday_management.rs:32-52 | with no panicking line, loading yields exactly the records of the lines that parse, in line order |
| `BirthdayManagement.PanicNamesFirstCrash` | src/birthday_management.rs:34-42 | a panicking load stops at the first line whose missing field is indexed |
| `BirthdayManagement.Serialize` | src/birthday_management.rs:65-79 | an empty list gives ""; any other text neither starts nor ends with '\n' |
| `BirthdayManagement.SerializeThenLoad` | src/birthday_management.rs:25-79 | loading the written text gives back exactly the records written, in order |
| `BirthdayManagement.LoadUserFile` | src/birthday_management.rs:25-59 | the loading loop yields the records (or the panic) of the line-by-line reading; a file that does not open yields no records |
| `BirthdayManagement.WriteUserFile` | src/birthday_management.rs:61-89 | the writing loop produces the records' lines joined by '\n', with no newline at the start or end |

## Left out

- Logging in, connecting, the presence text, enumerating servers and shutting down (`src/main.rs`) are platform plumbing and are not modelled.
- The platform calls are not modelled as calls. A fetch reads the modelled history, a send appends to the channel's log, and a delete sets `deleted`. Their failures are either the `Faults` oracle (fetches) or are not modelled (sends and deletes, whose failures the source only logs).
- A failed channel listing is modelled only as "no channel is processed".
- Messages the sweep posts are not fed back into the history within a run, since the source fetches nothing after posting. `WarningMatures` appends the warning by hand to relate two runs.
- RFC 3339 parsing and the local clock are chrono library calls. Timestamps are whole seconds, already parsed or `None`, and one `now` is used for the whole run. The source reads the clock separately for the age and for the warning check. For an unparsable marker it compares two clock readings taken microseconds apart; the model counts that as 0 hours.
- Sub-second precision of timestamps is not modelled.
- Messages other users post during a run are not modelled. The history is fixed for the whole run, so the backward walk and the warning lookup's own fetch of the newest message (src/channel_management.rs:87-91) see the same messages. In the source, a message arriving between them hides the marker, and the channel is warned again instead of deleted.
- The contents of `bot_id.txt`, `filler_message.txt` and `delete_warning.txt` are not part of this model. The bot id is the parameter `me`, and the log records which of the two messages was sent.
- `WarningMatures` assumes the posted warning text starts with the warning prefix, because `delete_warning.txt` is not available.
- All `println!` output is left out.
- `collect_birthdays` (src/birthday_management.rs:10-17) has an empty loop over a live connection, so it has no behaviour to model.
- Opening, reading, creating and writing the birthday file are replaced by a string input and a string result. A failed read (`read_to_string`, whose result the source ignores) is not modelled.
- `BirthdayManagement.ParseUnsigned` follows the current Rust standard library's `from_str` for unsigned types: one optional '+', then one or more digits whose value fits the type.
- `UserId` is assumed to display as its decimal `u64`, so the round trip depends on that.
- The birthday module is not declared in `src/main.rs:6`, so in the repository it is dead code. It is modelled anyway.
- A panic on a missing field ends the load. The model returns `Panic(line)` for it rather than aborting.
