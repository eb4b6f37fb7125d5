# Matrixine core, modelled in Dafny

This project models the core of the Matrixine Discord bot in Dafny and
proves properties of the model:

- **The music cog's track queue** (`MusicQueue`). This is a list of tracks
  with an integer cursor `pos` and a repeat mode (none, one, all). It is
  changed in place by `get_next_track`, `shuffle`, `set_repeat_mode`,
  `add_track` and `clear`.
- **The per-guild player** (`MusicPlayer`). It holds the cursor logic of
  `connect`, `teardown`, `add_tracks`, `advance` and `repeat_track`, the
  track-end listener, and the guards of the `play`, `pause`, `stop`,
  `next`, `previous`, `skipto`, `shuffle`, `repeat`, `seek` and `restart`
  commands. It also holds the registry of players that
  `on_voice_state_update` tears down.
- **Duration strings of the utilities** (`UtilDuration`):
  - the `TIME_REGEX` parser behind `time_string_to_timedelta` and
    `time_string_to_seconds`;
  - the `timedelta_to_string` formatter. Its second half (hours, minutes
    and seconds) is the separate method `AppendClock`, which the formatter
    calls with the text built so far.
- **Text helpers of the utilities** (`UtilText`): `ordinal_suffix`, and the
  fixed-placeholder, `{#channel}` and `{@role}` substitution of
  `personalize_message`.
- **The Math cog's integer conversions** (`MathCodec`):
  - RGB packing and six-digit hex parsing;
  - the minimal big-endian bytes of a non-negative integer;
  - Base64 as defined in section 4 of RFC 4648.
- **The help command** (`HelpFormat`): the `syntax` signature line, the
  footer arithmetic of the help menu (three commands per page), the
  "No description" default of a page, and how `help module command` picks
  the command to describe.
- **The Welcomer cog's `autoroles` command** (`WelcomeAutoroles`): role ids
  are read out of `<@&id>` mentions, and the stored list is shown, thinned
  out (first occurrence of each id, counted) or replaced.
- **The Fun cog's `dice` command** (`FunDice`): a die string is parsed and
  checked, then the dice are rolled and the reply is formatted.

Shared modules:

- `Wrappers` holds `Option` and `Result`.
- `PyText` holds the Python string and integer built-ins the bot relies
  on: `str.lower`, `str.replace`, `str.split`, `str.join`, `str.strip`,
  `int(s, base)`, `str(n)` and `hex(n)`. They are written out with these of
  Python's edge cases:
  - the sign, whitespace and `0x` prefix accepted by `int`;
  - the underscores `int` allows between digits;
  - `replace` working left to right on non-overlapping occurrences.

State-changing code is written as classes with `modifies` clauses:
`MusicQueue.Queue`, `MusicPlayer.Player`, `MusicPlayer.Registry` and
`WelcomeAutoroles.GuildSettings`. Loops of the source become methods with
loop invariants. Each of these methods is proved equal to a specification
function, and the properties are proved about that function:
`TimedeltaToString`, `PersonalizeMessage`, `SubstituteFound`, `Syntax`,
`FindCommand`, `ShowHelp`, `RemoveIds` and `RollDice`.

What the audio node, Discord and the database would do is abstracted:

- `Player.sent` records, oldest first, the commands sent to the audio node:
  join, play, stop, pause, seek and destroy.
- `isConnected`, `isPaused` and `isPlaying` stand for the node client's
  state.
- A node "stop" is followed at once by the track-end event
  (`StopAndAdvance`).
- Exceptions raised inside that listener go to `Player.listenerErrors`,
  because they never reach a command.
- Discord lookups of channels and roles are maps.
- The stored guild document is a `GuildSettings` object.
- Random choices are left open: `random.shuffle` is "some permutation",
  built by a Fisher–Yates loop with a nondeterministic pick.
  `random.randint(1, value)` is any value in that range.
- The 60-second reaction wait of `choose_track` is an optional index below
  five.

Where the code and its documentation disagree, the model follows the code:

- "next" on an empty queue fails with `QueueIsEmpty`: `upcoming_tracks`
  raises it before the `NoMoreTracks` check.
- "skipto" accepts every index from 0 to the queue length. Index 0 sets
  the cursor to -2, so the following advance plays nothing.
- `connect` takes the author's voice state whenever there is one, even
  when it has no channel. Only without a voice state does the channel
  given to the command count.
- A playlist with no tracks is not "no tracks found": it is truthy, so
  nothing is appended and no error is raised.
- `on_voice_state_update` tears the player down without checking which
  channel the bot is in.
- The hex pairs of `hex_to_rgb` are not confined to 0..255 digits:
  `int("-f", 16)` is accepted.

## Model

| member | source | states |
|---|---|---|
| MusicQueue.CurrentOf | bot/cogs/Music.py:99-104 | `QueueIsEmpty` exactly when the queue is empty. Otherwise: the track at `pos` when it is in range; nothing once `pos` is past the end; Python's negative index for `-len <= pos < 0` (so -1 is the last track); `IndexError` below `-len`. |
| MusicQueue.UpcomingOf | bot/cogs/Music.py:106-110 | `QueueIsEmpty` exactly on an empty queue. Otherwise the tracks after the cursor (all of them at cursor -1), and none once the cursor is on the last track or past it. |
| MusicQueue.PreviousOf | bot/cogs/Music.py:112-116 | `QueueIsEmpty` exactly on an empty queue. Otherwise the tracks before a cursor in `[0, len]`, and none at cursor 0. |
| MusicQueue.ViewsPartition | bot/cogs/Music.py:99-116 | For a cursor on a track, previous tracks + [current] + upcoming tracks is the whole queue. |
| MusicQueue.NextPos | bot/cogs/Music.py:122-135 | One advance moves the cursor by exactly one, except that it wraps to 0 past the end under ALL. |
| MusicQueue.NextTrack | bot/cogs/Music.py:122-135 | The returned track is one of the queue's. Under ALL a track is always returned from a cursor of at least -1; outside ALL nothing is returned once the cursor was on the last track; nothing from a cursor below -1. |
| MusicQueue.AllCycles | bot/cogs/Music.py:122-135 | Under ALL, k advances from a track position land on `(pos + k) mod len`. |
| MusicQueue.AllReturnsAfterLength | bot/cogs/Music.py:122-135 | Under ALL, `len` advances bring the cursor back where it was, and the k-th advance returns track `(pos + k) mod len`: the queue cycles. |
| MusicQueue.NoWrapWithoutAll | bot/cogs/Music.py:122-135 | Under NONE or ONE, k advances give `pos + k`, and nothing is returned once past the end. |
| MusicQueue.OnStop | bot/cogs/Music.py:239-247 | Under ONE the cursor stays put. Otherwise no error escapes, and on an empty queue nothing is played. |
| MusicQueue.PreviousLandsOnPriorTrack | bot/cogs/Music.py:399-410 | Outside ONE, after `pos -= 2` the stop-triggered advance lands on the old `pos - 1` and plays that track. |
| MusicQueue.PreviousUnderRepeatOne | bot/cogs/Music.py:399-410 | Under ONE, "previous" replays the track at `pos - 2`. From `pos` 1 that is the LAST track, through index -1. |
| MusicQueue.PreviousFromMinusOneUnderOne | bot/cogs/Music.py:399-410 | Under ONE with the cursor at -1, "previous" passes its check and `pos -= 2` makes the listener replay index -3. With two tracks that is an `IndexError`; with three or more it is the third track from the end. |
| MusicQueue.SkipToLandsOnIndex | bot/cogs/Music.py:550-563 | Outside ONE, `pos = idx - 2` followed by an advance plays track `idx - 1` (1-based) for `idx >= 1`, and nothing with the cursor at -1 for `idx == 0`. |
| MusicQueue.RandomShuffle | bot/cogs/Music.py:141-142 | The shuffled list has the same length and holds the same tracks. |
| MusicQueue.ShuffleKeepsViews | bot/cogs/Music.py:137-144 | After a shuffle the previous tracks and the current track are unchanged, and the upcoming tracks are a permutation of the old ones. |
| MusicQueue.ShuffleAtMinusOne | bot/cogs/Music.py:137-144 | At cursor -1 the whole queue is the shuffled slice. |
| MusicQueue.RepeatModeNamed | bot/cogs/Music.py:74-79 | Exactly "none", "1", "one" and "all" are accepted; they map to NONE, ONE, ONE and ALL. |
| MusicQueue.Queue.constructor | bot/cogs/Music.py:81-84 | A new queue is empty, with cursor 0 and mode NONE. |
| MusicQueue.Queue.Length | bot/cogs/Music.py:118-120 | The number of tracks. |
| MusicQueue.Queue.FirstTrack | bot/cogs/Music.py:93-97 | The first track, or `QueueIsEmpty`. |
| MusicQueue.Queue.GetNextTrack | bot/cogs/Music.py:122-135 | Empty queue: `QueueIsEmpty`, cursor unchanged. Otherwise the cursor grows by one; the result is nothing while the cursor is negative and the track at the cursor when in range. Past the end under ALL it is the first track with the cursor at 0; past the end otherwise it is nothing, with the cursor one further on. The list and mode are unchanged. |
| MusicQueue.Queue.Shuffle | bot/cogs/Music.py:137-144 | `QueueIsEmpty` on an empty queue. Otherwise the tracks up to the cursor stay, the rest is permuted, and the cursor and mode are unchanged. |
| MusicQueue.Queue.SetRepeatMode | bot/cogs/Music.py:146-150 | A recognised name sets its mode. Any other name is `InvalidRepeatMode`, with the mode unchanged. |
| MusicQueue.Queue.AddTrack | bot/cogs/Music.py:152-153 | The tracks are appended in order; the cursor and mode are unchanged. |
| MusicQueue.Queue.Clear | bot/cogs/Music.py:155-157 | The list is emptied and the cursor reset to 0; the mode is kept. |
| MusicPlayer.OfferedChoices | bot/cogs/Music.py:223 | At most five choices are offered, and no more than there are results. |
| MusicPlayer.OfferedPickAppends | bot/cogs/Music.py:192-234 | A pick among the offered emoji appends exactly that track. An `IndexError` needs an emoji that was not offered, for a list shorter than five. |
| MusicPlayer.ConnectTarget | bot/cogs/Music.py:169 | The author's voice channel wins whenever the author has a voice state. Otherwise the requested channel is used. |
| MusicPlayer.Appended | bot/cogs/Music.py:182-198 | `NoTracksFound` exactly for no result or an empty list. A playlist appends all its tracks; a single result appends itself. A longer list appends the picked track, or nothing on time-out; a pick beyond the list is an `IndexError`. |
| MusicPlayer.TeardownTriggered | bot/cogs/Music.py:258-262 | Teardown happens exactly when a human leaves voice and only bots remain in the channel they left. A missing `before.channel` is an `AttributeError`. |
| MusicPlayer.Player.constructor | bot/cogs/Music.py:160-163 | A new player has an empty queue, is not connected, and has sent nothing. |
| MusicPlayer.Player.Connect | bot/cogs/Music.py:165-173 | Already connected: `AlreadyConnectedToChannel`. No target channel: `NoVoiceChannel`. Otherwise it joins `ConnectTarget`. |
| MusicPlayer.Player.Teardown | bot/cogs/Music.py:175-180 | The queue is cleared, then the node player is destroyed and disconnected. |
| MusicPlayer.Player.PlayCurrent | bot/cogs/Music.py:236-237 | Plays the current track. Errors are those of `current_track`; nothing is sent when there is no current track. |
| MusicPlayer.Player.Advance | bot/cogs/Music.py:239-244 | `QueueIsEmpty` is swallowed. Otherwise the cursor takes one `GetNextTrack` step, and the track it returns is played. |
| MusicPlayer.Player.OnPlayerStop | bot/cogs/Music.py:270-274 | The player's new cursor and the track it plays are those of `OnStop`: a replay under ONE, an advance otherwise. Listener errors are recorded. |
| MusicPlayer.Player.StopAndAdvance | bot/cogs/Music.py:270-274 | A node stop followed by the track-end event: `Stop` is sent, then `OnStop` applies. |
| MusicPlayer.Player.AddTracks | bot/cogs/Music.py:182-198 | `Appended` is added to the queue, and playback of the current track starts only when nothing is playing and the queue is not empty. When no playback starts, or the pick fails, the playing flag is unchanged. |
| MusicPlayer.Player.ResumeCommand | bot/cogs/Music.py:327-341 | Connects if needed. Then: `QueueIsEmpty` on an empty queue; `PlayerAlreadyPlaying` when not paused; otherwise it unpauses. |
| MusicPlayer.Player.PlayCommand | bot/cogs/Music.py:327-349 | Not connected and no target channel: `NoVoiceChannel`, nothing changes. Otherwise it joins if needed, then appends `Appended` (or fails with its error), and plays the current track only when nothing was playing and the queue is not empty. The cursor, pause flag and repeat mode are unchanged. |
| MusicPlayer.Player.PauseCommand | bot/cogs/Music.py:359-368 | `PlayerAlreadyPaused` when paused. Otherwise it sends a pause. |
| MusicPlayer.Player.StopCommand | bot/cogs/Music.py:374-379 | Clears the queue, then stops. Under ONE the replay in the listener raises `QueueIsEmpty` there. The connection and pause flags are unchanged. |
| MusicPlayer.Player.NextCommand | bot/cogs/Music.py:381-391 | `QueueIsEmpty` on an empty queue. `NoMoreTracks` when nothing is upcoming. Otherwise a stop whose event advances the cursor; the listener's error (if any) is recorded and the playing flag says whether a track was played. On an error reply the errors and the playing flag are unchanged. The connection and pause flags never change. |
| MusicPlayer.Player.PreviousCommand | bot/cogs/Music.py:399-410 | `QueueIsEmpty` on an empty queue. `NoPreviousTracks` with nothing before the cursor. Otherwise `pos -= 2` then a stop; outside ONE this lands on the old `pos - 1`. The listener's error (if any) is recorded and the playing flag says whether a track was played; on an error reply both are unchanged. The connection and pause flags never change. |
| MusicPlayer.Player.SkipToCommand | bot/cogs/Music.py:550-563 | `QueueIsEmpty` on an empty queue. `NoMoreTracks` outside `[0, len]`. Otherwise `pos = idx - 2` then a stop; outside ONE this plays track `idx`, counted from 1. The listener's error (if any) is recorded and the playing flag says whether a track was played; on an error reply both are unchanged. The connection and pause flags never change. |
| MusicPlayer.Player.ShuffleCommand | bot/cogs/Music.py:418-423 | As `Queue.Shuffle`. |
| MusicPlayer.Player.RepeatCommand | bot/cogs/Music.py:429-436 | The lower-cased name must be recognised (else `InvalidRepeatMode`), and its mode is set. |
| MusicPlayer.Player.SeekCommand | bot/cogs/Music.py:539-548 | `QueueIsEmpty` on an empty queue. Otherwise it seeks to 1000 × the parsed seconds and answers those seconds. |
| MusicPlayer.Player.RestartCommand | bot/cogs/Music.py:526-533 | `QueueIsEmpty` on an empty queue. Otherwise it seeks to 0. |
| MusicPlayer.Registry.GetPlayer | bot/cogs/Music.py:300-304 | The guild's existing player, or a fresh one that is registered. |
| MusicPlayer.Registry.OnVoiceStateUpdate | bot/cogs/Music.py:258-262 | Exactly when `TeardownTriggered` holds, the guild's player is torn down (queue cleared, destroyed) and forgotten. |
| UtilDuration.FromSeconds | util/__init__.py:73-77 | A `timedelta` exists exactly up to 999999999 days, and it keeps the total seconds. |
| UtilDuration.TimeStringToTimedelta | util/__init__.py:71-77 | The duration's total seconds are the weighted sum of the amounts the regex groups read. |
| UtilDuration.TimeStringToSeconds | util/__init__.py:80-81 | The total seconds of the parsed duration. |
| UtilDuration.AmountsPresent | util/__init__.py:14 | A group written as digits and its unit letter yields that amount and consumes it. |
| UtilDuration.AmountsAbsent | util/__init__.py:14 | A group whose unit letter does not come next yields 0 and consumes nothing. |
| UtilDuration.RenderParses | util/__init__.py:14 | Amounts written in unit order (absent ones left out) are read back, absent ones as 0. What follows may be anything that does not start with a group for a unit after the last one written; a group for an earlier unit is ignored. |
| UtilDuration.OutOfOrderTailIgnored | util/__init__.py:14 | Units out of order are not read: "<m>m<h>h…" gives only the minutes, e.g. "5m3h" is 5 minutes. |
| UtilDuration.CanonicalStringParses | util/__init__.py:14-81 | A string written in the order w, d, h, m, s, followed by text that does not start with a group for a later unit, parses to 604800·w + 86400·d + 3600·h + 60·m + s seconds, with absent units 0. |
| UtilDuration.NoGroupMatches | util/__init__.py:14 | Text that does not start with a recognisable group yields 0 for every unit. |
| UtilDuration.UnrecognisedIsZero | util/__init__.py:71-81 | Such text is not an error: it parses to 0 seconds. |
| UtilDuration.Components | util/__init__.py:108-123 | Every printed amount is at least 1. Nothing is printed exactly when the duration is at most one day with no seconds. |
| UtilDuration.DayComponentsShape | util/__init__.py:110-114 | Weeks and days are printed with amounts of at least 1, and something is printed exactly for more than one day. |
| UtilDuration.ClockComponentsShape | util/__init__.py:115-122 | Hours, minutes and seconds are printed with amounts of at least 1, and something is printed exactly when the seconds are not 0. |
| UtilDuration.DaySecondsTotal | util/__init__.py:110-114 | The weeks and days printed add up to the days, but only for more than one day. |
| UtilDuration.ClockSecondsTotal | util/__init__.py:115-123 | The hours, minutes and seconds printed add up to the seconds of the day. |
| UtilDuration.ComponentsTotal | util/__init__.py:108-123 | The printed components add up to the total, except that a duration of exactly one day loses its day. |
| UtilDuration.DayComponents | util/__init__.py:110-114 | Nothing for at most one day; otherwise weeks, and leftover days below 7. |
| UtilDuration.ClockComponents | util/__init__.py:115-122 | Hours below 24, minutes and seconds below 60. |
| UtilDuration.SuffixAsWritten | util/__init__.py:112-122 | A space and the unit name, with a trailing space exactly after weeks, days and hours. |
| UtilDuration.TextAsWritten | util/__init__.py:108-123 | The text is empty exactly when there are no components. |
| UtilDuration.TimedeltaToString | util/__init__.py:108-123 | The accumulated text is each component's amount and suffix, in order. |
| UtilDuration.AppendClock | util/__init__.py:115-122 | The hours, minutes and seconds of `divmod` extend the text by the pieces of the clock components, in order. |
| UtilDuration.ZeroPrintsEmpty | util/__init__.py:108-123 | A zero duration prints as the empty string. |
| UtilDuration.OneDayPrintsNothing | util/__init__.py:110-114 | One day exactly prints as the empty string although it is 86400 seconds. |
| UtilDuration.SixtyFiveSeconds | util/__init__.py:115-116 | 65 seconds are 1 minute and 5 seconds. |
| UtilDuration.MinutesRunIntoSeconds | util/__init__.py:119-122 | As written, 65 seconds print as "1 minutes5 seconds". |
| UtilDuration.MinutesRunIntoSecondsWords | util/__init__.py:119-122 | As written, the second word of that text is "minutes5". |
| UtilDuration.SeparatedMinutesAndSeconds | util/__init__.py:119-122 | With separated components, 65 seconds print as "1 minutes 5 seconds". |
| UtilDuration.DurationTextWords | util/__init__.py:108-123 | With separated components, splitting the text on spaces gives amount, unit, amount, unit, and so on. |
| UtilText.EnglishSuffix | util/__init__.py:149-162 | "th" for 11..13 modulo 100. Otherwise "st", "nd" or "rd" for a last digit of 1, 2 or 3, and "th" for anything else. Each suffix comes with both directions of its condition. |
| UtilText.OrdinalSuffix | util/__init__.py:164 | The number's decimal text followed by its two-letter suffix. |
| UtilText.OrdinalNumberReadsBack | util/__init__.py:164 | The number before the suffix reads back as `n`. |
| UtilText.OrdinalSuffixPeriodic | util/__init__.py:149-162 | `n` and `n + 100` take the same suffix. |
| UtilText.SameDigitsSameSuffix | util/__init__.py:149-162 | Numbers with the same last two digits take the same suffix. |
| UtilText.NicknameText | util/__init__.py:28 | A non-empty nick is used as is. |
| UtilText.FixedMapping | util/__init__.py:26-37 | The ten fixed placeholders, each a non-empty key starting with `{`. |
| UtilText.CloseAt | util/__init__.py:43 | The lazy `(.*?)}` stops at the first `}` with no newline before it. Otherwise there is no match. |
| UtilText.FindPlaceholders | util/__init__.py:43-56 | Every name found holds no `}` and no newline. |
| UtilText.Resolve | util/__init__.py:46-51 | An all-digit name is looked up by id, any other name by name. There is no result exactly when that lookup misses. |
| UtilText.PersonalizeMessage | util/__init__.py:24-68 | The loops produce `Personalized`: the fixed replacements in order, then the channel pass, then the role pass. A member without an avatar fails. |
| UtilText.Personalized | util/__init__.py:24-68 | The call fails exactly for a member without an avatar. |
| UtilText.SubstituteFound | util/__init__.py:43-53 | One placeholder pass: the loop leaves the text `SubstituteEach` gives for the names found, each resolved name's placeholder replaced by its mention in turn. |
| PyText.ReplaceAtFirst | util/__init__.py:40 | `str.replace` puts the replacement at the leftmost occurrence of the pattern and carries on with the text after it. |
| PyText.ReplaceLeavesNoBrace | util/__init__.py:40 | When every `{` of the text starts an occurrence and the replacement has no `{`, no `{` is left. |
| PyText.ReplaceCanRecreate | util/__init__.py:40 | One `replace` pass can leave the pattern behind: "{{ab}b}" with "{ab}" replaced by "a" gives "{ab}". |
| UtilText.SubstituteStepAtFirst | util/__init__.py:43-53 | The step for a resolved name puts its mention at the leftmost occurrence of its placeholder and carries on after it. |
| UtilText.ResolvedPlaceholderGone | util/__init__.py:43-53 | After the step for a resolved name, its placeholder no longer occurs, when its mention has no `{` and every `{` before the step starts that placeholder. |
| UtilText.LastKeyGone | util/__init__.py:39-40 | After a fixed pair's replace, its key no longer occurs, when the value has no `{` and every `{` before it starts that key. |
| UtilText.NicknameMayWriteKey | util/__init__.py:28-40 | The fixed pass does not clear every key: `{user}` is replaced before `{nickname}`, so a member nicknamed "{user}" turns "{nickname}" into "{user}". |
| UtilText.ReplaceEachConcat | util/__init__.py:39-40 | Replacing the pairs of `a + b` is replacing those of `a`, then those of `b`. |
| UtilText.NoBraceNoOccurrence | util/__init__.py:39-40 | Text without `{` contains none of the fixed placeholders. |
| UtilText.ReplaceEachAbsent | util/__init__.py:39-40 | Replacing keys that do not occur changes nothing. |
| UtilText.UnresolvedKept | util/__init__.py:52-66 | When no name found resolves, the text is unchanged. |
| UtilText.ResolvedOnly | util/__init__.py:46-53 | The names found whose lookup succeeds, in order; each is one of the names found. |
| UtilText.UnresolvedSkipped | util/__init__.py:43-66 | A placeholder whose lookup fails causes no replacement: the pass gives the same text as replacing only the names that resolve. |
| UtilText.NoBraceNoPlaceholders | util/__init__.py:43-56 | Text without `{` yields no channel or role placeholder. |
| UtilText.PlainMessageUnchanged | util/__init__.py:24-68 | A message with no placeholder comes back unchanged. |
| UtilText.UnresolvedMessageUnchanged | util/__init__.py:24-68 | A message whose fixed keys are absent and whose `{#..}`/`{@..}` names all fail to resolve comes back unchanged. |
| UtilText.NoAvatarFails | util/__init__.py:30 | A member without an avatar makes the whole call fail. |
| MathCodec.OrLowBits | bot/cogs/Math.py:26 | OR with a value below `2^k` of a multiple of `2^k` is addition. |
| MathCodec.OrZero | bot/cogs/Math.py:26 | OR with 0 leaves any integer, negative ones included, unchanged. |
| MathCodec.PyOr | bot/cogs/Math.py:26 | Python's `|` on integers: the result is non-negative exactly when both operands are. |
| MathCodec.RgbToHex | bot/cogs/Math.py:20-26 | Rejected (`InvalidRgb`) exactly when some component has absolute value above 255. |
| MathCodec.RgbPacksBytes | bot/cogs/Math.py:26 | For components in 0..255 the value is r·65536 + g·256 + b, below 2^24, and its three bytes are r, g and b. |
| MathCodec.PackedBytes | bot/cogs/Math.py:26 | The packed value's bytes extract back to r, g and b. |
| MathCodec.NegativeRedAccepted | bot/cogs/Math.py:23-26 | The `abs` guard lets (-1, 0, 0) through, and it packs to -65536. |
| MathCodec.HexToRgb | bot/cogs/Math.py:29-37 | Every "0x" is removed. A remainder not six characters long is `InvalidHex`. |
| MathCodec.HexPair | bot/cogs/Math.py:35-37 | Two hexadecimal digits whose value is the byte. |
| MathCodec.HexText | bot/cogs/Math.py:29-37 | "0x" and six digits: the text the rgb command is meant to read. |
| MathCodec.StripHexPrefix | bot/cogs/Math.py:31 | Removing "0x" from "0x" and hex digits leaves the digits. |
| MathCodec.ParseHexPair | bot/cogs/Math.py:35-37 | `int(pair, 16)` reads the byte back. |
| MathCodec.HexTextRoundTrip | bot/cogs/Math.py:29-37 | The rgb command reads the intended reply, "0x" and six zero-padded lower-case digits, back as the three components it prints. |
| MathCodec.SixDigitsRead | bot/cogs/Math.py:29-37 | Any six hexadecimal digits, upper or lower case, with or without "0x" in front, are read as three pairs, each worth 16 × its first digit + its second and so below 256. |
| MathCodec.HexReplyDoublesPrefix | bot/cogs/Math.py:26-27 | The hex reply as written starts "0x0x", and the rgb command rejects the reply for (0, 0, 255). |
| MathCodec.HexReplyAsWritten | bot/cogs/Math.py:27 | The reply starts "0x0x" for every non-negative value and "0x-0x" for a negative one. |
| MathCodec.ToBytes | bot/cogs/Math.py:56 | `to_bytes` of a value that fits gives exactly `length` bytes. |
| MathCodec.BytesToInt | bot/cogs/Math.py:62 | `from_bytes` of k bytes is below 256^k. |
| MathCodec.BitLengthBounds | bot/cogs/Math.py:56 | `n < 2^bit_length(n)`, and `2^(bit_length(n)-1) <= n` for `n > 0`. |
| MathCodec.ByteLengthFits | bot/cogs/Math.py:56 | `n` fits in `(bit_length + 7) // 8` bytes, and in no fewer. |
| MathCodec.LeadingZeroFits | bot/cogs/Math.py:56 | A leading zero byte means the value fits in one byte less. |
| MathCodec.MinimalBytes | bot/cogs/Math.py:56 | `(bit_length + 7) // 8` bytes: the fewest whole bytes that hold every bit of `n`. |
| MathCodec.FromToBytes | bot/cogs/Math.py:56-62 | `from_bytes(to_bytes(n))` is `n`. |
| MathCodec.MinimalBytesProperties | bot/cogs/Math.py:56 | The minimal encoding is empty exactly for 0, has no leading zero byte, and decodes back to `n`. |
| MathCodec.B64Value | bot/cogs/Math.py:61 | A Base64 alphabet character's value is below 64 and maps back to the character. `=` has no value. |
| MathCodec.B64CharValue | bot/cogs/Math.py:57 | The alphabet is one-to-one. |
| MathCodec.Encode | bot/cogs/Math.py:57 | The Base64 text has a length that is a multiple of 4, and it is empty exactly when there are no bytes. |
| MathCodec.EncodedLength | bot/cogs/Math.py:57 | Base64 output length is 4·⌈n/3⌉. |
| MathCodec.DecodeGroup | bot/cogs/Math.py:61 | A quartet decodes to 1 to 3 bytes, and to fewer than 3 only when it is the last quartet. |
| MathCodec.Decode | bot/cogs/Math.py:61 | Only text of a length divisible by 4 decodes. |
| MathCodec.DecodeFullGroup | bot/cogs/Math.py:57-61 | A full quartet decodes back to its three bytes. |
| MathCodec.DecodeTwoBytes | bot/cogs/Math.py:57-61 | A quartet with one `=` decodes back to its two bytes. |
| MathCodec.DecodeOneByte | bot/cogs/Math.py:57-61 | A quartet with `==` decodes back to its one byte. |
| MathCodec.Base64RoundTrip | bot/cogs/Math.py:57-61 | Decoding the encoding of any bytes gives those bytes. |
| MathCodec.IntToB64 | bot/cogs/Math.py:54-57 | Fails (`OverflowError`) exactly for negative numbers. The text length is a multiple of 4, and the text is empty exactly for 0. |
| MathCodec.B64ToInt | bot/cogs/Math.py:59-62 | Fails exactly when the text is not Base64. |
| MathCodec.HexToB64 | bot/cogs/Math.py:64-69 | `ValueError` when the hex does not parse. Any output has a length that is a multiple of 4. |
| MathCodec.B64ToHex | bot/cogs/Math.py:71-75 | Fails exactly when the text is not Base64. The reply starts with "0x". |
| MathCodec.IntB64RoundTrip | bot/cogs/Math.py:54-62 | `b64toint(inttob64(n)) == n` for every `n >= 0`. |
| MathCodec.HexB64RoundTrip | bot/cogs/Math.py:64-75 | `b64tohex(hextob64(hex(n))) == hex(n)` for every `n >= 0`. |
| MathCodec.NegativeHexRefused | bot/cogs/Math.py:66-68 | A negative hex number parses but cannot be turned into bytes (`OverflowError`). |
| HelpFormat.Syntax | bot/cogs/Help.py:9-18 | The loop builds `SyntaxText`. |
| HelpFormat.SyntaxText | bot/cogs/Help.py:9-18 | The signature is wrapped in backticks. |
| HelpFormat.ListedParams | bot/cogs/Help.py:13-15 | No more parameters are listed than are declared. |
| HelpFormat.AllParamsListed | bot/cogs/Help.py:13-15 | With no `self` or `ctx`, every parameter is listed, in declaration order, as `[k]` or `<k>`. |
| HelpFormat.HiddenParamsDropped | bot/cogs/Help.py:14 | `self` and `ctx` are never listed. |
| HelpFormat.ListedAreVisible | bot/cogs/Help.py:13-15 | Every listed entry is the rendering of a declared parameter that is not hidden. |
| HelpFormat.ListedAppend | bot/cogs/Help.py:13-15 | The parameters of a concatenation are listed as those of the first part, then those of the second. |
| HelpFormat.SelfCtxThenParams | bot/cogs/Help.py:13-15 | For `self`, `ctx`, then visible parameters, every visible parameter is listed, in declaration order, and nothing else. |
| HelpFormat.SyntaxWithoutParams | bot/cogs/Help.py:10-18 | Without parameters the line is the name and aliases joined with vertical bars, in backticks, with no trailing space. |
| HelpFormat.InsertCommas | bot/cogs/Help.py:36 | `{n:,}` adds one comma per full group of three digits after the first. |
| HelpFormat.InsertCommasRoundTrip | bot/cogs/Help.py:36 | Removing the commas gives back the digits. |
| HelpFormat.GroupedDigits | bot/cogs/Help.py:36 | The grouped number without commas is `str(n)`. |
| HelpFormat.FooterRange | bot/cogs/Help.py:26-36 | The first number is `page·3 + 1`. The last number never exceeds the total, and is either the total or first + 2, whichever is smaller: `min(total, first + 2)`. |
| HelpFormat.Footer | bot/cogs/Help.py:36 | The footer text ends " commands.". |
| HelpFormat.FooterCountsPage | bot/cogs/Help.py:26-36 | On a non-empty page the footer numbers span exactly that page's entries. |
| HelpFormat.FooterPagesContinue | bot/cogs/Help.py:29-36 | Each page's footer starts one past the previous page's last number. |
| HelpFormat.FormatPage | bot/cogs/Help.py:43-47 | One field per entry: the description, or "No description" when it is empty, paired with its syntax line. |
| HelpFormat.FirstMatch | bot/cogs/Help.py:119-141 | The index of the first matching command, or none when no command matches. |
| HelpFormat.FindCommand | bot/cogs/Help.py:131-142 | The search loop finds `FirstMatch`. |
| HelpFormat.FirstMatchUnique | bot/cogs/Help.py:140-142 | Any index that is a first match is the one `FirstMatch` gives. |
| HelpFormat.Capitalize | bot/cogs/Help.py:93 | `str.capitalize` keeps the length. |
| HelpFormat.ShowHelp | bot/cogs/Help.py:66-146 | The early returns give `HelpReplyFor`: the overview, module missing, the module menu or empty module, or the command part. |
| HelpFormat.AnswerCommand | bot/cogs/Help.py:119-143 | The lookup answers as `CommandReply` does: an exact name first, then a "group sub" query or a one-word partial match. |
| HelpFormat.HelpReplyFor | bot/cogs/Help.py:66-146 | The overview exactly without a module; "module does not exist" exactly for an unknown capitalised module; the module menu or its empty notice exactly for a known module without a command. |
| HelpFormat.CommandReply | bot/cogs/Help.py:119-146 | Never a module-level reply. A command named exactly as the query is always described. A group menu is for a group of that name. "That command does not exist" only when no command has that name. |
| HelpFormat.ExactNameWins | bot/cogs/Help.py:119-126 | A command named exactly as the query is described (a group as its menu), ahead of partial matches. |
| HelpFormat.OneWordPicksFirstMatch | bot/cogs/Help.py:139-143 | A one-word query describes the first command whose aliases hold it or whose name contains it. "That command does not exist" comes exactly when there is none. |
| HelpFormat.UnknownCommandAnswered | bot/cogs/Help.py:92-143 | On a known module, a query matching nothing is answered "That command does not exist". |
| WelcomeAutoroles.ExtractRoleIds | bot/cogs/Welcome.py:250 | Every id found is a string of digits. |
| WelcomeAutoroles.MentionExtracted | bot/cogs/Welcome.py:250-259 | A `<@&id>` mention yields its id, ahead of those later in the text. |
| WelcomeAutoroles.SkipsOther | bot/cogs/Welcome.py:250-259 | Characters other than `<` are skipped. |
| WelcomeAutoroles.NoAngleNoIds | bot/cogs/Welcome.py:250-259 | Text without `<` yields no id. |
| WelcomeAutoroles.MentionListRoundTrip | bot/cogs/Welcome.py:250-259 | The ids of a list of mentions are read back in order. |
| WelcomeAutoroles.ClassifyAction | bot/cogs/Welcome.py:240-262 | Matched case-insensitively: show/display/none is display, remove/rem/del/delete is remove, add is add. Each comes with both directions. |
| WelcomeAutoroles.DisplayLines | bot/cogs/Welcome.py:243-245 | One line per stored id, and a result exactly when every stored id parses with `int`. |
| WelcomeAutoroles.IndexOf | bot/cogs/Welcome.py:254 | The first occurrence, as `list.remove` finds it. |
| WelcomeAutoroles.RemoveFirst | bot/cogs/Welcome.py:254 | Removing one occurrence shortens the list by one. |
| WelcomeAutoroles.RemoveFirstMultiset | bot/cogs/Welcome.py:254 | Exactly one copy of the id goes; everything else stays. |
| WelcomeAutoroles.RemoveEach | bot/cogs/Welcome.py:252-256 | The list shrinks by exactly `removed_count`, which is at most the number of ids given. |
| WelcomeAutoroles.RemoveEachSubset | bot/cogs/Welcome.py:252-256 | Removal only takes away: the result is a sub-multiset. |
| WelcomeAutoroles.RemoveAbsentIds | bot/cogs/Welcome.py:252-256 | Ids not stored change nothing and count 0. |
| WelcomeAutoroles.RemoveNamedId | bot/cogs/Welcome.py:252-256 | A stored id given once is gone afterwards, and it counts 1. |
| WelcomeAutoroles.RemoveRepeatedId | bot/cogs/Welcome.py:252-256 | An id given twice removes two copies. |
| WelcomeAutoroles.RemoveKeepsDigits | bot/cogs/Welcome.py:252-256 | Removal keeps a list of digit ids a list of digit ids. |
| WelcomeAutoroles.GuildSettings.constructor | bot/cogs/Welcome.py:236-239 | The stored document as read. |
| WelcomeAutoroles.GuildSettings.RemoveIds | bot/cogs/Welcome.py:252-256 | The loop leaves `RemoveEach`'s list and count, and a list of digit ids stays one. |
| WelcomeAutoroles.GuildSettings.SetAutoroles | bot/cogs/Welcome.py:235-263 | The outcome per action: no document is a silent stop. Display lists the roles ("UNKNOWN" for missing ones) or says there are none. Remove refuses an empty list or no ids, and otherwise removes and counts. Add refuses no ids, and otherwise replaces the list. Anything else is invalid with no change. A list of digit ids stays one, and a successful add always leaves one. |
| FunDice.ParseDie | bot/cogs/Fun.py:33 | Succeeds only when splitting on "d" gives exactly two parts. Any other count is an error. |
| FunDice.Validate | bot/cogs/Fun.py:34-37 | Accepted exactly for 1..100 dice of 1..10000 faces. "Too small" exactly when either is at most 0, which is checked first. |
| FunDice.RollTexts | bot/cogs/Fun.py:40 | Each roll written as `str(roll)`. |
| FunDice.Response | bot/cogs/Fun.py:39-40 | Either way the reply ends with the total of the rolls. |
| FunDice.RollDice | bot/cogs/Fun.py:32-41 | Parse and check errors as above. Otherwise exactly `dice` rolls, each in 1..value, and the reply is `Response` of those rolls. |
| FunDice.SumBounds | bot/cogs/Fun.py:38-39 | The sum of fair rolls lies between `dice` and `dice·value`. |
| FunDice.DieStringRoundTrip | bot/cogs/Fun.py:33 | "<dice>d<value>" is read back as (dice, value). |
| FunDice.NoLetterD | bot/cogs/Fun.py:33 | `str(n)` never holds a "d". |
| FunDice.TwoDsRejected | bot/cogs/Fun.py:33 | A die string with two "d"s is refused. |
| FunDice.NonPositiveIsTooSmall | bot/cogs/Fun.py:34-35 | A count at or below 0 is "too small", never "too large". |
| FunDice.SummedReplyIsTotal | bot/cogs/Fun.py:39 | The summed reply reads back as a total between `dice` and `dice·value`. |
| FunDice.WrittenOutEndsWithTotal | bot/cogs/Fun.py:39-40 | The written-out reply ends with " = " and the total. |
| FunDice.OneRollWrittenOut | bot/cogs/Fun.py:39-40 | One roll written out reads "n = n". |

## Left out

- The audio node and Discord voice I/O (`play`, `stop`, `seek`, `set_pause`, `destroy`, `get_tracks`, node start-up). They are modelled as commands recorded in `Player.sent`, with the connection, pause and playing flags as plain fields.
- Concurrency: the bot has no locks, and a stop and its track-end event are modelled as one sequential step. The model does not capture events interleaving with commands.
- A destroyed node player sends no track-end event; the model does not add one.
- `play(None)` when the cursor is past the end: what the node client does with it is outside the model. It is the error `NothingToPlay`, and nothing is sent.
- The search query handling of "play": stripping `<>`, the URL check and the `ytsearch:` prefix. The search result is an input.
- The reply texts, embeds, the search-result menu, and the "queue" and "now playing" commands (float progress bar). Only the outcomes are modelled.
- MusicPlayer.Appended: for a list of more than one result, `choose_track` reads `ctx.author.avatar.url` and `self.bot.user.avatar.url` before any pick (bot/cogs/Music.py:219-220). When either avatar is None this raises `AttributeError`, and nothing is appended. The model assumes both avatars are set.
- `choose_track`'s 60-second wait is an input `Option<Choice>`, and the reaction's author and message checks are not modelled.
- `MusicPlayer.Player.Connect`: the node join is recorded, but the reply with the channel's name is not.
- `get_player` by context or by guild: both are the registry lookup by guild id.
- `str(command)` (the qualified name) is an input field of `Command`. A command's parameters are given as name and optional flag, standing for the annotation text containing `NoneType`.
- The bot's set of commands has an iteration order the code does not control. It is an input sequence.
- `cmd_help`, the overview and the module-menu embeds, and `MenuPages` navigation. Only which reply is chosen is modelled.
- `HelpFormat.Capitalize` states only the length; it is the ASCII `str.capitalize`, and other scripts' case rules are not modelled.
- `\d` and `str.isdigit` are modelled as ASCII digits only. Python also accepts other Unicode digits.
- `str.lower`, `str.strip` and `str.capitalize` (`PyText.Lower`, `PyText.IsSpace`, `HelpFormat.Capitalize`) are modelled on ASCII only. The words the code compares ("yes", "show", "none", "all", …) are ASCII, so their matching is unaffected.
- UnresolvedKept: states that the text is unchanged only when every name found fails to resolve. With `UnresolvedSkipped`, a failed lookup provably causes no replacement. It is not stated that each unresolved placeholder's text survives: the mention put in for a resolved name can itself contain or cut into that text.
- Python's limit on the number of digits in `int()` is not modelled.
- `base64.b64decode` is modelled as strict, canonical Base64 (`MathCodec.Decode`). Python's default decoder also discards characters outside the alphabet, and accepts some padding forms the model refuses.
- `time_string_to_seconds` returns a float; the model returns the same value as a natural number of seconds. Only non-negative `timedelta`s without microseconds are modelled.
- `personalize_message` is modelled with lookups as maps. When a name matches several channels, the map holds the one `discord.utils.get` finds first.
- `member.avatar` being None raises `AttributeError` in the source. The model returns None.
- Randomness: `random.shuffle` and `random.randint` are nondeterministic choices within their documented ranges. The distribution is not modelled.
- The stored guild document (MongoDB) is the `GuildSettings` object. Writes are assignments to its fields.
- The other cogs, the level formula, the moderation and logging commands, the float math commands, and the HTTP-backed fun commands are outside the modelled core.

## Findings

| source | as written | input that shows it | evidently intended | confidence | as-written member | corrected member |
|---|---|---|---|---|---|---|
| util/__init__.py:119-122 | The minutes and seconds pieces have no trailing space, unlike weeks, days and hours, so they run into what follows. | `timedelta(seconds=65)` prints "1 minutes5 seconds". | Every component separated by one space: "1 minutes 5 seconds". | not executed | UtilDuration.MinutesRunIntoSeconds, UtilDuration.MinutesRunIntoSecondsWords | UtilDuration.SeparatedMinutesAndSeconds, UtilDuration.DurationTextWords |
| bot/cogs/Math.py:26-27 | Two causes. The reply puts "0x" in front of `hex(hexa)`, which already starts with "0x". And `hex` does not pad with zeros, so small values get fewer than six digits. | `hex 255 0 0` replies "0x0xff0000". `hex 0 0 255` replies "0x0xff": `rgb` rejects it, and even without the doubled prefix "0xff" has two digits, not six. | A single "0x" and six zero-padded digits that `rgb` reads back. | not executed | MathCodec.HexReplyAsWritten, MathCodec.HexReplyDoublesPrefix | MathCodec.HexText, MathCodec.HexTextRoundTrip |
