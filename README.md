# rtcsync: time-announcement sender, modelled in Dafny

go-rtcsync periodically queries an NTP server and broadcasts the time to
a mote network. Each announcement is a small record:

- a header (1 = Unix time);
- the NTP stratum plus one;
- the NTP Unix time plus an operator-given offset.

The record goes out as an active message of type `0x80`. Daily quiet windows
(UTC seconds since midnight) suppress announcements. The `sendrtc` command
reads those windows from `HH:MM-HH:MM` options.

The model consists of five modules:

- `Wrappers`: `Option` and `Result`.
- `GoInts`: the fixed-width Go integer types used, and Go's two's-complement
  wrap-around for 64-bit `int` arithmetic and for `uint8` addition.
- `GoStrings`: `strings.Split` with a one-character separator and
  `strconv.Atoi`. Their inverses, `Join` and a decimal formatter, are used to
  state round trips.
- `RtcSync`: the records, the quiet-window check, and the announcement
  record. It also holds the `SyncSender` class, whose fields are:
  - `quiet`: the registered windows;
  - `sent`: the packets handed to the transport;
  - `disconnects`: the number of `Disconnect` calls.

  `QuietPeriod` is proved against the predicate `Quiet`: some registered
  window covers the time's UTC seconds-of-day. `Run` is a method over a
  finite sequence of events. An event is either an Exit request or a timer
  tick carrying the outcome of that tick's NTP query. `EventReaction` is the
  decision for one event. `Run` is proved against the specification functions
  `Reactions` (`EventReaction` applied to each event), `Packets`, `ExitCount`
  and `Waits`.
- `SendRtc`: the command's loop over its quiet-period options.
  - `ParseQuietSpec` is one spec: split at `-` and `:`, then four `Atoi`
    calls.
  - `AddQuietSpecs` is the loop. It appends the window of each accepted spec
    to the sender and stops at the first rejected one. It is proved against
    `Load`, which computes the windows kept and the outcome from the parse of
    each spec.

Behaviours of the code worth knowing:

- The first wait of `Run` is one second; every wait armed after the first tick is `period`.
- Every Exit request calls `Disconnect`, a second one too. The loop goes on
  announcing afterwards (`ExitDoesNotStop`).
- The parser checks neither hour or minute ranges nor `start <= end`. A spec
  such as `22:30-06:00` is accepted, but its window never matches any time
  (`OvernightSpecNeverMatches`).
- Windows are only ever compared in UTC; there is no local-clock mode.

## Model

| member | source | states |
|---|---|---|
| GoInts.Wrap64 | rtcsync.go:71 | the int64 a Go program holds is congruent to the exact value modulo 2^64, and is the exact value when that is in range |
| GoInts.Add64 | rtcsync.go:71 | Go's int64 `+`: the exact sum when it fits, otherwise the sum wrapped modulo 2^64 |
| GoInts.Mul64 | cmd/sendrtc/sendrtc.go:114 | Go's int64 `*`: the exact product when it fits, otherwise the product wrapped modulo 2^64 |
| GoInts.Add8 | rtcsync.go:70 | uint8 `+`: the sum, or the sum minus 256 when it reaches 256 (stratum 255 + 1 = 0) |
| GoInts.Wrap64Unique | rtcsync.go:71 | the wrapped value is the only int64 congruent to the exact value modulo 2^64 |
| GoInts.Wrap64Shift | rtcsync.go:71 | adding after wrapping gives the same int64 as adding before wrapping |
| GoStrings.Split | cmd/sendrtc/sendrtc.go:91 | strings.Split yields one more piece than there are separators, and no piece contains the separator |
| GoStrings.JoinSplit | cmd/sendrtc/sendrtc.go:91 | joining the pieces of a split with the separator gives back the original text |
| GoStrings.SplitJoin | cmd/sendrtc/sendrtc.go:97-98 | splitting separator-free pieces joined by the separator gives back exactly those pieces |
| GoStrings.Atoi | cmd/sendrtc/sendrtc.go:104-107 | strconv.Atoi: a negative result needs a leading '-' |
| GoStrings.DecimalValueDigits | cmd/sendrtc/sendrtc.go:104-107 | a text has a decimal value exactly when it is a non-empty run of ASCII digits |
| GoStrings.AtoiAccepts | cmd/sendrtc/sendrtc.go:104-107 | Atoi accepts exactly an optional '+' or '-' followed by at least one ASCII digit, with a signed value that fits in int64, and returns that value |
| GoStrings.AtoiExamples | cmd/sendrtc/sendrtc.go:104-107 | "+10" gives 10, "007" gives 7 and "-5" gives -5; "", "+", "1a" and " 1" are rejected |
| GoStrings.DecimalValueOfFormat | cmd/sendrtc/sendrtc.go:104-107 | the digit string of every natural number denotes that number |
| GoStrings.AtoiFormat | cmd/sendrtc/sendrtc.go:104-107 | Atoi reads back the decimal text of every natural number below 2^63 |
| RtcSync.SecondsOfDay | rtcsync.go:83-84 | seconds since UTC midnight lie in [0, 86399] and differ from the Unix time by whole days |
| RtcSync.ClockFieldsGiveSecondsOfDay | rtcsync.go:84 | Hour*3600 + Minute*60 + Second of the UTC clock is exactly the seconds-of-day |
| RtcSync.QuietAppend | rtcsync.go:86-91 | registering a window makes quiet exactly the times it covers, in addition to those already quiet |
| RtcSync.UnmatchableWindow | rtcsync.go:87 | an inverted window, or one outside [0, 86399], never matches: adding it changes no answer |
| RtcSync.QuietOrderIndependent | rtcsync.go:86-91 | the answer depends only on which windows are registered: neither their order nor repeated registrations matter |
| RtcSync.QuietDaily | rtcsync.go:83-87 | quiet windows repeat every day: shifting a time by whole days keeps the answer |
| RtcSync.QuietWindowExample | rtcsync.go:82-92 | with window 36000..36300, 10:02:30 is quiet on every day and 09:59:59 and 10:05:01 are not; with no windows no time is quiet |
| RtcSync.Announcement | rtcsync.go:68-71 | the record has header 1, stratum + 1 modulo 256, and NTP time + offset (wrapped in int64, exact when in range) |
| RtcSync.OffsetShift | rtcsync.go:71 | raising the offset by d raises the announced time by d, with the same wrap-around |
| RtcSync.TickDecision | rtcsync.go:99-117 | event i announces iff it is a tick whose query and validation succeeded and whose NTP time is not quiet; the packet carries type 0x80, the destination and the announcement; the other outcomes are a warning, a quiet skip or a disconnect |
| RtcSync.AtMostOnePacketPerTick | rtcsync.go:102-117 | a run sends at most one packet per tick, and none for an Exit |
| RtcSync.ExitDoesNotStop | rtcsync.go:97-101 | an Exit only disconnects: events after it react and send exactly as if they had come alone |
| RtcSync.WaitsAt | rtcsync.go:96-103 | the wait armed before event i is 1 s until the first tick, then `period`, whatever Exits intervene |
| RtcSync.FourTicksExample | rtcsync.go:102-117 | failed query, two answered ticks, failed validation, no quiet windows: two warnings and exactly the two announcements, in order |
| RtcSync.SyncSender.constructor | rtcsync.go:46-60 | a new sender keeps its source, group and host, with no windows, nothing sent and no disconnects |
| RtcSync.SyncSender.AddQuietPeriod | rtcsync.go:62-65 | appends the window after those already registered |
| RtcSync.SyncSender.QuietPeriod | rtcsync.go:82-92 | the scan answers true iff the time's UTC seconds-of-day lies in some registered window, ends inclusive |
| RtcSync.SyncSender.AnnounceTime | rtcsync.go:67-80 | hands exactly one packet to the transport: group, source, destination, type 0x80 and the announcement |
| RtcSync.SyncSender.React | rtcsync.go:98-118 | one pass of the select: the reaction is the decision for that event; only an announcement sends, and only an Exit disconnects |
| RtcSync.SyncSender.Run | rtcsync.go:94-120 | the reactions, waits, packets sent and disconnect count are those of the event sequence: one reaction per event, packets in order |
| SendRtc.ClockSeconds | cmd/sendrtc/sendrtc.go:114 | H*3600 + M*60 in Go int; for non-negative, non-overflowing fields it is exact and a multiple of 60 |
| SendRtc.SplitSpec | cmd/sendrtc/sendrtc.go:91-102 | "invalid quiet period" iff the spec has other than one '-'; on success the four fields rebuild the spec and contain no separator |
| SendRtc.SplitSpecText | cmd/sendrtc/sendrtc.go:91-102 | a spec built from four separator-free fields splits back into exactly them |
| SendRtc.ParseQuietSpec | cmd/sendrtc/sendrtc.go:91-114 | a spec is an invalid quiet period exactly when it has other than one '-' |
| SendRtc.AcceptedSpecWindow | cmd/sendrtc/sendrtc.go:104-114 | an accepted spec's four numbers are non-negative; the window is H*3600+M*60 on each side, exact when it fits in int64 |
| SendRtc.ParseFields | cmd/sendrtc/sendrtc.go:97-114 | a spec of four separator-free fields is rejected as a bad time iff Atoi rejects one of them, else it gives the clock-seconds window |
| SendRtc.ParseFormattedFields | cmd/sendrtc/sendrtc.go:91-114 | every formatted H1:M1-H2:M2 whose numbers are below 2^63 is accepted and gives the clock-seconds of its own numbers, with no range or order check |
| SendRtc.ParseFormatted | cmd/sendrtc/sendrtc.go:104-114 | when neither side overflows, the window of a formatted spec is exactly H1*3600+M1*60 .. H2*3600+M2*60 |
| SendRtc.ClockSecondsExact | cmd/sendrtc/sendrtc.go:114 | when H*3600+M*60 fits in int64, Go's computation gives it exactly |
| SendRtc.ParseExample | cmd/sendrtc/sendrtc.go:90-115 | "10:00-10:05" gives the window 36000..36300 |
| SendRtc.OvernightSpecNeverMatches | cmd/sendrtc/sendrtc.go:114 | "22:30-06:00" is accepted as 81000..21600, and that window never makes any time quiet |
| SendRtc.NoDashRejected | cmd/sendrtc/sendrtc.go:91-95 | a spec without '-' ("10:00") is an invalid quiet period |
| SendRtc.TwoDashesRejected | cmd/sendrtc/sendrtc.go:91-95 | a spec with two '-' ("10:00-10:05-10:10") is an invalid quiet period |
| SendRtc.MissingColonRejected | cmd/sendrtc/sendrtc.go:97-102 | a side without ':' ("10-11") is an invalid start or end time |
| SendRtc.LoadOutcomeFacts | cmd/sendrtc/sendrtc.go:90-115 | all specs accepted gives one window per spec; otherwise the outcome names the first rejected spec and its error, after exactly the windows before it |
| SendRtc.LoadedWindowAt | cmd/sendrtc/sendrtc.go:90-115 | window i is the parse of spec i, in command-line order |
| SendRtc.AddQuietSpecs | cmd/sendrtc/sendrtc.go:90-115 | the loop appends to the sender exactly the windows of the specs before the first rejection, and reports how it ended |
| SendRtc.LoadedSpecSilences | cmd/sendrtc/sendrtc.go:114 | once 10:00-10:05 is loaded, 10:02:30 UTC of any day is quiet and 10:05:01 is not |

## Left out

- NTP: the query and the response validation are not modelled. Each tick carries their outcome (failed query, failed validation, or the response's Unix time and stratum) as input.
- Timers, channels and goroutines are not modelled. `Run` loops forever; the model runs it over a finite sequence of events and returns the wait armed before each one. Periods are whole seconds rather than `time.Duration` nanoseconds.
- The transport is not modelled: the `moteconnection` connection and dispatcher, the byte serialization of the payload, and connect/autoconnect. A sent packet is kept as its addressing plus the record. `AMAddr` is taken as 16 bits and `AMGroup` as 8 bits; the library is not part of this model.
- Logging is left out: the `Debug`/`Info`/`Warning` output and `RTCSyncMsg.String`. It has no effect on behaviour.
- `STARTUP_DELAY` is left out: it is declared but nothing in the core uses it.
- `time.Time` is taken as Unix seconds with no leap seconds, so `Hour()`, `Minute()` and `Second()` in UTC are read through seconds-of-day.
- The rest of the `sendrtc` command is left out: flag parsing, connection setup, signal handling and the `os.Exit` after a rejected spec. The loop's outcome reports the rejection instead.
- Go `int` is taken as 64 bits, so `ClockTimePeriod` fields are int64 and `Atoi` uses the 64-bit range.
