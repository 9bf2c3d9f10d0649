# EthernetMonitor: a verified model of pi-stats' network throughput sampler

pi-stats shows live host statistics in a browser. Its one piece of real logic is
`EthernetMonitor` in `server.mjs`. On every timer tick it reads the Linux
`/proc/net/dev` counter table. It parses that table into a map from interface name to
cumulative received and transmitted bytes. It compares the configured interface's
counters with the previous tick's, turns the difference into megabits per second and
emits it as a `stats` event. Then it keeps the whole table as the next baseline.

The project has four modules, one per component:

- `wrappers.dfy` (`Wrappers`): `Option` (JavaScript's `null`) and `Result` (a settled promise).
- `js_strings.dfy` (`JsStrings`): the JavaScript string operations the parser relies on, with
  their ECMAScript meaning:
  - `trim` and the `\s` white-space class;
  - `split('\n')` and its inverse `join`;
  - `split(/\s+/)`, including the empty pieces before leading and after trailing white space;
  - `parseInt` on a string of decimal digits.
- `net_dev.dfy` (`NetDev`): the body of `readNetworkStats`. It has three layers:
  - the per-line split at `/:(.+)/`, modelled exactly: the leftmost colon followed by a
    character that `.` matches, with the captured group ending at the next line terminator;
  - the `forEach` that fills `stats`, as a recursive function (`Assemble`) and a loop method
    proved against it (`ParseDataLines`);
  - a renderer for tables in the layout the Linux kernel prints (`%6s: %7llu %7llu …`, one
    line per interface, each ended by a newline). An interface name may be padded in front.
    Runs of blanks of any length may follow the colon and separate the counters. The renderer
    is used to state the parser's round trip.
- `monitor.dfy` (`Monitor`): the rate formula, a pure specification of one tick (`Tick`) and of
  a run of ticks (`RunTicks`), and the class `EthernetMonitor`. The class has the source's
  fields `interfaceName`, `intervalMs`, `previousStats` and `intervalId`. Its methods are
  `LogNetworkSpeed`, `Start` and `Stop`. `LogNetworkSpeed` is proved against `Tick`. `Start`
  and `Stop` state the new timer field directly.

Behaviour the model follows from the code:

- A read error makes the promise reject. `logNetworkSpeed` catches the rejection, emits nothing
  and keeps the baseline.
- A data line without a usable colon is different: it throws a `TypeError` inside the
  `fs.readFile` callback. No `catch` sees that exception, so it is not a skipped tick. The model
  states it as a precondition (`WellFormedTable`) rather than an error result.
- The rate uses the configured interval, `1000 / intervalMs`, not the time actually elapsed.
  A counter that goes down gives a negative rate (`RateNotClamped`).
- `start` keeps an existing timer: a second call does not install another one.
- `stop` clears only the timer. The baseline survives a stop and a later start.
- `interfaceName` and `intervalMs` are never reassigned, so they are `const` fields.

## Model

| member | source | states |
|---|---|---|
| `JsStrings.TrimStartSpec` | server.mjs:51 | the leading half of `trim` keeps a suffix that does not start with ECMAScript white space, and everything cut off is white space |
| `JsStrings.TrimEndSpec` | server.mjs:51 | the trailing half of `trim` keeps a prefix that does not end with white space, and everything cut off is white space |
| `JsStrings.TrimTrimmed` | server.mjs:56 | a line that neither starts nor ends with white space is unchanged by `trim` |
| `JsStrings.JoinSplit` | server.mjs:51 | splitting at `'\n'` loses nothing: joining the pieces with `'\n'` gives back the text |
| `JsStrings.SplitJoin` | server.mjs:51 | splitting a text made of single lines joined by `'\n'` gives back exactly those lines, so `slice(2)` drops exactly the first two |
| `JsStrings.SplitWsRun` | server.mjs:57 | a run of white space of any length before a word yields exactly one empty piece: `\s+` swallows the whole run |
| `JsStrings.SplitWsInterleave` | server.mjs:57 | the fields of non-empty words separated by runs of blanks of any lengths are those words, in order, so field k is the k-th word |
| `JsStrings.TrimStartPadded` | server.mjs:56-57 | `trim` removes exactly the white space before the first non-space character, such as the padding before a right-aligned interface name |
| `JsStrings.DecimalShowNat` | server.mjs:58-59 | `parseInt` of a counter's decimal numeral gives back the counter |
| `NetDev.FirstColonMatch` | server.mjs:56 | a reported match of `/:(.+)/` is a colon followed by a character other than a line terminator |
| `NetDev.FirstColonMatchSpec` | server.mjs:56 | the reported match is the leftmost one, and none is reported only when no colon matches |
| `NetDev.CaptureEnd` | server.mjs:56 | the group `(.+)` stops at a line terminator or at the end of the line |
| `NetDev.CaptureEndSpec` | server.mjs:56 | the captured group holds no line terminator, so it stops at the first one |
| `NetDev.SplitAtColonSpec` | server.mjs:56 | `line.trim().split(/:(.+)/)` has no second element exactly when no colon matches; otherwise the name is the text before the leftmost matching colon and the data is the non-empty text after it, up to a line terminator or the end |
| `NetDev.EntriesAt` | server.mjs:55-61 | the i-th entry is the i-th data line parsed, one entry per line |
| `NetDev.ParseDataLines` | server.mjs:52-62 | the loop over the data lines, with the `forEach` callback's entry `ParseLine`, leaves `stats` equal to the entries of all lines applied in order |
| `NetDev.ReadNetworkStats` | server.mjs:43-66 | a read error rejects with `Error reading /proc/net/dev: ` followed by the error; otherwise the result is the table parsed from the lines after the first two of the trimmed text |
| `NetDev.AssembleKeys` | server.mjs:55-61 | a name is a key of `stats` exactly when some data line carries that name |
| `NetDev.AssembleLastWins` | server.mjs:61 | a later line with the same name overwrites an earlier one: the value is that of the last line with the name |
| `NetDev.ParseTableKeys` | server.mjs:51-62 | the keys of the parsed table are exactly the names of the lines after the two header lines |
| `NetDev.ParseTableLastWins` | server.mjs:51-62 | the value under a name is the counters of the last data line with that name |
| `NetDev.RowBodyShape` | server.mjs:57 | the counters' text of a kernel row is a single line whose `split(/\s+/)` fields are the counters' numerals |
| `NetDev.RenderRowShape` | server.mjs:56 | a kernel row is a single line, and `trim` removes exactly the padding before the interface name |
| `NetDev.RenderedRowSplit` | server.mjs:56 | a kernel row splits at the colon after its name; the data part is everything after the colon |
| `NetDev.ParseRenderedRow` | server.mjs:56-61 | for a kernel row, padding before the name, blank runs after the colon and between counters included, the entry is the name with received bytes field 0 and transmitted bytes field 8 |
| `NetDev.RenderedDataLines` | server.mjs:51-55 | for a table of two header lines and kernel rows, each ended by a newline, the lines the parser visits are exactly the interface lines |
| `NetDev.RenderedEntries` | server.mjs:51-61 | for such a table, the parser's entries are the rows in order, each with its name, field 0 and field 8 |
| `NetDev.ParseRenderedTable` | server.mjs:51-64 | round trip of a whole table in the kernel's layout: the keys are the interface names, and each maps to field 0 and field 8 of its last line |
| `Monitor.MbpsInverse` | server.mjs:80-81 | the Mbps formula loses nothing: scaling the speed back by `intervalMs * 1024 * 1024 / 8000` recovers the byte delta |
| `Monitor.MbpsSign` | server.mjs:76-81 | the speed is negative exactly when the delta is negative, and zero exactly when it is zero |
| `Monitor.MbpsAdditive` | server.mjs:80-81 | speeds of consecutive deltas add up to the speed of their sum |
| `Monitor.RateEmitsIff` | server.mjs:75 | a speed is emitted exactly when there is a baseline and both the baseline and the fresh table contain the interface; never without a baseline |
| `Monitor.RateMeasuresDelta` | server.mjs:76-81 | an emitted receive or transmit speed encodes exactly the current minus the previous byte counter |
| `Monitor.RateNotClamped` | server.mjs:76-81 | an emitted speed is negative exactly when its counter went down: no clamping, no baseline reset |
| `Monitor.TickBaseline` | server.mjs:70-94 | a failed read leaves the baseline unchanged and emits nothing; a successful read becomes the whole new baseline, emitted or not; the first tick after construction never emits |
| `Monitor.TickExample` | server.mjs:76-87 | deltas of 1024 and 512 bytes over 1000 ms give exactly 0.0078125 and 0.00390625 Mbps |
| `Monitor.RunTicksTelescope` | server.mjs:70-94 | over any run of ticks from a baseline with the interface: every successful read emits, failed reads change nothing, and the emitted speeds add up to the speed of the total change, so no delta is lost or counted twice |
| `Monitor.RunTicksFirstSilent` | server.mjs:38-90 | from the initial `null` baseline the first successful read only installs the baseline |
| `Monitor.EthernetMonitor.constructor` | server.mjs:34-40 | stores the interface name and interval; no baseline and no timer |
| `Monitor.EthernetMonitor.LogNetworkSpeed` | server.mjs:70-94 | reads and parses the table, then the new baseline and the emitted event are those `Tick` prescribes; the timer is untouched |
| `Monitor.EthernetMonitor.HandleStats` | server.mjs:72-93 | after the read settles: emits as `Rate` prescribes and replaces the baseline on success, keeps it on failure |
| `Monitor.EthernetMonitor.Start` | server.mjs:97-102 | installs the given timer only when none is set, so a second call is a no-op; the baseline is untouched |
| `Monitor.EthernetMonitor.Stop` | server.mjs:105-111 | clears the timer if set, so a second call is a no-op; the baseline and the interface name are untouched |

## Left out

- The `Server` class (server.mjs:10-31, 114) is not modelled: Express static files, the HTTP server, Socket.IO forwarding and `PORT` are transport plumbing.
- `fs.readFile` of `/proc/net/dev` is not modelled. Its outcome is the parameter `FileRead`: the text, or an error string.
- `setInterval` and `clearInterval` are not modelled. The timer handle is a parameter of `Start`, and the scheduling of ticks, including overlapping asynchronous ticks, is left out.
- The `EventEmitter` is not modelled: the emitted `stats` event is the return value of `LogNetworkSpeed`. `console.log` and `console.error` are left out.
- Monitor.EthernetMonitor.LogNetworkSpeed: assumes `stats` listeners return normally. `emit` (server.mjs:84) runs the listeners synchronously before the baseline assignment (server.mjs:90) in the same `try`. A listener that throws therefore jumps to the `catch` and leaves `previousStats` unchanged, which `Tick` and `TickBaseline` do not capture.
- NetDev.AssembleKeys: `stats` is a plain JavaScript object, modelled as a map, so property names inherited from `Object.prototype` are not covered. A data line named `__proto__` replaces the prototype of `stats` (server.mjs:61) instead of adding a key.
- Monitor.RateEmitsIff: with `interfaceName` set to an inherited property name such as `constructor` or `toString`, the guard at server.mjs:75 passes without a data line of that name. From the second successful read on, the source then emits `NaN` speeds where `Rate` emits nothing.
- NetDev.ReadNetworkStats: requires every data line to have a colon that `/:(.+)/` matches. Without one the source throws an uncaught `TypeError` inside the read callback, which is a crash, not a result.
- NetDev.ReadNetworkStats: requires fields 0 and 8 to be present and made of decimal digits. `parseInt`'s `NaN` for a missing or non-numeric field is not modelled. Neither is its handling of a sign, a trailing suffix or a `0x` prefix.
- Monitor.EthernetMonitor.LogNetworkSpeed: carries the same preconditions on the table text as `ReadNetworkStats`.
- Monitor.Mbps: uses exact real arithmetic, not IEEE-754 doubles. Rounding of the rate and of `1000 / 60` is not modelled, and neither is the loss of precision of counters above 2^53.
- Monitor.Interval: the interval must be positive. The source does not check this; with 0 it would divide by zero and produce `Infinity`.
- Strings are sequences of Unicode scalar values, not UTF-16 code units. This makes no difference for the ASCII table the kernel writes.
- Storage, CPU, memory, temperature and frequency monitors: the source has none of them.
