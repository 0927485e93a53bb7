# Wi-Fi monitor: probe interpretation, health rating and per-target state

`wifi.py` is a small Flask dashboard. It pings a fixed set of Wi-Fi access
points in a background loop and keeps a status record and a bounded history
of samples for each one. It also rates a measured download speed. This
project models the deterministic core of that program in Dafny and proves
properties of it:

- **Probe interpretation** (`Ping`). `ping_latency` turns the outcome of one
  `ping` run into `(reachable, latency)`. A probe that raised, or that exited
  with a nonzero code, is unreachable and has no latency. Otherwise the
  combined stdout and stderr is searched, case-insensitively, for the
  Unix-style `time=<n> ms` pattern and then for the Windows-style
  `Average = <n>ms` pattern. The first group of the leftmost match is
  converted with `float`, and a capture `float` rejects leaves the target
  reachable with no latency. Both regular expressions are implemented as
  deterministic matchers. Each is proved equal to the declarative "some split
  of the input fits the pattern" reading (`MatchAtIsRegexMatch`). The scan is
  proved to return the leftmost match (`SearchIsLeftmost`). The conversion is
  proved to accept exactly the digit-and-dot texts that Python's `float`
  accepts (`ParseFloatAcceptsLiterals`).
- **Health rating** (`Health`). `compute_health` maps an optional download
  speed to a label and colour class. It uses thresholds of 100, 50 and
  10 Mbps, inclusive, tried from the best tier down.
- **Bounded history** (`Deque`). `deque(maxlen=HISTORY_LENGTH)` is specified
  on sequences: append, then drop the oldest entry when full. This model
  also represents the same bounded FIFO in place, as a ring buffer over an
  array (`BoundedDeque`); CPython's own deque is a linked list of blocks.
  Successive appends are proved to keep exactly the newest `maxlen`
  elements.
- **Monitor state** (`Monitor`). The `status_store`, `history` and
  `last_status` dictionaries are fields of the `WifiMonitor` class.
  `RecordProbe` is one locked block of `monitor_loop`. `Tick` is one pass of
  the loop over all targets, with the probe outcomes and timestamps passed
  in as parameters. Every method preserves a coherence invariant:
  - each record keeps its configured address;
  - `last_status` mirrors the record's status;
  - a target is `Unknown` exactly until its first sample;
  - a `DOWN` record has no latency;
  - the newest history sample is the one the record was built from;
  - every history is at most 300 samples long.

Files: `options.dfy` (the `Option` type), `ping.dfy`, `health.dfy`,
`deque.dfy`, `monitor.dfy`.

## Model

| member | source | states |
|---|---|---|
| Ping.Span | wifi.py:39 | the greedy run of `\s*` or `[\d\.]+` starting at a position stays inside the input, consists only of characters of its class, and stops at the end of the input or at the first character outside the class |
| Ping.MatchTimeAt | wifi.py:39 | a `time[=<]\s*([\d\.]+)\s*ms` match anchored at a position captures a nonempty group of digits and dots |
| Ping.MatchAverageAt | wifi.py:40 | an `Average = (\d+)ms` match anchored at a position captures a nonempty group of digits |
| Ping.MatchAt | wifi.py:39-40 | whichever pattern is matched, the group is nonempty and made of digits and dots |
| Ping.MatchAtIsRegexMatch | wifi.py:39-40 | the deterministic matcher succeeds at a position with group `g` exactly when some split of the input at that position fits the pattern with `g` as the group; this includes case-insensitive literals and Unicode `\s` |
| Ping.Search | wifi.py:51 | the scan from a position returns a position where the pattern matches, with no match at any earlier position; it returns nothing only when no position up to the end matches |
| Ping.SearchIsLeftmost | wifi.py:51 | `re.search` from the start returns position `i` and group `g` exactly when `i` is the leftmost match and `g` is its group; it returns nothing exactly when the pattern matches nowhere |
| Ping.FirstDot | wifi.py:54 | the position found is a dot and no earlier character is a dot |
| Ping.ParseFloat | wifi.py:54 | converting a digits-and-dots capture never gives a negative latency |
| Ping.ParseFloatAcceptsLiterals | wifi.py:53-56 | `float` succeeds on a digits-and-dots text exactly when it has at most one dot and at least one digit |
| Ping.DigitsParse | wifi.py:40 | a digits-only capture, as the `Average` pattern gives, converts to its decimal integer value |
| Ping.Digits | wifi.py:54 | the decimal rendering of a natural number is a nonempty string of digits |
| Ping.DigitsRoundTrip | wifi.py:54 | reading the decimal rendering of `n` back gives `n` |
| Ping.FirstDotSkipsDigits | wifi.py:54 | in `w + t`, where `w` is all digits, the first dot of the whole is the first dot of `t`, shifted by the length of `w` |
| Ping.ParseDotted | wifi.py:54 | `whole.frac`, where both parts are digits and one is nonempty, converts to the whole part plus the fraction; a leading-dot capture such as `.5` included |
| Ping.ParseRendered | wifi.py:54 | a latency printed as `<whole>.<frac>` converts back to `whole + frac / 10^len(frac)` |
| Ping.InterpretProbe | wifi.py:42-58 | the target is reachable exactly when the probe completed with exit code 0; an unreachable target never has a latency; any latency is nonnegative |
| Ping.RegexCaptureIsDecimalText | wifi.py:39-40 | the group of any match of either pattern is a nonempty text of digits and dots |
| Ping.TimePatternTakesPrecedence | wifi.py:50-57 | when the probe succeeded and the `time` pattern matches anywhere, its leftmost group decides the result; the latency is present exactly when `float` accepts that group, whatever the `Average` pattern would match |
| Ping.AverageIsTheFallback | wifi.py:50-54 | when the probe succeeded, the `time` pattern matches nowhere and the `Average` pattern matches, the latency is the integer value of the leftmost `Average` group |
| Ping.NoPatternMeansNoLatency | wifi.py:50-57 | a successful probe whose output matches neither pattern is reachable with no latency |
| Ping.ReplyLineMatch | wifi.py:39-51 | the case-insensitive `time` search over `time=23.4 ms` matches at the start and captures `23.4` |
| Ping.ReplyLineExample | wifi.py:39-54 | a successful probe printing `time=23.4 ms` gives reachable with latency 23.4 |
| Ping.ParseExample | wifi.py:54 | `float("23.4")` is 23.4 |
| Ping.MalformedTimeMatch | wifi.py:39-51 | the `time` search over `time=1.2.3ms` matches at the start and captures all of `1.2.3`, dots included |
| Ping.TwoDotsRejected | wifi.py:54-56 | `float("1.2.3")` fails: a second dot is not a number |
| Ping.MalformedTimeExample | wifi.py:53-57 | a capture with two dots (`time=1.2.3ms`) makes `float` fail, which gives reachable with no latency |
| Health.ComputeHealth | wifi.py:93-98 | the colour is the one paired with the label; the label is `Unknown` exactly when no speed was measured; otherwise the speed reaches the label's lower bound and no better tier's |
| Health.LabelTextIdentifiesLabel | wifi.py:94-98 | the label texts the payload carries are pairwise distinct, so the text determines the label |
| Health.TierIntervals | wifi.py:95-98 | Excellent is `[100, ∞)`, Good is `[50, 100)`, Fair is `[10, 50)` and Weak is below 10, in both directions |
| Health.HealthMonotone | wifi.py:94-98 | a faster download never gets a worse label |
| Health.ColourIdentifiesLabel | wifi.py:94-98 | two labels share a colour class only when they are the same label |
| Health.BoundaryExamples | wifi.py:94-98 | each threshold belongs to the higher tier: 100 is Excellent, 50 is Good, 10 is Fair, just below each is the next tier down, and no speed is Unknown/gray |
| Deque.Newest | wifi.py:35 | keeping the newest `n` elements gives `min(n, len)` elements |
| Deque.BoundedAppend | wifi.py:35 | appending to a bounded deque keeps the newest `maxlen` elements of the old contents followed by the new element |
| Deque.BoundedAppendFacts | wifi.py:35 | after an append, the length grows by one up to `maxlen` and the newest element is the one appended; below capacity the old contents are untouched, and at capacity only the oldest element is dropped |
| Deque.AppendAll | wifi.py:35 | a run of appends never holds more than `maxlen` elements |
| Deque.AppendAllKeepsNewest | wifi.py:35 | any run of appends leaves exactly the newest `maxlen` elements of everything appended, in chronological order |
| Deque.AppendAllSnoc | wifi.py:35-108 | appending one more sample after a run of appends is one more bounded append of the run's result, so the pass-by-pass history equals the fold over all samples |
| Deque.LengthAfterAppends | wifi.py:29-35 | after `N` appends to an empty deque of capacity `maxlen` its length is `min(N, maxlen)` |
| Deque.Ring | wifi.py:35 | the contents of the ring buffer, oldest first, are read from the array slots starting at `start`, wrapping round |
| Deque.RingPush | wifi.py:35 | writing the slot just past the end of a ring that is not full extends its contents by that element |
| Deque.RingOverwrite | wifi.py:35 | overwriting the oldest slot of a full ring and advancing the start drops the oldest element and appends the new one |
| Deque.BoundedDeque.constructor | wifi.py:35 | a new deque is empty and has the given `maxlen` |
| Deque.BoundedDeque.Append | wifi.py:108 | appending in place turns the contents into the bounded append of the old contents, keeping the representation invariant |
| Monitor.StatusTextIdentifiesStatus | wifi.py:104 | the status texts `UP` and `DOWN` written here and the start-up `Unknown` are pairwise distinct, so the text determines the status |
| Monitor.RecordKeepsCoherent | wifi.py:103-109 | recording any probe result in a target's record, history and mirror keeps that target coherent, given a history that was within 300 samples |
| Monitor.RecordKeepsAllCoherent | wifi.py:103-109 | recording one target keeps every target coherent and every history within 300 samples |
| Monitor.RecordFirstProbed | wifi.py:100-109 | after a pass has recorded its first `n` names, each of them holds the record and the bounded history that its own probe gives on top of its history before the pass; later probes in the pass never overwrite an earlier target |
| Monitor.RecordFirstUntouched | wifi.py:100-109 | a name the pass has not reached yet keeps its record, history and mirror unchanged |
| Monitor.WifiMonitor.constructor | wifi.py:34-36 | every configured target starts `Unknown` with its address, no timestamp, no latency and an empty history, and the state is coherent |
| Monitor.WifiMonitor.RecordProbe | wifi.py:103-109 | one locked block sets the target's record to the new status, timestamp and latency, appends the sample to its bounded history and updates the mirror; every other target is unchanged and the state stays coherent |
| Monitor.WifiMonitor.Tick | wifi.py:100-109 | one pass over the targets in configuration order records each target's interpreted probe on top of its history before the pass, and leaves the state coherent |

## Left out

- Running `ping` is not modelled (wifi.py:43-46): choosing the platform command, the process and its timeout. `InterpretProbe` instead takes the probe outcome as a parameter: either it raised, or an exit code with the stdout and stderr text.
- Reading the clock (wifi.py:105) is not modelled. `RecordProbe` and `Tick` take the timestamp strings as parameters, and their format is not checked.
- The endless `while True` loop and its `time.sleep(CHECK_INTERVAL)` are not modelled. `Tick` models one pass of the loop.
- Threads are not modelled: the background thread, the lock and the Flask request threads that read the state concurrently. Each locked block, together with the `last_status` write that follows it outside the lock, is one atomic method. So the window in which a reader can see the record updated while the mirror is not is not modelled.
- `get_current_ssid`, `run_speedtest`, the Flask routes, the HTML and JavaScript page, and `LOG_FILE` are not modelled. They depend on the operating system, the network or the browser. `compute_health` is modelled on the speed value it receives.
- Ping.MatchAtIsRegexMatch: only ASCII `0`-`9` are treated as `\d`. Python's `\d` on `str` also matches other Unicode decimal digits, which `float` would then convert.
- Ping.ParseFloat: the result is the exact decimal value as a real number. Python rounds it to the nearest binary64 double, and very long digit strings would overflow to `inf`.
- Health.ComputeHealth: `download_mbps` is a real number, so a NaN speed is not modelled. In Python a NaN falls through every comparison to "Weak".
- Monitor.WifiMonitor: each deque is held as a sequence value in the `history` map and replaced on each append, so aliasing of the deque objects is not modelled. An in-place representation of the same bounded FIFO, an array ring buffer, is proved separately by `Deque.BoundedDeque`; it is not CPython's block-list layout.
- Monitor.WifiMonitor.Valid: the fact that the configured order lists every target is established by the constructor's postcondition. It is not repeated in the class invariant.
- The status record's `dict.update` in place is modelled as replacing the record value in the map; no other code holds a reference to the inner dictionaries.
