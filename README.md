# axum-server-timings, modelled in Dafny

This project models the core of `axum-server-timings`, a Rust crate that keeps
a per-request log of named server timings and turns it into the value of a
`Server-Timing` response header (the format of section 3 of the W3C Server
Timing specification).

- `ServerTimings` (module `ServerTimingLog`, file `server_timings.dfy`) is a
  class. Its `timings` field is an append-only sequence of entries. Its
  `lastTiming` field is the cursor: the clock reading of the last automatic
  measurement. `Record` and `RecordName` log the time since the cursor and
  move the cursor. `RecordAll` and `AddTiming` append an entry without
  touching the cursor. The compile-time switch `hide_server_timings` is the
  immutable field `hidden`. When it is set, appends do nothing and the
  measured duration is 0.
- `Timing` and its `Display` implementation (module `Timings`, file
  `timing.dfy`) render an entry as `name[;desc="…"][;dur=…]`. Inside the
  description, each `"` becomes `\"` and every other character, backslashes
  included, is copied as it is. Every encoder has a decoder partner:
  `Unescape`, `ParseDur` and `ParseTiming`. Round-trip lemmas connect each
  pair.
- `into_response_parts` is `ServerTimings.IntoResponseParts`. Its loop writes
  each entry followed by `,` and stops at the first failed write. The
  reference functions it is proved against are in module
  `ServerTimingHeader` (file `header.dfy`). The method then trims every
  trailing comma. It appends a `server-timing` header after the existing
  headers when the value passes the header check. Otherwise it returns the
  response parts unchanged.

Clock readings and durations are whole microseconds (`nat`). A duration is
rendered as the exact decimal number of milliseconds it denotes: `100`,
`250.5`, `0.125`.

Two properties of the code are stated outright:

- The code does not special-case an empty log. It submits `""` to the header
  check, which accepts it, so an empty `server-timing` header is added
  (`EmptyLogValue`).
- In the W3C Server Timing grammar, the description is an RFC 7230
  quoted-string, in which `\` is itself escaped. The code escapes only `"`.
  `ParseRender` recovers an entry only when its description does not end in a
  backslash. `TrailingBackslashLost` exhibits a description ending in a
  backslash that cannot be read back: its closing quote reads as escaped.
  `ScanQuoted` and `ParseTiming` unescape only `\"`, the one escape the code
  writes; they are not a quoted-string reader. `QuotedStringScan` is one, and
  under its rules the code's text loses information even when the
  description does not end in a backslash: the description `a\b` reads back
  as `ab` (`InteriorBackslashLost`), and the description `\"`, written as
  `\\"`, reads back as `\` with the string ending early and a stray `"`
  left over (`EscapedQuoteClosesEarly`).

## Model

| member | source | states |
|---|---|---|
| `ServerTimingLog.ServerTimings.constructor` | src/lib.rs:87-93 | a new log is empty and its cursor is the reading at creation; a log with collection switched off is valid (empty) |
| `ServerTimingLog.ServerTimings.AddTiming` | src/lib.rs:47-51 | appends exactly the given entry after the existing ones, or changes nothing when switched off; the cursor is untouched |
| `ServerTimingLog.ServerTimings.RecordAll` | src/lib.rs:66-70 | appends `Timing{name, desc, dur}` exactly as given (nothing when switched off) and leaves the cursor where it was |
| `ServerTimingLog.ServerTimings.AdvanceDuration` | src/lib.rs:72-84 | returns the time since the old cursor and moves the cursor to `now`; switched off it returns 0 and leaves the cursor alone; the log never changes |
| `ServerTimingLog.ServerTimings.Record` | src/lib.rs:53-58 | appends one entry with `Some(desc)` and `Some(now - old cursor)` and sets the cursor to `now`; switched off, the log stays empty and the cursor stays |
| `ServerTimingLog.ServerTimings.RecordName` | src/lib.rs:60-64 | as Record, but the appended entry has no description |
| `ServerTimingLog.ServerTimings.IntoResponseParts` | src/lib.rs:128-148 | switched off, returns the parts unchanged; otherwise appends a `server-timing` header holding the trimmed assembled buffer after the existing headers exactly when that value passes the header check, and returns the parts unchanged otherwise; never fails |
| `ServerTimingLog.Telescoping` | src/lib.rs:78-84 | on a monotonic clock the last reading is not before the first cursor, and the durations `Durations` gives add up to the last reading minus the first cursor |
| `ServerTimingLog.ServerTimings.RecordNames` | src/lib.rs:61-84 | successive RecordName calls at the readings of a monotonic clock append one entry per name carrying the durations `Durations` gives; the cursor never moves back and ends at the last reading; the appended durations add up to the last reading minus the old cursor; switched off, nothing changes |
| `Timings.Escape` | src/lib.rs:110-116 | the escaped text of a non-empty description is non-empty and never starts with `"` |
| `Timings.EscapeLength` | src/lib.rs:110-116 | escaping adds exactly one character per `"` in the description |
| `Timings.EscapeWithoutQuotes` | src/lib.rs:110-116 | a description without `"` is written unchanged |
| `Timings.EscapeAppend` | src/lib.rs:110-116 | escaping distributes over concatenation |
| `Timings.EscapedQuotesArePreceded` | src/lib.rs:110-116 | every `"` in the escaped text comes right after a `\` |
| `Timings.UnescapeEscape` | src/lib.rs:110-116 | reading `\"` back as `"` recovers the description exactly |
| `Timings.ScanEscaped` | src/lib.rs:109-117 | a quoted description that does not end in a backslash is read back up to its own closing quote, leaving what follows untouched |
| `Timings.FormatNat` | src/lib.rs:119-121 | the whole milliseconds are written as a non-empty run of decimal digits without a leading zero |
| `Timings.ParseFormatNat` | src/lib.rs:119-121 | reading the digits of the whole milliseconds back gives the number written |
| `Timings.FracDigits` | src/lib.rs:119-121 | a non-zero fraction is written as one to three decimals, never ending in `0` |
| `Timings.FormatDur` | src/lib.rs:119-121 | a duration is written as digits and `.` only, never empty |
| `Timings.ParseFormatDur` | src/lib.rs:119-121 | reading the written milliseconds back gives the duration exactly |
| `Timings.Render` | src/lib.rs:105-123 | the output starts with the name; with neither description nor duration it is exactly the name, with no trailing `;` |
| `Timings.ParseRender` | src/lib.rs:105-123 | an entry whose name has no `;` and whose description does not end in `\` reads back as itself: name, then description, then duration, each present exactly when set |
| `Timings.TrailingBackslashLost` | src/lib.rs:108-117 | the entry `a` with description `\` renders to text that reads back as nothing: backslashes are not escaped |
| `Timings.InteriorBackslashLost` | src/lib.rs:108-117 | under the quoted-string rules of section 3.2.6 of RFC 7230, the description `a\b` is written unchanged and reads back as `ab` |
| `Timings.EscapedQuoteClosesEarly` | src/lib.rs:108-117 | under the same rules, the description `\"` is written as `\\"`, which reads back as `\` and leaves a stray `"` after the closing quote |
| `ServerTimingHeader.RenderFieldValue` | src/lib.rs:105-123 | an entry's text is an acceptable header value exactly when its name and description are |
| `ServerTimingHeader.TrimEndCommas` | src/lib.rs:144 | the trimmed value is a prefix of the buffer, does not end in `,`, and everything removed was a comma |
| `ServerTimingHeader.TrimIgnoresCommas` | src/lib.rs:144 | any run of commas added at the end is removed by the trim |
| `ServerTimingHeader.WithCommasAppend` | src/lib.rs:136-143 | writing two runs of entries gives their buffers one after the other, so the buffer follows log order |
| `ServerTimingHeader.AssembledAppend` | src/lib.rs:134-143 | without a failed write, appending entries to the log appends their text to the buffer in call order |
| `ServerTimingHeader.AssembledIsPrefix` | src/lib.rs:134-143 | a failed write truncates the buffer: what was assembled is a prefix of the buffer with every entry written |
| `ServerTimingHeader.HeaderValueJoined` | src/lib.rs:134-144 | without a failed write, when the last entry's text is not empty and does not end in `,`, the value is the entries' texts joined by `,` with none trailing |
| `ServerTimingHeader.CommaEntryVanishes` | src/lib.rs:144 | a trailing entry whose text is only commas (an empty name, for one) leaves the header value unchanged |
| `ServerTimingHeader.HeaderValueValidIff` | src/lib.rs:144-146 | without a failed write, the value passes the header check exactly when every entry's name and description are acceptable header text |
| `ServerTimingHeader.EmptyLogValue` | src/lib.rs:134-146 | an empty log yields the empty value, and the empty value passes the header check |
| `ServerTimingHeader.TwoEntryExample` | src/lib.rs:105-147 | `wait` with 100 ms and `fib` described as `compute` with 250.5 ms give `wait;dur=100,fib;desc="compute";dur=250.5` |

## Left out

- The wall clock (`Instant::now`) is a `now` parameter in microseconds. Monotonicity is an assumption of `Telescoping`. `Elapsed` saturates at zero, as `Instant::duration_since` does.
- `f64` arithmetic (`as_secs_f64() * 1000.0`) and its rounding are left out. Durations are whole microseconds, and `FormatDur` prints the exact decimal value in milliseconds. The model does not print what `record` actually writes whenever the product is not the double nearest that decimal. For 9 µs, `9e-6 * 1000.0` is `0.009000000000000001`, which `Display` prints in full, while the model prints `0.009`.
- Timings.FormatDur: matches Rust's `f64` `Display` only for the double nearest a whole number of microseconds. It does not model the shortest-round-trip printing of arbitrary doubles. Above about 2^53 µs (roughly 285 years) even the nearest double is not exact: for 10^16 + 1 µs the model prints `10000000000000.001` while the nearest double prints as `10000000000000.002`.
- Non-finite and negative durations: `dur` is a `nat`, so the negative, NaN and infinite durations that callers can pass to `record_all` or `add_timing` are not modelled. `Display` prints these as `-1.5`, `NaN` and `inf`.
- `HeaderValue::from_str` from the `http` crate is not part of this model. `IsFieldValue` is that function's per-byte test (`b >= 32 && b != 127 || b == b'\t'`) lifted to characters: TAB, SP, any visible ASCII character, or any non-ASCII character (whose UTF-8 bytes are all at least 0x80). This is the character set of the field-value rule of section 3.2 of RFC 7230 (HTAB, SP, VCHAR and obs-text), but not its grammar: a value with leading or trailing spaces or tabs, such as `" a"`, is accepted, as `from_str` accepts it.
- `HeaderName`, `ResponseParts` and axum's `IntoResponseParts` dispatch are a sequence of name/value headers. The status code, extensions and body are not modelled.
- ServerTimingLog.ServerTimings.IntoResponseParts: returns the response parts directly, not `Result<_, Infallible>`, because the error case cannot occur.
- Write failures: writing into a `String` never fails, so the error branch of the loop cannot occur in practice. It is modelled by an optional `WriteFault(entry, kept)`: the write of entry `entry` fails after `kept` of its characters reached the buffer.
- `Cow<'static, str>` ownership is plain `string`.
- The `hide_server_timings` cfg is the immutable field `hidden`, not two builds.
- `examples/basic.rs` (a demo server using tokio, TCP and sleeps) is not part of this model.
