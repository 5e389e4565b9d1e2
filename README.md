# trace-context in Dafny

A model of the `TraceContext` type of the Rust crate `trace-context`, which reads and
writes the `traceparent` header of the W3C Trace Context Recommendation. A context holds
the hop's own `id` (u64), a `version` (u8), a `trace_id` (u128), an optional `parent_id`
(u64) and `flags` (u8, bit 0 = sampled). The model covers:

- `extract`: find `traceparent` in the headers. With no entry, start a new root.
  Otherwise split the value on `-` and parse segments 0 to 3 as hexadecimal u8, u128,
  u64 and u8 with `from_str_radix`. A parse error aborts with `ParseIntError`. A missing
  segment panics on indexing.
- `new_root` and `child`.
- `sampled` and `set_sampled`.
- `Display::fmt`, the `traceparent` rendering.
- `inject`, which stores that rendering under `traceparent`.

Every random draw (`rng.gen()`) is an explicit parameter: `freshId` for a new hop id and
`freshTraceId` for the trace id of a new root.

Modules:

- `Wrappers` (`wrappers.dfy`): `Option` and `Result`.
- `Strings` (`strings.dfy`): `str::split` on one separator character, and its inverse `Join`.
- `Radix` (`radix.dfy`): Rust's `from_str_radix` for unsigned types, with its three
  error kinds `Empty`, `InvalidDigit` and `PosOverflow`. Also the zero-padded formatting
  `{:0N}` (decimal) and `{:0Nx}` (lower-case hexadecimal).
- `TraceContexts` (`trace_context.dfy`): the context, `extract`, `new_root`, `child`,
  `sampled`, `set_sampled`, the rendering and `inject`.
- `RoundTrip` (`round_trip.dfy`): what `extract` reads back from what `inject` wrote.
- `Scenarios` (`scenarios.dfy`): the crate's unit tests and documentation examples,
  stated as lemmas and methods over the model.

Where the crate's prose and its code differ, the model follows the code:

- A header with fewer than four segments whose present segments parse panics on
  indexing, modelled as the outcome `IndexPanic`. It is not turned into a parse error.
- A header with more than four segments is accepted; segments after the fourth are
  never looked at.
- Fields of any length are accepted, as long as their value fits the type; no fixed
  width is checked.
- The trace id is rendered in decimal (see Findings).

## Model

| member | source | states |
|---|---|---|
| Strings.Split | src/lib.rs:56 | the model of `str::split('-')`: always at least one segment; `JoinSplit`, `SplitJoin` and `SplitAtFirstSep` characterize it fully |
| Strings.SplitJoin | src/lib.rs:56 | splitting on `-` a join of `-`-free segments gives back exactly those segments |
| Strings.JoinSplit | src/lib.rs:56 | no segment of a split holds the separator, and joining the segments restores the text |
| Strings.SplitAtFirstSep | src/lib.rs:56 | the split of `a-b` with `-`-free `a` is `a` followed by the split of `b` |
| Radix.FromStrRadix | src/lib.rs:60-63 | `from_str_radix` succeeds exactly on an optional `+` and one or more digits whose value fits the bound, with that value; it gives `Empty` exactly on the empty text, and on an all-digit text it either succeeds or overflows |
| Radix.ParseDigitsValue | src/lib.rs:60-63 | the left-to-right digit loop started from a valid prefix gives the value of prefix and digits when that fits the bound, and `PosOverflow` otherwise |
| Radix.ParseDigitsInvalid | src/lib.rs:60-63 | a text holding a non-digit never parses: the loop ends in `InvalidDigit`, or in `PosOverflow` on an earlier step |
| Radix.DecimalReadAsHex | src/lib.rs:61 | decimal digits read as hexadecimal are worth at least their decimal value, and exactly that value only for a single-digit value |
| Radix.FormatPadded | src/lib.rs:166 | the model of `{:0N}` and `{:0Nx}`: the rendering has the digits of `n` in lower case, preceded by as many `0`s as make it `width` long, and is never shorter than `width`; `FormatPaddedValue` proves it is worth `n`, and `DigitCount` proves when it is exactly `width` long |
| Radix.ToDigitsValue | src/lib.rs:166 | the digits a number is formatted with are worth that number |
| Radix.FormatPaddedValue | src/lib.rs:166 | a zero-padded rendering is worth the number rendered |
| Radix.DigitCount | src/lib.rs:166 | a number takes at most `k` digits exactly when it is below `radix^k` |
| Radix.LowerHexLiteral | src/lib.rs:60-63 | a non-empty text of lower-case hex digits whose value fits the bound is accepted by `from_str_radix` |
| TraceContexts.NewRoot | src/lib.rs:67-77 | a root has version 0, no parent, flags exactly 1 (so it is sampled), and holds the fresh id and fresh trace id |
| TraceContexts.Child | src/lib.rs:102-112 | a child keeps version, trace id and flags, has its parent's id as parent id, and the fresh id |
| TraceContexts.DescendantSharesTrace | src/lib.rs:102-112 | after any number of `child` calls the version, trace id, flags and sampled bit are the ancestor's; the id is the last fresh id and the parent is the hop before |
| TraceContexts.Sampled | src/lib.rs:143-145 | the model of `sampled`: bit 0 of the flags is set. It is a definition without a contract; `WithSampled`, `SetSampled`, `SetSampledToCurrent` and `NewRoot` characterize it |
| TraceContexts.WithSampled | src/lib.rs:156-159 | the new flags have bit 0 equal to `sampled` and bits 1 to 7 as before |
| TraceContexts.SetSampled | src/lib.rs:156-159 | the xor update `flags ^= (x ^ flags) & 1` changes only the flags, sets the sampled bit to the argument and keeps the other bits |
| TraceContexts.SetSampledTwice | src/lib.rs:156-159 | setting the sampled bit twice is setting it once, to the second value |
| TraceContexts.SetSampledToCurrent | src/lib.rs:143-159 | setting the sampled bit to what `sampled` reports leaves the flags unchanged |
| TraceContexts.ParseField | src/lib.rs:60-63 | parsing field `k` for its type succeeds exactly when the field is an unsigned hex literal within the type's range, to its value, and fails with `Empty` exactly on an empty field |
| TraceContexts.ExtractValue | src/lib.rs:56-64 | a successful extraction holds the fresh id and always has a parent id |
| TraceContexts.ExtractValueSucceeds | src/lib.rs:56-64 | `extract` yields a context exactly when there are at least four segments and the first four parse; the context holds their values in order, the third as parent id, and the fresh id |
| TraceContexts.ExtractValuePanics | src/lib.rs:56-64 | `extract` panics exactly when fewer than four segments are present and all of them parse; the panic indexes the first missing segment |
| TraceContexts.ExtractValueFails | src/lib.rs:56-64 | `extract` returns a parse error exactly when some segment among the first four fails to parse and every one before it parses; the error is `Empty` exactly when that segment is empty |
| TraceContexts.Extract | src/lib.rs:48-54 | `extract` never fails without a `traceparent` entry; any context it yields holds the fresh id and has a parent id exactly when the entry was present |
| TraceContexts.NoHeaderStartsRoot | src/lib.rs:51-54 | without a `traceparent` entry `extract` returns a new root: version 0, no parent, flags 1, sampled |
| TraceContexts.Render | src/lib.rs:162-170 | the model of `Display::fmt` as written: the header it writes splits on `-` back into the four fields: version, decimal trace id, id and flags |
| TraceContexts.RenderIntended | src/lib.rs:166 | the corrected rendering with `{:032x}` splits on `-` back into the four fields, the trace id in hexadecimal |
| TraceContexts.FieldsSplit | src/lib.rs:162-170 | the rendering, in either radix for the trace id, splits on `-` back into its four fields |
| TraceContexts.FieldsLowerHex | src/lib.rs:162-170 | every rendered field is made of lower-case hex digits |
| TraceContexts.FieldWidths | src/lib.rs:166 | version and flags are rendered in 2 characters and the id in 16 |
| TraceContexts.DecimalTraceIdWidth | src/lib.rs:166 | the `{:032}` trace id field holds decimal digits worth the trace id, at least 32 of them, and exactly 32 when the trace id is below 10^32 |
| TraceContexts.HexPowers | src/lib.rs:25-31 | 16^2, 16^16 and 16^32 are one more than the u8, u64 and u128 maxima |
| TraceContexts.HeaderMap.constructor | src/lib.rs:88 | `http::HeaderMap::new()`: a header map with no entries |
| TraceContexts.Inject | src/lib.rs:98-100 | `inject` stores the rendering under `traceparent`, replacing any earlier value, and leaves every other entry as it was |
| RoundTrip.MisreadTraceId | src/lib.rs:61 | the trace id that `extract` reads from the decimal rendering is never smaller than the original, and is equal exactly when the trace id is below 10 |
| RoundTrip.DecimalTraceIdReadAsHex | src/lib.rs:61 | a trace id below 10^32, rendered in decimal, is accepted by `u128::from_str_radix(_, 16)` and reads as the misread trace id |
| RoundTrip.DecimalTraceIdOverflows | src/lib.rs:61 | a trace id of 10^32 or more, rendered in decimal, makes `u128::from_str_radix(_, 16)` fail with `PosOverflow` |
| RoundTrip.IntendedFieldsParse | src/lib.rs:60-63 | every field of the hexadecimal rendering parses for its type, back to the context's value |
| RoundTrip.DecimalFieldsParse | src/lib.rs:60-63 | for a trace id below 10^32 every field of the as-written rendering parses, the trace id field to the misread trace id |
| RoundTrip.DecimalFieldsOverflow | src/lib.rs:60-61 | for a trace id of 10^32 or more the version field parses and the trace id field overflows |
| RoundTrip.InjectThenExtract | src/lib.rs:48-65 | `extract` after `inject`, as written, succeeds exactly when the trace id is below 10^32. The result is then the child of the injected context except for the trace id, which is the misread one. Otherwise the result is `PosOverflow` |
| RoundTrip.InjectThenExtractIsChild | src/lib.rs:84-96 | for a trace id below 10, `extract` after `inject` gives exactly the child of the injected context |
| RoundTrip.SixteenReadsBackAs22 | src/lib.rs:166 | a context with trace id 16 is injected and extracted back with trace id 22 |
| RoundTrip.IntendedInjectThenExtract | src/lib.rs:98-100 | with the hexadecimal rendering, `extract` after `inject` always gives exactly the child of the injected context |
| Scenarios.DefaultTraceparent | src/lib.rs:176-186 | `00-01-deadbeef-00` gives version 0, trace id 1, parent id 3735928559, flags 0, not sampled |
| Scenarios.NotSampledTraceparent | src/lib.rs:199-206 | `00-01-02-00` gives a context that is not sampled |
| Scenarios.SampledTraceparent | src/lib.rs:208-215 | `00-01-02-01` gives a context that is sampled |
| Scenarios.DocumentedTraceparent | src/lib.rs:37-47 | the documented header gives the trace id and parent id that `from_str_radix` reads from its fields, and is sampled |
| Scenarios.OneTwoSampled | src/lib.rs:137-142 | the header with trace id `0…01` and parent id `0…02` gives trace id 1, parent id 2, flags 1 |
| Scenarios.InjectedContextComesBackAsChild | src/lib.rs:82-97 | the context extracted from that header, injected into new headers and extracted again, comes back as its child |
| Scenarios.UnsampledRoot | src/lib.rs:149-155 | a new root is sampled, and after `set_sampled(false)` it is the same root with flags 0 |
| Scenarios.TwoFieldsPanic | src/lib.rs:58-62 | `00-01` panics on indexing the third segment of two |
| Scenarios.EmptyTraceparentFails | src/lib.rs:56-60 | an empty header fails on its first field with `Empty` |
| Scenarios.WideVersionFails | src/lib.rs:60 | a version of `100` does not fit a u8 and fails with `PosOverflow` |

## Left out

- `http::HeaderMap` is reduced to a map from key to one value. Header names that
  differ only in case, values with several entries, and `to_str` are not modelled.
- `to_str().unwrap()` at src/lib.rs:52 and `parse().unwrap()` at src/lib.rs:99 are
  assumed not to panic. The model's header values are character sequences, and a
  rendered context is always visible ASCII.
- Radix.FromStrRadix: a lone `+` fails with `InvalidDigit`, as in the current Rust
  standard library. Earlier releases reported `Empty` for a lone sign. Under those
  releases, `ParseField`'s "`Empty` exactly on an empty field" would also cover the field `+`.
- `rand::thread_rng` and `rng.gen()` become parameters: the model does not say the
  values are random, only that they are fresh inputs.
- `fmt::Formatter` is not modelled. `Display::fmt` is the function `Render` on strings;
  write errors cannot happen in it.
- The accessors `id`, `version`, `trace_id`, `parent_id` and `flags` (src/lib.rs:114-132)
  are the datatype's fields.
- SetSampled: it returns the updated context instead of updating `self` in place.
  The crate's `&mut self` has no aliasing to model.
- Scenarios.DocumentedTraceparent: the two long hex fields are stated through the
  values `from_str_radix` reads from them, as the crate's documentation example states
  them, not as literal numbers.
- Scenarios.OneTwoSampled: it takes the two padded field texts as arguments fixed by
  its precondition, instead of writing the whole header as one literal.

## Findings

| source | as written | input that shows it | evidently intended | confidence | as-written member | corrected member |
|---|---|---|---|---|---|---|
| src/lib.rs:166 | `{:032}` writes the trace id in decimal, while `extract` (src/lib.rs:61) reads it as hexadecimal | trace id 16 is written as thirty zeros then `16` and read back as 0x16 = 22; any trace id of 10^32 or more makes `extract` fail with `PosOverflow` | `{:032x}`, 32 lower-case hex digits, as the W3C `traceparent` format requires | not executed | RoundTrip.SixteenReadsBackAs22 | RoundTrip.IntendedInjectThenExtract |
