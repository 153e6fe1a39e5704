# parsetime — format translator and day boundaries, in Dafny

The `parsetime` Go package lets callers write date/time formats in a compact
mini-language of single-letter tokens (`Y-m-d H:i:s`) and rewrites each format
into Go's native reference layout (`2006-01-02 15:04:05`) before handing it to
Go's `time` package. This project models the part of the package that has
logic of its own:

- **the token table and escape markers** (`tokens.dfy`, module `Tokens`): the
  19 single-letter tokens, the layout fragment each stands for, and the
  markers `[` and `]`;
- **the translator `convertToNative`** (`translator.dfy`, module
  `Translator`): one left-to-right pass over the characters of the format with
  one boolean "escaped" flag. `[` sets the flag and `]` clears it, and both are
  dropped. A token seen while the flag is clear becomes its fragment. Every
  other character is copied. The pass is given twice. `TranslateFrom` and
  `EscapedAfter` are recursive functions that thread the flag.
  `ConvertToNativeLoop` is the loop of `convertToNative`, proved equal to them;
- **the day-boundary helpers** `setTimeOnlyParts`, `GetStartOfDay` and
  `GetEndOfDay` (`dayboundary.dfy`, module `DayBoundary`). They work over a
  record of wall-clock fields. Its location is a type parameter that is only
  carried along.

The properties proved are the ones the translator's design promises:

- a token outside an escape becomes exactly its fragment;
- a token inside an escape is copied as itself;
- the output never holds a marker;
- text with neither markers nor tokens is its own translation, and nothing else is;
- text between `[` and `]` comes out verbatim;
- an unclosed `[` makes the rest literal, and a stray `]` is dropped;
- translation composes over concatenation through the flag;
- the flag at the end is decided by the last marker;
- the translations used by the library's own examples.

For the day helpers, the start of the day is the earliest valid time on that
date and the end of the day is the latest. Each is the only valid time at its
offset from midnight. The end lies one nanosecond before the next midnight.

## Model

| member | source | states |
|---|---|---|
| Tokens.FragmentShape | parsetime.go:11-40 | every fragment is non-empty, holds no escape marker, and starts with a character other than the token it replaces |
| Tokens.MarkersAreNotTokens | parsetime.go:43-74 | neither `[` nor `]` is a key of the token table |
| Tokens.SharedFragments | parsetime.go:63-64 | `a` and `A` both stand for `"PM"`, and they are the only two distinct tokens with the same fragment |
| Translator.Emit | parsetime.go:139-147 | one character's contribution: nothing exactly for a marker, the character itself exactly when it is neither a marker nor a key read with the flag clear, and never more than seven characters |
| Translator.NextEscaped | parsetime.go:139-142 | `[` sets the flag, `]` clears it, and every other character leaves it as it was |
| Translator.TranslateFrom | parsetime.go:134-151 | the pass from either flag value; its output is at most seven characters per input character |
| Translator.EscapedAfter | parsetime.go:136-142 | the flag at the end of the pass; when the format ends with a marker, that marker alone decides it |
| Translator.ConvertToNative | parsetime.go:134-151 | the pass from the clear flag, as `convertToNative` starts it: its output holds no marker and is at most seven characters per input character |
| Translator.NoMarkersInOutput | parsetime.go:139-146 | from any state, the output of the pass contains neither `[` nor `]` |
| Translator.Compose | parsetime.go:135-148 | translating `a + b` is translating `a` and then `b` from the flag `a` left, and the final flag composes the same way |
| Translator.ComposeClear | parsetime.go:135-148 | when `a` ends with the flag clear, `ConvertToNative(a + b)` is `ConvertToNative(a) + ConvertToNative(b)` |
| Translator.Snoc | parsetime.go:138-148 | one more character appends exactly its own contribution under the flag left by the prefix, and updates the flag |
| Translator.TokenOutsideEscape | parsetime.go:143-144 | a table key read with the flag clear is replaced by exactly its fragment, the text around it translated independently |
| Translator.TokenInsideEscape | parsetime.go:143-146 | a table key read with the flag set is copied as itself, and the flag stays set |
| Translator.PlainIsCopied | parsetime.go:145-146 | text of characters that are neither markers nor keys translates to itself from either state and leaves the flag unchanged |
| Translator.FixedPoints | parsetime.go:138-148 | a format translates to itself if and only if it contains no marker and no token |
| Translator.UnmarkedFixedPoint | parsetime.go:143-146 | a marker-free format that translates to itself contains no token |
| Translator.EscapedRun | parsetime.go:139-146 | with the flag set and no `]` ahead, every character is copied literally except `[`, which is dropped; the flag stays set |
| Translator.UnmarkedKeepsState | parsetime.go:139-142 | marker-free text leaves the flag as it found it |
| Translator.EscapedLiteral | parsetime.go:139-146 | marker-free text between `[` and `]` appears verbatim, tokens included, and what follows the `]` is translated from the clear state |
| Translator.UnclosedEscape | parsetime.go:139-146 | after a `[` with no later `]`, the rest comes out literally (only further `[` dropped) and the pass ends with the flag set; nothing fails |
| Translator.CloseResets | parsetime.go:141-142 | a `]`, balanced or not, is dropped and the rest is translated from the clear state |
| Translator.EscapedAfterLastMarker | parsetime.go:136-142 | the flag at the end is set after a last `[`, clear after a last `]`, and unchanged when there is no marker |
| Translator.ExampleDate | parsetime_test.go:16-22 | `"Y-m-d"` translates to `"2006-01-02"` |
| Translator.ExampleClock | parsetime_test.go:24-30 | `"H:i:s"` translates to `"15:04:05"` |
| Translator.ExampleZone | parsetime_test.go:32-46 | `"e"` translates to `"MST"` and `"T"` to `"Z07:00"` |
| Translator.ExampleEscapedWord | parsetime_test.go:48-54 | `"[Date]: Y-m-d"` translates to `"Date: 2006-01-02"` |
| Translator.ExampleRfc3339 | parsetime_test.go:56-62 | `"Y-m-d[T]H:i:sT"` translates to `"2006-01-02T15:04:05Z07:00"` |
| Translator.ConvertToNativeLoop | parsetime.go:134-151 | the loop with one flag and an accumulated output returns exactly the recursive translation of the whole format |
| DayBoundary.SetTimeOnlyParts | parsetime.go:154-156 | keeps year, month, day and location, sets the four clock fields to the given values, and keeps a valid time valid |
| DayBoundary.GetStartOfDay | parsetime.go:89-92 | same date and location, at offset zero from midnight, valid when the input is |
| DayBoundary.GetEndOfDay | parsetime.go:94-98 | same date and location, one nanosecond before the next midnight, valid when the input is |
| DayBoundary.StartOfDayIsEarliest | parsetime.go:89-92 | no valid time on the same date and location is earlier than the start of the day, and the start is the only one at offset zero |
| DayBoundary.EndOfDayIsLatest | parsetime.go:94-98 | no valid time on the same date and location is later than the end of the day, and the end is the only one a nanosecond short of the next midnight |
| DayBoundary.NanoOfDayInjective | parsetime.go:154-156 | two valid times of day at the same offset from midnight have the same hour, minute, second and nanosecond |
| DayBoundary.DayBoundariesIdempotent | parsetime.go:90-98 | each helper is idempotent, and each absorbs the other, since both depend only on the date and location |

## Left out

- `Format` and `Parse` (parsetime.go:78-87): they hand the translated layout to Go's `time.Format` and `time.Parse`, whose layout engine is not part of this model.
- `ParseWithTimeZone` (parsetime.go:123-130): it composes `Parse` with `SetTimeZone`, both of which depend on the time library.
- `SetTimeZone` and `InTimeZone` (parsetime.go:101-119): they need the zone database (`time.LoadLocation`) and instant/offset arithmetic (`t.In`), which are external.
- DayBoundary.SetTimeOnlyParts: requires in-range clock values, because the normalisation `time.Date` applies to out-of-range ones is not modelled; both callers pass in-range constants. Nor does it model the shift `time.Date` applies to an in-range wall-clock time inside a daylight-saving gap of the location, so the contract's exact clock fields hold only outside such gaps.
- DayBoundary.GetStartOfDay: does not model how `time.Date` shifts a wall-clock time that falls in a daylight-saving gap of the location, because the location is opaque and no offset arithmetic is modelled.
- DayBoundary.GetEndOfDay: the same daylight-saving shift is not modelled, for the same reason.
- Invalid UTF-8: Go's `range` over a string yields U+FFFD for a bad byte. The model takes the format as a sequence of characters, that is, runes.
