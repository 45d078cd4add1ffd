# celestial-echo: the mention classifier

celestial-echo is a Twitter bot. When someone mentions it with the name of a
solar-system body, it asks JPL HORIZONS how far away that body is. It records
an event whose reply is due when light could have made the round trip. If the
name is unknown or ambiguous, it replies at once instead.

This project models `build_event` (`src/main.rs`). That function turns one
mention into one of three things:

- a record to store (`RecordForm` with an `EventForm`);
- a reply to post (`Reply`);
- an error.

It decides using the mention text, the tweet id, the creation time, and the
exit code and standard output of the lookup process. The lookup itself is
not modelled: its exit code (`Option<int>`, `None` when killed by a signal)
and its output (a `string`) are inputs.

Modules:

- `Wrappers`: `Option`.
- `RustStr`: the Rust `str` operations the code relies on, over `seq<char>`:
  - `trim`, using the Unicode White_Space set that `char::is_whitespace` uses;
  - `starts_with`;
  - `lines`, which splits at `\n` or `\r\n`;
  - `split_whitespace`;
  - the UTF-8 byte length that `String::len` reports.

  Each operation comes with lemmas that pin it down: trimming characterised
  by "whitespace + core + whitespace"; `lines` fixed by three equations (text
  without a line break is one line, a `\n` ends a line and keeps a `\r` before
  it only when that `\r` is not part of `\r\n`, a `\r\n` ends a line and
  drops both characters) and undone by joining; tokens glued back giving the
  non-whitespace characters; and byte length additive.
- `Candidates`: the exit-2 pattern ` *(-?\d+) *(.*?)(\(|  |$)`, searched
  for anywhere in the line, as explicit index functions. Its partner is the
  declarative predicate `Captures`, which spells out what a leftmost-first
  match must satisfy: no earlier start, a greedy numeral, greedy spaces, a
  lazy label up to the first terminator. The search finds exactly the unique
  positions that satisfy it.
- `Mentions`: the data model and the specification function `Classify`.
  It also holds the two imperative pieces, each proved equal to its
  specification:
  - `MentionBody`, the `mut body` re-assignment;
  - `BuildPickMessage`, the exit-2 loop that appends to `message`.

  `BuildEvent` is the whole function.
- `ReplyProperties`: what the greedy 280-byte selection keeps.
- `EventProperties`: what `build_event` promises for each exit code.

Inputs the code receives from outside:

- The `f64` parse is the parameter `parseF64: string -> Option<real>`.
- Distances are reals.
- The creation time is a count of milliseconds.
- The tweet id is a `u64`, and its conversion to `i64` wraps, written out
  as `ToI64`.

## Model

| member | source | states |
|---|---|---|
| RustStr.Trim | src/main.rs:101 | `trim` leaves no whitespace at either end and never lengthens the text |
| RustStr.TrimEmptyIff | src/main.rs:115 | trimming leaves nothing exactly when the text is all whitespace |
| RustStr.TrimCharacterised | src/main.rs:101 | whitespace + a trimmed core + whitespace trims to that core, which pins `trim` down |
| RustStr.TrimSurround | src/main.rs:101 | every text is its trimmed core with whitespace on either side |
| RustStr.TrimIdempotent | src/main.rs:103 | trimming twice is trimming once |
| RustStr.Lines | src/main.rs:115 | `lines` yields nothing exactly for empty text, and no line holds a `\n`; the three equations below fix it completely |
| RustStr.LinesRoundTrip | src/main.rs:137 | for text without `\r` and without a final line break, joining the lines with `\n` gives the text back |
| RustStr.LinesOfOne | src/main.rs:115 | non-empty text without a `\n` is a single line, kept whole (a final `\r` included) |
| RustStr.LinesAfterNewline | src/main.rs:115 | `a + "\n" + b` is the line `a` followed by the lines of `b`, when `a` holds no `\n` and does not end in `\r` |
| RustStr.LinesAfterCrLf | src/main.rs:115 | `a + "\r\n" + b` is the line `a` followed by the lines of `b`: neither `\r` nor `\n` is kept |
| RustStr.Tokens | src/main.rs:116 | every `split_whitespace` token is non-empty and holds no whitespace |
| RustStr.TokensPartition | src/main.rs:116 | the tokens, glued back together, are exactly the non-whitespace characters in order |
| RustStr.TokensSkipWhitespace | src/main.rs:116 | leading whitespace does not change the tokens |
| RustStr.TokensCons | src/main.rs:116 | a word followed by whitespace or nothing is the first token |
| RustStr.TokensWordThen | src/main.rs:116 | a word followed by a whitespace run is the first token, and the rest tokenises on its own |
| RustStr.ByteLen | src/main.rs:142 | the UTF-8 length is between one and four bytes per character |
| RustStr.ByteLenAppend | src/main.rs:142 | the byte length of a concatenation is the sum of the byte lengths |
| RustStr.ByteLenAscii | src/main.rs:142 | on ASCII text the byte length is the character count |
| Candidates.FirstNumeral | src/main.rs:135 | finds the first position where `-?\d+` can begin, and none begins before it |
| Candidates.DigitsEnd | src/main.rs:135 | greedy `\d+`: the run is all digits and the next character is not a digit |
| Candidates.SpacesEnd | src/main.rs:135 | greedy ` *`: the run is all spaces and the next character is not a space |
| Candidates.LabelEnd | src/main.rs:135 | lazy `.*?`: the first position where `(`, two spaces or the end of the line follows |
| Candidates.NumeralSpan | src/main.rs:135 | from where a numeral begins, the greedy match is a whole `-?\d+` |
| Candidates.FindCapturesSound | src/main.rs:135-140 | the search fails exactly when no numeral occurs in the line; otherwise its positions satisfy `Captures` |
| Candidates.CapturesUnique | src/main.rs:135-140 | any positions satisfying `Captures` are the ones the search returns, so the match is unique |
| Candidates.Captures | src/main.rs:135 | the declarative reading of the pattern: no earlier start, greedy numeral and spaces, lazy label up to the first terminator |
| Candidates.FindCaptures | src/main.rs:135-140 | the search by index functions; its positions are ordered within the line, and `FindCapturesSound` and `CapturesUnique` tie it to `Captures` |
| Candidates.Match | src/main.rs:140-141 | `captures` reduced to the id and the trimmed label; `MatchShape` and `MatchFailsIffNoNumeral` state its properties |
| Candidates.MatchShape | src/main.rs:140-141 | a matched id is a whole numeral and a matched label is trimmed |
| Candidates.MatchFailsIffNoNumeral | src/main.rs:140 | `captures` fails on a line exactly when no numeral occurs in it |
| Mentions.StripMention | src/main.rs:101-104 | the body is trimmed and no longer than the text |
| Mentions.MentionBody | src/main.rs:101-104 | the `mut body` trim-and-strip computes `StripMention` |
| Mentions.StripMentionOfBareHandle | src/main.rs:101-104 | a mention holding only the handle gives an empty body |
| Mentions.StripMentionOfMention | src/main.rs:101-104 | a mention starting with the handle gives the trimmed name after it |
| Mentions.StripMentionAfterHandle | src/main.rs:101-104 | whatever follows a leading handle is kept, trimmed, even when it continues the handle's name |
| Mentions.StripMentionOfOtherText | src/main.rs:101-104 | text not starting with the handle is only trimmed |
| Mentions.DistanceToken | src/main.rs:115-116 | fails with the missing-line error exactly when the output is all whitespace, otherwise with the missing-field error; a token it returns is a non-empty word; the `EventProperties.Distance…` lemmas say which word |
| Mentions.RoundTripSeconds | src/main.rs:117 | the round trip is 120 times the one-way light-minutes |
| Mentions.TruncateTowardZero | src/main.rs:118 | `as i64` truncates toward zero: within one of the value, on the side of zero |
| Mentions.Deadline | src/main.rs:118-119 | the deadline lies the round trip in milliseconds after the creation time, truncated toward zero: within one millisecond, on the side of zero |
| Mentions.ToI64 | src/main.rs:121 | `u64 as i64` lands in the `i64` range, agrees with the id modulo 2^64, and keeps ids below 2^63 |
| Mentions.FormatCandidate | src/main.rs:141 | one candidate line, `"<id>: <label>\n"`; `HeaderBytes` and `FormattedLinesAt` are stated over it |
| Mentions.FormattedLines | src/main.rs:139-141 | one formatted candidate per line of the output (the positions are fixed by `FormattedLinesAt`) |
| Mentions.Chosen | src/main.rs:142-144 | the greedy selection: each candidate in turn is kept when it still fits beside those kept so far; its properties are the `ReplyProperties.Chosen…` lemmas |
| Mentions.PickReply | src/main.rs:134-146 | the exit-2 specification: the first unmatched line as an error, otherwise the header and the chosen candidates; its properties are the `ReplyProperties.PickReply…` lemmas |
| Mentions.Classify | src/main.rs:100-152 | the specification of `build_event` after the lookup, one branch per exit code; its properties are the `EventProperties` lemmas |
| Mentions.FirstUnmatched | src/main.rs:139-140 | every line before the index matches, and the line at the index (if any) does not |
| Mentions.FirstUnmatchedIs | src/main.rs:139-140 | the first unmatched line is the one after a run of matching lines |
| Mentions.FormattedLinesAt | src/main.rs:141 | candidate `k` is `"<id>: <trimmed label>\n"` of line `k` |
| Mentions.AllMatchExtend | src/main.rs:139-141 | a matching line extends the matched prefix by its formatted candidate |
| Mentions.ChosenSnoc | src/main.rs:142-144 | unfolding of `Chosen`: one more candidate is kept exactly when it still fits after the ones kept so far |
| Mentions.HeaderBytes | src/main.rs:138 | the header is ASCII: its byte length is its length |
| Mentions.PickStep | src/main.rs:139-145 | one loop turn keeps the message equal to the header and the candidates chosen so far |
| Mentions.BuildPickMessage | src/main.rs:134-146 | the exit-2 loop returns `PickReply` of the lines: the first unmatched line as an error, else the header and the chosen candidates |
| Mentions.BuildEvent | src/main.rs:100-152 | `build_event` after the lookup returns `Classify` of its inputs |
| ReplyProperties.ChosenFits | src/main.rs:142-144 | the kept candidates never exceed the room left after the header |
| ReplyProperties.ChosenSubsequence | src/main.rs:139-144 | the kept candidates are some of the candidates, in input order |
| ReplyProperties.ChosenPrefix | src/main.rs:139-144 | choosing over a prefix of the candidates gives a prefix of the final choice |
| ReplyProperties.ChosenMaximal | src/main.rs:142-144 | a skipped candidate does not fit even beside the final choice |
| ReplyProperties.AllFitKeepsAll | src/main.rs:142-144 | when all candidates fit together, none is skipped |
| ReplyProperties.PickReplyFits | src/main.rs:138-146 | when every line matches, a disambiguation reply is produced; it starts with `"Pick a number:\n"` and is at most 280 bytes |
| ReplyProperties.PickReplyOfAllMatch | src/main.rs:139-146 | unfolding of `PickReply`: when every line matches, the reply is the header followed by the chosen candidates |
| ReplyProperties.PickReplyOkIffAllMatch | src/main.rs:139-140 | a reply is produced exactly when every line matches |
| ReplyProperties.PickReplyListsAll | src/main.rs:142-146 | when everything fits, every candidate is listed, in order |
| ReplyProperties.PickReplyOfNoLines | src/main.rs:137-146 | no lines give exactly the header |
| EventProperties.UnknownExitCodeFails | src/main.rs:148-149 | the call fails with the exit-code error exactly when the code is not 0, 1 or 2 (including no code) |
| EventProperties.UnrecognizedLocationReply | src/main.rs:128-132 | exit code 1 always gives the fixed "Sorry, I don't recognize that location." reply, whatever the output |
| EventProperties.RecordOnlyOnSuccess | src/main.rs:113-127 | a record is produced exactly on exit code 0 with a distance token that parses |
| EventProperties.RecordedEvent | src/main.rs:117-126 | the record holds the `i64` id, the stripped body, `replied = false`, `round_trip = 120·d`, and a deadline of the round trip in milliseconds truncated toward zero |
| EventProperties.ThreeFields | src/main.rs:116 | three words separated by whitespace are the first three tokens |
| EventProperties.DistanceOfOnlyLine | src/main.rs:115-116 | output of one line, with any whitespace around it: the distance is that line's third field, or the missing-field error |
| EventProperties.DistanceOfFirstLine | src/main.rs:115-116 | output of several lines: only the first is read, whether it ends in `\n` or `\r\n` and whatever it ends with |
| EventProperties.DistanceOfLine | src/main.rs:115-116 | whatever follows the first line, the distance is the first line's third field, or the missing-field error |
| EventProperties.DistanceIsThirdField | src/main.rs:115-116 | the distance read is the third whitespace-separated field of the first line, with anything after it on that line and either line ending |
| EventProperties.ResolvedErrors | src/main.rs:115-117 | exit code 0 fails with each of its three errors exactly when that error arises: no line, fewer than three fields, a token that does not parse |
| EventProperties.AmbiguousBranch | src/main.rs:134-146 | unfolding of `Classify` on exit code 2: it replies with `PickReply` of the lines of the trimmed output |
| EventProperties.AmbiguousFailsAtFirstUnmatched | src/main.rs:139-140 | exit code 2 fails on the first line that does not match, with no partial reply |
| EventProperties.AmbiguousRepliesIffAllMatch | src/main.rs:139-146 | exit code 2 replies exactly when every line matches |
| EventProperties.AmbiguousReplyKeepsOrder | src/main.rs:138-146 | the reply is the header followed by some of the formatted candidates, in input order |
| EventProperties.AmbiguousListsAllWhenShort | src/main.rs:142-146 | when everything fits, the reply lists every candidate |
| EventProperties.AmbiguousEmptyOutput | src/main.rs:137-146 | all-whitespace output gives exactly the header |
| EventProperties.UnrecognizedReplyFits | src/main.rs:129-131 | the fixed exit-1 reply is ASCII and within 280 bytes |
| EventProperties.RepliesFit | src/main.rs:128-146 | every reply `build_event` drafts is at most 280 bytes |

## Left out

- The lookup process, `expect horizons`, and the formatting of `created_at` as `%Y-%m-%d %H:%M:%S` (src/main.rs:106-110). These are an external process call. Its exit code and output are inputs, and a failure to start it (the `?` on `output()`) is not modelled.
- Lossy UTF-8 decoding of the output (src/main.rs:114, 136). This is library behaviour; the output is taken as already-decoded text.
- The `f64` parse (src/main.rs:117) is the parameter `parseF64`. Its exact syntax (`inf`, `NaN`, exponents) is not modelled, and floating-point rounding is replaced by real arithmetic.
- Mentions.TruncateTowardZero: does not model that `as i64` saturates out of range and maps NaN to 0, because values are reals.
- Mentions.Deadline: does not model `chrono` overflow on `created_at + travel_time`, because timestamps are unbounded integer milliseconds.
- Candidates.Match: `\d` is taken as the ASCII digits, while the `regex` crate also accepts other Unicode decimal digits.
- `DraftTweet::new` and the reply metadata added by the caller are not modelled; a reply is its text.
- The 280 limit is in bytes, as the code measures it with `String::len` (src/main.rs:142), not in characters; the model follows the code.
- `process_new_mentions` (src/main.rs:60-93) is left out: Twitter pagination, the async reactor, the database insert and reply posting are network and database plumbing.
- `get_max_id`, `auth`, `establish_connection` and `get_env` (src/main.rs:158-185) are left out: they are a SQL aggregate and environment/connection setup.
- `send_replies` (src/main.rs:154-156) is left out: it is an empty stub.
- src/schema.rs is left out: it only declares the `events` table.
- There is no code for a deduplication guard or a deferred-reply sweep, so neither is modelled.
