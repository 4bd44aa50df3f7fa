# cs2d-stats-parser in Dafny

A model of the decoding core of cs2d-stats-parser. The program reads the
binary statistics files of a CS2D server and writes them out as a report. Two
files are decoded:

- the `userstats` file: a header line `userstats steam`, then player records.
  Each record is a newline-terminated name followed by a 33-byte little-endian
  tail: `u8` user type, `i64` user id, then six `i32` fields (score, kills,
  deaths, assists, MVPs, time);
- the `stats` (traffic) file: a header line `stats alpha`, then 22-byte
  records (`u8` day, `u8` month, `u16` year, `u8` hour, two `i64` byte counts,
  `u8` player count).

The model also covers four helpers of the HTML report:

- `format_time`, which shows a number of seconds;
- `sanitize_html`, which escapes a player name;
- the choice of a player's profile link;
- the whitespace minifier run over the finished page.

The project is split into modules:

- `Bytes` (bytes.dfy): fixed-width integers and little-endian two's-complement
  encoding, with round trips in both directions.
- `Text` (text.dfy): Rust's `char::is_whitespace` (the Unicode White_Space
  set), `str::trim`, and `{}` display of integers, with its inverse.
- `Utf8` (utf8.dfy): the UTF-8 encodings of whitespace. The header is read
  with `BufRead::read_line`, which demands valid UTF-8, and then compared
  after `trim_end`.
- `Format` (format.dfy): the two file formats as pure functions of the whole
  file:
  - `Userstats` and `Stats` say what a file decodes to;
  - `EncodePlayers` and `EncodeTraffics` lay records out in bytes;
  - lemmas give the round trips, the sentinel stop, the silent stop at end of
    file and the strict failure on a truncated tail.
- `Parser` (parser.dfy): the imperative decoders of src/parser.rs:
  - a `Reader` class, a byte sequence with a cursor that the reads advance;
  - `read_header` and `read_line` as loops;
  - `parse_userstats` and `parse_stats` as record loops.

  Each method is proved to compute the corresponding `Format` function.
- `Output` (output.dfy): the helpers of src/output.rs:
  - `format_time`, written with Rust's truncating `/` and `%`;
  - `sanitize_html`, proved equal to escaping each char once and then
    trimming;
  - the profile link;
  - the minifier loop, proved to compute `Join(Words(html))`. That reference
    definition is proved to keep every non-whitespace char in order. It is
    also proved to turn every whitespace gap between two non-whitespace chars
    into one space, or into nothing between `>` and `<` (`Output.JoinSplit`).

Two behaviours of the code are worth knowing before reading the model:

- **Truncated tail.** If a name line is followed by fewer than 33 bytes, the
  whole call fails. Every fixed-width read passes `UnexpectedEof` on with `?`,
  so no records are returned (`Format.TruncatedTail`).
- **Header whitespace.** `trim_end` strips any trailing Unicode whitespace, so
  the header check accepts more than spaces and `\r` (`Format.HeaderMatchesIff`).

## Model

| member | source | states |
|---|---|---|
| Bytes.LeSigned | src/parser.rs:67-73 | the two's-complement value of n little-endian bytes lies in [-2^(8n-1), 2^(8n-1)) and is non-negative exactly when the unsigned value is below 2^(8n-1) |
| Bytes.LeSignedOfBytes | src/parser.rs:67-73 | every in-range integer, negatives included, is decoded back from its n-byte two's-complement encoding |
| Bytes.LeSignedBytesOf | src/parser.rs:67-73 | every n-byte pattern is the encoding of the value decoded from it |
| Bytes.U16Le | src/parser.rs:109 | `read_u16::<LittleEndian>` yields the first byte plus 256 times the second |
| Bytes.I32Le | src/parser.rs:68-73 | `read_i32::<LittleEndian>` yields the two's-complement value of the 4 bytes; Bytes.I32Bytes and Bytes.I32BytesOf make it a bijection onto i32 |
| Bytes.I64Le | src/parser.rs:67 | `read_i64::<LittleEndian>` yields the two's-complement value of the 8 bytes; Bytes.I64Bytes and Bytes.I64BytesOf make it a bijection onto i64 |
| Bytes.U16Bytes | src/parser.rs:109 | every u16 has a 2-byte encoding that decodes back to it |
| Bytes.I32Bytes | src/parser.rs:68-73 | every i32 has a 4-byte encoding that decodes back to it |
| Bytes.I64Bytes | src/parser.rs:67 | every i64 has an 8-byte encoding that decodes back to it |
| Bytes.I32BytesOf | src/parser.rs:68-73 | every 4-byte pattern is the encoding of exactly the i32 it decodes to |
| Bytes.I64BytesOf | src/parser.rs:67 | every 8-byte pattern is the encoding of exactly the i64 it decodes to |
| Bytes.U16BytesOf | src/parser.rs:109 | every 2-byte pattern is the encoding of exactly the u16 it decodes to |
| Text.WhitespaceTable | src/output.rs:167 | `IsWhitespace`, the model of `char::is_whitespace` written as ranges, holds for exactly the 25 code points of the Unicode White_Space property, listed one by one |
| Text.LeadingWhitespace | src/parser.rs:62 | the length of the whitespace run that starts the text: all whitespace, and the next char (if any) is not |
| Text.TrailingWhitespace | src/parser.rs:62 | the length of the whitespace run that ends the text: all whitespace, and the char before it (if any) is not |
| Text.Trim | src/parser.rs:62 | `trim` is the slice between the leading and trailing whitespace runs; it starts and ends with non-whitespace; it is empty exactly when the text is all whitespace |
| Text.TrimOfTrimmed | src/output.rs:214 | text with non-whitespace ends is left unchanged by `trim` |
| Text.Decimal | src/output.rs:194-202 | `{}` of an integer is non-empty digits, with a leading `-` exactly for negative values, and no leading zero (so no `-0`) except for zero itself |
| Text.DecimalRoundTrip | src/output.rs:194-202 | every integer is read back from its decimal display |
| Text.DecimalInjective | src/output.rs:122-126 | distinct integers have distinct decimal displays |
| Utf8.WhitespaceBytes | src/parser.rs:32-33 | the bytes after the marker that pass the UTF-8 check of `read_line` and are then removed by `trim_end`; no ASCII byte other than whitespace passes, and Utf8.WhitespaceBytesIff gives the exact set |
| Utf8.DecodeWhitespace | src/parser.rs:30-34 | every byte string accepted as encoded whitespace is the UTF-8 encoding of an all-whitespace string |
| Utf8.WhitespaceBytesOfString | src/parser.rs:30-34 | the UTF-8 encoding of any whitespace string is accepted |
| Utf8.WhitespaceBytesIff | src/parser.rs:30-34 | the bytes after the marker are accepted exactly when they are the UTF-8 encoding of some run of whitespace chars |
| Format.FindLf | src/parser.rs:41-43 | the index of the first `\n`, or none exactly when there is no `\n` |
| Format.HeaderLine | src/parser.rs:30-32 | `read_line` takes a prefix of the file that holds no `\n` except a final one, and takes the whole file when it has no `\n` |
| Format.HeaderMatches | src/parser.rs:33 | the header check accepts the marker alone, the marker then `\n`, and the marker then `\r\n`, and rejects every line shorter than the marker; Format.HeaderMatchesIff gives the exact set it accepts |
| Format.HeaderMatchesIff | src/parser.rs:30-34 | a header line is accepted exactly when it is the marker followed by the UTF-8 encoding of whitespace (trailing `\r`, spaces and other whitespace pass; leading whitespace or another case does not) |
| Format.HeaderAfterMarker | src/parser.rs:55-58 | the marker followed by whitespace and `\n` is accepted, and decoding continues right after that `\n` |
| Format.HeaderRejected | src/parser.rs:55-58 | an empty file, or one whose first byte is not `u`, is rejected with InvalidHeader |
| Format.DropCr | src/parser.rs:44 | the kept bytes hold no `\r`, and a line without `\r` is kept whole |
| Format.NameChars | src/parser.rs:44-46 | each kept byte becomes the char with the same code; no `\r` survives |
| Format.NameBytesInjective | src/parser.rs:45 | different Latin-1 names come from different bytes |
| Format.ReadName | src/parser.rs:36-49 | no name exactly when no `\n` is left; otherwise reading stops at the first `\n`, and decoding resumes right after it |
| Format.ReadNameOfLine | src/parser.rs:36-49 | a line without `\n` and its `\n` give the line's chars with `\r` dropped, and the rest is untouched |
| Format.ReadNameOfEncoded | src/parser.rs:36-49 | a Latin-1 name without line breaks, written and followed by `\n`, is read back exactly |
| Format.DecodePlayer | src/parser.rs:75-85 | the record keeps the name as read (untrimmed) and the first tail byte as user type |
| Format.PlayerTail | src/parser.rs:66-73 | every record has a 33-byte tail that decodes to its nine fields |
| Format.PlayerTailOfDecoded | src/parser.rs:66-73 | every 33-byte tail is the encoding of the fields decoded from it |
| Format.Players | src/parser.rs:60-86 | the record loop fails only with UnexpectedEof |
| Format.PlayersFacts | src/parser.rs:61-85 | no returned record has a blank name or a `\r`, and each stands for at least 35 bytes of input |
| Format.Userstats | src/parser.rs:55-58 | the parse fails with InvalidHeader exactly when the header line does not match `userstats steam` |
| Format.EncodePlayer | src/parser.rs:61-85 | a record takes its name bytes, one `\n` and the 33-byte tail |
| Format.PlayersKeep | src/parser.rs:61-85 | a name line with a non-blank name and a whole tail after it: the record is kept and the loop goes on after the tail |
| Format.PlayersAfterRecord | src/parser.rs:61-85 | one written record is decoded back ahead of whatever the rest of the file decodes to |
| Format.PlayersAfterRecords | src/parser.rs:61-86 | written records are decoded back in order, ahead of whatever the rest of the file decodes to |
| Format.PlainHeader | src/parser.rs:30-34 | a header line that is the marker alone is accepted, and decoding continues right after its `\n` |
| Format.UserstatsAfterHeader | src/parser.rs:55-60 | after a plain `userstats steam` line the parse is the record loop over the following bytes |
| Format.StatsAfterHeader | src/parser.rs:95-100 | after a plain `stats alpha` line the parse is the record loop over the following bytes |
| Format.UserstatsRoundTrip | src/parser.rs:51-89 | a header and records with well-formed names (no line breaks, not blank) decode back to exactly those records, all nine fields equal, negatives included |
| Format.UserstatsRoundTripSentinel | src/parser.rs:61-64 | the same records followed by an empty line decode to exactly those records, whatever follows |
| Format.SentinelStops | src/parser.rs:61-64 | a blank or all-whitespace name ends the loop with Ok and exactly the records before it; nothing after it is read |
| Format.EofInName | src/parser.rs:61 | the end of the file inside a name ends the loop with Ok and the earlier records; the partial name is dropped |
| Format.TruncatedTail | src/parser.rs:66-73 | a name line followed by fewer than 33 bytes fails the whole call with UnexpectedEof, with no records |
| Format.DecodeTraffic | src/parser.rs:108-123 | the record's single-byte fields are bytes 0, 1, 4 and 21 |
| Format.EncodeTraffic | src/parser.rs:108-123 | every traffic record has a 22-byte encoding that decodes back to it |
| Format.EncodeTraffics | src/parser.rs:100-124 | n traffic records take 22n bytes |
| Format.TrafficRecords | src/parser.rs:100-124 | the record loop succeeds exactly when the body ends on a record boundary; it then yields one record per 22 bytes, and otherwise fails with UnexpectedEof |
| Format.TrafficOfDecoded | src/parser.rs:108-123 | every 22 bytes are the encoding of the traffic record they decode to |
| Format.TrafficRecordsLossless | src/parser.rs:100-124 | whenever the record loop succeeds, re-encoding its records gives back exactly the body it read, so no byte is lost or reinterpreted |
| Format.Stats | src/parser.rs:95-98 | the parse fails with InvalidHeader exactly when the header line does not match `stats alpha` |
| Format.TrafficRecordsCons | src/parser.rs:101-123 | a whole 22-byte record in front of more bytes is decoded first, then the loop goes on |
| Format.TrafficRoundTrip | src/parser.rs:100-126 | encoded traffic records decode back to exactly those records, in order |
| Format.StatsRoundTrip | src/parser.rs:91-127 | a `stats alpha` header followed by encoded records decodes back to exactly those records |
| Parser.Reader.constructor | src/parser.rs:53 | a new reader is at the start of its data |
| Parser.Reader.ReadExact | src/parser.rs:40 | n bytes are returned and consumed when there are n left; otherwise nothing is returned and the reader is at the end |
| Parser.Reader.ReadU8 | src/parser.rs:66 | the next byte is returned and consumed, or none at the end |
| Parser.Reader.ReadU16Le | src/parser.rs:109 | the next 2 bytes, little-endian, are returned and consumed, or none when fewer are left |
| Parser.Reader.ReadI32Le | src/parser.rs:68-73 | the next 4 bytes, in two's complement, are returned and consumed, or none when fewer are left |
| Parser.Reader.ReadI64Le | src/parser.rs:67 | the next 8 bytes, in two's complement, are returned and consumed, or none when fewer are left |
| Parser.ReadHeader | src/parser.rs:30-34 | the loop reads exactly the header line of the file, up to and including the first `\n` |
| Parser.HeaderStep | src/parser.rs:30-32 | one byte of the header loop: `\n` completes the header line and decoding resumes after it; any other byte extends the line, which still holds no `\n` |
| Parser.HeaderLineOfLine | src/parser.rs:30-32 | a line without `\n`, then `\n`, is the header line, and the rest follows it |
| Parser.ReadLine | src/parser.rs:36-49 | the byte loop returns the name `ReadName` gives and leaves the reader right after its `\n`, or returns none at the end of the file |
| Parser.LineStep | src/parser.rs:39-47 | one byte of the name loop: `\n` ends the name, any other byte extends the raw line |
| Parser.NameCharsSnoc | src/parser.rs:44-46 | one more byte adds its char to the name unless it is `\r` |
| Parser.ReadPlayer | src/parser.rs:66-73 | the eight reads decode the next 33 bytes into a record and consume them, or fail when fewer are left |
| Parser.PlayersStop | src/parser.rs:61-64 | no name left or a blank name: the loop ends with no further records |
| Parser.PlayersCut | src/parser.rs:66-73 | a kept name with fewer than 33 bytes after it: the loop fails with UnexpectedEof |
| Parser.PlayersNext | src/parser.rs:66-85 | a kept name with a full tail: the record is pushed and the loop goes on after the tail |
| Parser.UserstatsHeader | src/parser.rs:55-58 | the userstats parse is the record loop after the header line when the header matches, InvalidHeader otherwise |
| Parser.ParseUserstats | src/parser.rs:51-89 | the reader-based decoder returns exactly `Userstats(data)` |
| Parser.ReadTraffic | src/parser.rs:108-123 | the reads after the day decode the next 21 bytes into a traffic record and consume them, or fail when fewer are left |
| Parser.RecordsEnd | src/parser.rs:102-104 | the end of the file at a record boundary ends the stats loop with the records read so far |
| Parser.RecordCut | src/parser.rs:108-113 | the end of the file inside a record fails the whole stats parse with UnexpectedEof |
| Parser.RecordNext | src/parser.rs:102-123 | a whole record is pushed and the stats loop goes on after its 22 bytes |
| Parser.RecordStep | src/parser.rs:102-123 | one step of the traffic loop: fewer than 22 bytes fail, otherwise the record is pushed and the loop goes on 22 bytes later |
| Parser.StatsHeader | src/parser.rs:95-98 | the stats parse is the record loop after the header line when the header matches, InvalidHeader otherwise |
| Parser.ParseStats | src/parser.rs:91-127 | the reader-based decoder returns exactly `Stats(data)` |
| Output.Quot | src/output.rs:189 | Rust's `/` on a positive divisor: for a non-negative dividend the largest multiple of the divisor not above it, for a negative one the smallest multiple not below it, so the quotient is truncated toward zero |
| Output.Rem | src/output.rs:192 | Rust's `%`: the dividend is divisor times quotient plus remainder; the remainder has the dividend's sign and is smaller than the divisor |
| Output.QuotRemOdd | src/output.rs:189-192 | Rust's `/` and `%` are odd in the dividend: negating it negates quotient and remainder |
| Output.SplitNonNegative | src/output.rs:188-192 | for s >= 0 the four parts add back up to s, with hours below 24 and minutes below 60 |
| Output.SplitTime | src/output.rs:188-192 | for every s the parts add back up to s (days*86400 + hours*3600 + minutes*60 + seconds); hours lie strictly between -24 and 24, minutes and seconds strictly between -60 and 60; all parts share the sign of s |
| Output.UnitsOfDay | src/output.rs:190-191 | the hour of the day is the number of whole hours mod 24, and the minute of the hour is the number of whole minutes mod 60 |
| Output.FormatTimeOfSeconds | src/output.rs:194-202 | from one day on the display is days and hours; from one hour on, hours and minutes; from one minute on, minutes and seconds; below that, the seconds |
| Output.FormatTimeOfNegative | src/output.rs:194-202 | a negative time shows only its (negative) seconds of the minute |
| Output.FormatTime | src/output.rs:188-203 | the display ends in `h` exactly from one day on, in `m` exactly from one hour up to a day, and in `s` below one hour, negative times included; the full text of each case is stated by Output.FormatTimeOfSeconds and Output.FormatTimeOfNegative |
| Output.Replace | src/output.rs:207 | `str::replace` of one char: no occurrence of the char is left unless the replacement holds it, and a non-empty replacement never shortens the text; Output.ReplaceAppend gives its behaviour on concatenations |
| Output.ReplaceAppend | src/output.rs:207 | replacing a char in a concatenation replaces it in each part |
| Output.ReplaceFromChar | src/output.rs:206-213 | on one char, the chained replacements give the text of the first rule that names it |
| Output.ReplaceFrom | src/output.rs:206-213 | the chain of replacements from a given rule on never shortens the text, and leaves no `\r` whenever the last rule is still to run; Output.ReplacementsAreEscape equates the whole chain with escaping each char once |
| Output.RulesFree | src/output.rs:207-213 | no replacement text holds a char that a later replacement in the chain rewrites |
| Output.ReplacementsAreEscape | src/output.rs:206-213 | the chained replacements equal escaping each input char once, so the `&` of an entity written by a later rule is never escaped again |
| Output.EscapeCases | src/output.rs:207-213 | `&` becomes `&amp;`, `<` `&lt;`, `>` `&gt;`, `"` `&quot;`, `'` `&#x27;`, a line break a space, and any other char is kept |
| Output.EscapeAllClean | src/output.rs:206-213 | the escaped text holds none of `<`, `>`, `"`, `'`, `\n`, `\r` |
| Output.SanitizeHtml | src/output.rs:205-216 | the sanitised name holds none of `<`, `>`, `"`, `'`, `\n`, `\r`, and has no whitespace at either end |
| Output.UnescapeEscapeAll | src/output.rs:207-211 | without line breaks, reading the entities back gives the input, so escaping loses nothing |
| Output.EscapeAllEnds | src/output.rs:206-214 | escaping a name whose first and last chars are not whitespace gives a text whose first and last chars are not whitespace |
| Output.SanitizeHtmlRoundTrip | src/output.rs:205-216 | a name without line breaks and without whitespace at its ends is read back exactly from its sanitised form |
| Output.ProfileUrl | src/output.rs:122-126 | the link is `https://steamcommunity.com/profiles/` followed by the user id in decimal for user type 1, and `https://unrealsoftware.de/profile.php?userid=` followed by the user id for every other type |
| Output.ProfileUrlDetermines | src/output.rs:122-126 | two players with the same profile link are both Steam players (user type 1) or both not, and have the same user id |
| Output.WordsAreWords | src/output.rs:166-181 | every word of the text is a non-empty run of non-whitespace chars |
| Output.WordsNone | src/output.rs:166-181 | a text has no words exactly when it is all whitespace |
| Output.WordsLast | src/output.rs:179-180 | when the text ends in a non-whitespace char, its last word is non-empty and ends in that char |
| Output.JoinEnds | src/output.rs:172-179 | joined words start with the first word's first char and end with the last word's last char |
| Output.JoinSnoc | src/output.rs:172-179 | one more word is written after the separator that the last word's end and its start call for |
| Output.WordsBlankTail | src/output.rs:166-170 | whitespace at the end of a text adds no word |
| Output.WordsAfterBlank | src/output.rs:166-177 | after whitespace, or at the start, the words of what follows are new words: none is merged into a word before them |
| Output.WordsOfWord | src/output.rs:172-180 | a single run of non-whitespace chars is exactly one word |
| Output.WordsFirst | src/output.rs:172-180 | a text that starts with a non-whitespace char starts its first word with it |
| Output.WordsSplit | src/output.rs:166-180 | the words are the maximal runs: a whitespace gap of any length splits a text into the words before it and the words after it |
| Output.JoinAppend | src/output.rs:172-179 | joining two non-empty lists of words puts one separator between them |
| Output.JoinSplit | src/output.rs:166-180 | a whitespace gap of any length between two non-whitespace chars becomes a single space in the minified text, or nothing between `>` and `<` |
| Output.MinifyBlank | src/output.rs:167-170 | a whitespace char changes neither what has been written nor the last non-whitespace char |
| Output.MinifyFirstWord | src/output.rs:172-179 | the first non-whitespace char after leading whitespace is written after one space, the one the final trim removes |
| Output.MinifyNextWord | src/output.rs:172-179 | a non-whitespace char after whitespace is written after the separator between the previous word and itself |
| Output.MinifyInWord | src/output.rs:179 | a non-whitespace char right after another one is written directly after it |
| Output.MinifyLastChar | src/output.rs:180 | after a non-whitespace char, that char is the last non-whitespace char read |
| Output.MinifyStepBlank | src/output.rs:167-170 | a whitespace char leaves the output and the previous char as they are |
| Output.MinifyStepWord | src/output.rs:172-180 | a non-whitespace char is written, after a space when whitespace came before it, unless that whitespace stood between `>` and `<`; it becomes the previous char |
| Output.MinifyStep | src/output.rs:166-180 | one turn of the loop only appends to the output; it appends exactly when the char is not whitespace, and then that char is both `prev_char` and the last char written (Output.MinifyStepBlank and Output.MinifyStepWord give the full effect) |
| Output.MinifyRun | src/output.rs:162-181 | the loop's variables after reading a prefix: `prev_char` is always the last char written (NUL before any), and the output never ends in whitespace; Output.MinifyRunWritten gives them in terms of Words and Join |
| Output.MinifyRunWritten | src/output.rs:162-181 | after any prefix of the page, the loop's variables hold: whether the last char read was whitespace, the last non-whitespace char read (NUL before the first), and the prefix's words joined, after one space when the prefix starts with whitespace and holds at least one non-whitespace char |
| Output.TrimJoin | src/output.rs:182 | the final `trim` leaves exactly the joined words |
| Output.Minify | src/output.rs:162-182 | the minifier returns `Join(Words(html))`; it keeps exactly the non-whitespace chars of the page in order, and its whitespace is single spaces between non-whitespace chars, never between `>` and `<`, and none at either end |
| Output.NonBlankAppend | src/output.rs:166-181 | the non-whitespace chars of a concatenation are those of each part |
| Output.WrittenNonBlank | src/output.rs:166-181 | at every point of the loop the output holds exactly the non-whitespace chars read so far |
| Output.JoinNonBlank | src/output.rs:166-181 | deleting all whitespace from the input and from the minified text gives the same string |
| Output.SpacedSnoc | src/output.rs:172-177 | a word written after an allowed separator keeps the whitespace shape |
| Output.JoinSpaced | src/output.rs:167-177 | every whitespace char of the minified text is a space with a non-whitespace char on each side, and never between `>` and `<` |

## Left out

- src/main.rs is not part of this model: command-line parsing, the file checks, sorting, truncation of the player list and exit codes.
- Opening the file and general I/O errors: a file is a byte sequence in memory, and the end of the data is the only way a read fails.
- Parser.Reader.ReadExact: where the cursor stands after a failed `read_exact` is left open by Rust; the model puts it at the end of the data. Every caller stops reading after a failure, so nothing depends on this choice.
- Format.HeaderMatches: invalid UTF-8 in the header line and a header that does not match both give InvalidHeader. Rust reports both as `ErrorKind::InvalidData`, with different messages that are not modelled.
- Format.HeaderLine: the header is matched as bytes. Any bytes after the first `\n` are left to the record loop, as `BufReader` does.
- `write_json` and `write_csv` are not part of this model: their output is written by the serde and csv crates.
- From `write_html`, only the profile link and the minifier are modelled. The timestamp taken from the clock, the page template and the row loop that fills it are not part of this model.
- The K/D ratio (src/output.rs:128-132) is `f32` arithmetic with `{:.2}` formatting; floating point is not modelled.
- Output.Minify: the page is given as a string; the `String::with_capacity` preallocation and the final `write!` to the file are not modelled.
