# WechatNotifyMailer: the notification parser, the nonce and the request signature

This project models the core of `wechat-notify-mailer.go` in Dafny and proves
properties of the model. The program is a small tool that reads a plain-text
notification from standard input and mails it through a cloud e-mail API.

- **`parse`** turns the notification into an `Input` record. The text is a
  header of `key: value` lines, an empty line, and then free text. The model
  has the loop itself as the method `NotifyParse.Parse`, with the `isDesc`
  flag and the record updated line by line. `Step` and `Run` say what one
  iteration and a run of iterations do. `Reference` describes the result
  directly:
  - which header line wins for each field;
  - which lines end up in the description.

  `RunIsReference` proves that the loop and `Reference` agree.
- **The Go library calls that `parse` relies on**:
  - `bytes.TrimSpace` and `strings.TrimSpace`;
  - `strings.SplitN(line, ":", 2)`;
  - `bufio.Scanner` splitting lines;
  - `strconv.ParseInt(value, 10, 64)`.

  They are modelled in `GoText` and `GoStrconv`, each with lemmas that state
  what it computes.
- **The character mapping of `randomString`** (module `Nonce`): a buffer of
  random bytes is rewritten in place, each byte replaced by
  `alphanum[b % 62]`.
- **`urlEncode` and the string to sign** (module `Signing`). `urlEncode` runs
  three `strings.Replace` calls and then `url.QueryEscape`. `sendMail` signs
  `"POST&%2F&" + urlEncode(query)`.

A Go string is a sequence of bytes. In `GoText` and `NotifyParse` it is a
`string` whose every character stands for one byte. Only ASCII characters
are ever inspected there. `Signing` works on `seq<Byte>`, where `Byte` is a
character below 256, so that `%XX` escapes are well defined.

A header line with an unknown key is not kept as part of the description.
Every header line that holds a colon empties the description, whatever its
key: the `switch` of wechat-notify-mailer.go:87-100 has no default case, and
line 101 runs after it unconditionally. `ColonLine` and
`UnknownKeyClearsDescription` state this.

## Model

| member | source | states |
|---|---|---|
| NotifyParse.Parse | wechat-notify-mailer.go:66-105 | The loop returns the record its line-by-line specification `ParseSpec` gives. That is the iteration over the lines of the trimmed input, then the description trimmed. The returned description has no white space at either end. The timestamp is an int64. All-white-space input gives the zero record. |
| NotifyParse.SetField | wechat-notify-mailer.go:87-100 | The `switch`: the field the key names is set, the timestamp to `ParseInt` of the value. No other field changes, and an unknown key changes nothing. |
| NotifyParse.HeaderLine | wechat-notify-mailer.go:80-101 | A header line leaves the flag as it was. A line with a colon empties the description. A line without one is appended to it with "\n", and nothing else changes. |
| NotifyParse.Step | wechat-notify-mailer.go:71-101 | One iteration: the flag is set exactly when it was set already or the line is empty. Once it is set, the line is appended to the description with "\n" and nothing else changes. |
| NotifyParse.Run | wechat-notify-mailer.go:68-102 | The loop's state after any sequence of lines holds an int64 timestamp. |
| NotifyParse.ParseSpec | wechat-notify-mailer.go:66-105 | What `parse` returns has a description with no white space at either end and an int64 timestamp. All-white-space input gives the zero record. |
| NotifyParse.RunIsReference | wechat-notify-mailer.go:70-102 | After any sequence of lines, the loop's state is the directly described one. `isDesc` holds exactly when an empty line has been read. Each field holds the value of the last header line whose trimmed key names it, or its zero value. The description is the header lines after the last colon line, followed by every line after the first empty line, each with "\n". |
| NotifyParse.SeparatorSpec | wechat-notify-mailer.go:72-75 | The line that switches to the description is the first empty line. No earlier line is empty. |
| NotifyParse.RunFlag | wechat-notify-mailer.go:69-75 | The loop is in the description part exactly when some line read so far is empty. |
| NotifyParse.BodyLinesAppend | wechat-notify-mailer.go:72-79 | Once an empty line has been read, every further line, empty ones too, is appended to the description with "\n". No other field changes, and the flag stays set. |
| NotifyParse.PlainLineAppends | wechat-notify-mailer.go:80-84 | In the header, a non-empty line without a colon is appended to the description with "\n" and changes nothing else. |
| NotifyParse.ColonLine | wechat-notify-mailer.go:80-101 | In the header, a line `key:value` is split at its first colon, so the value may hold more colons. The trimmed key selects the field, which is set to the trimmed value, and the description is emptied. The flag stays clear. |
| NotifyParse.UnknownKeyClearsDescription | wechat-notify-mailer.go:87-101 | A header line whose trimmed key is none of the six known keys empties the description and changes nothing else. |
| NotifyParse.TimestampLine | wechat-notify-mailer.go:88-89 | A `timestamp` header line sets the timestamp to `ParseInt` of the trimmed value, replacing any earlier value, and empties the description. |
| NotifyParse.FieldOf | wechat-notify-mailer.go:87-100 | A trimmed key names a field exactly when it is that field's key. `Other` means it is none of the six keys. |
| NotifyParse.SplitAtFirstColon | wechat-notify-mailer.go:80 | A line `key + ":" + value`, where `key` has no colon, splits into exactly `[key, value]`. |
| NotifyParse.StepInHeader | wechat-notify-mailer.go:80-101 | One iteration on a non-empty header line keeps the state equal to the reference description. |
| NotifyParse.StepInBody | wechat-notify-mailer.go:76-79 | One iteration after the separator keeps the state equal to the reference description, with the line added to the body. |
| NotifyParse.StepSeparator | wechat-notify-mailer.go:72-75 | The first empty line only sets the flag. The state stays equal to the reference description with an empty body. |
| GoText.TrimSpace | wechat-notify-mailer.go:67 | The result is no longer than the text, and neither starts nor ends with white space. |
| GoText.TrimSpaceSpec | wechat-notify-mailer.go:67 | Trimming removes an all-space prefix and an all-space suffix, and all of them: the input is prefix + result + suffix. |
| GoText.TrimSpaceEmpty | wechat-notify-mailer.go:103 | Trimming gives the empty string exactly when the text is all white space. |
| GoText.TrimSpaceIdempotent | wechat-notify-mailer.go:103 | Trimming twice is trimming once. |
| GoText.IndexByte | wechat-notify-mailer.go:80 | The search returns -1 exactly when the byte does not occur. Otherwise it returns the first index where it occurs. |
| GoText.IndexByteAt | wechat-notify-mailer.go:80 | An occurrence with none before it is the one the search finds. |
| GoText.SplitN2 | wechat-notify-mailer.go:80-81 | `SplitN(s, ":", 2)` gives one part, `s` itself, exactly when there is no colon. Otherwise it gives two parts joined by the first colon, the first of which holds no colon. |
| GoText.ScanLines | wechat-notify-mailer.go:67-70 | The scanner yields no line exactly when its input is empty. |
| GoText.ScanLinesNoNewline | wechat-notify-mailer.go:70-71 | No line the scanner yields holds a "\n". |
| GoText.DropCR | wechat-notify-mailer.go:70 | The scanner's `dropCR`: the line is kept, or it loses exactly one final "\r". It is kept exactly when it does not end in "\r". |
| GoText.ScanLinesStripCR | wechat-notify-mailer.go:67-71 | For any input, "\r" included, the lines joined with "\n" (and a final "\n" if the input had one) give the input with each "\r" removed that stands right before a "\n" or at the end, and nothing else removed. |
| GoText.ScanLinesJoin | wechat-notify-mailer.go:67-71 | For input without "\r" that does not end in "\n", the lines joined with "\n" give the input back. |
| GoStrconv.ScanUint | wechat-notify-mailer.go:89 | The digit loop returns a value only when every byte is a digit, and then it is their decimal value, at most the uint64 maximum. |
| GoStrconv.ParseUint | wechat-notify-mailer.go:89 | An empty string is a syntax error. A value is returned only for a non-empty run of digits, and it is their decimal value. |
| GoStrconv.ParseInt | wechat-notify-mailer.go:89 | The value is always within the int64 range. |
| GoStrconv.ParseIntExact | wechat-notify-mailer.go:89 | An optional sign followed by one or more decimal digits, in range, parses to its value. |
| GoStrconv.ParseIntClamps | wechat-notify-mailer.go:89 | A signed decimal number out of the int64 range gives the int64 maximum, or the minimum for a negative one. |
| GoStrconv.ParseIntMalformed | wechat-notify-mailer.go:89 | Each of these gives 0: an empty value, a lone sign, or a non-digit after the sign and the digits (before any overflow). |
| GoStrconv.ParseIntOverflowBeforeJunk | wechat-notify-mailer.go:89 | An optional sign and digits that overflow 64 bits before any non-digit clamp to the bound on the sign's side, the minimum after "-" and the maximum otherwise, whatever follows. |
| Nonce.RandomString | wechat-notify-mailer.go:107-116 | The result has as many characters as there are random bytes. Character i is `alphanum[bytes[i] % 62]`, so it is an ASCII letter or digit. |
| Nonce.AlphanumAt | wechat-notify-mailer.go:108 | The alphabet has 62 characters: the digits, then the upper-case letters, then the lower-case letters. |
| Nonce.PositionSpec | wechat-notify-mailer.go:108-113 | Position k of the alphabet holds c exactly when c is a letter or digit and k is its position. So every letter and digit appears once, and the byte with that value selects it. |
| Nonce.Letter | wechat-notify-mailer.go:108 | Every character of the alphabet is a letter or digit. |
| Signing.UrlEncode | wechat-notify-mailer.go:118-120 | The encoding holds only unreserved bytes, '%' and '+'. In particular it holds no '&' and no '='. |
| Signing.UrlEncodeIsRef | wechat-notify-mailer.go:118-120 | `urlEncode` equals a one-pass rewrite of its input: "%7E" becomes "~", "+" becomes "%2520", "*" becomes "%252A", and every other byte is escaped as `QueryEscape` escapes it. |
| Signing.ReplacementsAreSubstituted | wechat-notify-mailer.go:119 | The three `strings.Replace` calls, in their order, equal the one-pass substitution. The "%20" and "%2A" they insert never form a new "%7E". |
| Signing.SpecialBytesEncoded | wechat-notify-mailer.go:119 | Each "+" of the input comes out as "%2520" and each "*" as "%252A", because the '%' put in by the replacements is escaped again. A "~" is never percent-encoded. The parts around the byte are encoded on their own. |
| Signing.EncodedTildeDecoded | wechat-notify-mailer.go:119 | A "%7E" of the input comes out as "~". |
| Signing.EncodeRefAppend | wechat-notify-mailer.go:119 | The encoding of a concatenation is the encodings of the parts when the second part starts with neither '7' nor 'E'. That condition is what keeps a "%7E" from straddling the cut. |
| Signing.EscapeByte | wechat-notify-mailer.go:119 | `QueryEscape` writes a byte as itself exactly when it is unreserved. Otherwise it writes one byte or three, and only unreserved bytes, '%' and '+'. |
| Signing.QueryEscape | wechat-notify-mailer.go:119 | The escaped text is no shorter than the input and holds only unreserved bytes, '%' and '+'. |
| Signing.QueryEscapeRoundTrip | wechat-notify-mailer.go:119 | `QueryEscape` loses nothing: decoding its output as `url.QueryUnescape` does gives the input back. |
| Signing.QueryEscapeAppend | wechat-notify-mailer.go:119 | Escaping a concatenation escapes the parts. |
| Signing.ReplaceRemovesAll | wechat-notify-mailer.go:119 | `strings.Replace` of a single byte with -1 replaces every occurrence: none is left when the replacement holds none, and a text without the byte is returned as it is. |
| Signing.ReplaceLength | wechat-notify-mailer.go:119 | Replacing a single byte changes the length by the replacement's extra length once per occurrence of the byte, the occurrences being counted by the text's multiset. |
| Signing.ReplaceAppend | wechat-notify-mailer.go:119 | Replacing a single byte distributes over concatenation. |
| Signing.StringToSign | wechat-notify-mailer.go:141 | The string to sign starts with "POST&%2F&" and continues with the encoded query. Its only '&' are the two in that prefix. |

## Left out

- `Input.String` (wechat-notify-mailer.go:51-63) is not modelled. It executes an `html/template` and formats the timestamp in the local time zone, which is library behaviour with no logic of its own here.
- The HMAC-SHA1 digest and its base64 encoding (wechat-notify-mailer.go:140-142) are not modelled. `StringToSign` stops at the bytes that are signed.
- The seeding and reading of `math/rand` in `randomString` (wechat-notify-mailer.go:110-111) are not modelled. The random bytes are a parameter of `RandomString`.
- The assembly of the request parameters and `url.Values.Encode` (wechat-notify-mailer.go:123-139) are not modelled. The encoded query is a parameter of `StringToSign`.
- The HTTP request, its timeout and the handling of the response (wechat-notify-mailer.go:144-165) are not modelled. They are network I/O.
- `main` (wechat-notify-mailer.go:168-193) is not modelled. It reads arguments and standard input, writes to standard error and sets the exit status.
- `bufio.Scanner`'s 64 KiB limit on a line is not modelled. Lines are unbounded, whereas the source ignores the scanner's error and silently stops at such a line.
- Unicode white space is not modelled. `TrimSpace` removes ASCII white space only, whereas Go's `strings.TrimSpace` also removes Unicode spaces.
- `url.QueryEscape` is taken as its documented rule and is not verified against `net/url`. `Unescape` is written to follow `url.QueryUnescape`'s rules, only as the inverse the round trip is stated against.
- Signing.Replace: models `strings.Replace` only for a non-empty pattern, the only kind `urlEncode` passes. Go also defines replacement of the empty string. `Replace` carries no contract of its own; `ReplaceRemovesAll`, `ReplaceLength` and `ReplaceAppend` state what it does for the single-byte patterns.
- Signing.HexDigit: the hexadecimal table "0123456789ABCDEF" is written in closed form.
- Nonce.Alphanum: the 62-character literal is written as three literals joined in the same order. `AlphanumAt` gives its closed form.
- Nonce.RandomString: the buffer is an `array<char>` whose characters hold byte values. Go's `string(bytes)` conversion is the copy `bytes[..]`.
- GoStrconv.ParseInt: the error that `strconv.ParseInt` returns is not modelled, because `parse` discards it. Only the value is.
- NotifyParse.Parse: returns the record itself rather than a pointer to it.
