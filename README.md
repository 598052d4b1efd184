# dms configuration reader and request layer, in Dafny

`dms` is a small command-line client for the Dead Man's Snitch monitoring
service. This project models two parts of it and proves their properties.

- **The configuration reader** (`src/readconf.c`).
  - `read_config_file` reads the configuration file with `fgets` into a
    1024-byte line buffer.
  - Each line goes to `process_config_line`.
  - `strdelim` cuts the keyword and its argument out of the line in place. It
    writes NULs, `memmove`s over an opening quote and moves a cursor.
  - `lowercase` folds the keyword.
  - `parse_token` recognises `dmsapikey` and `systemname`.
  - The argument is stored into the `Options` record.
- **The request layer** (`src/dms-crud.c`).
  - The download buffer grows with each chunk libcurl hands to the write
    callback and keeps a NUL after the data.
  - The upload buffer is read from a cursor that the seek callback moves.
  - Check-in, delete and pause each format their URL into a 256-byte array
    and return the transport code.

Files:

- `wrappers.dfy` holds `Option`. A C pointer that may be NULL is an
  `Option`.
- `readconf.dfy` (module `ReadConf`) has two layers.
  - The specification layer is pure. `StrDelim` maps an optional cursor to
    `Delimited(token, cursor)`. `ProcessLine` is a transition on `Options`.
    `FoldLines` folds `ProcessLine` over the chunks `fgets` returns.
  - The imperative layer works on `array<char>`: `Strlen`, `Strpbrk`,
    `SkipSpaces`, `ShiftDown` (the memmove), `Lowercase`, `StrDelimAt`,
    `ProcessConfigLine` and `ReadConfigFile`. Each except `ShiftDown` is
    proved equal to the specification function over the C strings held in
    the buffer. `ShiftDown` is specified by the characters it moves and the
    ones it leaves unchanged.
- `dms_crud.dfy` (module `DmsCrud`) has these parts.
  - `DownloadBuffer` and `UploadBuffer` are classes whose methods are the
    libcurl callbacks.
  - The seek callback's `size_t` arithmetic wraps modulo 2^64.
  - The URL builders are modelled together with the `snprintf` truncation
    to 255 characters.
  - `CheckIn`, `DeleteSnitch` and `Pause` take the HTTP exchange as a
    `transport` function from request to `(rc, status)`.

Where the code and its comments disagree, the model follows the code.

- The comment "Strip trailing whitepace" at `src/readconf.c:149` has no
  code behind it.
  - A blank line or one that starts with whitespace yields the empty
    keyword.
  - The empty keyword is classified as a bad directive
    (`LeadingDelimiterIsBad`).
- An argument that is present but empty is stored as `""`. The code only
  prints a notice for it (`EmptyArgumentStored`).
- A directive with no argument at all reaches `strdup(NULL)`.
  - `fgets` keeps the newline, so `dmsapikey` followed by a newline has the
    empty argument, which is stored as `""`.
  - The NULL argument arises in two cases.
  - The first is when the keyword's C string ends right after the keyword.
    That happens on the file's last line when it has no newline, or on a
    line with a NUL byte straight after the keyword. The parser sees only
    the text before the first NUL (`CString`).
  - The second is an argument whose quote is never closed.
  - `ProcessLine` returns `NullArgument` in both cases.
  - The file reader then ends in `Undefined(line)` instead of a result.
- `key=value`, `key = value` and `key value` are the same only for a bare
  keyword.
  - After a closing quote only blanks are skipped (`src/readconf.c:113`).
  - So in `"key"=value` the '=' is the argument's own delimiter, and the
    stored argument is `""` (`QuotedKeywordEquals`).

## Model

| member | source | states |
|---|---|---|
| `ReadConf.FindFirst` | src/readconf.c:102 | `strpbrk`: a found index is inside the string and its character is in the class (weaker: that it is the first is `FindFirstSpec`) |
| `ReadConf.FindFirstSpec` | src/readconf.c:102 | `strpbrk`: the index found is the first character of the class; when none is found, no character of the string is in the class |
| `ReadConf.SpanWhitespace` | src/readconf.c:124 | `strspn`: only that the span fits in the string (weaker: what it spans is `SpanWhitespaceSpec`) |
| `ReadConf.SpanWhitespaceSpec` | src/readconf.c:124 | `strspn`: the span is a run of blanks that is followed by a non-blank or by the end |
| `ReadConf.StrDelim` | src/readconf.c:92-129 | a NULL cursor gives a NULL token; a cursor is returned only for a non-NULL input; a NULL token comes with a NULL cursor |
| `ReadConf.EndQuoted` | src/readconf.c:106-116 | the quote branch returns a cursor only together with a token; a missing token means a missing cursor |
| `ReadConf.EndUnquoted` | src/readconf.c:118-128 | the unquoted branch always returns the text before the delimiter as the token, and always a cursor |
| `ReadConf.StrDelimAdvances` | src/readconf.c:92-129 | every cursor strdelim returns is a strict suffix of the input, so repeated calls end |
| `ReadConf.NoDelimiterExhausts` | src/readconf.c:97-104 | with no delimiter left, the token is the whole remainder and the cursor becomes NULL; the next call returns NULL |
| `ReadConf.QuotedToken` | src/readconf.c:106-116 | `p"q"` followed by blanks and the rest yields the token `p + q` verbatim; the cursor skips the blanks |
| `ReadConf.QuotedBeforeTail` | src/readconf.c:106-115 | after a closed quote the cursor is the tail with its leading blanks skipped, whatever the tail holds |
| `ReadConf.QuoteClosed` | src/readconf.c:107-115 | the quote branch alone: the opening quote is removed, the token ends at the closing quote, blanks after it are skipped |
| `ReadConf.UnterminatedQuote` | src/readconf.c:106-110 | an opening quote with no closing quote yields a NULL token and a NULL cursor |
| `ReadConf.SeparatorAbsorbed` | src/readconf.c:118-127 | `key w1 = w2 rest` yields `key` and leaves the cursor at `rest`; `key w1 rest` does the same when `rest` does not start with '=' |
| `ReadConf.EqualsForm` | src/readconf.c:118-127 | one '=' with optional blanks on either side is absorbed as the separator |
| `ReadConf.EqualsSeparator` | src/readconf.c:119-124 | `key=after` yields `key`; the cursor skips the blanks after the '=' and nothing else |
| `ReadConf.WhitespaceSeparator` | src/readconf.c:118-127 | after a blank separator, one '=' is absorbed and the blanks after it are skipped; without '=' the cursor stops at the next non-blank |
| `ReadConf.SeparatorScan` | src/readconf.c:118-127 | every separator form (blanks, or blanks '=' blanks) between the keyword and the rest yields the same token and cursor |
| `ReadConf.SecondEqualsNotAbsorbed` | src/readconf.c:118-126 | only one '=' is skipped: in `key = = more` the argument is the empty string |
| `ReadConf.ToLower` | src/readconf.c:89 | C-locale `tolower` never returns an upper-case ASCII letter; it changes only 'A'..'Z', each to the lower-case letter that `toupper` maps back |
| `ReadConf.Lower` | src/readconf.c:86-90 | lowercasing keeps the length |
| `ReadConf.LowerAt` | src/readconf.c:86-90 | each character is mapped through ASCII `tolower` and nothing else |
| `ReadConf.FoldsToWord` | src/readconf.c:86-90 | a string folds to a lower-case ASCII word exactly when it spells that word, letter by letter, in either case |
| `ReadConf.ParseToken` | src/readconf.c:131-137 | API_KEY exactly for "dmsapikey", SYSTEM_NAME exactly for "systemname", BAD for every other string including "" |
| `ReadConf.KeywordCaseInsensitive` | src/readconf.c:156-159 | a keyword selects API_KEY or SYSTEM_NAME exactly when it spells the directive name in any mix of cases |
| `ReadConf.InitialOptions` | src/readconf.c:52-57 | api_key and system_name are NULL and verbose is 0 |
| `ReadConf.ProcessLine` | src/readconf.c:139-179 | a processed line always returns 0 and prints at most one message, one of the three notices; the NULL-argument error only happens for a recognised directive |
| `ReadConf.ProcessLineSpec` | src/readconf.c:139-179 | every processed line returns 0. A bad keyword changes nothing and yields the "bad configuration directive" notice (no notice when there is no keyword). The NULL-argument error happens exactly for a recognised directive with a NULL argument. Otherwise the argument is stored in that directive's field, with a notice exactly when it is empty |
| `ReadConf.LeadingDelimiterIsBad` | src/readconf.c:150-176 | a line that starts with a blank or '=' has the empty keyword and is a bad directive that leaves the options unchanged |
| `ReadConf.UnrecognizedKeepsOptions` | src/readconf.c:174-178 | an unrecognised keyword leaves both fields unchanged and returns 0 |
| `ReadConf.EmptyArgumentStored` | src/readconf.c:163-172 | an empty argument is stored as "" and yields the "missing" notice of its directive |
| `ReadConf.SeparatorLine` | src/readconf.c:153-169 | with any separator form, the keyword is the folded key and the argument is the first token of the rest |
| `ReadConf.BareDirective` | src/readconf.c:153-172 | `key<sep>value` with trailing blanks gives the folded key and the argument `value`, with its case untouched |
| `ReadConf.QuotedDirective` | src/readconf.c:153-172 | `key<sep>"q"tail` gives the argument `q` verbatim, blanks included |
| `ReadConf.QuotedKeywordEquals` | src/readconf.c:111-114 | a quoted keyword followed directly by '=' has the lower-cased quoted text as its keyword and the empty argument |
| `ReadConf.QuotedArgument` | src/readconf.c:106-115 | a token that starts with a quote is the quoted text, whatever follows the closing quote |
| `ReadConf.SameTokensSameEffect` | src/readconf.c:139-179 | two lines with the same keyword and the same argument have the same effect on the options |
| `ReadConf.LineFormsAgree` | src/readconf.c:118-172 | `key=value`, `key = value`, `key value` and the quoted forms of each all have the same effect |
| `ReadConf.Fgets` | src/readconf.c:76 | every chunk `fgets` returns into the 1024-byte buffer is 1 to 1023 characters long |
| `ReadConf.FgetsLength` | src/readconf.c:76 | a chunk ends after the first newline, at the end of the file, or after 1023 characters, whichever comes first |
| `ReadConf.FgetsCoversFile` | src/readconf.c:76 | the chunks read by successive `fgets` calls, joined together, are the whole file |
| `ReadConf.CString` | src/readconf.c:77 | `strlen` of the buffer: a prefix of the buffer followed by a NUL, or the whole buffer when it has none |
| `ReadConf.Step` | src/readconf.c:76-81 | one loop iteration only appends to the message log; once the reader has stopped it stays stopped; it stops at the index of the line it is reading |
| `ReadConf.FoldLines` | src/readconf.c:76-81 | a loop over the lines that stops does so at one of those lines |
| `ReadConf.ReadConfig` | src/readconf.c:66-84 | undefined behaviour can only come from a line of a file that opened; a file read to the end returns 0 |
| `ReadConf.StepCountsLong` | src/readconf.c:77-78 | one iteration adds exactly one "line too long" when its line fills the buffer, and none otherwise |
| `ReadConf.TooLongPerLongLine` | src/readconf.c:76-78 | after any number of lines, "line too long" appears in the log exactly once for each line of 1023 characters |
| `ReadConf.FoldAborted` | src/readconf.c:76-81 | once the reader has stopped, further lines change nothing |
| `ReadConf.NeverBadConfiguration` | src/readconf.c:79-80 | "bad configuration" is never logged for any sequence of lines |
| `ReadConf.StepNeverBad` | src/readconf.c:79-80 | one loop iteration never adds "bad configuration" to a log that lacks it |
| `ReadConf.ProcessLineNotices` | src/readconf.c:139-179 | the notices of a processed line never include "bad configuration" |
| `ReadConf.ReadConfigStatus` | src/readconf.c:71-83 | the reader returns 1 exactly when the file cannot be opened and 0 exactly when it can; "bad configuration" never appears; an unopenable file leaves the options untouched and logs only "missing or unreadable" |
| `ReadConf.SnocKeepsField` | src/readconf.c:161-177 | a line whose directive is not `op` leaves `op`'s field as it was |
| `ReadConf.SnocSetsField` | src/readconf.c:161-172 | a line whose directive is `op` sets `op`'s field to that line's argument |
| `ReadConf.LastDirectiveWins` | src/readconf.c:76-81 | after the whole file, a field holds the argument of the last line that sets it |
| `ReadConf.Strlen` | src/readconf.c:107 | `strlen` returns the length of the C string held at the index |
| `ReadConf.Strpbrk` | src/readconf.c:109 | `strpbrk` over the buffer returns the index of the first character of the class in the held string, or NULL when there is none |
| `ReadConf.SkipSpaces` | src/readconf.c:113 | advancing by `strspn` lands after the blank run, and the rest of the string is still held there |
| `ReadConf.ShiftDown` | src/readconf.c:107 | the memmove moves the `n` characters after index `i` down by one and leaves everything before and after unchanged |
| `ReadConf.Lowercase` | src/readconf.c:86-90 | after the loop the buffer holds the lower-cased string, with the bytes before and after it unchanged |
| `ReadConf.DropOpeningQuote` | src/readconf.c:107 | after the memmove, the string at the token start has lost its opening quote and the text after the quote is held at the quote's index |
| `ReadConf.CloseQuote` | src/readconf.c:111-114 | writing NUL over the closing quote completes the quoted token; the cursor holds the text after the blanks that follow it |
| `ReadConf.EndQuotedAt` | src/readconf.c:106-116 | the in-place quote branch returns a token and a cursor exactly when `EndQuoted` does, and the buffer holds their strings at those indices |
| `ReadConf.EndUnquotedAt` | src/readconf.c:118-128 | the in-place unquoted branch leaves the buffer holding `EndUnquoted`'s token at the start and its cursor string at the new cursor, past the delimiter |
| `ReadConf.StrDelimAt` | src/readconf.c:92-129 | in-place strdelim returns a token and a cursor exactly when `StrDelim` does; the buffer holds `StrDelim`'s token and cursor strings at the returned indices |
| `ReadConf.StoreArgument` | src/readconf.c:162-173 | for a recognised directive, the second strdelim plus `strdup` store its argument and produce the notice, or give the NULL-argument error |
| `ReadConf.ProcessConfigLine` | src/readconf.c:139-179 | processing the buffer in place has the outcome `ProcessLine` gives for the C string the buffer held |
| `ReadConf.FillLine` | src/readconf.c:76 | `fgets` leaves the chunk in the line buffer followed by a NUL |
| `ReadConf.ConsumeLine` | src/readconf.c:76-79 | the loop reads the chunk's `strlen` and processes the chunk's C string |
| `ReadConf.LoopBody` | src/readconf.c:76-81 | one iteration of the loop is one `Step` of the fold |
| `ReadConf.ReadConfigFile` | src/readconf.c:66-84 | the reading loop gives exactly the outcome of folding `ProcessLine` over the file's `fgets` chunks, or 1 for a file that cannot be opened |
| `DmsCrud.ToSize` | src/dms-crud.c:100 | a cast to `size_t` gives a value below 2^64 and keeps values already in range |
| `DmsCrud.DownloadBuffer.constructor` | src/dms-crud.c:125 | the zero-initialised buffer has no storage and length 0 |
| `DmsCrud.DownloadBuffer.Write` | src/dms-crud.c:54-76 | on success the contents are the old contents followed by exactly the incoming bytes, `len` grows by `size*nmemb`, that amount is returned, and the byte at `len` is 0 in storage of `len+1` bytes; on allocation failure 0 is returned and `buf` and `len` are unchanged |
| `DmsCrud.Realloc` | src/dms-crud.c:66 | `realloc` gives a block of the requested size whose first bytes are the old block's |
| `DmsCrud.CopyInto` | src/dms-crud.c:72 | `memcpy` writes the bytes at the offset and leaves the rest of the block unchanged |
| `DmsCrud.DownloadBuffer.Free` | src/dms-crud.c:115-120 | a nonempty buffer is released and reset to NULL and 0; an empty one is left as it is |
| `DmsCrud.UploadChunk` | src/dms-crud.c:81-84 | the amount read is the smaller of the request and the bytes left; it is 0 exactly when either is 0 |
| `DmsCrud.UploadBuffer.constructor` | src/dms-crud.c:159-161 | the upload buffer starts with the request body, its length and the cursor at 0 |
| `DmsCrud.UploadBuffer.Read` | src/dms-crud.c:78-92 | `min(size*nmemb, len-pos)` bytes are copied from `buf[pos..]`, the cursor advances by that count, it stays within the body, and the rest of the destination is untouched |
| `DmsCrud.Replay` | src/dms-crud.c:78-92 | successive reads from `pos` never deliver more bytes than are left after `pos` |
| `DmsCrud.ReplayIsSlice` | src/dms-crud.c:78-92 | successive reads from `pos` deliver exactly the bytes from `pos` up to the total requested, in order |
| `DmsCrud.ReplayFromStart` | src/dms-crud.c:159-161 | reads from the start that ask for at least the body's length replay the whole body |
| `DmsCrud.SeekTarget` | src/dms-crud.c:98-110 | a seek succeeds exactly for SEEK_SET, SEEK_CUR and SEEK_END, and always lands on a `size_t` value |
| `DmsCrud.UploadBuffer.Seek` | src/dms-crud.c:94-113 | SEEK_SET, SEEK_CUR and SEEK_END return 0 and set the cursor to the target; any other origin returns 1 and leaves the cursor unchanged |
| `DmsCrud.SeekOriginsAgree` | src/dms-crud.c:98-107 | for a target inside the body, the three origins reach it from its absolute position, its distance from the cursor and its distance from the end |
| `DmsCrud.ModAdd` | src/dms-crud.c:103 | adding a negative offset through `size_t` wrap-around is ordinary subtraction while the result stays in range |
| `DmsCrud.SeekLeavesBody` | src/dms-crud.c:98-107 | there is no range check: SEEK_END can move past the body and SEEK_CUR can wrap below 0 to 2^64-1 |
| `DmsCrud.Snprintf` | src/dms-crud.c:197 | `snprintf` into 256 bytes keeps the first 255 characters and all of a shorter text |
| `DmsCrud.CheckInUrl` | src/dms-crud.c:197 | the check-in URL is at most 255 characters and a prefix of `https://nosnch.in/` + token; it is all of it when the token fits |
| `DmsCrud.DeleteUrl` | src/dms-crud.c:224 | the delete URL is at most 255 characters and a prefix of the API URL + '/' + token; it is all of it when the token fits |
| `DmsCrud.PauseUrl` | src/dms-crud.c:260 | the pause URL is at most 255 characters and a prefix of the API URL + '/' + token + `/pause`; it is all of it when the token fits |
| `DmsCrud.CheckInUrlRoundTrip` | src/dms-crud.c:197 | the check-in URL is `https://nosnch.in/` followed by the token; the token is recovered from it whole when it fits and cut at the room left when it does not |
| `DmsCrud.DeleteUrlRoundTrip` | src/dms-crud.c:224 | the delete URL is the API URL, '/', then the token; the token is recovered whole when it fits, cut when it does not |
| `DmsCrud.PauseUrlRoundTrip` | src/dms-crud.c:260 | the pause URL is the API URL, '/', the token, then `/pause`; the token is recovered when it fits, and a longer one cuts the URL at 255 characters and loses the suffix |
| `DmsCrud.CheckIn` | src/dms-crud.c:191-215 | a GET of the check-in URL without credentials; the transport code is returned unchanged; a warning is printed exactly when the status is not 202 |
| `DmsCrud.DeleteSnitch` | src/dms-crud.c:217-251 | a DELETE of the delete URL with the given credentials; the transport code is returned; a diagnostic only for a failed request with status 404 |
| `DmsCrud.Pause` | src/dms-crud.c:253-288 | a POST with an empty body to the pause URL with the given credentials; the transport code is returned unchanged; a warning exactly when the status is not 204 |
| `DmsCrud.StatusIgnored` | src/dms-crud.c:207-214 | the result of check-in, delete and pause depends on the transport code only, never on the HTTP status |
| `DmsCrud.UnexpectedStatusStillSucceeds` | src/dms-crud.c:281-287 | a transport success with an unexpected status still returns 0 from check-in and pause (with a warning); delete with status 404 but code 0 warns nothing |

## Left out

- File I/O. `fopen`, `fgets` and `fclose` are replaced by the file's text
  as `Option<string>`; `None` means the file cannot be opened. Messages
  written to stdout or stderr are kept as a log of `Diagnostic` values,
  not as text.
- `free_options` and the `memset(options, 'X', ...)` in
  `initialize_options`. They only manage memory, and every field that
  memset fills is overwritten straight afterwards.
- What happens after `strdup(NULL)`. It is undefined behaviour in C. The
  model stops at `NullArgument` / `Undefined` and does not guess further.
- ReadConf.Lower: states only the length. Its pointwise meaning is proved
  separately in `LowerAt`, to keep the recursive function cheap to use.
- ReadConf.FindFirst: states only that the index it finds is in range and
  in the class. That it is the first such index is proved separately in
  `FindFirstSpec`.
- ReadConf.SpanWhitespace: states only that the span fits in the string.
  Its meaning is proved in `SpanWhitespaceSpec`.
- ReadConf.ToLower: only the C locale's ASCII case folding is modelled.
  `tolower` in other locales is not.
- `dms_crud_create`, beyond the three callbacks it installs.
  - The POST itself, the headers and `json_loads` are libcurl and jansson
    calls.
  - The `Content-Length` header text `hdr_len` is never written before it
    is sent, so it has no defined value to model.
- DmsCrud.DownloadBuffer.Write: does not model the 64-bit wrap of
  `size * nmemb` or of `oldlen + len`.
  - It takes the byte count as the length of the incoming data.
  - libcurl never hands over more bytes than fit in memory.
  - The realloc is modelled as a fresh block plus a copy, so growing in
    place (the same pointer returned) is not distinguished.
- DmsCrud.UploadBuffer.Read: takes `size * nmemb` as an unbounded
  product. The 64-bit wrap of that multiplication is not modelled.
- DmsCrud.UploadBuffer.Read: requires `pos <= len`.
  - The C code has no such guard.
  - After a seek outside the body, `len - pos` would wrap and the copy
    would read out of bounds. The model does not read past the body.
  - `SeekLeavesBody` shows that seeks can break this condition.
- libcurl options: verbose, timeouts, TLS verification, `NOSIGNAL` and
  the error-string buffer. They configure a foreign library and hold no
  logic of their own.
- `src/dms.c` is not part of this model. It is command-line parsing, token
  file I/O and JSON handling.
