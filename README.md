# Email parsing core, modelled in Dafny

This project models two parts of an e-mail scraping tool.

- `utils/store_emails.py`. This has three pieces:
  - the file-name sanitiser;
  - the cleaner that digs a JSON document out of a language-model reply;
  - the store that appends one fixed-layout text block per parsed e-mail to `parsed_emails/<subject>.txt`.
- The per-message logic of `fetch_all_emails` in `demo.py`. For each message it:
  - picks the body part;
  - routes the message by its subject into regular e-mails or call records;
  - for a call, extracts the call time, meeting URL, attendees, agenda and client name with regular expressions;
  - collects both lists in mailbox order.

The project has five files:

- `wrappers.dfy` holds `Option`.
- `text.dfy` holds the Python string primitives the code relies on:
  - `str.isspace` and `str.strip`;
  - `str.replace`;
  - substring search;
  - ASCII lower-casing.
- `store_emails.dfy` models `utils/store_emails.py`.
- `meeting_patterns.dfy` models the five regular expressions of `demo.py:70-83`. Each becomes:
  - a scanner, which says what `re` returns;
  - a declarative match predicate.

  For the time, URL and address patterns, the match Python's backtracking engine reports is the longest match at the leftmost start, and the lemmas prove that each scanner returns exactly that match. The two label patterns have one group that always matches. Their match starts at the first occurrence of the keyword in any case, and `GroupSpan` describes group 1 declaratively. The lemmas prove that the value is Strip of that span.
- `fetch_emails.dfy` models the body selection, the routing, and the fetch loop.

Effects become values:

- The output directory is a map from path to file contents.
- `json.loads` and the `unicode_escape` codec are function parameters that return `None` where they raise.
- A fetched message arrives with its headers already decoded, or `None` where decoding raised.

## Model

| member | source | states |
|---|---|---|
| Text.Strip | utils/store_emails.py:7 | The result is the input with its leading and trailing whitespace removed, where whitespace is the set of `str.isspace`. It is never longer than the input. |
| Text.StripOfIsStrip | utils/store_emails.py:7 | `strip` is determined by what it must do: any string that is the input less leading and trailing whitespace, with no whitespace at either end, equals `Strip` of the input. |
| Text.StripStripped | demo.py:80 | Stripping a string that has no whitespace at either end returns it unchanged. |
| Text.FindFrom | utils/store_emails.py:13 | Returns the leftmost occurrence of the needle at or after the start index, or `None` exactly when none exists. |
| Text.Replace | utils/store_emails.py:18 | `str.replace` with a replacement no longer than the needle never lengthens the string. Its value is pinned down by ReplaceAbsent, ReplaceAtFirst and ReplaceRoundTrip. |
| Text.ReplaceAbsent | utils/store_emails.py:18 | A string in which the needle never occurs is returned unchanged. |
| Text.ReplaceAtFirst | utils/store_emails.py:18 | Replacement works from the leftmost occurrence: the text before it is kept, that occurrence becomes the replacement, and the rest after it is replaced in the same way. |
| Text.ReplaceRoundTrip | utils/store_emails.py:18 | Replacing the needle by a character absent from the text, then that character by the needle, gives the original text back. No information is lost. |
| Text.ReplacePairLeavesNoPair | utils/store_emails.py:18 | Replacing a two-character escape with one character that is neither of its characters leaves no occurrence of that escape. Escapes already absent stay absent. |
| StoreEmails.ReplaceReserved | utils/store_emails.py:7 | Every one of the nine reserved characters (the two angle brackets, colon, double quote, slash, backslash, vertical bar, question mark, asterisk) becomes `_`; every other character and the length are kept. |
| StoreEmails.SanitizeFilename | utils/store_emails.py:5-7 | The result has no reserved character and no surrounding whitespace. It is exactly the strip of the underscore-replaced name. |
| StoreEmails.SanitizeClean | utils/store_emails.py:5-7 | A name with no reserved character and no surrounding whitespace is returned unchanged. |
| StoreEmails.SanitizeIdempotent | utils/store_emails.py:5-7 | Sanitising twice gives the same name as sanitising once. |
| StoreEmails.FencedBlock | utils/store_emails.py:13 | The non-greedy DOTALL search for a ```` ```json ```` fenced block returns the leftmost opening fence and the nearest closing fence after it. It returns `None` exactly when no fenced block exists. |
| StoreEmails.FirstFenceIsUnique | utils/store_emails.py:13 | The block found is the first fenced block: leftmost opening fence with a closing one after it, then its nearest closing fence. Exactly one pair of positions has that property. |
| StoreEmails.Unfenced | utils/store_emails.py:13-15 | A reply without a fenced block is kept as it is. A reply with one gives the stripped text between the opening fence and the closing fence of its first block. |
| StoreEmails.FencedBlockOnly | utils/store_emails.py:13-15 | For a reply made of a prefix, a fenced block and a suffix, the cleaned text is the stripped inside of the fence, whatever the suffix holds. The prefix must hold no complete opening fence and the inside no closing fence. |
| StoreEmails.DropEscapes | utils/store_emails.py:18 | After the cleanup, no literal `\n`, `\r` or `\t` escape is left, and the text is no longer than before. |
| StoreEmails.DropEscapesKeepsClean | utils/store_emails.py:18 | A reply with none of the three escapes passes the cleanup unchanged. |
| StoreEmails.DropEscapesExample | utils/store_emails.py:18 | The four characters `a`, backslash, `n`, `b` become `a b`. |
| StoreEmails.ExtractValidJson | utils/store_emails.py:9-29 | The result is `None` when unescaping fails or when `json.loads` fails. Otherwise it is the document `json.loads` parses from the unescaped, cleaned reply. |
| StoreEmails.Decimal | utils/store_emails.py:53 | The decimal rendering of an index is a non-empty string of digits without leading zeros. |
| StoreEmails.DecimalRoundTrip | utils/store_emails.py:53 | Reading the decimal rendering back gives the number. |
| StoreEmails.FallbackStemIsClean | utils/store_emails.py:53-54 | The fallback subject `No_Subject_<idx+1>` is unchanged by sanitising. |
| StoreEmails.Dashes | utils/store_emails.py:71 | `'-' * n` is exactly n dashes. |
| StoreEmails.FlattenLineBreaks | utils/store_emails.py:60 | Each line feed and carriage return of the body becomes a space; every other character stays in place. |
| StoreEmails.ReplaceCharPointwise | utils/store_emails.py:60 | Replacing one character with another changes exactly the positions holding that character. |
| StoreEmails.SplitUnlines | utils/store_emails.py:63-72 | Joining single-line strings, each ended by a line break, and splitting the result at line breaks gives the lines back. |
| StoreEmails.BlockReadsBack | utils/store_emails.py:63-72 | Read back line by line, a stored block is nine lines in order:<br>- To, From, CC (default `N/A`), BCC (default `N/A`), Subject and Tags;<br>- `Body:`;<br>- the flattened body;<br>- an 80-dash rule.<br>This holds whenever the header values are single lines. |
| StoreEmails.EntryWriteSpec | utils/store_emails.py:47-72 | The contract of EntryWrite, one step of the store loop. An entry is skipped exactly when it is not a dict, or its subject or body is present but not a string. Otherwise:<br>- it is written to `parsed_emails/<sanitised subject>.txt`, or to `No_Subject_<idx+1>.txt` when it has no subject;<br>- the block it writes holds the flattened body. |
| StoreEmails.Writes | utils/store_emails.py:47 | Entry k is handled with index k, and every entry is handled. |
| StoreEmails.StoredStep | utils/store_emails.py:47-77 | Handling one more entry appends that entry's block, and only that block, to the result so far. |
| StoreEmails.ApplyStep | utils/store_emails.py:75-77 | Appending a block: a missing file becomes the block (mode `"w"`), an existing one gets the block after its old contents (mode `"a"`), and every other path is untouched. |
| StoreEmails.StoredContents | utils/store_emails.py:74-77 | After the loop, each file holds its old contents followed by the blocks of the entries written to it, in list order. A path exists afterwards iff it existed before or some entry wrote to it. |
| StoreEmails.StoreEntries | utils/store_emails.py:47-81 | The store loop leaves every file with its previous contents followed by the blocks appended to it, in entry order. Files nobody writes to are unchanged. |
| StoreEmails.StoreEmailsData | utils/store_emails.py:31-47 | A single dict is stored as a one-entry list. Input that is neither a list nor a dict leaves the directory unchanged. |
| MeetingPatterns.SearchFrom | demo.py:70 | `re.search` tries starts left to right: the result is the first start at or after `from` where the pattern matches, and `None` means it matches at no start. |
| MeetingPatterns.ClockEnd | demo.py:70 | `\d{1,2}:\d{2}` at a start has at most one end, and this is it. |
| MeetingPatterns.TimeTextSplit | demo.py:70 | Once the clock part `\d{1,2}:\d{2}` is fixed, the text from the start is a time text exactly when the rest is an allowed tail: nothing, one whitespace, `AM`/`PM` in any case, or a whitespace then `AM`/`PM`. |
| MeetingPatterns.TimeAtSound | demo.py:70 | The end the time scanner returns is a match of the pattern from that start. |
| MeetingPatterns.TimeAtComplete | demo.py:70 | Every match of the time pattern from a start ends no later than the scanner's end. |
| MeetingPatterns.TimeAtIsLongest | demo.py:70 | At one start, the time scanner returns a match, and the longest one, whenever one exists. |
| MeetingPatterns.TimeAtEverywhere | demo.py:70 | The time scanner is sound and longest at every start of the body. |
| MeetingPatterns.FindTime | demo.py:70 | The time search gives the leftmost start of a match and the longest match there. |
| MeetingPatterns.CallTime | demo.py:70-71 | The call time is `N/A` exactly when the body has no match of the time pattern. Otherwise it is the text of the match `re.search` reports, sliced from the body: the leftmost start, and the longest match at that start. |
| MeetingPatterns.SampleTimeAt | demo.py:70 | In `Let's meet at 3:30 PM tomorrow`, the time pattern matches `3:30 PM` at index 14. |
| MeetingPatterns.SampleNoEarlierTime | demo.py:70 | In that line, no match of the time pattern starts before index 14. |
| MeetingPatterns.SampleFindTime | demo.py:70 | The search finds the span 14..21 in that line. |
| MeetingPatterns.CallTimeExample | demo.py:70-71 | The call time extracted from that line is `3:30 PM`, with its meridiem. |
| MeetingPatterns.UrlAtSound | demo.py:73 | The end the URL scanner returns is a match of `https?://[^\s]+`. |
| MeetingPatterns.UrlAtComplete | demo.py:73 | Every URL match from a start ends no later than the scanner's end. |
| MeetingPatterns.UrlAtIsLongest | demo.py:73 | At one start, the URL scanner returns the longest match whenever one exists. |
| MeetingPatterns.UrlAtEverywhere | demo.py:73 | The URL scanner is sound and longest at every start. |
| MeetingPatterns.FindUrl | demo.py:73 | The URL search gives the leftmost start of a match and the longest match there. |
| MeetingPatterns.MeetUrl | demo.py:73-74 | The meeting URL is `N/A` exactly when the body has no URL match. Otherwise it is the text of the leftmost match, and the longest one at that start, sliced from the body. |
| MeetingPatterns.LastTldDot | demo.py:76 | Finds the last dot in range followed by two ASCII letters, so that the greedy domain part backtracks to it; `None` means there is none. |
| MeetingPatterns.EmailAt | demo.py:76 | An address match is at least six characters long and lies inside the body. |
| MeetingPatterns.EmailAtSound | demo.py:76 | The end the address scanner returns is a match of the address pattern. |
| MeetingPatterns.EmailAtComplete | demo.py:76 | Every address match from a start ends no later than the scanner's end. |
| MeetingPatterns.EmailAtEverywhere | demo.py:76 | The address scanner is sound and longest at every start. |
| MeetingPatterns.EmailAtAdvances | demo.py:76 | The address pattern never matches the empty string. So `findall` always moves forward. |
| MeetingPatterns.FindAllInOrder | demo.py:76 | Contract of FindAll, the loop of `re.findall`. Each pair `findall` returns is a match found at its start. The matches come in text order and do not overlap. |
| MeetingPatterns.FindAllCovers | demo.py:76 | Contract of FindAll. `findall` skips no match: every start where the pattern matches lies inside one of the returned matches. |
| MeetingPatterns.FindAllEmails | demo.py:76 | Every returned span is an address match inside the body. The spans come in order without overlap. |
| MeetingPatterns.FindAllEmailsEmpty | demo.py:76-77 | `findall` returns nothing exactly when the body contains no address. |
| MeetingPatterns.Attendees | demo.py:76-77 | The attendees are `["N/A"]` exactly when the body has no address. Otherwise they are the matched addresses, one per returned span, in order. |
| MeetingPatterns.RestOfLine | demo.py:79-80 | After a keyword ending at k, the result is Strip of group 1 of `[:\-]?\s*(.*)`: an optional `:` or `-`, then the whole whitespace run, then the text up to the next line break. It is one line without surrounding whitespace. |
| MeetingPatterns.GroupBounds | demo.py:79-80 | Computes the span of group 1 after a keyword, as GroupSpan describes it. |
| MeetingPatterns.LabelValue | demo.py:79-80 | A label is `N/A` when the keyword does not occur in any letter case. Otherwise it is Strip of group 1 after the first occurrence of the keyword, with the separator optional and the line ended by a line feed or the end of the body. It is one stripped line. |
| MeetingPatterns.FirstKeyword | demo.py:79 | The label search starts at the first case-insensitive occurrence of the keyword. |
| MeetingPatterns.RestOfLineIs | demo.py:79-80 | Any span meeting the group-1 description gives the value: RestOfLine is Strip of that span. |
| MeetingPatterns.LabelAt | demo.py:79-80 | For the first keyword occurrence and any span meeting the group-1 description after it, the label value is Strip of that span. |
| MeetingPatterns.LabelOnLine | demo.py:79-80 | `Agenda: <value>` (in any letter case, with `:` or `-`) as the first keyword occurrence gives exactly Strip of `<value>`. |
| MeetingPatterns.CrlfLabel | demo.py:79-80 | On a line ended by CRLF, `Agenda: Q3 review` gives `Q3 review`: the carriage return is taken by `.` and then stripped. |
| MeetingPatterns.LabelWithoutSeparator | demo.py:79-80 | With no separator, `agenda budget` gives `budget`. |
| MeetingPatterns.Agenda | demo.py:79-80 | The agenda is `N/A` when the body never mentions `agenda` in any case. Otherwise it is Strip of group 1 after the first mention. |
| MeetingPatterns.ClientName | demo.py:82-83 | The client name is `N/A` when the body never mentions `client` in any case. Otherwise it is Strip of group 1 after the first mention. |
| FetchEmails.FirstReadableFrom | demo.py:55-63 | The walk loop stops at the first part that is not an attachment and whose payload decodes; every part before it is skipped. |
| FetchEmails.BodyText | demo.py:53-65 | A single-part message gives its own decoded payload, `None` when decoding raises. A multipart message gives the text of its first readable part, and `""` when no part is readable. |
| FetchEmails.SelectBody | demo.py:53-63 | The loop's body is the text of the first readable part. An empty result means no part qualifies or the first one that does is empty. |
| FetchEmails.CallOf | demo.py:69-92 | A call record keeps the sender. Its attendees, client name, time, agenda and URL are exactly what the five extractors give for the body. |
| FetchEmails.Classify | demo.py:38-102 | A message goes to `calls` iff its lower-cased subject contains `meeting`, `call` or `invite`, and otherwise to `emails`. A regular e-mail keeps to, from, subject and body, with `N/A` for missing Cc/Bcc. Handling raises exactly when a header or the single-part body cannot be decoded. |
| FetchEmails.HandleMessage | demo.py:38-102 | The loop body routes one message as `Classify` does. It decides the subject test by checking the three words one after the other. |
| FetchEmails.FetchedStep | demo.py:31-102 | Handling one more message appends its record to exactly one of the two lists. |
| FetchEmails.FetchAllEmails | demo.py:31-113 | The fetch loop returns every e-mail and call record in mailbox order. If any message raises, it returns two empty lists. |
| FetchEmails.EveryMessageRouted | demo.py:68-102 | When no message raises, every message lands in exactly one list: the two lengths add up to the number of messages. |
| FetchEmails.RegularSubjectsAreNotCalls | demo.py:68 | No regular e-mail has a subject that mentions a meeting, a call or an invite. |
| FetchEmails.LowerAsciiAppend | demo.py:68 | Lower-casing distributes over concatenation. |
| FetchEmails.CallWordRoutes | demo.py:68 | A subject containing `Meeting`, `CALL`, `Invite` or any other casing of a call word is routed to `calls`. |

## Left out

- The IMAP session is outside the model: login, search, fetch, clearing the `\Seen` flag, close and logout (demo.py:8-31, 103-108). The messages arrive as a list, one per id.
- Header decoding with `decode_header` and the charset `decode` are library code. Each decoded header is an input, `None` where decoding raises.
- `json.loads` and `.encode('utf-8').decode('unicode_escape')` are library code. They are parameters of `ExtractValidJson`.
- StoreEmails.ExtractValidJson: returns `None` for any failure of the two parameters. It does not distinguish a `UnicodeEncodeError` (lone surrogates), which the source does not catch.
- `\d` and `\w`, including the word boundaries of the time pattern, are ASCII in the model. Python also counts other Unicode digits and letters.
- `str.lower()` is ASCII lowering in the model. For containment of `meeting`, `call` and `invite` the two agree. Only two non-ASCII characters lower to strings with ASCII letters. The Kelvin sign U+212A lowers to `k`, which is in none of the three words. U+0130 lowers to `i` followed by the combining dot U+0307, and in `meeting` and `invite` every `i` is followed by another letter of the word, so the dot breaks any match.
- Filesystem errors and `os.makedirs` are not modelled. Mode `"a"` and mode `"w"` on a missing file are one operation: append to the existing contents.
- `os.path.join` is taken with POSIX separators.
- `str()` of a non-string value is not modelled: such a value arrives with its rendering already made (`Other(shown)`). This covers the Python repr of a tags list.
- The progress and error messages are printed output and not modelled.
- imap.py, imap_v1.py and the language-model scripts are not part of this model.
- StoreEmails.SanitizeFilename: utils/store_emails.py:7 removes no `Re:`/`Fwd:` prefix and replaces no carriage return or line feed inside a file name, and the model does the same.
- StoreEmails.EntryWrite: has no contract of its own; its contract is EntryWriteSpec. utils/store_emails.py:47-81 skips only entries that are not dicts and entries whose subject or body is present but not a string; an entry missing either field is written with the fallback subject or an empty body.
- MeetingPatterns.FindAll: has no contract of its own; its contract is FindAllInOrder and FindAllCovers, which state `re.findall` (demo.py:76) for any scanner that always advances.
- StoreEmails.FormatBlock: has no contract of its own. Its content is stated by BlockReadsBack.
- MeetingPatterns.TimeAt: has no contract of its own. Its contract is TimeAtSound, TimeAtComplete and TimeAtIsLongest.
- MeetingPatterns.UrlAt: has no contract of its own. Its contract is UrlAtSound, UrlAtComplete and UrlAtIsLongest.
