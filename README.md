# SimpleServer SMTP receiver, modelled in Dafny

This project models the two pieces of the SimpleServer SMTP receiver that hold its logic:

- **The message parser** (`EmailParser`). It is a total function from the decoded text of a raw message to a `ParsedEmail`, which holds:
  - seven typed headers;
  - a plain-text body and an HTML body;
  - the raw header map.

  Each regular expression of the parser becomes a hand-written scanner. The scanners follow Python's `re` closely, including how backtracking resolves `\s*` and the two alternatives of the address pattern:
  - multi-line `^` and `$`;
  - the case-insensitive label;
  - the first match by `re.search`;
  - the `boundary="…"` lookup;
  - the split on `--<boundary>`;
  - `str.strip`, `str.find` and `str.split`.
- **The per-connection dispatcher** (`SMTPServer._handle_client` and `_process_email`). The socket becomes two logs:
  - a sequence of receive events on the way in;
  - a log of replies on the way out.

  The server is a class whose fields are:
  - the reply log;
  - the loop's byte buffer;
  - its running flag;
  - the buffers handed to the parser;
  - the messages handed to the callback.

  `HandleClient` is the loop, with its branches written out. It is proved equal to a pure `Step`/`Run` specification. That specification is proved to keep an account of the whole connection:
  - the greeting comes first, then one reply per chunk;
  - every received byte either went to the parser in order or is still buffered;
  - the parser is called once per end-of-data chunk;
  - the callback receives the parser's results.

The files:

- `scanners.dfy` (module `Scanners`): `Option`, bytes, Python's whitespace, `Strip`, `Find`, `Split`/`Join`, and the case-insensitive label match.
- `email_parser.dfy` (module `EmailParser`): the data model, the scanners for each pattern, the functions that specify the parser, the two loops `ParseHeaders` and `ParseContent`, `Parse`, and the parser's properties.
- `smtp_server.dfy` (module `SmtpServer`): replies, the dispatch, `Step`/`Run`, the accounting invariant, and the class `Server`.

In three places the documented behaviour and the code disagree. The model follows the code:

- A body that is "present" need not be non-empty. A multipart part whose text after the blank line is whitespace stores `""`. A single-part message without a blank line has the plain body `""`, not an absent one.
- A line `<Header>: <value>` does not always yield `<value>`:
  - a From or To line whose value has neither the `… <…>` nor the `x@y` form does not match. `re.search` then goes on to the next From (To) line, and the value is `""` only when no line matches;
  - Message-ID needs the angle brackets;
  - Content-Type stops at the first `;`.

  `OneLineHeaderFound`, `MessageIdFound`, `AddressFound` and `BareAddressFound` give sufficient conditions under which the value comes back, stripped as `str.strip()` strips it. The line may come anywhere, provided no earlier line opens with the label, and the label may be in any letter case. Before a Message-ID or From/To value, the whitespace may be any whitespace, line breaks included. They do not describe every text that yields a given value.
- The value of the leading `\s*` may cross line breaks. For example, `Subject:` followed by a line break and then `x` gives the subject `x`.

## Model

| member | source | states |
|---|---|---|
| Scanners.Strip | email_parser.py:46-49 | `str.strip()`: the result has no leading or trailing Python whitespace, is empty exactly when the input is all whitespace, only holds characters of the input, and leaves a trimmed string unchanged |
| Scanners.StripIsInfix | email_parser.py:49 | the stripped value is a piece of the input with only whitespace on either side |
| Scanners.StripAfterSpace | email_parser.py:79 | whitespace in front of a text does not change what `str.strip()` returns |
| Scanners.Find | email_parser.py:75-76 | `str.find`: found exactly when the pattern occurs, and then at its lowest occurrence |
| Scanners.Split | email_parser.py:61 | `str.split` on a literal separator always gives at least one part |
| Scanners.SplitJoin | email_parser.py:61 | joining the parts of a split with the separator gives back the text |
| Scanners.SplitPartsFree | email_parser.py:61 | no part of a split contains the separator |
| Scanners.SplitOfJoin | email_parser.py:61 | the converse of `SplitJoin`: joining parts with the separator and splitting the result gives back those parts, when each part but the last meets the separator first at its own end and the last part does not hold it |
| Scanners.SplitCutsLeftmost | email_parser.py:61 | each cut is at the leftmost occurrence: a part followed by the separator meets it first at the part's end |
| EmailParser.RunGroup | email_parser.py:32-36 | the group of `Label:\s*([^stops]+)` is non-empty and holds no stop character |
| EmailParser.AngleGroup | email_parser.py:34 | the group of `Message-ID:\s*<([^>]+)>` is non-empty and holds no `>` |
| EmailParser.RunGroupMatches | email_parser.py:32-36 | `\s*([^stops]+)` matches at a position exactly when, after some whitespace from there, a character outside the stop set follows |
| EmailParser.RunGroupCapture | email_parser.py:32-36 | the capture lies after whitespace from the start and runs to the next stop character or the end of the text; it starts at the last position the backtracking `\s*` can leave for the group |
| EmailParser.AngleGroupCapture | email_parser.py:34 | the Message-ID capture is the text between a `<` that follows only whitespace and the next `>` |
| EmailParser.AngleGroupFails | email_parser.py:34 | the Message-ID pattern fails only when no `<` after the whitespace is followed, later, by a `>` other than the very next character |
| EmailParser.Bracketed | email_parser.py:30-31 | the first address alternative captures a piece of the text that ends with `>` and holds a `<` |
| EmailParser.BareAddress | email_parser.py:30-31 | the second address alternative captures a whitespace-free piece of the text holding `@` |
| EmailParser.AddressGroup | email_parser.py:30-31 | the From/To capture has no surrounding whitespace, and is a whitespace-free word holding `@`, or ends with `>` and holds a `<` |
| EmailParser.FirstMatch | email_parser.py:40 | `re.search` reports the lowest index where the pattern matches, or nothing when it matches nowhere |
| EmailParser.Search | email_parser.py:40 | the capture is absent exactly when there is no match, and otherwise is the capture at the first match |
| EmailParser.ExtractHeader | email_parser.py:39-49 | the value is trimmed, and is `""` when the header pattern does not match |
| EmailParser.ParseHeaders | email_parser.py:51-55 | the loop over the seven patterns builds the raw header map |
| EmailParser.RawMapEntries | email_parser.py:51-55 | the raw map has exactly the seven keys, each holding its header's value |
| EmailParser.HeaderMapKeys | email_parser.py:51-55 | `raw_headers` always has exactly the keys `from`, `to`, `subject`, `date`, `message_id`, `content_type`, `mime_version` |
| EmailParser.AbsentHeaderIsEmpty | email_parser.py:39-42 | a header whose label (in any case) starts no line yields `""` |
| EmailParser.OneLineHeaderValue | email_parser.py:32-36 | Subject, Date, MIME-Version and Content-Type values hold no CR or LF; Content-Type values hold no `;` |
| EmailParser.MessageIdValue | email_parser.py:34 | the Message-ID value never holds `>` |
| EmailParser.AddressHeaderValue | email_parser.py:30-31 | a From/To value is `""`, or a whitespace-free word holding `@`, or ends with `>` and holds a `<` |
| EmailParser.OneLineHeaderFound | email_parser.py:32-36 | for Subject, Date, MIME-Version and Content-Type: the label in any letter case, then any text `w` that is not all whitespace and holds no stop character (CR or LF; for Content-Type also `;`), then a stop character, after lines none of which opens with the label, yields `w` stripped |
| EmailParser.MessageIdFound | email_parser.py:34 | the label `Message-ID:` in any letter case, any whitespace, then `<id>` with `id` non-empty and free of `>`, after lines none of which opens with the label, yields `id` stripped, without the brackets |
| EmailParser.AddressFound | email_parser.py:30-31 | the label `From:` (or `To:`) in any letter case, any whitespace, `Name <addr>`, any whitespace and CR LF, after lines none of which opens with the label, yields exactly `Name <addr>`; `Name` may be empty, does not open with whitespace and holds no `<`, CR or LF, and `addr` is non-empty without `>` |
| EmailParser.BareAddressFound | email_parser.py:30-31 | the label `From:` (or `To:`) in any letter case, any whitespace, a word `user@host` without whitespace or `<` and with an `@` that is neither first nor last, any whitespace and CR LF, after lines none of which opens with the label, yields exactly the word |
| EmailParser.BoundaryAt | email_parser.py:92 | the boundary pattern captures `b` at an index exactly when `boundary="b"` is written there, with `b` non-empty and free of quotes |
| EmailParser.BoundaryDetection | email_parser.py:92-93 | no boundary is found exactly when none is declared; otherwise the first declaration supplies it |
| EmailParser.NoQuoteNoBoundary | email_parser.py:92 | a text without a quote character declares no boundary |
| EmailParser.SectionOf | email_parser.py:63-79 | a part is skipped exactly when it is all whitespace, has no `Content-Type:` match, or has no blank line; otherwise its content type and body are trimmed |
| EmailParser.FirstBlankLine | email_parser.py:75 | `find` reports the blank line that follows a head, when no other blank line lies in the head or overlaps its end |
| EmailParser.SectionFound | email_parser.py:63-79 | a part made of a head, its first blank line and a rest gives the trimmed capture of its first `Content-Type:` match as its type and the trimmed rest as its body |
| EmailParser.Delimiter | email_parser.py:61 | the separator `--<boundary>` is two characters longer than the boundary, so it is never empty, as `str.split` needs |
| EmailParser.ParseContent | email_parser.py:57-86 | the loop over the parts computes the last-wins content of the split |
| EmailParser.AbsorbBody | email_parser.py:81-84 | one part changes the body of a kind exactly when its trimmed content type is exactly `text/plain` or `text/html` for that kind |
| EmailParser.LastQualifyingPartWins | email_parser.py:57-86 | a body is `None` exactly when no part qualifies for it, and otherwise is the trimmed body of the last part that qualifies |
| EmailParser.SinglePartAfterFirstBlankLine | email_parser.py:110-112 | single-part: the plain body is exactly the untrimmed text after the first blank line, and there is no HTML body |
| EmailParser.SinglePartWithoutBlankLine | email_parser.py:110-112 | single-part without a blank line: the plain body is `""` |
| EmailParser.TypedHeadersMatchRaw | email_parser.py:96-107 | each typed header equals its raw map entry, and the raw map has the seven keys |
| EmailParser.ContentChoice | email_parser.py:92-93 | the content is single-part when no boundary is declared, and multipart on the first declared boundary otherwise |
| EmailParser.Parse | email_parser.py:88-117 | `parse` returns the model's message for the decoded text |
| EmailParser.ExampleSubject | email_parser.py:32 | `Subject: hi`, a blank line and `Body text` has the subject `hi` |
| EmailParser.ExampleNoBoundary | email_parser.py:92-93 | that message declares no boundary |
| EmailParser.ExampleBody | email_parser.py:110-112 | that message has the plain body `Body text` and no HTML body |
| SmtpServer.Code | smtp_server.py:28-56 | every reply code is 220, 250, 354 or 221 |
| SmtpServer.ReplyShape | smtp_server.py:28-56 | each reply is a line that opens with its code and a space and ends with CRLF; only the greeting has code 220, and only the `QUIT` reply has 221 |
| SmtpServer.GreetingText | smtp_server.py:28 | the greeting is exactly `220 mail.example.com SMTP SimpleServer` and CRLF |
| SmtpServer.HelloText | smtp_server.py:41 | the `HELO`/`EHLO` reply is exactly `250 Hello` and CRLF |
| SmtpServer.OkText | smtp_server.py:43-45 | the `MAIL FROM`, `RCPT TO` and fallback reply is exactly `250 OK` and CRLF |
| SmtpServer.DataPromptText | smtp_server.py:47 | the `DATA` reply is exactly `354 End with <CR><LF>.<CR><LF>` and CRLF |
| SmtpServer.AcceptedText | smtp_server.py:50 | the end-of-data reply is exactly `250 Message accepted` and CRLF |
| SmtpServer.ByeText | smtp_server.py:53 | the `QUIT` reply is exactly `221 Bye` and CRLF |
| SmtpServer.Dispatch | smtp_server.py:40-56 | the branch taken is one whose test holds on the current chunk, and no test earlier in the order holds |
| SmtpServer.DispatchIsFirstFiring | smtp_server.py:40-56 | the branch taken is exactly the first one in the fixed order whose test holds |
| SmtpServer.Step | smtp_server.py:32-60 | one iteration ends the loop exactly on a failed read, an empty read or the `QUIT` branch |
| SmtpServer.Run | smtp_server.py:31-60 | the loop is still running after the events exactly when none of them ends it |
| SmtpServer.Chunks | smtp_server.py:33-54 | the chunks the loop reads are non-empty |
| SmtpServer.StepBuffer | smtp_server.py:37-51 | a chunk gets exactly its branch's reply; the buffer grows by the chunk, except in the end-of-data branch, which hands the buffer with the chunk to the parser and empties it; the parser is called nowhere else |
| SmtpServer.DataBeatsTerminator | smtp_server.py:46-49 | a chunk starting with `DATA` gets 354 and never reaches the parser, even when it holds the end-of-data marker |
| SmtpServer.TerminatorBeatsQuit | smtp_server.py:48-54 | a chunk starting with `QUIT` that holds the marker is accepted as a message, and the session goes on |
| SmtpServer.StepAccounts | smtp_server.py:37-56 | each iteration keeps the connection's account |
| SmtpServer.RunAccounts | smtp_server.py:31-60 | the loop keeps the account over the chunks it reads |
| SmtpServer.SessionAccounts | smtp_server.py:25-62 | over a whole connection: the greeting comes first, then one reply per chunk read; every byte read went to the parser in order or is still buffered; the parser ran once per end-of-data chunk, each time on a buffer holding the marker; the callback got each result; the loop still runs only if no chunk was `QUIT` |
| SmtpServer.SplitChunksBuffered | smtp_server.py:37-51 | two chunks that each lack the end-of-data marker, the first not `QUIT`, both stay in the buffer and get their branches' replies, and the parser is not called, even when the marker spans the two |
| SmtpServer.SplitTerminatorUnseen | smtp_server.py:48 | for example, `hi` CRLF then `.` CRLF leaves the whole message, marker and all, in the buffer, and the parser is not called |
| SmtpServer.Server.constructor | smtp_server.py:9-15 | a new server has sent nothing, buffers nothing and has handed nothing on |
| SmtpServer.Server.ProcessEmail | smtp_server.py:65-75 | the buffer is parsed, and the result goes to the callback only when there is one |
| SmtpServer.Server.HandleClient | smtp_server.py:25-63 | the loop ends in the state the specification `Run` gives for the events after the greeting, and keeps the connection's account |

## Left out

- `SMTPServer.start` (smtp_server.py:77-94): socket creation, bind and listen, the accept loop and `KeyboardInterrupt` are operating-system I/O.
- `recv` and `sendall` become the event sequence and the reply log.
  - The 1024-byte bound of `recv` is not modelled. Chunks may have any length.
  - A failing `recv` is the `Failed` event, which ends the loop as the `except` clause does.
  - A failing `sendall` is not modelled.
  - `client_socket.close()` is the running flag going false.
- Logging (`_setup_logging` and every `self.logger` call) has no effect on the state and is left out, including the decoding of chunks for log lines.
- The callback itself is not modelled. The model records the messages handed to it; what the callback does, and any exception it raises, is not part of this model. The parser is total here, so the `except` in `_process_email` never fires in the model. Either way, `250 Message accepted` is sent and the buffer is cleared.
- UTF-8 decoding with `errors='ignore'` is the function parameter `decode` of `Parse` and `Server`. It is not modelled.
- `host`, `port` and the parser instance in `SMTPServer.__init__` are configuration with no effect on a connection.
- `example.py` and the unused imports are left out.
- EmailParser.ExtractHeader: `re.IGNORECASE` is modelled as ASCII case folding. Python also matches a few non-ASCII characters against ASCII letters of a label, namely U+017F (long s) against `s`, in `Subject`, `Message-ID` and `MIME-Version`, and U+0130 and U+0131 (dotted and dotless I) against `i`, in `Message-ID` and `MIME-Version`. Labels spelt with these characters match in Python but not in the model.
- EmailParser.LastQualifyingPartWins: there is no concrete multipart example such as two parts with boundary `XYZ`. The general last-wins lemma covers the behaviour over any list of parts. `SplitOfJoin` and `SplitCutsLeftmost` tie that list to the text: joining parts with `--XYZ` and splitting gives back those parts, when each part but the last meets the separator first at its end. But no concrete text is worked through.
- EmailParser.HeaderMap: a Python `dict` keeps its keys in insertion order (`from`, `to`, `subject`, …); a Dafny `map` has no order, so the model states the keys and values of `raw_headers` but not the order in which they are listed.
