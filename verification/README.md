# A verified model of the CSV query server

The server loads a three-column CSV table at start-up. It then answers HTTP requests of the
form `GET /?query=<predicate> HTTP/1.1`:

- The predicate is a disjunction (`or`) of conjunctions (`and`) of comparisons
  `column op "target"`.
- The operator is one of `==`, `!=`, `$=` (equal ignoring ASCII case) and `&=` (contains).
- An atom without a column name compares against every cell.
- The reply is a fixed `200 OK` envelope. Its body is either an error message or the header line
  followed by every data row the predicate accepts, each written as `cell,cell,cell\n`.

This project models, in Dafny, the server's pure core and proves properties of it. The modelled
parts are:

- the CSV reader;
- the predicate parser;
- the evaluator;
- the request pipeline of `worker`;
- the response envelope;
- what the test client reads back out of a reply.

The modules follow the program's own structure:

| file | module | models |
|---|---|---|
| results.dfy | `Results` | `Option` and `Result` |
| sequences.dfy | `Sequences` | generic facts about sequence concatenation |
| text.dfy | `Text` | whitespace trimming; the C-string view of a buffer (text up to the first NUL) |
| csv.dfy | `Csv` | `readCSVRow`'s three-state scanner and `readCSV`'s line splitting |
| predicate_parser.dfy | `PredicateParser` | `valid_column_character`, `get_operator`, `parse_predicate` |
| parser_properties.dfy | `ParserProperties` | what the parser accepts: shape, round trip with a renderer, one lemma per error message |
| evaluator.dfy | `Evaluator` | `cmp_ignore_case`, `contains`, `check_operation`, `check_valid_column`, `get_column`, `check_predicates` |
| framing.dfy | `Framing` | `prepare_response`, `send_error`, the request-line scan, the client's receive buffer and header stripping |
| engine.dfy | `Engine` | the body of `worker`: parameter, parse, column check, row filter, body, reply |

How the code is modelled:

- **Parser.** `parse_predicate` walks an index `cur` through the parameter. Here every scanner
  takes the unread suffix and returns what remains after it. This is the same single forward
  pass.
- **Loops.** These loops are methods with loop invariants:
  - `cmp_ignore_case` and `contains`;
  - `check_predicates`;
  - the column check and the row scan in `worker`;
  - the body loop.

  Each method is proved equal to a reference function. The lemmas are stated about those
  reference functions. The other loops are recursive functions:
  - `readCSVRow`'s character loop is `Csv.RunFrom`;
  - the parser's loops are `PredicateParser.ParseFrom` and its helpers;
  - `check_valid_column`, `get_column` and the client's scan for the ninth '\n' are
    `Evaluator.ValidColumn`, `Evaluator.ColumnIndex` and `Framing.AfterHeader`.
- **Table rows.** A row has exactly three cells, which the server hard-wires.
- **`%s` and `strlen`.** Strings pass through C `%s` and `strlen`. This is modelled by
  `Text.CText`, the text before the first NUL.

## Model

| member | source | states |
|---|---|---|
| Text.Trim | server.cpp:46-49 | the field text is stripped of leading and trailing whitespace: the result is a slice of the input with only whitespace outside it and no whitespace at either end |
| Text.TrimUnique | server.cpp:46-49 | those facts determine the trimmed field: any such slice is the result |
| Text.TrimOccurrences | server.cpp:82-85 | trimming a field never adds a character, and it keeps every occurrence of a character that is not whitespace, so every quote |
| Text.CText | server.cpp:116 | the text `%s` copies is the longest NUL-free prefix, ending at the first NUL if there is one |
| Text.CTextOfNulFree | server.cpp:116 | a string with no NUL is copied whole |
| Csv.ScanInvariant | server.cpp:38-81 | after any prefix the scanner is inside a quoted field exactly when an odd number of quotes has been read, and is just after a closing quote exactly when the count is even and the last character is a quote; the fields emitted so far number the commas read outside quotes |
| Csv.FieldCount | server.cpp:38-87 | a line yields as many fields as it has unquoted commas, or one more; an empty line yields no field; a line ending in an unquoted comma yields no trailing empty field |
| Csv.LastField | server.cpp:44-86 | when the text after the last separator comma holds no ',' or '"', it becomes one more field, trimmed, exactly when it is not empty before trimming: `a,` reads as `a` alone, `a, ` as `a` and an empty field |
| Csv.QuotesComeFromEscapes | server.cpp:42-81 | after any prefix, the fields and the pending text hold exactly as many quote characters as the doubled `""` read inside quoted fields (a '"' right after a closing quote); the two quotes of an empty quoted field count for nothing |
| Csv.RowQuotes | server.cpp:42-86 | the fields of a line hold exactly as many quote characters as the line has doubled quotes inside quoted fields, and so none exactly when it has none (`a,"",b` yields no quote) |
| Csv.DroppedAfterClosingQuote | server.cpp:57-78 | after a closing quote the scanner waits in its quote state; a following character that is neither ',' nor '"' is dropped and scanning goes on unquoted with the pending text unchanged, whatever comes next |
| Csv.EncodeRoundTrip | server.cpp:38-87 | reading back a row of trimmed fields, each quoted only when it holds ',' or '"' with quotes doubled, gives the fields again (when the last field is not empty) |
| Csv.SplitLines | server.cpp:90-102 | every line `getline` yields is free of '\n' |
| Csv.SplitJoinLines | server.cpp:90-102 | splitting '\n'-terminated lines gives back exactly those lines |
| Csv.ReadJoinedLines | server.cpp:90-102 | a stream of '\n'-terminated lines reads as the table whose rows are those lines' fields |
| PredicateParser.SkipSpaces | server.cpp:186-189 | exactly the leading ' ' characters are skipped, and no other whitespace |
| PredicateParser.ScanColumn | server.cpp:194-198 | the column name is the longest prefix of ASCII letters and digits |
| PredicateParser.GetOperator | server.cpp:159-177 | an operator is recognised exactly when the next two characters are one of `==`, `!=`, `$=`, `&=` |
| PredicateParser.ScanTarget | server.cpp:226-246 | target scanning always consumes input, and fails only with the dangling-backslash or the missing-closing-quote error |
| ParserProperties.ParseShape | server.cpp:182-276 | a successful parse gives a disjunction of non-empty conjunctions whose column names are letters and digits |
| ParserProperties.RenderRoundTrip | server.cpp:182-276 | every such tree, written as `col op "target"` atoms joined by ` and ` and ` or ` with '"' and '\' escaped, parses back to itself |
| ParserProperties.BlankQueryIsEmpty | server.cpp:185-192 | a parameter of spaces only parses to the empty disjunction |
| ParserProperties.ScanMarked | server.cpp:226-246 | a backslash before any character stands for that character, so however a text is escaped the scanner adds exactly that text to the target |
| ParserProperties.TargetScanning | server.cpp:226-251 | the target is all the text up to the second unescaped quote with the two quotes removed, so text before the first quote belongs to it too; each backslash pair stands for its second character; scanning resumes right after the second quote |
| ParserProperties.TargetUnclosed | server.cpp:249-251 | a target with fewer than two unescaped quotes fails as unclosed |
| ParserProperties.TargetDanglingEscape | server.cpp:229-232 | a target ending in a lone backslash, before or after its opening quote, fails with the escape error |
| ParserProperties.ColumnAtEnd | server.cpp:199-201 | an atom that ends inside a column name fails the whole parse with "failed to parse predicate", whatever was parsed before it |
| ParserProperties.OperatorMissing | server.cpp:205-210 | an atom of a column name followed only by spaces fails the whole parse with "failed to find operator", whatever was parsed before it |
| ParserProperties.OperatorUnknown | server.cpp:212-215 | a column name followed by anything but the four operators fails the whole parse with "failed to parse operator", whatever was parsed before it |
| ParserProperties.TargetMissing | server.cpp:218-224 | an operator followed only by spaces fails the whole parse with "failed to find target", whatever was parsed before it |
| ParserProperties.TargetNotClosed | server.cpp:249-251 | an atom whose target, however escaped, has fewer than two unescaped quotes fails the whole parse with the "expected \"" message, whatever was parsed before it |
| ParserProperties.TargetEndsInBackslash | server.cpp:229-232 | an atom whose target, however escaped, ends in a lone backslash before or after its opening quote fails the whole parse with "parse failed", whatever was parsed before it |
| ParserProperties.ParseRenderedPrefix | server.cpp:257-270 | after a printed query the loop has closed every conjunction but the last, which stays open |
| ParserProperties.ParseAfterPrinted | server.cpp:257-270 | after a printed query, ` and ` goes on in the last conjunction and ` or ` closes it, so the next atom is parsed with the earlier conjunctions in hand and its error, if any, is the parse's result |
| ParserProperties.LaterColumnAtEnd | server.cpp:199-201 | a malformed second atom fails the parse even after a well-formed first one, discarding it |
| ParserProperties.ContinueAnd | server.cpp:268-270 | after an atom, ` and ` keeps adding to the current conjunction |
| ParserProperties.ContinueOr | server.cpp:264-267 | after an atom, ` or ` closes the current conjunction and starts a new one |
| ParserProperties.NoConnectiveMeansAnd | server.cpp:257-270 | two atoms separated only by a space are read as a conjunction |
| ParserProperties.ColumnReadAsOr | server.cpp:264-267 | when the second of two juxtaposed atoms has a column starting with `or`, those two letters are read as the connective and the rest as the column |
| Evaluator.LowerChar | server.cpp:301-302 | ASCII capitals map to their lower-case letters, and every other character is unchanged |
| Evaluator.CmpIgnoreCase | server.cpp:296-308 | two strings compare equal ignoring case exactly when they have the same length and agree position by position after lower-casing |
| Evaluator.IgnoreCaseEquivalence | server.cpp:296-308 | comparison ignoring case is reflexive, symmetric and transitive |
| Evaluator.IgnoreCaseWithoutLetters | server.cpp:296-308 | on strings without letters, comparison ignoring case is plain equality |
| Evaluator.Substr | server.cpp:314 | `substr(pos, count)` gives `s[pos..pos+count]` when that many characters are available, and the rest of the string from `pos` otherwise |
| Evaluator.ContainsText | server.cpp:311-319 | the scan finds the target exactly when it occurs as a contiguous substring of the cell |
| Evaluator.ContainsAsWritten | server.cpp:311-319 | with the loop bound computed in `size_t`, the scan answers correctly for targets at most one character longer than the cell, and throws for longer ones |
| Evaluator.CheckOperationOf | server.cpp:321-337 | `==` is equality, `!=` inequality, `$=` equal length and case-folded agreement, `&=` a substring occurrence |
| Evaluator.OperatorSemantics | server.cpp:321-337 | `!=` is the negation of `==`; `==` implies `$=` and `&=`; the empty target is contained in every cell; `$=` needs equal lengths and `&=` a target no longer than the cell |
| Evaluator.ValidColumn | server.cpp:287-294 | a column is valid exactly when it is one of the header's cells |
| Evaluator.ColumnIndex | server.cpp:339-348 | the index found is that of the first header cell equal to the name |
| Evaluator.CheckPredicates | server.cpp:350-365 | a conjunction accepts a row exactly when every atom does: a named atom on its column's cell, an unnamed one on any of the three cells |
| Evaluator.AnyColumnIgnoresHeader | server.cpp:356-359 | atoms without a column name do not depend on the header |
| Evaluator.TreeMonotone | server.cpp:421-427 | adding a conjunction to the disjunction can only accept more rows, and the empty disjunction accepts none |
| Framing.Decimal | server.cpp:113 | `%d` of a length is a non-empty digit string without a leading zero |
| Framing.DecimalRoundTrip | server.cpp:113 | the digits of `Content-Length` denote the body length |
| Framing.DecimalLength | server.cpp:113 | the length has at most k digits exactly when it is below 10^k |
| Framing.AllHeaderLines | server.cpp:106-114 | each of the nine envelope lines ends in "\r\n" and holds no other '\n' and no NUL |
| Framing.EnvelopeContents | server.cpp:104-117 | the envelope adds exactly nine '\n' before the body and no NUL |
| Framing.EnvelopeLength | server.cpp:104-117 | the envelope is 193 characters plus the digits of the length, plus the body |
| Framing.EnvelopeSplits | server.cpp:104-117 | the response is the fixed head followed by the body |
| Framing.HeadEnding | server.cpp:113-114 | the head ends with the blank line "\r\n\r\n" |
| Framing.LengthLineValue | server.cpp:113 | the `Content-Length` line carries a digit string whose value is the body length |
| Framing.StatusFirst | server.cpp:106 | every response starts with "HTTP/1.1 200 OK" |
| Framing.AfterEnvelope | client.cpp:58-73 | skipping past the ninth '\n' of a response lands exactly at the body |
| Framing.ClientRecoversBody | client.cpp:24-73 | the client reads back the body, cut at its first NUL, and nothing when that is empty; the response reaches the client whole when it is shorter than the 1024-byte buffer, and overruns the buffer otherwise |
| Framing.ClientReceive | client.cpp:24-60 | the client's `strlen` stops inside its buffer exactly when the reply is shorter than 1024 bytes or its first 1024 bytes hold a NUL, and then finds the reply up to its first NUL |
| Framing.ClientReceivesNulFree | client.cpp:24-60 | a NUL-free reply is received whole when shorter than the buffer, and overruns it otherwise |
| Framing.ReceivedReadsAsReply | client.cpp:55-73 | the header strip gives the same answer on the received text as on the reply |
| Framing.IndexOf | server.cpp:381-385 | the position found is that of the first occurrence, or the end when there is none |
| Framing.RequestTarget | server.cpp:370-378 | the text handed to `decode_url` is the slice of the line that starts at the first space and stops just before the next space |
| Framing.RequestTargetOfLine | server.cpp:370-378 | for a line `verb target rest` the server decodes `" " + target` |
| Framing.WorkerBufferOverflow | server.cpp:437-440 | the worker's buffer of body length plus 200 holds the response exactly when the body is under 10^6 characters |
| Framing.ResponseBufferSize | server.cpp:437-440 | the worker's `+ 200` widened by the digits of `Content-Length` holds the response, and is never smaller than the worker's |
| Framing.ErrorPacket | server.cpp:125-129 | an error packet is exactly 1024 characters and reads as the response up to its first NUL |
| Framing.ErrorPacketStatus | server.cpp:125-129 | an error packet starts with "HTTP/1.1 200 OK" too |
| Framing.ErrorPacketReads | server.cpp:125-129 | the NUL padding of an error packet is invisible to the client |
| Engine.ParamsAfterFirstEquals | server.cpp:381-393 | a parameter is found exactly when some '=' is not the last character, and it is the text after the first '=' |
| Engine.ParamAfterKey | server.cpp:381-393 | for `key=value` with no '=' in the key and a non-empty value, the parameter is the value |
| Engine.FindParam | server.cpp:381-393 | the scan for the first '=' finds a parameter exactly when an '=' is followed by at least one character |
| Engine.ValidateColumns | server.cpp:405-414 | the column check passes exactly when every named atom of every conjunction names a header cell |
| Engine.Select | server.cpp:417-431 | filtering never adds rows |
| Engine.SelectMembers | server.cpp:417-431 | a row is kept exactly when it is a data row that some conjunction accepts |
| Engine.SelectAppend | server.cpp:419-431 | rows are filtered one at a time, so filtering distributes over concatenation and keeps the table's order |
| Engine.SelectNothing | server.cpp:421-427 | the empty disjunction keeps no row |
| Engine.RowMatches | server.cpp:421-427 | the early-exit scan of the conjunctions accepts a row exactly when some conjunction does |
| Engine.FilterRows | server.cpp:417-431 | the rows kept are exactly the data rows the predicate accepts, in table order |
| Engine.RequestGates | server.cpp:381-414 | for a target `key=value`: an empty value is a missing parameter, a value that does not parse reports its parse error, and a parsed value is refused exactly when one of its atoms names a column that is not a header cell |
| Engine.NoEqualsSign | server.cpp:381-393 | a target without '=' is answered with the missing-parameter error |
| Engine.ErrorsIgnoreData | server.cpp:381-414 | whether a request fails, and with which error, does not depend on the data rows |
| Engine.AnswerRows | server.cpp:416-431 | a successful answer is the header followed by exactly the accepted data rows |
| Engine.BlankQueryAnswersHeader | server.cpp:381-431 | a query of spaces only answers with the header alone |
| Engine.WriteBody | server.cpp:433-436 | the body loop writes each row as its three cells joined by commas, with a '\n' after each row, in order |
| Engine.BodyIsJoinedLines | server.cpp:433-436 | the body is the rows' lines joined with '\n' terminators |
| Engine.CellsLineEncodes | server.cpp:435 | a row of clean cells is written exactly as the CSV encoder would write it |
| Engine.CleanLineReads | server.cpp:435 | the server's own reader gives back a row of clean cells from its written line |
| Engine.BodyRoundTrip | server.cpp:433-436 | reading the body back as CSV gives the answered rows, when their cells need no quoting |
| Engine.BodyNewlines | server.cpp:433-436 | the body holds exactly one '\n' per row |
| Engine.BodyNulFree | server.cpp:433-436 | a body built from NUL-free cells has no NUL, so `%s` copies it whole |
| Engine.MessageShape | server.cpp:381-414 | every error message is non-empty, shorter than 40 characters and NUL-free |
| Engine.ErrorFits | server.cpp:125-129 | every error response fits in the 1024-byte error buffer |
| Engine.ErrorReply | server.cpp:125-129 | every error reply is exactly 1024 characters |
| Engine.Reply | server.cpp:381-442 | every reply, error or rows, starts with the "HTTP/1.1 200 OK" status line |
| Engine.Serve | server.cpp:367-442 | a request line with two spaces gets a reply starting with the "200 OK" status line |
| Engine.ClientSeesError | client.cpp:24-73 | an error packet always fits the client's buffer, and the client reads exactly the error message out of it |
| Engine.ClientSeesRows | client.cpp:24-73 | the client reads exactly the body out of a rows reply, which reaches it whole only when shorter than 1024 bytes |
| Engine.AnswerRowsNulFree | server.cpp:416-431 | the answered rows of a NUL-free table are NUL-free |
| Engine.ClientSeesAnswer | client.cpp:24-73 | the client's buffer is overrun exactly when the answer is rows and the reply is 1024 bytes or longer; otherwise the client sees exactly the answer's text: the error message, or the header line and the accepted rows |
| Engine.Worker | server.cpp:381-442 | the worker sends the error packet of the first failing gate, or the envelope around the header and the accepted rows |

## Left out

- Sockets, `accept`, threads, `read` and `send` are not modelled. A request arrives as its request line and the reply is a string.
- `decode_url` and `trim_copy` live in utils.cpp, which is not part of this model.
  - `decode_url` is the parameter `decode` of `Engine.Serve`.
  - `trim_copy` is taken to strip the C `isspace` characters (space and '\t' to '\r') from both ends. This is `Text.Trim`.
- Logging (`print_predicate`, the `std::cout` lines) is left out, because it does not affect any reply.
- `process_request` is never called by `worker`, so it is left out.
- The "wrong format" usage message is left out, because no code path produces it.
- Csv.ReadCsv: `readCSV`'s stop on `bad()` or `fail()` is modelled only for end of input. The stream is a string split into lines.
- Tables whose rows are not exactly three cells wide are not modelled. `Evaluator.Row` has exactly the three cells the server indexes.
- Evaluator.ColumnIndex: `get_column`'s `exit(-1)` for an unknown column is a precondition instead. The column check in `worker` runs first, so it is never reached.
- Evaluator.ContainsAsWritten: requires both strings to be at most 2^31-1 characters, the range of the `int` counters.
- Engine.Serve: requires a request line with at least two spaces. The server's scan for them is unbounded and reads past its 1024-byte buffer otherwise.
- The raw 1024-byte request buffer, including its truncation of long requests, is not modelled.
- Engine.BodyRoundTrip: only for rows whose cells need no quoting, have no outer whitespace or '\n', and whose last cell is non-empty. The server writes cells unquoted, so other rows do not read back as written.
- Engine.ClientSeesAnswer: requires a table without NUL in any cell. A NUL would cut the reply short at `%s`.
- Integer widths are not modelled apart from the two places that matter:
  - the `int` and `size_t` arithmetic in `contains`;
  - the length digits in the envelope.
- Loading the table in `main` (opening the CSV file and storing it in `_database`) is not modelled. The table is the parameter `Engine.Table`, and `Csv.ReadCsv` is what `readCSV` would make of the file's text.
- The `size_t` result of `strlen` is printed with `%d`. The model prints the length as an unbounded natural number and ignores the mismatch of argument widths.
- The test client beyond its receive buffer and header stripping (request formatting, the test table) is not modelled.
- Framing.ClientReceive: the single `read` is taken to return the first 1024 bytes of the reply, or all of a shorter one. A short read, which TCP allows, is not modelled.
- Evaluator.CheckOperationOf: states the semantics of the corrected `contains` (`Evaluator.ContainsText`). As written, `&=` with a target at least two characters longer than the cell throws and ends the server; see the first row under Findings.
- Engine.Reply: built on the corrected `contains` and on a reply buffer sized from the envelope. As written, the `&=` case above aborts the server, and a body of 10^6 characters or more overflows the worker's buffer; see Findings.
- Engine.Serve: built on `Engine.Reply`, so it inherits the two corrections above.
- Engine.Worker: built on the same two corrections, so it does not show the abort or the buffer overflow of the source.

## Findings

| source | as written | input that shows it | evidently intended | confidence | as-written member | corrected member |
|---|---|---|---|---|---|---|
| server.cpp:311-319 | the loop bound `s1.size() - l2 + 1` is computed in `size_t`; for a target two or more characters longer than the cell it wraps to about 2^64, so `i` passes `s1.size()` and `substr` throws `std::out_of_range`, which nothing catches | the query `c1 &= "ab"` against a row whose `c1` cell is empty | the scan stops after the last start position, and a target longer than the cell is simply not contained | not executed | Evaluator.ContainsAsWritten | Evaluator.ContainsText |
| server.cpp:437-440 | the reply buffer is `body.size() + 200` bytes, but the envelope is 193 characters plus the digits of the length plus the closing NUL, so `sprintf` writes past the end | any answer whose body is 1,000,000 characters or longer | a buffer sized from the envelope actually written | not executed | Framing.WorkerBufferOverflow | Framing.ResponseBufferSize |

Two parser behaviours are kept as written rather than as findings:

- Two atoms separated only by a space form a conjunction (`ParserProperties.NoConnectiveMeansAnd`).
- A following column name that begins with `or` or `and` loses those letters to the connective (`ParserProperties.ColumnReadAsOr`).
