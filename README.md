# A Dafny model of the rustis server core and its benchmark scripts

rustis is a small Redis-like server written in Rust. Each connection has a
reader and a writer:

- The reader numbers the RESP2 frames it parses, 1, 2, 3, ... .
- The router checks the shape of each frame. It then answers the frame itself or
  forwards it to the worker that owns the frame's key; the owner is the key's hash
  modulo the worker count.
- A worker's command handler answers PING, GET and SET from its typed key-value
  store.
- The writer keeps the replies, which can arrive in any order. It releases them in
  request order, serialised as RESP2.

Two Python scripts go with the server:

- `benchmark.py` runs the load tool. It scrapes lines of the form "SET: 1234.5
  requests per second, p50=0.2 msec" out of the tool's output and appends them as
  7-field rows to a CSV log.
- `generate_report.py` compares one label of that log with a baseline label, row by
  row.

The project has one module per source file:

| module | file | models |
|---|---|---|
| `Wire` | wire.dfy | bytes, `Option`, ASCII upper-casing and `eq_ignore_ascii_case` |
| `Kv` | kv.dfy | `src/kv.rs`: the class `KvStore` over `map<Bytes, RedisValue>`, and `resolve_range` |
| `Message` | message.dfy | `src/message.rs`: `ResponseValue`, the spec function `Encode`, and `Serialize` appending to a `WriteBuffer` |
| `Router` | router.dfy | `src/router.rs`: `route_message` and `extract_key`, returning an `Outcome` |
| `Handler` | handler.dfy | `src/handler.rs`: the class `CommandHandler` over a `KvStore` |
| `Connection` | connection.dfy | `src/connection.rs`: the writer's reorder buffer (class `ReorderBuffer`) and the reader's numbering |
| `Report` | report.dfy | `generate_report.py`: unique labels, baseline lookup, join, `format_change`, the ALL loop |
| `Benchmark` | benchmark.dfy | `benchmark.py`: the pattern search, row scraping, the CSV log (class `CsvFile`), labels, suite order |

Operations that change state in place are methods of classes, or methods with
loops. Each one is proved against a specification function, and the properties of
those functions are proved as lemmas.

## Model

| member | source | states |
|---|---|---|
| Kv.NumToPop | src/kv.rs:92 | the number popped is min(len, count) for count ≥ 0; a negative count wraps (`as usize`) and pops everything |
| Kv.ResolveRange | src/kv.rs:31-45 | result indices are ordered and inside the list; an in-range ordered request is kept, negative indices counted from the end; the clamped pair is returned, or the sentinel (0, 0) when inverted after clamping |
| Kv.LRangeOf | src/kv.rs:154-171 | empty for an empty list, otherwise a contiguous slice of 1 to len elements |
| Kv.LRangeWhole | src/kv.rs:145-174 | LRANGE 0 -1 returns the whole list |
| Kv.LRangeInRange | src/kv.rs:159-171 | an in-range ordered request returns exactly the elements from start to stop |
| Kv.LRangeInvertedGivesFirst | src/kv.rs:159-171 | a request inverted after clamping returns just the first element |
| Kv.LRangeInvertedExample | src/kv.rs:159-171 | LRANGE 2 1 on [a, b, c] returns [a] |
| Kv.LRangeIntended | src/kv.rs:31-45 | the intended reply: the elements between the normalised indices, cut to the list; empty iff the range is empty |
| Kv.LRangeWrittenVsIntended | src/kv.rs:159-171 | the written reply equals the intended one when that is non-empty, and is the first element otherwise |
| Kv.ReversedMultiset | src/kv.rs:78-80 | pushing to the front loses no value: the reversal is a permutation |
| Kv.PushEachFront | src/kv.rs:78-80 | the `push_front` loop yields reverse(values) ++ old list |
| Kv.PushEachBack | src/kv.rs:116-118 | the `push_back` loop yields old list ++ values |
| Kv.InsertCounting | src/kv.rs:187-193 | the insert loop yields old set ∪ values, and counts exactly the values not yet members, repeats counted once |
| Kv.KvStore.constructor | src/kv.rs:48-52 | a new store holds no key |
| Kv.KvStore.Set | src/kv.rs:54-62 | the key holds String(v) afterwards, whatever it held; no other key changes |
| Kv.KvStore.Get | src/kv.rs:64-67 | the stored value of any type, or None iff the key is missing |
| Kv.KvStore.LPush | src/kv.rs:69-85 | WrongType with the store unchanged on a non-list; otherwise the list becomes reverse(values) ++ old and the reply is old length + number of values; a missing key starts empty |
| Kv.KvStore.LPop | src/kv.rs:87-105 | WrongType or empty reply with the store unchanged; otherwise the first min(count, len) elements, the rest kept, the key deleted iff the list ends empty |
| Kv.KvStore.RPush | src/kv.rs:107-123 | as LPush, with the values appended in order |
| Kv.KvStore.RPop | src/kv.rs:125-143 | the last min(count, len) elements in list order; the rest kept; the key deleted iff the list ends empty |
| Kv.KvStore.LRange | src/kv.rs:145-174 | WrongType on a non-list, empty for a missing key, otherwise `LRangeOf` of the list |
| Kv.KvStore.SAdd | src/kv.rs:176-197 | WrongType with the store unchanged on a non-set; otherwise the set becomes old ∪ values and the reply counts the new members |
| Kv.KvStore.SPop | src/kv.rs:199-224 | min(count, size) distinct members, chosen arbitrarily, all from the set; the set loses exactly them; the key deleted iff the set ends empty |
| Kv.KvStore.SMembers | src/kv.rs:226-237 | every member exactly once; WrongType on a non-set; empty for a missing key |
| Message.Decimal | src/message.rs:44 | `to_string` of a length: non-empty, all digits, no leading zero |
| Message.DecimalRoundTrip | src/message.rs:44 | reading the digits back gives the number |
| Message.DecimalInjective | src/message.rs:44 | different numbers never share a text |
| Message.IntegerText | src/message.rs:35 | a leading '-' iff negative, then the digits of the absolute value |
| Message.EncodeFraming | src/message.rs:21-61 | every encoding starts with its kind's byte (+ - : $ *) and ends with CRLF |
| Message.EncodeAllEndsWithCrlf | src/message.rs:56-58 | a non-empty item list's encoding ends with CRLF |
| Message.EncodeTagDeterminesKind | src/message.rs:21-61 | the first byte tells the kind of the value |
| Message.EncodeAllSnoc | src/message.rs:56-58 | one more item appends exactly its encoding |
| Message.Serialize | src/message.rs:21-61 | `dst` becomes old contents ++ Encode(v): it only appends |
| Message.SerializeLine | src/message.rs:23-38 | the simple-string, error and integer arms: type byte, text, CRLF |
| Message.SerializeBulk | src/message.rs:42-48 | '$', the length in decimal, CRLF, the data, CRLF |
| Message.SerializeArray | src/message.rs:52-59 | '*', the item count in decimal, CRLF, the items' encodings in order |
| Message.SerializeItems | src/message.rs:56-58 | the item loop appends the items' encodings in order |
| Message.WriteBuffer.PutSlice | src/message.rs:25 | `put_slice` appends the bytes |
| Message.WriteBuffer.Clear | src/connection.rs:93 | `clear` empties the buffer |
| Wire.AsciiUpper | src/handler.rs:31 | upper-casing keeps the length and maps a..z to A..Z, byte by byte |
| Wire.EqIgnoreCaseIsUpperEq | src/router.rs:95-101 | against an upper-case name, `eq_ignore_ascii_case` is equality after upper-casing |
| Router.RouteMessage | src/router.rs:8-62 | with workers, exactly one message goes out, carrying the frame's number; a worker only gets the unchanged frame, with an index in range |
| Router.ExtractKey | src/router.rs:82-112 | yields a key exactly for a frame a worker should receive (bulk command other than PING/CONFIG, bulk key), and that key is the second item; everything else is answered with an `Error` value |
| Router.ForwardedIffKeyed | src/router.rs:30-61 | a frame goes to a worker iff it is keyed, and then to hash(key) mod workers; otherwise the reply goes to the writer |
| Router.KeyedNoWorkerPanics | src/router.rs:37-40 | with no worker mailbox, a keyed frame reaches `hash % 0` and the router panics |
| Router.Rejections | src/router.rs:15-27 | non-array, empty array and non-bulk command get their fixed error texts under the frame's number |
| Router.PingAndConfigIntercepted | src/router.rs:95-101 | PING and CONFIG in any case are answered by the router with the Error values "PONG" and "" |
| Router.MissingKeyRejected | src/router.rs:103-109 | a missing or non-bulk key gets "error while parsing key" |
| Handler.CommandHandler.constructor | src/handler.rs:12-14 | the handler works on the store it is given |
| Handler.CommandHandler.ProcessCommand | src/handler.rs:16-66 | the reply and the new store are `Respond(Classify(value), old store)`; the store keeps holding strings only |
| Handler.CommandHandler.HandleGet | src/handler.rs:68-74 | the stored string, or the null bulk string for a missing key |
| Handler.CommandHandler.HandleSet | src/handler.rs:76-81 | stores the string and replies with the bulk string "OK" |
| Handler.OnlySetWrites | src/handler.rs:36-65 | only SET changes the store, and it adds exactly its key |
| Handler.HandlerRejections | src/handler.rs:16-66 | a non-array, an empty array, a non-bulk command and an unknown command get "request must be array", "empty request", "command must be bulk string" and "invalid command", with the store unchanged |
| Handler.SetThenGet | src/handler.rs:47-74 | after SET k v, GET k gives v; GET of another key is unaffected |
| Handler.GetMissing | src/handler.rs:68-71 | GET of an unset key gives the null bulk string |
| Handler.CommandCaseInsensitive | src/handler.rs:29-36 | the command is matched after upper-casing, in any case |
| Handler.SetWithoutValue | src/handler.rs:47-62 | SET without key or value is the key error, not an arity error |
| Handler.ForwardedFrames | src/handler.rs:16-65 | a frame the router forwards passes the handler's array, empty and bulk checks and is not PING: it reads as GET or SET of the very key the router hashed, as a key error, or as an invalid command |
| Handler.SameKeySameWorker | src/router.rs:38-41 | every GET and SET of one key goes to the same worker |
| Connection.Run | src/connection.rs:86-89 | the drain loop releases something iff the number after the last written one is held; what it releases is stated by RunConsecutive |
| Connection.RunConsecutive | src/connection.rs:86-89 | the released run holds exactly the replies under last+1, last+2, ... in order, and the next number is missing |
| Connection.RunIgnoresOld | src/connection.rs:86-89 | a reply stored under a number already written changes nothing released |
| Connection.RunCoversConsecutive | src/connection.rs:86-89 | when last+1..last+m are all present, all of them are released in order |
| Connection.ReorderBuffer.constructor | src/connection.rs:73-75 | a fresh writer has written nothing and waits for number 1 |
| Connection.ReorderBuffer.Insert | src/connection.rs:78 | a reply under a number already held replaces the earlier one |
| Connection.ReorderBuffer.Drain | src/connection.rs:86-89 | `last_seq` advances by the run's length; the run leaves the map; last_seq+1 is then absent; the run's encodings are appended in order |
| Connection.ReorderBuffer.Flush | src/connection.rs:91-94 | the bytes handed to the socket are the buffer's contents, and the buffer is empty afterwards |
| Connection.ReorderBuffer.Round | src/connection.rs:76-95 | one turn: inserts the batch, and outputs exactly the encodings of the consecutive run |
| Connection.Reader | src/connection.rs:106-149 | what the reader sends: at most one message per parse result, ending at a parse error or a router panic; the numbering is stated by ReaderNumbersFrames, ReaderRoutesFrames and ReaderErrorReusesSeq |
| Connection.ReaderTask | src/connection.rs:99-155 | the read/parse loop sends exactly the messages `Reader` lists |
| Connection.ReaderNumbersFrames | src/connection.rs:106-119 | without errors, frames get numbers seq+1, seq+2, ... in order, one message each |
| Connection.ReaderRoutesFrames | src/connection.rs:106-119 | without errors, message k is the routing of the k-th parsed frame under number seq+1+k |
| Connection.ReaderPanicEnds | src/connection.rs:113-119 | a router panic kills the reader: nothing follows it, and with no worker a keyed first frame ends the connection with nothing sent |
| Connection.ReaderErrorReusesSeq | src/connection.rs:123-149 | after n frames, the error reply goes out under number n, and then the reader stops |
| Connection.FirstErrorNeverWritten | src/connection.rs:123-130 | an error before any frame goes out under 0, which a fresh writer never releases |
| Connection.InvalidByteDoubleDash | src/connection.rs:126 | the invalid-first-byte reply starts with "--" on the wire |
| Connection.ReaderFixedNumbering | src/connection.rs:123-149 | corrected: every message, the error included, gets its own number seq+1, seq+2, ... |
| Connection.FixedErrorSingleDash | src/connection.rs:126 | corrected: every error reply starts with a single '-' |
| Connection.FirstErrorWrittenFixed | src/connection.rs:123-149 | corrected: an error before any frame is released by a fresh writer |
| Report.Notes | generate_report.py:14 | the label of every row, in row order |
| Report.Dedup | generate_report.py:14 | the result holds exactly the labels that occur, each once |
| Report.DedupFirstSeenOrder | generate_report.py:12-14 | labels appear in the order of their first occurrence |
| Report.UniqueNotesExample | generate_report.py:14 | [A, B, A, C, B] gives [A, B, C] |
| Report.FormatChange | generate_report.py:48-63 | N/A iff the baseline is 0 |
| Report.ChangeDirection | generate_report.py:53-62 | with a positive baseline: latency is good iff current ≤ baseline, RPS iff current ≥ baseline; '+' iff current > baseline |
| Report.UnchangedIsGood | generate_report.py:55-59 | an unchanged value is good for both RPS and latency |
| Report.ComparisonExample | generate_report.py:48-63 | 150 against 100 RPS is +50, good; 8 against 10 ms is -20, good; a zero baseline is N/A |
| Report.BaselineKeys | generate_report.py:68-75 | a key has a baseline entry iff some baseline-labelled row has it |
| Report.BaselineLastWriteWins | generate_report.py:68-75 | the entry is the values of the last baseline-labelled row with the key |
| Report.BuildBaseline | generate_report.py:68-75 | the dict loop builds exactly `BaselineOf` |
| Report.TargetRows | generate_report.py:78 | a row is a target row iff it is in the log with the target label |
| Report.TargetRowsAppend | generate_report.py:78 | the target rows of two blocks of the log are the first block's followed by the second's: log order and every matching row are kept |
| Report.TargetRowsOne | generate_report.py:78 | a single row is kept iff it carries the label |
| Report.NoTargetRows | generate_report.py:78-81 | no target rows iff no row carries the label |
| Report.JoinedLines | generate_report.py:88-104 | at most one line per target row; all keys known gives one line each, in order; none known gives no line |
| Report.JoinedFromTargets | generate_report.py:88-104 | every printed line compares a target row with its key's baseline |
| Report.JoinedAppend | generate_report.py:88-104 | the lines of two blocks of target rows are the first block's followed by the second's: lines come in target order |
| Report.JoinedOne | generate_report.py:89-104 | a target row gives its comparison line iff the baseline has its key, and no line otherwise |
| Report.GenerateTable | generate_report.py:66-104 | no table iff no row has the target label; otherwise the lines are the join of the target rows with the baseline |
| Report.Others | generate_report.py:125-126 | the labels other than the baseline |
| Report.OthersAppend | generate_report.py:125-126 | the loop keeps the order of the labels: two blocks give the first's labels followed by the second's |
| Report.OthersOne | generate_report.py:126 | a single label is kept iff it is not the baseline |
| Report.CompareAll | generate_report.py:124-127 | one table per other label that has rows, in the given order |
| Report.RunReport | generate_report.py:107-129 | the empty-log error iff the log is empty; ALL compares every other label in first-seen order, otherwise the one target |
| Report.AllComparesEveryOtherLabel | generate_report.py:124-127 | when every label has rows, there is exactly one table per label, in order |
| Report.LabelHasRows | generate_report.py:114-127 | a label of the log always has rows |
| Report.ReportAllLabels | generate_report.py:124-127 | with ALL, one table per label other than the baseline, in first-seen order |
| Benchmark.RunEnd | benchmark.py:67 | a greedy `X+` run ends at the text's end or at a character outside the class |
| Benchmark.RunEndInClass | benchmark.py:67 | every character of the run is in the class |
| Benchmark.MatchFrom | benchmark.py:66-68 | a successful match has one piece per pattern element |
| Benchmark.MatchFromSound | benchmark.py:66-68 | the pieces matched fit their elements and spell the text at the position |
| Benchmark.MatchFromComplete | benchmark.py:66-68 | wherever a separated cut of the text fits the pattern, the matcher finds exactly that cut |
| Benchmark.PatternSeparated | benchmark.py:67 | every fit of this pattern is separated, so its greedy runs never overshoot |
| Benchmark.MatchAtSound | benchmark.py:86-91 | a match attempt that succeeds is an occurrence of the pattern; its command is capital letters |
| Benchmark.MatchAtComplete | benchmark.py:86-91 | wherever the pattern occurs, the attempt there returns its three groups |
| Benchmark.SearchFromSound | benchmark.py:86 | `search` returns the match at the leftmost matching position |
| Benchmark.SearchFrom | benchmark.py:86 | `regex.search` from a position: a match found always has a command of capital letters; where it is found is stated by SearchFromSound |
| Benchmark.SearchFromComplete | benchmark.py:86 | `search` succeeds when some later position matches |
| Benchmark.SearchIffOccurs | benchmark.py:85-91 | a line gives a capture iff the pattern occurs in it |
| Benchmark.Lines | benchmark.py:85 | at least one line, and no line contains a line feed |
| Benchmark.LinesRoundTrip | benchmark.py:85 | joining the lines with line feeds gives the output back |
| Benchmark.RowOfShape | benchmark.py:87-94 | a line's row is [time, hash, label, test, command, rps, p50] from a match, and never the header |
| Benchmark.ScrapedShape | benchmark.py:85-94 | every row has that shape with the call's first four fields; at most one row per line |
| Benchmark.ScrapedAppend | benchmark.py:85-94 | the rows of two blocks of lines are the first block's rows followed by the second's: rows follow line order |
| Benchmark.ScanOutput | benchmark.py:82-94 | the loop builds exactly the scraped rows, and `found_any` iff there is one |
| Benchmark.SaveEffect | benchmark.py:96-123 | an empty batch changes nothing; otherwise the file exists, the old rows stay a prefix, the header follows them iff the file was new, and the batch ends the file with nothing else written |
| Benchmark.SaveKeepsHeaderFirst | benchmark.py:108-123 | one append keeps the header first and single |
| Benchmark.HeaderOnce | benchmark.py:100-123 | from no file, any sequence of saves of scraped rows leaves a log whose first row is the header and whose other rows never are |
| Benchmark.CsvFile.Append | benchmark.py:108-123 | opening for append writes the header only for a new file, then the rows |
| Benchmark.SaveToCsv | benchmark.py:61-125 | saved iff some line matched; the file changes by exactly `SaveEffect` of the scraped rows |
| Benchmark.StripLeft | benchmark.py:198 | removes exactly the leading whitespace |
| Benchmark.StripRight | benchmark.py:198 | removes exactly the trailing whitespace |
| Benchmark.StripEmptyIffBlank | benchmark.py:177-184 | a stripped label is empty iff it was blank; otherwise it neither starts nor ends with whitespace |
| Benchmark.Lookup | benchmark.py:153 | a suite is found iff the key is in the catalog, and it is the suite of the first entry with that key |
| Benchmark.KeysOf | benchmark.py:201 | the catalog's keys, in order |
| Benchmark.LexLeTotal | benchmark.py:201 | Python's string order is total |
| Benchmark.LexLeTrans | benchmark.py:201 | Python's string order is transitive |
| Benchmark.Insert | benchmark.py:201 | insertion keeps every element, with one more |
| Benchmark.Sort | benchmark.py:201 | `sorted` is a permutation |
| Benchmark.InsertSorted | benchmark.py:201 | insertion into a sorted list keeps it sorted |
| Benchmark.SortSorted | benchmark.py:201 | `sorted` gives ascending order and the same keys |
| Benchmark.SortKeepsSorted | benchmark.py:201 | keys already in order stay as they are |
| Benchmark.SortedKeyKnown | benchmark.py:201-205 | every key of the batch order names a suite |
| Benchmark.SuiteOrder | benchmark.py:9-58 | the preset catalog runs in the order 1, 2, 3, 4 |
| Benchmark.ExecuteSuite | benchmark.py:147-184 | an unknown key does nothing; otherwise the suite runs under the batch label or the stripped typed one, and is saved iff that label is non-empty and a line matched |
| Benchmark.BlankBatchSavesNothing | benchmark.py:170-184 | a batch under an empty label leaves the log as it was |
| Benchmark.RunKeys | benchmark.py:204-205 | each key runs in order under the one label; the log ends as the suites' effects in that order |
| Benchmark.RunAllTests | benchmark.py:191-205 | every suite of the catalog runs, in ascending key order, under the label typed once and stripped; the log ends as the suites' saves applied in that order |

## Left out

- Rust's async I/O, TCP sockets and tokio channels are not modelled: `spawn_io`, `handle_connection`, the reads and `write_all`, and their errors. The two sends of `route_message` become the returned `Router.Outcome`.
- src/main.rs, src/threads.rs, src/worker.rs and src/parser.rs are not part of this model. The parser is represented by the sequence of its outcomes, `Connection.ParseEvent`.
- `DefaultHasher` is a parameter `hash: Bytes -> nat`, the same function for every call.
- `Rc<RefCell>`/`Arc` sharing and the `PoisonedLock` error are not modelled; nothing produces that error.
- `i64` replies of a list length (`len() as i64`) are unbounded integers. Lists never reach 2^63 elements.
- Kv.NumToPop: a negative count wraps to count + 2^64. This equals "pop everything" only for lists shorter than 2^63, which the ensures states as its condition.
- Kv.KvStore.SPop / Kv.KvStore.SMembers: `HashSet` iteration order is a nondeterministic choice (`:|`). Which members are popped, and in what order they are listed, is left open.
- `String::from_utf8_lossy` is the identity on keys, and `to_uppercase` is ASCII upper-casing. Commands and keys outside ASCII/UTF-8 may differ.
- src/handler.rs calls `kv.get(&str)` and `kv.set(String, …)`, and imports its value type from the parser. The model keeps the byte-string store of src/kv.rs and the value type of src/message.rs.
- Handler.CommandHandler.HandleGet: the handler's store only ever holds strings (`Valid`), so the source's GET reply on a list or set value is not reachable and is not modelled.
- The handler replies to SET with the bulk string "OK" and to a short SET with the key error, as the code does. tests/handler_tests.rs expects `SimpleString("OK")` and an arity error; the code is followed.
- `WorkerMessage` carries a writer sender in src/router.rs but not in src/message.rs. The outcome carries the number and the frame only.
- Connection.ReaderTask: the outer read loop and the inner parse loop are one loop over the parse outcomes; an `Incomplete` is the point where the next read happens. The `u64` counter is an unbounded number.
- Connection.ReorderBuffer.Round: the replies one turn receives (`recv` plus `try_recv`) are the parameter `batch`.
- Python floats are `real`. `float()` parsing of CSV fields, and the formatting of numbers (`:.2f`, `:,.0f`), icons and colours, are not modelled. `FormatChange` returns the difference and the good/plus flags instead of the text.
- generate_report.py: `load_data` (CSV reading; rows are given as records) and the `select_note` menu (the chosen labels are parameters) are not modelled. The file-not-found message is not modelled.
- Benchmark.Lines: splits on line feed only. Python's `splitlines` also splits at carriage returns and other separators, and drops a trailing empty line. That empty line can never match, so it adds no row.
- Benchmark.IsNumChar: `\d` is taken as the ASCII digits 0-9. Python's `str` patterns also accept the other Unicode decimal digits. `\s` and `str.strip()` are modelled with Python's full whitespace set (`Benchmark.IsSpace`).
- The load tool, git and the clock are inputs. The tool's output is `stdout` (or `stdoutOf(key)` for a batch), the commit hash an `Option` ("unknown" when absent), and the timestamp a string. Benchmark.RunAllTests uses one timestamp and one hash for the whole batch, whereas the script reads them again for each suite.
- Benchmark.ExecuteSuite / Benchmark.RunAllTests: the catalog is a parameter `suites`; the console's catalog is `TEST_SUITES`, whose order `SuiteOrder` gives.
- Benchmark.Lookup: the catalog is a sequence of pairs, where `TEST_SUITES` is a dict holding each key once. With a repeated key the first entry is found while a dict keeps the last, and RunAllTests would run that key twice. The preset catalog's keys are distinct, so it is not affected.
- The menu loop `main`, `show_menu`, `print_header`, `input` prompts, `time.sleep`, `KeyboardInterrupt`, printing of the tool's stderr, and the message texts printed on skip or save are not modelled.

## Findings

| source | as written | input that shows it | evidently intended | confidence | as-written member | corrected member |
|---|---|---|---|---|---|---|
| src/kv.rs:40-41 | `resolve_range` returns (0, 0) for an empty range, and `lrange` reads it as the range holding element 0 | LRANGE 2 1 on [a, b, c] returns [a] | an inverted or out-of-range request returns the empty list | not executed | Kv.LRangeInvertedExample | Kv.LRangeIntended |
| src/connection.rs:123-130 | a parse error is answered under the current number, that of the last frame, or 0 before any frame | invalid first byte as the first thing on a connection: the reply goes under 0 and a fresh writer (waiting for 1) never sends it | the error reply takes the next number and is sent | not executed | Connection.FirstErrorNeverWritten | Connection.FirstErrorWrittenFixed |
| src/connection.rs:126 | the error text starts with '-', and `Error` serialisation adds another | first byte 63: the client reads "--ERR invalid first byte: 63" | a single leading '-' | not executed | Connection.InvalidByteDoubleDash | Connection.FixedErrorSingleDash |
