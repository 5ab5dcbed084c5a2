# qotd-server, modelled in Dafny

The repository presents itself as an RFC 865 "Quote of the Day" server
(`src/main.c:8-9`). Its C sources hold two pieces of self-contained logic,
and this project models both:

* **The HTTP response builder in `src/ssocket.c`.** `get_file_type` maps a
  file-name suffix to a media type. `get_date` writes the broken-down UTC
  time as text. `create_response` decides the status and assembles the
  status line, the header lines and the payload in a calloc'd buffer.
  `attach_payload` copies the payload file behind the head with fread.
* **The program's entry point in `src/main.c`.** `read_flags` parses
  `-p PORT` and the argument count, then loads the quote file. `main`
  sequences flag parsing, opening the socket, the serving loop, clean-up
  and the exit status. `clean_up` closes the socket, unloads the quotes
  and frees the port. `handle_signal` raises `quit`.

The quote server's own logic (`load_file`, `unload_quotes`, picking a
quote) has no body in these files. `accept_client_connection`
(`src/ssocket.c:105-158`) calls `create_response` with a status code of
200, a reason and a path. The file does not compile as it stands, so it
does not fix what those arguments hold:

* `message`, `response_message`, `filepath` and `file` are never declared
  (`src/ssocket.c:126`, `:134`, `:141`).
* `read_request` is declared with two parameters (`src/ssocket.c:21`) but
  defined with one (`:172`), and it uses an undeclared `current` (`:175`).
* `src/ssocket.h:8` declares `accept_client_connection` as returning
  `char*`, but it is defined to return `int`.

For that reason the status code, the reason, the payload path and the
file behind it are free parameters of the model. Where the code and its
comments or usage text part ways, the model follows the code:

* **Argument count.** The usage text `[-p PORT] QUOTE_FILE`
  (`src/util.c:32`) suggests exactly one positional argument. The code
  accepts any even argc of at least 2, takes `argv[argc-1]` as the quote
  file, and refuses `prog -p80 FILE` (argc 3).
* **Port text.** The code accepts text after the digits ("80abc" is
  port 80). It also narrows the long to int without a range check, so
  "4294967297" is port 1.
* **Start-up order.** The quote file is loaded inside `read_flags`, before
  the socket is opened.
* **Clean-up.** `clean_up` always closes the socket and unloads the quotes,
  even when neither was set up.
* **Exit status.** The comment at `src/main.c:41` promises EXIT_SUCCESS;
  both failure paths exit with EXIT_FAILURE.

Files, one module each:

* `clib.dfy` (`CLib`): the libc behaviour the code relies on.
  * `sprintf("%d")` as `IntToDecimal`.
  * `strtol` in base 10, with clamping and ERANGE.
  * The narrowing of a long to int.
  * A calloc'd buffer with `strcat` (`CBuffer`).
  * An fread stream (`Stream`).
* `filetype.dfy` (`FileType`): `get_file_type`.
* `httpdate.dfy` (`HttpDate`): `get_date`, with a parser as its partner.
* `response.dfy` (`Response`): `create_response` and `attach_payload`, as
  methods over the buffer. They are specified by functions on values, and
  a reader that splits a response back into header lines and body serves
  as the partner.
* `server.dfy` (`Server`): `read_flags`, `clean_up`, `handle_signal` and
  `main`, as the class `Process` over the program's globals. Calls into
  code outside the model are recorded in an event log.

`get_date` is modelled as written, with its weekday table starting at
"Mon" for `tm_wday` 0. gmtime counts 0 as Sunday, so every date names the
following day (`HttpDate.WeekdayShifted`, `HttpDate.DateExample`).

## Model

| member | source | states |
|---|---|---|
| FileType.GetFileType | src/ssocket.c:401-452 | the result flag is true exactly when a media type is returned; a name shorter than 3 characters gives (false, "") |
| FileType.FileTypeMatchesTable | src/ssocket.c:401-452 | a name is recognised exactly when it ends in one of .js, .htm, .css, .png, .pdf, .html, and then the media type is that suffix's entry (application/javascript, text/html, text/css, image/png, application/pdf, text/html) |
| FileType.ExtensionsExclusive | src/ssocket.c:408-450 | no name ends in two different known suffixes, so the order of the checks never matters |
| FileType.FileTypeLength | src/ssocket.c:403-450 | every media type returned is at most 22 characters, with no NUL and no carriage return |
| FileType.MediaTypeIsText | src/ssocket.c:412-448 | each media type in the table is short text without NUL or carriage return |
| HttpDate.GetDate | src/ssocket.c:305-399 | the 50-byte buffer holds exactly weekday, day, month, year, then hour:minute:second and " GMT", as the strcat sequence builds them |
| HttpDate.DateLength | src/ssocket.c:309-397 | for gmtime's field ranges the date text is at most 36 characters, so it fits the 50-byte buffer |
| HttpDate.DateIsText | src/ssocket.c:311-397 | the date text holds no NUL and no carriage return |
| HttpDate.DatePieces | src/ssocket.c:311-397 | weekday and month texts are 5 characters; day, hour, minute and second at most 2 digits; the year at most 11 characters; none holds a NUL |
| HttpDate.TableText | src/ssocket.c:311-377 | the weekday and month texts hold no NUL or carriage return and are 5 characters for in-range indices |
| HttpDate.WeekdayOfPrefix | src/ssocket.c:311-333 | the weekday text written for tm_wday is read back as the same index |
| HttpDate.MonthOfInfix | src/ssocket.c:340-377 | the month text written for tm_mon is read back as the same month |
| HttpDate.ClockRoundTrip | src/ssocket.c:384-396 | the unpadded "h:m:s" text is read back as the same hour, minute and second |
| HttpDate.DateRoundTrip | src/ssocket.c:305-399 | reading back the date text gives back every tm field it was written from (no information is lost despite the missing zero padding) |
| HttpDate.ParseOfFields | src/ssocket.c:311-397 | the text assembled from weekday, day, month, year and clock parses to exactly those fields |
| HttpDate.WeekdayShifted | src/ssocket.c:311-333 | tm_wday w is printed as the name of day (w + 1) mod 7 in the Sunday-first order |
| HttpDate.DateExample | src/ssocket.c:305-399 | Saturday 5 January 2019 07:03:09 UTC is written "Sun, 5 Jan 2019 7:3:9 GMT" |
| CLib.IntDecimalLength | src/ssocket.c:218-222 | the decimal text of any int is at most 11 characters, so the 24-byte buffers for code and length suffice |
| CLib.DecimalIsText | src/ssocket.c:219-222 | sprintf's decimal text holds no NUL or carriage return |
| CLib.DigitsValueOfDecimal | src/main.c:129 | the digits sprintf writes for n denote n |
| CLib.StrtolOfDecimal | src/main.c:114 | strtol on the decimal text of a long, followed by a non-digit or nothing, returns that long and stops right after the text, without ERANGE |
| CLib.ToInt32 | src/main.c:114 | the (int) conversion lands in the int range and leaves int values unchanged |
| CLib.ToInt32Above | src/main.c:114 | a long just above INT_MAX wraps around to 2^32 less |
| CLib.CBuffer.Cat | src/ssocket.c:233-269 | strcat appends the text to the string held in the buffer and keeps it NUL-terminated |
| CLib.Stream.Read | src/ssocket.c:290 | fread returns the next bytes of the file, as many as asked for or as remain, and advances the position past them |
| Response.PlanResponse | src/ssocket.c:180-207 | a payload that cannot be stat'ed or opened turns the status into 404 "Not Found" and read_file off; without a payload the caller's status stays and read_file is on; the file size is st_size whenever stat succeeded |
| Response.OpenPayload | src/ssocket.c:184-207 | the status, size and read_file it settles on are the plan's, and a payload stream exists, positioned at the start of the file, exactly when the file was opened |
| Response.HeadLength | src/ssocket.c:229-269 | the head never exceeds the reason's length plus 154 characters |
| Response.HeadFits | src/ssocket.c:218-230 | response_size leaves room for the head, the st_size payload bytes and at least 20 more |
| Response.CatStatusLine | src/ssocket.c:232-237 | the buffer holds "HTTP/1.1 ", the decimal code, a space, the reason and CRLF |
| Response.CatDateBlock | src/ssocket.c:239-249 | on a 200 response the Date and Content-Length lines are appended, otherwise nothing |
| Response.CatTypeBlock | src/ssocket.c:257-266 | a Content-Type line is appended exactly when a payload was opened and its suffix is known |
| Response.CatLine | src/ssocket.c:241-248 | one header line is appended: name, value, CRLF |
| Response.WriteHead | src/ssocket.c:229-269 | the calloc'd buffer of response_size bytes holds exactly the head: status line, header lines, empty line |
| Response.AttachPayload | src/ssocket.c:282-303 | the bytes fread delivers (up to payload_size, fewer if the file ends) are stored from strlen onwards in read order, nothing else in the buffer changes, the stream advances past them, and the result is 0 exactly when the file held at least payload_size > 0 bytes |
| Response.CopyChunk | src/ssocket.c:292-297 | the chunk is stored byte by byte from pos on and pos ends past it; nothing else changes |
| Response.DeliveredAll | src/ssocket.c:290-302 | however the loop ends (nothing asked for, all copied, or the file ran out), the bytes copied are the ones Delivered names and the last fread came back empty exactly when the status is -1 |
| Response.AttachStatusMeaning | src/ssocket.c:300-302 | attach_payload reports 0 exactly when it copied the full positive size it was asked for |
| Response.Assembled | src/ssocket.c:230-273 | the buffer ends up as head, payload bytes, then NUL to its end |
| Response.BuildResponse | src/ssocket.c:229-273 | the returned buffer is exactly the head, the payload bytes and NUL padding, of response_size bytes |
| Response.CreateResponse | src/ssocket.c:180-280 | the status code, the size returned and every byte of the buffer are those of the plan for the inputs: head, delivered payload bytes, NUL padding |
| Response.TrailingNul | src/ssocket.c:229-230 | the last 20 bytes of every response are NUL, so the text is always terminated |
| Response.StatusLineRoundTrip | src/ssocket.c:232-237 | the status line is read back as the same code and reason |
| Response.HeadRoundTrip | src/ssocket.c:232-269 | lines written each with CRLF and closed by an empty line are split back into the same lines and the bytes that follow |
| Response.NextLineOf | src/ssocket.c:237 | a line without carriage return followed by CRLF is read back whole |
| Response.HeaderLinesText | src/ssocket.c:232-266 | when the reason, the date and the media type hold no carriage return, no header line is empty or holds a carriage return |
| Response.HeadReadsBack | src/ssocket.c:232-269 | when the reason, the date and the media type hold no carriage return, a head followed by any bytes splits back into its header lines and those bytes |
| Response.ResponseReadsBack | src/ssocket.c:180-280 | when the reason holds no carriage return, a client splitting the whole response at its empty line gets exactly the header lines written and then the payload bytes and padding |
| Response.ConnectionClose | src/ssocket.c:251-253 | every response carries "Connection: close" |
| Response.DateHeader | src/ssocket.c:239-244 | the Date header is present exactly on a 200 response and then carries the date text |
| Response.ContentLengthHeader | src/ssocket.c:245-249 | the Content-Length header is present exactly on a 200 response and then carries the file size in decimal |
| Response.ContentTypeHeader | src/ssocket.c:257-266 | the Content-Type header is present exactly when a media type was found, and carries it |
| Response.ServedPayload | src/ssocket.c:184-273 | an opened payload holding at least st_size bytes is served under the caller's status, its body is the file's first st_size bytes, and on a 200 response Content-Length is the body's length |
| Response.MissingPayload | src/ssocket.c:184-207 | a payload that cannot be stat'ed or opened gives a 404 "Not Found" with no Date, Content-Length or Content-Type and no body |
| Server.CheckPort | src/main.c:112-125 | an accepted port is a positive int; the argument is refused as unparsable when errno is set on entry or by strtol's overflow (ERANGE), and when strtol converts nothing |
| Server.CheckPortOfDecimal | src/main.c:113-125 | the decimal text of any long, followed by nothing or by any text that does not start with a digit, is refused exactly when its narrowing to int is below 1, and accepted as that int otherwise (so trailing text is ignored) |
| Server.ScanOutcome | src/main.c:101-144 | the options pass exactly when there are none or a single -p with an accepted argument; the first accepted -p sets port to the decimal text of its value and port_set, even when a later option fails |
| Server.TwoPortsFail | src/main.c:106-110 | two -p options always make read_flags fail |
| Server.BadOptionFails | src/main.c:135-142 | an unknown option always makes read_flags fail |
| Server.PortRevalidates | src/main.c:127-129 | the port text stored is accepted again by the same check, with the same value |
| Server.ScannedPortValid | src/main.c:113-132 | after the options the port is "17" or the decimal text of a port that passes the check |
| Server.PortPlainExample | src/main.c:113-125 | "8080" is accepted as 8080 |
| Server.PortErrnoExample | src/main.c:116-119 | a non-zero errno left over from before refuses even "8080" |
| Server.PortTrailingExample | src/main.c:113-119 | "80abc" is accepted as 80 |
| Server.PortTextExample | src/main.c:116-119 | "abc" is refused as unparsable |
| Server.PortNotPositiveExamples | src/main.c:122-125 | "0" and "-5" are refused as not positive |
| Server.PortWrapsAround | src/main.c:114 | "4294967297" is accepted as port 1 |
| Server.Process.Start | src/main.c:25-28 | the globals start as port "17", port_set false, quit 0 |
| Server.Process.ReadFlags | src/main.c:98-162 | port and port_set end where the getopt loop stops; the result is 0 exactly when the options pass, argc is even and at least 2, and load_file succeeds; load_file is called on argv[argc-1] exactly when the options and the count pass |
| Server.Process.CleanUp | src/main.c:168-181 | the socket is closed, then the quotes unloaded, then port freed and set to NULL exactly when -p had set it |
| Server.Process.HandleSignal | src/main.c:188-192 | the handler only sets quit to 1 |
| Server.Process.Serve | src/main.c:72-80 | the loop accepts one client per round until quit is raised, and nothing else changes |
| Server.Process.Finish | src/main.c:57-84 | every path of main ends with clean_up, then exit with its status |
| Server.Process.Run | src/main.c:43-85 | the exit status and the sequence of outside calls are those of RunStatus and RunLog for the inputs |
| Server.ExitStatusMeaning | src/main.c:57-84 | main exits with EXIT_FAILURE exactly when read_flags or open_server_socket failed, and with EXIT_SUCCESS otherwise |
| Server.BeforeCleanUpEvents | src/main.c:57-80 | before clean_up nothing is closed, unloaded or freed; clients are accepted only after the flags passed and the socket was opened on the chosen port, and then exactly as many as were served; every accept comes after the open, which directly follows read_flags' own calls |
| Server.RunShape | src/main.c:57-84 | on every path clean_up runs exactly once, right before exit; close precedes unload; port is freed exactly when -p set it; clients are accepted only on a successful run |
| Server.EndsWithCleanUp | src/main.c:168-181 | appending clean_up and exit to events that do none of its work closes and unloads exactly once and frees the port exactly when it was set |

## Left out

- Sockets: `open_server_socket`, `accept_client_connection`, `close_server_socket` and `read_request` are operating-system I/O. The model records each call as an event; the result of opening is a parameter, and the results of accepting and closing change nothing the program does beyond logging.
- `load_file` and `unload_quotes` have no body in these sources. Loading appears only as its success or failure (a parameter) and both only as logged calls.
- `stat`, `fopen`, `fread`, `fclose`, `time` and `gmtime` become inputs: whether stat and fopen succeed, st_size, the file's bytes, and the `tm` fields. A read error in the middle of the file is not modelled: fread returns short only at the end of the file.
- `fclose` of the payload file and every `free` except that of `port` are left out, since they change nothing the model observes.
- `print_error`, `print_usage` and the rest of `src/util.c` are a stderr sink. Printing the usage is logged as one event; the messages are not modelled.
- Signals and `sigaction`: the handler runs as an ordinary call, once `accepts` requests have been served (before the first when `accepts` is 0). A run in which no signal ever arrives does not end and is not modelled.
- getopt is replaced by the sequence of options it returns, and argc and argv[argc-1] by parameters. Argument permutation and the link between the options and argc are not modelled.
- Response.CreateResponse: requires st_size to fit in an int. The truncation of `off_t` to the `int file_size` is not modelled.
- Response.ResponseSize: response_size is an unbounded integer here. The int overflow for a reason or file near INT_MAX is not modelled.
- CLib.CBuffer.Cat: requires room in the buffer. Every call in the model meets it: `Response.HeadFits` shows that response_size covers the head whatever the reason, and `HttpDate.DateLength` shows that the date fits its 50 bytes. create_response has no strcat overrun while its sizes stay in the int range. The overruns that remain are outside this model: the port buffer at `src/main.c:128` (below) and the buffer of `print_error` at `src/util.c:14`, which leaves no room for the terminator.
- Server.Process.ReadFlags: stores the port text as a value. The buffer of `strlen(optarg)` bytes that `sprintf` writes into at src/main.c:128, one byte short of its terminator when optarg has no extra characters, is not modelled.
- `attach_payload`'s `current` buffer is the sequence fread returns; its size and its leak are not modelled.
- chars stand for the C bytes of names, header text and payload; there is no encoding.
- The `assert (0)` branch of the getopt switch cannot be reached with the option string "p:", so it is not modelled.
