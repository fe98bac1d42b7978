# fcgi-cpp-appserver: verified model

A Dafny 4.11 model of the parts of the FastCGI application server that carry algorithms, with proofs of
what they keep and compute. `dafny verify dfyconfig.toml` checks all of it.

| files | what they model |
|---|---|
| `FormdataHeaders`, `FormdataMachine`, `FormdataData`, `FormdataReference`, `FormdataRefinement`, `FormdataRoundTrip`, `FormdataHeaderLines`, `FormdataParser`, `FormdataContentType`, `FormdataRequests`, `FormdataFields` | the streaming multipart/form-data parser (section 4.1 of RFC 7578, delimiters of section 5.1.1 of RFC 2046) |
| `PoolMachine`, `PoolReaper`, `PoolProofs`, `ConnectionPool` | the database connection pool, its waiting threads, its reaper and its destructor |
| `JulianDay`, `Dates` | the Julian-day arithmetic of `Date` |
| `JsonText`, `JsonProofs`, `JsonObjects` | the JSON containers and printer, and two readers for sections 2, 4, 5, 6, 7 and 8.1 of RFC 8259, one of which lets any octet pass in a string |
| `Dispatch`, `Ordering` | handler registration and dispatch |
| `SupervisorMachine`, `Supervisor` | the process that forks, reaps and shuts down workers |
| `Urls`, `QueryArgs` | the URL splitter and the query-string parser |
| `Text` | results, and the C and C++ string searches used above |

The code that works step by step is modelled as classes and loops (`Parser`, `DBPool`, `Date`, `JSONObject`,
`JSONArray`, `Stream`, `Server`, `MainProcess`, the URL cursor, the query loop). Each method is proved equal to
a function on values, and the results below are about those functions, for all inputs and all runs.
Inductions are written out; `{:induction false}` stands on them, and on the few other lemmas whose proofs
automatic induction makes slow.

Conventions. An octet is a `char`. A C++ exception is an `Err` or `Some(error)`. Identities of
connections and processes are numbers, new ones supplied by the environment. `size_t` has 64 bits. `time`, `fork`, `waitpid`,
`m_exiting` and the stream's chunks are parameters.

## What is proved, and where the code differs from its intent

**Form parser.** `BodyRefines`: for every body, with line ends mixed in any way and broken off anywhere,
the byte machine (partial matches re-emitted from the delimiter, one byte read twice) ends with the
parameters of a whole-body reading that only searches. Inside it, `DataRefinesSearch`: a part ends at the
first LF `--` boundary and stores the bytes before it, less a CR. The CR rule is exact: after a delimiter matched
at a bare LF, `boundary_start` stays at 1, and the next value keeps a CR before its delimiter unless the value
contains a line feed. `ValueKeptIff` says exactly which values survive. `ClientFormIsStored` is the round trip from
any chunks of the body to the stored map, with CR LF or LF line ends, a preamble of whole lines, any header lines that
the parser accepts in each part, and any epilogue. `FieldsAreStored` states it in the client's terms: fields with or
without a Content-Type, sent under any accepted Content-Type of the request, are stored as the first value of each
name, cut to 131072 bytes, and nothing else is. What becomes of every other input is said from its shape:
`TypeLine`, `DispositionLine` and `OtherLine` give the outcome of every header line, and `RefusedPartEnds` what a refused
one costs; `NoBoundaryIff`, `NotMultipartIff`, `EmptyBoundaryIff` and `BoundaryGiven` give the outcome of every
Content-Type. Found on the way:

- A boundary with a byte above 127 matches nothing (`AsciiBoundaryNeeded`), as `u_char` is compared with
  `char`; `char` is taken as signed.
- `strstr` finds `name="` inside `filename="`: a file name that comes first is taken for the field name
  (`FileNameIsTaken`), so such a line gives the field name exactly when the two are the same
  (`FileNameFirstIff`). `NameReadBackIff` is the rule for any line: a quoted field name is read back exactly
  when its `name="` is the first, or the first has the same text in quotes.
- A form type without `boundary=` is not reported (`MissingBoundaryIsNotReported`): the result of `find` is
  added to a pointer without being compared with `npos`. The model takes the wrapped sum, offset 8, which is
  what a flat address space gives.

**Connection pool.** `EveryRunKeepsInv` holds for any threads, any interleaving, with and without spurious
wake-ups. `get` takes the oldest available connection before one is made (`GetTakesOldest`, `GetMakesOrWaits`), so
without the reaper a pool makes exactly as many as are held at once at some moment (`MadeIsPeak`). It guards its wait
with `if`. For workers that take one connection each, `SingleIfIsSafeIff` gives
the exact condition under which that is safe, with spurious wake-ups and without: no more threads than
connections (the server runs 5 workers on a pool of 40), in which case nobody ever waits; or a pool that may hold
none, if waits return on signals only. `RunLosesNoWakeup`: no signal is lost in any run. A `while` in place
of the `if` would be safe in every run (`RecheckedWaitIsSafe`, which is immediate), but the reaper may still
leave a thread waiting in an emptied pool with room to grow, exactly when there are more threads than
connections may be made (`ReaperStrandsWaiterIff`). Under the `if` of the source no run strands anybody
(`SingleIfNeverStrands`); instead the thread pops from the list that the reaper has emptied
(`ReapedWakeupPopsEmpty`). Without traffic the reaper takes the oldest connection or none
at each visit, whatever the times of the visits (`QuietRun`). It deletes a connection without removing
it from `m_all_connections`, which the destructor deletes once more: `DestructorDeletesOnceIff` counts the deletes of
every run, and no connection is deleted twice exactly when `m_num_connections` is the length of that list. Every
pool that may hold a connection has a run that ends in a double delete (`DoubleDeleteIff`). The comment in
db_pool.cpp says 5 minutes; the code waits 60 seconds. `m_min_connections` is never read.

**Dates.** Day numbers count days one by one from 1 January of the year 1, order dates as the calendar does, and
are undone by `yyyymmdd`, for every date (`ValidDate`) at which neither `year--` nor `year + 4716` wraps: from
1 March of the year 0 to 29 February of the year 4294962580. Of all dates whose year an `unsigned int` holds these
are exactly the ones for which the formula counts right (`CountsDaysIff`, with the constant it is off by otherwise) and
exactly the ones that print as themselves (`DateRecoveredIff`); so `"0000mmdd"` prints back exactly from March on
(`WrittenDatePrintsBackIff`). The Unix epoch is the calendar's (`EpochIsDate`).

**JSON.** A printed value is read back whatever follows it (`ValueReadsBack`, `UniquelyDecodable`). The printer
leaves control bytes without a letter escape as they are and takes any octets for text, so a reader that keeps to
RFC 8259 accepts what it prints exactly when every string and key is well-formed UTF-8 (section 4 of RFC 3629) without
such a byte (`PrintedIsStandardIff`). Two objects print alike exactly when each key was
first added with the same value (`PrintedAlikeIff`).

**Dispatch.** `matched_prefix` is never updated, yet the last match of the scan is the longest prefix
(`DispatchIsLongestPrefix`), because prefixes of one string are ordered by length. `sizeof("=")` is 2, so an
exact location `=/x` answers the URI `x` and not `/x` (`ExactLocationLosesSlash`). In any list of registrations that
shows for no URI but those that some exact location with a handler is about, and for all of these if handlers are
distinct (`ExactLocationsMisservedIff`).

**Supervisor.** The children alive are taken from the results of `fork` and `waitpid`, and what each runs from the
fork. In every run the table is exactly those children with what they run, and the shutdown loop ends exactly when
every child live at its start has been reported. Until `m_exiting` is set, every function has its minimum of live
workers at the end of a run exactly when the last turn could fork as many as were then missing
(`EveryRunIsStaffedIff`): workers that have ended are replaced. The loop reads a worker's function through the iterator that it has
just erased; what that read gives is an input, and the counters stay right exactly when it is the function erased
(`ReapedKeepsCountsIff`): a wrong read takes a worker from another function's count, or enters a function whose
count wraps.

**Query strings.** The loop searches for `c` where `&` is meant (line 456). `WrittenIsMeantIff` says exactly when
the arguments it cuts are those meant: when neither `&` nor `c` follows the first `&`. `StoredAsMeantIff` says the
same of the stored map, for query strings whose arguments have different names. With repeated names the difference
may be hidden: `StoredAsMeantWithoutCIff` says exactly when, for query strings without a later `c`.

## Model

| member | source | states |
|---|---|---|
| `FormdataParser.Parser.constructor` | src/server/fcgi_handler.cpp:71-94 | a new parser is the machine's initial state over the given parameters |
| `FormdataParser.Parser.FlushOutputBuffer` | src/server/fcgi_handler.cpp:164-170 | the buffer becomes the value only if no value is held yet; the buffer is emptied |
| `FormdataParser.Parser.Putc` | src/server/fcgi_handler.cpp:240-249 | a byte goes into the fixed buffer, which is flushed when full; no index leaves its array |
| `FormdataParser.Parser.FinishPart` | src/server/fcgi_handler.cpp:148-155 | the part is stored unless its name is taken, and its attributes are cleared |
| `FormdataParser.Parser.OutputPartialMatch` | src/server/fcgi_handler.cpp:347-358 | the failed match is output from the delimiter and the matcher restarts at its CR |
| `FormdataParser.Parser.ParseHeaderLine` | src/server/fcgi_handler.cpp:305-315 | a complete header line is applied; on a throw the state is `finish` |
| `FormdataParser.Parser.HeaderByte` | src/server/fcgi_handler.cpp:294-327 | one byte in the headers, with the length limit |
| `FormdataParser.Parser.DataByte` | src/server/fcgi_handler.cpp:332-371 | one pass in the data state; when it asks for the byte again, reading it again gives the machine's step |
| `FormdataParser.Parser.SeekByte` | src/server/fcgi_handler.cpp:267-278 | one byte of the preamble |
| `FormdataParser.Parser.ProcessByte` | src/server/fcgi_handler.cpp:263-377 | one pass of the loop is the machine's step or prepares it |
| `FormdataParser.Parser.ProcessBuf` | src/server/fcgi_handler.cpp:251-379 | the loop with its `p--` runs the machine over the buffer up to a throw, in at most 2n iterations; an empty buffer throws unless finished |
| `FormdataParser.FeedAll` | src/server/fcgi_handler.cpp:409-419 | the read loop feeds the chunks one by one, swallowing throws |
| `FormdataParser.ParseFormData` | src/server/fcgi_handler.cpp:383-426 | each throw exactly for its cause, in the order of the source; else the chunk loop, swallowing throws, ends with the parameters of one run over the joined chunks |
| `FormdataParser.BoundaryOf` | src/server/fcgi_handler.cpp:192-223 | an accepted boundary is non-empty and has no space, semicolon, CR or LF |
| `FormdataMachine.FinishAbsorbs` | src/server/fcgi_handler.cpp:375-376 | once finished, or after a throw, no further byte changes anything |
| `FormdataMachine.ChunkIndependence` | src/server/fcgi_handler.cpp:409-419 | every split of a body into chunks, through a delimiter, at the re-read byte or past a swallowed throw, gives the same whole parser state |
| `FormdataData.StepTracks` | src/server/fcgi_handler.cpp:333-359 | one byte keeps: emitted bytes then the pending match are the bytes consumed, and the matcher stands where the last line says; re-reading one byte misses nothing |
| `FormdataData.DataPrefix` | src/server/fcgi_handler.cpp:332-371 | byte conservation, the closed form of `boundary_start` and `boundary_pos`, and the buffer-size truncation, for every part content without a delimiter |
| `FormdataData.DataRefinesSearch` | src/server/fcgi_handler.cpp:332-371 | the incremental matcher ends a part at the first occurrence naive search finds, with exactly the bytes before it less one CR |
| `FormdataReference.SeekIsSound` | src/server/fcgi_handler.cpp:267-278 | a match recognised in the preamble is a real occurrence of `--` boundary |
| `FormdataReference.SeekIsComplete` | src/server/fcgi_handler.cpp:267-278 | an occurrence at the start of the body or of a line is recognised, if none was before it |
| `FormdataReference.SeekIsFirst` | src/server/fcgi_handler.cpp:267-278 | a delimiter at a line start with none before it is the one recognised |
| `FormdataRefinement.SeekRefines` | src/server/fcgi_handler.cpp:267-278 | the byte-wise seek, which drops the byte of a mismatch, recognises exactly what the reference seek does |
| `FormdataRefinement.BodyRefines` | src/server/fcgi_handler.cpp:251-379 | for every body, the machine's parameters and finish flag are those of the whole-body reading |
| `FormdataRefinement.AsciiBoundaryNeeded` | src/server/fcgi_handler.cpp:268-268 | the shortest form is recognised exactly for an ASCII boundary |
| `FormdataRefinement.NonAsciiBoundary` | src/server/fcgi_handler.cpp:268-271 | with a boundary byte above 127 no body ever yields a parameter |
| `FormdataRoundTrip.HeaderParses` | src/server/fcgi_handler.cpp:101-125 | the header line a client writes for a field gives the field's name |
| `FormdataRoundTrip.FirstNameIsTaken` | src/server/fcgi_handler.cpp:101-125 | every form-data or attachment line, in any case and spacing, gives the quoted text after its first `name="` |
| `FormdataRoundTrip.NameReadBackIff` | src/server/fcgi_handler.cpp:101-125 | a field name quoted anywhere in such a line is read back exactly when its `name="` is the first or the first quotes the same text |
| `FormdataRoundTrip.FileNameIsTaken` | src/server/fcgi_handler.cpp:113-124 | a file name before the field name is taken for it |
| `FormdataRoundTrip.FileNameFirstIff` | src/server/fcgi_handler.cpp:113-124 | a line with a file name and then a field name gives the field name exactly when the two are the same |
| `FormdataRoundTrip.ClientHeaders` | src/server/fcgi_handler.cpp:294-325 | other header lines after the Content-Disposition leave a part with its field name |
| `FormdataHeaderLines.TypeLine` | src/server/fcgi_handler.cpp:126-136 | a Content-Type line, in any case, is accepted with what follows the spaces, and refused exactly when nothing does |
| `FormdataHeaderLines.DispositionLine` | src/server/fcgi_handler.cpp:101-125 | a Content-Disposition line, in any case: exactly when it is refused for its disposition, refused for a missing quote, gives a name, or says nothing |
| `FormdataHeaderLines.OtherLine` | src/server/fcgi_handler.cpp:101-137 | any other line is accepted and says nothing |
| `FormdataHeaderLines.RefusedPartEnds` | src/server/fcgi_handler.cpp:305-325 | a header line that is refused, or as long as the limit, ends the form: its part and all after it are lost |
| `FormdataHeaderLines.DelimiterLineEnds` | src/server/fcgi_handler.cpp:279-290 | after a delimiter everything up to a line feed is skipped, and a dash before it ends the form |
| `FormdataRoundTrip.FieldNameIsQuoted` | src/server/fcgi_handler.cpp:113-124 | a name read from any header line stands in it in quotes after `name=` |
| `FormdataRoundTrip.ValueKeptIff` | src/server/fcgi_handler.cpp:332-371 | the exact condition on a value, the line end and the entry state under which it is read back unchanged |
| `FormdataRoundTrip.FormReadBack` | src/server/fcgi_handler.cpp:251-379 | an encoded form with CRLF or LF ends, after a preamble and with any accepted header lines in its parts, reads back as the first value of each name, cut to the buffer size, and finishes |
| `FormdataRoundTrip.ChunkedFormReadBack` | src/server/fcgi_handler.cpp:251-419 | the same through the byte machine, in any chunks, with any epilogue |
| `FormdataRequests.ClientFormIsStored` | src/server/fcgi_handler.cpp:383-419 | from Content-Type header and chunks to the stored map, with the server's own limits |
| `FormdataFields.FieldsAreStored` | src/server/fcgi_handler.cpp:383-419 | fields with or without a type, under any accepted Content-Type, in any chunks, are stored as the first value of each name cut to 131072 bytes, and nothing else is; names up to 472 bytes and types up to 497 fit the limit of 512 |
| `FormdataContentType.NoBoundaryIff` | src/server/fcgi_handler.cpp:192-200 | a Content-Type is refused for want of a boundary exactly when it has no semicolon |
| `FormdataContentType.NotMultipartIff` | src/server/fcgi_handler.cpp:202-206 | it is refused as another media type exactly when, with a semicolon, it does not begin with multipart/form-data in any case |
| `FormdataContentType.EmptyBoundaryIff` | src/server/fcgi_handler.cpp:208-220 | it is refused as empty exactly when a stop or nothing follows the first `boundary=` after the semicolon |
| `FormdataContentType.BoundaryGiven` | src/server/fcgi_handler.cpp:208-223 | otherwise the boundary is what follows that up to a stop, with any parameters before and after |
| `FormdataRequests.ContentLengthRefusedIff` | src/server/fcgi_handler.cpp:394-400 | a content length is refused exactly when the digits it starts with are zeros or missing |
| `FormdataRequests.MissingBoundaryIsNotReported` | src/server/fcgi_handler.cpp:208-214 | without `boundary=` the check cannot fire and the boundary is read from the header's own text |
| `ConnectionPool.DBPool.constructor` | src/db/db_pool.h:454-465 | a new pool is empty |
| `ConnectionPool.DBPool.Grow` | src/db/db_pool.h:475-486 | one more connection, in `m_all_connections` and in the count |
| `ConnectionPool.DBPool.Get` | src/db/db_pool.h:487-517 | grows exactly when nothing is counted available and fewer are counted than allowed, else waits on an empty list or pops the front; stamps the connection |
| `ConnectionPool.DBPool.GetAfterWait` | src/db/db_pool.h:505-510 | pops the front without looking at the list again |
| `ConnectionPool.DBPool.Put` | src/db/db_pool.h:519-528 | the connection goes to the back with a new stamp |
| `ConnectionPool.DBPool.Destroy` | src/db/db_pool.h:467-473 | the destructor's loop deletes every listed connection, once for each entry |
| `ConnectionPool.DBPool.Sweep` | src/db/db_pool.cpp:30-41 | the scan removes the first connection idle for 60 seconds and nothing else |
| `PoolMachine.StepKeepsInv` | src/db/db_pool.h:487-528 | every atomic step keeps the pool's invariant |
| `PoolMachine.EveryRunKeepsInv` | src/db/db_pool.h:475-579 | in all runs: counts exact and bounded, one place for every connection, one holder, list sorted by last use |
| `PoolMachine.GetTakesOldest` | src/db/db_pool.h:492-512 | in every reachable state with a connection available, `get` takes the oldest and makes none |
| `PoolMachine.GetMakesOrWaits` | src/db/db_pool.h:492-512 | with none available it makes one exactly when fewer are held than allowed, and waits otherwise |
| `PoolMachine.MadeIsPeak` | src/db/db_pool.h:475-528 | in every run without the reaper, as many connections are made as are held at once at some moment |
| `PoolProofs.SingleIfIsSafeIff` | src/db/db_pool.h:502-508 | the single `if` never pops from an empty list exactly when there are no more one-connection threads than connections, or no connections at all and no spurious wake-ups |
| `PoolProofs.EnoughConnectionsNeverWait` | src/db/db_pool.h:492-504 | with enough connections no thread waits or has been woken in any state of any run, and none pops from an empty list, with spurious wake-ups allowed |
| `PoolProofs.RunLosesNoWakeup` | src/db/db_pool.h:502-527 | in all runs, while threads wait, each available connection has a woken thread of its own |
| `PoolProofs.SingleIfNeverStrands` | src/db/db_pool.h:502-508 | under the single `if`, no run of any threads leaves a thread waiting in an empty pool with room to grow and no connection held |
| `PoolProofs.ReapedWakeupPopsEmpty` | src/db/db_pool.cpp:16-49 | under the single `if`, from every reachable state the reaper alone can make a woken thread pop from the empty list |
| `PoolProofs.ReaperStrandsWaiterIff` | src/db/db_pool.cpp:30-41 | were the wait re-checked, a run in which the reaper leaves a thread waiting in an empty pool with room to grow would exist exactly when there are more threads than connections, and at least one connection, allowed |
| `PoolReaper.SweepTakesOldest` | src/db/db_pool.cpp:19-41 | with a stale clock too, the sweep takes the head or nothing, never one idle under 60 seconds |
| `PoolReaper.QuietRun` | src/db/db_pool.cpp:16-49 | in every run without traffic, visits at any times remove and delete a beginning of the list, one for each visit that finds the head idle, and change nothing else |
| `PoolReaper.ReaperDrains` | src/db/db_pool.cpp:16-49 | without traffic, as many visits as connections after all are idle empty the list, and fewer visits never do; held connections stay counted |
| `PoolReaper.DestructorDeletesOnceIff` | src/db/db_pool.h:467-473 | in every run the deletes of each connection are counted; none is deleted twice exactly when the count of connections is the length of the list |
| `PoolReaper.DoubleDeleteIff` | src/db/db_pool.h:467-473 | a run that ends in a double delete exists exactly for pools that may hold a connection and have a thread |
| `JulianDay.DayNumberCountsDays` | src/server/date.h:131-145 | the floor formula is the count of days by month lengths and the 4/100/400 rule, plus a constant |
| `JulianDay.OrderIsomorphism` | src/server/date.h:131-145 | day numbers order dates as the calendar does and are distinct |
| `JulianDay.SuccessorAddsOne` | src/server/date.h:131-145 | the next calendar day has the next number |
| `JulianDay.DateRecovered` | src/server/date.h:32-45 | the printed fields of a date's day number are the date |
| `JulianDay.FieldsAreADate` | src/server/date.h:32-45 | every whole day from the first valid date to the last prints as a valid date with that number |
| `JulianDay.CountsDaysIff` | src/server/date.h:131-145 | for every day of every `unsigned int` year: the formula is the count of days less a given constant, and right exactly when neither `year--` nor `year + 4716` wraps |
| `Dates.EpochIsDate` | src/server/date.h:147-150 | seconds since the epoch give the day of the calendar so many whole days from 1 January 1970 |
| `Dates.ReadsDecimal` | src/server/date.h:115-129 | eight digits are read as four of the year, two of the month, two of the day, in decimal |
| `JulianDay.DateRecoveredIff` | src/server/date.h:32-45 | for every day of every `unsigned int` year: the fields printed for its day number are the date exactly when neither wraps |
| `Dates.PrintedDateConvertsBack` | src/server/date.h:47-60 | eight digits of a four-digit year convert back to the day |
| `Dates.WrittenDatePrintsBackIff` | src/server/date.h:115-129 | eight digits of a calendar date convert to a day that prints as the same digits, exactly when they are not of January or February of the year 0 |
| `Dates.QuantsCoverDay` | src/server/date.h:63-69 | the quanta of an instant's day contain its quarter hour and adjoin the next day's |
| `Dates.Date.AddDays` | src/server/date.h:87-90 | a date comes to print as the day so many calendar days later |
| `Dates.Date.SubtractDays` | src/server/date.h:92-95 | a date comes to print as the day so many calendar days earlier |
| `Dates.Date.Increment` | src/server/date.h:105-113 | a date that prints as a day comes to print as the next |
| `Dates.Date.Yyyymmdd` | src/server/date.h:32-61 | a date prints as its own eight digits |
| `Dates.Date.Equals` | src/server/date.h:97-103 | equality is equality of calendar days |
| `JsonObjects.SerializeString` | src/server/json.cpp:78-117 | the loop appends the quoted, escaped string |
| `JsonObjects.PrintObject` | src/server/json.cpp:119-166 | the loop appends the object's text, members in key order |
| `JsonObjects.PrintArray` | src/server/json.cpp:173-216 | the loop appends the array's text |
| `JsonObjects.JSONObject.Add` | src/server/json.h:80-98 | a key that is present keeps its value; the key order is kept |
| `JsonObjects.JSONArray.Add` | src/server/json.h:116-134 | the value goes to the end |
| `JsonProofs.EscapedAs` | src/server/json.cpp:78-117 | the text of each character: eight are written with a backslash, the slash among them, the others as they are |
| `Ordering.LessAtDifference` | src/server/json.h:105-105 | keys are in the order of the characters at which they first differ, and a beginning of a key is before it |
| `JsonObjects.FirstWinsIsFirst` | src/server/json.h:80-98 | the map of an object holds the first value added for each key and no other key |
| `JsonProofs.CharsReadBack` | src/server/json.cpp:78-117 | an escaped string is read back and ends at its own quote: none inside is unescaped; the strict reader rejects exactly the strings with a raw control byte or with octets that are not UTF-8 |
| `JsonProofs.ValueReadsBack` | src/server/json.cpp:78-216 | the reader applied to a printed value and any following text gives back both; the strict one does so exactly when every string is UTF-8 without an unescaped control byte, and else rejects |
| `JsonProofs.PrintedIsStandardIff` | src/server/json.cpp:78-216 | a printed document is read back under RFC 8259, UTF-8 included, exactly when every string and key is such a string |
| `JsonProofs.UniquelyDecodable` | src/server/json.cpp:119-216 | two printed documents that begin one text are the same document |
| `JsonObjects.PrintedAlikeIff` | src/server/json.h:80-98 | objects built by any additions print alike exactly when the first value of each key agrees |
| `Dispatch.Server.AddHandlerMapping` | src/server/fcgi_server.cpp:150-157 | registration into the exact or the prefix multimap, two characters cut off an exact one; throws exactly for a lone `=` |
| `Dispatch.Server.InvokeHandler` | src/server/fcgi_server.cpp:162-207 | the scans fire the last entry that matches, exact ones first |
| `Ordering.PrefixOrder` | src/server/fcgi_server.h:39-39 | among prefixes of one string the map's order is the order of length |
| `Dispatch.DispatchIsLongestPrefix` | src/server/fcgi_server.cpp:162-207 | exact first, else the longest prefix, latest among equals; not found exactly when nothing serves |
| `Dispatch.ExactLocationLosesSlash` | src/server/fcgi_server.cpp:151-153 | a lone exact location answers its path without the first character, and no other URI |
| `Dispatch.ExactLocationsMisservedIff` | src/server/fcgi_server.cpp:150-207 | for every list of registrations: any URI that no exact location is about is served as with a cut of one character, with distinct handlers only those are, and no exact location serves its own path |
| `Supervisor.MainProcess.AddFunction` | src/server/main.h:26-29 | the table keeps its key order, gains the function with no workers if it was not there, and keeps every other entry |
| `Supervisor.AddedFunctionsOrdered` | src/server/main.h:26-29 | the table stays ordered, holds the function, and loses none |
| `Supervisor.MainProcess.Spawn` | src/server/main.cpp:113-139 | the nested loops start workers until every minimum is met or a fork fails; each child that a fork returns is live and runs the function it was forked for |
| `Supervisor.MainProcess.Reap` | src/server/main.cpp:58-85 | a reported worker leaves the table, and the function read through the erased iterator loses one from its count |
| `Supervisor.MainProcess.Run` | src/server/main.cpp:50-104 | the loop takes the machine's turns until it exits |
| `SupervisorMachine.SpawnRecordsChildren` | src/server/main.cpp:113-139 | the table grows by exactly the children that the forks leave, each with what it runs |
| `SupervisorMachine.SpawnKeepsCounts` | src/server/main.cpp:113-139 | a failed fork leaves the accounts right; if none fails every function has its minimum |
| `SupervisorMachine.TurnStaffsIff` | src/server/main.cpp:58-102 | a turn before `m_exiting` is set leaves every function with its minimum of live workers exactly when as many forks succeed, before one fails, as workers are missing after the report |
| `Supervisor.EveryRunIsStaffedIff` | src/server/main.cpp:50-104 | the same at the end of every run before `m_exiting` is set, by its last turn |
| `SupervisorMachine.ReapedKeepsCountsIff` | src/server/main.cpp:64-81 | reaping leaves the accounts right exactly when the erased entry still reads as the function it held |
| `Supervisor.EveryRunIsAccounted` | src/server/main.cpp:50-104 | in every run the table is the live children with what they run; if erased entries read as they did, each counter is the number of live workers of its function, at most its minimum |
| `SupervisorMachine.ShutdownEndsIff` | src/server/main.cpp:87-104 | once exiting, every live child has been signalled, none is started, and the loop ends exactly when all children then live are reported |
| `Urls.Parse` | src/server/url.h:9-79 | the cursor computes the decomposition |
| `Urls.DecompositionIsLossless` | src/server/url.h:30-78 | the components joined are a beginning of the source, and all of it unless a port is followed by another character |
| `Urls.ComponentsReadBack` | src/server/url.h:9-79 | joined well-formed components are read back |
| `Urls.ThrowsIff` | src/server/url.h:30-57 | the constructor throws exactly when what follows the schema is a host, a colon and something that does not start with a digit |
| `QueryArgs.ParseWith` | src/server/fcgi_handler.cpp:430-472 | for any later separator the loop stores the arguments of its own segmentation, first value first |
| `QueryArgs.ParseQueryArgs` | src/server/fcgi_handler.cpp:430-472 | the loop as written, with `c` |
| `QueryArgs.QueryReadsBack` | src/server/fcgi_handler.cpp:430-472 | with `&` throughout, every list of arguments (with or without `=`, or empty) is read back, the first value of each name |
| `QueryArgs.FirstWinsIsFirst` | src/server/fcgi_handler.cpp:430-472 | that is, the value of the first argument of each name, an empty one without `=`, and no other name |
| `QueryArgs.EveryQueryIsEncoded` | src/server/fcgi_handler.cpp:430-472 | every query string is the encoding of such a list, so the law covers all of them |
| `QueryArgs.WrittenIsMeantIff` | src/server/fcgi_handler.cpp:456-456 | the segmentation with `c` is the one meant exactly when neither `&` nor `c` follows the first `&` |
| `QueryArgs.StoredAsMeantIff` | src/server/fcgi_handler.cpp:430-472 | for distinct names, the stored map is the one meant exactly when neither `&` nor `c` follows the first `&` |
| `QueryArgs.ThirdArgumentSwallowed` | src/server/fcgi_handler.cpp:456-456 | whatever the pairs, the third argument and all after it end up in the value of the second |
| `QueryArgs.StoredAsMeantWithoutCIff` | src/server/fcgi_handler.cpp:430-472 | for any names and no `c` after the first `&`: the stored map is the one meant exactly when no `&` follows, or the second argument has a `=` and all that are not empty have the name of the first, which is not empty |

## Left out

- FastCGI sockets and streams, accept threads, logging, daemonising and signal handlers; a body is a sequence of chunks of any size, though the code reads no more than 32768 bytes or CONTENT_LENGTH at a time.
- `DBStmt`, `DBScopedLock` and column conversion: calls into MySQL. Making a connection always succeeds; a connect that throws inside `get` would leave the mutex locked.
- The addresses of deleted connections: a new connection is distinct from every earlier one, and `m_last_used` is a map of the pool instead of a field of a connection object.
- Nested JSON containers are values: filling a container through the pointer that `add_object` or `add_array` returned, and the leak when the key was taken, are not modelled. Nor are floats, whose stream format loses digits, nor deletes.
- JsonProofs.ValueReadsBack: the readers reject `\u` escapes, fractions and literal names, which the printer never writes.
- `upload_shutdown_ctx`, `upload_abort_part`, `discard_data` and `first_part`: never reached or never set in the form parser.
- FormdataParser.BoundaryOf: a Content-Type value has no NUL, since it comes from a C string; quoted boundaries are taken with their quotes, as the code does.
- FormdataRoundTrip.FormReadBack: a preamble is whole lines without a delimiter in them; with one in the middle of a line, `SeekRefines` says what is recognised.
- QueryArgs.StoredAsMeantIff: names are distinct; with repeated names and a `c` after the first `&` it is not said when the stored maps agree.
- Supervisor.MainProcess.Reap: reading through the erased iterator (main.cpp:79-80) gives some function; that C++ promises nothing of a program that does it is not modelled.
- IEEE rounding in `Date`: reals are exact. Digits of years above 9999 are printed modulo 10000, as in the code.
- `PoolMachine` orders no waiting threads: a signal may wake any of them.
- `libxml`, regular-expression, Gearman and lock wrappers, `wp_handler` and `sitemap_handler`: library calls and SQL or XML output.
