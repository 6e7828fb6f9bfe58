# HERE Tracking C client: a verified model

The HERE Tracking client is a small HTTP and OAuth library for embedded devices. It keeps one
256-byte window and a few fixed buffers, talks to an abstract TLS byte pipe, and has to work for
whatever way the network cuts the bytes and whatever the clock says. This project models its
library core in Dafny and proves what that core is for.

The code works by changing things in place, so each of its objects is a class whose methods follow
the C functions branch by branch (parser, buffers, writer, scanner, receive contexts, client). Each
method is proved against a function of values, and the theorems are about those functions:

* **Receiving** (`HttpGrammar`, `HttpParser`, `Fragmentation`, `Receiver`). The parser loop and the
  window loop of `recv_resp` are compared with one run over the whole stream. `Atoms` forgets how
  the body was cut; everything else must agree exactly.
* **Round trip** (`RoundTrip`, `Delivery`, `Language`). A response is printed after RFC 7230 and read
  back, through the parser and through the window; and nothing but printed responses is read.
* **Consumers** (`AuthScanner`, `KeyMatcher`, `AuthTheory`, `BodyTheory`, `Authentication`,
  `Leftovers`, `EventProtocol`, `LegacySend`, `Replies`). The token scanner, the user's receive
  callback and the truncating receiver, on any stream and then on printed responses; which
  bodies give the client a token, and what failed sessions leave behind.
* **Sending** (`DataBuffer`, `TlsWriter`, `Requests`, `Chunked`). Buffered writes over partial TLS
  writes, the header sections, and a decoder for chunked coding that gives back what was sent.
* **Text** (`Utils`, `Percent`, `OAuth`, `Uuid`). Numbers with wrapping divisors, percent encoding,
  the OAuth header and base string against RFC 5849, seeds.
* **Client** (`Runs`, `Tracking`). Whole runs of a client: a history of authentications and sends
  that every method keeps possible, and what follows from it.

* **Wire** (`Wire`). The texts that come and go, in literal bytes and numbers: status codes, field
  names, token responses, requests.

32-bit and 16-bit arithmetic is written out as `% TWO_32` and `% TWO_16`; `int32` and `uint32` are
subset types. Bytes are integers below 256.

## Where the obvious claim fails

The following are results about the code, each with its exact condition.

* *Splitting the input never matters.* It matters exactly when the parse loop finds the response
  complete with bytes left (`Fragmentation.FragmentationExact`). In terms of the message that is a
  body longer than announced, or an announced size of 0 or at least 2^31 with body bytes behind it
  (`CleanMeaning`): the completeness test at line 167 of the parser is signed. With nothing left to
  receive the loop then repeats one state (`OnlyCompleteSticks`) and reports empty fragments, as no
  other call does (`EmptyFragments`), until the callback interrupts it (`HttpParsers.HttpParser.Parse`).
* *The parse loop comes back.* Behind a printed header section it gets stuck if and only if more
  bytes follow than the announced size, read without its sign, has room for
  (`RoundTrip.StuckExactly`).
* *A success means the body was handed over.* It does if and only if the announced size is below
  2^31 (`EventProtocol.SessionProtocol`, for every receive callback). A larger one, with nothing
  behind the header section, is a successful response of which only the size is handed over
  (`Replies.HugeSizeTaken`).
* *A session that succeeds has read a response as RFC 7230 writes it.* What it has read is a printed
  response (`Language.SuccessExactly`), but the grammar is wider: a version may have more than one
  dot, a reason phrase may begin with a line end, and fields of 2^16 bytes or more are reported with
  their sizes cut (`RoundTrip.RunReadable`, `Wire.ReadableBytes`).
* *A key in the token response is found.* The matcher does not look at a mismatching byte again. An
  occurrence of a key is found if and only if its first quote is taken for the beginning of a key
  (`KeyMatcher.FoundExactly`), which `KeyMatcher.Open` reads off the text in front of it: it is not
  if the text since the last quote is so far that of the key and that quote was taken for one.
  So n more quotes in front of a key hide it if n is odd and uncover it again if n is even
  (`QuotesAlternate`).
* *Authentication that returns OK has stored a token.* A response gives a token to every client,
  whatever its clock and the bytes in its token buffer, if and only if it is a success and its body
  carries that token and an expiry of that value (`Authentication.GrantsExactly`): it holds both, in
  either order, or it ends inside the token, behind the expiry, with a NUL as its last byte. Without
  a NUL in the body that is: if and only if the body holds both (`GrantsHeld`). A result of OK says
  less. The client reads a token afterwards if and only if the body puts one (`ReadableExactly`);
  for example a 200 response without the keys is accepted (`OkWithoutToken`). The next request then
  fails before its body is sent, because the writer refuses the empty token
  (`Tracking.Client.HttpSendStream`).
* *A failed authentication leaves no token.* It leaves none if and only if the body bytes that were
  delivered put none (`Leftovers.LeftExactly`, `Tracking.Client.Authenticate`). A stream that breaks
  off inside the token, behind a complete expiry, leaves its beginning, unterminated
  (`Authentication.BrokenTokenKept`). The gate takes it for a valid token
  (`Replies.BrokenTokenPasses`), and the next send goes out with it and with what an older token had
  in the bytes behind it (`Replies.BrokenTokenSent`).
* *The base string is that of RFC 5849.* It is, if and only if host and device id consist of
  unreserved characters: both are written without encoding (`OAuthText.BaseStringExact`).
* *A token is used only while it has ten minutes left.* The sum of clock and offset is taken in 32
  bits, and the test is right for every expiry if and only if that sum does not wrap
  (`Runs.ExpiryTestExact`).
* *A Retry-After holds the client back for so many seconds.* The retry time is added in 32 bits, and
  the test against it is right for every reading if and only if the sum does not wrap
  (`Runs.RetryTestExact`); behind that the retry time is already past when it is stored
  (`Replies.PrintHoldsBack`).
* *Seeds increase.* They do if and only if last seed and clock readings leave room in 32 bits for
  one more seed per call (`Seeds.SeedsIncrease`). As long as they do, no two token requests of a
  client use the same seed for their nonces (`Seeds.SeedNotRepeated`, with the seeds that
  `Tracking.Client.HttpAuth` and all methods above it account for).
* *A client that has been initialised can send.* With an empty base URL, which `init` accepts, or an
  empty correlation id no request leaves the device, because the writer refuses the empty field
  (`Requests.WriteHead`, `Tracking.Client.HttpAuth`, `Tracking.Client.HttpSendStream`).

## Model

| member | source | states |
|---|---|---|
| Utils.Atou | src/here_tracking_utils.c:55-73 | the 32-bit value of the longest digit prefix of the text; one readable byte behind the text is enough |
| Utils.MemCaseCmp | src/here_tracking_utils.c:98-112 | zero if and only if at every place the bytes are equal or the same ASCII letter in upper and lower case |
| Utils.CaseIgnored | src/here_tracking_utils.c:98-112 | the comparison of field names ignores the case of the letters 65..90 and 97..122 and nothing else |
| Utils.ValueByNumber | src/here_tracking_utils.c:55-73 | the value of decimal digits, by number |
| Utils.DigitsValue | src/here_tracking_data_buffer.c:128-176 | canonical digits denote the number they were made from, in base 10 and 16 |
| Utils.DigitsShape | src/here_tracking_data_buffer.c:128-176 | canonical digits have no leading zero and are 0..9, and with base 16 also A..F |
| Utils.AtouOfDigits | src/here_tracking_utils.c:55-73 | atou of the base-10 digits of any 32-bit number is that number |
| DataBuffers.DataBuffer.constructor | src/here_tracking_data_buffer.c:35-50 | an empty buffer over the caller's memory |
| DataBuffers.DataBuffer.AddChar | src/here_tracking_data_buffer.c:54-73 | appends if and only if there is room and changes nothing behind the capacity |
| DataBuffers.DataBuffer.AddString | src/here_tracking_data_buffer.c:77-99 | appends all or nothing |
| DataBuffers.DataBuffer.AddData | src/here_tracking_data_buffer.c:103-124 | appends all or nothing and refuses empty data |
| DataBuffers.DataBuffer.AddUtoa | src/here_tracking_data_buffer.c:128-176 | appends exactly the canonical digits for every 32-bit number in base 10 and 16, at most ten, all or nothing |
| DataBuffers.NumeralSize | src/here_tracking_data_buffer.c:136-143 | the size loop finds the number of digits although its divisor wraps to 10^10 mod 2^32 or to 0, and never divides by 0 |
| DataBuffers.PutDigits | src/here_tracking_data_buffer.c:150-165 | the digit loop writes the digits at their places and nothing else |
| DataBuffers.LastDivisor | src/here_tracking_data_buffer.c:136-143 | the wrapped divisor stops the loop at the right size |
| TlsPipe.Tls.Write | include/here_tracking_tls.h:109-122 | a successful write takes a non-empty prefix of the data |
| TlsPipe.Tls.Read | include/here_tracking_tls.h:94-107 | a successful read yields a non-empty prefix of what is still to come, inside the given part of the buffer |
| TlsWriters.TlsWriter.constructor | src/here_tracking_tls_writer.c:33-49 | an empty writer |
| TlsWriters.TlsWriter.Flush | src/here_tracking_tls_writer.c:150-179 | partial writes add up: everything buffered is sent and the buffer is empty; after a failure a prefix was sent and the buffer keeps its bytes |
| TlsWriters.TlsWriter.WriteData | src/here_tracking_tls_writer.c:61-107 | sent and buffered bytes together grow by exactly the data; the buffer is never left full; whatever happens TLS has a prefix of what was handed in |
| TlsWriters.TlsWriter.Absorb | src/here_tracking_tls_writer.c:71-104 | one round takes at least one byte, so the loop ends and the split path never adds nothing |
| TlsWriters.TlsWriter.WriteChar | src/here_tracking_tls_writer.c:53-57 | as WriteData for one byte |
| TlsWriters.TlsWriter.WriteUtoa | src/here_tracking_tls_writer.c:126-146 | as WriteData for the canonical digits |
| Chunked.SendChunk | src/here_tracking_http.c:1021-1039 | appends one chunk in the form of section 4.1 of RFC 7230 |
| Chunked.UploadExactly | src/here_tracking_http.c:414-419 | the upload of a callback is exactly its answers up to the first without data, in order; a refusal in between means none |
| Chunked.SendAnswers | src/here_tracking_http.c:414-419 | sends the callback's data until it answers with none; a refusal ends it with a prefix sent |
| Chunked.SendBody | src/here_tracking_http.c:414-422 | what TLS has after the flush decodes to the concatenation of the callback's data, ending right behind the zero chunk |
| Chunked.DecodeChunkText | src/here_tracking_http.c:1021-1039 | a decoder reads any chunk back, whatever its data looks like |
| Chunked.DecodeChunkedText | src/here_tracking_http.c:414-422 | decoding an upload gives back its data and exactly the bytes behind it |
| Requests.WriteField | src/here_tracking_http.c:64-68 | writes one header field; an empty value is refused |
| Requests.WriteHead | src/here_tracking_http.c:189-235 | writes the header section up to the credentials, if and only if host and correlation id are not empty |
| Requests.WriteCredentials | src/here_tracking_http.c:408-412 | writes the credentials and the end of the section; an empty value is refused before anything is written |
| HttpParsers.HttpParser.constructor | src/here_tracking_http_parser.c:75-94 | the initial state |
| HttpParsers.HttpParser.Fire | src/here_tracking_http_parser.c:231-232 | the callback's answer becomes CLIENT_INTERRUPT or OK |
| HttpParsers.HttpParser.ParseVersion | src/here_tracking_http_parser.c:191-261 | decides as the grammar's version element; numbers are cut to 16 bits |
| HttpParsers.HttpParser.ParseStatusCode | src/here_tracking_http_parser.c:265-313 | decides as the status element; 204 announces size 0, and the callback's answer to the status is overruled by its answer to the size |
| HttpEvents.StatusAnswer | src/here_tracking_http_parser.c:284-297 | with 204 only the answer to the size event counts, with any other status the answer to the status does |
| HttpParsers.HttpParser.ParseReason | src/here_tracking_http_parser.c:317-356 | decides as the reason element |
| HttpParsers.HttpParser.HdrEnd | src/here_tracking_http_parser.c:360-380 | the blank line is accepted if and only if the body size is known |
| HttpParsers.HttpParser.BuildHdrEvt | src/here_tracking_http_parser.c:384-421 | splits a line at its first colon with 16-bit sizes, or rejects it |
| HttpParsers.HttpParser.ParseHdr | src/here_tracking_http_parser.c:425-488 | decides as the header element; Content-Length also announces the size |
| HttpParsers.HttpParser.ParseBody | src/here_tracking_http_parser.c:492-523 | decides as the body element |
| HttpParsers.HttpParser.Parse | src/here_tracking_http_parser.c:98-187 | for every input on which the loop comes back result, state, consumed bytes and callback data are those of the run; a stuck run ends when the callback interrupts at one of its empty fragments |
| Fragmentation.ElementStable | src/here_tracking_http_parser.c:191-523 | a sub-parser that has decided on some bytes decides the same with more bytes behind them |
| Fragmentation.ElementTight | src/here_tracking_http_parser.c:191-523 | a sub-parser that accepts needs no byte behind what it consumes |
| Fragmentation.BodySplits | src/here_tracking_http_parser.c:492-523 | a body taken in two pieces adds up to the body taken at once |
| Fragmentation.Resume | src/here_tracking_http_parser.c:98-187 | a call that ran out of data and a call on its unconsumed tail and more bytes compose to one call |
| Fragmentation.OnlyCompleteSticks | src/here_tracking_http_parser.c:502-508 | exactly one state makes an iteration succeed without progress, and it repeats itself |
| Fragmentation.EmptyFragments | src/here_tracking_http_parser.c:502-522 | a call reports an empty body fragment if and only if it is stuck |
| Fragmentation.CleanReturns | src/here_tracking_http_parser.c:109-157 | without surplus bytes the loop ends, and OK means that all input was consumed |
| Fragmentation.FeedMatches | src/here_tracking_http_parser.c:98-187 | from any state, any fragments behind any tail give events, state, return code and consumed count of one call |
| Fragmentation.DirtyCut | src/here_tracking_http_parser.c:162-177 | otherwise there is a cut that changes the result, and where |
| Fragmentation.FragmentationExact | src/here_tracking_http_parser.c:98-187 | the result is the same for all cuts if and only if the loop never finds the response complete with bytes left |
| Fragmentation.CleanMeaning | src/here_tracking_http_parser.c:162-177 | that condition in terms of announced size n and body: empty, or 0 < n < 2^31 and at most n bytes |
| Receiver.Refill | src/here_tracking_http.c:892-903 | the unparsed bytes move to the front and the new ones follow them |
| Receiver.WindowStep | src/here_tracking_http.c:885-906 | one window full, and what the loop makes of the rest |
| Receiver.FeedIsWindowed | src/here_tracking_http.c:885-906 | invariant of every delivery: what was reported and what window and unread bytes still hold make up what the stream reports |
| Receiver.WindowedExact | src/here_tracking_http.c:875-916 | the window makes no difference if every line fits into it, and the session fails if one does not |
| Receiver.SessionResult | src/here_tracking_http.c:875-916 | result and callback data of every delivery are those the stream determines |
| Receiver.CleanComesBack | src/here_tracking_http_parser.c:109-157 | without bytes left over the calls of parse come back on every connection and with every callback |
| Receiver.EmptyReadRepeats | src/here_tracking_http.c:890-906 | a read that succeeds without a byte, in front of a partial element, leaves the loop in the same state |
| Receiver.RecvResp | src/here_tracking_http.c:875-916 | on every connection on which the calls of parse come back the loop ends, every read asks for at least one byte inside the buffer, and the result is that of the session; without bytes left over it does not depend on the sizes of the reads |
| Language.ReadsOnly | src/here_tracking_http_parser.c:191-488 | whatever the parser takes for a header section is the printed form of one |
| Language.HeadExactly | src/here_tracking_http_parser.c:98-187 | the parser gets past the header section of exactly the streams that begin with a printed one, with fields of any length |
| Language.SuccessExactly | src/here_tracking_http.c:875-916 | a session that is not interrupted succeeds on exactly the streams that are one printed response, whose lines fit the window, with the body it announces |
| RoundTrip.PrintParse | src/here_tracking_http_parser.c:98-523 | parsing a printed response reports exactly its fields, in order, with the size behind Content-Length, and consumes it all |
| RoundTrip.RunReadable | src/here_tracking_http_parser.c:98-523 | a printed header section with fields of any length is read with key and value cut to their 16-bit sizes |
| RoundTrip.RunFields | src/here_tracking_http_parser.c:425-488 | any list of header lines is read back |
| RoundTrip.HeadClean | src/here_tracking_http_parser.c:162-177 | what may follow a header section without bytes being left over, in terms of the size it announces |
| RoundTrip.StuckExactly | src/here_tracking_http_parser.c:109-157 | behind a printed header section the parse loop gets stuck if and only if more bytes follow than the announced size, taken as unsigned |
| RoundTrip.AnnouncedDigits | src/here_tracking_http_parser.c:459-471 | a Content-Length printed with the library's own digits announces that size |
| Delivery.PrintFits | src/here_tracking_http.c:885-906 | a printed response fits the window if and only if its status-line parts and header lines do |
| Delivery.BrokenDelivered | src/here_tracking_http.c:875-916 | a response that breaks off inside its body is reported as far as it goes, and fails |
| Delivery.HeadDelivered | src/here_tracking_http.c:875-916 | a header section that announces no body, or 2^31 bytes or more, is a complete response |
| Delivery.PrintDelivered | src/here_tracking_http.c:875-916 | through the window a printed response comes out as its fields and its body if they fit, and fails if not |
| AuthScanner.AuthData.constructor | src/here_tracking_http.c:920-935 | auth_data_init |
| AuthScanner.AuthData.AuthDone | src/here_tracking_http.c:939-955 | both found, or the unfinished search starts afresh |
| AuthScanner.AuthData.ScanBody | src/here_tracking_http.c:629-750 | the byte loop is the scan of the body; token writes stay inside the buffer |
| AuthScanner.AuthData.Receive | src/here_tracking_http.c:587-759 | the callback in place is the callback on values |
| AuthScanner.ScanAppend | src/here_tracking_http.c:629-750 | scanning two pieces one after the other is scanning them at once |
| AuthScanner.AuthSplittable | src/here_tracking_http.c:587-759 | the token callback cannot tell how the body was cut |
| KeyMatcher.MatchSound | src/here_tracking_http.c:649-675 | a counter of k means that the last k bytes are the first k of the key; a finished search has seen the key |
| KeyMatcher.Counter | src/here_tracking_http.c:653-674 | the counter of an unfinished search, read off the text |
| KeyMatcher.FoundExactly | src/here_tracking_http.c:653-674 | a key is found if and only if one of its occurrences begins at a quote that the text in front of it leaves open |
| KeyMatcher.FindsExactly | src/here_tracking_http.c:653-674 | where a key is found first, in terms of the text |
| KeyMatcher.ForeignOpens | src/here_tracking_http.c:655-665 | behind a byte foreign to the key a quote is always open |
| KeyMatcher.QuotesAlternate | src/here_tracking_http.c:655-665 | behind a foreign byte and n quotes a key is found if n is even and missed if n is odd |
| KeyMatcher.NeverBoth | src/here_tracking_http.c:649-675 | no byte completes both keys |
| AuthTheory.ScanInvariant | src/here_tracking_http.c:629-750 | in every reachable state the counters are sound and all indices inside their bounds |
| AuthTheory.NeverBothReached | src/here_tracking_http.c:649-675 | in no reachable state of a scan does one byte complete both searches |
| AuthTheory.TokenWrittenOnce | src/here_tracking_http.c:684-713 | the token states are left for good and the token buffer is not written again |
| AuthTheory.ScanTokenFirst | src/here_tracking_http.c:629-750 | a body with both keys, token first: token and terminator stored, expiry is digits plus clock mod 2^32, scan finished |
| AuthTheory.ScanExpiryFirst | src/here_tracking_http.c:629-750 | the same with the expiry first |
| AuthTheory.ScanTokenTooLong | src/here_tracking_http.c:704-710 | a token of 1024 bytes or more gives BUFFER_TOO_SMALL and an empty token |
| BodyTheory.StopsExactly | src/here_tracking_http.c:629-750 | the scan of a body stops with its status unchanged if and only if the body holds a token that fits and an expiry, in either order |
| BodyTheory.PlainHolds | src/here_tracking_http.c:653-713 | in terms of the text: a body with both keys behind bytes foreign to them, in either order, holds the token and the expiry behind them |
| BodyTheory.GivenCarried | src/here_tracking_http.c:629-750 | what a body gives to every client at every clock it carries: it holds token and expiry, or ends with a NUL inside the token |
| BodyTheory.CarriedGiven | src/here_tracking_http.c:629-750 | a body that carries a token and an expiry gives them to every client at every clock |
| BodyTheory.NeverOutlived | src/here_tracking_http.c:939-955 | no scan goes on behind the end of the second of token and expiry |
| BodyTheory.ClockFree | src/here_tracking_http.c:718-750 | before the end of the expiry no scan depends on the clock |
| BodyTheory.ReadsExactly | src/here_tracking_http.c:629-750 | a client without a token reads one after the scan if and only if the body opens a token whose first byte is neither the closing quote nor NUL and which is not too long |
| Authentication.ReceiveAuth | src/here_tracking_http.c:248-258 | on every connection on which the calls of parse come back, the result is that of the session; without bytes left over outcome and client are those the stream determines, unless the connection fails first |
| Authentication.AuthPrinted | src/here_tracking_http.c:167-265 | the outcome for any printed response, however it is cut, from status, fields and body alone |
| Authentication.HoldsGrants | src/here_tracking_http.c:167-265 | a response with status 200 or 204 whose body holds token and expiry, in either order, stores them and returns OK for every client and every delivery |
| Authentication.GrantsExactly | src/here_tracking_http.c:167-265 | a response grants this token and this expiry to every client, whatever its clock and memory, if and only if its status is 200 or 204 and its body carries them |
| Authentication.GrantsHeld | src/here_tracking_http.c:167-265 | a response without a NUL in its body grants some token if and only if it is a success whose body holds a token and an expiry |
| Authentication.StopsItself | src/here_tracking_http.c:684-750 | the scan ends the session itself, with status OK, if and only if the response is a success whose body holds a token and an expiry; these are then stored |
| Authentication.ReadableExactly | src/here_tracking_http.c:167-265 | the client reads a token after authentication if and only if the response is a success and its body puts one; then the result is OK |
| Authentication.TooLongRefused | src/here_tracking_http.c:704-710 | 1024 bytes without a closing quote: the whole authentication fails with BUFFER_TOO_SMALL and no token, wherever the expiry is |
| Authentication.OkWithoutToken | src/here_tracking_http.c:255-258 | a success response without the keys returns OK and changes nothing |
| Authentication.MismatchExactly | src/here_tracking_http.c:602-625 | TIME_MISMATCH if and only if 401, server time given and clock working; then the difference is stored |
| Authentication.RefusedUntouched | src/here_tracking_http.c:959-1017 | every status but 200 and 204, with or without a server time, is passed on as the error of its number and leaves the client alone |
| Authentication.BrokenTokenKept | src/here_tracking_http.c:700-713 | authentication fails on a stream broken inside the token, and leaves its beginning beside a complete expiry |
| Leftovers.OneStatusFeed | src/here_tracking_http_parser.c:98-187 | on every delivery there is no status code behind a header field |
| Leftovers.FoldTold | src/here_tracking_http.c:587-759 | what the events of any session make of token and expiry: the scan of the delivered body bytes, if the status maps to OK, and nothing if not |
| Leftovers.LeftExactly | src/here_tracking_http.c:587-759 | for every stream without bytes left over and every delivery, failed or not, a client without a token reads one afterwards if and only if the delivered body bytes put one |
| SendResponse.ReceiveContext.Receive | src/here_tracking_http.c:763-850 | the callback in place is the callback on values |
| EventProtocol.ReplayFeed | src/here_tracking_http_parser.c:459-471 | on every delivery sizes and statuses precede the body and the fragments count it down to its last |
| EventProtocol.FoldHands | src/here_tracking_http.c:763-850 | for all events, every receive callback gets the calls they call for, in order, up to the first data it refuses |
| EventProtocol.SessionProtocol | src/here_tracking_http.c:763-850 | for every receive callback a successful session has SIZE(n), the body in order, one COMPLETE with the mapped status, and nothing else; it gets all of it unless it refuses data; only SIZE(n) if n is 2^31 or more |
| EventProtocol.RefusalStops | src/here_tracking_http.c:807-811 | refused data is the last thing any callback gets, and the only way it stops the parser; what it gets is a beginning of what the events call for |
| LegacySend.SendRecvCtx.Receive | src/here_tracking_http.c:1067-1107 | recv_cb in place is recv_cb on values, inside the buffer |
| LegacySend.LegacySession | src/here_tracking_http.c:1067-1107 | every delivery leaves the body cut to the buffer's size, and BUFFER_TOO_SMALL exactly when it was cut |
| LegacySend.LegacyResult | src/here_tracking_http.c:1067-1107 | the same for every result that is not an error |
| Percent.PercentEncode | src/here_tracking_oauth.c:334-359 | appends the encoding, or as much of it as fits; correct for bytes of 128 and more, whose shift is signed |
| Percent.SignedShift | src/here_tracking_oauth.c:326-330 | the masked arithmetic shift of a signed char gives the upper hex digit |
| Percent.EncodeAppend | src/here_tracking_oauth.c:334-359 | encoding distributes over concatenation |
| Percent.DecodeEncode | src/here_tracking_oauth.c:334-359 | decoding the encoding gives every byte string back |
| Percent.EncodeInjective | src/here_tracking_oauth.c:334-359 | different texts have different encodings |
| Percent.EncodeLength | src/here_tracking_oauth.c:334-359 | two more bytes for every reserved byte |
| Percent.EncodeIdentity | src/here_tracking_oauth.c:345-348 | text is its own encoding if and only if it is unreserved |
| Percent.EncodeByNumber | src/here_tracking_oauth.c:345-354 | a byte is left alone if and only if it is 0..9, A..Z, a..z or one of - . _ ~, by number |
| Percent.EncodeEscaped | src/here_tracking_oauth.c:334-359 | only escapes with upper-case digits and the bytes 0..9, A..Z, a..z, - . _ ~ |
| OAuthText.PairsSorted | src/here_tracking_oauth.c:152-156 | the parameters are written in the order section 3.4.1.3.2 of RFC 5849 sorts them |
| OAuthText.BaseStringExact | src/here_tracking_oauth.c:481-518 | the piecewise base string is that of section 3.4.1.1 of RFC 5849 if and only if host and device id are unreserved |
| OAuth.StillPointsTo | src/here_tracking_oauth.c:193-302 | appending leaves the pairs the pointers point at alone |
| OAuth.AddNonce | src/here_tracking_oauth.c:216-234 | the nonce has ten digits drawn from the next seed, which is greater than the last one if and only if that was not the greatest number |
| OAuth.NonceDrawn | src/here_tracking_oauth.c:383-392 | every digit of a nonce is a random number of its own, drawn from its seed |
| OAuth.AddTimestamp | src/here_tracking_oauth.c:261-280 | the timestamp is clock plus difference in 32 bits, at most ten digits |
| OAuth.AddPairs | src/here_tracking_oauth.c:152-156 | five pairs in the header, and after all appends every pointer still points at its pair |
| OAuth.CreateBaseString | src/here_tracking_oauth.c:481-519 | the text signed through the pointers is the base string of the pairs in the header |
| OAuth.SignWork | src/here_tracking_oauth.c:436-462 | base string, key and HMAC side by side; the Base64 text replaces the base string without touching the HMAC it is made from |
| OAuth.AddSignatureVal | src/here_tracking_oauth.c:412-477 | appends the encoded signature of exactly those pairs |
| OAuth.WorkFits | src/here_tracking_oauth.c:412-477 | base string, key and HMAC take at most 316 of 384 bytes for any clock and difference |
| OAuth.CreateHeader | src/here_tracking_oauth.c:133-176 | no append fails for a base URL of at most 31 bytes; at most 325 of 384 bytes; the header is, byte by byte, that of the pairs that were signed, with an escaped signature that decodes to the Base64 text of their HMAC |
| OAuth.HeaderInBytes | src/here_tracking_oauth.c:133-176 | the header in literal bytes; the text under its signature is the base string of section 3.4.1.1 of RFC 5849 if host and device id are unreserved |
| Seeds.SeedSource.Next | src/here_tracking_uuid_gen.c:60-73 | the seed of one call |
| Seeds.SeedSource.Run | src/here_tracking_oauth.c:363-381 | the seeds of a run of calls |
| Seeds.SeedsIncrease | src/here_tracking_uuid_gen.c:60-73 | the seeds increase strictly, whatever the clock does, if and only if last seed and readings leave room for them in 32 bits |
| Seeds.IncreasingDistinct | src/here_tracking_oauth.c:363-381 | increasing seeds are distinct |
| Seeds.SeedNotRepeated | src/here_tracking_oauth.c:371-381 | over the whole life of a generator, and as long as its seeds have room in 32 bits, the seed made last is greater than every one before |
| Uuid.New | src/here_tracking_uuid_gen.c:40-94 | 36 characters with dashes and version at their places and a terminator, or BUFFER_TOO_SMALL |
| Uuid.UuidLayout | src/here_tracking_uuid_gen.c:75-88 | the layout of every identifier |
| Uuid.UuidDrawn | src/here_tracking_uuid_gen.c:98-114 | the thirty free places of an identifier are the first thirty random numbers of its seed, in lower-case hex |
| Network.Environment.Connect | src/here_tracking_http.c:854-871 | the next connection, or its error |
| Network.Environment.Now | include/here_tracking_time.h:50-57 | the next reading of the clock, or its error |
| Runs.ExpiryTestExact | src/here_tracking.c:200-202 | the expiry test is right for every expiry if and only if clock plus offset stays below 2^32; behind that an expired token passes |
| Runs.RetryTestExact | src/here_tracking.c:212-225 | the test against the retry time is right for every reading if and only if clock plus delay stays below 2^32; if it does not, the retry time is less than the clock already |
| Runs.SendsAdmitted | src/here_tracking.c:132-189 | in every run every send was made with the retry time passed; if authentication was called for it that had just returned OK, if not the token was good for ten minutes |
| Runs.RejectionRenews | src/here_tracking_http.c:441-446 | after a send that was answered UNAUTHORIZED or FORBIDDEN the next step of every run is an authentication |
| Runs.RetryHonoured | src/here_tracking.c:212-225 | the retry time left by one send holds back the next, whatever authentications lie between |
| Runs.RequestsBounded | src/here_tracking.c:111-128 | a run makes one or two token requests for each authentication |
| Tracking.Client.constructor | src/here_tracking.c:42-71 | an initialised client has no token and an empty history |
| Tracking.Client.MakeHeader | src/here_tracking_http.c:232-237 | a client's header is made without error for every clock that answers twice; its nonce comes from the next seed |
| Tracking.Client.WriteAuthRequest | src/here_tracking_http.c:189-245 | the token request carries the OAuth header stamped with the corrected clock; it can be written if and only if the clock answers twice and host and correlation id are not empty |
| Tracking.Client.ReadToken | src/here_tracking_http.c:247-258 | the client is set from the session on every connection on which the calls of parse come back; without bytes left over the outcome is that of the response unless the connection fails, and however the session ends, a token can be read afterwards if and only if the delivered bytes put one |
| Tracking.Client.HttpAuth | src/here_tracking_http.c:167-265 | one connection; result and client are those the stream determines; the request, with the nonce of the seed just made, is answered if and only if connection, clock, host and correlation id allow it |
| Tracking.Client.Ask | src/here_tracking.c:119-124 | at most two requests, the second only after TIME_MISMATCH, stamped with the corrected time and with a nonce of the next seed |
| Tracking.Client.Authenticate | src/here_tracking.c:111-128 | the token is forgotten first; result and requests are those the answers determine; afterwards, failed or not, a token can be read if and only if the last answer put one; keeps the history possible |
| Tracking.Client.CheckRateLimit | src/here_tracking.c:212-225 | TOO_MANY_REQUESTS if and only if the clock answers and the retry time lies ahead |
| Tracking.Client.UpdateTokenIfNeeded | src/here_tracking.c:193-208 | authenticates if and only if the clock answers and the token is empty or about to expire, and then leaves what authentication leaves |
| Tracking.Client.PassGate | src/here_tracking.c:141-146 | stops a call exactly when clock or rate limit say so, lets it through at once exactly when the token is good, and authenticates once otherwise; whatever passes is admitted by the history |
| Tracking.Client.WriteSendRequest | src/here_tracking_http.c:323-422 | the request is the header section, the stored token and the chunked body; it can be written if and only if none of host, correlation id and token is empty and the upload is not refused |
| Tracking.Client.HttpSendStream | src/here_tracking_http.c:313-453 | with an empty token nothing behind the header section is sent; on a connection that does not fail the request is answered if and only if it can be written; the response reaches the callback; 401 and 403 clear token and expiry and nothing else does |
| Tracking.Client.ReceiveReply | src/here_tracking_http.c:424-446 | what the response makes of callback, retry time, token and expiry, on every connection on which the calls of parse come back |
| Tracking.Client.HttpSend | src/here_tracking_http.c:269-309 | request and response share a buffer: what was sent decodes to its old contents, what it holds is the response cut to size, and the report says which |
| Tracking.Client.SendStream | src/here_tracking.c:159-189 | gate, then send: sends if and only if the gate lets it; the history gets a step that says what the two clock readings and the client were; a call that is stopped touches neither history nor network; a renewed token is the one sent; UNAUTHORIZED and FORBIDDEN clear token and expiry and nothing else does |
| Tracking.Client.Send | src/here_tracking.c:132-155 | gate, then the buffer-based send, with the same dispatch and the same step in the history |
| Tracking.RequestDecodes | src/here_tracking_http.c:410-422 | what follows the token in a request decodes to the data of the chunks |
| Replies.ReplyDecides | src/here_tracking_http.c:771-797 | for every stream without bytes left over, every delivery and every callback, also one that refuses, a successful send leaves status and retry time of the response |
| Replies.PrintAnnounces | src/here_tracking_http.c:1067-1107 | a printed response with one length announces its body with the error of its status number |
| Replies.PrintDecides | src/here_tracking_http.c:771-797 | status number and last Retry-After field of a printed response decide; the error of every number is named |
| Replies.PrintHoldsBack | src/here_tracking.c:212-225 | after a printed response with a Retry-After the next send of the run is not made before that many seconds have passed, if their sum with the clock stays below 2^32; if not, the retry time is past at once |
| Replies.SendAnswered | src/here_tracking_http.c:441-446 | a send answered with a printed response: 401 and 403 make the client forget token and expiry, and no other status does |
| Replies.PrintProtocol | src/here_tracking_http.c:763-850 | every callback that never refuses data gets size, exactly the printed body and one completion with the mapped status, and nothing else |
| Replies.HugeSizeTaken | src/here_tracking_http_parser.c:162-177 | a header section announcing n of 2^31 or more, with nothing behind it, is a successful response of which every callback gets only SIZE(n) |
| Replies.TokenRead | src/here_tracking_http.c:407-411 | a request carries all of a stored token if and only if it has no NUL in it |
| Replies.MismatchRecovers | src/here_tracking.c:111-128 | a refused clock is corrected: the second request is stamped with the server's time moved on by the device's clock, and its token is stored |
| Replies.GrantedRead | src/here_tracking.c:111-128 | a token without NUL that is granted is the token that is read |
| Replies.SendRenewed | src/here_tracking.c:159-189 | a send without a usable token, to a server that grants one: the request carries exactly that token, and what follows it decodes to the body |
| Replies.PartRead | src/here_tracking_http.c:407-411 | a part of a token that was written over an older one is read together with what the older one had behind it |
| Replies.BrokenTokenPasses | src/here_tracking.c:193-208 | after an authentication that failed inside the token the gate lets a send through with exactly the part that was left and the older bytes behind it |
| Replies.BrokenTokenSent | src/here_tracking.c:159-189 | and the next send carries that token, with the body behind it |
| Wire.ResponseBytes | src/here_tracking_http_parser.c:191-523 | a printed response in literal bytes |
| Wire.ReadableBytes | src/here_tracking_http_parser.c:191-488 | the header sections the parser reads, in numbers |
| Wire.CodeBytes | src/here_tracking_http_parser.c:284-297 | the status code is the number of its three digits; 204 announces size 0 |
| Wire.NumberRead | src/here_tracking_utils.c:55-73 | a decimal number at the beginning of a value is read modulo 2^32, whatever follows it |
| Wire.LengthField | src/here_tracking_http_parser.c:459-471 | the last field called Content-Length, in any case, announces the size, as a signed number |
| Wire.RetryNamed | src/here_tracking_http.c:779-793 | the last field called Retry-After, in any case, counts |
| Wire.ServerTimeNamed | src/here_tracking_http.c:608-625 | the first field called x-here-timestamp, in any case, counts |
| Wire.CaseOfKeys | src/here_tracking_utils.c:98-112 | responses that differ in the case of their field names announce the same size, retry time and server time |
| Wire.WindowBytes | src/here_tracking_http.c:885-906 | a printed response is read to its end if and only if none of its lines is longer than 256 bytes |
| Wire.CutBytes | src/here_tracking_http_parser.c:384-421 | sizes of key and value are taken modulo 65536 |
| Wire.TokenAnswer | src/here_tracking_http.c:587-759 | a 200 response with "accessToken" and "expiresIn" in its body, in either order, leaves exactly that token, terminated, and the expiry counted from the clock modulo 2^32 |
| Wire.TokenRequestBytes | src/here_tracking_http.c:189-245 | a token request in literal bytes |
| Wire.AskedBytes | src/here_tracking_http.c:189-245 | the request HttpAuth has made is that text, with a signed header whose nonce digits are drawn from the seed and whose timestamp is the corrected clock |
| Wire.SendRequestBytes | src/here_tracking_http.c:329-412 | a send request in literal bytes, for every kind of data and response |
| Wire.ChunkBytes | src/here_tracking_http.c:1021-1039 | a chunk, and the one that ends a body, in bytes |

## Left out

- TLS, the system clock, HMAC-SHA256, Base64 and `rand` are foreign: TLS is a pipe that may fail at any call with ERROR, the clock is any sequence of readings, the others are functions with the sizes their headers fix.
- TlsPipe.Tls.Read: a successful read yields at least one byte; with none, in front of a partial element, the loop asks again in the same state (`EmptyReadRepeats`), for as long as that goes on.
- TlsPipe.Tls.Write: a successful write takes at least one byte; with none the flush loop writes the same bytes again.
- Receiver.RecvResp: callbacks are functions of their data. The callbacks that update client and contexts in place are proved equal to those functions (`AuthData.Receive`, `ReceiveContext.Receive`, `SendRecvCtx.Receive`), and the client's fields are set from the result.
- Network.Environment.Sound: the whole-client methods take only streams without bytes left over; on others `ReceiveAuth`, `ReadToken` and `ReceiveReply` return if and as far as `ComesBack` says, with a result that depends on the sizes of the reads.
- HttpParsers.HttpParser.Parse: consumed count and parser state after CLIENT_INTERRUPT are not stated; no caller reads them.
- AuthScanner.OnEvent: one reading of the clock serves a whole response, where the code reads it at each header or number that needs it; a failing reading leaves an unspecified time, as in the code.
- Requests.WriteHead: runs of constants are written in one call; what the writer accepts is their concatenation either way. The correlation id is given with the connection; its generator is `Uuid.New`, whose own clock reading is not counted.
- Tracking.Client.HttpSend: the request is taken out of the caller's buffer as a value, and the response is written into it at the end of the session; that the bytes between are already overwritten during the session is not modelled.
- Requests.Text: a token buffer without any NUL is read to its end; the code would read on.
- LegacySend.SendRecvCtx.Receive: takes no empty data. Empty data is delivered by stuck calls only (`EmptyFragments`), so not by a stream without bytes left over; the code would then copy bytes of the window that are not the body's.
- Chunked.SendAnswers: the callback answers with fewer than 2^32 bytes at a time; a callback that returns a null pointer with a size is misuse and not modelled.
- Chunked.Decode: chunk extensions and trailers, which the code never sends, are not decoded.
- Utils.ToLower: ASCII only, as in the C locale.
- Percent.SignedChar: `char` is signed and shifts arithmetically; with an unsigned `char` the result is the same.
- `here_tracking_http_get`: sends and receives with the parts modelled here.
- Null arguments, logging, version functions, `here_tracking_free`, `set_recv_data_cb`, `here_tracking_utils_atoi`: settled by reading one branch.
