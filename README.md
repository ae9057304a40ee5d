# ClientServerApp core in Dafny

This project models the core of ClientServerApp, a small C++ client/server
system. Clients connect to a TCP server and exchange length-prefixed frames.
A shared `NetworkThreadPool` runs the accept loop, the polling loop and the
client polling jobs. A separate console tool adds up a user's session
durations from a database and prints the total as `HH:MM:SS`.

The model covers:

- **Bytes**: the little-endian memory representation of unsigned integers, which is what `memcpy` of an integer produces on the host.
- **Decimal**: the text written by `std::to_string` and `%02d`.
- **Wire**: the protocol constants (`kLocalhostIP`, `MessageType`, `ResponseCode`, `SocketStatusInfo`), the `Append`/`Extract`/`AppendString`/`ExtractString` codecs of `NetworkThreadPool`, and `htons`.
- **Framing**: the frame both sides send. It is a 4-byte size followed by the payload. Framing also holds the receive logic the two flavours share.
- **ThreadPool**: the queue, the terminate flag and the worker bookkeeping of `NetworkThreadPool`. It is a class whose methods are proved against specification functions, together with lemmas about FIFO order and draining.
- **ServerTcp**: the keep-alive configuration, a server session (`Server::Client`) and the `Server` itself. The `Server` covers the start/stop status machine, the session list, broadcast, send by address and disconnect by address.
- **ClientTcp**: the client (`Client`). It covers connect, disconnect, send, the two receive variants and the self-requeuing thread-pool job.
- **DatabaseLib**: the duration sum, the carries done with C's truncating `/` and `%`, and `formatTime`.
- **DatabaseMain**: the classifier of console lines, `std::istream_iterator` tokenising, and the read loop. The loop as written ends only at `exit`; it is modelled both as written and with the end of input as a second exit (see Findings).
- **ClientMain** and **ServerMain**: the two `getHostStr` functions.

Calls into the OS are parameters of the methods that make them:

- `recv` results are a `RecvResult` (closed, failed with an errno, or received bytes).
- `send` returns an `int`.
- `socket`, `setsockopt`, `bind`, `listen` and `connect` are booleans or the returned handle.

The bytes a send hands to the OS are returned, and closed handles are recorded in a `closed` sequence. The host is assumed to be little-endian and the errno values are Linux's.

The model follows the code in these behaviours:

- A short payload read, or a close during the payload read, is not an error. The buffer keeps its `size` bytes, and the missing tail is zero.
- There is no upper limit on the frame size.
- A short send on the server side counts as success, because only `-1` fails. The client requires the full count.
- `Server::Client::disconnect` closes a valid handle even when the session is already Disconnected. `Client::Disconnect` acts only on a Connected client.

## Model

| member | source | states |
|---|---|---|
| Bytes.MemoryBytes | TCP/inc/header.h:113-119 | the memory bytes of a value are `size` bytes long |
| Bytes.ValueOf | TCP/inc/header.h:122-127 | the integer read from n bytes is below 256^n |
| Bytes.ValueOfMemoryBytes | TCP/inc/header.h:113-127 | reading back the memory bytes a value was copied into gives the value |
| Bytes.MemoryBytesOfValue | TCP/inc/header.h:113-119 | copying bytes into an integer and out again reproduces the bytes |
| Bytes.MemoryBytesInjective | TCP/inc/header.h:122-127 | two values of one width with the same memory bytes are equal |
| Bytes.Zeros | Server/TCP/src/sourse.cpp:496 | the bytes `resize` adds: n zero bytes |
| Decimal.Dec | Client/main.cpp:14 | `to_string` of a natural: non-empty digits, leading '0' only for 0, one digit exactly below 10 |
| Decimal.ParseDecOfDec | Client/main.cpp:10-14 | the digits printed denote the number printed |
| Decimal.DecInjective | Client/main.cpp:10-14 | different naturals never print alike |
| Decimal.IntToString | Client/main.cpp:10-13 | `to_string(int)`: a '-' exactly for negatives, then the digits of the magnitude |
| Decimal.IntToStringInjective | Client/main.cpp:10-13 | the text of an `int` determines it |
| Decimal.Pad2 | SQLite/Lib/src/sourse.cpp:43 | `%02d` is at least two characters; a non-negative value prints as digits that read back as the value, with a leading zero only when the text is two characters, so the text is fixed; a negative one as `std::to_string` prints it |
| Decimal.Pad2TwoDigits | SQLite/Lib/src/sourse.cpp:43 | a value in 0..99 prints as exactly two digits that read back as the value |
| Decimal.DigitChar | SQLite/Lib/src/sourse.cpp:43 | a digit character denotes its digit |
| Wire.LocalhostBytes | TCP/inc/header.h:44 | `kLocalhostIP` lies in memory as 127, 0, 0, 1 |
| Wire.ParseMessageType | TCP/inc/header.h:46-50 | a tag byte reads back as the message type with that byte, and fails exactly above 0x02 |
| Wire.MessageTypeRoundTrip | TCP/inc/header.h:46-50 | every message type's byte reads back as that type |
| Wire.ParseResponseCode | TCP/inc/header.h:52-59 | a response byte reads back as the code with that byte, and fails exactly on 0x05..0xFE |
| Wire.ResponseCodeRoundTrip | TCP/inc/header.h:52-59 | every response code's byte reads back as that code |
| Wire.StatusCodes | TCP/inc/header.h:61-69 | the status codes are 0..6, one per status, and 0 means Connected |
| Wire.Append | TCP/inc/header.h:122-127 | the buffer is kept and followed by exactly the `sizeof(T)` memory bytes of the value |
| Wire.Extract | TCP/inc/header.h:113-119 | the cursor advances by `sizeof(T)`, and the value's memory bytes are the bytes passed over |
| Wire.ExtractReadsAppended | TCP/inc/header.h:113-127 | `Extract<T>` at the offset where `Append<T>` wrote reads back the value, whatever surrounds it |
| Wire.StringRecord | TCP/src/sourse.cpp:72-76 | the string record is an 8-byte length followed by the bytes, with no terminator |
| Wire.AppendString | TCP/src/sourse.cpp:72-76 | the buffer followed by the string record |
| Wire.PushBytes | TCP/src/sourse.cpp:74-75 | the `push_back` loop leaves the buffer followed by the string's bytes in order |
| Wire.AppendedRecord | TCP/src/sourse.cpp:72-76 | the 8 length bytes after the buffer, then the string's bytes, make the buffer followed by the record |
| Wire.CString | TCP/src/sourse.cpp:62-70 | the non-zero bytes from the cursor up to the first 0 byte |
| Wire.ExtractString | TCP/src/sourse.cpp:62-70 | returns the bytes up to the first 0, and leaves the cursor just past that 0 |
| Wire.TopByteZero | TCP/src/sourse.cpp:73 | the top memory byte of a small value is 0 |
| Wire.RecordZeros | TCP/src/sourse.cpp:72-76 | the record of a string shorter than 2^56 bytes has 0 as its eighth byte, and the empty string's record starts with 0 |
| Wire.CStringStopsAtZero | TCP/src/sourse.cpp:62-70 | `ExtractString` stops at or before any 0 byte after the cursor |
| Wire.ExtractStringMissesStringRecord | TCP/src/sourse.cpp:62-76 | wherever `AppendString` wrote a record of a string shorter than 2^56 bytes, whatever surrounds it, `ExtractString` there stops inside the 8-byte length and ends at the wrong cursor |
| Wire.ExtractStringOfHi | TCP/src/sourse.cpp:62-76 | the record of "hi" extracts as the single byte 2 |
| Wire.DecodeString | TCP/src/sourse.cpp:72-76 | the corrected reader: an 8-byte length, then that many bytes; fails exactly when the buffer is too short |
| Wire.DecodeStringAt | TCP/src/sourse.cpp:72-76 | the corrected reader finds a string wherever an 8-byte length equal to its size is followed by its bytes |
| Wire.AppendedStringRecord | TCP/src/sourse.cpp:72-76 | after any buffer, the bytes `AppendString` added are exactly the record |
| Wire.DecodeStringOfStringRecord | TCP/src/sourse.cpp:72-76 | the corrected reader inverts `AppendString`, whatever precedes and follows the record |
| Wire.Htons | Client/TCP/src/sourse.cpp:194 | `htons` swaps the two memory bytes of the port |
| Wire.HtonsInvolution | Client/TCP/src/sourse.cpp:194 | swapping twice gives the port back |
| Framing.IsTransportError | Server/TCP/src/sourse.cpp:475-480 | the errors that disconnect are ETIMEDOUT, ECONNRESET and EPIPE; success and EAGAIN are never among them |
| Framing.FrameHeader | Server/TCP/src/sourse.cpp:427-429 | the header is 4 bytes holding the payload size cut to 32 bits |
| Framing.Frame | Server/TCP/src/sourse.cpp:427-430 | the frame is the header and then the payload; its header reads back as the size |
| Framing.FillPayload | Server/TCP/src/sourse.cpp:496-505 | a failed payload read gives nothing; otherwise `size` bytes, the received ones first and zeros after, and all zeros after an orderly close |
| Framing.ReadFrame | Server/TCP/src/sourse.cpp:448-505 | drops exactly on a close, a transport error, an error other than EAGAIN, or a failed payload read; yields size bytes exactly for a non-zero header and a payload read that did not fail: the bytes received, then zeros (all zeros after an orderly close) |
| Framing.FrameRoundTrip | Server/TCP/src/sourse.cpp:423-505 | a frame received whole yields the payload sent |
| Framing.EmptyFrameIsNoData | Server/TCP/src/sourse.cpp:492-494 | a size-0 header yields nothing and reads no payload |
| ThreadPool.AddTaskSpec | TCP/inc/header.h:97-106 | while terminating the job is dropped; otherwise it is queued at the back and the rest is kept |
| ThreadPool.WorkerStepSpec | TCP/src/sourse.cpp:16-30 | a worker exits exactly when the flag is set, waits exactly on an empty queue, and otherwise takes the front job off the queue; nothing else changes |
| ThreadPool.ResetJobSpec | TCP/src/sourse.cpp:42-49 | the queue is empty, the flag is clear, and the worker count is unchanged |
| ThreadPool.StopThreadsSpec | TCP/src/sourse.cpp:51-53 | only the terminate flag is raised |
| ThreadPool.StartThreadsSpec | TCP/src/sourse.cpp:55-60 | relaunches n workers only when the flag was set; the flag ends clear and the queue is kept |
| ThreadPool.AddAllQueues | TCP/inc/header.h:97-106 | jobs submitted to a running pool queue up behind those already there |
| ThreadPool.AddAllWhileTerminating | TCP/inc/header.h:98-100 | while the flag is set every submission is dropped |
| ThreadPool.RunStepsDrains | TCP/src/sourse.cpp:16-30 | a running pool's workers run its queue front to back and leave it empty |
| ThreadPool.FifoOrder | TCP/src/sourse.cpp:16-30 | queued jobs run first, then new jobs in submission order |
| ThreadPool.StoppedRunsNothing | TCP/src/sourse.cpp:17-24 | after StopThreads no job is taken, however many passes are made |
| ThreadPool.NetworkThreadPool.GetThreadCount | TCP/src/sourse.cpp:38-40 | the number of workers the pool was built with |
| ThreadPool.NetworkThreadPool.constructor | TCP/inc/header.h:130 | a new pool is empty, not terminating, with the given number of workers |
| ThreadPool.NetworkThreadPool.ConfigureThreadPool | TCP/src/sourse.cpp:8-13 | the workers are replaced by `threadCount` new ones |
| ThreadPool.NetworkThreadPool.AddTask | TCP/inc/header.h:97-106 | the new state is AddTaskSpec of the old |
| ThreadPool.NetworkThreadPool.WorkerStep | TCP/src/sourse.cpp:16-30 | one worker pass exits, waits or takes the front job, as WorkerStepSpec says |
| ThreadPool.NetworkThreadPool.ResetJob | TCP/src/sourse.cpp:42-49 | the new state is ResetJobSpec of the old |
| ThreadPool.NetworkThreadPool.StopThreads | TCP/src/sourse.cpp:51-53 | the new state is StopThreadsSpec of the old |
| ThreadPool.NetworkThreadPool.StartThreads | TCP/src/sourse.cpp:55-60 | the new state is StartThreadsSpec of the old |
| ServerTcp.ServerKeepAliveConfig.constructor | Server/TCP/inc/header.h:34-40 | the getters return the given values, which default to 120 / 3 / 5 |
| ServerTcp.ServerKeepAliveConfig.SetIdle | Server/TCP/inc/header.h:42 | the idle time is set and the other two are unchanged |
| ServerTcp.ServerKeepAliveConfig.SetInterval | Server/TCP/inc/header.h:43 | the interval is set and the other two are unchanged |
| ServerTcp.ServerKeepAliveConfig.SetCount | Server/TCP/inc/header.h:44 | the count is set and the other two are unchanged |
| ServerTcp.DisconnectSpec | Server/TCP/src/sourse.cpp:403-421 | a session always ends Disconnected with an invalid handle |
| ServerTcp.ReleaseSpec | Server/TCP/src/sourse.cpp:387-401 | the destructor closes the handle exactly when it is valid, and changes nothing else |
| ServerTcp.DisconnectIdempotent | Server/TCP/src/sourse.cpp:403-421 | a second disconnect changes nothing and closes nothing |
| ServerTcp.DisconnectClosesAtMostOnce | Server/TCP/src/sourse.cpp:413-418 | a disconnect closes exactly the current handle when it is valid, and nothing otherwise |
| ServerTcp.LoadSpec | Server/TCP/src/sourse.cpp:437-506 | the session is disconnected exactly when it was connected and the read ends in a drop, and kept otherwise; data is returned exactly for a connected session and a payload verdict, and is then the filled payload buffer |
| ServerTcp.LoadWhenNotConnected | Server/TCP/src/sourse.cpp:437-440 | a session that is not connected reads nothing and does not change |
| ServerTcp.LoadIsMonotone | Server/TCP/src/sourse.cpp:437-505 | a load either keeps the state or disconnects; data comes back only while it stays Connected |
| ServerTcp.LoadWouldBlock | Server/TCP/src/sourse.cpp:475-484 | EAGAIN on the header read returns nothing and keeps the session |
| ServerTcp.LoadFrame | Server/TCP/src/sourse.cpp:423-505 | a connected session receiving a whole frame returns its payload and stays connected |
| ServerTcp.ServerSession.constructor | Server/TCP/inc/header.h:72 | a new session is Connected with the accepted handle and address |
| ServerTcp.ServerSession.Disconnect | Server/TCP/src/sourse.cpp:403-421 | the new state is DisconnectSpec of the old, and the result is Disconnected |
| ServerTcp.ServerSession.Release | Server/TCP/src/sourse.cpp:387-401 | the new state is ReleaseSpec of the old |
| ServerTcp.ServerSession.SendData | Server/TCP/src/sourse.cpp:423-435 | a session that is not connected sends nothing and fails; a connected one sends the frame and succeeds unless send returned -1 |
| ServerTcp.ServerSession.LoadData | Server/TCP/src/sourse.cpp:437-506 | the new state and the data are LoadSpec of the old state and the two reads |
| ServerTcp.StartStatus | Server/TCP/src/sourse.cpp:128-177 | Connected exactly when every OS step succeeds; otherwise the error of the first step that failed |
| ServerTcp.RestartQueue | Server/TCP/src/sourse.cpp:128-177 | after a restart the queue holds exactly the accept job and the poll job |
| ServerTcp.Server.constructor | Server/TCP/src/sourse.cpp:90-103 | a new server is Disconnected on its port, with no sessions and an idle pool |
| ServerTcp.Server.StopServer | Server/TCP/src/sourse.cpp:111-116 | the pool is reset, every session is released and the list emptied, and the server is Disconnected |
| ServerTcp.Server.StartServer | Server/TCP/src/sourse.cpp:128-177 | a running server is stopped first; the status is StartStatus; on Connected the two loops are queued |
| ServerTcp.Server.SetServerPort | Server/TCP/src/sourse.cpp:122-177 | the port is stored and the server restarts on it: a running server first releases and drops every session and resets the pool; the status is StartStatus, and on success the accept job and the poll job are queued |
| ServerTcp.Server.HandlingAcceptLoop | Server/TCP/src/sourse.cpp:270-306 | while the server is Connected an accepted handle becomes a fresh Connected session with the peer's address, or is closed when keep-alive fails, and the pass re-queues itself; a failed accept adds nothing; a stopped server neither accepts nor re-queues |
| ServerTcp.Server.ServerConnectTo | Server/TCP/src/sourse.cpp:180-234 | true exactly when the socket exists and connect succeeds; then one fresh Connected session with the peer's address and port in network byte order is appended and the list is otherwise kept; a failed connect or a failed keep-alive closes the handle, yet the latter still adds the session |
| ServerTcp.Server.ServerSendData | Server/TCP/src/sourse.cpp:236-240 | every session is sent the buffer, as its own SendData would |
| ServerTcp.ServerSession.SendDataIfMatches | Server/TCP/src/sourse.cpp:245-248 | a session is sent the frame exactly when its address matches and it is connected; the match is reported whatever the send returned |
| ServerTcp.Server.ServerSendDataBy | Server/TCP/src/sourse.cpp:242-251 | the result is true exactly when some session has the address; only matching connected sessions are sent the frame |
| ServerTcp.Server.ServerDisconnectBy | Server/TCP/src/sourse.cpp:253-262 | the result is true exactly when some session has the address; every matching session is disconnected and the others are unchanged |
| ServerTcp.Server.ServerDisconnectAll | Server/TCP/src/sourse.cpp:264-268 | every session is disconnected |
| ClientTcp.DisconnectSpec | Client/TCP/src/sourse.cpp:116-134 | only a Connected client is marked Disconnected and has its handle closed; otherwise nothing changes |
| ClientTcp.DisconnectIdempotent | Client/TCP/src/sourse.cpp:116-134 | a second disconnect changes nothing |
| ClientTcp.DisconnectFlavoursDiffer | Client/TCP/src/sourse.cpp:116-119 | a Disconnected client closes nothing, while a Disconnected server session with a valid handle closes it |
| ClientTcp.LoadSpec | Client/TCP/src/sourse.cpp:203-272 | the client is disconnected exactly when it was connected and the read ends in a drop, and kept otherwise; data is returned exactly for a connected client and a payload verdict, and is then the filled payload buffer |
| ClientTcp.ConnectSpec | Client/TCP/src/sourse.cpp:170-201 | Connected exactly when the socket exists and connect succeeds; InitError exactly when the socket fails; ConnectError closes the handle |
| ClientTcp.LoadKeepsConnection | Client/TCP/src/sourse.cpp:203-272 | a connected client stays Connected exactly when the read did not end in a drop |
| ClientTcp.LoadWhenNotConnected | Client/TCP/src/sourse.cpp:203-206 | a client that is not connected reads nothing and does not change |
| ClientTcp.LoadFlavoursAgree | Client/TCP/src/sourse.cpp:203-272 | the client's load and the server session's load return the same data and reach the same status |
| ClientTcp.Client.constructor | Client/TCP/src/sourse.cpp:95-99 | a new client is Disconnected and uses the given pool |
| ClientTcp.Client.Disconnect | Client/TCP/src/sourse.cpp:116-134 | the new state is DisconnectSpec of the old |
| ClientTcp.Client.ConnectTo | Client/TCP/src/sourse.cpp:170-201 | the new state is ConnectSpec of the old; once the socket exists the address is the host and `htons(port)` |
| ClientTcp.Client.SendData | Client/TCP/src/sourse.cpp:370-386 | the frame is sent whatever the status; the result is true exactly when send took every byte |
| ClientTcp.Client.LoadData | Client/TCP/src/sourse.cpp:203-272 | the new state and the data are LoadSpec of the old state and the two reads |
| ClientTcp.SyncSize | Client/TCP/src/sourse.cpp:276-278 | the size is the header's value after a full four-byte read, is 0 otherwise, and fits in 32 bits |
| ClientTcp.Client.LoadDataSync | Client/TCP/src/sourse.cpp:274-283 | the data has the header's size when all four header bytes arrived and 0 bytes otherwise; the received bytes come first and zeros follow |
| ClientTcp.Client.SetHandler | Client/TCP/src/sourse.cpp:297-299 | the first polling job is submitted |
| ClientTcp.Client.HandleThreadPool | Client/TCP/src/sourse.cpp:152-168 | one load, then a follow-up job is submitted exactly when the client is still Connected and the handler did not throw; a throw ends the pass without a follow-up; the address is kept |
| ClientTcp.DataKeepsConnection | Client/TCP/src/sourse.cpp:203-272 | a load that hands data to the handler leaves a Connected client as it was |
| ClientTcp.PollRequeuesIffConnected | Client/TCP/src/sourse.cpp:158-160 | in a running pool a pass adds one job exactly when the read did not drop the connection |
| DatabaseLib.SumRowsTotal | SQLite/Lib/src/sourse.cpp:69-82 | the field-wise sum lasts as long as all the rows together |
| DatabaseLib.CDiv | SQLite/Lib/src/sourse.cpp:88-91 | C's `/` agrees with floor division on non-negative dividends |
| DatabaseLib.CMod | SQLite/Lib/src/sourse.cpp:88-91 | C's `%` satisfies a == b*(a/b) + a%b, and its remainder takes the sign of the dividend |
| DatabaseLib.Normalize | SQLite/Lib/src/sourse.cpp:88-91 | the carries keep the total length in seconds |
| DatabaseLib.NormalizeRanges | SQLite/Lib/src/sourse.cpp:88-91 | from non-negative minutes and seconds, minutes and seconds end in 0..59, and non-negative hours do not decrease |
| DatabaseLib.NormalizeCanonical | SQLite/Lib/src/sourse.cpp:88-91 | non-negative durations of equal length normalise alike |
| DatabaseLib.SecondsCarryReachHours | SQLite/Lib/src/sourse.cpp:88-91 | 0:59:60 normalises to 1:00:00 |
| DatabaseLib.NegativeSecondsStayNegative | SQLite/Lib/src/sourse.cpp:88-91 | 0:0:-61 normalises to 0:-1:-1 under truncating division |
| DatabaseLib.CalculateTotal | SQLite/Lib/src/sourse.cpp:69-91 | the loop's total is the normalised field-wise sum and lasts as long as the rows |
| DatabaseLib.Truncate | SQLite/Lib/src/sourse.cpp:42-44 | the whole text when it fits, and otherwise its first n characters |
| DatabaseLib.FormatTime | SQLite/Lib/src/sourse.cpp:41-45 | exactly the first 8 characters of the `%02d:%02d:%02d` text |
| DatabaseLib.FormatTimeFields | SQLite/Lib/src/sourse.cpp:41-45 | fields in 0..99 give exactly `HH:MM:SS`, whose digit pairs read back as the fields |
| DatabaseLib.FormatTimeTruncates | SQLite/Lib/src/sourse.cpp:42-43 | 100 hours print as "100:00:0", because the buffer cuts the last digit |
| DatabaseLib.NoRowsTotalZero | SQLite/Lib/src/sourse.cpp:69-91 | with no rows the total is 0:0:0 |
| DatabaseLib.ZeroFormatsAsZeros | SQLite/Lib/src/sourse.cpp:93-94 | the zero total prints as 00:00:00 |
| DatabaseLib.CalculateConnectionTime | SQLite/Lib/src/sourse.cpp:69-94 | the total is the normalised sum and the text is its formatting, exactly 8 characters |
| DatabaseMain.WordLength | SQLite/main.cpp:43-44 | the length of the leading run of non-whitespace |
| DatabaseMain.IsSpace | SQLite/main.cpp:43-44 | the whitespace `>>` skips lies at or below the space character |
| DatabaseMain.Tokens | SQLite/main.cpp:43-44 | every token is non-empty and has no whitespace |
| DatabaseMain.TokensSkipSpaces | SQLite/main.cpp:43-44 | leading whitespace does not change the tokens |
| DatabaseMain.NonSpaceCharsAppend | SQLite/main.cpp:43-44 | the non-whitespace characters of a concatenation are those of its parts |
| DatabaseMain.NonSpaceCharsOfWord | SQLite/main.cpp:43-44 | a word without whitespace is its own non-whitespace characters |
| DatabaseMain.TokensKeepNonSpace | SQLite/main.cpp:43-44 | the tokens, concatenated, are exactly the non-whitespace characters of the line in order, so the tokens are the maximal non-whitespace runs |
| DatabaseMain.WordLengthOfWord | SQLite/main.cpp:43-44 | a word followed by whitespace or nothing is read whole |
| DatabaseMain.TokensOfWord | SQLite/main.cpp:43-44 | a line starting with a word tokenises as that word, then the rest |
| DatabaseMain.TokensOfJoinSpaces | SQLite/main.cpp:43-44 | words joined by single spaces tokenise back into the words |
| DatabaseMain.Classify | SQLite/main.cpp:30-62 | exact matches for exit, printAll and help; prefix matches for calculateTime and printUserData, with the arguments taken from the tokens exactly when the token count is right |
| DatabaseMain.UnknownIffNoRule | SQLite/main.cpp:60-62 | a line is Unknown exactly when no rule matches |
| DatabaseMain.CalculateRoundTrip | SQLite/main.cpp:42-50 | a three-token `calculateTime` line yields its user and date |
| DatabaseMain.PrintUserRoundTrip | SQLite/main.cpp:51-59 | a two-token `printUserData` line yields its user |
| DatabaseMain.PrefixAccepted | SQLite/main.cpp:42 | "calculateTimeX a b" is accepted, because the check is a prefix match |
| DatabaseMain.ExactMatchesAreExact | SQLite/main.cpp:30-41 | " exit" and the empty line are Unknown |
| DatabaseMain.Session | SQLite/main.cpp:27-63 | at most one command per line |
| DatabaseMain.SessionStopsAtExit | SQLite/main.cpp:27-32 | lines are classified in order, the session stops right after the first exit, and every line is read when there is none |
| DatabaseMain.SessionFrom | SQLite/main.cpp:27-63 | the session from line i on: that line's command and, unless it was exit, the rest |
| DatabaseMain.RunConsole | SQLite/main.cpp:27-63 | the loop, stopping at `exit` or when the lines run out, carries out exactly the commands of Session |
| DatabaseMain.Console | SQLite/main.cpp:27-63 | the loop as written, where a pass past the last line reads an empty command: at most one command per pass |
| DatabaseMain.ConsoleOverLines | SQLite/main.cpp:27-63 | over the lines given, the loop as written carries out exactly Session |
| DatabaseMain.ConsoleNeverEnds | SQLite/main.cpp:27-29 | without an `exit` line the loop as written runs every number of passes in full, and each pass after the last line is Unknown |
| DatabaseMain.HelpThenEndOfInput | SQLite/main.cpp:27-62 | "help" then end of input gives Help and then Unknown on every pass, where the session gives only Help |
| ClientMain.CharValue | Client/main.cpp:10-13 | `int(char)`: the byte itself, or the byte minus 256 from 0x80 on when char is signed; always congruent to the byte |
| ClientMain.IntToStringNoDot | Client/main.cpp:10-14 | the text of an integer has no '.' |
| ClientMain.FieldLength | Client/main.cpp:9-14 | the length of the text up to its first '.' |
| ClientMain.SplitDots | Client/main.cpp:9-14 | a text splits into at least one '.'-separated field |
| ClientMain.FieldLengthOfNoDot | Client/main.cpp:9-14 | the first field of a dot-free text followed by '.' or nothing is that text |
| ClientMain.SplitDotsCons | Client/main.cpp:9-14 | a dot-free field followed by '.' splits off first |
| ClientMain.SplitJoinDots | Client/main.cpp:9-14 | dot-free fields joined by '.' split back into the same fields |
| ClientMain.HostFields | Client/main.cpp:9-14 | five dot-free fields: the four memory bytes of the address, then the port |
| ClientMain.GetHostStr | Client/main.cpp:8-15 | the text is the five fields, the four address bytes then the port, joined by '.' in that order |
| ClientMain.HostStrFields | Client/main.cpp:8-15 | the text splits into exactly those five fields |
| ClientMain.HostStrInjective | Client/main.cpp:8-15 | the text determines the address and the port |
| ClientMain.HostStrSign | Client/main.cpp:10 | the text starts with '-' exactly when char is signed and the first memory byte is 0x80 or more |
| ClientMain.JoinDotsFive | Client/main.cpp:9-14 | five fields joined by '.', written out |
| ClientMain.LocalhostFields | Client/main.cpp:21 | the fields of `kLocalhostIP` are 127, 0, 0, 1 and the port |
| ClientMain.LocalhostHostStr | Client/main.cpp:21 | the localhost address prints as "127.0.0.1." and the port |
| ServerMain.SessionHostStr | Server/main.cpp:6-15 | a session prints as the five fields of its host and its raw port |
| ServerMain.SessionPortIsRaw | Server/main.cpp:14 | a peer on port p is shown as `htons(p)`, which differs from p unless p's two bytes are equal |
| ServerMain.Port8081Shown | Server/main.cpp:14 | a peer on port 8081 is shown as 37151 |

## Left out

- Sockets and the OS: `socket`, `bind`, `listen`, `accept`, `connect`, `recv`, `send`, `close` and `shutdown` are not performed. Their results are parameters, and the handles closed are recorded.
- The Windows branches (`WSAStartup`, `closesocket`, `SOCKET_ERROR`) are not modelled. Only the *nix branches are.
- `convertError` (Client/TCP/src/sourse.cpp:12-83) maps `WSAGetLastError()` codes to errno values, for example WSAEWOULDBLOCK to EAGAIN and any code it does not list to EIO. It is used only on Windows, so it goes with the Winsock branches. The model receives errno values directly.
- Concurrency is not modelled. That covers the mutexes, the condition variable, the blocking wait of worker threads, `JoinThreads` and interleavings. A worker pass is one atomic step, `WorkerStep`.
- `waitingDataLoop` (Server/TCP/src/sourse.cpp:350-380) is one pass over the sessions that queues a handler job or an erase job per session and re-queues itself while the server is up. The pass is not modelled, because its jobs carry callbacks and run concurrently; only StartServer's first submission of it is, see RestartQueue. `handlingAcceptLoop` (Server/TCP/src/sourse.cpp:270-306) is the same kind of pass and is modelled as ServerTcp.Server.HandlingAcceptLoop.
- `handleSingleThread` (Client/TCP/src/sourse.cpp:136-150) is the `while` loop of single-thread mode, blocking on the socket; it is not modelled. Its body is the load that ClientTcp.Client.HandleThreadPool models.
- ClientTcp.Client.HandleThreadPool: an allocation failure (`std::bad_alloc` from `resize`) inside the load is not modelled; only a throwing handler is, through `handlerThrows`.
- `enableKeepAlive` (Server/TCP/src/sourse.cpp:308-348) is a sequence of `setsockopt` calls. Only its outcome is modelled, as the `keepAliveOk` input of `ServerTcp.Server.ServerConnectTo`.
- ServerTcp.Server.ServerConnectTo: does not call the connect handler, which is a user callback. The mutex around the list append is concurrency.
- The data, connection and disconnection handlers are user callbacks. Data is returned to the caller instead of being passed to a handler.
- The listening socket handle of `Server` is not modelled, because only the status reflects it.
- `~Server` and `~Client` are not modelled. `ServerTcp.Server.StopServer` and `ClientTcp.Client.Disconnect` cover what they do.
- The default `Client()` constructor and single-thread mode are not modelled.
- `joinHandler` (Client/TCP/src/sourse.cpp:316-332; an older version at :303-314 is commented out) blocks until the client's thread or the pool's workers finish. That is a thread join, so it goes with concurrency.
- The SQLite queries, `printAllUsers`, `printUserData`, the help text and the console I/O of the database tool are not modelled. Input rows arrive as parsed triples, and input lines arrive as a sequence.
- The application parts of the client and server programs, other than `getHostStr`, are not modelled. This includes `runClient`, authentication and the PC-info messages.
- DatabaseLib.Normalize: does not model 32-bit `int` overflow of the running sums. The integers are unbounded.
- ServerTcp.ServerSession.SendData: does not model the `malloc` buffer of the send, in particular that it is leaked when `send` fails (Server/TCP/src/sourse.cpp:430-432); after a successful send it is freed.
- ThreadPool.NetworkThreadPool.StartThreads: does not model `std::terminate` when joinable threads are overwritten. The workers are only counted.
- ClientTcp.Client.ConnectTo: it stores the host in `address_`. Line 191 names `address`, which is not a member and is taken as a typo.
- Wire.ExtractString: requires a 0 byte at or after the cursor. Without one the source reads past the end of the buffer, which is undefined behaviour and has no model.
- Framing.ReadFrame, ServerTcp.ServerSession.LoadData and ClientTcp.Client.LoadData (with ClientTcp.Client.HandleThreadPool, which calls it): require `DefinedHeaderRead`, which excludes two header reads the source accepts: a `MSG_DONTWAIT` read that returns 1 to 3 bytes, which is an ordinary event on TCP, and a -1 whose error resolves to 0. In both the source goes on with a `size` that is partly or wholly uninitialised (Server/TCP/src/sourse.cpp:453, :492-496; Client/TCP/src/sourse.cpp:219, :258-262), so the payload length is not determined by the inputs and has no model; the bytes of a split header are then lost from the stream.
- DatabaseMain.RunConsole: stops when the lines run out. The source loop (SQLite/main.cpp:27-29) does not check `std::getline`, so at end of input it classifies an empty command as Unknown on every pass and never ends; DatabaseMain.Console and DatabaseMain.ConsoleNeverEnds model that behaviour.
- ClientTcp.Client.LoadDataSync: a header read that returns 1 to 3 bytes leaves `size` partly written, so the model treats any read other than a full one as size 0.

## Findings

| source | as written | input that shows it | evidently intended | confidence | as-written member | corrected member |
|---|---|---|---|---|---|---|
| TCP/src/sourse.cpp:62-76 | `AppendString` writes an 8-byte length followed by the bytes, with no terminator. `ExtractString` reads up to the first 0 byte. | the string "hi": its record starts 2, 0, …, so `ExtractString` returns the single byte 2 and stops 2 bytes in, not 10 | `ExtractString` reads the 8-byte length and then that many bytes, like Wire.DecodeString | not executed | Wire.ExtractStringMissesStringRecord | Wire.DecodeStringOfStringRecord |
| SQLite/main.cpp:27-29 | `while (!exitRequested)` calls `std::getline` without checking it; at end of input the fresh `command` stays empty, which is Unknown, and `exit` can no longer arrive. | the input "help" followed by end of input: help runs, then "Unknown command" is printed forever | the loop also ends when no more lines can be read, as in `while (!exitRequested && std::getline(std::cin, command))` | not executed | DatabaseMain.ConsoleNeverEnds | DatabaseMain.RunConsole |
