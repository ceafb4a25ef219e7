# A verified model of the Socket++ library

Socket++ wraps sockets, pipes, signals and child processes as C++ streams and objects.  This project models the
parts of it that hold state or a wire format, and proves what they are for:

- `basic_sockbuf<char>` is a first-in first-out byte stream in both directions, however the system splits
  reads and writes and whatever fails in between;
- the mail client's body encoding is undone by the receiver of section 4.5.2 of RFC 821, exactly under a stated condition;
- the reply readers of the mail and the file client take one whole reply each and pass exactly that on, exactly when its lines
  are there when their turn comes;
- strings sent with their length in front arrive as the same list;
- the list of child processes, the signal registry and the list of pipe streams keep their invariants over every run;
- the upload, the PORT command, the echo server and the count of descriptor handles, on top of these.

`dafny verify dfyconfig.toml` checks the whole project.

## How the model is built

**The system.** `Kernel` stands for the operating system.  Each answer of `write`, `read`, `select` and `atmark` is
taken from a script, a sequence that is universally quantified in every theorem: a write accepts any non-empty part of
the data or fails, a read delivers any non-empty part of what the peer still sends, nothing at end of file, or fails.
A script that has run out answers with failure.  `fork`, `waitpid`, `close`, `socketpair` and the resolution of the
machine's own name are parameters in the same way.

**Objects and functions.** Code that changes state is modelled as class methods on the same fields: arrays with indices for
the buffer pointers, linked objects for the lists, `seq` and `map` fields for the containers.  Each method is proved
equal to a function on values (`SockBuf.Sync` to `PutSide.Flush`, and so on), and the theorems are about the functions.
Both are short enough to be compared with the C++ side by side.  A throw is a `Threw` result; state at the
moment of the throw is part of the contract, and runs go on after it, as they do for a caller who catches.  Beside the laws
that hold whatever is thrown there are exact conditions for each call to return, and laws without any such condition for
systems that are willing: whose answers are enough and contain no failure.

**Sizes.** A character is a byte.  The buffer size (`BUFSIZ`) is any positive number.  `unsigned long` is 4 bytes and
`int` 32 bits where a length is put on the wire; elsewhere a count of bytes is a mathematical integer.

| file | models |
|---|---|
| `Basics.dfy`, `Octets.dfy`, `Lines.dfy` | notions shared by all, bytes and sequences, CR LF |
| `Kernel.dfy`, `Files.dfy` | the operating system, and a file read in blocks |
| `PutSide.dfy`, `GetSide.dfy`, `SockStream.dfy`, `Lifetime.dfy`, `Connection.dfy` | the buffered stream |
| `SmtpText.dfy`, `Smtp.dfy` | the body of a message, and the mail client |
| `Replies.dfy`, `FtpReplies.dfy`, `CutReply.dfy` | the reply readers of the mail client and of the file client |
| `Ftp.dfy`, `PortCodec.dfy` | the file client |
| `Framing.dfy`, `Echo.dfy` | strings with a length in front; the echo server |
| `Fork.dfy`, `Pipes.dfy`, `Signals.dfy` | processes, pipe streams, signals |

## What the code does not keep

These are results, each with its exact condition.

- `send_buf` looks at the byte behind the buffer when the last byte is a line feed (socket++/smtp.cpp:113).  A message
  arrives as it was if and only if it does not end so with a period behind it in memory (`SmtpText.RoundTrip`).  In
  `data(filename)` that byte is what an earlier, longer read left in the buffer, or, for a full buffer, whatever follows it.
- A file sent in blocks gets one period too many where a block that does not end a line is followed by one that starts
  with a period (`SmtpText.ChunksAgainstWhole` says where, `Smtp.PeriodBehindBlock` shows it for every such file); it
  arrives intact if and only if no boundary is unlucky (`SmtpText.ChunkedRoundTrip`, `Smtp.FileArrives`).
- The receiver stops before the end of the body, and takes the rest of the file for commands, if and only if a period taken
  from behind a buffer is followed by an empty line or by the end of the file (`SmtpText.ChunksStopAtEnd`,
  `SmtpText.TerminatorOnlyAtEndOfChunks`).
- A reader passes on and leaves exactly the reply in front of the stream and the rest if and only if each line of the reply is
  in the buffer as a whole, with at least 5 bytes buffered, when its turn comes (`Replies.SmtpReadsWholeReply`,
  `FtpReplies.FtpReadsWholeReply`).  Reads that deliver whole lines, the last of 5 bytes or more, are enough
  (`Replies.AlignedServes`).  Otherwise:
  - with fewer than 5 bytes both loops look at the same bytes for ever (`Replies.StuckTurnRepeats`,
    `FtpReplies.TooFewRepeats`);
  - with a part of a line, the mail client gives up or, after a '-', looks at it for ever;
  - with a part of a line, the file client takes all that is buffered, passes one more byte of memory on, moves its pointer one
    beyond the data (socket++/ftp.cpp:109-115), looks at the code, and returns or goes on in the middle of the line.
    `FtpReplies.FtpReplyIsChopped` says what comes of it for all deliveries, and `FtpReplies.FtpTakesReply` when the
    call still takes exactly the reply: when the lines are used up and the first piece to end the loop is the last, or
    none is and the stream ends.  A reply of one line is never taken so (`FtpReplies.CutLineReturns`); `CutReply.CutButTaken` shows one
    of two lines that is.
- `send(string)` does not look at how much of the header was taken: a frame goes out whole if and only if the system took
  all 4 bytes (`Framing.SendSendsFrame`).  `recv(string)` reads once: a string is received whole, and the next call is at
  the next frame, if and only if that read was filled (`Framing.ReceiveFrame`).  Strings of 2^31 bytes or more are never sent
  whole (`Framing.PayloadIsWhole`), and an empty string and the end of the stream both return 0
  (`Framing.ZeroIsAmbiguous`, `Framing.EndReturnsZero`).
- When the flush in a destructor throws, the count is not lowered, so that the descriptor is closed by the last handle if
  and only if no such flush failed (`Lifetime.ClosedOnceByLastHandle`).
- The download loop waits for a value that `xsgetn` never returns (`Ftp.DownloadNeverEnds`).
- Removing the last handler of a signal leaves the disposition and its mask in place; only `unset(signo)` clears them
  (`Signals.MaskHistory`).  `unmask(a, b)` installs the library's function for `a` with an empty mask if it was not
  installed (socket++/sig.cpp:168-172), where the header only says that `b` is unblocked; `Signals.InstallHistory` says
  exactly when it is installed.
- The comment above the length in `send(string)` says 2 bytes (socket++/sockstream.cpp:624); the code sends an `unsigned long`,
  and the model follows the code.

## Model

| member | source | states |
|---|---|---|
| PutSide.RunRefinesFifo | socket++/sockstream.cpp:243-397 | over every run of `sputc`, `xsputn`, `sync` and `sendtimeout`, with partial writes, failures and timeouts in any order, wire followed by buffer is a plain queue: each call adds a first part of its bytes, all of them if it returned |
| PutSide.CleanRunDelivers | socket++/sockstream.cpp:243-397 | a run in which nothing throws and that ends in a sync has put exactly the payloads on the wire, in order, whatever the buffer size and the split of the writes |
| PutSide.FifoRunComplete | socket++/sockstream.cpp:381-397 | a queue run without throws ends with all payloads in it |
| PutSide.XsputnAppends | socket++/sockstream.cpp:381-397 | `xsputn` appends a first part of its block; when it returns, the whole block, and the value is its length |
| PutSide.SputcAppends | socket++/sockstream.cpp:356-377 | `sputc` through `overflow` appends its byte or, when it throws, nothing |
| PutSide.PutCharsAppends | socket++/sockstream.cpp:356-377 | `sputc` byte by byte up to the first throw appends a first part, and all of it when none throws |
| PutSide.SendDelivers | socket++/sockstream.cpp:381-397 | blocks and then `sync`: if nothing throws all blocks are on the wire, nothing is pending |
| PutSide.Flush | socket++/sockstream.cpp:245-283 | `sync` never loses or doubles a byte; it returns exactly when nothing is left pending |
| PutSide.FlushSucceeds | socket++/sockstream.cpp:245-283 | `sync` returns if and only if the descriptor is ready and the system takes every pending byte before it fails |
| PutSide.OverflowReturns | socket++/sockstream.cpp:356-377 | `overflow` of a byte returns exactly when there is room, or the descriptor is ready and the system takes the full buffer; then the old bytes are sent and the new one is stored; a throw is that of the flush |
| PutSide.FlushErrors | socket++/sockstream.cpp:576-578 | `sync` throws the timeout exactly when there is one and the descriptor is not ready in time, else the system's error |
| PutSide.XsputnReturns | socket++/sockstream.cpp:381-397 | `xsputn` returns exactly when each flush it needs succeeds |
| PutSide.RunReturns | socket++/sockstream.cpp:243-397 | over a system whose answers are enough and no failures, and ready where timeouts are set, no call of any run throws |
| PutSide.TimeoutSet | socket++/sockstream.cpp:755-759 | `sendtimeout` gives back the old setting, a negative one means none, and no byte moves |
| PutSide.WriteAllAmount | socket++/sockstream.cpp:580-588 | the write loop moves the smaller of what it has and what the system offers before its first failure |
| PutSide.FlushKeepsSuffix | socket++/sockstream.cpp:252-274 | what is pending after a half-failed `sync` is the unsent suffix, and what went out is the rest |
| PutSide.RecoveryAfterFailedFlushes | socket++/sockstream.cpp:245-283 | any number of failed syncs and then a successful one send every pending byte exactly once |
| PutSide.ShutDownAreaIsInert | socket++/sockstream.cpp:363-365 | after `shutdown(shut_write)` no run puts anything on the wire |
| PutSide.ShutDownAnswers | socket++/sockstream.cpp:363-365 | after the shutdown `overflow` answers EOF, `xsputn` 0, `sync` 0, and nothing changes |
| GetSide.RunIsChunkIndependent | socket++/sockstream.cpp:286-346 | a run of `uflow` and `xsgetn` without throws hands out exactly the blocks that stream and counts determine, whatever the buffer size and the split of the reads |
| GetSide.RunTakesFront | socket++/sockstream.cpp:286-346 | also with throws, what a run hands out is the front of the stream, in order, and the rest is still to come |
| GetSide.XsgetnTakesFront | socket++/sockstream.cpp:330-346 | `xsgetn(n)` copies the front of the stream: the smaller of `n` and all that is left when it returns, less than `n` when it throws |
| GetSide.UnderflowKeepsStream | socket++/sockstream.cpp:296-314 | `underflow` keeps the stream, returns its next byte, and EOF only at its end |
| GetSide.UflowTakesFront | socket++/sockstream.cpp:318-326 | `uflow` takes exactly the next byte of the stream, or reports its end, or throws and takes none |
| GetSide.Read | socket++/sockstream.cpp:461-475 | `read` delivers a front part of at most `len` bytes, none only at end of file or for `len` 0, and on a throw nothing is lost |
| GetSide.ReadReturns | socket++/sockstream.cpp:461-475 | `read` delivers exactly when the descriptor is ready in time, no out-of-band byte is next and the system delivers; which of the errors it throws otherwise |
| GetSide.ReadAmount | socket++/sockstream.cpp:470-474 | how many bytes it delivers: the system's answer, up to what is asked for and what there is |
| GetSide.UnderflowReturns | socket++/sockstream.cpp:296-314 | `underflow` returns exactly when something is buffered or `read` delivers, and throws what `read` throws |
| GetSide.XsgetnReturns | socket++/sockstream.cpp:330-346 | `xsgetn` returns exactly when each refill it needs delivers or finds the end of file |
| GetSide.RunReturns | socket++/sockstream.cpp:286-346 | over a system whose answers are enough and no failures, timeouts or out-of-band bytes, no call of any run throws |
| GetSide.ShutDownAnswers | socket++/sockstream.cpp:297-299 | after the shutdown `underflow` and `uflow` answer EOF and `xsgetn` 0 |
| Connection.PutThenGot | socket++/sockstream.cpp:286-397 | the reader gets from the writer exactly the blocks its counts cut out of the writer's payloads, for any buffer sizes and splits on both sides |
| Connection.AllArrives | socket++/sockstream.cpp:286-397 | between systems that take what they are given and deliver what there is, the same with no assumption on the calls |
| SockStream.SockBuf.constructor | socket++/sockstream.cpp:146-181 | both areas are empty and of the buffer size, timeouts off, one handle, not closed |
| SockStream.SockBuf.Copy | socket++/sockstream.cpp:184-193 | the copy shares the descriptor, raises the count, and has no areas of its own |
| SockStream.SockBuf.Destroy | socket++/sockstream.cpp:210-232 | flush; if that throws the count stays, otherwise it falls and at 0 the descriptor is closed |
| SockStream.SockBuf.Write | socket++/sockstream.cpp:571-589 | the timeout check and the loop: all bytes, or the number written before the failure |
| SockStream.SockBuf.Reposition | socket++/sockstream.cpp:261-269 | the overlapping loop in the buffer leaves exactly the unwritten bytes at its front |
| SockStream.SockBuf.Sync | socket++/sockstream.cpp:245-283 | refines `PutSide.Flush` and keeps the pointers in order, pptr <= epptr = end of the array |
| SockStream.SockBuf.Overflow | socket++/sockstream.cpp:356-377 | refines `PutSide.Overflow`: EOF syncs, a full buffer syncs first, then the byte is stored |
| SockStream.SockBuf.Xsputn | socket++/sockstream.cpp:381-397 | the mutual recursion with `overflow` and `sync` ends and refines `PutSide.Xsputn` |
| SockStream.SockBuf.Read | socket++/sockstream.cpp:461-475 | refines `GetSide.Read`: the array holds what was delivered, then what it held before |
| SockStream.SockBuf.Showmanyc | socket++/sockstream.cpp:286-292 | the number of bytes buffered |
| SockStream.SockBuf.Underflow | socket++/sockstream.cpp:296-314 | refines `GetSide.Underflow` on the array and its pointers |
| SockStream.SockBuf.Uflow | socket++/sockstream.cpp:318-326 | refines `GetSide.Uflow` |
| SockStream.SockBuf.Xsgetn | socket++/sockstream.cpp:330-346 | the recursion ends (by count and emptiness of the buffer) and copies to the caller's memory exactly what `GetSide.Xsgetn` hands out, touching nothing else there |
| SockStream.ReceivedThen | socket++/sockstream.cpp:338-342 | one refill and the recursive call together are one `xsgetn` on the caller's memory |
| SockStream.SockBuf.SendTimeout | socket++/sockstream.cpp:755-759 | negative means none; the old value is returned; no byte moves |
| SockStream.SockBuf.ShutdownWrite | socket++/sockstream.cpp:824-843 | the pending bytes are discarded and the area is disabled, also when the system's call fails and it throws |
| SockStream.SockBuf.ShutdownRead | socket++/sockstream.cpp:824-843 | the buffered bytes are discarded and the area is disabled, also when the system's call fails and it throws |
| Lifetime.ClosedOnceByLastHandle | socket++/sockstream.cpp:184-232 | over all runs of copies and destructions: count = live handles + failed flushes, at most one close, never under a live handle, and one at the end if and only if no flush failed |
| Lifetime.RunConsistent | socket++/sockstream.cpp:184-232 | the count and the number of closes agree after every run |
| Lifetime.ClosedIfAllFlushed | socket++/sockstream.cpp:184-232 | in terms of the events: when all handles are gone the descriptor has been closed exactly if no destructor's flush threw, and the count is the number that threw |
| SmtpText.RoundTrip | socket++/smtp.cpp:97-124 | the receiver of RFC 821 gets message and one line end and stops right behind the terminator, if and only if the message does not end in LF with a period behind it |
| SmtpText.TerminatorOnlyAtEnd | socket++/smtp.cpp:97-124 | in line end, encoded body and terminator the end-of-data mark occurs only as the last five bytes, if and only if the message does not end in LF with a period behind it |
| SmtpText.TerminatorOnlyAtEndOfChunks | socket++/smtp.cpp:144-147 | the same for a file in chunks, if and only if neither an empty line nor the end of the file follows a stray period |
| SmtpText.ReceiveStopsByMark | socket++/smtp.cpp:124 | wherever the mark occurs the receiver stops there at the latest |
| SmtpText.MarkWhereReceiverStops | socket++/smtp.cpp:124 | the mark is only at the end of what was sent if and only if the receiver takes all of it |
| SmtpText.ReceiveIsScan | socket++/smtp.cpp:109-117 | the line by line receiver on the wire is a scanner on the text with LF for each line end |
| SmtpText.ChunkedRoundTrip | socket++/smtp.cpp:144-147 | a file in any chunks, with any bytes behind them, arrives exactly if and only if no chunk boundary is unlucky; the receiver always stops |
| SmtpText.ChunksStopAtEnd | socket++/smtp.cpp:144-147 | the receiver of a file in chunks stops exactly behind the terminator under the same condition, and never behind it |
| SmtpText.ScanChunk | socket++/smtp.cpp:97-118 | from each place the receiver can be in, a chunk arrives as it is, with one period too many, or ends the data |
| SmtpText.ScanChunks | socket++/smtp.cpp:144-147 | all chunks and terminator: everything arrives with nothing left over if clean, and otherwise lines are missing or bytes added |
| SmtpText.ChunksAgainstWhole | socket++/smtp.cpp:105-147 | chunks send what one buffer would send plus the surplus periods at the stated places and nothing else; the same bytes if and only if there are none |
| SmtpText.EncodeTwo | socket++/smtp.cpp:105-117 | the encodings of two buffers are the two parts of that of both, but for the surplus period between them |
| SmtpText.EncodeChunksIsCrlf | socket++/smtp.cpp:109-117 | what the chunks send is the dotted text with CR LF for each LF |
| Smtp.MailDelivers | socket++/smtp.cpp:121-130 | when `data` goes well the command line, the body and the terminator are on the wire and nothing is pending |
| Smtp.CommandReads | socket++/smtp.cpp:51-65 | a command that has gone out, with a whole reply in front: what is shown, what is left and how it ends by how the reply's lines are delivered; exactly the reply is shown if and only if each line is there when its turn comes |
| Smtp.CommandReadsNot | socket++/smtp.cpp:59-64 | without an output stream, or when the sending throws, no reply is read |
| Smtp.MailReads | socket++/smtp.cpp:121-130 | `data` with both replies in front: it ends well having shown exactly both if and only if each of their lines is there when its turn comes, and then it has taken no more |
| Smtp.MailWhenSent | socket++/smtp.cpp:121-130 | once all has gone out, `data` ends as the answer to the command does, or as the answer to the mail if that one is fine |
| Smtp.MailAble | socket++/smtp.cpp:121-125 | over a system that takes what it is given, command, body and terminator go out |
| Smtp.MessageArrives | socket++/smtp.cpp:121-130 | end to end: behind the command line the receiver reads the message and one line end, and to the end of what was sent, if and only if there is no stray period |
| Smtp.FileArrives | socket++/smtp.cpp:133-153 | end to end: a file read to its end arrives with one line end if and only if no block boundary is unlucky; the receiver reads to the end of what was sent if and only if no stray period is cut off |
| Smtp.FileChunksWhole | socket++/smtp.cpp:144-145 | the blocks handed to `send_buf` are a front part of the file, and all of it when every read succeeds |
| Smtp.PeriodBehindBlock | socket++/smtp.cpp:105-106 | every file with a period just behind a full first block that does not end a line is unlucky |
| Smtp.SmtpBuf.SendBuf | socket++/smtp.cpp:97-118 | the loop puts exactly the encoding, byte by byte, up to the first throw, with the byte behind the buffer as an input |
| Smtp.SmtpBuf.SendOne | socket++/smtp.cpp:110-117 | one turn: CR, LF and a period if the next byte in memory is one, or the byte itself |
| Smtp.SmtpBuf.Data | socket++/smtp.cpp:121-130 | refines `Smtp.Mail` with the encoding of the buffer, for a null buffer too |
| Smtp.SmtpBuf.DataFile | socket++/smtp.cpp:133-153 | refines `Smtp.Mail` with the encodings of the blocks, each with the byte really behind it |
| Smtp.SmtpBuf.SendCmd | socket++/smtp.cpp:51-65 | command, arguments, line end, sync, and the reply when there is an output stream |
| Smtp.SmtpBuf.GetResponse | socket++/smtp.cpp:23-48 | where the loop ends, it is `Replies.SmtpReply`, also when it throws or gives up; exactly the bytes taken go to the output stream, if there is one |
| Files.ReadBlock | socket++/smtp.cpp:144 | what a read delivers is at the front of the buffer, and behind it is what was there before |
| Replies.SmtpReadsWholeReply | socket++/smtp.cpp:23-48 | with a reply of Appendix E of RFC 821 in front of the stream: what a call takes, leaves and passes on, and how it ends, by how the lines are delivered; exactly the reply if and only if each line is there when its turn comes |
| Replies.SmtpReplyTakesOne | socket++/smtp.cpp:23-48 | over any stream and deliveries a call takes the front of the stream; when it returns, the lines up to the first without '-', unless a line is cut where it stops |
| Replies.SmtpConversation | socket++/smtp.cpp:23-48 | a list of replies is read back one for each call if and only if each line is there when its turn comes |
| FtpReplies.FtpReadsWholeReply | socket++/ftp.cpp:93-128 | with a reply of section 4.2 of RFC 959, inner lines of any kind included, in front of the stream: a call returns having passed on exactly the reply and left exactly the rest if and only if each line is there when its turn comes; then code and digit are the reply's |
| FtpReplies.FtpReplyIsChopped | socket++/ftp.cpp:93-128 | for every delivery of such a reply: pieces, stray bytes, code and ending of a call, by the pieces in which its lines are delivered |
| FtpReplies.FtpTakesReply | socket++/ftp.cpp:93-128 | a call returns having taken exactly the reply, whatever it passes on, if and only if its lines are used up and the first piece to end the loop is the last, or none is and the stream ends |
| FtpReplies.ClosesWithLast | socket++/ftp.cpp:117-124 | when the last piece is the first to end the loop: a reply of one line in one piece, else no other piece behind the first starts with the code |
| FtpReplies.ChopTakes | socket++/ftp.cpp:104-115 | the pieces are the front of the lines, and all of them exactly when the end is reached |
| FtpReplies.ChopUncut | socket++/ftp.cpp:104-115 | no line is cut exactly when each is there when its turn comes |
| FtpReplies.CutLineReturns | socket++/ftp.cpp:93-128 | a reply of one line that is cut: the call returns with the right code, has taken what was buffered, and leaves the rest of the line to the next call |
| CutReply.CutButTaken | socket++/ftp.cpp:93-128 | an input on which a line is cut and the call takes exactly the reply and stores its code |
| FtpReplies.FtpReplyTakesOne | socket++/ftp.cpp:93-128 | over any stream and deliveries the pieces a call takes are the front of the stream; when it returns without having cut a line, text and code depend on the stream alone |
| FtpReplies.FtpConversation | socket++/ftp.cpp:93-128 | a list of replies is read back one for each call, text, rest, code and digit, if and only if each line is there when its turn comes |
| FtpReplies.CodeOfIs | socket++/ftp.cpp:118-119 | the code stored: the first three bytes up to a NUL, and a space |
| FtpReplies.StrncmpIs | socket++/ftp.cpp:123 | the comparison: agreement up to the first NUL |
| Replies.LineInFront | socket++/ftp.cpp:98-112 | a turn on a stream with a line in front takes that line if it is buffered as a whole, and otherwise finds too little, no line end, or a throw |
| FtpReplies.FtpRestTakes | socket++/ftp.cpp:98-125 | from the second piece on a call takes the front of the stream; when it returns without having cut a line, the lines up to the first that starts with the stored code |
| Replies.EmptiesOnlyBlocks | socket++/smtp.cpp:27-43 | turn by turn the loop uses up what one read delivered if and only if it is whole lines with at least 5 bytes from the start of each |
| Replies.BlockIsLines | socket++/smtp.cpp:27-43 | that condition in terms of lines: the last one has at least 5 bytes |
| Replies.AlignedServes | socket++/smtp.cpp:27-43 | when every read delivers whole lines, the last of at least 5 bytes, each line is there when its turn comes, or a read throws |
| Replies.StuckTurnRepeats | socket++/smtp.cpp:27-47 | a turn that finds fewer than 5 bytes, or no line end in the mail client, leaves the buffer so that the next turn finds the same |
| FtpReplies.TooFewRepeats | socket++/ftp.cpp:98-101 | in the file client a turn that finds fewer than 5 bytes finds the same again |
| Replies.SmtpReplyEnds | socket++/smtp.cpp:27-47 | corollary for any stream: on deliveries of whole lines the mail client's loop ends and leaves such deliveries |
| FtpReplies.FtpReplyEnds | socket++/ftp.cpp:98-125 | corollary for any stream: on deliveries of whole lines the file client's loop ends and leaves such deliveries |
| Replies.TakeLineOfStream | socket++/ftp.cpp:99-115 | a turn takes the first line of the stream, however much of it is buffered |
| Replies.ZapLine | socket++/ftp.cpp:107-112 | the scan ends behind the first CR LF, or exactly one beyond the data if there is none |
| Ftp.UploadDelivers | socket++/ftp.cpp:71-84 | if the source is read to its end and neither loop nor destructor throws, the bytes on the data connection are the file |
| Ftp.UploadSucceeds | socket++/ftp.cpp:71-84 | over a system that takes what it is given, every source that is read to its end is uploaded whole |
| Ftp.Upload | socket++/ftp.cpp:71-84 | the loop and the end of the connection's life are the pump, a flush, and one handle fewer |
| Ftp.DownloadNeverEnds | socket++/ftp.cpp:62-70 | after any number of turns the download loop is still going or a read has thrown; it has passed on the front of the stream, 1024 bytes a turn |
| Ftp.DownloadGoesOn | socket++/ftp.cpp:62-70 | over a system that delivers what there is the loop is going on after any number of turns |
| Ftp.FtpBuf.GetResponse | socket++/ftp.cpp:93-128 | where the loop ends, it is `FtpReplies.FtpReply`, also when it throws or cuts lines: stored code, digit returned, bytes passed on with one stray byte behind each cut piece |
| Ftp.FtpBuf.PassOn | socket++/ftp.cpp:108-115 | a line is passed on and skipped; without a line end all that is buffered is, with the byte behind it in the buffer, and the pointer goes one beyond the data |
| Ftp.FtpBuf.Closes | socket++/ftp.cpp:117-124 | when a line ends the reply, and what the first one stores |
| Ftp.FtpBuf.SendCmd | socket++/ftp.cpp:131-141 | command, optional argument, line end, sync and reply; no reply is read when a write throws |
| Ftp.CommandReads | socket++/ftp.cpp:131-141 | a command that has gone out reads as `get_response` does; with a whole reply in front it passes on exactly the reply if and only if each line is there when its turn comes |
| Ftp.CommandReadsNot | socket++/ftp.cpp:132-140 | when the sending throws no reply is read and the stored code stays |
| Ftp.FtpBuf.UserAddr | socket++/ftp.cpp:168-196 | PORT with the address of the socket, or of the machine when that is 0; throws without a command when the machine has none |
| Ftp.PortCommandArrives | socket++/ftp.cpp:168-196 | one line is sent, and the server's parse of its argument gives address and port |
| Ftp.UserAddrArrives | socket++/ftp.cpp:168-196 | the server parses the address of the socket, or that of the machine exactly when the socket's is 0 |
| PortCodec.PortRoundTrip | socket++/ftp.cpp:180-195 | parsing the argument as section 4.1.2 of RFC 959 says gives back address and port, for all of them |
| PortCodec.ReplaceDots | socket++/ftp.cpp:187-188 | the loop ends and has turned every '.' of the string in the buffer into ',' and changed nothing else |
| PortCodec.FormatArgument | socket++/ftp.cpp:180-193 | the buffer of 80 bytes holds the argument |
| PortCodec.ArgumentFits | socket++/ftp.cpp:183-193 | the argument has at most 23 characters |
| Framing.ListRoundTrip | socket++/sockstream.cpp:497-651 | a list of strings below 2^31 bytes, sent with whole headers and payloads split in any way, is received as the same list by reads that are filled |
| Framing.GenerousRoundTrip | socket++/sockstream.cpp:497-651 | between systems that move each request whole, every such list makes the trip; nothing else is assumed |
| Framing.HeaderRoundTrip | socket++/sockstream.cpp:514-627 | `ntohl` undoes `htonl`, modulo 2^32 |
| Framing.ToIntIs | socket++/sockstream.cpp:641 | the conversion to `int`: the same remainder modulo 2^32, between -2^31 and 2^31 |
| Framing.PayloadIsWhole | socket++/sockstream.cpp:641-649 | the loop sends the whole string if and only if its length fits an `int` |
| Framing.SendSendsFrame | socket++/sockstream.cpp:615-651 | a call that succeeds has sent the frame if and only if the header was taken as a whole |
| Framing.SendSucceeds | socket++/sockstream.cpp:615-651 | when `send` succeeds: the descriptor is ready, the header is not refused, and the system takes the whole payload before it fails; the errors otherwise |
| Framing.SendSends | socket++/sockstream.cpp:626-650 | what is on the wire after it, with any part of the header and of the payload, and the number it throws |
| Framing.ReceiveFrame | socket++/sockstream.cpp:506-517 | with a second read of `n` bytes: the first `n` bytes of the string, the rest left in the stream; in step with the sender if and only if the system's second answer is for all the bytes of the string |
| Framing.ReceiveOutcome | socket++/sockstream.cpp:506-517 | what `recv` does when the first read delivers nothing, a part of a header, or fails, and when the second fails |
| Framing.ReceiveRefused | socket++/sockstream.cpp:498-504 | a call that is not admitted throws what `read` throws, takes nothing and leaves the buffer |
| Framing.SendAllSendsFrames | socket++/sockstream.cpp:615-651 | the sender's calls put the frames on the wire one behind the other |
| Framing.ReceiveAllFrames | socket++/sockstream.cpp:497-518 | calls on a stream of frames return the strings and their lengths in order |
| Framing.ZeroIsAmbiguous | socket++/sockstream.cpp:509-517 | a received string makes the call return 0 exactly when it is empty |
| Framing.EndReturnsZero | socket++/sockstream.cpp:508-510 | at the end of the stream the call returns 0 as well, and leaves the buffer |
| Framing.SendString | socket++/sockstream.cpp:615-651 | the method refines `Framing.Send` |
| Framing.ReceiveString | socket++/sockstream.cpp:497-518 | the method refines `Framing.Receive` |
| Echo.EchoIsFaithful | socket++/echo.cpp:50-56 | what comes back is what was received, in order; when a write fails, all but a last part of the block in hand; at end of file everything |
| Echo.EchoEnds | socket++/echo.cpp:50-56 | the echo goes on block by block until a read finds the end of file or is refused, or a write fails, and ends with exactly that |
| Echo.EchoesAll | socket++/echo.cpp:50-56 | over a system that delivers what there is and takes what it is given, everything comes back and the ending is the end of file |
| Echo.Serve | socket++/echo.cpp:50-56 | the nested loops end and are the block by block echo, although the inner one never advances its buffer |
| Fork.ListIsTheLiving | socket++/fork.cpp:60-165 | in every reachable state the list has distinct positive numbers and holds exactly the children spawned and neither reaped nor destroyed since |
| Fork.RemoveOne | socket++/fork.cpp:92-163 | exactly the first child of the number goes, the others keep their order, and it is reported if it asked for it |
| Fork.RemoveNone | socket++/fork.cpp:147-163 | a number not in the list changes nothing |
| Fork.SuicideEndsEachOnce | socket++/fork.cpp:168-178 | each child gets exactly one signal, SIGTERM or SIGKILL as it was made, and is waited for exactly once |
| Fork.SuicideInOrder | socket++/fork.cpp:86-178 | signal, wait and, after a successful wait for a child that asked for it, report stand next to each other in this order |
| Fork.Processes.Spawn | socket++/fork.cpp:47-84 | parent: the new child is in front; child: the list is empty with no signal and no wait; failure: nothing; the handlers installed |
| Fork.Processes.ClearList | socket++/fork.cpp:65-74 | the child's loop destroys every node without a signal or a wait |
| Fork.Processes.Delete | socket++/fork.cpp:86-103 | a living node is signalled, waited for and taken out of the linked list, which stays linked and free of duplicates, and the children are those of `Fork.Apply`; any other node does nothing |
| Fork.Processes.Bypass | socket++/fork.cpp:92-101 | for every list shape the links skip exactly that node |
| Fork.Processes.ReapChild | socket++/fork.cpp:114-119 | waits for a living child once, and reports only after a successful wait |
| Fork.Processes.Reaper | socket++/fork.cpp:137-165 | exactly the node of the reaped child leaves the linked list; other signals and no child change nothing |
| Fork.Processes.CommitSuicide | socket++/fork.cpp:168-178 | the events are those of `Fork.Suicide`, in list order, and the list is empty |
| Pipes.ForkSplitsPairs | socket++/pipestream.cpp:148-174 | after one fork each waiting stream has complementary ends open in parent and child, and each side's buffer is on its own |
| Pipes.DrainSucceeds | socket++/pipestream.cpp:154-172 | a fork stops only at the first `close` that fails, with all streams before it done |
| Pipes.RunSound | socket++/pipestream.cpp:134-174 | over every run of constructions and forks, also with failing closes, each open descriptor is in use by exactly one stream, once |
| Pipes.ForkKeepsEnds | socket++/pipestream.cpp:154-172 | a stream attached before keeps its end through any later fork, in either process |
| Pipes.PipeStreams.Create | socket++/pipestream.cpp:134-145 | the new stream is in front and not attached; without a socket pair nothing changes |
| Pipes.PipeStreams.Fork | socket++/pipestream.cpp:148-174 | the loop drains the linked list: streams taken off have process and end, those behind a failed close are as they were |
| Signals.AlwaysAgreement | socket++/sig.cpp:44-181 | in every reachable state lists have no duplicates and no null, and where one is not empty the library's function is installed |
| Signals.ListHistory | socket++/sig.cpp:44-110 | after any run the list of a signal is exactly the handlers registered and not removed since, in the order of registration; empty for a signal that cannot be handled |
| Signals.MaskHistory | socket++/sig.cpp:94-181 | after any run `b` is masked for `a` exactly when `mask(a, b)` has been called, for signals the system has, lets change and lets mask, with no `unmask(a, b)` and no `unset(a)` since |
| Signals.InstallHistory | socket++/sig.cpp:44-181 | after any run the library's function is installed for `a` exactly when `a` can be changed and a handler was set, a signal masked, or any signal unmasked for it with no `unset(a)` since |
| Signals.ActionHistory | socket++/sig.cpp:44-181 | after any run a disposition that is not the library's is the default with nothing masked if it has been the library's, and else what it was at first |
| Signals.Answers | socket++/sig.cpp:44-181 | what each operation answers: true for a change, false for none, a throw for a signal the system refuses |
| Signals.KillCallsEachOnce | socket++/sig.cpp:222-228 | after any run `kill` calls each registered handler exactly once, the first registered first |
| Signals.MaskedStep | socket++/sig.cpp:143-181 | what one operation does to one bit of one mask |
| Signals.Sig.Set | socket++/sig.cpp:44-74 | refines `Signals.Register`, with its false results and throws |
| Signals.Sig.Unset | socket++/sig.cpp:77-91 | refines `Signals.Unregister` |
| Signals.Sig.UnsetSignal | socket++/sig.cpp:94-110 | refines `Signals.UnregisterAll` |
| Signals.Sig.Mask | socket++/sig.cpp:143-160 | refines `Signals.MaskIn` |
| Signals.Sig.Unmask | socket++/sig.cpp:163-181 | refines `Signals.UnmaskIn` |
| Signals.Sig.Kill | socket++/sig.cpp:222-228 | the calls made are those to the handlers of the list, in its order |

## Left out

- The real calls: `select`, `ioctl`, socket options, `recvfrom`, `sendto`, `accept`, `connect`, `bind`, `listen`; they have no
  logic of their own.
- Termination of the write loops when `::write` accepts 0 bytes of a non-empty request; the model has it accept at least one.
- Wide characters, and `send` and `recv` of `wstring`: the code mixes bytes and elements there.
- Formatting of error texts and the classification in `sockerr`; an error is a timeout, an out-of-band stop or another failure.
- SockStream.SockBuf.Copy: who owns the memory of the areas is not modelled; the copy's own areas are empty, as the
  base class leaves them.
- Pending bytes across `shutdown(shut_write)`: they are gone, as in the code.
- Assignment of socket buffers, which is commented out in the source.
- Smtp.SmtpBuf.GetResponse: called only where the loop ends, as a method cannot run for ever; `Replies.SmtpReply` and
  `Replies.SmtpReadsWholeReply` say when it does not.  The same holds for the methods that wait for a reply.
- Ftp.FtpBuf.GetResponse: the same.  When a line is cut and the buffer is full, the byte passed on behind it is any byte.
- Replies.SmtpReplyEnds: only a sufficient condition, for streams with no whole reply in front.
- FtpReplies.FtpReplyEnds: the same; for a whole reply `FtpReplies.FtpReplyIsChopped` says when it ends.
- Smtp.SmtpBuf.SendBuf: the byte behind a buffer that ends in LF must be readable; the code reads it without asking.
- Smtp.SmtpBuf.DataFile: opening the file, and reading the standard input in its place when that fails.
- Ftp.Upload: reading from another stream is one read of the source at a time; the error message for a short `sputn`, which
  never occurs because `xsputn` returns the whole length; binding, listening, the commands around the transfer.
- Ftp.FtpBuf.UserAddr: `gethostname` and `gethostbyname` are one parameter, the address they give, if any.
- Framing.ListRoundTrip: supposes that the receiver's reads are filled and the sender's headers taken whole; without that it
  is false (`Framing.SendSendsFrame`, `Framing.ReceiveFrame`); that both can be met is `Framing.GenerousRoundTrip`.
- Framing.ReceiveString: the memory for the announced length is always available.
- Echo.Serve: one connection; the accept loop and the exit after it.
- Fork.Processes.Reaper: handlers are atomic steps; signals that coincide are not counted, so that it is not claimed that every
  ended child is reaped.  The node gets its number -1 after it is unlinked here and before it in the code.
- Fork.Processes.Delete: memory is not given back; `Fork` objects that outlive their process are not modelled.
- Fork.Processes.CommitSuicide: the final `exit`.
- `KillForks::~KillForks`, which reads `next` of a deleted node, and `kill_process`.
- Pipes.PipeStreams.Fork: streams destroyed before the fork, which the code leaves in its list; the parent and the child are two
  runs from the same state; buffers closing their descriptors later are not followed.
- Signals.Sig.Kill: handlers that register or remove handlers while they run; sigaction flags, which are always 0.
- `mask` and `unmask` with one argument, `ispending`, `pending`, `sysresume`: single calls of the system.
- The other mail and file commands, addresses, name lookup, `protocol`, `sockinet`, `sockunix`, the parsing stream of `smtp`,
  `fifostream`, the other pipe constructors: plumbing around what is modelled.
