# AdmiralBBS: protocol and state models

A Dafny model of the parts of AdmiralBBS that carry a protocol, a parser or shared state, with proofs about
every input, every run and every interleaving. `dafny verify dfyconfig.toml` checks all of it.

The Go code changes things step by step, so each operation is a method or a class whose `ensures` ties its
result, and everything it writes, consumes or changes, to a function of its inputs. Those functions are small
machines; the theorems are about them, and about step systems built from them.

| part | modules |
|---|---|
| XMODEM-CRC | `Crc` (the check value and its algebra), `CrcPolynomial` (what it is: a remainder of polynomials), `Xmodem` (sender, receiver, and the loops that run them), `XmodemWire` (the bytes of frames, and what every series of replies or packets leads to), `XmodemStream` (padding, limits, undamaged transfers), `XmodemLink` (both ends over a faulty line: safety), `XmodemProgress` (termination and success) |
| Telnet | `Telnet` (parser and buffered reads), `TelnetStream` (round trip), `TelnetNegotiation` (option negotiation as a system of two parties) |
| Escape sequences, line editing | `Escapes` (strippers), `EscapeTokens` (what they leave of any stream), `Session` (keys, lines, passwords), `LineEditing` (what a typed line contains) |
| Resident-door handshake | `Handshake`, `HandshakeStream` (every way a stream can arrive), `HandshakeAdvert` (what a door says is what the host hears) |
| Audit trail | `Vaults` (the abstract AEAD and HMAC), `Audit`, `AuditTrail` (which files verify), `AuditRuns` (runs with failures, restarts and key rotations) |
| Session admission | `Registries`, `Lifecycle` (any number of sessions, interleaved by lock region), `Limiter` (semaphore and map in separate steps) |
| File library, key rotation | `FileStore` (the calls), `FileLibrary` (their steps, interleaved), `FileGuarantees` (over every run), `FileCalls` (undisturbed steps are calls), `RekeyStore` |
| shared | `Bytes`, `Text`, `Wires`, `Sums` |

Bytes are `bv8` and the CRC register `bv16`, so Go's wrap-around is exact: `block++`, `255-block` and
`expected-1` are taken modulo 256.

## What turned out not to hold, and the exact conditions

* **A payload does not always come back unchanged.** `Receive` trims every trailing 0x1A, the payload's own
  included, and it bounds the padded size. `XmodemStream.RoundTrip` has both conditions as an if-and-only-if;
  for limits of whole blocks, such as the library's 10 MiB, `XmodemStream.UploadAccepted` says that a clean
  upload succeeds exactly when its length is within the limit.
* **Truncating the audit trail is not detected.** `src/audit/log.go:7-9` and `docs/ARCHITECTURE.md:137`
  say that it is. The code accepts every prefix of an honest trail (`AuditRuns.TruncationUnnoticed`);
  `AuditTrail.TamperEvident` has the exact set of accepted files. The model follows the code.
* **An honest trail need not be readable.** Emit has no limit, but the reader's scanner stops at a line of
  8 MiB. The trail reads as exactly the recorded events if and only if no line is that long
  (`AuditRuns.RunVerifies`). And it reads as what JSON keeps of them, which for text that is not valid UTF-8 is
  not what was written (`AuditRuns.WritesKept`).
* **The handshake can depend on how the door's bytes are cut.** It does exactly when a leading sentinel's BEL
  has an index from 256 to 510 (`HandshakeStream.ChunkIndependence`).
* **Telnet negotiation ends or not as the client chooses.** The host answers every DONT with WONT and every
  WONT with DONT. Against any client, finitely many messages are exchanged if and only if the client sends
  finitely many that RFC 854 does not allow as answers: changes of its own, and acknowledgements of what is in
  effect already (`TelnetNegotiation.FiniteExactly`, with the bound in `Quiescence`). A client that merely
  acknowledges everything never lets the exchange end (`StubbornNeverEnds`).
* **Some subnegotiations are misheard.** The parser uses option 0 for "none seen yet" and takes a doubled 255 for
  data. A subnegotiation is heard as it was meant if and only if its option is not 255, and is not 0 unless all
  its data are 255 (`TelnetStream.HeardAsMeant`); `StreamRecovered` says what is heard in every case.

## Assumptions

* `Vaults.Sound`: opening undoes sealing, and a MAC has 32 bytes. Collision freedom of HMAC is assumed only
  among the messages in play (`AuditTrail.NoCollision`), and only where it is needed.
* `Audit.Lawful`, `RekeyStore.Lawful`: decoding undoes encoding, base64 text has only its own alphabet, and
  JSON can read what it wrote, as the same event or another.
* `FileLibrary.Plausible`: what has reached the disk of an unfinished blob does not open, unless it is all there.
* The line of `XmodemLink` keeps frames in frame: it may alter one header byte, or damage the data and check
  bytes in a way the CRC shows, any number of times (`FaultsAreDetectable` proves that every burst within two
  adjacent bytes is such damage), and may turn a reply into anything but an ACK that was not sent. For
  `XmodemProgress.Completion` moreover the opening 'C' gets through, no reply is turned into CAN, and no block
  fails ten times: on its tenth try, and for EOT, what is said is delivered.
* Nonces, clock readings, and the outcomes of I/O are arguments; results hold for all of them.

## Model

| member | source | states |
|---|---|---|
| Crc.ComputeCrc16 | src/xfer/xmodem.go:35-48 | the nested loops compute the CRC machine whose algebra the rows below prove |
| CrcPolynomial.CrcIsRemainder | src/xfer/xmodem.go:35-48 | the CRC is the remainder of the message times x^16 on long division by x^16 + x^12 + x^5 + 1, over single bits |
| CrcPolynomial.CheckBytesAreRemainder | src/xfer/xmodem.go:119-121 | the two check bytes, bit by bit, are that remainder |
| XmodemWire.DigitsCheck | src/xfer/xmodem.go:33-48 | the CRC of "123456789" is 0x31C3 |
| Crc.ShiftLinear | src/xfer/xmodem.go:39-45 | the shift step is linear over exclusive or |
| Crc.ShiftBijective | src/xfer/xmodem.go:39-45 | the shift step has a two-sided inverse on 16 bits |
| Crc.TwoBytes | src/xfer/xmodem.go:37-46 | two message bytes act on the register as the 16-bit word they form |
| Crc.ResidueIsZero | src/xfer/xmodem.go:179-180 | the register ends at zero over data and two bytes exactly when the two are the data's big-endian CRC |
| Crc.BurstDetected | src/xfer/xmodem.go:35-48 | different messages of equal length, of any length, that differ only inside two adjacent bytes never share a CRC |
| Crc.DamageRejected | src/xfer/xmodem.go:179-194 | such damage, also across the border of data and check bytes, fails the receiver's comparison |
| Xmodem.ChunkOfPadded | src/xfer/xmodem.go:82-87 | block i is the i-th 128 bytes of the payload filled up with SUB |
| Xmodem.MakeFrame | src/xfer/xmodem.go:113-125 | SOH, the block number, its complement, the data, and the CRC or the 8-bit sum |
| XmodemWire.FrameOnWire | src/xfer/xmodem.go:113-125 | in bytes: 01, the number, 255 less the number, 128 data bytes, and the remainder or the sum modulo 256 |
| XmodemWire.SumIsLowByte | src/xfer/xmodem.go:122-125 | the 8-bit sum is the sum of the bytes modulo 256 |
| XmodemWire.EmptyFileOnWire | src/xfer/xmodem.go:81-95 | the empty file goes out as one frame of 128 SUBs, with the remainder of those, and EOT |
| Xmodem.SendBlock | src/xfer/xmodem.go:112-144 | ten tries: ACK moves on, CAN stops, any other reply sends the same frame again; results, bytes written and replies consumed are the sender machine's |
| XmodemWire.BlockOutcome | src/xfer/xmodem.go:112-144 | for every series of replies to a block: the first ACK or CAN among the first ten decides, and one frame is written for each reply read |
| Xmodem.AwaitStart | src/xfer/xmodem.go:58-79 | waits for 'C' or NAK, gives up on the eleventh other byte, stops on CAN or a read error |
| XmodemWire.StartOutcome | src/xfer/xmodem.go:58-79 | for every series of bytes that answers the call: the first of 'C', NAK and CAN decides, unless ten others or the end of the stream come before it |
| Xmodem.SendEot | src/xfer/xmodem.go:97-109 | EOT up to ten times until an ACK |
| XmodemWire.EndOutcome | src/xfer/xmodem.go:97-109 | for every series of replies: success exactly if an ACK is among the first ten, one EOT for each reply read |
| Xmodem.Send | src/xfer/xmodem.go:57-110 | a whole call, failing reads and writes included, is the sender machine's run: at least one block, block numbers modulo 256 |
| Xmodem.ReadFrame | src/xfer/xmodem.go:167-178 | consumes exactly the 132 bytes after SOH, or all of a shorter stream |
| Xmodem.FrameAbsorbed | src/xfer/xmodem.go:166-194 | reading a frame byte by byte and reading it in three gulps are the same run of the receiver |
| Xmodem.AnswerFrame | src/xfer/xmodem.go:179-194 | accept, acknowledge a duplicate again, refuse, or cancel as too big |
| XmodemWire.AnswerExactly | src/xfer/xmodem.go:179-194 | the answer to any 132 bytes after SOH, in terms of the frame the sender would make: an intact one of the expected number is appended and acknowledged with 06, or refused with 18 18 if it does not fit; the number before is acknowledged and dropped; all else is refused with 15 |
| Xmodem.TrimPad | src/xfer/xmodem.go:199-205 | the loop computes the trimming that `TrimIsMaximal` characterises |
| Xmodem.Receive | src/xfer/xmodem.go:149-197 | a whole call is the receiver machine's run, result, replies and consumed bytes alike |
| XmodemWire.UploadHeard | src/xfer/xmodem.go:159-197 | for any sequence of noise and packets, however damaged, repeated or out of order: the upload is the blocks among them, and every packet gets its one answer |
| XmodemWire.CallHeard | src/xfer/xmodem.go:149-197 | a whole call: 'C' first, then that upload from block 1 on, then the result that its end means |
| XmodemStream.TrimIsMaximal | src/xfer/xmodem.go:199-205 | trimming removes only SUB, only at the end, and all of it there |
| XmodemStream.TrimPadded | src/xfer/xmodem.go:82-87 | trimming the padded payload is trimming the payload |
| XmodemStream.UploadBounded | src/xfer/xmodem.go:147-188 | for every peer and at every moment at most limit + 128 bytes are buffered, and never more than the limit returned |
| XmodemStream.SendClean | src/xfer/xmodem.go:81-109 | given only ACKs, Send succeeds and writes each block once, in order, then one EOT |
| XmodemStream.RoundTrip | src/xfer/xmodem.go:57-205 | Receive on what Send wrote returns the payload less its trailing SUB bytes exactly when the padded payload fits; it returns the payload itself exactly when moreover that does not end in SUB |
| XmodemStream.UploadAccepted | src/store/files.go:15-15 | with a limit of whole blocks a clean upload succeeds exactly when its length is at most the limit, and is refused as too big otherwise |
| XmodemLink.FaultsAreDetectable | src/xfer/xmodem.go:179-194 | one altered header byte together with any burst inside two adjacent bytes after the header is a fault of the modelled line |
| XmodemLink.Verdict | src/xfer/xmodem.go:181-194 | a receiver never takes a damaged frame for a block: it appends just the block it lacks, and acknowledges only a block it has |
| XmodemLink.RunInv | src/xfer/xmodem.go:57-197 | the inductive invariant of both ends and both channels, over every run |
| XmodemLink.Safety | src/xfer/xmodem.go:57-197 | in every interleaving, under all faults, over any number of wraps of the block byte: the buffer is exactly the first r padded blocks with r the sender's index or one more; no block is sent more than ten times; a success reported by either side is true |
| XmodemProgress.RunLength | src/xfer/xmodem.go:97-143 | every run, fair or not, is bounded by a measure over blocks left, tries left and bytes in transit |
| XmodemProgress.FairRunInv | src/xfer/xmodem.go:112-144 | what fair runs keep beyond the invariant |
| XmodemProgress.StuckIsSuccess | src/xfer/xmodem.go:57-205 | where neither side can read, a fair transfer has succeeded on both |
| XmodemProgress.Completion | src/xfer/xmodem.go:57-205 | when no block fails ten times, the transfer takes a bounded number of steps, can always go on until it is over, and then Send has returned nil and Receive the trimmed payload, the empty one included |
| Telnet.FeedConcat | src/transport/telnet.go:119-166 | feeding in pieces is feeding the whole: data, replies and state |
| Telnet.OutputBounded | src/transport/telnet.go:119-187 | data, replies and retained subnegotiation bytes together never outnumber the bytes fed |
| Telnet.TelnetConn.constructor | src/transport/telnet.go:84-96 | the four offers and the terminal-type request, and a parser in the data state |
| Telnet.TelnetConn.Respond | src/transport/telnet.go:170-187 | writes the reply that `TelnetNegotiation.AnswersFollowOffers` pins down |
| TelnetNegotiation.AnswersFollowOffers | src/transport/telnet.go:168-187 | silent exactly when the message agrees to an opening offer (DO to an offered WILL, WILL to an offered DO); else WONT of that option to DO and DONT, DONT of it to WILL and WONT |
| Telnet.TelnetConn.EndSubneg | src/transport/telnet.go:189-213 | takes a window size of at least four bytes, big-endian, and announces it if the queue of eight has room; takes the first non-empty terminal type |
| Telnet.TelnetConn.Feed | src/transport/telnet.go:119-166 | the loop over the five states is the one-shot decoder |
| Telnet.TelnetConn.Read | src/transport/telnet.go:98-115 | reads until something is decoded or the connection fails; bytes that came with an error are delivered first |
| Telnet.ReadExactly | src/transport/telnet.go:98-115 | a read makes as many underlying reads as it takes for data to come or one to fail, none if data is pending; fails only without data; else returns as much of the data as fits |
| Telnet.ReadRefinesDecoder | src/transport/telnet.go:98-187 | for all cuts of the wire and all buffer sizes: bytes returned followed by bytes pending are the one-shot decoding of the bytes consumed, and so are the replies |
| TelnetStream.LearnMeans | src/transport/telnet.go:189-213 | what a completed subnegotiation teaches and announces, in a client's terms |
| TelnetStream.StreamRecovered | src/transport/telnet.go:119-213 | round trip: any list of data bytes, negotiations, commands and subnegotiations of any option, escaped and fed, yields exactly the data, the prescribed replies, and of what is heard the last size, the first terminal type, and the announced sizes in order as far as the queue has room |
| TelnetStream.HeardAsMeant | src/transport/telnet.go:133-164 | exactly which subnegotiations are heard as they were meant |
| TelnetStream.SizeRecovered | src/transport/telnet.go:191-197 | every pair of 16-bit window dimensions survives the wire, bytes 255 in them included |
| TelnetStream.SizeOnWire | src/transport/telnet.go:189-204 | the bytes 255 250 31 w w h h 255 240 set the window size |
| TelnetStream.TerminalOnWire | src/transport/telnet.go:205-213 | the bytes 255 250 24 0 name 255 240 set the terminal type, trimmed, if none is known |
| TelnetStream.SizesQueued | src/transport/telnet.go:191-204 | of the sizes announced the first eight are queued, in order |
| TelnetStream.StrayEscape | src/transport/telnet.go:157-164 | inside a subnegotiation IAC before any byte but SE stands for that byte |
| TelnetNegotiation.OffersAreOpening | src/transport/telnet.go:88-94 | the messages the system starts with are the bytes the connection writes, spelled out |
| TelnetNegotiation.AgreementSettles | src/transport/telnet.go:84-187 | a client that agrees to every offer draws no further message from the host, in every interleaving |
| TelnetNegotiation.Quiescence | src/transport/telnet.go:168-187 | against any client: a fixed number of messages, and at most seven more for each that RFC 854 does not allow; while one is in transit the exchange can go on by allowed ones |
| TelnetNegotiation.FiniteExactly | src/transport/telnet.go:168-187 | finitely many messages are exchanged if and only if the client sends finitely many that the rule does not allow |
| TelnetNegotiation.StubbornNeverEnds | src/transport/telnet.go:84-187 | against a client that answers everything, from the opening offers on, there are runs with any number of messages |
| Escapes.StripANSI | src/screen/ansiart.go:29-46 | the index loop computes the state machine's output |
| EscapeTokens.Tokenised | src/screen/ansiart.go:27-46 | every stream is text bytes, two-byte escapes and control sequences, and perhaps an unfinished sequence at the end |
| EscapeTokens.StripExactly | src/screen/ansiart.go:29-46 | stripping leaves of such a stream exactly its text bytes |
| Escapes.SanitizeInput | src/session/input.go:31-58 | the stripped input filtered to printable bytes and TAB, CR, LF |
| Escapes.SanitizeForDisplay | src/screen/writer.go:119-143 | the very same function of its input |
| EscapeTokens.SanitizedExactly | src/session/input.go:23-58 | what both sanitisers leave is the text of the stream that is printable, above 0x7F, TAB, LF or CR, all of it, in order |
| Escapes.PullScans | src/session/session.go:196-224 | one call of nextByte takes exactly the first byte of the stripped stream |
| Escapes.DrainIsStrip | src/session/session.go:196-224 | the bytes nextByte delivers until the stream ends are stripANSI of it |
| Escapes.SanitizedIsClean | src/session/input.go:23-30 | sanitised text holds only allowed bytes and no escape, never grows, and is not changed by sanitising again |
| Escapes.CutIsSafe | src/screen/ansiart.go:29-46 | stripping in two pieces agrees with stripping the whole for all continuations exactly when the cut is not inside a sequence |
| Escapes.DegradeCP437 | src/screen/ansiart.go:49-67 | folds each byte, and stops at the DOS end-of-file marker |
| EscapeTokens.DegradedText | src/screen/ansiart.go:49-67 | printable ASCII, TAB, LF and CR come out unchanged, up to the marker 0x1A, and nothing after it |
| Escapes.DegradedIsPlain | src/screen/ansiart.go:49-82 | the result is seven-bit, free of escapes and no longer than the input |
| Session.Session.NextByte | src/session/session.go:196-224 | the loop returns the next real byte and leaves the input after it, or uses up a stream that ends inside a sequence |
| Session.Session.ReadKey | src/session/session.go:228-242 | the next key, other control bytes skipped |
| LineEditing.KeyExactly | src/session/session.go:228-242 | past any escape sequences and other control bytes the next text byte, CR or LF is the key, and what follows it stays unread |
| Session.KeysRead | src/session/session.go:228-242 | the keys read until the caller goes are the key bytes of the stripped input |
| Session.Session.ReadLine | src/session/session.go:247-272 | the line, the input left unread and every byte echoed are the editing machine's, whose results the next three rows and `EchoShowsBuffer` state |
| LineEditing.TypedLine | src/session/session.go:247-272 | text of at most 4096 bytes free of control bytes, then CR or LF: the line is that text, what follows stays unread, and the text and CRLF were written |
| LineEditing.LineExactly | src/session/session.go:247-272 | for any input: the keys before the first CR or LF, escape sequences passed over, are edited into the line and the rest stays unread; without CR or LF there is no line |
| LineEditing.EditedExactly | src/session/session.go:258-270 | the line is, in order, those text keys that no later backspace or DEL has reached, by counting erasures against text; other control bytes count for nothing (for up to 4096 text keys) |
| Session.Session.ReadPassword | src/session/session.go:276-299 | the same line and the same unread input as ReadLine, and nothing written but the final CRLF |
| Session.EchoShowsBuffer | src/session/session.go:244-272 | after any number of keys the echo played on a terminal line shows exactly the buffer, with the cursor at its end; the buffer is at most 4096 bytes and free of control bytes |
| Handshake.ResidentConn.ReadHandshake | src/doors/bridge.go:61-98 | the peek's outcome: what was learnt, what is held back, what the relay will still read |
| Handshake.ResidentConn.Parse | src/doors/bridge.go:102-120 | capabilities start afresh; then the fields of the payload, in order, unknown ones ignored |
| Handshake.ResidentConn.SendHandle | src/doors/bridge.go:130-139 | one reciprocal sentinel if the door asked and a legal character is left, else nothing |
| Handshake.ResidentConn.Replay | src/doors/bridge.go:176-182 | the bytes held back go out once, before all else; if the caller does not take them they are kept and the relay ends |
| Handshake.CleanHandle | src/doors/bridge.go:143-155 | at most 24 bytes, all legal in a handle; exactly which ones is `HandleKept` |
| Handshake.HandleKept | src/doors/bridge.go:143-155 | kept are exactly the letters, digits, _, - and . among the first 24 bytes, in order and with their multiplicity |
| Handshake.LegalHandleStays | src/doors/bridge.go:143-155 | a legal handle of at most 24 bytes is kept as it is |
| Handshake.CleanVersion | src/doors/bridge.go:160-172 | at most 32 bytes, all legal in a version; exactly which ones is `VersionKept` |
| Handshake.VersionKept | src/doors/bridge.go:160-172 | kept are exactly the letters, digits, ., - and + among the first 32 bytes, in order and with their multiplicity |
| Handshake.LegalVersionStays | src/doors/bridge.go:160-172 | a legal version of at most 32 bytes is kept as it is |
| Handshake.GreetingParses | src/doors/bridge.go:122-139 | read as a sentinel, the reply is complete, ends there, and has just the field handle with the sanitised handle |
| Handshake.GreetingOfLegal | src/doors/bridge.go:122-139 | for a legal handle the reply is, in bytes, ESC ]ABBS;handle= then the handle then BEL |
| HandshakeStream.Transparent | src/doors/bridge.go:58-98 | for every cutting, timeout and end of file: the caller gets the whole stream, or the stream less one complete leading sentinel, the one that was parsed; at most 511 bytes are held |
| HandshakeStream.SentinelExactly | src/doors/bridge.go:74-88 | a leading sentinel is complete exactly when the stream is ESC ]ABBS; then a payload without BEL, then BEL |
| HandshakeStream.PeekExactly | src/doors/bridge.go:68-97 | when the peek stops and with what: it reads on exactly while it has less than 256 bytes, which might begin a sentinel, and no error |
| HandshakeStream.SettledResult | src/doors/bridge.go:61-98 | with the BEL among the first 256 bytes the sentinel is found however the stream arrives |
| HandshakeStream.ChunkIndependence | src/doors/bridge.go:61-98 | the outcome is the same for all ways a stream can arrive if and only if no leading sentinel's BEL has an index from 256 to 510 |
| HandshakeAdvert.FieldRecovered | src/doors/bridge.go:104-119 | the effect of each kind of field, whatever stood before it, with white space around key and names, empty names, and any version text |
| HandshakeAdvert.AdvertRecovered | src/doors/bridge.go:102-120 | round trip: the host reads the version named last, as far as it is legal, and every capability out of any list of fields, and nothing else |
| HandshakeAdvert.AnnouncementHeard | src/doors/bridge.go:61-120 | however it arrives, an announcement of at most 256 bytes is understood and removed, and the caller gets exactly the game's bytes |
| Vaults.OpenSealed | src/crypto/vault.go:90-107 | opening a sealed blob, nonce in front, gives the plaintext back |
| Vaults.BlobForm | src/crypto/vault.go:90-107 | the first 24 bytes of a blob are its nonce, the rest the ciphertext |
| Audit.HmacEqual | src/audit/log.go:256-265 | the accumulating loop decides equality |
| Audit.ReadAll | src/audit/log.go:175-214 | the verdict, and the events returned with it, on any file: absent, unreadable, failing part-way, or with a line of 8 MiB |
| Audit.Logger.New | src/audit/log.go:74-112 | a logger that goes on from the last line's MAC, or from the genesis MAC; on no file, or one of white space, the MAC in memory is the HMAC of the genesis text; none exactly if the file or its last line cannot be read, or opening for appending fails |
| Audit.Logger.Emit | src/audit/log.go:116-144 | appends one line and moves the tip only if marshalling, sealing and writing all succeed |
| AuditTrail.ParseLineExactly | src/audit/log.go:153-167 | a line is well formed exactly if both sides of its first dot decode and something stands before it, and says those two |
| Audit.Rekey | src/audit/log.go:218-254 | the new file, or none if a line cannot be read, opened or sealed; old MACs are not looked at |
| AuditTrail.VerifiesIff | src/audit/log.go:185-213 | entries are accepted exactly when each is chained to the one before and opens to an event, and then the verdict lists those |
| AuditTrail.FirstFault | src/audit/log.go:185-213 | for any lines: the first one at fault decides between a broken chain, with the events before it, and an error without events |
| AuditTrail.PrevDistinct | src/audit/log.go:185-211 | no two places of an honest chain commit to the same predecessor; a 32-byte MAC with a ciphertext is never the 27-byte genesis input |
| AuditTrail.ChainIsPrefix | src/audit/log.go:185-211 | a chained list of issued MACs agrees with the honest chain entry by entry |
| AuditTrail.TamperEvident | src/audit/log.go:175-214 | a file all of whose MACs an honest chain issued, and that the scanner gets through, is accepted exactly when its entries are a prefix of that chain, and reads as that prefix |
| AuditRuns.ContentReadsBack | src/audit/log.go:125-167 | a file of lines reads back as its entries, with or without the last newline |
| AuditRuns.TipRecovered | src/audit/log.go:97-112 | the tip recovered from a file of lines, white space before them or not, is its last MAC, or the genesis MAC |
| AuditRuns.TipExactly | src/audit/log.go:97-112 | of any file with text in it, the tip is the MAC of the last line, if that is well formed |
| AuditRuns.TrailReads | src/audit/log.go:185-213 | an honest file reads as its events, or, if a line is too long, as those before the first such line, with an error |
| AuditRuns.TruncationUnnoticed | src/audit/log.go:169-214 | a trail cut off after any line verifies |
| AuditRuns.RekeyPreserves | src/audit/log.go:216-254 | re-keying a trail succeeds exactly when the random source does, and the new file is a trail of the same events in the same order under the new key, which reads as them unless a line is too long |
| AuditRuns.RekeyExactly | src/audit/log.go:216-254 | for any file: re-keying succeeds exactly when every line can be read and opened and the random source delivers; the result is a chain of what the lines opened to, whether or not the old file was one |
| AuditRuns.WritesKept | src/audit/log.go:116-131 | every written event is kept, in the form JSON reads back |
| AuditRuns.RunVerifies | src/audit/log.go:72-254 | from what New leaves, on no file, a blank one or an honest trail, over all emits, failed seals and writes, restarts and rotations: the tip a restart would recover is the one in memory, and the file reads as exactly the events there were and those whose writes succeeded if and only if no line has 8 MiB |
| Registries.Presence.Enter | src/session/presence.go:31-43 | a fresh token takes the handle; the session it replaces, if any, is disconnected |
| Registries.Presence.Leave | src/session/presence.go:46-52 | gives the handle up only if the token is still the current one |
| Registries.AllottedUnique | src/session/nodepool.go:24-34 | there is just one number Acquire can hand out |
| Registries.NodePool.constructor | src/session/nodepool.go:16-21 | an empty pool of max numbers, 64 if max is not positive |
| Registries.NodePool.Acquire | src/session/nodepool.go:24-34 | the least free number from 1 to max, marked used, or 0 with nothing changed |
| Registries.NodePool.Release | src/session/nodepool.go:37-41 | frees that number and no other |
| Registries.Roster.Join | src/session/roster.go:35-39 | files the caller under its node |
| Registries.Roster.Leave | src/session/roster.go:42-46 | removes that node's entry and no other |
| Registries.Roster.List | src/session/roster.go:49-58 | every entry exactly once, sorted by node, whatever order the map gives |
| Registries.Roster.Count | src/session/roster.go:61-65 | the length of every listing of the same moment |
| Lifecycle.SshHandle | src/cmd/admiralbbs/main.go:259-272 | a session alone gives back all it took, node or no node, and leaves only a used-up token and the disconnection of its predecessor |
| Lifecycle.RunInv | src/cmd/admiralbbs/main.go:259-272 | the inductive invariant of registries and sessions over every interleaving |
| Lifecycle.Admission | src/cmd/admiralbbs/main.go:246-285 | for any number of sessions: distinct nodes in 1..max and exactly those in use; roster entries name their holders; the current token of a handle is the newest issued; nobody is disconnected twice |
| Lifecycle.NewestWins | src/session/presence.go:5-12 | a session that registered and has not left is in exactly one state: current, about to be disconnected, or disconnected once |
| Lifecycle.LeaveIsHarmless | src/session/presence.go:45-52 | no Leave, late or stale, takes another session's place or disconnects anyone |
| Lifecycle.DisplacedByNewer | src/session/presence.go:27-43 | only a newer login of the same handle disconnects a session, never the session itself, never a second time |
| Limiter.Limiter.Acquire | src/transport/limits.go:38-53 | admits exactly below both caps; a refusal changes nothing |
| Limiter.Limiter.Release | src/transport/limits.go:55-65 | gives back one count, dropping a count of zero, and one slot; with no slot taken it never returns |
| Limiter.ReleaseUndoes | src/transport/limits.go:38-65 | release restores the map acquire found |
| Limiter.RunInv | src/transport/limits.go:38-65 | the inductive invariant over sends, mutex regions and receives in any order |
| Limiter.Conservation | src/transport/limits.go:38-65 | semaphore occupancy is the sum of the counts plus callers in transit; no cap is exceeded; no zero entries; no receive blocks |
| FileStore.Files.UserBytes | src/store/files.go:185-189 | the sum over the uploader's rows |
| FileStore.Files.AddFile | src/store/files.go:105-152 | the checks in order, then row, blob and path; what each I/O failure leaves behind |
| FileStore.AddExactly | src/store/files.go:105-152 | an Add succeeds exactly when the content is at most 10 MiB, no row of the area has the name up to the case of ASCII letters, the uploader's rows come to at most 100 MiB with it, and all I/O succeeds; each refusal exactly |
| FileStore.AddedFile | src/store/files.go:126-152 | what success leaves: one row with the next id, and a blob that opens to the content |
| FileStore.SameNameExactly | src/store/files.go:113-120 | names are compared letter by letter, A to Z in either case |
| FileStore.Files.DeleteFile | src/store/files.go:239-244 | the row goes first, then the blob, whose absence is an error |
| FileStore.Files.ReadContent | src/store/files.go:257-268 | the opened blob and one more download, or a failure that changes nothing |
| FileStore.ReadExactly | src/store/files.go:257-268 | a read that succeeds counts one download of that file and changes nothing else |
| FileStore.DeleteUndoesAdd | src/store/files.go:239-244 | deleting what was just added restores rows, names, quota and blobs; the id is new and stays used |
| FileGuarantees.RunInv | src/store/files.go:105-268 | the inductive invariant of ids, quota, names, contents and the Add in flight, over every interleaving of atomic steps |
| FileGuarantees.Library | src/store/files.go:105-268 | in every interleaving of one Add at a time with deletes and downloads, whatever fails: no uploader over 100 MiB; no two names of an area equal ignoring ASCII case; a read fails or gives exactly the bytes of the Add that was issued the id; a file added and never asked to go can be read |
| FileGuarantees.GivenOnce | src/store/files.go:130-137 | an id stands for one Add for ever |
| FileCalls.StepsAreAdd | src/store/files.go:105-152 | the atomic steps of an Add, undisturbed, are a call of Add |
| FileCalls.StepsAreDelete | src/store/files.go:239-244 | those of a Delete are a call of Delete |
| RekeyStore.SealAgain | src/store/rekey.go:88-95 | opens under the old key and seals under the new, failing exactly as one of the two does |
| RekeyStore.Reseal | src/store/rekey.go:37-54 | a cell says the same under the new key, an empty one stays empty; fails on a cell that does not open |
| RekeyStore.RekeyTable | src/store/rekey.go:103-160 | every sealed column of every row carried over, all other columns untouched |
| RekeyStore.RekeyTables | src/store/rekey.go:56-65 | all five tables carried over, every other table untouched |
| RekeyStore.RotatedCell | src/store/rekey.go:15-24 | every column the stores seal says under the new key what it said under the old, every other cell is untouched |
| RekeyStore.RotatedFile | src/store/rekey.go:67-101 | so does every file named <id>.bin, and nothing else is touched |
| RekeyStore.TextStored | src/store/store.go:77-101 | what the store writes for a text reads as that text |
| RekeyStore.Database.RekeyDB | src/store/rekey.go:29-101 | success keeps the meaning of every cell and blob; a failure inside the transaction changes nothing; a failure at a blob leaves each other entry as it was or carried over; without I/O faults it succeeds exactly when everything opens under the old key |
| RekeyStore.RotationsKeepMeaning | src/store/rekey.go:26-101 | after any number of rotations every cell and blob says under the last key what it said under the first |
| Text.TrimExactly | src/doors/bridge.go:110-114 | trimming takes off the white space at both ends, all of it, and nothing else |
| Text.SpacesEncoded | src/audit/log.go:186-186 | the words trimmed are the UTF-8 encodings of the characters with property White_Space |
| Text.SplitRejoins | src/doors/bridge.go:104-104 | splitting cuts at every separator and loses nothing |

## Left out

- Sockets, deadlines, the SSH library, process launch, chroot and namespaces: operating-system behaviour. A timeout or a closed connection is a failing read or write.
- Menus, banners, colours, settings, paging and the SysOp panel: user interface without deep properties.
- The insides of XChaCha20-Poly1305, HMAC-SHA256, Argon2id, base64, JSON and SQLite: abstract functions with laws, and maps for tables. Zeroing keys in `Vault.Close` is left out with them.
- Lines that break XMODEM framing: lost or extra bytes, a damaged SOH or EOT, both header bytes changed consistently, a NAK turned into an ACK. The code has no timeout or resynchronisation.
- Checksum mode between both ends: Send's checksum mode is modelled, but Receive only ever asks for CRC mode, so the system of both ends excludes an opening 'C' garbled into NAK.
- Failing reads and writes inside the system of both ends: the calls alone are proved with them, the system is about the line's faults.
- Who takes window sizes out of their queue; TrimSpace on terminal types that are not valid UTF-8, beyond the byte patterns of white space.
- AuditRuns.RunVerifies: a failed write is taken to have written nothing. After a torn one the trail may hold half a line.
- Audit sinks, the log mirror and fsync: they return nothing to the trail.
- Idle timers, audit events and reader buffering of a session: ReadLine's connection takes every write, whose errors the code ignores.
- The two copying loops of Relay, after the replay.
- What sshHandle does between Join and the deferred calls, and panics in it.
- Limiter.Conservation: callers that release without having acquired; the accept loops call release once for each successful acquire.
- Areas, listings, search and access levels of the file library.
- RekeyStore.Database.RekeyDB: crash points between the transaction, the blobs, the audit trail and the new salt, and resuming after them. Directory entries that are neither files nor directories are not modelled.
- Key uniqueness for each tier, CIDR matching, slugs and read pointers: they depend on libraries that are not part of this model, or are easy.
