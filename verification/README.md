# RTSP/RTP MJPEG streaming — a Dafny model

This project models the core of a small video streaming system. The system has two halves.

The server accepts RTSP control requests (SETUP, PLAY, PAUSE, TEARDOWN) over a TCP connection. It runs a per-client INIT/READY/PLAYING state machine and replies `RTSP/1.0 200 OK` with the echoed CSeq and the session id. While PLAYING, it reads JPEG frames from a file and sends them over UDP. Each frame is cut into RTP packets of at most 1400 payload bytes. The marker bit is set on the last packet of a frame, and the sequence numbers run on across frames.

The client issues those requests and accepts a reply only when its CSeq and session match. It keeps an RTP packet only when the packet's sequence number is greater than the last one it delivered. It also has a drop-oldest frame buffer.

The model has one module per concern, all as pure functions over immutable values:

- `Wrappers` — `Option` and `Result`.
- `ByteValues` and `Octets` — bytes, the big-endian fields of the RTP header, and flattening of lists.
- `Text` — the parts of Python's `str` used on control messages: `split`, `strip`, `in`, `int()` and `str()` on integers.
- `RtpPacket` — the 12-byte RTP fixed header of section 5.1 of RFC 3550. The encoder does not mask bytes 0 and 1, and the decoder only checks the length.
- `JitterBuffer` — the client's bounded queue, which drops the oldest frame when full.
- `VideoStream` — the frame parser over file contents and a cursor. It handles both the length-prefixed format and JPEG marker scanning.
- `RtspTypes` — the methods and states that both ends share.
- `ServerWorker` — request parsing, the state machine, the 200 reply, fragmentation, the sending loop and the request loop.
- `RtspClient` — the four send operations, reply parsing and the receive filter.
  - The receive filter is modelled twice: once as written (`ListenRtp`), and once with the comparison it evidently intends (`ListenSerial`).
- `Scenario` — both ends together:
  - the server reads what the client writes;
  - the client reads what the server replies;
  - the two state machines stay in step;
  - the packets of a PLAY carry the frames back to back.

Inputs the code takes from the environment are parameters:

- the file contents (`None` when opening fails);
- the session id `randint` draws;
- the `time()` reading of each sending round;
- the number of sending rounds before the stop event is observed.

## Model

| member | source | states |
|---|---|---|
| Octets.BigEndianRoundTrip | src/common/rtp_packet.py:49-62 | Storing x as n big-endian bytes and reading them back gives x mod 256^n: only the low 16 (sequence number) or 32 (timestamp, SSRC) bits survive. |
| RtpPacket.Encode | src/common/rtp_packet.py:20-65 | Encoding succeeds exactly when bytes 0 and 1 stay within 0..255, since they are not masked. On success: seqNum() = seqnum mod 2^16; timestamp() and the SSRC are their values mod 2^32; the payload is kept; the packet is 12 + payload bytes long. Version, payload type and marker read back only when the fields are narrow. |
| RtpPacket.Decode | src/common/rtp_packet.py:71-77 | Decoding fails exactly when fewer than 12 bytes arrive. On success, getPacket() returns the received bytes unchanged. |
| RtpPacket.DecodeGetPacket | src/common/rtp_packet.py:71-108 | decode(getPacket()) gives back the identical header and payload. |
| RtpPacket.EncodeDecodeRoundTrip | src/common/rtp_packet.py:20-108 | With version < 4, one-bit padding, extension and marker, cc < 16, pt < 128 and in-range numbers: encode succeeds and every getter returns the value encoded, including after a decode of the packet bytes. |
| RtpPacket.WidePaddingCorruptsVersion | src/common/rtp_packet.py:42-43 | Byte 0 is not masked. For any padding of 0..7, one-bit extension and cc < 16, each bit of version() is the encoded version bit OR-ed with the matching upper padding bit. So a padding of 2 or more changes the version unless those bits are already set. |
| RtpPacket.WidePayloadTypeSetsMarker | src/common/rtp_packet.py:45-46 | Byte 1 is not masked. For any payload type of 0..255, marker() reads max(marker, pt div 128) and payloadType() reads pt mod 128. So a type of 128 or more sets the marker bit. |
| JitterBuffer.Empty | src/client/buffer.py:8-11 | A new buffer is empty, within its bound, and has the given capacity. |
| JitterBuffer.Put | src/client/buffer.py:13-27 | put appends the frame at the tail. When the buffer is not full, every earlier entry stays and the size grows by one. When it is full, exactly the oldest entry is gone and the size stays. The capacity bound is kept. |
| JitterBuffer.Get | src/client/buffer.py:29-39 | get returns and removes the oldest frame. On an empty buffer it returns None and leaves the buffer unchanged. |
| JitterBuffer.Clear | src/client/buffer.py:45-51 | After clear the buffer is empty and qsize() is 0, with the capacity kept. |
| JitterBuffer.PutAllKeepsNewest | src/client/buffer.py:13-27 | Any sequence of puts leaves exactly the newest `capacity` frames of the whole history, in arrival order. |
| JitterBuffer.PutIntoEmpty | src/client/buffer.py:18-25 | Putting C+1 frames into an empty buffer of capacity C leaves frames 2..C+1 in order. |
| JitterBuffer.DrainInOrder | src/client/buffer.py:29-39 | Repeated get until None returns the queued frames in the order they were put (FIFO). |
| JitterBuffer.PutAllBounded | src/client/buffer.py:11-25 | With a positive capacity, qsize() never exceeds it, whatever is put. |
| VideoStream.Open | src/common/video_stream.py:11-66 | The mode is UNKNOWN iff the file is empty. It is PROPRIETARY iff the first (up to five) bytes are all ASCII digits. The prefix width is 6 iff the mode is PROPRIETARY and a sixth byte exists and is a digit. The cursor and the frame count start at 0. |
| VideoStream.DetectHeaderSize | src/common/video_stream.py:53-66 | The length-prefix width is 5 or 6. |
| VideoStream.SeekSoi | src/common/video_stream.py:93-104 | The scan for the start of a frame stops at the first FF D8 at or after the cursor, and finds none only when none exists. |
| VideoStream.ScanBody | src/common/video_stream.py:106-123 | The body scan steps over bytes one at a time and over FF pairs two at a time. When it returns an end, the scan reached an FF D9, with the end just after it, or an FF D8, with the end at its FF. When it returns None, no FF D9 or FF D8 pair lies anywhere along the scan. |
| VideoStream.ScanStopsAtFirst | src/common/video_stream.py:106-123 | Whichever terminator pair the scan reaches first decides the frame end: after the D9 of FF D9, or before the FF of FF D8. |
| VideoStream.ScanFrame | src/common/video_stream.py:106-123 | Once the SOI is found at i, the frame is the file from i up to the end the body scan returns. The cursor moves to that end and the count rises by one. There is no frame exactly when the scan after the SOI reaches no terminator; the cursor is then at the end of the file. |
| VideoStream.ReadStandard | src/common/video_stream.py:89-123 | A marker-scanned frame starts at the FIRST FF D8 at or after the cursor and runs to the first terminator the body scan reaches after it. It ends with FF D9, or stops just before the next FF D8, which is left unread. There is no frame exactly when no FF D8 follows the cursor, or the scan after it finds no terminator; the cursor then goes to the end of the file. Only the cursor and the frame count change, and the count rises by one exactly when a frame is returned. |
| VideoStream.ReadProprietary | src/common/video_stream.py:75-87 | When fewer bytes than the prefix width remain, they are consumed and the result is None. When int() reads the prefix as n >= 0, the frame is the next min(n, bytes left) bytes and the cursor moves past prefix and body. When it reads -1, the frame is the rest of the file. When int() rejects the prefix, or it is below -1 and read() rejects it, the result is exactly that of marker scanning from the start of the prefix, in STANDARD mode. Only the cursor and the frame count change, except that the fallback switches the mode; the frame count rises by one per frame. |
| VideoStream.PrefixOfDigits | src/common/video_stream.py:80 | int() of a prefix of ASCII digits is the number they spell. |
| VideoStream.NextFrame | src/common/video_stream.py:68-73 | nextFrame keeps the file, never moves the cursor back, and moves it forward whenever it returns a frame. It counts exactly the frames it returns. |
| VideoStream.Reset | src/common/video_stream.py:131-134 | reset puts the cursor and frameNbr() at 0 and keeps file, mode and prefix width. |
| VideoStream.Pull | src/server/server_worker.py:190-237 | The sending loop takes at most n results from the stream. They are the results of that many successive nextFrame() calls, and the stream is left after them. Every result but the last is a non-empty frame. When it stops early, the last result is None or empty. |
| VideoStream.LengthHeader | final_converter.py:53-54 | str(size).zfill(6) is six ASCII digits whose value is size, for a size below 10^6. |
| VideoStream.OpenPacked | src/common/video_stream.py:27-66 | A file in the converter's format with at least one frame opens in PROPRIETARY mode with 6-digit prefixes. |
| VideoStream.ReadPacked | src/common/video_stream.py:75-83 | Reading a tail in the converter's format returns each frame in order, then None. |
| VideoStream.PackedRoundTrip | src/common/video_stream.py:11-83 | Opening a file of frames, each with a 6-digit zero-padded length prefix, and calling nextFrame repeatedly returns every frame in order and then None. |
| VideoStream.ReadOneJpeg | src/common/video_stream.py:89-123 | At an image whose data is byte-stuffed (every FF followed by 00), marker scanning returns exactly that image, FF D8 to FF D9, and leaves the cursor just after it. |
| VideoStream.ReadJpegs | src/common/video_stream.py:68-123 | Reading a tail of concatenated images returns each image in order, then None. |
| VideoStream.MarkedRoundTrip | src/common/video_stream.py:11-123 | Opening a file of concatenated byte-stuffed images and calling nextFrame repeatedly returns every image in order and then None. |
| RtspTypes.MethodOf | src/server/server_worker.py:28-31 | A request keyword names a method iff it is exactly that method's name. |
| ServerWorker.Initial | src/server/server_worker.py:33-47 | A new worker is in INIT and satisfies the worker invariant. |
| ServerWorker.CSeqIsLast | src/server/server_worker.py:91-97 | The echoed CSeq is the second word of the LAST line that contains "CSeq:" and has a second word. With no such line it is the default 0. |
| ServerWorker.PortIsLast | src/server/server_worker.py:115-125 | The port SETUP records is the stripped value after the first "=" of the last part naming client_port that has one, on the last line that supplies one. Within a line, only the parts before the first client_port part without "=" count. With no such line, the previous value (0) stays. |
| ServerWorker.ProcessRequest | src/server/server_worker.py:80-164 | The worker invariant is kept. A reply is sent exactly when the method is allowed in the current state, a SETUP's file opens, and a TEARDOWN finds the stop event. The reply is the 200 text with the echoed CSeq and the session. An ignored request changes nothing. An honoured SETUP moves to READY and sets exactly the drawn session, the client port and a fresh stream. An honoured PLAY sets exactly PLAYING and the stop event. An honoured PAUSE sets exactly READY. An honoured TEARDOWN sets exactly INIT and closes the stream. The sender starts only on an honoured PLAY and stops on an honoured PAUSE or TEARDOWN. A TEARDOWN before any PLAY resets the state and ends the loop without a reply. |
| ServerWorker.TeardownFromAnyState | src/server/server_worker.py:153-158 | TEARDOWN sets INIT from every state. It is answered iff a PLAY created the stop event, and otherwise ends the request loop. |
| ServerWorker.WrongStateIgnored | src/server/server_worker.py:101-151 | PLAY outside READY, PAUSE outside PLAYING and SETUP outside INIT cause no change, no reply and no signal to the sender. |
| ServerWorker.Serve | src/server/server_worker.py:61-78 | The request loop keeps the worker invariant and sends at most one reply per request. |
| ServerWorker.ServeEndsForGood | src/server/server_worker.py:64-78 | Once a request has ended the loop, later requests change nothing. |
| ServerWorker.MakeRtp | src/server/server_worker.py:239-251 | makeRtp builds a datagram of 12 + payload bytes. It decodes to version 2, payload type 26 and SSRC 0, with the given marker, sequence number mod 2^16, timestamp mod 2^32 and payload. |
| ServerWorker.Fragment | src/server/server_worker.py:207-226 | A frame of N bytes becomes ceil(N/1400) packets. Each carries 1 to 1400 payload bytes, and the payloads join back to the frame. |
| ServerWorker.FragmentHeaders | src/server/server_worker.py:207-226 | All packets of a frame share one timestamp and the fixed fields. The marker is 1 on the last packet only, and the sequence numbers are consecutive. |
| ServerWorker.SendableCount | src/server/server_worker.py:198-237 | The loop sends exactly the results before the first None or empty frame. |
| ServerWorker.SendFrames | src/server/server_worker.py:198-237 | One burst per frame sent. When the port can be sent to, each burst is a correct fragmentation of its frame with that round's timestamp. Otherwise the first sendto raises, so every burst is empty and no number is used. Sequence numbers run on across frames without reset. |
| ServerWorker.SendRtp | src/server/server_worker.py:183-237 | The packets of one PLAY are numbered consecutively from 0. Each frame's burst fragments that frame when the port can be sent to, and is empty otherwise. |
| ServerWorker.RunSender | src/server/server_worker.py:183-237 | A sender run changes only the stream: its cursor, its frame count, and the switch to STANDARD mode that a bad prefix causes. The stream is left after the frames the loop took. At most one burst is sent per round, numbered from 0. When the recorded port is a number in 1..65535 the bursts are correct fragmentations; otherwise every burst is empty. |
| RtspClient.New | src/client/rtsp_core.py:38-64 | A new client is in INIT with rtspSeq, sessionId and frameNbr 0, no request sent, no teardown acknowledged and no RTP socket or event. |
| RtspClient.Issue | src/client/rtsp_core.py:77-112 | A request is sent iff its guard holds. It increments rtspSeq by exactly one, records the request type and carries the new counter, and otherwise nothing changes. Only PLAY creates a cleared stop event. |
| RtspClient.SendSetup | src/client/rtsp_core.py:77-85 | send_setup acts only in INIT; otherwise the client is unchanged. |
| RtspClient.SendPlay | src/client/rtsp_core.py:87-99 | send_play acts only in READY and creates a cleared stop event. |
| RtspClient.SendPause | src/client/rtsp_core.py:101-106 | send_pause acts only in PLAYING. |
| RtspClient.SendTeardown | src/client/rtsp_core.py:108-112 | send_teardown acts in every state. |
| RtspClient.RequestSplits | src/client/rtsp_core.py:83-110 | A request splits at line feeds into its request line, CSeq line and third line (each keeping its CR), the empty line and the empty rest. This holds whenever the file name has no line feed. |
| RtspClient.Handle | src/client/rtsp_core.py:134-162 | A reply whose CSeq does not parse or is not the current counter changes nothing. The session id is recorded on the first matching reply whatever its status. An accepted 200 moves to the target of the request in flight: SETUP also opens the RTP port, PAUSE sets the stop event, TEARDOWN sets teardownAcked. Anything else changes no state. |
| RtspClient.StaleReplyIgnored | src/client/rtsp_core.py:142 | A reply to the previous request, arriving after a new one was issued, changes nothing. |
| RtspClient.ForeignSessionIgnored | src/client/rtsp_core.py:144-148 | Once a session id is recorded, a reply for another session changes nothing. |
| RtspClient.ListenRtp | src/client/rtsp_core.py:175-208 | The listener as written delivers a subsequence of the datagrams with strictly increasing sequence numbers, all above the starting frameNbr. frameNbr ends at the last delivered number. It stops only where an error ends the loop. |
| RtspClient.ListenIsRecord | src/client/rtsp_core.py:180-208 | The listener delivers exactly the record-breaking datagrams, those numbered above frameNbr and above every datagram before them, among those before the first undecodable datagram when an error ends the loop, and among all of them otherwise. frameNbr ends at the highest number among those datagrams. The loop has stopped exactly when such a datagram ended it. |
| RtspClient.InOrderAllDelivered | src/client/rtsp_core.py:188-196 | Datagrams already ascending above frameNbr are all delivered. |
| RtspClient.NumberedKept | src/client/rtsp_core.py:188-196 | Of a consecutively numbered run that does not wrap, exactly the packets numbered above frameNbr are delivered. |
| RtspClient.FirstPacketDropped | src/client/rtsp_core.py:188-196 | With frameNbr starting at 0, packet 0 of a PLAY, numbered from 0, is never delivered. Every later packet is. |
| RtspClient.ResumeDropsPackets | src/client/rtsp_core.py:188-196 | After a resume at frameNbr n, the first n+1 packets of the new PLAY are dropped. |
| RtspClient.SaturatedDeliversNothing | src/client/rtsp_core.py:188-196 | Once frameNbr is 65535, nothing is ever delivered again. |
| RtspClient.ListenSerial | src/client/rtsp_core.py:188-196 | The corrected filter, with no number before the first packet and serial comparison modulo 2^16, delivers a subsequence in which every packet is newer than the one before. |
| RtspClient.SerialDeliversAll | src/client/rtsp_core.py:188-196 | The corrected filter delivers every packet of a consecutively numbered run, across the 16-bit wrap. |
| RtspClient.SerialFirstPacketKept | src/client/rtsp_core.py:188-196 | The corrected filter delivers packet 0 of a PLAY numbered from 0. |
| Text.Split | src/server/server_worker.py:82-83 | str.split(sep) yields at least one piece. No piece contains sep, and the pieces joined with sep give the input back. |
| Text.SplitJoin | src/server/server_worker.py:82-83 | Pieces without sep, joined with sep, split back into the same pieces. |
| Text.ParseIntOfString | src/client/rtsp_core.py:138 | int() of str(i) followed by whitespace (the reply's CR) is i. |
| Text.ParseDigits | src/common/video_stream.py:80 | int() of a non-empty string of decimal digits is the number they denote. |
| Scenario.CommandOfRequest | src/server/server_worker.py:82-85 | For any file name without spaces or line feeds, the server reads the method keyword of the client's request. |
| Scenario.EchoOfRequest | src/server/server_worker.py:91-97 | The server echoes the client's counter, followed by the CR that ends the CSeq line. This holds whenever the file name has no line feed. |
| Scenario.PortOfSetup | src/server/server_worker.py:116-123 | The server records the RTP port a SETUP names, and the sending loop's int() reads back the client's port number. |
| Scenario.ReplySplits | src/server/server_worker.py:166-171 | The 200 reply splits at line feeds into status line, CSeq line, Session line, empty line and empty rest. |
| Scenario.ReadReplyOf | src/client/rtsp_core.py:136-149 | The client reads status 200, the counter it sent, and the session id from the server's reply to its request. |
| Scenario.StartInStep | src/client/rtsp_core.py:52-54 | A new client and a new worker agree on state and session. |
| Scenario.Exchange | src/client/rtsp_core.py:142-160 | When the client may send a method and the server honours it, both ends move to that method's target state and stay in step. |
| Scenario.ResetupOutOfStep | src/client/rtsp_core.py:144-148 | After a TEARDOWN the client keeps the old session id. The reply to a new SETUP, whether a new worker or the torn-down one answers it, carries a new id and is refused: the server is READY while the client stays in INIT. |
| Scenario.StreamCarriesFrames | src/server/server_worker.py:207-226 | The packets of a PLAY are numbered from 0 and their payloads are the transmitted frames back to back. |
| Scenario.StreamArrives | src/client/rtsp_core.py:188-196 | Through the corrected filter, every packet of a PLAY is delivered and the client receives every transmitted frame byte in order. |
| Scenario.StreamLosesFirstFragment | src/client/rtsp_core.py:188-196 | Through the filter as written, the first packet of a PLAY is lost. The client misses the first 1 to 1400 bytes of the first frame. |

## Left out

- Sockets, threads, `threading.Event` waits, the 0.033 s pacing, receive timeouts, `connect_server`, `_send_request`, `recv_rtsp_reply` and the server's accept loop are left out. Requests and replies are strings, datagrams are byte sequences, and the sender and listener are functions over lists.
- Resource release is not modelled: the `close()` calls on sockets and the video file, and the RTP socket the client opens in `open_rtp_port`. A failed bind only prints, so opening is a flag.
- The server's console messages (`print`), including the 404 and 500 paths of `replyRtsp`, are left out. Those paths only print, so the model sends nothing for them.
- `os.path.join` of the video directory is left out. Opening the file is an input: its contents, or None when `VideoStream` raises IOError.
- Python's `int()` is modelled only for optional surrounding ASCII whitespace, an optional sign and ASCII digits. Underscores between digits, non-ASCII digits and Unicode whitespace are not accepted by the model.
- VideoStream.ReadProprietary: a prefix with an underscore between digits (`int(b"00_12")` is 12) is treated as rejected by `int()`, so the model falls back to marker scanning where the code reads a length. Every other prefix `int()` accepts on bytes (whitespace, a sign, digits) is modelled.
- ServerWorker.SendFrames: a port of 0 is modelled as refused by `sendto`, as Linux refuses it with EINVAL. A kernel that accepted it would send the bursts the model leaves empty.
- UTF-8 decoding of control messages is left out: requests and replies are strings of characters.
- The converter's transcoding (OpenCV, PIL) is left out. Only the frame-file format it writes is modelled, as the input of the length-prefixed round trip.
- There is no fragment reassembly and no loss accounting on the client: the code has neither. Each delivered payload is handed to the frame callback as it is.
- The GUI's replay, media switching and use of the jitter buffer live outside the modelled files and are not part of this model.
- Scenario.CommandOfRequest, Scenario.Exchange and Scenario.ResetupOutOfStep require the file name to contain no space and no line feed. Scenario.EchoOfRequest requires no line feed. Scenario.PortOfSetup requires no line feed and no underscore. Other file names change how the server splits the request, which these lemmas do not describe.
- Scenario.Exchange does not cover a SETUP that is not the first, or a TEARDOWN before any PLAY. For the first, Scenario.ResetupOutOfStep states the outcome. For the second, ServerWorker.TeardownFromAnyState does.
- RtspClient.ListenRtp treats the per-datagram exceptions as one input flag: whether an undecodable datagram ends the loop. The flag stands for the stop event and the teardown acknowledgement at that moment.
- RtspClient.SaturatedDeliversNothing is proved with an empty body. Dafny sees the fact directly from the filter's definition.
- RtpPacket.Encode models `timestamp=None` (the `time()` default) only as an explicit timestamp parameter.

## Findings

| source | as written | input that shows it | evidently intended | confidence | as-written member | corrected member |
|---|---|---|---|---|---|---|
| src/client/rtsp_core.py:188-196 | A packet is delivered only if its sequence number is greater than frameNbr. frameNbr starts at 0 (line 61) and is never reset, while the server numbers every PLAY from 0 (src/server/server_worker.py:188). | A PLAY whose packets are numbered 0, 1, 2, …: packet 0, the first fragment of the first frame, is dropped. After a PAUSE at n and a new PLAY, packets 0..n are dropped. | Deliver every newer packet, packet 0 of a PLAY included | not executed | RtspClient.FirstPacketDropped | RtspClient.SerialFirstPacketKept |
| src/client/rtsp_core.py:188-196 | The comparison is on plain integers, although sequence numbers are 16-bit and wrap after 65535. | A run numbered 65534, 65535, 0, 1: once frameNbr is 65535, no later packet is delivered. | Compare sequence numbers modulo 2^16, as serial numbers | not executed | RtspClient.SaturatedDeliversNothing | RtspClient.SerialDeliversAll |

The corrected filter is `RtspClient.ListenSerial`. It has no number before the first packet, and it counts a packet as newer when it lies 1 to 32767 steps ahead modulo 2^16. `Scenario.StreamArrives` shows that the corrected filter delivers the whole stream. `Scenario.StreamLosesFirstFragment` shows what the filter as written loses.

The model follows the code where the code and the design description differ:

- TEARDOWN is answered only after a PLAY. Before one, the missing stop event raises before the reply.
- A SETUP whose file does not open sends no 404.
- The client has no reassembly and no loss tracking.
