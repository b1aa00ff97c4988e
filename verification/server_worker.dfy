/** The server side of one client connection: the control-request state
    machine with its CSeq and client-port parsing, the 200 reply text, and
    the sending loop that cuts each frame into RTP packets of at most 1400
    payload bytes. Sockets, threads and the 33 ms pacing are left out: a
    request is a string, the frame source is a `VideoStream.Stream`, the
    sending loop is a function from frames to packets. */
module ServerWorker {
  import opened Wrappers
  import opened Octets
  import opened Text
  import opened RtspTypes
  import RtpPacket
  import VideoStream

  const MAX_RTP_PAYLOAD: nat := 1400
  const SESSION_MIN: int := 100000
  const SESSION_MAX: int := 999999
  const RTP_VERSION: int := 2
  const MJPEG_PAYLOAD_TYPE: int := 26
  const SSRC: int := 0

  /** What the worker keeps in `clientInfo` and `state`: the session id (absent
      until the first successful SETUP), the client's RTP port text (None
      stands for the integer 0 SETUP stores before parsing), whether a PLAY
      has created the stop event, and the open frame source. */
  datatype Worker = Worker(state: State, session: Option<int>, rtpPort: Option<string>,
                           hasEvent: bool, stream: Option<VideoStream.Stream>)

  predicate SessionIdRange(id: int)
  {
    SESSION_MIN <= id <= SESSION_MAX
  }

  /** What holds of every worker the request loop can reach. */
  predicate Valid(w: Worker)
  {
    && (w.state != Init ==> w.session.Some? && w.stream.Some?)
    && (w.state == Playing ==> w.hasEvent)
    && (w.hasEvent ==> w.session.Some?)
    && (w.session.Some? ==> SessionIdRange(w.session.value))
    && (w.stream.Some? ==> w.stream.value.Valid())
  }

  function Initial(): (w: Worker)
    ensures Valid(w) && w.state == Init
  {
    Worker(Init, None, None, false, None)
  }

  /** The effect of one request: the worker after it, the text sent back on
      the control connection, whether the sending thread was started or told
      to stop, and whether an exception ended the request loop. */
  datatype Outcome = Outcome(worker: Worker, reply: Option<string>,
                             startSender: bool, stopSender: bool, loopEnds: bool)

  // ---------------------------------------------------------------------------
  // Request parsing
  // ---------------------------------------------------------------------------

  /** The first word of the request line, when the line has a second word
      (`line1[1]` raises IndexError otherwise). */
  function Command(data: string): Option<string>
  {
    var line1 := Split(Split(data, '\n')[0], ' ');
    if |line1| < 2 then None else Some(line1[0])
  }

  /** One round of the CSeq loop: a line containing "CSeq:" with a second
      space-separated word replaces the value found so far. */
  function CSeqOfLine(line: string, acc: string): string
  {
    if Contains(line, "CSeq:") then
      var words := Split(line, ' ');
      if |words| >= 2 then words[1] else acc
    else acc
  }

  function CSeqScan(lines: seq<string>, acc: string): string
    decreases |lines|
  {
    if |lines| == 0 then acc else CSeqScan(lines[1..], CSeqOfLine(lines[0], acc))
  }

  /** The CSeq text echoed in the reply; "0" (the text of the initial integer
      0) when no line supplies one. It keeps whatever follows the number on
      its line, such as the carriage return of a CRLF line ending. */
  function EchoedCSeq(data: string): string
  {
    CSeqScan(Split(data, '\n'), "0")
  }

  /** The value the last supplying line gives, scanning from the end. */
  function LastCSeq(lines: seq<string>): Option<string>
    decreases |lines|
  {
    if |lines| == 0 then None
    else
      var line := lines[|lines| - 1];
      if Contains(line, "CSeq:") && |Split(line, ' ')| >= 2 then Some(Split(line, ' ')[1])
      else LastCSeq(lines[..|lines| - 1])
  }

  lemma {:induction false} CSeqScanSnoc(lines: seq<string>, line: string, acc: string)
    ensures CSeqScan(lines + [line], acc) == CSeqOfLine(line, CSeqScan(lines, acc))
    decreases |lines|
  {
    if |lines| > 0 {
      assert (lines + [line])[1..] == lines[1..] + [line];
      CSeqScanSnoc(lines[1..], line, CSeqOfLine(lines[0], acc));
    } else {
      assert (lines + [line])[1..] == [];
    }
  }

  /** The echoed CSeq is the second word of the last line that contains
      "CSeq:" and has a second word; earlier lines are overridden. */
  lemma {:induction false} CSeqIsLast(lines: seq<string>, acc: string)
    ensures CSeqScan(lines, acc) == match LastCSeq(lines) case Some(v) => v case None => acc
    decreases |lines|
  {
    if |lines| > 0 {
      var init := lines[..|lines| - 1];
      assert lines == init + [lines[|lines| - 1]];
      CSeqScanSnoc(init, lines[|lines| - 1], acc);
      CSeqIsLast(init, acc);
    }
  }

  /** One `;`-separated part of a line containing "client_port": the text after
      its first `=` (stripped) becomes the port; a part without `=` raises
      IndexError, which abandons the rest of that line. */
  function PortOfParts(parts: seq<string>, acc: Option<string>): Option<string>
    decreases |parts|
  {
    if |parts| == 0 then acc
    else if !Contains(parts[0], "client_port") then PortOfParts(parts[1..], acc)
    else
      var fields := Split(parts[0], '=');
      if |fields| < 2 then acc else PortOfParts(parts[1..], Some(Strip(fields[1])))
  }

  function PortOfLine(line: string, acc: Option<string>): Option<string>
  {
    if Contains(line, "client_port") then PortOfParts(Split(line, ';'), acc) else acc
  }

  function PortScan(lines: seq<string>, acc: Option<string>): Option<string>
    decreases |lines|
  {
    if |lines| == 0 then acc else PortScan(lines[1..], PortOfLine(lines[0], acc))
  }

  /** The client's RTP port as SETUP records it; None when no line names one. */
  function ClientPort(data: string): Option<string>
  {
    PortScan(Split(data, '\n'), None)
  }

  /** A `;`-part that names the client port but has no `=`: reading its value
      raises IndexError, which abandons the rest of its line. */
  predicate BrokenPart(part: string)
  {
    Contains(part, "client_port") && |Split(part, '=')| < 2
  }

  /** The parts of a line the port loop gets to: those before the first
      broken one. */
  function PartsReached(parts: seq<string>): (r: seq<string>)
    ensures |r| <= |parts| && r == parts[..|r|]
    ensures forall k :: 0 <= k < |r| ==> !BrokenPart(r[k])
    ensures |r| < |parts| ==> BrokenPart(parts[|r|])
    decreases |parts|
  {
    if |parts| == 0 || BrokenPart(parts[0]) then [] else [parts[0]] + PartsReached(parts[1..])
  }

  /** The stripped value after the first `=` of the last part that names the
      client port and has one, scanning from the end. */
  function LastNamed(parts: seq<string>): Option<string>
    decreases |parts|
  {
    if |parts| == 0 then None
    else
      var part := parts[|parts| - 1];
      if Contains(part, "client_port") && |Split(part, '=')| >= 2 then Some(Strip(Split(part, '=')[1]))
      else LastNamed(parts[..|parts| - 1])
  }

  /** The port the last line naming one supplies, scanning from the end: a
      line counts when one of the parts the loop gets to names the port. */
  function LastPort(lines: seq<string>): Option<string>
    decreases |lines|
  {
    if |lines| == 0 then None
    else
      var line := lines[|lines| - 1];
      var v := if Contains(line, "client_port") then LastNamed(PartsReached(Split(line, ';'))) else None;
      if v.Some? then v else LastPort(lines[..|lines| - 1])
  }

  lemma {:induction false} LastNamedCons(part: string, rest: seq<string>)
    ensures LastNamed([part] + rest)
            == if LastNamed(rest).Some? then LastNamed(rest)
               else LastNamed([part])
    decreases |rest|
  {
    if |rest| > 0 {
      var all := [part] + rest;
      assert all[|all| - 1] == rest[|rest| - 1];
      assert all[..|all| - 1] == [part] + rest[..|rest| - 1];
      LastNamedCons(part, rest[..|rest| - 1]);
    } else {
      assert [part] + rest == [part];
    }
  }

  /** The port the parts of one line leave is the value of the last part
      the loop reaches that names the port, or what was there before. */
  lemma {:induction false} PartsGiveLast(parts: seq<string>, acc: Option<string>)
    ensures PortOfParts(parts, acc)
            == if LastNamed(PartsReached(parts)).Some? then LastNamed(PartsReached(parts)) else acc
    decreases |parts|
  {
    if |parts| > 0 && !BrokenPart(parts[0]) {
      var p := parts[0];
      var reached := PartsReached(parts[1..]);
      assert PartsReached(parts) == [p] + reached;
      LastNamedCons(p, reached);
      assert LastNamed([p]) == if Contains(p, "client_port") then Some(Strip(Split(p, '=')[1])) else None by {
        assert [p][..0] == [];
      }
      if Contains(p, "client_port") {
        PartsGiveLast(parts[1..], Some(Strip(Split(p, '=')[1])));
      } else {
        PartsGiveLast(parts[1..], acc);
      }
    }
  }

  lemma {:induction false} PortScanSnoc(lines: seq<string>, line: string, acc: Option<string>)
    ensures PortScan(lines + [line], acc) == PortOfLine(line, PortScan(lines, acc))
    decreases |lines|
  {
    if |lines| > 0 {
      assert (lines + [line])[1..] == lines[1..] + [line];
      PortScanSnoc(lines[1..], line, PortOfLine(lines[0], acc));
    } else {
      assert (lines + [line])[1..] == [];
    }
  }

  /** The port SETUP records is the one the last line naming it supplies;
      earlier lines are overridden, and without one the previous value
      stays. */
  lemma {:induction false} PortIsLast(lines: seq<string>, acc: Option<string>)
    ensures PortScan(lines, acc) == if LastPort(lines).Some? then LastPort(lines) else acc
    decreases |lines|
  {
    if |lines| > 0 {
      var init := lines[..|lines| - 1];
      var line := lines[|lines| - 1];
      assert lines == init + [line];
      PortScanSnoc(init, line, acc);
      PortIsLast(init, acc);
      if Contains(line, "client_port") {
        PartsGiveLast(Split(line, ';'), PortScan(init, acc));
      }
    }
  }

  const MAX_PORT: int := 0xFFFF

  /** Whether `sendto(packet, (address, port))` sends: Python raises
      OverflowError for a port outside 0..65535, and the kernel refuses
      port 0 (EINVAL on Linux), which Python raises as OSError. */
  predicate SendsTo(port: Option<int>)
  {
    port.Some? && 1 <= port.value <= MAX_PORT
  }

  /** `int(clientInfo['rtpPort'])` in the sending loop. */
  function PortNumber(rtpPort: Option<string>): Option<int>
  {
    match rtpPort
    case None => Some(0)
    case Some(t) => ParseInt(t)
  }

  // ---------------------------------------------------------------------------
  // Replies and the state machine
  // ---------------------------------------------------------------------------

  /** The only reply the server sends. 404 and 500 are printed on the server's
      console and nothing goes back to the client. */
  function Reply200(cseq: string, session: int): string
  {
    "RTSP/1.0 200 OK\r\nCSeq: " + cseq + "\r\nSession: " + IntToString(session) + "\r\n\r\n"
  }

  /** `processRtspRequest` on request text `data`. `media` is the content of
      the requested file, None when it cannot be opened; `draw` is the value
      `randint(100000, 999999)` returns. A request in a state that does not
      allow it is ignored without a reply; TEARDOWN is honoured in every
      state, but before any PLAY has created the stop event it raises
      KeyError after setting the state to INIT, which ends the request loop
      before a reply is sent. */
  function ProcessRequest(w: Worker, data: string, media: Option<Bytes>, draw: int): (o: Outcome)
    requires Valid(w) && SessionIdRange(draw)
    ensures Valid(o.worker)
    // every reply is a 200 that echoes the request's CSeq and names the session
    ensures o.reply.Some? ==>
              o.worker.session.Some? && o.reply.value == Reply200(EchoedCSeq(data), o.worker.session.value)
    // a reply is sent exactly when the command is honoured
    ensures var m := if Command(data).Some? then MethodOf(Command(data).value) else None;
            o.reply.Some? <==> m.Some? && Allowed(m.value, w.state)
                               && (m.value == Setup ==> media.Some?)
                               && (m.value == Teardown ==> w.hasEvent)
    ensures var m := if Command(data).Some? then MethodOf(Command(data).value) else None;
            o.reply.Some? ==> o.worker.state == Target(m.value)
    // an ignored command changes nothing at all
    ensures o.reply.None? && !o.loopEnds ==> o.worker == w && !o.startSender && !o.stopSender
    // the loop ends only on a malformed request line or an early TEARDOWN
    ensures o.loopEnds ==> o.reply.None? && (Command(data).None? || (Command(data) == Some("TEARDOWN") && !w.hasEvent))
    ensures o.loopEnds && Command(data).Some? ==> o.worker == w.(state := Init)
    // what an honoured command changes, and nothing else: SETUP issues the
    // drawn session id, a fresh stream and the client's port; PLAY creates
    // the stop event; TEARDOWN closes the stream
    ensures Command(data) == Some("SETUP") && o.reply.Some? ==>
              o.worker == w.(state := Ready, session := Some(draw), rtpPort := ClientPort(data),
                             stream := Some(VideoStream.Open(media.value)))
    ensures Command(data) == Some("PLAY") && o.reply.Some? ==> o.worker == w.(state := Playing, hasEvent := true)
    ensures Command(data) == Some("PAUSE") && o.reply.Some? ==> o.worker == w.(state := Ready)
    ensures Command(data) == Some("TEARDOWN") && o.reply.Some? ==> o.worker == w.(state := Init, stream := None)
    // only SETUP touches the session id
    ensures Command(data) != Some("SETUP") ==> o.worker.session == w.session
    ensures o.startSender <==> Command(data) == Some("PLAY") && o.reply.Some?
    ensures o.stopSender <==> o.reply.Some? && (Command(data) == Some("PAUSE") || Command(data) == Some("TEARDOWN"))
  {
    var lines := Split(data, '\n');
    var cmd := Command(data);
    var ignored := Outcome(w, None, false, false, false);
    if cmd.None? then Outcome(w, None, false, false, true)
    else
      var cseq := EchoedCSeq(data);
      var kind := cmd.value;
      if kind == "SETUP" then
        if w.state != Init || media.None? then ignored
        else
          var stream := VideoStream.Open(media.value);
          var w' := w.(state := Ready, stream := Some(stream), session := Some(draw),
                       rtpPort := ClientPort(data));
          Outcome(w', Some(Reply200(cseq, draw)), false, false, false)
      else if kind == "PLAY" then
        if w.state != Ready then ignored
        else
          var w' := w.(state := Playing, hasEvent := true);
          Outcome(w', Some(Reply200(cseq, w.session.value)), true, false, false)
      else if kind == "PAUSE" then
        if w.state != Playing then ignored
        else Outcome(w.(state := Ready), Some(Reply200(cseq, w.session.value)), false, true, false)
      else if kind == "TEARDOWN" then
        if !w.hasEvent then Outcome(w.(state := Init), None, false, false, true)
        else Outcome(w.(state := Init, stream := None), Some(Reply200(cseq, w.session.value)), false, true, false)
      else ignored
  }

  // ---------------------------------------------------------------------------
  // Packets and fragmentation
  // ---------------------------------------------------------------------------

  /** `makeRtp`: an RTP datagram with version 2, no padding, extension or
      CSRCs, payload type 26 (JPEG) and SSRC 0. */
  function MakeRtp(payload: Bytes, seqNum: int, marker: int, timestamp: int): (w: Bytes)
    requires marker == 0 || marker == 1
    ensures |w| == RtpPacket.HEADER_SIZE + |payload|
    ensures Carries(w, seqNum, marker, timestamp) && PayloadOf(w) == payload
    ensures RtpPacket.Numbered([w], seqNum)
  {
    var e := RtpPacket.Encode(RTP_VERSION, 0, 0, 0, seqNum, marker, MJPEG_PAYLOAD_TYPE, SSRC, payload, timestamp);
    RtpPacket.DecodeGetPacket(e.value);
    e.value.GetPacket()
  }

  /** The datagram decodes to a packet with the fixed fields of `makeRtp`
      and the given marker and timestamp (mod 2^32). */
  predicate Fields(w: Bytes, marker: int, timestamp: int)
  {
    && RtpPacket.Decode(w).Success?
    && var p := RtpPacket.Decode(w).value;
    && p.Version() == RTP_VERSION && p.PayloadType() == MJPEG_PAYLOAD_TYPE && p.Ssrc() == SSRC
    && p.Marker() == marker && p.Timestamp() == timestamp % 0x1_0000_0000
  }

  /** ... and carries the given sequence number (mod 2^16). */
  predicate Carries(w: Bytes, seqNum: int, marker: int, timestamp: int)
  {
    Fields(w, marker, timestamp) && RtpPacket.Decode(w).value.SeqNum() == seqNum % 0x1_0000
  }

  /** The payload of a datagram, as the receiver's `getPayload()` returns it. */
  function PayloadOf(w: Bytes): Bytes
  {
    if |w| < RtpPacket.HEADER_SIZE then [] else w[RtpPacket.HEADER_SIZE..]
  }

  /** The payloads of a run of datagrams, joined. */
  function JoinPayloads(ws: seq<Bytes>): Bytes
    decreases |ws|
  {
    if |ws| == 0 then [] else PayloadOf(ws[0]) + JoinPayloads(ws[1..])
  }

  /** Every datagram carries between 1 and 1400 payload bytes. */
  predicate PayloadsFit(ws: seq<Bytes>)
  {
    forall i :: 0 <= i < |ws| ==> 1 <= |PayloadOf(ws[i])| <= MAX_RTP_PAYLOAD
  }

  /** Every datagram has the fixed fields and the timestamp, and the marker
      is set on the last one only. */
  predicate MarkedLast(ws: seq<Bytes>, timestamp: int)
  {
    forall i :: 0 <= i < |ws| ==> Fields(ws[i], if i == |ws| - 1 then 1 else 0, timestamp)
  }

  function CeilDiv(n: nat, d: nat): nat
    requires d > 0
  {
    (n + d - 1) / d
  }

  /** The inner loop of `sendRtp` from offset pos of a frame: chunks of
      min(1400, bytes left), numbered from seqNum on, all with one timestamp;
      the marker is set when the chunk reaches the end of the frame. The
      frame of N bytes gives ceil(N / 1400) non-empty packets whose payloads
      join back to the frame. */
  function Fragment(data: Bytes, pos: nat, seqNum: int, timestamp: int): (r: seq<Bytes>)
    requires pos <= |data|
    ensures |r| == CeilDiv(|data| - pos, MAX_RTP_PAYLOAD)
    ensures JoinPayloads(r) == data[pos..]
    ensures PayloadsFit(r)
    decreases |data| - pos
  {
    if pos >= |data| then []
    else
      var chunkSize := ChunkSize(data, pos);
      var chunk := data[pos..pos + chunkSize];
      var next := pos + chunkSize;
      var marker := if next >= |data| then 1 else 0;
      var head := MakeRtp(chunk, seqNum, marker, timestamp);
      var rest := Fragment(data, next, seqNum + 1, timestamp);
      var r := [head] + rest;
      CeilDivStep(|data| - pos, chunkSize);
      SliceSplit(data, pos, next);
      assert r[1..] == rest;
      PayloadsFitCons(head, rest);
      r
  }

  lemma {:induction false} PayloadsFitCons(head: Bytes, rest: seq<Bytes>)
    requires 1 <= |PayloadOf(head)| <= MAX_RTP_PAYLOAD && PayloadsFit(rest)
    ensures PayloadsFit([head] + rest)
  {
    var r := [head] + rest;
    forall i | 1 <= i < |r|
      ensures 1 <= |PayloadOf(r[i])| <= MAX_RTP_PAYLOAD
    {
      assert r[i] == rest[i - 1];
    }
  }

  /** Taking one chunk of min(1400, n) bytes off n > 0 bytes leaves one chunk
      fewer to send. */
  lemma {:induction false} CeilDivStep(n: nat, c: nat)
    requires n > 0 && c == (if MAX_RTP_PAYLOAD <= n then MAX_RTP_PAYLOAD else n)
    ensures CeilDiv(n, MAX_RTP_PAYLOAD) == 1 + CeilDiv(n - c, MAX_RTP_PAYLOAD)
  {
  }

  /** min(MAX_RTP_PAYLOAD, datalen - currPos) */
  function ChunkSize(data: Bytes, pos: nat): (n: nat)
    requires pos < |data|
    ensures 1 <= n <= MAX_RTP_PAYLOAD && pos + n <= |data|
  {
    if MAX_RTP_PAYLOAD <= |data| - pos then MAX_RTP_PAYLOAD else |data| - pos
  }

  /** The headers the inner loop writes: consecutive sequence numbers from
      seqNum, one timestamp, version 2, payload type 26, SSRC 0, and the
      marker on the last packet of the frame only. */
  lemma {:induction false} FragmentHeaders(data: Bytes, pos: nat, seqNum: int, timestamp: int)
    requires pos <= |data|
    ensures MarkedLast(Fragment(data, pos, seqNum, timestamp), timestamp)
    ensures RtpPacket.Numbered(Fragment(data, pos, seqNum, timestamp), seqNum)
    decreases |data| - pos
  {
    if pos < |data| {
      var next := pos + ChunkSize(data, pos);
      var marker := if next >= |data| then 1 else 0;
      var head := MakeRtp(data[pos..next], seqNum, marker, timestamp);
      var rest := Fragment(data, next, seqNum + 1, timestamp);
      FragmentUnfold(data, pos, seqNum, timestamp);
      FragmentHeaders(data, next, seqNum + 1, timestamp);
      HeadersStep(head, rest, seqNum, marker, timestamp);
    }
  }

  /** One turn of the inner loop: the packet of the first chunk, then the
      packets of the remaining bytes. */
  lemma {:induction false} FragmentUnfold(data: Bytes, pos: nat, seqNum: int, timestamp: int)
    requires pos < |data|
    ensures var next := pos + ChunkSize(data, pos);
            Fragment(data, pos, seqNum, timestamp)
            == [MakeRtp(data[pos..next], seqNum, if next >= |data| then 1 else 0, timestamp)]
               + Fragment(data, next, seqNum + 1, timestamp)
  {
  }

  lemma {:induction false} HeadersStep(head: Bytes, rest: seq<Bytes>, seqNum: int, marker: int, timestamp: int)
    requires Carries(head, seqNum, marker, timestamp) && (marker == 1 <==> |rest| == 0)
    requires MarkedLast(rest, timestamp) && RtpPacket.Numbered(rest, seqNum + 1)
    ensures MarkedLast([head] + rest, timestamp) && RtpPacket.Numbered([head] + rest, seqNum)
  {
    var r := [head] + rest;
    forall i | 1 <= i < |r|
      ensures Fields(r[i], if i == |r| - 1 then 1 else 0, timestamp)
      ensures RtpPacket.Decode(r[i]).Success? && RtpPacket.Decode(r[i]).value.SeqNum() == (seqNum + i) % 0x1_0000
    {
      assert r[i] == rest[i - 1];
      assert seqNum + i == seqNum + 1 + (i - 1);
    }
  }

  // ---------------------------------------------------------------------------
  // The sending loop
  // ---------------------------------------------------------------------------

  /** How many leading results the loop sends: it stops at the first result
      that is None or empty. */
  function SendableCount(frames: seq<Option<Bytes>>): (n: nat)
    ensures n <= |frames|
    ensures forall j :: 0 <= j < n ==> VideoStream.Sendable(frames[j])
    ensures n < |frames| ==> !VideoStream.Sendable(frames[n])
    decreases |frames|
  {
    if |frames| == 0 || !VideoStream.Sendable(frames[0]) then 0
    else 1 + SendableCount(frames[1..])
  }

  /** The packets of one frame when its burst is sent correctly: ceil(N/1400)
      of them, at most 1400 payload bytes each, joining back to the frame,
      one timestamp, the marker on the last only. */
  predicate FrameBurst(burst: seq<Bytes>, frame: Bytes, timestamp: int)
  {
    && |burst| == CeilDiv(|frame|, MAX_RTP_PAYLOAD)
    && JoinPayloads(burst) == frame
    && PayloadsFit(burst)
    && MarkedLast(burst, timestamp)
  }

  /** The sending loop over the successive `nextFrame()` results, with the
      packet counter starting at seqNum; one burst of datagrams per frame
      sent. `clock` holds the `int(time.time())` reading of each round.
      `portOk` says whether the port can be sent to. When it cannot (the
      port text is not a number, or `sendto` refuses the number), the first
      send of every frame raises inside the per-frame try block: the frame
      is skipped with nothing sent, the packet counter stays, and the loop
      goes on. */
  function SendFrames(frames: seq<Option<Bytes>>, clock: seq<int>, portOk: bool, seqNum: int)
    : (bursts: seq<seq<Bytes>>)
    requires |clock| >= |frames|
    ensures |bursts| == SendableCount(frames)
    ensures portOk ==> forall j :: 0 <= j < |bursts| ==> FrameBurst(bursts[j], frames[j].value, clock[j])
    ensures !portOk ==> forall j :: 0 <= j < |bursts| ==> bursts[j] == []
    ensures RtpPacket.Numbered(Flatten(bursts), seqNum)
    decreases |frames|
  {
    if |frames| == 0 || !VideoStream.Sendable(frames[0]) then []
    else
      var burst := if portOk then Fragment(frames[0].value, 0, seqNum, clock[0]) else [];
      BurstOf(frames[0].value, portOk, seqNum, clock[0]);
      var rest := SendFrames(frames[1..], clock[1..], portOk, seqNum + |burst|);
      SendStep(frames, clock, portOk, seqNum, burst, rest);
      [burst] + rest
  }

  /** One round's burst: the whole frame fragmented when the port is a
      number, nothing otherwise. */
  lemma {:induction false} BurstOf(frame: Bytes, portOk: bool, seqNum: int, timestamp: int)
    ensures var b := if portOk then Fragment(frame, 0, seqNum, timestamp) else [];
            && (portOk ==> FrameBurst(b, frame, timestamp))
            && RtpPacket.Numbered(b, seqNum)
  {
    if portOk {
      FragmentHeaders(frame, 0, seqNum, timestamp);
      assert frame[0..] == frame;
    }
  }

  lemma {:induction false} SendStep(frames: seq<Option<Bytes>>, clock: seq<int>, portOk: bool, seqNum: int,
                 burst: seq<Bytes>, rest: seq<seq<Bytes>>)
    requires |clock| >= |frames| > 0 && VideoStream.Sendable(frames[0])
    requires portOk ==> FrameBurst(burst, frames[0].value, clock[0])
    requires !portOk ==> burst == []
    requires RtpPacket.Numbered(burst, seqNum)
    requires |rest| == SendableCount(frames[1..])
    requires portOk ==> forall j :: 0 <= j < |rest| ==> FrameBurst(rest[j], frames[1..][j].value, clock[1..][j])
    requires !portOk ==> forall j :: 0 <= j < |rest| ==> rest[j] == []
    requires RtpPacket.Numbered(Flatten(rest), seqNum + |burst|)
    ensures var r := [burst] + rest;
            && |r| == SendableCount(frames)
            && (portOk ==> forall j :: 0 <= j < |r| ==> FrameBurst(r[j], frames[j].value, clock[j]))
            && (!portOk ==> forall j :: 0 <= j < |r| ==> r[j] == [])
            && RtpPacket.Numbered(Flatten(r), seqNum)
  {
    var r := [burst] + rest;
    assert r[1..] == rest;
    assert Flatten(r) == burst + Flatten(rest);
    RtpPacket.NumberedAppend(burst, Flatten(rest), seqNum);
    forall j | 1 <= j < |r|
      ensures r[j] == rest[j - 1] && frames[j] == frames[1..][j - 1] && clock[j] == clock[1..][j - 1]
    {
    }
  }

  /** `sendRtp` after a PLAY: the packet counter restarts at 0. */
  function SendRtp(frames: seq<Option<Bytes>>, clock: seq<int>, portOk: bool): (bursts: seq<seq<Bytes>>)
    requires |clock| >= |frames|
    ensures |bursts| == SendableCount(frames)
    ensures portOk ==> forall j :: 0 <= j < |bursts| ==> FrameBurst(bursts[j], frames[j].value, clock[j])
    ensures !portOk ==> forall j :: 0 <= j < |bursts| ==> bursts[j] == []
    ensures RtpPacket.Numbered(Flatten(bursts), 0)
  {
    SendFrames(frames, clock, portOk, 0)
  }

  /** The sending thread's work between a PLAY and the moment it observes the
      stop signal: `rounds` turns of its loop, each taking the next frame from
      the worker's stream, stopping early at the end of the media. The
      stream's cursor carries over to the next PLAY; the packet counter does
      not. */
  datatype SenderRun = SenderRun(bursts: seq<seq<Bytes>>, worker: Worker)

  function RunSender(w: Worker, rounds: nat, clock: seq<int>): (r: SenderRun)
    requires Valid(w) && w.state == Playing && |clock| >= rounds
    ensures Valid(r.worker) && r.worker == w.(stream := r.worker.stream)
    // the stream is left after the frames the loop took from it
    ensures r.worker.stream == Some(VideoStream.Pull(w.stream.value, rounds).next)
    ensures r.worker.stream.value.file == w.stream.value.file
    ensures |r.bursts| == SendableCount(VideoStream.Pull(w.stream.value, rounds).frames) <= rounds
    ensures RtpPacket.Numbered(Flatten(r.bursts), 0)
    // a frame's burst is the frame cut into packets when the port can be sent to, and empty otherwise
    ensures var frames := VideoStream.Pull(w.stream.value, rounds).frames;
            SendsTo(PortNumber(w.rtpPort)) ==>
              forall j :: 0 <= j < |r.bursts| ==> FrameBurst(r.bursts[j], frames[j].value, clock[j])
    ensures !SendsTo(PortNumber(w.rtpPort)) ==> forall j :: 0 <= j < |r.bursts| ==> r.bursts[j] == []
  {
    var pulled := VideoStream.Pull(w.stream.value, rounds);
    var bursts := SendRtp(pulled.frames, clock, SendsTo(PortNumber(w.rtpPort)));
    SenderRun(bursts, w.(stream := Some(pulled.next)))
  }

  // ---------------------------------------------------------------------------
  // The request loop
  // ---------------------------------------------------------------------------

  /** A request as it reaches the worker, with the outcome of opening its file
      and the session id `randint` would draw for it. */
  datatype Request = Request(data: string, media: Option<Bytes>, draw: int)

  /** The worker after a run of requests, the replies sent in order, and
      whether the request loop is still running. */
  datatype Served = Served(worker: Worker, replies: seq<string>, running: bool)

  predicate Draws(reqs: seq<Request>)
  {
    forall k :: 0 <= k < |reqs| ==> SessionIdRange(reqs[k].draw)
  }

  /** `recvRtspRequest`: process requests in order until one raises. */
  function Serve(w: Worker, reqs: seq<Request>): (r: Served)
    requires Valid(w) && Draws(reqs)
    ensures Valid(r.worker) && |r.replies| <= |reqs|
    decreases |reqs|
  {
    if |reqs| == 0 then Served(w, [], true)
    else
      var o := ProcessRequest(w, reqs[0].data, reqs[0].media, reqs[0].draw);
      if o.loopEnds then Served(o.worker, [], false)
      else
        var rest := Serve(o.worker, reqs[1..]);
        Served(rest.worker, (if o.reply.Some? then [o.reply.value] else []) + rest.replies, rest.running)
  }

  /** Once the loop has ended, later requests are never processed. */
  lemma {:induction false} ServeEndsForGood(w: Worker, reqs: seq<Request>, later: seq<Request>)
    requires Valid(w) && Draws(reqs) && Draws(later)
    requires !Serve(w, reqs).running
    ensures Draws(reqs + later) && Serve(w, reqs + later) == Serve(w, reqs)
    decreases |reqs|
  {
    AppendParts(reqs, later);
    var o := ProcessRequest(w, reqs[0].data, reqs[0].media, reqs[0].draw);
    if !o.loopEnds {
      ServeEndsForGood(o.worker, reqs[1..], later);
    }
  }

  lemma {:induction false} AppendParts(reqs: seq<Request>, later: seq<Request>)
    requires |reqs| > 0 && Draws(reqs) && Draws(later)
    ensures Draws(reqs + later) && Draws(reqs[1..])
    ensures (reqs + later)[0] == reqs[0] && (reqs + later)[1..] == reqs[1..] + later
  {
    assert (reqs + later)[1..] == reqs[1..] + later;
  }

  /** TEARDOWN before any PLAY: the state drops to INIT, no reply is sent and
      the request loop ends; TEARDOWN after a PLAY: INIT with a 200 reply,
      whatever state the session was in. */
  lemma {:induction false} TeardownFromAnyState(w: Worker, data: string, media: Option<Bytes>, draw: int)
    requires Valid(w) && SessionIdRange(draw) && Command(data) == Some("TEARDOWN")
    ensures ProcessRequest(w, data, media, draw).worker.state == Init
    ensures w.hasEvent <==> ProcessRequest(w, data, media, draw).reply.Some?
    ensures !w.hasEvent <==> ProcessRequest(w, data, media, draw).loopEnds
  {
  }

  /** PLAY outside READY, PAUSE outside PLAYING and SETUP outside INIT are
      ignored: no state change, no reply, no signal to the sender. */
  lemma {:induction false} WrongStateIgnored(w: Worker, data: string, media: Option<Bytes>, draw: int)
    requires Valid(w) && SessionIdRange(draw)
    requires || (Command(data) == Some("PLAY") && w.state != Ready)
             || (Command(data) == Some("PAUSE") && w.state != Playing)
             || (Command(data) == Some("SETUP") && w.state != Init)
    ensures ProcessRequest(w, data, media, draw) == Outcome(w, None, false, false, false)
  {
  }
}
