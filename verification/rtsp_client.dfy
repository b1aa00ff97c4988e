/** The client side of the control connection (`RtspClientCore`): the four
    request builders and their state guards, the acceptance of replies, and
    the sequence-number filter on received RTP datagrams. Sockets and threads
    are left out: a request is the text the client would send, a reply is the
    decoded text it received, and the datagrams arrive as a list. */
module RtspClient {
  import opened Wrappers
  import opened Octets
  import opened Text
  import opened RtspTypes
  import RtpPacket

  /** The client's fields. `requestSent` is None for the initial -1;
      `playEvent` is None until the first PLAY creates the event and then
      whether it is set; `rtpOpen` says whether the RTP socket exists. */
  datatype Client = Client(
    fileName: string,
    rtpPort: int,
    state: State,
    rtspSeq: nat,
    sessionId: int,
    requestSent: Option<Method>,
    teardownAcked: bool,
    playEvent: Option<bool>,
    rtpOpen: bool,
    frameNbr: nat)

  /** `RtspClientCore(...)`: INIT, counters at 0, no request sent. */
  function New(fileName: string, rtpPort: int): (c: Client)
    ensures c.state == Init && c.rtspSeq == 0 && c.sessionId == 0 && c.frameNbr == 0
    ensures c.requestSent.None? && !c.teardownAcked && c.playEvent.None? && !c.rtpOpen
  {
    Client(fileName, rtpPort, Init, 0, 0, None, false, None, false, 0)
  }

  // ---------------------------------------------------------------------------
  // Requests
  // ---------------------------------------------------------------------------

  /** The client after a send, and the request text it sent, if any. */
  datatype Sent = Sent(client: Client, request: Option<string>)

  /** The third line of a request: the transport for SETUP, the session for
      every other method. */
  function ThirdLine(c: Client, m: Method): string
  {
    if m == Setup then "Transport: RTP/UDP; client_port=" + IntToString(c.rtpPort)
    else "Session: " + IntToString(c.sessionId)
  }

  /** The request text, as the four send functions format it: request
      line, CSeq line and third line, each ended by CR LF, then an empty
      line. */
  function RequestText(c: Client, m: Method, cseq: int): string
  {
    MethodName(m) + " " + c.fileName + " RTSP/1.0\r\nCSeq: " + IntToString(cseq) + "\r\n"
      + ThirdLine(c, m) + "\r\n\r\n"
  }

  /** The lines a request consists of, each keeping its CR, then the empty
      line and the empty rest after the final line feed. */
  function RequestLines(c: Client, m: Method, cseq: int): seq<string>
  {
    [MethodName(m) + " " + c.fileName + " RTSP/1.0\r", "CSeq: " + IntToString(cseq) + "\r",
     ThirdLine(c, m) + "\r", "\r", ""]
  }

  /** Issue request m if its guard holds in the current state: the sequence
      counter steps by one, the request type is remembered, and the request
      carries the new counter. Otherwise nothing happens. */
  function Issue(c: Client, m: Method): (r: Sent)
    ensures r.request.Some? <==> Allowed(m, c.state)
    ensures r.request.None? ==> r.client == c
    ensures r.request.Some? ==>
              && r.client.rtspSeq == c.rtspSeq + 1
              && r.client.requestSent == Some(m)
              && r.client == c.(rtspSeq := r.client.rtspSeq, requestSent := r.client.requestSent,
                                playEvent := r.client.playEvent)
              && r.request.value == RequestText(c, m, r.client.rtspSeq)
    ensures r.client.playEvent == (if m == Play && r.request.Some? then Some(false) else c.playEvent)
  {
    if !Allowed(m, c.state) then Sent(c, None)
    else
      var cseq := c.rtspSeq + 1;
      var event := if m == Play then Some(false) else c.playEvent;
      Sent(c.(rtspSeq := cseq, requestSent := Some(m), playEvent := event), Some(RequestText(c, m, cseq)))
  }

  /** `send_setup`: only in INIT. */
  function SendSetup(c: Client): (r: Sent)
    ensures r.request.Some? <==> c.state == Init
    ensures r.request.None? ==> r.client == c
    ensures r.request.Some? ==> r.client == c.(rtspSeq := c.rtspSeq + 1, requestSent := Some(Setup))
  {
    Issue(c, Setup)
  }

  /** `send_play`: only in READY; creates a fresh, cleared stop event. */
  function SendPlay(c: Client): (r: Sent)
    ensures r.request.Some? <==> c.state == Ready
    ensures r.request.None? ==> r.client == c
    ensures r.request.Some? ==>
              r.client == c.(rtspSeq := c.rtspSeq + 1, requestSent := Some(Play), playEvent := Some(false))
  {
    Issue(c, Play)
  }

  /** `send_pause`: only in PLAYING. */
  function SendPause(c: Client): (r: Sent)
    ensures r.request.Some? <==> c.state == Playing
    ensures r.request.None? ==> r.client == c
    ensures r.request.Some? ==> r.client == c.(rtspSeq := c.rtspSeq + 1, requestSent := Some(Pause))
  {
    Issue(c, Pause)
  }

  /** `send_teardown`: in every state. */
  function SendTeardown(c: Client): (r: Sent)
    ensures r.request.Some?
    ensures r.client == c.(rtspSeq := c.rtspSeq + 1, requestSent := Some(Teardown))
  {
    Issue(c, Teardown)
  }

  /** A request splits back into its five lines, the second one carrying
      the new sequence counter, as long as the file name has no line feed. */
  lemma {:induction false} RequestSplits(c: Client, m: Method, cseq: int)
    requires '\n' !in c.fileName
    ensures Split(RequestText(c, m, cseq), '\n') == RequestLines(c, m, cseq)
  {
    var lines := RequestLines(c, m, cseq);
    RequestIsJoin(c, m, cseq);
    RequestLineFree(m, c.fileName);
    CSeqLineFree(cseq);
    ThirdLineFree(c, m);
    assert lines[3] == "\r" && lines[4] == "";
    SplitJoin(lines, '\n');
  }

  /** The request text is its lines joined by line feeds. */
  lemma {:induction false} RequestIsJoin(c: Client, m: Method, cseq: int)
    ensures RequestText(c, m, cseq) == Join(RequestLines(c, m, cseq), '\n')
  {
    var lines := RequestLines(c, m, cseq);
    JoinFive(lines, '\n');
    Reassociate(MethodName(m), c.fileName, IntToString(cseq), ThirdLine(c, m));
  }

  lemma {:induction false} Reassociate(name: string, file: string, cseq: string, third: string)
    ensures name + " " + file + " RTSP/1.0\r\nCSeq: " + cseq + "\r\n" + third + "\r\n\r\n"
         == (name + " " + file + " RTSP/1.0\r") + "\n"
              + (("CSeq: " + cseq + "\r") + "\n" + ((third + "\r") + "\n" + ("\r" + "\n" + "")))
  {
    var l0 := name + " " + file + " RTSP/1.0\r";
    assert name + " " + file + " RTSP/1.0\r\nCSeq: " == l0 + "\nCSeq: ";
    assert " RTSP/1.0\r\nCSeq: " == " RTSP/1.0\r" + "\n" + "CSeq: ";
  }

  lemma {:induction false} RequestLineFree(m: Method, fileName: string)
    requires '\n' !in fileName
    ensures '\n' !in MethodName(m) + " " + fileName + " RTSP/1.0\r"
  {
    match m
    case Setup =>
    case Play =>
    case Pause =>
    case Teardown =>
  }

  lemma {:induction false} CSeqLineFree(cseq: int)
    ensures '\n' !in "CSeq: " + IntToString(cseq) + "\r"
  {
    IntToStringPlain(cseq, '\n');
  }

  lemma {:induction false} ThirdLineFree(c: Client, m: Method)
    ensures '\n' !in ThirdLine(c, m) + "\r"
  {
    if m == Setup {
      IntToStringPlain(c.rtpPort, '\n');
      TransportFree();
    } else {
      IntToStringPlain(c.sessionId, '\n');
    }
  }

  lemma {:induction false} TransportFree()
    ensures '\n' !in "Transport: RTP/UDP; client_port="
  {
  }

  // ---------------------------------------------------------------------------
  // Replies
  // ---------------------------------------------------------------------------

  /** `int(lines[k].split(' ')[1])` on a reply: None where Python raises, on
      a missing line, a line without a space, or a word that is not a
      number. */
  function IntField(data: string, k: nat): Option<int>
  {
    var lines := Split(data, '\n');
    if k >= |lines| then None
    else
      var words := Split(lines[k], ' ');
      if |words| < 2 then None else ParseInt(words[1])
  }

  /** The three numbers a reply is judged by: the status code of line 0,
      the CSeq of line 1 and the session of line 2. */
  datatype Reply = Reply(status: Option<int>, cseq: Option<int>, session: Option<int>)

  function ReadReply(data: string): Reply
  {
    Reply(IntField(data, 0), IntField(data, 1), IntField(data, 2))
  }

  /** The reply answers the request in flight and belongs to this session:
      its CSeq is the current counter, its session parses, and it equals the
      recorded session (or none was recorded yet). */
  predicate Matches(c: Client, reply: Reply)
  {
    && reply.cseq == Some(c.rtspSeq)
    && reply.session.Some?
    && (c.sessionId == 0 || c.sessionId == reply.session.value)
  }

  /** The reply is taken: it matches, its status is 200, and a request was
      sent. */
  predicate Accepted(c: Client, reply: Reply)
  {
    Matches(c, reply) && reply.status == Some(200) && c.requestSent.Some?
  }

  /** `parse_rtsp_reply`: read the three numbers, then act on them. */
  function ParseReply(c: Client, data: string): Client
  {
    Handle(c, ReadReply(data))
  }

  /** The body of `parse_rtsp_reply` after the parsing. The session is
      recorded before the status is read, so a matching reply records it
      whatever its status; the transition for the request in flight happens
      only on status 200. Anything Python raises on ends the handling with
      the changes made so far. */
  function Handle(c: Client, reply: Reply): (r: Client)
    ensures reply.cseq != Some(c.rtspSeq) ==> r == c
    ensures r == c.(sessionId := r.sessionId, state := r.state, teardownAcked := r.teardownAcked,
                    playEvent := r.playEvent, rtpOpen := r.rtpOpen)
    ensures r.sessionId != c.sessionId <==>
              c.sessionId == 0 && reply.cseq == Some(c.rtspSeq) && reply.session.Some? && reply.session.value != 0
    ensures r.sessionId != c.sessionId ==> r.sessionId == reply.session.value
    ensures Accepted(c, reply) ==>
              && r.state == Target(c.requestSent.value)
              && r.rtpOpen == (c.rtpOpen || c.requestSent.value == Setup)
              && r.teardownAcked == (c.teardownAcked || c.requestSent.value == Teardown)
              && r.playEvent == (if c.requestSent.value == Pause && c.playEvent.Some? then Some(true)
                                 else c.playEvent)
    ensures !Accepted(c, reply) ==>
              r.state == c.state && r.teardownAcked == c.teardownAcked
              && r.playEvent == c.playEvent && r.rtpOpen == c.rtpOpen
  {
    if reply.cseq != Some(c.rtspSeq) || reply.session.None? then c
    else
      var session := reply.session.value;
      var c1 := if c.sessionId == 0 then c.(sessionId := session) else c;
      if c1.sessionId != session || reply.status != Some(200) then c1
      else
        match c1.requestSent
        case None => c1
        case Some(m) => Transition(c1, m)
  }

  /** The effect of a 200 reply to request m. SETUP opens the RTP socket (a
      failed bind only prints); PAUSE sets the stop event, and when no event
      exists yet the AttributeError comes after the state change. */
  function Transition(c: Client, m: Method): (r: Client)
  {
    match m
    case Setup => c.(state := Ready, rtpOpen := true)
    case Play => c.(state := Playing)
    case Pause => c.(state := Ready, playEvent := if c.playEvent.Some? then Some(true) else None)
    case Teardown => c.(state := Init, teardownAcked := true)
  }

  /** A reply to an earlier request arrives after a newer one was issued: it
      no longer carries the current counter and is ignored. */
  lemma {:induction false} StaleReplyIgnored(c: Client, m: Method, reply: Reply)
    requires Allowed(m, c.state) && reply.cseq == Some(c.rtspSeq)
    ensures var c2 := Issue(c, m).client; Handle(c2, reply) == c2
  {
  }

  /** Once a session id is recorded, a reply for another session changes
      nothing but what its CSeq check already allowed: no state change. */
  lemma {:induction false} ForeignSessionIgnored(c: Client, reply: Reply)
    requires c.sessionId != 0 && reply.session.Some? && reply.session.value != c.sessionId
    ensures Handle(c, reply) == c
  {
  }

  // ---------------------------------------------------------------------------
  // Receiving RTP
  // ---------------------------------------------------------------------------

  /** The sequence number a datagram decodes to, or -1 when it does not
      decode. */
  function SeqOf(d: Bytes): (s: int)
    ensures s < 0x1_0000
    ensures s >= 0 <==> RtpPacket.Decode(d).Success?
  {
    match RtpPacket.Decode(d)
    case Success(p) => p.SeqNum()
    case Failure(_) => -1
  }

  /** Every datagram kept decodes, with sequence numbers above `after` and
      strictly increasing. */
  predicate Ascending(kept: seq<Bytes>, after: int)
  {
    && (forall k :: 0 <= k < |kept| ==> after < SeqOf(kept[k]))
    && (forall i, j :: 0 <= i < j < |kept| ==> SeqOf(kept[i]) < SeqOf(kept[j]))
  }

  /** a is b with some elements left out, the rest in their order. */
  predicate SubSeq(a: seq<Bytes>, b: seq<Bytes>)
    decreases |b|
  {
    if |a| == 0 then true
    else if |b| == 0 then false
    else (a[0] == b[0] && SubSeq(a[1..], b[1..])) || SubSeq(a, b[1..])
  }

  /** What the listener handed to the frame callback, in order (as the
      datagrams they came from); the last sequence number kept; and whether
      the loop ended. */
  datatype Received = Received(kept: seq<Bytes>, frameNbr: nat, stopped: bool)

  /** The loop of `listen_rtp` over the datagrams read from the socket. An
      empty read is skipped. A datagram too short to decode raises: the loop
      ends when `exitOnError` (the stop event is set, or the teardown was
      acknowledged) and goes on otherwise. A packet is handed on only when its
      sequence number is greater than the last one handed on, which it then
      becomes. */
  function ListenRtp(frameNbr: nat, datagrams: seq<Bytes>, exitOnError: bool): (r: Received)
    ensures SubSeq(r.kept, datagrams)
    ensures Ascending(r.kept, frameNbr)
    ensures r.frameNbr == if |r.kept| == 0 then frameNbr else SeqOf(r.kept[|r.kept| - 1])
    ensures r.stopped ==> exitOnError
    decreases |datagrams|
  {
    if |datagrams| == 0 then Received([], frameNbr, false)
    else
      var d := datagrams[0];
      var s := SeqOf(d);
      if |d| == 0 then Skip(d, ListenRtp(frameNbr, datagrams[1..], exitOnError), datagrams[1..])
      else if s < 0 && exitOnError then Received([], frameNbr, true)
      else if s <= frameNbr then Skip(d, ListenRtp(frameNbr, datagrams[1..], exitOnError), datagrams[1..])
      else
        var rest := ListenRtp(s, datagrams[1..], exitOnError);
        AscendingCons(d, rest.kept, frameNbr);
        rest.(kept := [d] + rest.kept)
  }

  /** Passing over the first datagram keeps the rest a subsequence. */
  function Skip(d: Bytes, rest: Received, tail: seq<Bytes>): (r: Received)
    requires SubSeq(rest.kept, tail)
    ensures r == rest && SubSeq(r.kept, [d] + tail)
  {
    SubSeqSkip(d, rest.kept, tail);
    rest
  }

  lemma {:induction false} SubSeqSkip(d: Bytes, kept: seq<Bytes>, tail: seq<Bytes>)
    requires SubSeq(kept, tail)
    ensures SubSeq(kept, [d] + tail)
  {
    assert ([d] + tail)[1..] == tail;
  }

  lemma {:induction false} AscendingCons(d: Bytes, rest: seq<Bytes>, after: int)
    requires after < SeqOf(d) && Ascending(rest, SeqOf(d))
    ensures Ascending([d] + rest, after)
  {
    var r := [d] + rest;
    forall i, j | 0 <= i < j < |r|
      ensures SeqOf(r[i]) < SeqOf(r[j])
    {
      assert r[j] == rest[j - 1];
    }
  }

  /** The listener passes over an empty read, a datagram numbered at most
      the last one kept, and an undecodable one when errors do not end the
      loop; it hands on one numbered above the last one kept. */
  lemma {:induction false} ListenSkips(frameNbr: nat, datagrams: seq<Bytes>, exitOnError: bool)
    requires |datagrams| > 0
    requires var s := SeqOf(datagrams[0]); |datagrams[0]| == 0 || (s <= frameNbr && !(s < 0 && exitOnError))
    ensures ListenRtp(frameNbr, datagrams, exitOnError) == ListenRtp(frameNbr, datagrams[1..], exitOnError)
  {
  }

  lemma {:induction false} ListenKeeps(frameNbr: nat, datagrams: seq<Bytes>, exitOnError: bool)
    requires |datagrams| > 0 && frameNbr < SeqOf(datagrams[0])
    ensures var rest := ListenRtp(SeqOf(datagrams[0]), datagrams[1..], exitOnError);
            ListenRtp(frameNbr, datagrams, exitOnError) == rest.(kept := [datagrams[0]] + rest.kept)
  {
    assert |datagrams[0]| > 0 by { assert RtpPacket.Decode(datagrams[0]).Success?; }
  }

  /** A run that already satisfies the filter (every datagram decodes, the
      numbers rise and start above the last one kept) is handed on whole,
      and the loop does not stop. */
  lemma {:induction false} InOrderAllDelivered(frameNbr: nat, datagrams: seq<Bytes>, exitOnError: bool)
    requires Ascending(datagrams, frameNbr)
    ensures ListenRtp(frameNbr, datagrams, exitOnError).kept == datagrams
    ensures !ListenRtp(frameNbr, datagrams, exitOnError).stopped
    decreases |datagrams|
  {
    if |datagrams| > 0 {
      var s := SeqOf(datagrams[0]);
      assert frameNbr < s;
      ListenKeeps(frameNbr, datagrams, exitOnError);
      AscendingTail(datagrams, frameNbr);
      InOrderAllDelivered(s, datagrams[1..], exitOnError);
      assert [datagrams[0]] + datagrams[1..] == datagrams;
    }
  }

  lemma {:induction false} AscendingTail(kept: seq<Bytes>, after: int)
    requires Ascending(kept, after) && |kept| > 0
    ensures Ascending(kept[1..], SeqOf(kept[0]))
  {
    var tail := kept[1..];
    forall k | 0 <= k < |tail| ensures SeqOf(kept[0]) < SeqOf(tail[k]) {
      assert tail[k] == kept[k + 1];
    }
    forall i, j | 0 <= i < j < |tail| ensures SeqOf(tail[i]) < SeqOf(tail[j]) {
      assert tail[i] == kept[i + 1] && tail[j] == kept[j + 1];
    }
  }

  /** A run numbered upward from start without wrapping, all of it above
      frameNbr, satisfies the filter. */
  lemma {:induction false} NumberedAscending(frameNbr: nat, datagrams: seq<Bytes>, start: int)
    requires RtpPacket.Numbered(datagrams, start)
    requires frameNbr < start && start + |datagrams| <= 0x1_0000
    ensures Ascending(datagrams, frameNbr)
  {
    forall k | 0 <= k < |datagrams| ensures SeqOf(datagrams[k]) == start + k {
      assert 0 <= start + k < 0x1_0000;
      assert (start + k) % 0x1_0000 == start + k;
      assert RtpPacket.Decode(datagrams[k]).value.SeqNum() == start + k;
    }
    forall i, j | 0 <= i < j < |datagrams|
      ensures SeqOf(datagrams[i]) < SeqOf(datagrams[j])
    {
    }
  }

  /** What the listener keeps of a burst numbered from start (no wrap): the
      datagrams whose number is above the last one kept, that is, all but
      the first Skipped(frameNbr, start, |datagrams|) of them. */
  lemma {:induction false} NumberedKept(frameNbr: nat, datagrams: seq<Bytes>, start: nat, exitOnError: bool)
    requires RtpPacket.Numbered(datagrams, start) && start + |datagrams| <= 0x1_0000
    ensures ListenRtp(frameNbr, datagrams, exitOnError).kept == datagrams[Skipped(frameNbr, start, |datagrams|)..]
    decreases |datagrams|
  {
    if frameNbr < start {
      NumberedAscending(frameNbr, datagrams, start);
      InOrderAllDelivered(frameNbr, datagrams, exitOnError);
    } else if |datagrams| > 0 {
      SkipFirst(frameNbr, datagrams, start, exitOnError);
      NumberedKept(frameNbr, datagrams[1..], start + 1, exitOnError);
      KeptAfterSkip(frameNbr, datagrams, start, ListenRtp(frameNbr, datagrams, exitOnError).kept);
    }
  }

  /** Passing over the first datagram moves the kept suffix one further on. */
  lemma {:induction false} KeptAfterSkip(frameNbr: nat, datagrams: seq<Bytes>, start: nat, kept: seq<Bytes>)
    requires start <= frameNbr && |datagrams| > 0
    requires kept == datagrams[1..][Skipped(frameNbr, start + 1, |datagrams| - 1)..]
    ensures kept == datagrams[Skipped(frameNbr, start, |datagrams|)..]
  {
    var i := Skipped(frameNbr, start + 1, |datagrams| - 1);
    assert i + 1 == Skipped(frameNbr, start, |datagrams|);
    assert datagrams[1..][i..] == datagrams[i + 1..];
  }

  /** How many leading datagrams of a burst numbered from start are not
      above frameNbr. */
  function Skipped(frameNbr: nat, start: nat, len: nat): (n: nat)
    ensures n <= len
  {
    if frameNbr < start then 0 else Min(frameNbr + 1 - start, len)
  }

  /** The first datagram of a run numbered from start <= frameNbr is passed
      over, and the rest is numbered from start + 1. */
  lemma {:induction false} SkipFirst(frameNbr: nat, datagrams: seq<Bytes>, start: nat, exitOnError: bool)
    requires RtpPacket.Numbered(datagrams, start) && start + |datagrams| <= 0x1_0000
    requires start <= frameNbr && |datagrams| > 0
    ensures ListenRtp(frameNbr, datagrams, exitOnError) == ListenRtp(frameNbr, datagrams[1..], exitOnError)
    ensures RtpPacket.Numbered(datagrams[1..], start + 1)
  {
    assert SeqOf(datagrams[0]) == start;
    ListenSkips(frameNbr, datagrams, exitOnError);
    RtpPacket.NumberedTail(datagrams, start);
  }

  /** The burst of a PLAY is numbered from 0, and the first listener starts
      with frameNbr 0: the packet numbered 0 is never handed on, so the first
      fragment of the first frame is lost. */
  lemma {:induction false} FirstPacketDropped(datagrams: seq<Bytes>, exitOnError: bool)
    requires RtpPacket.Numbered(datagrams, 0) && 0 < |datagrams| <= 0x1_0000
    ensures ListenRtp(0, datagrams, exitOnError).kept == datagrams[1..]
  {
    NumberedKept(0, datagrams, 0, exitOnError);
  }

  /** After a PAUSE the listener keeps its last number n, while the sender of
      the next PLAY numbers from 0 again: the first n + 1 datagrams of the
      resumed stream are dropped. */
  lemma {:induction false} ResumeDropsPackets(n: nat, datagrams: seq<Bytes>, exitOnError: bool)
    requires RtpPacket.Numbered(datagrams, 0) && |datagrams| <= 0x1_0000
    ensures ListenRtp(n, datagrams, exitOnError).kept == datagrams[Min(n + 1, |datagrams|)..]
  {
    NumberedKept(n, datagrams, 0, exitOnError);
    assert Skipped(n, 0, |datagrams|) == Min(n + 1, |datagrams|);
  }

  /** Sequence numbers are 16 bits and the comparison does not wrap: once
      65535 was kept, nothing is handed on again. */
  lemma {:induction false} SaturatedDeliversNothing(datagrams: seq<Bytes>, exitOnError: bool)
    ensures ListenRtp(0xFFFF, datagrams, exitOnError).kept == []
  {
  }

  // ---------------------------------------------------------------------------
  // The receive loop as a record filter
  // ---------------------------------------------------------------------------

  /** A datagram on which `decode` raises: not empty (an empty read is passed
      over before decoding) and too short to decode. */
  predicate Faulty(d: Bytes)
  {
    |d| > 0 && SeqOf(d) < 0
  }

  /** How many datagrams the loop gets through: up to the first faulty one
      when `exitOnError`, all of them otherwise. */
  function StopAt(datagrams: seq<Bytes>, exitOnError: bool): (n: nat)
    ensures n <= |datagrams|
    ensures forall i :: 0 <= i < n ==> !(exitOnError && Faulty(datagrams[i]))
    ensures n < |datagrams| ==> exitOnError && Faulty(datagrams[n])
    decreases |datagrams|
  {
    if |datagrams| == 0 || (exitOnError && Faulty(datagrams[0])) then 0
    else 1 + StopAt(datagrams[1..], exitOnError)
  }

  /** The highest of frameNbr and the numbers of the datagrams. */
  function HighWater(frameNbr: nat, datagrams: seq<Bytes>): (m: nat)
    ensures frameNbr <= m
    ensures forall i :: 0 <= i < |datagrams| ==> SeqOf(datagrams[i]) <= m
    decreases |datagrams|
  {
    if |datagrams| == 0 then frameNbr
    else
      var init := datagrams[..|datagrams| - 1];
      var s := SeqOf(datagrams[|datagrams| - 1]);
      var m := HighWater(frameNbr, init);
      assert forall i :: 0 <= i < |init| ==> init[i] == datagrams[i];
      if s > m then s else m
  }

  /** The record-breaking datagrams, in order: those numbered above frameNbr
      and above every datagram before them. */
  function Record(frameNbr: nat, datagrams: seq<Bytes>): seq<Bytes>
    decreases |datagrams|
  {
    if |datagrams| == 0 then []
    else
      var init := datagrams[..|datagrams| - 1];
      var d := datagrams[|datagrams| - 1];
      Record(frameNbr, init) + (if SeqOf(d) > HighWater(frameNbr, init) then [d] else [])
  }

  /** What one more datagram does to the loop's result. */
  function Step(r: Received, d: Bytes, exitOnError: bool): Received
  {
    if r.stopped then r
    else if exitOnError && Faulty(d) then r.(stopped := true)
    else if SeqOf(d) > r.frameNbr then r.(kept := r.kept + [d], frameNbr := SeqOf(d))
    else r
  }

  /** The loop over one more datagram is the loop over the others followed
      by one step. */
  lemma {:induction false} ListenSnoc(frameNbr: nat, datagrams: seq<Bytes>, d: Bytes, exitOnError: bool)
    ensures ListenRtp(frameNbr, datagrams + [d], exitOnError) == Step(ListenRtp(frameNbr, datagrams, exitOnError), d, exitOnError)
    decreases |datagrams|
  {
    if |datagrams| == 0 {
      ListenOne(frameNbr, d, exitOnError);
    } else {
      var d0, tail := datagrams[0], datagrams[1..];
      var s := SeqOf(d0);
      assert (datagrams + [d])[0] == d0 && (datagrams + [d])[1..] == tail + [d];
      if |d0| == 0 || (s <= frameNbr && !(s < 0 && exitOnError)) {
        ListenSnoc(frameNbr, tail, d, exitOnError);
        ListenSkips(frameNbr, datagrams, exitOnError);
        ListenSkips(frameNbr, datagrams + [d], exitOnError);
      } else if s > frameNbr {
        ListenSnoc(s, tail, d, exitOnError);
        ListenKeeps(frameNbr, datagrams, exitOnError);
        ListenKeeps(frameNbr, datagrams + [d], exitOnError);
        KeepSnoc(d0, ListenRtp(s, tail, exitOnError), d, exitOnError);
      } else {
        ListenStops(frameNbr, datagrams, exitOnError);
        ListenStops(frameNbr, datagrams + [d], exitOnError);
      }
    }
  }

  lemma {:induction false} ListenOne(frameNbr: nat, d: Bytes, exitOnError: bool)
    ensures ListenRtp(frameNbr, [d], exitOnError) == Step(Received([], frameNbr, false), d, exitOnError)
  {
    assert [d][1..] == [];
    assert [] + [d] == [d];
  }

  /** A faulty first datagram ends the loop with nothing handed on. */
  lemma {:induction false} ListenStops(frameNbr: nat, datagrams: seq<Bytes>, exitOnError: bool)
    requires |datagrams| > 0 && Faulty(datagrams[0]) && exitOnError
    ensures ListenRtp(frameNbr, datagrams, exitOnError) == Received([], frameNbr, true)
  {
  }

  /** A step at the end commutes with handing a datagram on at the front. */
  lemma {:induction false} KeepSnoc(d0: Bytes, rest: Received, d: Bytes, exitOnError: bool)
    ensures var r := Step(rest, d, exitOnError);
            r.(kept := [d0] + r.kept) == Step(rest.(kept := [d0] + rest.kept), d, exitOnError)
  {
    assert [d0] + (rest.kept + [d]) == ([d0] + rest.kept) + [d];
  }

  lemma {:induction false} StopAtSnoc(init: seq<Bytes>, d: Bytes, exitOnError: bool)
    ensures var m := StopAt(init, exitOnError);
            StopAt(init + [d], exitOnError)
            == if m < |init| then m else if exitOnError && Faulty(d) then |init| else |init| + 1
  {
    var all := init + [d];
    var m, n := StopAt(init, exitOnError), StopAt(all, exitOnError);
    assert forall i :: 0 <= i < |init| ==> all[i] == init[i];
    assert all[|init|] == d;
    if m < |init| {
      assert n <= m;
    } else if exitOnError && Faulty(d) {
      assert n <= |init|;
    }
  }

  /** r is what the filter gives for the datagrams: the record-breaking ones
      among those before the stopping point, the highest number among them,
      and whether a faulty datagram ended the loop. */
  predicate IsRecord(r: Received, frameNbr: nat, datagrams: seq<Bytes>, exitOnError: bool)
  {
    var n := StopAt(datagrams, exitOnError);
    && r.kept == Record(frameNbr, datagrams[..n])
    && r.frameNbr == HighWater(frameNbr, datagrams[..n])
    && r.stopped == (n < |datagrams|)
  }

  /** The receive loop hands on exactly the record-breaking datagrams among
      those it gets through, its last number is the highest number among
      them, and it has stopped exactly when a faulty datagram ended it. */
  lemma {:induction false} ListenIsRecord(frameNbr: nat, datagrams: seq<Bytes>, exitOnError: bool)
    ensures var n := StopAt(datagrams, exitOnError);
            var r := ListenRtp(frameNbr, datagrams, exitOnError);
            && r.kept == Record(frameNbr, datagrams[..n])
            && r.frameNbr == HighWater(frameNbr, datagrams[..n])
            && r.stopped == (n < |datagrams|)
    decreases |datagrams|
  {
    if |datagrams| == 0 {
      assert datagrams[..0] == [];
    } else {
      var init, d := datagrams[..|datagrams| - 1], datagrams[|datagrams| - 1];
      assert datagrams == init + [d];
      ListenIsRecord(frameNbr, init, exitOnError);
      ListenSnoc(frameNbr, init, d, exitOnError);
      RecordStep(frameNbr, init, d, exitOnError, ListenRtp(frameNbr, init, exitOnError));
    }
  }

  /** One step of the loop keeps it in agreement with the filter. */
  lemma {:induction false} RecordStep(frameNbr: nat, init: seq<Bytes>, d: Bytes, exitOnError: bool, r0: Received)
    requires IsRecord(r0, frameNbr, init, exitOnError)
    ensures IsRecord(Step(r0, d, exitOnError), frameNbr, init + [d], exitOnError)
  {
    var all := init + [d];
    StopAtSnoc(init, d, exitOnError);
    var m := StopAt(init, exitOnError);
    if m < |init| {
      assert all[..m] == init[..m];
    } else {
      assert init[..m] == init;
      if exitOnError && Faulty(d) {
        assert all[..|init|] == init;
      } else {
        RecordSnoc(frameNbr, init, d);
        assert all[..|all|] == all;
      }
    }
  }

  /** The filter over one more datagram, written out. */
  lemma {:induction false} RecordSnoc(frameNbr: nat, init: seq<Bytes>, d: Bytes)
    ensures var m := HighWater(frameNbr, init);
            && Record(frameNbr, init + [d]) == Record(frameNbr, init) + (if SeqOf(d) > m then [d] else [])
            && HighWater(frameNbr, init + [d]) == if SeqOf(d) > m then SeqOf(d) else m
  {
    var all := init + [d];
    assert all[..|all| - 1] == init && all[|all| - 1] == d;
  }

  // ---------------------------------------------------------------------------
  // The filter as evidently intended
  // ---------------------------------------------------------------------------

  /** s is newer than the last number kept under 16-bit serial-number
      arithmetic (section 3.2 of RFC 1982): ahead by less than half the
      number space, so 0 follows 65535. Anything is newer when nothing was
      kept yet. */
  predicate Newer(s: int, last: Option<int>)
  {
    last.None? || 0 < (s - last.value) % 0x1_0000 < 0x8000
  }

  /** What the corrected listener handed on and whether the loop ended; the
      last number kept is that of the last datagram kept. */
  datatype Delivered = Delivered(kept: seq<Bytes>, stopped: bool)

  /** Every datagram kept decodes and is newer than the one kept before it,
      the first newer than `last`. */
  predicate SerialAscending(kept: seq<Bytes>, last: Option<int>)
    decreases |kept|
  {
    |kept| == 0 ||
      (SeqOf(kept[0]) >= 0 && Newer(SeqOf(kept[0]), last) && SerialAscending(kept[1..], Some(SeqOf(kept[0]))))
  }

  /** The receive loop with the last number held per listener (None when a
      PLAY starts it) and compared in serial arithmetic; the rest is as in
      `ListenRtp`. */
  function ListenSerial(last: Option<int>, datagrams: seq<Bytes>, exitOnError: bool): (r: Delivered)
    ensures SubSeq(r.kept, datagrams)
    ensures SerialAscending(r.kept, last)
    ensures r.stopped ==> exitOnError
    decreases |datagrams|
  {
    if |datagrams| == 0 then Delivered([], false)
    else
      var d := datagrams[0];
      var s := SeqOf(d);
      var tail := datagrams[1..];
      if |d| == 0 || (s < 0 && !exitOnError) || (s >= 0 && !Newer(s, last)) then
        var rest := ListenSerial(last, tail, exitOnError);
        SubSeqSkip(d, rest.kept, tail);
        rest
      else if s < 0 then Delivered([], true)
      else KeepSerial(d, ListenSerial(Some(s), tail, exitOnError), tail, last)
  }

  /** Handing the first datagram on in front of what the rest delivered. */
  function KeepSerial(d: Bytes, rest: Delivered, tail: seq<Bytes>, last: Option<int>): (r: Delivered)
    requires SeqOf(d) >= 0 && Newer(SeqOf(d), last)
    requires SubSeq(rest.kept, tail) && SerialAscending(rest.kept, Some(SeqOf(d)))
    ensures r.kept == [d] + rest.kept && r.stopped == rest.stopped
    ensures SubSeq(r.kept, [d] + tail) && SerialAscending(r.kept, last)
  {
    SerialCons(d, rest.kept, last);
    assert ([d] + tail)[1..] == tail;
    rest.(kept := [d] + rest.kept)
  }

  lemma {:induction false} SerialCons(d: Bytes, rest: seq<Bytes>, last: Option<int>)
    requires SeqOf(d) >= 0 && Newer(SeqOf(d), last) && SerialAscending(rest, Some(SeqOf(d)))
    ensures SerialAscending([d] + rest, last)
  {
    assert ([d] + rest)[1..] == rest;
  }

  /** The next counter value is newer than the current one, also where the
      16-bit number wraps from 65535 to 0. */
  lemma {:induction false} SuccessorNewer(n: int)
    ensures Newer((n + 1) % 0x1_0000, Some(n % 0x1_0000))
  {
    var a := n % 0x1_0000;
    if a == 0xFFFF {
      assert (n + 1) % 0x1_0000 == 0;
    } else {
      assert (n + 1) % 0x1_0000 == a + 1;
    }
  }

  /** The corrected filter hands on every datagram of a consecutively
      numbered run, whatever number it starts from and however long it is,
      provided the first one is newer than the last number kept. */
  lemma {:induction false} SerialDeliversAll(last: Option<int>, datagrams: seq<Bytes>, start: int, exitOnError: bool)
    requires RtpPacket.Numbered(datagrams, start)
    requires |datagrams| > 0 ==> Newer(start % 0x1_0000, last)
    ensures ListenSerial(last, datagrams, exitOnError).kept == datagrams
    decreases |datagrams|
  {
    if |datagrams| > 0 {
      var d := datagrams[0];
      assert SeqOf(d) == start % 0x1_0000;
      assert |d| > 0 by { assert RtpPacket.Decode(d).Success?; }
      RtpPacket.NumberedTail(datagrams, start);
      SuccessorNewer(start);
      SerialDeliversAll(Some(start % 0x1_0000), datagrams[1..], start + 1, exitOnError);
      assert [d] + datagrams[1..] == datagrams;
    }
  }

  /** In particular, every burst a PLAY sends reaches the callback whole,
      the datagram numbered 0 included. */
  lemma {:induction false} SerialFirstPacketKept(datagrams: seq<Bytes>, exitOnError: bool)
    requires RtpPacket.Numbered(datagrams, 0)
    ensures ListenSerial(None, datagrams, exitOnError).kept == datagrams
  {
    SerialDeliversAll(None, datagrams, 0, exitOnError);
  }
}
