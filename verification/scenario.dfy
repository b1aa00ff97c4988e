/** The two ends together: a request the client formats, as the server's
    parser reads it; the server's reply, as the client reads it; and the
    packets the server sends, as the client's listener filters them. */
module Scenario {
  import opened Wrappers
  import opened Octets
  import opened Text
  import opened RtspTypes
  import RtspClient
  import ServerWorker
  import RtpPacket
  import VideoStream

  // ---------------------------------------------------------------------------
  // Client requests read by the server
  // ---------------------------------------------------------------------------

  /** A string lacking one character of sub does not contain sub. */
  lemma {:induction false} Lacks(s: string, sub: string, k: nat)
    requires k < |sub| && sub[k] !in s
    ensures !Contains(s, sub)
  {
    if Contains(s, sub) {
      ContainsChar(s, sub, k);
    }
  }

  /** The request line splits at spaces into keyword, file name and
      version when the file name has no space. */
  lemma {:induction false} RequestLineWords(m: Method, fileName: string)
    requires ' ' !in fileName
    ensures Split(MethodName(m) + " " + fileName + " RTSP/1.0\r", ' ') == [MethodName(m), fileName, "RTSP/1.0\r"]
  {
    KeywordPlain(m);
    VersionPlain();
    WordsOfLine(MethodName(m), fileName);
  }

  lemma {:induction false} WordsOfLine(name: string, fileName: string)
    requires ' ' !in name && ' ' !in fileName && ' ' !in "RTSP/1.0\r"
    ensures Split(name + " " + fileName + " RTSP/1.0\r", ' ') == [name, fileName, "RTSP/1.0\r"]
  {
    assert " RTSP/1.0\r" == [' '] + "RTSP/1.0\r";
    assert name + " " + fileName + " RTSP/1.0\r" == name + [' '] + fileName + [' '] + "RTSP/1.0\r";
    SplitThree(name, fileName, "RTSP/1.0\r", ' ');
  }

  lemma {:induction false} KeywordPlain(m: Method)
    ensures ' ' !in MethodName(m)
  {
    match m
    case Setup =>
    case Play =>
    case Pause =>
    case Teardown =>
  }

  lemma {:induction false} VersionPlain()
    ensures ' ' !in "RTSP/1.0\r"
  {
  }

  /** The server reads the keyword of the client's request. */
  lemma {:induction false} CommandOfRequest(c: RtspClient.Client, m: Method, cseq: int)
    requires '\n' !in c.fileName && ' ' !in c.fileName
    ensures ServerWorker.Command(RtspClient.RequestText(c, m, cseq)) == Some(MethodName(m))
    ensures MethodOf(MethodName(m)) == Some(m)
  {
    RtspClient.RequestSplits(c, m, cseq);
    RequestLineWords(m, c.fileName);
  }

  /** A labelled line splits at its space into the tag and the number
      with its carriage return. */
  lemma {:induction false} LabelledWords(tag: string, n: int)
    requires ' ' !in tag
    ensures Split(tag + " " + IntToString(n) + "\r", ' ') == [tag, IntToString(n) + "\r"]
  {
    IntToStringPlain(n, ' ');
    assert tag + " " + IntToString(n) + "\r" == tag + [' '] + (IntToString(n) + "\r");
    SplitTwo(tag, IntToString(n) + "\r", ' ');
  }

  lemma {:induction false} CSeqLineWords(cseq: int)
    ensures Split("CSeq: " + IntToString(cseq) + "\r", ' ') == ["CSeq:", IntToString(cseq) + "\r"]
  {
    assert "CSeq: " == "CSeq:" + " ";
    LabelledWords("CSeq:", cseq);
  }

  /** The server echoes the client's counter, followed by the carriage
      return that ends the CSeq line. */
  lemma {:induction false} EchoOfRequest(c: RtspClient.Client, m: Method, cseq: int)
    requires '\n' !in c.fileName
    ensures ServerWorker.EchoedCSeq(RtspClient.RequestText(c, m, cseq)) == IntToString(cseq) + "\r"
  {
    var lines := RtspClient.RequestLines(c, m, cseq);
    RtspClient.RequestSplits(c, m, cseq);
    ServerWorker.CSeqIsLast(lines, "0");
    Lacks(lines[4], "CSeq:", 0);
    Lacks(lines[3], "CSeq:", 0);
    ThirdLineLacksC(c, m);
    Lacks(lines[2], "CSeq:", 0);
    ContainsAt(lines[1], "CSeq:", 0);
    CSeqLineWords(cseq);
    SecondLineLast(lines);
  }

  /** Of five lines, the second is the last to supply a CSeq when the three
      after it do not mention one. */
  lemma {:induction false} SecondLineLast(lines: seq<string>)
    requires |lines| == 5 && Contains(lines[1], "CSeq:") && |Split(lines[1], ' ')| >= 2
    requires !Contains(lines[2], "CSeq:") && !Contains(lines[3], "CSeq:") && !Contains(lines[4], "CSeq:")
    ensures ServerWorker.LastCSeq(lines) == Some(Split(lines[1], ' ')[1])
  {
    assert lines[..4][..3] == lines[..3] && lines[..3][..2] == lines[..2];
    assert ServerWorker.LastCSeq(lines[..2]) == Some(Split(lines[1], ' ')[1]);
    assert ServerWorker.LastCSeq(lines[..3]) == ServerWorker.LastCSeq(lines[..2]);
    assert ServerWorker.LastCSeq(lines[..4]) == ServerWorker.LastCSeq(lines[..3]);
  }

  lemma {:induction false} ThirdLineLacksC(c: RtspClient.Client, m: Method)
    ensures 'C' !in RtspClient.ThirdLine(c, m) + "\r"
  {
    if m == Setup {
      IntToStringPlain(c.rtpPort, 'C');
      TransportLacksC();
    } else {
      IntToStringPlain(c.sessionId, 'C');
    }
  }

  lemma {:induction false} TransportLacksC()
    ensures 'C' !in "Transport: RTP/UDP; client_port="
  {
  }

  /** The server records the port the client's SETUP names, and the sending
      loop reads it back as the client's number. The file name must not
      contain an underscore, or the request line itself would mention
      "client_port". */
  lemma {:induction false} PortOfSetup(c: RtspClient.Client, cseq: int)
    requires '\n' !in c.fileName && '_' !in c.fileName
    ensures ServerWorker.ClientPort(RtspClient.RequestText(c, Setup, cseq)) == Some(IntToString(c.rtpPort))
    ensures ServerWorker.PortNumber(Some(IntToString(c.rtpPort))) == Some(c.rtpPort)
  {
    var lines := RtspClient.RequestLines(c, Setup, cseq);
    RtspClient.RequestSplits(c, Setup, cseq);
    RequestLineLacksUnderscore(c.fileName);
    var port := IntToString(c.rtpPort);
    CSeqLineLacksUnderscore(cseq);
    NoPortNamed(lines[0], None);
    NoPortNamed(lines[1], None);
    TransportPort(c.rtpPort);
    NoPortNamed(lines[3], Some(port));
    NoPortNamed(lines[4], Some(port));
    PortScanFive(lines, port);
    ParseIntOfString(c.rtpPort, "");
    assert IntToString(c.rtpPort) + "" == IntToString(c.rtpPort);
  }

  /** A line without an underscore cannot name a client port. */
  lemma {:induction false} NoPortNamed(line: string, acc: Option<string>)
    requires '_' !in line
    ensures ServerWorker.PortOfLine(line, acc) == acc
  {
    Lacks(line, "client_port", 6);
  }

  lemma {:induction false} CSeqLineLacksUnderscore(cseq: int)
    ensures '_' !in "CSeq: " + IntToString(cseq) + "\r"
  {
    IntToStringPlain(cseq, '_');
  }

  lemma {:induction false} RequestLineLacksUnderscore(fileName: string)
    requires '_' !in fileName
    ensures '_' !in "SETUP " + fileName + " RTSP/1.0\r"
  {
  }

  /** The transport line of a SETUP yields its port number as text. */
  lemma {:induction false} TransportPort(port: int)
    ensures ServerWorker.PortOfLine("Transport: RTP/UDP; client_port=" + IntToString(port) + "\r", None)
            == Some(IntToString(port))
  {
    var n := IntToString(port);
    TransportHead();
    assert "Transport: RTP/UDP; client_port=" + n + "\r" == "Transport: RTP/UDP" + "; client_port=" + n + "\r";
    IntToStringPlain(port, ';');
    IntToStringPlain(port, '=');
    PortLine("Transport: RTP/UDP", n);
  }

  lemma {:induction false} TransportHead()
    ensures "Transport: RTP/UDP; client_port=" == "Transport: RTP/UDP" + "; client_port="
    ensures ';' !in "Transport: RTP/UDP" && '_' !in "Transport: RTP/UDP"
  {
  }

  /** A line `head; client_port=n` followed by CR names the port n. */
  lemma {:induction false} PortLine(head: string, n: string)
    requires ';' !in head && '_' !in head && ';' !in n && '=' !in n
    requires |n| > 0 && !IsSpace(n[0]) && !IsSpace(n[|n| - 1])
    ensures var line := head + "; client_port=" + n + "\r";
            && Contains(line, "client_port")
            && ServerWorker.PortOfParts(Split(line, ';'), None) == Some(n)
  {
    var part := " client_port=" + n + "\r";
    var line := head + "; client_port=" + n + "\r";
    PortLiterals();
    assert line == head + [';'] + part;
    SplitTwo(head, part, ';');
    Lacks(head, "client_port", 6);
    PortPart(n);
    ContainsAppend(head + [';'], part, "client_port");
    assert [head, part][1..] == [part];
    assert ServerWorker.PortOfParts([head, part], None) == ServerWorker.PortOfParts([part], None);
  }

  /** The part after the semicolon names the port n. */
  lemma {:induction false} PortPart(n: string)
    requires ';' !in n && '=' !in n
    requires |n| > 0 && !IsSpace(n[0]) && !IsSpace(n[|n| - 1])
    ensures var part := " client_port=" + n + "\r";
            && ';' !in part
            && Contains(part, "client_port")
            && ServerWorker.PortOfParts([part], None) == Some(n)
  {
    PartNamesPort(n);
    PartFields(n);
    StripPadded(n, "\r");
    PartValue(" client_port=" + n + "\r", n);
  }

  lemma {:induction false} PartNamesPort(n: string)
    requires ';' !in n
    ensures var part := " client_port=" + n + "\r";
            ';' !in part && Contains(part, "client_port")
  {
    var part := " client_port=" + n + "\r";
    PortLiterals();
    var rest := ['='] + (n + "\r");
    assert part == [' '] + ("client_port" + rest);
    assert part[1..] == "client_port" + rest;
    ContainsAt(part, "client_port", 1);
  }

  lemma {:induction false} PartFields(n: string)
    requires '=' !in n
    ensures Split(" client_port=" + n + "\r", '=') == [" client_port", n + "\r"]
  {
    PortKey();
    SplitTwo(" client_port", n + "\r", '=');
    assert " client_port=" + n + "\r" == " client_port" + ['='] + (n + "\r");
  }

  lemma {:induction false} PortKey()
    ensures " client_port=" == " client_port" + ['='] && '=' !in " client_port"
  {
  }

  lemma {:induction false} PartValue(part: string, n: string)
    requires Contains(part, "client_port") && Split(part, '=') == [" client_port", n + "\r"]
    requires Strip(n + "\r") == n
    ensures ServerWorker.PortOfParts([part], None) == Some(n)
  {
    PartsStep([part], None);
    assert [part][1..] == [];
  }

  lemma {:induction false} PartsStep(parts: seq<string>, acc: Option<string>)
    requires |parts| > 0 && Contains(parts[0], "client_port") && |Split(parts[0], '=')| >= 2
    ensures ServerWorker.PortOfParts(parts, acc)
            == ServerWorker.PortOfParts(parts[1..], Some(Strip(Split(parts[0], '=')[1])))
  {
  }

  lemma {:induction false} PortLiterals()
    ensures "; client_port=" == [';'] + " client_port="
    ensures " client_port=" == [' '] + "client_port" + ['=']
    ensures ';' !in " client_port=" && '=' !in " client_port"
  {
  }

  /** Of five lines, only the third naming a client port, that port is the
      one recorded. */
  lemma {:induction false} PortScanFive(lines: seq<string>, port: string)
    requires |lines| == 5
    requires ServerWorker.PortOfLine(lines[0], None) == None && ServerWorker.PortOfLine(lines[1], None) == None
    requires ServerWorker.PortOfLine(lines[2], None) == Some(port)
    requires ServerWorker.PortOfLine(lines[3], Some(port)) == Some(port)
    requires ServerWorker.PortOfLine(lines[4], Some(port)) == Some(port)
    ensures ServerWorker.PortScan(lines, None) == Some(port)
  {
    ScanStep(lines, None);
    ScanStep(lines[1..], None);
    ScanStep(lines[2..], None);
    ScanStep(lines[3..], Some(port));
    ScanStep(lines[4..], Some(port));
    assert lines[4..][1..] == [];
  }

  lemma {:induction false} ScanStep(lines: seq<string>, acc: Option<string>)
    requires |lines| > 0
    ensures ServerWorker.PortScan(lines, acc) == ServerWorker.PortScan(lines[1..], ServerWorker.PortOfLine(lines[0], acc))
  {
  }

  // ---------------------------------------------------------------------------
  // Server replies read by the client
  // ---------------------------------------------------------------------------

  /** The lines of a 200 reply. */
  function ReplyLines(cseq: string, session: int): seq<string>
  {
    ["RTSP/1.0 200 OK\r", "CSeq: " + cseq + "\r", "Session: " + IntToString(session) + "\r", "\r", ""]
  }

  /** A 200 reply splits into its five lines when the echoed CSeq has no
      line feed. */
  lemma {:induction false} ReplySplits(cseq: string, session: int)
    requires '\n' !in cseq
    ensures Split(ServerWorker.Reply200(cseq, session), '\n') == ReplyLines(cseq, session)
  {
    var lines := ReplyLines(cseq, session);
    JoinFive(lines, '\n');
    ReplyReassociate(cseq, IntToString(session));
    IntToStringPlain(session, '\n');
    ReplyLinesFree(cseq, IntToString(session));
    SplitJoin(lines, '\n');
  }

  lemma {:induction false} ReplyReassociate(cseq: string, session: string)
    ensures "RTSP/1.0 200 OK\r\nCSeq: " + cseq + "\r\nSession: " + session + "\r\n\r\n"
         == "RTSP/1.0 200 OK\r" + "\n"
              + (("CSeq: " + cseq + "\r") + "\n" + (("Session: " + session + "\r") + "\n" + ("\r" + "\n" + "")))
  {
    ReplyLiterals();
    var tail := ("Session: " + session + "\r") + "\n" + ("\r" + "\n" + "");
    assert "\r\nSession: " + session + "\r\n\r\n" == "\r" + "\n" + tail;
  }

  lemma {:induction false} ReplyLiterals()
    ensures "RTSP/1.0 200 OK\r\nCSeq: " == "RTSP/1.0 200 OK\r" + "\n" + "CSeq: "
    ensures "\r\nSession: " == "\r" + "\n" + "Session: "
    ensures "\r\n\r\n" == "\r" + "\n" + ("\r" + "\n" + "")
  {
  }

  lemma {:induction false} ReplyLinesFree(cseq: string, session: string)
    requires '\n' !in cseq && '\n' !in session
    ensures '\n' !in "RTSP/1.0 200 OK\r" && '\n' !in "CSeq: " + cseq + "\r"
    ensures '\n' !in "Session: " + session + "\r"
  {
  }

  /** `str(200)` is "200". */
  lemma {:induction false} TwoHundred()
    ensures IntToString(200) == "200"
  {
    assert NatToString(2) == "2";
    assert NatToString(20) == "20";
  }

  /** The status line reads as status 200. */
  lemma {:induction false} StatusWords()
    ensures Split("RTSP/1.0 200 OK\r", ' ') == ["RTSP/1.0", "200", "OK\r"]
    ensures ParseInt("200") == Some(200)
  {
    assert "RTSP/1.0 200 OK\r" == "RTSP/1.0" + [' '] + "200" + [' '] + "OK\r";
    SplitThree("RTSP/1.0", "200", "OK\r", ' ');
    TwoHundred();
    ParseIntOfString(200, "");
    assert "200" + "" == "200";
  }

  /** A line `tag rest` splits at its only space. */
  lemma {:induction false} TagWords(tag: string, rest: string)
    requires ' ' !in tag && ' ' !in rest
    ensures Split(tag + " " + rest, ' ') == [tag, rest]
  {
    SplitTwo(tag, rest, ' ');
  }

  /** The client reads back the three numbers of the server's reply to a
      request with counter cseq: status 200, the counter (behind the doubled
      carriage return the echo produces) and the session id. */
  lemma {:induction false} ReadReplyOf(cseq: int, session: int)
    ensures RtspClient.ReadReply(ServerWorker.Reply200(IntToString(cseq) + "\r", session))
            == RtspClient.Reply(Some(200), Some(cseq), Some(session))
  {
    var echo := IntToString(cseq) + "\r";
    var data := ServerWorker.Reply200(echo, session);
    var lines := ReplyLines(echo, session);
    IntToStringPlain(cseq, '\n');
    ReplySplits(echo, session);
    StatusWords();
    FieldOfLine(data, lines, 0);
    CSeqReplyLine(cseq);
    FieldOfLine(data, lines, 1);
    SessionReplyLine(session);
    FieldOfLine(data, lines, 2);
  }

  /** Field k of a reply is read from its line k. */
  lemma {:induction false} FieldOfLine(data: string, lines: seq<string>, k: nat)
    requires Split(data, '\n') == lines && k < |lines|
    ensures RtspClient.IntField(data, k)
            == var w := Split(lines[k], ' '); if |w| < 2 then None else ParseInt(w[1])
  {
  }

  lemma {:induction false} CSeqReplyLine(cseq: int)
    ensures var w := Split("CSeq: " + (IntToString(cseq) + "\r") + "\r", ' ');
            |w| >= 2 && ParseInt(w[1]) == Some(cseq)
  {
    var n := IntToString(cseq);
    IntToStringPlain(cseq, ' ');
    assert "CSeq: " + (n + "\r") + "\r" == "CSeq:" + " " + (n + "\r\r");
    TagWords("CSeq:", n + "\r\r");
    ParseIntOfString(cseq, "\r\r");
  }

  lemma {:induction false} SessionReplyLine(session: int)
    ensures var w := Split("Session: " + IntToString(session) + "\r", ' ');
            |w| >= 2 && ParseInt(w[1]) == Some(session)
  {
    var n := IntToString(session);
    IntToStringPlain(session, ' ');
    assert "Session: " + n + "\r" == "Session:" + " " + (n + "\r");
    TagWords("Session:", n + "\r");
    ParseIntOfString(session, "\r");
  }

  // ---------------------------------------------------------------------------
  // The two state machines in step
  // ---------------------------------------------------------------------------

  /** Client and server agree on the state, and the client holds the
      server's session id (0 before the first SETUP). */
  predicate InStep(c: RtspClient.Client, w: ServerWorker.Worker)
  {
    && c.state == w.state
    && c.sessionId == (if w.session.Some? then w.session.value else 0)
  }

  /** A new client and a new worker start in step. */
  lemma {:induction false} StartInStep(fileName: string, rtpPort: int)
    ensures InStep(RtspClient.New(fileName, rtpPort), ServerWorker.Initial())
  {
  }

  /** One exchange: the client issues request m, the server processes the
      text, and the client parses the reply. When the client may send m, the
      server honours it (a SETUP finds its file and is the first; a TEARDOWN
      comes after a PLAY), and both ends move to the target state of m and
      stay in step. */
  lemma {:induction false} Exchange(c: RtspClient.Client, w: ServerWorker.Worker, m: Method, media: Option<Bytes>, draw: int)
    requires ServerWorker.Valid(w) && ServerWorker.SessionIdRange(draw) && InStep(c, w)
    requires Allowed(m, c.state)
    requires m == Setup ==> media.Some? && w.session.None?
    requires m == Teardown ==> w.hasEvent
    requires '\n' !in c.fileName && ' ' !in c.fileName
    ensures var sent := RtspClient.Issue(c, m);
            var o := ServerWorker.ProcessRequest(w, sent.request.value, media, draw);
            && o.reply.Some?
            && var c2 := RtspClient.ParseReply(sent.client, o.reply.value);
               c2.state == Target(m) && o.worker.state == Target(m) && InStep(c2, o.worker)
  {
    var sent := RtspClient.Issue(c, m);
    var n := c.rtspSeq + 1;
    var data := sent.request.value;
    assert data == RtspClient.RequestText(c, m, n);
    CommandOfRequest(c, m, n);
    EchoOfRequest(c, m, n);
    var o := ServerWorker.ProcessRequest(w, data, media, draw);
    assert o.reply.Some?;
    var session := o.worker.session.value;
    ReadReplyOf(n, session);
    var reply := RtspClient.Reply(Some(200), Some(n), Some(session));
    assert RtspClient.ReadReply(o.reply.value) == reply;
    assert session == if m == Setup then draw else w.session.value;
    assert RtspClient.Accepted(sent.client, reply);
  }

  /** After a TEARDOWN the client keeps the old session id, so the reply to
      a new SETUP, which carries a freshly drawn one, fails the session
      check: the server is READY while the client stays in INIT. The worker
      answering may be a new one (the client closes its control connection
      once TEARDOWN is acknowledged) or the one that was torn down. */
  lemma {:induction false} ResetupOutOfStep(c: RtspClient.Client, w: ServerWorker.Worker, media: Option<Bytes>, draw: int)
    requires ServerWorker.Valid(w) && ServerWorker.SessionIdRange(draw)
    requires w.state == Init && media.Some?
    requires c.state == Init && c.sessionId != 0 && c.sessionId != draw
    requires '\n' !in c.fileName && ' ' !in c.fileName
    ensures var sent := RtspClient.Issue(c, Setup);
            var o := ServerWorker.ProcessRequest(w, sent.request.value, media, draw);
            && o.reply.Some? && o.worker.state == Ready
            && RtspClient.ParseReply(sent.client, o.reply.value).state == Init
  {
    var sent := RtspClient.Issue(c, Setup);
    var n := c.rtspSeq + 1;
    var data := sent.request.value;
    assert data == RtspClient.RequestText(c, Setup, n);
    CommandOfRequest(c, Setup, n);
    EchoOfRequest(c, Setup, n);
    var o := ServerWorker.ProcessRequest(w, data, media, draw);
    ReadReplyOf(n, draw);
  }

  // ---------------------------------------------------------------------------
  // Packets from the sender through the listener
  // ---------------------------------------------------------------------------

  /** The frames the sending loop transmits: the results before the first
      empty one. */
  function SentFrames(frames: seq<Option<Bytes>>): (r: seq<Bytes>)
    ensures |r| == ServerWorker.SendableCount(frames)
    ensures forall j :: 0 <= j < |r| ==> r[j] == frames[j].value
  {
    var n := ServerWorker.SendableCount(frames);
    seq(n, j requires 0 <= j < n => frames[j].value)
  }

  lemma {:induction false} JoinPayloadsAppend(a: seq<Bytes>, b: seq<Bytes>)
    ensures ServerWorker.JoinPayloads(a + b) == ServerWorker.JoinPayloads(a) + ServerWorker.JoinPayloads(b)
    decreases |a|
  {
    if |a| > 0 {
      assert (a + b)[1..] == a[1..] + b;
      JoinPayloadsAppend(a[1..], b);
    } else {
      assert a + b == b;
    }
  }

  /** Bursts that each carry one frame carry, together, the frames one
      after another. */
  lemma {:induction false} PayloadsOfBursts(bursts: seq<seq<Bytes>>, frames: seq<Bytes>)
    requires |bursts| == |frames|
    requires forall j :: 0 <= j < |bursts| ==> ServerWorker.JoinPayloads(bursts[j]) == frames[j]
    ensures ServerWorker.JoinPayloads(Flatten(bursts)) == Flatten(frames)
    decreases |bursts|
  {
    if |bursts| > 0 {
      PayloadsOfBursts(bursts[1..], frames[1..]);
      JoinPayloadsAppend(bursts[0], Flatten(bursts[1..]));
    }
  }

  /** The packets of a PLAY carry the transmitted frames back to back. */
  lemma {:induction false} StreamCarriesFrames(frames: seq<Option<Bytes>>, clock: seq<int>)
    requires |clock| >= |frames|
    ensures var ds := Flatten(ServerWorker.SendRtp(frames, clock, true));
            && RtpPacket.Numbered(ds, 0)
            && ServerWorker.JoinPayloads(ds) == Flatten(SentFrames(frames))
  {
    var bursts := ServerWorker.SendRtp(frames, clock, true);
    var sent := SentFrames(frames);
    forall j | 0 <= j < |bursts| ensures ServerWorker.JoinPayloads(bursts[j]) == sent[j] {
      assert ServerWorker.FrameBurst(bursts[j], frames[j].value, clock[j]);
    }
    PayloadsOfBursts(bursts, sent);
  }

  /** With the corrected listener every packet of a PLAY reaches the frame
      callback, so the client receives every transmitted frame byte, in
      order. */
  lemma {:induction false} StreamArrives(frames: seq<Option<Bytes>>, clock: seq<int>, exitOnError: bool)
    requires |clock| >= |frames|
    ensures var ds := Flatten(ServerWorker.SendRtp(frames, clock, true));
            && RtspClient.ListenSerial(None, ds, exitOnError).kept == ds
            && ServerWorker.JoinPayloads(ds) == Flatten(SentFrames(frames))
  {
    var ds := Flatten(ServerWorker.SendRtp(frames, clock, true));
    StreamCarriesFrames(frames, clock);
    RtspClient.SerialFirstPacketKept(ds, exitOnError);
  }

  /** With the listener as written, the first packet of the first PLAY is
      dropped: the client receives the transmitted bytes minus the first
      fragment of the first frame, which holds between 1 and 1400 bytes. */
  lemma {:induction false} StreamLosesFirstFragment(frames: seq<Option<Bytes>>, clock: seq<int>, exitOnError: bool)
    requires |clock| >= |frames| && ServerWorker.SendableCount(frames) > 0
    requires |Flatten(ServerWorker.SendRtp(frames, clock, true))| <= 0x1_0000
    ensures var ds := Flatten(ServerWorker.SendRtp(frames, clock, true));
            && |ds| > 0
            && RtspClient.ListenRtp(0, ds, exitOnError).kept == ds[1..]
            && var lost := |ServerWorker.PayloadOf(ds[0])|;
               && 1 <= lost <= ServerWorker.MAX_RTP_PAYLOAD
               && ServerWorker.JoinPayloads(ds[1..]) == Flatten(SentFrames(frames))[lost..]
  {
    var bursts := ServerWorker.SendRtp(frames, clock, true);
    var ds := Flatten(bursts);
    StreamCarriesFrames(frames, clock);
    assert ServerWorker.FrameBurst(bursts[0], frames[0].value, clock[0]);
    FirstBurstLeads(bursts);
    RtspClient.FirstPacketDropped(ds, exitOnError);
  }

  /** A non-empty first burst that fits leads the flattened run. */
  lemma {:induction false} FirstBurstLeads(bursts: seq<seq<Bytes>>)
    requires |bursts| > 0 && |bursts[0]| > 0 && ServerWorker.PayloadsFit(bursts[0])
    ensures |Flatten(bursts)| > 0 && Flatten(bursts)[0] == bursts[0][0]
    ensures 1 <= |ServerWorker.PayloadOf(Flatten(bursts)[0])| <= ServerWorker.MAX_RTP_PAYLOAD
  {
  }
}
