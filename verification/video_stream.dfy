/** The server's frame source: a file read frame by frame, either in the
    length-prefixed format (each frame preceded by its length as 5 or 6 ASCII
    digits) or as concatenated JPEG images delimited by their SOI (FF D8) and
    EOI (FF D9) markers. The open file is its contents plus a cursor. */
module VideoStream {
  import opened Wrappers
  import opened Octets
  import opened ByteValues
  import Text

  /** The file-mode string: "UNKNOWN" (empty file), "PROPRIETARY" (length
      prefixes) or "STANDARD" (marker scanning). */
  datatype Mode = Unknown | Proprietary | Standard

  /** An open frame file: its bytes, the read cursor, the count of frames
      returned so far, the detected mode and the length-prefix width. */
  datatype Stream = Stream(file: Bytes, pos: nat, frameNum: nat, mode: Mode, headerSize: nat)
  {
    predicate Valid()
    {
      pos <= |file| && (headerSize == 5 || headerSize == 6)
    }

    /** `frameNbr()`. */
    function FrameNbr(): nat
    {
      frameNum
    }
  }

  /** One call of `nextFrame()`: the frame (None at the end), and the stream
      after the call. */
  datatype Read = Read(frame: Option<Bytes>, next: Stream)

  const MARKER_PREFIX: Byte := 0xFF
  const SOI: Byte := 0xD8
  const EOI: Byte := 0xD9

  /** An ASCII decimal digit, as `bytes.isdigit()` and `str.isdigit()` on
      ASCII text decide it. A byte of 0x80 or more fails ASCII decoding, which
      the source treats the same as a non-digit. */
  predicate IsDigitByte(b: Byte)
  {
    0x30 <= b <= 0x39
  }

  predicate AllDigitBytes(bs: Bytes)
  {
    forall i :: 0 <= i < |bs| ==> IsDigitByte(bs[i])
  }

  /** The number `int(header)` gives for a header of ASCII digits. */
  function DigitBytesValue(bs: Bytes): nat
    requires AllDigitBytes(bs)
  {
    if |bs| == 0 then 0 else DigitBytesValue(bs[..|bs| - 1]) * 10 + (bs[|bs| - 1] - 0x30) as int
  }

  // ---------------------------------------------------------------------------
  // Opening: mode detection
  // ---------------------------------------------------------------------------

  /** `VideoStream(filename)` on a file that opened: peek at the first five
      bytes to choose the mode and, in the length-prefixed mode, at the sixth
      byte to choose the prefix width. The cursor stays at 0. */
  function Open(file: Bytes): (s: Stream)
    ensures s.Valid() && s.file == file && s.pos == 0 && s.frameNum == 0
    ensures s.mode == Unknown <==> |file| == 0
    ensures s.mode == Proprietary <==> |file| > 0 && AllDigitBytes(file[..Min(5, |file|)])
    ensures s.headerSize == 6 <==> s.mode == Proprietary && |file| >= 6 && IsDigitByte(file[5])
  {
    var chunk := file[..Min(5, |file|)];
    if |chunk| == 0 then Stream(file, 0, 0, Unknown, 5)
    else if AllDigitBytes(chunk) then Stream(file, 0, 0, Proprietary, DetectHeaderSize(file))
    else Stream(file, 0, 0, Standard, 5)
  }

  /** `_detect_header_size`: 6 when the sixth byte exists and is a digit. */
  function DetectHeaderSize(file: Bytes): (h: nat)
    ensures h == 5 || h == 6
  {
    if |file| >= 6 && IsDigitByte(file[5]) then 6 else 5
  }

  // ---------------------------------------------------------------------------
  // Marker scanning
  // ---------------------------------------------------------------------------

  /** An SOI marker (FF D8) starts at offset i. */
  predicate SoiAt(f: Bytes, i: int)
  {
    0 <= i && i + 1 < |f| && f[i] == MARKER_PREFIX && f[i + 1] == SOI
  }

  /** The first loop of `_read_standard_frame`, byte by byte from offset i:
      an FF followed by D8 is the SOI; an FF followed by FF steps back one
      byte so the second FF is looked at again; any other pair is skipped.
      None when the file ends first. The result is the offset of the first
      SOI at or after i. */
  function SeekSoi(f: Bytes, i: nat): (r: Option<nat>)
    requires i <= |f|
    ensures r.Some? ==> i <= r.value && SoiAt(f, r.value)
    ensures r.Some? ==> forall k :: i <= k < r.value ==> !SoiAt(f, k)
    ensures r.None? ==> forall k :: i <= k < |f| ==> !SoiAt(f, k)
    decreases |f| - i
  {
    if i >= |f| then None
    else if f[i] != MARKER_PREFIX then SeekSoi(f, i + 1)
    else if i + 1 >= |f| then None
    else if f[i + 1] == SOI then Some(i)
    else if f[i + 1] == MARKER_PREFIX then SeekSoi(f, i + 1)
    else SeekSoi(f, i + 2)
  }

  /** A marker that ends the body scan starts at j: FF D9 (the frame's EOI)
      or FF D8 (the SOI of the next frame). */
  predicate TerminatorAt(f: Bytes, j: int)
  {
    0 <= j && j + 1 < |f| && f[j] == MARKER_PREFIX && (f[j + 1] == EOI || f[j + 1] == SOI)
  }

  /** The body scan gets from offset k to offset j without meeting a
      terminator: it steps over single bytes other than FF and over pairs of
      FF and a byte that is neither D8 nor D9, and lands exactly on j. */
  predicate Unterminated(f: Bytes, k: nat, j: nat)
    decreases |f| - k
  {
    if j <= k || |f| <= k then k == j && j <= |f|
    else if f[k] != MARKER_PREFIX then Unterminated(f, k + 1, j)
    else k + 1 < |f| && f[k + 1] != EOI && f[k + 1] != SOI && Unterminated(f, k + 2, j)
  }

  /** The body scan from k ends the frame at e: after an FF D9 it reached,
      or before an FF D8 it reached. */
  predicate EndsBody(f: Bytes, k: nat, e: nat)
  {
    && e <= |f|
    && ((e >= k + 2 && Unterminated(f, k, e - 2) && f[e - 2] == MARKER_PREFIX && f[e - 1] == EOI)
        || (Unterminated(f, k, e) && SoiAt(f, e)))
  }

  /** The body scan from k reaches no terminator before the file ends. */
  predicate NoTerminatorFrom(f: Bytes, k: nat)
  {
    forall j: nat :: j <= |f| && Unterminated(f, k, j) ==> !TerminatorAt(f, j)
  }

  /** i is the first SOI at or after p. */
  predicate FirstSoi(f: Bytes, p: nat, i: nat)
  {
    p <= i && SoiAt(f, i) && forall k :: p <= k < i ==> !SoiAt(f, k)
  }

  /** The second loop of `_read_standard_frame` from offset k: every byte read
      is appended to the frame; an FF is read together with the byte after
      it. FF D9 ends the frame after the D9; FF D8 ends it before the FF and
      steps the cursor back so that SOI starts the next frame. None when the
      file ends first. The result is the offset where the frame ends, which
      is also where the cursor is left. */
  function ScanBody(f: Bytes, k: nat): (r: Option<nat>)
    requires k <= |f|
    // the frame ends at the terminator the scan reaches ...
    ensures r.Some? ==> k <= r.value && EndsBody(f, k, r.value)
    // ... and there is none only when the file ends first
    ensures r.None? ==> NoTerminatorFrom(f, k)
    decreases |f| - k
  {
    if k >= |f| then None
    else if f[k] != MARKER_PREFIX then ScanBody(f, k + 1)
    else if k + 1 >= |f| then None
    else if f[k + 1] == EOI then Some(k + 2)
    else if f[k + 1] == SOI then Some(k)
    else ScanBody(f, k + 2)
  }

  /** Along one scan, a terminator can only be where the scan ends: an
      offset passed on the way to a later one is not a terminator. */
  lemma {:induction false} PassedNotTerminator(f: Bytes, k: nat, i: nat, j: nat)
    requires Unterminated(f, k, i) && Unterminated(f, k, j) && i < j
    ensures !TerminatorAt(f, i)
    decreases |f| - k
  {
    if k < i {
      if f[k] != MARKER_PREFIX {
        PassedNotTerminator(f, k + 1, i, j);
      } else {
        PassedNotTerminator(f, k + 2, i, j);
      }
    }
  }

  /** The body scan stops at the first terminator: whichever terminator the
      scan reaches is the one where the frame ends. */
  lemma {:induction false} ScanStopsAtFirst(f: Bytes, k: nat, j: nat)
    requires k <= |f| && Unterminated(f, k, j) && TerminatorAt(f, j)
    ensures ScanBody(f, k) == Some(if f[j + 1] == EOI then j + 2 else j)
  {
    var r := ScanBody(f, k);
    assert !NoTerminatorFrom(f, k) by {
      assert j <= |f| && Unterminated(f, k, j) && TerminatorAt(f, j);
    }
    var t := if r.value >= k + 2 && Unterminated(f, k, r.value - 2)
                && f[r.value - 2] == MARKER_PREFIX && f[r.value - 1] == EOI
             then r.value - 2 else r.value;
    assert Unterminated(f, k, t) && TerminatorAt(f, t);
    if j < t {
      PassedNotTerminator(f, k, j, t);
    } else if t < j {
      PassedNotTerminator(f, k, t, j);
    }
  }

  /** `_read_standard_frame` once the SOI is found at offset i: the bytes from
      the SOI up to and including the following EOI, or up to (not
      including) the following SOI. At the end of the file the partial frame
      is discarded and the cursor is left at the end. */
  function ScanFrame(s: Stream, i: nat): (r: Read)
    requires s.Valid() && s.pos <= i && SoiAt(s.file, i)
    ensures r.next == s.(pos := r.next.pos, frameNum := r.next.frameNum)
    ensures r.next.Valid() && r.next.pos >= i
    ensures r.next.frameNum == s.frameNum + (if r.frame.Some? then 1 else 0)
    ensures r.frame.None? ==> r.next.pos == |s.file|
    // the frame is the file from the SOI on, up to the first terminator the body scan reaches
    ensures r.frame.Some? ==>
              && i + 2 <= r.next.pos <= |s.file| && r.frame.value == s.file[i..r.next.pos]
              && EndsBody(s.file, i + 2, r.next.pos)
    // no frame exactly when the scan reaches no terminator
    ensures r.frame.None? <==> NoTerminatorFrom(s.file, i + 2)
  {
    match ScanBody(s.file, i + 2)
    case None => Read(None, s.(pos := |s.file|))
    case Some(e) =>
      EndsNotNone(s.file, i + 2, e);
      Read(Some(s.file[i..e]), s.(pos := e, frameNum := s.frameNum + 1))
  }

  /** A scan that ends a frame does reach a terminator. */
  lemma {:induction false} EndsNotNone(f: Bytes, k: nat, e: nat)
    requires EndsBody(f, k, e)
    ensures !NoTerminatorFrom(f, k)
  {
    var t := if e >= k + 2 && Unterminated(f, k, e - 2) && f[e - 2] == MARKER_PREFIX && f[e - 1] == EOI
             then e - 2 else e;
    assert Unterminated(f, k, t) && TerminatorAt(f, t);
  }

  /** `_read_standard_frame`: find the first SOI at or after the cursor and
      scan the frame that starts there. */
  function ReadStandard(s: Stream): (r: Read)
    requires s.Valid()
    ensures r.next == s.(pos := r.next.pos, frameNum := r.next.frameNum)
    ensures r.next.Valid() && r.next.pos >= s.pos
    ensures r.next.frameNum == s.frameNum + (if r.frame.Some? then 1 else 0)
    ensures r.frame.None? ==> r.next.pos == |s.file|
    // the frame starts at the first SOI at or after the cursor and ends at
    // the first terminator the body scan reaches after it
    ensures r.frame.Some? ==>
              var i := r.next.pos - |r.frame.value|;
              && 0 <= i && FirstSoi(s.file, s.pos, i) && r.frame.value == s.file[i..r.next.pos]
              && EndsBody(s.file, i + 2, r.next.pos)
    // no frame exactly when there is no SOI, or the scan after it reaches no terminator
    ensures r.frame.None? <==>
              || (forall k :: s.pos <= k < |s.file| ==> !SoiAt(s.file, k))
              || (SeekSoi(s.file, s.pos).Some? && NoTerminatorFrom(s.file, SeekSoi(s.file, s.pos).value + 2))
  {
    match SeekSoi(s.file, s.pos)
    case None => Read(None, s.(pos := |s.file|))
    case Some(i) => ScanFrame(s, i)
  }

  // ---------------------------------------------------------------------------
  // Length prefixes
  // ---------------------------------------------------------------------------

  /** The prefix bytes as the ASCII text they spell. */
  function AsciiText(bs: Bytes): (t: string)
    ensures |t| == |bs| && forall i :: 0 <= i < |bs| ==> t[i] as int == bs[i] as int
  {
    seq(|bs|, i requires 0 <= i < |bs| => (bs[i] as int) as char)
  }

  /** `int(data)` on the prefix bytes. It accepts what `int()` accepts on the
      same text as a str (surrounding whitespace, a sign, decimal digits), with
      two differences for bytes: a byte of 0x80 or more raises ValueError, and
      so do the separators 1C..1F, which are whitespace only to `str`. */
  function PrefixValue(header: Bytes): Option<int>
  {
    if forall i :: 0 <= i < |header| ==> header[i] < 0x1C || 0x20 <= header[i] < 0x80
    then Text.ParseInt(AsciiText(header))
    else None
  }

  /** The prefix the read is at, when a whole one is left. */
  function PrefixAt(s: Stream): Option<int>
    requires s.Valid()
  {
    if |s.file| - s.pos < s.headerSize then None else PrefixValue(s.file[s.pos..s.pos + s.headerSize])
  }

  /** `_read_proprietary_frame`: read the length prefix; if fewer bytes than
      the prefix width remain, the read consumes them and returns None. A
      prefix `int()` reads as n >= 0 announces the frame length and the frame
      is that many bytes, or fewer at the end of the file; -1 makes `read`
      return the rest of the file. A prefix that `int()` rejects, or a
      length below -1 that `read` rejects with ValueError, switches the stream
      to marker scanning for good and rescans from the start of that prefix. */
  function ReadProprietary(s: Stream): (r: Read)
    requires s.Valid()
    ensures r.next.Valid() && r.next.file == s.file && r.next.pos >= s.pos
    ensures r.next.frameNum == s.frameNum + (if r.frame.Some? then 1 else 0)
    ensures |s.file| - s.pos < s.headerSize ==> r.frame.None? && r.next == s.(pos := |s.file|)
    // a length n >= 0: the n bytes after the prefix, or as many as are
    // left; a length of -1: everything after the prefix
    ensures PrefixAt(s).Some? && PrefixAt(s).value >= -1 ==>
              && r.next == s.(pos := r.next.pos, frameNum := s.frameNum + 1)
              && r.frame.Some?
              && r.next.pos == s.pos + s.headerSize + |r.frame.value| <= |s.file|
              && r.frame.value == s.file[s.pos + s.headerSize..r.next.pos]
              && (PrefixAt(s).value >= 0 ==> |r.frame.value| == Min(PrefixAt(s).value, |s.file| - s.pos - s.headerSize))
              && (PrefixAt(s).value == -1 ==> r.next.pos == |s.file|)
    // no usable length: marker scanning from the prefix on, in STANDARD mode from now on
    ensures |s.file| - s.pos >= s.headerSize && (PrefixAt(s).None? || PrefixAt(s).value < -1) ==>
              r == ReadStandard(s.(mode := Standard))
  {
    if |s.file| - s.pos < s.headerSize then Read(None, s.(pos := |s.file|))
    else
      var n := PrefixAt(s);
      if n.None? || n.value < -1 then ReadStandard(s.(mode := Standard))
      else ReadLength(s, n.value)
  }

  /** The frame after a prefix announcing length n: `file.read(n)`, which for
      n >= 0 reads at most n bytes and for -1 reads to the end. */
  function ReadLength(s: Stream, n: int): (r: Read)
    requires s.Valid() && s.pos + s.headerSize <= |s.file| && n >= -1
    ensures r.next == s.(pos := r.next.pos, frameNum := s.frameNum + 1) && r.next.Valid()
    ensures r.frame.Some? && r.next.pos == s.pos + s.headerSize + |r.frame.value|
    ensures r.frame.value == s.file[s.pos + s.headerSize..r.next.pos]
    ensures n >= 0 ==> |r.frame.value| == Min(n, |s.file| - s.pos - s.headerSize)
    ensures n == -1 ==> r.next.pos == |s.file|
  {
    var start := s.pos + s.headerSize;
    if n == -1 then Read(Some(s.file[start..]), s.(pos := |s.file|, frameNum := s.frameNum + 1))
    else
      var end := Min(start + n, |s.file|);
      Read(Some(s.file[start..end]), s.(pos := end, frameNum := s.frameNum + 1))
  }

  /** A prefix of ASCII digits reads as the number they spell. */
  lemma {:induction false} PrefixOfDigits(header: Bytes)
    requires |header| > 0 && AllDigitBytes(header)
    ensures PrefixValue(header) == Some(DigitBytesValue(header))
  {
    var t := AsciiText(header);
    DigitsText(header);
    Text.ParseDigits(t);
    assert PrefixValue(header) == Text.ParseInt(t) by {
      forall i | 0 <= i < |header|
        ensures header[i] < 0x1C || 0x20 <= header[i] < 0x80
      {
        assert IsDigitByte(header[i]);
      }
    }
  }

  lemma {:induction false} DigitsText(bs: Bytes)
    requires AllDigitBytes(bs)
    ensures Text.AllDigits(AsciiText(bs)) && Text.DigitsValue(AsciiText(bs)) == DigitBytesValue(bs)
    decreases |bs|
  {
    if |bs| > 0 {
      var init := bs[..|bs| - 1];
      assert AsciiText(bs)[..|bs| - 1] == AsciiText(init);
      DigitsText(init);
    }
  }

  // ---------------------------------------------------------------------------
  // The public operations
  // ---------------------------------------------------------------------------

  /** `nextFrame()`: length-prefixed reading in PROPRIETARY mode, marker
      scanning otherwise (UNKNOWN included). */
  function NextFrame(s: Stream): (r: Read)
    requires s.Valid()
    ensures r.next.Valid() && r.next.file == s.file && r.next.pos >= s.pos
    ensures r.next.frameNum == s.frameNum + (if r.frame.Some? then 1 else 0)
    ensures r.frame.Some? ==> r.next.pos > s.pos
  {
    if s.mode == Proprietary then ReadProprietary(s) else ReadStandard(s)
  }

  /** `reset()`: rewind to the first byte and restart the frame count. The
      detected mode and prefix width are kept. */
  function Reset(s: Stream): (r: Stream)
    ensures r.pos == 0 && r.FrameNbr() == 0
    ensures r.file == s.file && r.mode == s.mode && r.headerSize == s.headerSize
    ensures s.Valid() ==> r.Valid()
  {
    s.(pos := 0, frameNum := 0)
  }

  /** n successive `nextFrame()` calls. */
  function ReadN(s: Stream, n: nat): (r: seq<Option<Bytes>>)
    requires s.Valid()
    ensures |r| == n
    decreases n
  {
    if n == 0 then [] else [NextFrame(s).frame] + ReadN(NextFrame(s).next, n - 1)
  }

  /** The stream after n successive `nextFrame()` calls. */
  function AfterN(s: Stream, n: nat): (r: Stream)
    requires s.Valid()
    ensures r.Valid() && r.file == s.file
    decreases n
  {
    if n == 0 then s else AfterN(NextFrame(s).next, n - 1)
  }

  /** Whether the sender transmits a frame: Python's truth value of the
      result, so both None and an empty byte string end the stream. */
  predicate Sendable(frame: Option<Bytes>)
  {
    frame.Some? && |frame.value| > 0
  }

  /** The frames the server's sending loop takes from the stream when it runs
      for at most n rounds: it stops after the first result that is not
      sendable, which is included. */
  datatype Pulled = Pulled(frames: seq<Option<Bytes>>, next: Stream)

  function Pull(s: Stream, n: nat): (r: Pulled)
    requires s.Valid()
    ensures r.next.Valid() && r.next.file == s.file
    ensures |r.frames| <= n
    ensures forall k :: 0 <= k < |r.frames| - 1 ==> Sendable(r.frames[k])
    ensures |r.frames| < n ==> |r.frames| > 0 && !Sendable(r.frames[|r.frames| - 1])
    // the frames are those of successive `nextFrame()` calls, and the stream is left after them
    ensures r.frames == ReadN(s, |r.frames|) && r.next == AfterN(s, |r.frames|)
    decreases n
  {
    if n == 0 then Pulled([], s)
    else
      var rd := NextFrame(s);
      if !Sendable(rd.frame) then Pulled([rd.frame], rd.next)
      else
        var rest := Pull(rd.next, n - 1);
        Pulled([rd.frame] + rest.frames, rest.next)
  }

  // ---------------------------------------------------------------------------
  // The file format the converter writes
  // ---------------------------------------------------------------------------

  /** The last w decimal digits of n as ASCII bytes, most significant first. */
  function DecimalBytes(n: nat, w: nat): (r: Bytes)
    ensures |r| == w && AllDigitBytes(r)
    decreases w
  {
    if w == 0 then []
    else
      var digit := (0x30 + n % 10) as bv8;
      DigitByte(n % 10);
      var r := DecimalBytes(n / 10, w - 1) + [digit];
      assert forall i :: 0 <= i < w - 1 ==> r[i] == DecimalBytes(n / 10, w - 1)[i];
      r
  }

  function Pow10(w: nat): (p: nat)
    ensures p >= 1
  {
    if w == 0 then 1 else 10 * Pow10(w - 1)
  }

  lemma {:induction false} DecimalBytesValue(n: nat, w: nat)
    ensures DigitBytesValue(DecimalBytes(n, w)) == n % Pow10(w)
    decreases w
  {
    if w > 0 {
      var r := DecimalBytes(n, w);
      var rest := DigitBytesValue(DecimalBytes(n / 10, w - 1));
      assert DigitBytesValue(r) == rest * 10 + n % 10 by {
        assert r[..w - 1] == DecimalBytes(n / 10, w - 1);
        assert (r[w - 1] - 0x30) as int == n % 10 by {
          DigitByte(n % 10);
        }
      }
      assert rest == (n / 10) % Pow10(w - 1) by {
        DecimalBytesValue(n / 10, w - 1);
      }
      ModSplit(n, 10, Pow10(w - 1));
    }
  }

  /** `str(size).zfill(6).encode()` for a size below one million. */
  function LengthHeader(size: nat): (r: Bytes)
    requires size < 1_000_000
    ensures |r| == 6 && AllDigitBytes(r) && DigitBytesValue(r) == size
  {
    var r := DecimalBytes(size, 6);
    assert DigitBytesValue(r) == size by {
      DecimalBytesValue(size, 6);
      Pow10Six();
      ModUnique(size, 1_000_000, 0, size);
    }
    r
  }

  lemma {:induction false} Pow10Six()
    ensures Pow10(6) == 1_000_000
  {
    assert Pow10(3) == 1000;
    assert Pow10(6) == 1000 * Pow10(3);
  }

  predicate FramesFit(frames: seq<Bytes>)
  {
    forall k :: 0 <= k < |frames| ==> |frames[k]| < 1_000_000
  }

  /** The file the converter writes: every frame preceded by its six-digit
      length. */
  function Pack(frames: seq<Bytes>): Bytes
    requires FramesFit(frames)
  {
    if |frames| == 0 then [] else LengthHeader(|frames[0]|) + frames[0] + Pack(frames[1..])
  }

  /** A packed file of at least one frame opens in the length-prefixed mode
      with six-digit prefixes. */
  lemma {:induction false} OpenPacked(frames: seq<Bytes>)
    requires FramesFit(frames) && |frames| > 0
    ensures Open(Pack(frames)).mode == Proprietary && Open(Pack(frames)).headerSize == 6
  {
    PackCons(frames);
    OpenDigits(Pack(frames), LengthHeader(|frames[0]|), frames[0] + Pack(frames[1..]));
  }

  /** A file that starts with six ASCII digits opens in the length-prefixed
      mode with six-digit prefixes. */
  lemma {:induction false} OpenDigits(f: Bytes, h: Bytes, tail: Bytes)
    requires f == h + tail && |h| == 6 && AllDigitBytes(h)
    ensures Open(f).mode == Proprietary && Open(f).headerSize == 6
  {
    assert AllDigitBytes(f[..5]) by {
      forall i | 0 <= i < 5
        ensures IsDigitByte(f[..5][i])
      {
        assert f[..5][i] == h[i];
      }
    }
    assert IsDigitByte(f[5]) by {
      assert f[5] == h[5];
    }
    assert Min(5, |f|) == 5;
  }

  function Somes(frames: seq<Bytes>): (r: seq<Option<Bytes>>)
    ensures |r| == |frames|
    ensures forall k :: 0 <= k < |r| ==> r[k] == Some(frames[k])
  {
    if |frames| == 0 then [] else [Some(frames[0])] + Somes(frames[1..])
  }

  /** One length-prefixed read over a packed tail returns its first frame
      and leaves the cursor at the packed rest. */
  lemma {:induction false} ReadOnePacked(s: Stream, f0: Bytes, rest: seq<Bytes>)
    requires s.Valid() && s.mode == Proprietary && s.headerSize == 6
    requires |f0| < 1_000_000 && FramesFit(rest)
    requires s.file[s.pos..] == LengthHeader(|f0|) + f0 + Pack(rest)
    ensures NextFrame(s).frame == Some(f0)
    ensures NextFrame(s).next.mode == Proprietary && NextFrame(s).next.headerSize == 6
    ensures NextFrame(s).next.file[NextFrame(s).next.pos..] == Pack(rest)
  {
    ReadOneDigits(s, LengthHeader(|f0|), f0, Pack(rest));
  }

  /** A length-prefixed read where the prefix is six digits announcing the
      length of the bytes that follow it. */
  lemma {:induction false} ReadOneDigits(s: Stream, h: Bytes, f0: Bytes, tail: Bytes)
    requires s.Valid() && s.mode == Proprietary && s.headerSize == 6
    requires |h| == 6 && AllDigitBytes(h) && DigitBytesValue(h) == |f0|
    requires s.file[s.pos..] == h + f0 + tail
    ensures NextFrame(s).frame == Some(f0)
    ensures NextFrame(s).next.mode == Proprietary && NextFrame(s).next.headerSize == 6
    ensures NextFrame(s).next.file[NextFrame(s).next.pos..] == tail
  {
    SlicesOfConcat(s.file, s.pos, h, f0, tail);
    PrefixOfDigits(h);
    var rd := ReadProprietary(s);
    assert rd == NextFrame(s);
    assert |rd.frame.value| == |f0|;
    assert rd.next.pos == s.pos + 6 + |f0|;
    assert rd.frame.value == f0;
  }

  /** Reading a packed tail frame by frame returns the frames in order, and
      the following read finds the end. */
  lemma {:induction false} ReadPacked(s: Stream, frames: seq<Bytes>)
    requires s.Valid() && s.mode == Proprietary && s.headerSize == 6
    requires FramesFit(frames) && s.file[s.pos..] == Pack(frames)
    ensures ReadN(s, |frames| + 1) == Somes(frames) + [None]
    decreases |frames|
  {
    if |frames| == 0 {
      ReadPackedEnd(s);
    } else {
      var rest := frames[1..];
      var next := ReadPackedStep(s, frames);
      ReadPacked(next, rest);
      assert |rest| + 1 == |frames|;
      assert ReadN(s, |frames| + 1) == [Some(frames[0])] + ReadN(next, |frames|);
      SomesCons(frames);
    }
  }

  /** The first read gives the first frame and leaves the stream at the
      packed rest. */
  lemma {:induction false} ReadPackedStep(s: Stream, frames: seq<Bytes>) returns (next: Stream)
    requires s.Valid() && s.mode == Proprietary && s.headerSize == 6
    requires FramesFit(frames) && s.file[s.pos..] == Pack(frames) && |frames| > 0
    ensures next.Valid() && next.mode == Proprietary && next.headerSize == 6
    ensures FramesFit(frames[1..]) && next.file[next.pos..] == Pack(frames[1..])
    ensures forall n: nat :: ReadN(s, n + 1) == [Some(frames[0])] + ReadN(next, n)
  {
    PackCons(frames);
    ReadOnePacked(s, frames[0], frames[1..]);
    next := NextFrame(s).next;
    forall n: nat
      ensures ReadN(s, n + 1) == [Some(frames[0])] + ReadN(next, n)
    {
      ReadNCons(s, n);
    }
  }

  lemma {:induction false} SomesCons(frames: seq<Bytes>)
    requires |frames| > 0
    ensures Somes(frames) + [None] == [Some(frames[0])] + (Somes(frames[1..]) + [None])
  {
    assert Somes(frames) == [Some(frames[0])] + Somes(frames[1..]);
  }

  /** At the end of the file the next read returns None. */
  lemma {:induction false} ReadPackedEnd(s: Stream)
    requires s.Valid() && s.mode == Proprietary && s.headerSize == 6 && s.pos == |s.file|
    ensures ReadN(s, 1) == [None]
  {
    assert ReadN(s, 1) == [NextFrame(s).frame];
  }

  lemma {:induction false} PackCons(frames: seq<Bytes>)
    requires FramesFit(frames) && |frames| > 0
    ensures FramesFit(frames[1..])
    ensures Pack(frames) == LengthHeader(|frames[0]|) + frames[0] + Pack(frames[1..])
    ensures Pack(frames) == LengthHeader(|frames[0]|) + (frames[0] + Pack(frames[1..]))
  {
    assert forall k :: 0 <= k < |frames| - 1 ==> frames[1..][k] == frames[k + 1];
    var h, f0, p := LengthHeader(|frames[0]|), frames[0], Pack(frames[1..]);
    assert h + f0 + p == h + (f0 + p);
  }

  lemma {:induction false} ReadNCons(s: Stream, n: nat)
    requires s.Valid()
    ensures ReadN(s, n + 1) == [NextFrame(s).frame] + ReadN(NextFrame(s).next, n)
  {
  }

  /** The converter's file read from the start: every frame in order, then
      the end of the stream. */
  lemma {:induction false} PackedRoundTrip(frames: seq<Bytes>)
    requires FramesFit(frames)
    ensures ReadN(Open(Pack(frames)), |frames| + 1) == Somes(frames) + [None]
  {
    var s := Open(Pack(frames));
    if |frames| == 0 {
      assert ReadN(s, 1) == [NextFrame(s).frame];
    } else {
      OpenPacked(frames);
      assert s.file[s.pos..] == Pack(frames);
      ReadPacked(s, frames);
    }
  }

  // ---------------------------------------------------------------------------
  // Files of concatenated JPEG images
  // ---------------------------------------------------------------------------

  /** JPEG byte stuffing: every FF inside the entropy-coded data is followed
      by 00, so the data holds no marker. */
  predicate Stuffed(body: Bytes)
  {
    forall i :: 0 <= i < |body| && body[i] == MARKER_PREFIX ==> i + 1 < |body| && body[i + 1] == 0x00
  }

  /** An image: SOI, the stuffed data, EOI. */
  function Jpeg(body: Bytes): (r: Bytes)
    ensures |r| == |body| + 4
  {
    [MARKER_PREFIX, SOI] + body + [MARKER_PREFIX, EOI]
  }

  function Jpegs(bodies: seq<Bytes>): (r: seq<Bytes>)
    ensures |r| == |bodies| && forall k :: 0 <= k < |r| ==> r[k] == Jpeg(bodies[k])
  {
    if |bodies| == 0 then [] else [Jpeg(bodies[0])] + Jpegs(bodies[1..])
  }

  predicate AllStuffed(bodies: seq<Bytes>)
  {
    forall k :: 0 <= k < |bodies| ==> Stuffed(bodies[k])
  }

  /** The body scan passes over stuffed data without meeting a terminator. */
  lemma {:induction false} StuffedUnterminated(f: Bytes, k: nat, body: Bytes)
    requires k + |body| <= |f| && f[k..k + |body|] == body && Stuffed(body)
    ensures Unterminated(f, k, k + |body|)
    decreases |body|
  {
    if |body| > 0 {
      var step := if body[0] == MARKER_PREFIX then 2 else 1;
      assert body[0] == f[k];
      if step == 2 {
        assert f[k + 1] == body[1] == 0x00;
      }
      var tail := body[step..];
      assert Stuffed(tail) by {
        forall i | 0 <= i < |tail| && tail[i] == MARKER_PREFIX
          ensures i + 1 < |tail| && tail[i + 1] == 0x00
        {
          assert tail[i] == body[i + step];
        }
      }
      assert f[k + step..k + step + |tail|] == tail;
      StuffedUnterminated(f, k + step, tail);
    }
  }

  /** Where the markers and the data of an image sit in a file that holds
      the image at offset p. */
  lemma {:induction false} JpegAt(f: Bytes, p: nat, body: Bytes, rest: Bytes)
    requires p <= |f| && f[p..] == Jpeg(body) + rest
    ensures var e := p + 2 + |body|;
            && e + 2 <= |f|
            && f[p] == MARKER_PREFIX && f[p + 1] == SOI && f[p + 2..e] == body
            && f[e] == MARKER_PREFIX && f[e + 1] == EOI && f[p..e + 2] == Jpeg(body)
  {
    var t := f[p..];
    var e := p + 2 + |body|;
    assert t[2..2 + |body|] == Jpeg(body)[2..2 + |body|];
    assert f[p] == t[0] && f[p + 1] == t[1];
    assert f[p + 2..e] == t[2..2 + |body|];
    assert f[e] == t[2 + |body|] && f[e + 1] == t[3 + |body|];
    assert f[p..e + 2] == t[..|body| + 4];
  }

  /** Marker scanning at an image returns exactly that image and leaves the
      cursor just after its EOI. */
  lemma {:induction false} ReadOneJpeg(s: Stream, body: Bytes, rest: Bytes)
    requires s.Valid() && Stuffed(body) && s.file[s.pos..] == Jpeg(body) + rest
    ensures ReadStandard(s) == Read(Some(Jpeg(body)), s.(pos := s.pos + |body| + 4, frameNum := s.frameNum + 1))
  {
    var f, p := s.file, s.pos;
    var e := p + 2 + |body|;
    JpegAt(f, p, body, rest);
    StuffedUnterminated(f, p + 2, body);
    ScanStopsAtFirst(f, p + 2, e);
    ReadAtSoi(s);
  }

  /** At an SOI, marker scanning starts the frame right there. */
  lemma {:induction false} ReadAtSoi(s: Stream)
    requires s.Valid() && SoiAt(s.file, s.pos)
    ensures ReadStandard(s) == ScanFrame(s, s.pos)
  {
    assert SeekSoi(s.file, s.pos) == Some(s.pos);
  }

  /** Reading a tail of concatenated images returns each image in order, and
      the following read finds the end. */
  lemma {:induction false} ReadJpegs(s: Stream, bodies: seq<Bytes>)
    requires s.Valid() && s.mode != Proprietary && AllStuffed(bodies)
    requires s.file[s.pos..] == Flatten(Jpegs(bodies))
    ensures ReadN(s, |bodies| + 1) == Somes(Jpegs(bodies)) + [None]
    decreases |bodies|
  {
    if |bodies| == 0 {
      assert ReadN(s, 1) == [NextFrame(s).frame];
    } else {
      var images := Jpegs(bodies);
      var next := ReadJpegStep(s, bodies);
      ReadJpegs(next, bodies[1..]);
      assert ReadN(s, |bodies| + 1) == [Some(images[0])] + ReadN(next, |bodies|);
      assert images[1..] == Jpegs(bodies[1..]);
      SomesCons(images);
    }
  }

  /** The first read gives the first image and leaves the stream at the
      images after it. */
  lemma {:induction false} ReadJpegStep(s: Stream, bodies: seq<Bytes>) returns (next: Stream)
    requires s.Valid() && s.mode != Proprietary && AllStuffed(bodies) && |bodies| > 0
    requires s.file[s.pos..] == Flatten(Jpegs(bodies))
    ensures next.Valid() && next.mode == s.mode && AllStuffed(bodies[1..])
    ensures next.file[next.pos..] == Flatten(Jpegs(bodies[1..]))
    ensures forall n: nat :: ReadN(s, n + 1) == [Some(Jpeg(bodies[0]))] + ReadN(next, n)
  {
    var images := Jpegs(bodies);
    assert images[1..] == Jpegs(bodies[1..]);
    ReadOneJpeg(s, bodies[0], Flatten(images[1..]));
    next := NextFrame(s).next;
    assert next.file[next.pos..] == Flatten(Jpegs(bodies[1..])) by {
      assert next.pos == s.pos + |images[0]|;
      assert s.file[s.pos..] == images[0] + Flatten(images[1..]);
      assert next.file[next.pos..] == s.file[s.pos..][|images[0]|..];
    }
    forall n: nat
      ensures ReadN(s, n + 1) == [Some(Jpeg(bodies[0]))] + ReadN(next, n)
    {
      ReadNCons(s, n);
    }
  }

  /** A file of concatenated images read from the start: every image in
      order, then the end of the stream. The marker counterpart of
      `PackedRoundTrip`. */
  lemma {:induction false} MarkedRoundTrip(bodies: seq<Bytes>)
    requires AllStuffed(bodies)
    ensures ReadN(Open(Flatten(Jpegs(bodies))), |bodies| + 1) == Somes(Jpegs(bodies)) + [None]
  {
    var f := Flatten(Jpegs(bodies));
    var s := Open(f);
    if |bodies| > 0 {
      assert f[0] == MARKER_PREFIX by {
        assert f == Jpegs(bodies)[0] + Flatten(Jpegs(bodies)[1..]);
      }
      assert !IsDigitByte(f[..Min(5, |f|)][0]);
    }
    assert s.file[s.pos..] == f;
    ReadJpegs(s, bodies);
  }
}
