/** The `Decoder` class of src/main.cpp: it opens a container, selects the
    first video stream, opens its codec, seeks and decodes one frame at a time.

    The ffmpeg library is outside the model. A media file is described by what
    ffmpeg would report about it: whether it opens, its streams, its duration,
    its size, the packets a read returns from the start, and, for every seek
    target in seconds, either the packets a read returns after that seek or the
    error code of a rejected seek. A packet carries its stream index, whether
    feeding it to the decoder completes a picture, and that picture. */
module Decoding {
  import opened Base
  import opened Frames
  import opened HeaderInfo

  /** AVMediaType: only the video tag matters here. */
  datatype MediaType = Video | Audio | Subtitle | DataStream | Attachment | UnknownType

  /** One entry of `streams[]` with its codec context: the media type, whether
      `avcodec_find_decoder` finds a decoder, whether `avcodec_open2` succeeds,
      and the native frame size the codec reports. */
  datatype Stream = Stream(kind: MediaType, decoderFound: bool, decoderOpens: bool, width: int, height: int)

  datatype Packet = Packet(streamIndex: int, completesFrame: bool, picture: Picture)

  /** What `avformat_seek_file` does for one target time. */
  datatype SeekResult = Landed(packets: seq<Packet>) | SeekFailed(code: int)

  datatype MediaFile = MediaFile(
    name: string,
    size: nat,
    opens: bool,
    streamInfoFound: bool,
    streams: seq<Stream>,
    duration: int,
    packets: seq<Packet>,
    seek: int -> SeekResult)

  /** An FException with the error information attached where it is thrown:
      the failing API function, a message, an error code. */
  datatype Failure = Failure(api: Option<string>, message: Option<string>, errno: Option<int>)

  const OpenInputFailure := Failure(Some("avformat_open_input"), None, None)
  const StreamInfoFailure := Failure(Some("avformat_find_stream_info"), None, None)
  const NoVideoStreamFailure := Failure(None, Some("couldn't find video stream"), None)
  const NoDecoderFailure := Failure(None, Some("codec is not supported"), None)
  const CodecOpenFailure := Failure(Some("avcodec_find_decoder2"), Some("codec is not supported"), None)

  function SeekFailure(code: int): Failure
  {
    Failure(Some("avformat_seek_file"), None, Some(code))
  }

  /** `k` is the index of the first video stream. */
  ghost predicate IsFirstVideo(streams: seq<Stream>, k: int)
  {
    0 <= k < |streams| && streams[k].kind == Video &&
    forall m :: 0 <= m < k ==> streams[m].kind != Video
  }

  ghost predicate HasVideo(streams: seq<Stream>)
  {
    exists k :: 0 <= k < |streams| && streams[k].kind == Video
  }

  lemma FirstVideoUnique(streams: seq<Stream>, a: int, b: int)
    requires IsFirstVideo(streams, a) && IsFirstVideo(streams, b)
    ensures a == b
  {
  }

  /** Decoder::FindFirstVideoStream: scan the streams in order and stop at the
      first video stream; with none, fail with "couldn't find video stream". */
  method FindFirstVideoStream(streams: seq<Stream>) returns (r: Result<nat, Failure>)
    ensures r.Ok? <==> HasVideo(streams)
    ensures r.Ok? ==> IsFirstVideo(streams, r.value)
    ensures r.Err? ==> r.error == NoVideoStreamFailure
  {
    var videoStream := -1;
    var i := 0;
    while i < |streams|
      invariant 0 <= i <= |streams|
      invariant videoStream == -1
      invariant forall m :: 0 <= m < i ==> streams[m].kind != Video
    {
      if streams[i].kind == Video {
        videoStream := i;
        break;
      }
      i := i + 1;
    }
    if videoStream == -1 {
      r := Err(NoVideoStreamFailure);
    } else {
      r := Ok(videoStream);
    }
  }

  /** Decoder::OpenCodec: it looks the first video stream up again, and opens
      a decoder for that stream's codec; the codec context it returns is the
      one of the first video stream. */
  method OpenCodec(streams: seq<Stream>) returns (r: Result<Stream, Failure>)
    ensures !HasVideo(streams) ==> r == Err(NoVideoStreamFailure)
    ensures forall k :: IsFirstVideo(streams, k) ==>
      r == (if !streams[k].decoderFound then Err(NoDecoderFailure)
            else if !streams[k].decoderOpens then Err(CodecOpenFailure)
            else Ok(streams[k]))
  {
    var found := FindFirstVideoStream(streams);
    if found.Err? {
      return Err(found.error);
    }
    var codecContext := streams[found.value];
    if !codecContext.decoderFound {
      return Err(NoDecoderFailure);
    }
    if !codecContext.decoderOpens {
      return Err(CodecOpenFailure);
    }
    r := Ok(codecContext);
  }

  /** Which failure, if any, the Decoder constructor throws for `file`:
      opening the input, reading the stream information, finding a video
      stream, finding a decoder, opening it, in this order. */
  ghost function OpenFailure(file: MediaFile): Option<Failure>
  {
    if !file.opens then Some(OpenInputFailure)
    else if !file.streamInfoFound then Some(StreamInfoFailure)
    else if !HasVideo(file.streams) then Some(NoVideoStreamFailure)
    else
      FirstVideoExists(file.streams);
      var k :| IsFirstVideo(file.streams, k);
      if !file.streams[k].decoderFound then Some(NoDecoderFailure)
      else if !file.streams[k].decoderOpens then Some(CodecOpenFailure)
      else None
  }

  /** The first video stream of a file with video has an index. */
  lemma FirstVideoExists(streams: seq<Stream>)
    requires HasVideo(streams)
    ensures exists k :: IsFirstVideo(streams, k)
  {
    var k :| 0 <= k < |streams| && streams[k].kind == Video;
    var m := 0;
    while streams[m].kind != Video
      invariant 0 <= m <= k
      invariant forall n :: 0 <= n < m ==> streams[n].kind != Video
      decreases k - m
    {
      m := m + 1;
    }
    assert IsFirstVideo(streams, m);
  }

  /** A packet that, fed to the decoder, completes a picture of `video`. */
  predicate CompletesVideo(p: Packet, video: int)
  {
    p.streamIndex == video && p.completesFrame
  }

  /** The packets of stream `video`, in order. */
  function VideoPackets(ps: seq<Packet>, video: int): seq<Packet>
  {
    if ps == [] then []
    else
      var init := VideoPackets(ps[..|ps| - 1], video);
      if ps[|ps| - 1].streamIndex == video then init + [ps[|ps| - 1]] else init
  }

  /** VideoPackets keeps the packets of the selected stream and only those. */
  lemma {:induction false} VideoPacketsFilter(ps: seq<Packet>, video: int)
    ensures |VideoPackets(ps, video)| <= |ps|
    ensures forall p :: p in VideoPackets(ps, video) <==> p in ps && p.streamIndex == video
  {
    if ps != [] {
      VideoPacketsFilter(ps[..|ps| - 1], video);
      assert ps == ps[..|ps| - 1] + [ps[|ps| - 1]];
    }
  }

  lemma {:induction false} VideoPacketsAppend(a: seq<Packet>, b: seq<Packet>, video: int)
    ensures VideoPackets(a + b, video) == VideoPackets(a, video) + VideoPackets(b, video)
    decreases |b|
  {
    if b != [] {
      var b' := b[..|b| - 1];
      assert (a + b)[..|a + b| - 1] == a + b';
      VideoPacketsAppend(a, b', video);
    } else {
      assert a + b == a;
    }
  }

  /** What one call of DecodeFrame does with the packets that reads return:
      the packets it feeds to the decoder, how many packets enter the loop body
      (each of them is freed there), the picture it fills the buffer with, and
      whether it reads one more packet after the frame completed. */
  datatype Decoding = Decoding(fed: seq<Packet>, entered: nat, filled: Option<Picture>, extraRead: bool)

  /** The loop of DecodeFrame, one packet per step. The condition reads a packet
      first and tests the completion flag second, so after a completed frame a
      further packet is read and dropped when there is one. */
  function DecodeRun(ps: seq<Packet>, video: int): (d: Decoding)
    ensures d.entered <= |ps|
  {
    if ps == [] then Decoding([], 0, None, false)
    else if CompletesVideo(ps[0], video) then Decoding([ps[0]], 1, Some(ps[0].picture), |ps| > 1)
    else
      var rest := DecodeRun(ps[1..], video);
      Decoding(VideoPackets([ps[0]], video) + rest.fed, rest.entered + 1, rest.filled, rest.extraRead)
  }

  /** Only packets of the selected stream reach the decoder, and all of those
      that enter the loop body do, in order. */
  lemma {:induction false} DecodeFeedsVideoOnly(ps: seq<Packet>, video: int)
    ensures DecodeRun(ps, video).fed == VideoPackets(ps[..DecodeRun(ps, video).entered], video)
  {
    if ps != [] && !CompletesVideo(ps[0], video) {
      var rest := DecodeRun(ps[1..], video);
      DecodeFeedsVideoOnly(ps[1..], video);
      assert ps[..rest.entered + 1] == [ps[0]] + ps[1..][..rest.entered];
      VideoPacketsAppend([ps[0]], ps[1..][..rest.entered], video);
    } else if ps != [] {
      assert ps[..1] == [ps[0]];
      assert VideoPackets([ps[0]], video) == [ps[0]];
    }
  }

  /** The buffer is filled exactly when some packet completes a picture of the
      selected stream, with the first such picture, and the loop stops right
      after it; without one, every packet is consumed and the buffer is left as
      it was. */
  lemma {:induction false} DecodeFillsFirstFrame(ps: seq<Packet>, video: int)
    ensures var d := DecodeRun(ps, video);
      && (d.filled.Some? <==> exists k :: 0 <= k < |ps| && CompletesVideo(ps[k], video))
      && (d.filled.Some? ==>
            && d.entered >= 1 && CompletesVideo(ps[d.entered - 1], video)
            && d.filled.value == ps[d.entered - 1].picture
            && forall k :: 0 <= k < d.entered - 1 ==> !CompletesVideo(ps[k], video))
      && (d.filled.None? ==> d.entered == |ps|)
  {
    if ps != [] && !CompletesVideo(ps[0], video) {
      DecodeFillsFirstFrame(ps[1..], video);
      var d := DecodeRun(ps, video);
      if d.filled.Some? {
        forall k | 0 <= k < d.entered - 1
          ensures !CompletesVideo(ps[k], video)
        {
          if k > 0 {
            assert ps[k] == ps[1..][k - 1];
          }
        }
      }
      if exists k :: 0 <= k < |ps| && CompletesVideo(ps[k], video) {
        var k :| 0 <= k < |ps| && CompletesVideo(ps[k], video);
        assert ps[1..][k - 1] == ps[k];
      }
    }
  }

  /** The extra read: one packet beyond the last one freed is read (and neither
      examined nor freed) exactly when a picture completed before the packets
      ran out. */
  lemma {:induction false} DecodeExtraRead(ps: seq<Packet>, video: int)
    ensures var d := DecodeRun(ps, video);
      d.extraRead <==> d.filled.Some? && d.entered < |ps|
  {
    if ps != [] && !CompletesVideo(ps[0], video) {
      DecodeExtraRead(ps[1..], video);
    }
  }

  /** Running past a prefix with no completed picture. */
  lemma {:induction false} DecodeRunSkips(ps: seq<Packet>, k: nat, video: int)
    requires k <= |ps|
    requires forall m :: 0 <= m < k ==> !CompletesVideo(ps[m], video)
    ensures var rest := DecodeRun(ps[k..], video);
      DecodeRun(ps, video) ==
        Decoding(VideoPackets(ps[..k], video) + rest.fed, k + rest.entered, rest.filled, rest.extraRead)
  {
    if k == 0 {
      assert ps[..0] == [] && ps[0..] == ps;
      var d := DecodeRun(ps, video);
      assert VideoPackets([], video) + d.fed == d.fed;
    } else {
      var tail := ps[1..];
      assert forall m :: 0 <= m < k - 1 ==> !CompletesVideo(tail[m], video) by {
        forall m | 0 <= m < k - 1
          ensures !CompletesVideo(tail[m], video)
        {
          assert tail[m] == ps[m + 1];
        }
      }
      DecodeRunSkips(tail, k - 1, video);
      var rest := DecodeRun(ps[k..], video);
      var mid := DecodeRun(tail, video);
      assert mid == Decoding(VideoPackets(tail[..k - 1], video) + rest.fed, k - 1 + rest.entered, rest.filled, rest.extraRead) by {
        assert tail[k - 1..] == ps[k..];
      }
      var a, b := VideoPackets([ps[0]], video), VideoPackets(tail[..k - 1], video);
      assert VideoPackets(ps[..k], video) == a + b by {
        assert ps[..k] == [ps[0]] + tail[..k - 1];
        VideoPacketsAppend([ps[0]], tail[..k - 1], video);
      }
      assert DecodeRun(ps, video) == Decoding(a + mid.fed, mid.entered + 1, mid.filled, mid.extraRead);
      ConcatAssoc(a, b, rest.fed);
    }
  }

  /** Where the loop of DecodeFrame stops: after `k` packets entered the body,
      either because the `k`-th completed a picture or because none was left. */
  lemma DecodeRunAtExit(ps: seq<Packet>, k: nat, complete: bool, video: int)
    requires k <= |ps|
    requires !complete ==> k == |ps| && forall m :: 0 <= m < k ==> !CompletesVideo(ps[m], video)
    requires complete ==>
      && 0 < k && CompletesVideo(ps[k - 1], video)
      && forall m :: 0 <= m < k - 1 ==> !CompletesVideo(ps[m], video)
    ensures var d := DecodeRun(ps, video);
      && d.entered == k
      && d.fed == VideoPackets(ps[..k], video)
      && d.filled == (if complete then Some(ps[k - 1].picture) else None)
      && d.extraRead == (complete && k < |ps|)
  {
    if complete {
      DecodeRunSkips(ps, k - 1, video);
      assert ps[k - 1..][1..] == ps[k..];
      assert ps[..k] == ps[..k - 1] + [ps[k - 1]];
      VideoPacketsAppend(ps[..k - 1], [ps[k - 1]], video);
    } else {
      DecodeRunSkips(ps, k, video);
      assert ps[..k] == ps;
      assert ps[k..] == [];
    }
  }

  /** The header lines for a file whose video codec is `codec`: the file name,
      the duration only when it is known, the resolution, and the file size
      in kilobytes scaled to a unit of the table. */
  ghost predicate VideoInfo(file: MediaFile, codec: Stream, fileName: string, lines: seq<HeaderLine>)
  {
    && |lines| == (if file.duration != NoPtsValue then 4 else 3)
    && lines[0] == FileNameLine(fileName)
    && (file.duration != NoPtsValue ==> lines[1] == DurationLine(ClockOf(file.duration)))
    && lines[|lines| - 2] == ResolutionLine(codec.width, codec.height)
    && lines[|lines| - 1].FileSizeLine?
    && IsScaledSize(file.size, lines[|lines| - 1].size, lines[|lines| - 1].unitIndex)
  }

  /** A duration under 2^31 seconds in magnitude has a quotient that fits in
      an `int`, so the narrowing keeps it. */
  lemma SecondsFit(duration: int)
    ensures Abs(duration) < 0x8000_0000 * TimeBase ==>
      Int32Of(TruncDiv(duration, TimeBase)) == TruncDiv(duration, TimeBase)
  {
  }

  /** AV_NOPTS_VALUE divided by AV_TIME_BASE is -9223372036854, which the
      narrowing to `int` turns into -2077252342. */
  lemma UnknownSecondsWrap()
    ensures TruncDiv(NoPtsValue, TimeBase) == -9223372036854
    ensures Int32Of(TruncDiv(NoPtsValue, TimeBase)) == -2077252342
  {
  }

  /** The Decoder object: the opened container and codec, the demuxer's read
      position (the packets the next reads return), and a record of what the
      library calls were asked to do. */
  class Decoder {
    const file: MediaFile
    const videoStream: nat
    const codec: Stream

    /** The packets that `av_read_frame` returns next. */
    var pending: seq<Packet>

    /** Seconds passed to Seek, in order. */
    ghost var seeks: seq<int>
    /** Packets returned by `av_read_frame`. */
    ghost var read: seq<Packet>
    /** Packets passed to `avcodec_decode_video2`. */
    ghost var decoded: seq<Packet>
    /** Packets passed to `av_free_packet`. */
    ghost var released: seq<Packet>

    ghost predicate Valid()
    {
      IsFirstVideo(file.streams, videoStream) && codec == file.streams[videoStream]
    }

    constructor (file: MediaFile, videoStream: nat, codec: Stream)
      requires IsFirstVideo(file.streams, videoStream) && codec == file.streams[videoStream]
      ensures Valid()
      ensures this.file == file && this.videoStream == videoStream && this.codec == codec
      ensures pending == file.packets
      ensures seeks == [] && read == [] && decoded == [] && released == []
    {
      this.file := file;
      this.videoStream := videoStream;
      this.codec := codec;
      pending := file.packets;
      seeks, read, decoded, released := [], [], [], [];
    }

    /** The frame width of the decoder's codec: that of the file's first
        video stream. */
    function Width(): (w: int)
      requires Valid()
      ensures IsFirstVideo(file.streams, videoStream) && w == file.streams[videoStream].width
    {
      codec.width
    }

    /** The frame height of the decoder's codec: that of the file's first
        video stream. */
    function Height(): (h: int)
      requires Valid()
      ensures IsFirstVideo(file.streams, videoStream) && h == file.streams[videoStream].height
    {
      codec.height
    }

    /** The container's duration in whole seconds: the 64-bit quotient,
        truncated toward zero, narrowed to the 32-bit `int` the function
        returns. An unknown duration (AV_NOPTS_VALUE) is divided and narrowed
        like any other value, and the narrowing changes it. */
    function DurationInSeconds(): (s: int)
      ensures -0x8000_0000 <= s < 0x8000_0000
      ensures (s - TruncDiv(file.duration, TimeBase)) % 0x1_0000_0000 == 0
      ensures Abs(file.duration) < 0x8000_0000 * TimeBase ==>
        && Abs(s) * TimeBase <= Abs(file.duration) < (Abs(s) + 1) * TimeBase
        && (s != 0 ==> (s < 0 <==> file.duration < 0))
      ensures 0 <= file.duration < 0x8000_0000 * TimeBase ==> s >= 0 && s * TimeBase <= file.duration < (s + 1) * TimeBase
      ensures file.duration == NoPtsValue ==> s == -2077252342
    {
      SecondsFit(file.duration);
      UnknownSecondsWrap();
      Int32Of(TruncDiv(file.duration, TimeBase))
    }

    /** Seek to `timeInSeconds`: on success the following reads return the
        packets from the landing point; a rejected seek throws with the code. */
    method Seek(timeInSeconds: int) returns (r: Option<Failure>)
      requires Valid()
      modifies this
      ensures Valid()
      ensures seeks == old(seeks) + [timeInSeconds]
      ensures read == old(read) && decoded == old(decoded) && released == old(released)
      ensures match file.seek(timeInSeconds)
        case Landed(ps) => r == None && pending == ps
        case SeekFailed(code) => r == Some(SeekFailure(code)) && pending == old(pending)
    {
      seeks := seeks + [timeInSeconds];
      match file.seek(timeInSeconds)
      case Landed(ps) =>
        pending := ps;
        r := None;
      case SeekFailed(code) =>
        r := Some(SeekFailure(code));
    }

    /** `av_read_frame`: take the next packet, or report the end. */
    method ReadFrame() returns (ok: bool, packet: Packet)
      modifies this`pending, this`read
      ensures ok <==> old(pending) != []
      ensures ok ==> packet == old(pending)[0] && pending == old(pending)[1..] && read == old(read) + [packet]
      ensures !ok ==> pending == [] && read == old(read)
    {
      if pending == [] {
        ok, packet := false, Packet(-1, false, 0);
      } else {
        ok, packet := true, pending[0];
        pending := pending[1..];
        read := read + [packet];
      }
    }

    /** Decoder::DecodeFrame: read packets, feed those of the video stream to
        the decoder, fill the buffer when a picture completes, free every packet
        that enters the loop body. */
    method DecodeFrame(imageBuffer: ImageBuffer)
      requires Valid()
      modifies this, imageBuffer
      ensures Valid() && seeks == old(seeks)
      ensures var d := DecodeRun(old(pending), videoStream);
        var consumed := d.entered + (if d.extraRead then 1 else 0);
        && consumed <= |old(pending)|
        && pending == old(pending)[consumed..]
        && read == old(read) + old(pending)[..consumed]
        && released == old(released) + old(pending)[..d.entered]
        && decoded == old(decoded) + d.fed
        && imageBuffer.contents ==
             (if d.filled.Some? then Scaled(d.filled.value, imageBuffer.width, imageBuffer.height)
              else old(imageBuffer.contents))
        && imageBuffer.fills == old(imageBuffer.fills) + (if d.filled.Some? then 1 else 0)
    {
      assert VideoPackets(pending[..0], videoStream) == [];
      hide DecodeRun, VideoPackets, CompletesVideo;
      ghost var ps := pending;
      ghost var k := 0;
      var frameComplete := false;
      var ok, packet := ReadFrame();
      while ok && !frameComplete
        invariant 0 <= k <= |ps|
        invariant seeks == old(seeks)
        invariant released == old(released) + ps[..k]
        invariant decoded == old(decoded) + VideoPackets(ps[..k], videoStream)
        invariant ok ==> k < |ps| && packet == ps[k] && pending == ps[k + 1..] && read == old(read) + ps[..k + 1]
        invariant !ok ==> k == |ps| && pending == [] && read == old(read) + ps
        invariant !frameComplete ==>
          && (forall m :: 0 <= m < k ==> !CompletesVideo(ps[m], videoStream))
          && imageBuffer.contents == old(imageBuffer.contents)
          && imageBuffer.fills == old(imageBuffer.fills)
        invariant frameComplete ==>
          && 0 < k && CompletesVideo(ps[k - 1], videoStream)
          && (forall m :: 0 <= m < k - 1 ==> !CompletesVideo(ps[m], videoStream))
          && imageBuffer.contents == Scaled(ps[k - 1].picture, imageBuffer.width, imageBuffer.height)
          && imageBuffer.fills == old(imageBuffer.fills) + 1
        decreases |pending| + (if ok then 1 else 0)
      {
        frameComplete := HandlePacket(packet, imageBuffer);
        assert ps[..k + 1] == ps[..k] + [packet];
        VideoPacketsAppend(ps[..k], [packet], videoStream);
        k := k + 1;
        ok, packet := ReadFrame();
      }
      DecodeRunAtExit(ps, k, frameComplete, videoStream);
    }

    /** The body of the decoding loop for one packet: a packet of the video
        stream goes to the decoder and, when it completes a picture, the
        picture fills the buffer; every packet is then freed. */
    method HandlePacket(packet: Packet, imageBuffer: ImageBuffer) returns (frameComplete: bool)
      modifies this`decoded, this`released, imageBuffer
      ensures frameComplete == CompletesVideo(packet, videoStream)
      ensures decoded == old(decoded) + VideoPackets([packet], videoStream)
      ensures released == old(released) + [packet]
      ensures imageBuffer.contents ==
        (if frameComplete then Scaled(packet.picture, imageBuffer.width, imageBuffer.height) else old(imageBuffer.contents))
      ensures imageBuffer.fills == old(imageBuffer.fills) + (if frameComplete then 1 else 0)
    {
      frameComplete := false;
      if packet.streamIndex == videoStream {
        decoded := decoded + [packet];
        frameComplete := packet.completesFrame;
        if frameComplete {
          imageBuffer.Fill(packet.picture);
        }
      }
      released := released + [packet];
      assert [packet][..0] == [];
    }

    method CreateImageBuffer(width: int, height: int) returns (b: ImageBuffer)
      ensures fresh(b) && b.width == width && b.height == height
      ensures b.contents == Uninitialized && b.fills == 0
    {
      b := new ImageBuffer(width, height);
    }

    /** Decoder::GetVideoInfo: the header lines, in order. The duration line is
        present only when the duration is known; the file size is given in
        kilobytes scaled to a unit of the table. */
    method GetVideoInfo(fileName: string) returns (lines: seq<HeaderLine>)
      ensures VideoInfo(file, codec, fileName, lines)
    {
      lines := [FileNameLine(fileName)];
      if file.duration != NoPtsValue {
        lines := lines + [DurationLine(ClockOf(file.duration))];
      }
      lines := lines + [ResolutionLine(codec.width, codec.height)];
      var fileSize, unitIndex := ScaleFileSize(file.size);
      lines := lines + [FileSizeLine(fileSize, unitIndex)];
    }
  }

  /** Decoder::OpenFormat: the container must open and its stream information
      must be readable; the first of the two steps that fails names the failure. */
  method OpenFormat(file: MediaFile) returns (r: Option<Failure>)
    ensures r.None? <==> file.opens && file.streamInfoFound
    ensures !file.opens ==> r == Some(OpenInputFailure)
    ensures file.opens && !file.streamInfoFound ==> r == Some(StreamInfoFailure)
  {
    if !file.opens {
      return Some(OpenInputFailure);
    }
    if !file.streamInfoFound {
      return Some(StreamInfoFailure);
    }
    r := None;
  }

  /** The Decoder constructor. Members are initialised in the order they are
      declared (src/main.cpp:234-237), not in the order of the initialiser
      list: open the container and read its stream information, then open the
      codec of the first video stream (OpenCodec looks the stream up itself),
      then look the first video stream up again for `videoStream_`, which
      lands on the stream whose codec was opened. */
  method OpenDecoder(file: MediaFile) returns (r: Result<Decoder, Failure>)
    ensures OpenFailure(file).Some? ==> r == Err(OpenFailure(file).value)
    ensures OpenFailure(file).None? ==> r.Ok?
    ensures r.Ok? ==>
      && fresh(r.value) && r.value.Valid()
      && r.value.file == file
      && r.value.pending == file.packets
      && r.value.seeks == [] && r.value.read == [] && r.value.decoded == [] && r.value.released == []
  {
    var formatFailure := OpenFormat(file);
    if formatFailure.Some? {
      return Err(formatFailure.value);
    }
    var codec := OpenCodec(file.streams);
    if HasVideo(file.streams) {
      FirstVideoExists(file.streams);
    }
    if codec.Err? {
      return Err(codec.error);
    }
    var stream := FindFirstVideoStream(file.streams);
    ghost var k :| IsFirstVideo(file.streams, k);
    FirstVideoUnique(file.streams, k, stream.value);
    var decoder := new Decoder(file, stream.value, codec.value);
    r := Ok(decoder);
  }
}
