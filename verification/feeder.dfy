/**
 * The audio feeder that `IFlytek.on_open` starts on a thread: it reads the audio stream in
 * chunks of 8000 bytes and sends one frame per read, tagged first, continue or last. Sending
 * a frame is modelled as appending it to the list of frames sent; the JSON wrapping of a
 * frame (Base64 of the chunk in the "audio" field) is left to Encoding.Base64.
 */
module Feeder {
  import opened Wrappers
  import opened Encoding

  /** The three frame markers STATUS_FIRST_FRAME, STATUS_CONTINUE_FRAME and STATUS_LAST_FRAME. */
  datatype Status = First | Continue | Last
  {
    /** The integer sent in the frame's "status" field. */
    function Code(): (c: int)
      ensures 0 <= c <= 2
    {
      match this
      case First => 0
      case Continue => 1
      case Last => 2
    }
  }

  /** Bytes read per frame. */
  const FrameSize := 8000

  /** The fixed "format" field of every frame. */
  const AudioFormat := "audio/L16;rate=16000"

  /** The `business` arguments: dictation domain, Chinese, Mandarin, verbose info, 10 s end-of-speech silence. */
  datatype Business = Business(domain: string, language: string, accent: string, vinfo: int, vadEos: int)

  const BusinessArgs := Business("iat", "zh_cn", "mandarin", 1, 10000)

  /** The session configuration only the first frame carries: `common.app_id` and `business`. */
  datatype Config = Config(appId: string, business: Business)

  /**
   * One frame as sent: its optional configuration, its status, and the `data` fields;
   * `audio` holds the chunk itself, before Base64.
   */
  datatype Frame = Frame(config: Option<Config>, status: Status, format: string, audio: seq<byte>, encoding: string)

  /** `BytesIO.read(n)` at position `pos`: the next `n` bytes, or all that remain if fewer. */
  function Read(stream: seq<byte>, pos: nat, n: nat): (buf: seq<byte>)
    requires pos <= |stream|
    ensures |buf| == Min(n, |stream| - pos)
    ensures forall k :: 0 <= k < |buf| ==> buf[k] == stream[pos + k]
  {
    stream[pos..Min(pos + n, |stream|)]
  }

  // ------------------------------------------------------------ the frames a session sends

  function FirstFrame(appId: string, encoding: string, chunk: seq<byte>): Frame
  {
    Frame(Some(Config(appId, BusinessArgs)), First, AudioFormat, chunk, encoding)
  }

  function ContinueFrame(encoding: string, chunk: seq<byte>): Frame
  {
    Frame(None, Continue, AudioFormat, chunk, encoding)
  }

  function LastFrame(encoding: string): Frame
  {
    Frame(None, Last, AudioFormat, [], encoding)
  }

  /** The frames sent once the first chunk is out: one continue frame per further chunk, then the empty last frame. */
  function Rest(encoding: string, audio: seq<byte>): seq<Frame>
    decreases |audio|
  {
    if audio == [] then [LastFrame(encoding)]
    else
      var n := Min(FrameSize, |audio|);
      [ContinueFrame(encoding, audio[..n])] + Rest(encoding, audio[n..])
  }

  /**
   * The frames one session sends for `audio`: the first chunk with the configuration, the
   * remaining chunks, and the empty last frame; for empty audio, the last frame alone.
   */
  function Session(appId: string, encoding: string, audio: seq<byte>): seq<Frame>
  {
    if audio == [] then [LastFrame(encoding)]
    else
      var n := Min(FrameSize, |audio|);
      [FirstFrame(appId, encoding, audio[..n])] + Rest(encoding, audio[n..])
  }

  /** The payloads of the frames, joined in sending order. */
  function Payload(frames: seq<Frame>): seq<byte>
  {
    if frames == [] then [] else frames[0].audio + Payload(frames[1..])
  }

  // ------------------------------------------------------------ the feeder loop

  /**
   * The inner `run` of `on_open`: read a chunk; an empty read switches to the last state;
   * send the frame for the current state; stop after the last frame.
   */
  method Feed(appId: string, encoding: string, audio: seq<byte>) returns (sent: seq<Frame>)
    ensures sent == Session(appId, encoding, audio)
  {
    var status := First;
    var pos := 0;
    sent := [];
    while true
      invariant pos <= |audio|
      invariant status != Last
      invariant status == First ==> pos == 0 && sent == []
      invariant status == Continue ==> 0 < pos && sent + Rest(encoding, audio[pos..]) == Session(appId, encoding, audio)
      decreases |audio| - pos
    {
      var buf := Read(audio, pos, FrameSize);
      ghost var start := pos;
      pos := pos + |buf|;
      if buf == [] {
        status := Last;
      }
      if status == First {
        sent := sent + [Frame(Some(Config(appId, BusinessArgs)), First, AudioFormat, buf, encoding)];
        status := Continue;
        FirstStep(appId, encoding, audio);
      } else if status == Continue {
        ContinueStep(encoding, audio, start);
        AppendAssoc(sent, [ContinueFrame(encoding, buf)], Rest(encoding, audio[pos..]));
        sent := sent + [Frame(None, Continue, AudioFormat, buf, encoding)];
      } else {
        sent := sent + [Frame(None, Last, AudioFormat, buf, encoding)];
        assert audio[start..] == [];
        break;
      }
    }
  }

  /** The first read of non-empty audio sends the first frame of the session, and the rest follows from where it stopped. */
  lemma FirstStep(appId: string, encoding: string, audio: seq<byte>)
    requires audio != []
    ensures var buf := Read(audio, 0, FrameSize);
      Session(appId, encoding, audio) == [FirstFrame(appId, encoding, buf)] + Rest(encoding, audio[|buf|..])
  {
  }

  /** A non-empty read in the continue state sends the next frame of the rest. */
  lemma ContinueStep(encoding: string, audio: seq<byte>, pos: nat)
    requires pos < |audio|
    ensures var buf := Read(audio, pos, FrameSize);
      Rest(encoding, audio[pos..]) == [ContinueFrame(encoding, buf)] + Rest(encoding, audio[pos + |buf|..])
  {
    var buf := Read(audio, pos, FrameSize);
    assert audio[pos..][..|buf|] == buf;
    assert audio[pos..][|buf|..] == audio[pos + |buf|..];
  }


  // ------------------------------------------------------------ what a session sends

  /** The continue frames carry the rest of the audio in full chunks but the last, and one empty last frame follows. */
  lemma RestShape(encoding: string, audio: seq<byte>)
    ensures var r := Rest(encoding, audio);
      |r| == (|audio| + FrameSize - 1) / FrameSize + 1 &&
      r[|r| - 1] == LastFrame(encoding) &&
      Payload(r) == audio &&
      (forall i :: 0 <= i < |r| - 1 ==> r[i].status == Continue && r[i].config == None && 0 < |r[i].audio| <= FrameSize) &&
      (forall i :: 0 <= i < |r| - 2 ==> |r[i].audio| == FrameSize)
  {
    RestLength(encoding, audio);
    RestLast(encoding, audio);
    RestPayload(encoding, audio);
    RestContinues(encoding, audio);
    RestFull(encoding, audio);
  }

  /** Rest of non-empty audio is one continue frame with the next chunk, then the rest after it. */
  lemma RestUnfold(encoding: string, audio: seq<byte>) returns (n: nat)
    requires audio != []
    ensures n == Min(FrameSize, |audio|) && 0 < n <= |audio|
    ensures Rest(encoding, audio) == [ContinueFrame(encoding, audio[..n])] + Rest(encoding, audio[n..])
  {
    n := Min(FrameSize, |audio|);
  }

  lemma {:induction false} RestLength(encoding: string, audio: seq<byte>)
    ensures |Rest(encoding, audio)| == (|audio| + FrameSize - 1) / FrameSize + 1
    decreases |audio|
  {
    if audio != [] {
      var n := RestUnfold(encoding, audio);
      RestLength(encoding, audio[n..]);
      if |audio| > FrameSize {
        assert (|audio| - FrameSize + FrameSize - 1) / FrameSize + 1 == (|audio| + FrameSize - 1) / FrameSize;
      }
    }
  }

  lemma {:induction false} RestLast(encoding: string, audio: seq<byte>)
    ensures var r := Rest(encoding, audio); |r| >= 1 && r[|r| - 1] == LastFrame(encoding)
    decreases |audio|
  {
    if audio != [] {
      var n := RestUnfold(encoding, audio);
      RestLast(encoding, audio[n..]);
    }
  }

  lemma {:induction false} RestPayload(encoding: string, audio: seq<byte>)
    ensures Payload(Rest(encoding, audio)) == audio
    decreases |audio|
  {
    var r := Rest(encoding, audio);
    if audio == [] {
      assert Payload(r) == [] + Payload([]);
    } else {
      var n := RestUnfold(encoding, audio);
      RestPayload(encoding, audio[n..]);
      assert r[1..] == Rest(encoding, audio[n..]);
      assert Payload(r) == audio[..n] + audio[n..];
      assert audio[..n] + audio[n..] == audio;
    }
  }

  lemma {:induction false} RestContinues(encoding: string, audio: seq<byte>)
    ensures var r := Rest(encoding, audio);
      forall i :: 0 <= i < |r| - 1 ==> r[i].status == Continue && r[i].config == None && 0 < |r[i].audio| <= FrameSize
    decreases |audio|
  {
    if audio != [] {
      var n := RestUnfold(encoding, audio);
      var r, tail := Rest(encoding, audio), Rest(encoding, audio[n..]);
      RestContinues(encoding, audio[n..]);
      forall i | 0 < i < |r| - 1 ensures r[i].status == Continue && r[i].config == None && 0 < |r[i].audio| <= FrameSize {
        assert r[i] == tail[i - 1];
      }
    }
  }

  lemma {:induction false} RestFull(encoding: string, audio: seq<byte>)
    ensures var r := Rest(encoding, audio); forall i :: 0 <= i < |r| - 2 ==> |r[i].audio| == FrameSize
    decreases |audio|
  {
    if audio != [] {
      var n := RestUnfold(encoding, audio);
      var r, tail := Rest(encoding, audio), Rest(encoding, audio[n..]);
      RestFull(encoding, audio[n..]);
      forall i | 0 <= i < |r| - 2 ensures |r[i].audio| == FrameSize {
        if i == 0 {
          assert |tail| >= 2;
          assert audio[n..] != [];
        } else {
          assert r[i] == tail[i - 1];
        }
      }
    }
  }

  /** Sending all frames in order delivers exactly the input audio. */
  lemma SessionPayload(appId: string, encoding: string, audio: seq<byte>)
    ensures Payload(Session(appId, encoding, audio)) == audio
  {
    var s := Session(appId, encoding, audio);
    if audio == [] {
      assert Payload(s) == [] + Payload([]);
    } else {
      var n := SessionSplit(appId, encoding, audio);
      RestPayload(encoding, audio[n..]);
      assert s[1..] == Rest(encoding, audio[n..]);
      assert Payload(s) == audio[..n] + audio[n..];
      assert audio[..n] + audio[n..] == audio;
    }
  }

  /**
   * No payload exceeds 8000 bytes, and every payload that has a non-empty payload after it is
   * exactly 8000 bytes: only the last non-empty chunk may be short.
   */
  lemma SessionChunkSizes(appId: string, encoding: string, audio: seq<byte>)
    ensures var s := Session(appId, encoding, audio);
      (forall i :: 0 <= i < |s| ==> |s[i].audio| <= FrameSize) &&
      (forall i, j :: 0 <= i < j < |s| && s[j].audio != [] ==> |s[i].audio| == FrameSize)
  {
    var s := Session(appId, encoding, audio);
    if audio != [] {
      var n := SessionSplit(appId, encoding, audio);
      var r := Rest(encoding, audio[n..]);
      RestLast(encoding, audio[n..]);
      RestContinues(encoding, audio[n..]);
      RestFull(encoding, audio[n..]);
      forall i | 0 <= i < |s| ensures |s[i].audio| <= FrameSize {
        if i > 0 {
          assert s[i] == r[i - 1];
        }
      }
      forall i, j | 0 <= i < j < |s| && s[j].audio != [] ensures |s[i].audio| == FrameSize {
        assert s[j] == r[j - 1];
        assert j - 1 < |r| - 1;
        if i == 0 {
          assert audio[n..] != [];
        } else {
          assert s[i] == r[i - 1];
        }
      }
    }
  }

  /** A non-empty session is its first frame followed by the rest. */
  lemma SessionSplit(appId: string, encoding: string, audio: seq<byte>) returns (n: nat)
    requires audio != []
    ensures n == Min(FrameSize, |audio|) && 0 < n <= |audio|
    ensures Session(appId, encoding, audio) == [FirstFrame(appId, encoding, audio[..n])] + Rest(encoding, audio[n..])
  {
    n := Min(FrameSize, |audio|);
  }

  /**
   * The feeder always ends with a last frame (status 2) with no audio, and no other frame is a
   * last frame, so nothing is sent after it.
   */
  lemma SessionEndsWithEmptyLast(appId: string, encoding: string, audio: seq<byte>)
    ensures var s := Session(appId, encoding, audio);
      |s| >= 1 && s[|s| - 1].status == Last && s[|s| - 1].status.Code() == 2 && s[|s| - 1].audio == [] &&
      (forall i :: 0 <= i < |s| - 1 ==> s[i].status != Last && s[i].status.Code() != 2)
  {
    if audio != [] {
      var n := SessionSplit(appId, encoding, audio);
      var s := Session(appId, encoding, audio);
      var r := Rest(encoding, audio[n..]);
      RestLast(encoding, audio[n..]);
      RestContinues(encoding, audio[n..]);
      assert s[|s| - 1] == r[|r| - 1];
      forall i | 0 <= i < |s| - 1 ensures s[i].status != Last && s[i].status.Code() != 2 {
        if i > 0 {
          assert s[i] == r[i - 1];
        }
      }
    }
  }

  /**
   * A first frame (status 0) is sent exactly when the audio is non-empty; it is then the first
   * frame, and the only frame carrying the app id and business arguments. Empty audio sends
   * the last frame alone.
   */
  lemma SessionFirstFrame(appId: string, encoding: string, audio: seq<byte>)
    ensures var s := Session(appId, encoding, audio);
      ((exists i :: 0 <= i < |s| && s[i].status == First) <==> audio != []) &&
      (audio != [] ==> s[0].status == First && s[0].status.Code() == 0 && s[0].config == Some(Config(appId, BusinessArgs))) &&
      (forall i :: 0 <= i < |s| ==> (s[i].config.Some? <==> i == 0 && audio != [])) &&
      (forall i :: 0 < i < |s| ==> s[i].status != First) &&
      (audio == [] ==> s == [Frame(None, Last, AudioFormat, [], encoding)])
  {
    var s := Session(appId, encoding, audio);
    if audio != [] {
      var n := SessionSplit(appId, encoding, audio);
      var r := Rest(encoding, audio[n..]);
      RestLast(encoding, audio[n..]);
      RestContinues(encoding, audio[n..]);
      assert s[0].status == First;
      forall i | 0 < i < |s| ensures s[i].status != First && s[i].config == None {
        assert s[i] == r[i - 1];
      }
    } else {
      assert s[0].status == Last;
    }
  }

  /**
   * For non-empty audio of length L the feeder sends ceil(L / 8000) + 1 frames, and every frame
   * strictly between the first and the last is a continue frame (status 1) with audio.
   */
  lemma SessionFrameCount(appId: string, encoding: string, audio: seq<byte>)
    requires audio != []
    ensures var s := Session(appId, encoding, audio);
      |s| == (|audio| + FrameSize - 1) / FrameSize + 1 &&
      (forall i :: 0 < i < |s| - 1 ==> s[i].status == Continue && s[i].status.Code() == 1 && s[i].audio != [])
  {
    var s := Session(appId, encoding, audio);
    var n := SessionSplit(appId, encoding, audio);
    var r := Rest(encoding, audio[n..]);
    RestLength(encoding, audio[n..]);
    RestContinues(encoding, audio[n..]);
    assert |audio[n..]| == |audio| - n;
    if |audio| <= FrameSize {
      assert n == |audio|;
      assert |r| == 1;
    } else {
      assert n == FrameSize;
      assert (|audio| - FrameSize + FrameSize - 1) / FrameSize + 1 == (|audio| + FrameSize - 1) / FrameSize;
    }
    forall i | 0 < i < |s| - 1 ensures s[i].status == Continue && s[i].status.Code() == 1 && s[i].audio != [] {
      assert s[i] == r[i - 1];
    }
  }

  /** 24000 bytes of audio give four frames, sent with status codes 0, 1, 1, 2, the last one empty. */
  lemma ThreeFullChunks(appId: string, encoding: string, audio: seq<byte>)
    requires |audio| == 24000
    ensures var s := Session(appId, encoding, audio);
      |s| == 4 && s[0].status.Code() == 0 && s[1].status.Code() == 1 && s[2].status.Code() == 1 &&
      s[3].status.Code() == 2 && s[3].audio == []
  {
    SessionFrameCount(appId, encoding, audio);
    SessionFirstFrame(appId, encoding, audio);
    SessionEndsWithEmptyLast(appId, encoding, audio);
  }

  /** Exactly one chunk of audio gives two frames: the first frame and the empty last frame. */
  lemma OneFullChunk(appId: string, encoding: string, audio: seq<byte>)
    requires |audio| == FrameSize
    ensures Session(appId, encoding, audio) ==
      [Frame(Some(Config(appId, BusinessArgs)), First, AudioFormat, audio, encoding),
       Frame(None, Last, AudioFormat, [], encoding)]
  {
    assert audio[..FrameSize] == audio;
    assert audio[FrameSize..] == [];
  }

  /** The "audio" field of a frame as it goes on the wire: the Base64 text of its chunk. */
  function AudioField(f: Frame): string
  {
    Base64(f.audio)
  }

  /**
   * A frame's "audio" field is Base64 text of 4 * ceil(n / 3) characters for a chunk of n bytes,
   * and it decodes back to the chunk; so every field of a session holds at most 10668 characters.
   */
  lemma FrameAudioDecodes(f: Frame)
    ensures var t := AudioField(f);
      Base64Decode(t) == Some(f.audio) && |t| == 4 * ((|f.audio| + 2) / 3) &&
      (|f.audio| <= FrameSize ==> |t| <= 10668)
  {
    Base64RoundTrip(f.audio);
    Base64Shape(f.audio);
    if |f.audio| <= FrameSize {
      ChunkFieldBound(|f.audio|);
    }
  }

  /** A chunk of at most 8000 bytes takes at most 10668 Base64 characters. */
  lemma ChunkFieldBound(n: nat)
    requires n <= FrameSize
    ensures 4 * ((n + 2) / 3) <= 10668
  {
    var q := (n + 2) / 3;
    assert 3 * q <= n + 2;
  }
}
