/** The sender page: connecting to a session, the one-time peer connection set-up,
    and the chunked, paced transmission of the picked files over the data channel. */
module Sender {
  import opened Common
  import Helpers

  /** Bytes per binary frame (16 KiB). */
  const CHUNK_SIZE: nat := 16 * 1024
  /** A chunk is held back while more than this many bytes are queued on the channel. */
  const HIGH_WATERMARK: nat := CHUNK_SIZE * 16
  /** The buffered-amount-low threshold the sender then waits for. */
  const LOW_WATERMARK: nat := CHUNK_SIZE * 8

  // ---------------------------------------------------------------------------
  // Connecting

  /** What a click on "connect", or the page load with QR parameters, leads to. */
  datatype ConnectAction =
    | AlertInvalidSession
    | AlertInvalidToken
    | ShowInvalidStatus
    | ConnectTo(sessionId: string, token: string)

  /** An input field's value as the connect handler reads it: trimmed, then lower-cased. */
  function Normalise(input: string): string
  {
    ToLower(Trim(input))
  }

  /** The connect button: the session id is checked first, then the token. */
  function ManualConnect(sessionInput: string, tokenInput: string): ConnectAction
  {
    var sessionId := Normalise(sessionInput);
    var token := Normalise(tokenInput);
    if !Helpers.IsValidSessionId(sessionId) then AlertInvalidSession
    else if !Helpers.IsValidToken(token) then AlertInvalidToken
    else ConnectTo(sessionId, token)
  }

  /** Page load: the `session` and `token` URL parameters ("" when absent) are
      lower-cased but not trimmed, and connected to only when both are valid. */
  function QrConnect(sessionParam: Option<string>, tokenParam: Option<string>): ConnectAction
  {
    var sessionId := ToLower(if sessionParam.Some? then sessionParam.value else "");
    var token := ToLower(if tokenParam.Some? then tokenParam.value else "");
    if Helpers.IsValidSessionId(sessionId) && Helpers.IsValidToken(token) then ConnectTo(sessionId, token)
    else ShowInvalidStatus
  }

  /** The session id and token handed to `connectToSession` are always valid, and are
      the trimmed, lower-cased inputs. An invalid session id is reported whatever the
      token is. */
  lemma ManualConnectOnlyWhenValid(sessionInput: string, tokenInput: string)
    ensures !Helpers.IsValidSessionId(Normalise(sessionInput)) ==> ManualConnect(sessionInput, tokenInput) == AlertInvalidSession
    ensures ManualConnect(sessionInput, tokenInput).ConnectTo? <==>
              Helpers.IsValidSessionId(Normalise(sessionInput)) && Helpers.IsValidToken(Normalise(tokenInput))
    ensures ManualConnect(sessionInput, tokenInput).ConnectTo? ==>
              var a := ManualConnect(sessionInput, tokenInput);
              Helpers.IsValidSessionId(a.sessionId) && Helpers.IsValidToken(a.token) &&
              a.sessionId == Normalise(sessionInput) && a.token == Normalise(tokenInput)
  {
  }

  /** `trimStart` stops at the first character that is kept. */
  lemma {:induction false} TrimStartStopsAt(s: string, j: nat)
    requires j <= |s| && (j < |s| ==> !IsTrimmable(s[j]))
    requires forall i :: 0 <= i < j ==> IsTrimmable(s[i])
    ensures TrimStart(s) == s[j..]
    decreases j
  {
    if j > 0 {
      assert s[1..][j - 1..] == s[j..];
      TrimStartStopsAt(s[1..], j - 1);
    }
  }

  /** `trimEnd` stops at the last character that is kept. */
  lemma {:induction false} TrimEndStopsAt(s: string, j: nat)
    requires j <= |s| && (0 < j ==> !IsTrimmable(s[j - 1]))
    requires forall i :: j <= i < |s| ==> IsTrimmable(s[i])
    ensures TrimEnd(s) == s[..j]
    decreases |s| - j
  {
    if j < |s| {
      assert s[..|s| - 1][..j] == s[..j];
      TrimEndStopsAt(s[..|s| - 1], j);
    }
  }

  /** Surrounding whitespace is trimmed away. */
  lemma TrimPadded(w1: string, x: string, w2: string)
    requires forall i :: 0 <= i < |w1| ==> IsTrimmable(w1[i])
    requires forall i :: 0 <= i < |w2| ==> IsTrimmable(w2[i])
    requires forall i :: 0 <= i < |x| ==> !IsTrimmable(x[i])
    ensures Trim(w1 + x + w2) == x
  {
    var s := w1 + x + w2;
    if x == [] {
      TrimStartStopsAt(s, |s|);
    } else {
      TrimStartStopsAt(s, |w1|);
      assert s[|w1|..] == x + w2;
      TrimEndStopsAt(x + w2, |x|);
      assert (x + w2)[..|x|] == x;
    }
  }

  /** A valid id or token typed with upper-case letters and surrounded by whitespace is
      accepted, and connected to in its lower-case form. */
  lemma ManualConnectForgivesPaddingAndCase(w1: string, sessionInput: string, w2: string,
                                            w3: string, tokenInput: string, w4: string)
    requires forall i :: 0 <= i < |w1| ==> IsTrimmable(w1[i])
    requires forall i :: 0 <= i < |w2| ==> IsTrimmable(w2[i])
    requires forall i :: 0 <= i < |w3| ==> IsTrimmable(w3[i])
    requires forall i :: 0 <= i < |w4| ==> IsTrimmable(w4[i])
    requires Helpers.IsValidSessionId(ToLower(sessionInput))
    requires Helpers.IsValidToken(ToLower(tokenInput))
    ensures ManualConnect(w1 + sessionInput + w2, w3 + tokenInput + w4) ==
            ConnectTo(ToLower(sessionInput), ToLower(tokenInput))
  {
    assert forall i :: 0 <= i < |sessionInput| ==> !IsTrimmable(sessionInput[i]) by {
      forall i | 0 <= i < |sessionInput| ensures !IsTrimmable(sessionInput[i]) {
        assert Helpers.IsLowerAlnum(ToLower(sessionInput)[i]);
      }
    }
    assert forall i :: 0 <= i < |tokenInput| ==> !IsTrimmable(tokenInput[i]) by {
      forall i | 0 <= i < |tokenInput| ensures !IsTrimmable(tokenInput[i]) {
        assert Helpers.IsLowerAlnum(ToLower(tokenInput)[i]);
      }
    }
    TrimPadded(w1, sessionInput, w2);
    TrimPadded(w3, tokenInput, w4);
  }

  /** The QR path connects exactly when both lower-cased parameters are valid, and then
      with those lower-cased values; a missing parameter, or one with surrounding
      whitespace, is refused. */
  lemma QrConnectOnlyWhenValid(sessionParam: Option<string>, tokenParam: Option<string>)
    ensures (sessionParam.None? || tokenParam.None?) ==> QrConnect(sessionParam, tokenParam) == ShowInvalidStatus
    ensures QrConnect(sessionParam, tokenParam).ConnectTo? ==>
              Helpers.IsValidSessionId(QrConnect(sessionParam, tokenParam).sessionId) &&
              Helpers.IsValidToken(QrConnect(sessionParam, tokenParam).token)
    ensures sessionParam.Some? && sessionParam.value != [] && IsTrimmable(sessionParam.value[0]) ==>
              QrConnect(sessionParam, tokenParam) == ShowInvalidStatus
    ensures sessionParam.Some? && tokenParam.Some? &&
            Helpers.IsValidSessionId(ToLower(sessionParam.value)) && Helpers.IsValidToken(ToLower(tokenParam.value)) ==>
              QrConnect(sessionParam, tokenParam) == ConnectTo(ToLower(sessionParam.value), ToLower(tokenParam.value))
    ensures QrConnect(sessionParam, tokenParam).ConnectTo? ==>
              sessionParam.Some? && tokenParam.Some? &&
              QrConnect(sessionParam, tokenParam) == ConnectTo(ToLower(sessionParam.value), ToLower(tokenParam.value))
  {
    if sessionParam.Some? && sessionParam.value != [] && IsTrimmable(sessionParam.value[0]) {
      assert !Helpers.IsLowerAlnum(ToLower(sessionParam.value)[0]);
    }
  }

  /** A click on "connect" once the page has loaded. The button's handler is installed
      when the script runs; the load handler runs later and, when the QR parameters are
      valid, replaces it with one that reconnects to the QR session. */
  function ConnectClick(sessionParam: Option<string>, tokenParam: Option<string>,
                        sessionInput: string, tokenInput: string): ConnectAction
  {
    var qr := QrConnect(sessionParam, tokenParam);
    if qr.ConnectTo? then qr else ManualConnect(sessionInput, tokenInput)
  }

  /** On a page opened with a valid QR session the button ignores both input fields and
      reconnects to that session; on any other page it is the manual handler. Either
      way it connects only with a valid id and token. */
  lemma ConnectClickHandler(sessionParam: Option<string>, tokenParam: Option<string>,
                            sessionInput: string, tokenInput: string,
                            otherSession: string, otherToken: string)
    ensures sessionParam.Some? && tokenParam.Some? &&
            Helpers.IsValidSessionId(ToLower(sessionParam.value)) && Helpers.IsValidToken(ToLower(tokenParam.value)) ==>
              ConnectClick(sessionParam, tokenParam, sessionInput, tokenInput)
                == ConnectTo(ToLower(sessionParam.value), ToLower(tokenParam.value))
              && ConnectClick(sessionParam, tokenParam, sessionInput, tokenInput)
                == ConnectClick(sessionParam, tokenParam, otherSession, otherToken)
    ensures (sessionParam.None? || tokenParam.None?) ==>
              ConnectClick(sessionParam, tokenParam, sessionInput, tokenInput) == ManualConnect(sessionInput, tokenInput)
    ensures ConnectClick(sessionParam, tokenParam, sessionInput, tokenInput).ConnectTo? ==>
              var a := ConnectClick(sessionParam, tokenParam, sessionInput, tokenInput);
              Helpers.IsValidSessionId(a.sessionId) && Helpers.IsValidToken(a.token)
  {
    QrConnectOnlyWhenValid(sessionParam, tokenParam);
    ManualConnectOnlyWhenValid(sessionInput, tokenInput);
  }

  // ---------------------------------------------------------------------------
  // The page's peer connection

  /** The module-level `pc` and `dataChannel` of the sender page. Peer connections and
      their channels are named by the number of peer connections created before them. */
  class SenderPage {
    var pc: Option<nat>
    var dataChannel: Option<nat>
    var created: nat

    ghost predicate Valid()
      reads this
    {
      (pc.None? <==> dataChannel.None?) &&
      (pc.None? ==> created == 0) &&
      (pc.Some? ==> created == 1 && pc.value == 0 && dataChannel == pc)
    }

    constructor ()
      ensures Valid() && pc.None? && dataChannel.None? && created == 0
    {
      pc := None;
      dataChannel := None;
      created := 0;
    }

    /** Creates the peer connection and its `fileTransfer` data channel, unless one
        already exists, in which case nothing changes. */
    method SetupPeerConnection()
      requires Valid()
      modifies this
      ensures Valid()
      ensures old(pc).Some? ==> pc == old(pc) && dataChannel == old(dataChannel) && created == old(created)
      ensures old(pc).None? ==> pc == Some(old(created)) && dataChannel == pc && created == old(created) + 1
      ensures pc.Some? && created == 1
    {
      if pc.Some? {
        return;
      }
      pc := Some(created);
      dataChannel := pc;
      created := created + 1;
    }
  }

  // ---------------------------------------------------------------------------
  // Sending one file

  /** What the sender does on the data channel: send a frame, or wait until the queued
      amount falls to `threshold` bytes. */
  datatype Step = Send(frame: Frame) | AwaitDrain(threshold: nat)

  function MetaOf(f: File): Frame
  {
    MetaFrame(f.name, f.mime, |f.data|)
  }

  /** `file.slice(offset, offset + CHUNK_SIZE)`. */
  function Slice(data: seq<byte>, offset: nat): seq<byte>
    requires offset <= |data|
  {
    data[offset..Min(offset + CHUNK_SIZE, |data|)]
  }

  /** The slices the loop reads while `offset < size`, starting at `offset`. */
  function ChunksFrom(data: seq<byte>, offset: nat): seq<seq<byte>>
    requires offset <= |data|
    decreases |data| - offset
  {
    if offset == |data| then [] else [Slice(data, offset)] + ChunksFrom(data, offset + |Slice(data, offset)|)
  }

  function Chunks(data: seq<byte>): seq<seq<byte>>
  {
    ChunksFrom(data, 0)
  }

  /** One round of the loop: the buffered amount is checked once; above the high
      watermark the sender waits for the low-watermark event, then sends the chunk. */
  function Attempt(chunk: seq<byte>, bufferedAmount: nat): seq<Step>
  {
    (if bufferedAmount > HIGH_WATERMARK then [AwaitDrain(LOW_WATERMARK)] else []) + [Send(BinaryFrame(chunk))]
  }

  /** The rounds for chunks `cs`, the first of them being round `i`; `bufferedAt(k)` is
      the channel's buffered amount at the check of round k. */
  function Paced(cs: seq<seq<byte>>, i: nat, bufferedAt: nat -> nat): seq<Step>
    decreases |cs|
  {
    if cs == [] then [] else Attempt(cs[0], bufferedAt(i)) + Paced(cs[1..], i + 1, bufferedAt)
  }

  /** Everything `sendFileOverDataChannel` does with the channel when no send fails. */
  function Transcript(f: File, bufferedAt: nat -> nat): seq<Step>
  {
    [Send(MetaOf(f))] + Paced(Chunks(f.data), 0, bufferedAt)
  }

  /** The frames of a list of steps, in order. */
  function SentFrames(steps: seq<Step>): seq<Frame>
  {
    if steps == [] then []
    else (if steps[0].Send? then [steps[0].frame] else []) + SentFrames(steps[1..])
  }

  /** The steps before the k-th send (counting from 0). */
  function Cut(steps: seq<Step>, k: nat): seq<Step>
  {
    if steps == [] then []
    else if steps[0].Send? then (if k == 0 then [] else [steps[0]] + Cut(steps[1..], k - 1))
    else [steps[0]] + Cut(steps[1..], k)
  }

  lemma {:induction false} SentFramesAppend(a: seq<Step>, b: seq<Step>)
    ensures SentFrames(a + b) == SentFrames(a) + SentFrames(b)
    decreases |a|
  {
    if a != [] {
      assert (a + b)[0] == a[0];
      assert (a + b)[1..] == a[1..] + b;
      SentFramesAppend(a[1..], b);
    } else {
      assert a + b == b;
    }
  }

  lemma {:induction false} CutBeforeSend(pre: seq<Step>, s: Step, rest: seq<Step>, k: nat)
    requires s.Send? && |SentFrames(pre)| == k
    ensures Cut(pre + [s] + rest, k) == pre
    decreases |pre|
  {
    if pre == [] {
      assert pre + [s] + rest == [s] + rest;
    } else {
      assert (pre + [s] + rest)[1..] == pre[1..] + [s] + rest;
      CutBeforeSend(pre[1..], s, rest, if pre[0].Send? then k - 1 else k);
    }
  }

  /** `sendFileOverDataChannel`. `throwsAt` names the send call (0 being the metadata,
      k the k-th chunk) that throws, if any; the steps taken are returned in `log`.
      Without a failure the log is the whole transcript; after one it is the transcript
      up to the send that failed. */
  method SendFile(f: File, bufferedAt: nat -> nat, throwsAt: Option<nat>) returns (log: seq<Step>, ok: bool)
    ensures ok <==> throwsAt.None? || throwsAt.value > |Chunks(f.data)|
    ensures ok ==> log == Transcript(f, bufferedAt)
    ensures !ok ==> log == Cut(Transcript(f, bufferedAt), throwsAt.value)
  {
    var size := |f.data|;
    var failAt: int := if throwsAt.Some? then throwsAt.value else -1;  // -1: no send throws
    if failAt == 0 {
      CutBeforeSend([], Send(MetaOf(f)), Paced(Chunks(f.data), 0, bufferedAt), 0);
      return [], false;
    }
    log := [Send(MetaOf(f))];
    var offset := 0;
    var i := 0;
    while offset < size
      invariant InTranscript(f, bufferedAt, log, offset, i)
      invariant failAt < 0 || failAt > i
      decreases size - offset
    {
      var chunk := Slice(f.data, offset);
      var waits: seq<Step> := [];
      if bufferedAt(i) > HIGH_WATERMARK {
        waits := [AwaitDrain(LOW_WATERMARK)];
      }
      if failAt == i + 1 {
        RoundCut(f, bufferedAt, log, offset, i, chunk, waits);
        return log + waits, false;
      }
      RoundNext(f, bufferedAt, log, offset, i, chunk, waits);
      log := log + waits + [Send(BinaryFrame(chunk))];
      offset := offset + |chunk|;
      i := i + 1;
    }
    Finished(f, bufferedAt, log, offset, i);
    ok := true;
  }

  /** The loop's invariant: `log` is what has been done before round i, whose chunk starts
      at `offset`, and the remaining rounds complete the transcript. */
  ghost predicate InTranscript(f: File, bufferedAt: nat -> nat, log: seq<Step>, offset: nat, i: nat)
  {
    offset <= |f.data| &&
    log + Paced(ChunksFrom(f.data, offset), i, bufferedAt) == Transcript(f, bufferedAt) &&
    |SentFrames(log)| == i + 1
  }

  /** When the loop ends, the whole transcript has been done, one round per chunk. */
  lemma Finished(f: File, bufferedAt: nat -> nat, log: seq<Step>, offset: nat, i: nat)
    requires InTranscript(f, bufferedAt, log, offset, i) && offset >= |f.data|
    ensures log == Transcript(f, bufferedAt) && i == |Chunks(f.data)|
  {
    FramesSoFar(f, bufferedAt, log, Paced(ChunksFrom(f.data, offset), i, bufferedAt));
    assert log + [] == log;
  }

  /** A transcript split into what has been done and what remains: the frames of the two
      parts add up to the metadata frame and one frame per chunk. */
  lemma FramesSoFar(f: File, bufferedAt: nat -> nat, done: seq<Step>, remaining: seq<Step>)
    requires done + remaining == Transcript(f, bufferedAt)
    ensures |SentFrames(done)| + |SentFrames(remaining)| == |Chunks(f.data)| + 1
  {
    TranscriptFrames(f, bufferedAt);
    SentFramesAppend(done, remaining);
  }

  /** A send that throws in round i, the `chunk` read at `offset` after `waits`: what has
      happened by then is the transcript cut before its (i + 1)-th send. */
  lemma RoundCut(f: File, bufferedAt: nat -> nat, log: seq<Step>, offset: nat, i: nat, chunk: seq<byte>, waits: seq<Step>)
    requires offset < |f.data| && chunk == Slice(f.data, offset)
    requires waits == if bufferedAt(i) > HIGH_WATERMARK then [AwaitDrain(LOW_WATERMARK)] else []
    requires InTranscript(f, bufferedAt, log, offset, i)
    ensures i + 1 <= |Chunks(f.data)|
    ensures Cut(Transcript(f, bufferedAt), i + 1) == log + waits
  {
    var rest := Paced(ChunksFrom(f.data, offset + |chunk|), i + 1, bufferedAt);
    NextRound(f.data, offset, i, bufferedAt);
    FramesSoFar(f, bufferedAt, log, Paced(ChunksFrom(f.data, offset), i, bufferedAt));
    PacedFrames(ChunksFrom(f.data, offset), i, bufferedAt);
    assert Attempt(chunk, bufferedAt(i)) == waits + [Send(BinaryFrame(chunk))];
    Regroup(log, waits, Send(BinaryFrame(chunk)), rest);
    SentFramesAppend(log, waits);
    assert SentFrames(waits) == [];
    CutBeforeSend(log + waits, Send(BinaryFrame(chunk)), rest, i + 1);
  }

  /** A round whose send succeeds keeps the loop invariant: the steps taken followed by the
      remaining rounds are the whole transcript, and one more frame has been sent. */
  lemma RoundNext(f: File, bufferedAt: nat -> nat, log: seq<Step>, offset: nat, i: nat, chunk: seq<byte>, waits: seq<Step>)
    requires offset < |f.data| && chunk == Slice(f.data, offset)
    requires waits == if bufferedAt(i) > HIGH_WATERMARK then [AwaitDrain(LOW_WATERMARK)] else []
    requires InTranscript(f, bufferedAt, log, offset, i)
    ensures offset < offset + |chunk|
    ensures InTranscript(f, bufferedAt, log + waits + [Send(BinaryFrame(chunk))], offset + |chunk|, i + 1)
  {
    var rest := Paced(ChunksFrom(f.data, offset + |chunk|), i + 1, bufferedAt);
    NextRound(f.data, offset, i, bufferedAt);
    assert Attempt(chunk, bufferedAt(i)) == waits + [Send(BinaryFrame(chunk))];
    Regroup(log, waits, Send(BinaryFrame(chunk)), rest);
    SentFramesAppend(log, waits);
    assert SentFrames(waits) == [];
    SentFramesAppend(log + waits, [Send(BinaryFrame(chunk))]);
  }

  /** One more round of the loop: the next chunk is the slice at `offset`. */
  lemma NextRound(data: seq<byte>, offset: nat, i: nat, bufferedAt: nat -> nat)
    requires offset < |data|
    ensures ChunksFrom(data, offset) == [Slice(data, offset)] + ChunksFrom(data, offset + |Slice(data, offset)|)
    ensures Paced(ChunksFrom(data, offset), i, bufferedAt) ==
            Attempt(Slice(data, offset), bufferedAt(i)) + Paced(ChunksFrom(data, offset + |Slice(data, offset)|), i + 1, bufferedAt)
  {
    var cs := ChunksFrom(data, offset);
    assert cs[1..] == ChunksFrom(data, offset + |Slice(data, offset)|);
  }

  lemma Regroup(log: seq<Step>, waits: seq<Step>, s: Step, rest: seq<Step>)
    ensures log + (waits + [s] + rest) == (log + waits) + [s] + rest
    ensures log + (waits + [s] + rest) == (log + waits + [s]) + rest
  {
  }

  // ---------------------------------------------------------------------------
  // What one file puts on the wire

  /** The concatenated chunks are the file's bytes. */
  lemma {:induction false} ChunksFromCover(data: seq<byte>, offset: nat)
    requires offset <= |data|
    ensures Concat(ChunksFrom(data, offset)) == data[offset..]
    decreases |data| - offset
  {
    if offset < |data| {
      var slice := Slice(data, offset);
      ChunksFromCover(data, offset + |slice|);
      ConcatPrepend(slice, ChunksFrom(data, offset + |slice|));
      assert data[offset..] == slice + data[offset + |slice|..];
    }
  }

  lemma ChunksCoverFile(data: seq<byte>)
    ensures Concat(Chunks(data)) == data
  {
    ChunksFromCover(data, 0);
  }

  /** The k-th chunk from `offset` is `[offset + k*CHUNK_SIZE, min(offset + (k+1)*CHUNK_SIZE, size))`. */
  lemma {:induction false} ChunkFromAt(data: seq<byte>, offset: nat, k: nat)
    requires offset <= |data| && k < |ChunksFrom(data, offset)|
    ensures offset + k * CHUNK_SIZE < |data|
    ensures ChunksFrom(data, offset)[k] == data[offset + k * CHUNK_SIZE..Min(offset + (k + 1) * CHUNK_SIZE, |data|)]
    decreases k
  {
    if k > 0 {
      var slice := Slice(data, offset);
      assert ChunksFrom(data, offset)[k] == ChunksFrom(data, offset + |slice|)[k - 1];
      assert ChunksFrom(data, offset + |slice|) != [];
      assert |slice| == CHUNK_SIZE;
      ChunkFromAt(data, offset + CHUNK_SIZE, k - 1);
    }
  }

  /** Each chunk is the next 16 KiB of the file; all of them are full except the last,
      which is non-empty. */
  lemma ChunkShape(data: seq<byte>, k: nat)
    requires k < |Chunks(data)|
    ensures k * CHUNK_SIZE < |data|
    ensures Chunks(data)[k] == data[k * CHUNK_SIZE..Min((k + 1) * CHUNK_SIZE, |data|)]
    ensures 0 < |Chunks(data)[k]| <= CHUNK_SIZE
    ensures k < |Chunks(data)| - 1 ==> |Chunks(data)[k]| == CHUNK_SIZE
  {
    ChunkFromAt(data, 0, k);
    if k < |Chunks(data)| - 1 {
      ChunkFromAt(data, 0, k + 1);
    }
  }

  lemma {:induction false} ChunkFromCount(data: seq<byte>, offset: nat)
    requires offset <= |data|
    ensures |ChunksFrom(data, offset)| == (|data| - offset + CHUNK_SIZE - 1) / CHUNK_SIZE
    decreases |data| - offset
  {
    if offset < |data| {
      ChunkFromCount(data, offset + |Slice(data, offset)|);
    }
  }

  /** There are ceil(size / 16384) chunks, so an empty file is announced and nothing else. */
  lemma ChunkCount(f: File, bufferedAt: nat -> nat)
    ensures |Chunks(f.data)| == (|f.data| + CHUNK_SIZE - 1) / CHUNK_SIZE
    ensures |f.data| == 0 ==> Transcript(f, bufferedAt) == [Send(MetaOf(f))]
  {
    ChunkFromCount(f.data, 0);
  }

  /** Pacing decides when chunks go out, not what goes out. */
  lemma {:induction false} PacedFrames(cs: seq<seq<byte>>, i: nat, bufferedAt: nat -> nat)
    ensures SentFrames(Paced(cs, i, bufferedAt)) == seq(|cs|, k requires 0 <= k < |cs| => BinaryFrame(cs[k]))
    decreases |cs|
  {
    if cs != [] {
      var waits := if bufferedAt(i) > HIGH_WATERMARK then [AwaitDrain(LOW_WATERMARK)] else [];
      PacedFrames(cs[1..], i + 1, bufferedAt);
      SentFramesAppend(waits + [Send(BinaryFrame(cs[0]))], Paced(cs[1..], i + 1, bufferedAt));
      SentFramesAppend(waits, [Send(BinaryFrame(cs[0]))]);
      assert SentFrames([Send(BinaryFrame(cs[0]))]) == [BinaryFrame(cs[0])];
    }
  }

  /** The frames on the wire: exactly one metadata frame `{name, type, size}`, first,
      then one binary frame per chunk, in file order. */
  lemma TranscriptFrames(f: File, bufferedAt: nat -> nat)
    ensures SentFrames(Transcript(f, bufferedAt)) ==
            [MetaOf(f)] + seq(|Chunks(f.data)|, k requires 0 <= k < |Chunks(f.data)| => BinaryFrame(Chunks(f.data)[k]))
    ensures SentFrames(Transcript(f, bufferedAt))[0] == MetaFrame(f.name, f.mime, |f.data|)
    ensures forall p :: 0 < p < |SentFrames(Transcript(f, bufferedAt))| ==> SentFrames(Transcript(f, bufferedAt))[p].BinaryFrame?
  {
    PacedFrames(Chunks(f.data), 0, bufferedAt);
    SentFramesAppend([Send(MetaOf(f))], Paced(Chunks(f.data), 0, bufferedAt));
  }

  /** Number of rounds among `from, …, from + n - 1` whose check found the buffer above
      the high watermark. */
  function RoundsAboveHigh(bufferedAt: nat -> nat, from: nat, n: nat): nat
    decreases n
  {
    if n == 0 then 0 else (if bufferedAt(from) > HIGH_WATERMARK then 1 else 0) + RoundsAboveHigh(bufferedAt, from + 1, n - 1)
  }

  function Waits(steps: seq<Step>): nat
  {
    if steps == [] then 0 else (if steps[0].AwaitDrain? then 1 else 0) + Waits(steps[1..])
  }

  lemma {:induction false} WaitsAppend(a: seq<Step>, b: seq<Step>)
    ensures Waits(a + b) == Waits(a) + Waits(b)
    decreases |a|
  {
    if a != [] {
      assert (a + b)[0] == a[0];
      assert (a + b)[1..] == a[1..] + b;
      WaitsAppend(a[1..], b);
    } else {
      assert a + b == b;
    }
  }

  /** Backpressure: the sender waits once for each round whose check found more than
      16 chunks queued, and never otherwise; every wait is for the 8-chunk threshold and
      is followed directly by the send of a chunk, with no second check. */
  lemma {:induction false} PacingWaits(cs: seq<seq<byte>>, i: nat, bufferedAt: nat -> nat)
    ensures Waits(Paced(cs, i, bufferedAt)) == RoundsAboveHigh(bufferedAt, i, |cs|)
    ensures forall p :: 0 <= p < |Paced(cs, i, bufferedAt)| && Paced(cs, i, bufferedAt)[p].AwaitDrain? ==>
              Paced(cs, i, bufferedAt)[p].threshold == LOW_WATERMARK &&
              p + 1 < |Paced(cs, i, bufferedAt)| && Paced(cs, i, bufferedAt)[p + 1].Send? &&
              Paced(cs, i, bufferedAt)[p + 1].frame.BinaryFrame?
    decreases |cs|
  {
    if cs != [] {
      var attempt := Attempt(cs[0], bufferedAt(i));
      var rest := Paced(cs[1..], i + 1, bufferedAt);
      PacingWaits(cs[1..], i + 1, bufferedAt);
      WaitsAppend(attempt, rest);
      var waits := if bufferedAt(i) > HIGH_WATERMARK then [AwaitDrain(LOW_WATERMARK)] else [];
      WaitsAppend(waits, [Send(BinaryFrame(cs[0]))]);
      assert Paced(cs, i, bufferedAt) == attempt + rest;
      forall p | 0 <= p < |attempt + rest| && (attempt + rest)[p].AwaitDrain?
        ensures (attempt + rest)[p].threshold == LOW_WATERMARK &&
                p + 1 < |attempt + rest| && (attempt + rest)[p + 1].Send? &&
                (attempt + rest)[p + 1].frame.BinaryFrame?
      {
        if p >= |attempt| {
          assert (attempt + rest)[p] == rest[p - |attempt|];
          assert (attempt + rest)[p + 1] == rest[p + 1 - |attempt|];
        }
      }
    }
  }

  /** With the buffer never above the high watermark, the sender never waits. */
  lemma NoWaitBelowHighWatermark(f: File, bufferedAt: nat -> nat)
    requires forall k :: bufferedAt(k) <= HIGH_WATERMARK
    ensures forall p :: 0 <= p < |Transcript(f, bufferedAt)| ==> Transcript(f, bufferedAt)[p].Send?
  {
    var cs := Chunks(f.data);
    AllRoundsBelow(bufferedAt, 0, |cs|);
    PacingWaits(cs, 0, bufferedAt);
    NoWaitsAllSends(Paced(cs, 0, bufferedAt));
  }

  lemma {:induction false} AllRoundsBelow(bufferedAt: nat -> nat, from: nat, n: nat)
    requires forall k :: bufferedAt(k) <= HIGH_WATERMARK
    ensures RoundsAboveHigh(bufferedAt, from, n) == 0
    decreases n
  {
    if n > 0 {
      AllRoundsBelow(bufferedAt, from + 1, n - 1);
    }
  }

  lemma {:induction false} NoWaitsAllSends(steps: seq<Step>)
    requires Waits(steps) == 0
    ensures forall p :: 0 <= p < |steps| ==> steps[p].Send?
    decreases |steps|
  {
    if steps != [] {
      NoWaitsAllSends(steps[1..]);
      assert forall p :: 1 <= p < |steps| ==> steps[p] == steps[1..][p - 1];
    }
  }

  // ---------------------------------------------------------------------------
  // The send button

  /** How the channel behaves while one file is sent: its buffered amount at each check,
      and which send call, if any, throws. */
  datatype Conditions = Conditions(bufferedAt: nat -> nat, throwsAt: Option<nat>)

  datatype Sending = Sending(log: seq<Step>, ok: bool)

  datatype SendStatus = NoFilesAlert | ChannelNotOpenAlert | SendError | AllSent

  /** What `SendFile` does with one file. */
  function FileOutcome(f: File, c: Conditions): Sending
  {
    if c.throwsAt.None? || c.throwsAt.value > |Chunks(f.data)| then Sending(Transcript(f, c.bufferedAt), true)
    else Sending(Cut(Transcript(f, c.bufferedAt), c.throwsAt.value), false)
  }

  /** The files sent in order, stopping at the first that fails. */
  function Queue(files: seq<File>, conds: seq<Conditions>): Sending
    requires |conds| == |files|
    decreases |files|
  {
    if files == [] then Sending([], true)
    else
      var first := FileOutcome(files[0], conds[0]);
      if !first.ok then first
      else
        var rest := Queue(files[1..], conds[1..]);
        Sending(first.log + rest.log, rest.ok)
  }

  /** The transcripts of files that are all sent, one after the other. */
  function Transcripts(files: seq<File>, conds: seq<Conditions>): seq<Step>
    requires |conds| == |files|
    decreases |files|
  {
    if files == [] then [] else Transcript(files[0], conds[0].bufferedAt) + Transcripts(files[1..], conds[1..])
  }

  /** The send button's handler. Nothing is sent without files or without an open
      channel; otherwise the files go out in order until one fails. */
  method SendAll(files: seq<File>, channelOpen: bool, conds: seq<Conditions>) returns (log: seq<Step>, status: SendStatus)
    requires |conds| == |files|
    ensures files == [] ==> status == NoFilesAlert && log == []
    ensures files != [] && !channelOpen ==> status == ChannelNotOpenAlert && log == []
    ensures files != [] && channelOpen ==>
              log == Queue(files, conds).log &&
              status == (if Queue(files, conds).ok then AllSent else SendError)
  {
    if |files| == 0 {
      return [], NoFilesAlert;
    }
    if !channelOpen {
      return [], ChannelNotOpenAlert;
    }
    log := [];
    var i := 0;
    while i < |files|
      invariant 0 <= i <= |files|
      invariant log + Queue(files[i..], conds[i..]).log == Queue(files, conds).log
      invariant Queue(files[i..], conds[i..]).ok == Queue(files, conds).ok
    {
      DropOne(files, i);
      DropOne(conds, i);
      var part, ok := SendFile(files[i], conds[i].bufferedAt, conds[i].throwsAt);
      AppendAssoc(log, part, Queue(files[i + 1..], conds[i + 1..]).log);
      log := log + part;
      if !ok {
        return log, SendError;
      }
      i := i + 1;
    }
    assert log + [] == log;
    status := AllSent;
  }

  /** A file that goes through puts its whole transcript on the wire. */
  lemma OutcomeOk(f: File, c: Conditions)
    requires FileOutcome(f, c).ok
    ensures FileOutcome(f, c).log == Transcript(f, c.bufferedAt)
  {
  }

  /** A failure stops the queue: the files before the first failing one are sent in
      full, that one up to its failed send, and nothing after it. */
  lemma {:induction false} QueueStopsAtFirstFailure(files: seq<File>, conds: seq<Conditions>, j: nat)
    requires |conds| == |files| && j < |files|
    requires forall k :: 0 <= k < j ==> FileOutcome(files[k], conds[k]).ok
    requires !FileOutcome(files[j], conds[j]).ok
    ensures !Queue(files, conds).ok
    ensures Queue(files, conds).log == Transcripts(files[..j], conds[..j]) + FileOutcome(files[j], conds[j]).log
    decreases j
  {
    var last := FileOutcome(files[j], conds[j]).log;
    if j > 0 {
      var tf, tc := files[1..], conds[1..];
      forall k | 0 <= k < j - 1
        ensures FileOutcome(tf[k], tc[k]).ok
      {
        assert tf[k] == files[k + 1] && tc[k] == conds[k + 1];
      }
      assert tf[j - 1] == files[j] && tc[j - 1] == conds[j];
      QueueStopsAtFirstFailure(tf, tc, j - 1);
      assert FileOutcome(files[0], conds[0]).ok;
      OutcomeOk(files[0], conds[0]);
      PrefixTail(files, j);
      PrefixTail(conds, j);
      var head := Transcript(files[0], conds[0].bufferedAt);
      var mid := Transcripts(tf[..j - 1], tc[..j - 1]);
      assert Transcripts(files[..j], conds[..j]) == head + mid;
      AppendAssoc(head, mid, last);
    } else {
      assert files[..0] == [] && conds[..0] == [];
      assert Transcripts(files[..0], conds[..0]) + last == last;
    }
  }

  /** "All files sent!" is reported exactly when every file goes through, and then the
      wire carries every file's transcript in order. */
  lemma {:induction false} QueueSucceedsIffEveryFile(files: seq<File>, conds: seq<Conditions>)
    requires |conds| == |files|
    ensures Queue(files, conds).ok <==> forall k :: 0 <= k < |files| ==> FileOutcome(files[k], conds[k]).ok
    ensures Queue(files, conds).ok ==> Queue(files, conds).log == Transcripts(files, conds)
    decreases |files|
  {
    if files != [] {
      QueueSucceedsIffEveryFile(files[1..], conds[1..]);
      assert forall k :: 1 <= k < |files| ==> files[k] == files[1..][k - 1] && conds[k] == conds[1..][k - 1];
    }
  }
}
