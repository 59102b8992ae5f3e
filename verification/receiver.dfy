/** The receiving page's data-channel handler: it reassembles each announced file from
    the binary frames that follow its metadata frame. */
module Receiver {
  import opened Common

  /** The MIME type used when the metadata frame's `type` is empty. */
  const DEFAULT_MIME: string := "application/octet-stream"

  /** The file announced by the latest metadata frame. */
  datatype FileInfo = FileInfo(name: string, mime: string, expected: nat)

  /** A reassembled file handed to the page. */
  datatype Delivery = Delivery(name: string, mime: string, data: seq<byte>)

  /** The handler's closure state: the received fragments in arrival order, their total
      length, and the current file (none before the first metadata frame). */
  datatype RecvState = RecvState(buffer: seq<seq<byte>>, receivedSize: nat, current: Option<FileInfo>)

  /** The state after one frame, and what was delivered on it. */
  datatype Reaction = Reaction(next: RecvState, out: seq<Delivery>)

  const Initial: RecvState := RecvState([], 0, None)

  /** `receivedSize` counts exactly the buffered bytes. */
  ghost predicate Consistent(st: RecvState)
  {
    st.receivedSize == TotalLength(st.buffer)
  }

  function MimeOrDefault(mime: string): string
  {
    if mime == "" then DEFAULT_MIME else mime
  }

  /** `dataChannel.onmessage`. A metadata frame starts a new file; a binary frame is
      buffered, and once the count reaches the announced size the whole buffer is
      delivered. Delivery does not reset the state. */
  function Receive(st: RecvState, frame: Frame): Reaction
  {
    match frame
    case MetaFrame(name, mime, size) =>
      Reaction(RecvState([], 0, Some(FileInfo(name, MimeOrDefault(mime), size))), [])
    case BinaryFrame(data) =>
      var buffer := st.buffer + [data];
      var next := RecvState(buffer, st.receivedSize + |data|, st.current);
      if st.current.Some? && next.receivedSize >= st.current.value.expected then
        Reaction(next, [Delivery(st.current.value.name, st.current.value.mime, Concat(buffer))])
      else
        Reaction(next, [])
  }

  /** The frame loop for a handler `step`: the frames in order, the state threaded
      through, the deliveries collected in order. */
  function Run(step: (RecvState, Frame) -> Reaction, st: RecvState, frames: seq<Frame>): Reaction
    decreases |frames|
  {
    if frames == [] then Reaction(st, [])
    else
      var first := step(st, frames[0]);
      var rest := Run(step, first.next, frames[1..]);
      Reaction(rest.next, first.out + rest.out)
  }

  /** The receiving page's handler over a sequence of frames. */
  function ReceiveAll(st: RecvState, frames: seq<Frame>): Reaction
  {
    Run(Receive, st, frames)
  }

  /** The handler keeps `receivedSize` equal to the total length of the buffer. */
  lemma ReceiveKeepsConsistent(st: RecvState, frame: Frame)
    requires Consistent(st)
    ensures Consistent(Receive(st, frame).next)
  {
    if frame.BinaryFrame? {
      ConcatAppend(st.buffer, frame.data);
    }
  }

  /** A binary frame delivers at most one file, and does so exactly when a file has been
      announced and the count has reached its size; the file is every fragment since the
      metadata frame, in arrival order, under the announced name and type. */
  lemma BinaryDeliversWhenComplete(st: RecvState, data: seq<byte>)
    requires Consistent(st)
    ensures |Receive(st, BinaryFrame(data)).out| <= 1
    ensures Receive(st, BinaryFrame(data)).out != [] <==>
              st.current.Some? && TotalLength(st.buffer) + |data| >= st.current.value.expected
    ensures Receive(st, BinaryFrame(data)).out != [] ==>
              Receive(st, BinaryFrame(data)).out[0] ==
              Delivery(st.current.value.name, st.current.value.mime, Concat(st.buffer) + data)
  {
    ConcatAppend(st.buffer, data);
  }

  /** A metadata frame delivers nothing, whatever its size (a zero-byte file included),
      and leaves nothing of the previous file behind. */
  lemma MetaStartsAfresh(st: RecvState, name: string, mime: string, size: nat)
    ensures Receive(st, MetaFrame(name, mime, size)).out == []
    ensures Receive(st, MetaFrame(name, mime, size)).next ==
            RecvState([], 0, Some(FileInfo(name, MimeOrDefault(mime), size)))
    ensures Consistent(Receive(st, MetaFrame(name, mime, size)).next)
  {
  }

  /** Frames handled in two batches end in the same state, with the same deliveries in
      the same order, as when handled in one, whatever the handler. */
  lemma {:induction false} RunAppend(step: (RecvState, Frame) -> Reaction, st: RecvState, a: seq<Frame>, b: seq<Frame>)
    ensures Run(step, st, a + b).next == Run(step, Run(step, st, a).next, b).next
    ensures Run(step, st, a + b).out == Run(step, st, a).out + Run(step, Run(step, st, a).next, b).out
    decreases |a|
  {
    if a == [] {
      assert a + b == b;
    } else {
      var ab := a + b;
      assert ab[0] == a[0] && ab[1..] == a[1..] + b;
      var first := step(st, a[0]);
      var x := Run(step, first.next, a[1..]);
      var y := Run(step, x.next, b);
      RunAppend(step, first.next, a[1..], b);
      assert first.out + (x.out + y.out) == (first.out + x.out) + y.out;
    }
  }

  /** What follows a metadata frame does not depend on anything before it: a partly
      received file is silently dropped. */
  lemma MetaForgetsThePast(st1: RecvState, st2: RecvState, name: string, mime: string, size: nat, frames: seq<Frame>)
    ensures ReceiveAll(st1, [MetaFrame(name, mime, size)] + frames) == ReceiveAll(st2, [MetaFrame(name, mime, size)] + frames)
  {
    var fs := [MetaFrame(name, mime, size)] + frames;
    assert fs[0] == MetaFrame(name, mime, size) && fs[1..] == frames;
  }

  function BinaryFrames(cs: seq<seq<byte>>): seq<Frame>
  {
    seq(|cs|, k requires 0 <= k < |cs| => BinaryFrame(cs[k]))
  }

  /** The first frame of a non-empty sequence is handled first, the rest from the state
      it leaves. */
  lemma ReceiveAllFirst(st: RecvState, frames: seq<Frame>)
    requires frames != []
    ensures ReceiveAll(st, frames).next == ReceiveAll(Receive(st, frames[0]).next, frames[1..]).next
    ensures ReceiveAll(st, frames).out == Receive(st, frames[0]).out + ReceiveAll(Receive(st, frames[0]).next, frames[1..]).out
  {
  }

  /** A binary frame after a metadata frame: the fragment is buffered and counted, and
      the buffer is delivered exactly when the count reaches the announced size. */
  lemma BinaryStep(st: RecvState, c: seq<byte>)
    requires Consistent(st) && st.current.Some?
    ensures Receive(st, BinaryFrame(c)).next == RecvState(st.buffer + [c], TotalLength(st.buffer + [c]), st.current)
    ensures Receive(st, BinaryFrame(c)).out ==
            if TotalLength(st.buffer + [c]) >= st.current.value.expected
            then [Delivery(st.current.value.name, st.current.value.mime, Concat(st.buffer + [c]))]
            else []
  {
    ConcatAppend(st.buffer, c);
  }

  /** Every fragment carries at least one byte. */
  predicate AllNonEmpty(cs: seq<seq<byte>>)
  {
    forall k :: 0 <= k < |cs| ==> cs[k] != []
  }

  /** The first of the remaining fragments: it is buffered and counted; it completes the
      file exactly when it is the last one. */
  lemma FirstFragment(st: RecvState, cs: seq<seq<byte>>)
    requires Consistent(st) && st.current.Some? && cs != [] && AllNonEmpty(cs)
    requires TotalLength(st.buffer) + TotalLength(cs) == st.current.value.expected
    ensures var r := Receive(st, BinaryFrame(cs[0]));
            Consistent(r.next) && r.next.current == st.current && r.next.buffer + cs[1..] == st.buffer + cs &&
            TotalLength(r.next.buffer) + TotalLength(cs[1..]) == st.current.value.expected &&
            r.out == (if cs[1..] == [] then [Delivery(st.current.value.name, st.current.value.mime, Concat(st.buffer + cs))] else [])
  {
    var c := cs[0];
    var rest := cs[1..];
    assert cs == [c] + rest;
    assert st.buffer + [c] + rest == st.buffer + cs;
    BinaryStep(st, c);
    ConcatAppend(st.buffer, c);
    ConcatPrepend(c, rest);
    if rest != [] {
      ConcatPrepend(rest[0], rest[1..]);
      assert rest == [rest[0]] + rest[1..];
    } else {
      assert st.buffer + [c] == st.buffer + cs;
    }
  }

  /** Reassembly: non-empty fragments that add up to the announced size are delivered
      once, on the last of them, as the buffer followed by all the fragments. */
  lemma {:induction false} ReassemblesOnLastFragment(st: RecvState, cs: seq<seq<byte>>)
    requires Consistent(st) && st.current.Some? && AllNonEmpty(cs)
    requires TotalLength(st.buffer) + TotalLength(cs) == st.current.value.expected
    ensures ReceiveAll(st, BinaryFrames(cs)).out ==
            (if cs == [] then [] else [Delivery(st.current.value.name, st.current.value.mime, Concat(st.buffer + cs))])
    ensures ReceiveAll(st, BinaryFrames(cs)).next ==
            RecvState(st.buffer + cs, TotalLength(st.buffer + cs), st.current)
    decreases |cs|
  {
    var frames := BinaryFrames(cs);
    if cs == [] {
      assert frames == [];
      assert ReceiveAll(st, frames) == Reaction(st, []);
      assert st.buffer + cs == st.buffer;
    } else {
      var rest := cs[1..];
      assert frames[0] == BinaryFrame(cs[0]) && frames[1..] == BinaryFrames(rest);
      ReceiveAllFirst(st, frames);
      FirstFragment(st, cs);
      var mid := Receive(st, BinaryFrame(cs[0])).next;
      var tail := ReceiveAll(mid, BinaryFrames(rest));
      if rest == [] {
        assert BinaryFrames(rest) == [];
        assert tail == Reaction(mid, []);
        assert mid.buffer == mid.buffer + rest == st.buffer + cs;
      } else {
        assert AllNonEmpty(rest);
        ReassemblesOnLastFragment(mid, rest);
        assert tail.next == RecvState(st.buffer + cs, TotalLength(st.buffer + cs), st.current);
      }
    }
  }

  /** A file announced as 40000 bytes and sent in frames of 16384, 16384 and 7232 bytes:
      nothing is delivered after the first two (32768 < 40000) and exactly one file of
      40000 bytes after the third. */
  lemma FortyThousandByteFile(name: string, d1: seq<byte>, d2: seq<byte>, d3: seq<byte>)
    requires |d1| == 16384 && |d2| == 16384 && |d3| == 7232
    ensures var s0 := Receive(Initial, MetaFrame(name, "", 40000)).next;
            var r1 := Receive(s0, BinaryFrame(d1));
            var r2 := Receive(r1.next, BinaryFrame(d2));
            var r3 := Receive(r2.next, BinaryFrame(d3));
            r1.out == [] && r2.out == [] && r2.next.receivedSize == 32768 &&
            r3.out == [Delivery(name, DEFAULT_MIME, d1 + d2 + d3)] && |r3.out[0].data| == 40000
  {
    var s0 := Receive(Initial, MetaFrame(name, "", 40000)).next;
    var r1 := Receive(s0, BinaryFrame(d1));
    var r2 := Receive(r1.next, BinaryFrame(d2));
    ConcatAppend([], d1);
    ConcatAppend([d1], d2);
    ConcatAppend([d1, d2], d3);
    assert [] + [d1] == [d1];
    assert [d1] + [d2] == [d1, d2];
    assert [d1, d2] + [d3] == [d1, d2, d3];
    assert r2.next.buffer == [d1, d2];
    assert Concat([d1]) == d1;
    assert Concat([d1, d2]) == d1 + d2;
    assert Concat([d1, d2, d3]) == d1 + d2 + d3;
  }

  /** Completion does not reset the state: any further binary frame before the next
      metadata frame delivers again, everything received so far including the surplus. */
  lemma SurplusFrameDeliversAgain(st: RecvState, data: seq<byte>)
    requires Consistent(st) && st.current.Some?
    requires TotalLength(st.buffer) >= st.current.value.expected
    ensures Receive(st, BinaryFrame(data)).out ==
            [Delivery(st.current.value.name, st.current.value.mime, Concat(st.buffer) + data)]
  {
    ConcatAppend(st.buffer, data);
  }

  /** Before any metadata frame, binary frames are buffered but never delivered. */
  lemma {:induction false} NothingBeforeMeta(st: RecvState, cs: seq<seq<byte>>)
    requires st.current.None?
    ensures ReceiveAll(st, BinaryFrames(cs)).out == []
    ensures ReceiveAll(st, BinaryFrames(cs)).next.current.None?
    decreases |cs|
  {
    var frames := BinaryFrames(cs);
    if cs != [] {
      assert frames[1..] == BinaryFrames(cs[1..]);
      NothingBeforeMeta(Receive(st, frames[0]).next, cs[1..]);
    } else {
      assert frames == [];
    }
  }

  /** The handler's state on the receiving page, with the files delivered so far. */
  class ChannelReceiver {
    var buffer: seq<seq<byte>>
    var receivedSize: nat
    var current: Option<FileInfo>
    var delivered: seq<Delivery>

    function State(): RecvState
      reads this
    {
      RecvState(buffer, receivedSize, current)
    }

    ghost predicate Valid()
      reads this
    {
      Consistent(State())
    }

    constructor ()
      ensures Valid() && State() == Initial && delivered == []
    {
      buffer := [];
      receivedSize := 0;
      current := None;
      delivered := [];
    }

    /** One frame arriving on the data channel. */
    method OnMessage(frame: Frame)
      requires Valid()
      modifies this
      ensures Valid()
      ensures State() == Receive(old(State()), frame).next
      ensures delivered == old(delivered) + Receive(old(State()), frame).out
    {
      ReceiveKeepsConsistent(State(), frame);
      ghost var r := Receive(State(), frame);
      match frame
      case MetaFrame(name, mime, size) =>
        current := Some(FileInfo(name, MimeOrDefault(mime), size));
        receivedSize := 0;
        buffer := [];
        assert State() == r.next && r.out == [];
      case BinaryFrame(data) =>
        buffer := buffer + [data];
        receivedSize := receivedSize + |data|;
        assert State() == r.next;
        if current.Some? && receivedSize >= current.value.expected {
          delivered := delivered + [Delivery(current.value.name, current.value.mime, Concat(buffer))];
        }
    }
  }

  // ---------------------------------------------------------------------------
  // The completion branch as written

  /** What a binary frame does when the completion branch calls a function the page does
      not define: the buffer and count are updated, then the call throws, so nothing is
      ever handed to the page. Like `Receive`, this takes `currentFileName`,
      `currentFileType` and `expectedFileSize` to be declared; in strict mode their
      undeclared use throws on every frame, before this point. */
  datatype AsWritten = AsWritten(next: RecvState, threw: bool)

  function ReceiveAsWritten(st: RecvState, frame: Frame): AsWritten
  {
    match frame
    case MetaFrame(name, mime, size) =>
      AsWritten(RecvState([], 0, Some(FileInfo(name, MimeOrDefault(mime), size))), false)
    case BinaryFrame(data) =>
      var next := RecvState(st.buffer + [data], st.receivedSize + |data|, st.current);
      AsWritten(next, st.current.Some? && next.receivedSize >= st.current.value.expected)
  }

  /** As written, the 40000-byte file of `FortyThousandByteFile` throws on its last frame
      instead of being delivered, while `Receive` delivers it. */
  lemma AsWrittenLosesCompletedFile(name: string, d1: seq<byte>, d2: seq<byte>, d3: seq<byte>)
    requires |d1| == 16384 && |d2| == 16384 && |d3| == 7232
    ensures var s0 := ReceiveAsWritten(Initial, MetaFrame(name, "", 40000)).next;
            var r1 := ReceiveAsWritten(s0, BinaryFrame(d1));
            var r2 := ReceiveAsWritten(r1.next, BinaryFrame(d2));
            var r3 := ReceiveAsWritten(r2.next, BinaryFrame(d3));
            !r1.threw && !r2.threw && r3.threw
    ensures var s0 := Receive(Initial, MetaFrame(name, "", 40000)).next;
            Receive(Receive(Receive(s0, BinaryFrame(d1)).next, BinaryFrame(d2)).next, BinaryFrame(d3)).out != []
  {
    FortyThousandByteFile(name, d1, d2, d3);
  }

  /** The as-written handler moves through the same states as `Receive`, and throws
      exactly where `Receive` delivers. */
  lemma AsWrittenThrowsWhereReceiveDelivers(st: RecvState, frame: Frame)
    ensures ReceiveAsWritten(st, frame).next == Receive(st, frame).next
    ensures ReceiveAsWritten(st, frame).threw <==> Receive(st, frame).out != []
  {
  }
}
