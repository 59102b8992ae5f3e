/** The pieces put together: a session minted by the receiving page is accepted by the
    sender page and the server, and the frames the sender puts on the data channel are
    reassembled by the receiver into the files that were picked. */
module Transfer {
  import opened Common
  import Helpers
  import Server
  import Sender
  import Receiver

  /** The file as the receiving page hands it over. */
  function Received(f: File): Receiver.Delivery
  {
    Receiver.Delivery(f.name, Receiver.MimeOrDefault(f.mime), f.data)
  }

  /** The frames of one file's transcript, whatever the pacing, delivered to the
      receiver in whatever state it is in: a non-empty file is delivered exactly once,
      with its bytes, name and type; an empty file is never delivered. The receiver is
      left holding the file's chunks. */
  lemma RoundTrip(st: Receiver.RecvState, f: File, bufferedAt: nat -> nat)
    ensures Receiver.ReceiveAll(st, Sender.SentFrames(Sender.Transcript(f, bufferedAt))).out ==
            (if f.data == [] then [] else [Received(f)])
    ensures Receiver.ReceiveAll(st, Sender.SentFrames(Sender.Transcript(f, bufferedAt))).next ==
            Receiver.RecvState(Sender.Chunks(f.data), |f.data|,
                               Some(Receiver.FileInfo(f.name, Receiver.MimeOrDefault(f.mime), |f.data|)))
  {
    var cs := Sender.Chunks(f.data);
    Sender.TranscriptFrames(f, bufferedAt);
    Sender.ChunksCoverFile(f.data);
    var frames := Sender.SentFrames(Sender.Transcript(f, bufferedAt));
    assert frames == [Sender.MetaOf(f)] + Receiver.BinaryFrames(cs);
    var announced := Receiver.Receive(st, Sender.MetaOf(f)).next;
    assert frames[0] == Sender.MetaOf(f) && frames[1..] == Receiver.BinaryFrames(cs);
    assert Receiver.ReceiveAll(st, frames) == Receiver.ReceiveAll(announced, Receiver.BinaryFrames(cs));
    forall k | 0 <= k < |cs|
      ensures cs[k] != []
    {
      Sender.ChunkShape(f.data, k);
    }
    assert Receiver.AllNonEmpty(cs);
    assert announced.buffer == [] && [] + cs == cs;
    Receiver.ReassemblesOnLastFragment(announced, cs);
    if f.data == [] {
      Sender.ChunkCount(f, bufferedAt);
    }
  }

  /** What the receiving page delivers for a queue of files: the non-empty ones, in order. */
  function ReceivedAll(files: seq<File>): seq<Receiver.Delivery>
  {
    if files == [] then []
    else (if files[0].data == [] then [] else [Received(files[0])]) + ReceivedAll(files[1..])
  }

  /** When "All files sent!" is reported, the receiver has been handed every non-empty
      file, in the order they were picked, and nothing else. */
  lemma {:induction false} QueueRoundTrip(st: Receiver.RecvState, files: seq<File>, conds: seq<Sender.Conditions>)
    requires |conds| == |files|
    ensures Receiver.ReceiveAll(st, Sender.SentFrames(Sender.Transcripts(files, conds))).out == ReceivedAll(files)
    decreases |files|
  {
    if files != [] {
      var first := Sender.Transcript(files[0], conds[0].bufferedAt);
      var rest := Sender.Transcripts(files[1..], conds[1..]);
      Sender.SentFramesAppend(first, rest);
      Receiver.RunAppend(Receiver.Receive, st, Sender.SentFrames(first), Sender.SentFrames(rest));
      RoundTrip(st, files[0], conds[0].bufferedAt);
      QueueRoundTrip(Receiver.ReceiveAll(st, Sender.SentFrames(first)).next, files[1..], conds[1..]);
    } else {
      assert Sender.SentFrames([]) == [];
    }
  }

  /** A session id and token the receiving page generates are taken by the sender's
      connect button, however they are padded or cased when typed in, and by the QR
      path as they are. */
  lemma GeneratedSessionIsAccepted(id: string, token: string, typedId: string, typedToken: string,
                                   w1: string, w2: string, w3: string, w4: string)
    requires Helpers.IsValidSessionId(id) && Helpers.IsValidToken(token)
    requires ToLower(typedId) == id && ToLower(typedToken) == token
    requires forall i :: 0 <= i < |w1| ==> IsTrimmable(w1[i])
    requires forall i :: 0 <= i < |w2| ==> IsTrimmable(w2[i])
    requires forall i :: 0 <= i < |w3| ==> IsTrimmable(w3[i])
    requires forall i :: 0 <= i < |w4| ==> IsTrimmable(w4[i])
    ensures Sender.ManualConnect(w1 + typedId + w2, w3 + typedToken + w4) == Sender.ConnectTo(id, token)
    ensures Sender.QrConnect(Some(id), Some(token)) == Sender.ConnectTo(id, token)
  {
    LowerKeepsLowerAlnum(id);
    LowerKeepsLowerAlnum(token);
    Sender.ManualConnectForgivesPaddingAndCase(w1, typedId, w2, w3, typedToken, w4);
  }

  /** Whatever the sender page's connect button connects to, whether it runs the manual
      handler or the handler installed after a valid QR load, passes the server's
      validation: the join is admitted unless the room already exists with a different
      token, and the sender becomes the room's last member. */
  lemma ConnectedSessionIsAdmitted(sessionParam: Option<string>, tokenParam: Option<string>,
                                   sessionInput: string, tokenInput: string,
                                   reg: Server.Registry, c: Server.ConnId, now: int)
    requires c in reg.conns
    requires Sender.ConnectClick(sessionParam, tokenParam, sessionInput, tokenInput).ConnectTo?
    ensures var a := Sender.ConnectClick(sessionParam, tokenParam, sessionInput, tokenInput);
            var o := Server.JoinStep(reg, c, a.sessionId, a.token, now);
            (a.sessionId in reg.rooms && reg.rooms[a.sessionId].token != a.token) <==>
              o.events == [Server.Sent(c, Server.Error(Server.TokenMismatch)), Server.Closed(c)]
    ensures var a := Sender.ConnectClick(sessionParam, tokenParam, sessionInput, tokenInput);
            var o := Server.JoinStep(reg, c, a.sessionId, a.token, now);
            !(a.sessionId in reg.rooms && reg.rooms[a.sessionId].token != a.token) ==>
              a.sessionId in o.reg.rooms && o.reg.rooms[a.sessionId].token == a.token &&
              |o.reg.rooms[a.sessionId].clients| > 0 &&
              o.reg.rooms[a.sessionId].clients[|o.reg.rooms[a.sessionId].clients| - 1] == c
  {
    var a := Sender.ConnectClick(sessionParam, tokenParam, sessionInput, tokenInput);
    Sender.ConnectClickHandler(sessionParam, tokenParam, sessionInput, tokenInput, sessionInput, tokenInput);
    LowerKeepsLowerAlnum(a.sessionId);
    LowerKeepsLowerAlnum(a.token);
    Server.ServerAndPagesAgree(a.sessionId);
    Server.ServerAndPagesAgree(a.token);
  }
}
