/** `QEmuListener`: the connection to the emulator's diagnostic port. The socket is replaced
    by its observable effects: each receive is an input (`Recv`), and every message written is
    recorded in `sent`. */
module Listener {

  import opened Protocol

  class QEmuListener {
    /** Bytes of an incomplete reply kept for the next read (`recv_buffer`). */
    var recvBuffer: seq<Byte>
    /** Every message written to the diagnostic port, in order. */
    var sent: seq<string>
    var closed: bool

    /** Connects, and turns the port's echo off with `noecho `. */
    constructor ()
      ensures recvBuffer == [] && sent == ["noecho "] && !closed
    {
      recvBuffer := [];
      sent := ["noecho "];
      closed := false;
    }

    /** `close()`. */
    method Close()
      modifies this`closed
      ensures closed
    {
      closed := true;
    }

    /** `write(message)`: the whole message is sent. */
    method Write(message: string)
      modifies this`sent
      ensures sent == old(sent) + [message]
    {
      sent := sent + [message];
    }

    /** `while data and data[0] == 0xff: data = data[3:]`. */
    static method DropIac(bytes: seq<Byte>) returns (data: seq<Byte>)
      ensures data == StripIac(bytes)
    {
      data := bytes;
      while data != [] && data[0] == Iac
        invariant StripIac(data) == StripIac(bytes)
        decreases |data|
      {
        data := data[if |data| < 3 then |data| else 3..];
      }
    }

    /** `while data and not data[-1:].isspace(): recv_buffer.insert(0, data.pop())`. */
    static method TakePending(bytes: seq<Byte>) returns (data: seq<Byte>, pending: seq<Byte>)
      ensures (data, pending) == SplitPending(bytes)
    {
      data := bytes;
      pending := [];
      assert SplitPending(bytes).1 + [] == SplitPending(bytes).1;
      while data != [] && !IsSpaceByte(data[|data| - 1])
        invariant SplitPending(bytes) == (SplitPending(data).0, SplitPending(data).1 + pending)
        decreases |data|
      {
        var last := data[|data| - 1];
        var front := data[..|data| - 1];
        assert SplitPending(data).1 + pending == SplitPending(front).1 + ([last] + pending);
        pending := [last] + pending;
        data := front;
      }
      assert SplitPending(data) == (data, []);
      assert [] + pending == pending;
    }

    /** `read()` on one receive: IAC groups are dropped from the front, the trailing partial
        token is moved back into `recvBuffer`, and the rest is decoded. */
    method Read(recv: Recv) returns (res: ReadResult)
      modifies this`recvBuffer
      ensures (res, recvBuffer) == FrameRead(old(recvBuffer), recv)
    {
      match recv {
        case Timeout =>
          return Stop(ReceiverTimeout);
        case SocketError =>
          return Closed;
        case Data(bs) =>
          if bs == [] {
            return Stop(ShutdownDetected);
          }
          var data := DropIac(recvBuffer + bs);
          var text, pending := TakePending(data);
          recvBuffer := pending;
          match DecodeAscii(text) {
            case None => return Stop(ReceiverTimeout);
            case Some(s) => return Text(s);
          }
      }
    }

    /** The `for reply in replies` loop over the tokens of one read. */
    static method ClassifyReplies(replies: seq<string>) returns (events: seq<Event>, crashed: bool)
      ensures (events, crashed) == ClassifyAll(replies)
    {
      events := [];
      crashed := false;
      var i := 0;
      assert replies[0..] == replies;
      assert [] + ClassifyAll(replies).0 == ClassifyAll(replies).0;
      while i < |replies| && !crashed
        invariant 0 <= i <= |replies|
        invariant !crashed ==> ClassifyAll(replies) == (events + ClassifyAll(replies[i..]).0, ClassifyAll(replies[i..]).1)
        invariant crashed ==> ClassifyAll(replies) == (events, true)
      {
        var rest := ClassifyAll(replies[i..]);
        var later := ClassifyAll(replies[i + 1..]);
        assert replies[i..][1..] == replies[i + 1..];
        match ClassifyToken(replies[i]) {
          case NoEvent =>
            assert rest == later;
          case Crash =>
            assert rest == ([], true);
            assert events + [] == events;
            crashed := true;
          case Emit(e) =>
            assert rest == ([e] + later.0, later.1);
            assert events + ([e] + later.0) == (events + [e]) + later.0;
            events := events + [e];
        }
        i := i + 1;
      }
      if !crashed {
        assert replies[i..] == [];
        assert events + [] == events;
      }
    }

    /** One pass of `listen()`'s `while True`: a read and its replies, or the handler of the
        exception the read raised. */
    method ListenOnce(recv: Recv) returns (events: seq<Event>, outcome: Outcome)
      modifies this`recvBuffer
      ensures (events, outcome, recvBuffer) == ListenStep(old(recvBuffer), recv)
    {
      var res := Read(recv);
      match res {
        case Text(t) =>
          var crashed;
          events, crashed := ClassifyReplies(Split(t));
          outcome := if crashed then Crashed else Listening;
        case Stop(m) =>
          events := [WarningEvent(m), ShutdownEvent];
          outcome := Stopped;
        case Closed =>
          events := [WarningEvent(ConnectionClosed), ShutdownEvent];
          outcome := Stopped;
      }
    }

    /** `listen()` over the receives the socket delivers, until a handler ends the loop, a
        reply raises, or the receives run out: the events posted to the GUI, in order. */
    method Listen(inputs: seq<Recv>) returns (events: seq<Event>, outcome: Outcome)
      modifies this`recvBuffer
      ensures (events, outcome, recvBuffer) == ListenSpec(old(recvBuffer), inputs)
    {
      events := [];
      outcome := Listening;
      var i := 0;
      assert inputs[0..] == inputs;
      assert [] + ListenSpec(recvBuffer, inputs).0 == ListenSpec(recvBuffer, inputs).0;
      assert Combine([], ListenSpec(recvBuffer, inputs)) == ListenSpec(recvBuffer, inputs);
      while i < |inputs| && outcome == Listening
        invariant 0 <= i <= |inputs|
        invariant outcome == Listening ==>
          ListenSpec(old(recvBuffer), inputs) == Combine(events, ListenSpec(recvBuffer, inputs[i..]))
        invariant outcome != Listening ==> ListenSpec(old(recvBuffer), inputs) == (events, outcome, recvBuffer)
      {
        ListenSpecStep(recvBuffer, inputs[i..], events);
        assert inputs[i..][0] == inputs[i] && inputs[i..][1..] == inputs[i + 1..];
        var es, o := ListenOnce(inputs[i]);
        events := events + es;
        outcome := o;
        i := i + 1;
      }
      if outcome == Listening {
        assert inputs[i..] == [];
        assert events + [] == events;
      }
    }
  }
}
