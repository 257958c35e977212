/**
 The message layer of an open wormhole: every message read is acknowledged, acknowledgements are
 not. The two links are reliable and ordered; the noise cipher is taken as transparent, and ids are
 the 32 bytes that the source shows in Base62.
 */
module Wormhole {
  import opened GoTypes

  const MSG_BYTE: byte := 0x01
  const ACK_BYTE: byte := 0x02
  const CLOSED_BYTE: byte := 0xDE
  const MAX_SIZE := 16 * 1024

  type Bytes = seq<byte>

  datatype MessageType = Sent | Pending | Ack
  datatype Message = Message(id: Bytes, sender: string, recipient: string, data: Bytes, typ: MessageType)
  datatype Failure = TooLarge | InvalidID | NotEnoughBytes | Closed
  datatype Result<+T> = Ok(value: T) | Failed(error: Failure)

  // ---------- frames ----------

  /** What ReadMessage makes of the bytes it reads. */
  datatype Frame = ClosedFrame | ShortFrame | AckFrame(id: Bytes, payload: Bytes) | MessageFrame(id: Bytes, payload: Bytes)

  function Parse(b: Bytes): Frame
    requires b != []
  {
    if b[0] == CLOSED_BYTE then ClosedFrame
    else if |b| < 33 then ShortFrame
    else if b[0] == ACK_BYTE then AckFrame(b[1..33], b[33..])
    else MessageFrame(b[1..33], b[33..])
  }

  function MessageBytes(id: Bytes, payload: Bytes): (b: Bytes)
    requires |id| == 32
    ensures b != [] && Parse(b) == MessageFrame(id, payload)
    ensures b == [0x01] + id + payload
  {
    var b := [MSG_BYTE] + id + payload;
    assert b[1..33] == id && b[33..] == payload;
    b
  }

  function AckBytes(id: Bytes): (b: Bytes)
    requires |id| == 32
    ensures b != [] && Parse(b) == AckFrame(id, [])
    ensures b == [0x02] + id
  {
    var b := [ACK_BYTE] + id;
    assert b[1..33] == id && b[33..] == [];
    b
  }

  const CLOSED_BYTES: Bytes := [CLOSED_BYTE, 0xAD, 0xBE, 0xEF]

  /** What is written back when frame b is read: an ack for a message, nothing for an ack. */
  function Reply(b: Bytes): seq<Bytes>
    requires b != []
  {
    match Parse(b)
    case ClosedFrame => [CLOSED_BYTES]
    case ShortFrame => []
    case AckFrame(_, _) => []
    case MessageFrame(id, _) => [AckBytes(id)]
  }

  // ---------- one endpoint ----------

  class Link {
    var frames: seq<Bytes>

    constructor ()
      ensures frames == []
    {
      frames := [];
    }
  }

  class Endpoint {
    const sender: string
    const recipient: string
    const inbox: Link
    const outbox: Link
    var closed: bool

    constructor (sender: string, recipient: string, inbox: Link, outbox: Link)
      ensures this.sender == sender && this.recipient == recipient
      ensures this.inbox == inbox && this.outbox == outbox && !closed
    {
      this.sender, this.recipient, this.inbox, this.outbox, closed := sender, recipient, inbox, outbox, false;
    }

    method Write(b: Bytes) returns (ok: bool)
      modifies outbox
      ensures ok == (|b| <= MAX_SIZE)
      ensures outbox.frames == if ok then old(outbox.frames) + [b] else old(outbox.frames)
    {
      ok := |b| <= MAX_SIZE;
      if ok {
        outbox.frames := outbox.frames + [b];
      }
    }

    method WriteMessage(id: Bytes, b: Bytes) returns (r: Result<Message>)
      modifies outbox
      ensures r == if |b| > 16384 - 33 then Failed(TooLarge)
                   else if |id| != 32 then Failed(InvalidID)
                   else Ok(Message(id, sender, recipient, b, Pending))
      ensures outbox.frames == if r.Ok? then old(outbox.frames) + [MessageBytes(id, b)] else old(outbox.frames)
    {
      if |b| > MAX_SIZE - 33 {
        return Failed(TooLarge);
      }
      if |id| != 32 {
        return Failed(InvalidID);
      }
      var out := [MSG_BYTE] + id;
      out := out + b;
      var ok := Write(out);
      r := Ok(Message(id, sender, recipient, b, Pending));
    }

    method WriteAck(id: Bytes)
      requires |id| == 32
      modifies outbox
      ensures outbox.frames == old(outbox.frames) + [AckBytes(id)]
    {
      var ok := Write([ACK_BYTE] + id);
    }

    method Close()
      modifies this, outbox
      ensures closed && outbox.frames == old(outbox.frames) + [[0xDE, 0xAD, 0xBE, 0xEF]]
    {
      closed := true;
      var ok := Write(CLOSED_BYTES);
    }

    /** The parameter `ack` has no effect: a message is always acknowledged, an acknowledgement never. */
    method ReadMessage(ack: bool) returns (r: Result<Message>)
      requires inbox != outbox && inbox.frames != [] && inbox.frames[0] != []
      modifies this, inbox, outbox
      ensures inbox.frames == old(inbox.frames)[1..]
      ensures outbox.frames == old(outbox.frames) + Reply(old(inbox.frames)[0])
      ensures var b := old(inbox.frames)[0];
              outbox.frames == old(outbox.frames) +
                if b[0] == 0xDE then [[0xDE, 0xAD, 0xBE, 0xEF]]
                else if |b| < 33 || b[0] == 0x02 then [] else [[0x02] + b[1..33]]
      ensures var b := old(inbox.frames)[0];
              r == if b[0] == 0xDE then Failed(Closed)
                   else if |b| < 33 then Failed(NotEnoughBytes)
                   else Ok(Message(b[1..33], recipient, sender, b[33..], if b[0] == 0x02 then Ack else Sent))
      ensures closed == (old(closed) || Parse(old(inbox.frames)[0]).ClosedFrame?)
    {
      var b := inbox.frames[0];
      inbox.frames := inbox.frames[1..];
      var typ := b[0];
      var msgType := Sent;
      if typ == ACK_BYTE {
        msgType := Ack;
      } else if typ == CLOSED_BYTE {
        Close();
        return Failed(Closed);
      }
      if |b| < 33 {
        return Failed(NotEnoughBytes);
      }
      var bid, payload := b[1..33], b[33..];
      r := Ok(Message(bid, recipient, sender, payload, msgType));
      if msgType != Ack {
        WriteAck(bid);
      }
    }
  }

  // ---------- the two endpoints together, until one of them closes ----------

  datatype Side = A | B

  /** A message as handed to WriteMessage, or as returned by ReadMessage. */
  datatype Letter = Letter(id: Bytes, payload: Bytes)

  /** What one side has done: sent, been given, and had acknowledged. */
  datatype Log = Log(sent: seq<Letter>, given: seq<Letter>, acked: seq<Bytes>)

  datatype State = State(a: Log, b: Log, ab: seq<Bytes>, ba: seq<Bytes>)

  datatype Step = Send(who: Side, letter: Letter) | Receive(who: Side)

  const INIT := State(Log([], [], []), Log([], [], []), [], [])

  function LogOf(s: State, x: Side): Log { if x == A then s.a else s.b }
  function From(s: State, x: Side): seq<Bytes> { if x == A then s.ab else s.ba }
  function Other(x: Side): Side { if x == A then B else A }

  function With(s: State, x: Side, log: Log, out: seq<Bytes>, inn: seq<Bytes>): State {
    if x == A then State(log, s.b, out, inn) else State(s.a, log, inn, out)
  }

  predicate Enabled(s: State, step: Step) {
    match step
    case Send(_, letter) => |letter.id| == 32 && |letter.payload| <= MAX_SIZE - 33
    case Receive(x) => From(s, Other(x)) != [] && From(s, Other(x))[0] != []
  }

  /** The step that Endpoint.WriteMessage and Endpoint.ReadMessage take, read off their contracts. */
  function Apply(s: State, step: Step): State
    requires Enabled(s, step)
  {
    match step
    case Send(x, letter) =>
      With(s, x, LogOf(s, x).(sent := LogOf(s, x).sent + [letter]),
           From(s, x) + [MessageBytes(letter.id, letter.payload)], From(s, Other(x)))
    case Receive(x) =>
      var out, inn, log := From(s, x), From(s, Other(x)), LogOf(s, x);
      var now := match Parse(inn[0])
                 case AckFrame(id, _) => log.(acked := log.acked + [id])
                 case MessageFrame(id, payload) => log.(given := log.given + [Letter(id, payload)])
                 case _ => log;
      With(s, x, now, out + Reply(inn[0]), inn[1..])
  }

  predicate IsRun(s: State, steps: seq<Step>)
    decreases |steps|
  {
    steps != [] ==> Enabled(s, steps[0]) && IsRun(Apply(s, steps[0]), steps[1..])
  }

  function After(s: State, steps: seq<Step>): State
    requires IsRun(s, steps)
    decreases |steps|
  {
    if steps == [] then s else After(Apply(s, steps[0]), steps[1..])
  }

  // ---------- conservation of messages and acknowledgements ----------

  /** Frames that the message layer writes while open. */
  predicate Open(frames: seq<Bytes>) {
    forall k :: 0 <= k < |frames| ==> frames[k] != [] && (Parse(frames[k]).AckFrame? || Parse(frames[k]).MessageFrame?)
  }

  function LetterIn(b: Bytes): seq<Letter>
    requires b != []
  {
    var f := Parse(b);
    if f.MessageFrame? then [Letter(f.id, f.payload)] else []
  }

  function AckIn(b: Bytes): seq<Bytes>
    requires b != []
  {
    var f := Parse(b);
    if f.AckFrame? then [f.id] else []
  }

  function Letters(frames: seq<Bytes>): seq<Letter>
    requires Open(frames)
  {
    if frames == [] then [] else LetterIn(frames[0]) + Letters(frames[1..])
  }

  function Acks(frames: seq<Bytes>): seq<Bytes>
    requires Open(frames)
  {
    if frames == [] then [] else AckIn(frames[0]) + Acks(frames[1..])
  }

  function Ids(letters: seq<Letter>): (ids: seq<Bytes>)
    ensures |ids| == |letters|
  {
    if letters == [] then [] else [letters[0].id] + Ids(letters[1..])
  }

  lemma {:induction false} AppendFrame(frames: seq<Bytes>, b: Bytes)
    requires Open(frames) && b != [] && (Parse(b).AckFrame? || Parse(b).MessageFrame?)
    ensures Open(frames + [b])
    ensures Letters(frames + [b]) == Letters(frames) + LetterIn(b)
    ensures Acks(frames + [b]) == Acks(frames) + AckIn(b)
    decreases |frames|
  {
    hide Parse, LetterIn, AckIn;
    if frames == [] {
      assert frames + [b] == [b];
    } else {
      assert (frames + [b])[1..] == frames[1..] + [b];
      AppendFrame(frames[1..], b);
      assert (frames + [b])[0] == frames[0];
    }
  }

  lemma {:induction false} IdsConcat(x: seq<Letter>, y: seq<Letter>)
    ensures Ids(x + y) == Ids(x) + Ids(y)
  {
    if x == [] {
      assert x + y == y;
    } else {
      assert (x + y)[1..] == x[1..] + y;
      IdsConcat(x[1..], y);
    }
  }

  /** What x sent is what the other side was given, then what is on its way; what was given is acked or being acked. */
  predicate Conserved(sender: Log, receiver: Log, out: seq<Bytes>, back: seq<Bytes>) {
    && Open(out) && Open(back)
    && sender.sent == receiver.given + Letters(out)
    && Ids(receiver.given) == sender.acked + Acks(back)
  }

  predicate Inv(s: State) {
    Conserved(s.a, s.b, s.ab, s.ba) && Conserved(s.b, s.a, s.ba, s.ab)
  }

  lemma SendInv(s: State, step: Step)
    requires Inv(s) && Enabled(s, step) && step.Send?
    ensures Inv(Apply(s, step))
  {
    hide Parse, Letters, Acks, Ids, MessageBytes;
    var x, letter := step.who, step.letter;
    var b := MessageBytes(letter.id, letter.payload);
    AppendFrame(From(s, x), b);
  }

  lemma Pop(frames: seq<Bytes>)
    requires Open(frames) && frames != []
    ensures Open(frames[1..])
    ensures Letters(frames) == LetterIn(frames[0]) + Letters(frames[1..])
    ensures Acks(frames) == AckIn(frames[0]) + Acks(frames[1..])
  {
    hide Parse, LetterIn, AckIn;
  }

  lemma ReceiveAckInv(s: State, x: Side)
    requires Inv(s) && Enabled(s, Receive(x)) && Parse(From(s, Other(x))[0]).AckFrame?
    ensures Inv(Apply(s, Receive(x)))
  {
    hide Parse, Ids, Letters, Acks;
    var inn, out, log, peer := From(s, Other(x)), From(s, x), LogOf(s, x), LogOf(s, Other(x));
    Pop(inn);
    assert out + [] == out;
    assert [] + Letters(inn[1..]) == Letters(inn[1..]);
    assert log.acked + AckIn(inn[0]) + Acks(inn[1..]) == log.acked + Acks(inn);
  }

  lemma ReceiveMessageInv(s: State, x: Side)
    requires Inv(s) && Enabled(s, Receive(x)) && Parse(From(s, Other(x))[0]).MessageFrame?
    ensures Inv(Apply(s, Receive(x)))
  {
    hide Parse, AckBytes, Ids, Letters, Acks;
    var inn, out, log, peer := From(s, Other(x)), From(s, x), LogOf(s, x), LogOf(s, Other(x));
    var f := Parse(inn[0]);
    var letter := Letter(f.id, f.payload);
    MessageIdLength(inn[0]);
    Pop(inn);
    AppendFrame(out, AckBytes(f.id));
    IdsConcat(log.given, [letter]);
    OneId(letter);
    assert [] + Acks(inn[1..]) == Acks(inn[1..]);
    assert Letters(out) + [] == Letters(out);
    assert log.given + [letter] + Letters(inn[1..]) == log.given + Letters(inn);
    assert peer.acked + (Acks(out) + [f.id]) == peer.acked + Acks(out) + [f.id];
  }

  lemma OneId(letter: Letter)
    ensures Ids([letter]) == [letter.id]
  {
  }

  lemma MessageIdLength(b: Bytes)
    requires b != [] && Parse(b).MessageFrame?
    ensures |Parse(b).id| == 32
  {
  }

  lemma {:induction false} StepInv(s: State, step: Step)
    requires Inv(s) && Enabled(s, step)
    ensures Inv(Apply(s, step))
  {
    hide Apply, Parse, Conserved;
    match step {
      case Send(_, _) => SendInv(s, step);
      case Receive(x) =>
        assert Open(From(s, Other(x))) by { OpenLinks(s); }
        if Parse(From(s, Other(x))[0]).AckFrame? {
          ReceiveAckInv(s, x);
        } else {
          ReceiveMessageInv(s, x);
        }
    }
  }

  lemma OpenLinks(s: State)
    requires Inv(s)
    ensures Open(s.ab) && Open(s.ba)
  {
  }

  lemma {:induction false} RunInv(s: State, steps: seq<Step>)
    requires Inv(s) && IsRun(s, steps)
    ensures Inv(After(s, steps))
    decreases |steps|
  {
    hide Inv, Apply, Enabled;
    if steps != [] {
      StepInv(s, steps[0]);
      RunInv(Apply(s, steps[0]), steps[1..]);
    }
  }

  /**
   In every run until a close: the ids a side sent are the ids acknowledged to it, then the
   acknowledgements in flight, then the messages in flight, in that order; and the other side has been
   given exactly a prefix of what was sent, each message once, contents included.
   */
  lemma {:induction false} SentIsAckedThenInFlight(steps: seq<Step>, x: Side)
    requires IsRun(INIT, steps)
    ensures var s := After(INIT, steps);
            var mine, theirs := From(s, x), From(s, Other(x));
            && Open(mine) && Open(theirs)
            && Ids(LogOf(s, x).sent) == LogOf(s, x).acked + Acks(theirs) + Ids(Letters(mine))
            && LogOf(s, x).sent == LogOf(s, Other(x)).given + Letters(mine)
  {
    RunInv(INIT, steps);
    var s := After(INIT, steps);
    IdsConcat(LogOf(s, Other(x)).given, Letters(From(s, x)));
  }

  // ---------- the exchange stops by itself ----------

  /** Receives still to come: two for a message (itself and its ack), one for an ack. */
  function Outstanding(s: State): nat
    requires Open(s.ab) && Open(s.ba)
  {
    2 * |Letters(s.ab)| + |Acks(s.ab)| + 2 * |Letters(s.ba)| + |Acks(s.ba)|
  }

  lemma ReceiveCounts(s: State, x: Side)
    requires Inv(s) && Enabled(s, Receive(x))
    ensures Inv(Apply(s, Receive(x)))
    ensures Outstanding(Apply(s, Receive(x))) == Outstanding(s) - 1
  {
    hide Parse, AckBytes, Letters, Acks, Ids;
    StepInv(s, Receive(x));
    var inn, out := From(s, Other(x)), From(s, x);
    var f := Parse(inn[0]);
    Pop(inn);
    assert out + [] == out;
    if f.MessageFrame? {
      MessageIdLength(inn[0]);
      AppendFrame(out, AckBytes(f.id));
    }
  }

  /** With no new messages exactly Outstanding(s) receives are left, in whatever order the sides read. */
  lemma {:induction false} ReceivesLeft(s: State, steps: seq<Step>)
    requires Inv(s) && IsRun(s, steps) && forall step :: step in steps ==> step.Receive?
    ensures Inv(After(s, steps)) && |steps| + Outstanding(After(s, steps)) == Outstanding(s)
    decreases |steps|
  {
    hide Apply, Enabled, Inv, Outstanding;
    if steps != [] {
      var step := steps[0];
      assert step in steps;
      assert forall t :: t in steps[1..] ==> t in steps;
      ReceiveCounts(s, step.who);
      ReceivesLeft(Apply(s, step), steps[1..]);
    }
  }

  lemma NothingOutstanding(s: State)
    requires Inv(s)
    ensures Outstanding(s) == 0 <==> s.ab == [] && s.ba == []
  {
    hide Parse, Ids;
  }

  /** Everything x sent was received, in order, and acknowledged, once and in order. */
  predicate Settled(s: State, x: Side) {
    LogOf(s, x).acked == Ids(LogOf(s, x).sent) && LogOf(s, x).sent == LogOf(s, Other(x)).given
  }

  lemma CanReceive(s: State)
    requires Inv(s)
    ensures s.ab != [] <==> Enabled(s, Receive(B))
    ensures s.ba != [] <==> Enabled(s, Receive(A))
  {
    hide Parse, Letters, Acks, Ids;
  }

  lemma AllAcked(s: State, x: Side)
    requires Inv(s) && s.ab == [] && s.ba == []
    ensures Settled(s, x)
  {
    hide Parse, Ids;
    assert LogOf(s, x).acked + [] == LogOf(s, x).acked && LogOf(s, Other(x)).given + [] == LogOf(s, Other(x)).given;
  }

  /**
   With no new messages the exchange stops, after exactly Outstanding(s) receives, precisely when
   nothing can be read any more; then every id sent has been acknowledged exactly once, in order.
   */
  lemma {:induction false} ExchangeStops(before: seq<Step>, steps: seq<Step>)
    requires IsRun(INIT, before) && IsRun(After(INIT, before), steps)
    requires forall step :: step in steps ==> step.Receive?
    ensures var s, t := After(INIT, before), After(After(INIT, before), steps);
            && Open(s.ab) && Open(s.ba)
            && |steps| <= Outstanding(s)
            && (|steps| == Outstanding(s) <==> forall x :: !Enabled(t, Receive(x)))
            && (|steps| == Outstanding(s) ==> Settled(t, A) && Settled(t, B))
  {
    hide Inv, Apply, Enabled, Outstanding, Settled, IsRun;
    InitInv();
    RunInv(INIT, before);
    var s := After(INIT, before);
    ReceivesLeft(s, steps);
    OpenLinks(s);
    var t := After(s, steps);
    NothingOutstanding(t);
    CanReceive(t);
    assert (t.ab == [] && t.ba == []) == (!Enabled(t, Receive(A)) && !Enabled(t, Receive(B)));
    assert forall x :: Enabled(t, Receive(x)) ==> x == A || x == B;
    if t.ab == [] && t.ba == [] {
      AllAcked(t, A);
      AllAcked(t, B);
    }
  }

  lemma InitInv()
    ensures Inv(INIT)
  {
  }
}
