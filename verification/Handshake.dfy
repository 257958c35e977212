/**
 The UDP handshake before the SCTP association: each peer runs a writer loop and a reader loop that
 share `send`. The network loses, duplicates and reorders packets; it invents none.

 A writer iteration writes `send` and then tests it. Taken as one step it is `Iterate`; taken as two,
 with reads by the other goroutine in between, it is `Write` followed by `Test`.
 */
module Handshake {
  datatype Packet = Syn | SynAck | Ack
  datatype Role = Initiator | Listener
  datatype Writer = Writing | Testing | Stopped

  datatype Peer = Peer(send: Packet, writer: Writer, reading: bool)

  /** One direction: what is in flight, and the history of what was ever written and read. */
  datatype Channel = Channel(flying: multiset<Packet>, wrote: set<Packet>, got: set<Packet>)

  datatype State = State(i: Peer, l: Peer, toI: Channel, toL: Channel, dropped: bool)

  datatype Step =
    | Iterate(who: Role)
    | Write(who: Role)
    | Test(who: Role)
    | Read(who: Role, p: Packet)
    | Drop(who: Role, p: Packet)
    | Duplicate(who: Role, p: Packet)

  const START := Peer(Syn, Writing, true)
  const QUIET := Channel(multiset{}, {}, {})
  const INIT := State(START, START, QUIET, QUIET, false)

  // ---------- one step ----------

  /** The switch of the reader loop. */
  function OnPacket(role: Role, s: Peer, p: Packet): Peer {
    match p
    case Syn => s.(send := SynAck)
    case SynAck => s.(send := Packet.Ack, reading := s.reading && role == Listener)
    case Ack => s.(send := Packet.Ack, reading := false)
  }

  function AfterTest(s: Peer): Peer {
    s.(writer := if s.send == Ack then Stopped else Writing)
  }

  function Put(c: Channel, p: Packet): Channel {
    c.(flying := c.flying + multiset{p}, wrote := c.wrote + {p})
  }

  function PeerOf(s: State, r: Role): Peer { if r == Initiator then s.i else s.l }
  function Inbox(s: State, r: Role): Channel { if r == Initiator then s.toI else s.toL }
  function Outbox(s: State, r: Role): Channel { if r == Initiator then s.toL else s.toI }

  function With(s: State, r: Role, peer: Peer): State {
    if r == Initiator then s.(i := peer) else s.(l := peer)
  }

  function WithInbox(s: State, r: Role, c: Channel): State {
    if r == Initiator then s.(toI := c) else s.(toL := c)
  }

  function WithOutbox(s: State, r: Role, c: Channel): State {
    if r == Initiator then s.(toL := c) else s.(toI := c)
  }

  predicate Enabled(s: State, step: Step) {
    match step
    case Iterate(r) => PeerOf(s, r).writer == Writing
    case Write(r) => PeerOf(s, r).writer == Writing
    case Test(r) => PeerOf(s, r).writer == Testing
    case Read(r, p) => PeerOf(s, r).reading && p in Inbox(s, r).flying
    case Drop(r, p) => p in Inbox(s, r).flying
    case Duplicate(r, p) => p in Inbox(s, r).flying
  }

  function Apply(s: State, step: Step): State {
    match step
    case Iterate(r) => WithOutbox(With(s, r, AfterTest(PeerOf(s, r))), r, Put(Outbox(s, r), PeerOf(s, r).send))
    case Write(r) => WithOutbox(With(s, r, PeerOf(s, r).(writer := Testing)), r, Put(Outbox(s, r), PeerOf(s, r).send))
    case Test(r) => With(s, r, AfterTest(PeerOf(s, r)))
    case Read(r, p) =>
      var c := Inbox(s, r);
      WithInbox(With(s, r, OnPacket(r, PeerOf(s, r), p)), r, c.(flying := c.flying - multiset{p}, got := c.got + {p}))
    case Drop(r, p) => WithInbox(s, r, Inbox(s, r).(flying := Inbox(s, r).flying - multiset{p})).(dropped := true)
    case Duplicate(r, p) => WithInbox(s, r, Inbox(s, r).(flying := Inbox(s, r).flying + multiset{p}))
  }

  // ---------- runs ----------

  predicate IsRun(s: State, steps: seq<Step>)
    decreases |steps|
  {
    steps != [] ==> Enabled(s, steps[0]) && IsRun(Apply(s, steps[0]), steps[1..])
  }

  function After(s: State, steps: seq<Step>): State
    decreases |steps|
  {
    if steps == [] then s else After(Apply(s, steps[0]), steps[1..])
  }

  /** Every writer iteration is one step. */
  predicate Atomic(steps: seq<Step>) {
    forall step :: step in steps ==> !step.Write? && !step.Test?
  }

  predicate Done(s: Peer) { !s.reading && s.writer == Stopped }

  predicate Finished(s: State) { Done(s.i) && Done(s.l) }

  lemma {:induction false} RunConcat(s: State, a: seq<Step>, b: seq<Step>)
    requires IsRun(s, a) && IsRun(After(s, a), b)
    ensures IsRun(s, a + b) && After(s, a + b) == After(After(s, a), b)
    decreases |a|
  {
    hide Enabled, Apply;
    if a == [] {
      assert a + b == b;
    } else {
      assert (a + b)[1..] == a[1..] + b;
      RunConcat(Apply(s, a[0]), a[1..], b);
    }
  }

  // ---------- what every step keeps ----------

  /** Packets in flight, and packets read, were written. */
  predicate NothingInvented(c: Channel) {
    c.got <= c.wrote && forall p :: p in c.flying ==> p in c.wrote
  }

  predicate NothingLost(c: Channel) {
    forall p :: p in c.wrote ==> p in c.flying || p in c.got
  }

  /** The causal chain, from one peer's side. */
  predicate Caused(s: Peer, inbox: Channel, outbox: Channel) {
    && (s.send != Syn ==> inbox.got != {})
    && (outbox.wrote <= {Syn} || inbox.got != {})
    && (!s.reading ==> s.send == Ack)
  }

  predicate Inv(s: State) {
    && NothingInvented(s.toI) && NothingInvented(s.toL)
    && (!s.dropped ==> NothingLost(s.toI) && NothingLost(s.toL))
    && Caused(s.i, s.toI, s.toL) && Caused(s.l, s.toL, s.toI)
    // the initiator stops reading exactly when its send becomes ack
    && (s.i.reading <==> s.i.send != Ack)
    && (!s.i.reading <==> SynAck in s.toI.got || Ack in s.toI.got)
    && (!s.l.reading <==> Ack in s.toL.got)
    && (s.i.writer == Stopped ==> !s.i.reading)
    // once it has written an ack it writes nothing more
    && (Ack in s.toL.wrote ==> !s.i.reading && s.i.writer != Writing)
    // its send only moves forward
    && (SynAck in s.toL.wrote ==> s.i.send != Syn)
    // the listener's send is ack, or its writer has stopped, only after a syn-ack or an ack
    && (s.l.reading && (s.l.send == Ack || s.l.writer == Stopped) ==> SynAck in s.toL.got)
  }

  lemma InitInv()
    ensures Inv(INIT)
  {
  }

  lemma InitiatorWriteInv(s: State)
    requires Inv(s) && Enabled(s, Write(Initiator))
    ensures Inv(Apply(s, Write(Initiator)))
  {
  }

  lemma ListenerWriteInv(s: State)
    requires Inv(s) && Enabled(s, Write(Listener))
    ensures Inv(Apply(s, Write(Listener)))
  {
  }

  lemma TestInv(s: State, step: Step)
    requires Inv(s) && Enabled(s, step) && step.Test?
    ensures Inv(Apply(s, step))
  {
  }

  lemma InitiatorReadInv(s: State, p: Packet)
    requires Inv(s) && Enabled(s, Read(Initiator, p))
    ensures Inv(Apply(s, Read(Initiator, p)))
  {
  }

  lemma ListenerReadInv(s: State, p: Packet)
    requires Inv(s) && Enabled(s, Read(Listener, p))
    ensures Inv(Apply(s, Read(Listener, p)))
  {
  }

  lemma DropInv(s: State, step: Step)
    requires Inv(s) && Enabled(s, step) && step.Drop?
    ensures Inv(Apply(s, step))
  {
  }

  lemma DuplicateInv(s: State, who: Role, p: Packet)
    requires Inv(s) && Enabled(s, Duplicate(who, p))
    ensures Inv(Apply(s, Duplicate(who, p)))
  {
    hide Caused, NothingInvented, NothingLost, Apply, Enabled;
    var t := Apply(s, Duplicate(who, p));
    DuplicateEffect(s, who, p);
    CausedSame(s.i, s.toI, s.toL, t.toI, t.toL);
    CausedSame(s.l, s.toL, s.toI, t.toL, t.toI);
  }

  /** A duplicate changes only what is in flight on one channel. */
  lemma DuplicateEffect(s: State, who: Role, p: Packet)
    requires Enabled(s, Duplicate(who, p)) && NothingInvented(s.toI) && NothingInvented(s.toL)
    ensures var t := Apply(s, Duplicate(who, p));
            && t.i == s.i && t.l == s.l && t.dropped == s.dropped
            && t.toI.got == s.toI.got && t.toI.wrote == s.toI.wrote
            && t.toL.got == s.toL.got && t.toL.wrote == s.toL.wrote
            && NothingInvented(t.toI) && NothingInvented(t.toL)
            && (NothingLost(s.toI) ==> NothingLost(t.toI)) && (NothingLost(s.toL) ==> NothingLost(t.toL))
  {
    hide NothingInvented, NothingLost;
    InventedDuplicate(Inbox(s, who), p);
    LostDuplicate(Inbox(s, who), p);
  }

  lemma InventedDuplicate(c: Channel, p: Packet)
    requires NothingInvented(c) && p in c.flying
    ensures NothingInvented(c.(flying := c.flying + multiset{p}))
  {
  }

  lemma LostDuplicate(c: Channel, p: Packet)
    ensures NothingLost(c) ==> NothingLost(c.(flying := c.flying + multiset{p}))
  {
  }

  /** What is in flight plays no part in the causal chain. */
  lemma CausedSame(s: Peer, inbox: Channel, outbox: Channel, inbox': Channel, outbox': Channel)
    requires Caused(s, inbox, outbox) && inbox'.got == inbox.got && outbox'.wrote == outbox.wrote
    ensures Caused(s, inbox', outbox')
  {
  }

  /** A whole iteration is a write and then a test with nothing in between. */
  lemma IterateIsWriteTest(s: State, who: Role)
    requires Enabled(s, Iterate(who))
    ensures Enabled(s, Write(who)) && Enabled(Apply(s, Write(who)), Test(who))
    ensures Apply(s, Iterate(who)) == Apply(Apply(s, Write(who)), Test(who))
  {
  }

  lemma WriteInv(s: State, who: Role)
    requires Inv(s) && Enabled(s, Write(who))
    ensures Inv(Apply(s, Write(who)))
  {
    hide Inv, Enabled, Apply;
    if who == Initiator {
      InitiatorWriteInv(s);
    } else {
      ListenerWriteInv(s);
    }
  }

  lemma {:induction false} StepInv(s: State, step: Step)
    requires Inv(s) && Enabled(s, step)
    ensures Inv(Apply(s, step))
  {
    hide Inv, Enabled, Apply;
    match step
    case Iterate(who) =>
      IterateIsWriteTest(s, who);
      WriteInv(s, who);
      TestInv(Apply(s, Write(who)), Test(who));
    case Write(who) => WriteInv(s, who);
    case Test(_) => TestInv(s, step);
    case Read(who, p) =>
      if who == Initiator { InitiatorReadInv(s, p); } else { ListenerReadInv(s, p); }
    case Drop(_, _) => DropInv(s, step);
    case Duplicate(who, p) => DuplicateInv(s, who, p);
  }

  lemma {:induction false} RunInv(s: State, steps: seq<Step>)
    requires Inv(s) && IsRun(s, steps)
    ensures Inv(After(s, steps))
    decreases |steps|
  {
    hide Inv, Apply, Enabled;
    if steps != [] {
      StepInv(s, steps[0]);
      RunInv(Apply(s, steps[0]), steps[1..]);
    }
  }

  // ---------- safety, in every run ----------

  /** No writer is between its write and its test, and one that has stopped has written an ack. */
  predicate Settled(s: State) {
    && s.i.writer != Testing && s.l.writer != Testing
    && (s.i.writer == Stopped ==> Ack in s.toL.wrote)
    && (s.l.writer == Stopped ==> Ack in s.toI.wrote)
  }

  lemma StepSettled(s: State, step: Step)
    requires Settled(s) && Enabled(s, step) && !step.Write? && !step.Test?
    ensures Settled(Apply(s, step))
  {
  }

  lemma {:induction false} AtomicSettled(s: State, steps: seq<Step>)
    requires Settled(s) && IsRun(s, steps) && Atomic(steps)
    ensures Settled(After(s, steps))
    decreases |steps|
  {
    if steps != [] {
      hide Apply, Enabled, Settled;
      assert steps[0] in steps;
      assert forall step :: step in steps[1..] ==> step in steps;
      StepSettled(s, steps[0]);
      AtomicSettled(Apply(s, steps[0]), steps[1..]);
    }
  }

  /**
   In every run with whole iterations, whatever is lost, duplicated or reordered: if the listener
   has its ack then the initiator's reader and writer have both finished.
   */
  lemma ListenerAckedLast(steps: seq<Step>)
    requires IsRun(INIT, steps) && Atomic(steps)
    ensures !After(INIT, steps).l.reading ==> Done(After(INIT, steps).i)
  {
    InitInv();
    RunInv(INIT, steps);
    AtomicSettled(INIT, steps);
  }

  /** With split iterations the initiator may still be about to test, but it will write nothing more. */
  lemma ListenerAckedLastSplit(steps: seq<Step>)
    requires IsRun(INIT, steps)
    ensures var s := After(INIT, steps);
            !s.l.reading ==> !s.i.reading && s.i.send == Ack && s.i.writer != Writing
  {
    InitInv();
    RunInv(INIT, steps);
  }

  /** If either side finishes, each side has read a packet that the other wrote. */
  lemma BothHeard(steps: seq<Step>)
    requires IsRun(INIT, steps)
    requires Done(After(INIT, steps).i) || Done(After(INIT, steps).l)
    ensures var s := After(INIT, steps);
            && (exists p :: p in s.toI.got && p in s.toI.wrote)
            && (exists p :: p in s.toL.got && p in s.toL.wrote)
  {
    InitInv();
    RunInv(INIT, steps);
    var s := After(INIT, steps);
    assert SynAck in s.toI.got || Ack in s.toI.got;
    assert !(s.toI.wrote <= {Syn});
    var p :| p in s.toL.got;
  }

  // ---------- what each side has done, told by the steps of the run ----------

  lemma {:induction false} LastStep(s: State, run: seq<Step>)
    requires IsRun(s, run) && run != []
    ensures var front, last := run[..|run| - 1], run[|run| - 1];
            IsRun(s, front) && Enabled(After(s, front), last) && After(s, run) == Apply(After(s, front), last)
    decreases |run|
  {
    hide Apply, Enabled;
    var front := run[..|run| - 1];
    if |run| > 1 {
      LastStep(Apply(s, run[0]), run[1..]);
      assert front[1..] == run[1..][..|run| - 2];
    }
  }

  predicate ReadBy(step: Step, who: Role) { step.Read? && step.who == who }

  predicate TestBy(step: Step, who: Role) { (step.Iterate? || step.Test?) && step.who == who }

  predicate WriteBy(step: Step, who: Role) { (step.Iterate? || step.Write?) && step.who == who }

  /** The last step in which this side read a packet, or -1. */
  function LastRead(run: seq<Step>, who: Role): (i: int)
    ensures -1 <= i < |run| && (i >= 0 ==> ReadBy(run[i], who))
    ensures forall j :: i < j < |run| ==> !ReadBy(run[j], who)
  {
    if run == [] then -1
    else if ReadBy(run[|run| - 1], who) then |run| - 1
    else LastRead(run[..|run| - 1], who)
  }

  /** What a step from s to t does to one side. */
  predicate Effect(s: State, t: State, step: Step, who: Role) {
    var a, b := PeerOf(s, who), PeerOf(t, who);
    && b.send == (if !ReadBy(step, who) then a.send else if step.p == Syn then SynAck else Packet.Ack)
    && (!b.reading <==> !a.reading || Stops(step, who))
    && (b.writer == Stopped <==> a.writer == Stopped || (TestBy(step, who) && a.send == Packet.Ack))
    && Outbox(t, who).wrote == Outbox(s, who).wrote + if WriteBy(step, who) then {a.send} else {}
  }

  lemma OwnWrite(s: State, step: Step)
    requires Enabled(s, step) && (step.Iterate? || step.Write? || step.Test?)
    ensures Effect(s, Apply(s, step), step, step.who)
  {
    hide OnPacket;
  }

  lemma OwnRead(s: State, step: Step)
    requires Enabled(s, step) && step.Read?
    ensures Effect(s, Apply(s, step), step, step.who)
  {
    hide AfterTest, Put;
  }

  lemma OtherStep(s: State, step: Step, who: Role)
    requires Enabled(s, step) && !step.Drop? && !step.Duplicate? && step.who != who
    ensures Effect(s, Apply(s, step), step, who)
  {
  }

  lemma NetworkStep(s: State, step: Step, who: Role)
    requires Enabled(s, step) && (step.Drop? || step.Duplicate?)
    ensures Effect(s, Apply(s, step), step, who)
  {
  }

  lemma OneStep(s: State, step: Step, who: Role)
    requires Enabled(s, step)
    ensures Effect(s, Apply(s, step), step, who)
  {
    hide Effect, Enabled, Apply;
    if step.Drop? || step.Duplicate? {
      NetworkStep(s, step, who);
    } else if step.who == who {
      if step.Read? {
        OwnRead(s, step);
      } else {
        OwnWrite(s, step);
      }
    } else {
      OtherStep(s, step, who);
    }
  }

  predicate Stops(step: Step, who: Role) {
    ReadBy(step, who) && (step.p == Packet.Ack || (step.p == SynAck && who == Initiator))
  }

  /**
   In every run, for both roles: `send` is decided by the packet that this side last read. It is syn before
   any read, syn-ack after a syn, and ack after a syn-ack or an ack.
   */
  lemma {:induction false} SendIsLastRead(run: seq<Step>, who: Role)
    requires IsRun(INIT, run)
    ensures var send, i := PeerOf(After(INIT, run), who).send, LastRead(run, who);
            && (i < 0 ==> send == Syn)
            && (i >= 0 && run[i].p == Syn ==> send == SynAck)
            && (i >= 0 && run[i].p != Syn ==> send == Packet.Ack)
    decreases |run|
  {
    hide Enabled, Apply;
    if run != [] {
      LastStep(INIT, run);
      OneStep(After(INIT, run[..|run| - 1]), run[|run| - 1], who);
      SendIsLastRead(run[..|run| - 1], who);
    }
  }

  /** In every run: the initiator has stopped reading exactly when it has read a syn-ack or an ack, the listener when an ack. */
  lemma {:induction false} ReaderStopsOn(run: seq<Step>, who: Role)
    requires IsRun(INIT, run)
    ensures !PeerOf(After(INIT, run), who).reading <==>
              exists i :: 0 <= i < |run| && Stops(run[i], who)
    decreases |run|
  {
    hide Enabled, Apply;
    if run != [] {
      LastStep(INIT, run);
      OneStep(After(INIT, run[..|run| - 1]), run[|run| - 1], who);
      var front := run[..|run| - 1];
      ReaderStopsOn(front, who);
      assert forall i :: 0 <= i < |front| ==> front[i] == run[i];
    }
  }

  /** `send` of this side before step i. */
  function SendAt(run: seq<Step>, who: Role, i: nat): Packet
    requires i <= |run|
  {
    PeerOf(After(INIT, run[..i]), who).send
  }

  /** In every run: a writer has stopped exactly when one of its tests found an ack in `send`. */
  lemma {:induction false} WriterStopsOnAck(run: seq<Step>, who: Role)
    requires IsRun(INIT, run)
    ensures PeerOf(After(INIT, run), who).writer == Stopped <==>
              exists i :: 0 <= i < |run| && TestBy(run[i], who) && SendAt(run, who, i) == Packet.Ack
    decreases |run|
  {
    hide Enabled, Apply;
    if run != [] {
      LastStep(INIT, run);
      OneStep(After(INIT, run[..|run| - 1]), run[|run| - 1], who);
      var front := run[..|run| - 1];
      WriterStopsOnAck(front, who);
      assert forall i :: 0 <= i <= |front| ==> front[..i] == run[..i];
      assert forall i :: 0 <= i < |front| ==> front[i] == run[i] && SendAt(front, who, i) == SendAt(run, who, i);
      assert SendAt(run, who, |front|) == PeerOf(After(INIT, front), who).send;
    }
  }

  /** In every run: the packets that a side has written are those that `send` held at its writes. */
  lemma {:induction false} WrittenWasSend(run: seq<Step>, who: Role, p: Packet)
    requires IsRun(INIT, run)
    ensures p in Outbox(After(INIT, run), who).wrote <==>
              exists i :: 0 <= i < |run| && WriteBy(run[i], who) && SendAt(run, who, i) == p
    decreases |run|
  {
    hide Enabled, Apply;
    if run != [] {
      LastStep(INIT, run);
      OneStep(After(INIT, run[..|run| - 1]), run[|run| - 1], who);
      var front := run[..|run| - 1];
      WrittenWasSend(front, who, p);
      assert forall i :: 0 <= i <= |front| ==> front[..i] == run[..i];
      assert forall i :: 0 <= i < |front| ==> front[i] == run[i] && SendAt(front, who, i) == SendAt(run, who, i);
      assert SendAt(run, who, |front|) == PeerOf(After(INIT, front), who).send;
    }
  }

  // ---------- what can still finish ----------

  /** The initiator's writer has stopped, or is bound to, and no ack is on its way that the listener still needs. */
  predicate DoomedByInitiator(s: State) {
    s.l.reading && !s.i.reading && s.i.writer != Writing && Ack !in s.toL.flying
  }

  /** The listener's writer has stopped, or is bound to, and no answer is on its way that the initiator still needs. */
  predicate DoomedByListener(s: State) {
    && s.i.reading
    && SynAck !in s.toI.flying && Ack !in s.toI.flying
    && (s.l.writer == Stopped
        || (s.l.writer == Testing && s.l.send == Ack && s.i.send == SynAck && Syn !in s.toL.flying))
  }

  predicate Doomed(s: State) { DoomedByInitiator(s) || DoomedByListener(s) }

  lemma InitiatorDoomStep(s: State, step: Step)
    requires Inv(s) && DoomedByInitiator(s) && Enabled(s, step)
    ensures DoomedByInitiator(Apply(s, step))
  {
  }

  lemma ListenerDoomRead(s: State, who: Role, p: Packet)
    requires Inv(s) && DoomedByListener(s) && Enabled(s, Read(who, p))
    ensures DoomedByListener(Apply(s, Read(who, p)))
  {
    hide NothingLost, Caused;
  }

  lemma ListenerDoomNetwork(s: State, step: Step)
    requires DoomedByListener(s) && Enabled(s, step) && (step.Drop? || step.Duplicate?)
    ensures DoomedByListener(Apply(s, step))
  {
  }

  lemma ListenerDoomStep(s: State, step: Step)
    requires Inv(s) && DoomedByListener(s) && Enabled(s, step)
    ensures DoomedByListener(Apply(s, step))
  {
    hide NothingLost, Caused, NothingInvented;
    if step.Read? {
      ListenerDoomRead(s, step.who, step.p);
    } else if step.Drop? || step.Duplicate? {
      ListenerDoomNetwork(s, step);
    }
  }

  lemma DoomStep(s: State, step: Step)
    requires Inv(s) && Doomed(s) && Enabled(s, step)
    ensures Doomed(Apply(s, step))
  {
    hide Inv, Enabled, Apply, DoomedByInitiator, DoomedByListener;
    if DoomedByInitiator(s) {
      InitiatorDoomStep(s, step);
    } else {
      ListenerDoomStep(s, step);
    }
  }

  /** No continuation of a doomed state finishes. */
  lemma {:induction false} DoomLasts(s: State, steps: seq<Step>)
    requires Inv(s) && Doomed(s) && IsRun(s, steps)
    ensures !Finished(After(s, steps))
    decreases |steps|
  {
    hide Inv, Apply, Enabled, Doomed;
    if steps != [] {
      StepInv(s, steps[0]);
      DoomStep(s, steps[0]);
      DoomLasts(Apply(s, steps[0]), steps[1..]);
    } else {
      DoomedUnfinished(s);
    }
  }

  lemma DoomedUnfinished(s: State)
    requires Doomed(s)
    ensures !Finished(s)
  {
  }

  predicate Hopeful(s: State) {
    Inv(s) && !Doomed(s)
  }

  /** Whole steps only, if no writer is in the middle of an iteration. */
  predicate Fits(s: State, steps: seq<Step>) {
    s.i.writer != Testing && s.l.writer != Testing ==> Atomic(steps)
  }

  /** One more step, then the rest. */
  lemma Then(s: State, step: Step, rest: seq<Step>)
    requires Enabled(s, step) && IsRun(Apply(s, step), rest)
    ensures IsRun(s, [step] + rest) && After(s, [step] + rest) == After(Apply(s, step), rest)
  {
    assert ([step] + rest)[1..] == rest;
  }

  /** The listener has its ack: only tests and its own last write are missing. */
  lemma FinishAcked(s: State) returns (steps: seq<Step>)
    requires Hopeful(s) && !s.l.reading
    ensures |steps| <= 2 && IsRun(s, steps) && Finished(After(s, steps)) && Fits(s, steps)
  {
    steps := [];
    var t := s;
    if s.l.writer != Stopped {
      var step := if s.l.writer == Testing then Test(Listener) else Iterate(Listener);
      Then(s, step, []);
      t, steps := Apply(s, step), [step];
      StepInv(s, step);
    }
    if t.i.writer == Testing {
      Then(t, Test(Initiator), []);
      RunConcat(s, steps, [Test(Initiator)]);
      steps := steps + [Test(Initiator)];
    }
  }

  /** The initiator has finished reading: its ack must reach the listener. */
  lemma FinishAnswered(s: State) returns (steps: seq<Step>)
    requires Hopeful(s) && !s.i.reading
    ensures |steps| <= 4 && IsRun(s, steps) && Finished(After(s, steps)) && Fits(s, steps)
  {
    if !s.l.reading {
      steps := FinishAcked(s);
    } else if s.i.writer == Writing {
      var step := Iterate(Initiator);
      StepInv(s, step);
      var rest := DeliverAck(Apply(s, step));
      Then(s, step, rest);
      steps := [step] + rest;
    } else {
      steps := DeliverAck(s);
    }
  }

  lemma DeliverAck(s: State) returns (steps: seq<Step>)
    requires Hopeful(s) && !s.i.reading && s.l.reading && Ack in s.toL.flying
    ensures |steps| <= 3 && IsRun(s, steps) && Finished(After(s, steps)) && Fits(s, steps)
  {
    var step := Read(Listener, Ack);
    StepInv(s, step);
    var rest := FinishAcked(Apply(s, step));
    Then(s, step, rest);
    steps := [step] + rest;
  }

  /** An answer is on its way to the initiator, whose writer is not in the middle of an iteration. */
  lemma DeliverAnswer(s: State) returns (steps: seq<Step>)
    requires Hopeful(s) && s.i.reading && s.i.writer == Writing
    requires SynAck in s.toI.flying || Ack in s.toI.flying
    ensures |steps| <= 5 && IsRun(s, steps) && Finished(After(s, steps)) && Fits(s, steps)
  {
    var step := Read(Initiator, if SynAck in s.toI.flying then SynAck else Ack);
    StepInv(s, step);
    var rest := FinishAnswered(Apply(s, step));
    Then(s, step, rest);
    steps := [step] + rest;
  }

  /** The listener's writer is about to write an answer. */
  lemma WriteAnswer(s: State) returns (steps: seq<Step>)
    requires Hopeful(s) && s.i.reading && s.i.writer == Writing && s.l.writer == Writing && s.l.send != Syn
    ensures |steps| <= 6 && IsRun(s, steps) && Finished(After(s, steps)) && Fits(s, steps)
  {
    var step := Iterate(Listener);
    StepInv(s, step);
    var rest := DeliverAnswer(Apply(s, step));
    Then(s, step, rest);
    steps := [step] + rest;
  }

  /** The listener has nothing to answer yet, but a packet of the initiator is on its way. */
  lemma HearGreeting(s: State, p: Packet) returns (steps: seq<Step>)
    requires Hopeful(s) && s.i.reading && s.i.writer == Writing && s.l.writer == Writing && s.l.send == Syn
    requires p in s.toL.flying && p != Ack
    ensures |steps| <= 7 && IsRun(s, steps) && Finished(After(s, steps)) && Fits(s, steps)
  {
    var hear := Read(Listener, p);
    StepInv(s, hear);
    var rest := WriteAnswer(Apply(s, hear));
    Then(s, hear, rest);
    steps := [hear] + rest;
  }

  /** The listener's writer is ready, but may have nothing to answer yet. */
  lemma ProvokeAnswer(s: State) returns (steps: seq<Step>)
    requires Hopeful(s) && s.i.reading && s.i.writer == Writing && s.l.writer == Writing
    ensures |steps| <= 8 && IsRun(s, steps) && Finished(After(s, steps)) && Fits(s, steps)
  {
    if s.l.send != Syn {
      steps := WriteAnswer(s);
    } else {
      var greet := Iterate(Initiator);
      StepInv(s, greet);
      var rest := HearGreeting(Apply(s, greet), s.i.send);
      Then(s, greet, rest);
      steps := [greet] + rest;
    }
  }

  lemma FinishFromWriting(s: State) returns (steps: seq<Step>)
    requires Hopeful(s) && s.i.reading && s.i.writer == Writing
    ensures |steps| <= 10 && IsRun(s, steps) && Finished(After(s, steps)) && Fits(s, steps)
  {
    if SynAck in s.toI.flying || Ack in s.toI.flying {
      steps := DeliverAnswer(s);
    } else if s.l.writer == Writing {
      steps := ProvokeAnswer(s);
    } else {
      // the listener is between write and test: let it not see an ack there
      var before := if s.l.send == Ack then [Read(Listener, Syn)] else [];
      var t := s;
      if s.l.send == Ack {
        StepInv(s, before[0]);
        Then(s, before[0], []);
        t := Apply(s, before[0]);
      }
      StepInv(t, Test(Listener));
      var rest := ProvokeAnswer(Apply(t, Test(Listener)));
      Then(t, Test(Listener), rest);
      RunConcat(s, before, [Test(Listener)] + rest);
      steps := before + ([Test(Listener)] + rest);
    }
  }

  /** Every reachable state that is not doomed can finish in 11 steps. */
  lemma CanFinish(s: State) returns (steps: seq<Step>)
    requires Hopeful(s)
    ensures |steps| <= 11 && IsRun(s, steps) && Finished(After(s, steps)) && Fits(s, steps)
  {
    if !s.i.reading {
      steps := FinishAnswered(s);
    } else if s.i.writer == Writing {
      steps := FinishFromWriting(s);
    } else {
      var step := Test(Initiator);
      StepInv(s, step);
      var rest := FinishFromWriting(Apply(s, step));
      Then(s, step, rest);
      steps := [step] + rest;
    }
  }

  /**
   Liveness after any run, whatever was lost and however iterations were split: the handshake can still
   finish exactly when no side needs a packet that is not on its way and that the other will not write
   again. Then eleven more steps are enough.
   */
  lemma CanFinishIff(run: seq<Step>)
    requires IsRun(INIT, run)
    ensures (exists steps :: IsRun(After(INIT, run), steps) && Finished(After(After(INIT, run), steps)))
       <==> !Doomed(After(INIT, run))
    ensures !Doomed(After(INIT, run)) ==>
              exists steps :: |steps| <= 11 && IsRun(After(INIT, run), steps) && Finished(After(After(INIT, run), steps))
  {
    hide Inv, Doomed;
    InitInv();
    RunInv(INIT, run);
    var s := After(INIT, run);
    if Doomed(s) {
      forall steps | IsRun(s, steps) ensures !Finished(After(s, steps)) {
        DoomLasts(s, steps);
      }
    } else {
      assert Hopeful(s);
      var steps := CanFinish(s);
      assert IsRun(s, steps) && Finished(After(s, steps));
    }
  }

  /**
   Liveness with whole iterations: from every reachable state in which no packet has been dropped,
   at most eleven whole steps take both sides to done.
   */
  lemma AlwaysFinishable(run: seq<Step>)
    requires IsRun(INIT, run) && Atomic(run) && !After(INIT, run).dropped
    ensures exists steps :: |steps| <= 11 && IsRun(After(INIT, run), steps) && Atomic(steps)
                            && Finished(After(After(INIT, run), steps))
  {
    InitInv();
    RunInv(INIT, run);
    AtomicSettled(INIT, run);
    var s := After(INIT, run);
    assert !Doomed(s);
    hide Inv, Doomed;
    var steps := CanFinish(s);
  }

  /** The handshake without a loss, up to the listener's answer. */
  lemma UpToAnswer() returns (run: seq<Step>)
    ensures IsRun(INIT, run) && Atomic(run)
    ensures var s := After(INIT, run);
            && s.i == START && s.l.reading
            && s.toI.flying == multiset{SynAck} && s.toL.flying == multiset{}
  {
    var a := Apply(INIT, Iterate(Initiator));
    var b := Apply(a, Read(Listener, Syn));
    Then(b, Iterate(Listener), []);
    run := [Iterate(Listener)];
    Then(a, Read(Listener, Syn), run);
    run := [Read(Listener, Syn)] + run;
    Then(INIT, Iterate(Initiator), run);
    run := [Iterate(Initiator)] + run;
  }

  /** And on, up to the initiator's ack. */
  lemma UpToAck() returns (run: seq<Step>)
    ensures IsRun(INIT, run) && Atomic(run)
    ensures var s := After(INIT, run);
            s.l.reading && !s.i.reading && s.i.writer == Stopped && s.toL.flying == multiset{Ack}
  {
    var before := UpToAnswer();
    var s := After(INIT, before);
    var read, write := Read(Initiator, SynAck), Iterate(Initiator);
    Then(Apply(s, read), write, []);
    Then(s, read, [write]);
    RunConcat(INIT, before, [read] + [write]);
    run := before + ([read] + [write]);
  }

  /** With whole iterations, too, one loss at the wrong time dooms the handshake: the initiator writes its ack only once. */
  lemma OneLossCanDoom() returns (run: seq<Step>)
    ensures IsRun(INIT, run) && Atomic(run) && Doomed(After(INIT, run))
  {
    hide Inv;
    var before := UpToAck();
    var s := After(INIT, before);
    Then(s, Drop(Listener, Ack), []);
    RunConcat(INIT, before, [Drop(Listener, Ack)] + []);
    run := before + ([Drop(Listener, Ack)] + []);
    assert DoomedByInitiator(Apply(s, Drop(Listener, Ack)));
  }

  /** Split iterations do reach a doomed state: the initiator reads the answer between its write and its test. */
  lemma SplitIterationsCanDoom() returns (run: seq<Step>)
    ensures IsRun(INIT, run) && !After(INIT, run).dropped && DoomedByInitiator(After(INIT, run))
  {
    var a := Apply(INIT, Write(Initiator));
    var b := Apply(a, Read(Listener, Syn));
    var c := Apply(b, Iterate(Listener));
    var d := Apply(c, Read(Initiator, SynAck));
    Then(c, Read(Initiator, SynAck), []);
    Then(b, Iterate(Listener), [Read(Initiator, SynAck)]);
    Then(a, Read(Listener, Syn), [Iterate(Listener)] + [Read(Initiator, SynAck)]);
    Then(INIT, Write(Initiator), [Read(Listener, Syn)] + ([Iterate(Listener)] + [Read(Initiator, SynAck)]));
    run := [Write(Initiator)] + ([Read(Listener, Syn)] + ([Iterate(Listener)] + [Read(Initiator, SynAck)]));
    assert DoomedByInitiator(d);
  }

  // ---------- the two loops over the shared variable ----------

  /** What handshake's two goroutines share and return through. */
  class Endpoint {
    const role: Role
    var send: Packet
    var writer: Writer
    var reading: bool

    constructor (initiator: bool)
      ensures Value() == START && role == if initiator then Initiator else Listener
    {
      role := if initiator then Initiator else Listener;
      send, writer, reading := Syn, Writing, true;
    }

    function Value(): Peer
      reads this
    {
      Peer(send, writer, reading)
    }

    /** One pass of the writer loop; the packet goes to the peer. */
    method WriterPass() returns (written: Packet)
      requires writer == Writing
      modifies this
      ensures written == old(send) && Value() == AfterTest(old(Value()))
      ensures send == old(send) && reading == old(reading)
      ensures writer == if old(send) == Packet.Ack then Stopped else Writing
    {
      written := send;
      if send == Ack {
        writer := Stopped;
      }
    }

    /** One pass of the reader loop, on a packet from the peer. */
    method ReaderPass(packet: Packet)
      requires reading
      modifies this
      ensures Value() == OnPacket(role, old(Value()), packet)
      ensures writer == old(writer) && send == if packet == Syn then SynAck else Packet.Ack
      ensures reading == (packet == Syn || (packet == SynAck && role == Listener))
    {
      match packet {
        case Syn =>
          send := SynAck;
        case SynAck =>
          send := Ack;
          if role == Initiator {
            reading := false;
          }
        case Ack =>
          send := Ack;
          reading := false;
      }
    }
  }
}
