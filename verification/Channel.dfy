/** The unbuffered channel of include/cyfiber.h: a one-slot mailbox whose critical sections are the
    mutex-protected blocks.  `Mailbox` is the shared object, one method per critical section;
    `Step` interleaves the sections of any number of senders, receivers and closers. */
module Channel {
  import opened Prelude

  /** state is 0 (empty) or 1 (a value is posted in slot). */
  datatype Box<M> = Box(state: int, closed: bool, slot: Option<M>)

  datatype Verdict = Closed | Retry | Success

  /** send: closed is tested before the slot. */
  function Post<M>(b: Box<M>, m: M): (Box<M>, Verdict) {
    if b.closed then (b, Closed)
    else if b.state == 0 then (b.(state := 1, slot := Some(m)), Success)
    else (b, Retry)
  }

  /** The sender's wait: an empty slot is tested before closed. */
  function Pickup<M>(b: Box<M>): Verdict {
    if b.state == 0 then Success else if b.closed then Closed else Retry
  }

  /** receive: a posted value is taken even after close. */
  function Take<M>(b: Box<M>): (Box<M>, Verdict) {
    if b.state == 1 then (b.(state := 0), Success)
    else if b.closed then (b, Closed)
    else (b, Retry)
  }

  class Mailbox<M> {
    var state: int
    var closed: bool
    var slot: Option<M>

    ghost function Value(): Box<M>
      reads this
    {
      Box(state, closed, slot)
    }

    constructor ()
      ensures Value() == Box(0, false, None)
    {
      state, closed, slot := 0, false, None;
    }

    /** cy_chan0_try_send, and one turn of the first loop of cy_chan0_send_park. */
    method TrySend(m: M) returns (rc: int)
      modifies this
      ensures (Value(), VerdictOf(rc)) == Post(old(Value()), m)
      ensures rc == if old(closed) then -1 else if old(state) == 0 then 1 else 0
    {
      rc := 0;
      if closed { rc := -1; }
      else if state == 0 {
        slot := Some(m);
        state := 1;
        rc := 1;
      }
    }

    /** One turn of the pickup loop of cy_chan0_send_park. */
    method PollPickup() returns (rc: int)
      ensures VerdictOf(rc) == Pickup(Value())
      ensures rc == if state == 0 then 1 else if closed then -1 else 0
    {
      if state == 0 { return 1; }
      if closed { return -1; }
      return 0;
    }

    /** cy_chan0_try_recv, and one turn of the loop of cy_chan0_recv_park. */
    method TryRecv() returns (rc: int, m: Option<M>)
      modifies this
      ensures (Value(), VerdictOf(rc)) == Take(old(Value()))
      ensures m == if rc == 1 then old(slot) else None
      ensures rc == if old(state) == 1 then 1 else if old(closed) then -1 else 0
    {
      rc, m := 0, None;
      if state == 1 {
        m := slot;
        state := 0;
        rc := 1;
      } else if closed {
        rc := -1;
      }
    }

    /** cy_chan_close: 1 the first time, 0 afterwards. */
    method Close() returns (rc: int)
      modifies this
      ensures Value() == old(Value()).(closed := true)
      ensures rc == if old(closed) then 0 else 1
    {
      var already := closed;
      closed := true;
      rc := if already then 0 else 1;
    }
  }

  function VerdictOf(rc: int): Verdict {
    if rc < 0 then Closed else if rc == 0 then Retry else Success
  }

  /** Where a thread or fiber is.  AwaitPickup remembers which post (by position) was its own. */
  datatype Pc<M> = Idle | Posting(m: M) | AwaitPickup(n: nat, m: M) | Taking

  /** What a call reported, with what the reporter is entitled to conclude. */
  datatype Event<M> =
    | Sent(pid: nat, n: nat, m: M)      // send_park returned 1; m was the n-th post
    | SendClosed(pid: nat)              // send_park returned 0, or try_send -1
    | Posted(pid: nat)                  // a value was put in the slot (try_send then returns 1)
    | Got(pid: nat, m: M)               // recv_park or try_recv returned 1
    | Drained(pid: nat, n: nat)         // recv_park returned 0, or try_recv -1; n posts so far
    | CloseReturned(pid: nat, rc: int)

  datatype System<M> = System(
    box: Box<M>, pcs: map<nat, Pc<M>>,
    posted: seq<M>, received: seq<M>, log: seq<Event<M>>)

  /** One atomic step, of thread `pid`. */
  datatype Action<M> =
    | CallSendPark(pid: nat, m: M) | CallRecvPark(pid: nat)
    | Resume(pid: nat)
    | CallTrySend(pid: nat, m: M) | CallTryRecv(pid: nat) | CallClose(pid: nat)

  function At<M>(s: System<M>, pid: nat): Pc<M> {
    if pid in s.pcs then s.pcs[pid] else Idle
  }

  function Initial<M>(): System<M> {
    System(Box(0, false, None), map[], [], [], [])
  }

  function DoPost<M>(s: System<M>, pid: nat, m: M, onSuccess: Pc<M>, onRetry: Pc<M>): System<M> {
    var (b, v) := Post(s.box, m);
    match v
    case Closed => s.(pcs := s.pcs[pid := Idle], log := s.log + [SendClosed(pid)])
    case Retry => s.(pcs := s.pcs[pid := onRetry])
    case Success => s.(box := b, pcs := s.pcs[pid := onSuccess], posted := s.posted + [m], log := s.log + [Posted(pid)])
  }

  function DoTake<M>(s: System<M>, pid: nat, onRetry: Pc<M>): System<M> {
    var (b, v) := Take(s.box);
    match v
    case Closed => s.(pcs := s.pcs[pid := Idle], log := s.log + [Drained(pid, |s.posted|)])
    case Retry => s.(pcs := s.pcs[pid := onRetry])
    case Success =>
      if s.box.slot.Some? then
        var m := s.box.slot.value;
        s.(box := b, pcs := s.pcs[pid := Idle], received := s.received + [m], log := s.log + [Got(pid, m)])
      else s
  }

  /** The successor state; an action whose thread is elsewhere does nothing. */
  function Step<M>(s: System<M>, a: Action<M>): System<M> {
    match a
    case CallSendPark(pid, m) => if At(s, pid) == Idle then s.(pcs := s.pcs[pid := Posting(m)]) else s
    case CallRecvPark(pid) => if At(s, pid) == Idle then s.(pcs := s.pcs[pid := Taking]) else s
    case CallTrySend(pid, m) =>
      if At(s, pid) == Idle then DoPost(s, pid, m, Idle, Idle) else s
    case CallTryRecv(pid) => if At(s, pid) == Idle then DoTake(s, pid, Idle) else s
    case CallClose(pid) =>
      if At(s, pid) == Idle then
        s.(box := s.box.(closed := true),
           pcs := s.pcs[pid := Idle],
           log := s.log + [CloseReturned(pid, if s.box.closed then 0 else 1)])
      else s
    case Resume(pid) =>
      match At(s, pid)
      case Idle => s
      case Posting(m) => DoPost(s, pid, m, AwaitPickup(|s.posted|, m), Posting(m))
      case Taking => DoTake(s, pid, Taking)
      case AwaitPickup(n, m) =>
        match Pickup(s.box)
        case Retry => s
        case Closed => s.(pcs := s.pcs[pid := Idle], log := s.log + [SendClosed(pid)])
        case Success => s.(pcs := s.pcs[pid := Idle], log := s.log + [Sent(pid, n, m)])
  }

  /** Every interleaving is a sequence of actions. */
  function Run<M>(actions: seq<Action<M>>): System<M> {
    if actions == [] then Initial()
    else Step(Run(actions[..|actions| - 1]), actions[|actions| - 1])
  }

  function FirstCloses<M>(log: seq<Event<M>>): nat {
    if log == [] then 0
    else
      var e := log[|log| - 1];
      FirstCloses(log[..|log| - 1]) + (if e.CloseReturned? && e.rc == 1 then 1 else 0)
  }

  /** Deliveries in the log, in order. */
  function Deliveries<M>(log: seq<Event<M>>): seq<M> {
    if log == [] then []
    else
      var e := log[|log| - 1];
      Deliveries(log[..|log| - 1]) + (if e.Got? then [e.m] else [])
  }

  /** Received messages are the posted ones in post order, except the one still in the slot. */
  ghost predicate InOrder<M>(b: Box<M>, posted: seq<M>, received: seq<M>) {
    && 0 <= b.state <= 1
    && |posted| == |received| + b.state
    && received == posted[..|received|]
    && (b.state == 1 ==> b.slot == Some(posted[|received|]))
  }

  /** What a reported result still means now, and at every later time. */
  ghost predicate Truthful<M>(b: Box<M>, posted: seq<M>, received: seq<M>, e: Event<M>) {
    match e
    case Sent(_, n, m) => n < |received| && received[n] == m
    case Drained(_, n) => b.closed && b.state == 0 && n == |posted| == |received|
    case SendClosed(_) => b.closed
    case CloseReturned(_, _) => b.closed
    case _ => true
  }

  ghost predicate AllTruthful<M>(b: Box<M>, posted: seq<M>, received: seq<M>, log: seq<Event<M>>) {
    forall i :: 0 <= i < |log| ==> Truthful(b, posted, received, log[i])
  }

  ghost predicate Waiting<M>(pc: Pc<M>, posted: seq<M>) {
    pc.AwaitPickup? ==> pc.n < |posted| && posted[pc.n] == pc.m
  }

  ghost predicate AllWaiting<M>(pcs: map<nat, Pc<M>>, posted: seq<M>) {
    forall pid :: pid in pcs ==> Waiting(pcs[pid], posted)
  }

  ghost predicate Inv<M>(s: System<M>) {
    && InOrder(s.box, s.posted, s.received)
    && AllWaiting(s.pcs, s.posted)
    && AllTruthful(s.box, s.posted, s.received, s.log)
    && Deliveries(s.log) == s.received
    && FirstCloses(s.log) == if s.box.closed then 1 else 0
  }

  /** How the channel may evolve: histories grow, closed is for ever, and after close nothing is
      posted and a drained channel stays drained. */
  ghost predicate Evolves<M>(b: Box<M>, p: seq<M>, r: seq<M>, b': Box<M>, p': seq<M>, r': seq<M>) {
    && p <= p' && r <= r'
    && (b.closed ==> b'.closed && p' == p)
    && (b.closed && b.state == 0 ==> b'.state == 0 && r' == r)
  }

  lemma StayTruthful<M>(b: Box<M>, p: seq<M>, r: seq<M>, b': Box<M>, p': seq<M>, r': seq<M>,
                        log: seq<Event<M>>, e: Event<M>)
    requires AllTruthful(b, p, r, log) && Evolves(b, p, r, b', p', r') && Truthful(b', p', r', e)
    ensures AllTruthful(b', p', r', log + [e])
  {
    forall i | 0 <= i < |log| + 1 ensures Truthful(b', p', r', (log + [e])[i]) {
      if i < |log| { assert Truthful(b, p, r, log[i]); }
    }
  }

  lemma StayWaiting<M>(pcs: map<nat, Pc<M>>, p: seq<M>, p': seq<M>, pid: nat, pc: Pc<M>)
    requires AllWaiting(pcs, p) && p <= p' && Waiting(pc, p')
    ensures AllWaiting(pcs[pid := pc], p')
  {
    var moved := pcs[pid := pc];
    forall q | q in moved ensures Waiting(moved[q], p') {
      if q != pid { assert Waiting(pcs[q], p); }
    }
  }

  lemma LogGrows<M>(log: seq<Event<M>>, e: Event<M>)
    ensures FirstCloses(log + [e]) == FirstCloses(log) + (if e.CloseReturned? && e.rc == 1 then 1 else 0)
    ensures Deliveries(log + [e]) == Deliveries(log) + (if e.Got? then [e.m] else [])
  {
    assert (log + [e])[..|log|] == log;
  }

  /** A step that changes the channel to b', posts p' and receives r', moves one thread and reports e. */
  lemma ReportKeepsInv<M>(s: System<M>, s': System<M>, pid: nat, pc: Pc<M>, e: Event<M>)
    requires Inv(s) && s'.pcs == s.pcs[pid := pc] && s'.log == s.log + [e]
    requires Evolves(s.box, s.posted, s.received, s'.box, s'.posted, s'.received)
    requires InOrder(s'.box, s'.posted, s'.received)
    requires Waiting(pc, s'.posted) && Truthful(s'.box, s'.posted, s'.received, e)
    requires s'.received == s.received + (if e.Got? then [e.m] else [])
    requires s'.box.closed == (s.box.closed || e.CloseReturned?)
    requires e.CloseReturned? ==> e.rc == if s.box.closed then 0 else 1
    ensures Inv(s')
  {
    StayTruthful(s.box, s.posted, s.received, s'.box, s'.posted, s'.received, s.log, e);
    StayWaiting(s.pcs, s.posted, s'.posted, pid, pc);
    LogGrows(s.log, e);
  }

  lemma MoveKeepsInv<M>(s: System<M>, pid: nat, pc: Pc<M>)
    requires Inv(s) && Waiting(pc, s.posted)
    ensures Inv(s.(pcs := s.pcs[pid := pc]))
  {
    StayWaiting(s.pcs, s.posted, s.posted, pid, pc);
  }

  lemma PostKeepsInv<M>(s: System<M>, pid: nat, m: M, onSuccess: Pc<M>, onRetry: Pc<M>)
    requires Inv(s) && (onSuccess == Idle || onSuccess == AwaitPickup(|s.posted|, m))
    requires !onRetry.AwaitPickup?
    ensures Inv(DoPost(s, pid, m, onSuccess, onRetry))
  {
    var s' := DoPost(s, pid, m, onSuccess, onRetry);
    match Post(s.box, m).1
    case Closed => ReportKeepsInv(s, s', pid, Idle, SendClosed(pid));
    case Retry => MoveKeepsInv(s, pid, onRetry);
    case Success => ReportKeepsInv(s, s', pid, onSuccess, Posted(pid));
  }

  lemma TakeKeepsInv<M>(s: System<M>, pid: nat, onRetry: Pc<M>)
    requires Inv(s) && !onRetry.AwaitPickup?
    ensures Inv(DoTake(s, pid, onRetry))
  {
    var s' := DoTake(s, pid, onRetry);
    match Take(s.box).1
    case Closed => ReportKeepsInv(s, s', pid, Idle, Drained(pid, |s.posted|));
    case Retry => MoveKeepsInv(s, pid, onRetry);
    case Success => ReportKeepsInv(s, s', pid, Idle, Got(pid, s.box.slot.value));
  }

  lemma StepKeepsInv<M>(s: System<M>, a: Action<M>)
    requires Inv(s)
    ensures Inv(Step(s, a))
  {
    var pc := At(s, a.pid);
    match a {
      case CallSendPark(pid, m) => MoveKeepsInv(s, pid, Posting(m));
      case CallRecvPark(pid) => MoveKeepsInv(s, pid, Taking);
      case CallTrySend(pid, m) => PostKeepsInv(s, pid, m, Idle, Idle);
      case CallTryRecv(pid) => TakeKeepsInv(s, pid, Idle);
      case CallClose(pid) =>
        if pc == Idle {
          ReportKeepsInv(s, Step(s, a), pid, Idle, CloseReturned(pid, if s.box.closed then 0 else 1));
        }
      case Resume(pid) => ResumeKeepsInv(s, pid);
    }
  }

  lemma ResumeKeepsInv<M>(s: System<M>, pid: nat)
    requires Inv(s)
    ensures Inv(Step(s, Resume(pid)))
  {
    var s' := Step(s, Resume(pid));
    match At(s, pid) {
      case Idle =>
      case Posting(m) => PostKeepsInv(s, pid, m, AwaitPickup(|s.posted|, m), Posting(m));
      case Taking => TakeKeepsInv(s, pid, Taking);
      case AwaitPickup(n, m) =>
        assert Waiting(s.pcs[pid], s.posted);
        match Pickup(s.box)
        case Retry =>
        case Closed => ReportKeepsInv(s, s', pid, Idle, SendClosed(pid));
        case Success => ReportKeepsInv(s, s', pid, Idle, Sent(pid, n, m));
    }
  }

  lemma {:induction false} RunKeepsInv<M>(actions: seq<Action<M>>)
    ensures Inv(Run<M>(actions))
  {
    if actions != [] {
      RunKeepsInv(actions[..|actions| - 1]);
      StepKeepsInv(Run(actions[..|actions| - 1]), actions[|actions| - 1]);
    }
  }

  /** Over all interleavings: received messages are a prefix of the posted ones, in post order and
      each delivered once, with at most one still in the slot. */
  lemma ReceivedIsPrefixOfPosted<M>(actions: seq<Action<M>>)
    ensures var s := Run<M>(actions);
            s.received <= s.posted && |s.posted| - |s.received| == s.box.state && 0 <= s.box.state <= 1 &&
            Deliveries(s.log) == s.received
  {
    RunKeepsInv(actions);
  }

  /** A send_park that returned 1 had its message received, whatever happened since. */
  lemma SentMeansReceived<M>(actions: seq<Action<M>>, i: nat)
    requires i < |Run<M>(actions).log| && Run<M>(actions).log[i].Sent?
    ensures var s := Run<M>(actions); var e := s.log[i];
            e.n < |s.received| && s.received[e.n] == e.m
  {
    RunKeepsInv(actions);
    var s := Run<M>(actions);
    assert Truthful(s.box, s.posted, s.received, s.log[i]);
  }

  /** A receive that reported closed-and-drained leaves nothing behind, now or after any further
      actions: no message is ever posted or received again. */
  lemma DrainedIsFinal<M>(actions: seq<Action<M>>, later: seq<Action<M>>, i: nat)
    requires i < |Run<M>(actions).log| && Run<M>(actions).log[i].Drained?
    ensures var s := Run<M>(actions); var t := Run<M>(actions + later);
            s.received == s.posted && t.posted == s.posted && t.received == s.received
  {
    RunKeepsInv(actions);
    var s := Run<M>(actions);
    assert Truthful(s.box, s.posted, s.received, s.log[i]);
    DrainedStays(actions, later, i);
  }

  /** A Drained report stays in the log and stays true. */
  lemma {:induction false} DrainedStays<M>(actions: seq<Action<M>>, later: seq<Action<M>>, i: nat)
    requires i < |Run<M>(actions).log| && Run<M>(actions).log[i].Drained?
    ensures var s := Run<M>(actions); var t := Run<M>(actions + later);
            s.log <= t.log && t.posted == s.posted && t.received == s.received
    decreases |later|
  {
    if later == [] {
      assert actions + later == actions;
    } else {
      var n := |later| - 1;
      assert (actions + later)[..|actions + later| - 1] == actions + later[..n];
      DrainedStays(actions, later[..n], i);
      RunKeepsInv(actions + later[..n]);
      DrainedStep(Run<M>(actions + later[..n]), later[n], i);
    }
  }

  lemma DrainedStep<M>(s: System<M>, a: Action<M>, i: nat)
    requires Inv(s) && i < |s.log| && s.log[i].Drained?
    ensures s.log <= Step(s, a).log && Step(s, a).posted == s.posted && Step(s, a).received == s.received
  {
    assert Truthful(s.box, s.posted, s.received, s.log[i]);
  }

  /** Of all close calls at most one returns 1, and it does so exactly when the channel is closed. */
  lemma ClosedOnce<M>(actions: seq<Action<M>>)
    ensures FirstCloses(Run<M>(actions).log) == if Run<M>(actions).box.closed then 1 else 0
  {
    RunKeepsInv(actions);
  }

  // ---- What each look at the channel brings about ----

  /** Something was posted that nobody has received. */
  predicate Full<M>(s: System<M>) {
    |s.posted| > |s.received|
  }

  /** Thread pid goes on at pc and the report e is added; the other threads and the close flag are as before. */
  ghost predicate Reports<M>(s: System<M>, s': System<M>, pid: nat, pc: Pc<M>, e: Event<M>) {
    && s'.log == s.log + [e] && At(s', pid) == pc && s'.box.closed == s.box.closed
    && forall q :: q != pid ==> At(s', q) == At(s, q)
  }

  /** Nothing happens but the look. */
  ghost predicate Waits<M>(s: System<M>, s': System<M>) {
    && s'.posted == s.posted && s'.received == s.received && s'.log == s.log && s'.box == s.box
    && forall q :: At(s', q) == At(s, q)
  }

  predicate Receives<M>(s: System<M>, a: Action<M>) {
    (a.CallTryRecv? && At(s, a.pid) == Idle) || (a.Resume? && At(s, a.pid) == Taking)
  }

  ghost predicate Sends<M>(s: System<M>, a: Action<M>, m: M) {
    (a.CallTrySend? && a.m == m && At(s, a.pid).Idle?) ||
    (a.Resume? && At(s, a.pid).Posting? && At(s, a.pid).m == m)
  }

  lemma RunSnoc<M>(actions: seq<Action<M>>, a: Action<M>)
    ensures Run(actions + [a]) == Step(Run(actions), a)
  {
    assert (actions + [a])[..|actions|] == actions;
  }

  /** A thread inside a call does not begin another, and an idle one has none to go on with. */
  lemma OneCallAtATime<M>(actions: seq<Action<M>>, a: Action<M>)
    requires At(Run(actions), a.pid).Idle? == a.Resume?
    ensures Run(actions + [a]) == Run(actions)
  {
    RunSnoc(actions, a);
  }

  /** A parking call of an idle thread waits for the thread's next turn, with its message. */
  lemma ParkOutcome<M>(actions: seq<Action<M>>, pid: nat, m: M)
    requires At(Run<M>(actions), pid).Idle?
    ensures var s, s' := Run<M>(actions), Run<M>(actions + [CallSendPark(pid, m)]);
            s' == s.(pcs := s'.pcs) && forall q :: At(s', q) == if q == pid then Posting(m) else At(s, q)
    ensures var s, s' := Run<M>(actions), Run<M>(actions + [CallRecvPark(pid)]);
            s' == s.(pcs := s'.pcs) && forall q :: At(s', q) == if q == pid then Taking else At(s, q)
  {
    RunSnoc(actions, CallSendPark(pid, m));
    RunSnoc(actions, CallRecvPark(pid));
  }

  /** A receiver gets the oldest message that is not received, also after a close; without one it reports the
      close, or waits. */
  lemma ReceiveOutcome<M>(actions: seq<Action<M>>, a: Action<M>)
    requires Receives(Run(actions), a)
    ensures var s, s' := Run(actions), Run(actions + [a]);
            && s'.posted == s.posted
            && (Full(s) ==> s'.received == s.received + [s.posted[|s.received|]]
                            && Reports(s, s', a.pid, Idle, Got(a.pid, s.posted[|s.received|])))
            && (!Full(s) ==> s'.received == s.received
                             && if s.box.closed then Reports(s, s', a.pid, Idle, Drained(a.pid, |s.posted|))
                                else Waits(s, s'))
  {
    RunKeepsInv(actions);
    RunSnoc(actions, a);
  }

  /** A sender is refused after a close; before it, it posts when every message posted was received, and waits
      otherwise. */
  lemma SendOutcome<M>(actions: seq<Action<M>>, a: Action<M>, m: M)
    requires Sends(Run(actions), a, m)
    ensures var s, s' := Run(actions), Run(actions + [a]);
            && s'.received == s.received
            && (s.box.closed ==> s'.posted == s.posted && Reports(s, s', a.pid, Idle, SendClosed(a.pid)))
            && (!s.box.closed && !Full(s) ==>
                  s'.posted == s.posted + [m] &&
                  Reports(s, s', a.pid, if a.Resume? then AwaitPickup(|s.posted|, m) else Idle, Posted(a.pid)))
            && (!s.box.closed && Full(s) ==> Waits(s, s'))
  {
    RunKeepsInv(actions);
    RunSnoc(actions, a);
  }

  /** A sender that looks while no message is left over reports success, also after a close; otherwise it
      reports the close, or waits. */
  lemma PickupOutcome<M>(actions: seq<Action<M>>, pid: nat)
    requires At(Run<M>(actions), pid).AwaitPickup?
    ensures var s, s' := Run<M>(actions), Run<M>(actions + [Resume(pid)]); var pc := At(s, pid);
            && s'.posted == s.posted && s'.received == s.received
            && (!Full(s) ==> Reports(s, s', pid, Idle, Sent(pid, pc.n, pc.m)))
            && (Full(s) ==> if s.box.closed then Reports(s, s', pid, Idle, SendClosed(pid)) else Waits(s, s'))
  {
    RunKeepsInv(actions);
    RunSnoc(actions, Resume(pid));
  }

  /** A close answers 1 the first time, and neither posts nor receives. */
  lemma CloseOutcome<M>(actions: seq<Action<M>>, pid: nat)
    requires At(Run<M>(actions), pid).Idle?
    ensures var s, s' := Run<M>(actions), Run<M>(actions + [CallClose(pid)]);
            && s'.posted == s.posted && s'.received == s.received && s'.box.closed
            && s'.log == s.log + [CloseReturned(pid, if s.box.closed then 0 else 1)]
            && forall q :: At(s', q) == At(s, q)
  {
    RunSnoc(actions, CallClose(pid));
  }

  /** So a message posted before the close is delivered: the next look of any receiver brings it. */
  lemma PostedIsDelivered<M>(actions: seq<Action<M>>, closer: nat, a: Action<M>)
    requires Full(Run<M>(actions)) && At(Run<M>(actions), closer).Idle?
    requires Receives(Run(actions + [CallClose(closer)]), a)
    ensures var s, s' := Run<M>(actions), Run<M>(actions + [CallClose(closer)] + [a]);
            s'.received == s.received + [s.posted[|s.received|]]
  {
    CloseOutcome(actions, closer);
    ReceiveOutcome(actions + [CallClose(closer)], a);
  }
}
