/** The bounded hand-off queue between a decoding thread and a reading thread.

    The three critical sections are methods of a class.  The protocol around them is a state machine
    whose steps are what a scheduler can separate: taking the mutex, one pass of a critical section,
    parking on a condition variable (which gives the mutex up), and a notification sent after the
    mutex was released.  Spurious wake-ups and the producer's 5 ms timeout are steps of their own, and
    so is a third thread that calls `wake_all`. */
module ChunkQueue {
  import opened Bytes

  /** What the mutex protects. */
  datatype Shared<T> = Shared(bound: nat, q: seq<T>, done: bool, error: string)

  /** How one pass of push's loop ends. */
  datatype PushExit = Refused | Room | Full

  /** How one pass of pop ends. */
  datatype PopExit<T> = Took(item: T) | Nothing | Ended | Failed(msg: string)

  function PushPass<T>(s: Shared<T>, d: T, stop: bool): (Shared<T>, PushExit)
  {
    if stop then (s, Refused)
    else if |s.q| < s.bound then (s.(q := s.q + [d]), Room)
    else (s, Full)
  }

  function PopPass<T>(s: Shared<T>): (Shared<T>, PopExit<T>)
  {
    if |s.q| > 0 then (s.(q := s.q[1..]), Took(s.q[0]))
    else if !s.done then (s, Nothing)
    else if |s.error| > 0 then (s, Failed(s.error))
    else (s, Ended)
  }

  class Queue<T> {
    const bound: nat
    var q: seq<T>
    var done: bool
    var error: string

    function View(): Shared<T>
      reads this
    {
      Shared(bound, q, done, error)
    }

    constructor (bound: nat)
      ensures View() == Shared(bound, [], false, "")
    {
      this.bound := bound;
      q := [];
      done := false;
      error := "";
    }

    /** One pass of push's loop, the mutex held. */
    method Push(d: T, stop: bool) returns (exit: PushExit)
      modifies this
      ensures (View(), exit) == PushPass(old(View()), d, stop)
    {
      if stop {
        return Refused;
      }
      if |q| < bound {
        q := q + [d];
        return Room;
      }
      return Full;
    }

    method Finish(error: string)
      modifies this
      ensures View() == old(View()).(done := true, error := error)
    {
      done := true;
      this.error := error;
    }

    /** One pass of pop, the mutex held: `Nothing` parks the caller. */
    method Pop() returns (exit: PopExit<T>)
      modifies this
      ensures (View(), exit) == PopPass(old(View()))
    {
      if |q| > 0 {
        exit := Took(q[0]);
        q := q[1..];
      } else if !done {
        exit := Nothing;
      } else if |error| > 0 {
        exit := Failed(error);
      } else {
        exit := Ended;
      }
    }
  }

  // ----- the threads -----

  datatype Owner = Free | ByProducer | ByConsumer | ByCanceller

  /** Where the decoding thread is.  `Lock` and `FinLock` wait for the mutex, `Hold`, `FinHold` and
      `FinNotify` own it, `Parked` sleeps on the producers' condition variable, and `Notify` has
      pushed and released but not yet notified. */
  datatype Producer<T> =
    | Resting | Lock(d: T) | Hold(d: T) | Parked(d: T) | Notify
    | FinLock(err: string) | FinHold(err: string) | FinNotify | Finished

  datatype Consumer<T> = CResting | CLock | CHold | CParked | CNotify(item: T)

  datatype Canceller = ARest | ALock | AHold

  /** What a call of pop tells its caller. */
  datatype Report<T> = Item(item: T) | End | Fail(msg: string)

  /** The whole system; `pushed` and `reports` are the histories of the two sides. */
  datatype State<T> =
    State(shared: Shared<T>, owner: Owner, p: Producer<T>, c: Consumer<T>, a: Canceller, stop: bool,
          pushed: seq<T>, reports: seq<Report<T>>)

  /** Who moves.  The calls, the stop request, the timeout and the spurious wake-up are the
      environment's; the last three continue a thread that is inside a call. */
  datatype Move<T> =
    | CallPush(d: T) | CallFinish(err: string) | CallPop | CallWakeAll | RequestStop | Timeout | Spurious
    | ProducerStep | ConsumerStep | CancellerStep

  function Initial<T>(bound: nat): State<T>
  {
    State(Shared(bound, [], false, ""), Free, Resting, CResting, ARest, false, [], [])
  }

  function WakeConsumer<T>(c: Consumer<T>): Consumer<T>
  {
    if c.CParked? then CLock else c
  }

  function WakeProducer<T>(p: Producer<T>): Producer<T>
  {
    if p.Parked? then Lock(p.d) else p
  }

  function ProducerMoves<T>(s: State<T>): Option<State<T>>
  {
    match s.p
    case Lock(d) => if s.owner.Free? then Some(s.(owner := ByProducer, p := Hold(d))) else None
    case Hold(d) =>
      var (shared, exit) := PushPass(s.shared, d, s.stop);
      var t := s.(shared := shared, owner := Free);
      (match exit
       case Refused => Some(t.(p := Resting))
       case Room => Some(t.(p := Notify, pushed := s.pushed + [d]))
       case Full => Some(t.(p := Parked(d))))
    case Notify => Some(s.(p := Resting, c := WakeConsumer(s.c)))
    case FinLock(err) => if s.owner.Free? then Some(s.(owner := ByProducer, p := FinHold(err))) else None
    case FinHold(err) => Some(s.(shared := s.shared.(done := true, error := err), p := FinNotify))
    case FinNotify => Some(s.(owner := Free, p := Finished, c := WakeConsumer(s.c)))
    case _ => None
  }

  function ConsumerMoves<T>(s: State<T>): Option<State<T>>
  {
    match s.c
    case CLock => if s.owner.Free? then Some(s.(owner := ByConsumer, c := CHold)) else None
    case CHold =>
      var (shared, exit) := PopPass(s.shared);
      var t := s.(shared := shared, owner := Free);
      (match exit
       case Took(x) => Some(t.(c := CNotify(x)))
       case Nothing => Some(t.(c := CParked))
       case Ended => Some(t.(c := CResting, reports := s.reports + [End]))
       case Failed(msg) => Some(t.(c := CResting, reports := s.reports + [Fail(msg)])))
    case CNotify(x) => Some(s.(c := CResting, p := WakeProducer(s.p), reports := s.reports + [Item(x)]))
    case _ => None
  }

  function CancellerMoves<T>(s: State<T>): Option<State<T>>
  {
    match s.a
    case ARest => None
    case ALock => if s.owner.Free? then Some(s.(owner := ByCanceller, a := AHold)) else None
    case AHold => Some(s.(owner := Free, a := ARest, p := WakeProducer(s.p), c := WakeConsumer(s.c)))
  }

  /** One step of the system, or None where the move is not possible. */
  function Next<T>(s: State<T>, m: Move<T>): Option<State<T>>
  {
    match m
    case CallPush(d) => if s.p.Resting? then Some(s.(p := Lock(d))) else None
    case CallFinish(err) => if s.p.Resting? then Some(s.(p := FinLock(err))) else None
    case CallPop => if s.c.CResting? then Some(s.(c := CLock)) else None
    case CallWakeAll => if s.a.ARest? then Some(s.(a := ALock)) else None
    case RequestStop => Some(s.(stop := true))
    case Timeout => if s.p.Parked? then Some(s.(p := Lock(s.p.d))) else None
    case Spurious => if s.c.CParked? then Some(s.(c := CLock)) else None
    case ProducerStep => ProducerMoves(s)
    case ConsumerStep => ConsumerMoves(s)
    case CancellerStep => CancellerMoves(s)
  }

  /** The state a schedule reaches, or None where one of its moves was not possible. */
  function Run<T>(s: State<T>, moves: seq<Move<T>>): Option<State<T>>
    decreases |moves|
  {
    if moves == [] then Some(s)
    else
      match Next(s, moves[0])
      case None => None
      case Some(t) => Run(t, moves[1..])
  }

  // ----- what every interleaving keeps -----

  /** The mutex has one owner, and it is the thread that is inside a critical section. */
  ghost predicate Exclusive<T>(s: State<T>)
  {
    && (s.owner.ByProducer? <==> s.p.Hold? || s.p.FinHold? || s.p.FinNotify?)
    && (s.owner.ByConsumer? <==> s.c.CHold?)
    && (s.owner.ByCanceller? <==> s.a.AHold?)
  }

  /** What the n-th call of pop has to report: the n-th item pushed, and after the last one the end
      or the error, for ever. */
  function Due<T>(s: State<T>, n: nat): Report<T>
  {
    if n < |s.pushed| then Item(s.pushed[n])
    else if s.shared.error == "" then End
    else Fail(s.shared.error)
  }

  ghost predicate InOrder<T>(s: State<T>)
  {
    var n := |s.reports|;
    && (forall i :: 0 <= i < n ==> s.reports[i] == Due(s, i))
    && (s.c.CNotify? ==>
          n < |s.pushed| && s.c.item == s.pushed[n] && s.shared.q == s.pushed[n + 1..])
    && (!s.c.CNotify? && n <= |s.pushed| ==> s.shared.q == s.pushed[n..])
    && (n > |s.pushed| ==> s.shared.done && s.shared.q == [])
  }

  /** A parked thread whose condition holds has a notification on the way. */
  ghost predicate Noticed<T>(s: State<T>)
  {
    && (s.c.CParked? && s.shared.q != [] ==> s.p.Notify?)
    && (s.c.CParked? && s.shared.done ==> s.p.FinNotify?)
    && (s.p.Parked? && |s.shared.q| < s.shared.bound ==> s.c.CNotify?)
  }

  ghost predicate Inv<T>(s: State<T>)
  {
    && Exclusive(s)
    && (s.shared.done <==> s.p.FinNotify? || s.p.Finished?)
    && |s.shared.q| <= s.shared.bound
    && InOrder(s)
    && Noticed(s)
  }

  lemma {:induction false} ProducerKeeps<T>(s: State<T>)
    requires Inv(s) && ProducerMoves(s).Some?
    ensures Inv(ProducerMoves(s).value)
  {
    var t := ProducerMoves(s).value;
    if s.p.Hold? && t.p.Notify? {
      var n := |s.reports|;
      assert s.pushed[n..] + [s.p.d] == t.pushed[n..];
      if s.c.CNotify? {
        assert s.pushed[n + 1..] + [s.p.d] == t.pushed[n + 1..];
      }
    }
  }

  lemma {:induction false} ConsumerKeeps<T>(s: State<T>)
    requires Inv(s) && ConsumerMoves(s).Some?
    ensures Inv(ConsumerMoves(s).value)
  {
    var n := |s.reports|;
    if s.c.CHold? && |s.shared.q| > 0 {
      assert s.pushed[n..][1..] == s.pushed[n + 1..];
    }
  }

  lemma {:induction false} NextKeeps<T>(s: State<T>, m: Move<T>)
    requires Inv(s) && Next(s, m).Some?
    ensures Inv(Next(s, m).value) && Next(s, m).value.shared.bound == s.shared.bound
  {
    match m
    case ProducerStep => ProducerKeeps(s);
    case ConsumerStep => ConsumerKeeps(s);
    case _ =>
  }

  /** Every state that any interleaving reaches satisfies the invariant. */
  lemma {:induction false} RunKeeps<T>(s: State<T>, moves: seq<Move<T>>)
    requires Inv(s) && Run(s, moves).Some?
    ensures Inv(Run(s, moves).value) && Run(s, moves).value.shared.bound == s.shared.bound
    decreases |moves|
  {
    hide Inv;
    if moves != [] {
      NextKeeps(s, moves[0]);
      RunKeeps(Next(s, moves[0]).value, moves[1..]);
    }
  }

  ghost predicate Reachable<T>(s: State<T>, bound: nat, moves: seq<Move<T>>)
  {
    Run(Initial(bound), moves) == Some(s)
  }

  lemma {:induction false} ReachableInv<T>(s: State<T>, bound: nat, moves: seq<Move<T>>)
    requires Reachable(s, bound, moves)
    ensures Inv(s) && s.shared.bound == bound
  {
    RunKeeps(Initial<T>(bound), moves);
  }

  // ----- the queue's promises -----

  /** The items that pop has handed out. */
  function Items<T>(reports: seq<Report<T>>): seq<T>
  {
    if reports == [] then []
    else Items(reports[..|reports| - 1]) + (if reports[|reports| - 1].Item? then [reports[|reports| - 1].item] else [])
  }

  /** Taken off the queue: handed out, or in the hands of a pop that has yet to notify. */
  function Popped<T>(s: State<T>): seq<T>
  {
    Items(s.reports) + (if s.c.CNotify? then [s.c.item] else [])
  }

  lemma {:induction false} ItemsAre<T>(s: State<T>, n: nat)
    requires n <= |s.reports| && forall i :: 0 <= i < n ==> s.reports[i] == Due(s, i)
    ensures Items(s.reports[..n]) == s.pushed[..Min(n, |s.pushed|)]
  {
    if n > 0 {
      ItemsAre(s, n - 1);
      assert s.reports[..n][..n - 1] == s.reports[..n - 1];
    }
  }

  /** In every interleaving nothing is lost, duplicated or reordered, and the queue stays within its
      bound. */
  lemma {:induction false} Conserved<T>(s: State<T>, bound: nat, moves: seq<Move<T>>)
    requires Reachable(s, bound, moves)
    ensures Popped(s) + s.shared.q == s.pushed
    ensures |s.shared.q| <= bound
  {
    ReachableInv(s, bound, moves);
    var n := |s.reports|;
    ItemsAre(s, n);
    assert s.reports[..n] == s.reports;
    if s.c.CNotify? {
      assert s.pushed[..n] + [s.pushed[n]] + s.pushed[n + 1..] == s.pushed;
    }
  }

  /** A report that is no item comes only after finish, with everything pushed handed out before it,
      and tells whether finish was given an error; every later report repeats it. */
  lemma {:induction false} EndsWhenDrained<T>(s: State<T>, bound: nat, moves: seq<Move<T>>, i: nat)
    requires Reachable(s, bound, moves) && i < |s.reports| && !s.reports[i].Item?
    ensures s.shared.done && s.shared.q == [] && Items(s.reports[..i]) == s.pushed
    ensures s.reports[i] == if s.shared.error == "" then End else Fail(s.shared.error)
    ensures forall j :: i <= j < |s.reports| ==> s.reports[j] == s.reports[i]
  {
    ReachableInv(s, bound, moves);
    assert s.reports[i] == Due(s, i);
    ItemsAre(s, i);
  }

  /** No wake-up is lost.  A consumer asleep with an item queued or the stream finished is about to
      be woken by the producer's next step, which nothing can block; so is a producer asleep with
      room, by the consumer's. */
  lemma {:induction false} NoLostWakeUp<T>(s: State<T>, bound: nat, moves: seq<Move<T>>)
    requires Reachable(s, bound, moves)
    ensures s.c.CParked? && (s.shared.q != [] || s.shared.done) ==>
              (s.p.Notify? || s.p.FinNotify?) && Next(s, ProducerStep).Some? && Next(s, ProducerStep).value.c.CLock?
    ensures s.p.Parked? && |s.shared.q| < bound ==>
              s.c.CNotify? && Next(s, ConsumerStep).Some? && Next(s, ConsumerStep).value.p.Lock?
  {
    ReachableInv(s, bound, moves);
  }

  /** Both sides asleep at once: possible exactly for a queue of bound zero. */
  lemma {:induction false} BothAsleep<T>(bound: nat, d: T)
    ensures (exists s: State<T>, moves :: Reachable(s, bound, moves) && s.p.Parked? && s.c.CParked?) <==> bound == 0
  {
    if bound == 0 {
      var moves := [CallPush(d), ProducerStep, ProducerStep, CallPop, ConsumerStep, ConsumerStep];
      var s := State(Shared(0, [], false, ""), Free, Parked(d), CParked, ARest, false, [], []);
      ParkBoth(d);
      assert Reachable(s, bound, moves) && s.p.Parked? && s.c.CParked?;
    } else {
      forall s: State<T>, moves | Reachable(s, bound, moves)
        ensures !(s.p.Parked? && s.c.CParked?)
      {
        ReachableInv(s, bound, moves);
      }
    }
  }

  lemma {:induction false} RunStep<T>(s: State<T>, m: Move<T>, rest: seq<Move<T>>)
    ensures Run(s, [m] + rest) == match Next(s, m) case None => None case Some(t) => Run(t, rest)
  {
    assert ([m] + rest)[1..] == rest;
  }

  lemma {:induction false} ParkBoth<T>(d: T)
    ensures Run(Initial(0), [CallPush(d), ProducerStep, ProducerStep, CallPop, ConsumerStep, ConsumerStep]) ==
            Some(State(Shared(0, [], false, ""), Free, Parked(d), CParked, ARest, false, [], []))
  {
    hide Run;
    var s0 := Initial<T>(0);
    var s1 := s0.(p := Lock(d));
    var s2 := s1.(owner := ByProducer, p := Hold(d));
    var s3 := s2.(owner := Free, p := Parked(d));
    var s4 := s3.(c := CLock);
    var s5 := s4.(owner := ByConsumer, c := CHold);
    var s6 := s5.(owner := Free, c := CParked);
    var c1: seq<Move<T>>, c2: seq<Move<T>> := [ConsumerStep], [ConsumerStep, ConsumerStep];
    RunEmpty(s6);
    RunStep(s5, ConsumerStep, []);
    assert [ConsumerStep] + [] == c1;
    RunStep(s4, ConsumerStep, c1);
    assert [ConsumerStep] + c1 == c2;
    RunStep(s3, CallPop, c2);
    RunStep(s2, ProducerStep, [CallPop] + c2);
    RunStep(s1, ProducerStep, [ProducerStep] + ([CallPop] + c2));
    RunStep(s0, CallPush(d), [ProducerStep] + ([ProducerStep] + ([CallPop] + c2)));
    assert [CallPush(d)] + ([ProducerStep] + ([ProducerStep] + ([CallPop] + c2))) ==
           [CallPush(d), ProducerStep, ProducerStep, CallPop, ConsumerStep, ConsumerStep];
  }

  lemma {:induction false} RunEmpty<T>(s: State<T>)
    ensures Run(s, []) == Some(s)
  {
  }

  // ----- a pop that can be answered is answered -----

  ghost predicate Waiting<T>(s: State<T>)
  {
    !s.c.CResting? && (s.c.CNotify? || s.shared.q != [] || s.shared.done)
  }

  /** The thread to let run next. */
  function Helper<T>(s: State<T>): Move<T>
  {
    match s.owner
    case ByProducer => ProducerStep
    case ByCanceller => CancellerStep
    case ByConsumer => ConsumerStep
    case Free => if s.c.CParked? then ProducerStep else ConsumerStep
  }

  /** How many steps are left at most. */
  function Left<T>(s: State<T>): (n: nat)
    ensures n <= 7
  {
    (match s.p case FinHold(_) => 2 case FinNotify => 1 case Hold(_) => 2 case Notify => 1 case _ => 0) +
    (match s.a case AHold => 1 case _ => 0) +
    (match s.c case CResting => 0 case CNotify(_) => 1 case CHold => 2 case CLock => 3 case CParked => 4)
  }

  lemma {:induction false} HelperHelps<T>(s: State<T>)
    requires Inv(s) && Waiting(s)
    ensures Left(s) > 0 && Next(s, Helper(s)).Some?
    ensures
      var t := Next(s, Helper(s)).value;
      if |t.reports| > |s.reports| then t.reports == s.reports + [Due(s, |s.reports|)]
      else t.reports == s.reports && Waiting(t) && Left(t) < Left(s) &&
           Due(t, |t.reports|) == Due(s, |s.reports|)
  {
  }

  /** A pop that can be answered is never stuck: from every reachable state some schedule of at most
      seven steps, none of them a new call, a timeout or a spurious wake-up, makes it report what is
      due. */
  lemma {:induction false} PopIsAnswered<T>(s: State<T>, bound: nat, moves: seq<Move<T>>)
    returns (more: seq<Move<T>>)
    requires Reachable(s, bound, moves) && Waiting(s)
    ensures |more| <= 7 && forall m :: m in more ==> m in {ProducerStep, ConsumerStep, CancellerStep}
    ensures Run(s, more).Some? && Run(s, more).value.reports == s.reports + [Due(s, |s.reports|)]
  {
    hide Inv, Waiting;
    ReachableInv(s, bound, moves);
    more := Answering(s);
  }

  lemma {:induction false} Answering<T>(s: State<T>) returns (more: seq<Move<T>>)
    requires Inv(s) && Waiting(s)
    ensures |more| <= Left(s) && forall m :: m in more ==> m in {ProducerStep, ConsumerStep, CancellerStep}
    ensures Run(s, more).Some? && Run(s, more).value.reports == s.reports + [Due(s, |s.reports|)]
    decreases Left(s)
  {
    hide Inv, Waiting, Left, Due, Next, Run;
    HelperHelps(s);
    NextKeeps(s, Helper(s));
    var t := Next(s, Helper(s)).value;
    var rest := [];
    if |t.reports| == |s.reports| {
      rest := Answering(t);
    } else {
      RunEmpty(t);
    }
    RunStep(s, Helper(s), rest);
    more := [Helper(s)] + rest;
  }
}
