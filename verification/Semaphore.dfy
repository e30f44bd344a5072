/**
  The counting semaphores of lib/semaphore.c under every interleaving of the
  threads that use one.  Each atomic access to the counter is one step, and
  the counter is a 32-bit word.  The semaphores are written for an
  atomic_sub_return that answers the new value; the one of
  include/arch/x86/atomic.h answers what xadd leaves, the value from before.
  The model covers both.
 */
module Semaphore {

  const MAX_SEMAPHORE_VALUE: nat := 0x7FFF_FFFF

  /** What a 32-bit word makes of a number. */
  function Wrap(x: int): int {
    (x + 0x8000_0000) % 0x1_0000_0000 - 0x8000_0000
  }

  /**
    Where a thread stands: outside of a call, past the first test of
    sem_trywait_units, or about to add the units back.
   */
  datatype Pc = Idle | Passed(units: int) | Undoing(units: int)

  /** What atomic_sub_return answers. */
  datatype Answer = ValueBefore | NewValue

  /** The counter and the threads; and what was granted and posted so far. */
  datatype State = State(answer: Answer, v: int, pcs: seq<Pc>, granted: int, posted: int)

  /** sem_trywait is sem_trywait_units with one unit, and sem_wait repeats it. */
  datatype Event = Read(t: nat, units: int) | Take(t: nat) | Back(t: nat) | Post(t: nat, units: int)

  /** sem_init */
  function Start(answer: Answer, value: nat, threads: nat): State {
    State(answer, value, seq(threads, _ => Idle), 0, 0)
  }

  predicate Enabled(s: State, e: Event) {
    && e.t < |s.pcs|
    && match e
       case Read(t, _) => s.pcs[t].Idle?
       case Take(t) => s.pcs[t].Passed?
       case Back(t) => s.pcs[t].Undoing?
       case Post(t, _) => s.pcs[t].Idle?
  }

  function Step(s: State, e: Event): State
    requires Enabled(s, e)
  {
    match e
    case Read(t, units) =>
      if s.v >= units then s.(pcs := s.pcs[t := Passed(units)]) else s
    case Take(t) =>
      var units := s.pcs[t].units;
      if (if s.answer.ValueBefore? then s.v else Wrap(s.v - units)) >= 0
      then s.(v := Wrap(s.v - units), pcs := s.pcs[t := Idle], granted := s.granted + units)
      else s.(v := Wrap(s.v - units), pcs := s.pcs[t := Undoing(units)])
    case Back(t) =>
      s.(v := Wrap(s.v + s.pcs[t].units), pcs := s.pcs[t := Idle])
    case Post(_, units) =>
      s.(v := Wrap(s.v + units), posted := s.posted + units)
  }

  predicate Runs(s: State, events: seq<Event>)
    decreases |events|
  {
    events == [] || (Enabled(s, events[0]) && Runs(Step(s, events[0]), events[1..]))
  }

  function After(s: State, events: seq<Event>): State
    requires Runs(s, events)
    decreases |events|
  {
    if events == [] then s else After(Step(s, events[0]), events[1..])
  }

  // ---- conservation ----------------------------------------------------

  /** Units taken off the counter that will be added back. */
  function Owed(pcs: seq<Pc>): int {
    if pcs == [] then 0 else (if pcs[0].Undoing? then pcs[0].units else 0) + Owed(pcs[1..])
  }

  lemma {:induction false} OwedUpdate(pcs: seq<Pc>, t: nat, pc: Pc)
    requires t < |pcs|
    ensures Owed(pcs[t := pc]) == Owed(pcs) - (if pcs[t].Undoing? then pcs[t].units else 0)
                                            + (if pc.Undoing? then pc.units else 0)
  {
    if t == 0 {
      assert pcs[t := pc][1..] == pcs[1..];
    } else {
      assert pcs[t := pc][1..] == pcs[1..][t - 1 := pc];
      OwedUpdate(pcs[1..], t - 1, pc);
    }
  }

  lemma OwedNone(n: nat)
    ensures Owed(seq(n, _ => Idle)) == 0
  {
    OwedIdle(seq(n, _ => Idle));
  }

  /** The counter, what was granted and what is owed make up what was there and what was posted. */
  function Balance(s: State): int {
    s.v + s.granted + Owed(s.pcs) - s.posted
  }

  predicate SameWord(x: int, y: int) {
    (x - y) % 0x1_0000_0000 == 0
  }

  lemma StepBalances(s: State, e: Event)
    requires Enabled(s, e)
    ensures SameWord(Balance(Step(s, e)), Balance(s))
  {
    match e {
      case Read(t, units) => OwedUpdate(s.pcs, t, Passed(units));
      case Take(t) =>
        OwedUpdate(s.pcs, t, Idle);
        OwedUpdate(s.pcs, t, Undoing(s.pcs[t].units));
      case Back(t) => OwedUpdate(s.pcs, t, Idle);
      case Post(t, units) =>
    }
  }

  /** No interleaving loses or creates a unit, up to the width of the counter. */
  lemma {:induction false} Conservation(s: State, events: seq<Event>)
    requires Runs(s, events)
    ensures SameWord(Balance(After(s, events)), Balance(s))
    decreases |events|
  {
    if events != [] {
      StepBalances(s, events[0]);
      Conservation(Step(s, events[0]), events[1..]);
    }
  }

  lemma FromStart(answer: Answer, value: nat, threads: nat, events: seq<Event>)
    requires value <= MAX_SEMAPHORE_VALUE && Runs(Start(answer, value, threads), events)
    ensures var s := After(Start(answer, value, threads), events);
            SameWord(s.v + s.granted + Owed(s.pcs), value + s.posted)
  {
    Conservation(Start(answer, value, threads), events);
    OwedNone(threads);
  }

  // ---- how much can be granted -----------------------------------------

  /** Waits ask for 1 to `most` units, and posts take none away. */
  predicate Sized(e: Event, most: nat) {
    match e
    case Read(_, units) => 1 <= units <= most
    case Post(_, units) => 0 <= units
    case _ => true
  }

  predicate AllSized(events: seq<Event>, most: nat) {
    forall i :: 0 <= i < |events| ==> Sized(events[i], most)
  }

  function PostTotal(events: seq<Event>): int {
    if events == [] then 0 else (if events[0].Post? then events[0].units else 0) + PostTotal(events[1..])
  }

  predicate PcsSized(pcs: seq<Pc>, most: nat) {
    forall t :: 0 <= t < |pcs| && !pcs[t].Idle? ==> 1 <= pcs[t].units <= most
  }

  lemma {:induction false} OwedBound(pcs: seq<Pc>, most: nat)
    requires PcsSized(pcs, most)
    ensures 0 <= Owed(pcs) <= |pcs| * most
  {
    if pcs != [] {
      OwedBound(pcs[1..], most);
      assert |pcs| * most == (|pcs| - 1) * most + most;
    }
  }

  /** How many units can be granted that are not there. */
  function Excess(answer: Answer, most: nat): nat {
    if answer.ValueBefore? then most else 0
  }

  /** The counter holds exactly the balance, and no more units were granted beyond it. */
  predicate Bounded(s: State, value: nat, most: nat) {
    && PcsSized(s.pcs, most) && s.posted >= 0
    && Balance(s) == value && 0 <= s.granted <= value + s.posted + Excess(s.answer, most)
  }

  /** The 32 bits of the counter suffice for these threads and posts. */
  predicate Fits(value: nat, threads: nat, most: nat, posted: int) {
    value + posted <= MAX_SEMAPHORE_VALUE && (threads + 2) * most <= 0x8000_0000
  }

  lemma BoundedStep(s: State, e: Event, value: nat, most: nat)
    requires Bounded(s, value, most) && Enabled(s, e) && Sized(e, most)
    requires Fits(value, |s.pcs|, most, s.posted + (if e.Post? then e.units else 0))
    ensures Bounded(Step(s, e), value, most)
  {
    InRange(s, value, most, s.posted + (if e.Post? then e.units else 0));
    match e {
      case Read(t, units) => OwedUpdate(s.pcs, t, Passed(units));
      case Take(t) => BoundedTake(s, t, value, most);
      case Back(t) => BoundedBack(s, t, value, most);
      case Post(t, units) => Exact(s.v + units);
    }
  }

  lemma Exact(x: int)
    requires -0x8000_0000 <= x <= MAX_SEMAPHORE_VALUE
    ensures Wrap(x) == x
  {
  }

  lemma BoundedTake(s: State, t: nat, value: nat, most: nat)
    requires Bounded(s, value, most) && Enabled(s, Take(t)) && Owed(s.pcs) >= 0
    requires -0x8000_0000 <= s.v - most && s.v <= MAX_SEMAPHORE_VALUE
    ensures Bounded(Step(s, Take(t)), value, most)
  {
    OwedUpdate(s.pcs, t, Idle);
    OwedUpdate(s.pcs, t, Undoing(s.pcs[t].units));
    Exact(s.v - s.pcs[t].units);
  }

  lemma BoundedBack(s: State, t: nat, value: nat, most: nat)
    requires Bounded(s, value, most) && Enabled(s, Back(t)) && -0x8000_0000 <= s.v
    requires value + s.posted <= MAX_SEMAPHORE_VALUE
    ensures Bounded(Step(s, Back(t)), value, most)
  {
    OwedUpdate(s.pcs, t, Idle);
    OwedBound(s.pcs[t := Idle], most);
    Exact(s.v + s.pcs[t].units);
  }

  lemma InRange(s: State, value: nat, most: nat, posted: int)
    requires Bounded(s, value, most) && Fits(value, |s.pcs|, most, posted) && s.posted <= posted
    ensures Owed(s.pcs) >= 0 && -0x8000_0000 <= s.v - most && s.v <= value + s.posted <= MAX_SEMAPHORE_VALUE
  {
    OwedBound(s.pcs, most);
    assert (|s.pcs| + 2) * most == |s.pcs| * most + 2 * most;
  }

  lemma {:induction false} BoundedRun(s: State, events: seq<Event>, value: nat, most: nat)
    requires Bounded(s, value, most) && Runs(s, events) && AllSized(events, most)
    requires Fits(value, |s.pcs|, most, s.posted + PostTotal(events))
    ensures Bounded(After(s, events), value, most)
    decreases |events|
  {
    if events != [] {
      PostsGrow(events[1..], most);
      BoundedStep(s, events[0], value, most);
      BoundedRun(Step(s, events[0]), events[1..], value, most);
    }
  }

  lemma {:induction false} PostsGrow(events: seq<Event>, most: nat)
    requires AllSized(events, most)
    ensures PostTotal(events) >= 0
  {
    if events != [] {
      PostsGrow(events[1..], most);
    }
  }

  /**
    However the threads interleave: with the new value as the answer no more
    units are granted than were there and were posted, and with the value from
    before at most one request's worth.  The counter is exact, and while no
    attempt is in flight it is what is left.
   */
  lemma BoundedOvergrant(answer: Answer, value: nat, threads: nat, most: nat, events: seq<Event>)
    requires Runs(Start(answer, value, threads), events) && AllSized(events, most)
    requires Fits(value, threads, most, PostTotal(events))
    ensures var s := After(Start(answer, value, threads), events);
            && s.granted <= value + s.posted + Excess(answer, most)
            && s.v + s.granted + Owed(s.pcs) == value + s.posted
            && (AllIdle(s.pcs) ==> s.v == value + s.posted - s.granted)
  {
    OwedNone(threads);
    BoundedRun(Start(answer, value, threads), events, value, most);
    SameAnswer(Start(answer, value, threads), events);
    var s := After(Start(answer, value, threads), events);
    if AllIdle(s.pcs) {
      OwedIdle(s.pcs);
    }
  }

  predicate AllIdle(pcs: seq<Pc>) {
    forall t :: 0 <= t < |pcs| ==> pcs[t].Idle?
  }

  lemma {:induction false} OwedIdle(pcs: seq<Pc>)
    requires AllIdle(pcs)
    ensures Owed(pcs) == 0
  {
    if pcs != [] {
      OwedIdle(pcs[1..]);
    }
  }

  lemma {:induction false} SameAnswer(s: State, events: seq<Event>)
    requires Runs(s, events)
    ensures After(s, events).answer == s.answer
    decreases |events|
  {
    if events != [] {
      SameAnswer(Step(s, events[0]), events[1..]);
    }
  }

  // ---- when nothing is granted twice -----------------------------------

  predicate Overgranted(s: State, value: nat) {
    s.granted > value + s.posted
  }

  /** What a thread that is alone keeps: its test still holds when it takes the units. */
  predicate Alone(s: State, value: nat, most: nat) {
    && |s.pcs| <= 1 && PcsSized(s.pcs, most) && -0x8000_0000 <= s.v <= MAX_SEMAPHORE_VALUE && s.posted >= 0
    && s.granted <= value + s.posted && s.v <= value + s.posted - s.granted
    && forall t :: 0 <= t < |s.pcs| ==> s.pcs[t].Idle? || (s.pcs[t].Passed? && s.v >= s.pcs[t].units)
  }

  lemma {:induction false} AloneRun(s: State, events: seq<Event>, value: nat, most: nat)
    requires Alone(s, value, most) && Runs(s, events) && AllSized(events, most)
    ensures Alone(After(s, events), value, most)
    decreases |events|
  {
    if events != [] {
      AloneStep(s, events[0], value, most);
      AloneRun(Step(s, events[0]), events[1..], value, most);
    }
  }

  lemma WrapDown(x: int)
    requires x >= -0x8000_0000
    ensures Wrap(x) <= x
  {
  }

  lemma AloneStep(s: State, e: Event, value: nat, most: nat)
    requires Alone(s, value, most) && Enabled(s, e) && Sized(e, most)
    ensures Alone(Step(s, e), value, most)
  {
    match e {
      case Read(t, units) =>
      case Take(t) => WrapDown(s.v - s.pcs[t].units);
      case Back(t) =>
      case Post(t, units) => WrapDown(s.v + units);
    }
  }

  lemma Prepend(s: State, e: Event, events: seq<Event>)
    requires Enabled(s, e) && Runs(Step(s, e), events)
    ensures Runs(s, [e] + events) && After(s, [e] + events) == After(Step(s, e), events)
  {
    assert ([e] + events)[1..] == events;
  }

  /** Two threads that test the counter before either takes a unit, after all others are taken. */
  lemma {:induction false} Overdraw(s: State) returns (events: seq<Event>)
    requires s.answer.ValueBefore? && |s.pcs| >= 2 && s.pcs[0] == s.pcs[1] == Idle && 1 <= s.v <= MAX_SEMAPHORE_VALUE
    ensures Runs(s, events) && AllSized(events, 1)
    ensures After(s, events).granted == s.granted + s.v + 1 && After(s, events).posted == s.posted
    decreases s.v
  {
    var s1 := Step(s, Read(0, 1));
    if s.v == 1 {
      var s2 := Step(s1, Read(1, 1));
      var s3 := Step(s2, Take(0));
      var s4 := Step(s3, Take(1));
      Prepend(s3, Take(1), []);
      Prepend(s2, Take(0), [Take(1)]);
      Prepend(s1, Read(1, 1), [Take(0)] + [Take(1)]);
      Prepend(s, Read(0, 1), [Read(1, 1)] + ([Take(0)] + [Take(1)]));
      events := [Read(0, 1)] + ([Read(1, 1)] + ([Take(0)] + [Take(1)]));
    } else {
      var s2 := Step(s1, Take(0));
      var rest := Overdraw(s2);
      Prepend(s1, Take(0), rest);
      Prepend(s, Read(0, 1), [Take(0)] + rest);
      events := [Read(0, 1)] + ([Take(0)] + rest);
    }
  }

  /** Some interleaving of requests for up to `most` units overdraws the semaphore. */
  ghost predicate CanOverdraw(value: nat, threads: nat, most: nat) {
    exists events :: Overdraws(value, threads, most, events)
  }

  ghost predicate Overdraws(value: nat, threads: nat, most: nat, events: seq<Event>) {
    var s := Start(ValueBefore, value, threads);
    Runs(s, events) && AllSized(events, most) && Overgranted(After(s, events), value)
  }

  /**
    With atomic_sub_return as it is, no interleaving grants more units than
    there are exactly if no two threads use the semaphore.
   */
  lemma OverdrawnIffShared(value: nat, threads: nat, most: nat)
    requires value <= MAX_SEMAPHORE_VALUE && most >= 1
    ensures CanOverdraw(value, threads, most) <==> threads >= 2
  {
    var s := Start(ValueBefore, value, threads);
    if threads >= 2 {
      var events := [];
      if value > 0 {
        events := Overdraw(s);
      } else {
        events := Overdraw(Step(s, Post(0, 1)));
        Prepend(s, Post(0, 1), events);
        events := [Post(0, 1)] + events;
      }
      assert Overdraws(value, threads, most, events);
    } else {
      forall events ensures !Overdraws(value, threads, most, events) {
        if Runs(s, events) && AllSized(events, most) {
          AloneRun(s, events, value, most);
        }
      }
    }
  }

  /** One unit, two threads: both are let in. */
  lemma BothLetIn()
    ensures var s, events := Start(ValueBefore, 1, 2), [Read(0, 1), Read(1, 1), Take(0), Take(1)];
            Runs(s, events) && After(s, events).granted == 2 && After(s, events).v == -1
  {
    var s := Start(ValueBefore, 1, 2);
    var s1 := Step(s, Read(0, 1));
    var s2 := Step(s1, Read(1, 1));
    var s3 := Step(s2, Take(0));
    Prepend(s3, Take(1), []);
    Prepend(s2, Take(0), [Take(1)]);
    Prepend(s1, Read(1, 1), [Take(0), Take(1)]);
    Prepend(s, Read(0, 1), [Read(1, 1), Take(0), Take(1)]);
    assert [Read(0, 1), Read(1, 1), Take(0), Take(1)] == [Read(0, 1)] + [Read(1, 1), Take(0), Take(1)];
    assert [Read(1, 1), Take(0), Take(1)] == [Read(1, 1)] + [Take(0), Take(1)];
    assert [Take(0), Take(1)] == [Take(0)] + [Take(1)];
    assert [Take(1)] == [Take(1)] + [];
  }
}
