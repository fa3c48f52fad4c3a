/** The bounded blocking queue as a step system: any number of producers and consumers, one
    mutex, two condition variables. A wait gives the mutex up in the same step; a signal
    wakes at least one waiter if there is one; a waiter may also wake for no reason. */
module BlockQueue {

  datatype Side = Producer | Consumer

  /** A thread of a side. */
  datatype Thread = Thread(side: Side, id: nat)

  /** Where a thread is: outside the queue, at the loop condition, at the notify of the loop
      body, at the wait, waiting, woken but without the mutex, at the push or pop, at the
      notify behind it, at the unlock. */
  datatype Place = Outside | Test | Hint | Sleep | Waiting | Woken | Act | Notify | Unlock

  datatype Owner = Free | Held(holder: Thread)

  datatype State = State(
    q: seq<int>, owner: Owner, producers: seq<Place>, consumers: seq<Place>,
    pushed: seq<int>, popped: seq<int>)

  function Other(side: Side): Side {
    if side.Producer? then Consumer else Producer
  }

  function Places(s: State, side: Side): seq<Place> {
    if side.Producer? then s.producers else s.consumers
  }

  function SetPlaces(s: State, side: Side, places: seq<Place>): State {
    if side.Producer? then s.(producers := places) else s.(consumers := places)
  }

  predicate Exists(s: State, t: Thread) {
    t.id < |Places(s, t.side)|
  }

  function At(s: State, t: Thread): Place
    requires Exists(s, t)
  {
    Places(s, t.side)[t.id]
  }

  function Go(s: State, t: Thread, place: Place): State
    requires Exists(s, t)
  {
    SetPlaces(s, t.side, Places(s, t.side)[t.id := place])
  }

  // ----- the steps

  /** The loop conditions: `IsFull` tests with `==`. */
  predicate Blocked(cap: nat, s: State, side: Side) {
    if side.Producer? then |s.q| == cap else |s.q| == 0
  }

  /** `pthread_cond_signal`. */
  predicate Signalled(before: seq<Place>, after: seq<Place>) {
    && |after| == |before|
    && (forall i :: 0 <= i < |before| ==> after[i] == before[i] || (before[i] == Waiting && after[i] == Woken))
    && (Waiting in before ==> before != after)
  }

  /** The thread notifies the other side and moves on. */
  predicate Signals(s: State, t: Thread, next: Place, s': State)
    requires Exists(s, t)
  {
    var other := Other(t.side);
    && Signalled(Places(s, other), Places(s', other))
    && s' == SetPlaces(Go(s, t, next), other, Places(s', other))
  }

  /** `q.push(data)`, or `front` and `pop`. */
  function Acted(s: State, side: Side, data: int): State
    requires side.Producer? || |s.q| > 0
  {
    if side.Producer? then s.(q := s.q + [data], pushed := s.pushed + [data])
    else s.(q := s.q[1..], popped := s.popped + [s.q[0]])
  }

  /** One step of thread `t`; `data` is what a producer pushes. */
  predicate Step(cap: nat, s: State, t: Thread, data: int, s': State) {
    && Exists(s, t)
    && var mine := s.owner == Held(t);
       match At(s, t)
       case Outside => s.owner == Free && s' == Go(s, t, Test).(owner := Held(t))
       case Test => mine && s' == Go(s, t, if Blocked(cap, s, t.side) then Hint else Act)
       case Hint => mine && Signals(s, t, Sleep, s')
       case Sleep => mine && s' == Go(s, t, Waiting).(owner := Free)
       case Waiting => s' == Go(s, t, Woken)
       case Woken => s.owner == Free && s' == Go(s, t, Test).(owner := Held(t))
       case Act => mine && (t.side.Producer? || |s.q| > 0) && s' == Acted(Go(s, t, Notify), t.side, data)
       case Notify => mine && Signals(s, t, Unlock, s')
       case Unlock => mine && s' == Go(s, t, Outside).(owner := Free)
  }

  ghost predicate Next(cap: nat, s: State, s': State) {
    exists t: Thread, data: int :: Step(cap, s, t, data, s')
  }

  ghost predicate Init(s: State) {
    && s.q == [] && s.pushed == [] && s.popped == [] && s.owner == Free
    && (forall t: Thread :: Exists(s, t) ==> At(s, t) == Outside)
  }

  /** A run is any number of steps of any threads from the start. */
  ghost predicate Run(cap: nat, run: seq<State>) {
    && |run| > 0 && Init(run[0])
    && forall i :: 0 <= i < |run| - 1 ==> Next(cap, run[i], run[i + 1])
  }

  // ----- counting threads

  function Count(places: seq<Place>, p: Place): nat {
    if places == [] then 0 else (if places[0] == p then 1 else 0) + Count(places[1..], p)
  }

  lemma {:induction false} CountSet(places: seq<Place>, i: nat, x: Place, p: Place)
    requires i < |places|
    ensures Count(places[i := x], p)
         == Count(places, p) - (if places[i] == p then 1 else 0) + (if x == p then 1 else 0)
  {
    if i > 0 {
      CountSet(places[1..], i - 1, x, p);
      assert places[i := x][1..] == places[1..][i - 1 := x];
    } else {
      assert places[0 := x][1..] == places[1..];
    }
  }

  lemma {:induction false} CountIn(places: seq<Place>, p: Place)
    ensures Count(places, p) > 0 <==> p in places
  {
    if places != [] {
      CountIn(places[1..], p);
      assert places == [places[0]] + places[1..];
    }
  }

  /** A signal turns waiters into woken threads, at least one if there is one. */
  lemma {:induction false} CountSignalled(before: seq<Place>, after: seq<Place>)
    requires |after| == |before|
    requires forall i :: 0 <= i < |before| ==> after[i] == before[i] || (before[i] == Waiting && after[i] == Woken)
    ensures Count(after, Waiting) + Count(after, Woken) == Count(before, Waiting) + Count(before, Woken)
    ensures Count(after, Woken) >= Count(before, Woken)
    ensures before != after ==> Count(after, Woken) > Count(before, Woken)
  {
    if before != [] {
      CountSignalled(before[1..], after[1..]);
      assert before == [before[0]] + before[1..] && after == [after[0]] + after[1..];
    }
  }

  // ----- the invariant

  predicate Inside(p: Place) {
    p in {Test, Hint, Sleep, Act, Notify, Unlock}
  }

  /** What a thread of the side can take: items for a consumer, free slots for a producer. */
  function Room(cap: nat, s: State, side: Side): int {
    if side.Producer? then cap - |s.q| else |s.q|
  }

  /** Room that the holder of the mutex has just made and not yet announced, or is about to
      take: a thread between its lock and its push or pop, a thread of the other side
      between its push or pop and the notify. */
  function Pending(s: State, side: Side): nat {
    match s.owner
    case Free => 0
    case Held(t) =>
      if !Exists(s, t) then 0
      else if t.side == side then (if At(s, t) in {Test, Act} then 1 else 0)
      else (if At(s, t) == Notify then 1 else 0)
  }

  /** If a thread of the side waits, there is no more room than woken threads. */
  predicate NoneForgotten(cap: nat, s: State, side: Side) {
    Waiting in Places(s, side) ==>
      Room(cap, s, side) <= Count(Places(s, side), Woken) + Pending(s, side)
  }

  ghost predicate Exclusive(s: State) {
    && (s.owner.Held? ==> Exists(s, s.owner.holder))
    && forall t: Thread :: Exists(s, t) ==> (Inside(At(s, t)) <==> s.owner == Held(t))
  }

  /** What the holder knows about the queue from its test. */
  predicate Tested(cap: nat, s: State) {
    s.owner.Held? && Exists(s, s.owner.holder) ==>
      var t := s.owner.holder;
      && (At(s, t) in {Hint, Sleep} ==> Blocked(cap, s, t.side))
      && (At(s, t) == Act ==> !Blocked(cap, s, t.side))
  }

  predicate Conserved(cap: nat, s: State) {
    s.pushed == s.popped + s.q && |s.q| <= cap
  }

  ghost predicate Inv(cap: nat, s: State) {
    && Exclusive(s) && Tested(cap, s) && Conserved(cap, s)
    && NoneForgotten(cap, s, Producer) && NoneForgotten(cap, s, Consumer)
  }

  lemma InitInv(cap: nat, s: State)
    requires Init(s)
    ensures Inv(cap, s)
  {
    forall side: Side, i: nat | i < |Places(s, side)|
      ensures Places(s, side)[i] == Outside
    {
      assert At(s, Thread(side, i)) == Outside;
    }
    assert forall p <- Places(s, Producer) :: p == Outside;
    assert forall p <- Places(s, Consumer) :: p == Outside;
  }

  /** No step takes another thread in or out. */
  lemma StepOfOne(cap: nat, s: State, t: Thread, data: int, s': State, u: Thread)
    requires Step(cap, s, t, data, s')
    ensures Exists(s', u) <==> Exists(s, u)
    ensures Exists(s, u) && u != t ==> (Inside(At(s', u)) <==> Inside(At(s, u)))
  {
  }

  /** A step goes in with the mutex and out with giving it up. */
  lemma StepOwner(cap: nat, s: State, t: Thread, data: int, s': State)
    requires Step(cap, s, t, data, s')
    requires Inside(At(s, t)) <==> s.owner == Held(t)
    ensures Exists(s', t) && (Inside(At(s', t)) <==> s'.owner == Held(t))
    ensures s'.owner == s.owner || (s.owner == Free && s'.owner == Held(t)) || (s.owner == Held(t) && s'.owner == Free)
  {
  }

  lemma StepExclusive(cap: nat, s: State, t: Thread, data: int, s': State)
    requires Exclusive(s) && Step(cap, s, t, data, s')
    ensures Exclusive(s')
  {
    assert Exists(s, t);
    StepOwner(cap, s, t, data, s');
    hide Step;
    forall u: Thread
      ensures Exists(s', u) <==> Exists(s, u)
      ensures Exists(s, u) && u != t ==> (Inside(At(s', u)) <==> Inside(At(s, u)))
    {
      StepOfOne(cap, s, t, data, s', u);
    }
  }

  lemma StepTested(cap: nat, s: State, t: Thread, data: int, s': State)
    requires Exclusive(s) && Tested(cap, s) && Step(cap, s, t, data, s')
    ensures Tested(cap, s')
  {
  }

  lemma StepConserved(cap: nat, s: State, t: Thread, data: int, s': State)
    requires Exclusive(s) && Tested(cap, s) && Conserved(cap, s) && Step(cap, s, t, data, s')
    ensures Conserved(cap, s')
  {
  }

  /** A step that moves a thread of the side. */
  lemma StepOwnSide(cap: nat, s: State, t: Thread, data: int, s': State)
    requires Exclusive(s) && Tested(cap, s) && NoneForgotten(cap, s, t.side)
    requires Step(cap, s, t, data, s')
    ensures NoneForgotten(cap, s', t.side)
  {
    var places := Places(s, t.side);
    CountSet(places, t.id, At(s', t), Woken);
    CountIn(places, Waiting);
    CountSet(places, t.id, At(s', t), Waiting);
    CountIn(Places(s', t.side), Waiting);
  }

  /** A step that moves a thread of the other side, and may signal this one. */
  lemma StepOtherSide(cap: nat, s: State, t: Thread, data: int, s': State)
    requires Exclusive(s) && Tested(cap, s) && NoneForgotten(cap, s, Other(t.side))
    requires Step(cap, s, t, data, s')
    ensures NoneForgotten(cap, s', Other(t.side))
  {
    var side := Other(t.side);
    if At(s, t) in {Hint, Notify} {
      CountSignalled(Places(s, side), Places(s', side));
    }
  }

  lemma StepInv(cap: nat, s: State, t: Thread, data: int, s': State)
    requires Inv(cap, s) && Step(cap, s, t, data, s')
    ensures Inv(cap, s')
  {
    hide Step, Exclusive, Tested, Conserved, NoneForgotten;
    StepExclusive(cap, s, t, data, s');
    StepTested(cap, s, t, data, s');
    StepConserved(cap, s, t, data, s');
    assert t.side == Producer || t.side == Consumer;
    StepOwnSide(cap, s, t, data, s');
    StepOtherSide(cap, s, t, data, s');
  }

  /** Every state of every run. */
  lemma {:induction false} Reachable(cap: nat, run: seq<State>, n: nat)
    requires Run(cap, run) && n < |run|
    ensures Inv(cap, run[n])
  {
    hide Inv, Step, Init;
    if n == 0 {
      InitInv(cap, run[0]);
    } else {
      Reachable(cap, run, n - 1);
      assert Next(cap, run[n - 1], run[n - 1 + 1]);
      var t: Thread, data: int :| Step(cap, run[n - 1], t, data, run[n]);
      StepInv(cap, run[n - 1], t, data, run[n]);
    }
  }

  // ----- runs seen from outside: who stepped, with what

  /** A step's thread, and what it hands over if it pushes. */
  datatype Label = Label(thread: Thread, data: int)

  ghost predicate Labelled(cap: nat, run: seq<State>, labels: seq<Label>) {
    && |run| == |labels| + 1 && Init(run[0])
    && forall i :: 0 <= i < |labels| ==> Step(cap, run[i], labels[i].thread, labels[i].data, run[i + 1])
  }

  /** What the producers at their push handed over in the first `n` steps. */
  function Puts(run: seq<State>, labels: seq<Label>, n: nat): seq<int>
    requires n <= |labels| < |run|
  {
    if n == 0 then []
    else
      var s, l := run[n - 1], labels[n - 1];
      Puts(run, labels, n - 1)
      + (if l.thread.side.Producer? && Exists(s, l.thread) && At(s, l.thread) == Act then [l.data] else [])
  }

  /** What was at the head of the queue when the consumers popped in the first `n` steps. */
  function Gets(run: seq<State>, labels: seq<Label>, n: nat): seq<int>
    requires n <= |labels| < |run|
  {
    if n == 0 then []
    else
      var s, l := run[n - 1], labels[n - 1];
      Gets(run, labels, n - 1)
      + (if l.thread.side.Consumer? && Exists(s, l.thread) && At(s, l.thread) == Act && s.q != [] then [s.q[0]] else [])
  }

  /** What one step does to the queue. */
  lemma StepQueue(cap: nat, s: State, l: Label, s': State)
    requires |s.q| <= cap && Step(cap, s, l.thread, l.data, s')
    ensures At(s, l.thread) != Act ==> s'.q == s.q
    ensures At(s, l.thread) == Act && l.thread.side.Producer? ==> s'.q == s.q + [l.data]
    ensures At(s, l.thread) == Act && l.thread.side.Consumer? ==> s.q != [] && s.q == [s.q[0]] + s'.q
  {
  }

  lemma LabelledIsRun(cap: nat, run: seq<State>, labels: seq<Label>)
    requires Labelled(cap, run, labels)
    ensures Run(cap, run)
  {
    hide Step, Init;
    forall i | 0 <= i < |run| - 1
      ensures Next(cap, run[i], run[i + 1])
    {
      assert Step(cap, run[i], labels[i].thread, labels[i].data, run[i + 1]);
    }
  }

  /** First in, first out, for the data of the calls: in every reachable state what was handed
      over is what came out, in the same order, followed by what is in the queue. */
  lemma {:induction false} FirstInFirstOut(cap: nat, run: seq<State>, labels: seq<Label>, n: nat)
    requires Labelled(cap, run, labels) && n <= |labels|
    ensures Puts(run, labels, n) == Gets(run, labels, n) + run[n].q
    ensures |run[n].q| <= cap
  {
    hide Step, Inv;
    LabelledIsRun(cap, run, labels);
    QueueSafety(cap, run, n);
    if n > 0 {
      FirstInFirstOut(cap, run, labels, n - 1);
      assert Step(cap, run[n - 1], labels[n - 1].thread, labels[n - 1].data, run[n - 1 + 1]);
      StepQueue(cap, run[n - 1], labels[n - 1], run[n]);
      StepThread(cap, run[n - 1], labels[n - 1], run[n]);
    }
  }

  lemma StepThread(cap: nat, s: State, l: Label, s': State)
    requires Step(cap, s, l.thread, l.data, s')
    ensures Exists(s, l.thread)
  {
  }

  // ----- what it means for the callers

  /** Nothing is lost, repeated or reordered, and the queue never outgrows its capacity. */
  lemma QueueSafety(cap: nat, run: seq<State>, n: nat)
    requires Run(cap, run) && n < |run|
    ensures run[n].pushed == run[n].popped + run[n].q
    ensures |run[n].q| <= cap
  {
    hide Step, Run;
    Reachable(cap, run, n);
  }

  /** When the mutex is free, a waiting consumer leaves no more items than there are woken
      consumers, and a waiting producer no more free slots than woken producers. */
  lemma NoLostWakeup(cap: nat, run: seq<State>, n: nat)
    requires Run(cap, run) && n < |run| && run[n].owner == Free
    ensures var s := run[n];
            && (Waiting in s.consumers ==> |s.q| <= Count(s.consumers, Woken))
            && (Waiting in s.producers ==> cap - |s.q| <= Count(s.producers, Woken))
  {
    hide Step, Run;
    Reachable(cap, run, n);
    assert Places(run[n], Consumer) == run[n].consumers && Places(run[n], Producer) == run[n].producers;
  }

  /** A thread that can step of its own accord: it holds the mutex, or the mutex is free
      and it is neither waiting nor inside. */
  predicate Ready(s: State, t: Thread) {
    && Exists(s, t)
    && (s.owner == Held(t) || (s.owner == Free && At(s, t) in {Outside, Woken}))
  }

  /** If the mutex is free, a side with room has a thread outside or woken. */
  lemma SideReady(cap: nat, s: State, side: Side) returns (t: Thread)
    requires Inv(cap, s) && s.owner == Free && Places(s, side) != [] && Room(cap, s, side) > 0
    ensures t.side == side && Ready(s, t)
  {
    var places := Places(s, side);
    CountIn(places, Woken);
    if Woken in places {
      var i: nat :| i < |places| && places[i] == Woken;
      t := Thread(side, i);
    } else {
      assert Waiting !in places;
      t := Thread(side, 0);
      assert !Inside(At(s, t));
      assert places[0] in places;
    }
  }

  // ----- progress

  function Transfers(s: State): nat {
    |s.pushed| + |s.popped|
  }

  /** Within `n` steps, none of them a wakeup without a signal, something is pushed or
      popped. */
  ghost predicate CanTransfer(cap: nat, s: State, n: nat)
    decreases n
  {
    n > 0 &&
    exists t: Thread, data: int, s': State ::
      && Step(cap, s, t, data, s') && At(s, t) != Waiting
      && (Transfers(s') > Transfers(s) || CanTransfer(cap, s', n - 1))
  }

  /** Steps to the next push or pop if every thread helps. */
  function Distance(cap: nat, s: State): nat {
    match s.owner
    case Free => 3
    case Held(t) =>
      if !Exists(s, t) then 0
      else match At(s, t)
           case Act => 1
           case Test => if Blocked(cap, s, t.side) then 6 else 2
           case Hint => 5
           case Notify => 5
           case Sleep => 4
           case Unlock => 4
           case _ => 0
  }

  lemma Wake(places: seq<Place>) returns (woken: seq<Place>)
    ensures Signalled(places, woken)
  {
    woken := places;
    if Waiting in places {
      var i: nat :| i < |places| && places[i] == Waiting;
      woken := places[i := Woken];
    }
  }

  /** What the thread that can step does next. */
  lemma Advance(cap: nat, s: State, t: Thread) returns (s': State)
    requires Inv(cap, s) && Ready(s, t) && (s.owner == Free ==> Room(cap, s, t.side) > 0)
    ensures Step(cap, s, t, 0, s') && At(s, t) != Waiting
    ensures Transfers(s') > Transfers(s) || Distance(cap, s') < Distance(cap, s)
    ensures |Places(s', Producer)| == |Places(s, Producer)| && |Places(s', Consumer)| == |Places(s, Consumer)|
  {
    match At(s, t) {
      case Outside => s' := Go(s, t, Test).(owner := Held(t));
      case Test => s' := Go(s, t, if Blocked(cap, s, t.side) then Hint else Act);
      case Hint =>
        var woken := Wake(Places(s, Other(t.side)));
        s' := SetPlaces(Go(s, t, Sleep), Other(t.side), woken);
      case Sleep => s' := Go(s, t, Waiting).(owner := Free);
      case Waiting =>
      case Woken => s' := Go(s, t, Test).(owner := Held(t));
      case Act => s' := Acted(Go(s, t, Notify), t.side, 0);
      case Notify =>
        var woken := Wake(Places(s, Other(t.side)));
        s' := SetPlaces(Go(s, t, Unlock), Other(t.side), woken);
      case Unlock => s' := Go(s, t, Outside).(owner := Free);
    }
  }

  lemma {:induction false} TransferFrom(cap: nat, s: State, n: nat)
    requires Inv(cap, s) && cap >= 1 && s.producers != [] && s.consumers != []
    requires n >= Distance(cap, s)
    ensures CanTransfer(cap, s, n)
    decreases n
  {
    hide Step, Inv, Ready;
    var t := SomeReady(cap, s);
    var s' := Advance(cap, s, t);
    StepInv(cap, s, t, 0, s');
    assert Step(cap, s, t, 0, s') && At(s, t) != Waiting;
    if Transfers(s') <= Transfers(s) {
      TransferFrom(cap, s', n - 1);
    }
  }

  lemma SomeReady(cap: nat, s: State) returns (t: Thread)
    requires Inv(cap, s) && cap >= 1 && s.producers != [] && s.consumers != []
    ensures Ready(s, t) && (s.owner == Free ==> Room(cap, s, t.side) > 0)
    ensures Distance(cap, s) > 0
  {
    match s.owner
    case Held(holder) =>
      t := holder;
      assert Exists(s, t) && Inside(At(s, t));
    case Free => t := SideReady(cap, s, if |s.q| > 0 then Consumer else Producer);
  }

  /** No deadlock: from every reachable state, at most six steps of threads that are not
      waiting push or pop something. */
  lemma NoDeadlock(cap: nat, run: seq<State>, n: nat)
    requires Run(cap, run) && n < |run|
    requires cap >= 1 && run[n].producers != [] && run[n].consumers != []
    ensures CanTransfer(cap, run[n], 6)
  {
    hide Step, Run, Inv, CanTransfer;
    Reachable(cap, run, n);
    TransferFrom(cap, run[n], 6);
  }

  // ----- progress of a waiter without new calls

  /** What the side has done. */
  function Served(s: State, side: Side): nat {
    if side.Producer? then |s.pushed| else |s.popped|
  }

  /** Within `n` steps of threads that are inside a call and do not wait, the side pushes or
      pops. */
  ghost predicate CanServe(cap: nat, s: State, side: Side, n: nat)
    decreases n
  {
    n > 0 &&
    exists t: Thread, data: int, s': State ::
      && Step(cap, s, t, data, s') && At(s, t) !in {Waiting, Outside}
      && (Served(s', side) > Served(s, side) || CanServe(cap, s', side, n - 1))
  }

  /** Steps to the next push or pop of the side, if it has room and a thread that waits, was
      woken, or is about to take. */
  function StepsToServe(s: State, side: Side): nat {
    match s.owner
    case Free => 3
    case Held(t) =>
      if !Exists(s, t) then 0
      else match At(s, t)
           case Act => if t.side == side then 1 else 6
           case Test => if t.side == side then 2 else 7
           case Hint => 5
           case Notify => 5
           case Sleep => 4
           case Unlock => 4
           case _ => 0
  }

  predicate Engaged(s: State, side: Side) {
    || Waiting in Places(s, side) || Woken in Places(s, side)
    || (s.owner.Held? && s.owner.holder.side == side && Exists(s, s.owner.holder)
        && At(s, s.owner.holder) in {Test, Act})
  }

  /** The holder of the mutex, or a woken thread of the side. */
  lemma WhoServes(cap: nat, s: State, side: Side) returns (t: Thread)
    requires Inv(cap, s) && Room(cap, s, side) > 0 && Engaged(s, side)
    ensures Ready(s, t) && At(s, t) != Outside && (s.owner == Free ==> t.side == side)
    ensures StepsToServe(s, side) > 0
  {
    match s.owner
    case Held(holder) =>
      t := holder;
      assert Exists(s, t) && Inside(At(s, t));
    case Free =>
      var places := Places(s, side);
      CountIn(places, Woken);
      var i: nat :| i < |places| && places[i] == Woken;
      t := Thread(side, i);
  }

  /** A step of that thread serves the side or comes nearer to it. */
  lemma AdvanceServes(cap: nat, s: State, t: Thread, s': State, side: Side)
    requires Inv(cap, s) && Room(cap, s, side) > 0 && Engaged(s, side)
    requires Ready(s, t) && At(s, t) != Outside && (s.owner == Free ==> t.side == side)
    requires Step(cap, s, t, 0, s')
    ensures Served(s', side) > Served(s, side) ||
      (Room(cap, s', side) > 0 && Engaged(s', side) && StepsToServe(s', side) < StepsToServe(s, side))
  {
    if At(s, t) in {Hint, Notify} && t.side != side {
      SignalledKeeps(Places(s, side), Places(s', side));
    } else if t.side != side {
      assert Places(s', side) == Places(s, side);
    } else {
      MovedKeeps(Places(s, side), t.id, At(s', t));
    }
  }

  lemma SignalledKeeps(before: seq<Place>, after: seq<Place>)
    requires Signalled(before, after) && (Waiting in before || Woken in before)
    ensures Waiting in after || Woken in after
  {
    var i: nat :| i < |before| && before[i] in {Waiting, Woken};
    assert after[i] in {Waiting, Woken};
  }

  lemma MovedKeeps(places: seq<Place>, i: nat, p: Place)
    requires i < |places|
    ensures forall q :: q in places && q != places[i] ==> q in places[i := p]
  {
    forall q | q in places && q != places[i]
      ensures q in places[i := p]
    {
      var j: nat :| j < |places| && places[j] == q;
      assert places[i := p][j] == q;
    }
  }

  lemma {:induction false} ServeFrom(cap: nat, s: State, side: Side, n: nat)
    requires Inv(cap, s) && Room(cap, s, side) > 0 && Engaged(s, side) && n >= StepsToServe(s, side)
    ensures CanServe(cap, s, side, n)
    decreases n
  {
    hide Step, Inv, Ready, Room, Engaged;
    var t := WhoServes(cap, s, side);
    FreeRoom(cap, s, t, side);
    var s' := Advance(cap, s, t);
    StepInv(cap, s, t, 0, s');
    AdvanceServes(cap, s, t, s', side);
    assert Step(cap, s, t, 0, s') && At(s, t) !in {Waiting, Outside};
    if Served(s', side) <= Served(s, side) {
      ServeFrom(cap, s', side, n - 1);
    }
  }

  lemma FreeRoom(cap: nat, s: State, t: Thread, side: Side)
    requires Room(cap, s, side) > 0 && (s.owner == Free ==> t.side == side)
    ensures s.owner == Free ==> Room(cap, s, t.side) > 0
  {
  }

  /** A consumer that waits while there are items, or a producer that waits while there are free
      slots, is never left to new calls: in every reachable state at most seven steps of threads
      already inside a call let its side pop or push. */
  lemma WaiterServed(cap: nat, run: seq<State>, n: nat, side: Side)
    requires Run(cap, run) && n < |run|
    requires Waiting in Places(run[n], side) && Room(cap, run[n], side) > 0
    ensures CanServe(cap, run[n], side, 7)
  {
    hide Step, Run, Inv, CanServe;
    Reachable(cap, run, n);
    ServeFrom(cap, run[n], side, 7);
  }

  /** With capacity zero nothing ever goes through. */
  lemma {:induction false} ZeroCapacity(run: seq<State>, n: nat)
    requires Run(0, run) && n < |run|
    ensures Transfers(run[n]) == 0
  {
    hide Inv;
    if n > 0 {
      ZeroCapacity(run, n - 1);
      Reachable(0, run, n);
      Reachable(0, run, n - 1);
      assert Next(0, run[n - 1], run[n - 1 + 1]);
      var t: Thread, data: int :| Step(0, run[n - 1], t, data, run[n]);
      ZeroStep(run[n - 1], t, data, run[n]);
    }
  }

  lemma ZeroStep(s: State, t: Thread, data: int, s': State)
    requires Inv(0, s) && Step(0, s, t, data, s')
    ensures Transfers(s') == Transfers(s)
  {
    assert s.q == [];
    if At(s, t) == Act {
      assert s.owner == Held(t);
      assert Blocked(0, s, t.side);
    }
  }
}
