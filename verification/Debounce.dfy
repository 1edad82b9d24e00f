/** The per-file debouncer of `lsp/src/debounce.rs`. */
module Debounce {
  // It is a transition system: `schedule` calls, the passing of time, and the runtime's own steps on
  // the tasks that were spawned.

  type Uri = string

  /**
   A task sleeps, then runs its action, then is done.  Aborting a sleeping task cancels it.  An
   action that has begun only stops at its next suspension: it may still reach its end.
   */
  datatype Phase = Sleeping | Acting | Stopping | Done | Cancelled

  datatype Task = Task(uri: Uri, scheduled: nat, deadline: nat, phase: Phase)

  /** The clock, every task spawned so far in order, and the handle kept for each file. */
  datatype State = State(now: nat, tasks: seq<Task>, handles: map<Uri, nat>)

  datatype Event =
    | Schedule(uri: Uri, delay: nat)
    | Pass(time: nat)
    | Wake(id: nat)
    | Finish(id: nat)
    | Drop(id: nat)

  const START: State := State(0, [], map[])

  // ----- Steps ------------------------------------------------------------------------

  function Aborted(phase: Phase): Phase {
    match phase
    case Sleeping => Cancelled
    case Acting => Stopping
    case _ => phase
  }

  function Abort(tasks: seq<Task>, id: nat): seq<Task> {
    if id < |tasks| then tasks[id := tasks[id].(phase := Aborted(tasks[id].phase))] else tasks
  }

  /** `schedule`: abort the task behind the old handle, spawn the new one, keep its handle. */
  function Scheduled(s: State, uri: Uri, delay: nat): State {
    var tasks := if uri in s.handles then Abort(s.tasks, s.handles[uri]) else s.tasks;
    State(s.now, tasks + [Task(uri, s.now, s.now + delay, Sleeping)], s.handles[uri := |s.tasks|])
  }

  function Moved(s: State, id: nat, phase: Phase): State
    requires id < |s.tasks|
  {
    s.(tasks := s.tasks[id := s.tasks[id].(phase := phase)])
  }

  predicate Enabled(s: State, e: Event) {
    match e
    case Schedule(_, _) => true
    case Pass(_) => true
    case Wake(id) => id < |s.tasks| && s.tasks[id].phase.Sleeping? && s.tasks[id].deadline <= s.now
    case Finish(id) => id < |s.tasks| && (s.tasks[id].phase.Acting? || s.tasks[id].phase.Stopping?)
    case Drop(id) => id < |s.tasks| && s.tasks[id].phase.Stopping?
  }

  function After(s: State, e: Event): State
    requires Enabled(s, e)
  {
    match e
    case Schedule(uri, delay) => Scheduled(s, uri, delay)
    case Pass(time) => s.(now := s.now + time)
    case Wake(id) => Moved(s, id, Acting)
    case Finish(id) => Moved(s, id, Done)
    case Drop(id) => Moved(s, id, Cancelled)
  }

  predicate Legal(s: State, events: seq<Event>)
    decreases |events|
  {
    events == [] || (Enabled(s, events[0]) && Legal(After(s, events[0]), events[1..]))
  }

  function Run(s: State, events: seq<Event>): State
    requires Legal(s, events)
    decreases |events|
  {
    if events == [] then s else Run(After(s, events[0]), events[1..])
  }

  // ----- What every reachable state keeps -------------------------------------------------

  predicate Live(t: Task) {
    t.phase.Sleeping? || t.phase.Acting?
  }

  predicate SameFile(s: State, i: int, j: int) {
    0 <= i < j < |s.tasks| && s.tasks[i].uri == s.tasks[j].uri
  }

  /** The handle of a file is that of the task spawned last for it, which nobody has aborted. */
  ghost predicate HandlesAreLatest(s: State) {
    && (forall u :: u in s.handles ==>
          && s.handles[u] < |s.tasks| && s.tasks[s.handles[u]].uri == u
          && (Live(s.tasks[s.handles[u]]) || s.tasks[s.handles[u]].phase.Done?))
    && (forall i :: 0 <= i < |s.tasks| ==> s.tasks[i].uri in s.handles && i <= s.handles[s.tasks[i].uri])
  }

  /** A task with a successor is no longer live. */
  ghost predicate SupersededAreNotLive(s: State) {
    forall i, j :: SameFile(s, i, j) ==> !Live(s.tasks[i])
  }

  /** Before its deadline a task has done nothing. */
  ghost predicate NoneActsEarly(s: State) {
    forall i :: 0 <= i < |s.tasks| ==>
      && s.tasks[i].scheduled <= s.now
      && (s.now < s.tasks[i].deadline ==> s.tasks[i].phase.Sleeping? || s.tasks[i].phase.Cancelled?)
  }

  /** A task whose successor was scheduled before its deadline was cancelled in its sleep. */
  ghost predicate BurstsCollapse(s: State) {
    forall i, j :: SameFile(s, i, j) && s.tasks[j].scheduled < s.tasks[i].deadline ==> s.tasks[i].phase.Cancelled?
  }

  ghost predicate Inv(s: State) {
    HandlesAreLatest(s) && SupersededAreNotLive(s) && NoneActsEarly(s) && BurstsCollapse(s)
  }

  /** Only the tasks of the scheduled file are touched, and of those only the last. */
  lemma ScheduleTouchesOneFile(s: State, uri: Uri, delay: nat, i: nat)
    requires Inv(s) && i < |s.tasks|
    ensures var t := Scheduled(s, uri, delay);
            && |t.tasks| == |s.tasks| + 1
            && t.tasks[i] == (if s.tasks[i].uri == uri && i == s.handles[uri]
                              then s.tasks[i].(phase := Aborted(s.tasks[i].phase)) else s.tasks[i])
  {
  }

  lemma ScheduleKeepsHandles(s: State, uri: Uri, delay: nat)
    requires Inv(s)
    ensures HandlesAreLatest(Scheduled(s, uri, delay))
  {
  }

  lemma ScheduleKeepsSuperseded(s: State, uri: Uri, delay: nat)
    requires Inv(s)
    ensures SupersededAreNotLive(Scheduled(s, uri, delay))
  {
    var t := Scheduled(s, uri, delay);
    forall i, j | SameFile(t, i, j)
      ensures !Live(t.tasks[i])
    {
      ScheduleTouchesOneFile(s, uri, delay, i);
      if j < |s.tasks| {
        ScheduleTouchesOneFile(s, uri, delay, j);
        assert SameFile(s, i, j);
      } else if i != s.handles[uri] {
        assert SameFile(s, i, s.handles[uri]);
      }
    }
  }

  lemma ScheduleKeepsBursts(s: State, uri: Uri, delay: nat)
    requires Inv(s)
    ensures NoneActsEarly(Scheduled(s, uri, delay)) && BurstsCollapse(Scheduled(s, uri, delay))
  {
    var t := Scheduled(s, uri, delay);
    forall i | 0 <= i < |s.tasks|
      ensures t.tasks[i].(phase := Done) == s.tasks[i].(phase := Done)
      ensures s.now < s.tasks[i].deadline ==> t.tasks[i].phase.Sleeping? || t.tasks[i].phase.Cancelled?
    {
      ScheduleTouchesOneFile(s, uri, delay, i);
    }
    forall i, j | SameFile(t, i, j) && t.tasks[j].scheduled < t.tasks[i].deadline
      ensures t.tasks[i].phase.Cancelled?
    {
      ScheduleTouchesOneFile(s, uri, delay, i);
      if j < |s.tasks| {
        ScheduleTouchesOneFile(s, uri, delay, j);
        assert SameFile(s, i, j);
      } else if i != s.handles[uri] {
        assert SameFile(s, i, s.handles[uri]);
        assert s.tasks[i].phase.Cancelled?;
      }
    }
  }

  /** The runtime's steps move one task forward. */
  predicate Forward(from: Phase, to: Phase) {
    || (from.Sleeping? && to.Acting?)
    || (from.Acting? && to.Done?)
    || (from.Stopping? && (to.Done? || to.Cancelled?))
  }

  lemma MoveKeepsInv(s: State, id: nat, phase: Phase)
    requires Inv(s) && id < |s.tasks| && Forward(s.tasks[id].phase, phase)
    requires s.tasks[id].deadline <= s.now
    ensures Inv(Moved(s, id, phase))
  {
    var t := Moved(s, id, phase);
    assert forall i, j :: SameFile(t, i, j) <==> SameFile(s, i, j);
  }

  lemma StepKeepsInv(s: State, e: Event)
    requires Inv(s) && Enabled(s, e)
    ensures Inv(After(s, e))
  {
    match e
    case Schedule(uri, delay) =>
      ScheduleKeepsHandles(s, uri, delay);
      ScheduleKeepsSuperseded(s, uri, delay);
      ScheduleKeepsBursts(s, uri, delay);
    case Pass(time) =>
      assert forall i, j :: SameFile(After(s, e), i, j) <==> SameFile(s, i, j);
    case Wake(id) => MoveKeepsInv(s, id, Acting);
    case Finish(id) => MoveKeepsInv(s, id, Done);
    case Drop(id) => MoveKeepsInv(s, id, Cancelled);
  }

  lemma {:induction false} RunKeepsInv(s: State, events: seq<Event>)
    requires Inv(s) && Legal(s, events)
    ensures Inv(Run(s, events))
    decreases |events|
  {
    if events == [] {
    } else {
      StepKeepsInv(s, events[0]);
      RunKeepsInv(After(s, events[0]), events[1..]);
    }
  }

  // ----- What that means for whole runs ---------------------------------------------------

  /** In every reachable state a file has at most one live task, and it is the one spawned last. */
  lemma OneLiveTaskPerFile(events: seq<Event>, i: nat, j: nat)
    requires Legal(START, events)
    requires SameFile(Run(START, events), i, j)
    ensures !Live(Run(START, events).tasks[i])
  {
    assert Inv(START);
    RunKeepsInv(START, events);
  }

  /**
   In every reachable state, a task superseded before its deadline was cancelled without having
   begun; and a task that was never superseded has not been cut short.
   */
  lemma OnlyTheLastOfABurstActs(events: seq<Event>, i: nat)
    requires Legal(START, events) && i < |Run(START, events).tasks|
    ensures var tasks := Run(START, events).tasks;
            && (forall j :: SameFile(Run(START, events), i, j) && tasks[j].scheduled < tasks[i].deadline ==>
                  tasks[i].phase.Cancelled?)
            && ((forall j :: !SameFile(Run(START, events), i, j)) ==> Live(tasks[i]) || tasks[i].phase.Done?)
  {
    assert Inv(START);
    RunKeepsInv(START, events);
    var s := Run(START, events);
    var last := s.handles[s.tasks[i].uri];
    assert i == last || SameFile(s, i, last);
  }

  /** What a run has waited for in all. */
  function Waited(events: seq<Event>): nat {
    if events == [] then 0
    else (match events[0] case Pass(time) => time case _ => 0) + Waited(events[1..])
  }

  lemma {:induction false} RunWaits(s: State, events: seq<Event>)
    requires Legal(s, events)
    ensures Run(s, events).now == s.now + Waited(events)
    decreases |events|
  {
    if events == [] {
    } else {
      RunWaits(After(s, events[0]), events[1..]);
    }
  }

  /** A task keeps its file and its deadline. */
  lemma {:induction false} DeadlineStays(s: State, events: seq<Event>, i: nat)
    requires Legal(s, events) && i < |s.tasks|
    ensures i < |Run(s, events).tasks|
    ensures Run(s, events).tasks[i].uri == s.tasks[i].uri && Run(s, events).tasks[i].deadline == s.tasks[i].deadline
    decreases |events|
  {
    if events == [] {
    } else {
      var t := After(s, events[0]);
      assert i < |t.tasks| && t.tasks[i].uri == s.tasks[i].uri && t.tasks[i].deadline == s.tasks[i].deadline;
      DeadlineStays(t, events[1..], i);
    }
  }

  /** The action of a `schedule` call for a file begins only after its delay has been waited for in full. */
  lemma ActionWaitsForItsDelay(before: seq<Event>, uri: Uri, delay: nat, later: seq<Event>)
    requires Legal(START, before) && Legal(Scheduled(Run(START, before), uri, delay), later)
    ensures var id := |Run(START, before).tasks|;
            var s := Run(Scheduled(Run(START, before), uri, delay), later);
            && id < |s.tasks| && s.tasks[id].uri == uri
            && (Waited(later) < delay ==> s.tasks[id].phase.Sleeping? || s.tasks[id].phase.Cancelled?)
  {
    var s := Run(START, before);
    var t := Scheduled(s, uri, delay);
    assert Inv(START);
    RunKeepsInv(START, before);
    StepKeepsInv(s, Schedule(uri, delay));
    RunKeepsInv(t, later);
    RunWaits(t, later);
    DeadlineStays(t, later, |s.tasks|);
  }

  predicate Ended(phase: Phase) {
    phase.Done? || phase.Cancelled?
  }

  /** A cancelled task stays cancelled: its action never runs afterwards. */
  lemma {:induction false} EndedStays(s: State, events: seq<Event>, i: nat)
    requires Legal(s, events) && i < |s.tasks| && Ended(s.tasks[i].phase)
    ensures i < |Run(s, events).tasks| && Run(s, events).tasks[i] == s.tasks[i]
    decreases |events|
  {
    if events == [] {
    } else {
      var t := After(s, events[0]);
      assert i < |t.tasks| && t.tasks[i] == s.tasks[i];
      EndedStays(t, events[1..], i);
    }
  }

  /** Whatever else happens, a task of another file is not aborted by a schedule. */
  lemma OtherFilesAreLeftAlone(events: seq<Event>, uri: Uri, delay: nat, i: nat)
    requires Legal(START, events) && i < |Run(START, events).tasks| && Run(START, events).tasks[i].uri != uri
    ensures var s := Run(START, events);
            i < |Scheduled(s, uri, delay).tasks| && Scheduled(s, uri, delay).tasks[i] == s.tasks[i]
  {
    assert Inv(START);
    RunKeepsInv(START, events);
    ScheduleTouchesOneFile(Run(START, events), uri, delay, i);
  }

  /** The last task of a file is never stuck: left alone, it wakes at its deadline and finishes. */
  lemma LastTaskFinishes(events: seq<Event>, uri: Uri)
    requires Legal(START, events) && uri in Run(START, events).handles
    ensures var s, id := Run(START, events), Run(START, events).handles[uri];
            && id < |s.tasks|
            && (s.tasks[id].phase.Sleeping? ==>
                  && Legal(s, [Pass(s.tasks[id].deadline), Wake(id), Finish(id)])
                  && id < |Run(s, [Pass(s.tasks[id].deadline), Wake(id), Finish(id)]).tasks|
                  && Run(s, [Pass(s.tasks[id].deadline), Wake(id), Finish(id)]).tasks[id].phase.Done?)
  {
    assert Inv(START);
    RunKeepsInv(START, events);
    var s, id := Run(START, events), Run(START, events).handles[uri];
    if s.tasks[id].phase.Sleeping? {
      var rest := [Pass(s.tasks[id].deadline), Wake(id), Finish(id)];
      var later := After(s, rest[0]);
      var acting := After(later, Wake(id));
      RunTwo(later, Wake(id), Finish(id));
      assert rest[1..] == [Wake(id), Finish(id)];
    }
  }

  lemma RunTwo(s: State, a: Event, b: Event)
    requires Enabled(s, a) && Enabled(After(s, a), b)
    ensures Legal(s, [a, b]) && Run(s, [a, b]) == After(After(s, a), b)
  {
    var t := After(After(s, a), b);
    assert [a, b][1..] == [b] && [b][1..] == [];
    assert Legal(t, []) && Run(t, []) == t;
    assert Legal(After(s, a), [b]) && Run(After(s, a), [b]) == t;
  }

  /** The object; `tasks` and `now` stand for the runtime it spawns into. */
  class Debouncer {
    var handles: map<Uri, nat>
    var tasks: seq<Task>
    var now: nat

    function View(): State
      reads this
    {
      State(now, tasks, handles)
    }

    constructor ()
      ensures View() == START
    {
      handles, tasks, now := map[], [], 0;
    }

    method Schedule(uri: Uri, delay: nat)
      modifies this
      ensures View() == Scheduled(old(View()), uri, delay)
      ensures old(Inv(View())) ==> Inv(View())
    {
      if Inv(View()) {
        StepKeepsInv(View(), Event.Schedule(uri, delay));
      }
      if uri in handles {
        var prior := handles[uri];
        handles := handles - {uri};
        tasks := Abort(tasks, prior);
      }
      var handle := |tasks|;
      tasks := tasks + [Task(uri, now, now + delay, Sleeping)];
      handles := handles[uri := handle];
      assert handles == old(handles)[uri := handle];
    }
  }
}
