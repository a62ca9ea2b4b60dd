/** In what order the tasks of a session are run, over every run: within a worker, with a single worker, and
    over all workers. */
module RunOrder {
  import opened WireFormat
  import opened LoadBalance
  import opened Dispatch
  import opened Interleavings
  import opened RunBalance

  /** The tasks that pass a test, in order. */
  function Filter(tasks: seq<Task>, keep: Task -> bool): seq<Task> {
    if tasks == [] then []
    else
      var last := tasks[|tasks| - 1];
      Filter(tasks[..|tasks| - 1], keep) + if keep(last) then [last] else []
  }

  function FromSession(x: nat): Task -> bool {
    (t: Task) => t.packet.session == x
  }

  function Parsing(c: Config, good: bool): Task -> bool {
    (t: Task) => c.parses(t.packet) == good
  }

  function Handled(c: Config): Task -> bool {
    (t: Task) => Classify(t.packet, c.handlers) == Accepted
  }

  lemma {:induction false} FilterConcat(a: seq<Task>, b: seq<Task>, keep: Task -> bool)
    ensures Filter(a + b, keep) == Filter(a, keep) + Filter(b, keep)
  {
    if b == [] {
      assert a + b == a;
    } else {
      var k := |b| - 1;
      assert (a + b)[..|a| + k] == a + b[..k];
      FilterConcat(a, b[..k], keep);
    }
  }

  lemma FilterOne(t: Task, keep: Task -> bool)
    ensures Filter([], keep) == [] && Filter([t], keep) == if keep(t) then [t] else []
  {
    assert [t][..0] == [];
  }

  /** Two tests may be made in either order. */
  lemma {:induction false} FilterSwap(tasks: seq<Task>, p: Task -> bool, q: Task -> bool)
    ensures Filter(Filter(tasks, p), q) == Filter(Filter(tasks, q), p)
  {
    if tasks != [] {
      var k := |tasks| - 1;
      FilterSwap(tasks[..k], p, q);
      FilterOne(tasks[k], p);
      FilterOne(tasks[k], q);
      FilterConcat(Filter(tasks[..k], p), Filter([tasks[k]], p), q);
      FilterConcat(Filter(tasks[..k], q), Filter([tasks[k]], q), p);
    }
  }

  /** Filtering keeps prefixes. */
  lemma FilterPrefix(a: seq<Task>, b: seq<Task>, keep: Task -> bool)
    requires a <= b
    ensures Filter(a, keep) <= Filter(b, keep)
  {
    FilterConcat(a, b[|a|..], keep);
    assert a + b[|a|..] == b;
  }

  /** The tasks of session `x`, in order. */
  function Of(tasks: seq<Task>, x: nat): seq<Task> {
    Filter(tasks, FromSession(x))
  }

  /** The accepted packets, in order of arrival. */
  ghost function Due(c: Config, s: Server): seq<Task> {
    Filter(Arrivals(s.arrived), Handled(c))
  }

  /** The tasks drawn for worker `w`, in the order in which they were drawn. */
  function Drawn(draws: seq<Draw>, w: nat): seq<Task> {
    if draws == [] then []
    else
      var last := draws[|draws| - 1];
      Drawn(draws[..|draws| - 1], w) + if last.worker == w then [last.task] else []
  }

  /** What the reactor of session `x` is about to post to worker `w`. */
  ghost function InHand(c: Config, s: Server, x: nat, w: nat): seq<Task>
    requires Good(c) && Shaped(c, s)
  {
    Drawn(s.posting[c.reactorOf(x)], w)
  }

  /** What worker `w` has run of session `x`, then what waits in its queue, then what is about to be posted
      to it, is what was drawn for it, in the order of the draws. */
  ghost predicate OrderFor(c: Config, s: Server, x: nat, w: nat)
    requires Good(c) && Shaped(c, s) && w < c.pool
  {
    Of(s.done[w] + s.queues[w], x) + Of(InHand(c, s, x, w), x) == Of(Drawn(s.draws, w), x)
  }

  ghost predicate InOrder(c: Config, s: Server)
    requires Good(c) && Shaped(c, s)
  {
    forall x: nat, w: nat | w < c.pool :: OrderFor(c, s, x, w)
  }

  lemma StepKeepsOrder(c: Config, s: Server, step: Step, x: nat, w: nat)
    requires Good(c) && Shaped(c, s) && Enabled(c, s, step) && w < c.pool && OrderFor(c, s, x, w)
    ensures OrderFor(c, Next(c, s, step), x, w)
  {
    hide Filter, Drawn, Classify, WorkerFor;
    match step
    case Receive(p) => ReceiveKeepsOrder(c, s, p, x, w);
    case Post(r) => PostKeepsOrder(c, s, r, x, w);
    case Work(v) =>
      var s' := Next(c, s, step);
      assert s'.done[v] + s'.queues[v] == s.done[v] + s.queues[v];
  }

  lemma ReceiveKeepsOrder(c: Config, s: Server, p: Packet, x: nat, w: nat)
    requires Good(c) && Shaped(c, s) && Enabled(c, s, Receive(p)) && w < c.pool && OrderFor(c, s, x, w)
    ensures OrderFor(c, Next(c, s, Receive(p)), x, w)
  {
    hide Filter, Drawn, Classify, WorkerFor;
    var s' := Next(c, s, Receive(p));
    if Classify(p, c.handlers) == Accepted {
      var draw := s'.draws[|s.draws|];
      DrawnSnoc(s.draws, draw, w);
      DrawnOne(draw, w);
      FilterConcat(Drawn(s.draws, w), Drawn([draw], w), FromSession(x));
      FilterOne(draw.task, FromSession(x));
      NoneDrawn(w, x);
    }
  }

  lemma PostKeepsOrder(c: Config, s: Server, r: nat, x: nat, w: nat)
    requires Good(c) && Shaped(c, s) && Enabled(c, s, Post(r)) && w < c.pool && OrderFor(c, s, x, w)
    ensures OrderFor(c, Next(c, s, Post(r)), x, w)
  {
    hide Filter, Drawn;
    var s', draw := Next(c, s, Post(r)), s.posting[r][0];
    assert s.posting[r] == [draw];
    DrawnOne(draw, w);
    FilterOne(draw.task, FromSession(x));
    NoneDrawn(w, x);
    if w == draw.worker {
      assert s'.done[w] + s'.queues[w] == (s.done[w] + s.queues[w]) + [draw.task];
      FilterConcat(s.done[w] + s.queues[w], [draw.task], FromSession(x));
    }
  }

  lemma NoneDrawn(w: nat, x: nat)
    ensures Drawn([], w) == [] && Of([], x) == []
  {
  }

  lemma DrawnSnoc(draws: seq<Draw>, draw: Draw, w: nat)
    ensures Drawn(draws + [draw], w) == Drawn(draws, w) + Drawn([draw], w)
  {
    assert (draws + [draw])[..|draws|] == draws;
    DrawnOne(draw, w);
  }

  lemma DrawnOne(draw: Draw, w: nat)
    ensures Drawn([draw], w) == if draw.worker == w then [draw.task] else []
  {
    assert [draw][..0] == [];
  }

  lemma {:induction false} AlwaysInOrder(c: Config, steps: seq<Step>)
    requires Good(c) && After(c, steps).At?
    ensures InOrder(c, After(c, steps).state)
  {
    if steps != [] {
      var k := |steps| - 1;
      AlwaysInOrder(c, steps[..k]);
      var s := After(c, steps[..k]).state;
      forall x: nat, w: nat | w < c.pool ensures OrderFor(c, After(c, steps).state, x, w) {
        StepKeepsOrder(c, s, steps[k], x, w);
      }
    }
  }

  // ----- what was echoed, rejected and worked on

  ghost predicate EchoesAre(s: Server, heartbeat: Task -> bool, stray: Task -> bool) {
    s.echoed == Filter(Arrivals(s.arrived), heartbeat) && s.rejected == Filter(Arrivals(s.arrived), stray)
  }

  lemma StepEchoes(c: Config, s: Server, step: Step, heartbeat: Task -> bool, stray: Task -> bool)
    requires Good(c) && Shaped(c, s) && Enabled(c, s, step) && EchoesAre(s, heartbeat, stray)
    requires forall t: Task :: heartbeat(t) <==> Classify(t.packet, c.handlers) == Heartbeat
    requires forall t: Task :: stray(t) <==> Classify(t.packet, c.handlers) == Unhandled
    ensures EchoesAre(Next(c, s, step), heartbeat, stray)
  {
    hide Filter, Classify, WorkerFor;
    if step.Receive? {
      var t := Task(|s.arrived|, step.packet);
      assert Arrivals(s.arrived + [step.packet]) == Arrivals(s.arrived) + [t];
      FilterConcat(Arrivals(s.arrived), [t], heartbeat);
      FilterConcat(Arrivals(s.arrived), [t], stray);
      FilterOne(t, heartbeat);
      FilterOne(t, stray);
    }
  }

  lemma {:induction false} AlwaysEchoes(c: Config, steps: seq<Step>, heartbeat: Task -> bool, stray: Task -> bool)
    requires Good(c) && After(c, steps).At?
    requires forall t: Task :: heartbeat(t) <==> Classify(t.packet, c.handlers) == Heartbeat
    requires forall t: Task :: stray(t) <==> Classify(t.packet, c.handlers) == Unhandled
    ensures EchoesAre(After(c, steps).state, heartbeat, stray)
  {
    hide Classify;
    if steps == [] {
      assert Arrivals([]) == [];
    } else {
      var k := |steps| - 1;
      AlwaysEchoes(c, steps[..k], heartbeat, stray);
      hide EchoesAre;
      StepEchoes(c, After(c, steps[..k]).state, steps[k], heartbeat, stray);
    }
  }

  /** After every run, in order of arrival: echoed are exactly the packets of module 7 and command 1, and
      rejected are exactly the others whose type has no handler. */
  lemma EchoedAndRejected(c: Config, steps: seq<Step>, heartbeat: Task -> bool, stray: Task -> bool)
    requires Good(c) && After(c, steps).At?
    requires forall t: Task ::
               heartbeat(t) <==> t.packet.messageType / 0x1_0000 == 7 && t.packet.messageType % 0x1_0000 == 1
    requires forall t: Task :: stray(t) <==> !heartbeat(t) && t.packet.messageType !in c.handlers
    ensures After(c, steps).state.echoed == Filter(Arrivals(After(c, steps).state.arrived), heartbeat)
    ensures After(c, steps).state.rejected == Filter(Arrivals(After(c, steps).state.arrived), stray)
  {
    forall t: Task
      ensures heartbeat(t) <==> Classify(t.packet, c.handlers) == Heartbeat
      ensures stray(t) <==> Classify(t.packet, c.handlers) == Unhandled
    {
      VerdictOf(t.packet, c.handlers);
    }
    hide After, Filter, Classify;
    AlwaysEchoes(c, steps, heartbeat, stray);
  }

  /** And no worker and no reactor's hand ever holds a task whose type has no handler or is the
      heartbeat's. */
  lemma WorkersSeeOnlyAccepted(c: Config, steps: seq<Step>, t: Task)
    requires Good(c) && After(c, steps).At?
    requires var s := After(c, steps).state;
             || (exists r | 0 <= r < |s.posting| :: t in Held(s.posting)[r])
             || (exists w | 0 <= w < |s.queues| :: t in s.queues[w])
             || (exists w | 0 <= w < |s.dispatched| :: t in s.dispatched[w])
             || (exists w | 0 <= w < |s.discarded| :: t in s.discarded[w])
    ensures t.packet.messageType in c.handlers
    ensures !(t.packet.messageType / 0x1_0000 == 7 && t.packet.messageType % 0x1_0000 == 1)
  {
    hide After, Classify;
    AlwaysSorted(c, steps);
    VerdictOf(t.packet, c.handlers);
  }

  // ----- what was run was dispatched or discarded

  ghost predicate Sifted(c: Config, s: Server)
    requires Shaped(c, s)
  {
    forall w | 0 <= w < c.pool ::
      && s.dispatched[w] == Filter(s.done[w], Parsing(c, true))
      && s.discarded[w] == Filter(s.done[w], Parsing(c, false))
  }

  /** A worker's dispatched and discarded tasks are those it has run, in order, told apart by whether they
      parse. */
  lemma {:induction false} AlwaysSifted(c: Config, steps: seq<Step>)
    requires Good(c) && After(c, steps).At?
    ensures Sifted(c, After(c, steps).state)
  {
    if steps != [] {
      var k := |steps| - 1;
      AlwaysSifted(c, steps[..k]);
      hide After;
      StepSifts(c, After(c, steps[..k]).state, steps[k]);
    }
  }

  lemma StepSifts(c: Config, s: Server, step: Step)
    requires Good(c) && Shaped(c, s) && Enabled(c, s, step) && Sifted(c, s)
    ensures Sifted(c, Next(c, s, step))
  {
    hide Filter, Classify, WorkerFor;
    if step.Work? {
      var w := step.worker;
      var task := s.queues[w][0];
      FilterConcat(s.done[w], [task], Parsing(c, true));
      FilterConcat(s.done[w], [task], Parsing(c, false));
      FilterOne(task, Parsing(c, true));
      FilterOne(task, Parsing(c, false));
    }
  }

  /** With any pool, what a worker has dispatched of a session is an initial part of what was drawn for it
      of that session and parses, in the order of the draws; and all of it once nothing waits. */
  lemma WorkersKeepDrawOrder(c: Config, steps: seq<Step>, x: nat, w: nat)
    requires Good(c) && w < c.pool && After(c, steps).At?
    ensures var s := After(c, steps).state;
            var drawn := Filter(Of(Drawn(s.draws, w), x), Parsing(c, true));
            && Of(s.dispatched[w], x) <= drawn
            && (s.queues[w] == [] && s.posting[c.reactorOf(x)] == [] ==> Of(s.dispatched[w], x) == drawn)
  {
    hide After, Filter, Drawn;
    var s := After(c, steps).state;
    AlwaysInOrder(c, steps);
    AlwaysSifted(c, steps);
    assert OrderFor(c, s, x, w);
    NoneDrawn(w, x);
    FilterConcat(s.done[w], s.queues[w], FromSession(x));
    FilterPrefix(Of(s.done[w], x), Of(Drawn(s.draws, w), x), Parsing(c, true));
    FilterSwap(s.done[w], Parsing(c, true), FromSession(x));
    if s.queues[w] == [] && s.posting[c.reactorOf(x)] == [] {
      assert s.done[w] + s.queues[w] == s.done[w];
    }
  }

  // ----- arrival order

  /** The tasks drawn so far are the accepted arrivals, in order. */
  ghost predicate DrawsFollow(c: Config, s: Server) {
    |s.draws| == |Due(c, s)| && forall k | 0 <= k < |s.draws| :: s.draws[k].task == Due(c, s)[k]
  }

  lemma {:induction false} DrawsFollowArrivals(c: Config, steps: seq<Step>)
    requires Good(c) && After(c, steps).At?
    ensures DrawsFollow(c, After(c, steps).state)
  {
    if steps != [] {
      hide DrawsFollow, Next, Shaped;
      var k := |steps| - 1;
      DrawsFollowArrivals(c, steps[..k]);
      StepFollows(c, After(c, steps[..k]).state, steps[k]);
    } else {
      assert Arrivals([]) == [];
    }
  }

  lemma StepFollows(c: Config, s: Server, step: Step)
    requires Good(c) && Shaped(c, s) && Enabled(c, s, step) && DrawsFollow(c, s)
    ensures DrawsFollow(c, Next(c, s, step))
  {
    hide WorkerFor, Classify;
    if step.Receive? {
      var arrived := Arrivals(s.arrived + [step.packet]);
      assert arrived == Arrivals(s.arrived) + [Task(|s.arrived|, step.packet)];
      assert arrived[..|s.arrived|] == Arrivals(s.arrived);
    }
  }

  lemma {:induction false} DrawnByTheOnlyWorker(draws: seq<Draw>)
    requires forall k | 0 <= k < |draws| :: draws[k].worker == 0
    ensures |Drawn(draws, 0)| == |draws|
    ensures forall k | 0 <= k < |draws| :: Drawn(draws, 0)[k] == draws[k].task
  {
    if draws != [] {
      DrawnByTheOnlyWorker(draws[..|draws| - 1]);
    }
  }

  /** A pool of one draws everything that is due for its only worker, in order of arrival. */
  lemma OnlyWorkerDrawsAll(c: Config, steps: seq<Step>)
    requires Good(c) && c.pool == 1 && After(c, steps).At?
    ensures var s := After(c, steps).state; Drawn(s.draws, 0) == Due(c, s)
  {
    hide After, Due;
    AlwaysTicketed(c, steps);
    DrawsFollowArrivals(c, steps);
    DrawnByTheOnlyWorker(After(c, steps).state.draws);
  }

  /** With a pool of one, what has been dispatched of a session is an initial part of what arrived of it,
      was accepted and parses, in order of arrival; and all of it once nothing waits. */
  lemma OneWorkerKeepsArrivalOrder(c: Config, steps: seq<Step>, x: nat)
    requires Good(c) && c.pool == 1 && After(c, steps).At?
    ensures var s := After(c, steps).state;
            var due := Filter(Of(Due(c, s), x), Parsing(c, true));
            && Of(s.dispatched[0], x) <= due
            && (s.queues[0] == [] && s.posting[c.reactorOf(x)] == [] ==> Of(s.dispatched[0], x) == due)
  {
    hide After, Filter, Due, Drawn;
    OnlyWorkerDrawsAll(c, steps);
    WorkersKeepDrawOrder(c, steps, x, 0);
  }

  /** Over all workers, the tasks of session `x` have been run in the order of their arrival so far. */
  ghost predicate KeepsArrivalOrder(c: Config, steps: seq<Step>, x: nat)
    requires Good(c) && After(c, steps).At?
  {
    Of(After(c, steps).state.log, x) <= Of(Due(c, After(c, steps).state), x)
  }

  lemma {:induction false} OneWorkerRunsAll(c: Config, steps: seq<Step>)
    requires Good(c) && c.pool == 1 && After(c, steps).At?
    ensures After(c, steps).state.log == After(c, steps).state.done[0]
  {
    if steps != [] {
      var k := |steps| - 1;
      OneWorkerRunsAll(c, steps[..k]);
      hide After;
      StepLogs(c, After(c, steps[..k]).state, steps[k]);
    }
  }

  lemma StepLogs(c: Config, s: Server, step: Step)
    requires Good(c) && c.pool == 1 && Shaped(c, s) && Enabled(c, s, step) && s.log == s.done[0]
    ensures Next(c, s, step).log == Next(c, s, step).done[0]
  {
    hide Classify, WorkerFor;
  }

  /** The run that takes two packets of a session in and lets the second worker go first. */
  lemma Overtaken(c: Config, p: Packet) returns (steps: seq<Step>)
    requires Good(c) && c.pool >= 2 && Classify(p, c.handlers) == Accepted
    ensures After(c, steps).At?
    ensures After(c, steps).state.arrived == [p, p]
    ensures After(c, steps).state.log == [Task(1, p), Task(0, p)]
  {
    hide After, Classify;
    var r := c.reactorOf(p.session);
    steps := TwoQueued(c, p);
    AfterSnoc(c, steps, Work(1));
    steps := steps + [Work(1)];
    AfterSnoc(c, steps, Work(0));
    steps := steps + [Work(0)];
  }

  lemma TwoQueued(c: Config, p: Packet) returns (steps: seq<Step>)
    requires Good(c) && c.pool >= 2 && Classify(p, c.handlers) == Accepted
    ensures After(c, steps).At?
    ensures var s := After(c, steps).state;
            s.arrived == [p, p] && s.queues[0] == [Task(0, p)] && s.queues[1] == [Task(1, p)] && s.log == []
  {
    var r := c.reactorOf(p.session);
    steps := [];
    assert After(c, steps).state == Init(c);
    hide After, Classify;
    AfterSnoc(c, steps, Receive(p));
    steps := steps + [Receive(p)];
    AfterSnoc(c, steps, Post(r));
    steps := steps + [Post(r)];
    AfterSnoc(c, steps, Receive(p));
    steps := steps + [Receive(p)];
    AfterSnoc(c, steps, Post(r));
    steps := steps + [Post(r)];
  }

  /** Every run keeps every session's arrival order if and only if there is one worker, for any server that
      accepts a packet at all. */
  lemma ArrivalOrderIff(c: Config, p: Packet)
    requires Good(c) && Classify(p, c.handlers) == Accepted
    ensures (forall steps, x: nat | After(c, steps).At? :: KeepsArrivalOrder(c, steps, x)) <==> c.pool == 1
  {
    hide After, Classify;
    if c.pool == 1 {
      forall steps, x: nat | After(c, steps).At? ensures KeepsArrivalOrder(c, steps, x) {
        var s := After(c, steps).state;
        OneWorkerRunsAll(c, steps);
        OnlyWorkerDrawsAll(c, steps);
        AlwaysInOrder(c, steps);
        assert OrderFor(c, s, x, 0);
        FilterConcat(s.done[0], s.queues[0], FromSession(x));
      }
    } else {
      var steps := Overtaken(c, p);
      var x, due := p.session, Due(c, After(c, steps).state);
      assert Arrivals([p, p]) == [Task(0, p)] + [Task(1, p)];
      FilterConcat([Task(0, p)], [Task(1, p)], Handled(c));
      FilterOne(Task(0, p), Handled(c));
      FilterOne(Task(1, p), Handled(c));
      assert due == [Task(0, p), Task(1, p)];
      AllOf([Task(0, p), Task(1, p)], x);
      AllOf([Task(1, p), Task(0, p)], x);
      assert !KeepsArrivalOrder(c, steps, x);
    }
  }

  lemma {:induction false} AllOf(tasks: seq<Task>, x: nat)
    requires forall t | t in tasks :: t.packet.session == x
    ensures Of(tasks, x) == tasks
  {
    if tasks != [] {
      AllOf(tasks[..|tasks| - 1], x);
    }
  }
}
