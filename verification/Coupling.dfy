/** The objects of the dispatch and the transition system tell the same story: each object method is one
    step of the system, or two, and every run of the system can be replayed on the objects. */
module Coupling {
  import opened WireFormat
  import opened LoadBalance
  import opened Dispatch
  import opened Interleavings

  /** The objects hold what the system's state says.  What a reactor is about to post is on its stack, in
      no object. */
  ghost predicate Coupled(h: ClientCommHandler, c: Config, s: Server)
    reads h, h.manager, h.manager.threadPool
  {
    && Shaped(c, s)
    && h.manager.Valid() && |h.manager.threadPool| == c.pool && h.handlers == c.handlers
    && h.echoed == s.echoed && h.rejected == s.rejected && h.manager.nextThread == s.next
    && forall i | 0 <= i < c.pool :: ThreadCoupled(h.manager.threadPool[i], s, i)
  }

  ghost predicate ThreadCoupled(thread: HandlerThread, s: Server, i: nat)
    requires i < |s.queues| == |s.dispatched| == |s.discarded|
    reads thread
  {
    thread.queue == s.queues[i] && thread.dispatched == s.dispatched[i] && thread.discarded == s.discarded[i]
  }

  /** What the system does with a packet when its reactor is not interrupted. */
  ghost function Handle(c: Config, s: Server, p: Packet): Server
    requires Good(c) && Shaped(c, s) && Enabled(c, s, Receive(p))
  {
    var s' := Next(c, s, Receive(p));
    if Classify(p, c.handlers) == Accepted then Next(c, s', Post(c.reactorOf(p.session))) else s'
  }

  lemma Uninterrupted(c: Config, s: Server, p: Packet)
    requires Good(c) && Shaped(c, s) && Enabled(c, s, Receive(p))
    ensures var task, verdict := Task(|s.arrived|, p), Classify(p, c.handlers);
            var s' := Handle(c, s, p);
            && Shaped(c, s') && s'.posting == s.posting && s'.arrived == s.arrived + [p]
            && s'.dispatched == s.dispatched && s'.discarded == s.discarded
            && s'.echoed == s.echoed + (if verdict == Heartbeat then [task] else [])
            && s'.rejected == s.rejected + (if verdict == Unhandled then [task] else [])
            && s'.next == (if verdict == Accepted && c.pool != 1 then Ticket(s.next + 1) else s.next)
            && forall w | 0 <= w < c.pool ::
                 s'.queues[w] ==
                 s.queues[w] + if verdict == Accepted && w == WorkerFor(s.next, c.pool) then [task] else []
  {
    hide WorkerFor;
    var r := c.reactorOf(p.session);
    assert s.posting[r := []] == s.posting;
    assert s.posting[r := [Draw(Task(|s.arrived|, p), WorkerFor(s.next, c.pool))]][r := []] == s.posting;
  }

  /** The connection handler's method is receiving the packet and, if it is accepted, posting it. */
  method Received(h: ClientCommHandler, ghost c: Config, ghost s: Server, task: Task)
    requires Good(c) && Coupled(h, c, s) && Enabled(c, s, Receive(task.packet)) && task.id == |s.arrived|
    modifies h, h.manager, h.manager.threadPool
    ensures Coupled(h, c, Handle(c, s, task.packet))
  {
    hide Classify, WorkerFor, Handle, Next;
    Uninterrupted(c, s, task.packet);
    VerdictOf(task.packet, c.handlers);
    h.OnDataReceived(task);
  }

  /** The message loop's method is one step of its worker. */
  method Worked(h: ClientCommHandler, c: Config, ghost s: Server, w: nat)
    requires Good(c) && Coupled(h, c, s) && Enabled(c, s, Work(w))
    modifies h.manager.threadPool[w]
    ensures Coupled(h, c, Next(c, s, Work(w)))
  {
    var thread := h.manager.threadPool[w];
    assert ThreadCoupled(thread, s, w);
    thread.OnMessageDataHandler(c.parses);
  }

  /** Choosing a thread is receiving an accepted packet: the thread is then on the reactor's stack. */
  method Chosen(h: ClientCommHandler, ghost c: Config, ghost s: Server, p: Packet)
    returns (thread: HandlerThread)
    requires Good(c) && Coupled(h, c, s) && Enabled(c, s, Receive(p)) && Classify(p, c.handlers) == Accepted
    modifies h.manager
    ensures var s', r := Next(c, s, Receive(p)), c.reactorOf(p.session);
            && Coupled(h, c, s')
            && s'.posting[r][0].task == Task(|s.arrived|, p)
            && thread == h.manager.threadPool[s'.posting[r][0].worker]
  {
    hide WorkerFor;
    var chosen, _ := h.manager.GetNextThread();
    thread := chosen;
  }

  /** Queueing the task at the thread on the stack is posting. */
  method Posted(h: ClientCommHandler, thread: HandlerThread, task: Task, ghost c: Config, ghost s: Server,
                ghost r: nat)
    requires Good(c) && Coupled(h, c, s) && Enabled(c, s, Post(r))
    requires s.posting[r][0].task == task && h.manager.threadPool[s.posting[r][0].worker] == thread
    modifies thread
    ensures Coupled(h, c, Next(c, s, Post(r)))
  {
    assert ThreadCoupled(thread, s, s.posting[r][0].worker);
    thread.DoMessageDataHandler(task);
  }

  /** A reactor's stack while it is between choosing a thread and posting to it. */
  datatype Frame = Frame(thread: HandlerThread, task: Task)

  ghost predicate Framed(frames: seq<seq<Frame>>, h: ClientCommHandler, posting: seq<seq<Draw>>) {
    && |frames| == |posting|
    && forall r | 0 <= r < |frames| :: FrameOf(frames[r], h, posting[r])
  }

  ghost predicate FrameOf(frame: seq<Frame>, h: ClientCommHandler, held: seq<Draw>) {
    && |frame| == |held|
    && forall i | 0 <= i < |frame| ::
         && held[i].worker < |h.manager.threadPool|
         && frame[i] == Frame(h.manager.threadPool[held[i].worker], held[i].task)
  }

  /** One step of the system, made by a call on the objects. */
  method Stepped(h: ClientCommHandler, c: Config, ghost s: Server, step: Step, frames: seq<seq<Frame>>, arrived: nat)
    returns (frames': seq<seq<Frame>>, arrived': nat)
    requires Good(c) && Coupled(h, c, s) && Enabled(c, s, step)
    requires Framed(frames, h, s.posting) && arrived == |s.arrived|
    modifies h, h.manager, h.manager.threadPool
    ensures Coupled(h, c, Next(c, s, step))
    ensures Framed(frames', h, Next(c, s, step).posting) && arrived' == |Next(c, s, step).arrived|
  {
    hide ThreadCoupled, Classify, WorkerFor;
    frames', arrived' := frames, arrived;
    match step
    case Receive(p) =>
      var r, task := c.reactorOf(p.session), Task(arrived, p);
      if Classify(p, h.handlers) == Accepted {
        var thread := Chosen(h, c, s, p);
        frames' := frames[r := [Frame(thread, task)]];
      } else {
        Received(h, c, s, task);
      }
      arrived' := arrived + 1;
    case Post(r) =>
      assert FrameOf(frames[r], h, s.posting[r]);
      Posted(h, frames[r][0].thread, frames[r][0].task, c, s, r);
      frames' := frames[r := []];
    case Work(w) =>
      Worked(h, c, s, w);
  }

  /** Every run of the system, in whatever order its reactors and workers take their steps, is a sequence of
      calls on the objects, and ends with the objects holding what the run's last state says. */
  method Replay(h: ClientCommHandler, c: Config, steps: seq<Step>)
    requires Good(c) && After(c, steps).At? && Coupled(h, c, Init(c))
    modifies h, h.manager, h.manager.threadPool
    ensures Coupled(h, c, After(c, steps).state)
  {
    hide Coupled, Next, Shaped, Enabled;
    var frames, arrived := seq(c.reactors, _ => []), 0;
    for i := 0 to |steps|
      invariant After(c, steps[..i]).At?
      invariant Coupled(h, c, After(c, steps[..i]).state)
      invariant Framed(frames, h, After(c, steps[..i]).state.posting)
      invariant arrived == |After(c, steps[..i]).state.arrived|
    {
      RunsSoFar(c, steps, i + 1);
      assert steps[..i + 1][..i] == steps[..i];
      frames, arrived := Stepped(h, c, After(c, steps[..i]).state, steps[i], frames, arrived);
    }
    assert steps[..|steps|] == steps;
  }

  /** Newly made objects hold the initial state, so there are objects to replay any run on. */
  method Started(c: Config, steps: seq<Step>) returns (h: ClientCommHandler)
    requires Good(c) && After(c, steps).At?
    ensures Coupled(h, c, After(c, steps).state)
  {
    var manager := new HandlerThreadManager(c.pool);
    h := new ClientCommHandler(manager, c.handlers);
    assert Coupled(h, c, Init(c));
    Replay(h, c, steps);
  }

  /** A run can be cut short anywhere. */
  lemma {:induction false} RunsSoFar(c: Config, steps: seq<Step>, n: nat)
    requires Good(c) && After(c, steps).At? && n <= |steps|
    ensures After(c, steps[..n]).At?
    decreases |steps|
  {
    if n == |steps| {
      assert steps[..n] == steps;
    } else {
      var k := |steps| - 1;
      RunsSoFar(c, steps[..k], n);
      assert steps[..k][..n] == steps[..n];
    }
  }

  // ----- so the theorems about runs are theorems about the objects

  ghost function Dispatched(h: ClientCommHandler): (rows: seq<seq<Task>>)
    reads h.manager.threadPool
    ensures |rows| == |h.manager.threadPool|
  {
    seq(|h.manager.threadPool|, i requires 0 <= i < |h.manager.threadPool|
      reads h.manager.threadPool => h.manager.threadPool[i].dispatched)
  }

  ghost function Discarded(h: ClientCommHandler): (rows: seq<seq<Task>>)
    reads h.manager.threadPool
    ensures |rows| == |h.manager.threadPool|
  {
    seq(|h.manager.threadPool|, i requires 0 <= i < |h.manager.threadPool|
      reads h.manager.threadPool => h.manager.threadPool[i].discarded)
  }

  /** After any run that leaves no task on a stack or in a thread's queue, the threads have together
      dispatched each accepted packet that parses once, discarded each accepted one that does not once, and
      touched no other. */
  lemma Delivered(h: ClientCommHandler, c: Config, steps: seq<Step>, id: nat)
    requires Good(c) && After(c, steps).At? && Coupled(h, c, After(c, steps).state)
    requires forall r | 0 <= r < c.reactors :: After(c, steps).state.posting[r] == []
    requires forall i | 0 <= i < c.pool :: h.manager.threadPool[i].queue == []
    requires id < |After(c, steps).state.arrived|
    ensures var t := Task(id, After(c, steps).state.arrived[id]);
            var n := t.packet.messageType;
            var accepted := !(n / 0x1_0000 == 7 && n % 0x1_0000 == 1) && n in c.handlers;
            && Bag(Dispatched(h))[t] == (if accepted && c.parses(t.packet) then 1 else 0)
            && Bag(Discarded(h))[t] == (if accepted && !c.parses(t.packet) then 1 else 0)
  {
    hide After, Bag, Classify;
    var s := After(c, steps).state;
    forall w | 0 <= w < c.pool ensures s.queues[w] == [] {
      assert ThreadCoupled(h.manager.threadPool[w], s, w);
    }
    assert Dispatched(h) == s.dispatched && Discarded(h) == s.discarded;
    Drained(c, steps, id);
  }
}
