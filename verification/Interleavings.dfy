/** Every interleaving of the dispatch: sockets are bound to reactors, a reactor handles one packet at a
    time, and between drawing a ticket and posting the task any other reactor or worker may run.  What is
    proved holds after every run. */
module Interleavings {
  import opened WireFormat
  import opened LoadBalance
  import opened Dispatch

  /** `reactorOf` says which reactor owns a session, `parses` which packets become a message. */
  datatype Config = Config(
    pool: nat,
    reactors: nat,
    handlers: set<UInt32>,
    parses: Packet -> bool,
    reactorOf: nat -> nat)

  datatype Draw = Draw(task: Task, worker: nat)

  /** The places a packet can be in are `echoed`, `rejected`, `posting` (one row a reactor), and `queues`,
      `dispatched` and `discarded` (one row a worker).  The rest is history: what arrived, what was drawn,
      and what was run by each worker and over all. */
  datatype Server = Server(
    arrived: seq<Packet>,
    next: UInt32,
    echoed: seq<Task>,
    rejected: seq<Task>,
    posting: seq<seq<Draw>>,
    queues: seq<seq<Task>>,
    dispatched: seq<seq<Task>>,
    discarded: seq<seq<Task>>,
    draws: seq<Draw>,
    done: seq<seq<Task>>,
    log: seq<Task>)

  datatype Step = Receive(packet: Packet) | Post(reactor: nat) | Work(worker: nat)

  ghost predicate Good(c: Config) {
    c.pool > 0 && c.reactors > 0 && forall x :: c.reactorOf(x) < c.reactors
  }

  function Init(c: Config): Server {
    var rows := seq(c.pool, _ => []);
    Server([], 0, [], [], seq(c.reactors, _ => []), rows, rows, rows, [], rows, [])
  }

  ghost predicate Shaped(c: Config, s: Server) {
    && |s.posting| == c.reactors && |s.queues| == |s.done| == |s.dispatched| == |s.discarded| == c.pool
    && (forall r | 0 <= r < c.reactors :: |s.posting[r]| <= 1)
    && (forall r, i | 0 <= r < c.reactors && 0 <= i < |s.posting[r]| ::
          s.posting[r][i].worker < c.pool && c.reactorOf(s.posting[r][i].task.packet.session) == r)
  }

  ghost predicate Enabled(c: Config, s: Server, step: Step)
    requires Good(c) && Shaped(c, s)
  {
    match step
    case Receive(p) => s.posting[c.reactorOf(p.session)] == []
    case Post(r) => r < c.reactors && s.posting[r] != []
    case Work(w) => w < c.pool && s.queues[w] != []
  }

  /** One atomic step: a reactor takes a packet in (drawing a ticket for it if it is accepted), a reactor
      posts the task it holds, or a worker runs its oldest task, dispatching or discarding it. */
  ghost function Next(c: Config, s: Server, step: Step): (s': Server)
    requires Good(c) && Shaped(c, s) && Enabled(c, s, step)
    ensures Shaped(c, s')
  {
    match step
    case Receive(p) =>
      var task := Task(|s.arrived|, p);
      var s := s.(arrived := s.arrived + [p]);
      (match Classify(p, c.handlers)
       case Heartbeat => s.(echoed := s.echoed + [task])
       case Unhandled => s.(rejected := s.rejected + [task])
       case Accepted =>
         var draw := Draw(task, WorkerFor(s.next, c.pool));
         s.(next := if c.pool == 1 then s.next else Ticket(s.next + 1),
            posting := s.posting[c.reactorOf(p.session) := [draw]],
            draws := s.draws + [draw]))
    case Post(r) =>
      var Draw(task, w) := s.posting[r][0];
      s.(posting := s.posting[r := []], queues := s.queues[w := s.queues[w] + [task]])
    case Work(w) =>
      var task := s.queues[w][0];
      var s := s.(queues := s.queues[w := s.queues[w][1..]],
                  done := s.done[w := s.done[w] + [task]],
                  log := s.log + [task]);
      if c.parses(task.packet) then s.(dispatched := s.dispatched[w := s.dispatched[w] + [task]])
      else s.(discarded := s.discarded[w := s.discarded[w] + [task]])
  }

  /** The state after a run, or nothing if some step of it was not possible. */
  datatype Maybe = Stuck | At(state: Server)

  ghost function After(c: Config, steps: seq<Step>): (m: Maybe)
    requires Good(c)
    ensures m.At? ==> Shaped(c, m.state)
  {
    if steps == [] then At(Init(c))
    else
      match After(c, steps[..|steps| - 1])
      case Stuck => Stuck
      case At(s) => if Enabled(c, s, steps[|steps| - 1]) then At(Next(c, s, steps[|steps| - 1])) else Stuck
  }

  // ----- nothing is lost or duplicated

  ghost function Bag<T>(rows: seq<seq<T>>): multiset<T> {
    if rows == [] then multiset{} else Bag(rows[..|rows| - 1]) + multiset(rows[|rows| - 1])
  }

  lemma {:induction false} BagGrows<T>(rows: seq<seq<T>>, i: nat, row: seq<T>, t: T)
    requires i < |rows| && multiset(row) == multiset(rows[i]) + multiset{t}
    ensures Bag(rows[i := row]) == Bag(rows) + multiset{t}
  {
    var k := |rows| - 1;
    var after := rows[i := row];
    assert Bag(after) == Bag(after[..k]) + multiset(after[k]);
    if i == k {
      assert after[..k] == rows[..k];
    } else {
      assert after[..k] == rows[..k][i := row];
      BagGrows(rows[..k], i, row, t);
    }
  }

  lemma BagShrinks<T>(rows: seq<seq<T>>, i: nat, row: seq<T>, t: T)
    requires i < |rows| && multiset(rows[i]) == multiset(row) + multiset{t}
    ensures Bag(rows) == Bag(rows[i := row]) + multiset{t}
  {
    BagGrows(rows[i := row], i, rows[i], t);
    assert rows[i := row][i := rows[i]] == rows;
  }

  lemma {:induction false} BagEmpty<T>(rows: seq<seq<T>>)
    requires forall i | 0 <= i < |rows| :: rows[i] == []
    ensures Bag(rows) == multiset{}
  {
    if rows != [] {
      BagEmpty(rows[..|rows| - 1]);
    }
  }

  ghost function TasksOf(draws: seq<Draw>): (tasks: seq<Task>)
    ensures |tasks| == |draws|
  {
    seq(|draws|, i requires 0 <= i < |draws| => draws[i].task)
  }

  lemma TasksOfOne(draw: Draw)
    ensures TasksOf([draw]) == [draw.task]
  {
  }

  ghost function Held(posting: seq<seq<Draw>>): (rows: seq<seq<Task>>)
    ensures |rows| == |posting|
  {
    seq(|posting|, r requires 0 <= r < |posting| => TasksOf(posting[r]))
  }

  /** Everything the server holds, wherever it is. */
  ghost function Everything(s: Server): multiset<Task> {
    multiset(s.echoed) + multiset(s.rejected) + Bag(Held(s.posting)) + Bag(s.queues) + Bag(s.dispatched) +
    Bag(s.discarded)
  }

  /** The packets in order of arrival. */
  ghost function Arrivals(arrived: seq<Packet>): (tasks: seq<Task>)
    ensures |tasks| == |arrived|
  {
    seq(|arrived|, i requires 0 <= i < |arrived| => Task(i, arrived[i]))
  }

  /** A step adds to the server what arrives with it, and otherwise only moves tasks. */
  lemma StepConserves(c: Config, s: Server, step: Step)
    requires Good(c) && Shaped(c, s) && Enabled(c, s, step)
    ensures Everything(Next(c, s, step)) == Everything(s) + Arriving(s, step)
  {
    hide Everything, Next, Shaped;
    match step
    case Receive(p) => ReceiveConserves(c, s, p);
    case Post(r) => PostConserves(c, s, r);
    case Work(w) => WorkConserves(c, s, w);
  }

  ghost function Arriving(s: Server, step: Step): multiset<Task> {
    if step.Receive? then multiset{Task(|s.arrived|, step.packet)} else multiset{}
  }

  lemma ReceiveConserves(c: Config, s: Server, p: Packet)
    requires Good(c) && Shaped(c, s) && Enabled(c, s, Receive(p))
    ensures Everything(Next(c, s, Receive(p))) == Everything(s) + multiset{Task(|s.arrived|, p)}
  {
    hide Bag, TasksOf, Held, Classify, WorkerFor;
    if Classify(p, c.handlers) == Accepted {
      var r, draw := c.reactorOf(p.session), Next(c, s, Receive(p)).draws[|s.draws|];
      HeldUpdate(s.posting, r, [draw]);
      TasksOfOne(draw);
      HeldAt(s.posting, r);
      BagGrows(Held(s.posting), r, [draw.task], draw.task);
    }
  }

  lemma PostConserves(c: Config, s: Server, r: nat)
    requires Good(c) && Shaped(c, s) && Enabled(c, s, Post(r))
    ensures Everything(Next(c, s, Post(r))) == Everything(s)
  {
    hide Bag, TasksOf, Held;
    var draw := s.posting[r][0];
    assert s.posting[r] == [draw];
    HeldUpdate(s.posting, r, []);
    TasksOfOne(draw);
    HeldAt(s.posting, r);
    BagShrinks(Held(s.posting), r, [], draw.task);
    BagGrows(s.queues, draw.worker, s.queues[draw.worker] + [draw.task], draw.task);
  }

  lemma WorkConserves(c: Config, s: Server, w: nat)
    requires Good(c) && Shaped(c, s) && Enabled(c, s, Work(w))
    ensures Everything(Next(c, s, Work(w))) == Everything(s)
  {
    hide Bag, TasksOf, Held;
    var task := s.queues[w][0];
    assert s.queues[w] == [task] + s.queues[w][1..];
    BagShrinks(s.queues, w, s.queues[w][1..], task);
    if c.parses(task.packet) {
      BagGrows(s.dispatched, w, s.dispatched[w] + [task], task);
    } else {
      BagGrows(s.discarded, w, s.discarded[w] + [task], task);
    }
  }

  lemma HeldAt(posting: seq<seq<Draw>>, r: nat)
    requires r < |posting|
    ensures Held(posting)[r] == TasksOf(posting[r])
    ensures TasksOf([]) == []
  {
  }

  lemma HeldUpdate(posting: seq<seq<Draw>>, r: nat, draws: seq<Draw>)
    requires r < |posting|
    ensures Held(posting[r := draws]) == Held(posting)[r := TasksOf(draws)]
    ensures TasksOf([]) == []
  {
  }

  /** After every run each packet that arrived, unaltered, is held exactly once among the echoed, the
      rejected, those being posted, those queued, those dispatched and those discarded; and nothing else
      is. */
  lemma {:induction false} Conserved(c: Config, steps: seq<Step>)
    requires Good(c) && After(c, steps).At?
    ensures var s := After(c, steps).state; Everything(s) == multiset(Arrivals(s.arrived))
  {
    if steps == [] {
      BagEmpty(Held(Init(c).posting));
      BagEmpty(Init(c).queues);
    } else {
      hide Everything, Next, Shaped, Arrivals;
      var k := |steps| - 1;
      var s := After(c, steps[..k]).state;
      Conserved(c, steps[..k]);
      StepConserves(c, s, steps[k]);
      StepArrives(c, s, steps[k]);
    }
  }

  lemma StepArrives(c: Config, s: Server, step: Step)
    requires Good(c) && Shaped(c, s) && Enabled(c, s, step)
    ensures multiset(Arrivals(Next(c, s, step).arrived)) == multiset(Arrivals(s.arrived)) + Arriving(s, step)
  {
    hide Classify, WorkerFor;
    if step.Receive? {
      assert Arrivals(s.arrived + [step.packet]) == Arrivals(s.arrived) + [Task(|s.arrived|, step.packet)];
    }
  }

  lemma {:induction false} ArrivalsDistinct(arrived: seq<Packet>)
    ensures forall t: Task ::
              multiset(Arrivals(arrived))[t] == if t.id < |arrived| && t.packet == arrived[t.id] then 1 else 0
  {
    if arrived != [] {
      var k := |arrived| - 1;
      ArrivalsDistinct(arrived[..k]);
      assert Arrivals(arrived) == Arrivals(arrived[..k]) + [Task(k, arrived[k])];
    }
  }

  /** Where a task may be is decided by its classification and by whether it parses. */
  ghost predicate Sorted(c: Config, s: Server) {
    && (forall t | t in s.echoed :: Classify(t.packet, c.handlers) == Heartbeat)
    && (forall t | t in s.rejected :: Classify(t.packet, c.handlers) == Unhandled)
    && (forall r, i | 0 <= r < |s.posting| && 0 <= i < |s.posting[r]| ::
          Classify(s.posting[r][i].task.packet, c.handlers) == Accepted)
    && (forall w, i | 0 <= w < |s.queues| && 0 <= i < |s.queues[w]| ::
          Classify(s.queues[w][i].packet, c.handlers) == Accepted)
    && (forall w, i | 0 <= w < |s.dispatched| && 0 <= i < |s.dispatched[w]| ::
          Classify(s.dispatched[w][i].packet, c.handlers) == Accepted && c.parses(s.dispatched[w][i].packet))
    && (forall w, i | 0 <= w < |s.discarded| && 0 <= i < |s.discarded[w]| ::
          Classify(s.discarded[w][i].packet, c.handlers) == Accepted && !c.parses(s.discarded[w][i].packet))
  }

  lemma {:induction false} AlwaysSorted(c: Config, steps: seq<Step>)
    requires Good(c) && After(c, steps).At?
    ensures Sorted(c, After(c, steps).state)
  {
    if steps != [] {
      var k := |steps| - 1;
      AlwaysSorted(c, steps[..k]);
      hide After;
      StepSorts(c, After(c, steps[..k]).state, steps[k]);
    }
  }

  lemma StepSorts(c: Config, s: Server, step: Step)
    requires Good(c) && Shaped(c, s) && Enabled(c, s, step) && Sorted(c, s)
    ensures Sorted(c, Next(c, s, step))
  {
    hide Classify;
  }

  lemma {:induction false} BagLacks(rows: seq<seq<Task>>, t: Task)
    requires forall w | 0 <= w < |rows| :: t !in rows[w]
    ensures Bag(rows)[t] == 0
  {
    if rows != [] {
      BagLacks(rows[..|rows| - 1], t);
    }
  }

  /** After every run each arrival is in exactly one place, once: echoed if its module is 7 and its command
      1, otherwise rejected if its type has no handler, and otherwise being posted, queued, dispatched (only
      if it parses) or discarded (only if it does not). */
  lemma ExactlyOnce(c: Config, steps: seq<Step>, id: nat)
    requires Good(c) && After(c, steps).At? && id < |After(c, steps).state.arrived|
    ensures var s := After(c, steps).state;
            var t := Task(id, s.arrived[id]);
            var n := t.packet.messageType;
            var heartbeat := n / 0x1_0000 == 7 && n % 0x1_0000 == 1;
            && multiset(s.echoed)[t] == (if heartbeat then 1 else 0)
            && multiset(s.rejected)[t] == (if !heartbeat && n !in c.handlers then 1 else 0)
            && Bag(Held(s.posting))[t] + Bag(s.queues)[t] + Bag(s.dispatched)[t] + Bag(s.discarded)[t] ==
               (if !heartbeat && n in c.handlers then 1 else 0)
            && (c.parses(t.packet) ==> Bag(s.discarded)[t] == 0)
            && (!c.parses(t.packet) ==> Bag(s.dispatched)[t] == 0)
  {
    hide Bag, After, Classify;
    var s := After(c, steps).state;
    var t := Task(id, s.arrived[id]);
    Conserved(c, steps);
    AlwaysSorted(c, steps);
    ArrivalsDistinct(s.arrived);
    VerdictOf(t.packet, c.handlers);
    if Classify(t.packet, c.handlers) != Accepted {
      forall r | 0 <= r < |s.posting| ensures t !in Held(s.posting)[r] {
        HeldAt(s.posting, r);
      }
      BagLacks(Held(s.posting), t);
      BagLacks(s.queues, t);
      BagLacks(s.dispatched, t);
      BagLacks(s.discarded, t);
    } else if c.parses(t.packet) {
      BagLacks(s.discarded, t);
    } else {
      BagLacks(s.dispatched, t);
    }
    assert Classify(t.packet, c.handlers) != Heartbeat ==> t !in s.echoed;
    assert Classify(t.packet, c.handlers) != Unhandled ==> t !in s.rejected;
  }

  /** So when nothing is being posted or queued, an accepted packet has been dispatched exactly once if it
      parses and discarded exactly once if it does not; and no other packet has. */
  lemma Drained(c: Config, steps: seq<Step>, id: nat)
    requires Good(c) && After(c, steps).At? && id < |After(c, steps).state.arrived|
    requires forall r | 0 <= r < c.reactors :: After(c, steps).state.posting[r] == []
    requires forall w | 0 <= w < c.pool :: After(c, steps).state.queues[w] == []
    ensures var s := After(c, steps).state;
            var t := Task(id, s.arrived[id]);
            var n := t.packet.messageType;
            var accepted := !(n / 0x1_0000 == 7 && n % 0x1_0000 == 1) && n in c.handlers;
            && Bag(s.dispatched)[t] == (if accepted && c.parses(t.packet) then 1 else 0)
            && Bag(s.discarded)[t] == (if accepted && !c.parses(t.packet) then 1 else 0)
  {
    hide After, Bag, Classify, Everything;
    var s := After(c, steps).state;
    ExactlyOnce(c, steps, id);
    forall r | 0 <= r < |s.posting| ensures Held(s.posting)[r] == [] {
      HeldAt(s.posting, r);
    }
    BagEmpty(Held(s.posting));
    BagEmpty(s.queues);
  }
}
