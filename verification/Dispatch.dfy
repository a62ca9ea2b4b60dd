/** How received packets reach the handler threads: classification in ClientCommHandler, the choice of a
    thread in ZAresHandlerThreadManager and the task queue of each ZAresHandlerThread, as objects. */
module Dispatch {
  import opened WireFormat
  import opened LoadBalance

  datatype Packet = Packet(session: nat, messageType: UInt32, body: Bytes)

  /** A packet with its place in the order of arrival. */
  datatype Task = Task(id: nat, packet: Packet)

  const SID_OTHER := 7
  const IM_PDU_TYPE_HEARTBEAT := 1

  /** `MAKE_INT32` puts the module into the high half and the command into the low half. */
  const MESSAGE_HEARTBEAT: UInt32 := SID_OTHER * 0x1_0000 + IM_PDU_TYPE_HEARTBEAT

  datatype Verdict = Heartbeat | Unhandled | Accepted

  /** `handlers` is the table that `CheckMessageHandler` looks into. */
  function Classify(packet: Packet, handlers: set<UInt32>): Verdict {
    if packet.messageType == MESSAGE_HEARTBEAT then Heartbeat
    else if packet.messageType in handlers then Accepted
    else Unhandled
  }

  /** In the numbers on the wire: a heartbeat has module 7 and command 1; of the rest, those with a handler
      are accepted. */
  lemma VerdictOf(packet: Packet, handlers: set<UInt32>)
    ensures var heartbeat := packet.messageType / 0x1_0000 == 7 && packet.messageType % 0x1_0000 == 1;
            Classify(packet, handlers) ==
            if heartbeat then Heartbeat else if packet.messageType in handlers then Accepted else Unhandled
  {
  }

  class HandlerThread {
    /** The message loop's queue, what it has handed to a handler and what it has dropped. */
    var queue: seq<Task>
    var dispatched: seq<Task>
    var discarded: seq<Task>

    constructor ()
      ensures queue == dispatched == discarded == []
    {
      queue, dispatched, discarded := [], [], [];
    }

    method DoMessageDataHandler(task: Task)
      modifies this
      ensures queue == old(queue) + [task] && dispatched == old(dispatched) && discarded == old(discarded)
    {
      queue := queue + [task];
    }

    /** The message loop runs its oldest task: a packet that parses is dispatched, any other dropped. */
    method OnMessageDataHandler(parses: Packet -> bool)
      requires queue != []
      modifies this
      ensures [old(queue)[0]] + queue == old(queue)
      ensures dispatched == old(dispatched) + if parses(old(queue)[0].packet) then [old(queue)[0]] else []
      ensures discarded == old(discarded) + if parses(old(queue)[0].packet) then [] else [old(queue)[0]]
    {
      var task := queue[0];
      queue := queue[1..];
      if parses(task.packet) {
        dispatched := dispatched + [task];
      } else {
        discarded := discarded + [task];
      }
    }
  }

  class HandlerThreadManager {
    const threadPool: seq<HandlerThread>
    var nextThread: UInt32

    ghost predicate Valid() {
      |threadPool| > 0 && forall i, j | 0 <= i < j < |threadPool| :: threadPool[i] != threadPool[j]
    }

    /** `Initialize` makes the threads one by one. */
    constructor (poolSize: nat)
      requires poolSize > 0
      ensures Valid() && |threadPool| == poolSize && nextThread == 0
      ensures forall i | 0 <= i < poolSize ::
                && fresh(threadPool[i])
                && threadPool[i].queue == threadPool[i].dispatched == threadPool[i].discarded == []
    {
      var threads: seq<HandlerThread> := [];
      for n := 0 to poolSize
        invariant |threads| == n
        invariant forall i, j | 0 <= i < j < n :: threads[i] != threads[j]
        invariant forall i | 0 <= i < n ::
                    && fresh(threads[i])
                    && threads[i].queue == threads[i].dispatched == threads[i].discarded == []
      {
        var thread := new HandlerThread();
        threads := threads + [thread];
      }
      threadPool, nextThread := threads, 0;
    }

    /** The atomic sequence number, whose value is cast to 32 unsigned bits. */
    method GetNext() returns (ticket: UInt32)
      modifies this
      ensures ticket == old(nextThread) && nextThread == Ticket(ticket + 1)
    {
      ticket := nextThread;
      nextThread := (nextThread + 1) % TWO_32;
    }

    method GetNextThread() returns (thread: HandlerThread, ghost w: nat)
      requires Valid()
      modifies this
      ensures w == WorkerFor(old(nextThread), |threadPool|) && thread == threadPool[w]
      ensures thread == threadPool[if |threadPool| == 1 then 0 else old(nextThread) % |threadPool|]
      ensures nextThread == if |threadPool| == 1 then old(nextThread) else (old(nextThread) + 1) % 0x1_0000_0000
    {
      if |threadPool| == 1 {
        return threadPool[0], 0;
      } else {
        var next := GetNext();
        return threadPool[next % |threadPool|], next % |threadPool|;
      }
    }

    /** Exactly the chosen thread gets the posted packet, at the back of its queue. */
    method PostDataToDbHandler(task: Task)
      requires Valid()
      modifies this, threadPool
      ensures nextThread == if |threadPool| == 1 then old(nextThread) else Ticket(old(nextThread) + 1)
      ensures forall i | 0 <= i < |threadPool| ::
                && threadPool[i].dispatched == old(threadPool[i].dispatched)
                && threadPool[i].discarded == old(threadPool[i].discarded)
                && threadPool[i].queue ==
                   old(threadPool[i].queue) + if i == WorkerFor(old(nextThread), |threadPool|) then [task] else []
    {
      var thread, w := GetNextThread();
      thread.DoMessageDataHandler(task);
    }
  }

  class ClientCommHandler {
    const manager: HandlerThreadManager
    const handlers: set<UInt32>
    var echoed: seq<Task>
    var rejected: seq<Task>

    constructor (manager: HandlerThreadManager, handlers: set<UInt32>)
      ensures this.manager == manager && this.handlers == handlers && echoed == rejected == []
    {
      this.manager, this.handlers := manager, handlers;
      echoed, rejected := [], [];
    }

    /** Every packet is echoed, rejected or queued at one thread, and nothing else happens. */
    method OnDataReceived(task: Task)
      requires manager.Valid()
      modifies this, manager, manager.threadPool
      ensures var n := task.packet.messageType;
              var heartbeat := n / 0x1_0000 == 7 && n % 0x1_0000 == 1;
              var accepted := !heartbeat && n in handlers;
              && echoed == old(echoed) + (if heartbeat then [task] else [])
              && rejected == old(rejected) + (if !heartbeat && n !in handlers then [task] else [])
              && manager.nextThread == (if accepted && |manager.threadPool| != 1
                                        then Ticket(old(manager.nextThread) + 1) else old(manager.nextThread))
              && forall i | 0 <= i < |manager.threadPool| ::
                   && manager.threadPool[i].dispatched == old(manager.threadPool[i].dispatched)
                   && manager.threadPool[i].discarded == old(manager.threadPool[i].discarded)
                   && manager.threadPool[i].queue ==
                      old(manager.threadPool[i].queue) +
                      if accepted && i == WorkerFor(old(manager.nextThread), |manager.threadPool|) then [task]
                      else []
    {
      if task.packet.messageType == MESSAGE_HEARTBEAT {
        echoed := echoed + [task];
      } else if task.packet.messageType in handlers {
        manager.PostDataToDbHandler(task);
      } else {
        rejected := rejected + [task];
      }
    }
  }
}
