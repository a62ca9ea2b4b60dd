/** What the load-balance arithmetic says of the transition system: about every run, and about runs that
    attain the bounds. */
module RunBalance {
  import opened WireFormat
  import opened LoadBalance
  import opened Dispatch
  import opened Interleavings

  /** The k-th accepted packet of any run draws the k-th ticket, wherever its reactor is. */
  ghost predicate Ticketed(c: Config, s: Server)
    requires c.pool > 0
  {
    && s.next == (if c.pool == 1 then 0 else Ticket(|s.draws|))
    && forall k | 0 <= k < |s.draws| :: s.draws[k].worker == WorkerFor(Ticket(k), c.pool)
  }

  lemma {:induction false} AlwaysTicketed(c: Config, steps: seq<Step>)
    requires Good(c) && After(c, steps).At?
    ensures Ticketed(c, After(c, steps).state)
  {
    if steps != [] {
      var k := |steps| - 1;
      AlwaysTicketed(c, steps[..k]);
      StepTickets(c, After(c, steps[..k]).state, steps[k]);
    }
  }

  lemma StepTickets(c: Config, s: Server, step: Step)
    requires Good(c) && Shaped(c, s) && Enabled(c, s, step) && Ticketed(c, s)
    ensures Ticketed(c, Next(c, s, step))
  {
    hide Classify, Ticket;
    TicketStep(|s.draws|);
  }

  lemma TicketStep(k: nat)
    ensures Ticket(Ticket(k) + 1) == Ticket(k + 1)
  {
  }

  /** How many of some draws went to worker `w`. */
  function Load(draws: seq<Draw>, w: nat): nat {
    if draws == [] then 0
    else Load(draws[..|draws| - 1], w) + if draws[|draws| - 1].worker == w then 1 else 0
  }

  lemma {:induction false} LoadIsCount(c: Config, s: Server, a: nat, n: nat, w: nat)
    requires c.pool > 0 && Ticketed(c, s) && a + n <= |s.draws|
    ensures Load(s.draws[a..a + n], w) == Count(w, c.pool, a, n)
  {
    if n != 0 {
      LoadIsCount(c, s, a, n - 1, w);
      assert s.draws[a..a + n][..n - 1] == s.draws[a..a + n - 1];
    }
  }

  /** Over any window of accepted packets of any run, two workers' loads differ by at most one, plus one
      for every wrap of the counter in the window; and by at most one if the pool divides 2^32. */
  lemma Balanced(c: Config, steps: seq<Step>, a: nat, n: nat, u: nat, v: nat)
    requires Good(c) && After(c, steps).At? && a + n <= |After(c, steps).state.draws|
    requires u < c.pool && v < c.pool
    ensures var window := After(c, steps).state.draws[a..a + n];
            var slack := if TWO_32 % c.pool == 0 then 0 else Wraps(a, n);
            -1 - slack <= Load(window, u) - Load(window, v) <= 1 + slack
  {
    var s := After(c, steps).state;
    AlwaysTicketed(c, steps);
    LoadIsCount(c, s, a, n, u);
    LoadIsCount(c, s, a, n, v);
    if TWO_32 % c.pool == 0 {
      FairWhenDividing(u, v, c.pool, a, n);
    } else {
      FairAcrossWraps(u, v, c.pool, a, n);
    }
  }

  // ----- runs that attain the bound

  lemma AfterSnoc(c: Config, steps: seq<Step>, step: Step)
    requires Good(c) && After(c, steps).At? && Enabled(c, After(c, steps).state, step)
    ensures After(c, steps + [step]) == At(Next(c, After(c, steps).state, step))
  {
    hide Next, Enabled;
    assert (steps + [step])[..|steps|] == steps;
  }

  /** Any number of packets can be accepted: one after the other, each posted before the next. */
  lemma {:induction false} LongRun(c: Config, p: Packet, n: nat) returns (steps: seq<Step>)
    requires Good(c) && Classify(p, c.handlers) == Accepted
    ensures After(c, steps).At? && |After(c, steps).state.draws| == n
    ensures After(c, steps).state.posting[c.reactorOf(p.session)] == []
  {
    if n == 0 {
      steps := [];
    } else {
      hide After, Classify, WorkerFor, Ticket;
      var before := LongRun(c, p, n - 1);
      var r := c.reactorOf(p.session);
      AfterSnoc(c, before, Receive(p));
      AfterSnoc(c, before + [Receive(p)], Post(r));
      steps := before + [Receive(p)] + [Post(r)];
    }
  }

  /** For every pool size that does not divide 2^32 and every number of wraps there is a run, and a window
      of it with exactly that many wraps, over which two loads differ by one plus the wraps. */
  lemma BoundAttained(c: Config, p: Packet, wraps: nat) returns (steps: seq<Step>)
    requires Good(c) && TWO_32 % c.pool != 0 && Classify(p, c.handlers) == Accepted
    ensures After(c, steps).At?
    ensures var n := (wraps + 1) * TWO_32;
            var draws := After(c, steps).state.draws;
            && n <= |draws| && Wraps(0, n) == wraps
            && Load(draws[0..n], 0) - Load(draws[0..n], c.pool - 1) == 1 + wraps
  {
    hide After, Classify;
    var n := (wraps + 1) * TWO_32;
    steps := LongRun(c, p, n);
    var s := After(c, steps).state;
    AlwaysTicketed(c, steps);
    LoadIsCount(c, s, 0, n, 0);
    LoadIsCount(c, s, 0, n, c.pool - 1);
    WrapBoundIsSharp(c.pool, wraps);
  }

  /** Two workers' loads over the n draws from the a-th on differ by at most one. */
  predicate FairWindow(draws: seq<Draw>, a: nat, n: nat, u: nat, v: nat) {
    a + n <= |draws| ==> -1 <= Load(draws[a..a + n], u) - Load(draws[a..a + n], v) <= 1
  }

  ghost predicate FairRun(c: Config, steps: seq<Step>)
    requires Good(c) && After(c, steps).At?
  {
    forall a: nat, n: nat, u: nat, v: nat | u < c.pool && v < c.pool ::
      FairWindow(After(c, steps).state.draws, a, n, u, v)
  }

  /** Every run is fair over all its windows if and only if the pool size divides 2^32, for any server that
      accepts a packet at all. */
  lemma FairRunsIff(c: Config, p: Packet)
    requires Good(c) && Classify(p, c.handlers) == Accepted
    ensures (forall steps | After(c, steps).At? :: FairRun(c, steps)) <==> TWO_32 % c.pool == 0
  {
    hide After, Classify, Wraps, Load;
    if TWO_32 % c.pool == 0 {
      forall steps, a: nat, n: nat, u: nat, v: nat | After(c, steps).At? && u < c.pool && v < c.pool
        ensures FairWindow(After(c, steps).state.draws, a, n, u, v)
      {
        if a + n <= |After(c, steps).state.draws| {
          Balanced(c, steps, a, n, u, v);
        }
      }
    } else {
      var steps := BoundAttained(c, p, 1);
      assert !FairWindow(After(c, steps).state.draws, 0, 2 * TWO_32, 0, c.pool - 1);
      assert !FairRun(c, steps);
    }
  }
}
