/** The round-robin ticket of ZAresHandlerThreadManager: the k-th accepted packet draws ticket
    k modulo 2^32 and goes to worker `ticket % poolSize`. */
module LoadBalance {
  import opened WireFormat

  function Ticket(k: nat): UInt32 {
    k % TWO_32
  }

  /** The worker a ticket selects; a pool of one needs no ticket. */
  function WorkerFor(ticket: UInt32, pool: nat): (w: nat)
    requires pool > 0
    ensures w < pool
  {
    if pool == 1 then 0 else ticket % pool
  }

  /** How many of the `n` packets from the a-th on go to worker `w`. */
  function Count(w: nat, pool: nat, a: nat, n: nat): nat
    requires pool > 0
  {
    if n == 0 then 0
    else Count(w, pool, a, n - 1) + if WorkerFor(Ticket(a + n - 1), pool) == w then 1 else 0
  }

  /** The counter wraps strictly inside the window this many times. */
  function Wraps(a: nat, n: nat): nat {
    if n == 0 then 0 else (a + n - 1) / TWO_32 - a / TWO_32
  }

  // ----- division steps

  lemma AtLeastOnce(d: int, p: int)
    requires p > 0
    ensures d >= 1 ==> d * p >= p
    ensures d <= -1 ==> d * p <= -p
  {
    if d >= 1 {
      assert d * p == p + (d - 1) * p;
    } else if d <= -1 {
      assert d * p == -p + (d + 1) * p;
    }
  }

  lemma DivUnique(x: int, p: int, q: int, r: int)
    requires p > 0 && 0 <= r < p && x == q * p + r
    ensures x / p == q && x % p == r
  {
    var d, r' := x / p - q, x % p;
    assert d * p == (x / p) * p - q * p;
    assert d * p == r - r';
    AtLeastOnce(d, p);
    assert d == 0;
  }

  lemma DivStep(x: nat, p: nat)
    requires p > 0
    ensures if x % p == p - 1 then (x + 1) / p == x / p + 1 && (x + 1) % p == 0
            else (x + 1) / p == x / p && (x + 1) % p == x % p + 1
  {
    var q, r := x / p, x % p;
    if r == p - 1 {
      assert x + 1 == (q + 1) * p + 0;
      DivUnique(x + 1, p, q + 1, 0);
    } else {
      DivUnique(x + 1, p, q, r + 1);
    }
  }

  lemma DivPlus(x: nat, p: nat)
    requires p > 0
    ensures (x + p) / p == x / p + 1 && (x + p) % p == x % p
  {
    assert x + p == (x / p + 1) * p + x % p;
    DivUnique(x + p, p, x / p + 1, x % p);
  }

  /** How many of the numbers below x are congruent to w. */
  function Below(w: nat, pool: nat, x: nat): nat
    requires pool > 0
  {
    x / pool + if x % pool > w then 1 else 0
  }

  // ----- within one turn of the counter

  lemma {:induction false} CountWithinTurn(w: nat, pool: nat, turn: nat, x: nat, n: nat)
    requires w < pool && x + n <= TWO_32
    ensures Count(w, pool, turn * TWO_32 + x, n) == Below(w, pool, x + n) - Below(w, pool, x)
  {
    if n != 0 {
      CountWithinTurn(w, pool, turn, x, n - 1);
      var y := x + n - 1;
      DivUnique(turn * TWO_32 + y, TWO_32, turn, y);
      DivStep(y, pool);
      assert turn * TWO_32 + x + n - 1 == turn * TWO_32 + y;
      if pool == 1 {
        DivUnique(y, 1, y, 0);
      }
    }
  }

  /** Where the counter does not wrap, no worker gets more than one packet more than another. */
  lemma FairWithinTurn(u: nat, v: nat, pool: nat, a: nat, n: nat)
    requires u < pool && v < pool && Wraps(a, n) == 0
    ensures -1 <= Count(u, pool, a, n) - Count(v, pool, a, n) <= 1
  {
    if n != 0 {
      var turn, x := a / TWO_32, a % TWO_32;
      assert a == turn * TWO_32 + x && x + n <= TWO_32;
      CountWithinTurn(u, pool, turn, x, n);
      CountWithinTurn(v, pool, turn, x, n);
    }
  }

  /** There, any `pool` packets in a row visit every worker exactly once. */
  lemma BlockVisitsAll(w: nat, pool: nat, a: nat)
    requires w < pool && Wraps(a, pool) == 0
    ensures Count(w, pool, a, pool) == 1
  {
    var turn, x := a / TWO_32, a % TWO_32;
    assert a == turn * TWO_32 + x && x + pool <= TWO_32;
    CountWithinTurn(w, pool, turn, x, pool);
    DivPlus(x, pool);
  }

  // ----- across turns

  lemma {:induction false} CountSplit(w: nat, pool: nat, a: nat, m: nat, n: nat)
    requires pool > 0
    ensures Count(w, pool, a, m + n) == Count(w, pool, a, m) + Count(w, pool, a + m, n)
  {
    if n != 0 {
      CountSplit(w, pool, a, m, n - 1);
      assert a + (m + n) - 1 == (a + m) + n - 1;
    }
  }

  /** Up to the first wrap, and from it. */
  lemma FirstTurn(a: nat, n: nat)
    requires Wraps(a, n) > 0
    ensures var m := TWO_32 - a % TWO_32;
            0 < m < n && Wraps(a, m) == 0 && Wraps(a + m, n - m) == Wraps(a, n) - 1
  {
    var turn, x := a / TWO_32, a % TWO_32;
    var m := TWO_32 - x;
    DivUnique(a + m - 1, TWO_32, turn, TWO_32 - 1);
    DivUnique(a + m, TWO_32, turn + 1, 0);
  }

  /** Every wrap inside a window costs at most one packet of balance. */
  lemma {:induction false} FairAcrossWraps(u: nat, v: nat, pool: nat, a: nat, n: nat)
    requires u < pool && v < pool
    ensures -1 - Wraps(a, n) <= Count(u, pool, a, n) - Count(v, pool, a, n) <= 1 + Wraps(a, n)
    decreases n
  {
    hide Wraps;
    if Wraps(a, n) == 0 {
      FairWithinTurn(u, v, pool, a, n);
    } else {
      var m := TWO_32 - a % TWO_32;
      FirstTurn(a, n);
      FairWithinTurn(u, v, pool, a, m);
      FairAcrossWraps(u, v, pool, a + m, n - m);
      CountSplit(u, pool, a, m, n - m);
      CountSplit(v, pool, a, m, n - m);
    }
  }

  lemma TicketModPool(k: nat, pool: nat)
    requires pool > 0 && TWO_32 % pool == 0
    ensures WorkerFor(Ticket(k), pool) == k % pool
  {
    var m, turn, x := TWO_32 / pool, k / TWO_32, k % TWO_32;
    assert TWO_32 == m * pool && x == x / pool * pool + x % pool;
    assert k == turn * TWO_32 + x;
    calc {
      k;
      turn * (m * pool) + (x / pool * pool + x % pool);
      { assert turn * (m * pool) == (turn * m) * pool; }
      (turn * m) * pool + x / pool * pool + x % pool;
      (turn * m + x / pool) * pool + x % pool;
    }
    DivUnique(k, pool, turn * m + x / pool, x % pool);
    if pool == 1 {
      DivUnique(k, 1, k, 0);
    }
  }

  lemma {:induction false} CountWhenDividing(w: nat, pool: nat, a: nat, n: nat)
    requires w < pool && TWO_32 % pool == 0
    ensures Count(w, pool, a, n) == Below(w, pool, a + n) - Below(w, pool, a)
  {
    if n != 0 {
      CountWhenDividing(w, pool, a, n - 1);
      TicketModPool(a + n - 1, pool);
      DivStep(a + n - 1, pool);
    }
  }

  /** A pool size that divides 2^32 never notices the wraps. */
  lemma FairWhenDividing(u: nat, v: nat, pool: nat, a: nat, n: nat)
    requires u < pool && v < pool && TWO_32 % pool == 0
    ensures -1 <= Count(u, pool, a, n) - Count(v, pool, a, n) <= 1
  {
    CountWhenDividing(u, pool, a, n);
    CountWhenDividing(v, pool, a, n);
  }

  /** Each packet goes to the worker after its predecessor's, for ever, exactly when the pool size
      divides 2^32. */
  lemma RoundRobinIff(pool: nat)
    requires 0 < pool <= TWO_32
    ensures (forall k: nat ::
               WorkerFor(Ticket(k + 1), pool) == (WorkerFor(Ticket(k), pool) + 1) % pool)
            <==> TWO_32 % pool == 0
  {
    if TWO_32 % pool == 0 {
      forall k: nat
        ensures WorkerFor(Ticket(k + 1), pool) == (WorkerFor(Ticket(k), pool) + 1) % pool
      {
        TicketModPool(k, pool);
        TicketModPool(k + 1, pool);
        DivStep(k, pool);
        SmallMod(k % pool, pool);
      }
    } else {
      var k: nat := TWO_32 - 1;
      assert Ticket(k) == k && Ticket(k + 1) == 0;
      DivStep(k, pool);
      SmallMod(k % pool, pool);
      DivUnique(0, pool, 0, 0);
      assert WorkerFor(Ticket(k + 1), pool) != (WorkerFor(Ticket(k), pool) + 1) % pool;
    }
  }

  lemma SmallMod(r: nat, pool: nat)
    requires r < pool
    ensures (r + 1) % pool == if r == pool - 1 then 0 else r + 1
  {
    if r == pool - 1 {
      DivUnique(r + 1, pool, 1, 0);
    } else {
      DivUnique(r + 1, pool, 0, r + 1);
    }
  }

  // ----- the bound is attained

  /** In one whole turn a worker gets its share, and the first `2^32 % pool` workers one packet more. */
  lemma WholeTurn(w: nat, pool: nat, turn: nat)
    requires w < pool
    ensures Count(w, pool, turn * TWO_32, TWO_32) == TWO_32 / pool + if w < TWO_32 % pool then 1 else 0
  {
    CountWithinTurn(w, pool, turn, 0, TWO_32);
    DivUnique(0, pool, 0, 0);
  }

  lemma {:induction false} WholeTurns(w: nat, pool: nat, turns: nat)
    requires w < pool
    ensures Count(w, pool, 0, turns * TWO_32) == turns * (TWO_32 / pool + if w < TWO_32 % pool then 1 else 0)
  {
    if turns != 0 {
      WholeTurns(w, pool, turns - 1);
      CountSplit(w, pool, 0, (turns - 1) * TWO_32, TWO_32);
      WholeTurn(w, pool, turns - 1);
      var share := TWO_32 / pool + if w < TWO_32 % pool then 1 else 0;
      assert turns * share == (turns - 1) * share + share;
    }
  }

  /** For every pool size that does not divide 2^32 and every number of wraps, the first `wraps + 1` turns
      give worker 0 exactly `1 + wraps` packets more than the last worker. */
  lemma WrapBoundIsSharp(pool: nat, wraps: nat)
    requires pool > 0 && TWO_32 % pool != 0
    ensures Wraps(0, (wraps + 1) * TWO_32) == wraps
    ensures Count(0, pool, 0, (wraps + 1) * TWO_32) - Count(pool - 1, pool, 0, (wraps + 1) * TWO_32) == 1 + wraps
  {
    hide Count;
    WholeTurns(0, pool, wraps + 1);
    WholeTurns(pool - 1, pool, wraps + 1);
    DivUnique((wraps + 1) * TWO_32 - 1, TWO_32, wraps, TWO_32 - 1);
    var q := TWO_32 / pool;
    assert (wraps + 1) * (q + 1) == (wraps + 1) * q + (wraps + 1);
  }

  /** Two workers' packets among the n from the a-th on differ by at most one. */
  predicate FairOver(u: nat, v: nat, pool: nat, a: nat, n: nat)
    requires pool > 0
  {
    -1 <= Count(u, pool, a, n) - Count(v, pool, a, n) <= 1
  }

  /** Over all windows any two workers stay within one packet of each other if and only if the pool size
      divides 2^32. */
  lemma AlwaysFairIff(pool: nat)
    requires pool > 0
    ensures (forall u: nat, v: nat, a: nat, n: nat | u < pool && v < pool :: FairOver(u, v, pool, a, n))
            <==> TWO_32 % pool == 0
  {
    if TWO_32 % pool == 0 {
      forall u: nat, v: nat, a: nat, n: nat | u < pool && v < pool ensures FairOver(u, v, pool, a, n) {
        FairWhenDividing(u, v, pool, a, n);
      }
    } else {
      WrapBoundIsSharp(pool, 1);
      assert !FairOver(0, pool - 1, pool, 0, 2 * TWO_32);
    }
  }
}
