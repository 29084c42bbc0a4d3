/** `Urings` of src/lib.rs: calls from any number of threads share atomic counters
    and pick a ring by the ticket they draw. */
module RoundRobin {

  /** The counters are u64 and `fetch_add` wraps around. */
  const WORD: nat := 0x1_0000_0000_0000_0000

  datatype Call = Iopoll | NonIopoll

  datatype Ring = IoRing(idx: nat) | NonIoRing(idx: nat)

  datatype Counters = Counters(seqno: nat, nseqno: nat) {
    ghost predicate Valid() { seqno < WORD && nseqno < WORD }
  }

  class Urings {
    const iopolls: nat
    const nonIopolls: nat
    var seqno: nat
    var nseqno: nat

    constructor (iopolls: nat, nonIopolls: nat)
      requires nonIopolls > 0
      ensures this.iopolls == iopolls && this.nonIopolls == nonIopolls && Now() == Counters(0, 0)
    {
      this.iopolls, this.nonIopolls := iopolls, nonIopolls;
      seqno, nseqno := 0, 0;
    }

    ghost function Now(): Counters
      reads this
    {
      Counters(seqno, nseqno)
    }

    method PickNonIopoll() returns (r: Ring)
      requires nonIopolls > 0 && Now().Valid()
      modifies this`nseqno
      ensures (Now(), r) == Step(iopolls, nonIopolls, old(Now()), NonIopoll)
      ensures r.NonIoRing? && r.idx < nonIopolls
    {
      var ticket := nseqno;
      nseqno := (nseqno + 1) % WORD;
      r := NonIoRing(ticket % nonIopolls);
    }

    method PickIopoll() returns (r: Ring)
      requires nonIopolls > 0 && Now().Valid()
      modifies this`seqno, this`nseqno
      ensures (Now(), r) == Step(iopolls, nonIopolls, old(Now()), Iopoll)
      ensures if iopolls == 0 then r.NonIoRing? && r.idx < nonIopolls else r.IoRing? && r.idx < iopolls
    {
      if iopolls == 0 {
        r := PickNonIopoll();
        return;
      }
      var ticket := seqno;
      seqno := (seqno + 1) % WORD;
      r := IoRing(ticket % iopolls);
    }
  }

  /** One atomic call, whichever thread makes it. */
  function Step(iopolls: nat, nonIopolls: nat, c: Counters, call: Call): (Counters, Ring)
    requires nonIopolls > 0
  {
    if call == Iopoll && iopolls > 0 then
      (c.(seqno := (c.seqno + 1) % WORD), IoRing(c.seqno % iopolls))
    else
      (c.(nseqno := (c.nseqno + 1) % WORD), NonIoRing(c.nseqno % nonIopolls))
  }

  /** The rings handed out over an interleaving of calls. */
  function Run(iopolls: nat, nonIopolls: nat, c: Counters, calls: seq<Call>): (rings: seq<Ring>)
    requires nonIopolls > 0
    ensures |rings| == |calls|
    decreases |calls|
  {
    if calls == [] then []
    else
      var (c', r) := Step(iopolls, nonIopolls, c, calls[0]);
      [r] + Run(iopolls, nonIopolls, c', calls[1..])
  }

  function Count(rings: seq<Ring>, r: Ring): nat {
    if rings == [] then 0 else (if rings[0] == r then 1 else 0) + Count(rings[1..], r)
  }

  /** The tickets an interleaving draws from the counter behind a kind of ring. */
  function Tickets(iopolls: nat, calls: seq<Call>, io: bool): nat {
    if calls == [] then 0
    else (if (calls[0] == Iopoll && iopolls > 0) == io then 1 else 0) + Tickets(iopolls, calls[1..], io)
  }

  /** How many of the `n` tickets from `c` on fall on ring `r` of `m`. */
  function Uses(c: nat, n: nat, m: nat, r: nat): nat
    requires m > 0
  {
    if n == 0 then 0 else Uses(c, n - 1, m, r) + Hit((c + n - 1) % WORD, m, r)
  }

  function Hit(ticket: nat, m: nat, r: nat): nat
    requires m > 0
  {
    if ticket % m == r then 1 else 0
  }

  lemma Lap(c: nat, k: nat)
    requires c < WORD
    ensures ((c + 1) % WORD + k) % WORD == (c + 1 + k) % WORD
  {
    if c + 1 == WORD {
      assert c + 1 + k == WORD + k;
    }
  }

  lemma {:induction false} UsesFromFront(c: nat, n: nat, m: nat, r: nat)
    requires m > 0 && n > 0 && c < WORD
    ensures Uses(c, n, m, r) == Hit(c, m, r) + Uses((c + 1) % WORD, n - 1, m, r)
  {
    hide Hit;
    if n == 1 {
      assert Uses(c, 0, m, r) == 0 == Uses((c + 1) % WORD, 0, m, r);
      assert (c + 1 - 1) % WORD == c;
    } else {
      UsesFromFront(c, n - 1, m, r);
      Lap(c, n - 2);
    }
  }

  /** However the calls of the threads interleave, a ring's use count depends only on where
      its counter started and how many tickets were drawn from it. */
  lemma {:induction false} RunCountsTickets(iopolls: nat, nonIopolls: nat, c: Counters, calls: seq<Call>, r: nat)
    requires nonIopolls > 0 && c.Valid()
    ensures Count(Run(iopolls, nonIopolls, c, calls), NonIoRing(r))
            == Uses(c.nseqno, Tickets(iopolls, calls, false), nonIopolls, r)
    ensures iopolls > 0 ==> Count(Run(iopolls, nonIopolls, c, calls), IoRing(r))
                            == Uses(c.seqno, Tickets(iopolls, calls, true), iopolls, r)
    decreases |calls|
  {
    if calls != [] {
      var (c', ring) := Step(iopolls, nonIopolls, c, calls[0]);
      RunCountsTickets(iopolls, nonIopolls, c', calls[1..], r);
      var rest := Run(iopolls, nonIopolls, c', calls[1..]);
      assert Run(iopolls, nonIopolls, c, calls)[1..] == rest;
      if calls[0] == Iopoll && iopolls > 0 {
        UsesFromFront(c.seqno, Tickets(iopolls, calls, true), iopolls, r);
      } else {
        UsesFromFront(c.nseqno, Tickets(iopolls, calls, false), nonIopolls, r);
      }
    }
  }

  // ---------- fairness ----------

  /** How many of the numbers below `x` leave remainder `r`. */
  function Below(x: nat, m: nat, r: nat): nat
    requires m > 0
  {
    if x == 0 then 0 else Below(x - 1, m, r) + Hit(x - 1, m, r)
  }

  lemma NextRemainder(x: nat, m: nat)
    requires m > 0
    ensures (x + 1) % m == if x % m == m - 1 then 0 else x % m + 1
  {
    var q, p := x / m, x % m;
    assert x == q * m + p;
    if p == m - 1 {
      assert x + 1 == (q + 1) * m;
      Remainder(x + 1, m, q + 1, 0);
    } else {
      Remainder(x + 1, m, q, p + 1);
    }
  }

  lemma Remainder(x: nat, m: nat, q: nat, p: nat)
    requires p < m && x == q * m + p
    ensures x % m == p
  {
    var d := x / m - q;
    assert d * m == p - x % m;
    Multiples(d, m);
  }

  lemma Multiples(d: int, m: int)
    requires m > 0
    ensures d >= 1 ==> d * m >= m
    ensures d <= -1 ==> d * m <= -m
  {
  }

  /** From the remainder `p` of one number to the remainder `q` of the next. */
  lemma StepDifference(p: nat, q: nat, m: nat, r: nat, r': nat)
    requires r < r' < m && p < m && q == if p == m - 1 then 0 else p + 1
    ensures (if r < q <= r' then 1 else 0)
            == (if r < p <= r' then 1 else 0) + (if p == r then 1 else 0) - (if p == r' then 1 else 0)
  {
  }

  /** Two remainders are hit equally often, give or take the one the count has just passed. */
  lemma {:induction false} BelowDifference(x: nat, m: nat, r: nat, r': nat)
    requires r < r' < m
    ensures Below(x, m, r) - Below(x, m, r') == if r < x % m <= r' then 1 else 0
  {
    if x > 0 {
      BelowDifference(x - 1, m, r, r');
      NextRemainder(x - 1, m);
      var p, q := (x - 1) % m, x % m;
      StepDifference(p, q, m, r, r');
    }
  }

  /** A window of tickets within one lap of the counter. */
  lemma {:induction false} UsesWithinLap(c: nat, n: nat, m: nat, r: nat)
    requires m > 0 && c + n <= WORD
    ensures Uses(c, n, m, r) == Below(c + n, m, r) - Below(c, m, r)
  {
    hide Hit;
    if n > 0 {
      UsesWithinLap(c, n - 1, m, r);
      assert (c + n - 1) % WORD == c + n - 1;
    }
  }

  /** A window that wraps around: up to the end of the lap, then on from zero. */
  lemma {:induction false} UsesSplit(c: nat, n: nat, m: nat, r: nat)
    requires m > 0 && c < WORD && c + n >= WORD
    ensures Uses(c, n, m, r) == Uses(c, WORD - c, m, r) + Uses(0, c + n - WORD, m, r)
    decreases n
  {
    hide Hit;
    if c + n > WORD {
      UsesSplit(c, n - 1, m, r);
      AnotherLap(c + n - 1);
    }
  }

  lemma AnotherLap(x: nat)
    requires x >= WORD
    ensures x % WORD == (x - WORD) % WORD
  {
  }

  lemma Smaller(x: nat, m: nat)
    requires m > 0 && WORD % m == 0
    ensures x % WORD % m == x % m
  {
    var q, k := x / WORD, WORD / m;
    assert WORD == k * m;
    assert x == q * WORD + x % WORD;
    Factors(q, k, m);
    var y := x % WORD;
    assert y == y / m * m + y % m;
    Distributes(q * k, y / m, m);
    Remainder(x, m, q * k + y / m, y % m);
  }

  lemma Factors(q: nat, k: nat, m: nat)
    ensures q * (k * m) == q * k * m
  {
  }

  lemma Distributes(a: nat, b: nat, m: nat)
    ensures (a + b) * m == a * m + b * m
  {
  }

  /** When the number of rings divides the size of the counter, wrapping around goes unnoticed. */
  lemma {:induction false} UsesIfDivides(c: nat, n: nat, m: nat, r: nat)
    requires m > 0 && WORD % m == 0
    ensures Uses(c, n, m, r) == Below(c + n, m, r) - Below(c, m, r)
  {
    if n > 0 {
      UsesIfDivides(c, n - 1, m, r);
      Smaller(c + n - 1, m);
    }
  }

  /** Over any window within one lap of the counter, use counts differ by at most 1. */
  lemma FairWithoutWraparound(c: nat, n: nat, m: nat, r: nat, r': nat)
    requires r < m && r' < m && c + n <= WORD
    ensures -1 <= Uses(c, n, m, r) - Uses(c, n, m, r') <= 1
  {
    if r != r' {
      var lo, hi := if r < r' then r else r', if r < r' then r' else r;
      UsesWithinLap(c, n, m, r);
      UsesWithinLap(c, n, m, r');
      BelowDifference(c + n, m, lo, hi);
      BelowDifference(c, m, lo, hi);
    }
  }

  /** Over any window that wraps around at most `w` times, by at most `w + 1`. */
  lemma {:induction false} FairAcrossWraparounds(c: nat, n: nat, w: nat, m: nat, r: nat, r': nat)
    requires r < m && r' < m && c < WORD && c + n <= (w + 1) * WORD
    ensures -(w + 1) <= Uses(c, n, m, r) - Uses(c, n, m, r') <= w + 1
    decreases w
  {
    hide Uses;
    if c + n <= WORD {
      FairWithoutWraparound(c, n, m, r, r');
    } else {
      UsesSplit(c, n, m, r);
      UsesSplit(c, n, m, r');
      FairWithoutWraparound(c, WORD - c, m, r, r');
      FairAcrossWraparounds(0, c + n - WORD, w - 1, m, r, r');
    }
  }

  /** Over any window at all, by at most 1, when the number of rings divides the size of the counter. */
  lemma FairIfDivides(c: nat, n: nat, m: nat, r: nat, r': nat)
    requires r < m && r' < m && WORD % m == 0
    ensures -1 <= Uses(c, n, m, r) - Uses(c, n, m, r') <= 1
  {
    if r != r' {
      var lo, hi := if r < r' then r else r', if r < r' then r' else r;
      UsesIfDivides(c, n, m, r);
      UsesIfDivides(c, n, m, r');
      BelowDifference(c + n, m, lo, hi);
      BelowDifference(c, m, lo, hi);
    }
  }

  /** In every window of every length, whatever ticket it starts at. */
  ghost predicate AlwaysWithinOne(m: nat)
    requires m > 0
  {
    forall c: nat, n: nat, r: nat, r': nat | r < m && r' < m && c < WORD ::
      Uses(c, n, m, r) - Uses(c, n, m, r') <= 1
  }

  /** The tighter bound survives wraparounds exactly when the ring count divides 2^64. */
  lemma WithinOneIffDivides(m: nat)
    requires m > 0
    ensures AlwaysWithinOne(m) <==> 0x1_0000_0000_0000_0000 % m == 0
  {
    hide Uses;
    if WORD % m == 0 {
      forall c: nat, n: nat, r: nat, r': nat | r < m && r' < m && c < WORD
        ensures Uses(c, n, m, r) - Uses(c, n, m, r') <= 1
      {
        FairIfDivides(c, n, m, r, r');
      }
    } else {
      var c, n := UnfairWindow(m);
      assert Uses(c, n, m, 0) - Uses(c, n, m, m - 1) == 2;
    }
  }

  /** A window around the wraparound that uses the first ring twice more than the last. */
  lemma UnfairWindow(m: nat) returns (c: nat, n: nat)
    requires m > 0 && WORD % m != 0
    ensures c < WORD && c + n <= 2 * WORD
    ensures Uses(c, n, m, 0) - Uses(c, n, m, m - 1) == 2
  {
    hide Uses;
    var q := WORD % m;
    c, n := WORD - q, 2 * q;
    assert WORD == WORD / m * m + q;
    Remainder(c, m, WORD / m, 0);
    Remainder(q, m, 0, q);
    UsesSplit(c, n, m, 0);
    UsesSplit(c, n, m, m - 1);
    UsesWithinLap(c, q, m, 0);
    UsesWithinLap(c, q, m, m - 1);
    UsesWithinLap(0, q, m, 0);
    UsesWithinLap(0, q, m, m - 1);
    BelowDifference(WORD, m, 0, m - 1);
    BelowDifference(c, m, 0, m - 1);
    BelowDifference(q, m, 0, m - 1);
  }

  /** The bounds for two rings of a kind with `m` of them, when `n` calls have been made and their
      counter started at `c`: with at most `w` wraparounds, and whenever `m` divides 2^64. */
  predicate Fair(d: int, c: nat, n: nat, w: nat, m: nat)
    requires m > 0
  {
    && (c + n <= (w + 1) * WORD ==> -(w + 1) <= d <= w + 1)
    && (WORD % m == 0 ==> -1 <= d <= 1)
  }

  lemma UsesAreFair(c: nat, k: nat, n: nat, w: nat, m: nat, r: nat, r': nat)
    requires r < m && r' < m && c < WORD && k <= n
    ensures Fair(Uses(c, k, m, r) - Uses(c, k, m, r'), c, n, w, m)
  {
    hide Uses;
    if c + n <= (w + 1) * WORD {
      FairAcrossWraparounds(c, k, w, m, r, r');
    }
    if WORD % m == 0 {
      FairIfDivides(c, k, m, r, r');
    }
  }

  /** The same for the rings actually handed out over any interleaving of any number of calls. */
  lemma InterleavingsAreFair(iopolls: nat, nonIopolls: nat, c: Counters, calls: seq<Call>, w: nat, r: nat, r': nat)
    requires nonIopolls > 0 && c.Valid()
    ensures var rings := Run(iopolls, nonIopolls, c, calls);
            && (r < nonIopolls && r' < nonIopolls ==>
                  Fair(Count(rings, NonIoRing(r)) - Count(rings, NonIoRing(r')), c.nseqno, |calls|, w, nonIopolls))
            && (r < iopolls && r' < iopolls ==>
                  Fair(Count(rings, IoRing(r)) - Count(rings, IoRing(r')), c.seqno, |calls|, w, iopolls))
  {
    hide Uses, Count, Fair, Run, Tickets;
    RunCountsTickets(iopolls, nonIopolls, c, calls, r);
    RunCountsTickets(iopolls, nonIopolls, c, calls, r');
    TicketsBounded(iopolls, calls, true);
    TicketsBounded(iopolls, calls, false);
    if r < nonIopolls && r' < nonIopolls {
      UsesAreFair(c.nseqno, Tickets(iopolls, calls, false), |calls|, w, nonIopolls, r, r');
    }
    if r < iopolls && r' < iopolls {
      UsesAreFair(c.seqno, Tickets(iopolls, calls, true), |calls|, w, iopolls, r, r');
    }
  }

  lemma {:induction false} TicketsBounded(iopolls: nat, calls: seq<Call>, io: bool)
    ensures Tickets(iopolls, calls, io) <= |calls|
  {
    if calls != [] {
      TicketsBounded(iopolls, calls[1..], io);
    }
  }
}
