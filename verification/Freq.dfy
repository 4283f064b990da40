/** freq.c: frequency domains driven by one discrete-event clock. */
module Freq {
  import opened Ops

  /** Domain_Info */
  datatype Domain = Domain(cycles: nat, cycleTime: nat, until: nat)

  type Domains = seq<Domain>

  predicate Ready(d: Domain) { d.until == 0 }

  // ----- freq_advance_time

  /** Domains that are ready now wait a whole cycle. */
  function Waiting(d: Domain): Domain {
    if d.until == 0 then d.(until := d.cycleTime) else d
  }

  function WaitAll(ds: Domains): (out: Domains)
    ensures |out| == |ds| && forall i :: 0 <= i < |ds| ==> out[i] == Waiting(ds[i])
  {
    seq(|ds|, i requires 0 <= i < |ds| => Waiting(ds[i]))
  }

  function MinUntil(ds: Domains): nat
    requires ds != []
  {
    var last := ds[|ds| - 1].until;
    if |ds| == 1 || last < MinUntil(ds[..|ds| - 1]) then last else MinUntil(ds[..|ds| - 1])
  }

  lemma {:induction false} MinUntilIs(ds: Domains) returns (i: nat)
    requires ds != []
    ensures i < |ds| && MinUntil(ds) == ds[i].until
    ensures forall j :: 0 <= j < |ds| ==> MinUntil(ds) <= ds[j].until
  {
    i := |ds| - 1;
    if |ds| > 1 {
      var rest := ds[..|ds| - 1];
      var k := MinUntilIs(rest);
      assert forall j :: 0 <= j < |rest| ==> rest[j] == ds[j];
      if ds[i].until >= MinUntil(rest) {
        i := k;
      }
    }
  }

  function Elapse(d: Domain, delta: nat): Domain
    requires delta <= d.until
  {
    Domain(if d.until == delta then d.cycles + 1 else d.cycles, d.cycleTime, d.until - delta)
  }

  /** The time to the next moment at which some domain is ready. */
  function Delta(ds: Domains): nat
    requires ds != []
  {
    MinUntil(WaitAll(ds))
  }

  lemma DeltaIs(ds: Domains) returns (i: nat)
    requires ds != []
    ensures i < |ds| && Delta(ds) == Waiting(ds[i]).until
    ensures forall j :: 0 <= j < |ds| ==> Delta(ds) <= Waiting(ds[j]).until
  {
    i := MinUntilIs(WaitAll(ds));
    forall j | 0 <= j < |ds| ensures Delta(ds) <= Waiting(ds[j]).until {
      assert WaitAll(ds)[j] == Waiting(ds[j]);
    }
  }

  lemma DeltaIsLeast(ds: Domains)
    requires ds != []
    ensures forall j :: 0 <= j < |ds| ==> Delta(ds) <= Waiting(ds[j]).until
  {
    var i := DeltaIs(ds);
  }

  function Advance(ds: Domains): (out: Domains)
    requires ds != []
    ensures |out| == |ds|
  {
    DeltaIsLeast(ds);
    seq(|ds|, i requires 0 <= i < |ds| => Elapse(Waiting(ds[i]), Delta(ds)))
  }

  function Reset(ds: Domains): (out: Domains)
    ensures |out| == |ds| && forall i :: 0 <= i < |ds| ==> out[i] == Domain(0, ds[i].cycleTime, 0)
  {
    seq(|ds|, i requires 0 <= i < |ds| => Domain(0, ds[i].cycleTime, 0))
  }

  // ----- the closed form

  /** How long the current cycle of a domain has been running. */
  function Phase(d: Domain): int {
    if d.until == 0 then 0 else d.cycleTime - d.until
  }

  /** A domain, t after the last reset. */
  predicate InStep(d: Domain, t: nat) {
    d.until < d.cycleTime && t == d.cycles * d.cycleTime + Phase(d)
  }

  ghost predicate AllInStep(ds: Domains, t: nat) {
    forall i :: 0 <= i < |ds| ==> InStep(ds[i], t)
  }

  lemma Times(a: nat, b: nat, c: nat)
    requires a <= b
    ensures a * c <= b * c
  {
  }

  lemma SameQuotient(c: nat, q: nat, r: nat, p: nat, s: nat)
    requires r < c && s < c && q * c + r == p * c + s
    ensures q == p && r == s
  {
    assert (q + 1) * c == q * c + c && (p + 1) * c == p * c + c;
    if q < p {
      Times(q + 1, p, c);
    } else if p < q {
      Times(p + 1, q, c);
    }
  }

  lemma Quotient(c: nat, q: nat, r: nat)
    requires r < c
    ensures (q * c + r) / c == q && (q * c + r) % c == r
  {
    var x := q * c + r;
    assert x == x / c * c + x % c;
    SameQuotient(c, q, r, x / c, x % c);
  }

  /** In step means: the cycle count is the quotient of the time by the cycle time, and the time until the
      next cycle is what the remainder lacks. */
  lemma InStepIsQuotient(d: Domain, t: nat)
    requires d.cycleTime > 0
    ensures InStep(d, t) <==>
      && d.cycles == t / d.cycleTime
      && d.until == if t % d.cycleTime == 0 then 0 else d.cycleTime - t % d.cycleTime
  {
    var c := d.cycleTime;
    assert t == t / c * c + t % c;
    if InStep(d, t) {
      Quotient(c, d.cycles, Phase(d));
    }
  }

  /** Seen from time t, the next start of a cycle is t + Waiting(d).until, and none lies in between. */
  lemma NextStart(d: Domain, t: nat, x: nat)
    requires InStep(d, t) && t < x <= t + Waiting(d).until
    ensures x % d.cycleTime == 0 <==> x == t + Waiting(d).until
  {
    var c, q := d.cycleTime, d.cycles;
    if x == t + Waiting(d).until {
      assert x == (q + 1) * c + 0;
      Quotient(c, q + 1, 0);
    } else {
      assert x == q * c + (Phase(d) + (x - t));
      Quotient(c, q, Phase(d) + (x - t));
    }
  }

  lemma ElapseKeepsStep(d: Domain, t: nat, delta: nat)
    requires InStep(d, t) && 0 < delta <= Waiting(d).until
    ensures InStep(Elapse(Waiting(d), delta), t + delta)
  {
    assert (d.cycles + 1) * d.cycleTime == d.cycles * d.cycleTime + d.cycleTime;
  }

  /** Every advance keeps all domains in step with the time since the reset. */
  lemma AdvanceKeepsStep(ds: Domains, t: nat)
    requires ds != [] && AllInStep(ds, t)
    ensures AllInStep(Advance(ds), t + Delta(ds)) && Delta(ds) > 0
  {
    var i := DeltaIs(ds);
    assert InStep(ds[i], t);
    forall j | 0 <= j < |ds| ensures InStep(Advance(ds)[j], t + Delta(ds)) {
      assert InStep(ds[j], t);
      ElapseKeepsStep(ds[j], t, Delta(ds));
    }
  }

  lemma ResetStarts(ds: Domains)
    requires forall i :: 0 <= i < |ds| ==> ds[i].cycleTime > 0
    ensures AllInStep(Reset(ds), 0)
  {
  }

  /** Some domain is at the start of a cycle at time x. */
  ghost predicate EventTime(ds: Domains, x: nat) {
    exists i :: 0 <= i < |ds| && ds[i].cycleTime > 0 && x % ds[i].cycleTime == 0
  }

  /** An advance goes to the very next start of any domain's cycle: it stops at one and skips none. */
  lemma AdvanceToNextEvent(ds: Domains, t: nat)
    requires ds != [] && AllInStep(ds, t)
    ensures EventTime(ds, t + Delta(ds))
    ensures forall x :: t < x < t + Delta(ds) ==> !EventTime(ds, x)
  {
    AdvanceKeepsStep(ds, t);
    var i := DeltaIs(ds);
    assert InStep(ds[i], t);
    NextStart(ds[i], t, t + Delta(ds));
    forall x | t < x < t + Delta(ds) ensures !EventTime(ds, x) {
      forall j | 0 <= j < |ds| ensures x % ds[j].cycleTime != 0 {
        assert InStep(ds[j], t) && Delta(ds) <= Waiting(ds[j]).until;
        NextStart(ds[j], t, x);
      }
    }
  }

  // ----- runs

  function After(ds: Domains, n: nat): (out: Domains)
    requires ds != []
    ensures |out| == |ds|
    decreases n
  {
    if n == 0 then ds else After(Advance(ds), n - 1)
  }

  /** The time n advances take. */
  function Elapsed(ds: Domains, n: nat): nat
    requires ds != []
    decreases n
  {
    if n == 0 then 0 else Delta(ds) + Elapsed(Advance(ds), n - 1)
  }

  lemma {:induction false} RunKeepsStep(ds: Domains, t: nat, n: nat)
    requires ds != [] && AllInStep(ds, t)
    ensures AllInStep(After(ds, n), t + Elapsed(ds, n))
    decreases n
  {
    if n > 0 {
      AdvanceKeepsStep(ds, t);
      RunKeepsStep(Advance(ds), t + Delta(ds), n - 1);
    }
  }

  lemma {:induction false} SameCycleTimes(ds: Domains, n: nat)
    requires ds != []
    ensures forall i :: 0 <= i < |ds| ==> After(ds, n)[i].cycleTime == ds[i].cycleTime
    decreases n
  {
    if n > 0 {
      SameCycleTimes(Advance(ds), n - 1);
    }
  }

  /** Since the last reset, after any number of advances: cycle counts are the elapsed time divided by the
      cycle time, and a domain is ready exactly when its cycle time divides the elapsed time. */
  lemma ClosedForm(ds: Domains, n: nat, i: nat)
    requires ds != [] && i < |ds| && forall j :: 0 <= j < |ds| ==> ds[j].cycleTime > 0
    ensures var d, t := After(Reset(ds), n)[i], Elapsed(Reset(ds), n);
      && d.cycleTime == ds[i].cycleTime && d.cycles == t / ds[i].cycleTime
      && (Ready(d) <==> t % ds[i].cycleTime == 0)
  {
    ResetStarts(ds);
    RunKeepsStep(Reset(ds), 0, n);
    SameCycleTimes(Reset(ds), n);
    InStepIsQuotient(After(Reset(ds), n)[i], Elapsed(Reset(ds), n));
  }

  lemma {:induction false} MultipleVisited(ds: Domains, t: nat, n: nat, i: nat, x: nat) returns (j: nat)
    requires ds != [] && AllInStep(ds, t) && i < |ds| && ds[i].cycleTime > 0
    requires x % ds[i].cycleTime == 0 && t <= x <= t + Elapsed(ds, n)
    ensures j <= n && t + Elapsed(ds, j) == x
    decreases n
  {
    j := 0;
    if x != t {
      AdvanceKeepsStep(ds, t);
      AdvanceToNextEvent(ds, t);
      assert EventTime(ds, x);
      j := MultipleVisited(Advance(ds), t + Delta(ds), n - 1, i, x);
      j := j + 1;
    }
  }

  /** No start of a cycle is ever missed: each multiple of each cycle time up to now was stopped at. */
  lemma EveryMultipleVisited(ds: Domains, n: nat, i: nat, x: nat) returns (j: nat)
    requires ds != [] && i < |ds| && forall j :: 0 <= j < |ds| ==> ds[j].cycleTime > 0
    requires x % ds[i].cycleTime == 0 && x <= Elapsed(Reset(ds), n)
    ensures j <= n && Elapsed(Reset(ds), j) == x
  {
    ResetStarts(ds);
    j := MultipleVisited(Reset(ds), 0, n, i, x);
  }

  // ----- conversions

  function FutureTime(now: nat, d: Domain, cycles: nat): nat
    requires d.cycles <= cycles
  {
    now + (cycles - d.cycles) * d.cycleTime
  }

  /** What freq_future_time returns is late by the time the domain is into its cycle; it is the start of the
      given cycle if and only if the domain is ready now. */
  lemma FutureTimeError(start: nat, t: nat, d: Domain, cycles: nat)
    requires InStep(d, t) && d.cycles <= cycles
    ensures FutureTime(start + t, d, cycles) == start + cycles * d.cycleTime + t % d.cycleTime
    ensures FutureTime(start + t, d, cycles) == start + cycles * d.cycleTime <==> Ready(d)
  {
    InStepIsQuotient(d, t);
    assert (cycles - d.cycles) * d.cycleTime == cycles * d.cycleTime - d.cycles * d.cycleTime;
  }

  function Convert(src: Domain, cycles: nat, dst: Domain): nat
    requires dst.cycleTime > 0
  {
    cycles * src.cycleTime / dst.cycleTime
  }

  /** The dst cycle in which the given src cycle starts, both counted from a common start. */
  lemma ConvertIsCurrentCycle(src: Domain, cycles: nat, dst: Domain, k: nat)
    requires dst.cycleTime > 0
    ensures k == Convert(src, cycles, dst) <==> k * dst.cycleTime <= cycles * src.cycleTime < (k + 1) * dst.cycleTime
  {
    var x, c := cycles * src.cycleTime, dst.cycleTime;
    assert x == x / c * c + x % c;
    assert (x / c + 1) * c == x / c * c + c && (k + 1) * c == k * c + c;
    if k * c <= x < (k + 1) * c {
      SameQuotient(c, k, x - k * c, x / c, x % c);
    }
  }

  /** freq_convert_future_cycle, with the arithmetic of the code. */
  function ConvertFutureCycle(now: nat, src: Domain, cycles: nat, dst: Domain): nat
    requires src.cycles <= cycles && dst.cycleTime > 0 && (src.until > 0 ==> src.cycleTime <= now + src.until)
  {
    var remainingSrc := cycles - src.cycles;
    var lastSrc := now + src.until - (if src.until == 0 then 0 else src.cycleTime);
    var future := lastSrc + remainingSrc * src.cycleTime;
    var soon := dst.cycles + (if dst.until == 0 then 0 else 1);
    if future <= now + dst.until then soon
    else soon + ((future - now - dst.until - 1) / dst.cycleTime + 1)
  }

  /** k is the first cycle, of length c, that starts at x or later. */
  predicate FirstAtOrAfter(k: nat, c: nat, x: nat) {
    k * c >= x && (k == 0 || (k - 1) * c < x)
  }

  /** The start of the current src cycle, and of the given one. */
  lemma SrcStart(start: nat, t: nat, src: Domain, cycles: nat)
    requires InStep(src, t) && src.cycles <= cycles
    ensures src.until > 0 ==> src.cycleTime <= t + src.until
    ensures
      start + t + src.until - (if src.until == 0 then 0 else src.cycleTime) + (cycles - src.cycles) * src.cycleTime
      == start + cycles * src.cycleTime
  {
    assert (cycles - src.cycles) * src.cycleTime == cycles * src.cycleTime - src.cycles * src.cycleTime;
  }

  /** The next or current dst start: cycle `soon` begins at t + until. */
  lemma DstStart(t: nat, dst: Domain)
    requires InStep(dst, t)
    ensures var soon := dst.cycles + (if dst.until == 0 then 0 else 1);
      soon * dst.cycleTime == t + dst.until && FirstAtOrAfter(soon, dst.cycleTime, t)
  {
    var c, q := dst.cycleTime, dst.cycles;
    assert (q + 1) * c == q * c + c && (q > 0 ==> (q - 1) * c == q * c - c);
  }

  lemma RoundUp(rem: nat, c: nat)
    requires rem > 0 && c > 0
    ensures ((rem - 1) / c + 1) * c >= rem && (rem - 1) / c * c < rem
  {
    var y := rem - 1;
    assert y == y / c * c + y % c;
    assert (y / c + 1) * c == y / c * c + c;
  }

  /** The converted cycle is the least dst cycle that starts at or after both the present and the start of
      the given src cycle. */
  lemma ConvertFutureIsLeast(start: nat, t: nat, src: Domain, cycles: nat, dst: Domain)
    requires InStep(src, t) && InStep(dst, t) && src.cycles <= cycles
    ensures src.until > 0 ==> src.cycleTime <= start + t + src.until
    ensures FirstAtOrAfter(ConvertFutureCycle(start + t, src, cycles, dst), dst.cycleTime,
      Max(t, cycles * src.cycleTime))
  {
    var future := cycles * src.cycleTime;
    var soon := dst.cycles + (if dst.until == 0 then 0 else 1);
    SrcStart(start, t, src, cycles);
    DstStart(t, dst);
    if future > t + dst.until {
      LaterCycle(soon, dst.cycleTime, t + dst.until, future);
    }
  }

  lemma LaterCycle(soon: nat, c: nat, at: nat, future: nat)
    requires c > 0 && soon * c == at < future
    ensures FirstAtOrAfter(soon + ((future - at - 1) / c + 1), c, future)
  {
    var y := (future - at - 1) / c;
    RoundUp(future - at, c);
    assert (soon + (y + 1)) * c == soon * c + (y + 1) * c && (soon + y) * c == soon * c + y * c;
  }

  lemma LeastIsUnique(a: nat, b: nat, c: nat, x: nat)
    requires c > 0 && FirstAtOrAfter(a, c, x) && FirstAtOrAfter(b, c, x)
    ensures a == b
  {
    if a < b {
      Times(a, b - 1, c);
    } else if b < a {
      Times(b, a - 1, c);
    }
  }

  /** The header promises the earliest dst cycle at or after the start of the src cycle, whether or not it
      has begun already. The code returns that one if and only if no dst cycle starts between that moment
      and the present. */
  lemma EarliestIffNoneMissed(start: nat, t: nat, src: Domain, cycles: nat, dst: Domain, earliest: nat)
    requires InStep(src, t) && InStep(dst, t) && src.cycles <= cycles
    requires FirstAtOrAfter(earliest, dst.cycleTime, cycles * src.cycleTime)
    ensures src.until > 0 ==> src.cycleTime <= start + t + src.until
    ensures ConvertFutureCycle(start + t, src, cycles, dst) == earliest
      <==> !exists k: nat :: cycles * src.cycleTime <= k * dst.cycleTime < t
  {
    var c, future := dst.cycleTime, cycles * src.cycleTime;
    ConvertFutureIsLeast(start, t, src, cycles, dst);
    var k := ConvertFutureCycle(start + t, src, cycles, dst);
    if k != earliest {
      if t <= earliest * c {
        assert FirstAtOrAfter(earliest, c, Max(t, future));
        LeastIsUnique(k, earliest, c, Max(t, future));
      }
      assert future <= earliest * c < t;
    }
    if j: nat :| future <= j * c < t {
      if earliest > j {
        Times(j, earliest - 1, c);
      }
      Times(earliest, j, c);
      assert earliest * c < t;
    }
  }

  /** A dst cycle that is missed: with cycle times 4 and 2, after one advance, src cycle 0 started together
      with dst cycle 0, but the answer is dst cycle 1. */
  lemma EarliestMissed()
    ensures var ds := After(Reset([Domain(9, 4, 3), Domain(7, 2, 1)]), 1);
      && ds == [Domain(0, 4, 2), Domain(1, 2, 0)] && Elapsed(Reset([Domain(9, 4, 3), Domain(7, 2, 1)]), 1) == 2
      && FirstAtOrAfter(0, ds[1].cycleTime, 0 * ds[0].cycleTime) && ConvertFutureCycle(2, ds[0], 0, ds[1]) == 1
  {
    var ds := Reset([Domain(9, 4, 3), Domain(7, 2, 1)]);
    assert ds == [Domain(0, 4, 0), Domain(0, 2, 0)];
    var i := DeltaIs(ds);
    assert Delta(ds) == 2;
    assert Advance(ds) == [Domain(0, 4, 2), Domain(1, 2, 0)];
    assert After(ds, 1) == After(Advance(ds), 0);
  }

  // ----- the code

  class FreqDomains {
    var curTime: nat
    const domains: array<Domain>
    ghost var resetTime: nat        // cur_time at the last reset

    ghost predicate Valid()
      reads this, domains
    {
      domains.Length > 0 && resetTime <= curTime && AllInStep(domains[..], curTime - resetTime)
    }

    /** freq_init: every domain's first cycle can start at time zero. */
    constructor (cycleTimes: seq<nat>)
      requires cycleTimes != [] && forall i :: 0 <= i < |cycleTimes| ==> cycleTimes[i] > 0
      ensures Valid() && curTime == 0 && fresh(domains) && domains.Length == |cycleTimes|
      ensures forall i :: 0 <= i < |cycleTimes| ==> domains[i] == Domain(0, cycleTimes[i], 0)
    {
      curTime, resetTime := 0, 0;
      domains := new Domain[|cycleTimes|](i requires 0 <= i < |cycleTimes| => Domain(0, cycleTimes[i], 0));
    }

    /** freq_advance_time: three passes over the domains. */
    method AdvanceTime()
      requires Valid()
      modifies this`curTime, domains
      ensures Valid() && domains[..] == Advance(old(domains[..]))
      ensures curTime == old(curTime) + Delta(old(domains[..]))
    {
      AdvanceKeepsStep(domains[..], curTime - resetTime);
      DeltaIsLeast(domains[..]);
      MakeWait();
      var delta := FindMin();
      curTime := curTime + delta;
      PassTime(delta);
      assert domains[..] == Advance(old(domains[..]));
    }

    method MakeWait()
      modifies domains
      ensures domains[..] == WaitAll(old(domains[..]))
    {
      var i := 0;
      while i < domains.Length
        invariant 0 <= i <= domains.Length
        invariant forall j :: 0 <= j < domains.Length ==>
          domains[j] == if j < i then Waiting(old(domains[j])) else old(domains[j])
      {
        if domains[i].until == 0 {
          domains[i] := domains[i].(until := domains[i].cycleTime);
        }
        i := i + 1;
      }
    }

    method FindMin() returns (min: nat)
      requires domains.Length > 0
      ensures min == MinUntil(domains[..])
    {
      min := domains[0].until;
      var i := 1;
      assert domains[..1][0] == domains[0];
      while i < domains.Length
        invariant 1 <= i <= domains.Length && min == MinUntil(domains[..i])
      {
        assert domains[..i + 1][..i] == domains[..i];
        if domains[i].until < min {
          min := domains[i].until;
        }
        i := i + 1;
      }
      assert domains[..i] == domains[..];
    }

    method PassTime(delta: nat)
      requires forall i :: 0 <= i < domains.Length ==> delta <= domains[i].until
      modifies domains
      ensures forall i :: 0 <= i < domains.Length ==> domains[i] == Elapse(old(domains[i]), delta)
    {
      var i := 0;
      while i < domains.Length
        invariant 0 <= i <= domains.Length
        invariant forall j :: 0 <= j < domains.Length ==>
          domains[j] == if j < i then Elapse(old(domains[j]), delta) else old(domains[j])
      {
        domains[i] := domains[i].(until := domains[i].until - delta);
        if domains[i].until == 0 {
          domains[i] := domains[i].(cycles := domains[i].cycles + 1);
        }
        i := i + 1;
      }
    }

    /** freq_reset_cycle_counts: the cycle counts start over, the time goes on. */
    method ResetCycleCounts()
      requires Valid()
      modifies this`resetTime, domains
      ensures Valid() && resetTime == curTime && domains[..] == Reset(old(domains[..]))
    {
      var i := 0;
      while i < domains.Length
        invariant 0 <= i <= domains.Length
        invariant forall j :: 0 <= j < domains.Length ==>
          domains[j] == if j < i then Domain(0, old(domains[j]).cycleTime, 0) else old(domains[j])
      {
        domains[i] := Domain(0, domains[i].cycleTime, 0);
        i := i + 1;
      }
      resetTime := curTime;
      assert forall j :: 0 <= j < domains.Length ==> InStep(old(domains[..])[j], old(curTime - resetTime));
      ResetStarts(old(domains[..]));
    }

    /** freq_is_ready: the cycle time divides the time since the last reset. */
    predicate IsReady(id: nat): (ready: bool)
      requires Valid() && id < domains.Length
      reads this, domains
      ensures domains[id].cycleTime > 0 && (ready <==> (curTime - resetTime) % domains[id].cycleTime == 0)
    {
      assert InStep(domains[..][id], curTime - resetTime);
      InStepIsQuotient(domains[id], curTime - resetTime);
      domains[id].until == 0
    }

    /** freq_convert_future_cycle: the least dst cycle that starts neither in the past nor before the given
        src cycle. */
    function FutureCycle(src: nat, cycles: nat, dst: nat): (k: nat)
      requires src < domains.Length && dst < domains.Length && Valid() && domains[src].cycles <= cycles
      reads this, domains
      ensures FirstAtOrAfter(k, domains[dst].cycleTime, Max(curTime - resetTime, cycles * domains[src].cycleTime))
    {
      assert InStep(domains[..][src], curTime - resetTime) && InStep(domains[..][dst], curTime - resetTime);
      ConvertFutureIsLeast(resetTime, curTime - resetTime, domains[src], cycles, domains[dst]);
      ConvertFutureCycle(curTime, domains[src], cycles, domains[dst])
    }
  }
}
