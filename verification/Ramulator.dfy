/** ramulator.cc: requests to the DRAM simulator, reads of one address coalesced into one DRAM read. */
module Ramulator {
  import opened Ops

  datatype ReqType = Ifetch | Dfetch | Dstore | Iprf | Dprf | Wb | WbNoDirty | MinPriority

  /** Mem_Req; id is a serial number, so that a slot of the request buffer used again is another request. */
  datatype Req = Req(id: nat, kind: ReqType, addr: nat)

  predicate IsRead(t: ReqType) { t.Ifetch? || t.Dfetch? || t.Dstore? || t.Iprf? || t.Dprf? }

  predicate IsInstr(t: ReqType) { t.Ifetch? || t.Iprf? }

  predicate IsData(t: ReqType) { t.Dfetch? || t.Dprf? || t.Dstore? }

  predicate SameClass(a: ReqType, b: ReqType) { (IsInstr(a) && IsInstr(b)) || (IsData(a) && IsData(b)) }

  datatype Mem = Mem(
    inflight: map<nat, seq<Req>>,     // inflight_read_reqs
    resp: seq<Req>,                   // resp_queue; the address paired with a request is its own
    dram: seq<nat>,                   // history: DRAM reads sent and not yet answered
    accepted: seq<Req>,               // history: reads accepted, in order
    answered: seq<Req>,               // history: reads answered by the DRAM, in the order they were queued
    completed: seq<Req>)              // history: reads completed, in order

  function Waiting(m: Mem, addr: nat): seq<Req> {
    if addr in m.inflight then m.inflight[addr] else []
  }

  /** ramulator_send of a read; room says whether the DRAM simulator takes a new request. */
  function SendRead(m: Mem, r: Req, room: bool): Mem {
    if r.addr in m.inflight then
      m.(inflight := m.inflight[r.addr := m.inflight[r.addr] + [r]], accepted := m.accepted + [r])
    else if room then
      m.(inflight := m.inflight[r.addr := [r]], dram := m.dram + [r.addr], accepted := m.accepted + [r])
    else m
  }

  /** The answer of ramulator_send. */
  predicate Accepts(m: Mem, r: Req, room: bool) {
    room || (IsRead(r.kind) && r.addr in m.inflight)
  }

  function Drop(addrs: seq<nat>, addr: nat): seq<nat> {
    if addrs == [] then [] else if addrs[0] == addr then addrs[1..] else [addrs[0]] + Drop(addrs[1..], addr)
  }

  /** enqueue_response: every request waiting for the address goes to the response queue. */
  function Respond(m: Mem, addr: nat): Mem
    requires addr in m.inflight
  {
    m.(inflight := m.inflight - {addr}, resp := m.resp + m.inflight[addr], dram := Drop(m.dram, addr),
       answered := m.answered + m.inflight[addr])
  }

  /** The end of ramulator_tick: the head of the response queue completes if the fill queue has space. */
  function Tick(m: Mem, space: bool): Mem {
    if m.resp != [] && space then m.(resp := m.resp[1..], completed := m.completed + [m.resp[0]]) else m
  }

  function SearchIn(rs: seq<Req>, addr: nat, t: ReqType): Option<Req> {
    if rs == [] then None
    else if rs[0].addr == addr && SameClass(rs[0].kind, t) then Some(rs[0])
    else SearchIn(rs[1..], addr, t)
  }

  /** ramulator_search_queue: the requests in flight, then the response queue. */
  function Search(m: Mem, addr: nat, t: ReqType): Option<Req> {
    if SearchIn(Waiting(m, addr), addr, t).Some? then SearchIn(Waiting(m, addr), addr, t) else SearchIn(m.resp, addr, t)
  }

  // ----- the invariant

  ghost predicate Distinct(rs: seq<Req>) {
    forall i, j :: 0 <= i < j < |rs| ==> rs[i] != rs[j]
  }

  /** At most one DRAM read is outstanding for an address, and one is exactly while requests wait for it. */
  ghost predicate OneReadEach(m: Mem) {
    && (forall i, j :: 0 <= i < j < |m.dram| ==> m.dram[i] != m.dram[j])
    && (forall a :: a in m.dram <==> a in m.inflight)
  }

  ghost predicate Lists(m: Mem) {
    forall a :: a in m.inflight ==>
      && m.inflight[a] != [] && Distinct(m.inflight[a])
      && forall r :: r in m.inflight[a] ==> r.addr == a && IsRead(r.kind)
  }

  /** Every accepted read is in one of three places, once: waiting for its address, in the response queue,
      or completed; and nothing else is anywhere. */
  ghost predicate Placed(m: Mem) {
    && Distinct(m.answered) && m.answered == m.completed + m.resp
    && (forall r :: r in m.answered ==> r !in Waiting(m, r.addr) && IsRead(r.kind))
    && (forall r :: r in m.accepted <==> r in m.answered || r in Waiting(m, r.addr))
  }

  ghost predicate Inv(m: Mem) {
    OneReadEach(m) && Lists(m) && Placed(m)
  }

  lemma DistinctSnoc(rs: seq<Req>, r: Req)
    requires Distinct(rs) && r !in rs
    ensures Distinct(rs + [r])
  {
  }

  lemma SendKeepsReads(m: Mem, r: Req, room: bool)
    requires OneReadEach(m)
    ensures OneReadEach(SendRead(m, r, room))
  {
  }

  lemma SendKeepsPlaces(m: Mem, r: Req, room: bool)
    requires Lists(m) && Placed(m) && r !in m.accepted && IsRead(r.kind)
    ensures Lists(SendRead(m, r, room)) && Placed(SendRead(m, r, room))
  {
    if r.addr in m.inflight {
      DistinctSnoc(m.inflight[r.addr], r);
    }
  }

  /** A read that is accepted is new; one that is refused leaves everything as it was. */
  lemma SendKeepsInv(m: Mem, r: Req, room: bool)
    requires Inv(m) && r !in m.accepted && IsRead(r.kind)
    ensures Inv(SendRead(m, r, room))
    ensures SendRead(m, r, room).accepted == if Accepts(m, r, room) then m.accepted + [r] else m.accepted
    ensures !Accepts(m, r, room) ==> SendRead(m, r, room) == m
  {
    SendKeepsReads(m, r, room);
    SendKeepsPlaces(m, r, room);
  }

  lemma {:induction false} DropOne(addrs: seq<nat>, addr: nat)
    requires forall i, j :: 0 <= i < j < |addrs| ==> addrs[i] != addrs[j]
    ensures forall a :: a in Drop(addrs, addr) <==> a in addrs && a != addr
    ensures forall i, j :: 0 <= i < j < |Drop(addrs, addr)| ==> Drop(addrs, addr)[i] != Drop(addrs, addr)[j]
  {
    if addrs != [] {
      DropOne(addrs[1..], addr);
      assert addrs == [addrs[0]] + addrs[1..];
      if addrs[0] != addr {
        var rest := Drop(addrs[1..], addr);
        forall i | 0 <= i < |rest| ensures rest[i] != addrs[0] {
          assert rest[i] in addrs[1..];
        }
      }
    }
  }

  lemma DistinctConcat(a: seq<Req>, b: seq<Req>)
    requires Distinct(a) && Distinct(b) && forall r :: r in a ==> r !in b
    ensures Distinct(a + b)
  {
    forall i, j | 0 <= i < j < |a + b| ensures (a + b)[i] != (a + b)[j] {
      if i < |a| <= j {
        assert a[i] in a && b[j - |a|] in b;
      }
    }
  }

  lemma RespondKeepsPlaces(m: Mem, addr: nat)
    requires Lists(m) && Placed(m) && addr in m.inflight
    ensures Placed(Respond(m, addr))
  {
    var n, moved := Respond(m, addr), m.inflight[addr];
    forall r | r in m.answered ensures r !in moved {
      assert r in moved ==> r.addr == addr;
    }
    DistinctConcat(m.answered, moved);
    assert m.completed + m.resp + moved == m.completed + (m.resp + moved);
    forall r ensures r in n.answered || r in Waiting(n, r.addr) <==> r in m.answered || r in Waiting(m, r.addr) {
      assert r in moved ==> r.addr == addr;
    }
  }

  /** The callback finds requests for its address, as its assertion says, and answers all of them at once. */
  lemma RespondKeepsInv(m: Mem, addr: nat)
    requires Inv(m) && addr in m.dram
    ensures addr in m.inflight && Inv(Respond(m, addr))
  {
    DropOne(m.dram, addr);
    RespondKeepsPlaces(m, addr);
  }

  lemma TickKeepsInv(m: Mem, space: bool)
    requires Inv(m)
    ensures Inv(Tick(m, space))
  {
    if m.resp != [] {
      assert m.completed + m.resp == m.completed + [m.resp[0]] + m.resp[1..];
    }
  }

  // ----- runs

  datatype Event = Send(r: Req, room: bool) | Answer(addr: nat) | TickEnd(space: bool)

  /** A request is sent until it is accepted, then never again; the DRAM answers what it was asked. */
  predicate Enabled(m: Mem, e: Event) {
    match e
    case Send(r, _) => IsRead(r.kind) ==> r !in m.accepted
    case Answer(addr) => addr in m.dram
    case TickEnd(_) => true
  }

  function Step(m: Mem, e: Event): Mem
    requires e.Answer? ==> e.addr in m.inflight
  {
    match e
    case Send(r, room) => if IsRead(r.kind) then SendRead(m, r, room) else m
    case Answer(addr) => Respond(m, addr)
    case TickEnd(space) => Tick(m, space)
  }

  lemma StepKeepsInv(m: Mem, e: Event)
    requires Inv(m) && Enabled(m, e)
    ensures (e.Answer? ==> e.addr in m.inflight) && Inv(Step(m, e))
  {
    match e
    case Send(r, room) => if IsRead(r.kind) { SendKeepsInv(m, r, room); }
    case Answer(addr) => RespondKeepsInv(m, addr);
    case TickEnd(space) => TickKeepsInv(m, space);
  }

  const EmptyMem := Mem(map[], [], [], [], [], [])

  ghost predicate Reaches(m: Mem, es: seq<Event>, end: Mem)
    requires Inv(m)
    decreases |es|
  {
    if es == [] then m == end
    else Enabled(m, es[0]) && (StepKeepsInv(m, es[0]); Reaches(Step(m, es[0]), es[1..], end))
  }

  lemma {:induction false} RunKeepsInv(m: Mem, es: seq<Event>, end: Mem)
    requires Inv(m) && Reaches(m, es, end)
    ensures Inv(end)
    decreases |es|
  {
    if es != [] {
      StepKeepsInv(m, es[0]);
      RunKeepsInv(Step(m, es[0]), es[1..], end);
    }
  }

  lemma EmptyInv()
    ensures Inv(EmptyMem)
  {
  }

  ghost predicate Reachable(es: seq<Event>, m: Mem) {
    EmptyInv();
    Reaches(EmptyMem, es, m)
  }

  lemma ConcatDisjoint(a: seq<Req>, b: seq<Req>)
    requires Distinct(a + b)
    ensures Distinct(a) && Distinct(b) && forall i, j :: 0 <= i < |a| && 0 <= j < |b| ==> a[i] != b[j]
  {
    assert forall i :: 0 <= i < |a| ==> (a + b)[i] == a[i];
    assert forall j :: 0 <= j < |b| ==> (a + b)[|a| + j] == b[j];
  }

  /** Exactly once: over every run an accepted read is waiting, queued or completed, in one place only and
      there only once; at most one DRAM read per address is outstanding. */
  lemma AcceptedReadsAreKept(es: seq<Event>, m: Mem, r: Req)
    requires Reachable(es, m)
    ensures r in m.accepted <==> r in Waiting(m, r.addr) || r in m.resp || r in m.completed
    ensures !(r in Waiting(m, r.addr) && r in m.resp) && !(r in Waiting(m, r.addr) && r in m.completed)
    ensures !(r in m.resp && r in m.completed)
    ensures Distinct(m.resp) && Distinct(m.completed) && Distinct(Waiting(m, r.addr))
    ensures OneReadEach(m)
  {
    RunKeepsInv(EmptyMem, es, m);
    ConcatDisjoint(m.completed, m.resp);
  }

  /** Responses leave in the order in which the DRAM answered. */
  lemma ResponsesAreFifo(es: seq<Event>, m: Mem)
    requires Reachable(es, m)
    ensures m.completed <= m.answered && m.answered == m.completed + m.resp
  {
    RunKeepsInv(EmptyMem, es, m);
  }

  /** An accepted read waits for its address, behind those that do already; only if there is none is a DRAM read
      sent. */
  ghost predicate Joined(m: Mem, n: Mem, r: Req) {
    && Waiting(n, r.addr) == Waiting(m, r.addr) + [r]
    && (forall a :: a != r.addr ==> (a in n.inflight <==> a in m.inflight) && Waiting(n, a) == Waiting(m, a))
    && n.dram == (if r.addr in m.inflight then m.dram else m.dram + [r.addr])
    && n.accepted == m.accepted + [r] && n.resp == m.resp && n.answered == m.answered && n.completed == m.completed
  }

  /** After the answer for an address no request waits for it, and all that did are in the response queue, in
      their order and behind those that were there. */
  lemma AnswerServesAll(es: seq<Event>, m: Mem, addr: nat)
    requires Reachable(es, m) && Enabled(m, Answer(addr))
    ensures addr in m.inflight
    ensures var n := Step(m, Answer(addr));
      && Waiting(n, addr) == [] && addr !in n.dram && n.resp == m.resp + Waiting(m, addr)
      && forall r :: r in m.accepted && r !in m.completed && r.addr == addr ==> r in n.resp
  {
    RunKeepsInv(EmptyMem, es, m);
    DropOne(m.dram, addr);
    forall r | r in m.accepted && r !in m.completed && r.addr == addr ensures r in Step(m, Answer(addr)).resp {
      assert r in m.completed + m.resp || r in Waiting(m, addr);
    }
  }

  /** What the ends of the ticks hand to the fill queue, in order. */
  ghost function HandedOut(m: Mem, es: seq<Event>): seq<Req>
    requires Inv(m) && EnabledRun(m, es)
    decreases |es|
  {
    if es == [] then []
    else
      StepKeepsInv(m, es[0]);
      (if es[0].TickEnd? && es[0].space && m.resp != [] then [m.resp[0]] else []) + HandedOut(Step(m, es[0]), es[1..])
  }

  ghost predicate EnabledRun(m: Mem, es: seq<Event>)
    requires Inv(m)
    decreases |es|
  {
    es != [] ==> Enabled(m, es[0]) && (StepKeepsInv(m, es[0]); EnabledRun(Step(m, es[0]), es[1..]))
  }

  lemma {:induction false} HandedOutCompletes(m: Mem, es: seq<Event>, end: Mem)
    requires Inv(m) && Reaches(m, es, end)
    ensures EnabledRun(m, es) && end.completed == m.completed + HandedOut(m, es)
    decreases |es|
  {
    if es != [] {
      StepKeepsInv(m, es[0]);
      HandedOutCompletes(Step(m, es[0]), es[1..], end);
    }
  }

  /** Over every run, what the ticks hand out is what counts as completed, in that order: no read comes twice,
      each was accepted and answered before, and none that was handed out is still queued. */
  lemma HandedOutOnce(es: seq<Event>, m: Mem)
    requires Reachable(es, m)
    ensures Inv(EmptyMem) && EnabledRun(EmptyMem, es) && HandedOut(EmptyMem, es) == m.completed
    ensures Distinct(HandedOut(EmptyMem, es)) && HandedOut(EmptyMem, es) <= m.answered
    ensures forall r :: r in HandedOut(EmptyMem, es) ==> r in m.accepted && r !in m.resp && r !in Waiting(m, r.addr)
  {
    EmptyInv();
    RunKeepsInv(EmptyMem, es, m);
    HandedOutCompletes(EmptyMem, es, m);
    ConcatDisjoint(m.completed, m.resp);
    forall r | r in m.completed ensures r in m.accepted && r !in m.resp && r !in Waiting(m, r.addr) {
      AcceptedReadsAreKept(es, m, r);
    }
  }

  // ----- searching

  lemma {:induction false} SearchInFinds(rs: seq<Req>, addr: nat, t: ReqType)
    ensures SearchIn(rs, addr, t).Some? <==> exists r :: r in rs && r.addr == addr && SameClass(r.kind, t)
    ensures SearchIn(rs, addr, t).Some? ==>
      var r := SearchIn(rs, addr, t).value; r in rs && r.addr == addr && SameClass(r.kind, t)
  {
    if rs != [] {
      SearchInFinds(rs[1..], addr, t);
      assert rs == [rs[0]] + rs[1..];
    }
  }

  /** found is the first request of that class and address, if there is one. */
  ghost predicate FirstMatch(rs: seq<Req>, addr: nat, t: ReqType, found: Option<Req>) {
    if found.Some? then
      exists i: nat :: i < |rs| && rs[i] == found.value && rs[i].addr == addr && SameClass(rs[i].kind, t)
        && forall j: nat :: j < i ==> !(rs[j].addr == addr && SameClass(rs[j].kind, t))
    else forall j: nat :: j < |rs| ==> !(rs[j].addr == addr && SameClass(rs[j].kind, t))
  }

  lemma {:induction false} SearchInFirst(rs: seq<Req>, addr: nat, t: ReqType)
    ensures FirstMatch(rs, addr, t, SearchIn(rs, addr, t))
  {
    if rs != [] {
      var rest := rs[1..];
      SearchInFirst(rest, addr, t);
      assert forall j: nat :: j < |rest| ==> rest[j] == rs[j + 1];
      if rs[0].addr == addr && SameClass(rs[0].kind, t) {
      } else if SearchIn(rs, addr, t).Some? {
        var i: nat :| i < |rest| && rest[i] == SearchIn(rs, addr, t).value && rest[i].addr == addr
          && SameClass(rest[i].kind, t)
          && forall j: nat :: j < i ==> !(rest[j].addr == addr && SameClass(rest[j].kind, t));
        assert rs[i + 1] == rest[i];
        forall j: nat | j < i + 1 ensures !(rs[j].addr == addr && SameClass(rs[j].kind, t)) {
          assert j > 0 ==> rs[j] == rest[j - 1];
        }
      } else {
        forall j: nat | j < |rs| ensures !(rs[j].addr == addr && SameClass(rs[j].kind, t)) {
          assert j > 0 ==> rs[j] == rest[j - 1];
        }
      }
    }
  }

  ghost predicate Uncompleted(m: Mem, r: Req) {
    r in m.accepted && r !in m.completed
  }

  lemma UncompletedPlaces(es: seq<Event>, m: Mem, r: Req)
    requires Reachable(es, m)
    ensures Uncompleted(m, r) <==> r in Waiting(m, r.addr) || r in m.resp
  {
    AcceptedReadsAreKept(es, m, r);
  }

  lemma SearchFinds(m: Mem, addr: nat, t: ReqType)
    ensures Search(m, addr, t).Some? <==>
      exists r :: (r in Waiting(m, addr) || r in m.resp) && r.addr == addr && SameClass(r.kind, t)
    ensures Search(m, addr, t).Some? ==> var r := Search(m, addr, t).value;
      (r in Waiting(m, addr) || r in m.resp) && r.addr == addr && SameClass(r.kind, t)
  {
    SearchInFinds(Waiting(m, addr), addr, t);
    SearchInFinds(m.resp, addr, t);
  }

  /** The search finds a request exactly when an accepted read of that class and address is uncompleted, and
      what it returns is one. */
  lemma SearchIffUncompleted(es: seq<Event>, m: Mem, addr: nat, t: ReqType)
    requires Reachable(es, m)
    ensures Search(m, addr, t).Some? <==> exists r :: Uncompleted(m, r) && r.addr == addr && SameClass(r.kind, t)
    ensures Search(m, addr, t).Some? ==>
      var r := Search(m, addr, t).value; Uncompleted(m, r) && r.addr == addr && SameClass(r.kind, t)
  {
    SearchFinds(m, addr, t);
    if Search(m, addr, t).Some? {
      UncompletedPlaces(es, m, Search(m, addr, t).value);
    }
    if r :| Uncompleted(m, r) && r.addr == addr && SameClass(r.kind, t) {
      UncompletedPlaces(es, m, r);
    }
  }

  // ----- the protocol of the caller: search before sending

  /** No two uncompleted reads of one class and address. */
  ghost predicate OnePerClass(m: Mem) {
    forall r, q :: Uncompleted(m, r) && Uncompleted(m, q) && r.addr == q.addr && SameClass(r.kind, q.kind) ==> r == q
  }

  ghost predicate Polite(m: Mem, e: Event) {
    e.Send? && IsRead(e.r.kind) ==> !exists q :: Uncompleted(m, q) && q.addr == e.r.addr && SameClass(q.kind, e.r.kind)
  }

  lemma SymmetricClass(a: ReqType, b: ReqType)
    ensures SameClass(a, b) == SameClass(b, a)
  {
  }

  lemma PoliteSendKeepsOne(m: Mem, r: Req, room: bool)
    requires Inv(m) && OnePerClass(m) && IsRead(r.kind) && r !in m.accepted && Polite(m, Send(r, room))
    ensures OnePerClass(SendRead(m, r, room))
  {
    var n := SendRead(m, r, room);
    forall x, q | Uncompleted(n, x) && Uncompleted(n, q) && x.addr == q.addr && SameClass(x.kind, q.kind)
      ensures x == q {
      SymmetricClass(x.kind, q.kind);
      assert x != r ==> Uncompleted(m, x);
      assert q != r ==> Uncompleted(m, q);
    }
  }

  lemma StepKeepsOne(m: Mem, e: Event)
    requires Inv(m) && OnePerClass(m) && Enabled(m, e) && Polite(m, e)
    ensures (e.Answer? ==> e.addr in m.inflight) && OnePerClass(Step(m, e))
  {
    StepKeepsInv(m, e);
    if e.Send? && IsRead(e.r.kind) {
      PoliteSendKeepsOne(m, e.r, e.room);
    } else {
      forall r ensures Uncompleted(Step(m, e), r) ==> Uncompleted(m, r) {
      }
    }
  }

  ghost predicate PoliteRun(m: Mem, es: seq<Event>)
    requires Inv(m)
    decreases |es|
  {
    if es == [] then true
    else Enabled(m, es[0]) && Polite(m, es[0]) && (StepKeepsInv(m, es[0]); PoliteRun(Step(m, es[0]), es[1..]))
  }

  lemma {:induction false} PoliteRunKeepsOne(m: Mem, es: seq<Event>, end: Mem)
    requires Inv(m) && OnePerClass(m) && Reaches(m, es, end) && PoliteRun(m, es)
    ensures Inv(end) && OnePerClass(end)
    decreases |es|
  {
    if es != [] {
      StepKeepsInv(m, es[0]);
      StepKeepsOne(m, es[0]);
      PoliteRunKeepsOne(Step(m, es[0]), es[1..], end);
    }
  }

  /** Over every run of a caller that searches before it sends, the assertion of ramulator_send holds. */
  lemma SendAssertionHolds(es: seq<Event>, m: Mem, r: Req, room: bool)
    requires Reachable(es, m) && (EmptyInv(); PoliteRun(EmptyMem, es)) && IsRead(r.kind) && Polite(m, Send(r, room))
    ensures |Waiting(m, r.addr)| <= 1
  {
    EmptyInv();
    PoliteRunKeepsOne(EmptyMem, es, m);
    AtMostOneWaits(m, r, room);
  }

  /** The assertion of ramulator_send: a caller that searches first never finds more than one request, the one
      of the other class, waiting for the address it sends. */
  lemma AtMostOneWaits(m: Mem, r: Req, room: bool)
    requires Inv(m) && OnePerClass(m) && IsRead(r.kind) && Polite(m, Send(r, room))
    ensures |Waiting(m, r.addr)| <= 1
  {
    var ws := Waiting(m, r.addr);
    forall x | x in ws ensures Uncompleted(m, x) && x.addr == r.addr && IsRead(x.kind) && !SameClass(x.kind, r.kind) {
      assert x in m.completed ==> x in m.answered;
    }
    forall i, j | 0 <= i < |ws| && 0 <= j < |ws| ensures ws[i] == ws[j] {
      assert ws[i] in ws && ws[j] in ws;
      assert SameClass(ws[i].kind, ws[j].kind);
    }
    AllTheSame(ws);
  }

  lemma AllTheSame(rs: seq<Req>)
    requires Distinct(rs) && forall i, j :: 0 <= i < |rs| && 0 <= j < |rs| ==> rs[i] == rs[j]
    ensures |rs| <= 1
  {
    if |rs| > 1 {
      FirstTwoDiffer(rs);
    }
  }

  lemma FirstTwoDiffer(rs: seq<Req>)
    requires Distinct(rs) && |rs| > 1
    ensures rs[0] != rs[1]
  {
  }

  // ----- the code

  class RamulatorQueues {
    var inflight: map<nat, seq<Req>>    // inflight_read_reqs
    var resp: seq<Req>                  // resp_queue
    ghost var dram: seq<nat>
    ghost var accepted: seq<Req>
    ghost var answered: seq<Req>
    ghost var completed: seq<Req>

    ghost function View(): Mem
      reads this
    {
      Mem(inflight, resp, dram, accepted, answered, completed)
    }

    constructor ()
      ensures View() == EmptyMem
    {
      inflight, resp, dram, accepted, answered, completed := map[], [], [], [], [], [];
    }

    /** ramulator_send; room is the DRAM simulator's answer when it is asked. */
    method Send(r: Req, room: bool) returns (sent: bool)
      requires IsRead(r.kind) || r.kind.Wb?
      modifies this
      ensures sent == Accepts(old(View()), r, room)
      ensures View() == if IsRead(r.kind) then SendRead(old(View()), r, room) else old(View())
      ensures sent <==> room || (IsRead(r.kind) && r.addr in old(inflight))
      ensures !sent || !IsRead(r.kind) ==> View() == old(View())
      ensures sent && IsRead(r.kind) ==> Joined(old(View()), View(), r)
    {
      if r.addr in inflight && IsRead(r.kind) {
        inflight := inflight[r.addr := inflight[r.addr] + [r]];
        accepted := accepted + [r];
        return true;
      }
      sent := room;
      if sent && IsRead(r.kind) {
        inflight := inflight[r.addr := [r]];
        dram, accepted := dram + [r.addr], accepted + [r];
      }
    }

    /** enqueue_response */
    method EnqueueResponse(addr: nat)
      requires addr in inflight
      modifies this
      ensures View() == Respond(old(View()), addr)
      ensures addr !in inflight && resp == old(resp) + old(inflight)[addr]
      ensures forall a :: a != addr ==> Waiting(View(), a) == Waiting(old(View()), a)
      ensures answered == old(answered) + old(inflight)[addr] && completed == old(completed)
    {
      var waiting, i := inflight[addr], 0;
      while i < |waiting|
        invariant 0 <= i <= |waiting| && resp == old(resp) + waiting[..i]
        modifies this`resp
      {
        resp := resp + [waiting[i]];
        assert waiting[..i + 1] == waiting[..i] + [waiting[i]];
        i := i + 1;
      }
      assert waiting[..i] == waiting;
      inflight := inflight - {addr};
      dram, answered := Drop(dram, addr), answered + waiting;
    }

    /** The end of ramulator_tick, with try_completing_request. */
    method TickEnd(fillCount: nat, fillEntries: nat) returns (done: Option<Req>)
      modifies this
      ensures View() == Tick(old(View()), fillCount < fillEntries)
      ensures done.Some? <==> old(resp) != [] && fillCount < fillEntries
      ensures done.Some? ==> old(resp) == [done.value] + resp && completed == old(completed) + [done.value]
      ensures done.None? ==> resp == old(resp) && completed == old(completed)
      ensures inflight == old(inflight) && answered == old(answered) && accepted == old(accepted)
    {
      done := None;
      if |resp| > 0 {
        if fillCount < fillEntries {
          done := Some(resp[0]);
          completed := completed + [resp[0]];
          resp := resp[1..];
        }
      }
    }

    /** ramulator_search_queue */
    method SearchQueue(addr: nat, t: ReqType) returns (found: Option<Req>)
      ensures found == Search(View(), addr, t)
      ensures FirstMatch(Waiting(View(), addr), addr, t, found)
        || (FirstMatch(Waiting(View(), addr), addr, t, None) && FirstMatch(resp, addr, t, found))
    {
      SearchInFirst(Waiting(View(), addr), addr, t);
      SearchInFirst(resp, addr, t);
      if addr in inflight {
        assert inflight[addr] == Waiting(View(), addr);
        found := FindFirst(inflight[addr], addr, t);
        if found.Some? {
          return;
        }
      }
      found := FindFirst(resp, addr, t);
    }

    /** Either of its loops. */
    method FindFirst(rs: seq<Req>, addr: nat, t: ReqType) returns (found: Option<Req>)
      ensures found == SearchIn(rs, addr, t)
    {
      var i := 0;
      while i < |rs|
        invariant 0 <= i <= |rs| && SearchIn(rs, addr, t) == SearchIn(rs[i..], addr, t)
      {
        assert rs[i..][1..] == rs[i + 1..];
        var k := rs[i].kind;
        if rs[i].addr == addr {
          if (k.Ifetch? || k.Iprf?) && (t.Ifetch? || t.Iprf?) {
            return Some(rs[i]);
          } else if (k.Dfetch? || k.Dprf? || k.Dstore?) && (t.Dfetch? || t.Dprf? || t.Dstore?) {
            return Some(rs[i]);
          }
        }
        i := i + 1;
      }
      found := None;
    }
  }
}
