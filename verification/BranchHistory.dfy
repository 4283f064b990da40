/** bp.c: the global branch history, checkpointed at every prediction and restored at a recovery. */
module BranchHistory {
  import opened Ops

  const HIST_BITS: nat := 32      // global_hist is one uns32

  /** The bits of the history word, from the top: the newest direction comes first. */
  type Hist = h: seq<bool> | |h| == HIST_BITS witness seq(HIST_BITS, i => false)

  function Shift(h: Hist, taken: bool): Hist {
    [taken] + h[..HIST_BITS - 1]
  }

  // ----- the word

  /** (hist >> 1) | (dir << 31) */
  function WordShift(w: bv32, dir: bool): bv32 {
    (w >> 1) | ((if dir then 1 else 0) << 31)
  }

  /** Bit i from the top. */
  function Bit(w: bv32, i: nat): bool
    requires i < HIST_BITS
  {
    (w << (i as bv6)) & 0x8000_0000 != 0
  }

  function Bits(w: bv32): Hist {
    seq(HIST_BITS, i requires 0 <= i < HIST_BITS => Bit(w, i))
  }

  lemma LowerBit(w: bv32, dir: bool, s: bv6)
    requires s < 31
    ensures (WordShift(w, dir) << (s + 1)) & 0x8000_0000 == (w << s) & 0x8000_0000
  {
  }

  lemma NextPosition(i: nat)
    requires i < 31
    ensures (i + 1) as bv6 == i as bv6 + 1
  {
  }

  lemma SmallPosition(i: nat)
    requires i < 31
    ensures i as bv6 < 31
  {
  }

  /** On the word: the new direction becomes the top bit, the others move down by one, the lowest is lost. */
  lemma WordShiftIsShift(w: bv32, dir: bool)
    ensures Bits(WordShift(w, dir)) == Shift(Bits(w), dir)
  {
    forall i | 0 <= i < HIST_BITS ensures Bits(WordShift(w, dir))[i] == Shift(Bits(w), dir)[i] {
      if i > 0 {
        NextPosition(i - 1);
        SmallPosition(i - 1);
        LowerBit(w, dir, (i - 1) as bv6);
      }
    }
  }

  // ----- predicted branches and the history

  /** A branch that was predicted: its predicted and its resolved direction (new_dir of the recovery info),
      whether the predicted next address is the right one, the history before it (pred_global_hist), and
      whether its recovery has been carried out. */
  datatype Branch = Branch(num: nat, cbr: bool, pred: bool, newDir: bool, rightAddress: bool, checkpoint: Hist,
                           recovered: bool)

  datatype State = State(hist: Hist, branches: seq<Branch>)

  /** The direction that counts for a branch. */
  function Dir(b: Branch): bool { if b.recovered then b.newDir else b.pred }

  /** A wrong direction that happens to lead to the right address is not a misprediction. */
  predicate Mispredicted(pred: bool, dir: bool, rightAddress: bool) { pred != dir && !rightAddress }

  predicate Misfetched(pred: bool, dir: bool, rightAddress: bool) {
    !Mispredicted(pred, dir, rightAddress) && !rightAddress
  }

  /** The exec stage schedules a recovery for the branch. */
  predicate Recoverable(b: Branch) {
    Mispredicted(b.pred, b.newDir, b.rightAddress) || Misfetched(b.pred, b.newDir, b.rightAddress)
  }

  /** The conditional directions shifted in, in program order. */
  function Fold(h0: Hist, bs: seq<Branch>): Hist {
    if bs == [] then h0
    else
      var h, b := Fold(h0, bs[..|bs| - 1]), bs[|bs| - 1];
      if b.cbr then Shift(h, Dir(b)) else h
  }

  /** bp_predict_op */
  function Predict(s: State, num: nat, cbr: bool, pred: bool, newDir: bool, rightAddress: bool): State {
    State(if cbr then Shift(s.hist, pred) else s.hist,
          s.branches + [Branch(num, cbr, pred, newDir, rightAddress, s.hist, false)])
  }

  /** The branch at position k is the recovering one: bp_recover_op restores the history from its checkpoint,
      and the branches behind it are gone. */
  function RecoverAt(s: State, k: nat): State
    requires k < |s.branches|
  {
    var b := s.branches[k];
    State(if b.cbr then Shift(b.checkpoint, b.newDir) else b.checkpoint, s.branches[..k] + [b.(recovered := true)])
  }

  /** Every checkpoint is the history of the branches before it; only recoverable branches recover. */
  ghost predicate Inv(h0: Hist, s: State) {
    && s.hist == Fold(h0, s.branches)
    && (forall k :: 0 <= k < |s.branches| ==> s.branches[k].checkpoint == Fold(h0, s.branches[..k]))
    && forall k :: 0 <= k < |s.branches| && s.branches[k].recovered ==> Recoverable(s.branches[k])
  }

  lemma PredictKeepsInv(h0: Hist, s: State, num: nat, cbr: bool, pred: bool, newDir: bool, rightAddress: bool)
    requires Inv(h0, s)
    ensures Inv(h0, Predict(s, num, cbr, pred, newDir, rightAddress))
  {
    var t := Predict(s, num, cbr, pred, newDir, rightAddress);
    forall k | 0 <= k < |t.branches| ensures t.branches[k].checkpoint == Fold(h0, t.branches[..k]) {
      assert t.branches[..k] == s.branches[..k];
      assert k == |s.branches| ==> s.branches[..k] == s.branches;
    }
    assert t.branches[..|s.branches|] == s.branches;
  }

  lemma FoldSnoc(h0: Hist, bs: seq<Branch>, b: Branch)
    ensures Fold(h0, bs + [b]) == if b.cbr then Shift(Fold(h0, bs), Dir(b)) else Fold(h0, bs)
  {
    assert (bs + [b])[..|bs|] == bs;
  }

  lemma RecoverKeepsInv(h0: Hist, s: State, k: nat)
    requires Inv(h0, s) && k < |s.branches| && Recoverable(s.branches[k])
    ensures Inv(h0, RecoverAt(s, k))
  {
    var bs, b := s.branches[..k], s.branches[k].(recovered := true);
    FoldSnoc(h0, bs, b);
    forall j | 0 <= j < |bs + [b]| ensures (bs + [b])[j].checkpoint == Fold(h0, (bs + [b])[..j]) {
      assert (bs + [b])[..j] == s.branches[..j];
    }
  }

  // ----- runs

  datatype Event =
    | Predicted(num: nat, cbr: bool, pred: bool, newDir: bool, rightAddress: bool)
    | Recovered(k: nat)

  /** A branch recovers once, and only if its next address was wrong. */
  predicate Enabled(s: State, e: Event) {
    e.Recovered? ==> e.k < |s.branches| && Recoverable(s.branches[e.k]) && !s.branches[e.k].recovered
  }

  function Step(s: State, e: Event): State
    requires Enabled(s, e)
  {
    match e
    case Predicted(num, cbr, pred, newDir, rightAddress) => Predict(s, num, cbr, pred, newDir, rightAddress)
    case Recovered(k) => RecoverAt(s, k)
  }

  ghost predicate Reaches(s: State, es: seq<Event>, end: State)
    decreases |es|
  {
    if es == [] then s == end else Enabled(s, es[0]) && Reaches(Step(s, es[0]), es[1..], end)
  }

  lemma {:induction false} RunKeepsInv(h0: Hist, s: State, es: seq<Event>, end: State)
    requires Inv(h0, s) && Reaches(s, es, end)
    ensures Inv(h0, end)
    decreases |es|
  {
    if es != [] {
      match es[0] {
        case Predicted(num, cbr, pred, newDir, rightAddress) =>
          PredictKeepsInv(h0, s, num, cbr, pred, newDir, rightAddress);
        case Recovered(k) => RecoverKeepsInv(h0, s, k);
      }
      RunKeepsInv(h0, Step(s, es[0]), es[1..], end);
    }
  }

  ghost predicate Reachable(h0: Hist, es: seq<Event>, s: State) {
    Reaches(State(h0, []), es, s)
  }

  /** After a recovery the history is that of the surviving branches in program order, the recovering one
      with its resolved direction: nothing predicted behind it has left a trace, whatever was predicted and
      however recoveries nested before. */
  lemma RecoveryRestoresHistory(h0: Hist, es: seq<Event>, s: State, k: nat)
    requires Reachable(h0, es, s) && Enabled(s, Recovered(k))
    ensures var t, before := RecoverAt(s, k), Fold(h0, s.branches[..k]);
      && t.hist == Fold(h0, t.branches) && t.branches[..k] == s.branches[..k]
      && t.hist == if s.branches[k].cbr then Shift(before, s.branches[k].newDir) else before
  {
    RunKeepsInv(h0, State(h0, []), es, s);
    RecoverKeepsInv(h0, s, k);
  }

  /** An outer recovery makes an inner one it flushes unhappen. */
  lemma NestedRecovery(s: State, inner: nat, outer: nat)
    requires outer < inner < |s.branches|
    ensures RecoverAt(RecoverAt(s, inner), outer) == RecoverAt(s, outer)
  {
    var t := RecoverAt(s, inner);
    assert t.branches[..outer] == s.branches[..outer] && t.branches[outer] == s.branches[outer];
  }

  // ----- the true history

  /** The branches as if all had counted with their resolved direction. */
  function Resolved(bs: seq<Branch>): (rs: seq<Branch>)
    ensures |rs| == |bs| && forall i :: 0 <= i < |bs| ==> rs[i] == bs[i].(recovered := true)
  {
    seq(|bs|, i requires 0 <= i < |bs| => bs[i].(recovered := true))
  }

  function TrueHistory(h0: Hist, s: State): Hist { Fold(h0, Resolved(s.branches)) }

  /** The conditional branches, newest first. */
  function Cbrs(bs: seq<Branch>): seq<Branch> {
    if bs == [] then []
    else
      var rest, b := Cbrs(bs[..|bs| - 1]), bs[|bs| - 1];
      if b.cbr then [b] + rest else rest
  }

  function Directions(cbrs: seq<Branch>): (ds: seq<bool>)
    ensures |ds| == |cbrs| && forall i :: 0 <= i < |ds| ==> ds[i] == Dir(cbrs[i])
  {
    seq(|cbrs|, i requires 0 <= i < |cbrs| => Dir(cbrs[i]))
  }

  lemma ShiftIntoNewest(ds: seq<bool>, h0: Hist, d: bool)
    ensures Shift((ds + h0)[..HIST_BITS], d) == ([d] + ds + h0)[..HIST_BITS]
  {
  }

  /** What the history holds: the directions of the 32 newest conditional branches, in order, and below them
      what is left of the history before the first. */
  lemma {:induction false} HistoryHoldsNewest(h0: Hist, bs: seq<Branch>)
    ensures Fold(h0, bs) == (Directions(Cbrs(bs)) + h0)[..HIST_BITS]
  {
    if bs == [] {
    } else {
      var rest, b := bs[..|bs| - 1], bs[|bs| - 1];
      HistoryHoldsNewest(h0, rest);
      if b.cbr {
        assert Directions(Cbrs(bs)) == [Dir(b)] + Directions(Cbrs(rest));
        ShiftIntoNewest(Directions(Cbrs(rest)), h0, Dir(b));
      }
    }
  }

  lemma {:induction false} ResolvedCbrs(bs: seq<Branch>)
    ensures Cbrs(Resolved(bs)) == Resolved(Cbrs(bs))
  {
    if bs == [] {
    } else {
      ResolvedCbrs(bs[..|bs| - 1]);
      assert Resolved(bs)[..|bs| - 1] == Resolved(bs[..|bs| - 1]);
    }
  }

  /** Each of the 32 newest conditional branches counts with its resolved direction; older ones have been
      shifted out. */
  ghost predicate NewestResolved(bs: seq<Branch>) {
    forall i :: 0 <= i < |Cbrs(bs)| && i < HIST_BITS ==> Dir(Cbrs(bs)[i]) == Cbrs(bs)[i].newDir
  }

  lemma TrueIffNewestResolved(h0: Hist, s: State)
    requires Inv(h0, s)
    ensures s.hist == TrueHistory(h0, s) <==> NewestResolved(s.branches)
  {
    var cs := Cbrs(s.branches);
    var ds, rs := Directions(cs), Directions(Resolved(cs));
    HistoryHoldsNewest(h0, s.branches);
    HistoryHoldsNewest(h0, Resolved(s.branches));
    ResolvedCbrs(s.branches);
    if s.hist == TrueHistory(h0, s) {
      forall i | 0 <= i < |cs| && i < HIST_BITS ensures Dir(cs[i]) == cs[i].newDir {
        assert ds[i] == (ds + h0)[..HIST_BITS][i] && rs[i] == (rs + h0)[..HIST_BITS][i];
      }
    }
  }

  lemma {:induction false} CbrsAreBranches(bs: seq<Branch>, i: nat)
    requires i < |Cbrs(bs)|
    ensures Cbrs(bs)[i] in bs
  {
    if bs != [] {
      var rest, b := bs[..|bs| - 1], bs[|bs| - 1];
      if b.cbr && i == 0 {
      } else {
        CbrsAreBranches(rest, if b.cbr then i - 1 else i);
      }
    }
  }

  /** All recoveries due have been carried out. */
  ghost predicate AllRecovered(bs: seq<Branch>) {
    forall k :: 0 <= k < |bs| && Recoverable(bs[k]) ==> bs[k].recovered
  }

  /** The direction was wrong, yet the next address was right. */
  predicate LuckyAddress(b: Branch) { b.pred != b.newDir && b.rightAddress }

  /** Over every run, once all recoveries due have been carried out: the history is the true one if and only
      if none of the 32 newest conditional branches was predicted in the wrong direction with the right
      address. */
  lemma HistoryTrueIffNoneLucky(h0: Hist, es: seq<Event>, s: State)
    requires Reachable(h0, es, s) && AllRecovered(s.branches)
    ensures s.hist == TrueHistory(h0, s)
      <==> forall i :: 0 <= i < |Cbrs(s.branches)| && i < HIST_BITS ==> !LuckyAddress(Cbrs(s.branches)[i])
  {
    RunKeepsInv(h0, State(h0, []), es, s);
    TrueIffNewestResolved(h0, s);
    forall i | 0 <= i < |Cbrs(s.branches)|
      ensures Dir(Cbrs(s.branches)[i]) == Cbrs(s.branches)[i].newDir <==> !LuckyAddress(Cbrs(s.branches)[i]) {
      CbrsAreBranches(s.branches, i);
    }
  }

  /** Such a branch never recovers, and while it is among the 32 newest conditional ones the history is
      wrong, whatever else has been predicted and recovered. */
  lemma WrongDirectionStays(h0: Hist, es: seq<Event>, s: State, k: nat, i: nat)
    requires Reachable(h0, es, s) && k < |s.branches| && LuckyAddress(s.branches[k])
    requires i < |Cbrs(s.branches)| && i < HIST_BITS && Cbrs(s.branches)[i] == s.branches[k]
    ensures !Enabled(s, Recovered(k)) && s.hist != TrueHistory(h0, s)
  {
    RunKeepsInv(h0, State(h0, []), es, s);
    TrueIffNewestResolved(h0, s);
  }

  lemma RunOne(s: State, e: Event)
    requires Enabled(s, e)
    ensures Reaches(s, [e], Step(s, e))
  {
    assert [e][1..] == [];
  }

  lemma CbrsOfOne(b: Branch)
    requires b.cbr
    ensures Cbrs([b]) == [b]
  {
    assert [b][..0] == [];
  }

  /** And this happens: one branch, predicted taken, not taken, with the next address as predicted target. */
  lemma WrongDirectionReached(h0: Hist)
    ensures var e := Predicted(1, true, true, false, true);
      var s := Step(State(h0, []), e);
      && Reachable(h0, [e], s) && AllRecovered(s.branches) && (forall k :: !Enabled(s, Recovered(k)))
      && s.hist != TrueHistory(h0, s)
  {
    var e := Predicted(1, true, true, false, true);
    var b := Branch(1, true, true, false, true, h0, false);
    var s := Step(State(h0, []), e);
    assert s.branches == [b];
    RunOne(State(h0, []), e);
    CbrsOfOne(b);
    WrongDirectionStays(h0, [e], s, 0, 0);
  }

  // ----- the code

  /** Recovery_Info */
  datatype RecoveryInfo = RecoveryInfo(predGlobalHist: bv32, newDir: bool)

  class Predictor {
    var globalHist: bv32
    ghost var branches: seq<Branch>

    ghost function View(): State
      reads this
    {
      State(Bits(globalHist), branches)
    }

    constructor (hist: bv32)
      ensures View() == State(Bits(hist), []) && Inv(Bits(hist), View())
    {
      globalHist, branches := hist, [];
    }

    /** The history part of bp_predict_op, and what it decides about the prediction. */
    method PredictOp(num: nat, cbr: bool, pred: bool, dir: bool, prediction: nat, npc: nat, ghost h0: Hist)
      returns (info: RecoveryInfo, mispred: bool, misfetch: bool)
      requires Inv(h0, View())
      modifies this
      ensures View() == Predict(old(View()), num, cbr, pred, dir, prediction == npc) && Inv(h0, View())
      ensures info == RecoveryInfo(old(globalHist), dir)
      ensures Bits(globalHist) == if cbr then [pred] + Bits(old(globalHist))[..HIST_BITS - 1] else Bits(old(globalHist))
      ensures mispred <==> pred != dir && prediction != npc
      ensures misfetch <==> pred == dir && prediction != npc
      ensures branches != [] && (mispred || misfetch <==> Recoverable(branches[|branches| - 1]))
    {
      PredictKeepsInv(h0, View(), num, cbr, pred, dir, prediction == npc);
      WordShiftIsShift(globalHist, pred);
      info := RecoveryInfo(globalHist, dir);
      branches := branches + [Branch(num, cbr, pred, dir, prediction == npc, Bits(globalHist), false)];
      if cbr {
        globalHist := WordShift(globalHist, pred);
      }
      mispred := pred != dir && prediction != npc;
      misfetch := !mispred && prediction != npc;
    }

    /** The history part of bp_recover_op, for the branch at position k. */
    method RecoverOp(cbr: bool, info: RecoveryInfo, ghost h0: Hist, ghost k: nat)
      requires Inv(h0, View()) && Enabled(View(), Recovered(k)) && branches[k].cbr == cbr
      requires branches[k].checkpoint == Bits(info.predGlobalHist) && branches[k].newDir == info.newDir
      modifies this
      ensures View() == RecoverAt(old(View()), k) && Inv(h0, View())
      ensures Bits(globalHist) == Fold(h0, branches)
      ensures var before := Bits(info.predGlobalHist);
        Bits(globalHist) == if cbr then [info.newDir] + before[..HIST_BITS - 1] else before
    {
      RecoverKeepsInv(h0, View(), k);
      WordShiftIsShift(info.predGlobalHist, info.newDir);
      if cbr {
        globalHist := WordShift(info.predGlobalHist, info.newDir);
      } else {
        globalHist := info.predGlobalHist;
      }
      branches := branches[..k] + [branches[k].(recovered := true)];
    }
  }
}
