/** decode_stage.c and map_stage.c: shift registers of op arrays, moved by swapping, repaired by recovery. */
module Stages {
  import opened Ops

  /** Stage_Data: a fixed-width array of op pointers and the number of ops in it. */
  datatype Stage = Stage(ops: seq<Option<Op>>, count: nat)

  function NullOps(n: nat): (ns: seq<Option<Op>>)
    ensures |ns| == n && forall i :: 0 <= i < n ==> ns[i] == None
  {
    seq(n, i => None)
  }

  /** The ops of an array in slot order, the NULLs skipped. */
  function Live(ops: seq<Option<Op>>): (live: seq<Op>)
    ensures |live| <= |ops|
  {
    if ops == [] then []
    else if ops[0].Some? then [ops[0].value] + Live(ops[1..])
    else Live(ops[1..])
  }

  /** All ops of a pipe, from the last stage (index 0) to the first. */
  function Flat(sds: seq<Stage>): seq<Op> {
    if sds == [] then [] else Live(sds[0].ops) + Flat(sds[1..])
  }

  ghost predicate StageOk(st: Stage, width: nat) {
    |st.ops| == width && st.count == |Live(st.ops)|
  }

  /** The ops occupy the first `count` slots. */
  ghost predicate Compact(st: Stage, width: nat) {
    |st.ops| == width && st.count <= width && forall i :: 0 <= i < width ==> (st.ops[i].Some? <==> i < st.count)
  }

  ghost predicate AllCompact(sds: seq<Stage>, width: nat) {
    forall i :: 0 <= i < |sds| ==> Compact(sds[i], width)
  }

  /** Only the stage the next unit drains (index 0) may have holes. */
  ghost predicate PipeOk(sds: seq<Stage>, width: nat) {
    sds != [] && StageOk(sds[0], width) && AllCompact(sds[1..], width)
  }

  lemma {:induction false} LiveConcat(a: seq<Option<Op>>, b: seq<Option<Op>>)
    ensures Live(a + b) == Live(a) + Live(b)
  {
    if a == [] {
      assert a + b == b;
    } else {
      assert (a + b)[1..] == a[1..] + b;
      LiveConcat(a[1..], b);
    }
  }

  lemma {:induction false} LiveEmpty(ops: seq<Option<Op>>)
    ensures Live(ops) == [] <==> forall i :: 0 <= i < |ops| ==> ops[i].None?
  {
    if ops != [] {
      LiveEmpty(ops[1..]);
      if forall i :: 0 <= i < |ops| ==> ops[i].None? {
        assert forall i :: 0 <= i < |ops| - 1 ==> ops[1..][i] == ops[i + 1];
      }
      if Live(ops) == [] {
        assert forall i :: 1 <= i < |ops| ==> ops[i] == ops[1..][i - 1];
      }
    }
  }

  lemma {:induction false} LiveOfAllSome(ops: seq<Option<Op>>)
    requires forall i :: 0 <= i < |ops| ==> ops[i].Some?
    ensures |Live(ops)| == |ops| && forall i :: 0 <= i < |ops| ==> Live(ops)[i] == ops[i].value
  {
    if ops != [] {
      LiveOfAllSome(ops[1..]);
    }
  }

  lemma CompactLive(st: Stage, width: nat)
    requires Compact(st, width)
    ensures StageOk(st, width)
    ensures forall i :: 0 <= i < st.count ==> Live(st.ops)[i] == st.ops[i].value
  {
    LiveOfAllSome(st.ops[..st.count]);
    LiveEmpty(st.ops[st.count..]);
    LiveConcat(st.ops[..st.count], st.ops[st.count..]);
    assert st.ops == st.ops[..st.count] + st.ops[st.count..];
  }

  lemma {:induction false} FlatConcat(a: seq<Stage>, b: seq<Stage>)
    ensures Flat(a + b) == Flat(a) + Flat(b)
  {
    if a == [] {
      assert a + b == b;
    } else {
      assert (a + b)[1..] == a[1..] + b;
      FlatConcat(a[1..], b);
    }
  }

  // ----- advancing: update_decode_stage and update_map_stage

  /** An empty stage swaps arrays with the one behind it, the last stage first; the source is the
      final element of the sequence. */
  function Shift(sds: seq<Stage>): (out: seq<Stage>)
    ensures |out| == |sds|
    decreases |sds|
  {
    if |sds| < 2 then sds
    else if sds[0].count != 0 then [sds[0]] + Shift(sds[1..])
    else [sds[1]] + Shift([Stage(sds[0].ops, 0)] + sds[2..])
  }

  /** The stage at the front after the shift, and what is still to be shifted behind it. */
  function Front(sds: seq<Stage>): Stage
    requires |sds| >= 2
  {
    if sds[0].count != 0 then sds[0] else sds[1]
  }

  function Behind(sds: seq<Stage>): (rest: seq<Stage>)
    requires |sds| >= 2
    ensures |rest| == |sds| - 1
  {
    if sds[0].count != 0 then sds[1..] else [Stage(sds[0].ops, 0)] + sds[2..]
  }

  lemma ShiftSplits(sds: seq<Stage>)
    requires |sds| >= 2
    ensures Shift(sds) == [Front(sds)] + Shift(Behind(sds))
  {
  }

  lemma FlatCons(st: Stage, rest: seq<Stage>)
    ensures Flat([st] + rest) == Live(st.ops) + Flat(rest)
  {
    assert ([st] + rest)[1..] == rest;
  }

  lemma BehindIsCompact(sds: seq<Stage>, width: nat)
    requires PipeOk(sds, width) && |sds| >= 2
    ensures StageOk(Front(sds), width) && AllCompact(Behind(sds), width)
  {
    assert sds[1] == sds[1..][0];
    CompactLive(sds[1], width);
    LiveEmpty(sds[0].ops);
    assert forall i :: 1 <= i < |sds| - 1 ==> Behind(sds)[i] == sds[1..][i];
  }

  lemma BehindKeepsOrder(sds: seq<Stage>)
    requires |sds| >= 2 && (sds[0].count == 0 ==> Live(sds[0].ops) == [])
    ensures Live(Front(sds).ops) + Flat(Behind(sds)) == Flat(sds)
  {
    if sds[0].count == 0 {
      EmptyFront(sds[0], sds[1], sds[2..]);
      assert sds == [sds[0], sds[1]] + sds[2..];
    }
  }

  lemma EmptyFront(empty: Stage, st: Stage, rest: seq<Stage>)
    requires Live(empty.ops) == []
    ensures Live(st.ops) + Flat([Stage(empty.ops, 0)] + rest) == Flat([empty, st] + rest)
  {
    FlatCons(Stage(empty.ops, 0), rest);
    FlatCons(st, rest);
    FlatCons(empty, [st] + rest);
    assert [empty, st] + rest == [empty] + ([st] + rest);
  }

  /** Advancing loses, duplicates and reorders nothing, whatever stages were empty. */
  lemma {:induction false} ShiftKeepsOrder(sds: seq<Stage>, width: nat)
    requires PipeOk(sds, width)
    ensures Flat(Shift(sds)) == Flat(sds)
    ensures PipeOk(Shift(sds), width)
    ensures sds[0].count != 0 ==> Shift(sds)[0] == sds[0]
    ensures sds[0].count == 0 && |sds| > 1 ==> Shift(sds)[0] == sds[1]
    decreases |sds|
  {
    if |sds| >= 2 {
      var rest := Behind(sds);
      BehindIsCompact(sds, width);
      BehindKeepsOrder(sds);
      CompactLive(rest[0], width);
      ShiftKeepsOrder(rest, width);
      ShiftKeepsCompact(rest, width);
      ShiftSplits(sds);
      FlatCons(Front(sds), Shift(rest));
      assert Shift(sds)[1..] == Shift(rest);
    }
  }

  /** What an advance does to a line of stages: the first empty one leaves the line and comes back, empty, at
      its end; those behind it move up by one, and those before it stay. */
  ghost predicate MovedUp(all: seq<Stage>, out: seq<Stage>) {
    && |out| == |all|
    && (forall j :: 0 <= j < |all| && all[j].count == 0 && (forall i :: 0 <= i < j ==> all[i].count != 0) ==>
          out == all[..j] + all[j + 1..] + [Stage(all[j].ops, 0)])
    && ((forall i :: 0 <= i < |all| ==> all[i].count != 0) ==> out == all)
  }

  function FirstEmpty(sds: seq<Stage>): (j: nat)
    ensures j <= |sds| && forall i :: 0 <= i < j ==> sds[i].count != 0
    ensures j < |sds| ==> sds[j].count == 0
  {
    if sds == [] || sds[0].count == 0 then 0 else 1 + FirstEmpty(sds[1..])
  }

  lemma {:induction false} ShiftIs(sds: seq<Stage>)
    ensures var j := FirstEmpty(sds);
      Shift(sds) == if j == |sds| then sds else sds[..j] + sds[j + 1..] + [Stage(sds[j].ops, 0)]
    decreases |sds|
  {
    var j := FirstEmpty(sds);
    if |sds| < 2 {
      assert |sds| == 1 && j == 0 ==> sds[..0] + sds[1..] + [Stage(sds[0].ops, 0)] == sds;
    } else if sds[0].count != 0 {
      ShiftIs(sds[1..]);
      ShiftSecond(sds, j);
    } else {
      var rest := [Stage(sds[0].ops, 0)] + sds[2..];
      ShiftIs(rest);
      assert FirstEmpty(rest) == 0 && rest[1..] == sds[2..] && rest[..0] == [];
      assert sds[1..] == [sds[1]] + sds[2..];
    }
  }

  lemma ShiftSecond(sds: seq<Stage>, j: nat)
    requires sds != [] && 0 < j <= |sds|
    ensures j < |sds| ==>
      [sds[0]] + (sds[1..][..j - 1] + sds[1..][j..] + [Stage(sds[1..][j - 1].ops, 0)])
      == sds[..j] + sds[j + 1..] + [Stage(sds[j].ops, 0)]
  {
    if j < |sds| {
      assert sds[1..][..j - 1] == sds[1..j] && sds[1..][j..] == sds[j + 1..] && sds[..j] == [sds[0]] + sds[1..j];
    }
  }

  lemma ShiftMovesUp(sds: seq<Stage>)
    ensures MovedUp(sds, Shift(sds))
  {
    ShiftIs(sds);
    forall j | 0 <= j < |sds| && sds[j].count == 0 && (forall i :: 0 <= i < j ==> sds[i].count != 0)
      ensures j == FirstEmpty(sds) {
    }
  }

  lemma {:induction false} ShiftKeepsCompact(sds: seq<Stage>, width: nat)
    requires AllCompact(sds, width)
    ensures AllCompact(Shift(sds), width)
    decreases |sds|
  {
    if |sds| >= 2 {
      ShiftSplits(sds);
      assert forall i :: 1 <= i < |sds| - 1 ==> Behind(sds)[i] == sds[i + 1];
      ShiftKeepsCompact(Behind(sds), width);
    }
  }

  // ----- recovery: recover_decode_stage (in place) and recover_map_stage (collapsing)

  function KeepSlot(o: Option<Op>, r: nat): Option<Op> {
    if o.Some? && Flush(o.value, r) then None else o
  }

  function KeepSlots(ops: seq<Option<Op>>, r: nat): (out: seq<Option<Op>>)
    ensures |out| == |ops| && forall i :: 0 <= i < |ops| ==> out[i] == KeepSlot(ops[i], r)
  {
    seq(|ops|, i requires 0 <= i < |ops| => KeepSlot(ops[i], r))
  }

  function KeepStage(st: Stage, r: nat): Stage {
    Stage(KeepSlots(st.ops, r), |Kept(Live(st.ops), r)|)
  }

  function CollapseStage(st: Stage, r: nat): (out: Stage)
    ensures |out.ops| == |st.ops|
  {
    var kept := Kept(Live(st.ops), r);
    Stage(seq(|st.ops|, i requires 0 <= i < |st.ops| => if i < |kept| then Some(kept[i]) else None), |kept|)
  }

  function KeepAll(sds: seq<Stage>, r: nat): (out: seq<Stage>)
    ensures |out| == |sds| && forall i :: 0 <= i < |sds| ==> out[i] == KeepStage(sds[i], r)
  {
    seq(|sds|, i requires 0 <= i < |sds| => KeepStage(sds[i], r))
  }

  function CollapseAll(sds: seq<Stage>, r: nat): (out: seq<Stage>)
    ensures |out| == |sds| && forall i :: 0 <= i < |sds| ==> out[i] == CollapseStage(sds[i], r)
  {
    seq(|sds|, i requires 0 <= i < |sds| => CollapseStage(sds[i], r))
  }

  lemma {:induction false} KeepSlotsLive(ops: seq<Option<Op>>, r: nat)
    ensures Live(KeepSlots(ops, r)) == Kept(Live(ops), r)
  {
    if ops != [] {
      KeepSlotsLive(ops[1..], r);
      assert KeepSlots(ops, r)[1..] == KeepSlots(ops[1..], r);
      if ops[0].Some? {
        assert Live(ops)[1..] == Live(ops[1..]);
      }
    }
  }

  lemma CollapseIsCompact(st: Stage, r: nat)
    ensures Compact(CollapseStage(st, r), |st.ops|)
    ensures Live(CollapseStage(st, r).ops) == Kept(Live(st.ops), r)
  {
    var kept := Kept(Live(st.ops), r);
    CompactLive(CollapseStage(st, r), |st.ops|);
    assert Live(CollapseStage(st, r).ops) == kept;
  }

  /** Ops in program order are flushed from the back, so flushing in place leaves no hole. */
  lemma KeepStaysCompact(st: Stage, r: nat, width: nat, first: nat)
    requires Compact(st, width) && Consecutive(Live(st.ops), first)
    ensures Compact(KeepStage(st, r), width)
  {
    CompactLive(st, width);
    KeptIsPrefix(Live(st.ops), first, r);
    forall i | 0 <= i < width
      ensures KeepStage(st, r).ops[i].Some? <==> i < KeepStage(st, r).count
    {
      if i < st.count {
        assert Live(st.ops)[i].num == first + i;
      }
    }
  }

  lemma {:induction false} KeepAllFlat(sds: seq<Stage>, r: nat)
    ensures Flat(KeepAll(sds, r)) == Kept(Flat(sds), r)
  {
    if sds != [] {
      KeepSlotsLive(sds[0].ops, r);
      KeepAllFlat(sds[1..], r);
      assert KeepAll(sds, r)[1..] == KeepAll(sds[1..], r);
      KeptConcat(Live(sds[0].ops), Flat(sds[1..]), r);
    }
  }

  lemma {:induction false} CollapseAllFlat(sds: seq<Stage>, r: nat)
    ensures Flat(CollapseAll(sds, r)) == Kept(Flat(sds), r)
  {
    if sds != [] {
      CollapseIsCompact(sds[0], r);
      CollapseAllFlat(sds[1..], r);
      assert CollapseAll(sds, r)[1..] == CollapseAll(sds[1..], r);
      KeptConcat(Live(sds[0].ops), Flat(sds[1..]), r);
    }
  }

  lemma {:induction false} KeepAllCompact(sds: seq<Stage>, r: nat, width: nat, first: nat)
    requires AllCompact(sds, width) && Consecutive(Flat(sds), first)
    ensures AllCompact(KeepAll(sds, r), width)
  {
    if sds != [] {
      var live := Live(sds[0].ops);
      assert Flat(sds) == live + Flat(sds[1..]);
      assert forall i :: 0 <= i < |live| ==> live[i] == Flat(sds)[i];
      assert forall i :: 0 <= i < |Flat(sds[1..])| ==> Flat(sds[1..])[i] == Flat(sds)[|live| + i];
      KeepStaysCompact(sds[0], r, width, first);
      assert AllCompact(sds[1..], width);
      KeepAllCompact(sds[1..], r, width, first + |live|);
      forall i | 0 <= i < |sds| ensures Compact(KeepAll(sds, r)[i], width) {
        if i > 0 {
          assert KeepAll(sds, r)[i] == KeepAll(sds[1..], r)[i - 1];
        }
      }
    }
  }

  // ----- the stages as the code runs them

  /** One iteration of the shifting loop, on the stages and the source behind them. */
  function ShiftAt(s: seq<Stage>, ii: nat): (out: seq<Stage>)
    requires ii + 1 < |s|
    ensures |out| == |s|
  {
    if s[ii].count != 0 then s else s[ii := s[ii + 1]][ii + 1 := Stage(s[ii].ops, 0)]
  }

  lemma ShiftUnfolds(s: seq<Stage>, ii: nat)
    requires ii + 1 < |s|
    ensures s[..ii] + Shift(s[ii..]) == ShiftAt(s, ii)[..ii + 1] + Shift(ShiftAt(s, ii)[ii + 1..])
  {
    var t := ShiftAt(s, ii);
    assert s[ii..][1..] == s[ii + 1..];
    assert s[ii..][2..] == s[ii + 2..];
    assert t[..ii + 1] == s[..ii] + [t[ii]];
    if s[ii].count == 0 {
      assert t[ii + 1..] == [Stage(s[ii].ops, 0)] + s[ii + 2..];
    } else {
      assert s[..ii + 1] == s[..ii] + [s[ii]];
    }
  }

  class StagePipe {
    const sds: array<Stage>

    constructor (depth: nat, width: nat)
      requires depth > 0
      ensures fresh(sds) && sds.Length == depth
      ensures sds[..] == seq(depth, i => Stage(NullOps(width), 0))
    {
      var empty := Stage(NullOps(width), 0);
      sds := new Stage[depth](i => empty);
    }

    /** update_decode_stage / update_map_stage up to the processing loop; `src` is the stage behind. */
    method Advance(src: Stage) returns (srcOut: Stage)
      requires sds.Length > 0
      modifies sds
      ensures sds[..] + [srcOut] == Shift(old(sds[..]) + [src])
      ensures MovedUp(old(sds[..]) + [src], sds[..] + [srcOut])
    {
      ShiftMovesUp(sds[..] + [src]);
      srcOut := SwapLoop(src);
    }

    /** The loop that swaps each empty stage with the one behind it. */
    method SwapLoop(src: Stage) returns (srcOut: Stage)
      requires sds.Length > 0
      modifies sds
      ensures sds[..] + [srcOut] == Shift(old(sds[..]) + [src])
    {
      ghost var all := sds[..] + [src];
      ghost var start := all;
      var ii := 0;
      while ii < sds.Length - 1
        invariant 0 <= ii <= sds.Length - 1
        invariant |all| == sds.Length + 1 && sds[..] == all[..sds.Length] && all[sds.Length] == src
        invariant Shift(start) == all[..ii] + Shift(all[ii..])
      {
        ShiftUnfolds(all, ii);
        all := ShiftAt(all, ii);
        if sds[ii].count == 0 {
          var cur, prev := sds[ii], sds[ii + 1];
          sds[ii] := Stage(prev.ops, prev.count);
          sds[ii + 1] := Stage(cur.ops, 0);
        }
        ii := ii + 1;
      }
      ShiftUnfolds(all, ii);
      all := ShiftAt(all, ii);
      srcOut := src;
      if sds[ii].count == 0 {
        srcOut := Stage(sds[ii].ops, 0);
        sds[ii] := src;
      }
      assert all[ii + 1..] == [srcOut];
      assert all == all[..ii + 1] + [srcOut];
    }

    /** recover_decode_stage; `freed` lists the ops it gives back to the pool, in the order it does. */
    method RecoverInPlace(r: nat) returns (freed: seq<Op>)
      modifies sds
      ensures sds[..] == KeepAll(old(sds[..]), r)
      ensures freed == Flushed(Flat(old(sds[..])), r)
    {
      ghost var was := sds[..];
      freed := [];
      var ii := 0;
      while ii < sds.Length
        invariant 0 <= ii <= sds.Length == |was|
        invariant forall k :: 0 <= k < sds.Length ==> sds[k] == if k < ii then KeepStage(was[k], r) else was[k]
        invariant freed == Flushed(Flat(was[..ii]), r)
      {
        StageSplit(was, ii, r);
        var st, fs := FlushInPlace(sds[ii], r);
        sds[ii] := st;
        freed := freed + fs;
        ii := ii + 1;
      }
      assert was[..ii] == was;
    }

    /** recover_map_stage */
    method RecoverCollapsing(r: nat) returns (freed: seq<Op>)
      modifies sds
      ensures sds[..] == CollapseAll(old(sds[..]), r)
      ensures freed == Flushed(Flat(old(sds[..])), r)
    {
      ghost var was := sds[..];
      freed := [];
      var ii := 0;
      while ii < sds.Length
        invariant 0 <= ii <= sds.Length == |was|
        invariant forall k :: 0 <= k < sds.Length ==> sds[k] == if k < ii then CollapseStage(was[k], r) else was[k]
        invariant freed == Flushed(Flat(was[..ii]), r)
      {
        StageSplit(was, ii, r);
        var st, fs := FlushCollapsing(sds[ii], r);
        sds[ii] := st;
        freed := freed + fs;
        ii := ii + 1;
      }
      assert was[..ii] == was;
    }
  }

  lemma LiveFrom(ops: seq<Option<Op>>, jj: nat)
    requires jj < |ops|
    ensures Live(ops[jj..]) == if ops[jj].Some? then [ops[jj].value] + Live(ops[jj + 1..]) else Live(ops[jj + 1..])
  {
    assert ops[jj..][1..] == ops[jj + 1..];
  }

  lemma TakeNext(live: seq<Op>, n: nat, op: Op, rest: seq<Op>)
    requires n <= |live| && live[n..] == [op] + rest
    ensures n < |live| && live[..n + 1] == live[..n] + [op] && live[n + 1..] == rest
  {
    assert live[n] == live[n..][0] && live[n + 1..] == live[n..][1..];
  }

  /** One stage of recover_decode_stage; recover_icache_stage is the same loop. */
  method FlushInPlace(st: Stage, r: nat) returns (out: Stage, freed: seq<Op>)
    ensures out == KeepStage(st, r)
    ensures freed == Flushed(Live(st.ops), r)
  {
    var ops, count, jj := st.ops, 0, 0;
    freed := [];
    ghost var live, n := Live(st.ops), 0;
    assert st.ops[0..] == st.ops;
    while jj < |ops|
      invariant 0 <= jj <= |ops| == |st.ops|
      invariant n <= |live| && Live(st.ops[jj..]) == live[n..]
      invariant count == |Kept(live[..n], r)| && freed == Flushed(live[..n], r)
      invariant forall i :: 0 <= i < jj ==> ops[i] == KeepSlot(st.ops[i], r)
      invariant forall i :: jj <= i < |ops| ==> ops[i] == st.ops[i]
    {
      LiveFrom(st.ops, jj);
      if ops[jj].Some? {
        var op := ops[jj].value;
        TakeNext(live, n, op, Live(st.ops[jj + 1..]));
        Snoc(live[..n], op, r);
        n := n + 1;
        if Flush(op, r) {
          freed := freed + [op];
          ops := ops[jj := None];
        } else {
          count := count + 1;
        }
      }
      jj := jj + 1;
    }
    assert live[..n] == live;
    out := Stage(ops, count);
  }

  /** The array while it collapses: survivors so far, then NULLs up to jj, then what is still to be read. */
  function Sliding(kept: seq<Op>, jj: nat, orig: seq<Option<Op>>): (ops: seq<Option<Op>>)
    ensures |ops| == |orig|
  {
    seq(|orig|, i requires 0 <= i < |orig| => if i < |kept| then Some(kept[i]) else if i < jj then None else orig[i])
  }

  lemma SlideStep(kept: seq<Op>, jj: nat, orig: seq<Option<Op>>, op: Op)
    requires |kept| <= jj < |orig|
    ensures Sliding(kept, jj, orig)[jj] == orig[jj]
    ensures Sliding(kept, jj, orig)[jj := None] == Sliding(kept, jj + 1, orig)
    ensures orig[jj].None? ==> Sliding(kept, jj, orig) == Sliding(kept, jj + 1, orig)
    ensures Sliding(kept, jj, orig)[jj := None][|kept| := Some(op)] == Sliding(kept + [op], jj + 1, orig)
  {
  }

  lemma SlidToEnd(kept: seq<Op>, st: Stage, r: nat)
    requires kept == Kept(Live(st.ops), r) && |kept| <= |st.ops|
    ensures Sliding(kept, |st.ops|, st.ops) == CollapseStage(st, r).ops && |kept| == CollapseStage(st, r).count
  {
  }

  /** One stage of recover_map_stage: survivors slide to the front. */
  method FlushCollapsing(st: Stage, r: nat) returns (out: Stage, freed: seq<Op>)
    ensures out == CollapseStage(st, r)
    ensures freed == Flushed(Live(st.ops), r)
  {
    var ops, count, jj, kk := st.ops, 0, 0, 0;
    freed := [];
    ghost var live, n, kept := Live(st.ops), 0, [];
    assert st.ops[0..] == st.ops;
    while jj < |ops|
      invariant 0 <= kk <= jj <= |ops| == |st.ops|
      invariant n <= |live| && Live(st.ops[jj..]) == live[n..]
      invariant kept == Kept(live[..n], r) && count == kk == |kept| && freed == Flushed(live[..n], r)
      invariant ops == Sliding(kept, jj, st.ops)
    {
      LiveFrom(st.ops, jj);
      if ops[jj].Some? {
        var op := ops[jj].value;
        TakeNext(live, n, op, Live(st.ops[jj + 1..]));
        Snoc(live[..n], op, r);
        SlideStep(kept, jj, st.ops, op);
        n := n + 1;
        ops := ops[jj := None];
        if Flush(op, r) {
          freed := freed + [op];
        } else {
          count := count + 1;
          ops := ops[kk := Some(op)];
          kk := kk + 1;
          kept := kept + [op];
        }
      } else {
        SlideStep(kept, jj, st.ops, Op(0, 0, 0, false, Inst(false, false, [], [], NotMem, 0, 0)));
      }
      jj := jj + 1;
    }
    assert live[..n] == live;
    SlidToEnd(kept, st, r);
    out := Stage(ops, count);
  }

  lemma {:induction false} EmptyFlat(sds: seq<Stage>, empty: Stage)
    requires Live(empty.ops) == [] && forall i :: 0 <= i < |sds| ==> sds[i] == empty
    ensures Flat(sds) == []
  {
    if sds != [] {
      EmptyFlat(sds[1..], empty);
    }
  }

  lemma StageSplit(sds: seq<Stage>, k: nat, r: nat)
    requires k < |sds|
    ensures Flushed(Flat(sds[..k + 1]), r) == Flushed(Flat(sds[..k]), r) + Flushed(Live(sds[k].ops), r)
  {
    assert sds[..k + 1] == sds[..k] + [sds[k]];
    FlatConcat(sds[..k], [sds[k]]);
    assert [sds[k]][1..] == [];
    assert Flat([sds[k]]) == Live(sds[k].ops) + Flat([]);
    assert Flat([sds[k]]) == Live(sds[k].ops);
    KeptConcat(Flat(sds[..k]), Live(sds[k].ops), r);
  }
}
