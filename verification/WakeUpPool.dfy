/** map.c: the wake-up entries as the code keeps them: one pool of nodes threaded by next pointers into a
    free list and one list per op. */
module WakeUpPool {
  import opened Ops
  import opened WakeUp

  /** Wake_Up_Entry */
  datatype Node = Node(waiter: Waiter, next: Option<nat>)

  /** Where a node is: so far from the end of the free list, or so far from the head of a list. */
  datatype Place = InFree(pos: int) | InList(op: Slot, pos: int)

  function First(ids: seq<nat>): Option<nat> {
    if ids == [] then None else Some(ids[0])
  }

  function NextIn(ids: seq<nat>, i: nat): Option<nat> {
    if i + 1 < |ids| then Some(ids[i + 1]) else None
  }

  ghost predicate InRange(es: seq<Node>, ids: seq<nat>) {
    forall i :: 0 <= i < |ids| ==> ids[i] < |es|
  }

  ghost predicate FreeChain(es: seq<Node>, place: seq<Place>, ids: seq<nat>)
    requires |place| == |es|
  {
    && InRange(es, ids)
    && forall i {:trigger place[ids[i]]} :: 0 <= i < |ids| ==>
         place[ids[i]] == InFree(|ids| - 1 - i) && es[ids[i]].next == NextIn(ids, i)
  }

  ghost predicate ListChain(es: seq<Node>, place: seq<Place>, s: Slot, ids: seq<nat>)
    requires |place| == |es|
  {
    && InRange(es, ids)
    && forall i {:trigger place[ids[i]]} :: 0 <= i < |ids| ==>
         place[ids[i]] == InList(s, i) && es[ids[i]].next == NextIn(ids, i)
  }

  ghost predicate ListChains(es: seq<Node>, place: seq<Place>, lists: map<Slot, seq<nat>>)
    requires |place| == |es|
  {
    forall s :: s in lists ==> lists[s] != [] && ListChain(es, place, s, lists[s])
  }

  ghost function Waiters(es: seq<Node>, ids: seq<nat>): (ws: seq<Waiter>)
    requires InRange(es, ids)
  {
    seq(|ids|, i requires 0 <= i < |ids| => es[ids[i]].waiter)
  }

  ghost predicate ShowsLists(es: seq<Node>, place: seq<Place>, lists: map<Slot, seq<nat>>, w: Wake)
    requires |place| == |es| && ListChains(es, place, lists)
  {
    forall s :: List(w, s) == if s in lists then Waiters(es, lists[s]) else []
  }

  /** wake_up_head, wake_up_tail and wake_up_count of an op that has a list. */
  datatype Ends = Ends(head: nat, tail: nat, count: nat)

  /** The lists the next pointers spell out. */
  datatype Chains = Chains(place: seq<Place>, free: seq<nat>, lists: map<Slot, seq<nat>>)

  ghost predicate Chained(es: seq<Node>, ch: Chains) {
    |ch.place| == |es| && FreeChain(es, ch.place, ch.free) && ListChains(es, ch.place, ch.lists)
  }

  ghost predicate EndsMatch(ends: map<Slot, Ends>, lists: map<Slot, seq<nat>>) {
    && ends.Keys == lists.Keys
    && forall s :: s in ends && lists[s] != [] ==> ends[s] == Ends(lists[s][0], lists[s][|lists[s]| - 1], |lists[s]|)
  }

  ghost predicate Counts(es: seq<Node>, active: int, free: seq<nat>, w: Wake) {
    |free| == w.free && active == w.active && |es| == w.entries
  }

  /** The nodes spell out the chains, and the chains the lists of w. */
  ghost predicate PoolShows(es: seq<Node>, freeHead: Option<nat>, active: int, ends: map<Slot, Ends>, ch: Chains,
                            w: Wake) {
    && Chained(es, ch) && ShowsLists(es, ch.place, ch.lists, w)
    && freeHead == First(ch.free) && EndsMatch(ends, ch.lists) && Counts(es, active, ch.free, w)
  }

  class EntryPool {
    var entries: seq<Node>
    var freeHead: Option<nat>
    var active: int
    var ends: map<Slot, Ends>       // absent where wake_up_head and wake_up_tail are NULL
    ghost var ch: Chains

    ghost predicate Shows(w: Wake)
      reads this
    {
      PoolShows(entries, freeHead, active, ends, ch, w)
    }

    constructor ()
      ensures Shows(Wake(map[], map[], map[], map[], 0, 0, 0))
    {
      entries, freeHead, active, ends, ch := [], None, 0, map[], Chains([], [], map[]);
    }

    /** expand_wake_up_entries */
    method Expand(ghost w: Wake)
      requires Shows(w)
      modifies this
      ensures Shows(w.(free := w.free + WAKE_UP_ENTRIES_INC, entries := w.entries + WAKE_UP_ENTRIES_INC))
      ensures ch.free != []
    {
      var block := NewNodes(|entries|, freeHead);
      ghost var places := NewPlaces(|ch.free|, |block|);
      BlockChains(entries, ch.place, ch.free, block);
      BlockLists(entries, ch.place, ch.lists, block, places, w);
      freeHead := Some(|entries|);
      ch := Chains(ch.place + places, NewIds(|entries|, |block|) + ch.free, ch.lists);
      entries := entries + block;
    }

    /** Takes the head of the free list and appends it to the list of src, as add_to_wake_up_lists does. */
    method AddToList(src: Slot, e: Waiter, ghost w: Wake)
      requires Shows(w)
      modifies this
      ensures Shows(AddWaiter(w, src, e))
    {
      ghost var grown := w;
      if freeHead.None? {
        Expand(w);
        grown := w.(free := w.free + WAKE_UP_ENTRIES_INC, entries := w.entries + WAKE_UP_ENTRIES_INC);
      }
      TakeNode(src, e, grown);
    }

    method TakeNode(src: Slot, e: Waiter, ghost w: Wake)
      requires Shows(w) && ch.free != []
      modifies this
      ensures Shows(w.(lists := w.lists[src := List(w, src) + [e]], free := w.free - 1, active := w.active + 1))
    {
      AppendShows(entries, freeHead, active, ends, ch, src, e, w);
      ch := AppendedChains(ch, src);
      var wake := freeHead.value;
      var tail := TailOf(ends, src);
      freeHead := entries[wake].next;
      active := active + 1;
      entries := Appended(entries, wake, e, tail);
      ends := Extended(ends, src, wake);
    }

    /** free_wake_up_list: the list of an op is spliced in front of the free list. */
    method FreeWakeUpList(op: Slot, ghost w: Wake)
      requires Shows(w)
      modifies this
      ensures Shows(FreeList(w, op))
    {
      if op in ends {
        SpliceOut(op, w);
      }
    }

    method SpliceOut(op: Slot, ghost w: Wake)
      requires Shows(w) && op in ends
      modifies this
      ensures Shows(FreeList(w, op))
    {
      SpliceAll(entries, ch, ends, op, w);
      SpliceEnds(entries, active, ch, ends, op, w);
      var head, tail, count := ends[op].head, ends[op].tail, ends[op].count;
      entries := entries[tail := entries[tail].(next := freeHead)];
      freeHead := Some(head);
      active := active - count;
      ends := ends - {op};
      ch := SplicedChains(ch, op);
    }
  }

  /** The head, tail and count writes of an append. */
  function Extended(ends: map<Slot, Ends>, src: Slot, wake: nat): map<Slot, Ends> {
    ends[src := if src in ends then Ends(ends[src].head, wake, ends[src].count + 1) else Ends(wake, wake, 1)]
  }

  /** The node writes of an append: the new last node, and the old one pointing to it. */
  function Appended(es: seq<Node>, id: nat, e: Waiter, tail: Option<nat>): seq<Node>
    requires id < |es| && (tail.Some? ==> tail.value < |es|)
  {
    var fs := es[id := Node(e, None)];
    if tail.None? then fs else fs[tail.value := fs[tail.value].(next := Some(id))]
  }

  // ----- growing

  function NewIds(base: nat, n: nat): (ids: seq<nat>)
    ensures |ids| == n && forall i :: 0 <= i < n ==> ids[i] == base + i
  {
    seq(n, i requires 0 <= i < n => base + i)
  }

  ghost function NewPlaces(behind: nat, n: nat): (ps: seq<Place>)
    ensures |ps| == n && forall i :: 0 <= i < n ==> ps[i] == InFree(behind + n - 1 - i)
  {
    seq(n, i requires 0 <= i < n => InFree(behind + n - 1 - i))
  }

  /** The loop of expand_wake_up_entries. */
  method NewNodes(base: nat, head: Option<nat>) returns (block: seq<Node>)
    ensures |block| == WAKE_UP_ENTRIES_INC
    ensures forall k :: 0 <= k < |block| ==> block[k].next == if k + 1 < |block| then Some(base + k + 1) else head
  {
    block := [];
    var blank := Waiter(0, 0, RegData, 0);
    var ii := 0;
    while ii < WAKE_UP_ENTRIES_INC - 1
      invariant 0 <= ii <= WAKE_UP_ENTRIES_INC - 1 && |block| == ii
      invariant forall k :: 0 <= k < ii ==> block[k].next == Some(base + k + 1)
    {
      block := block + [Node(blank, Some(base + ii + 1))];
      ii := ii + 1;
    }
    block := block + [Node(blank, head)];
  }

  lemma BlockChains(es: seq<Node>, place: seq<Place>, free: seq<nat>, block: seq<Node>)
    requires |place| == |es| && FreeChain(es, place, free)
    requires forall k :: 0 <= k < |block| ==>
      block[k].next == if k + 1 < |block| then Some(|es| + k + 1) else First(free)
    ensures FreeChain(es + block, place + NewPlaces(|free|, |block|), NewIds(|es|, |block|) + free)
  {
    var n := |block|;
    var ids, all, ps := NewIds(|es|, n) + free, es + block, place + NewPlaces(|free|, n);
    forall i | 0 <= i < |ids| ensures
      ids[i] < |all| && ps[ids[i]] == InFree(|ids| - 1 - i) && all[ids[i]].next == NextIn(ids, i) {
      if i < n {
        NewIdAt(es, free, block, i);
      } else {
        OldIdAt(es, place, free, block, i - n);
      }
    }
  }

  lemma NewIdAt(es: seq<Node>, free: seq<nat>, block: seq<Node>, i: nat)
    requires i < |block|
    requires block[i].next == if i + 1 < |block| then Some(|es| + i + 1) else First(free)
    ensures var ids := NewIds(|es|, |block|) + free;
      ids[i] == |es| + i && (es + block)[ids[i]] == block[i] && block[i].next == NextIn(ids, i)
  {
  }

  lemma OldIdAt(es: seq<Node>, place: seq<Place>, free: seq<nat>, block: seq<Node>, i: nat)
    requires |place| == |es| && FreeChain(es, place, free) && i < |free|
    ensures var ids := NewIds(|es|, |block|) + free;
      && ids[|block| + i] == free[i] < |es|
      && place[free[i]] == InFree(|free| - 1 - i) && es[free[i]].next == NextIn(ids, |block| + i)
  {
    assert place[free[i]] == InFree(|free| - 1 - i);
  }

  lemma BlockLists(es: seq<Node>, place: seq<Place>, lists: map<Slot, seq<nat>>, block: seq<Node>,
                   places: seq<Place>, w: Wake)
    requires |place| == |es| && |places| == |block| && ListChains(es, place, lists) && ShowsLists(es, place, lists, w)
    ensures ListChains(es + block, place + places, lists) && ShowsLists(es + block, place + places, lists, w)
  {
    var all, ps := es + block, place + places;
    forall s | s in lists ensures ListChain(all, ps, s, lists[s]) && Waiters(all, lists[s]) == Waiters(es, lists[s]) {
      assert ListChain(es, place, s, lists[s]);
    }
  }

  // ----- appending the head of the free list to a list

  ghost function IdsOf(lists: map<Slot, seq<nat>>, s: Slot): seq<nat> {
    if s in lists then lists[s] else []
  }

  function LastOf(ids: seq<nat>): Option<nat> {
    if ids == [] then None else Some(ids[|ids| - 1])
  }

  lemma AppendChain(es: seq<Node>, place: seq<Place>, free: seq<nat>, lists: map<Slot, seq<nat>>, src: Slot, e: Waiter)
    requires |place| == |es| && FreeChain(es, place, free) && ListChains(es, place, lists) && free != []
    ensures free[0] < |es| && (LastOf(IdsOf(lists, src)).Some? ==> LastOf(IdsOf(lists, src)).value < |es|)
    ensures es[free[0]].next == First(free[1..])
    ensures FreeChain(Appended(es, free[0], e, LastOf(IdsOf(lists, src))),
      place[free[0] := InList(src, |IdsOf(lists, src)|)], free[1..])
  {
    var ids := IdsOf(lists, src);
    assert src in lists ==> ListChain(es, place, src, ids);
    assert LastOf(ids).Some? ==> place[LastOf(ids).value].InList?;
    assert place[free[0]].InFree?;
    var fs, ps, rest := Appended(es, free[0], e, LastOf(ids)), place[free[0] := InList(src, |ids|)], free[1..];
    forall i | 0 <= i < |rest|
      ensures rest[i] < |fs| && ps[rest[i]] == InFree(|rest| - 1 - i) && fs[rest[i]].next == NextIn(rest, i) {
      assert rest[i] == free[i + 1] && place[free[i + 1]] == InFree(|free| - 2 - i);
    }
  }

  lemma AppendOwn(es: seq<Node>, place: seq<Place>, free: seq<nat>, lists: map<Slot, seq<nat>>, src: Slot, e: Waiter)
    requires |place| == |es| && FreeChain(es, place, free) && ListChains(es, place, lists) && free != []
    requires free[0] < |es| && (LastOf(IdsOf(lists, src)).Some? ==> LastOf(IdsOf(lists, src)).value < |es|)
    ensures var ids := IdsOf(lists, src);
      var fs, ps := Appended(es, free[0], e, LastOf(ids)), place[free[0] := InList(src, |ids|)];
      ListChain(fs, ps, src, ids + [free[0]]) && Waiters(fs, ids + [free[0]]) ==
        (if src in lists then Waiters(es, lists[src]) else []) + [e]
  {
    var ids := IdsOf(lists, src);
    var fs, ps, more := Appended(es, free[0], e, LastOf(ids)), place[free[0] := InList(src, |ids|)], ids + [free[0]];
    assert src in lists ==> ListChain(es, place, src, ids);
    assert place[free[0]].InFree?;
    forall i | 0 <= i < |more| ensures
      more[i] < |fs| && ps[more[i]] == InList(src, i) && fs[more[i]].next == NextIn(more, i)
      && fs[more[i]].waiter == if i < |ids| then es[ids[i]].waiter else e {
      if i < |ids| {
        assert place[ids[i]] == InList(src, i);
        assert place[ids[|ids| - 1]] == InList(src, |ids| - 1);
      }
    }
    assert Waiters(fs, more) == (if src in lists then Waiters(es, lists[src]) else []) + [e];
  }

  lemma AppendOther(es: seq<Node>, place: seq<Place>, free: seq<nat>, lists: map<Slot, seq<nat>>, src: Slot,
                    e: Waiter, s: Slot)
    requires |place| == |es| && FreeChain(es, place, free) && ListChains(es, place, lists) && free != []
    requires free[0] < |es| && (LastOf(IdsOf(lists, src)).Some? ==> LastOf(IdsOf(lists, src)).value < |es|)
    requires s in lists && s != src
    ensures var ids := IdsOf(lists, src);
      var fs, ps := Appended(es, free[0], e, LastOf(ids)), place[free[0] := InList(src, |ids|)];
      ListChain(es, place, s, lists[s]) && ListChain(fs, ps, s, lists[s])
        && Waiters(fs, lists[s]) == Waiters(es, lists[s])
  {
    var ids := IdsOf(lists, src);
    assert ListChain(es, place, s, lists[s]);
    assert src in lists ==> ListChain(es, place, src, ids);
    assert place[free[0]].InFree?;
    assert LastOf(ids).Some? ==> place[LastOf(ids).value] == InList(src, |ids| - 1);
    forall i | 0 <= i < |lists[s]| ensures lists[s][i] != free[0] && Some(lists[s][i]) != LastOf(ids) {
      assert place[lists[s][i]] == InList(s, i);
    }
    var fs, ps := Appended(es, free[0], e, LastOf(ids)), place[free[0] := InList(src, |ids|)];
    assert forall i :: 0 <= i < |lists[s]| ==>
      fs[lists[s][i]] == es[lists[s][i]] && ps[lists[s][i]] == place[lists[s][i]];
  }

  lemma AppendLists(es: seq<Node>, place: seq<Place>, free: seq<nat>, lists: map<Slot, seq<nat>>, src: Slot,
                    e: Waiter, w: Wake)
    requires |place| == |es| && FreeChain(es, place, free) && ListChains(es, place, lists) && free != []
    requires free[0] < |es| && (LastOf(IdsOf(lists, src)).Some? ==> LastOf(IdsOf(lists, src)).value < |es|)
    requires ShowsLists(es, place, lists, w)
    ensures var ids := IdsOf(lists, src);
      var fs, ps := Appended(es, free[0], e, LastOf(ids)), place[free[0] := InList(src, |ids|)];
      var ls := lists[src := ids + [free[0]]];
      && ListChains(fs, ps, ls) && ShowsLists(fs, ps, ls, w.(lists := w.lists[src := List(w, src) + [e]]))
  {
    var ids := IdsOf(lists, src);
    var fs, ps := Appended(es, free[0], e, LastOf(ids)), place[free[0] := InList(src, |ids|)];
    AppendOwn(es, place, free, lists, src, e);
    forall s | s in lists && s != src
      ensures ListChain(fs, ps, s, lists[s]) && Waiters(fs, lists[s]) == Waiters(es, lists[s]) {
      AppendOther(es, place, free, lists, src, e, s);
    }
  }

  // ----- splicing a list in front of the free list

  ghost function SplicedPlaces(place: seq<Place>, op: Slot, behind: nat, n: nat): (ps: seq<Place>)
    ensures |ps| == |place|
  {
    seq(|place|, x requires 0 <= x < |place| =>
      match place[x]
      case InList(s, pos) => if s == op then InFree(behind + n - 1 - pos) else place[x]
      case InFree(_) => place[x])
  }

  lemma SpliceChain(es: seq<Node>, place: seq<Place>, free: seq<nat>, lists: map<Slot, seq<nat>>, op: Slot)
    requires |place| == |es| && FreeChain(es, place, free) && ListChains(es, place, lists) && op in lists
    ensures var ids := lists[op]; var last := ids[|ids| - 1];
      && last < |es|
      && FreeChain(es[last := es[last].(next := First(free))], SplicedPlaces(place, op, |free|, |ids|), ids + free)
  {
    var ids := lists[op];
    var last := ids[|ids| - 1];
    assert ListChain(es, place, op, ids);
    var fs, ps, all := es[last := es[last].(next := First(free))], SplicedPlaces(place, op, |free|, |ids|), ids + free;
    assert place[last] == InList(op, |ids| - 1);
    forall i | 0 <= i < |all|
      ensures all[i] < |fs| && ps[all[i]] == InFree(|all| - 1 - i) && fs[all[i]].next == NextIn(all, i) {
      if i < |ids| {
        assert place[ids[i]] == InList(op, i);
      } else {
        assert all[i] == free[i - |ids|] && place[all[i]] == InFree(|all| - 1 - i);
      }
    }
  }

  lemma SpliceLists(es: seq<Node>, place: seq<Place>, free: seq<nat>, lists: map<Slot, seq<nat>>, op: Slot, w: Wake)
    requires |place| == |es| && ListChains(es, place, lists) && op in lists && ShowsLists(es, place, lists, w)
    ensures var ids := lists[op]; var last := ids[|ids| - 1];
      && last < |es| && |List(w, op)| == |ids|
      && var fs, ps := es[last := es[last].(next := First(free))], SplicedPlaces(place, op, |free|, |ids|);
         ListChains(fs, ps, lists - {op}) && ShowsLists(fs, ps, lists - {op}, FreeList(w, op))
  {
    var ids := lists[op];
    var last := ids[|ids| - 1];
    assert ListChain(es, place, op, ids);
    assert place[last] == InList(op, |ids| - 1);
    var fs, ps := es[last := es[last].(next := First(free))], SplicedPlaces(place, op, |free|, |ids|);
    forall s | s in lists && s != op
      ensures ListChain(fs, ps, s, lists[s]) && Waiters(fs, lists[s]) == Waiters(es, lists[s]) {
      assert ListChain(es, place, s, lists[s]);
    }
  }

  // ----- the same, for all parts at once

  ghost function AppendedChains(ch: Chains, src: Slot): Chains
    requires ch.free != [] && ch.free[0] < |ch.place|
  {
    var ids := IdsOf(ch.lists, src);
    Chains(ch.place[ch.free[0] := InList(src, |ids|)], ch.free[1..], ch.lists[src := ids + [ch.free[0]]])
  }

  function TailOf(ends: map<Slot, Ends>, src: Slot): Option<nat> {
    if src in ends then Some(ends[src].tail) else None
  }

  lemma TailIsLast(es: seq<Node>, place: seq<Place>, ends: map<Slot, Ends>, lists: map<Slot, seq<nat>>, src: Slot)
    requires |place| == |es| && ListChains(es, place, lists) && EndsMatch(ends, lists)
    ensures LastOf(IdsOf(lists, src)) == TailOf(ends, src)
    ensures src in ends ==> ends[src].tail < |es|
  {
    if src in lists {
      assert ListChain(es, place, src, lists[src]);
    }
  }

  lemma AppendAll(es: seq<Node>, ch: Chains, ends: map<Slot, Ends>, src: Slot, e: Waiter, w: Wake)
    requires Chained(es, ch) && ShowsLists(es, ch.place, ch.lists, w) && EndsMatch(ends, ch.lists) && ch.free != []
    ensures ch.free[0] < |es| && es[ch.free[0]].next == First(ch.free[1..])
    ensures src in ends ==> ends[src].tail < |es|
    ensures var fs := Appended(es, ch.free[0], e, TailOf(ends, src));
      var after := AppendedChains(ch, src);
      && |fs| == |es| && Chained(fs, after)
      && ShowsLists(fs, after.place, after.lists, w.(lists := w.lists[src := List(w, src) + [e]]))
  {
    TailIsLast(es, ch.place, ends, ch.lists, src);
    AppendChain(es, ch.place, ch.free, ch.lists, src, e);
    AppendLists(es, ch.place, ch.free, ch.lists, src, e, w);
  }

  lemma AppendEnds(es: seq<Node>, active: int, ch: Chains, ends: map<Slot, Ends>, src: Slot, w: Wake)
    requires Chained(es, ch) && EndsMatch(ends, ch.lists) && Counts(es, active, ch.free, w) && ch.free != []
    ensures ch.free[0] < |ch.place| && EndsMatch(Extended(ends, src, ch.free[0]), AppendedChains(ch, src).lists)
    ensures |AppendedChains(ch, src).free| == w.free - 1
  {
    assert src in ends ==> ListChain(es, ch.place, src, ch.lists[src]);
  }

  lemma AppendShows(es: seq<Node>, freeHead: Option<nat>, active: int, ends: map<Slot, Ends>, ch: Chains, src: Slot,
                    e: Waiter, w: Wake)
    requires PoolShows(es, freeHead, active, ends, ch, w) && ch.free != []
    ensures freeHead == Some(ch.free[0]) && ch.free[0] < |es| == |ch.place| && (src in ends ==> ends[src].tail < |es|)
    ensures PoolShows(Appended(es, ch.free[0], e, TailOf(ends, src)), es[ch.free[0]].next, active + 1,
      Extended(ends, src, ch.free[0]), AppendedChains(ch, src),
      w.(lists := w.lists[src := List(w, src) + [e]], free := w.free - 1, active := w.active + 1))
  {
    AppendAll(es, ch, ends, src, e, w);
    AppendEnds(es, active, ch, ends, src, w);
  }

  lemma SpliceEnds(es: seq<Node>, active: int, ch: Chains, ends: map<Slot, Ends>, op: Slot, w: Wake)
    requires Chained(es, ch) && ShowsLists(es, ch.place, ch.lists, w) && EndsMatch(ends, ch.lists)
    requires Counts(es, active, ch.free, w) && op in ends
    ensures EndsMatch(ends - {op}, SplicedChains(ch, op).lists)
    ensures First(SplicedChains(ch, op).free) == Some(ends[op].head)
    ensures |SplicedChains(ch, op).free| == w.free + |List(w, op)|
  {
    assert |List(w, op)| == |ch.lists[op]|;
  }

  ghost function SplicedChains(ch: Chains, op: Slot): Chains
    requires op in ch.lists
  {
    Chains(SplicedPlaces(ch.place, op, |ch.free|, |ch.lists[op]|), ch.lists[op] + ch.free, ch.lists - {op})
  }

  lemma SpliceAll(es: seq<Node>, ch: Chains, ends: map<Slot, Ends>, op: Slot, w: Wake)
    requires Chained(es, ch) && ShowsLists(es, ch.place, ch.lists, w) && EndsMatch(ends, ch.lists) && op in ends
    ensures ends[op] == Ends(ch.lists[op][0], ends[op].tail, |List(w, op)|) && ends[op].tail < |es|
    ensures var fs := es[ends[op].tail := es[ends[op].tail].(next := First(ch.free))];
      var after := SplicedChains(ch, op);
      Chained(fs, after) && ShowsLists(fs, after.place, after.lists, FreeList(w, op))
  {
    assert op in ch.lists;
    SpliceChain(es, ch.place, ch.free, ch.lists, op);
    SpliceLists(es, ch.place, ch.free, ch.lists, op, w);
  }
}
