/**
 * Many threads inserting into one heap. A step is what a thread does while it holds a page's
 * latch, or what it does to a page no other thread knows; between steps any other thread may run.
 */
module ChainExtension {
  import opened Bytes
  import opened Options
  import opened PageLayout
  import opened HeapModel

  /** Where an insert is: about to visit a page, between its latches, or over. */
  datatype Pc =
    | At(page: nat)
    | Making(page: nat)
    | Linking(page: nat, made: nat)
    | Discarding(next: nat, made: nat)
    | Returned(rid: RID)
    | GaveUp
    | Threw

  datatype Thread = Thread(tuple: seq<byte>, created: bool, pc: Pc)

  /** The pages, the heap's chain, and the inserts under way. */
  datatype State = State(pages: View, chain: seq<nat>, threads: map<nat, Thread>)

  /** `page` stands for the bytes the step leaves behind, `slot` for where a visit put the tuple. */
  datatype Step =
    | Start(t: nat, tuple: seq<byte>)
    | Visit(t: nat, slot: Option<nat>, page: PageBytes)
    | NoFrame(t: nat)
    | Make(t: nat, made: nat, page: PageBytes)
    | NoPage(t: nat)
    | Link(t: nat, page: PageBytes)
    | Discard(t: nat)
    | Erase(rid: RID, page: PageBytes)

  predicate Over(th: Thread) { th.pc.Returned? || th.pc.GaveUp? || th.pc.Threw? }

  ghost predicate LinkSet(d: PageBytes, d': PageBytes, next: nat)
    requires Layout(d)
  {
    && Layout(d') && NextPage(d') == next && Tuples(d') == Tuples(d)
    && SlotCount(d') == SlotCount(d) && FreeOffset(d') == FreeOffset(d)
  }

  ghost predicate Enabled(s: State, step: Step) {
    match step
    case Start(t, _) => t in s.threads ==> Over(s.threads[t])
    case Visit(t, slot, d) =>
      && t in s.threads && s.threads[t].pc.At? && s.threads[t].pc.page in s.pages
      && Layout(s.pages[s.threads[t].pc.page]) && Visited(s.pages[s.threads[t].pc.page], d, slot, s.threads[t].tuple)
    case NoFrame(t) => t in s.threads && s.threads[t].pc.At?
    case Make(t, made, d) =>
      t in s.threads && s.threads[t].pc.Making? && made !in s.pages && made < INVALID_PAGE && Fresh(d)
    case NoPage(t) => t in s.threads && s.threads[t].pc.Making?
    case Link(t, d) =>
      && t in s.threads && s.threads[t].pc.Linking? && s.threads[t].pc.page in s.pages
      && Layout(s.pages[s.threads[t].pc.page])
      && (NextPage(s.pages[s.threads[t].pc.page]) == INVALID_PAGE ==>
            LinkSet(s.pages[s.threads[t].pc.page], d, s.threads[t].pc.made))
    case Discard(t) => t in s.threads && s.threads[t].pc.Discarding?
    case Erase(rid, d) =>
      rid.page in s.chain && rid.page in s.pages && Layout(s.pages[rid.page]) && Deleted(s.pages[rid.page], d, rid.slot)
  }

  ghost predicate Fresh(d: PageBytes) { Empty(d) && NextPage(d) == INVALID_PAGE }

  function Goto(s: State, t: nat, pc: Pc): map<nat, Thread>
    requires t in s.threads
  {
    s.threads[t := s.threads[t].(pc := pc)]
  }

  ghost function Apply(s: State, step: Step): State
    requires Enabled(s, step)
  {
    match step
    case Start(t, tuple) => if s.chain == [] then s
        else s.(threads := s.threads[t := Thread(tuple, false, At(s.chain[0]))])
    case Visit(t, slot, d) =>
      var p := s.threads[t].pc.page;
      var pages: View := s.pages[p := d];
      var pc := if slot.Some? then Returned(RID(p, slot.value))
                else if NextPage(d) != INVALID_PAGE then At(NextPage(d))
                else if s.threads[t].created then Threw else Making(p);
      State(pages, s.chain, Goto(s, t, pc))
    case NoFrame(t) => s.(threads := Goto(s, t, GaveUp))
    case Make(t, made, d) =>
      var pages: View := s.pages[made := d];
      State(pages, s.chain, s.threads[t := Thread(s.threads[t].tuple, true, Linking(s.threads[t].pc.page, made))])
    case NoPage(t) => s.(threads := Goto(s, t, Threw))
    case Link(t, d) =>
      var p, made := s.threads[t].pc.page, s.threads[t].pc.made;
      if NextPage(s.pages[p]) == INVALID_PAGE then
        var pages: View := s.pages[p := d];
        State(pages, s.chain + [made], Goto(s, t, At(made)))
      else s.(threads := Goto(s, t, Discarding(NextPage(s.pages[p]), made)))
    case Discard(t) =>
      s.(pages := s.pages - {s.threads[t].pc.made}, threads := Goto(s, t, At(s.threads[t].pc.next)))
    case Erase(rid, d) =>
      var pages: View := s.pages[rid.page := d];
      s.(pages := pages)
  }

  // ---- the invariant ----

  /** A page that one thread has made and nobody else knows. */
  ghost predicate Private(s: State, q: nat) {
    q in s.pages && q !in s.chain && q < INVALID_PAGE && Fresh(s.pages[q])
  }

  ghost predicate PcOK(s: State, pc: Pc) {
    match pc
    case At(p) => p in s.chain
    case Making(p) => p in s.chain
    case Linking(p, made) => p in s.chain && Private(s, made)
    case Discarding(next, made) => next in s.chain && Private(s, made)
    case _ => true
  }

  function Made(pc: Pc): Option<nat> {
    match pc
    case Linking(_, made) => Some(made)
    case Discarding(_, made) => Some(made)
    case _ => None
  }

  ghost predicate Apart2(s: State, t: nat, u: nat)
    requires t in s.threads && u in s.threads
  {
    t != u && Made(s.threads[t].pc).Some? ==> Made(s.threads[t].pc) != Made(s.threads[u].pc)
  }

  ghost predicate Inv(s: State) {
    && ChainOf(s.pages, s.chain)
    && (forall t | t in s.threads :: PcOK(s, s.threads[t].pc))
    && (forall t, u | t in s.threads && u in s.threads :: Apart2(s, t, u))
  }

  /** A chain page changed, its link as before, the thread moved on within the chain. */
  lemma PageStepKeepsInv(s: State, p: nat, d: PageBytes)
    requires Inv(s) && p in s.chain && ChainOf(s.pages[p := d], s.chain)
    ensures var pages: View := s.pages[p := d]; Inv(s.(pages := pages))
  {
    var pages: View := s.pages[p := d];
    var s' := s.(pages := pages);
    forall t | t in s'.threads ensures PcOK(s', s'.threads[t].pc) {
      assert PcOK(s, s.threads[t].pc);
      hide ChainOf, Layout, Tuples;
    }
    forall t, u | t in s'.threads && u in s'.threads ensures Apart2(s', t, u) {
      assert Apart2(s, t, u);
    }
    hide ChainOf, PcOK, Apart2;
  }

  /** One thread changes its place, to one that is in order and claims no page of another thread. */
  lemma MoveKeepsInv(s: State, t: nat, th: Thread)
    requires Inv(s) && PcOK(s, th.pc)
    requires Made(th.pc).Some? ==> t in s.threads && Made(s.threads[t].pc) == Made(th.pc)
    ensures Inv(s.(threads := s.threads[t := th]))
  {
    hide ChainOf, Private;
    var s' := s.(threads := s.threads[t := th]);
    forall u | u in s'.threads ensures PcOK(s', s'.threads[u].pc) {
      assert u != t ==> PcOK(s, s.threads[u].pc);
      SamePc(s, s', s'.threads[u].pc);
    }
    forall u, w | u in s'.threads && w in s'.threads ensures Apart2(s', u, w) {
      assert u in s.threads && w in s.threads ==> Apart2(s, u, w);
    }
    hide PcOK, Apart2;
  }

  lemma SamePc(s: State, s': State, pc: Pc)
    requires s'.pages == s.pages && s'.chain == s.chain && PcOK(s, pc)
    ensures PcOK(s', pc)
  {
    hide Layout, Tuples;
  }

  /** The page after one with a link is in the chain; a page without one is the last. */
  lemma FollowLink(v: View, chain: seq<nat>, p: nat)
    requires ChainOf(v, chain) && p in chain
    ensures NextPage(v[p]) == INVALID_PAGE ==> p == chain[|chain| - 1]
    ensures NextPage(v[p]) != INVALID_PAGE ==> NextPage(v[p]) in chain
  {
    hide Layout;
    var i :| 0 <= i < |chain| && chain[i] == p;
    assert LinkedAt(v, chain, i);
    if i + 1 < |chain| {
      assert chain[i + 1] in chain;
    }
  }

  lemma StartChain(s: State)
    requires Inv(s)
    ensures s.chain != [] && s.chain[0] in s.chain
  {
  }

  lemma VisitKeeps(s: State, step: Step)
    requires Inv(s) && Enabled(s, step) && step.Visit?
    ensures Inv(Apply(s, step))
    ensures MapAfter(s, step, Apply(s, step))
  {
    hide Layout, Tuples, ChainOf, Visited, PcOK, Apart2, HeapMap, Inv;
    var p := s.threads[step.t].pc.page;
    VisitsChain(s, step.t);
    PageVisited(s.pages, s.chain, p, step.page, step.slot, s.threads[step.t].tuple);
    PageStepKeepsInv(s, p, step.page);
    var pages: View := s.pages[p := step.page];
    VisitedLink(s.pages[p], step.page, step.slot, s.threads[step.t].tuple);
    FollowLink(pages, s.chain, p);
    var s1, s' := s.(pages := pages), Apply(s, step);
    PlaceOK(s1, p, s'.threads[step.t].pc);
    MoveKeepsInv(s1, step.t, s'.threads[step.t]);
    assert s' == s1.(threads := s1.threads[step.t := s'.threads[step.t]]);
  }

  lemma VisitedLink(d: PageBytes, d': PageBytes, slot: Option<nat>, tuple: seq<byte>)
    requires Layout(d) && Visited(d, d', slot, tuple)
    ensures NextPage(d') == NextPage(d)
  {
  }

  lemma VisitsChain(s: State, t: nat)
    requires Inv(s) && t in s.threads && (s.threads[t].pc.At? || s.threads[t].pc.Making? || s.threads[t].pc.Linking?)
    ensures ChainOf(s.pages, s.chain) && s.threads[t].pc.page in s.chain
  {
    assert PcOK(s, s.threads[t].pc);
  }

  lemma PlaceOK(s: State, p: nat, pc: Pc)
    requires p in s.chain
    requires pc.Returned? || pc.Threw? || pc == Making(p) || (pc.At? && pc.page in s.chain)
    ensures PcOK(s, pc) && Made(pc) == None
  {
  }

  /** What a step does to the map of tuples, and the RID an insert returns. */
  ghost predicate MapAfter(s: State, step: Step, s': State) {
    && ChainOf(s.pages, s.chain) && ChainOf(s'.pages, s'.chain)
    && var m, m' := HeapMap(s.pages, s.chain), HeapMap(s'.pages, s'.chain);
       match step
       case Visit(t, slot, _) =>
         && t in s.threads && s.threads[t].pc.At?
         && if slot.Some?
            then var rid := RID(s.threads[t].pc.page, slot.value);
                 && rid !in m && m' == m[rid := s.threads[t].tuple]
                 && t in s'.threads && s'.threads[t].pc == Returned(rid)
            else m' == m
       case Erase(rid, _) => m' == m - {rid}
       case _ => m' == m
  }

  /** Links and chain only grow: a link once set stays, and no page leaves the chain. */
  ghost predicate LinksKept(s: State, s': State) {
    && s.chain <= s'.chain
    && forall p | p in s.chain ::
        p in s.pages && p in s'.pages && (NextPage(s.pages[p]) != INVALID_PAGE ==>
            NextPage(s'.pages[p]) == NextPage(s.pages[p]))
  }

  lemma EraseKeeps(s: State, step: Step)
    requires Inv(s) && Enabled(s, step) && step.Erase?
    ensures Inv(Apply(s, step)) && MapAfter(s, step, Apply(s, step))
  {
    hide Layout, Tuples, PcOK, Apart2, HeapMap, Deleted;
    PageDeleted(s.pages, s.chain, step.rid, step.page);
    PageStepKeepsInv(s, step.rid.page, step.page);
    hide ChainOf, Inv;
  }

  lemma MakeKeeps(s: State, step: Step)
    requires Inv(s) && Enabled(s, step) && step.Make?
    ensures Inv(Apply(s, step)) && MapAfter(s, step, Apply(s, step))
  {
    hide Layout, Tuples;
    var s' := Apply(s, step);
    InPages(s, step.made);
    PageAdded(s.pages, s.chain, step.made, step.page);
    assert PcOK(s, s.threads[step.t].pc);
    forall t | t in s'.threads ensures PcOK(s', s'.threads[t].pc) {
      if t != step.t {
        assert PcOK(s, s.threads[t].pc);
        if Made(s.threads[t].pc).Some? {
          MadeIsPrivate(s, t);
        }
        hide PcOK, Inv;
        PcKept(s, s', s.threads[t].pc);
      }
    }
    hide HeapMap, ChainOf, PcOK;
    forall t, u | t in s'.threads && u in s'.threads ensures Apart2(s', t, u) {
      assert Apart2(s, t, u);
      if Made(s.threads[t].pc).Some? {
        MadeIsPrivate(s, t);
      }
      if Made(s.threads[u].pc).Some? {
        MadeIsPrivate(s, u);
      }
    }
    hide Apart2;
  }

  lemma InPages(s: State, q: nat)
    requires Inv(s) && q !in s.pages
    ensures q !in s.chain
  {
  }

  /** Pages outside the chain do not matter to the heap. */
  lemma PageAdded(v: View, chain: seq<nat>, q: nat, d: PageBytes)
    requires ChainOf(v, chain) && q !in chain
    ensures ChainOf(v[q := d], chain) && HeapMap(v[q := d], chain) == HeapMap(v, chain)
    ensures ChainOf(v - {q}, chain) && HeapMap(v - {q}, chain) == HeapMap(v, chain)
  {
    hide Layout, Tuples;
    var v1: View := v[q := d];
    var v2: View := v - {q};
    forall i: nat | i < |chain| ensures LinkedAt(v1, chain, i) && LinkedAt(v2, chain, i) {
      assert chain[i] in chain && LinkedAt(v, chain, i);
    }
    assert PageMaps(v1, chain) == PageMaps(v, chain) && PageMaps(v2, chain) == PageMaps(v, chain);
  }

  lemma DiscardKeeps(s: State, step: Step)
    requires Inv(s) && Enabled(s, step) && step.Discard?
    ensures Inv(Apply(s, step)) && MapAfter(s, step, Apply(s, step))
  {
    hide Layout, Tuples;
    var s', q := Apply(s, step), s.threads[step.t].pc.made;
    assert PcOK(s, s.threads[step.t].pc);
    PageAdded(s.pages, s.chain, q, s.pages[q]);
    hide HeapMap;
    forall t | t in s'.threads ensures PcOK(s', s'.threads[t].pc) {
      assert PcOK(s, s.threads[t].pc) && Apart2(s, step.t, t);
      hide ChainOf;
    }
    forall t, u | t in s'.threads && u in s'.threads ensures Apart2(s', t, u) {
      assert Apart2(s, t, u);
    }
    hide ChainOf, PcOK, Apart2;
  }

  lemma PcKept(s: State, s': State, pc: Pc)
    requires PcOK(s, pc) && s.chain <= s'.chain
    requires Made(pc).Some? ==>
               var q := Made(pc).value; q in s.pages && q in s'.pages && s'.pages[q] == s.pages[q] && q !in s'.chain
    ensures PcOK(s', pc)
  {
    hide Layout, Tuples;
    assert forall p | p in s.chain :: p in s'.chain;
  }

  lemma MadeIsPrivate(s: State, t: nat)
    requires Inv(s) && t in s.threads && Made(s.threads[t].pc).Some?
    ensures Private(s, Made(s.threads[t].pc).value)
  {
    assert PcOK(s, s.threads[t].pc);
  }

  lemma PagesApart(s: State, t: nat, u: nat)
    requires Inv(s) && t in s.threads && u in s.threads && t != u && Made(s.threads[t].pc).Some?
    ensures Made(s.threads[u].pc) != Made(s.threads[t].pc)
  {
    assert Apart2(s, t, u);
  }

  /** The other threads after one thread has linked its page behind the last one. */
  lemma LinkedThread(s: State, s': State, p: nat, q: nat, t: nat, u: nat)
    requires Inv(s) && t in s.threads && Made(s.threads[t].pc) == Some(q) && u in s.threads && u != t
    requires p in s.chain && s'.chain == s.chain + [q] && s'.pages.Keys == s.pages.Keys
    requires forall r | r in s.pages && r != p :: s'.pages[r] == s.pages[r]
    ensures PcOK(s', s.threads[u].pc)
  {
    PagesApart(s, t, u);
    if Made(s.threads[u].pc).Some? {
      MadeIsPrivate(s, u);
    }
    assert PcOK(s, s.threads[u].pc);
    hide Inv, PcOK, Layout, Tuples;
    PcKept(s, s', s.threads[u].pc);
  }

  lemma SameApart(s: State, s': State, t: nat)
    requires Inv(s) && t in s.threads && s'.threads.Keys == s.threads.Keys && Made(s'.threads[t].pc) == None
    requires forall u | u in s.threads && u != t :: s'.threads[u] == s.threads[u]
    ensures forall u, w | u in s'.threads && w in s'.threads :: Apart2(s', u, w)
  {
    hide ChainOf, PcOK;
    forall u, w | u in s'.threads && w in s'.threads ensures Apart2(s', u, w) {
      assert Apart2(s, u, w);
    }
  }

  lemma LinkKeeps(s: State, step: Step)
    requires Inv(s) && Enabled(s, step) && step.Link?
    ensures Inv(Apply(s, step)) && MapAfter(s, step, Apply(s, step))
  {
    hide Layout, Tuples;
    var s', p, q := Apply(s, step), s.threads[step.t].pc.page, s.threads[step.t].pc.made;
    assert PcOK(s, s.threads[step.t].pc);
    FollowLink(s.pages, s.chain, p);
    if NextPage(s.pages[p]) != INVALID_PAGE {
      hide ChainOf, HeapMap;
      MoveKeepsInv(s, step.t, s'.threads[step.t]);
    } else {
      LinkExtends(s, p, q, step.page);
      assert s'.pages[p] == step.page;
      SameApart(s, s', step.t);
      forall u | u in s'.threads ensures PcOK(s', s'.threads[u].pc) {
        if u != step.t {
          LinkedThread(s, s', p, q, step.t, u);
        }
      }
      hide ChainOf, PcOK, Apart2, HeapMap;
    }
  }

  /** A thread that comes too late with its page drops it and goes on with the one linked in its place. */
  lemma LostRaceGoesOn(s: State, t: nat, d: PageBytes)
    requires Inv(s) && Enabled(s, Link(t, d)) && NextPage(s.pages[s.threads[t].pc.page]) != INVALID_PAGE
    ensures var s1, next := Apply(s, Link(t, d)), NextPage(s.pages[s.threads[t].pc.page]);
            && Enabled(s1, Discard(t))
            && var s2 := Apply(s1, Discard(t));
               && s2.pages == s.pages - {s.threads[t].pc.made} && s2.chain == s.chain && next in s.chain
               && s2.threads == s.threads[t := s.threads[t].(pc := At(next))]
  {
    hide Layout, Tuples, Private;
    assert PcOK(s, s.threads[t].pc);
    FollowLink(s.pages, s.chain, s.threads[t].pc.page);
    hide ChainOf, Inv;
  }

  lemma LinkExtends(s: State, p: nat, q: nat, d: PageBytes)
    requires ChainOf(s.pages, s.chain) && p == s.chain[|s.chain| - 1] && Private(s, q) && LinkSet(s.pages[p], d, q)
    ensures ChainOf(s.pages[p := d], s.chain + [q])
              && HeapMap(s.pages[p := d], s.chain + [q]) == HeapMap(s.pages, s.chain)
  {
    hide Layout, Tuples;
    PageAdded(s.pages, s.chain, q, s.pages[q]);
    var v: View := s.pages - {q};
    ChainExtended(v, s.chain, d, q, s.pages[q]);
    assert Relinked(v, s.chain, d, q, s.pages[q]) == s.pages[p := d];
    hide HeapMap, ChainOf;
  }

  lemma QuietKeeps(s: State, step: Step)
    requires Inv(s) && Enabled(s, step) && (step.Start? || step.NoFrame? || step.NoPage?)
    ensures Inv(Apply(s, step)) && MapAfter(s, step, Apply(s, step))
  {
    StartChain(s);
    hide ChainOf, HeapMap;
    MoveKeepsInv(s, step.t, Apply(s, step).threads[step.t]);
  }

  /** Every step keeps the chain acyclic and complete, and does to the tuples what it should. */
  lemma StepKeeps(s: State, step: Step)
    requires Inv(s) && Enabled(s, step)
    ensures Inv(Apply(s, step)) && MapAfter(s, step, Apply(s, step)) && LinksKept(s, Apply(s, step))
  {
    hide Inv, MapAfter;
    match step {
      case Visit(_, _, _) => VisitKeeps(s, step);
      case Make(_, _, _) => MakeKeeps(s, step);
      case Link(_, _) => LinkKeeps(s, step);
      case Discard(_) => DiscardKeeps(s, step);
      case Erase(_, _) => EraseKeeps(s, step);
      case _ => QuietKeeps(s, step);
    }
    StepKeepsLinks(s, step);
  }

  lemma StepKeepsLinks(s: State, step: Step)
    requires Inv(s) && Enabled(s, step)
    ensures LinksKept(s, Apply(s, step))
  {
    hide Layout, Tuples;
    assert step.Discard? ==> PcOK(s, s.threads[step.t].pc);
    assert step.Make? ==> PcOK(s, s.threads[step.t].pc);
  }

  // ---- whole runs ----

  ghost predicate StepAt(steps: seq<Step>, states: seq<State>, i: nat)
    requires i < |steps| && |states| == |steps| + 1
  {
    Enabled(states[i], steps[i]) && states[i + 1] == Apply(states[i], steps[i])
  }

  /** Any interleaving of any number of inserts and deletes, from a heap at rest. */
  ghost predicate Run(steps: seq<Step>, states: seq<State>) {
    && |states| == |steps| + 1
    && ChainOf(states[0].pages, states[0].chain) && states[0].threads == map[]
    && forall i: nat | i < |steps| :: StepAt(steps, states, i)
  }

  lemma {:induction false} RunKeeps(steps: seq<Step>, states: seq<State>, i: nat)
    requires Run(steps, states) && i <= |steps|
    ensures Inv(states[i])
  {
    if i > 0 {
      RunKeeps(steps, states, i - 1);
      assert StepAt(steps, states, i - 1);
      hide Inv, Enabled, Apply, MapAfter, LinksKept;
      StepKeeps(states[i - 1], steps[i - 1]);
    }
  }

  /**
   * Over a whole run the chain is only added to at its end, every link is set at most once,
   * and no page of the chain is ever discarded.
   */
  lemma {:induction false} LinksSetOnce(steps: seq<Step>, states: seq<State>, i: nat, j: nat)
    requires Run(steps, states) && i <= j <= |steps|
    ensures ChainOf(states[j].pages, states[j].chain) && LinksKept(states[i], states[j])
    decreases j
  {
    hide Apply, MapAfter, Enabled;
    RunKeeps(steps, states, j);
    if i < j {
      LinksSetOnce(steps, states, i, j - 1);
      assert StepAt(steps, states, j - 1);
      RunKeeps(steps, states, j - 1);
      hide Run, Inv;
      StepKeeps(states[j - 1], steps[j - 1]);
      LinksKeptOn(states[i], states[j - 1], states[j]);
    } else {
      hide Run;
      ChainPages(states[i]);
    }
  }

  lemma LinksKeptOn(a: State, b: State, c: State)
    requires LinksKept(a, b) && LinksKept(b, c)
    ensures LinksKept(a, c)
  {
    assert forall p | p in a.chain :: p in b.chain;
  }

  lemma ChainPages(s: State)
    requires Inv(s)
    ensures LinksKept(s, s)
  {
    hide Layout;
  }

  /** Step `k` is an insert that ends with the tuple at `rid`. */
  ghost predicate Returns(steps: seq<Step>, states: seq<State>, k: nat, rid: RID)
    requires k < |steps| && |states| == |steps| + 1
  {
    && steps[k].Visit? && steps[k].slot.Some? && steps[k].t in states[k].threads
    && states[k].threads[steps[k].t].pc == At(rid.page) && steps[k].slot.value == rid.slot
  }

  lemma {:induction false} ReturnedStays(steps: seq<Step>, states: seq<State>, i: nat, m: nat, rid: RID)
    requires Run(steps, states) && i < m <= |steps| && Returns(steps, states, i, rid)
    requires forall k | i < k < m :: !(steps[k].Erase? && steps[k].rid == rid)
    ensures ChainOf(states[m].pages, states[m].chain) && rid in HeapMap(states[m].pages, states[m].chain)
    decreases m
  {
    hide HeapMap, Enabled, Apply, LinksKept, Layout;
    assert StepAt(steps, states, m - 1);
    RunKeeps(steps, states, m - 1);
    if i < m - 1 {
      ReturnedStays(steps, states, i, m - 1, rid);
    }
    hide Run, Inv;
    StepKeeps(states[m - 1], steps[m - 1]);
  }

  /** No RID is returned by two inserts unless it was deleted in between. */
  lemma LiveRidNotReturnedTwice(steps: seq<Step>, states: seq<State>, i: nat, j: nat, rid: RID)
    requires Run(steps, states) && i < j < |steps| && Returns(steps, states, i, rid) && Returns(steps, states, j, rid)
    ensures exists k :: i < k < j && steps[k].Erase? && steps[k].rid == rid
  {
    hide HeapMap, Enabled, Apply, LinksKept, Layout;
    if forall k | i < k < j :: !(steps[k].Erase? && steps[k].rid == rid) {
      ReturnedStays(steps, states, i, j, rid);
      assert StepAt(steps, states, j);
      RunKeeps(steps, states, j);
      hide Run, Inv;
      StepKeeps(states[j], steps[j]);
      assert false;
    }
  }

  // ---- when a freshly created page is full ----

  /** The tuples that insert accepts. */
  predicate Small(tuple: seq<byte>) { |tuple| + HEADER_SIZE + SLOT_SIZE <= PAGE_SIZE }

  predicate SmallTuples(s: State) {
    forall t | t in s.threads :: Small(s.threads[t].tuple)
  }

  predicate SmallStarts(steps: seq<Step>) {
    forall i | 0 <= i < |steps| && steps[i].Start? :: Small(steps[i].tuple)
  }

  lemma {:induction false} TuplesStaySmall(steps: seq<Step>, states: seq<State>, m: nat)
    requires Run(steps, states) && SmallStarts(steps) && m <= |steps|
    ensures SmallTuples(states[m])
  {
    hide ChainOf, Layout, Visited, Fresh, LinkSet, Deleted;
    if m > 0 {
      TuplesStaySmall(steps, states, m - 1);
      assert StepAt(steps, states, m - 1);
    }
  }

  /** The pages that have joined the chain since it was `old_chain` are all empty. */
  ghost predicate NewPagesEmpty(s: State, old_chain: seq<nat>) {
    && old_chain <= s.chain
    && forall p | p in s.chain && p !in old_chain :: p in s.pages && Empty(s.pages[p])
  }

  /** Thread `t` is busy with the end of the chain `old_chain`, or already on a page that joined later. */
  ghost predicate Beyond(s: State, old_chain: seq<nat>, t: nat) {
    && t in s.threads && old_chain != []
    && match s.threads[t].pc
       case Making(p) => p == old_chain[|old_chain| - 1]
       case Linking(p, _) => p == old_chain[|old_chain| - 1]
       case Discarding(next, _) => next in s.chain && next !in old_chain
       case At(p) => p in s.chain && p !in old_chain
       case _ => true
  }

  ghost predicate OverOrBeyond(s: State, old_chain: seq<nat>, t: nat) {
    && t in s.threads && (Over(s.threads[t]) || (NewPagesEmpty(s, old_chain) && Beyond(s, old_chain, t)))
  }

  /** No insert of another thread returns in this step, and `t` starts no new one. */
  predicate Undisturbed(step: Step, t: nat) {
    !(step.Start? && step.t == t) && !(step.Visit? && step.slot.Some? && step.t != t)
  }

  lemma EmptyTakesSmall(d: PageBytes, d': PageBytes, slot: Option<nat>, tuple: seq<byte>)
    requires Empty(d) && Small(tuple) && Layout(d) && Visited(d, d', slot, tuple)
    ensures slot.Some?
  {
    EmptyTakes(d, |tuple|);
    hide Layout, Tuples, PageTakes;
  }

  lemma EmptyStaysEmpty(d: PageBytes, d': PageBytes, slot: nat)
    requires Empty(d) && Layout(d)
    ensures Deleted(d, d', slot) ==> Empty(d')
    ensures LinkSet(d, d', NextPage(d')) ==> Empty(d')
  {
    hide Layout, Tuples;
  }

  lemma VisitEffect(s: State, step: Step)
    requires Enabled(s, step) && step.Visit?
    ensures var s', th := Apply(s, step), s.threads[step.t];
            && s'.chain == s.chain && s'.pages == s.pages[th.pc.page := step.page]
            && step.t in s'.threads && s'.threads[step.t].tuple == th.tuple
            && (forall u | u in s.threads && u != step.t :: u in s'.threads && s'.threads[u] == s.threads[u])
            && (step.slot.Some? ==> Over(s'.threads[step.t]))
  {
    hide Layout, Visited;
  }

  /** A page that joined later is met only by a visit that puts its tuple there. */
  lemma VisitFits(s: State, step: Step, old_chain: seq<nat>)
    requires Enabled(s, step) && step.Visit? && SmallTuples(s) && NewPagesEmpty(s, old_chain)
    requires s.threads[step.t].pc.page in s.chain && s.threads[step.t].pc.page !in old_chain
    ensures step.slot.Some?
  {
    var p := s.threads[step.t].pc.page;
    hide Layout, Visited, Empty;
    EmptyTakesSmall(s.pages[p], step.page, step.slot, s.threads[step.t].tuple);
  }

  lemma VisitUndisturbed(s: State, step: Step, old_chain: seq<nat>, t: nat)
    requires Inv(s) && Enabled(s, step) && step.Visit? && SmallTuples(s) && Undisturbed(step, t)
    requires NewPagesEmpty(s, old_chain) && Beyond(s, old_chain, t) && !Over(s.threads[t])
    ensures OverOrBeyond(Apply(s, step), old_chain, t)
    ensures step.t == t ==> step.slot.Some?
  {
    assert s.threads[step.t].pc.At?;
    var p, s' := s.threads[step.t].pc.page, Apply(s, step);
    VisitsChain(s, step.t);
    VisitEffect(s, step);
    if p !in old_chain {
      VisitFits(s, step, old_chain);
    }
    hide Inv, Enabled, Apply, SmallTuples;
    if step.t != t {
      OldPageChanged(s, s', old_chain, p);
      BeyondKept(s, s', old_chain, t);
    }
  }

  lemma OldPageChanged(s: State, s': State, old_chain: seq<nat>, p: nat)
    requires NewPagesEmpty(s, old_chain) && s'.chain == s.chain && p in s.pages && p in s'.pages && p in old_chain
    requires s'.pages == s.pages[p := s'.pages[p]]
    ensures NewPagesEmpty(s', old_chain)
  {
    hide Empty;
  }

  /** The page that `t` found to be the last has got a successor: it has joined since. */
  lemma SuccessorJoinedLater(v: View, chain: seq<nat>, old_chain: seq<nat>)
    requires ChainOf(v, chain) && old_chain <= chain && old_chain != []
    ensures var last := old_chain[|old_chain| - 1];
            last in v && (NextPage(v[last]) != INVALID_PAGE ==>
                NextPage(v[last]) in chain && NextPage(v[last]) !in old_chain)
  {
    hide Layout;
    var i := |old_chain| - 1;
    assert chain[i] == old_chain[i] && chain[i] in chain;
    assert LinkedAt(v, chain, i);
    if |old_chain| < |chain| {
      assert chain[i + 1] in chain;
      assert forall k :: 0 <= k < |old_chain| ==> old_chain[k] == chain[k];
    }
  }

  lemma BeyondKept(s: State, s': State, old_chain: seq<nat>, t: nat)
    requires Beyond(s, old_chain, t) && s.chain <= s'.chain && t in s'.threads && s'.threads[t] == s.threads[t]
    ensures Beyond(s', old_chain, t)
  {
    assert forall p | p in s.chain :: p in s'.chain;
  }

  /** What linking does, whether the page found has got a successor in the meantime or not. */
  lemma LinkEffect(s: State, step: Step)
    requires Enabled(s, step) && step.Link?
    ensures var s', th := Apply(s, step), s.threads[step.t];
            if NextPage(s.pages[th.pc.page]) != INVALID_PAGE
            then s'.pages == s.pages && s'.chain == s.chain
                 && s'.threads == s.threads[step.t := th.(pc := Discarding(NextPage(s.pages[th.pc.page]), th.pc.made))]
            else s'.chain == s.chain + [th.pc.made] && s'.threads == s.threads[step.t := th.(pc := At(th.pc.made))]
  {
    hide Layout, LinkSet;
  }

  lemma LinkUndisturbed(s: State, step: Step, old_chain: seq<nat>, t: nat)
    requires Inv(s) && Enabled(s, step) && step.Link?
    requires NewPagesEmpty(s, old_chain) && Beyond(s, old_chain, t) && !Over(s.threads[t])
    ensures OverOrBeyond(Apply(s, step), old_chain, t)
  {
    var p, s' := s.threads[step.t].pc.page, Apply(s, step);
    LinkEffect(s, step);
    LinkKeepsNewPages(s, step, old_chain);
    LinkedBeyond(s, s', step, old_chain, t);
    hide Inv, Enabled, Apply, NewPagesEmpty, Beyond;
  }

  lemma LinkKeepsNewPages(s: State, step: Step, old_chain: seq<nat>)
    requires Inv(s) && Enabled(s, step) && step.Link? && NewPagesEmpty(s, old_chain)
    ensures NewPagesEmpty(Apply(s, step), old_chain)
  {
    assert PcOK(s, s.threads[step.t].pc);
    LinkEffect(s, step);
    hide Inv, Enabled, Apply, Layout;
    if NextPage(s.pages[s.threads[step.t].pc.page]) != INVALID_PAGE {
      SamePages(s, Apply(s, step), old_chain);
    } else {
      LinkedPagesEmpty(s, step, old_chain);
    }
  }

  lemma LinkedBeyond(s: State, s': State, step: Step, old_chain: seq<nat>, t: nat)
    requires Inv(s) && step.Link? && Enabled(s, step) && s' == Apply(s, step)
    requires Beyond(s, old_chain, t) && old_chain <= s.chain
    ensures Beyond(s', old_chain, t)
  {
    assert s.threads[step.t].pc.Linking?;
    if step.t == t {
      LinkerBeyond(s, step, old_chain);
    } else {
      LinkEffect(s, step);
      hide Inv, Enabled, Apply, Beyond;
      BeyondKept(s, s', old_chain, t);
    }
  }

  lemma LinkerBeyond(s: State, step: Step, old_chain: seq<nat>)
    requires Inv(s) && step.Link? && Enabled(s, step)
    requires Beyond(s, old_chain, step.t) && old_chain <= s.chain
    ensures Beyond(Apply(s, step), old_chain, step.t)
  {
    hide Inv, Apply, ChainOf, Fresh, PcOK, Layout, LinkSet;
    assert s.threads[step.t].pc.Linking? && old_chain != [];
    LinkEffect(s, step);
    VisitsChain(s, step.t);
    MadeIsPrivate(s, step.t);
    hide Enabled;
    SuccessorJoinedLater(s.pages, s.chain, old_chain);
    assert forall r | r in old_chain :: r in s.chain;
  }

  lemma LinkedPagesEmpty(s: State, step: Step, old_chain: seq<nat>)
    requires Enabled(s, step) && step.Link? && NewPagesEmpty(s, old_chain) && Private(s, s.threads[step.t].pc.made)
    requires NextPage(s.pages[s.threads[step.t].pc.page]) == INVALID_PAGE
    ensures NewPagesEmpty(Apply(s, step), old_chain)
  {
    var p, q := s.threads[step.t].pc.page, s.threads[step.t].pc.made;
    FreshIsEmpty(s.pages[q]);
    if p in s.chain && p !in old_chain {
      EmptyStaysEmpty(s.pages[p], step.page, 0);
    }
    hide Empty, Fresh, LinkSet, Layout, Tuples;
  }

  lemma FreshIsEmpty(d: PageBytes)
    requires Fresh(d)
    ensures Empty(d)
  {
    hide Layout, Tuples;
  }

  lemma EraseUndisturbed(s: State, step: Step, old_chain: seq<nat>, t: nat)
    requires Inv(s) && Enabled(s, step) && step.Erase?
    requires NewPagesEmpty(s, old_chain) && Beyond(s, old_chain, t) && !Over(s.threads[t])
    ensures OverOrBeyond(Apply(s, step), old_chain, t)
  {
    var s' := Apply(s, step);
    if step.rid.page !in old_chain {
      EmptyStaysEmpty(s.pages[step.rid.page], step.page, step.rid.slot);
    }
    assert s'.chain == s.chain && s'.threads == s.threads && s'.pages == s.pages[step.rid.page := step.page];
    hide Inv, Enabled, Apply, Layout, Empty, Deleted;
    BeyondKept(s, s', old_chain, t);
    hide Beyond;
  }

  /** What is empty stays so when the pages of the chain and the chain itself stay. */
  lemma SamePages(s: State, s': State, old_chain: seq<nat>)
    requires NewPagesEmpty(s, old_chain) && s'.chain == s.chain
    requires forall p | p in s.chain :: p in s.pages ==> p in s'.pages && s'.pages[p] == s.pages[p]
    ensures NewPagesEmpty(s', old_chain)
  {
    hide Empty;
  }

  lemma MakeEffect(s: State, step: Step)
    requires Enabled(s, step) && step.Make?
    ensures var s', th := Apply(s, step), s.threads[step.t];
            && s'.pages == s.pages[step.made := step.page] && s'.chain == s.chain
            && s'.threads == s.threads[step.t := Thread(th.tuple, true, Linking(th.pc.page, step.made))]
  {
    hide Fresh;
  }

  lemma MakeUndisturbed(s: State, step: Step, old_chain: seq<nat>, t: nat)
    requires Inv(s) && Enabled(s, step) && step.Make?
    requires NewPagesEmpty(s, old_chain) && Beyond(s, old_chain, t) && !Over(s.threads[t])
    ensures OverOrBeyond(Apply(s, step), old_chain, t)
  {
    var s' := Apply(s, step);
    assert s.threads[step.t].pc.Making? && step.made !in s.pages;
    InPages(s, step.made);
    MakeEffect(s, step);
    hide Inv, Enabled, Apply;
    SamePages(s, s', old_chain);
    hide NewPagesEmpty;
    if step.t != t {
      BeyondKept(s, s', old_chain, t);
    }
  }

  lemma DiscardEffect(s: State, step: Step)
    requires Enabled(s, step) && step.Discard?
    ensures var s', th := Apply(s, step), s.threads[step.t];
            && s'.pages == s.pages - {th.pc.made} && s'.chain == s.chain
            && s'.threads == s.threads[step.t := th.(pc := At(th.pc.next))]
  {
  }

  lemma DiscardsTo(s: State, t: nat)
    requires Inv(s) && t in s.threads && s.threads[t].pc.Discarding?
    ensures s.threads[t].pc.next in s.chain
  {
    assert PcOK(s, s.threads[t].pc);
    hide ChainOf, Fresh;
  }

  lemma DiscardUndisturbed(s: State, step: Step, old_chain: seq<nat>, t: nat)
    requires Inv(s) && Enabled(s, step) && step.Discard?
    requires NewPagesEmpty(s, old_chain) && Beyond(s, old_chain, t) && !Over(s.threads[t])
    ensures OverOrBeyond(Apply(s, step), old_chain, t)
  {
    var s' := Apply(s, step);
    assert s.threads[step.t].pc.Discarding?;
    DiscardEffect(s, step);
    MadeIsPrivate(s, step.t);
    DiscardsTo(s, step.t);
    hide Inv, Enabled, Apply, Fresh, ChainOf, PcOK;
    SamePages(s, s', old_chain);
    hide NewPagesEmpty, Private;
    if step.t != t {
      BeyondKept(s, s', old_chain, t);
    }
  }

  lemma OtherUndisturbed(s: State, step: Step, old_chain: seq<nat>, t: nat)
    requires Enabled(s, step) && Undisturbed(step, t) && (step.Start? || step.NoFrame? || step.NoPage?)
    requires NewPagesEmpty(s, old_chain) && Beyond(s, old_chain, t) && !Over(s.threads[t])
    ensures OverOrBeyond(Apply(s, step), old_chain, t)
  {
    SamePages(s, Apply(s, step), old_chain);
    hide NewPagesEmpty;
  }

  lemma StepUndisturbed(s: State, step: Step, old_chain: seq<nat>, t: nat)
    requires Inv(s) && Enabled(s, step) && SmallTuples(s) && Undisturbed(step, t) && OverOrBeyond(s, old_chain, t)
    ensures OverOrBeyond(Apply(s, step), old_chain, t)
    ensures step.Visit? && step.t == t ==> step.slot.Some?
  {
    hide Inv, NewPagesEmpty, Beyond, Layout, Visited, LinkSet, Deleted, Fresh;
    if Over(s.threads[t]) {
      StaysOver(s, step, t);
    } else {
      hide Enabled, Apply, OverOrBeyond, Over;
      match step {
        case Visit(_, _, _) => VisitUndisturbed(s, step, old_chain, t);
        case Link(_, _) => LinkUndisturbed(s, step, old_chain, t);
        case Erase(_, _) => EraseUndisturbed(s, step, old_chain, t);
        case Make(_, _, _) => MakeUndisturbed(s, step, old_chain, t);
        case Discard(_) => DiscardUndisturbed(s, step, old_chain, t);
        case _ => OtherUndisturbed(s, step, old_chain, t);
      }
    }
  }

  lemma StaysOver(s: State, step: Step, t: nat)
    requires Enabled(s, step) && t in s.threads && Over(s.threads[t]) && Undisturbed(step, t)
    ensures t in Apply(s, step).threads && Over(Apply(s, step).threads[t]) && !(step.Visit? && step.t == t)
  {
    hide Layout, Visited, LinkSet, Deleted, Fresh;
  }

  predicate UndisturbedBetween(steps: seq<Step>, v: nat, j: nat, t: nat) {
    forall k | v < k < j && k < |steps| :: Undisturbed(steps[k], t)
  }

  /** Step `v` is the visit on which thread `t` decides to make a new page. */
  ghost predicate Decides(steps: seq<Step>, states: seq<State>, v: nat, t: nat)
    requires v < |steps| && |states| == |steps| + 1
  {
    && steps[v].Visit? && steps[v].t == t && t in states[v].threads && !states[v].threads[t].pc.Making?
    && t in states[v + 1].threads && states[v + 1].threads[t].pc.Making?
  }

  /** Step `m` of a run, taken in a state in order. */
  lemma RunStep(steps: seq<Step>, states: seq<State>, m: nat)
    requires Run(steps, states) && m < |steps|
    ensures Enabled(states[m], steps[m]) && states[m + 1] == Apply(states[m], steps[m])
    ensures Inv(states[m]) && states[m].chain != []
  {
    assert StepAt(steps, states, m);
    RunKeeps(steps, states, m);
    StartChain(states[m]);
  }

  lemma RunAtRest(steps: seq<Step>, states: seq<State>)
    requires Run(steps, states)
    ensures |states| == |steps| + 1 && states[0].threads == map[]
  {
  }

  lemma {:induction false} UndisturbedSince(steps: seq<Step>, states: seq<State>, v: nat, m: nat, t: nat)
    requires Run(steps, states) && SmallStarts(steps) && v < m <= |steps| && Decides(steps, states, v, t)
    requires UndisturbedBetween(steps, v, m, t)
    ensures OverOrBeyond(states[m], states[v + 1].chain, t)
    decreases m
  {
    hide Run, Inv, OverOrBeyond, Enabled, Apply, SmallTuples, SmallStarts;
    RunAtRest(steps, states);
    RunStep(steps, states, m - 1);
    if m == v + 1 {
      DecidedAtEnd(states[v], steps[v], t);
    } else {
      UndisturbedSince(steps, states, v, m - 1, t);
      TuplesStaySmall(steps, states, m - 1);
      hide Decides;
      StepUndisturbed(states[m - 1], steps[m - 1], states[v + 1].chain, t);
    }
  }

  lemma DecidedAtEnd(s: State, step: Step, t: nat)
    requires Inv(s) && Enabled(s, step) && step.Visit? && step.t == t
    requires Apply(s, step).threads[t].pc.Making?
    ensures OverOrBeyond(Apply(s, step), Apply(s, step).chain, t)
  {
    var p := s.threads[t].pc.page;
    VisitsChain(s, t);
    FollowLink(s.pages, s.chain, p);
    VisitedLink(s.pages[p], step.page, step.slot, s.threads[t].tuple);
    StartChain(s);
    hide Inv, ChainOf, Layout, Visited, Empty;
  }

  /** A thread that has made a page, or is about to, decided to do so on some visit of this insert. */
  lemma {:induction false} DecidedBefore(steps: seq<Step>, states: seq<State>, m: nat, t: nat) returns (v: nat)
    requires Run(steps, states) && m <= |steps| && t in states[m].threads
    requires MakesPage(states[m].threads[t])
    ensures v < m && Decides(steps, states, v, t)
    ensures forall k | v < k < m :: !(steps[k].Start? && steps[k].t == t)
    decreases m
  {
    hide Run, Inv, Enabled, Apply;
    RunAtRest(steps, states);
    RunStep(steps, states, m - 1);
    StepDecides(states[m - 1], steps[m - 1], t);
    if t in states[m - 1].threads && MakesPage(states[m - 1].threads[t]) {
      v := DecidedBefore(steps, states, m - 1, t);
    } else {
      v := m - 1;
    }
  }

  predicate MakesPage(th: Thread) { th.created || th.pc.Making? }

  lemma StepDecides(s: State, step: Step, t: nat)
    requires s.chain != [] && Enabled(s, step) && t in Apply(s, step).threads && MakesPage(Apply(s, step).threads[t])
    ensures t in s.threads && MakesPage(s.threads[t]) ==> !(step.Start? && step.t == t)
    ensures !(t in s.threads && MakesPage(s.threads[t])) ==>
              step.Visit? && step.t == t && t in s.threads && Apply(s, step).threads[t].pc.Making?
  {
    hide Layout, Visited, Fresh, LinkSet, Deleted;
  }

  /**
   * The "failed to fit even on a freshly created page" exception needs another thread: between
   * the visit on which the inserting thread decides to make a page and the one that throws, an
   * insert of some other thread has returned.
   */
  lemma FreshPageFullNeedsAnother(steps: seq<Step>, states: seq<State>, j: nat) returns (v: nat, k: nat)
    requires Run(steps, states) && SmallStarts(steps) && j < |steps| && steps[j].Visit?
    requires steps[j].t in states[j + 1].threads && states[j + 1].threads[steps[j].t].pc.Threw?
    ensures v < k < j && Decides(steps, states, v, steps[j].t)
    ensures forall i | v < i < j :: !(steps[i].Start? && steps[i].t == steps[j].t)
    ensures steps[k].Visit? && steps[k].slot.Some? && steps[k].t != steps[j].t
  {
    var t := steps[j].t;
    assert StepAt(steps, states, j);
    v := DecidedBefore(steps, states, j, t);
    if UndisturbedBetween(steps, v, j, t) {
      UndisturbedSince(steps, states, v, j, t);
      RunKeeps(steps, states, j);
      TuplesStaySmall(steps, states, j);
      StepUndisturbed(states[j], steps[j], states[v + 1].chain, t);
      assert false;
    }
    hide Run;
    k :| v < k < j && !Undisturbed(steps[k], t);
  }

  // ---- the "freshly created page" exception ----

  const NO_NEXT: seq<byte> := [255, 255, 255, 255]
  const TO_PAGE_2: seq<byte> := [2, 0, 0, 0]

  ghost function EmptyPage(): PageBytes { NO_NEXT + [0, 0, 0, 32] + Zeros(8184) }

  /** A page with one tuple of the largest size: the slot directory ends where the tuple starts. */
  ghost function FullPage(next: seq<byte>, tuple: seq<byte>): PageBytes
    requires |next| == 4 && |tuple| == 8180
  {
    next + [1, 0, 12, 0] + [12, 0, 244, 31] + tuple
  }

  lemma EmptyPageIsFresh()
    ensures Fresh(EmptyPage())
  {
    var d := EmptyPage();
    assert d[0] == 255 && d[1] == 255 && d[2] == 255 && d[3] == 255;
    assert d[4] == 0 && d[5] == 0 && d[6] == 0 && d[7] == 32;
    assert Directory(d) == [];
    assert Contents(d, []) == map[];
    SizesEmpty(map[], 0);
  }

  lemma FullPageBytes(next: seq<byte>, tuple: seq<byte>)
    requires |next| == 4 && |tuple| == 8180
    ensures var d := FullPage(next, tuple);
            && SlotCount(d) == 1 && FreeOffset(d) == 12 && SlotAt(d, 0) == Slot(12, 8180)
            && SlotBytes(d, Slot(12, 8180)) == tuple
            && (forall k | 0 <= k < 4 :: d[k] == next[k]) && d[4..] == FullPage(NO_NEXT, tuple)[4..]
  {
    var d := FullPage(next, tuple);
    assert d[4] == 1 && d[5] == 0 && d[6] == 12 && d[7] == 0;
    assert d[8] == 12 && d[9] == 0 && d[10] == 244 && d[11] == 31;
    assert d[12..8192] == tuple;
  }

  lemma FullPageLinks(tuple: seq<byte>)
    requires |tuple| == 8180
    ensures NextPage(FullPage(NO_NEXT, tuple)) == INVALID_PAGE && NextPage(FullPage(TO_PAGE_2, tuple)) == 2
  {
    FullPageBytes(NO_NEXT, tuple);
    FullPageBytes(TO_PAGE_2, tuple);
  }

  lemma FullPageAdded(tuple: seq<byte>)
    requires |tuple| == 8180
    ensures Fresh(EmptyPage()) && TupleAdded(EmptyPage(), FullPage(NO_NEXT, tuple), 0, tuple)
  {
    EmptyPageIsFresh();
    FullPageBytes(NO_NEXT, tuple);
    var d, d' := EmptyPage(), FullPage(NO_NEXT, tuple);
    assert ChangedOnly(d, d', 0, 12, 8192) by {
      forall k | 0 <= k < 4 ensures d'[k] == d[k] {}
    }
    hide Layout, Tuples, EmptyPage, FullPage, ChangedOnly;
    assert !HasDead(d);
    assert Layout(d) && SlotCount(d) == 0 && FreeOffset(d) == 8192;
    NotLive(d);
    InsertWritten(d, d', 0, tuple);
  }

  lemma NotLive(d: PageBytes)
    requires Layout(d) && SlotCount(d) == 0
    ensures !Live(Directory(d), 0)
  {
  }

  /** A full page has no room, whatever its link. */
  lemma FullPageVisited(tuple: seq<byte>, other: seq<byte>)
    requires |tuple| == 8180 && |other| == 8180
    ensures Fresh(EmptyPage()) && Visited(EmptyPage(), FullPage(NO_NEXT, tuple), Some(0), tuple)
    ensures Layout(FullPage(NO_NEXT, tuple)) && LinkSet(FullPage(NO_NEXT, tuple), FullPage(TO_PAGE_2, tuple), 2)
    ensures Visited(FullPage(NO_NEXT, tuple), FullPage(NO_NEXT, tuple), None, other)
    ensures Layout(FullPage(TO_PAGE_2, tuple))
    ensures Visited(FullPage(TO_PAGE_2, tuple), FullPage(TO_PAGE_2, tuple), None, other)
  {
    FullPageAdded(tuple);
    FullPageLinks(tuple);
    FullPageBytes(NO_NEXT, tuple);
    FullPageBytes(TO_PAGE_2, tuple);
    var d, d' := FullPage(NO_NEXT, tuple), FullPage(TO_PAGE_2, tuple);
    assert forall k | 4 <= k < PAGE_SIZE :: d'[k] == d'[4..][k - 4] && d[k] == d[4..][k - 4];
    hide EmptyPage, FullPage;
    LinkWritten(d, d');
    EmptyTakes(EmptyPage(), 8180);
    NoRoomWhenFull(d, tuple, other);
    NoRoomWhenFull(d', tuple, other);
    hide Layout, Tuples, PageTakes;
  }

  lemma NoRoomWhenFull(d: PageBytes, tuple: seq<byte>, other: seq<byte>)
    requires Layout(d) && SlotCount(d) == 1 && FreeOffset(d) == 12 && Tuples(d) == map[0 := tuple]
    requires |tuple| == 8180 && |other| == 8180
    ensures !PageTakes(d, |other|)
  {
    assert LiveBytes(d) == Sizes(Tuples(d), 0) + 8180;
  }

  /** A run from a heap whose only page is `d` to state `s`. */
  ghost predicate Reached(steps: seq<Step>, states: seq<State>, d: PageBytes, s: State) {
    Run(steps, states) && states[|steps|] == s && states[0].pages == map[1 := d]
  }

  lemma OneMore(steps: seq<Step>, states: seq<State>, d: PageBytes, s: State, step: Step, s': State)
    returns (steps': seq<Step>, states': seq<State>)
    requires Reached(steps, states, d, s) && Enabled(s, step) && Apply(s, step) == s'
    ensures Reached(steps', states', d, s')
  {
    hide Enabled, Apply, ChainOf;
    steps', states' := steps + [step], states + [s'];
    forall i: nat | i < |steps'| ensures StepAt(steps', states', i) {
      assert i < |steps| ==> StepAt(steps, states, i);
    }
  }

  lemma OnePageHeap(d: PageBytes)
    requires Layout(d) && NextPage(d) == INVALID_PAGE
    ensures ChainOf(map[1 := d], [1])
  {
    hide Layout;
  }

  lemma RunStarts(d: PageBytes, s: State)
    requires Layout(d) && NextPage(d) == INVALID_PAGE && s == State(map[1 := d], [1], map[])
    ensures Reached([], [s], d, s)
  {
    OnePageHeap(d);
    hide ChainOf;
  }

  /** Thread `t` begins to insert `tuple`. */
  lemma Started(steps: seq<Step>, states: seq<State>, d: PageBytes, s: State, t: nat, tuple: seq<byte>)
    returns (steps': seq<Step>, states': seq<State>, s': State)
    requires Reached(steps, states, d, s) && t !in s.threads && s.chain != []
    ensures s' == s.(threads := s.threads[t := Thread(tuple, false, At(s.chain[0]))]) && Reached(steps', states', d, s')
  {
    s' := Apply(s, Start(t, tuple));
    hide Reached, Enabled, Apply;
    steps', states' := OneMore(steps, states, d, s, Start(t, tuple), s');
  }

  /** Where a thread goes from a page with no room. */
  function Passed(th: Thread, p: nat, next: nat): Pc {
    if next != INVALID_PAGE then At(next) else if th.created then Threw else Making(p)
  }

  /** A visit to a page with no room that is left as it is. */
  lemma NoRoom(s: State, t: nat, p: nat, e: PageBytes)
    requires t in s.threads && s.threads[t].pc == At(p) && p in s.pages && s.pages[p] == e
    requires Layout(e) && Visited(e, e, None, s.threads[t].tuple)
    ensures Enabled(s, Visit(t, None, e))
    ensures var th := s.threads[t];
            Apply(s, Visit(t, None, e)) == s.(threads := s.threads[t := th.(pc := Passed(th, p, NextPage(e)))])
  {
    hide Layout, Visited;
    assert s.pages[p := e] == s.pages;
  }

  lemma PassedBy(steps: seq<Step>, states: seq<State>, d: PageBytes, s: State, t: nat, p: nat, e: PageBytes)
    returns (steps': seq<Step>, states': seq<State>, s': State)
    requires Reached(steps, states, d, s)
    requires t in s.threads && s.threads[t].pc == At(p) && p in s.pages && s.pages[p] == e
    requires Layout(e) && Visited(e, e, None, s.threads[t].tuple)
    ensures Reached(steps', states', d, s')
    ensures var th := s.threads[t]; s' == s.(threads := s.threads[t := th.(pc := Passed(th, p, NextPage(e)))])
  {
    hide Reached, Enabled, Apply, Layout, Visited, Passed;
    NoRoom(s, t, p, e);
    s' := s.(threads := s.threads[t := s.threads[t].(pc := Passed(s.threads[t], p, NextPage(e)))]);
    steps', states' := OneMore(steps, states, d, s, Visit(t, None, e), s');
  }

  /** Thread 0 finds page 1 full and decides to make a page. */
  lemma MakingBegun(d: PageBytes, x: seq<byte>) returns (steps: seq<Step>, states: seq<State>, s: State)
    requires Layout(d) && NextPage(d) == INVALID_PAGE && Visited(d, d, None, x)
    ensures Reached(steps, states, d, s) && s == State(map[1 := d], [1], map[0 := Thread(x, false, Making(1))])
  {
    var s0 := State(map[1 := d], [1], map[]);
    RunStarts(d, s0);
    hide Layout, Visited, Reached;
    steps, states, s := Started([], [s0], d, s0, 0, x);
    steps, states, s := PassedBy(steps, states, d, s, 0, 1, d);
  }

  /** Thread 0 finds page 1 full, makes page 2 and links it. */
  lemma NewPageLinked(d: PageBytes, linked: PageBytes, e: PageBytes, x: seq<byte>)
    returns (steps: seq<Step>, states: seq<State>, s: State)
    requires Layout(d) && NextPage(d) == INVALID_PAGE && Visited(d, d, None, x)
    requires Fresh(e) && LinkSet(d, linked, 2)
    ensures Reached(steps, states, d, s)
    ensures s == State(map[1 := linked, 2 := e], [1, 2], map[0 := Thread(x, true, At(2))])
  {
    hide Layout, Visited, Reached, Fresh, LinkSet, Enabled, Apply;
    steps, states, s := MakingBegun(d, x);
    var s1 := MadeByFirst(s, e, x);
    steps, states := OneMore(steps, states, d, s, Make(0, 2, e), s1);
    s := LinkedByFirst(s1, d, linked, e, x);
    steps, states := OneMore(steps, states, d, s1, Link(0, linked), s);
  }

  lemma MadeByFirst(s: State, e: PageBytes, x: seq<byte>) returns (s': State)
    requires 2 !in s.pages && s.threads == map[0 := Thread(x, false, Making(1))] && Fresh(e)
    ensures Enabled(s, Make(0, 2, e)) && s' == Apply(s, Make(0, 2, e))
    ensures s'.pages == s.pages[2 := e] && s'.chain == s.chain && s'.threads == map[0 := Thread(x, true, Linking(1, 2))]
  {
    hide Fresh;
    s' := Apply(s, Make(0, 2, e));
  }

  lemma LinkedByFirst(s: State, d: PageBytes, linked: PageBytes, e: PageBytes, x: seq<byte>) returns (s': State)
    requires s.pages == map[1 := d, 2 := e] && s.chain == [1] && s.threads == map[0 := Thread(x, true, Linking(1, 2))]
    requires Layout(d) && NextPage(d) == INVALID_PAGE && LinkSet(d, linked, 2)
    ensures Enabled(s, Link(0, linked)) && s' == Apply(s, Link(0, linked))
    ensures s' == State(map[1 := linked, 2 := e], [1, 2], map[0 := Thread(x, true, At(2))])
  {
    hide Layout, LinkSet;
    s' := Apply(s, Link(0, linked));
  }

  lemma PlacedBySecond(s: State, linked: PageBytes, full: PageBytes, e: PageBytes, y: seq<byte>) returns (s': State)
    requires s.pages == map[1 := linked, 2 := e] && 1 in s.threads && s.threads[1] == Thread(y, false, At(2))
    requires Layout(e) && Visited(e, full, Some(0), y)
    ensures Enabled(s, Visit(1, Some(0), full)) && s' == Apply(s, Visit(1, Some(0), full))
    ensures s'.pages == map[1 := linked, 2 := full]
    ensures s'.threads == s.threads[1 := Thread(y, false, Returned(RID(2, 0)))]
  {
    hide Layout, Visited;
    s' := Apply(s, Visit(1, Some(0), full));
  }

  /** Thread 1 comes along and fills page 2. */
  lemma NewPageFilled(steps: seq<Step>, states: seq<State>, d: PageBytes, s: State, linked: PageBytes, e: PageBytes,
                      full: PageBytes, y: seq<byte>)
    returns (steps': seq<Step>, states': seq<State>, s': State)
    requires Reached(steps, states, d, s) && s.pages == map[1 := linked, 2 := e] && s.chain == [1, 2] && 1 !in s.threads
    requires Layout(linked) && NextPage(linked) == 2 && Visited(linked, linked, None, y)
    requires Layout(e) && Visited(e, full, Some(0), y)
    ensures Reached(steps', states', d, s') && s'.pages == map[1 := linked, 2 := full]
    ensures s'.threads == s.threads[1 := Thread(y, false, Returned(RID(2, 0)))]
  {
    hide Layout, Visited, Reached, Enabled, Apply;
    var s1, s2;
    steps', states', s1 := Started(steps, states, d, s, 1, y);
    steps', states', s2 := PassedBy(steps', states', d, s1, 1, 1, linked);
    s' := PlacedBySecond(s2, linked, full, e, y);
    steps', states' := OneMore(steps', states', d, s2, Visit(1, Some(0), full), s');
  }

  /**
   * With a second thread the "failed to fit even on a freshly created page" exception can be
   * reached: between linking the new page and visiting it, the other thread fills it.
   */
  lemma FreshPageCanBeFull(z: seq<byte>, x: seq<byte>, y: seq<byte>) returns (steps: seq<Step>, states: seq<State>)
    requires |x| == |y| == |z| == 8180
    ensures Run(steps, states) && states[0].pages == map[1 := FullPage(NO_NEXT, z)]
    ensures 0 in states[|steps|].threads && states[|steps|].threads[0] == Thread(x, true, Threw)
  {
    hide Layout, Visited, LinkSet, Fresh, EmptyPage, FullPage, Run;
    FullPageVisited(z, x);
    FullPageVisited(z, y);
    FullPageVisited(y, x);
    FullPageLinks(z);
    FullPageLinks(y);
    FreshLayout(EmptyPage());
    var d, linked, full := FullPage(NO_NEXT, z), FullPage(TO_PAGE_2, z), FullPage(NO_NEXT, y);
    steps, states := FullPagesRun(d, linked, EmptyPage(), full, x, y);
  }

  lemma FullPagesRun(d: PageBytes, linked: PageBytes, e: PageBytes, full: PageBytes, x: seq<byte>, y: seq<byte>)
    returns (steps: seq<Step>, states: seq<State>)
    requires Layout(d) && NextPage(d) == INVALID_PAGE && Visited(d, d, None, x)
    requires LinkSet(d, linked, 2) && Layout(linked) && NextPage(linked) == 2 && Visited(linked, linked, None, y)
    requires Fresh(e) && Layout(e) && Visited(e, full, Some(0), y)
    requires Layout(full) && NextPage(full) == INVALID_PAGE && Visited(full, full, None, x)
    ensures Run(steps, states) && states[0].pages == map[1 := d]
    ensures 0 in states[|steps|].threads && states[|steps|].threads[0] == Thread(x, true, Threw)
  {
    hide Layout, Visited, LinkSet, Fresh, Run;
    var s4, s7, s8;
    steps, states, s4 := NewPageLinked(d, linked, e, x);
    steps, states, s7 := NewPageFilled(steps, states, d, s4, linked, e, full, y);
    assert s7.threads[0] == Thread(x, true, At(2));
    steps, states, s8 := PassedBy(steps, states, d, s7, 0, 2, full);
  }

  lemma FreshLayout(e: PageBytes)
    requires Fresh(e)
    ensures Layout(e)
  {
  }
}
