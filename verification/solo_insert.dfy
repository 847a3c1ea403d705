/** A thread that nobody disturbs inserts as the sequential heap does. */
module SoloInserts {
  import opened Bytes
  import opened Options
  import opened Lists
  import opened PageLayout
  import opened HeapModel
  import opened ChainExtension
  import TableHeaps

  /** The thread that takes the step, unless it begins an insert or deletes a tuple. */
  function Taker(step: Step): Option<nat> {
    match step
    case Visit(t, _, _) => Some(t)
    case NoFrame(t) => Some(t)
    case Make(t, _, _) => Some(t)
    case NoPage(t) => Some(t)
    case Link(t, _) => Some(t)
    case Discard(t) => Some(t)
    case _ => None
  }

  /** The heap is as the insert found it, and no page of it takes the tuple. */
  ghost predicate AtEnd(v: View, chain: seq<nat>, s: State, p: nat, n: nat)
    requires ChainOf(v, chain)
  {
    && s.chain == chain && p == chain[|chain| - 1] && NoneTakes(v, chain, |chain|, n)
    && ChainOf(s.pages, chain) && Kept(v, s.pages, chain, chain) && HeapMap(s.pages, chain) == HeapMap(v, chain)
  }

  /** The tuple is in the heap, under the RID that the sequential insert gives it. */
  ghost predicate Inserted(v: View, chain: seq<nat>, s: State, rid: RID, tuple: seq<byte>)
    requires ChainOf(v, chain)
  {
    && ChainOf(s.pages, s.chain) && Kept(v, s.pages, chain, s.chain)
    && LowestFree(HeapMap(v, chain), rid) && FirstFit(v, chain, s.chain, rid.page, |tuple|)
    && HeapMap(s.pages, s.chain) == HeapMap(v, chain)[rid := tuple]
  }

  /** Where an undisturbed insert into the heap `(v, chain)` is after `m` steps. */
  ghost predicate Solo(v: View, chain: seq<nat>, s: State, th: Thread, m: nat)
    requires ChainOf(v, chain)
  {
    var n := |th.tuple|;
    match th.pc
    case At(p) =>
      var k := if th.created then |chain| else m;
      && (th.created ==> m == |chain| + 2)
      && Walk(v, chain, s.pages, s.chain, k, th.created, n) && p == s.chain[k]
    case Making(p) => m == |chain| && !th.created && AtEnd(v, chain, s, p, n)
    case Linking(p, made) =>
      && m == |chain| + 1 && th.created && AtEnd(v, chain, s, p, n)
      && made !in v && made !in chain && made in s.pages && Fresh(s.pages[made])
    case Discarding(_, _) => false
    case Returned(rid) => m <= |chain| + 3 && Inserted(v, chain, s, rid, th.tuple)
    case GaveUp => m <= |chain| + 3 && ChainOf(s.pages, s.chain) && HeapMap(s.pages, s.chain) == HeapMap(v, chain)
    case Threw => m <= |chain| + 1 && ChainOf(s.pages, s.chain) && HeapMap(s.pages, s.chain) == HeapMap(v, chain)
  }

  ghost predicate SoloAt(v: View, chain: seq<nat>, s: State, t: nat, m: nat)
    requires ChainOf(v, chain)
  {
    t in s.threads && Solo(v, chain, s, s.threads[t], m)
  }

  lemma SoloVisits(v: View, chain: seq<nat>, s: State, step: Step, m: nat)
    requires ChainOf(v, chain) && Inv(s) && Enabled(s, step) && step.Visit?
    requires SoloAt(v, chain, s, step.t, m) && |s.threads[step.t].tuple| <= TableHeaps.MAX_TUPLE
    ensures SoloAt(v, chain, Apply(s, step), step.t, m + 1)
  {
    hide Layout, Tuples, ChainOf, HeapMap, Walk, Kept, FirstFit, LowestFree, Visited, PageTakes, NoneTakes, Inv;
    var th := s.threads[step.t];
    var k := if th.created then |chain| else m;
    WalkPage(v, chain, s.pages, s.chain, k, th.created, |th.tuple|);
    VisitDecides(s.pages[th.pc.page], step.page, step.slot, th.tuple);
    VisitedLink(s.pages[th.pc.page], step.page, step.slot, th.tuple);
    if step.slot.Some? {
      WalkPlaced(v, chain, s.pages, s.chain, k, th.created, step.page, step.slot.value, th.tuple);
      WalkWithin(v, chain, s.pages, s.chain, k, th.created, |th.tuple|);
    } else {
      WalkVisited(v, chain, s.pages, k, step.page, th.tuple);
      WalkWithin(v, chain, s.pages, s.chain, k, th.created, |th.tuple|);
      NextPageIs(s, k, step.page);
    }
  }

  lemma WalkWithin(v: View, chain: seq<nat>, v': View, chain': seq<nat>, k: nat, created: bool, n: nat)
    requires ChainOf(v, chain) && Walk(v, chain, v', chain', k, created, n)
    ensures k <= |chain| && (!created ==> k < |chain|)
  {
  }

  /** The link of a page leads to the next one of the chain. */
  lemma NextPageIs(s: State, k: nat, d: PageBytes)
    requires ChainOf(s.pages, s.chain) && k < |s.chain| && NextPage(d) == Successor(s.chain, k)
    ensures NextPage(d) == INVALID_PAGE <==> k + 1 == |s.chain|
    ensures k + 1 < |s.chain| ==> NextPage(d) == s.chain[k + 1]
  {
    hide Layout;
    assert k + 1 < |s.chain| ==> s.chain[k + 1] in s.chain;
  }

  lemma SoloMakes(v: View, chain: seq<nat>, s: State, step: Step, m: nat)
    requires ChainOf(v, chain) && Inv(s) && Enabled(s, step) && step.Make?
    requires SoloAt(v, chain, s, step.t, m)
    ensures SoloAt(v, chain, Apply(s, step), step.t, m + 1)
  {
    hide Layout, Tuples, HeapMap, NoneTakes, Fresh;
    InPages(s, step.made);
    PageAdded(s.pages, s.chain, step.made, step.page);
    hide ChainOf, Inv;
  }

  lemma SoloLinks(v: View, chain: seq<nat>, s: State, step: Step, m: nat)
    requires ChainOf(v, chain) && Inv(s) && Enabled(s, step) && step.Link?
    requires SoloAt(v, chain, s, step.t, m)
    ensures SoloAt(v, chain, Apply(s, step), step.t, m + 1)
  {
    hide Layout, Tuples, HeapMap, NoneTakes, Kept, PageTakes, Inv;
    var p, made := s.threads[step.t].pc.page, s.threads[step.t].pc.made;
    var s' := Apply(s, step);
    LastHasNoLink(s.pages, chain);
    MadeIsPrivate(s, step.t);
    LinkExtends(s, p, made, step.page);
    hide ChainOf;
    LinkKept(v, chain, s, p, made, step.page);
    assert s'.chain[|chain|] == made;
  }

  lemma LastHasNoLink(v: View, chain: seq<nat>)
    requires ChainOf(v, chain)
    ensures |chain| > 0 && chain[|chain| - 1] in chain && chain[|chain| - 1] in v && Layout(v[chain[|chain| - 1]])
    ensures NextPage(v[chain[|chain| - 1]]) == INVALID_PAGE
  {
    assert LinkedAt(v, chain, |chain| - 1);
  }

  lemma LinkKept(v: View, chain: seq<nat>, s: State, p: nat, made: nat, d: PageBytes)
    requires ChainOf(s.pages, chain) && Kept(v, s.pages, chain, chain) && p in chain && made !in chain && made !in v
    requires made in s.pages && Fresh(s.pages[made]) && LinkSet(s.pages[p], d, made)
    ensures Kept(v, s.pages[p := d], chain, chain + [made])
    ensures var chain' := chain + [made]; |chain'| == |chain| + 1 && Empty(s.pages[p := d][chain'[|chain|]])
  {
    hide Layout, Tuples;
  }

  lemma SoloStops(v: View, chain: seq<nat>, s: State, step: Step, m: nat)
    requires ChainOf(v, chain) && Inv(s) && Enabled(s, step) && (step.NoFrame? || step.NoPage? || step.Discard?)
    requires SoloAt(v, chain, s, step.t, m)
    ensures !step.Discard? && SoloAt(v, chain, Apply(s, step), step.t, m + 1)
  {
    hide Layout, Tuples, HeapMap, NoneTakes, Kept, ChainOf, Inv, PagesAhead;
  }

  lemma SoloStep(v: View, chain: seq<nat>, s: State, step: Step, t: nat, m: nat)
    requires ChainOf(v, chain) && Inv(s) && Enabled(s, step) && Taker(step) == Some(t)
    requires SoloAt(v, chain, s, t, m) && |s.threads[t].tuple| <= TableHeaps.MAX_TUPLE
    ensures var s' := Apply(s, step);
            SoloAt(v, chain, s', t, m + 1) && s'.threads[t].tuple == s.threads[t].tuple
  {
    hide Layout, Tuples, ChainOf, Inv, Solo;
    match step {
      case Visit(_, _, _) => SoloVisits(v, chain, s, step, m);
      case Make(_, _, _) => SoloMakes(v, chain, s, step, m);
      case Link(_, _) => SoloLinks(v, chain, s, step, m);
      case _ => SoloStops(v, chain, s, step, m);
    }
  }

  lemma SoloStarts(s: State, step: Step)
    requires Inv(s) && Enabled(s, step) && step.Start?
    ensures ChainOf(s.pages, s.chain) && SoloAt(s.pages, s.chain, Apply(s, step), step.t, 0)
    ensures Apply(s, step).threads[step.t].tuple == step.tuple
  {
    StartChain(s);
    hide Layout, Tuples, HeapMap;
    WalkStart(s.pages, s.chain, |step.tuple|);
    hide ChainOf, Walk;
  }

  /** From step `i`, which starts it, up to step `j` only the insert of thread `t` takes steps. */
  ghost predicate Uninterrupted(steps: seq<Step>, i: nat, j: nat, t: nat) {
    && i < j <= |steps| && steps[i].Start? && steps[i].t == t
    && forall l | i < l < j :: Taker(steps[l]) == Some(t)
  }

  lemma {:induction false} SoloRuns(steps: seq<Step>, states: seq<State>, i: nat, j: nat, t: nat)
    requires Run(steps, states) && Uninterrupted(steps, i, j, t) && |steps[i].tuple| <= TableHeaps.MAX_TUPLE
    ensures ChainOf(states[i].pages, states[i].chain)
    ensures SoloAt(states[i].pages, states[i].chain, states[j], t, j - i - 1)
    ensures states[j].threads[t].tuple == steps[i].tuple
    decreases j
  {
    hide Solo, ChainOf, Enabled, Apply, Inv;
    assert StepAt(steps, states, j - 1);
    RunKeeps(steps, states, j - 1);
    if j == i + 1 {
      SoloStarts(states[i], steps[i]);
    } else {
      SoloRuns(steps, states, i, j - 1, t);
      SoloStep(states[i].pages, states[i].chain, states[j - 1], steps[j - 1], t, j - i - 2);
    }
  }

  /**
   * In any run, an insert of a tuple within the page limit that nobody disturbs is over after
   * three steps more than the chain has pages. It returns, if it does, the RID that the
   * sequential insert returns, with the tuple under it; it never discards a page; and if it
   * ends otherwise no tuple has changed, and a frame or a page could not be had.
   */
  lemma AloneAsSequential(steps: seq<Step>, states: seq<State>, i: nat, j: nat, t: nat)
    requires Run(steps, states) && Uninterrupted(steps, i, j, t) && |steps[i].tuple| <= TableHeaps.MAX_TUPLE
    ensures ChainOf(states[i].pages, states[i].chain) && t in states[j].threads
    ensures var th, v, chain := states[j].threads[t], states[i].pages, states[i].chain;
            && (!Over(th) ==> j - i - 1 <= |chain| + 2) && (Over(th) ==> j - i - 1 <= |chain| + 3)
            && !th.pc.Discarding?
            && (th.pc.Returned? ==> Inserted(v, chain, states[j], th.pc.rid, steps[i].tuple))
            && (th.pc.GaveUp? || th.pc.Threw? ==>
                  && ChainOf(states[j].pages, states[j].chain)
                  && HeapMap(states[j].pages, states[j].chain) == HeapMap(v, chain)
                  && j > i + 1 && (steps[j - 1].NoFrame? || steps[j - 1].NoPage?))
  {
    hide ChainOf, Inv, HeapMap, Inserted, AtEnd, Fresh;
    SoloRuns(steps, states, i, j, t);
    StoppedBy(steps, states, i, j, t);
    var th, chain := states[j].threads[t], states[i].chain;
    if th.pc.At? {
      WalkWithin(states[i].pages, chain, states[j].pages, states[j].chain, if th.created then |chain| else j - i - 1,
                 th.created, |th.tuple|);
    }
  }

  /** What ends an undisturbed insert without a RID. */
  lemma StoppedBy(steps: seq<Step>, states: seq<State>, i: nat, j: nat, t: nat)
    requires Run(steps, states) && Uninterrupted(steps, i, j, t) && |steps[i].tuple| <= TableHeaps.MAX_TUPLE
    requires t in states[j].threads
    ensures states[j].threads[t].pc.GaveUp? || states[j].threads[t].pc.Threw? ==>
              j > i + 1 && (steps[j - 1].NoFrame? || steps[j - 1].NoPage?)
  {
    hide ChainOf, Inv, Visited, Walk, Layout;
    assert StepAt(steps, states, j - 1);
    RunKeeps(steps, states, j - 1);
    if j == i + 1 {
      StartChain(states[i]);
    } else {
      SoloRuns(steps, states, i, j - 1, t);
      if steps[j - 1].Visit? {
        SoloPlaces(states[i].pages, states[i].chain, states[j - 1], steps[j - 1], j - i - 2);
      }
    }
  }

  /** The page that an undisturbed insert has made takes the tuple. */
  lemma SoloPlaces(v: View, chain: seq<nat>, s: State, step: Step, m: nat)
    requires ChainOf(v, chain) && Enabled(s, step) && step.Visit?
    requires SoloAt(v, chain, s, step.t, m) && |s.threads[step.t].tuple| <= TableHeaps.MAX_TUPLE
    ensures s.threads[step.t].created ==> step.slot.Some?
  {
    hide Layout, Tuples, ChainOf, HeapMap, Walk, Visited, PageTakes;
    var th := s.threads[step.t];
    if th.created {
      WalkPage(v, chain, s.pages, s.chain, |chain|, true, |th.tuple|);
      VisitDecides(s.pages[th.pc.page], step.page, step.slot, th.tuple);
    }
  }
}
