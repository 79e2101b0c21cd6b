/** Replaying a trace: each decoded record is an operation character and an
    address; 'L' and 'S' make one access, 'M' (a load then a store) makes
    two accesses to the same address, and every other record is skipped. */
module Trace {
  import opened Address
  import opened CacheSet
  import opened Simulator

  /** A trace line after parsing: the character at buf[1] and the address. */
  datatype Record = Record(op: char, addr: nat)

  /** The number of access_data calls one record leads to. */
  function AccessesOf(op: char): (n: nat)
    ensures n <= 2
    ensures n == 2 <==> op == 'M'
    ensures n == 0 <==> op !in {'L', 'S', 'M'}
  {
    if op == 'S' || op == 'L' || op == 'M' then
      if op == 'M' then 2 else 1
    else 0
  }

  /** The number of access_data calls a whole trace leads to. */
  function TraceAccesses(trace: seq<Record>): nat
  {
    if trace == [] then 0
    else TraceAccesses(trace[..|trace| - 1]) + AccessesOf(trace[|trace| - 1].op)
  }

  /** How many of the outcomes are o. */
  function Count(outcomes: seq<Outcome>, o: Outcome): (k: nat)
    ensures k <= |outcomes|
  {
    if outcomes == [] then 0
    else Count(outcomes[..|outcomes| - 1], o) + (if outcomes[|outcomes| - 1] == o then 1 else 0)
  }

  lemma {:induction false} CountAppend(xs: seq<Outcome>, ys: seq<Outcome>, o: Outcome)
    ensures Count(xs + ys, o) == Count(xs, o) + Count(ys, o)
  {
    if ys != [] {
      assert (xs + ys)[..|xs + ys| - 1] == xs + ys[..|ys| - 1];
      CountAppend(xs, ys[..|ys| - 1], o);
    } else {
      assert xs + ys == xs;
    }
  }

  lemma CountSnoc(xs: seq<Outcome>, x: Outcome, o: Outcome)
    ensures Count(xs + [x], o) == Count(xs, o) + (if x == o then 1 else 0)
  {
    assert (xs + [x])[..|xs|] == xs;
  }

  /** The counters after a run of outcomes. */
  function TallyAll(c: Stats, outcomes: seq<Outcome>): Stats
  {
    if outcomes == [] then c
    else Tally(TallyAll(c, outcomes[..|outcomes| - 1]), outcomes[|outcomes| - 1])
  }

  lemma TallyAllSnoc(c: Stats, xs: seq<Outcome>, x: Outcome)
    ensures TallyAll(c, xs + [x]) == Tally(TallyAll(c, xs), x)
  {
    assert (xs + [x])[..|xs|] == xs;
  }

  lemma {:induction false} TallyAllAppend(c: Stats, xs: seq<Outcome>, ys: seq<Outcome>)
    ensures TallyAll(c, xs + ys) == TallyAll(TallyAll(c, xs), ys)
  {
    if ys == [] {
      assert xs + ys == xs;
    } else {
      var front, y := ys[..|ys| - 1], ys[|ys| - 1];
      assert xs + ys == (xs + front) + [y];
      TallyAllSnoc(c, xs + front, y);
      TallyAllAppend(c, xs, front);
      TallyAllSnoc(TallyAll(c, xs), front, y);
      assert ys == front + [y];
    }
  }

  /** The counters after a run count its hits, its misses of either kind and
      its evictions. */
  lemma {:induction false} TallyAllCounts(c: Stats, outcomes: seq<Outcome>)
    ensures TallyAll(c, outcomes) == Stats(c.hits + Count(outcomes, Hit),
      c.misses + Count(outcomes, ColdMiss) + Count(outcomes, Eviction),
      c.evictions + Count(outcomes, Eviction))
  {
    if outcomes != [] {
      TallyAllCounts(c, outcomes[..|outcomes| - 1]);
    }
  }

  predicate AddressesFit(trace: seq<Record>) {
    forall i :: 0 <= i < |trace| ==> trace[i].addr < WordSize
  }

  /** Where a run of records leaves the sets, and the outcome of each access. */
  datatype Run = Run(sets: seq<seq<Line>>, outcomes: seq<Outcome>)

  /** The dispatch of one record in replay_trace, on the sets as values: an
      'M' accesses its address twice, 'L' and 'S' once, anything else not at
      all. */
  function RecordRun(sets: seq<seq<Line>>, r: Record, s: nat, b: nat): (run: Run)
    requires r.addr < WordSize && s + b < 64 && Shaped(sets, s)
    ensures Shaped(run.sets, s) && forall st :: 0 <= st < |sets| ==> |run.sets[st]| == |sets[st]|
    ensures |run.outcomes| == AccessesOf(r.op)
  {
    if r.op == 'S' || r.op == 'L' || r.op == 'M' then
      var first := AccessCache(sets, r.addr, s, b);
      if r.op == 'M' then
        var second := AccessCache(first.sets, r.addr, s, b);
        Run(second.sets, [first.outcome, second.outcome])
      else
        Run(first.sets, [first.outcome])
    else
      Run(sets, [])
  }

  /** replay_trace on the sets as values: the records in order. */
  function TraceRun(sets: seq<seq<Line>>, trace: seq<Record>, s: nat, b: nat): (run: Run)
    requires AddressesFit(trace) && s + b < 64 && Shaped(sets, s)
    ensures Shaped(run.sets, s) && forall st :: 0 <= st < |sets| ==> |run.sets[st]| == |sets[st]|
    ensures |run.outcomes| == TraceAccesses(trace)
  {
    if trace == [] then Run(sets, [])
    else
      var p := TraceRun(sets, trace[..|trace| - 1], s, b);
      var q := RecordRun(p.sets, trace[|trace| - 1], s, b);
      Run(q.sets, p.outcomes + q.outcomes)
  }

  /** The second access of an 'M' record is always a hit. */
  lemma ModifyHitsTwice(sets: seq<seq<Line>>, r: Record, s: nat, b: nat)
    requires r.addr < WordSize && s + b < 64 && Shaped(sets, s) && r.op == 'M'
    ensures RecordRun(sets, r, s, b).outcomes[1] == Hit
  {
    var d := Split(r.addr, s, b);
    RepeatHits(sets[d.setIndex], d.tag);
  }

  /** Every set keeps the set invariant over a whole trace. */
  lemma {:induction false} TraceRunKeepsInv(sets: seq<seq<Line>>, trace: seq<Record>, s: nat, b: nat)
    requires AddressesFit(trace) && s + b < 64 && Shaped(sets, s)
    requires forall st :: 0 <= st < |sets| ==> SetInv(sets[st])
    ensures forall st :: 0 <= st < |sets| ==> SetInv(TraceRun(sets, trace, s, b).sets[st])
  {
    if trace != [] {
      var p := TraceRun(sets, trace[..|trace| - 1], s, b);
      TraceRunKeepsInv(sets, trace[..|trace| - 1], s, b);
      RecordRunKeepsInv(p.sets, trace[|trace| - 1], s, b);
    }
  }

  lemma RecordRunKeepsInv(sets: seq<seq<Line>>, r: Record, s: nat, b: nat)
    requires r.addr < WordSize && s + b < 64 && Shaped(sets, s)
    requires forall st :: 0 <= st < |sets| ==> SetInv(sets[st])
    ensures forall st :: 0 <= st < |sets| ==> SetInv(RecordRun(sets, r, s, b).sets[st])
  {
    if r.op == 'S' || r.op == 'L' || r.op == 'M' {
      AccessCacheKeepsInv(sets, r.addr, s, b);
      AccessCacheKeepsInv(AccessCache(sets, r.addr, s, b).sets, r.addr, s, b);
    }
  }

  /** Cold misses are exactly the accesses that add a valid line. */
  lemma {:induction false} ColdMissesFillLines(sets: seq<seq<Line>>, trace: seq<Record>, s: nat, b: nat)
    requires AddressesFit(trace) && s + b < 64 && Shaped(sets, s)
    ensures var run := TraceRun(sets, trace, s, b);
      TotalValid(run.sets) == TotalValid(sets) + Count(run.outcomes, ColdMiss)
  {
    if trace != [] {
      var p := TraceRun(sets, trace[..|trace| - 1], s, b);
      ColdMissesFillLines(sets, trace[..|trace| - 1], s, b);
      var r := trace[|trace| - 1];
      var q := RecordRun(p.sets, r, s, b);
      CountAppend(p.outcomes, q.outcomes, ColdMiss);
      if r.op == 'S' || r.op == 'L' || r.op == 'M' {
        AccessCacheValidLines(p.sets, r.addr, s, b);
        var first := AccessCache(p.sets, r.addr, s, b);
        if r.op == 'M' {
          AccessCacheValidLines(first.sets, r.addr, s, b);
          assert Count([first.outcome, AccessCache(first.sets, r.addr, s, b).outcome], ColdMiss)
            == Count([first.outcome], ColdMiss) + (if AccessCache(first.sets, r.addr, s, b).outcome == ColdMiss then 1 else 0);
        }
      }
    }
  }

  /** From a fresh cache of S sets of E lines, no trace has more than S * E
      cold misses: every other miss is an eviction. */
  lemma ColdMissBound(trace: seq<Record>, s: nat, b: nat, E: nat)
    requires AddressesFit(trace) && ValidGeometry(s, b, E)
    ensures Count(TraceRun(FreshSets(Pow2(s), E), trace, s, b).outcomes, ColdMiss) <= Pow2(s) * E
  {
    var sets := FreshSets(Pow2(s), E);
    var run := TraceRun(sets, trace, s, b);
    ColdMissesFillLines(sets, trace, s, b);
    TotalValidBound(sets, E);
    TotalValidBound(run.sets, E);
  }

  /** One record's dispatch, given the steps AccessCache takes: the first
      step of an 'M' from the sets before, the last step from the sets in
      between. */
  lemma RecordRunSteps(before: seq<seq<Line>>, r: Record, s: nat, b: nat,
                       mid: seq<seq<Line>>, firsts: seq<Outcome>, after: seq<seq<Line>>, last: Outcome)
    requires r.addr < WordSize && s + b < 64 && Shaped(before, s) && r.op in {'L', 'S', 'M'}
    requires r.op == 'M' ==> |firsts| == 1 && Step(mid, firsts[0]) == AccessCache(before, r.addr, s, b)
    requires r.op != 'M' ==> firsts == [] && mid == before
    requires Shaped(mid, s) && Step(after, last) == AccessCache(mid, r.addr, s, b)
    ensures RecordRun(before, r, s, b) == Run(after, firsts + [last])
  {
  }

  /** The dispatch of one record in replay_trace: an 'M' calls access_data
      twice on its address, 'L' and 'S' once; the sets and outcomes are the
      ones RecordRun gives. */
  method ReplayRecord(cache: Cache, r: Record) returns (outcomes: seq<Outcome>)
    requires cache.Valid() && r.addr < WordSize
    modifies cache, cache.lines
    ensures cache.Valid()
    ensures Run(cache.Rows(), outcomes) == RecordRun(old(cache.Rows()), r, cache.s, cache.b)
    ensures cache.accesses == old(cache.accesses) + |outcomes|
    ensures cache.Counts() == TallyAll(old(cache.Counts()), outcomes)
    ensures cache.hits == old(cache.hits) + Count(outcomes, Hit)
    ensures cache.misses == old(cache.misses) + Count(outcomes, ColdMiss) + Count(outcomes, Eviction)
    ensures cache.evictions == old(cache.evictions) + Count(outcomes, Eviction)
  {
    outcomes := [];
    ghost var before := cache.Rows();
    if r.op == 'S' || r.op == 'L' || r.op == 'M' {
      ghost var mid := before;
      if r.op == 'M' {
        var o := cache.Access(r.addr);
        TallyAllSnoc(old(cache.Counts()), [], o);
        outcomes := [] + [o];
        mid := cache.Rows();
      }
      var last := cache.Access(r.addr);
      TallyAllSnoc(old(cache.Counts()), outcomes, last);
      RecordRunSteps(before, r, cache.s, cache.b, mid, outcomes, cache.Rows(), last);
      outcomes := outcomes + [last];
    }
    TallyAllCounts(old(cache.Counts()), outcomes);
  }

  /** replay_trace on records already read and parsed: the sets and outcomes
      are the ones TraceRun gives, and the counters count those outcomes. */
  method Replay(cache: Cache, trace: seq<Record>) returns (outcomes: seq<Outcome>)
    requires cache.Valid() && AddressesFit(trace)
    modifies cache, cache.lines
    ensures cache.Valid()
    ensures Run(cache.Rows(), outcomes) == TraceRun(old(cache.Rows()), trace, cache.s, cache.b)
    ensures cache.accesses == old(cache.accesses) + |outcomes|
    ensures cache.Counts() == TallyAll(old(cache.Counts()), outcomes)
    ensures cache.hits == old(cache.hits) + Count(outcomes, Hit)
    ensures cache.misses == old(cache.misses) + Count(outcomes, ColdMiss) + Count(outcomes, Eviction)
    ensures cache.evictions == old(cache.evictions) + Count(outcomes, Eviction)
  {
    ghost var initial := cache.Rows();
    outcomes := [];
    var i := 0;
    while i < |trace|
      invariant 0 <= i <= |trace|
      invariant cache.Valid()
      invariant Run(cache.Rows(), outcomes) == TraceRun(initial, trace[..i], cache.s, cache.b)
      invariant cache.accesses == old(cache.accesses) + |outcomes|
      invariant cache.Counts() == TallyAll(old(cache.Counts()), outcomes)
    {
      var more := ReplayRecord(cache, trace[i]);
      TallyAllAppend(old(cache.Counts()), outcomes, more);
      outcomes := outcomes + more;
      assert trace[..i + 1][..i] == trace[..i];
      i := i + 1;
    }
    assert trace[..i] == trace;
    TallyAllCounts(old(cache.Counts()), outcomes);
  }
}
