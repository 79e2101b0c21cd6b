/** The simulated cache: S = 2^s sets of E lines each, and the three
    statistics counters that access_data maintains. */
module Simulator {
  import opened Address
  import opened CacheSet

  /** The geometries the simulator is defined for: s, b and E positive, and
      s, b small enough that `2 << (s-1)` and `2 << (b-1)` fit in a signed
      32-bit int. Then s + b < 64, so every shift of an address is defined. */
  predicate ValidGeometry(s: nat, b: nat, E: nat) {
    1 <= s <= 30 && 1 <= b <= 30 && 1 <= E
  }

  /** The sets of a cache as values: 2^s rows, none of them empty. */
  predicate Shaped(sets: seq<seq<Line>>, s: nat) {
    |sets| == Pow2(s) && forall st :: 0 <= st < |sets| ==> |sets[st]| > 0
  }

  /** The sets after one access, and its outcome. */
  datatype Step = Step(sets: seq<seq<Line>>, outcome: Outcome)

  /** access_data on the sets as values: the addressed set changes as
      AccessSet says and every other set stays as it was. */
  function AccessCache(sets: seq<seq<Line>>, addr: nat, s: nat, b: nat): (r: Step)
    requires addr < WordSize && s + b < 64 && Shaped(sets, s)
    ensures Shaped(r.sets, s) && forall st :: 0 <= st < |sets| ==> |r.sets[st]| == |sets[st]|
    ensures forall st :: 0 <= st < |sets| && st != Split(addr, s, b).setIndex ==> r.sets[st] == sets[st]
  {
    var d := Split(addr, s, b);
    var a := AccessSet(sets[d.setIndex], d.tag);
    Step(sets[d.setIndex := a.row], a.outcome)
  }

  /** The sets straight after init_cache. */
  function FreshSets(count: nat, E: nat): (sets: seq<seq<Line>>)
    ensures |sets| == count && forall st :: 0 <= st < count ==> sets[st] == FreshRow(E)
  {
    seq(count, st => FreshRow(E))
  }

  /** Cold start: on a freshly initialised cache the first access to any
      address is a cold miss. */
  lemma FreshCacheFirstAccess(addr: nat, s: nat, b: nat, E: nat)
    requires addr < WordSize && ValidGeometry(s, b, E)
    ensures AccessCache(FreshSets(Pow2(s), E), addr, s, b).outcome == ColdMiss
  {
    FreshRowFirstAccess(E, Split(addr, s, b).tag);
  }

  /** The number of valid lines in all sets. */
  function TotalValid(sets: seq<seq<Line>>): nat
  {
    if sets == [] then 0 else TotalValid(sets[..|sets| - 1]) + CountValid(sets[|sets| - 1])
  }

  lemma {:induction false} TotalValidUpdate(sets: seq<seq<Line>>, k: nat, row: seq<Line>)
    requires k < |sets|
    ensures TotalValid(sets[k := row]) + CountValid(sets[k]) == TotalValid(sets) + CountValid(row)
  {
    var n := |sets|;
    if k < n - 1 {
      assert sets[k := row][..n - 1] == sets[..n - 1][k := row];
      TotalValidUpdate(sets[..n - 1], k, row);
    } else {
      assert sets[k := row][..n - 1] == sets[..n - 1];
    }
  }

  /** A cache of count sets of E lines holds at most count * E valid lines,
      and a fresh one holds none. */
  lemma {:induction false} TotalValidBound(sets: seq<seq<Line>>, E: nat)
    requires forall st :: 0 <= st < |sets| ==> |sets[st]| == E
    ensures TotalValid(sets) <= |sets| * E
    ensures (forall st :: 0 <= st < |sets| ==> sets[st] == FreshRow(E)) ==> TotalValid(sets) == 0
  {
    if sets != [] {
      var n := |sets|;
      TotalValidBound(sets[..n - 1], E);
      assert (n - 1) * E + E == n * E;
      if sets[n - 1] == FreshRow(E) {
        CountZero(FreshRow(E));
      }
    }
  }

  /** Each access adds a valid line to the cache exactly when it is a cold
      miss. */
  lemma AccessCacheValidLines(sets: seq<seq<Line>>, addr: nat, s: nat, b: nat)
    requires addr < WordSize && s + b < 64 && Shaped(sets, s)
    ensures var r := AccessCache(sets, addr, s, b);
      TotalValid(r.sets) == TotalValid(sets) + (if r.outcome == ColdMiss then 1 else 0)
  {
    var d := Split(addr, s, b);
    AccessValidity(sets[d.setIndex], d.tag);
    TotalValidUpdate(sets, d.setIndex, AccessSet(sets[d.setIndex], d.tag).row);
  }

  /** Every set keeps the set invariant across an access. */
  lemma AccessCacheKeepsInv(sets: seq<seq<Line>>, addr: nat, s: nat, b: nat)
    requires addr < WordSize && s + b < 64 && Shaped(sets, s)
    requires forall st :: 0 <= st < |sets| ==> SetInv(sets[st])
    ensures var r := AccessCache(sets, addr, s, b);
      forall st :: 0 <= st < |r.sets| ==> SetInv(r.sets[st])
  {
    var d := Split(addr, s, b);
    AccessPreservesInv(sets[d.setIndex], d.tag);
  }

  /** The three statistics counters. */
  datatype Stats = Stats(hits: nat, misses: nat, evictions: nat)

  /** How one outcome moves the counters: a hit counts a hit, a cold miss a
      miss, an eviction a miss and an eviction. */
  function Tally(c: Stats, o: Outcome): (r: Stats)
    ensures r.hits + r.misses == c.hits + c.misses + 1
    ensures r.evictions - c.evictions == (if o == Eviction then 1 else 0)
    ensures r.hits - c.hits == (if o == Hit then 1 else 0)
  {
    match o
    case Hit => c.(hits := c.hits + 1)
    case ColdMiss => c.(misses := c.misses + 1)
    case Eviction => c.(misses := c.misses + 1, evictions := c.evictions + 1)
  }

  class Cache {
    const s: nat
    const b: nat
    const E: nat
    const S: nat
    /** cache[set][line], one row per set. */
    const lines: array2<Line>
    var hits: nat
    var misses: nat
    var evictions: nat
    /** The number of access_data calls made so far. */
    ghost var accesses: nat

    ghost predicate Valid()
      reads this, lines
    {
      ValidGeometry(s, b, E) && S == Pow2(s) &&
      lines.Length0 == S && lines.Length1 == E &&
      SetsInv() &&
      hits + misses == accesses && evictions <= misses
    }

    /** Every set satisfies the set invariant. */
    ghost predicate SetsInv()
      reads lines
    {
      forall st :: 0 <= st < lines.Length0 ==> SetInv(Row(st))
    }

    /** The lines of set st, in storage order. */
    ghost function Row(st: nat): (row: seq<Line>)
      reads lines
      requires st < lines.Length0
      ensures |row| == lines.Length1
      ensures forall j :: 0 <= j < lines.Length1 ==> row[j] == lines[st, j]
    {
      seq(lines.Length1, j requires 0 <= j < lines.Length1 reads lines => lines[st, j])
    }

    /** hit_cnt, miss_cnt and evict_cnt. */
    ghost function Counts(): Stats
      reads this
    {
      Stats(hits, misses, evictions)
    }

    /** All sets, in order. */
    ghost function Rows(): (sets: seq<seq<Line>>)
      reads lines
      ensures |sets| == lines.Length0
      ensures forall st :: 0 <= st < lines.Length0 ==> sets[st] == Row(st)
    {
      seq(lines.Length0, st requires 0 <= st < lines.Length0 reads lines => Row(st))
    }

    /** init_cache: S = 2^s sets of E lines, each line invalid with tag 0
        and counter 0; the counters start at zero. */
    constructor (s: nat, b: nat, E: nat)
      requires ValidGeometry(s, b, E)
      ensures Valid() && fresh(lines)
      ensures this.s == s && this.b == b && this.E == E && S == Pow2(s)
      ensures forall st :: 0 <= st < S ==> Row(st) == FreshRow(E)
      ensures Rows() == FreshSets(S, E)
      ensures hits == 0 && misses == 0 && evictions == 0 && accesses == 0
    {
      this.s, this.b, this.E := s, b, E;
      // S = 2 << (s-1)
      var setCount := 2 * Pow2(s - 1);
      var ls := new Line[setCount, E];
      var i := 0;
      while i < setCount
        invariant 0 <= i <= setCount
        invariant forall st, j :: 0 <= st < i && 0 <= j < E ==> ls[st, j] == EmptyLine
      {
        var j := 0;
        while j < E
          invariant 0 <= j <= E
          invariant forall st, k :: 0 <= st < i && 0 <= k < E ==> ls[st, k] == EmptyLine
          invariant forall k :: 0 <= k < j ==> ls[i, k] == EmptyLine
        {
          ls[i, j] := Line('0', 0, 0);
          j := j + 1;
        }
        i := i + 1;
      }
      S := setCount;
      lines := ls;
      hits, misses, evictions := 0, 0, 0;
      accesses := 0;
      new;
      forall st | 0 <= st < S
        ensures Row(st) == FreshRow(E) && SetInv(Row(st))
      {
        FreshRowFirstAccess(E, 0);
      }
    }

    /** The loop of access_data over the lines of one set: the four tracking
        pointers it leaves behind (NULL is None). */
    method Scan(setIndex: nat, tag: nat) returns (hit: Option<nat>, empty: Option<nat>, mostRecent: nat, leastRecent: nat)
      requires setIndex < lines.Length0 && lines.Length1 == E && E >= 1
      ensures hit == HitIn(Row(setIndex), tag, E)
      ensures empty == EmptyIn(Row(setIndex), E)
      ensures mostRecent == MostRecentIn(Row(setIndex), E)
      ensures leastRecent == LeastRecentIn(Row(setIndex), E)
    {
      ghost var row := Row(setIndex);
      mostRecent, leastRecent := 0, 0;
      empty, hit := None, None;
      var i := 0;
      while i < E
        invariant 0 <= i <= E
        invariant hit == HitIn(row, tag, i)
        invariant empty == EmptyIn(row, i)
        invariant mostRecent == MostRecentIn(row, i)
        invariant leastRecent == LeastRecentIn(row, i)
      {
        var line := lines[setIndex, i];
        if line.valid == '0' {
          empty := Some(i);
        } else {
          if line.tag == tag {
            hit := Some(i);
          }
          if line.counter > lines[setIndex, mostRecent].counter {
            mostRecent := i;
          }
          if line.counter < lines[setIndex, leastRecent].counter {
            leastRecent := i;
          }
        }
        i := i + 1;
      }
    }

    /** Store one line of one set, cache[st][k] = l; nothing else changes. */
    method WriteLine(st: nat, k: nat, l: Line)
      requires st < lines.Length0 && k < lines.Length1
      requires SetsInv() && SetInv(Row(st)[k := l])
      modifies lines
      ensures Row(st) == old(Row(st))[k := l]
      ensures forall st' :: 0 <= st' < lines.Length0 && st' != st ==> Row(st') == old(Row(st'))
      ensures SetsInv()
    {
      lines[st, k] := l;
      forall st' | 0 <= st' < lines.Length0 && st' != st
        ensures Row(st') == old(Row(st'))
      {
        assert forall j :: 0 <= j < lines.Length1 ==> lines[st', j] == old(lines[st', j]);
      }
      assert forall j :: 0 <= j < lines.Length1 && j != k ==> lines[st, j] == old(lines[st, j]);
    }

    /** The update part of access_data for set setIndex and tag: scan the
        set once, then refresh the hit line, fill the last empty line, or
        overwrite the least recently used line. */
    method Place(setIndex: nat, tag: nat) returns (outcome: Outcome)
      requires setIndex < lines.Length0 && lines.Length1 == E && E >= 1 && SetsInv()
      modifies lines
      ensures SetsInv()
      ensures var a := AccessSet(old(Row(setIndex)), tag);
        outcome == a.outcome && Row(setIndex) == a.row
      ensures forall st :: 0 <= st < lines.Length0 && st != setIndex ==> Row(st) == old(Row(st))
      ensures Rows() == old(Rows())[setIndex := AccessSet(old(Row(setIndex)), tag).row]
    {
      ghost var row := Row(setIndex);
      var hit, empty, mostRecent, leastRecent := Scan(setIndex, tag);
      ghost var a := AccessSet(row, tag);
      AccessPreservesInv(row, tag);
      var stamp := lines[setIndex, mostRecent].counter + 1;
      assert stamp == Stamp(row);
      if hit.Some? {
        assert a == AccessResult(Hit, hit.value, row[hit.value := row[hit.value].(counter := stamp)]);
        WriteLine(setIndex, hit.value, lines[setIndex, hit.value].(counter := stamp));
        outcome := Hit;
      } else if empty.Some? {
        assert a == AccessResult(ColdMiss, empty.value, row[empty.value := Line('1', tag, stamp)]);
        WriteLine(setIndex, empty.value, Line('1', tag, stamp));
        outcome := ColdMiss;
      } else {
        assert a == AccessResult(Eviction, leastRecent, row[leastRecent := Line('1', tag, stamp)]);
        WriteLine(setIndex, leastRecent, Line('1', tag, stamp));
        outcome := Eviction;
      }
      assert Rows() == old(Rows())[setIndex := a.row];
    }

    /** access_data: split addr into tag and set, update that set, and count
        the access as a hit, a miss, or a miss with an eviction. The set
        afterwards is the one AccessSet describes; every other set is
        unchanged. */
    method Access(addr: nat) returns (outcome: Outcome)
      requires Valid() && addr < WordSize
      modifies this, lines
      ensures Valid()
      ensures var d := Split(addr, s, b);
        var a := AccessSet(old(Row(d.setIndex)), d.tag);
        outcome == a.outcome && Row(d.setIndex) == a.row
      ensures forall st :: 0 <= st < S && st != Split(addr, s, b).setIndex ==> Row(st) == old(Row(st))
      ensures Step(Rows(), outcome) == AccessCache(old(Rows()), addr, s, b)
      ensures hits == old(hits) + (if outcome == Hit then 1 else 0)
      ensures misses == old(misses) + (if outcome == Hit then 0 else 1)
      ensures evictions == old(evictions) + (if outcome == Eviction then 1 else 0)
      ensures Counts() == Tally(old(Counts()), outcome)
      ensures accesses == old(accesses) + 1
    {
      var d := Split(addr, s, b);
      outcome := Place(d.setIndex, d.tag);
      if outcome == Hit {
        hits := hits + 1;
      } else if outcome == ColdMiss {
        misses := misses + 1;
      } else {
        misses := misses + 1;
        evictions := evictions + 1;
      }
      accesses := accesses + 1;
    }
  }
}
