/** One cache set: its lines, the single scan that access_data makes over
    them, and the outcome of one access (hit, cold miss, or LRU eviction),
    all as functions on the sequence of the set's lines. */
module CacheSet {

  datatype Option<T> = None | Some(value: T)

  /** A `cache_line_t`. The valid byte is the character '0' for an empty line;
      any other character counts as valid (access_data only tests for '0'). */
  datatype Line = Line(valid: char, tag: nat, counter: nat)

  /** The state init_cache gives every line. */
  const EmptyLine := Line('0', 0, 0)

  predicate IsValid(l: Line) {
    l.valid != '0'
  }

  predicate Holds(l: Line, tag: nat) {
    IsValid(l) && l.tag == tag
  }

  datatype Outcome = Hit | ColdMiss | Eviction

  // ---------------------------------------------------------------------
  // The scan of lines 143-162, as the values its four tracking pointers
  // hold once the first n lines have been looked at.

  /** hit_line after n lines: the index of the last one that holds tag. */
  function HitIn(row: seq<Line>, tag: nat, n: nat): (r: Option<nat>)
    requires n <= |row|
    ensures r.Some? ==> r.value < n
  {
    if n == 0 then None
    else if Holds(row[n - 1], tag) then Some(n - 1)
    else HitIn(row, tag, n - 1)
  }

  /** empty_line after n lines: the index of the last invalid one. */
  function EmptyIn(row: seq<Line>, n: nat): (r: Option<nat>)
    requires n <= |row|
    ensures r.Some? ==> r.value < n
  {
    if n == 0 then None
    else if !IsValid(row[n - 1]) then Some(n - 1)
    else EmptyIn(row, n - 1)
  }

  /** mostrecent_line after n lines: it starts at line 0 and moves to a valid
      line whose counter is strictly larger. */
  function MostRecentIn(row: seq<Line>, n: nat): (m: nat)
    requires 0 < |row| && n <= |row|
    ensures m < |row|
  {
    if n == 0 then 0
    else
      var m := MostRecentIn(row, n - 1);
      if IsValid(row[n - 1]) && row[n - 1].counter > row[m].counter then n - 1 else m
  }

  /** leastrecent_line after n lines: it starts at line 0 and moves to a valid
      line whose counter is strictly smaller. */
  function LeastRecentIn(row: seq<Line>, n: nat): (v: nat)
    requires 0 < |row| && n <= |row|
    ensures v < |row|
  {
    if n == 0 then 0
    else
      var v := LeastRecentIn(row, n - 1);
      if IsValid(row[n - 1]) && row[n - 1].counter < row[v].counter then n - 1 else v
  }

  /** A line the recency pointers may rest on: line 0, where both start,
      or a valid line (only valid lines are compared). */
  predicate Candidate(row: seq<Line>, j: nat)
    requires j < |row|
  {
    j == 0 || IsValid(row[j])
  }

  /** hit_line is the LAST valid line among the first n that holds tag, and
      there is one exactly when some valid line holds tag. */
  lemma {:induction false} HitInSpec(row: seq<Line>, tag: nat, n: nat)
    requires n <= |row|
    ensures var r := HitIn(row, tag, n);
      (r.Some? <==> exists j :: 0 <= j < n && Holds(row[j], tag)) &&
      (r.Some? ==> r.value < n && Holds(row[r.value], tag) &&
                   forall j :: r.value < j < n ==> !Holds(row[j], tag))
  {
    if n > 0 {
      HitInSpec(row, tag, n - 1);
    }
  }

  /** empty_line is the LAST invalid line among the first n, and there is
      none exactly when all of them are valid. */
  lemma {:induction false} EmptyInSpec(row: seq<Line>, n: nat)
    requires n <= |row|
    ensures var r := EmptyIn(row, n);
      (r.None? <==> forall j :: 0 <= j < n ==> IsValid(row[j])) &&
      (r.Some? ==> r.value < n && !IsValid(row[r.value]) &&
                   forall j :: r.value < j < n ==> IsValid(row[j]))
  {
    if n > 0 {
      EmptyInSpec(row, n - 1);
    }
  }

  /** mostrecent_line is, among line 0 and the valid lines of the first n,
      the FIRST one with the largest counter. */
  lemma {:induction false} MostRecentInSpec(row: seq<Line>, n: nat)
    requires 0 < |row| && n <= |row|
    ensures var m := MostRecentIn(row, n);
      Candidate(row, m) && (m == 0 || m < n) &&
      (forall j :: 0 <= j < n && Candidate(row, j) ==> row[j].counter <= row[m].counter) &&
      row[0].counter <= row[m].counter &&
      (forall j :: 0 <= j < m && Candidate(row, j) ==> row[j].counter < row[m].counter)
  {
    if n > 0 {
      MostRecentInSpec(row, n - 1);
    }
  }

  /** leastrecent_line is, among line 0 and the valid lines of the first n,
      the FIRST one with the smallest counter. */
  lemma {:induction false} LeastRecentInSpec(row: seq<Line>, n: nat)
    requires 0 < |row| && n <= |row|
    ensures var v := LeastRecentIn(row, n);
      Candidate(row, v) && (v == 0 || v < n) &&
      (forall j :: 0 <= j < n && Candidate(row, j) ==> row[v].counter <= row[j].counter) &&
      row[v].counter <= row[0].counter &&
      (forall j :: 0 <= j < v && Candidate(row, j) ==> row[v].counter < row[j].counter)
  {
    if n > 0 {
      LeastRecentInSpec(row, n - 1);
    }
  }

  // ---------------------------------------------------------------------
  // One access to a set (lines 163-186).

  /** What one access does to a set: the outcome, the one line it touched,
      and the lines afterwards. */
  datatype AccessResult = AccessResult(outcome: Outcome, line: nat, row: seq<Line>)

  /** The counter every outcome stamps on the touched line: one more than the
      largest counter the scan saw. */
  function Stamp(row: seq<Line>): nat
    requires 0 < |row|
  {
    row[MostRecentIn(row, |row|)].counter + 1
  }

  function AccessSet(row: seq<Line>, tag: nat): (a: AccessResult)
    requires 0 < |row|
    ensures a.line < |row| && |a.row| == |row|
  {
    var stamp := Stamp(row);
    match HitIn(row, tag, |row|)
    case Some(h) => AccessResult(Hit, h, row[h := row[h].(counter := stamp)])
    case None =>
      match EmptyIn(row, |row|)
      case Some(e) => AccessResult(ColdMiss, e, row[e := Line('1', tag, stamp)])
      case None =>
        var v := LeastRecentIn(row, |row|);
        AccessResult(Eviction, v, row[v := Line('1', tag, stamp)])
  }

  // ---------------------------------------------------------------------
  // The invariant of a set.

  /** Every line is either untouched since init_cache, or valid ('1') with a
      counter of at least 1; valid lines have pairwise distinct tags and
      pairwise distinct counters. */
  ghost predicate SetInv(row: seq<Line>) {
    (forall j :: 0 <= j < |row| ==>
      if IsValid(row[j]) then row[j].valid == '1' && row[j].counter >= 1 else row[j] == EmptyLine) &&
    (forall i, j :: 0 <= i < |row| && 0 <= j < |row| && i != j && IsValid(row[i]) && IsValid(row[j]) ==>
      row[i].tag != row[j].tag && row[i].counter != row[j].counter)
  }

  /** The lines of a set straight after init_cache. */
  function FreshRow(n: nat): (row: seq<Line>)
    ensures |row| == n && forall j :: 0 <= j < n ==> row[j] == EmptyLine
  {
    seq(n, j => EmptyLine)
  }

  function CountValid(row: seq<Line>): (k: nat)
    ensures k <= |row|
  {
    if row == [] then 0 else CountValid(row[..|row| - 1]) + (if IsValid(row[|row| - 1]) then 1 else 0)
  }

  lemma {:induction false} CountValidUpdate(row: seq<Line>, k: nat, l: Line)
    requires k < |row|
    ensures CountValid(row[k := l]) + (if IsValid(row[k]) then 1 else 0)
         == CountValid(row) + (if IsValid(l) then 1 else 0)
  {
    var n := |row|;
    var row' := row[k := l];
    if k < n - 1 {
      assert row'[..n - 1] == row[..n - 1][k := l];
      CountValidUpdate(row[..n - 1], k, l);
    } else {
      assert row'[..n - 1] == row[..n - 1];
    }
  }

  // ---------------------------------------------------------------------
  // Properties of one access.

  /** The outcome is decided by the set's contents alone: a hit exactly when
      a valid line holds the tag, an eviction exactly when there is no hit and
      every line is valid, a cold miss otherwise. */
  lemma AccessOutcome(row: seq<Line>, tag: nat)
    requires 0 < |row|
    ensures AccessSet(row, tag).outcome == Hit <==> exists j :: 0 <= j < |row| && Holds(row[j], tag)
    ensures AccessSet(row, tag).outcome == Eviction <==>
      (forall j :: 0 <= j < |row| ==> !Holds(row[j], tag)) && (forall j :: 0 <= j < |row| ==> IsValid(row[j]))
    ensures AccessSet(row, tag).outcome == ColdMiss <==>
      (forall j :: 0 <= j < |row| ==> !Holds(row[j], tag)) && (exists j :: 0 <= j < |row| && !IsValid(row[j]))
  {
    HitInSpec(row, tag, |row|);
    EmptyInSpec(row, |row|);
  }

  /** Only the touched line changes. A hit changes its counter alone, to the
      new stamp; a cold miss fills the highest-indexed empty line; an
      eviction overwrites the valid line with the smallest counter, the
      earliest one on a tie. */
  lemma AccessTouches(row: seq<Line>, tag: nat)
    requires 0 < |row|
    ensures var a := AccessSet(row, tag);
      (forall j :: 0 <= j < |row| && j != a.line ==> a.row[j] == row[j]) &&
      (a.outcome == Hit ==>
        Holds(row[a.line], tag) && a.row[a.line] == row[a.line].(counter := Stamp(row))) &&
      (a.outcome == ColdMiss ==>
        !IsValid(row[a.line]) && (forall j :: a.line < j < |row| ==> IsValid(row[j]))) &&
      (a.outcome == Eviction ==>
        (forall j :: 0 <= j < |row| ==> row[a.line].counter <= row[j].counter) &&
        (forall j :: 0 <= j < a.line ==> row[a.line].counter < row[j].counter)) &&
      (a.outcome != Hit ==> a.row[a.line] == Line('1', tag, Stamp(row)))
  {
    var a := AccessSet(row, tag);
    HitInSpec(row, tag, |row|);
    EmptyInSpec(row, |row|);
    LeastRecentInSpec(row, |row|);
    if a.outcome == Eviction {
      assert forall j :: 0 <= j < |row| ==> Candidate(row, j);
    }
  }

  /** With the invariant, the counter an access stamps is above every
      counter in the set. */
  lemma StampAboveAll(row: seq<Line>)
    requires 0 < |row| && SetInv(row)
    ensures forall j :: 0 <= j < |row| ==> row[j].counter < Stamp(row)
  {
    MostRecentInSpec(row, |row|);
    forall j | 0 <= j < |row|
      ensures row[j].counter < Stamp(row)
    {
      if !IsValid(row[j]) {
        assert row[j].counter == 0;
      } else {
        assert Candidate(row, j);
      }
    }
  }

  /** An access keeps the set invariant. */
  lemma AccessPreservesInv(row: seq<Line>, tag: nat)
    requires 0 < |row| && SetInv(row)
    ensures SetInv(AccessSet(row, tag).row)
  {
    var a := AccessSet(row, tag);
    AccessTouches(row, tag);
    AccessOutcome(row, tag);
    StampAboveAll(row);
    var k := a.line;
    assert IsValid(a.row[k]) && a.row[k].valid == '1' && a.row[k].tag == tag by {
      if a.outcome == Hit {
        assert row[k].valid == '1';
      }
    }
    forall i, j | 0 <= i < |row| && 0 <= j < |row| && i != j && IsValid(a.row[i]) && IsValid(a.row[j])
      ensures a.row[i].tag != a.row[j].tag && a.row[i].counter != a.row[j].counter
    {
      if i == k {
        assert a.row[j] == row[j];
        assert !Holds(row[j], tag) || a.outcome == Hit;
      } else if j == k {
        assert a.row[i] == row[i];
        assert !Holds(row[i], tag) || a.outcome == Hit;
      }
    }
  }

  /** After an access exactly one valid line of the set holds the tag, and
      its counter is above every other line's: the tag is the unique most
      recently used line. */
  lemma AccessMakesMostRecent(row: seq<Line>, tag: nat)
    requires 0 < |row| && SetInv(row)
    ensures var a := AccessSet(row, tag);
      Holds(a.row[a.line], tag) &&
      forall j :: 0 <= j < |row| && j != a.line ==> !Holds(a.row[j], tag) && a.row[j].counter < a.row[a.line].counter
  {
    var a := AccessSet(row, tag);
    AccessTouches(row, tag);
    AccessOutcome(row, tag);
    StampAboveAll(row);
    AccessPreservesInv(row, tag);
  }

  /** Lines never become invalid; only a cold miss adds a valid line. */
  lemma AccessValidity(row: seq<Line>, tag: nat)
    requires 0 < |row|
    ensures var a := AccessSet(row, tag);
      (forall j :: 0 <= j < |row| && IsValid(row[j]) ==> IsValid(a.row[j])) &&
      CountValid(a.row) == CountValid(row) + (if a.outcome == ColdMiss then 1 else 0)
  {
    var a := AccessSet(row, tag);
    var k, l := a.line, a.row[a.line];
    assert a.row == row[k := l] by {
      AccessTouches(row, tag);
    }
    assert IsValid(l) && IsValid(row[k]) == (a.outcome != ColdMiss) by {
      AccessTouches(row, tag);
      HitInSpec(row, tag, |row|);
      EmptyInSpec(row, |row|);
    }
    CountValidUpdate(row, k, l);
  }

  /** On an eviction the victim's former tag is no longer resident. */
  lemma EvictionRemovesVictim(row: seq<Line>, tag: nat)
    requires 0 < |row| && SetInv(row)
    requires AccessSet(row, tag).outcome == Eviction
    ensures var a := AccessSet(row, tag);
      forall j :: 0 <= j < |row| ==> !Holds(a.row[j], row[a.line].tag)
  {
    var a := AccessSet(row, tag);
    AccessTouches(row, tag);
    AccessOutcome(row, tag);
  }

  /** Repeating an access to the same tag hits (the second access of a Modify). */
  lemma RepeatHits(row: seq<Line>, tag: nat)
    requires 0 < |row|
    ensures AccessSet(AccessSet(row, tag).row, tag).outcome == Hit
  {
    var a := AccessSet(row, tag);
    AccessTouches(row, tag);
    AccessOutcome(a.row, tag);
  }

  /** A freshly initialised set satisfies the invariant, and its first access
      is a cold miss into the last line, stamped with counter 1. */
  lemma FreshRowFirstAccess(n: nat, tag: nat)
    requires 0 < n
    ensures SetInv(FreshRow(n))
    ensures AccessSet(FreshRow(n), tag) == AccessResult(ColdMiss, n - 1, FreshRow(n)[n - 1 := Line('1', tag, 1)])
  {
    var row := FreshRow(n);
    AccessOutcome(row, tag);
    AccessTouches(row, tag);
    assert !IsValid(row[0]);
  }

  // ---------------------------------------------------------------------
  // Several accesses to one set.

  /** Where a run of accesses leaves a set, and the outcome of each access. */
  datatype Accesses = Accesses(row: seq<Line>, outcomes: seq<Outcome>)

  /** The accesses with the tags in tags, in order, all reaching this set. */
  function AccessAll(row: seq<Line>, tags: seq<nat>): (r: Accesses)
    requires 0 < |row|
    ensures |r.row| == |row| && |r.outcomes| == |tags|
  {
    if tags == [] then Accesses(row, [])
    else
      var p := AccessAll(row, tags[..|tags| - 1]);
      var a := AccessSet(p.row, tags[|tags| - 1]);
      Accesses(a.row, p.outcomes + [a.outcome])
  }

  /** The position of the last access with tag t. */
  function LastAccess(tags: seq<nat>, t: nat): (k: nat)
    requires t in tags
    ensures k < |tags| && tags[k] == t
    ensures forall i :: k < i < |tags| ==> tags[i] != t
  {
    var n := |tags|;
    if tags[n - 1] == t then n - 1
    else
      assert tags == tags[..n - 1] + [tags[n - 1]];
      LastAccess(tags[..n - 1], t)
  }

  /** The counters of a set that started empty and then saw the accesses
      tags: every valid line holds one of those tags, its counter is one more
      than the position of that tag's last access, and the tag accessed last
      is resident. */
  ghost predicate RecencyStamps(row: seq<Line>, tags: seq<nat>) {
    (forall j :: 0 <= j < |row| && IsValid(row[j]) ==>
      row[j].tag in tags && row[j].counter == LastAccess(tags, row[j].tag) + 1) &&
    (tags != [] ==> exists j :: 0 <= j < |row| && Holds(row[j], tags[|tags| - 1]))
  }

  /** With those counters, the next stamp is one more than the number of
      accesses so far. */
  lemma StampCountsAccesses(row: seq<Line>, tags: seq<nat>)
    requires 0 < |row| && SetInv(row) && RecencyStamps(row, tags)
    ensures Stamp(row) == |tags| + 1
  {
    MostRecentInSpec(row, |row|);
    var m := MostRecentIn(row, |row|);
    assert row[m].counter <= |tags| by {
      if IsValid(row[m]) {
        assert row[m].tag in tags;
      }
    }
    if tags != [] {
      var j :| 0 <= j < |row| && Holds(row[j], tags[|tags| - 1]);
      assert Candidate(row, j);
    } else {
      assert !IsValid(row[m]);
    }
  }

  /** Starting from a set as init_cache leaves it, the counters record the
      order of the last accesses, and the set invariant holds throughout. */
  lemma {:induction false} AccessAllStamps(n: nat, tags: seq<nat>)
    requires 0 < n
    ensures var r := AccessAll(FreshRow(n), tags).row;
      SetInv(r) && RecencyStamps(r, tags)
  {
    if tags == [] {
      FreshRowFirstAccess(n, 0);
    } else {
      var prefix, x := tags[..|tags| - 1], tags[|tags| - 1];
      assert tags == prefix + [x];
      AccessAllStamps(n, prefix);
      var row := AccessAll(FreshRow(n), prefix).row;
      var a := AccessSet(row, x);
      StampCountsAccesses(row, prefix);
      AccessTouches(row, x);
      AccessMakesMostRecent(row, x);
      AccessPreservesInv(row, x);
      assert LastAccess(tags, x) == |prefix|;
      forall j | 0 <= j < n && IsValid(a.row[j])
        ensures a.row[j].tag in tags && a.row[j].counter == LastAccess(tags, a.row[j].tag) + 1
      {
        if j != a.line {
          assert a.row[j] == row[j] && a.row[j].tag != x;
        }
      }
      assert Holds(a.row[a.line], x);
    }
  }

  /** LRU: when an access evicts, the victim holds the resident tag whose
      last access lies furthest back. */
  lemma EvictsLeastRecentlyUsed(n: nat, tags: seq<nat>, x: nat)
    requires 0 < n
    requires AccessSet(AccessAll(FreshRow(n), tags).row, x).outcome == Eviction
    ensures var row := AccessAll(FreshRow(n), tags).row;
      var v := AccessSet(row, x).line;
      IsValid(row[v]) && row[v].tag in tags &&
      forall j :: 0 <= j < n && j != v ==>
        IsValid(row[j]) && row[j].tag in tags && LastAccess(tags, row[v].tag) < LastAccess(tags, row[j].tag)
  {
    var row := AccessAll(FreshRow(n), tags).row;
    AccessAllStamps(n, tags);
    AccessOutcome(row, x);
    AccessTouches(row, x);
  }

  /** The number of valid lines is the number of lines exactly when all of
      them are valid. */
  lemma {:induction false} CountValidFull(row: seq<Line>)
    ensures CountValid(row) == |row| <==> forall j :: 0 <= j < |row| ==> IsValid(row[j])
  {
    if row != [] {
      var front := row[..|row| - 1];
      CountValidFull(front);
      assert forall j :: 0 <= j < |front| ==> front[j] == row[j];
    }
  }

  /** Up to E distinct tags on a fresh set are cold misses, each of which
      stays resident. */
  lemma {:induction false} FillsWithoutEviction(n: nat, tags: seq<nat>)
    requires 0 < n && |tags| <= n
    requires forall i, j :: 0 <= i < j < |tags| ==> tags[i] != tags[j]
    ensures var r := AccessAll(FreshRow(n), tags);
      (forall i :: 0 <= i < |tags| ==> r.outcomes[i] == ColdMiss) &&
      CountValid(r.row) == |tags| &&
      forall i :: 0 <= i < |tags| ==> exists j :: 0 <= j < n && Holds(r.row[j], tags[i])
  {
    if tags == [] {
      assert forall j :: 0 <= j < n ==> !IsValid(FreshRow(n)[j]);
      CountValidFull(FreshRow(n));
      CountZero(FreshRow(n));
    } else {
      var prefix, x := tags[..|tags| - 1], tags[|tags| - 1];
      assert tags == prefix + [x];
      FillsWithoutEviction(n, prefix);
      var p := AccessAll(FreshRow(n), prefix);
      var a := AccessSet(p.row, x);
      assert a.outcome == ColdMiss by {
        assert x !in prefix;
        AccessAllStamps(n, prefix);
        NotResident(p.row, prefix, x);
        CountValidFull(p.row);
        AccessOutcome(p.row, x);
      }
      assert CountValid(a.row) == |tags| by {
        AccessValidity(p.row, x);
      }
      MissKeepsResident(p.row, prefix, x);
      assert forall i :: 0 <= i < |tags| ==> AccessAll(FreshRow(n), tags).outcomes[i] == ColdMiss by {
        assert AccessAll(FreshRow(n), tags).outcomes == p.outcomes + [a.outcome];
      }
    }
  }

  /** A cold miss keeps every resident tag resident and adds its own. */
  lemma MissKeepsResident(row: seq<Line>, tags: seq<nat>, x: nat)
    requires 0 < |row| && AccessSet(row, x).outcome == ColdMiss
    requires forall i :: 0 <= i < |tags| ==> exists j :: 0 <= j < |row| && Holds(row[j], tags[i])
    ensures var a := AccessSet(row, x);
      forall i :: 0 <= i < |tags| + 1 ==> exists j :: 0 <= j < |row| && Holds(a.row[j], (tags + [x])[i])
  {
    var a := AccessSet(row, x);
    AccessTouches(row, x);
    forall i | 0 <= i < |tags| + 1
      ensures exists j :: 0 <= j < |row| && Holds(a.row[j], (tags + [x])[i])
    {
      if i < |tags| {
        var j :| 0 <= j < |row| && Holds(row[j], tags[i]);
        assert a.row[j] == row[j];
      } else {
        assert Holds(a.row[a.line], x);
      }
    }
  }

  /** No valid lines means a count of zero. */
  lemma {:induction false} CountZero(row: seq<Line>)
    requires forall j :: 0 <= j < |row| ==> !IsValid(row[j])
    ensures CountValid(row) == 0
  {
    if row != [] {
      CountZero(row[..|row| - 1]);
    }
  }

  /** Capacity: E distinct tags fill a fresh set of E lines with cold misses;
      a further new tag evicts the first of them (the least recently used),
      and accessing that first tag again misses and evicts in turn. */
  lemma CapacityEviction(n: nat, tags: seq<nat>, x: nat)
    requires 0 < n && |tags| == n
    requires forall i, j :: 0 <= i < j < n ==> tags[i] != tags[j]
    requires x !in tags
    ensures var r := AccessAll(FreshRow(n), tags);
      var a := AccessSet(r.row, x);
      (forall i :: 0 <= i < n ==> r.outcomes[i] == ColdMiss) &&
      a.outcome == Eviction && r.row[a.line].tag == tags[0] &&
      AccessSet(a.row, tags[0]).outcome == Eviction
  {
    FillsWithoutEviction(n, tags);
    FullAfterFill(n, tags);
    EvictsFirst(AccessAll(FreshRow(n), tags).row, tags, x);
  }

  /** After E distinct tags a fresh set is full, the first tag is resident,
      and the counters record the access order. */
  lemma FullAfterFill(n: nat, tags: seq<nat>)
    requires 0 < n && |tags| == n
    requires forall i, j :: 0 <= i < j < n ==> tags[i] != tags[j]
    ensures var row := AccessAll(FreshRow(n), tags).row;
      (forall j :: 0 <= j < n ==> IsValid(row[j])) &&
      (exists j :: 0 <= j < n && Holds(row[j], tags[0])) &&
      SetInv(row) && RecencyStamps(row, tags)
  {
    FillsWithoutEviction(n, tags);
    CountValidFull(AccessAll(FreshRow(n), tags).row);
    AccessAllStamps(n, tags);
  }

  /** In a full set whose counters record distinct accesses, a new tag
      evicts the line of the first one, which then misses and evicts. */
  lemma EvictsFirst(row: seq<Line>, tags: seq<nat>, x: nat)
    requires 0 < |row| && 0 < |tags| && x !in tags
    requires forall i, j :: 0 <= i < j < |tags| ==> tags[i] != tags[j]
    requires forall j :: 0 <= j < |row| ==> IsValid(row[j])
    requires exists j :: 0 <= j < |row| && Holds(row[j], tags[0])
    requires SetInv(row) && RecencyStamps(row, tags)
    ensures var a := AccessSet(row, x);
      a.outcome == Eviction && row[a.line].tag == tags[0] &&
      AccessSet(a.row, tags[0]).outcome == Eviction
  {
    var a := AccessSet(row, x);
    var j0 :| 0 <= j0 < |row| && Holds(row[j0], tags[0]);
    assert a.outcome == Eviction by {
      NotResident(row, tags, x);
      AccessOutcome(row, x);
    }
    assert row[a.line].tag == tags[0] by {
      AccessTouches(row, x);
      assert LastAccess(tags, tags[0]) == 0;
      assert row[a.line].counter <= row[j0].counter;
      assert LastAccess(tags, row[a.line].tag) == 0;
    }
    assert AccessSet(a.row, tags[0]).outcome == Eviction by {
      EvictionRemovesVictim(row, x);
      AccessValidity(row, x);
      AccessOutcome(a.row, tags[0]);
    }
  }

  /** A tag never accessed is held by no line. */
  lemma NotResident(row: seq<Line>, tags: seq<nat>, x: nat)
    requires RecencyStamps(row, tags) && x !in tags
    ensures forall j :: 0 <= j < |row| ==> !Holds(row[j], x)
  {
  }
}
