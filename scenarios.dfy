/** Concrete runs of the simulator, checked against the outcomes and
    statistics they must produce. */
module Scenarios {
  import opened Address
  import opened CacheSet
  import opened Simulator
  import opened Trace

  /** s = 1, E = 1, b = 1 (two sets of one line, blocks of two bytes):
      L 0 misses, L 0 hits, L 2 has tag 0 in set 1 and misses without an
      eviction. */
  method TwoSetsScenario() {
    var c := new Cache(1, 1, 1);
    assert Split(0, 1, 1) == Decoded(0, 0);
    assert Split(2, 1, 1) == Decoded(0, 1);
    FreshRowFirstAccess(1, 0);
    ghost var fresh1 := c.Row(1);
    var o1 := c.Access(0);
    assert o1 == ColdMiss;
    ghost var row0 := c.Row(0);
    var o2 := c.Access(0);
    RepeatHits(FreshRow(1), 0);
    assert o2 == Hit;
    var o3 := c.Access(2);
    assert c.Row(1) == AccessSet(fresh1, 0).row;
    assert o3 == ColdMiss;
    assert c.hits == 1 && c.misses == 2 && c.evictions == 0;
  }

  /** In a one-line set that holds one tag, the other tag evicts it and
      takes the next counter. */
  lemma ConflictSteps()
    ensures AccessSet([Line('1', 0, 1)], 1) == AccessResult(Eviction, 0, [Line('1', 1, 2)])
    ensures AccessSet([Line('1', 1, 2)], 0) == AccessResult(Eviction, 0, [Line('1', 0, 3)])
  {
  }

  /** The same geometry: addresses 0 and 4 share set 0 with tags 0 and 1, so
      with one line per set each access after the first evicts the other. */
  method ConflictScenario() {
    var c := new Cache(1, 1, 1);
    assert Split(0, 1, 1) == Decoded(0, 0);
    assert Split(4, 1, 1) == Decoded(1, 0);
    FreshRowFirstAccess(1, 0);
    var o1 := c.Access(0);
    assert c.Row(0) == [Line('1', 0, 1)];
    ConflictSteps();
    var o2 := c.Access(4);
    assert o2 == Eviction && c.Row(0) == [Line('1', 1, 2)];
    var o3 := c.Access(0);
    assert o3 == Eviction;
    assert c.hits == 0 && c.misses == 3 && c.evictions == 2;
  }

  /** A single `M 10` record (address 0x10: tag 1, set 0) on an empty
      cache: two accesses, a cold miss and then a hit, both in set 0. */
  method ModifyScenario() {
    var c := new Cache(2, 2, 1);
    assert Split(0x10, 2, 2) == Decoded(1, 0);
    ghost var initial := c.Rows();
    FreshCacheFirstAccess(0x10, 2, 2, 1);
    ModifyHitsTwice(initial, Record('M', 0x10), 2, 2);
    var outcomes := ReplayRecord(c, Record('M', 0x10));
    assert outcomes == [ColdMiss, Hit];
    assert c.hits == 1 && c.misses == 1 && c.evictions == 0;
    assert AccessSet(FreshRow(1), 1).row == [Line('1', 1, 1)];
    assert AccessSet([Line('1', 1, 1)], 1).row == [Line('1', 1, 2)];
    assert c.Rows()[0] == [Line('1', 1, 2)];
  }
}
