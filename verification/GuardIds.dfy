/**
 The allocator of edge IDs: every module hands its guard array to __sanitizer_cov_trace_pc_guard_init,
 before or after the forkserver started.
 */
module GuardIds {
  import opened Words

  const MAP_SIZE := 65536
  const MAP_INITIAL_SIZE := 2097152
  const FS_OPT_MAX_MAPSIZE := 8388608

  /** What the constructors and __afl_map_shm find in their environment; `fixedMap` is whether the map must lie
      at a given address and does not yet, `attached` whether the mapping calls succeed, `disabled` whether
      AFL_DISABLE_LLVM_INSTRUMENTATION is set, `spare` whether the early allocation for a large map succeeds, and
      `segment` the size of the shared segment. */
  datatype ShmEnv = ShmEnv(hasShm: bool, mapSizeVar: u32, fixedMap: bool, attached: bool, disabled: bool,
                           spare: bool, segment: nat)

  /** The map size chosen without shared memory. */
  function OwnSize(env: ShmEnv, firstFinalLoc: nat): nat {
    if env.mapSizeVar > MAP_INITIAL_SIZE then env.mapSizeVar
    else if firstFinalLoc > MAP_INITIAL_SIZE then firstFinalLoc
    else MAP_INITIAL_SIZE
  }

  /** AFL_MAP_SIZE decides whenever it exceeds the initial size, whatever the modules asked for; otherwise the larger
      one of the initial size and what they asked for does. */
  lemma OwnSizeDecided(env: ShmEnv, firstFinalLoc: nat)
    ensures var wanted := if env.mapSizeVar > MAP_INITIAL_SIZE then env.mapSizeVar else firstFinalLoc;
            OwnSize(env, firstFinalLoc) == Max(MAP_INITIAL_SIZE, wanted)
  {
  }

  /** The last ID after mapping: one up, as counting starts at 0, and no less than a large map of its own. */
  function MappedLoc(env: ShmEnv, finalLoc: nat, firstFinalLoc: nat): nat {
    var loc := if finalLoc == 0 then 0 else finalLoc + 1;
    if !env.hasShm && MAP_INITIAL_SIZE < OwnSize(env, firstFinalLoc) && loc < OwnSize(env, firstFinalLoc)
    then OwnSize(env, firstFinalLoc)
    else loc
  }

  /** How much memory lies behind the map after mapping; `dummy` is what lies behind it without. */
  function MappedArea(env: ShmEnv, finalLoc: nat, firstFinalLoc: nat, dummy: nat): nat {
    var loc := MappedLoc(env, finalLoc, firstFinalLoc);
    if env.hasShm then env.segment
    else if env.fixedMap then OwnSize(env, firstFinalLoc)
    else if loc > MAP_INITIAL_SIZE && loc > firstFinalLoc then loc
    else dummy
  }

  /** Without shared memory and fixed address, mapping again makes room for the last ID. */
  lemma MappedAreaCovers(env: ShmEnv, finalLoc: nat, firstFinalLoc: nat, dummy: nat)
    requires !env.hasShm && !env.fixedMap && finalLoc > 0
    requires MAP_INITIAL_SIZE <= dummy && firstFinalLoc <= dummy
    ensures finalLoc < MappedArea(env, finalLoc, firstFinalLoc, dummy)
  {
  }

  /** A call returns or ends the process. */
  datatype Outcome = Returned | Aborted

  ghost function Range(start: nat, stop: nat): (r: set<int>)
    requires start <= stop
    ensures forall i :: i in r <==> start <= i < stop
    decreases stop - start
  {
    if start == stop then {} else {start} + Range(start + 1, stop)
  }

  /** Numbered guards carry 0 or an ID from 6 up to the last one, no ID twice. */
  ghost predicate Distinct(guards: seq<nat>, numbered: set<int>, finalLoc: nat) {
    && (forall i :: i in numbered ==> 0 <= i < |guards|)
    && (forall i :: i in numbered && guards[i] != 0 ==> 6 <= guards[i] <= finalLoc)
    && (forall i, j :: i in numbered && j in numbered && i != j && guards[i] != 0 ==> guards[i] != guards[j])
  }

  /** How many of the guards start .. p get an ID: those that `keep` picks, and the first one always. */
  function Kept(keep: nat -> bool, start: nat, p: nat): nat {
    if p <= start then 0
    else Kept(keep, start, p - 1) + (if p - 1 == start || keep(p - 1) then 1 else 0)
  }

  /** The ID of a guard in a fresh range, counting on from `floor`. */
  function FreshId(keep: nat -> bool, start: nat, floor: nat, i: nat): nat {
    if i == start || keep(i) then floor + Kept(keep, start, i + 1) else 0
  }

  lemma {:induction false} KeptGrows(keep: nat -> bool, start: nat, i: nat, j: nat)
    requires start <= i <= j
    ensures Kept(keep, start, i) <= Kept(keep, start, j)
    ensures i < j && (j - 1 == start || keep(j - 1)) ==> Kept(keep, start, i) < Kept(keep, start, j)
  {
    if i < j {
      KeptGrows(keep, start, i, j - 1);
    }
  }

  /** start .. p carries its fresh IDs, up to `last`; the rest is as before. */
  ghost predicate Filled(before: seq<nat>, now: seq<nat>, start: nat, p: nat, floor: nat, last: nat, keep: nat -> bool)
  {
    && |now| == |before| && start < p <= |now|
    && (forall i :: 0 <= i < |now| && !(start <= i < p) ==> now[i] == before[i])
    && (forall i :: start <= i < p ==> now[i] == FreshId(keep, start, floor, i))
    && last == floor + Kept(keep, start, p)
  }

  /** Fresh IDs rise from `floor` to the last one, and every ID in between is taken. */
  lemma FilledRises(before: seq<nat>, now: seq<nat>, start: nat, p: nat, floor: nat, last: nat, keep: nat -> bool)
    requires Filled(before, now, start, p, floor, last, keep)
    ensures forall i :: start <= i < p ==> now[i] == 0 || floor < now[i] <= last
    ensures forall i, j :: start <= i < j < p && now[j] != 0 ==> now[i] < now[j]
    ensures forall id :: floor < id <= last ==> id in now[start..p]
  {
    forall i | start <= i < p
      ensures now[i] == 0 || floor < now[i] <= last
    {
      KeptGrows(keep, start, start, i + 1);
      KeptGrows(keep, start, i + 1, p);
    }
    forall i, j | start <= i < j < p && now[j] != 0
      ensures now[i] < now[j]
    {
      KeptGrows(keep, start, i + 1, j + 1);
    }
    forall id | floor < id <= last
      ensures id in now[start..p]
    {
      var i := Carrier(keep, start, p, id - floor);
      assert now[start..p][i - start] == id;
    }
  }

  /** A range that carries its fresh IDs. */
  ghost predicate FreshRange(guards: seq<nat>, start: nat, stop: nat, keep: nat -> bool, floor: nat) {
    start <= stop <= |guards| && forall i :: start <= i < stop ==> guards[i] == FreshId(keep, start, floor, i)
  }

  /** The first guard of a fresh range gets the ID after `floor`, and each further one that is kept the next. */
  lemma NextFresh(guards: seq<nat>, start: nat, stop: nat, keep: nat -> bool, floor: nat, i: nat, j: nat)
    requires FreshRange(guards, start, stop, keep, floor) && start <= i < j < stop
    requires (i == start || keep(i)) && keep(j) && forall m :: i < m < j ==> !keep(m)
    ensures guards[start] == floor + 1 && guards[j] == guards[i] + 1
  {
    assert Kept(keep, start, start + 1) == Kept(keep, start, start) + 1;
    NoneKept(keep, start, i + 1, j);
  }

  lemma {:induction false} NoneKept(keep: nat -> bool, start: nat, i: nat, j: nat)
    requires start < i <= j && forall m :: i <= m < j ==> !keep(m)
    ensures Kept(keep, start, j) == Kept(keep, start, i)
  {
    if i < j {
      NoneKept(keep, start, i, j - 1);
    }
  }

  /** What registration depends on, and changes. */
  datatype Map = Map(finalLoc: nat, mapSize: nat, firstFinalLoc: nat, shmReady: bool, area: nat, dummy: nat)

  /** The memory behind the map once the last ID is `top`: mapped again only if the map is too small for it. */
  function AreaAfter(env: ShmEnv, m: Map, top: nat): nat {
    if m.shmReady && top > m.mapSize then MappedArea(env, top, m.firstFinalLoc, m.dummy) else m.area
  }

  /** A fresh range counts on from the last ID before; its IDs lie inside the memory behind the map exactly if the
      last of them does. */
  ghost predicate Placed(env: ShmEnv, guards: seq<nat>, start: nat, stop: nat, keep: nat -> bool, before: Map,
                         after: Map, outcome: Outcome)
    requires start <= stop <= |guards|
  {
    var floor := Max(5, before.finalLoc);
    var top := floor + Kept(keep, start, stop);
    && FreshRange(guards, start, stop, keep, floor)
    && after.shmReady == before.shmReady
    && (!before.shmReady || top <= before.mapSize ==> outcome.Returned? && after.finalLoc == top)
    && (outcome.Returned? ==>
          && after.area == AreaAfter(env, before, top)
          && (Inside(guards, start, stop, after.area) <==> top < after.area))
  }

  /** The greatest ID of a range. */
  ghost predicate Highest(guards: seq<nat>, start: nat, stop: nat, top: nat)
    requires start <= stop <= |guards|
  {
    top in guards[start..stop] && forall i :: start <= i < stop ==> guards[i] <= top
  }

  /** The counters of the range address memory that is there. */
  ghost predicate Inside(guards: seq<nat>, start: nat, stop: nat, area: nat)
    requires start <= stop <= |guards|
  {
    forall i :: start <= i < stop ==> guards[i] < area
  }

  lemma HighestDecides(guards: seq<nat>, start: nat, stop: nat, top: nat, area: nat)
    requires start <= stop <= |guards| && Highest(guards, start, stop, top)
    ensures Inside(guards, start, stop, area) <==> top < area
  {
    var i :| 0 <= i < stop - start && guards[start..stop][i] == top;
    assert guards[start + i] == top;
  }

  lemma IsPlaced(env: ShmEnv, guards: seq<nat>, start: nat, stop: nat, keep: nat -> bool, before: Map, after: Map,
                 outcome: Outcome, top: nat)
    requires start <= stop <= |guards| && Highest(guards, start, stop, top)
    requires FreshRange(guards, start, stop, keep, Max(5, before.finalLoc))
    requires top == Max(5, before.finalLoc) + Kept(keep, start, stop) && after.shmReady == before.shmReady
    requires !before.shmReady || top <= before.mapSize ==> outcome.Returned? && after.finalLoc == top
    requires outcome.Returned? ==> after.area == AreaAfter(env, before, top)
    ensures Placed(env, guards, start, stop, keep, before, after, outcome)
  {
    HighestDecides(guards, start, stop, top, after.area);
  }

  /** The guard that carries the n-th fresh ID. */
  lemma {:induction false} Carrier(keep: nat -> bool, start: nat, p: nat, n: nat) returns (i: nat)
    requires 0 < n <= Kept(keep, start, p)
    ensures start <= i < p && (i == start || keep(i)) && Kept(keep, start, i + 1) == n
  {
    i := p - 1;
    if n <= Kept(keep, start, p - 1) {
      i := Carrier(keep, start, p - 1, n);
    }
  }

  /** Numbering a fresh range upwards keeps that. */
  lemma DistinctExtends(before: seq<nat>, after: seq<nat>, numbered: set<int>, start: nat, stop: nat, floor: nat,
                        last: nat)
    requires Distinct(before, numbered, floor) && |after| == |before| && start <= stop <= |before|
    requires 5 <= floor <= last && forall i :: start <= i < stop ==> i !in numbered
    requires forall i :: 0 <= i < |before| && !(start <= i < stop) ==> after[i] == before[i]
    requires forall i :: start <= i < stop ==> after[i] == 0 || floor < after[i] <= last
    requires forall i, j :: start <= i < j < stop && after[j] != 0 ==> after[i] < after[j]
    ensures Distinct(after, numbered + Range(start, stop), last)
  {
  }

  /** Nothing outside the range changed. */
  ghost predicate OnlyWithin(before: seq<nat>, after: seq<nat>, start: nat, stop: nat) {
    |after| == |before| && forall i :: 0 <= i < |before| && !(start <= i < stop) ==> after[i] == before[i]
  }

  /** A fresh range: IDs above `lo` up to `hi` where `keep` asks for one, and in the first guard always. */
  ghost predicate NewIds(guards: seq<nat>, start: nat, stop: nat, keep: nat -> bool, lo: nat, hi: nat) {
    && start < stop <= |guards| && guards[start] != 0
    && (forall i :: start <= i < stop ==> guards[i] == 0 || lo < guards[i] <= hi)
    && (forall i :: start < i < stop ==> (guards[i] != 0 <==> keep(i)))
  }

  lemma FilledIsNew(before: seq<nat>, now: seq<nat>, start: nat, stop: nat, floor: nat, last: nat, keep: nat -> bool)
    requires Filled(before, now, start, stop, floor, last, keep)
    ensures floor < last == floor + Kept(keep, start, stop) && FreshRange(now, start, stop, keep, floor)
    ensures OnlyWithin(before, now, start, stop) && NewIds(now, start, stop, keep, floor, last)
    ensures Highest(now, start, stop, last)
  {
    FilledRises(before, now, start, stop, floor, last, keep);
    KeptGrows(keep, start, start + 1, stop);
    assert Kept(keep, start, start + 1) == Kept(keep, start, start) + 1;
  }

  lemma FilledIsDistinct(before: seq<nat>, now: seq<nat>, numbered: set<int>, start: nat, stop: nat, floor: nat,
                         last: nat, keep: nat -> bool)
    requires Filled(before, now, start, stop, floor, last, keep) && Distinct(before, numbered, floor)
    requires 5 <= floor <= last && forall i :: start <= i < stop ==> i !in numbered
    ensures Distinct(now, numbered + Range(start, stop), last)
  {
    FilledRises(before, now, start, stop, floor, last, keep);
    DistinctExtends(before, now, numbered, start, stop, floor, last);
  }

  /** A range registered late: IDs from 5 on where `keep` asks for one, below the last ID exactly if that is at
      least 6. */
  ghost predicate ReusedIds(guards: seq<nat>, start: nat, stop: nat, keep: nat -> bool, finalLoc: nat) {
    && start <= stop <= |guards|
    && forall i :: start <= i < stop ==>
         && (guards[i] == 0 || guards[i] >= 5) && (guards[i] != 0 <==> keep(i))
         && (guards[i] != 0 ==> (guards[i] < finalLoc <==> finalLoc >= 6))
  }

  /** The range joined the numbered guards. */
  ghost predicate Joined(before: set<int>, after: set<int>, start: nat, stop: nat) {
    forall i :: i in after <==> i in before || start <= i < stop
  }

  /** A shared map that is larger than AFL_MAP_SIZE says and than the tools accept. */
  predicate TooLarge(env: ShmEnv, finalLoc: nat) {
    env.hasShm && env.mapSizeVar < finalLoc && finalLoc > FS_OPT_MAX_MAPSIZE
  }

  /** Why mapping ends the process: a call failed, or the map is too large for the tools. */
  predicate MappingFails(env: ShmEnv, finalLoc: nat) {
    !env.attached || TooLarge(env, finalLoc)
  }

  /** Exactly when mapping ends the process, with the last ID as it is before. */
  predicate EndsMapping(env: ShmEnv, finalLoc: nat, firstFinalLoc: nat) {
    var top := MappedLoc(env, finalLoc, firstFinalLoc);
    var maps := env.hasShm || env.fixedMap || (top > MAP_INITIAL_SIZE && top > firstFinalLoc);
    || (finalLoc != 0 && TooLarge(env, finalLoc + 1))
    || (maps && !env.attached)
  }

  function Max(a: nat, b: nat): nat {
    if a < b then b else a
  }

  /** The late counter, n steps on. */
  function LateId(offset: nat, finalLoc: nat, n: nat): nat {
    if n == 0 then offset
    else
      var next := LateId(offset, finalLoc, n - 1) + 1;
      if next >= finalLoc then 5 else next
  }

  /** From 5 on it cycles through 5 .. finalLoc-1, as long as there are such IDs. */
  lemma {:induction false} LateIdsCycle(finalLoc: nat, n: nat)
    requires finalLoc >= 6
    ensures LateId(5, finalLoc, n) == 5 + n % (finalLoc - 5)
  {
    var m := finalLoc - 5;
    if n == 0 {
      DivModUnique(0, m, 0, 0);
    } else {
      LateIdsCycle(finalLoc, n - 1);
      var q, r := (n - 1) / m, (n - 1) % m;
      assert n - 1 == q * m + r;
      if r + 1 == m {
        assert n == (q + 1) * m;
        DivModUnique(n, m, q + 1, 0);
      } else {
        DivModUnique(n, m, q, r + 1);
      }
    }
  }

  class Runtime {
    /** The guards of all modules, in one memory. */
    const guards: array<nat>
    var finalLoc: nat
    var mapSize: nat
    var firstFinalLoc: nat
    var shmReady: bool
    var earlyDone: bool
    var forkserverUp: bool
    /** The sizes of the memory behind __afl_area_ptr and __afl_area_ptr_dummy. */
    var area: nat
    var dummy: nat
    /** The static counter of late registrations. */
    var offset: nat

    /** Guards numbered before the forkserver started. */
    ghost var numbered: set<int>

    ghost predicate Valid()
      reads this, guards
    {
      Distinct(guards[..], numbered, finalLoc) && OffsetInRange()
    }

    /** While the map has room for a sixth ID, late IDs stay below the last one. */
    ghost predicate OffsetInRange()
      reads this
    {
      offset >= 5 && (offset < finalLoc || offset == 5)
    }

    function Now(): Map
      reads this
    {
      Map(finalLoc, mapSize, firstFinalLoc, shmReady, area, dummy)
    }

    constructor (n: nat)
      ensures Valid() && numbered == {} && guards.Length == n && fresh(guards)
      ensures forall i :: 0 <= i < n ==> guards[i] == 0
      ensures finalLoc == 0 && mapSize == MAP_SIZE && !shmReady && !forkserverUp
      ensures area == dummy == MAP_INITIAL_SIZE
    {
      guards := new nat[n](_ => 0);
      finalLoc, mapSize, firstFinalLoc := 0, MAP_SIZE, 0;
      shmReady, earlyDone, forkserverUp := false, false, false;
      area, dummy := MAP_INITIAL_SIZE, MAP_INITIAL_SIZE;
      offset := 5;
      numbered := {};
    }

    /** __afl_map_shm: with shared memory the map ends right after the last ID. */
    method MapShm(env: ShmEnv) returns (outcome: Outcome)
      modifies this`finalLoc, this`mapSize, this`shmReady, this`area, this`dummy
      ensures shmReady && old(finalLoc) <= finalLoc
      ensures old(shmReady) ==>
                && finalLoc == old(finalLoc) && mapSize == old(mapSize) && outcome.Returned?
                && area == old(area) && dummy == old(dummy)
      ensures !old(shmReady) && outcome.Returned? && old(area) == old(dummy) ==>
                area == MappedArea(env, old(finalLoc), firstFinalLoc, old(dummy))
      ensures !old(shmReady) && outcome.Returned? ==> finalLoc == MappedLoc(env, old(finalLoc), firstFinalLoc)
      ensures !old(shmReady) && outcome.Returned? && env.hasShm ==>
                mapSize == if old(finalLoc) == 0 then old(mapSize) else finalLoc
      ensures !old(shmReady) && outcome.Returned? && !env.hasShm ==>
                mapSize == if !env.fixedMap && finalLoc > MAP_INITIAL_SIZE && finalLoc > firstFinalLoc then finalLoc
                           else OwnSize(env, firstFinalLoc)
      ensures outcome.Aborted? ==> MappingFails(env, finalLoc)
      ensures !old(shmReady) ==> (outcome.Aborted? <==> EndsMapping(env, old(finalLoc), firstFinalLoc))
    {
      if shmReady {
        return Returned;
      }
      shmReady := true;
      if finalLoc != 0 {
        finalLoc := finalLoc + 1;
        mapSize := finalLoc;
        if finalLoc > MAP_SIZE && env.mapSizeVar < finalLoc && finalLoc > FS_OPT_MAX_MAPSIZE && env.hasShm {
          return Aborted;
        }
      }
      if !env.hasShm {
        ChooseSize(env);
      }
      outcome := Attach(env);
    }

    /** Without shared memory the map is as large as AFL_MAP_SIZE or the first modules ask for. */
    method ChooseSize(env: ShmEnv)
      modifies this`finalLoc, this`mapSize
      ensures mapSize == OwnSize(env, firstFinalLoc)
      ensures finalLoc == if MAP_INITIAL_SIZE < mapSize && old(finalLoc) < mapSize then mapSize else old(finalLoc)
    {
      if env.mapSizeVar > MAP_INITIAL_SIZE {
        mapSize := env.mapSizeVar;
      } else if firstFinalLoc > MAP_INITIAL_SIZE {
        mapSize := firstFinalLoc;
      } else {
        mapSize := MAP_INITIAL_SIZE;
      }
      if mapSize > MAP_INITIAL_SIZE && finalLoc < mapSize {
        finalLoc := mapSize;
      }
    }

    /** The memory behind the map: shared, at a fixed address, larger than the initial one, or as it is. */
    method Attach(env: ShmEnv) returns (outcome: Outcome)
      modifies this`mapSize, this`area, this`dummy
      ensures var maps := env.hasShm || env.fixedMap;
              var grows := finalLoc > MAP_INITIAL_SIZE && finalLoc > firstFinalLoc;
              && (outcome.Aborted? <==> (maps || grows) && !env.attached)
              && area == (if env.hasShm then env.segment else if env.fixedMap then old(mapSize)
                          else if grows then finalLoc else old(area))
              && mapSize == (if !maps && grows then finalLoc else old(mapSize))
    {
      if env.hasShm || env.fixedMap {
        area := if env.hasShm then env.segment else mapSize;
        return if env.attached then Returned else Aborted;
      }
      if finalLoc > MAP_INITIAL_SIZE && finalLoc > firstFinalLoc {
        dummy := finalLoc;
        area := dummy;
        mapSize := finalLoc;
        return if env.attached then Returned else Aborted;
      }
      return Returned;
    }

    /** The constructors of the runtime, run by the first registration at the latest. */
    method Early(env: ShmEnv) returns (outcome: Outcome)
      requires Valid()
      modifies this`finalLoc, this`mapSize, this`shmReady, this`firstFinalLoc, this`earlyDone, this`area, this`dummy
      ensures Valid() && earlyDone && old(finalLoc) <= finalLoc
      ensures old(earlyDone) || env.disabled ==>
                outcome.Returned? && finalLoc == old(finalLoc) && mapSize == old(mapSize)
                && shmReady == old(shmReady) && firstFinalLoc == old(firstFinalLoc)
                && area == old(area) && dummy == old(dummy)
      ensures !old(earlyDone) && !env.disabled ==>
                && shmReady
                && firstFinalLoc == (if old(finalLoc) > MAP_INITIAL_SIZE then old(finalLoc) + 1
                                     else old(firstFinalLoc))
                && (outcome.Returned? && !old(shmReady) ==>
                      finalLoc == MappedLoc(env, old(finalLoc), firstFinalLoc))
      // A large map is allocated early, if that succeeds, and only then mapped.
      ensures !old(earlyDone || shmReady) && !env.disabled && outcome.Returned? && old(area) == old(dummy) ==>
                area == MappedArea(env, old(finalLoc), firstFinalLoc,
                                   if old(finalLoc) > MAP_INITIAL_SIZE && env.spare then firstFinalLoc else old(dummy))
      ensures outcome.Aborted? ==> MappingFails(env, finalLoc)
      ensures outcome.Aborted? <==>
                && !old(earlyDone || shmReady) && !env.disabled
                && EndsMapping(env, old(finalLoc), firstFinalLoc)
    {
      outcome := Returned;
      if !earlyDone {
        earlyDone := true;
        if env.disabled {
          return;
        }
        if finalLoc > MAP_INITIAL_SIZE {
          firstFinalLoc := finalLoc + 1;
          if env.spare {
            dummy := firstFinalLoc;
            area := dummy;
          }
        }
        outcome := MapShm(env);
      }
    }

    /** __sanitizer_cov_trace_pc_guard_init over guards[start..stop]. `keep` decides, per guard, what
        AFL_INST_RATIO decides at random; `ignoreProblems` is AFL_IGNORE_PROBLEMS. */
    method GuardInit(start: nat, stop: nat, keep: nat -> bool, env: ShmEnv, ignoreProblems: bool)
      returns (outcome: Outcome)
      requires Valid() && start <= stop <= guards.Length
      requires start < stop && guards[start] == 0 ==> forall i :: start <= i < stop ==> i !in numbered
      modifies this, guards
      ensures Valid() && earlyDone && old(finalLoc) <= finalLoc && forkserverUp == old(forkserverUp)
      ensures OnlyWithin(old(guards[..]), guards[..], start, stop)
      // A range that was registered before is left alone.
      ensures start == stop || old(guards[start]) != 0 ==>
                && guards[..] == old(guards[..]) && numbered == old(numbered)
                && (old(earlyDone) ==>
                      finalLoc == old(finalLoc) && mapSize == old(mapSize) && shmReady == old(shmReady))
      // A new range before the forkserver: fresh IDs in increasing order, the first guard always set.
      ensures outcome.Returned? && start < stop && old(guards[start]) == 0 && !forkserverUp ==>
                && Joined(old(numbered), numbered, start, stop)
                && NewIds(guards[..], start, stop, keep, old(finalLoc), finalLoc)
                && (shmReady ==> mapSize == finalLoc + 1)
      // Counted from the last ID before; they lie inside the memory behind the map exactly if the last of them does.
      ensures start < stop && old(guards[start]) == 0 && !forkserverUp && old(earlyDone) ==>
                Placed(env, guards[..], start, stop, keep, old(Now()), Now(), outcome)
      // A new range after the forkserver: the map cannot grow, IDs are reused.
      ensures outcome.Returned? && start < stop && old(guards[start]) == 0 && forkserverUp ==>
                numbered == old(numbered) && ReusedIds(guards[..], start, stop, keep, finalLoc)
      // The process ends only where mapping fails, or late registration is not allowed.
      ensures outcome.Aborted? ==>
                || MappingFails(env, finalLoc)
                || (forkserverUp && !ignoreProblems && start < stop && old(guards[start]) == 0)
    {
      ghost var before := guards[..];
      outcome := Early(env);
      assert guards[..] == before;
      if outcome.Aborted? || start == stop || guards[start] != 0 {
        return;
      }
      outcome := Number(start, stop, keep, env, ignoreProblems);
    }

    /** A range that was not registered before. */
    method Number(start: nat, stop: nat, keep: nat -> bool, env: ShmEnv, ignoreProblems: bool)
      returns (outcome: Outcome)
      requires Valid() && start < stop <= guards.Length
      requires forall i :: start <= i < stop ==> i !in numbered
      modifies this`finalLoc, this`mapSize, this`shmReady, this`area, this`dummy, this`numbered, this`offset, guards
      ensures Valid() && old(finalLoc) <= finalLoc && shmReady == old(shmReady)
      ensures OnlyWithin(old(guards[..]), guards[..], start, stop)
      ensures !forkserverUp ==>
                && Joined(old(numbered), numbered, start, stop)
                && NewIds(guards[..], start, stop, keep, old(finalLoc), finalLoc)
                && (outcome.Returned? && shmReady ==> mapSize == finalLoc + 1)
      ensures !forkserverUp ==> Placed(env, guards[..], start, stop, keep, old(Now()), Now(), outcome)
      ensures forkserverUp && outcome.Returned? ==>
                numbered == old(numbered) && ReusedIds(guards[..], start, stop, keep, finalLoc)
      ensures outcome.Aborted? ==> MappingFails(env, finalLoc) || (forkserverUp && !ignoreProblems)
    {
      if forkserverUp {
        if !ignoreProblems {
          return Aborted;
        }
        RegisterLate(start, stop, keep);
        return Returned;
      }
      outcome := RegisterFresh(start, stop, keep, env);
    }

    /** A new range after the forkserver. */
    method RegisterLate(start: nat, stop: nat, keep: nat -> bool)
      requires Valid() && start <= stop <= guards.Length
      requires forall i :: start <= i < stop ==> i !in numbered
      modifies this`offset, guards
      ensures Valid()
      ensures OnlyWithin(old(guards[..]), guards[..], start, stop)
      ensures ReusedIds(guards[..], start, stop, keep, finalLoc)
    {
      NumberLate(start, stop, keep);
    }

    /** A new range before the forkserver. */
    method RegisterFresh(start: nat, stop: nat, keep: nat -> bool, env: ShmEnv) returns (outcome: Outcome)
      requires Valid() && start < stop <= guards.Length
      requires forall i :: start <= i < stop ==> i !in numbered
      modifies this`finalLoc, this`mapSize, this`shmReady, this`area, this`dummy, this`numbered, guards
      ensures Valid() && old(finalLoc) <= finalLoc && shmReady == old(shmReady)
      ensures OnlyWithin(old(guards[..]), guards[..], start, stop)
      ensures Joined(old(numbered), numbered, start, stop)
      ensures NewIds(guards[..], start, stop, keep, old(finalLoc), finalLoc)
      ensures Placed(env, guards[..], start, stop, keep, old(Now()), Now(), outcome)
      ensures outcome.Returned? && shmReady ==> mapSize == finalLoc + 1
      ensures outcome.Aborted? ==> MappingFails(env, finalLoc)
    {
      ghost var before := Now();
      NumberFresh(start, stop, keep);
      ghost var ids, top := guards[..], finalLoc;
      outcome := GrowMap(env);
      assert guards[..] == ids;
      IsPlaced(env, ids, start, stop, keep, before, Now(), outcome, top);
    }

    /** A mapped area that became too small is mapped again. */
    method GrowMap(env: ShmEnv) returns (outcome: Outcome)
      modifies this`finalLoc, this`mapSize, this`shmReady, this`area, this`dummy
      ensures old(finalLoc) <= finalLoc && shmReady == old(shmReady)
      ensures outcome.Returned? ==> area == AreaAfter(env, old(Now()), old(finalLoc))
      ensures outcome.Aborted? ==> MappingFails(env, finalLoc)
      ensures outcome.Aborted? <==>
                old(shmReady && finalLoc > mapSize) && EndsMapping(env, old(finalLoc), firstFinalLoc)
      ensures outcome.Returned? && shmReady ==> mapSize == finalLoc + 1
      ensures old(shmReady) && old(finalLoc) > old(mapSize) && outcome.Returned? ==>
                finalLoc == MappedLoc(env, old(finalLoc), firstFinalLoc)
      ensures !(old(shmReady) && old(finalLoc) > old(mapSize)) ==> outcome.Returned? && finalLoc == old(finalLoc)
    {
      outcome := Returned;
      if shmReady {
        if finalLoc > mapSize {
          shmReady := false;
          area := dummy;
          outcome := MapShm(env);
          if outcome.Aborted? {
            return;
          }
        }
        mapSize := finalLoc + 1;
      }
    }

    /** Consecutive IDs from 6 on, none left out; the first guard gets one whatever `keep` says. */
    method NumberFresh(start: nat, stop: nat, keep: nat -> bool)
      requires Valid() && start < stop <= guards.Length
      requires forall i :: start <= i < stop ==> i !in numbered
      modifies this`finalLoc, this`numbered, guards
      ensures Valid() && old(finalLoc) <= finalLoc
      ensures OnlyWithin(old(guards[..]), guards[..], start, stop)
      ensures Joined(old(numbered), numbered, start, stop)
      ensures NewIds(guards[..], start, stop, keep, old(finalLoc), finalLoc)
      ensures Highest(guards[..], start, stop, finalLoc)
      ensures var floor := Max(5, old(finalLoc));
              && finalLoc == floor + Kept(keep, start, stop)
              && FreshRange(guards[..], start, stop, keep, floor)
    {
      ghost var before := guards[..];
      if finalLoc < 5 {
        finalLoc := 5;
      }
      ghost var floor := finalLoc;
      FillFresh(start, stop, keep);
      FilledIsNew(before, guards[..], start, stop, floor, finalLoc, keep);
      FilledIsDistinct(before, guards[..], numbered, start, stop, floor, finalLoc, keep);
      numbered := numbered + Range(start, stop);
    }

    method FillFresh(start: nat, stop: nat, keep: nat -> bool)
      requires start < stop <= guards.Length
      modifies this`finalLoc, guards
      ensures Filled(old(guards[..]), guards[..], start, stop, old(finalLoc), finalLoc, keep)
    {
      ghost var before, floor: nat := guards[..], finalLoc;
      var p: nat := start;
      finalLoc := finalLoc + 1;
      guards[p] := finalLoc;
      p := p + 1;
      assert Kept(keep, start, start + 1) == Kept(keep, start, start) + 1;
      while p < stop
        invariant start < p <= stop
        invariant Filled(before, guards[..], start, p, floor, finalLoc, keep)
      {
        ghost var now: seq<nat> := guards[..];
        if keep(p) {
          finalLoc := finalLoc + 1;
          guards[p] := finalLoc;
        } else {
          guards[p] := 0;
        }
        assert guards[..] == now[p := FreshId(keep, start, floor, p)];
        p := p + 1;
      }
    }

    /** IDs cycle through those already in use. */
    method NumberLate(start: nat, stop: nat, keep: nat -> bool)
      requires Valid() && start <= stop <= guards.Length
      requires forall i :: start <= i < stop ==> i !in numbered
      modifies this`offset, guards
      ensures Valid()
      ensures forall i :: 0 <= i < guards.Length && !(start <= i < stop) ==> guards[i] == old(guards[i])
      ensures forall i :: start <= i < stop ==>
                guards[i] == if keep(i) then LateId(old(offset), finalLoc, i - start) else 0
      ensures forall i :: start <= i < stop && keep(i) ==> guards[i] >= 5 && (guards[i] < finalLoc <==> finalLoc >= 6)
      ensures offset == LateId(old(offset), finalLoc, stop - start)
    {
      var p := start;
      while p < stop
        invariant start <= p <= stop && OffsetInRange() && offset == LateId(old(offset), finalLoc, p - start)
        invariant forall i :: 0 <= i < guards.Length && !(start <= i < p) ==> guards[i] == old(guards[i])
        invariant forall i :: start <= i < p ==>
                    guards[i] == if keep(i) then LateId(old(offset), finalLoc, i - start) else 0
        invariant forall i :: start <= i < p && keep(i) ==>
                    guards[i] >= 5 && (guards[i] < finalLoc <==> finalLoc >= 6)
      {
        guards[p] := if keep(p) then offset else 0;
        p := p + 1;
        offset := offset + 1;
        if offset >= finalLoc {
          offset := 5;
        }
      }
    }
  }

  // ----- A whole start-up -----

  /** A module's guard array, start .. stop. */
  datatype Module = Module(start: nat, stop: nat)

  /** Non-empty arrays that do not overlap. */
  ghost predicate Disjoint(modules: seq<Module>, size: nat) {
    && (forall m :: 0 <= m < |modules| ==> modules[m].start < modules[m].stop <= size)
    && (forall m, n :: 0 <= m < |modules| && 0 <= n < |modules| && m != n ==>
          modules[m].stop <= modules[n].start || modules[n].stop <= modules[m].start)
  }

  /** Such arrays share no guard, and non-empty ones that share none are such. */
  lemma DisjointExactly(modules: seq<Module>, size: nat)
    requires forall m :: 0 <= m < |modules| ==> modules[m].start < modules[m].stop <= size
    ensures Disjoint(modules, size) <==>
            forall m, n :: 0 <= m < |modules| && 0 <= n < |modules| && m != n ==>
              Range(modules[m].start, modules[m].stop) !! Range(modules[n].start, modules[n].stop)
  {
    forall m, n | 0 <= m < |modules| && 0 <= n < |modules| && m != n
      ensures modules[m].stop <= modules[n].start || modules[n].stop <= modules[m].start <==>
              Range(modules[m].start, modules[m].stop) !! Range(modules[n].start, modules[n].stop)
    {
      RangesApart(modules[m].start, modules[m].stop, modules[n].start, modules[n].stop);
    }
  }

  lemma RangesApart(a: nat, b: nat, c: nat, d: nat)
    requires a < b && c < d
    ensures b <= c || d <= a <==> Range(a, b) !! Range(c, d)
  {
    var i := if a < c then c else a;
    assert i in Range(a, b) && i in Range(c, d) <==> !(b <= c || d <= a);
  }

  /** A module is numbered as a whole or not at all, and its first guard tells. */
  ghost predicate Told(modules: seq<Module>, guards: seq<nat>, numbered: set<int>) {
    && Disjoint(modules, |guards|)
    && (forall m :: 0 <= m < |modules| && guards[modules[m].start] == 0 ==>
          forall i :: modules[m].start <= i < modules[m].stop ==> i !in numbered)
    && (forall m :: 0 <= m < |modules| && guards[modules[m].start] != 0 ==>
          forall i :: modules[m].start <= i < modules[m].stop ==> i in numbered)
    && (forall i :: 0 <= i < |guards| && i !in numbered ==> guards[i] == 0)
  }

  lemma ToldExtends(modules: seq<Module>, before: seq<nat>, after: seq<nat>, numbered: set<int>, numbered': set<int>,
                    m: nat)
    requires Told(modules, before, numbered) && m < |modules| && |after| == |before|
    requires before[modules[m].start] == 0 && after[modules[m].start] != 0
    requires forall i :: 0 <= i < |before| && !(modules[m].start <= i < modules[m].stop) ==> after[i] == before[i]
    requires forall i :: i in numbered' <==> i in numbered || modules[m].start <= i < modules[m].stop
    ensures Told(modules, after, numbered')
  {
    forall n | 0 <= n < |modules| && n != m
      ensures after[modules[n].start] == before[modules[n].start]
      ensures forall i :: modules[n].start <= i < modules[n].stop ==> (i in numbered' <==> i in numbered)
    {
    }
  }

  /** Modules register in any order and any number of times before the forkserver: no two guards anywhere share
      an ID, every ID is from 6 up to the last one and below the map size, and every registered module is numbered. */
  method RegisterAll(rt: Runtime, modules: seq<Module>, order: seq<nat>, keep: nat -> bool, envs: nat -> ShmEnv)
    returns (outcome: Outcome)
    requires rt.Valid() && rt.numbered == {} && !rt.forkserverUp
    requires forall i :: 0 <= i < rt.guards.Length ==> rt.guards[i] == 0
    requires Disjoint(modules, rt.guards.Length) && forall r :: 0 <= r < |order| ==> order[r] < |modules|
    modifies rt, rt.guards
    ensures outcome.Returned? ==>
              forall i, j :: 0 <= i < j < rt.guards.Length && rt.guards[i] != 0 && rt.guards[j] != 0 ==>
                rt.guards[i] != rt.guards[j]
    ensures outcome.Returned? ==>
              forall i :: 0 <= i < rt.guards.Length && rt.guards[i] != 0 ==>
                6 <= rt.guards[i] <= rt.finalLoc && (rt.shmReady ==> rt.guards[i] < rt.mapSize)
    ensures outcome.Returned? ==> forall r :: 0 <= r < |order| ==> rt.guards[modules[order[r]].start] != 0
    ensures outcome.Aborted? ==> exists r :: 0 <= r < |order| && MappingFails(envs(r), rt.finalLoc)
  {
    outcome := Returned;
    var r := 0;
    while r < |order| && outcome.Returned?
      invariant 0 <= r <= |order| && rt.Valid() && !rt.forkserverUp
      invariant r == 0 ==> forall i :: 0 <= i < rt.guards.Length ==> rt.guards[i] == 0
      invariant r > 0 && outcome.Returned? ==> rt.earlyDone && (rt.shmReady ==> rt.mapSize == rt.finalLoc + 1)
      invariant outcome.Aborted? ==> exists q :: 0 <= q < |order| && MappingFails(envs(q), rt.finalLoc)
      invariant outcome.Returned? ==> Told(modules, rt.guards[..], rt.numbered)
      invariant outcome.Returned? ==> forall q :: 0 <= q < r ==> rt.guards[modules[order[q]].start] != 0
      decreases |order| - r
    {
      var m := modules[order[r]];
      ghost var before, numbered := rt.guards[..], rt.numbered;
      outcome := rt.GuardInit(m.start, m.stop, keep, envs(r), false);
      assert outcome.Aborted? ==> MappingFails(envs(r), rt.finalLoc);
      if outcome.Returned? && before[m.start] == 0 {
        ToldExtends(modules, before, rt.guards[..], numbered, rt.numbered, order[r]);
      }
      r := r + 1;
    }
  }

  /** One more module of a single guard. */
  method RegisterSingle(rt: Runtime, at: nat, keep: nat -> bool, env: ShmEnv)
    requires rt.Valid() && !rt.forkserverUp && rt.earlyDone && rt.shmReady
    requires rt.mapSize == rt.finalLoc + 1 && rt.finalLoc >= 5 && at < rt.guards.Length
    requires rt.guards[at] == 0 && at !in rt.numbered
    modifies rt, rt.guards
    ensures rt.Valid() && !rt.forkserverUp && rt.earlyDone && rt.shmReady
    ensures rt.finalLoc == old(rt.finalLoc) + 1 && rt.mapSize == rt.finalLoc + 1 && rt.area == old(rt.area)
    ensures rt.guards[at] == rt.finalLoc && forall i :: 0 <= i < rt.guards.Length && i != at ==>
              rt.guards[i] == old(rt.guards[i])
    ensures forall i :: i in rt.numbered <==> i in old(rt.numbered) || i == at
  {
    OneKept(keep, at);
    var outcome := rt.GuardInit(at, at + 1, keep, env, false);
    assert rt.guards[..][at] == rt.guards[at];
  }

  /** A map that is set up ends one above the last ID, which leaves room for one more guard: a module of a single
      guard takes it and moves the end, without mapping again. However many such modules register, the memory
      behind the map stays as it was, and their IDs lie inside it exactly as long as they are below its size. */
  method RegisterSingles(rt: Runtime, first: nat, n: nat, keep: nat -> bool, envs: nat -> ShmEnv)
    requires rt.Valid() && !rt.forkserverUp && rt.earlyDone && rt.shmReady
    requires rt.mapSize == rt.finalLoc + 1 && rt.finalLoc >= 5 && first + n <= rt.guards.Length
    requires forall i :: first <= i < first + n ==> rt.guards[i] == 0 && i !in rt.numbered
    modifies rt, rt.guards
    ensures rt.Valid() && rt.finalLoc == old(rt.finalLoc) + n && rt.mapSize == rt.finalLoc + 1
    ensures rt.area == old(rt.area)
    ensures forall i :: first <= i < first + n ==> rt.guards[i] == old(rt.finalLoc) + (i - first) + 1
    ensures Inside(rt.guards[..], first, first + n, rt.area) <==> n == 0 || old(rt.finalLoc) + n < old(rt.area)
  {
    ghost var last := rt.finalLoc;
    for i := 0 to n
      invariant rt.Valid() && !rt.forkserverUp && rt.earlyDone && rt.shmReady
      invariant rt.finalLoc == last + i && rt.mapSize == rt.finalLoc + 1 && rt.area == old(rt.area)
      invariant forall j :: first + i <= j < first + n ==> rt.guards[j] == 0 && j !in rt.numbered
      invariant forall j :: first <= j < first + i ==> rt.guards[j] == last + (j - first) + 1
    {
      RegisterSingle(rt, first + i, keep, envs(i));
    }
    if n > 0 {
      assert rt.guards[..][first + n - 1] == last + n;
    }
  }

  lemma OneKept(keep: nat -> bool, start: nat)
    ensures Kept(keep, start, start + 1) == 1
  {
    assert Kept(keep, start, start) == 0;
  }
}
