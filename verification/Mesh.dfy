/** The neighbour table, against a map bounded by the capacity. */
module Mesh {
  import opened Words

  // Open addressing with linear probing. Addresses are any type with equality.

  datatype Entry<A> = Entry(unitId: u64, addr: A, lastSeenNs: u64, lastSeq: u32, lastFlapNs: u64)

  datatype MeshConfig = MeshConfig(maxClockSkewNs: u64, flapCooldownNs: u64)

  // ---- the table as a map ----

  /** `seq.wrapping_sub(last) as i32 > 0`. */
  predicate Advances(s: u32, last: u32) { 0 < WrapSub32(s, last) < 0x8000_0000 }

  predicate Implausible(cfg: MeshConfig, tsNs: u64, nowNs: u64) {
    (if tsNs >= nowNs then tsNs - nowNs else nowNs - tsNs) > cfg.maxClockSkewNs
  }

  /** What an observation does to the entry of its unit. */
  function Refreshed<A(==)>(cfg: MeshConfig, e: Entry<A>, addr: A, s: u32, nowNs: u64): Entry<A> {
    if e.addr != addr && SatSub(nowNs, e.lastFlapNs) < cfg.flapCooldownNs then e.(lastSeenNs := nowNs)
    else
      var seqNo := if Advances(s, e.lastSeq) then s else e.lastSeq;
      if e.addr != addr then e.(addr := addr, lastFlapNs := nowNs, lastSeenNs := nowNs, lastSeq := seqNo)
      else e.(lastSeenNs := nowNs, lastSeq := seqNo)
  }

  /** ... and whether it is news. */
  predicate News<A(==)>(cfg: MeshConfig, e: Entry<A>, addr: A, s: u32, nowNs: u64) {
    if e.addr != addr then SatSub(nowNs, e.lastFlapNs) >= cfg.flapCooldownNs else Advances(s, e.lastSeq)
  }

  datatype Observation<A> = Observation(unitId: u64, addr: A, seqNo: u32, tsNs: u64, nowNs: u64)

  /** An observation of a bounded map. */
  function Observed<A(==)>(m: map<u64, Entry<A>>, cap: nat, cfg: MeshConfig, o: Observation<A>): map<u64, Entry<A>> {
    if Implausible(cfg, o.tsNs, o.nowNs) then m
    else if o.unitId in m then m[o.unitId := Refreshed(cfg, m[o.unitId], o.addr, o.seqNo, o.nowNs)]
    else if |m| < cap then m[o.unitId := Entry(o.unitId, o.addr, o.nowNs, o.seqNo, o.nowNs)]
    else m
  }

  predicate Replies<A(==)>(m: map<u64, Entry<A>>, cap: nat, cfg: MeshConfig, o: Observation<A>) {
    && !Implausible(cfg, o.tsNs, o.nowNs)
    && if o.unitId in m then News(cfg, m[o.unitId], o.addr, o.seqNo, o.nowNs) else |m| < cap
  }

  // -- flapping --

  /** The observation changes the recorded address of its unit. */
  predicate ChangesAddress<A(==)>(m: map<u64, Entry<A>>, cap: nat, cfg: MeshConfig, o: Observation<A>, id: u64) {
    id in m && Observed(m, cap, cfg, o)[id].addr != m[id].addr
  }

  function RunObserved<A(==)>(m: map<u64, Entry<A>>, cap: nat, cfg: MeshConfig, os: seq<Observation<A>>): map<u64, Entry<A>>
    decreases os
  {
    if os == [] then m else RunObserved(Observed(m, cap, cfg, os[0]), cap, cfg, os[1..])
  }

  /** No observation of the run changes the address of `id`. */
  predicate Steady<A(==)>(m: map<u64, Entry<A>>, cap: nat, cfg: MeshConfig, os: seq<Observation<A>>, id: u64)
    decreases os
  {
    os == [] || (!ChangesAddress(m, cap, cfg, os[0], id) && Steady(Observed(m, cap, cfg, os[0]), cap, cfg, os[1..], id))
  }

  lemma {:induction false} SteadyFlap<A>(m: map<u64, Entry<A>>, cap: nat, cfg: MeshConfig, os: seq<Observation<A>>, id: u64)
    requires id in m && Steady(m, cap, cfg, os, id)
    ensures id in RunObserved(m, cap, cfg, os)
    ensures RunObserved(m, cap, cfg, os)[id].lastFlapNs == m[id].lastFlapNs
    decreases os
  {
    if os != [] { SteadyFlap(Observed(m, cap, cfg, os[0]), cap, cfg, os[1..], id); }
  }

  /** Accepted address changes of one unit are at least the cooldown apart, whatever is observed in
      between: if `first` changes the address (or introduces the unit) and the next to change it after
      any steady run is `last`, the cooldown has elapsed. */
  lemma ChangesApart<A>(m: map<u64, Entry<A>>, cap: nat, cfg: MeshConfig, first: Observation<A>, os: seq<Observation<A>>,
                        last: Observation<A>, id: u64)
    requires ChangesAddress(m, cap, cfg, first, id) || (id !in m && id in Observed(m, cap, cfg, first))
    requires var m1 := Observed(m, cap, cfg, first);
             Steady(m1, cap, cfg, os, id) && ChangesAddress(RunObserved(m1, cap, cfg, os), cap, cfg, last, id)
    ensures SatSub(last.nowNs, first.nowNs) >= cfg.flapCooldownNs
  {
    var m1 := Observed(m, cap, cfg, first);
    assert m1[id].lastFlapNs == first.nowNs;
    SteadyFlap(m1, cap, cfg, os, id);
  }

  // ---- probing ----

  function ProbeStart(id: u64): nat {
    (id * 0x9E37_79B9_7F4A_7C15) % U64_SIZE / 0x8000_0000_0000
  }

  function Start(id: u64, cap: nat): (s: nat)
    requires cap > 0
    ensures s < cap
  {
    ProbeStart(id) % cap
  }

  /** The slot `t` places after `s`, around the table. */
  function Probe(s: nat, t: nat, cap: nat): (j: nat)
    requires s < cap && t < cap
    ensures j < cap
  {
    if s + t < cap then s + t else s + t - cap
  }

  /** How many probes from `s` it takes to reach `j`. */
  function Dist(s: nat, j: nat, cap: nat): (t: nat)
    requires s < cap && j < cap
    ensures t < cap && Probe(s, t, cap) == j
  {
    if j >= s then j - s else j + cap - s
  }

  type Slots<A> = seq<Option<Entry<A>>>

  /** Slot `i` holds unit `id`. */
  predicate HoldsUnit<A>(slots: Slots<A>, i: int, id: u64) {
    0 <= i < |slots| && slots[i].Some? && slots[i].value.unitId == id
  }

  /** Every slot before `j` on the probe path of the unit in `j` is occupied, by another unit. */
  predicate ChainAt<A>(slots: Slots<A>, j: int)
    requires 0 <= j < |slots| && slots[j].Some?
  {
    var id := slots[j].value.unitId;
    var s := Start(id, |slots|);
    forall t :: 0 <= t < Dist(s, j, |slots|) ==>
      slots[Probe(s, t, |slots|)].Some? && slots[Probe(s, t, |slots|)].value.unitId != id
  }

  predicate Chained<A>(slots: Slots<A>) {
    |slots| > 0 && forall j {:trigger ChainAt(slots, j)} :: 0 <= j < |slots| && slots[j].Some? ==> ChainAt(slots, j)
  }

  lemma OneSlot<A>(slots: Slots<A>, i: int, j: int, id: u64)
    requires Chained(slots) && HoldsUnit(slots, i, id) && HoldsUnit(slots, j, id)
    ensures i == j
  {
    var s := Start(id, |slots|);
    assert ChainAt(slots, i) && ChainAt(slots, j);
    var ti, tj := Dist(s, i, |slots|), Dist(s, j, |slots|);
    assert Probe(s, ti, |slots|) == i && Probe(s, tj, |slots|) == j;
  }

  /** What `find` returns: the first unit of that id on the path, up to the first hole. */
  function FindFrom<A>(slots: Slots<A>, id: u64, t: nat): Option<Entry<A>>
    requires |slots| > 0 && t <= |slots|
    decreases |slots| - t
  {
    if t == |slots| then None
    else
      var x := slots[Probe(Start(id, |slots|), t, |slots|)];
      if x.None? then None
      else if x.value.unitId == id then x
      else FindFrom(slots, id, t + 1)
  }

  /** A probe path without hole or match up to `t`. */
  ghost predicate Clear<A>(slots: Slots<A>, id: u64, t: nat)
    requires 0 < |slots| && t <= |slots|
  {
    forall u {:trigger Probe(Start(id, |slots|), u, |slots|)} :: 0 <= u < t ==>
      var x := slots[Probe(Start(id, |slots|), u, |slots|)]; x.Some? && x.value.unitId != id
  }

  /** A unit is found exactly when no hole precedes it on its path. */
  lemma {:induction false} FindReaches<A>(slots: Slots<A>, id: u64, j: nat, t: nat)
    requires HoldsUnit(slots, j, id) && t <= Dist(Start(id, |slots|), j, |slots|)
    requires forall i :: HoldsUnit(slots, i, id) ==> i == j
    ensures FindFrom(slots, id, t) == slots[j] <==>
            forall u {:trigger Probe(Start(id, |slots|), u, |slots|)} :: t <= u < Dist(Start(id, |slots|), j, |slots|) ==>
              slots[Probe(Start(id, |slots|), u, |slots|)].Some?
    decreases |slots| - t
  {
    var s := Start(id, |slots|);
    var d := Dist(s, j, |slots|);
    if t < d {
      var p := Probe(s, t, |slots|);
      assert p != j;
      assert !HoldsUnit(slots, p, id);
      if slots[p].Some? { FindReaches(slots, id, j, t + 1); }
    }
  }

  /** After removals a survivor is still found exactly when none of the slots on its probe path before
      it was emptied. */
  lemma SurvivorFound<A>(before: Slots<A>, after: Slots<A>, id: u64, j: nat)
    requires Chained(before) && |after| == |before| && HoldsUnit(before, j, id) && after[j] == before[j]
    requires forall i :: 0 <= i < |after| ==> after[i] == before[i] || after[i].None?
    ensures FindFrom(after, id, 0) == before[j] <==>
            forall u {:trigger Probe(Start(id, |after|), u, |after|)} :: 0 <= u < Dist(Start(id, |after|), j, |after|) ==>
              after[Probe(Start(id, |after|), u, |after|)].Some?
  {
    forall i | HoldsUnit(after, i, id)
      ensures i == j
    {
      OneSlot(before, i, j, id);
    }
    FindReaches(after, id, j, 0);
  }

  // ---- counting ----

  function Count<A>(slots: Slots<A>): (n: nat)
    ensures n <= |slots|
    decreases slots
  {
    if slots == [] then 0 else Count(slots[..|slots| - 1]) + if slots[|slots| - 1].Some? then 1 else 0
  }

  lemma {:induction false} CountSet<A>(slots: Slots<A>, i: nat, x: Option<Entry<A>>)
    requires i < |slots|
    ensures Count(slots[i := x]) == Count(slots) + (if x.Some? then 1 else 0) - (if slots[i].Some? then 1 else 0)
    decreases slots
  {
    var k := |slots| - 1;
    if i < k {
      CountSet(slots[..k], i, x);
      assert slots[i := x][..k] == slots[..k][i := x];
    } else {
      assert slots[i := x][..k] == slots[..k];
    }
  }

  /** A full count is a table without holes. */
  lemma {:induction false} CountFull<A>(slots: Slots<A>)
    ensures Count(slots) == |slots| <==> forall i :: 0 <= i < |slots| ==> slots[i].Some?
    decreases slots
  {
    if slots != [] {
      var k := |slots| - 1;
      CountFull(slots[..k]);
      assert forall i :: 0 <= i < k ==> slots[..k][i] == slots[i];
    }
  }

  lemma {:induction false} CountEmpty<A>(slots: Slots<A>)
    requires forall i :: 0 <= i < |slots| ==> slots[i].None?
    ensures Count(slots) == 0
    decreases slots
  {
    if slots != [] { CountEmpty(slots[..|slots| - 1]); }
  }

  // ---- the table object ----

  /** The table holds exactly the entries of `m`. */
  ghost predicate Represents<A>(slots: Slots<A>, m: map<u64, Entry<A>>) {
    && (forall i {:trigger slots[i]} :: 0 <= i < |slots| && slots[i].Some? ==>
          slots[i].value.unitId in m && m[slots[i].value.unitId] == slots[i].value)
    && (forall id {:trigger id in m} :: id in m ==> exists i :: HoldsUnit(slots, i, id))
  }

  /** Every unit stays in its slot. */
  ghost predicate Stays<A>(before: Slots<A>, after: Slots<A>) {
    && |after| == |before|
    && forall i {:trigger after[i]} :: 0 <= i < |before| && before[i].Some? ==>
         after[i].Some? && after[i].value.unitId == before[i].value.unitId
  }

  /** A clear path around the whole table means the unit is absent and the table full. */
  lemma ClearAround<A>(slots: Slots<A>, id: u64)
    requires |slots| > 0 && Clear(slots, id, |slots|)
    ensures forall i :: !HoldsUnit(slots, i, id)
    ensures Count(slots) == |slots|
  {
    forall i | 0 <= i < |slots|
      ensures slots[i].Some? && slots[i].value.unitId != id
    {
      assert Probe(Start(id, |slots|), Dist(Start(id, |slots|), i, |slots|), |slots|) == i;
    }
    CountFull(slots);
  }

  /** A hole at the end of a clear path of an unbroken table means the unit is absent. */
  lemma HoleMeansAbsent<A>(slots: Slots<A>, id: u64, t: nat)
    requires Chained(slots) && t < |slots| && Clear(slots, id, t)
    requires slots[Probe(Start(id, |slots|), t, |slots|)].None?
    ensures forall i :: !HoldsUnit(slots, i, id)
  {
    var s := Start(id, |slots|);
    forall i | 0 <= i < |slots|
      ensures !HoldsUnit(slots, i, id)
    {
      assert slots[i].Some? ==> ChainAt(slots, i);
      assert Probe(s, Dist(s, i, |slots|), |slots|) == i;
    }
  }

  /** Filling the first hole of a unit's path, or rewriting its entry, keeps the table unbroken. */
  lemma PlaceKeeps<A>(slots: Slots<A>, id: u64, t: nat, e: Entry<A>)
    requires Chained(slots) && t < |slots| && Clear(slots, id, t) && e.unitId == id
    requires var x := slots[Probe(Start(id, |slots|), t, |slots|)];
             (x.None? && forall i :: !HoldsUnit(slots, i, id)) || (x.Some? && x.value.unitId == id)
    ensures Chained(slots[Probe(Start(id, |slots|), t, |slots|) := Some(e)])
  {
    var p := Probe(Start(id, |slots|), t, |slots|);
    var after := slots[p := Some(e)];
    forall j | 0 <= j < |after| && after[j].Some?
      ensures ChainAt(after, j)
    {
      if j != p {
        assert ChainAt(slots, j);
        if slots[p].Some? && after[j].value.unitId == id { OneSlot(slots, j, p, id); }
      }
    }
  }

  class NeighborTable<A(==)> {
    const slots: array<Option<Entry<A>>>
    var len: nat
    const cfg: MeshConfig
    ghost var entries: map<u64, Entry<A>>   // meaningful while the table is unbroken

    /** In every run: `len` counts the occupied slots. */
    ghost predicate Counted()
      reads this, slots
    {
      slots.Length > 0 && len == Count(slots[..])
    }

    /** Until an entry is removed: the table is the map `entries`. */
    ghost predicate Unbroken()
      reads this, slots
    {
      Counted() && Chained(slots[..]) && Represents(slots[..], entries) && |entries| == len
    }

    constructor (capacity: nat, config: MeshConfig)
      ensures Unbroken() && fresh(slots)
      ensures slots.Length == Max(capacity, 1) && cfg == config && entries == map[] && len == 0
    {
      slots := new Option<Entry<A>>[Max(capacity, 1)](_ => None);
      len, cfg, entries := 0, config, map[];
      new;
      CountEmpty(slots[..]);
    }

    method Observe(o: Observation<A>) returns (news: bool)
      requires Counted()
      modifies this`len, this`entries, slots
      ensures Counted() && Stays(old(slots[..]), slots[..])
      ensures old(Unbroken()) ==>
                && Unbroken()
                && entries == Observed(old(entries), slots.Length, cfg, o)
                && news == Replies(old(entries), slots.Length, cfg, o)
    {
      var skew := if o.tsNs >= o.nowNs then o.tsNs - o.nowNs else o.nowNs - o.tsNs;
      if skew > cfg.maxClockSkewNs { return false; }
      var cap := slots.Length;
      var idx := ProbeStart(o.unitId) % cap;
      for t := 0 to cap
        invariant Clear(slots[..], o.unitId, t)
        invariant t < cap ==> idx == Probe(Start(o.unitId, cap), t, cap)
        invariant slots[..] == old(slots[..]) && len == old(len) && entries == old(entries)
      {
        match slots[idx]
        case Some(e) =>
          if e.unitId == o.unitId {
            news := Touch(o, idx, t);
            return;
          }
          Around(Start(o.unitId, cap), t, cap);
          idx := (idx + 1) % cap;
        case None =>
          Insert(o, idx, t);
          return true;
      }
      ClearAround(slots[..], o.unitId);
      news := false;
    }

    /** The branch of `observe` for a unit that is present. */
    method Touch(o: Observation<A>, idx: nat, ghost t: nat) returns (news: bool)
      requires Counted() && t < slots.Length && Clear(slots[..], o.unitId, t)
      requires idx == Probe(Start(o.unitId, slots.Length), t, slots.Length)
      requires slots[idx].Some? && slots[idx].value.unitId == o.unitId && !Implausible(cfg, o.tsNs, o.nowNs)
      modifies this`entries, slots
      ensures Counted() && Stays(old(slots[..]), slots[..])
      ensures old(Unbroken()) ==>
                && Unbroken()
                && entries == Observed(old(entries), slots.Length, cfg, o)
                && news == Replies(old(entries), slots.Length, cfg, o)
    {
      var e := slots[idx].value;
      var advanced := 0 < WrapSub32(o.seqNo, e.lastSeq) < 0x8000_0000;
      var addrChanged := e.addr != o.addr;
      var e' := e.(lastSeenNs := o.nowNs);
      if addrChanged {
        if SatSub(o.nowNs, e.lastFlapNs) < cfg.flapCooldownNs {
          news := false;
        } else {
          e' := e'.(addr := o.addr, lastFlapNs := o.nowNs);
          if advanced { e' := e'.(lastSeq := o.seqNo); }
          news := true;
        }
      } else if advanced {
        e' := e'.(lastSeq := o.seqNo);
        news := true;
      } else {
        news := false;
      }
      assert e' == Refreshed(cfg, e, o.addr, o.seqNo, o.nowNs);
      Write(idx, t, e');
    }

    method Insert(o: Observation<A>, idx: nat, ghost t: nat)
      requires Counted() && t < slots.Length && Clear(slots[..], o.unitId, t)
      requires idx == Probe(Start(o.unitId, slots.Length), t, slots.Length)
      requires slots[idx].None? && !Implausible(cfg, o.tsNs, o.nowNs)
      modifies this`len, this`entries, slots
      ensures Counted() && Stays(old(slots[..]), slots[..])
      ensures old(Unbroken()) ==>
                && Unbroken()
                && entries == Observed(old(entries), slots.Length, cfg, o)
                && Replies(old(entries), slots.Length, cfg, o)
    {
      ghost var before := slots[..];
      CountFull(before);
      if Chained(before) { HoleMeansAbsent(before, o.unitId, t); }
      len := len + 1;
      Write(idx, t, Entry(o.unitId, o.addr, o.nowNs, o.seqNo, o.nowNs));
    }

    /** Storing the entry of a unit at its place on an unbroken path. */
    method Write(idx: nat, ghost t: nat, e: Entry<A>)
      requires slots.Length > 0 && t < slots.Length && Clear(slots[..], e.unitId, t)
      requires idx == Probe(Start(e.unitId, slots.Length), t, slots.Length)
      requires slots[idx].Some? ==> slots[idx].value.unitId == e.unitId
      requires len == Count(slots[..]) + if slots[idx].None? then 1 else 0
      modifies this`entries, slots
      ensures Counted()
      ensures slots[..] == old(slots[..])[idx := Some(e)] && entries == old(entries)[e.unitId := e]
      ensures old(Chained(slots[..]) && Represents(slots[..], entries) && |entries| == Count(slots[..]))
              && (old(slots[idx]).None? ==> forall i :: !old(HoldsUnit(slots[..], i, e.unitId)))
              ==> Unbroken()
    {
      ghost var before, m := slots[..], entries;
      CountSet(before, idx, Some(e));
      slots[idx] := Some(e);
      entries := entries[e.unitId := e];
      assert slots[..] == before[idx := Some(e)];
      if Chained(before) && Represents(before, m) && |m| == Count(before)
         && (before[idx].None? ==> forall i :: !HoldsUnit(before, i, e.unitId))
      {
        PlaceKeeps(before, e.unitId, t, e);
        WriteRepresents(before, m, idx, e);
      }
    }

    /** A table that is still unbroken finds exactly what the map holds. */
    method Find(unitId: u64) returns (r: Option<Entry<A>>)
      requires Counted()
      ensures r == FindFrom(slots[..], unitId, 0)
      ensures Unbroken() ==> r == if unitId in entries then Some(entries[unitId]) else None
    {
      var cap := slots.Length;
      var idx := ProbeStart(unitId) % cap;
      for t := 0 to cap
        invariant Clear(slots[..], unitId, t)
        invariant t < cap ==> idx == Probe(Start(unitId, cap), t, cap)
        invariant FindFrom(slots[..], unitId, t) == FindFrom(slots[..], unitId, 0)
      {
        match slots[idx]
        case Some(e) =>
          if e.unitId == unitId {
            return Some(e);
          }
          Around(Start(unitId, cap), t, cap);
          idx := (idx + 1) % cap;
        case None =>
          if Chained(slots[..]) { HoleMeansAbsent(slots[..], unitId, t); }
          return None;
      }
      ClearAround(slots[..], unitId);
      r := None;
    }

    /** Empties the slots of units silent for longer than `ttlNs`; the count follows. */
    method Expire(nowNs: u64, ttlNs: u64) returns (removed: nat)
      requires Counted()
      modifies this`len, slots
      ensures Counted() && len == old(len) - removed
      ensures forall i :: 0 <= i < slots.Length ==>
                slots[i] == if old(slots[i]).Some? && SatSub(nowNs, old(slots[i]).value.lastSeenNs) > ttlNs
                            then None else old(slots[i])
    {
      removed := 0;
      ghost var before := slots[..];
      for i := 0 to slots.Length
        invariant len == old(len) && removed + Count(slots[..]) == len
        invariant forall j :: 0 <= j < i ==>
                    slots[j] == if before[j].Some? && SatSub(nowNs, before[j].value.lastSeenNs) > ttlNs
                                then None else before[j]
        invariant forall j :: i <= j < slots.Length ==> slots[j] == before[j]
      {
        if slots[i].Some? && SatSub(nowNs, slots[i].value.lastSeenNs) > ttlNs {
          ghost var now := slots[..];
          CountSet(now, i, None);
          slots[i] := None;
          assert slots[..] == now[i := None];
          removed := removed + 1;
        }
      }
      len := len - removed;
    }
  }

  /** A run of a table of two: units 1 and 3, which start at the same slot, are observed at times 0 and 9;
      at time 10 unit 1 has been silent too long and is removed. Unit 3 is still in the table, and found
      before that but not after. */
  method HiddenSurvivor<A(==)>(a: A, cfg: MeshConfig)
    returns (table: NeighborTable<A>, before: Option<Entry<A>>, after: Option<Entry<A>>)
    ensures fresh(table) && fresh(table.slots) && table.Counted() && table.len == 1
    ensures HoldsUnit(table.slots[..], 1, 3)
    ensures before == Some(Entry(3, a, 9, 0, 9)) && after == None
  {
    table := ObservePair(a, cfg);
    SameStart(table.slots.Length);
    before := table.Find(3);
    var removed := table.Expire(10, 5);
    assert table.slots[..] == [None, Some(Entry(3, a, 9, 0, 9))];
    CountPair(table.slots[..]);
    after := table.Find(3);
  }

  method ObservePair<A(==)>(a: A, cfg: MeshConfig) returns (table: NeighborTable<A>)
    ensures fresh(table) && fresh(table.slots) && table.Unbroken()
    ensures table.slots[..] == [Some(Entry(1, a, 0, 0, 0)), Some(Entry(3, a, 9, 0, 9))]
    ensures 3 in table.entries && table.entries[3] == Entry(3, a, 9, 0, 9)
  {
    table := new NeighborTable(2, cfg);
    ghost var one, three := Entry(1, a, 0, 0, 0), Entry(3, a, 9, 0, 9);
    SameStart(table.slots.Length);
    PairObserved(a, cfg, one, three);
    var news := table.Observe(Observation(1, a, 0, 0, 0));
    ghost var lone := table.slots[..];
    LonePlaced(lone, table.entries, one);
    news := table.Observe(Observation(3, a, 0, 9, 9));
    SecondPlaced(lone, table.slots[..], table.entries, one, three);
  }

  lemma SameStart(cap: nat)
    requires cap == 2
    ensures Start(1, cap) == 0 && Start(3, cap) == 0 && Probe(0, 0, cap) == 0
  {
  }

  lemma PairObserved<A>(a: A, cfg: MeshConfig, one: Entry<A>, three: Entry<A>)
    requires one == Entry(1, a, 0, 0, 0) && three == Entry(3, a, 9, 0, 9)
    ensures Observed(map[], 2, cfg, Observation(1, a, 0, 0, 0)) == map[1 := one]
    ensures Observed(map[1 := one], 2, cfg, Observation(3, a, 0, 9, 9)) == map[1 := one, 3 := three]
  {
    assert map[1 := one][3 := three] == map[1 := one, 3 := three];
  }

  /** The only unit of a table of two is where its path starts. */
  lemma LonePlaced<A>(slots: Slots<A>, m: map<u64, Entry<A>>, e: Entry<A>)
    requires |slots| == 2 && Chained(slots) && Represents(slots, m)
    requires m == map[e.unitId := e] && Start(e.unitId, 2) == 0
    ensures slots[0] == Some(e)
  {
    assert e.unitId in m;
    var i :| HoldsUnit(slots, i, e.unitId);
    assert slots[1].Some? ==> ChainAt(slots, 1);
    assert Dist(0, 1, 2) == 1 && Probe(0, 0, 2) == 0;
  }

  /** A second unit takes the other slot. */
  lemma SecondPlaced<A>(before: Slots<A>, after: Slots<A>, m: map<u64, Entry<A>>, e: Entry<A>, f: Entry<A>)
    requires |before| == 2 && before[0] == Some(e) && Stays(before, after) && Represents(after, m)
    requires m == map[e.unitId := e, f.unitId := f] && e.unitId != f.unitId
    ensures after == [Some(e), Some(f)]
  {
    assert f.unitId in m;
    var i :| HoldsUnit(after, i, f.unitId);
    assert after[0].value.unitId == e.unitId;
    assert i == 1;
  }

  lemma CountPair<A>(slots: Slots<A>)
    requires |slots| == 2
    ensures Count(slots) == (if slots[0].Some? then 1 else 0) + if slots[1].Some? then 1 else 0
  {
    assert slots[..1][..0] == [];
    assert Count(slots[..1]) == if slots[0].Some? then 1 else 0;
  }

  lemma Around(s: nat, t: nat, cap: nat)
    requires s < cap && t < cap
    ensures t + 1 < cap ==> (Probe(s, t, cap) + 1) % cap == Probe(s, t + 1, cap)
  {
    if t + 1 < cap {
      if Probe(s, t, cap) + 1 == cap { ModUnique(cap, cap, 1, 0); }
    }
  }

  lemma WriteRepresents<A>(before: Slots<A>, m: map<u64, Entry<A>>, idx: nat, e: Entry<A>)
    requires Chained(before) && Represents(before, m) && idx < |before|
    requires before[idx].Some? ==> before[idx].value.unitId == e.unitId
    requires before[idx].None? ==> forall i :: !HoldsUnit(before, i, e.unitId)
    ensures Represents(before[idx := Some(e)], m[e.unitId := e])
    ensures |m[e.unitId := e]| == |m| + if before[idx].None? then 1 else 0
  {
    WriteMapped(before, m, idx, e);
    WriteHeld(before, m, before[idx := Some(e)], m[e.unitId := e], idx, e);
    if before[idx].Some? {
      assert before[idx].value.unitId in m;
      assert m[e.unitId := e].Keys == m.Keys;
    } else {
      assert m[e.unitId := e].Keys == m.Keys + {e.unitId};
    }
  }

  /** Every stored entry is in the map ... */
  lemma WriteMapped<A>(before: Slots<A>, m: map<u64, Entry<A>>, idx: nat, e: Entry<A>)
    requires Chained(before) && Represents(before, m) && idx < |before|
    requires before[idx].Some? ==> before[idx].value.unitId == e.unitId
    requires before[idx].None? ==> forall i :: !HoldsUnit(before, i, e.unitId)
    ensures forall i {:trigger before[idx := Some(e)][i]} :: 0 <= i < |before| && before[idx := Some(e)][i].Some? ==>
              var x := before[idx := Some(e)][i].value; x.unitId in m[e.unitId := e] && m[e.unitId := e][x.unitId] == x
  {
    forall i | 0 <= i < |before| && before[i].Some? && i != idx
      ensures before[i].value.unitId != e.unitId
    {
      if before[i].value.unitId == e.unitId {
        assert HoldsUnit(before, i, e.unitId);
        OneSlot(before, i, idx, e.unitId);
      }
    }
  }

  /** ... and every unit of the map is stored. */
  lemma WriteHeld<A>(before: Slots<A>, m: map<u64, Entry<A>>, after: Slots<A>, m': map<u64, Entry<A>>, idx: nat, e: Entry<A>)
    requires Represents(before, m) && idx < |before| && after == before[idx := Some(e)] && m' == m[e.unitId := e]
    requires before[idx].Some? ==> before[idx].value.unitId == e.unitId
    ensures forall id {:trigger id in m'} :: id in m' ==> exists i :: HoldsUnit(after, i, id)
  {
    forall id {:trigger id in m'} | id in m'
      ensures exists i :: HoldsUnit(after, i, id)
    {
      if id == e.unitId {
        assert HoldsUnit(after, idx, id);
      } else {
        var i :| HoldsUnit(before, i, id);
        assert HoldsUnit(after, i, id);
      }
    }
  }
}
