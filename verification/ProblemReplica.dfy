/**
 The tracker over whole runs, next to a dashboard that only sees what flushes send: it adds each count_delta and
 copies each active flag. `base` is what the dashboard had counted for a problem when its present entry was created,
 and `born` is how many statuses had been recorded by then. `homeless` are the log problems that were evicted at once since
 the last flush and have found no room since; `doubled` are the entries that were created while homeless.
 */
module ProblemReplica {
  import opened Wrappers
  import opened ProblemTable

  datatype Shown = Shown(count: nat, active: Option<bool>)

  datatype Status = Status(name: string, level: string, message: string)

  datatype World = World(
    t: Table,
    dash: map<Key, Shown>,
    base: map<Key, nat>,
    born: map<Key, nat>,
    homeless: set<Key>,
    doubled: set<Key>,
    history: seq<Status>,
    clock: int
  )

  datatype Input =
    | Diagnostic(status: Status, hardware: string)
    | LogLine(name: string, level: string, message: string)
    | Flush(full: bool)

  function ShownCount(dash: map<Key, Shown>, k: Key): nat {
    if k in dash then dash[k].count else 0
  }

  /** The dashboard takes in a flush. */
  function Received(dash: map<Key, Shown>, changes: map<Key, Change>): map<Key, Shown> {
    map k | k in dash.Keys + changes.Keys ::
      if k in changes then Shown(ShownCount(dash, k) + changes[k].delta, changes[k].entry.active) else dash[k]
  }

  /** Records where entries that were not there before start from. */
  function Rebased(wd: World, t: Table): World {
    wd.(t := t,
        base := map k | k in t.entries :: if k in wd.t.entries && k in wd.base then wd.base[k] else ShownCount(wd.dash, k),
        born := map k | k in t.entries :: if k in wd.t.entries && k in wd.born then wd.born[k] else |wd.history|,
        homeless := wd.homeless - t.entries.Keys,
        doubled := set k | k in t.entries && if k in wd.t.entries then k in wd.doubled else k in wd.homeless)
  }

  /** A log problem that is not in the table after its line was recorded has been evicted at once. */
  function Settled(wd: World, key: Key): World {
    if key in wd.t.entries then wd else wd.(homeless := wd.homeless + {key})
  }

  function LogKey(name: string, level: string, message: string): Key {
    Key(Log, name, level, Stored(message))
  }

  ghost function Next(wd: World, input: Input, now: int): World
    requires WellKept(wd.t, wd.clock)
  {
    match input
    case Diagnostic(s, hw) =>
      Rebased(wd, RecordDiagnostic(wd.t, s.name, s.level, s.message, hw, now)).(history := wd.history + [s], clock := now)
    case LogLine(name, level, message) =>
      Settled(Rebased(wd, RecordLog(wd.t, name, level, message, now)), LogKey(name, level, message)).(clock := now)
    case Flush(full) =>
      wd.(t := Flushed(wd.t), dash := Received(wd.dash, Changes(wd.t, full)), homeless := {}, clock := now)
  }

  lemma NextIsWellKept(wd: World, input: Input, now: int)
    requires WellKept(wd.t, wd.clock) && wd.clock <= now
    ensures WellKept(Next(wd, input, now).t, now) && Next(wd, input, now).clock == now
  {
    hide RecordLog, RecordDiagnostic;
    match input
    case Diagnostic(s, hw) => DiagnosticIsWellKept(wd.t, s.name, s.level, s.message, hw, wd.clock, now);
    case LogLine(name, level, message) => LogIsWellKept(wd.t, name, level, message, wd.clock, now);
    case Flush(full) =>
  }

  datatype Timed = Timed(input: Input, at: int)

  /** The clock never goes back. */
  ghost predicate Ordered(inputs: seq<Timed>, from: int) {
    inputs != [] ==> from <= inputs[0].at && Ordered(inputs[1..], inputs[0].at)
  }

  ghost function After(wd: World, inputs: seq<Timed>): (r: World)
    requires WellKept(wd.t, wd.clock) && Ordered(inputs, wd.clock)
    ensures WellKept(r.t, r.clock)
    decreases |inputs|
  {
    if inputs == [] then wd
    else
      NextIsWellKept(wd, inputs[0].input, inputs[0].at);
      After(Next(wd, inputs[0].input, inputs[0].at), inputs[1..])
  }

  // ---------------------------------------------------------------- the replica

  function Extra(wd: World, k: Key): nat {
    if k in wd.doubled then 1 else 0
  }

  /** k's count differs from the dashboard's by what is pending, and an unflushed change of it is marked. */
  ghost predicate KeyAccounted(t: Table, dash: map<Key, Shown>, base: map<Key, nat>, extra: nat, k: Key)
    requires k in t.entries
  {
    && k in base
    && base[k] + t.entries[k].count + extra == ShownCount(dash, k) + Get(t.pending, k)
    && (k !in t.dirty ==> k in dash && dash[k].active == t.entries[k].active)
  }

  /** Pending occurrences belong to entries in the table, or are the one occurrence of a homeless log problem. */
  ghost predicate Accounted(wd: World) {
    && wd.t.pending.Keys <= wd.t.dirty <= wd.t.entries.Keys + wd.homeless
    && wd.homeless !! wd.t.entries.Keys && wd.homeless <= wd.t.pending.Keys && wd.doubled <= wd.t.entries.Keys
    && (forall k | k in wd.homeless :: k.source == Log && wd.t.pending[k] == 1)
    && forall k | k in wd.t.entries :: KeyAccounted(wd.t, wd.dash, wd.base, Extra(wd, k), k)
  }

  /** A change of the table that keeps its entries, what is pending, and adds to what is dirty. */
  ghost predicate SameCounts(t: Table, r: Table) {
    && r.entries.Keys == t.entries.Keys && r.pending == t.pending && t.dirty <= r.dirty <= t.dirty + t.entries.Keys
    && forall k | k in t.entries ::
         r.entries[k].count == t.entries[k].count && (k !in r.dirty ==> r.entries[k].active == t.entries[k].active)
  }

  lemma SameCountsAccounted(wd: World, r: Table)
    requires Accounted(wd) && SameCounts(wd.t, r)
    ensures Accounted(Rebased(wd, r)) && Rebased(wd, r).doubled == wd.doubled && Rebased(wd, r).homeless == wd.homeless
    ensures Accounted(wd.(t := r))
  {
    var after := Rebased(wd, r);
    forall k | k in r.entries
      ensures KeyAccounted(r, after.dash, after.base, Extra(after, k), k)
      ensures KeyAccounted(r, wd.dash, wd.base, Extra(wd, k), k)
    {
      assert KeyAccounted(wd.t, wd.dash, wd.base, Extra(wd, k), k);
    }
  }

  lemma QuietenSameCounts(t: Table, t0: Table, name: string)
    requires t0 == t.(component := t0.component)
    ensures SameCounts(t, Quieten(t0, name))
  {
  }

  lemma RepublishSameCounts(t: Table, t0: Table, id: Key, now: int)
    requires t0 == t.(component := t0.component) && id in t.entries
    ensures SameCounts(t, Republished(t0, id, now))
  {
  }

  /** The entries that one occurrence of key costs the table. */
  function Gone(t: Table, r: Table, key: Key): set<Key> {
    t.entries.Keys + {key} - r.entries.Keys
  }

  /** What an occurrence does to the entries it leaves in the table, and to the two sets of changes. */
  ghost predicate CountsOne(t: Table, r: Table, key: Key) {
    && r.entries.Keys <= t.entries.Keys + {key}
    && (forall k | k in r.entries && k != key :: r.entries[k] == t.entries[k])
    && (key in r.entries ==> r.entries[key].count == 1 + if key in t.entries then t.entries[key].count else 0)
    && r.dirty == t.dirty - Gone(t, r, key) + {key}
    && r.pending.Keys == t.pending.Keys - Gone(t, r, key) + {key}
    && (forall k | k in r.pending && k != key :: r.pending[k] == t.pending[k])
    && r.pending[key] == 1 + if key in r.entries then Get(t.pending, key) else 0
  }

  lemma InsertedKeepsChanges(t: Table, key: Key, active: Option<bool>, hardware: string, now: int)
    requires DistinctSerials(t.entries) && Numbered(t)
    ensures var r := Inserted(t, key, active, hardware, now);
            && r.entries.Keys <= t.entries.Keys + {key}
            && (forall k | k in r.entries && k != key :: r.entries[k] == t.entries[k])
            && (key in r.entries ==> r.entries[key].count == if key in t.entries then t.entries[key].count else 0)
            && r.dirty == t.dirty - Gone(t, r, key) && r.pending == t.pending - Gone(t, r, key)
  {
    hide Evicted, DistinctSerials, Numbered, Active, Inactive;
    if key in t.entries {
      assert Gone(t, t, key) == {};
    } else {
      var e := Entry(0, now, now, active, hardware, t.serial);
      GrownIsNumbered(t, key, e);
      EvictionSparesActive(t.entries[key := e], t.maxEntries);
      assert t.entries[key := e].Keys == t.entries.Keys + {key};
    }
  }

  lemma BumpCountsOne(t: Table, i: Table, key: Key, active: Option<bool>, now: int)
    requires i.entries.Keys <= t.entries.Keys + {key}
    requires forall k | k in i.entries && k != key :: i.entries[k] == t.entries[k]
    requires key in i.entries ==> i.entries[key].count == if key in t.entries then t.entries[key].count else 0
    requires i.dirty == t.dirty - Gone(t, i, key) && i.pending == t.pending - Gone(t, i, key)
    ensures CountsOne(t, Bumped(i, key, active, now), key)
    ensures key in Bumped(i, key, active, now).entries <==> key in i.entries
  {
    var r := Bumped(i, key, active, now);
    assert r.entries.Keys == i.entries.Keys;
    assert Gone(t, r, key) == Gone(t, i, key);
  }

  lemma OccurrenceCountsOne(t: Table, key: Key, active: Option<bool>, hardware: string, now: int)
    requires DistinctSerials(t.entries) && Numbered(t)
    ensures CountsOne(t, Occurrence(t, key, active, hardware, now), key)
    ensures key in Occurrence(t, key, active, hardware, now).entries
       <==> key in Inserted(t, key, active, hardware, now).entries
  {
    hide Inserted, DistinctSerials, Numbered, Tagged, CountsOne, Gone;
    InsertedKeepsChanges(t, key, active, hardware, now);
    BumpCountsOne(t, Inserted(t, key, active, hardware, now), key, active, now);
  }

  /** Whatever happens to its entry, an occurrence is accounted for. */
  lemma OccurrenceAccounted(wd: World, key: Key, r: Table)
    requires Accounted(wd) && CountsOne(wd.t, r, key) && (key.source == Diagnostics ==> key in r.entries)
    ensures Accounted(Settled(Rebased(wd, r), key))
    ensures Settled(Rebased(wd, r), key).doubled
         == wd.doubled * r.entries.Keys + if key in wd.homeless && key in r.entries then {key} else {}
  {
    hide CountsOne, KeyAccounted;
    var after := Settled(Rebased(wd, r), key);
    OccurrenceKeepsSets(wd, key, r);
    forall k | k in r.entries
      ensures KeyAccounted(r, after.dash, after.base, Extra(after, k), k)
    {
      OccurrenceKeyAccounted(wd, key, r, k);
    }
  }

  lemma OccurrenceKeepsSets(wd: World, key: Key, r: Table)
    requires Accounted(wd) && CountsOne(wd.t, r, key) && (key.source == Diagnostics ==> key in r.entries)
    ensures var after := Settled(Rebased(wd, r), key);
            && r.pending.Keys <= r.dirty <= r.entries.Keys + after.homeless
            && after.homeless !! r.entries.Keys && after.homeless <= r.pending.Keys && after.doubled <= r.entries.Keys
            && (forall k | k in after.homeless :: k.source == Log && r.pending[k] == 1)
            && after.doubled == wd.doubled * r.entries.Keys + if key in wd.homeless && key in r.entries then {key} else {}
  {
    hide KeyAccounted;
    var after := Settled(Rebased(wd, r), key);
    SetsStay(wd.t.pending.Keys, wd.t.dirty, wd.t.entries.Keys, r.entries.Keys, wd.homeless, key);
    DoubledIsExact(wd, key, r);
    forall k | k in after.homeless
      ensures k.source == Log && r.pending[k] == 1
    {
      if k != key {
        assert k in wd.homeless;
      }
    }
  }

  lemma SetsStay(pending: set<Key>, dirty: set<Key>, before: set<Key>, kept: set<Key>, homeless: set<Key>, key: Key)
    requires pending <= dirty <= before + homeless && homeless !! before && homeless <= pending && kept <= before + {key}
    ensures var gone := before + {key} - kept;
            var homeless' := homeless - kept + if key in kept then {} else {key};
            && pending - gone + {key} <= dirty - gone + {key} <= kept + homeless'
            && homeless' !! kept && homeless' <= pending - gone + {key}
  {
  }

  lemma DoubledIsExact(wd: World, key: Key, r: Table)
    requires wd.homeless !! wd.t.entries.Keys && wd.doubled <= wd.t.entries.Keys
    requires r.entries.Keys <= wd.t.entries.Keys + {key}
    ensures Rebased(wd, r).doubled
         == wd.doubled * r.entries.Keys + if key in wd.homeless && key in r.entries then {key} else {}
  {
    forall k | k in r.entries
      ensures (if k in wd.t.entries then k in wd.doubled else k in wd.homeless) <==>
              k in wd.doubled * r.entries.Keys + if key in wd.homeless && key in r.entries then {key} else {}
    {
      assert k in wd.t.entries || k == key;
    }
  }

  lemma OccurrenceKeyAccounted(wd: World, key: Key, r: Table, k: Key)
    requires Accounted(wd) && CountsOne(wd.t, r, key) && k in r.entries
    ensures var after := Settled(Rebased(wd, r), key);
            KeyAccounted(r, after.dash, after.base, Extra(after, k), k)
  {
    if k in wd.t.entries {
      assert KeyAccounted(wd.t, wd.dash, wd.base, Extra(wd, k), k);
    } else {
      assert k == key;
      assert k in wd.t.pending <==> k in wd.homeless;
    }
  }

  lemma ProblemAccounted(wd: World, t1: Table, key: Key, hardware: string, now: int)
    requires Accounted(wd) && SameCounts(wd.t, t1)
    requires DistinctSerials(t1.entries) && Numbered(t1) && Tagged(t1.entries) && key.source == Diagnostics
    ensures var after := Rebased(wd, Occurrence(t1, key, Some(true), hardware, now));
            Accounted(after) && after.doubled <= wd.doubled && after.homeless == wd.homeless
  {
    hide Occurrence, Accounted, CountsOne;
    var r := Occurrence(t1, key, Some(true), hardware, now);
    var mid := wd.(t := t1);
    SameCountsAccounted(wd, t1);
    OccurrenceCountsOne(t1, key, Some(true), hardware, now);
    OccurrenceActive(t1, key, Some(true), hardware, now);
    ActiveIsThere(r.entries, key);
    OccurrenceAccounted(mid, key, r);
    LogsAreHomeless(mid, key, r);
    assert Rebased(mid, r) == Rebased(wd, r);
  }

  lemma LogsAreHomeless(wd: World, key: Key, r: Table)
    requires Accounted(wd) && key.source == Diagnostics && CountsOne(wd.t, r, key)
    ensures key !in wd.homeless && wd.homeless - r.entries.Keys == wd.homeless
  {
  }

  /** A diagnostic status never leaves anyone homeless, and doubles nothing. */
  lemma DiagnosticAccounted(wd: World, s: Status, hardware: string, now: int)
    requires WellKept(wd.t, wd.clock) && wd.clock <= now && Accounted(wd)
    ensures var r := Next(wd, Diagnostic(s, hardware), now);
            Accounted(r) && r.doubled <= wd.doubled && r.homeless == wd.homeless
  {
    hide Occurrence, Accounted, SameCounts, Quieten, Republished, Rebased, Active, Expected, DistinctSerials, Numbered,
         Tagged;
    var t0 := wd.t.(component := wd.t.component[s.name := (s.level, s.message)]);
    QuietIsKept(wd.t, t0, s.name, wd.clock);
    var t1 := Quieten(t0, s.name);
    QuietenSameCounts(wd.t, t0, s.name);
    var id := Key(Diagnostics, s.name, s.level, s.message);
    if s.level !in PROBLEM_LEVELS {
      SameCountsAccounted(wd, t1);
      OnlyTheTableMatters(Rebased(wd, t1), wd.history + [s], now);
    } else if Previous(wd.t, s.name) == Some((s.level, s.message)) && id in wd.t.entries {
      RepublishSameCounts(wd.t, t0, id, now);
      SameCountsAccounted(wd, Republished(t0, id, now));
      OnlyTheTableMatters(Rebased(wd, Republished(t0, id, now)), wd.history + [s], now);
    } else {
      var key := Key(Diagnostics, s.name, s.level, Stored(s.message));
      ProblemAccounted(wd, t1, key, hardware, now);
      OnlyTheTableMatters(Rebased(wd, Occurrence(t1, key, Some(true), hardware, now)), wd.history + [s], now);
    }
  }

  lemma QuietIsKept(t: Table, t0: Table, name: string, clock: int)
    requires WellKept(t, clock) && t0 == t.(component := t0.component)
    ensures DistinctSerials(t0.entries) && Numbered(t0)
    ensures var t1 := Quieten(t0, name); DistinctSerials(t1.entries) && Numbered(t1) && Tagged(t1.entries)
  {
    QuietenKeeps(t0, name);
    QuietenActive(t0, name);
  }

  lemma OnlyTheTableMatters(wd: World, history: seq<Status>, now: int)
    requires Accounted(wd)
    ensures Accounted(wd.(history := history, clock := now))
  {
    forall k | k in wd.t.entries
      ensures KeyAccounted(wd.t, wd.dash, wd.base, Extra(wd.(history := history, clock := now), k), k)
    {
      assert KeyAccounted(wd.t, wd.dash, wd.base, Extra(wd, k), k);
    }
  }

  /** A new log entry outlives its own insertion exactly if it was there before or there is room. */
  lemma LogSurvives(t: Table, key: Key, clock: int, now: int)
    requires WellKept(t, clock) && clock <= now && key.source == Log
    ensures key in Inserted(t, key, None, "", now).entries
       <==> key in t.entries || |Active(t.entries)| < t.maxEntries
  {
    hide Evicted;
    if key !in t.entries {
      var e := Entry(0, now, now, None, "", t.serial);
      var grown := t.entries[key := e];
      assert DistinctSerials(grown);
      GrownActive(t.entries, key, e);
      assert Active(grown) == Active(t.entries);
      NewestSurvives(grown, t.maxEntries, key);
    }
  }

  /**
   A log line leaves its problem homeless exactly if it is not in the table and maxEntries problems are active, and
   doubles it exactly if it was homeless and there is room now.
   */
  lemma LogAccounted(wd: World, name: string, level: string, message: string, now: int)
    requires WellKept(wd.t, wd.clock) && wd.clock <= now && Accounted(wd)
    ensures var key := LogKey(name, level, message);
            var r := Next(wd, LogLine(name, level, message), now);
            && Accounted(r)
            && (key in r.homeless <==> key !in wd.t.entries && |Active(wd.t.entries)| >= wd.t.maxEntries)
            && r.doubled == wd.doubled * r.t.entries.Keys + if Doubles(wd, key) then {key} else {}
  {
    hide Occurrence, Inserted, Accounted, CountsOne;
    var key := LogKey(name, level, message);
    OccurrenceCountsOne(wd.t, key, None, "", now);
    var r := Occurrence(wd.t, key, None, "", now);
    OccurrenceAccounted(wd, key, r);
    LogSurvives(wd.t, key, wd.clock, now);
    HomelessIsOut(wd);
    assert Next(wd, LogLine(name, level, message), now) == Settled(Rebased(wd, r), key).(clock := now);
    OnlyTheTableMatters(Settled(Rebased(wd, r), key), wd.history, now);
  }

  lemma HomelessIsOut(wd: World)
    requires Accounted(wd)
    ensures forall k | k in wd.homeless :: k !in wd.t.entries
  {
  }

  /** Logged again with room after having been evicted at once since the last flush. */
  ghost predicate Doubles(wd: World, key: Key) {
    key in wd.homeless && |Active(wd.t.entries)| < wd.t.maxEntries
  }

  /**
   Right after a flush the dashboard shows the active flag of every entry, and of every count exactly what the tracker
   has, but one more for the entries that were created while homeless.
   */
  lemma FlushTellsAll(wd: World, full: bool, now: int)
    requires WellKept(wd.t, wd.clock) && Accounted(wd)
    ensures var r := Next(wd, Flush(full), now);
            && Accounted(r) && r.doubled == wd.doubled
            && forall k | k in r.t.entries ::
                 k in r.dash && r.dash[k] == Shown(r.base[k] + r.t.entries[k].count + Extra(wd, k), r.t.entries[k].active)
  {
    var r := Next(wd, Flush(full), now);
    forall k | k in r.t.entries
      ensures KeyAccounted(r.t, r.dash, r.base, Extra(r, k), k) && k in r.dash
      ensures r.dash[k] == Shown(r.base[k] + r.t.entries[k].count + Extra(wd, k), r.t.entries[k].active)
    {
      assert KeyAccounted(wd.t, wd.dash, wd.base, Extra(wd, k), k);
    }
  }

  /** A full flush names exactly the active problems as active, and every other change of an entry as well. */
  lemma FullFlushNamesActive(t: Table)
    ensures var c := Changes(t, true);
            && c.Keys == t.dirty * t.entries.Keys + Active(t.entries)
            && (set k | k in c && IsActive(c[k].entry)) == Active(t.entries)
  {
    assert Active(t.entries) <= t.entries.Keys;
  }

  // ------------------------------------------------------------------- whole runs

  lemma StepAccounted(wd: World, input: Input, now: int)
    requires WellKept(wd.t, wd.clock) && wd.clock <= now && Accounted(wd)
    ensures var r := Next(wd, input, now);
            && Accounted(r)
            && r.doubled <= wd.doubled + (if input.LogLine? && Doubles(wd, LogKey(input.name, input.level, input.message))
                                          then {LogKey(input.name, input.level, input.message)} else {})
            && (input.LogLine? && Doubles(wd, LogKey(input.name, input.level, input.message)) ==> r.doubled != {})
  {
    hide Next, Accounted;
    match input
    case Diagnostic(s, hw) => DiagnosticAccounted(wd, s, hw, now);
    case LogLine(n, l, m) => LogAccounted(wd, n, l, m, now);
    case Flush(full) => FlushTellsAll(wd, full, now);
  }

  /**
   Over all runs: an entry's count equals the deltas sent since it was created plus what is pending, but for the one
   occurrence more that was pending when a homeless problem found room.
   */
  lemma {:induction false} RunIsAccounted(wd: World, inputs: seq<Timed>)
    requires WellKept(wd.t, wd.clock) && Ordered(inputs, wd.clock) && Accounted(wd)
    ensures Accounted(After(wd, inputs))
    decreases |inputs|
  {
    hide Next, Accounted;
    if inputs == [] {
    } else {
      NextIsWellKept(wd, inputs[0].input, inputs[0].at);
      StepAccounted(wd, inputs[0].input, inputs[0].at);
      RunIsAccounted(Next(wd, inputs[0].input, inputs[0].at), inputs[1..]);
    }
  }

  /** In every state of the run a flush would make the dashboard agree with the tracker. */
  ghost predicate AlwaysInSync(wd: World, inputs: seq<Timed>)
    requires WellKept(wd.t, wd.clock) && Ordered(inputs, wd.clock)
    decreases |inputs|
  {
    && AgreesAfterFlush(wd)
    && (inputs != [] ==>
          (NextIsWellKept(wd, inputs[0].input, inputs[0].at);
           AlwaysInSync(Next(wd, inputs[0].input, inputs[0].at), inputs[1..])))
  }

  ghost predicate AgreesAfterFlush(wd: World)
    requires WellKept(wd.t, wd.clock)
  {
    var r := Next(wd, Flush(false), wd.clock);
    forall k | k in r.t.entries ::
      k in r.base && k in r.dash && r.dash[k] == Shown(r.base[k] + r.t.entries[k].count, r.t.entries[k].active)
  }

  /** No line of the run finds room after having been evicted at once since the last flush. */
  ghost predicate NeverDoubles(wd: World, inputs: seq<Timed>)
    requires WellKept(wd.t, wd.clock) && Ordered(inputs, wd.clock)
    decreases |inputs|
  {
    inputs != [] ==>
      && (match inputs[0].input case LogLine(n, l, m) => !Doubles(wd, LogKey(n, l, m)) case _ => true)
      && (NextIsWellKept(wd, inputs[0].input, inputs[0].at);
          NeverDoubles(Next(wd, inputs[0].input, inputs[0].at), inputs[1..]))
  }

  lemma AgreesExactly(wd: World)
    requires WellKept(wd.t, wd.clock) && Accounted(wd)
    ensures AgreesAfterFlush(wd) <==> wd.doubled == {}
  {
    hide Next;
    FlushTellsAll(wd, false, wd.clock);
    var r := Next(wd, Flush(false), wd.clock);
    assert r.t.entries == wd.t.entries by { FlushKeepsEntries(wd); }
    assert forall k | k in r.t.entries :: k in r.base by { BaseIsKnown(r); }
    if wd.doubled != {} {
      var k :| k in wd.doubled;
      assert k in wd.t.entries && Extra(wd, k) == 1;
    }
  }

  lemma FlushKeepsEntries(wd: World)
    requires WellKept(wd.t, wd.clock)
    ensures Next(wd, Flush(false), wd.clock).t.entries == wd.t.entries
  {
  }

  lemma BaseIsKnown(wd: World)
    requires Accounted(wd)
    ensures forall k | k in wd.t.entries :: k in wd.base
  {
    forall k | k in wd.t.entries ensures k in wd.base { assert KeyAccounted(wd.t, wd.dash, wd.base, Extra(wd, k), k); }
  }

  /**
   The replica, over whole runs from one that agrees: the dashboard agrees after a flush at any time, if and only if no
   log line that was evicted at once is logged again with room before the next flush.
   */
  lemma {:induction false} RunInSync(wd: World, inputs: seq<Timed>)
    requires WellKept(wd.t, wd.clock) && Ordered(inputs, wd.clock) && Accounted(wd) && wd.doubled == {}
    ensures AlwaysInSync(wd, inputs) <==> NeverDoubles(wd, inputs)
    decreases |inputs|
  {
    hide Next, Accounted, AgreesAfterFlush;
    AgreesExactly(wd);
    if inputs == [] {
    } else {
      var Timed(input, now) := inputs[0];
      var r := Next(wd, input, now);
      NextIsWellKept(wd, input, now);
      StepAccounted(wd, input, now);
      if r.doubled == {} {
        RunInSync(r, inputs[1..]);
      } else {
        AgreesExactly(r);
        assert !AlwaysInSync(r, inputs[1..]);
      }
    }
  }

  const DISK := Status("disk", "error", "full")
  const RESOLVED := Status("disk", "ok", "")

  /** A table of one entry: its active problem keeps a log line out, is resolved, and the line comes again. */
  const DOUBLING := [Timed(Diagnostic(DISK, ""), 0), Timed(LogLine("nav", "error", "lost"), 1),
                     Timed(Diagnostic(RESOLVED, ""), 2), Timed(LogLine("nav", "error", "lost"), 3)]

  /** The tracker has counted the line once, the next flush reports two. */
  lemma DashboardRunsAhead()
    ensures WellKept(Start(1, 0).t, 0) && Ordered(DOUBLING, 0)
    ensures var r := After(Start(1, 0), DOUBLING);
            var k := LogKey("nav", "error", "lost");
            && k in r.t.entries && r.t.entries[k].count == 1
            && k in Changes(r.t, false) && Changes(r.t, false)[k].delta == 2
  {
    hide After, Next, Accounted, WellKept, Active, Changes, Rebased, AgreesAfterFlush, Ordered;
    StartIsInSync(1, 0);
    var k := LogKey("nav", "error", "lost");
    var w0 := Start(1, 0);
    FourInputs(w0, DOUBLING);
    var w1 := Next(w0, DOUBLING[0].input, 0);
    StatusStep(w0, DISK, 0);
    var w2 := Next(w1, DOUBLING[1].input, 1);
    LogStep(w1, "nav", "error", "lost", 1);
    var w3 := Next(w2, DOUBLING[2].input, 2);
    StatusStep(w2, RESOLVED, 2);
    DiskIsActive(w1.t, 0);
    NothingIsActive(w3.t, 2);
    LogStep(w3, "nav", "error", "lost", 3);
    HomelessIsOut(w3);
    var w4 := Next(w3, DOUBLING[3].input, 3);
    DoubledIsThere(w4);
    DoubledDelta(w4, k);
  }

  lemma DiskIsActive(t: Table, clock: int)
    requires WellKept(t, clock) && t.component == map["disk" := ("error", "full")]
    ensures |Active(t.entries)| == 1 && forall k | k in Active(t.entries) :: k.source == Diagnostics
  {
    var n := "disk";
    var k := Key(Diagnostics, n, t.component[n].0, Stored(t.component[n].1));
    assert n in t.component && t.component[n].0 in PROBLEM_LEVELS;
    assert k in Expected(t.component);
    assert Expected(t.component) == {k};
  }

  lemma NothingIsActive(t: Table, clock: int)
    requires WellKept(t, clock) && t.component == map["disk" := ("ok", "")]
    ensures Active(t.entries) == {}
  {
    assert Expected(t.component) == {};
  }

  lemma FourInputs(wd: World, inputs: seq<Timed>)
    requires WellKept(wd.t, wd.clock) && |inputs| == 4
    requires wd.clock <= inputs[0].at <= inputs[1].at <= inputs[2].at <= inputs[3].at
    ensures Ordered(inputs, wd.clock)
    ensures var w1 := Next(wd, inputs[0].input, inputs[0].at);
            && WellKept(w1.t, w1.clock)
            && var w2 := Next(w1, inputs[1].input, inputs[1].at);
               && WellKept(w2.t, w2.clock)
               && var w3 := Next(w2, inputs[2].input, inputs[2].at);
                  && WellKept(w3.t, w3.clock) && w3.clock <= inputs[3].at
                  && After(wd, inputs) == Next(w3, inputs[3].input, inputs[3].at)
  {
    hide Next;
    var two, three, four := inputs[1..], inputs[1..][1..], inputs[1..][1..][1..];
    assert two[0] == inputs[1] && three[0] == inputs[2] && four[0] == inputs[3] && four[1..] == [];
    NextIsWellKept(wd, inputs[0].input, inputs[0].at);
    var w1 := Next(wd, inputs[0].input, inputs[0].at);
    NextIsWellKept(w1, inputs[1].input, inputs[1].at);
    var w2 := Next(w1, inputs[1].input, inputs[1].at);
    NextIsWellKept(w2, inputs[2].input, inputs[2].at);
    assert Ordered(four, inputs[2].at) && Ordered(three, inputs[1].at);
    var w3 := Next(w2, inputs[2].input, inputs[2].at);
    NextIsWellKept(w3, inputs[3].input, inputs[3].at);
    assert After(w3, four) == Next(w3, inputs[3].input, inputs[3].at);
    assert After(w2, three) == After(w3, four);
  }

  lemma StatusStep(wd: World, s: Status, now: int)
    requires WellKept(wd.t, wd.clock) && wd.clock <= now && Accounted(wd) && wd.dash == map[]
    ensures var r := Next(wd, Diagnostic(s, ""), now);
            && WellKept(r.t, now) && r.clock == now && Accounted(r) && r.dash == map[] && r.homeless == wd.homeless
            && r.t.maxEntries == wd.t.maxEntries && r.t.component == wd.t.component[s.name := (s.level, s.message)]
            && forall k | k in r.t.entries && k.source == Log :: k in wd.t.entries
  {
    hide Accounted, Occurrence, Active, Expected, Quieten, Republished, Tagged;
    NextIsWellKept(wd, Diagnostic(s, ""), now);
    DiagnosticAccounted(wd, s, "", now);
    var t0 := wd.t.(component := wd.t.component[s.name := (s.level, s.message)]);
    QuietenKeeps(t0, s.name);
    RestIsKept(t0, s.name);
    var key := Key(Diagnostics, s.name, s.level, Stored(s.message));
    OccurrenceKeepsRest(Quieten(t0, s.name), key, Some(true), "", now);
    OccurrenceBumpsEntry(Quieten(t0, s.name), key, Some(true), "", now);
    var id := Key(Diagnostics, s.name, s.level, s.message);
    if id in t0.entries {
      RepublishKeepsRest(t0, id, now);
    }
  }

  ghost predicate SameRest(t: Table, r: Table) {
    r.maxEntries == t.maxEntries && r.component == t.component
  }

  lemma RestIsKept(t: Table, name: string)
    ensures SameRest(t, Quieten(t, name)) && Quieten(t, name).entries.Keys == t.entries.Keys
  {
  }

  lemma RepublishKeepsRest(t: Table, id: Key, now: int)
    requires id in t.entries
    ensures SameRest(t, Republished(t, id, now)) && Republished(t, id, now).entries.Keys == t.entries.Keys
  {
  }

  lemma OccurrenceKeepsRest(t: Table, key: Key, active: Option<bool>, hardware: string, now: int)
    requires DistinctSerials(t.entries) && Numbered(t)
    ensures SameRest(t, Occurrence(t, key, active, hardware, now))
  {
    hide Evicted;
    if key in t.entries {
    } else {
      GrownIsNumbered(t, key, Entry(0, now, now, active, hardware, t.serial));
    }
  }

  lemma LogStep(wd: World, name: string, level: string, message: string, now: int)
    requires WellKept(wd.t, wd.clock) && wd.clock <= now && Accounted(wd) && wd.dash == map[]
    ensures var r := Next(wd, LogLine(name, level, message), now);
            var k := LogKey(name, level, message);
            && WellKept(r.t, now) && r.clock == now && Accounted(r) && r.dash == map[]
            && (k in r.homeless <==> k !in wd.t.entries && |Active(wd.t.entries)| >= wd.t.maxEntries)
            && (Doubles(wd, k) ==> k in r.doubled)
            && (k in r.t.entries && k !in wd.t.entries ==> k in r.base && r.base[k] == 0 && r.t.entries[k].count == 1)
            && r.t.maxEntries == wd.t.maxEntries && r.t.component == wd.t.component
  {
    hide Accounted, WellKept, Active, Occurrence;
    KeptIsDistinct(wd);
    NextIsWellKept(wd, LogLine(name, level, message), now);
    LogAccounted(wd, name, level, message, now);
    OccurrenceBumpsEntry(wd.t, LogKey(name, level, message), None, "", now);
    OccurrenceKeepsRest(wd.t, LogKey(name, level, message), None, "", now);
  }

  lemma KeptIsDistinct(wd: World)
    requires WellKept(wd.t, wd.clock)
    ensures DistinctSerials(wd.t.entries) && Numbered(wd.t)
  {
  }

  lemma DoubledIsThere(wd: World)
    requires Accounted(wd)
    ensures wd.doubled <= wd.t.entries.Keys
  {
  }

  lemma DoubledDelta(wd: World, k: Key)
    requires Accounted(wd) && k in wd.doubled && wd.dash == map[] && k in wd.base && wd.base[k] == 0
    ensures k in wd.t.entries && k in Changes(wd.t, false) && Changes(wd.t, false)[k].delta == wd.t.entries[k].count + 1
  {
    assert KeyAccounted(wd.t, wd.dash, wd.base, Extra(wd, k), k);
  }

  function Start(maxEntries: nat, clock: int): World {
    World(Empty(maxEntries), map[], map[], map[], {}, {}, [], clock)
  }

  lemma StartIsInSync(maxEntries: nat, clock: int)
    ensures WellKept(Start(maxEntries, clock).t, clock) && Accounted(Start(maxEntries, clock))
    ensures Start(maxEntries, clock).doubled == {}
    ensures CountsEdges(Start(maxEntries, clock))
  {
    EmptyIsWellKept(maxEntries, clock);
  }

  // -------------------------------------------------------------- counting edges

  /** The last status a component has reported. */
  ghost function LastOf(history: seq<Status>, name: string): Option<(string, string)> {
    if history == [] then None
    else
      var s := history[|history| - 1];
      if s.name == name then Some((s.level, s.message)) else LastOf(history[..|history| - 1], name)
  }

  /** How often, from the index `from` on, the component's history changed into this level and message. */
  ghost function Edges(history: seq<Status>, from: nat, k: Key): nat {
    if |history| <= from then 0
    else
      var before := history[..|history| - 1];
      Edges(before, from, k)
      + if history[|history| - 1] == Status(k.name, k.level, k.message)
           && LastOf(before, k.name) != Some((k.level, k.message)) then 1 else 0
  }

  /** With short messages, an entry's count is the number of changes into its problem since it was created. */
  ghost predicate CountsEdges(wd: World) {
    && wd.born.Keys == wd.t.entries.Keys
    && (forall n :: Previous(wd.t, n) == LastOf(wd.history, n))
    && (forall s | s in wd.history :: |s.message| <= MAX_MESSAGE_CHARS)
    && (forall k | k in wd.t.entries :: wd.born[k] <= |wd.history|)
    && (forall k | k in wd.t.entries && k.source == Diagnostics ::
          k.level in PROBLEM_LEVELS && wd.t.entries[k].count == Edges(wd.history, wd.born[k], k))
  }

  lemma OneMore(history: seq<Status>, s: Status, from: nat, k: Key)
    requires from <= |history|
    ensures Edges(history + [s], from, k)
         == Edges(history, from, k)
            + if s == Status(k.name, k.level, k.message)
                 && LastOf(history, k.name) != Some((k.level, k.message)) then 1 else 0
  {
    assert (history + [s])[..|history|] == history;
  }

  lemma LastOfAppended(history: seq<Status>, s: Status, name: string)
    ensures LastOf(history + [s], name) == if s.name == name then Some((s.level, s.message)) else LastOf(history, name)
  {
    assert (history + [s])[..|history|] == history;
  }

  /** A key's part of CountsEdges. */
  ghost predicate KeyCounted(e: Entry, born: nat, history: seq<Status>, k: Key) {
    born <= |history| && (k.source == Diagnostics ==> k.level in PROBLEM_LEVELS && e.count == Edges(history, born, k))
  }

  lemma CountedKeys(wd: World)
    requires CountsEdges(wd)
    ensures forall k | k in wd.t.entries :: KeyCounted(wd.t.entries[k], wd.born[k], wd.history, k)
  {
  }

  /** What is not a change into k's problem leaves k's count alone. */
  lemma KeyKeepsCount(e: Entry, e': Entry, born: nat, history: seq<Status>, s: Status, k: Key)
    requires KeyCounted(e, born, history, k) && e'.count == e.count
    requires k.source == Diagnostics ==>
               s != Status(k.name, k.level, k.message) || LastOf(history, k.name) == Some((k.level, k.message))
    ensures KeyCounted(e', born, history + [s], k)
  {
    OneMore(history, s, born, k);
  }

  /** The component that reports s has changed into it: its entry counts one more, or starts with one. */
  lemma KeyCountsChange(t: Table, r: Table, born: nat, history: seq<Status>, s: Status, k: Key)
    requires k == Key(Diagnostics, s.name, s.level, s.message) && s.level in PROBLEM_LEVELS
    requires LastOf(history, s.name) != Some((s.level, s.message))
    requires k in r.entries && r.entries[k].count == 1 + if k in t.entries then t.entries[k].count else 0
    requires if k in t.entries then KeyCounted(t.entries[k], born, history, k) else born == |history|
    ensures KeyCounted(r.entries[k], born, history + [s], k)
  {
    OneMore(history, s, born, k);
  }

  lemma HistoryGrows(wd: World, s: Status)
    requires forall n :: Previous(wd.t, n) == LastOf(wd.history, n)
    ensures forall t1: Table | t1.component == wd.t.component[s.name := (s.level, s.message)] ::
              forall n :: Previous(t1, n) == LastOf(wd.history + [s], n)
  {
    forall n
      ensures LastOf(wd.history + [s], n) == if s.name == n then Some((s.level, s.message)) else LastOf(wd.history, n)
    {
      LastOfAppended(wd.history, s, n);
    }
  }

  /** Puts the pieces of CountsEdges together after a diagnostic. */
  lemma CountedAfter(wd: World, r: Table, s: Status, now: int)
    requires CountsEdges(wd) && |s.message| <= MAX_MESSAGE_CHARS
    requires r.component == wd.t.component[s.name := (s.level, s.message)]
    requires forall k | k in r.entries ::
               KeyCounted(r.entries[k], if k in wd.t.entries then wd.born[k] else |wd.history|, wd.history + [s], k)
    ensures CountsEdges(Rebased(wd, r).(history := wd.history + [s], clock := now))
  {
    HistoryGrows(wd, s);
  }

  lemma QuietCounts(wd: World, s: Status, now: int)
    requires CountsEdges(wd) && |s.message| <= MAX_MESSAGE_CHARS && s.level !in PROBLEM_LEVELS
    ensures var r := Quieten(wd.t.(component := wd.t.component[s.name := (s.level, s.message)]), s.name);
            CountsEdges(Rebased(wd, r).(history := wd.history + [s], clock := now))
  {
    CountedKeys(wd);
    var r := Quieten(wd.t.(component := wd.t.component[s.name := (s.level, s.message)]), s.name);
    forall k | k in r.entries
      ensures KeyCounted(r.entries[k], wd.born[k], wd.history + [s], k)
    {
      KeyKeepsCount(wd.t.entries[k], r.entries[k], wd.born[k], wd.history, s, k);
    }
    CountedAfter(wd, r, s, now);
  }

  lemma RepublishCounts(wd: World, s: Status, now: int)
    requires CountsEdges(wd) && |s.message| <= MAX_MESSAGE_CHARS
    requires Previous(wd.t, s.name) == Some((s.level, s.message))
    requires Key(Diagnostics, s.name, s.level, s.message) in wd.t.entries
    ensures var t0 := wd.t.(component := wd.t.component[s.name := (s.level, s.message)]);
            var r := Republished(t0, Key(Diagnostics, s.name, s.level, s.message), now);
            CountsEdges(Rebased(wd, r).(history := wd.history + [s], clock := now))
  {
    CountedKeys(wd);
    var t0 := wd.t.(component := wd.t.component[s.name := (s.level, s.message)]);
    var r := Republished(t0, Key(Diagnostics, s.name, s.level, s.message), now);
    forall k | k in r.entries
      ensures KeyCounted(r.entries[k], wd.born[k], wd.history + [s], k)
    {
      KeyKeepsCount(wd.t.entries[k], r.entries[k], wd.born[k], wd.history, s, k);
    }
    CountedAfter(wd, r, s, now);
  }

  /** The entries after one occurrence of key. */
  ghost predicate BumpsEntry(t: Table, r: Table, key: Key) {
    && r.entries.Keys <= t.entries.Keys + {key}
    && (forall k | k in r.entries && k != key :: r.entries[k] == t.entries[k])
    && (key in r.entries ==> r.entries[key].count == 1 + if key in t.entries then t.entries[key].count else 0)
  }

  lemma OccurrenceBumpsEntry(t: Table, key: Key, active: Option<bool>, hardware: string, now: int)
    requires DistinctSerials(t.entries) && Numbered(t)
    ensures BumpsEntry(t, Occurrence(t, key, active, hardware, now), key)
  {
    hide Evicted, DistinctSerials, Numbered;
    if key !in t.entries {
      var e := Entry(0, now, now, active, hardware, t.serial);
      GrownIsNumbered(t, key, e);
      EvictionSparesActive(t.entries[key := e], t.maxEntries);
    }
  }

  /** A problem that is new for its component. */
  lemma ChangeCounts(wd: World, s: Status, t1: Table, r: Table, now: int)
    requires CountsEdges(wd) && |s.message| <= MAX_MESSAGE_CHARS && s.level in PROBLEM_LEVELS
    requires LastOf(wd.history, s.name) != Some((s.level, s.message))
    requires t1.entries.Keys == wd.t.entries.Keys
    requires forall k | k in t1.entries :: t1.entries[k].count == wd.t.entries[k].count
    requires BumpsEntry(t1, r, Key(Diagnostics, s.name, s.level, s.message))
    requires Key(Diagnostics, s.name, s.level, s.message) in r.entries
    requires r.component == wd.t.component[s.name := (s.level, s.message)]
    ensures CountsEdges(Rebased(wd, r).(history := wd.history + [s], clock := now))
  {
    hide KeyCounted;
    CountedKeys(wd);
    var key := Key(Diagnostics, s.name, s.level, s.message);
    forall k | k in r.entries
      ensures KeyCounted(r.entries[k], if k in wd.t.entries then wd.born[k] else |wd.history|, wd.history + [s], k)
    {
      if k == key {
        KeyCountsChange(wd.t, r, if k in wd.t.entries then wd.born[k] else |wd.history|, wd.history, s, k);
      } else {
        KeyKeepsCount(wd.t.entries[k], r.entries[k], wd.born[k], wd.history, s, k);
      }
    }
    CountedAfter(wd, r, s, now);
  }

  /** Only a change into a problem counts, not its republishing. */
  lemma DiagnosticCountsEdges(wd: World, s: Status, hardware: string, now: int)
    requires WellKept(wd.t, wd.clock) && wd.clock <= now
    requires CountsEdges(wd) && |s.message| <= MAX_MESSAGE_CHARS
    ensures CountsEdges(Next(wd, Diagnostic(s, hardware), now))
  {
    hide Occurrence, CountsEdges;
    var t0 := wd.t.(component := wd.t.component[s.name := (s.level, s.message)]);
    var t1 := Quieten(t0, s.name);
    var id := Key(Diagnostics, s.name, s.level, s.message);
    if s.level !in PROBLEM_LEVELS {
      QuietCounts(wd, s, now);
    } else if Previous(wd.t, s.name) == Some((s.level, s.message)) && id in wd.t.entries {
      RepublishCounts(wd, s, now);
    } else {
      ProblemCounts(wd, s, hardware, now);
    }
  }

  /** A short problem that is not in the table was not the component's last status. */
  lemma ChangedInto(wd: World, s: Status)
    requires WellKept(wd.t, wd.clock) && CountsEdges(wd)
    requires |s.message| <= MAX_MESSAGE_CHARS && s.level in PROBLEM_LEVELS
    requires Previous(wd.t, s.name) == Some((s.level, s.message)) ==>
               Key(Diagnostics, s.name, s.level, s.message) !in wd.t.entries
    ensures LastOf(wd.history, s.name) != Some((s.level, s.message))
  {
    hide Edges;
    if Previous(wd.t, s.name) == Some((s.level, s.message)) {
      LastProblemIsStored(wd.t, s.name, wd.clock);
    }
    assert LastOf(wd.history, s.name) == Previous(wd.t, s.name);
  }

  lemma ProblemCounts(wd: World, s: Status, hardware: string, now: int)
    requires WellKept(wd.t, wd.clock) && wd.clock <= now
    requires CountsEdges(wd) && |s.message| <= MAX_MESSAGE_CHARS && s.level in PROBLEM_LEVELS
    requires Previous(wd.t, s.name) == Some((s.level, s.message)) ==>
               Key(Diagnostics, s.name, s.level, s.message) !in wd.t.entries
    ensures CountsEdges(Next(wd, Diagnostic(s, hardware), now))
  {
    hide Occurrence, BumpsEntry, DistinctSerials, LastOf, Edges, CountsEdges;
    ChangedInto(wd, s);
    var t0 := wd.t.(component := wd.t.component[s.name := (s.level, s.message)]);
    var t1 := Quieten(t0, s.name);
    var id := Key(Diagnostics, s.name, s.level, s.message);
    QuietenKeeps(t0, s.name);
    QuietenActive(t0, s.name);
    var r := Occurrence(t1, id, Some(true), hardware, now);
    OccurrenceBumpsEntry(t1, id, Some(true), hardware, now);
    OccurrenceActive(t1, id, Some(true), hardware, now);
    ActiveIsThere(r.entries, id);
    ChangeCounts(wd, s, t1, r, now);
  }

  lemma LogKeepsEdges(wd: World, name: string, level: string, message: string, now: int)
    requires WellKept(wd.t, wd.clock) && wd.clock <= now && CountsEdges(wd)
    ensures CountsEdges(Next(wd, LogLine(name, level, message), now))
  {
    hide Occurrence, Edges, LastOf, WellKept, Active, Stored;
    KeptIsDistinct(wd);
    var key := LogKey(name, level, message);
    OccurrenceBumpsEntry(wd.t, key, None, "", now);
    OccurrenceKeepsRest(wd.t, key, None, "", now);
    EdgesElsewhere(wd, Occurrence(wd.t, key, None, "", now), key, now);
  }

  lemma BornWithTheTable(wd: World, r: Table, key: Key, now: int)
    requires wd.born.Keys == wd.t.entries.Keys
    ensures var after := Settled(Rebased(wd, r), key).(clock := now);
            && after.t == r && after.history == wd.history && after.born.Keys == r.entries.Keys
            && forall k | k in r.entries ::
                 after.born[k] == if k in wd.t.entries then wd.born[k] else |wd.history|
  {
  }

  /** What concerns log entries only leaves the counted edges as they are. */
  lemma EdgesElsewhere(wd: World, r: Table, key: Key, now: int)
    requires CountsEdges(wd) && key.source == Log && BumpsEntry(wd.t, r, key) && SameRest(wd.t, r)
    ensures CountsEdges(Settled(Rebased(wd, r), key).(clock := now))
  {
    hide Edges, LastOf, Rebased, Settled;
    var after := Settled(Rebased(wd, r), key).(clock := now);
    BornWithTheTable(wd, r, key, now);
    assert forall n :: Previous(r, n) == Previous(wd.t, n);
    forall k | k in r.entries && k.source == Diagnostics
      ensures k.level in PROBLEM_LEVELS && r.entries[k].count == Edges(wd.history, after.born[k], k)
    {
      assert k in wd.t.entries && after.born[k] == wd.born[k];
    }
  }

  ghost predicate AllShort(inputs: seq<Timed>) {
    forall i | 0 <= i < |inputs| && inputs[i].input.Diagnostic? ::
      |inputs[i].input.status.message| <= MAX_MESSAGE_CHARS
  }

  /**
   Over whole runs with short messages: a count is the number of times the component changed into the problem since
   its entry was created. It needs no room in the table.
   */
  lemma {:induction false} RunCountsEdges(wd: World, inputs: seq<Timed>)
    requires WellKept(wd.t, wd.clock) && Ordered(inputs, wd.clock)
    requires CountsEdges(wd) && AllShort(inputs)
    ensures CountsEdges(After(wd, inputs))
    decreases |inputs|
  {
    hide Next, CountsEdges;
    if inputs == [] {
    } else {
      var Timed(input, now) := inputs[0];
      NextIsWellKept(wd, input, now);
      match input {
        case Diagnostic(s, hw) => DiagnosticCountsEdges(wd, s, hw, now);
        case LogLine(n, l, m) => LogKeepsEdges(wd, n, l, m, now);
        case Flush(full) => FlushKeepsEdges(wd, full, now);
      }
      RunCountsEdges(Next(wd, input, now), inputs[1..]);
    }
  }

  lemma FlushKeepsEdges(wd: World, full: bool, now: int)
    requires WellKept(wd.t, wd.clock) && CountsEdges(wd)
    ensures CountsEdges(Next(wd, Flush(full), now))
  {
  }

  /**
   A message that is too long to be stored whole is looked up whole: republishing a problem leaves its count alone
   if and only if its message fits.
   */
  lemma RepublishingIsFreeIfShort(t: Table, name: string, level: string, message: string, hardware: string, clock: int,
                                  now: int)
    requires WellKept(t, clock) && clock <= now && level in PROBLEM_LEVELS
    requires Previous(t, name) == Some((level, message))
    ensures var k := Key(Diagnostics, name, level, Stored(message));
            var r := RecordDiagnostic(t, name, level, message, hardware, now);
            && k in t.entries && k in r.entries
            && r.entries[k].count == t.entries[k].count + (if |message| <= MAX_MESSAGE_CHARS then 0 else 1)
  {
    hide Occurrence;
    LastProblemIsStored(t, name, clock);
    var k := Key(Diagnostics, name, level, Stored(message));
    if |message| > MAX_MESSAGE_CHARS {
      var t0 := t.(component := t.component[name := (level, message)]);
      var t1 := Quieten(t0, name);
      QuietenKeeps(t0, name);
      QuietenActive(t0, name);
      OccurrenceBumpsEntry(t1, k, Some(true), hardware, now);
      OccurrenceActive(t1, k, Some(true), hardware, now);
      ActiveIsThere(Occurrence(t1, k, Some(true), hardware, now).entries, k);
    }
  }
}
