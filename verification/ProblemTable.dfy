/**
 The deduplicating problem tracker: one entry per distinct problem, counted, batched, and evicted when the table is
 full. A problem is identified by its source, name, level and stored message; the order of insertion, which the
 program's dictionary keeps by itself, is a serial number here.
 */
module ProblemTable {
  import opened Wrappers

  const MAX_MESSAGE_CHARS := 2000
  const PROBLEM_LEVELS := {"warn", "error", "stale", "fatal"}

  datatype Source = Diagnostics | Log

  datatype Key = Key(source: Source, name: string, level: string, message: string)

  /** `active` is None for log lines, which are neither ongoing nor resolved. */
  datatype Entry = Entry(count: nat, firstSeen: int, lastSeen: int, active: Option<bool>, hardware: string, serial: nat)

  datatype Table = Table(
    entries: map<Key, Entry>,
    pending: map<Key, nat>,                 // occurrences not yet flushed
    dirty: set<Key>,                        // changed since the last flush
    component: map<string, (string, string)>, // diagnostics name -> (level, message) last seen
    serial: nat,
    maxEntries: nat
  )

  function Empty(maxEntries: nat): Table {
    Table(map[], map[], {}, map[], 0, maxEntries)
  }

  function Stored(message: string): string {
    if |message| <= MAX_MESSAGE_CHARS then message else message[..MAX_MESSAGE_CHARS]
  }

  function Get(m: map<Key, nat>, k: Key): nat {
    if k in m then m[k] else 0
  }

  // -------------------------------------------------------------------- eviction

  predicate IsActive(e: Entry) {
    e.active == Some(true)
  }

  /** The order in which inactive entries go: least recently seen first, then in order of insertion. */
  predicate Before(a: Entry, b: Entry) {
    a.lastSeen < b.lastSeen || (a.lastSeen == b.lastSeen && a.serial < b.serial)
  }

  predicate IsOldest(entries: map<Key, Entry>, k: Key) {
    && k in entries && !IsActive(entries[k])
    && forall j | j in entries && !IsActive(entries[j]) && j != k :: Before(entries[k], entries[j])
  }

  ghost predicate DistinctSerials(entries: map<Key, Entry>) {
    forall j, k | j in entries && k in entries && j != k :: entries[j].serial != entries[k].serial
  }

  lemma {:induction false} OldestExists(entries: map<Key, Entry>, among: set<Key>)
    returns (k: Key)
    requires DistinctSerials(entries) && among != {} && among <= entries.Keys
    ensures k in among && forall j | j in among && j != k :: Before(entries[k], entries[j])
    decreases among
  {
    k :| k in among;
    if among == {k} {
    } else {
      var j := OldestExists(entries, among - {k});
      assert entries[j].serial != entries[k].serial;
      if Before(entries[j], entries[k]) {
        k := j;
      }
    }
  }

  function Inactive(entries: map<Key, Entry>): set<Key> {
    set k | k in entries && !IsActive(entries[k])
  }

  function Active(entries: map<Key, Entry>): set<Key> {
    set k | k in entries && IsActive(entries[k])
  }

  /** `_evict`: drops the oldest inactive entries until the table fits or only active ones are left. */
  ghost function Evicted(entries: map<Key, Entry>, maxEntries: nat): map<Key, Entry>
    requires DistinctSerials(entries)
    decreases |entries|
  {
    if |entries| <= maxEntries || Inactive(entries) == {} then entries
    else
      var k := Oldest(entries);
      assert (entries - {k}).Keys == entries.Keys - {k};
      Evicted(entries - {k}, maxEntries)
  }

  lemma EvictOne(entries: map<Key, Entry>, maxEntries: nat, k: Key)
    requires DistinctSerials(entries) && |entries| > maxEntries && IsOldest(entries, k)
    ensures DistinctSerials(entries - {k}) && (entries - {k}).Keys == entries.Keys - {k}
    ensures Evicted(entries, maxEntries) == Evicted(entries - {k}, maxEntries)
  {
    assert k in Inactive(entries);
    OldestIsUnique(entries, k, Oldest(entries));
  }

  lemma EvictNone(entries: map<Key, Entry>, maxEntries: nat)
    requires DistinctSerials(entries) && (|entries| <= maxEntries || Inactive(entries) == {})
    ensures Evicted(entries, maxEntries) == entries
  {
  }

  ghost function Oldest(entries: map<Key, Entry>): (k: Key)
    requires DistinctSerials(entries) && Inactive(entries) != {}
    ensures IsOldest(entries, k)
  {
    assert exists k :: IsOldest(entries, k) by {
      var k := OldestExists(entries, Inactive(entries));
      assert IsOldest(entries, k);
    }
    var k :| IsOldest(entries, k);
    k
  }

  lemma OldestIsUnique(entries: map<Key, Entry>, j: Key, k: Key)
    requires IsOldest(entries, j) && IsOldest(entries, k)
    ensures j == k
  {
  }

  /** Eviction only drops entries, never an active one, and changes no entry it keeps. */
  lemma {:induction false} EvictionSparesActive(entries: map<Key, Entry>, maxEntries: nat)
    requires DistinctSerials(entries)
    ensures var r := Evicted(entries, maxEntries);
            && r.Keys <= entries.Keys && (forall k | k in r :: r[k] == entries[k])
            && Active(r) == Active(entries)
            && (|r| <= maxEntries || Inactive(r) == {})
    decreases |entries|
  {
    hide Oldest, Before;
    if |entries| <= maxEntries || Inactive(entries) == {} {
    } else {
      var k := Oldest(entries);
      var less := entries - {k};
      assert less.Keys == entries.Keys - {k};
      EvictionSparesActive(less, maxEntries);
      assert Active(less) == Active(entries);
    }
  }

  /** Among inactive entries it drops the oldest: whatever goes was older than whatever inactive entry stays. */
  lemma {:induction false} EvictionDropsOldest(entries: map<Key, Entry>, maxEntries: nat, gone: Key, kept: Key)
    requires DistinctSerials(entries)
    requires gone in entries && gone !in Evicted(entries, maxEntries)
    requires kept in Evicted(entries, maxEntries) && !IsActive(Evicted(entries, maxEntries)[kept])
    ensures !IsActive(entries[gone]) && kept in entries && Before(entries[gone], entries[kept])
    decreases |entries|
  {
    EvictionSparesActive(entries, maxEntries);
    var k := Oldest(entries);
    var less := entries - {k};
    assert less.Keys == entries.Keys - {k};
    EvictionSparesActive(less, maxEntries);
    if k != gone {
      EvictionDropsOldest(less, maxEntries, gone, kept);
    }
  }

  /** An inactive entry newer than all others survives exactly if fewer than maxEntries entries are active. */
  lemma {:induction false} NewestSurvives(entries: map<Key, Entry>, maxEntries: nat, k: Key)
    requires DistinctSerials(entries) && k in entries && !IsActive(entries[k])
    requires forall j | j in entries && j != k && !IsActive(entries[j]) :: Before(entries[j], entries[k])
    ensures k in Evicted(entries, maxEntries) <==> |Active(entries)| < maxEntries
    decreases |entries|
  {
    SplitByActivity(entries);
    assert k in Inactive(entries);
    if |entries| > maxEntries {
      var o := Oldest(entries);
      var less := entries - {o};
      assert less.Keys == entries.Keys - {o};
      assert Active(less) == Active(entries);
      if o == k {
        assert Inactive(entries) == {k};
        EvictionSparesActive(less, maxEntries);
      } else {
        NewestSurvives(less, maxEntries, k);
      }
    } else {
      assert |Inactive(entries)| >= 1;
    }
  }

  lemma SplitByActivity(entries: map<Key, Entry>)
    ensures |entries| == |Active(entries)| + |Inactive(entries)|
  {
    assert entries.Keys == Active(entries) + Inactive(entries);
    assert |entries| == |entries.Keys|;
  }

  // ------------------------------------------------------------------ operations

  function WithTag(k: Key, e: Entry, name: string): bool {
    k.source == Diagnostics && k.name == name && IsActive(e)
  }

  /** `_set_component_inactive` */
  function Quieten(t: Table, name: string): Table {
    t.(entries := map k | k in t.entries ::
                    if WithTag(k, t.entries[k], name) then t.entries[k].(active := Some(false)) else t.entries[k],
       dirty := t.dirty + set k | k in t.entries && WithTag(k, t.entries[k], name))
  }

  /** A new entry, and what eviction makes of the table. */
  ghost function Inserted(t: Table, key: Key, active: Option<bool>, hardware: string, now: int): Table
    requires DistinctSerials(t.entries) && Numbered(t)
  {
    if key in t.entries then t
    else
      var grown := t.entries[key := Entry(0, now, now, active, hardware, t.serial)];
      var kept := Evicted(grown, t.maxEntries);
      var gone := grown.Keys - kept.Keys;
      t.(entries := kept, pending := t.pending - gone, dirty := t.dirty - gone, serial := t.serial + 1)
  }

  ghost predicate Numbered(t: Table) {
    forall k | k in t.entries :: t.entries[k].serial < t.serial
  }

  /** Counts one occurrence; an entry that was evicted at once is no longer in the table. */
  function Bumped(t: Table, key: Key, active: Option<bool>, now: int): Table {
    var entries :=
      if key !in t.entries then t.entries
      else
        var e := t.entries[key];
        t.entries[key := e.(count := e.count + 1, lastSeen := now, active := if active.Some? then active else e.active)];
    t.(entries := entries, pending := t.pending[key := Get(t.pending, key) + 1], dirty := t.dirty + {key})
  }

  /** `_occurrence` */
  ghost function Occurrence(t: Table, key: Key, active: Option<bool>, hardware: string, now: int): Table
    requires DistinctSerials(t.entries) && Numbered(t)
  {
    Bumped(Inserted(t, key, active, hardware, now), key, active, now)
  }

  ghost function RecordLog(t: Table, name: string, level: string, message: string, now: int): Table
    requires DistinctSerials(t.entries) && Numbered(t)
  {
    Occurrence(t, Key(Log, name, level, Stored(message)), None, "", now)
  }

  function Previous(t: Table, name: string): Option<(string, string)> {
    if name in t.component then Some(t.component[name]) else None
  }

  /** The same problem again: only the time is updated, and an inactive entry is reactivated. */
  function Republished(t: Table, id: Key, now: int): Table
    requires id in t.entries
  {
    var e := t.entries[id];
    t.(entries := t.entries[id := e.(lastSeen := now, active := Some(true))],
       dirty := if IsActive(e) then t.dirty else t.dirty + {id})
  }

  ghost function RecordDiagnostic(t: Table, name: string, level: string, message: string, hardware: string, now: int)
    : Table
    requires DistinctSerials(t.entries) && Numbered(t)
  {
    var t1 := t.(component := t.component[name := (level, message)]);
    var id := Key(Diagnostics, name, level, message);
    if level !in PROBLEM_LEVELS then Quieten(t1, name)
    else if Previous(t, name) == Some((level, message)) && id in t.entries then Republished(t1, id, now)
    else
      QuietenKeeps(t1, name);
      Occurrence(Quieten(t1, name), Key(Diagnostics, name, level, Stored(message)), Some(true), hardware, now)
  }

  lemma QuietenKeeps(t: Table, name: string)
    requires DistinctSerials(t.entries) && Numbered(t)
    ensures DistinctSerials(Quieten(t, name).entries) && Numbered(Quieten(t, name))
  {
  }

  datatype Change = Change(entry: Entry, delta: nat)

  /** What a flush sends. */
  function Changes(t: Table, full: bool): map<Key, Change> {
    var ids := if full then t.dirty + Active(t.entries) else t.dirty;
    map k | k in ids && k in t.entries :: Change(t.entries[k], Get(t.pending, k))
  }

  function Flushed(t: Table): Table {
    t.(dirty := {}, pending := map[])
  }

  // ------------------------------------------------- the active set, in every reachable state

  /** One problem per component whose last status is a problem level. */
  function Expected(component: map<string, (string, string)>): set<Key> {
    set n | n in component && component[n].0 in PROBLEM_LEVELS ::
      Key(Diagnostics, n, component[n].0, Stored(component[n].1))
  }

  function OnlyIf(b: bool, k: Key): set<Key> {
    if b then {k} else {}
  }

  ghost predicate WellKept(t: Table, clock: int) {
    && DistinctSerials(t.entries) && Numbered(t)
    && (forall k | k in t.entries :: t.entries[k].lastSeen <= clock)
    && Tagged(t.entries)
    && (forall k | k in t.entries :: |k.message| <= MAX_MESSAGE_CHARS)
    && Active(t.entries) == Expected(t.component)
  }

  lemma EmptyIsWellKept(maxEntries: nat, clock: int)
    ensures WellKept(Empty(maxEntries), clock)
  {
  }

  lemma ExpectedChanges(component: map<string, (string, string)>, name: string, level: string, message: string)
    ensures Expected(component[name := (level, message)])
         == (set k | k in Expected(component) && k.name != name)
            + OnlyIf(level in PROBLEM_LEVELS, Key(Diagnostics, name, level, Stored(message)))
  {
    var after := component[name := (level, message)];
    forall k | k in Expected(component) && k.name != name
      ensures k in Expected(after)
    {
      assert k.name in component && component[k.name].0 in PROBLEM_LEVELS;
      assert k.name in after && after[k.name] == component[k.name];
    }
    if level in PROBLEM_LEVELS {
      assert name in after && after[name] == (level, message);
    }
  }

  lemma QuietenActive(t: Table, name: string)
    requires Tagged(t.entries)
    ensures Active(Quieten(t, name).entries) == set k | k in Active(t.entries) && k.name != name
    ensures Quieten(t, name).entries.Keys == t.entries.Keys
  {
  }

  /** Log entries have no active flag, diagnostics entries have one. */
  ghost predicate Tagged(entries: map<Key, Entry>) {
    forall k | k in entries :: k.source == Log <==> entries[k].active.None?
  }

  /** `after` is the table after counting an occurrence of key, as far as other entries are concerned. */
  ghost predicate OnlyTouches(before: Table, after: Table, key: Key) {
    && after.entries.Keys <= before.entries.Keys + {key}
    && (forall k | k in after.entries && k != key :: after.entries[k] == before.entries[k])
    && after.component == before.component && after.maxEntries == before.maxEntries
    && DistinctSerials(after.entries) && Numbered(after) && Tagged(after.entries)
  }

  lemma InsertedActive(t: Table, key: Key, active: Option<bool>, hardware: string, now: int)
    requires DistinctSerials(t.entries) && Numbered(t) && Tagged(t.entries)
    requires active == (if key.source == Log then None else Some(true))
    ensures var r := Inserted(t, key, active, hardware, now);
            && OnlyTouches(t, r, key)
            && Active(r.entries) == Active(t.entries) + OnlyIf(key.source != Log && key !in t.entries, key)
            && (key.source != Log ==> key in r.entries)
  {
    hide Evicted, Active, DistinctSerials, Numbered, Tagged;
    if key !in t.entries {
      var e := Entry(0, now, now, active, hardware, t.serial);
      var grown := t.entries[key := e];
      GrownIsNumbered(t, key, e);
      GrownIsTagged(t, key, e, Inserted(t, key, active, hardware, now));
      EvictionSparesActive(grown, t.maxEntries);
      GrownActive(t.entries, key, e);
      if key.source != Log {
        ActiveIsThere(Evicted(grown, t.maxEntries), key);
      }
    }
  }

  lemma GrownIsNumbered(t: Table, key: Key, e: Entry)
    requires DistinctSerials(t.entries) && Numbered(t) && key !in t.entries && e.serial == t.serial
    ensures DistinctSerials(t.entries[key := e])
  {
  }

  lemma GrownIsTagged(t: Table, key: Key, e: Entry, r: Table)
    requires DistinctSerials(t.entries) && Numbered(t) && Tagged(t.entries) && key !in t.entries
    requires e.serial == t.serial && (key.source == Log <==> e.active.None?)
    requires r.entries == Evicted(t.entries[key := e], t.maxEntries) && r.serial == t.serial + 1
    ensures DistinctSerials(r.entries) && Numbered(r) && Tagged(r.entries)
  {
    hide Evicted;
    EvictionSparesActive(t.entries[key := e], t.maxEntries);
  }

  lemma GrownActive(entries: map<Key, Entry>, key: Key, e: Entry)
    requires key !in entries
    ensures Active(entries[key := e]) == Active(entries) + OnlyIf(IsActive(e), key)
  {
  }

  lemma ActiveIsThere(entries: map<Key, Entry>, key: Key)
    requires key in Active(entries)
    ensures key in entries
  {
  }

  lemma BumpedActive(t: Table, key: Key, active: Option<bool>, now: int)
    requires DistinctSerials(t.entries) && Numbered(t) && Tagged(t.entries)
    requires active == (if key.source == Log then None else Some(true))
    ensures var r := Bumped(t, key, active, now);
            && OnlyTouches(t, r, key)
            && r.entries.Keys == t.entries.Keys
            && (key in r.entries ==> r.entries[key].lastSeen == now)
            && Active(r.entries) == Active(t.entries) + OnlyIf(key.source != Log && key in t.entries, key)
  {
  }

  lemma OccurrenceActive(t: Table, key: Key, active: Option<bool>, hardware: string, now: int)
    requires DistinctSerials(t.entries) && Numbered(t) && Tagged(t.entries)
    requires active == (if key.source == Log then None else Some(true))
    ensures var r := Occurrence(t, key, active, hardware, now);
            && OnlyTouches(t, r, key)
            && (key in r.entries ==> r.entries[key].lastSeen == now)
            && Active(r.entries) == Active(t.entries) + OnlyIf(key.source != Log, key)
  {
    hide Inserted, Bumped, Active, Tagged, DistinctSerials, Numbered;
    InsertedActive(t, key, active, hardware, now);
    BumpedActive(Inserted(t, key, active, hardware, now), key, active, now);
  }

  /** Every log line keeps the table in order, and what is active and what components reported last as they are. */
  lemma LogIsWellKept(t: Table, name: string, level: string, message: string, clock: int, now: int)
    requires WellKept(t, clock) && clock <= now
    ensures var r := RecordLog(t, name, level, message, now);
            WellKept(r, now) && Active(r.entries) == Active(t.entries) && r.component == t.component
  {
    hide Occurrence;
    OccurrenceActive(t, Key(Log, name, level, Stored(message)), None, "", now);
  }

  /** A problem that a component reported last is in the table, unless its message was cut. */
  lemma LastProblemIsStored(t: Table, name: string, clock: int)
    requires WellKept(t, clock) && name in t.component && t.component[name].0 in PROBLEM_LEVELS
    ensures var k := Key(Diagnostics, name, t.component[name].0, Stored(t.component[name].1));
            k in t.entries && IsActive(t.entries[k])
  {
    assert Key(Diagnostics, name, t.component[name].0, Stored(t.component[name].1)) in Expected(t.component);
  }

  lemma OkIsWellKept(t: Table, name: string, level: string, message: string, clock: int)
    requires WellKept(t, clock) && level !in PROBLEM_LEVELS
    ensures WellKept(Quieten(t.(component := t.component[name := (level, message)]), name), clock)
  {
    var t1 := t.(component := t.component[name := (level, message)]);
    ExpectedChanges(t.component, name, level, message);
    QuietenActive(t1, name);
    QuietenKeeps(t1, name);
  }

  lemma RepublishIsWellKept(t: Table, name: string, level: string, message: string, clock: int, now: int)
    requires WellKept(t, clock) && clock <= now && level in PROBLEM_LEVELS
    requires Previous(t, name) == Some((level, message)) && Key(Diagnostics, name, level, message) in t.entries
    ensures WellKept(Republished(t, Key(Diagnostics, name, level, message), now), now)
  {
    var id := Key(Diagnostics, name, level, message);
    LastProblemIsStored(t, name, clock);
    assert Stored(message) == message && IsActive(t.entries[id]);
    assert Active(Republished(t, id, now).entries) == Active(t.entries);
  }

  lemma ProblemIsWellKept(t: Table, name: string, level: string, message: string, hardware: string, clock: int, now: int)
    requires WellKept(t, clock) && clock <= now && level in PROBLEM_LEVELS
    ensures var t1 := Quieten(t.(component := t.component[name := (level, message)]), name);
            && DistinctSerials(t1.entries) && Numbered(t1)
            && WellKept(Occurrence(t1, Key(Diagnostics, name, level, Stored(message)), Some(true), hardware, now), now)
  {
    hide Occurrence, Expected;
    var t1 := t.(component := t.component[name := (level, message)]);
    ExpectedChanges(t.component, name, level, message);
    QuietenActive(t1, name);
    QuietenKeeps(t1, name);
    OccurrenceActive(Quieten(t1, name), Key(Diagnostics, name, level, Stored(message)), Some(true), hardware, now);
  }

  /**
   In every reachable state the active entries are exactly one per component whose last status is a problem; none
   of them is ever evicted, and log lines never become active.
   */
  lemma DiagnosticIsWellKept(t: Table, name: string, level: string, message: string, hardware: string, clock: int,
                             now: int)
    requires WellKept(t, clock) && clock <= now
    ensures WellKept(RecordDiagnostic(t, name, level, message, hardware, now), now)
  {
    hide Occurrence, Quieten;
    if level !in PROBLEM_LEVELS {
      OkIsWellKept(t, name, level, message, clock);
    } else if Previous(t, name) == Some((level, message)) && Key(Diagnostics, name, level, message) in t.entries {
      RepublishIsWellKept(t, name, level, message, clock, now);
      assert t.component[name := (level, message)] == t.component;
    } else {
      ProblemIsWellKept(t, name, level, message, hardware, clock, now);
    }
  }
}
