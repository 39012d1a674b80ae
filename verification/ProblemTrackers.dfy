/** The tracker itself: dictionaries updated in place, each method proved against the operations of ProblemTable. */
module ProblemTrackers {
  import opened Wrappers
  import PT = ProblemTable

  lemma RemoveOneMore(keys: set<PT.Key>, pending: map<PT.Key, nat>, dirty: set<PT.Key>, gone: set<PT.Key>, k: PT.Key)
    ensures keys - gone - {k} == keys - (gone + {k})
    ensures pending - gone - {k} == pending - (gone + {k})
    ensures dirty - gone - {k} == dirty - (gone + {k})
  {
  }

  class ProblemTracker {
    const maxEntries: nat
    var entries: map<PT.Key, PT.Entry>
    var pending: map<PT.Key, nat>
    var dirty: set<PT.Key>
    var component: map<string, (string, string)>
    var serial: nat

    ghost function State(): PT.Table
      reads this
    {
      PT.Table(entries, pending, dirty, component, serial, maxEntries)
    }

    /** What every reachable state keeps; `clock` is the latest time seen. */
    ghost predicate Valid(clock: int)
      reads this
    {
      PT.WellKept(State(), clock)
    }

    constructor (maxEntries: nat, ghost clock: int)
      ensures Valid(clock) && State() == PT.Empty(maxEntries)
    {
      this.maxEntries := maxEntries;
      entries, pending, dirty, component, serial := map[], map[], {}, map[], 0;
      new;
      PT.EmptyIsWellKept(maxEntries, clock);
    }

    method RecordLog(name: string, level: string, message: string, now: int, ghost clock: int)
      requires Valid(clock) && clock <= now
      modifies this
      ensures State() == PT.RecordLog(old(State()), name, level, message, now)
      ensures Valid(now)
    {
      PT.LogIsWellKept(State(), name, level, message, clock, now);
      Occur(PT.Key(PT.Log, name, level, PT.Stored(message)), None, "", now);
    }

    method RecordDiagnostic(name: string, level: string, message: string, hardware: string, now: int, ghost clock: int)
      requires Valid(clock) && clock <= now
      modifies this
      ensures State() == PT.RecordDiagnostic(old(State()), name, level, message, hardware, now)
      ensures Valid(now)
    {
      PT.DiagnosticIsWellKept(State(), name, level, message, hardware, clock, now);
      var previous := if name in component then Some(component[name]) else None;
      component := component[name := (level, message)];
      if level !in PT.PROBLEM_LEVELS {
        SetComponentInactive(name);
        return;
      }
      var id := PT.Key(PT.Diagnostics, name, level, message);
      if previous == Some((level, message)) && id in entries {
        var e := entries[id];
        if !PT.IsActive(e) {
          dirty := dirty + {id};
        }
        entries := entries[id := e.(lastSeen := now, active := Some(true))];
        return;
      }
      PT.QuietenKeeps(State(), name);
      SetComponentInactive(name);
      Occur(PT.Key(PT.Diagnostics, name, level, PT.Stored(message)), Some(true), hardware, now);
    }

    method Flush(full: bool) returns (changes: map<PT.Key, PT.Change>)
      modifies this
      ensures changes == PT.Changes(old(State()), full)
      ensures State() == PT.Flushed(old(State()))
    {
      var ids := dirty;
      if full {
        ids := ids + PT.Active(entries);
      }
      changes := map k | k in ids && k in entries :: PT.Change(entries[k], PT.Get(pending, k));
      dirty, pending := {}, map[];
    }

    /** `_occurrence` */
    method Occur(key: PT.Key, active: Option<bool>, hardware: string, now: int)
      requires PT.DistinctSerials(entries) && PT.Numbered(State())
      modifies this
      ensures State() == PT.Occurrence(old(State()), key, active, hardware, now)
    {
      hide PT.Evicted, PT.DistinctSerials, PT.Numbered;
      if key !in entries {
        PT.GrownIsNumbered(State(), key, PT.Entry(0, now, now, active, hardware, serial));
        entries := entries[key := PT.Entry(0, now, now, active, hardware, serial)];
        serial := serial + 1;
        Evict();
      }
      // An entry that was evicted at once is updated outside the table, where nobody sees it.
      if key in entries {
        var e := entries[key];
        entries := entries[key := e.(count := e.count + 1, lastSeen := now,
                                     active := if active.Some? then active else e.active)];
      }
      pending := pending[key := PT.Get(pending, key) + 1];
      dirty := dirty + {key};
    }

    /** `_set_component_inactive` */
    method SetComponentInactive(name: string)
      modifies this`entries, this`dirty
      ensures State() == PT.Quieten(old(State()), name)
    {
      var todo := entries.Keys;
      while todo != {}
        invariant todo <= entries.Keys == old(entries).Keys
        invariant forall k | k in todo :: entries[k] == old(entries)[k]
        invariant forall k | k in entries && k !in todo ::
                    entries[k] == if PT.WithTag(k, old(entries)[k], name) then old(entries)[k].(active := Some(false))
                                  else old(entries)[k]
        invariant dirty == old(dirty) + set k | k in old(entries) && k !in todo && PT.WithTag(k, old(entries)[k], name)
        decreases todo
      {
        var k :| k in todo;
        todo := todo - {k};
        if PT.WithTag(k, entries[k], name) {
          entries := entries[k := entries[k].(active := Some(false))];
          dirty := dirty + {k};
        }
      }
    }

    /** `_evict`: the oldest inactive entries go, with what is pending for them. */
    method Evict()
      requires PT.DistinctSerials(entries)
      modifies this`entries, this`pending, this`dirty
      ensures entries == PT.Evicted(old(entries), maxEntries)
      ensures pending == old(pending) - (old(entries).Keys - entries.Keys)
      ensures dirty == old(dirty) - (old(entries).Keys - entries.Keys)
    {
      hide PT.Evicted, PT.DistinctSerials, PT.Inactive, PT.IsOldest;
      ghost var gone: set<PT.Key> := {};
      while |entries| > maxEntries && PT.Inactive(entries) != {}
        invariant PT.DistinctSerials(entries)
        invariant PT.Evicted(entries, maxEntries) == PT.Evicted(old(entries), maxEntries)
        invariant gone <= old(entries).Keys && entries.Keys == old(entries).Keys - gone
        invariant pending == old(pending) - gone && dirty == old(dirty) - gone
        decreases |entries|
      {
        ghost var k := DropOldest();
        RemoveOneMore(old(entries).Keys, old(pending), old(dirty), gone, k);
        gone := gone + {k};
      }
      PT.EvictNone(entries, maxEntries);
      assert old(entries).Keys - entries.Keys == gone;
    }

    method DropOldest() returns (ghost gone: PT.Key)
      requires PT.DistinctSerials(entries) && |entries| > maxEntries && PT.Inactive(entries) != {}
      modifies this`entries, this`pending, this`dirty
      ensures gone in old(entries) && entries.Keys == old(entries).Keys - {gone} && |entries| < |old(entries)|
      ensures pending == old(pending) - {gone} && dirty == old(dirty) - {gone}
      ensures PT.DistinctSerials(entries)
      ensures PT.Evicted(entries, maxEntries) == PT.Evicted(old(entries), maxEntries)
    {
      hide PT.Evicted, PT.DistinctSerials;
      ghost var o := PT.Oldest(entries);
      var k :| k in entries.Keys && PT.IsOldest(entries, k);
      PT.EvictOne(entries, maxEntries, k);
      entries, pending, dirty := entries - {k}, pending - {k}, dirty - {k};
      gone := k;
    }
  }
}
