/**
 What an entry of the tracker tells about its problem: when it was first and last reported while it has been in the
 table, and by which hardware. Read off the reports of the run, not off the entry.
 */
module ProblemTimes {
  import opened Wrappers
  import opened ProblemTable
  import opened ProblemReplica

  /** The first 2000 characters. */
  function Cut(message: string): (r: string)
    ensures r <= message && |r| == if |message| < 2000 then |message| else 2000
  {
    if |message| < 2000 then message else message[..2000]
  }

  /** What the tracker keeps of a message. */
  lemma CutIsStored(message: string)
    ensures Stored(message) == Cut(message)
  {
  }

  /** This input says that the problem k is there. */
  predicate Reports(input: Input, k: Key) {
    match input
    case LogLine(name, level, message) => k == Key(Log, name, level, Cut(message))
    case Diagnostic(s, _) =>
      s.level in {"warn", "error", "stale", "fatal"} && k == Key(Diagnostics, s.name, s.level, Cut(s.message))
    case Flush(_) => false
  }

  function HardwareOf(input: Input): string {
    if input.Diagnostic? then input.hardware else ""
  }

  datatype Known = Known(first: int, last: int, hardware: string)

  function Tells(e: Entry): Known {
    Known(e.firstSeen, e.lastSeen, e.hardware)
  }

  /** What is known of k after one input, if it is in the table then: `known` was known before. */
  function KnownNext(before: bool, known: Known, input: Input, now: int, k: Key): Known {
    if !before then Known(now, now, HardwareOf(input))
    else if Reports(input, k) then known.(last := now)
    else known
  }

  /** What is known of k after a run, if it is in the table at the end, from the reports since it came there. */
  ghost function KnownAfter(wd: World, inputs: seq<Timed>, known: Known, k: Key): Known
    requires WellKept(wd.t, wd.clock) && Ordered(inputs, wd.clock)
    decreases |inputs|
  {
    if inputs == [] then known
    else
      var Timed(input, now) := inputs[0];
      NextIsWellKept(wd, input, now);
      KnownAfter(Next(wd, input, now), inputs[1..], KnownNext(k in wd.t.entries, known, input, now, k), k)
  }

  /** An entry after an occurrence of key. */
  lemma OccurrenceTells(t: Table, key: Key, active: Option<bool>, hardware: string, now: int, k: Key)
    requires DistinctSerials(t.entries) && Numbered(t)
    requires k in Occurrence(t, key, active, hardware, now).entries
    ensures var e := Occurrence(t, key, active, hardware, now).entries[k];
            && (k in t.entries ==> Tells(e) == if k == key then Tells(t.entries[k]).(last := now) else Tells(t.entries[k]))
            && (k !in t.entries ==> k == key && Tells(e) == Known(now, now, hardware))
  {
    hide Evicted, DistinctSerials, Numbered;
    if key !in t.entries {
      var e := Entry(0, now, now, active, hardware, t.serial);
      GrownIsNumbered(t, key, e);
      EvictionSparesActive(t.entries[key := e], t.maxEntries);
    }
  }

  /** One input: what it leaves in the table tells what is known. */
  lemma StepTells(wd: World, input: Input, now: int, k: Key)
    requires WellKept(wd.t, wd.clock) && wd.clock <= now && k in Next(wd, input, now).t.entries
    ensures k !in wd.t.entries ==> Reports(input, k)
    ensures var e := Next(wd, input, now).t.entries[k];
            Tells(e) == KnownNext(k in wd.t.entries,
                                  if k in wd.t.entries then Tells(wd.t.entries[k]) else Tells(e), input, now, k)
  {
    hide Occurrence, Active, Expected, DistinctSerials, Numbered, Tagged, Evicted, Cut;
    match input
    case Flush(_) =>
    case LogLine(name, level, message) =>
      CutIsStored(message);
      assert Next(wd, input, now).t == Occurrence(wd.t, LogKey(name, level, message), None, "", now);
      OccurrenceTells(wd.t, LogKey(name, level, message), None, "", now, k);
    case Diagnostic(s, hw) => DiagnosticTells(wd.t, s, hw, now, k, wd.clock);
  }

  lemma DiagnosticTells(t: Table, s: Status, hw: string, now: int, k: Key, clock: int)
    requires WellKept(t, clock) && k in RecordDiagnostic(t, s.name, s.level, s.message, hw, now).entries
    ensures k !in t.entries ==> Reports(Diagnostic(s, hw), k)
    ensures var e := RecordDiagnostic(t, s.name, s.level, s.message, hw, now).entries[k];
            Tells(e) == KnownNext(k in t.entries, if k in t.entries then Tells(t.entries[k]) else Tells(e),
                                  Diagnostic(s, hw), now, k)
  {
    hide Occurrence, Active, Expected, DistinctSerials, Numbered, Tagged, Cut;
    CutIsStored(s.message);
    var t0 := t.(component := t.component[s.name := (s.level, s.message)]);
    var id := Key(Diagnostics, s.name, s.level, s.message);
    if s.level !in PROBLEM_LEVELS {
    } else if Previous(t, s.name) == Some((s.level, s.message)) && id in t.entries {
      assert |id.message| <= MAX_MESSAGE_CHARS && Stored(s.message) == s.message;
    } else {
      QuietIsKept(t, t0, s.name, clock);
      var t1 := Quieten(t0, s.name);
      OccurrenceTells(t1, Key(Diagnostics, s.name, s.level, Stored(s.message)), Some(true), hw, now, k);
    }
  }

  /** In every run each entry tells what the reports since it came into the table say. */
  lemma {:induction false} EntriesTellTheirReports(wd: World, inputs: seq<Timed>, known: Known, k: Key)
    requires WellKept(wd.t, wd.clock) && Ordered(inputs, wd.clock)
    requires k in wd.t.entries ==> Tells(wd.t.entries[k]) == known
    requires k in After(wd, inputs).t.entries
    ensures Tells(After(wd, inputs).t.entries[k]) == KnownAfter(wd, inputs, known, k)
    decreases |inputs|
  {
    hide Next, WellKept, KnownNext, Tells;
    if inputs == [] {
    } else {
      var Timed(input, now) := inputs[0];
      NextIsWellKept(wd, input, now);
      var next := KnownNext(k in wd.t.entries, known, input, now, k);
      if k in Next(wd, input, now).t.entries {
        StepTells(wd, input, now, k);
        NewlyKnown(known, Tells(Next(wd, input, now).t.entries[k]), input, now, k);
      }
      EntriesTellTheirReports(Next(wd, input, now), inputs[1..], next, k);
    }
  }

  lemma NewlyKnown(a: Known, b: Known, input: Input, now: int, k: Key)
    ensures KnownNext(false, a, input, now, k) == KnownNext(false, b, input, now, k)
  {
  }
}
