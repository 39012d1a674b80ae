/**
 The redundant tether: which connected channel is active, which is secondary, and which callbacks report the link.
 Channels are named and listed in priority order; `up` says which of them are connected at one moment.
 */
module LinkRoles {
  import opened Wrappers

  datatype Role = Active | Secondary | Backup | Down

  datatype Callback = Connected | Lost | Restored

  datatype Link = Link(
    active: Option<string>,
    secondary: Option<string>,
    forced: Option<string>,
    everUp: bool,
    lostLatched: bool
  )

  const FRESH := Link(None, None, None, false, false)

  /** The names of the connected channels, best priority first. */
  function Connections(names: seq<string>, up: seq<bool>): (c: seq<string>)
    requires |up| == |names|
    ensures forall n :: n in c <==> exists i :: 0 <= i < |names| && names[i] == n && up[i]
  {
    if names == [] then []
    else (if up[0] then [names[0]] else []) + Connections(names[1..], up[1..])
  }

  function Without(names: seq<string>, n: Option<string>): (r: seq<string>)
    ensures forall x :: x in r <==> x in names && n != Some(x)
  {
    if names == [] then []
    else (if n == Some(names[0]) then [] else [names[0]]) + Without(names[1..], n)
  }

  function First(names: seq<string>): Option<string> {
    if names == [] then None else Some(names[0])
  }

  predicate Among(n: Option<string>, names: seq<string>) {
    n.Some? && n.value in names
  }

  /** The part of `_update_roles` under the lock. */
  function Choose(connected: seq<string>, s: Link): Link {
    var active :=
      if Among(s.forced, connected) then s.forced
      else if !Among(s.active, connected) then First(connected)
      else s.active;
    var others := Without(connected, active);
    var secondary := if Among(s.secondary, others) then s.secondary else First(others);
    s.(active := active, secondary := secondary)
  }

  /** Which callback an update makes, if any. */
  function Report(before: Link, chosen: Link): Option<Callback> {
    if chosen.active.Some? then
      if before.active.Some? then None else if !before.everUp then Some(Connected) else Some(Restored)
    else if before.everUp && !before.lostLatched then Some(Lost) else None
  }

  function Update(names: seq<string>, up: seq<bool>, s: Link): Link
    requires |up| == |names|
  {
    var c := Choose(Connections(names, up), s);
    if c.active.Some? then c.(everUp := true, lostLatched := false)
    else c.(lostLatched := s.lostLatched || s.everUp)
  }

  function Force(names: seq<string>, name: Option<string>, s: Link): Link {
    s.(forced := if Among(name, names) then name else None)
  }

  /** The label a channel gets from a second look at whether it is connected. */
  function RoleOf(name: string, connected: bool, s: Link): Role {
    if !connected then Down
    else if s.active == Some(name) then Active
    else if s.secondary == Some(name) then Secondary
    else Backup
  }

  class Transport {
    const names: seq<string>
    var active: Option<string>
    var secondary: Option<string>
    var forced: Option<string>
    var everUp: bool
    var lostLatched: bool
    var roles: seq<Role>
    var calls: seq<Callback>   // the callbacks made so far

    ghost function State(): Link
      reads this
    {
      Link(active, secondary, forced, everUp, lostLatched)
    }

    constructor (names: seq<string>)
      ensures this.names == names && State() == FRESH && calls == [] && roles == seq(|names|, _ => Down)
    {
      this.names := names;
      active, secondary, forced, everUp, lostLatched := None, None, None, false, false;
      calls, roles := [], seq(|names|, _ => Down);
    }

    method ForceActive(name: Option<string>)
      modifies this`forced
      ensures State() == Force(names, name, old(State()))
    {
      forced := if name.Some? && name.value in names then name else None;
    }

    /** `up` is read under the lock, `later` when the labels are written. */
    method UpdateRoles(up: seq<bool>, later: seq<bool>)
      requires |up| == |later| == |names| == |roles|
      modifies this
      ensures State() == Update(names, up, old(State()))
      ensures calls == old(calls) + match Report(old(State()), State()) case None => [] case Some(c) => [c]
      ensures |roles| == |names|
      ensures forall i | 0 <= i < |names| :: roles[i] == RoleOf(names[i], later[i], State())
    {
      var wasUp := active.Some?;
      ChooseRoles(up);
      LabelChannels(later);
      if active.Some? {
        if !wasUp {
          calls := calls + [if everUp then Restored else Connected];
        }
        everUp, lostLatched := true, false;
      } else if everUp && !lostLatched {
        lostLatched := true;
        calls := calls + [Lost];
      }
    }

    /** The part under the lock. */
    method ChooseRoles(up: seq<bool>)
      requires |up| == |names|
      modifies this`active, this`secondary
      ensures State() == Choose(Connections(names, up), old(State()))
    {
      var connected := ConnectedNames(up);
      if forced.Some? && forced.value in connected {
        active := forced;
      } else if active.None? || active.value !in connected {
        active := First(connected);
      }
      var candidates := Without(connected, active);
      if secondary.None? || secondary.value !in candidates {
        secondary := First(candidates);
      }
    }

    method LabelChannels(later: seq<bool>)
      requires |later| == |names| == |roles|
      modifies this`roles
      ensures |roles| == |names|
      ensures forall i | 0 <= i < |names| :: roles[i] == RoleOf(names[i], later[i], State())
    {
      var i := 0;
      while i < |names|
        invariant 0 <= i <= |names| == |roles|
        invariant forall j | 0 <= j < i :: roles[j] == RoleOf(names[j], later[j], State())
      {
        var role := if !later[i] then Down else if active == Some(names[i]) then Active
                    else if secondary == Some(names[i]) then Secondary else Backup;
        roles := roles[i := role];
        i := i + 1;
      }
    }

    /** The names of the connected channels, best priority first. */
    method ConnectedNames(up: seq<bool>) returns (c: seq<string>)
      requires |up| == |names|
      ensures c == Connections(names, up)
    {
      c := [];
      var i := |names|;
      while i > 0
        invariant 0 <= i <= |names|
        invariant c == Connections(names[i..], up[i..])
      {
        i := i - 1;
        assert names[i..][1..] == names[i + 1..] && up[i..][1..] == up[i + 1..];
        if up[i] {
          c := [names[i]] + c;
        }
      }
      assert names[0..] == names && up[0..] == up;
    }
  }

  // ----------------------------------------------------------------- one update

  ghost predicate Distinct(names: seq<string>) {
    forall i, j | 0 <= i < j < |names| :: names[i] != names[j]
  }

  ghost predicate IsUp(names: seq<string>, up: seq<bool>, n: string)
    requires |up| == |names|
  {
    exists i :: 0 <= i < |names| && names[i] == n && up[i]
  }

  /** A channel is active exactly when one is connected. */
  lemma ActiveExists(names: seq<string>, up: seq<bool>, s: Link)
    requires |up| == |names|
    ensures var r := Update(names, up, s);
            && (r.active.Some? <==> exists n :: IsUp(names, up, n))
            && (r.active.Some? ==> IsUp(names, up, r.active.value))
  {
    var c := Connections(names, up);
    assert forall n :: n in c <==> IsUp(names, up, n);
    assert c != [] ==> c[0] in c;
  }

  /** A different one is secondary exactly when two are connected. */
  lemma SecondaryExists(names: seq<string>, up: seq<bool>, s: Link)
    requires |up| == |names|
    ensures var r := Update(names, up, s);
            && (r.secondary.Some? <==> exists m, n :: m != n && IsUp(names, up, m) && IsUp(names, up, n))
            && (r.secondary.Some? ==> IsUp(names, up, r.secondary.value) && r.secondary != r.active)
  {
    ActiveExists(names, up, s);
    var c := Connections(names, up);
    assert forall n :: n in c <==> IsUp(names, up, n);
    var r := Update(names, up, s);
    var others := Without(c, r.active);
    assert others != [] ==> others[0] in others;
    assert r.secondary.Some? <==> others != [];
    if m, n :| m != n && IsUp(names, up, m) && IsUp(names, up, n) {
      assert m in others || n in others;
    }
    if others != [] {
      assert IsUp(names, up, others[0]) && IsUp(names, up, r.active.value) && others[0] != r.active.value;
    }
  }

  /** No connected channel comes before n. */
  ghost predicate IsBest(names: seq<string>, up: seq<bool>, n: string)
    requires |up| == |names|
  {
    exists i :: 0 <= i < |names| && names[i] == n && up[i] && forall j | 0 <= j < i :: !up[j]
  }

  /** Of the connected channels other than one, none comes before n. */
  ghost predicate IsNextBest(names: seq<string>, up: seq<bool>, other: Option<string>, n: string)
    requires |up| == |names|
  {
    exists i :: 0 <= i < |names| && names[i] == n && up[i] && other != Some(n)
                && forall j | 0 <= j < i :: up[j] ==> other == Some(names[j])
  }

  lemma {:induction false} FirstOtherIsNextBest(names: seq<string>, up: seq<bool>, other: Option<string>)
    requires |up| == |names|
    ensures var c := Without(Connections(names, up), other);
            c != [] ==> IsNextBest(names, up, other, c[0])
  {
    if names == [] {
    } else {
      var first := if up[0] then [names[0]] else [];
      var c := Without(Connections(names, up), other);
      assert first + Connections(names[1..], up[1..]) == Connections(names, up);
      FirstOtherIsNextBest(names[1..], up[1..], other);
      if c != [] {
        if up[0] && other != Some(names[0]) {
          assert names[0] == c[0] && up[0];
        } else {
          assert Connections(names, up)[|first|..] == Connections(names[1..], up[1..]);
          var i :| 0 <= i < |names[1..]| && names[1..][i] == c[0] && up[1..][i]
                   && forall j | 0 <= j < i :: up[1..][j] ==> other == Some(names[1..][j]);
          assert names[i + 1] == c[0] && up[i + 1];
          forall j | 0 <= j < i + 1
            ensures up[j] ==> other == Some(names[j])
          {
            if j > 0 {
              assert up[1..][j - 1] == up[j] && names[1..][j - 1] == names[j];
            }
          }
        }
      }
    }
  }

  lemma {:induction false} FirstIsBest(names: seq<string>, up: seq<bool>)
    requires |up| == |names|
    ensures var c := Connections(names, up);
            c != [] ==> IsBest(names, up, c[0])
  {
    if names != [] && !up[0] && Connections(names, up) != [] {
      FirstIsBest(names[1..], up[1..]);
      var n := Connections(names, up)[0];
      var i :| 0 <= i < |names[1..]| && names[1..][i] == n && up[1..][i] && forall j | 0 <= j < i :: !up[1..][j];
      assert names[i + 1] == n && up[i + 1];
      forall j | 0 <= j < i + 1
        ensures !up[j]
      {
        if j > 0 {
          assert up[1..][j - 1] == up[j];
        }
      }
    }
  }

  /** Sticky roles: without a connected forced channel, the active one changes only when it has gone, and then to the best. */
  lemma ActiveIsSticky(names: seq<string>, up: seq<bool>, s: Link)
    requires |up| == |names|
    requires s.forced.Some? ==> !IsUp(names, up, s.forced.value)
    ensures var r := Update(names, up, s);
            && (s.active.Some? && IsUp(names, up, s.active.value) ==> r.active == s.active)
            && (r.active != s.active && r.active.Some? ==>
                  IsBest(names, up, r.active.value) && (s.active.Some? ==> !IsUp(names, up, s.active.value)))
  {
    var c := Connections(names, up);
    assert forall n :: n in c <==> IsUp(names, up, n);
    FirstIsBest(names, up);
  }

  /** A forced channel takes over as soon as it is connected, and only then. */
  lemma ForcedTakesOver(names: seq<string>, up: seq<bool>, s: Link)
    requires |up| == |names| && s.forced.Some? && IsUp(names, up, s.forced.value)
    ensures Update(names, up, s).active == s.forced
  {
    assert s.forced.value in Connections(names, up);
  }

  /** The secondary changes only when it has gone or has become the active channel, and then to the best of the others. */
  lemma SecondaryIsSticky(names: seq<string>, up: seq<bool>, s: Link)
    requires |up| == |names|
    ensures var r := Update(names, up, s);
            && (s.secondary.Some? && IsUp(names, up, s.secondary.value) && r.secondary != s.secondary ==>
                  r.active == s.secondary)
            && (r.secondary != s.secondary && r.secondary.Some? ==>
                  IsNextBest(names, up, r.active, r.secondary.value))
  {
    if s.secondary.Some? && IsUp(names, up, s.secondary.value) {
      assert s.secondary.value in Connections(names, up);
    }
    FirstOtherIsNextBest(names, up, Update(names, up, s).active);
  }

  /** If nothing changes between the two looks, exactly the chosen channels carry the two labels. */
  lemma LabelsAreUnique(names: seq<string>, up: seq<bool>, s: Link, i: nat, j: nat)
    requires |up| == |names| && Distinct(names) && i < |names| && j < |names|
    ensures var r := Update(names, up, s);
            && (RoleOf(names[i], up[i], r) == RoleOf(names[j], up[j], r) == Active ==> i == j)
            && (RoleOf(names[i], up[i], r) == RoleOf(names[j], up[j], r) == Secondary ==> i == j)
            && (up[i] ==> exists k :: 0 <= k < |names| && RoleOf(names[k], up[k], r) == Active)
            && (up[i] && up[j] && i != j ==> exists k :: 0 <= k < |names| && RoleOf(names[k], up[k], r) == Secondary)
            && (RoleOf(names[i], up[i], r) == Down <==> !up[i])
            && (RoleOf(names[i], up[i], r) == Active ==> r.active == Some(names[i]))
            && (RoleOf(names[i], up[i], r) == Secondary ==> r.secondary == Some(names[i]))
  {
    ActiveExists(names, up, s);
    if up[i] && up[j] && i != j {
      SecondaryIsLabelled(names, up, s, i, j);
    }
    if up[i] {
      assert IsUp(names, up, names[i]);
      var r := Update(names, up, s);
      var k :| 0 <= k < |names| && names[k] == r.active.value && up[k];
      assert RoleOf(names[k], up[k], r) == Active;
    }
  }

  lemma SecondaryIsLabelled(names: seq<string>, up: seq<bool>, s: Link, i: nat, j: nat)
    requires |up| == |names| && Distinct(names) && i < |names| && j < |names| && i != j && up[i] && up[j]
    ensures exists k :: 0 <= k < |names| && RoleOf(names[k], up[k], Update(names, up, s)) == Secondary
  {
    hide Update;
    SecondaryExists(names, up, s);
    assert IsUp(names, up, names[i]) && IsUp(names, up, names[j]) && names[i] != names[j];
    var r := Update(names, up, s);
    var k :| 0 <= k < |names| && names[k] == r.secondary.value && up[k];
    assert RoleOf(names[k], up[k], r) == Secondary;
  }

  // ------------------------------------------------------------------ whole runs

  datatype Input = Look(up: seq<bool>) | Pin(name: Option<string>)

  ghost predicate Fitting(names: seq<string>, inputs: seq<Input>) {
    forall i | 0 <= i < |inputs| && inputs[i].Look? :: |inputs[i].up| == |names|
  }

  datatype History = History(state: Link, calls: seq<Callback>)

  ghost function RunOf(names: seq<string>, inputs: seq<Input>): History
    requires Fitting(names, inputs)
  {
    if inputs == [] then History(FRESH, [])
    else
      var h := RunOf(names, inputs[..|inputs| - 1]);
      match inputs[|inputs| - 1]
      case Pin(name) => History(Force(names, name, h.state), h.calls)
      case Look(up) =>
        var s := Update(names, up, h.state);
        History(s, h.calls + match Report(h.state, s) case None => [] case Some(c) => [c])
  }

  /** connected (lost restored)*, or a prefix of it. */
  ghost predicate Alternates(calls: seq<Callback>) {
    forall i | 0 <= i < |calls| :: calls[i] == if i == 0 then Connected else if i % 2 == 1 then Lost else Restored
  }

  /** The callbacks alternate, and their number says whether the link is up. */
  ghost predicate Told(s: Link, calls: seq<Callback>) {
    && Alternates(calls)
    && s.everUp == (calls != [])
    && s.active.Some? == (|calls| % 2 == 1)
    && s.lostLatched == (calls != [] && |calls| % 2 == 0)
  }

  lemma LookTells(names: seq<string>, up: seq<bool>, s: Link, calls: seq<Callback>)
    requires |up| == |names| && Told(s, calls)
    ensures var r := Update(names, up, s);
            Told(r, calls + match Report(s, r) case None => [] case Some(c) => [c])
  {
    hide Connections;
  }

  lemma {:induction false} CallbacksAlternate(names: seq<string>, inputs: seq<Input>)
    requires Fitting(names, inputs)
    ensures Told(RunOf(names, inputs).state, RunOf(names, inputs).calls)
    decreases |inputs|
  {
    hide Update, Report, Told, Force;
    if inputs == [] {
      FreshIsTold();
    } else {
      var h := RunOf(names, inputs[..|inputs| - 1]);
      CallbacksAlternate(names, inputs[..|inputs| - 1]);
      match inputs[|inputs| - 1] {
        case Pin(name) => PinTellsNothing(names, name, h.state, h.calls);
        case Look(up) => LookTells(names, up, h.state, h.calls);
      }
    }
  }

  lemma FreshIsTold()
    ensures Told(FRESH, [])
  {
  }

  lemma PinTellsNothing(names: seq<string>, name: Option<string>, s: Link, calls: seq<Callback>)
    requires Told(s, calls)
    ensures Told(Force(names, name, s), calls)
  {
  }

  /** The override last asked for in a run. */
  function LastPin(inputs: seq<Input>): Option<string> {
    if inputs == [] then None
    else
      match inputs[|inputs| - 1]
      case Pin(name) => name
      case Look(_) => LastPin(inputs[..|inputs| - 1])
  }

  /**
   Until the next override, every look at which a channel forced by its name is connected makes it the active one; asking
   for no channel or an unknown one goes back to automatic selection, which never leaves a connected channel.
   */
  lemma OverrideRules(names: seq<string>, inputs: seq<Input>)
    requires Fitting(names, inputs) && inputs != [] && inputs[|inputs| - 1].Look?
    ensures var up := inputs[|inputs| - 1].up;
            var before := RunOf(names, inputs[..|inputs| - 1]).state;
            var active := RunOf(names, inputs).state.active;
            var pin := LastPin(inputs);
            && (pin.Some? && pin.value in names && IsUp(names, up, pin.value) ==> active == pin)
            && (!(pin.Some? && pin.value in names && IsUp(names, up, pin.value)) ==>
                  before.active.Some? && IsUp(names, up, before.active.value) ==> active == before.active)
  {
    var n := |inputs| - 1;
    PinIsKept(names, inputs[..n]);
    hide Update, RunOf;
    RunOfLook(names, inputs);
    var s := RunOf(names, inputs[..n]).state;
    var up := inputs[n].up;
    if s.forced.Some? && IsUp(names, up, s.forced.value) {
      ForcedTakesOver(names, up, s);
    } else {
      ActiveIsSticky(names, up, s);
    }
  }

  lemma RunOfLook(names: seq<string>, inputs: seq<Input>)
    requires Fitting(names, inputs) && inputs != [] && inputs[|inputs| - 1].Look?
    ensures RunOf(names, inputs).state
         == Update(names, inputs[|inputs| - 1].up, RunOf(names, inputs[..|inputs| - 1]).state)
  {
  }

  lemma {:induction false} PinIsKept(names: seq<string>, inputs: seq<Input>)
    requires Fitting(names, inputs)
    ensures var pin := LastPin(inputs);
            RunOf(names, inputs).state.forced == if pin.Some? && pin.value in names then pin else None
    decreases |inputs|
  {
    hide Connections, Report;
    if inputs == [] {
    } else {
      PinIsKept(names, inputs[..|inputs| - 1]);
    }
  }
}
