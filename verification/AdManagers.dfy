/** The ad manager as the program keeps it: dictionaries and sets updated in place, and a play log. */
module AdManagers {
  import opened Wrappers
  import PL = PlayLogs
  import opened AdPlays

  class AdManager {
    const log: PL.PlayLog
    var slots: map<Placement, Slot>
    var slotsDone: set<Key>
    var slotsChecked: set<Key>
    var proofHours: set<Hour>
    var nextToken: nat   // `object()` makes a token that was never used before

    // What other threads hold, and the history.
    ghost var shots: seq<Shot>
    ghost var freed: seq<Freed>
    ghost var plays: seq<Play>
    ghost var born: nat
    ghost var clock: nat

    /** A new process on the log of the ones before. */
    constructor (log: PL.PlayLog, nextToken: nat, ghost before: Player)
      requires before.log == PL.Records(log.table) && nextToken == |before.plays|
      ensures this.log == log && Valid() && State() == Next(before, Restart)
    {
      this.log := log;
      slots, slotsDone, slotsChecked, proofHours := map[], {}, {}, {};
      this.nextToken := nextToken;
      shots, freed, plays, born, clock := [], [], before.plays, |before.plays|, before.clock + 1;
    }

    /** Tokens are play numbers. */
    ghost predicate Valid()
      reads this
    {
      nextToken == |plays|
    }

    ghost function State(): Player
      reads this, log
    {
      Player(slots, Book(slotsDone, slotsChecked), proofHours, shots, freed, PL.Records(log.table), plays, born, clock)
    }

    function SlotAt(p: Placement): Slot
      reads this
    {
      if p in slots then slots[p] else IDLE
    }

    /** `_slot_done` */
    method IsSlotDone(ad: Ad) returns (done: bool)
      modifies this`slotsDone, this`slotsChecked
      ensures (done, Book(slotsDone, slotsChecked))
           == SlotDone(Book(old(slotsDone), old(slotsChecked)), PL.Records(log.table), ad)
    {
      if !OneShot(ad) {
        return false;
      }
      var key := KeyOf(ad);
      if key in slotsDone {
        return true;
      }
      if key !in slotsChecked {
        slotsChecked := slotsChecked + {key};
        if ad.slotStart.Some? {
          var played := log.Played(ad.id, ad.slotStart.value);
          if played {
            slotsDone := slotsDone + {key};
            return true;
          }
        }
      }
      done := false;
    }

    method DueNow(queue: seq<Ad>) returns (due: seq<Ad>)
      modifies this`slotsDone, this`slotsChecked
      ensures (due, Book(slotsDone, slotsChecked))
           == DueIn(Book(old(slotsDone), old(slotsChecked)), PL.Records(log.table), queue)
    {
      hide SlotDone;
      due := [];
      var i := 0;
      assert queue[0..] == queue;
      assert [] + DueIn(Book(slotsDone, slotsChecked), PL.Records(log.table), queue).0
          == DueIn(Book(slotsDone, slotsChecked), PL.Records(log.table), queue).0;
      while i < |queue|
        invariant 0 <= i <= |queue|
        invariant var (rest, b) := DueIn(Book(slotsDone, slotsChecked), PL.Records(log.table), queue[i..]);
                  (due + rest, b) == DueIn(Book(old(slotsDone), old(slotsChecked)), PL.Records(log.table), queue)
      {
        assert queue[i..][0] == queue[i] && queue[i..][1..] == queue[i + 1..];
        var done := IsSlotDone(queue[i]);
        if !done {
          ghost var rest := DueIn(Book(slotsDone, slotsChecked), PL.Records(log.table), queue[i + 1..]).0;
          assert (due + [queue[i]]) + rest == due + ([queue[i]] + rest);
          due := due + [queue[i]];
        }
        i := i + 1;
      }
      assert due + [] == due;
    }

    /** `_start`, up to the call of the display backend, which gets the token. */
    method Start(p: Placement, ad: Ad, index: nat, wall: int, mono: int) returns (token: nat)
      requires Valid()
      modifies this`slots, this`slotsDone, this`nextToken, this`plays
      ensures Valid() && State() == Started(old(State()), p, ad, index, wall, mono) && token == old(|plays|)
    {
      token := nextToken;
      nextToken := nextToken + 1;
      if OneShot(ad) {
        slotsDone := slotsDone + {KeyOf(ad)};
      }
      var showing := Showing(token, ad, wall, mono + PlayTime(ad, wall) + WATCHDOG_EXTRA, None);
      slots := slots[p := SlotAt(p).(showing := Some(showing), index := index)];
      plays := plays + [Play(ad, p, wall, clock, None)];
    }

    /** The locked part of `_finish`. */
    method Release(p: Placement, token: nat, status: PL.Status, mono: int) returns (f: Option<Freed>)
      modifies this`slots, this`freed, this`plays
      ensures State() == Finished(old(State()), p, token, status, mono) && |plays| == old(|plays|)
      ensures f.Some? <==> OnScreen(old(State()), p, token)
      ensures f.Some? ==> freed == old(freed) + [f.value]
    {
      var slot := SlotAt(p);
      if slot.showing.None? || slot.showing.value.token != token {
        return None;
      }
      var x := slot.showing.value;
      slots := slots[p := slot.(showing := None, idleUntil := mono + Pause(status, x.item.mode))];
      f := Some(Freed(token, x.item, p, status, x.started, x.proof));
      freed := freed + [f.value];
      plays := Over(plays, token, clock);
    }

    /** The log row of a freed play; the i-th of those that other threads still have to write. */
    method Write(f: Freed, ended: int, ghost i: nat)
      requires i < |freed| && freed[i] == f
      modifies this`freed, this`clock, log
      ensures State() == Next(old(State()), WriteRow(i, ended)) && plays == old(plays)
    {
      var id := log.AddRow(RecordOf(f, ended));
      assert PL.Records(log.table) == old(PL.Records(log.table)) + [RecordOf(f, ended)];
      freed := Without(freed, i);
      clock := clock + 1;
    }

    /** `_finish`: at most one row, and none for a play that is over already. */
    method FinishPlay(p: Placement, token: nat, status: PL.Status, mono: int, ended: int)
      requires Valid()
      modifies this, log
      ensures Valid()
      ensures var s1 := Next(old(State()), Finish(p, token, status, mono));
              State() == if OnScreen(old(State()), p, token) then Next(s1, WriteRow(|s1.freed| - 1, ended)) else s1
    {
      var f := Release(p, token, status, mono);
      clock := clock + 1;
      if f.Some? {
        Write(f.value, ended, |freed| - 1);
      }
    }

    /** One placement's part of `tick`. A play the watchdog ends still has to be written. */
    method ServePlacement(p: Placement, queue: seq<Ad>, wall: int, mono: int)
        returns (started: Option<nat>, expired: Option<Freed>)
      requires Valid()
      modifies this
      ensures Valid() && State() == Next(old(State()), Serve(p, queue, wall, mono))
      ensures started.Some? <==> |plays| > old(|plays|)
      ensures started.Some? ==> started.value == old(|plays|)
      ensures freed == old(freed) + if expired.Some? then [expired.value] else []
    {
      hide PlayTime, Pause, DueIn;
      started, expired := None, None;
      slots := slots[p := SlotAt(p)];
      var slot := slots[p];
      if slot.showing.Some? {
        if mono > slot.showing.value.deadline {
          expired := Release(p, slot.showing.value.token, PL.Error, mono);
        }
      } else if mono >= slot.idleUntil {
        var due := DueNow(queue);
        if due != [] {
          var token := Start(p, due[slot.index % |due|], (slot.index + 1) % |due|, wall, mono);
          started := Some(token);
        }
      }
      clock := clock + 1;
    }

    /** `tick`: every placement in turn; a play that the watchdog ends gets its row at once. */
    method Tick(groups: seq<(Placement, seq<Ad>)>, wall: int, monos: seq<int>, ended: int)
        returns (started: seq<(Placement, nat)>)
      requires Valid() && |monos| == |groups|
      modifies this, log
      ensures Valid()
      ensures State() == Ticked(old(State()), groups, wall, monos, ended)
    {
      hide Acted;
      started := [];
      var i := 0;
      assert groups[0..] == groups && monos[0..] == monos;
      while i < |groups|
        invariant 0 <= i <= |groups| && Valid()
        invariant Ticked(State(), groups[i..], wall, monos[i..], ended) == Ticked(old(State()), groups, wall, monos, ended)
      {
        assert groups[i..][0] == groups[i] && groups[i..][1..] == groups[i + 1..];
        assert monos[i..][0] == monos[i] && monos[i..][1..] == monos[i + 1..];
        var token, expired := ServePlacement(groups[i].0, groups[i].1, wall, monos[i]);
        if expired.Some? {
          Write(expired.value, ended, |freed| - 1);
        }
        if token.Some? {
          started := started + [(groups[i].0, token.value)];
        }
        i := i + 1;
      }
    }

    static ghost function Ticked(s: Player, groups: seq<(Placement, seq<Ad>)>, wall: int, monos: seq<int>, ended: int)
      : Player
      requires |monos| == |groups|
      decreases |groups|
    {
      if groups == [] then s
      else
        var s1 := Next(s, Serve(groups[0].0, groups[0].1, wall, monos[0]));
        var s2 := if |s1.freed| > |s.freed| then Next(s1, WriteRow(|s1.freed| - 1, ended)) else s1;
        Ticked(s2, groups[1..], wall, monos[1..], ended)
    }

    /** So a tick is a run of steps, and everything that holds of all runs holds of it. */
    static lemma {:induction false} TickIsARun(
        s: Player, groups: seq<(Placement, seq<Ad>)>, wall: int, monos: seq<int>, ended: int) returns (steps: seq<Step>)
      requires |monos| == |groups|
      ensures Ticked(s, groups, wall, monos, ended) == AfterSteps(s, steps) && Restart !in steps
      decreases |groups|
    {
      hide Acted;
      if groups == [] {
        steps := [];
      } else {
        var serve := Serve(groups[0].0, groups[0].1, wall, monos[0]);
        var s1 := Next(s, serve);
        if |s1.freed| > |s.freed| {
          var write := WriteRow(|s1.freed| - 1, ended);
          var rest := TickIsARun(Next(s1, write), groups[1..], wall, monos[1..], ended);
          var later := [write] + rest;
          steps := [serve] + later;
          assert later[1..] == rest && steps[1..] == later;
        } else {
          var rest := TickIsARun(s1, groups[1..], wall, monos[1..], ended);
          steps := [serve] + rest;
          assert steps[1..] == rest;
        }
      }
    }

    // ------------------------------------------------------------------- screenshots

    /** The first locked region of `_take_proof`: is there anything to take a picture of? */
    method BeginProof(p: Placement, token: nat, hour: Hour) returns (go: bool)
      modifies this`shots, this`clock
      ensures State() == Next(old(State()), CheckShot(p, token, hour))
      ensures go ==> shots == old(shots) + [Shot(p, token, hour, None)]
    {
      var slot := SlotAt(p);
      go := slot.showing.Some? && slot.showing.value.token == token && hour !in proofHours;
      if go {
        shots := shots + [Shot(p, token, hour, None)];
      }
      clock := clock + 1;
    }

    /** The last one: the picture is kept only if its play is still on screen. */
    method AttachProof(p: Placement, token: nat, hour: Hour, taken: nat, ghost i: nat) returns (kept: bool)
      requires i < |shots| && shots[i] == Shot(p, token, hour, Some(taken))
      modifies this`slots, this`proofHours, this`shots, this`clock
      ensures State() == Next(old(State()), Attach(i)) && kept == OnScreen(old(State()), p, token)
    {
      var slot := SlotAt(p);
      kept := slot.showing.Some? && slot.showing.value.token == token;
      if kept {
        slots := slots[p := slot.(showing := Some(slot.showing.value.(proof := Some(taken))))];
        proofHours := proofHours + {hour};
      }
      shots := Without(shots, i);
      clock := clock + 1;
    }
  }
}
