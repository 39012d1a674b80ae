/** What a schedule may rely on: one showing per booked slot, also after a restart; a fair turn for every repeat ad. */
module AdTurns {
  import opened Wrappers
  import PL = PlayLogs
  import opened AdPlays

  // --------------------------------------------------------------------- due ads

  /** A look at the queue settles exactly the slots it looks at for the first time. */
  lemma {:induction false} DueIsNotDone(book: Book, log: seq<PL.Record>, queue: seq<Ad>)
    ensures var (due, b) := DueIn(book, log, queue);
            && book.done <= b.done && book.checked <= b.checked
            && (forall k | k in book.checked :: k in b.done <==> k in book.done)
            && (forall i | 0 <= i < |due| :: due[i] in queue && (OneShot(due[i]) ==> KeyOf(due[i]) !in b.done))
    decreases |queue|
  {
    if queue == [] {
    } else {
      var (done, b) := SlotDone(book, log, queue[0]);
      DueIsNotDone(b, log, queue[1..]);
      var (rest, _) := DueIn(b, log, queue[1..]);
      assert forall i | 0 <= i < |rest| :: rest[i] in queue[1..];
    }
  }

  /** The ads of a queue that are due as long as nothing is shown for the first time. */
  function Repeating(queue: seq<Ad>): seq<Ad> {
    if queue == [] then []
    else (if OneShot(queue[0]) then [] else [queue[0]]) + Repeating(queue[1..])
  }

  /** When every once/timed ad of the queue has had its slot, the others are what is due, and a look settles nothing. */
  lemma {:induction false} SettledQueueIsDue(book: Book, log: seq<PL.Record>, queue: seq<Ad>)
    requires forall i | 0 <= i < |queue| && OneShot(queue[i]) :: KeyOf(queue[i]) in book.done
    ensures DueIn(book, log, queue) == (Repeating(queue), book)
    decreases |queue|
  {
    if queue == [] {
    } else {
      SettledQueueIsDue(book, log, queue[1..]);
      assert [] + Repeating(queue[1..]) == Repeating(queue[1..]);
    }
  }

  // ---------------------------------------------------------------- once per process

  /** Once/timed ads of this process: each slot at most once, and none of these slots is due again. */
  ghost predicate SlotsOnce(s: Player) {
    && (forall k | s.born <= k < |s.plays| && OneShot(s.plays[k].ad) :: KeyOf(s.plays[k].ad) in s.book.done)
    && forall j, k | s.born <= j < k < |s.plays| && OneShot(s.plays[j].ad) && OneShot(s.plays[k].ad) ::
         KeyOf(s.plays[j].ad) != KeyOf(s.plays[k].ad)
  }

  /** How a step changes the list of plays: by at most one start, of an ad that was due. */
  ghost predicate StartedOne(s: Player, r: Player, step: Step) {
    && step.Serve? && |r.plays| == |s.plays| + 1
    && (forall k | 0 <= k < |s.plays| :: r.plays[k] == s.plays[k])
    && var due := DueIn(s.book, s.log, step.queue).0;
       var ad := r.plays[|s.plays|].ad;
       && r.plays[|s.plays|].placement == step.where
       && SlotOf(s, step.where).showing.None? && due != []
       && ad == due[SlotOf(s, step.where).index % |due|]
       && SlotOf(r, step.where).index == (SlotOf(s, step.where).index + 1) % |due|
       && r.book.done == DueIn(s.book, s.log, step.queue).1.done + (if OneShot(ad) then {KeyOf(ad)} else {})
       && r.book.checked == DueIn(s.book, s.log, step.queue).1.checked
  }

  ghost predicate StartedNone(s: Player, r: Player, step: Step) {
    && |r.plays| == |s.plays|
    && (forall k | 0 <= k < |s.plays| :: r.plays[k] == s.plays[k].(until := r.plays[k].until))
    && (r.book == s.book || (step.Serve? && r.book == DueIn(s.book, s.log, step.queue).1))
    && forall p :: SlotOf(r, p).index == SlotOf(s, p).index
  }

  lemma StepStarts(s: Player, step: Step)
    requires step != Restart
    ensures var r := Next(s, step); r.born == s.born && (StartedOne(s, r, step) || StartedNone(s, r, step))
    ensures step.Serve? ==> Next(s, step).log == s.log
  {
    if step.Serve? {
      hide Acted, StartedOne, StartedNone;
      ServeStarts(s, step.where, step.queue, step.wall, step.mono);
    } else {
      hide DueIn, PlayTime, Pause, Served;
    }
  }

  lemma ServeStarts(s: Player, p: Placement, queue: seq<Ad>, wall: int, mono: int)
    ensures var r := Next(s, Serve(p, queue, wall, mono));
            && r.born == s.born && r.log == s.log
            && (StartedOne(s, r, Serve(p, queue, wall, mono)) || StartedNone(s, r, Serve(p, queue, wall, mono)))
  {
    hide DueIn, PlayTime, Pause;
  }

  lemma StepIsOnce(s: Player, step: Step)
    requires SlotsOnce(s)
    ensures SlotsOnce(Next(s, step))
  {
    hide Acted, DueIn;
    if step == Restart {
      RestartForgets(s);
    } else {
      StepStarts(s, step);
      if step.Serve? {
        DueIsNotDone(s.book, s.log, step.queue);
      }
    }
  }

  lemma RestartForgets(s: Player)
    ensures var r := Next(s, Restart);
            r.plays == s.plays && r.born == |s.plays| && r.log == s.log && r.book == Book({}, {})
  {
  }

  /** A once/timed ad starts at most once per slot in a process, whatever callbacks and ticks come. */
  lemma {:induction false} EverySlotPlaysOnce(s: Player, steps: seq<Step>)
    requires SlotsOnce(s)
    ensures SlotsOnce(AfterSteps(s, steps))
    decreases |steps|
  {
    hide SlotsOnce, Next;
    if steps == [] {
    } else {
      StepIsOnce(s, steps[0]);
      EverySlotPlaysOnce(Next(s, steps[0]), steps[1..]);
    }
  }

  // ---------------------------------------------------------------- once over restarts

  /** Every queue gives a slot the same start. */
  ghost predicate Scheduled(steps: seq<Step>, startOf: Key -> Option<int>) {
    forall i | 0 <= i < |steps| :: ScheduledStep(steps[i], startOf)
  }

  ghost predicate ScheduledStep(step: Step, startOf: Key -> Option<int>) {
    step.Serve? ==> forall j | 0 <= j < |step.queue| && OneShot(step.queue[j]) ::
      step.queue[j].slotStart == startOf(KeyOf(step.queue[j]))
  }

  /** Row r records a showing of the slot `key`, begun in its time. */
  ghost predicate Shows(s: Player, r: PL.Record, key: Key, start: Option<int>) {
    && r.play < |s.plays| && OneShot(s.plays[r.play].ad) && KeyOf(s.plays[r.play].ad) == key
    && r.ad == key.0 && start.Some? && r.started >= start.value
  }

  /** Slots whose showing is in the log are over as soon as they are looked at. */
  ghost predicate LogIsHeeded(s: Player, startOf: Key -> Option<int>) {
    forall i, key | 0 <= i < |s.log| && Shows(s, s.log[i], key, startOf(key)) && key in s.book.checked ::
      key in s.book.done
  }

  lemma {:induction false} FirstLookAsksTheLog(book: Book, log: seq<PL.Record>, queue: seq<Ad>, key: Key, start: int)
    requires PL.PlayedSince(log, key.0, start) && (key in book.checked ==> key in book.done)
    requires forall j | 0 <= j < |queue| && OneShot(queue[j]) && KeyOf(queue[j]) == key :: queue[j].slotStart == Some(start)
    ensures var (due, b) := DueIn(book, log, queue);
            && (key in b.checked ==> key in b.done)
            && forall i | 0 <= i < |due| && OneShot(due[i]) :: KeyOf(due[i]) != key
    decreases |queue|
  {
    hide PL.PlayedSince;
    if queue == [] {
    } else {
      var (done, b) := SlotDone(book, log, queue[0]);
      FirstLookAsksTheLog(b, log, queue[1..], key, start);
    }
  }

  lemma LoggedIsPlayed(log: seq<PL.Record>, i: nat, key: Key, start: int)
    requires i < |log| && log[i].ad == key.0 && log[i].started >= start
    ensures PL.PlayedSince(log, key.0, start)
  {
  }

  lemma StepHeeds(s: Player, step: Step, startOf: Key -> Option<int>)
    requires Accounted(s) && SlotsOnce(s) && LogIsHeeded(s, startOf) && ScheduledStep(step, startOf)
    ensures LogIsHeeded(Next(s, step), startOf)
  {
    hide DueIn, PlayTime, Pause, Accounted, Acted, SlotsOnce;
    var r := Next(s, step);
    if step != Restart {
      StepStarts(s, step);
      LogGrows(s, step);
    } else {
      RestartForgets(s);
    }
    forall i, key | 0 <= i < |r.log| && Shows(r, r.log[i], key, startOf(key)) && key in r.book.checked
      ensures key in r.book.done
    {
      if i < |s.log| {
        OldRowIsHeeded(s, step, startOf, i, key);
      } else {
        NewRowIsHeeded(s, step, r.log[i], key);
      }
    }
  }

  lemma OldRowIsHeeded(s: Player, step: Step, startOf: Key -> Option<int>, i: nat, key: Key)
    requires LogIsHeeded(s, startOf) && ScheduledStep(step, startOf) && i < |s.log| && step != Restart
    requires PlaysKnown(s) && Shows(Next(s, step), s.log[i], key, startOf(key))
    ensures var b := Next(s, step).book; key in b.checked ==> key in b.done
  {
    hide DueIn, Acted;
    StepStarts(s, step);
    assert s.log[i].play < |s.plays|;
    assert Shows(s, s.log[i], key, startOf(key));
    if step.Serve? {
      var start := startOf(key).value;
      LoggedIsPlayed(s.log, i, key, start);
      FirstLookAsksTheLog(s.book, s.log, step.queue, key, start);
    }
  }

  /** Logged plays have been started. */
  ghost predicate PlaysKnown(s: Player) {
    forall i | 0 <= i < |s.log| :: s.log[i].play < |s.plays|
  }

  lemma NewRowIsHeeded(s: Player, step: Step, row: PL.Record, key: Key)
    requires Accounted(s) && SlotsOnce(s) && step.WriteRow? && step.row < |s.freed|
    requires row == RecordOf(s.freed[step.row], step.ended) && row.play < |s.plays|
    requires OneShot(s.plays[row.play].ad) && KeyOf(s.plays[row.play].ad) == key
    ensures key in Next(s, step).book.done
  {
    assert FreedOk(s, s.freed[step.row]);
  }

  lemma LogGrows(s: Player, step: Step)
    requires Accounted(s) && step != Restart
    ensures var r := Next(s, step);
            && PlaysKnown(s)
            && (r.log == s.log
                || (step.WriteRow? && step.row < |s.freed|
                    && r.log == s.log + [RecordOf(s.freed[step.row], step.ended)] && r.book == s.book
                    && r.plays == s.plays))
  {
    hide DueIn, PlayTime, Pause, TallyOk, SlotOk;
    forall i | 0 <= i < |s.log| ensures s.log[i].play < |s.plays| { assert LoggedOk(s, s.log[i]); }
  }

  /** All that the slots rely on. */
  ghost predicate Trusted(s: Player, startOf: Key -> Option<int>) {
    Accounted(s) && SlotsOnce(s) && LogIsHeeded(s, startOf)
  }

  lemma {:induction false} RunsAreTrusted(s: Player, steps: seq<Step>, startOf: Key -> Option<int>)
    requires Trusted(s, startOf) && Scheduled(steps, startOf)
    ensures Trusted(AfterSteps(s, steps), startOf)
    decreases |steps|
  {
    hide Accounted, SlotsOnce, LogIsHeeded, ScheduledStep, Next;
    if steps == [] {
    } else {
      assert ScheduledStep(steps[0], startOf);
      StepIsAccounted(s, steps[0]);
      StepIsOnce(s, steps[0]);
      StepHeeds(s, steps[0], startOf);
      RunsAreTrusted(Next(s, steps[0]), steps[1..], startOf);
    }
  }

  lemma FreshIsTrusted(startOf: Key -> Option<int>)
    ensures Trusted(FRESH, startOf)
  {
    FreshIsAccounted();
  }

  /** No start of this slot among the plays from `first` on. */
  ghost predicate NoStartFrom(s: Player, first: nat, key: Key) {
    forall k | first <= k < |s.plays| && OneShot(s.plays[k].ad) :: KeyOf(s.plays[k].ad) != key
  }

  lemma StepShowsNoMore(s: Player, step: Step, startOf: Key -> Option<int>, i: nat, key: Key, first: nat)
    requires Trusted(s, startOf) && ScheduledStep(step, startOf) && i < |s.log| && first <= |s.plays|
    requires Shows(s, s.log[i], key, startOf(key)) && NoStartFrom(s, first, key)
    ensures var r := Next(s, step);
            && |s.log| <= |r.log| && r.log[i] == s.log[i] && Shows(r, r.log[i], key, startOf(key))
            && |s.plays| <= |r.plays| && NoStartFrom(r, first, key)
  {
    hide DueIn, PlayTime, Pause, Accounted, Acted, SlotsOnce;
    if step == Restart {
      RestartForgets(s);
    } else {
      StepStarts(s, step);
      LogGrows(s, step);
      if step.Serve? {
        LoggedIsPlayed(s.log, i, key, startOf(key).value);
        FirstLookAsksTheLog(s.book, s.log, step.queue, key, startOf(key).value);
      }
    }
  }

  /**
   A slot with a start, whose showing since then was logged, is never shown again: not in this process, and not after any
   restart.
   */
  lemma {:induction false} LoggedSlotIsNotShownAgain(
      s: Player, steps: seq<Step>, startOf: Key -> Option<int>, i: nat, key: Key, first: nat)
    requires Trusted(s, startOf) && Scheduled(steps, startOf) && i < |s.log| && first <= |s.plays|
    requires Shows(s, s.log[i], key, startOf(key)) && NoStartFrom(s, first, key)
    ensures NoStartFrom(AfterSteps(s, steps), first, key)
    decreases |steps|
  {
    hide Trusted, ScheduledStep, Next, NoStartFrom, Shows;
    if steps == [] {
    } else {
      assert ScheduledStep(steps[0], startOf);
      assert Scheduled([steps[0]], startOf);
      StepShowsNoMore(s, steps[0], startOf, i, key, first);
      RunsAreTrusted(s, [steps[0]], startOf);
      assert AfterSteps(s, [steps[0]]) == Next(s, steps[0]) by { assert [steps[0]][1..] == []; }
      LoggedSlotIsNotShownAgain(Next(s, steps[0]), steps[1..], startOf, i, key, first);
    }
  }

  // ------------------------------------------------- a slot skipped for another one

  /** An ad was shown once and logged, then the player restarted. */
  function ShownOnce(ad: Ad, p: Placement, wall: int, ended: int): Player {
    FRESH.(log := [PL.Record(0, ad.id, p, PL.Completed, wall, ended, None)],
           plays := [Play(ad, p, wall, 0, Some(1))], born := 1, clock := 4)
  }

  lemma ShowOnce(ad: Ad, p: Placement, wall: int, ended: int, mono: int)
    requires OneShot(ad) && mono >= 0
    ensures AfterSteps(FRESH, [Serve(p, [ad], wall, mono), Finish(p, 0, PL.Completed, mono), WriteRow(0, ended), Restart])
         == ShownOnce(ad, p, wall, ended)
  {
    FourSteps(FRESH, [Serve(p, [ad], wall, mono), Finish(p, 0, PL.Completed, mono), WriteRow(0, ended), Restart]);
    FirstShowing(ad, p, wall, ended, mono);
  }

  /**
   After a restart the same once/timed ad in the same slot is shown again exactly if its slot has no start, or it was
   shown before that start.
   */
  lemma ShownAgainExactly(ad: Ad, p: Placement, wall: int, ended: int, later: int, mono: int)
    requires OneShot(ad) && mono >= 0
    ensures var s := ShownOnce(ad, p, wall, ended);
            |Next(s, Serve(p, [ad], later, mono)).plays| == 2 <==> ad.slotStart.None? || wall < ad.slotStart.value
  {
    var s := ShownOnce(ad, p, wall, ended);
    FirstLookDecides(s.book, s.log, ad);
    assert [ad][1..] == [];
    assert s.log[0].started == wall && s.log[0].ad == ad.id;
  }

  const LEFT_AD := Ad("a", "left", Some(10), None, 0, Once)
  const RIGHT_AD := Ad("a", "right", Some(10), None, 0, Once)

  /** The log is asked about the ad, not about the slot: a booking that was never shown can pass for shown. */
  lemma AnotherSlotCountsToo(mono: int)
    requires mono >= 0
    ensures var s := ShownOnce(LEFT_AD, "left", 12, 27);
            && AfterSteps(FRESH, [Serve("left", [LEFT_AD], 12, mono), Finish("left", 0, PL.Completed, mono),
                                  WriteRow(0, 27), Restart]) == s
            && Next(s, Serve("right", [RIGHT_AD], 13, mono)).plays == s.plays
  {
    var s := ShownOnce(LEFT_AD, "left", 12, 27);
    ShowOnce(LEFT_AD, "left", 12, 27, mono);
    LoggedIsPlayed(s.log, 0, KeyOf(RIGHT_AD), 10);
    assert [RIGHT_AD][1..] == [];
    assert DueIn(s.book, s.log, [RIGHT_AD]).0 == [];
  }

  lemma FourSteps(s: Player, steps: seq<Step>)
    requires |steps| == 4
    ensures AfterSteps(s, steps) == Next(Next(Next(Next(s, steps[0]), steps[1]), steps[2]), steps[3])
  {
    hide Next;
    Unfold(s, steps);
    Unfold(Next(s, steps[0]), steps[1..]);
    Unfold(Next(Next(s, steps[0]), steps[1]), steps[1..][1..]);
    Unfold(Next(Next(Next(s, steps[0]), steps[1]), steps[2]), steps[1..][1..][1..]);
    assert steps[1..][1..][1..][1..] == [];
  }

  lemma Unfold(s: Player, steps: seq<Step>)
    requires steps != []
    ensures AfterSteps(s, steps) == AfterSteps(Next(s, steps[0]), steps[1..])
  {
  }

  lemma FirstShowing(ad: Ad, p: Placement, wall: int, ended: int, mono: int)
    requires OneShot(ad) && mono >= 0
    ensures var s1 := Next(FRESH, Serve(p, [ad], wall, mono));
            var s2 := Next(s1, Finish(p, 0, PL.Completed, mono));
            Next(Next(s2, WriteRow(0, ended)), Restart) == ShownOnce(ad, p, wall, ended)
  {
    assert [ad][1..] == [];
    assert DueIn(FRESH.book, FRESH.log, [ad]).0 == [ad];
    var s1 := Next(FRESH, Serve(p, [ad], wall, mono));
    var s2 := Next(s1, Finish(p, 0, PL.Completed, mono));
    assert s1.plays == [Play(ad, p, wall, 0, None)];
    assert s2.plays == [Play(ad, p, wall, 0, Some(1))];
    assert s2.freed == [Freed(0, ad, p, PL.Completed, wall, None)];
  }

  /** Exactly when a first look takes a slot for shown: some play of the same ad was logged since the slot began. */
  lemma FirstLookDecides(book: Book, log: seq<PL.Record>, ad: Ad)
    requires OneShot(ad) && KeyOf(ad) !in book.done && KeyOf(ad) !in book.checked
    ensures DueIn(book, log, [ad]).0 == [] <==>
            ad.slotStart.Some? && exists i :: 0 <= i < |log| && log[i].ad == ad.id && log[i].started >= ad.slotStart.value
  {
    assert [ad][1..] == [];
  }

  // --------------------------------------------------------------------- fair turns

  /** The ads started in placement p, from the play number `first` on. */
  function StartsAt(plays: seq<Play>, p: Placement, first: nat): seq<Ad>
    decreases |plays|
  {
    if |plays| <= first then []
    else
      var last := plays[|plays| - 1];
      StartsAt(plays[..|plays| - 1], p, first) + if last.placement == p then [last.ad] else []
  }

  /** In this process, whenever an ad starts in p, the same ads are due there. */
  ghost predicate SameDue(s: Player, steps: seq<Step>, p: Placement, due: seq<Ad>)
    decreases |steps|
  {
    steps != [] ==>
      && steps[0] != Restart && SameDue(Next(s, steps[0]), steps[1..], p, due)
      && (StartsIn(s, steps[0], p) ==> DueIn(s.book, s.log, steps[0].queue).0 == due)
  }

  ghost predicate StartsIn(s: Player, step: Step, p: Placement) {
    step.Serve? && step.where == p && |Next(s, step).plays| > |s.plays|
  }

  /** The ads started so far took their turns, and the index stands at the next one. */
  ghost predicate InTurn(s: Player, p: Placement, due: seq<Ad>, first: nat, start: nat)
    requires due != []
  {
    var shown := StartsAt(s.plays, p, first);
    && (forall m | 0 <= m < |shown| :: shown[m] == due[(start + m) % |due|])
    && SlotOf(s, p).index % |due| == (start + |shown|) % |due|
  }

  lemma {:induction false} StartsDoNotEnd(a: seq<Play>, b: seq<Play>, p: Placement, first: nat)
    requires |a| == |b| && forall k | 0 <= k < |a| :: b[k] == a[k].(until := b[k].until)
    ensures StartsAt(a, p, first) == StartsAt(b, p, first)
    decreases |a|
  {
    if |a| <= first {
    } else {
      StartsDoNotEnd(a[..|a| - 1], b[..|b| - 1], p, first);
    }
  }

  lemma OneTurn(x: nat, y: nat, n: nat)
    requires n > 0 && x % n == y % n
    ensures (x + 1) % n == (y + 1) % n
    ensures (x % n + 1) % n == (x + 1) % n && ((x + 1) % n) % n == (x + 1) % n
  {
    NextTurn(x, n);
    NextTurn(y, n);
    NextTurn(x % n, n);
    SmallMod((x + 1) % n, n);
    SmallMod(x % n, n);
  }

  lemma SmallMod(x: nat, n: nat)
    requires x < n
    ensures x % n == x
  {
  }

  lemma NextTurn(x: nat, n: nat)
    requires n > 0
    ensures (x + 1) % n == if x % n + 1 == n then 0 else x % n + 1
  {
    var q := x / n;
    assert x == n * q + x % n;
    if x % n + 1 == n {
      assert x + 1 == n * (q + 1);
      UniqueRemainder(x + 1, n, q + 1, 0);
    } else {
      UniqueRemainder(x + 1, n, q, x % n + 1);
    }
  }

  lemma UniqueRemainder(x: nat, n: nat, q: nat, r: nat)
    requires r < n && x == n * q + r
    ensures x % n == r
  {
    var d := x / n - q;
    assert x == n * (x / n) + x % n;
    assert n * d == n * (x / n) - n * q;
    Multiples(n, d);
  }

  lemma Multiples(n: nat, d: int)
    ensures (d >= 1 ==> n * d >= n) && (d <= -1 ==> n * d + n <= 0)
  {
    var m: int := n;
    if d >= 1 {
      assert m * d == m + m * (d - 1);
    } else if d <= -1 {
      assert m * d == -m - m * (-d - 1);
    }
  }

  lemma StepKeepsTurns(s: Player, step: Step, p: Placement, due: seq<Ad>, first: nat, start: nat)
    requires due != [] && step != Restart && (StartsIn(s, step, p) ==> DueIn(s.book, s.log, step.queue).0 == due)
    requires first <= |s.plays| && InTurn(s, p, due, first, start)
    ensures InTurn(Next(s, step), p, due, first, start) && first <= |Next(s, step).plays|
  {
    hide DueIn, Acted;
    StepStarts(s, step);
    var r := Next(s, step);
    hide Next, SlotOf;
    if StartedNone(s, r, step) {
      StartsDoNotEnd(s.plays, r.plays, p, first);
    } else if step.where == p {
      OneMoreTurn(s, r, step, p, due, first, start);
    } else {
      assert r.plays[..|s.plays|] == s.plays;
      assert StartsAt(r.plays, p, first) == StartsAt(s.plays, p, first) + [];
      assert SlotOf(r, p).index == SlotOf(s, p).index by { OnlyItsOwnIndex(s, step, p); }
    }
  }

  lemma OneMoreTurn(s: Player, r: Player, step: Step, p: Placement, due: seq<Ad>, first: nat, start: nat)
    requires StartedOne(s, r, step) && step.where == p && DueIn(s.book, s.log, step.queue).0 == due
    requires due != [] && first <= |s.plays| && InTurn(s, p, due, first, start)
    ensures InTurn(r, p, due, first, start)
  {
    hide DueIn, SlotOf, OneShot;
    assert r.plays[..|s.plays|] == s.plays;
    var shown := StartsAt(s.plays, p, first);
    OneTurn(SlotOf(s, p).index, start + |shown|, |due|);
    var next := due[(start + |shown|) % |due|];
    assert r.plays[|s.plays|].ad == next;
    assert StartsAt(r.plays, p, first) == shown + [next];
  }

  lemma OnlyItsOwnIndex(s: Player, step: Step, p: Placement)
    requires step.Serve? && step.where != p
    ensures SlotOf(Next(s, step), p) == SlotOf(s, p)
  {
    hide DueIn, PlayTime, Pause;
  }

  /** With an unchanged due list the ads of a placement start in turn, whatever else happens meanwhile. */
  lemma {:induction false} AdsTakeTurns(s: Player, steps: seq<Step>, p: Placement, due: seq<Ad>, first: nat, start: nat)
    requires due != [] && SameDue(s, steps, p, due) && first <= |s.plays| && InTurn(s, p, due, first, start)
    ensures InTurn(AfterSteps(s, steps), p, due, first, start)
    decreases |steps|
  {
    hide Next, InTurn;
    if steps == [] {
    } else {
      StepKeepsTurns(s, steps[0], p, due, first, start);
      AdsTakeTurns(Next(s, steps[0]), steps[1..], p, due, first, start);
    }
  }

  /** Whatever p is served, its queue is this one. */
  ghost predicate SameQueue(steps: seq<Step>, p: Placement, queue: seq<Ad>) {
    && Restart !in steps
    && forall i | 0 <= i < |steps| && steps[i].Serve? && steps[i].where == p :: steps[i].queue == queue
  }

  /** An unchanged queue of which the once/timed ads have had their slots is such a run: the others take turns. */
  lemma {:induction false} SettledQueueIsSameDue(s: Player, steps: seq<Step>, p: Placement, queue: seq<Ad>)
    requires SameQueue(steps, p, queue)
    requires forall i | 0 <= i < |queue| && OneShot(queue[i]) :: KeyOf(queue[i]) in s.book.done
    ensures SameDue(s, steps, p, Repeating(queue))
    decreases |steps|
  {
    hide Next, Repeating;
    if steps == [] {
    } else {
      assert steps[0] in steps && forall x | x in steps[1..] :: x in steps;
      SettledQueueIsDue(s.book, s.log, queue);
      DoneStaysDone(s, steps[0]);
      SettledQueueIsSameDue(Next(s, steps[0]), steps[1..], p, queue);
    }
  }

  lemma DoneStaysDone(s: Player, step: Step)
    requires step != Restart
    ensures s.book.done <= Next(s, step).book.done
  {
    hide DueIn, Next, SlotOf;
    StepStarts(s, step);
    if step.Serve? {
      DueIsNotDone(s.book, s.log, step.queue);
    }
  }

  lemma NothingStarted(s: Player, p: Placement, due: seq<Ad>)
    requires due != []
    ensures InTurn(s, p, due, |s.plays|, SlotOf(s, p).index)
  {
  }

  lemma AddMod(x: nat, i: nat, n: nat)
    requires i < n
    ensures (x + i) % n == if x % n + i < n then x % n + i else x % n + i - n
  {
    var q := x / n;
    assert x == n * q + x % n;
    if x % n + i < n {
      UniqueRemainder(x + i, n, q, x % n + i);
    } else {
      assert n * (q + 1) == n * q + n;
      UniqueRemainder(x + i, n, q + 1, x % n + i - n);
    }
  }

  /** The list, begun at its x-th ad and counted round. */
  function Rotated(due: seq<Ad>, x: nat): seq<Ad>
    requires due != []
  {
    var c := x % |due|;
    due[c..] + due[..c]
  }

  /** So any n consecutive starts are the due list, rotated: they show each of its ads exactly once. */
  lemma RotationIsFair(s: Player, steps: seq<Step>, p: Placement, due: seq<Ad>, w: nat)
    requires due != [] && SameDue(s, steps, p, due)
    requires w + |due| <= |StartsAt(AfterSteps(s, steps).plays, p, |s.plays|)|
    ensures var window := StartsAt(AfterSteps(s, steps).plays, p, |s.plays|)[w..w + |due|];
            window == Rotated(due, SlotOf(s, p).index + w) && multiset(window) == multiset(due)
  {
    hide Rotated, AfterSteps, StartsAt, SameDue, SlotOf, InTurn;
    var start := SlotOf(s, p).index;
    NothingStarted(s, p, due);
    AdsTakeTurns(s, steps, p, due, |s.plays|, start);
    TurnsAreRotated(AfterSteps(s, steps), p, due, |s.plays|, start, w);
  }

  lemma TurnsAreRotated(s: Player, p: Placement, due: seq<Ad>, first: nat, start: nat, w: nat)
    requires due != [] && InTurn(s, p, due, first, start) && w + |due| <= |StartsAt(s.plays, p, first)|
    ensures var window := StartsAt(s.plays, p, first)[w..w + |due|];
            window == Rotated(due, start + w) && multiset(window) == multiset(due)
  {
    hide StartsAt, SlotOf;
    WindowIsRotated(due, StartsAt(s.plays, p, first), start, w);
  }

  lemma WindowIsRotated(due: seq<Ad>, shown: seq<Ad>, start: nat, w: nat)
    requires due != [] && w + |due| <= |shown|
    requires forall m | 0 <= m < |shown| :: shown[m] == due[(start + m) % |due|]
    ensures shown[w..w + |due|] == Rotated(due, start + w) && multiset(shown[w..w + |due|]) == multiset(due)
  {
    var n := |due|;
    var c := (start + w) % n;
    var window := shown[w..w + n];
    forall i | 0 <= i < n
      ensures window[i] == (due[c..] + due[..c])[i]
    {
      assert start + (w + i) == (start + w) + i;
      assert shown[w + i] == due[(start + (w + i)) % n];
      AddMod(start + w, i, n);
    }
    assert window == due[c..] + due[..c];
    assert due == due[..c] + due[c..];
  }

  // ------------------------------------------------------------------- ends of plays

  /** The play of placement p, and no other, was freed, to be logged with this status. */
  ghost predicate OnlyFrees(s: Player, r: Player, p: Placement, status: PL.Status)
    requires SlotOf(s, p).showing.Some?
  {
    var x := SlotOf(s, p).showing.value;
    r.freed == s.freed + [Freed(x.token, x.item, p, status, x.started, x.proof)]
  }

  /** A play leaves the screen exactly by its own callback, by the watchdog after its deadline, or with the process. */
  lemma OnlyItsOwnEndFreesAPlay(s: Player, step: Step, p: Placement)
    requires SlotOf(s, p).showing.Some?
    ensures var x := SlotOf(s, p).showing.value;
            var r := Next(s, step);
            var called := step.Finish? && step.at == p && step.token == x.token;
            var late := step.Serve? && step.where == p && step.mono > x.deadline;
            && (OnScreen(r, p, x.token) <==> !called && !late && step != Restart)
            && (called ==> OnlyFrees(s, r, p, step.status))
            && (late ==> OnlyFrees(s, r, p, PL.Error))
  {
    hide DueIn, PlayTime, Pause;
  }

  /** What runs between a dismissal and the end of its pause. */
  ghost predicate DuringPause(steps: seq<Step>, p: Placement, until: int) {
    && Restart !in steps
    && forall i | 0 <= i < |steps| && steps[i].Serve? && steps[i].where == p :: steps[i].mono < until
  }

  lemma {:induction false} PausedPlacementsRest(s: Player, steps: seq<Step>, p: Placement)
    requires SlotOf(s, p).showing.None? && DuringPause(steps, p, SlotOf(s, p).idleUntil)
    ensures SlotOf(AfterSteps(s, steps), p) == SlotOf(s, p)
    decreases |steps|
  {
    if steps == [] {
    } else {
      assert steps[0] in steps && forall x | x in steps[1..] :: x in steps;
      StepRests(s, steps[0], p);
      PausedPlacementsRest(Next(s, steps[0]), steps[1..], p);
    }
  }

  lemma StepRests(s: Player, step: Step, p: Placement)
    requires SlotOf(s, p).showing.None? && step != Restart
    requires step.Serve? && step.where == p ==> step.mono < SlotOf(s, p).idleUntil
    ensures SlotOf(Next(s, step), p) == SlotOf(s, p)
  {
    hide DueIn, PlayTime, Pause;
  }

  /** After a viewer closed a repeat or full-slot ad, nothing is shown there for half a minute; after others a moment. */
  lemma DismissalGivesTheScreenBack(s: Player, p: Placement, status: PL.Status, mono: int, steps: seq<Step>)
    requires SlotOf(s, p).showing.Some?
    requires var x := SlotOf(s, p).showing.value;
             var pause := if status == PL.Dismissed && x.item.mode in {Repeat, Full} then 30000 else 500;
             DuringPause(steps, p, mono + pause)
    ensures var s1 := Next(s, Finish(p, SlotOf(s, p).showing.value.token, status, mono));
            SlotOf(AfterSteps(s1, steps), p).showing.None?
  {
    PausedPlacementsRest(Next(s, Finish(p, SlotOf(s, p).showing.value.token, status, mono)), steps, p);
  }

  /** And then the placement is free: the next look at which an ad is due there starts one. */
  lemma PausesEnd(s: Player, p: Placement, status: PL.Status, mono: int, steps: seq<Step>, queue: seq<Ad>, wall: int,
                  later: int)
    requires SlotOf(s, p).showing.Some?
    requires var x := SlotOf(s, p).showing.value;
             var pause := if status == PL.Dismissed && x.item.mode in {Repeat, Full} then 30000 else 500;
             DuringPause(steps, p, mono + pause) && later >= mono + pause
    requires var r := AfterSteps(Next(s, Finish(p, SlotOf(s, p).showing.value.token, status, mono)), steps);
             DueIn(r.book, r.log, queue).0 != []
    ensures var r := AfterSteps(Next(s, Finish(p, SlotOf(s, p).showing.value.token, status, mono)), steps);
            OnScreen(Next(r, Serve(p, queue, wall, later)), p, |r.plays|)
  {
    hide DueIn, PlayTime;
    PausedPlacementsRest(Next(s, Finish(p, SlotOf(s, p).showing.value.token, status, mono)), steps, p);
  }

  function Most(a: int, b: int): int { if a < b then b else a }

  /** Nothing ends play k of placement p on purpose, and no tick is late enough for the watchdog. */
  ghost predicate LeftAlone(steps: seq<Step>, p: Placement, k: nat, deadline: int) {
    && Restart !in steps
    && (forall i | 0 <= i < |steps| && steps[i].Finish? && steps[i].at == p :: steps[i].token != k)
    && (forall i | 0 <= i < |steps| && steps[i].Serve? && steps[i].where == p :: steps[i].mono <= deadline)
  }

  lemma {:induction false} PlaysGoOn(s: Player, steps: seq<Step>, p: Placement)
    requires SlotOf(s, p).showing.Some?
    requires LeftAlone(steps, p, SlotOf(s, p).showing.value.token, SlotOf(s, p).showing.value.deadline)
    ensures var r := SlotOf(AfterSteps(s, steps), p).showing;
            r.Some? && r.value.(proof := None) == SlotOf(s, p).showing.value.(proof := None)
    decreases |steps|
  {
    hide Acted;
    if steps == [] {
    } else {
      assert steps[0] in steps && forall x | x in steps[1..] :: x in steps;
      StepGoesOn(s, steps[0], p);
      PlaysGoOn(Next(s, steps[0]), steps[1..], p);
    }
  }

  lemma StepGoesOn(s: Player, step: Step, p: Placement)
    requires SlotOf(s, p).showing.Some? && step != Restart
    requires var x := SlotOf(s, p).showing.value;
             && (step.Finish? && step.at == p ==> step.token != x.token)
             && (step.Serve? && step.where == p ==> step.mono <= x.deadline)
    ensures var r := SlotOf(Next(s, step), p).showing;
            r.Some? && r.value.(proof := None) == SlotOf(s, p).showing.value.(proof := None)
  {
    hide DueIn, PlayTime, Pause;
  }

  /**
   A play that is not ended keeps the screen for its time and a minute more: the ad's own length or 15 s, and for a
   full-slot ad until a second before the slot ends, but at least 5 s.
   */
  lemma PlaysGetTheirTime(s: Player, p: Placement, queue: seq<Ad>, wall: int, mono: int, steps: seq<Step>)
    requires var s1 := Next(s, Serve(p, queue, wall, mono));
             |s1.plays| > |s.plays|
             && var ad := s1.plays[|s.plays|].ad;
                var time := if ad.mode == Full && ad.slotEnd.Some? then
                              Most((ad.slotEnd.value - 1 - wall) * 1000, 5000)
                            else if ad.duration == 0 then 15000 else ad.duration;
                LeftAlone(steps, p, |s.plays|, mono + time + 60000)
    ensures OnScreen(AfterSteps(Next(s, Serve(p, queue, wall, mono)), steps), p, |s.plays|)
  {
    hide DueIn;
    var s1 := Next(s, Serve(p, queue, wall, mono));
    assert s1.plays[|s.plays|] == Play(s1.plays[|s.plays|].ad, p, wall, s.clock, None);
    assert SlotOf(s1, p).showing.value.token == |s.plays|;
    assert SlotOf(s1, p).showing.value.deadline == mono + PlayTime(s1.plays[|s.plays|].ad, wall) + 60000;
    PlaysGoOn(s1, steps, p);
  }

  /** But not longer: the first look after that ends it, as an error. */
  lemma PlaysEndInTime(s: Player, p: Placement, queue: seq<Ad>, wall: int, mono: int, steps: seq<Step>, late: Step)
    requires var s1 := Next(s, Serve(p, queue, wall, mono));
             |s1.plays| > |s.plays|
             && var ad := s1.plays[|s.plays|].ad;
                var time := if ad.mode == Full && ad.slotEnd.Some? then
                              Most((ad.slotEnd.value - 1 - wall) * 1000, 5000)
                            else if ad.duration == 0 then 15000 else ad.duration;
                LeftAlone(steps, p, |s.plays|, mono + time + 60000)
                && late.Serve? && late.where == p && late.mono > mono + time + 60000
    ensures var r := AfterSteps(Next(s, Serve(p, queue, wall, mono)), steps);
            && OnScreen(r, p, |s.plays|) && !OnScreen(Next(r, late), p, |s.plays|)
            && OnlyFrees(r, Next(r, late), p, PL.Error)
  {
    hide DueIn, OnlyFrees;
    var s1 := Next(s, Serve(p, queue, wall, mono));
    assert s1.plays[|s.plays|] == Play(s1.plays[|s.plays|].ad, p, wall, s.clock, None);
    assert SlotOf(s1, p).showing.value.token == |s.plays|;
    assert SlotOf(s1, p).showing.value.deadline == mono + PlayTime(s1.plays[|s.plays|].ad, wall) + 60000;
    PlaysGoOn(s1, steps, p);
    OnlyItsOwnEndFreesAPlay(AfterSteps(s1, steps), late, p);
  }

  // ------------------------------------------------------------------------ screenshots

  /** The hour for which this step hangs a screenshot on the play it shows. */
  function Proves(s: Player, step: Step): set<Hour> {
    if step.Attach? && step.grabbed < |s.shots| && s.shots[step.grabbed].taken.Some?
       && OnScreen(s, s.shots[step.grabbed].placement, s.shots[step.grabbed].token)
    then {s.shots[step.grabbed].hour} else {}
  }

  function ProvedIn(s: Player, steps: seq<Step>): set<Hour>
    decreases |steps|
  {
    if steps == [] then {} else Proves(s, steps[0]) + ProvedIn(Next(s, steps[0]), steps[1..])
  }

  lemma {:induction false} HoursAreProved(s: Player, steps: seq<Step>)
    requires Restart !in steps
    ensures AfterSteps(s, steps).proofHours == s.proofHours + ProvedIn(s, steps)
    decreases |steps|
  {
    hide DueIn, PlayTime, Pause;
    if steps == [] {
    } else {
      assert steps[0] in steps && forall x | x in steps[1..] :: x in steps;
      StepProves(s, steps[0]);
      HoursAreProved(Next(s, steps[0]), steps[1..]);
    }
  }

  lemma StepProves(s: Player, step: Step)
    requires step != Restart
    ensures Next(s, step).proofHours == s.proofHours + Proves(s, step)
  {
    hide DueIn, PlayTime, Pause;
  }

  /**
   In one run of the program a screenshot is begun exactly for a play that is on screen, and for an ad and an hour of which
   none has been attached yet.
   */
  lemma OneProofPerHour(before: Player, steps: seq<Step>, p: Placement, token: nat, hour: Hour)
    requires Restart !in steps
    ensures var start := Next(before, Restart);
            var r := AfterSteps(start, steps);
            Next(r, CheckShot(p, token, hour)).shots
            == r.shots + if OnScreen(r, p, token) && hour !in ProvedIn(start, steps) then [Shot(p, token, hour, None)]
                         else []
  {
    hide DueIn, PlayTime, Pause, AfterSteps, ProvedIn;
    HoursAreProved(Next(before, Restart), steps);
  }
}
