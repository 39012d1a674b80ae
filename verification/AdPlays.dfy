/**
 The life of an ad play: started in its placement's turn, ended by a callback or by the watchdog, written down once.
 Every locked region of the player is one step, so callbacks, screenshots and log writes may interleave in any order.
 A start's number stands for its token; `plays` and `clock` are history that the program does not keep.
 */
module AdPlays {
  import opened Wrappers
  import PL = PlayLogs

  // Milliseconds; wall-clock times are in seconds.
  const GAP_BETWEEN_ADS := 500
  const DISMISS_COOLDOWN := 30000
  const WATCHDOG_EXTRA := 60000
  const DEFAULT_AD := 15000
  const MIN_FULL := 5000

  datatype Mode = Repeat | Full | Once | Timed | OtherMode

  datatype Ad = Ad(id: string, slot: string, slotStart: Option<int>, slotEnd: Option<int>, duration: int, mode: Mode)

  type Placement = string

  /** An ad in one of its booked slots. */
  type Key = (string, string)

  /** An ad and a clock hour. */
  type Hour = (string, int)

  /** What a busy placement shows. */
  datatype Showing = Showing(token: nat, item: Ad, started: int, deadline: int, proof: Option<nat>)

  datatype Slot = Slot(showing: Option<Showing>, index: nat, idleUntil: int)

  const IDLE := Slot(None, 0, 0)

  /** Which once/timed ads are over, and for which the log was asked already. */
  datatype Book = Book(done: set<Key>, checked: set<Key>)

  /** A screenshot under way: checked, perhaps grabbed, not yet attached. */
  datatype Shot = Shot(placement: Placement, token: nat, hour: Hour, taken: Option<nat>)

  /** A play whose placement is free again and whose row is not written yet. */
  datatype Freed = Freed(play: nat, ad: Ad, placement: Placement, status: PL.Status, started: int, proof: Option<nat>)

  /** A start, and the steps between which it was on screen. */
  datatype Play = Play(ad: Ad, placement: Placement, started: int, from: nat, until: Option<nat>)

  datatype Player = Player(
    slots: map<Placement, Slot>,
    book: Book,
    proofHours: set<Hour>,
    shots: seq<Shot>,
    freed: seq<Freed>,
    log: seq<PL.Record>,
    plays: seq<Play>,
    born: nat,     // starts before this process
    clock: nat     // steps so far
  )

  const FRESH := Player(map[], Book({}, {}), {}, [], [], [], [], 0, 0)

  datatype Step =
    | Serve(where: Placement, queue: seq<Ad>, wall: int, mono: int)
    | Finish(at: Placement, token: nat, status: PL.Status, mono: int)
    | WriteRow(row: nat, ended: int)
    | CheckShot(place: Placement, shown: nat, hour: Hour)
    | Grab(shot: nat)
    | Attach(grabbed: nat)
    | Restart

  // ------------------------------------------------------------------- one placement

  predicate OneShot(ad: Ad) { ad.mode == Once || ad.mode == Timed }

  function KeyOf(ad: Ad): Key { (ad.id, ad.slot) }

  /** `_slot_done`: the log is asked once per slot. */
  function SlotDone(book: Book, log: seq<PL.Record>, ad: Ad): (bool, Book) {
    if !OneShot(ad) then (false, book)
    else if KeyOf(ad) in book.done then (true, book)
    else if KeyOf(ad) in book.checked then (false, book)
    else
      var asked := book.(checked := book.checked + {KeyOf(ad)});
      if ad.slotStart.Some? && PL.PlayedSince(log, ad.id, ad.slotStart.value) then
        (true, asked.(done := asked.done + {KeyOf(ad)}))
      else (false, asked)
  }

  function DueIn(book: Book, log: seq<PL.Record>, queue: seq<Ad>): (seq<Ad>, Book)
    decreases |queue|
  {
    if queue == [] then ([], book)
    else
      var (done, b) := SlotDone(book, log, queue[0]);
      var (rest, b') := DueIn(b, log, queue[1..]);
      (if done then rest else [queue[0]] + rest, b')
  }

  /** `_play_seconds`, in milliseconds */
  function PlayTime(ad: Ad, wall: int): int {
    if ad.mode == Full && ad.slotEnd.Some? then
      var left := (ad.slotEnd.value - wall) * 1000 - 1000;
      if left < MIN_FULL then MIN_FULL else left
    else if ad.duration == 0 then DEFAULT_AD
    else ad.duration
  }

  function Pause(status: PL.Status, mode: Mode): int {
    if status == PL.Dismissed && (mode == Repeat || mode == Full) then DISMISS_COOLDOWN else GAP_BETWEEN_ADS
  }

  function SlotOf(s: Player, p: Placement): Slot {
    if p in s.slots then s.slots[p] else IDLE
  }

  /** `_start` */
  function Started(s: Player, p: Placement, ad: Ad, index: nat, wall: int, mono: int): Player {
    var showing := Showing(|s.plays|, ad, wall, mono + PlayTime(ad, wall) + WATCHDOG_EXTRA, None);
    s.(book := if OneShot(ad) then s.book.(done := s.book.done + {KeyOf(ad)}) else s.book,
       slots := s.slots[p := SlotOf(s, p).(showing := Some(showing), index := index)],
       plays := s.plays + [Play(ad, p, wall, s.clock, None)])
  }

  function Over(plays: seq<Play>, k: nat, clock: nat): (r: seq<Play>)
    ensures |r| == |plays|
  {
    if k < |plays| then plays[k := plays[k].(until := Some(clock))] else plays
  }

  /** The locked part of `_finish`; a token that is not on screen changes nothing. */
  function Finished(s: Player, p: Placement, token: nat, status: PL.Status, mono: int): Player {
    var slot := SlotOf(s, p);
    if slot.showing.None? || slot.showing.value.token != token then s
    else
      var x := slot.showing.value;
      s.(slots := s.slots[p := slot.(showing := None, idleUntil := mono + Pause(status, x.item.mode))],
         freed := s.freed + [Freed(token, x.item, p, status, x.started, x.proof)],
         plays := Over(s.plays, token, s.clock))
  }

  /** One placement's part of `tick`. */
  function Served(s: Player, p: Placement, queue: seq<Ad>, wall: int, mono: int): Player {
    var slot := SlotOf(s, p);
    var s1 := s.(slots := s.slots[p := slot]);
    if slot.showing.Some? then
      if mono > slot.showing.value.deadline then Finished(s1, p, slot.showing.value.token, PL.Error, mono) else s1
    else if mono < slot.idleUntil then s1
    else
      var (due, book) := DueIn(s.book, s.log, queue);
      var s2 := s1.(book := book);
      if due == [] then s2
      else Started(s2, p, due[slot.index % |due|], (slot.index + 1) % |due|, wall, mono)
  }

  predicate OnScreen(s: Player, p: Placement, token: nat) {
    SlotOf(s, p).showing.Some? && SlotOf(s, p).showing.value.token == token
  }

  function Without<T>(a: seq<T>, i: nat): seq<T>
    requires i < |a|
  {
    a[..i] + a[i + 1..]
  }

  /** The end of `_take_proof`: a picture of a play that is over proves nothing. */
  function Attached(s: Player, x: Shot): Player {
    if !OnScreen(s, x.placement, x.token) then s
    else
      var slot := SlotOf(s, x.placement);
      s.(slots := s.slots[x.placement := slot.(showing := Some(slot.showing.value.(proof := x.taken)))],
         proofHours := s.proofHours + {x.hour})
  }

  function RecordOf(f: Freed, ended: int): PL.Record {
    PL.Record(f.play, f.ad.id, f.placement, f.status, f.started, ended, f.proof)
  }

  function Acted(s: Player, step: Step): Player {
    match step
    case Serve(p, queue, wall, mono) => Served(s, p, queue, wall, mono)
    case Finish(p, token, status, mono) => Finished(s, p, token, status, mono)
    case WriteRow(i, ended) =>
      if i >= |s.freed| then s
      else s.(freed := Without(s.freed, i), log := s.log + [RecordOf(s.freed[i], ended)])
    case CheckShot(p, token, hour) =>
      if !OnScreen(s, p, token) || hour in s.proofHours then s
      else s.(shots := s.shots + [Shot(p, token, hour, None)])
    case Grab(i) =>
      if i >= |s.shots| || s.shots[i].taken.Some? then s
      else s.(shots := s.shots[i := s.shots[i].(taken := Some(s.clock))])
    case Attach(i) =>
      if i >= |s.shots| || s.shots[i].taken.None? then s
      else Attached(s.(shots := Without(s.shots, i)), s.shots[i])
    case Restart => FRESH.(log := s.log, plays := s.plays, born := |s.plays|, clock := s.clock)
  }

  function Next(s: Player, step: Step): Player {
    Acted(s, step).(clock := s.clock + 1)
  }

  function AfterSteps(s: Player, steps: seq<Step>): Player
    decreases |steps|
  {
    if steps == [] then s else AfterSteps(Next(s, steps[0]), steps[1..])
  }

  // ---------------------------------------------------------------- one row per play

  function Times(ks: seq<nat>, k: nat): nat {
    if ks == [] then 0 else (if ks[0] == k then 1 else 0) + Times(ks[1..], k)
  }

  function FreedPlays(freed: seq<Freed>): (r: seq<nat>)
    ensures |r| == |freed| && forall i | 0 <= i < |r| :: r[i] == freed[i].play
  {
    seq(|freed|, i requires 0 <= i < |freed| => freed[i].play)
  }

  function LoggedPlays(log: seq<PL.Record>): (r: seq<nat>)
    ensures |r| == |log| && forall i | 0 <= i < |r| :: r[i] == log[i].play
  {
    seq(|log|, i requires 0 <= i < |log| => log[i].play)
  }

  lemma {:induction false} TimesAppend(a: seq<nat>, b: seq<nat>, k: nat)
    ensures Times(a + b, k) == Times(a, k) + Times(b, k)
  {
    if a == [] {
      assert a + b == b;
    } else {
      assert (a + b)[1..] == a[1..] + b;
      TimesAppend(a[1..], b, k);
    }
  }

  lemma TimesWithout(a: seq<nat>, i: nat, k: nat)
    requires i < |a|
    ensures Times(Without(a, i), k) == Times(a, k) - if a[i] == k then 1 else 0
  {
    assert a == a[..i] + ([a[i]] + a[i + 1..]);
    TimesAppend(a[..i], [a[i]] + a[i + 1..], k);
    TimesAppend([a[i]], a[i + 1..], k);
    TimesAppend(a[..i], a[i + 1..], k);
  }

  /** Is start k on screen, in the placement it was started in? */
  function Shown(s: Player, k: nat): nat {
    if k < |s.plays| && OnScreen(s, s.plays[k].placement, k) then 1 else 0
  }

  /** In how many places start k is accounted for. */
  function Tally(s: Player, k: nat): nat {
    Shown(s, k) + Times(FreedPlays(s.freed), k) + Times(LoggedPlays(s.log), k)
  }

  ghost predicate TallyOk(s: Player, k: nat) {
    && (s.born <= k < |s.plays| ==> Tally(s, k) == 1)
    && (k < s.born ==> Tally(s, k) <= 1)
    && (k >= |s.plays| ==> Tally(s, k) == 0)
  }

  /** A picture taken at t was taken while play k was on screen. */
  ghost predicate During(s: Player, k: nat, proof: Option<nat>) {
    k < |s.plays| && (proof.Some? ==> s.plays[k].from < proof.value < s.plays[k].until.GetOr(s.clock))
  }

  ghost predicate SlotOk(s: Player, p: Placement) {
    var x := SlotOf(s, p).showing;
    x.Some? ==>
      var k := x.value.token;
      && s.born <= k < |s.plays| && s.plays[k].placement == p && s.plays[k].until.None?
      && s.plays[k].ad == x.value.item && s.plays[k].started == x.value.started && During(s, k, x.value.proof)
  }

  ghost predicate FreedOk(s: Player, f: Freed) {
    && s.born <= f.play < |s.plays| && s.plays[f.play].until.Some?
    && s.plays[f.play].ad == f.ad && s.plays[f.play].placement == f.placement && s.plays[f.play].started == f.started
    && During(s, f.play, f.proof)
  }

  ghost predicate LoggedOk(s: Player, r: PL.Record) {
    && r.play < |s.plays| && s.plays[r.play].until.Some?
    && s.plays[r.play].ad.id == r.ad && s.plays[r.play].placement == r.placement && s.plays[r.play].started == r.started
    && During(s, r.play, r.proof)
  }

  ghost predicate ShotOk(s: Player, x: Shot) {
    && s.born <= x.token < |s.plays| && s.plays[x.token].placement == x.placement
    && (x.taken.Some? ==> s.plays[x.token].from < x.taken.value < s.clock)
  }

  ghost predicate PlaysOk(s: Player) {
    s.born <= |s.plays| && forall k | 0 <= k < |s.plays| :: s.plays[k].from < s.clock
  }

  ghost predicate Accounted(s: Player) {
    && PlaysOk(s)
    && (forall p :: SlotOk(s, p))
    && (forall i | 0 <= i < |s.freed| :: FreedOk(s, s.freed[i]))
    && (forall i | 0 <= i < |s.log| :: LoggedOk(s, s.log[i]))
    && (forall i | 0 <= i < |s.shots| :: ShotOk(s, s.shots[i]))
    && (forall k | 0 <= k :: TallyOk(s, k))
  }

  /** Later states know everything about the plays that earlier states knew. */
  ghost predicate Grown(s: Player, r: Player) {
    && |s.plays| <= |r.plays| && r.born == s.born && s.clock <= r.clock
    && forall k | 0 <= k < |s.plays| ::
         && r.plays[k] == s.plays[k].(until := r.plays[k].until)
         && (s.plays[k].until.Some? ==> r.plays[k].until == s.plays[k].until)
         && (s.plays[k].until.None? && r.plays[k].until.Some? ==> r.plays[k].until.value >= s.clock)
  }

  lemma FactsStay(s: Player, r: Player)
    requires Grown(s, r)
    ensures forall f | FreedOk(s, f) :: FreedOk(r, f)
    ensures forall x | LoggedOk(s, x) :: LoggedOk(r, x)
    ensures forall x | ShotOk(s, x) :: ShotOk(r, x)
  {
  }

  /** A placement whose play goes on. */
  lemma SlotStays(s: Player, r: Player, p: Placement)
    requires Grown(s, r) && SlotOk(s, p) && SlotOf(r, p).showing == SlotOf(s, p).showing
    requires SlotOf(s, p).showing.Some? ==>
               var k := SlotOf(s, p).showing.value.token; k < |r.plays| && r.plays[k].until.None?
    ensures SlotOk(r, p)
  {
  }

  lemma {:induction false} StartedIsAccounted(s: Player, p: Placement, ad: Ad, index: nat, wall: int, mono: int)
    requires Accounted(s) && SlotOf(s, p).showing.None?
    ensures var r := Started(s, p, ad, index, wall, mono).(clock := s.clock + 1);
            Accounted(r) && Grown(s, r)
  {
    hide PlayTime, Times;
    var r := Started(s, p, ad, index, wall, mono).(clock := s.clock + 1);
    FactsStay(s, r);
    forall q ensures SlotOk(r, q) {
      assert SlotOk(s, q);
      if q != p {
        SlotStays(s, r, q);
      }
    }
    forall i | 0 <= i < |r.freed| ensures FreedOk(r, r.freed[i]) { assert FreedOk(s, s.freed[i]); }
    forall i | 0 <= i < |r.log| ensures LoggedOk(r, r.log[i]) { assert LoggedOk(s, s.log[i]); }
    forall i | 0 <= i < |r.shots| ensures ShotOk(r, r.shots[i]) { assert ShotOk(s, s.shots[i]); }
    forall k | 0 <= k ensures TallyOk(r, k) {
      assert TallyOk(s, k);
      assert SlotOk(s, p);
    }
  }

  lemma {:induction false} FinishedIsAccounted(s: Player, p: Placement, token: nat, status: PL.Status, mono: int)
    requires Accounted(s)
    ensures var r := Finished(s, p, token, status, mono).(clock := s.clock + 1);
            Accounted(r) && Grown(s, r)
    ensures !OnScreen(s, p, token) ==> Finished(s, p, token, status, mono) == s
  {
    hide Pause, Times;
    var r := Finished(s, p, token, status, mono).(clock := s.clock + 1);
    assert SlotOk(s, p);
    assert Grown(s, r);
    FactsStay(s, r);
    forall q ensures SlotOk(r, q) {
      assert SlotOk(s, q);
      if q != p || r == s.(clock := s.clock + 1) {
        SlotStays(s, r, q);
      }
    }
    forall i | 0 <= i < |r.freed| ensures FreedOk(r, r.freed[i]) {
      if i < |s.freed| { assert FreedOk(s, s.freed[i]); }
    }
    forall i | 0 <= i < |r.log| ensures LoggedOk(r, r.log[i]) { assert LoggedOk(s, s.log[i]); }
    forall i | 0 <= i < |r.shots| ensures ShotOk(r, r.shots[i]) { assert ShotOk(s, s.shots[i]); }
    forall k | 0 <= k ensures TallyOk(r, k) {
      FinishedTally(s, p, token, status, mono, k);
    }
  }

  lemma FinishedTally(s: Player, p: Placement, token: nat, status: PL.Status, mono: int, k: nat)
    requires SlotOk(s, p) && TallyOk(s, k)
    ensures TallyOk(Finished(s, p, token, status, mono), k)
  {
    hide Pause;
    if OnScreen(s, p, token) {
      var r := Finished(s, p, token, status, mono);
      assert FreedPlays(r.freed) == FreedPlays(s.freed) + [token];
      TimesAppend(FreedPlays(s.freed), [token], k);
    }
  }

  lemma {:induction false} RowIsAccounted(s: Player, i: nat, ended: int)
    requires Accounted(s) && i < |s.freed|
    ensures Accounted(Next(s, WriteRow(i, ended))) && Grown(s, Next(s, WriteRow(i, ended)))
  {
    hide Times, TallyOk;
    var r := Next(s, WriteRow(i, ended));
    FactsStay(s, r);
    assert FreedOk(s, s.freed[i]);
    forall q ensures SlotOk(r, q) {
      assert SlotOk(s, q);
      SlotStays(s, r, q);
    }
    forall j | 0 <= j < |r.freed| ensures FreedOk(r, r.freed[j]) {
      assert FreedOk(s, s.freed[if j < i then j else j + 1]);
    }
    forall j | 0 <= j < |r.log| ensures LoggedOk(r, r.log[j]) {
      if j < |s.log| { assert LoggedOk(s, s.log[j]); }
    }
    forall j | 0 <= j < |r.shots| ensures ShotOk(r, r.shots[j]) { assert ShotOk(s, s.shots[j]); }
    forall k | 0 <= k ensures TallyOk(r, k) {
      RowTally(s, i, ended, k);
    }
  }

  lemma RowTally(s: Player, i: nat, ended: int, k: nat)
    requires i < |s.freed| && TallyOk(s, k)
    ensures TallyOk(Next(s, WriteRow(i, ended)), k)
  {
    var r := Next(s, WriteRow(i, ended));
    TimesWithout(FreedPlays(s.freed), i, k);
    assert FreedPlays(r.freed) == Without(FreedPlays(s.freed), i);
    assert LoggedPlays(r.log) == LoggedPlays(s.log) + [s.freed[i].play];
    TimesAppend(LoggedPlays(s.log), [s.freed[i].play], k);
  }

  /** Steps that leave the plays, the freed plays and the log alone, and which token each placement shows. */
  ghost predicate OnlyShots(s: Player, r: Player) {
    && r.plays == s.plays && r.freed == s.freed && r.log == s.log && r.born == s.born && r.clock == s.clock + 1
    && forall p, k :: OnScreen(r, p, k) <==> OnScreen(s, p, k)
  }

  lemma {:induction false} OnlyShotsIsAccounted(s: Player, r: Player)
    requires Accounted(s) && OnlyShots(s, r)
    requires forall p :: SlotOk(r, p)
    requires forall i | 0 <= i < |r.shots| :: ShotOk(r, r.shots[i])
    ensures Accounted(r) && Grown(s, r)
  {
    hide Times, SlotOk, ShotOk, OnScreen;
    FactsStay(s, r);
    forall j | 0 <= j < |r.freed| ensures FreedOk(r, r.freed[j]) { assert FreedOk(s, s.freed[j]); }
    forall j | 0 <= j < |r.log| ensures LoggedOk(r, r.log[j]) { assert LoggedOk(s, s.log[j]); }
    forall k | 0 <= k ensures TallyOk(r, k) {
      assert TallyOk(s, k);
    }
  }

  lemma {:induction false} CheckIsAccounted(s: Player, p: Placement, token: nat, hour: Hour)
    requires Accounted(s)
    ensures var r := Next(s, CheckShot(p, token, hour)); Accounted(r) && Grown(s, r)
  {
    hide TallyOk, FreedOk, LoggedOk;
    var r := Next(s, CheckShot(p, token, hour));
    assert SlotOk(s, p);
    forall q ensures SlotOk(r, q) { assert SlotOk(s, q); }
    forall j | 0 <= j < |r.shots| ensures ShotOk(r, r.shots[j]) {
      if j < |s.shots| { assert ShotOk(s, s.shots[j]); }
    }
    OnlyShotsIsAccounted(s, r);
  }

  lemma {:induction false} GrabIsAccounted(s: Player, i: nat)
    requires Accounted(s)
    ensures var r := Next(s, Grab(i)); Accounted(r) && Grown(s, r)
  {
    hide TallyOk, FreedOk, LoggedOk;
    var r := Next(s, Grab(i));
    forall q ensures SlotOk(r, q) { assert SlotOk(s, q); }
    forall j | 0 <= j < |r.shots| ensures ShotOk(r, r.shots[j]) { assert ShotOk(s, s.shots[j]); }
    OnlyShotsIsAccounted(s, r);
  }

  lemma {:induction false} AttachIsAccounted(s: Player, i: nat)
    requires Accounted(s)
    ensures var r := Next(s, Attach(i)); Accounted(r) && Grown(s, r)
    ensures i < |s.shots| && s.shots[i].taken.Some? ==>
              var x := s.shots[i];
              var r := Next(s, Attach(i));
              if OnScreen(s, x.placement, x.token) then
                OnScreen(r, x.placement, x.token) && SlotOf(r, x.placement).showing.value.proof == x.taken
              else r.slots == s.slots && r.proofHours == s.proofHours
  {
    hide TallyOk, FreedOk, LoggedOk;
    var r := Next(s, Attach(i));
    forall q ensures SlotOk(r, q) {
      assert SlotOk(s, q);
      if i < |s.shots| { assert ShotOk(s, s.shots[i]); }
    }
    forall j | 0 <= j < |r.shots| ensures ShotOk(r, r.shots[j]) {
      assert ShotOk(s, s.shots[if |r.shots| == |s.shots| || j < i then j else j + 1]);
    }
    OnlyShotsIsAccounted(s, r);
  }

  lemma {:induction false} IdleIsAccounted(s: Player, p: Placement, book: Book)
    requires Accounted(s)
    ensures Accounted(s.(slots := s.slots[p := SlotOf(s, p)], book := book))
  {
    hide Times;
    var r := s.(slots := s.slots[p := SlotOf(s, p)], book := book);
    assert forall q :: SlotOf(r, q) == SlotOf(s, q);
    assert Grown(s, r);
    FactsStay(s, r);
    forall q ensures SlotOk(r, q) { assert SlotOk(s, q); }
    forall k | 0 <= k ensures TallyOk(r, k) {
      assert TallyOk(s, k);
      assert Shown(r, k) == Shown(s, k);
    }
  }

  lemma {:induction false} LaterIsAccounted(s: Player)
    requires Accounted(s)
    ensures Accounted(s.(clock := s.clock + 1))
  {
    hide Times;
    var r := s.(clock := s.clock + 1);
    assert Grown(s, r);
    FactsStay(s, r);
    forall q ensures SlotOk(r, q) { assert SlotOk(s, q); }
    forall k | 0 <= k ensures TallyOk(r, k) {
      assert TallyOk(s, k);
      assert Shown(r, k) == Shown(s, k);
    }
  }

  lemma {:induction false} ServedIsAccounted(s: Player, p: Placement, queue: seq<Ad>, wall: int, mono: int)
    requires Accounted(s)
    ensures var r := Next(s, Serve(p, queue, wall, mono)); Accounted(r) && Grown(s, r)
  {
    hide Accounted, DueIn, Started, Finished;
    var slot := SlotOf(s, p);
    var s1 := s.(slots := s.slots[p := slot]);
    IdleIsAccounted(s, p, s.book);
    if slot.showing.Some? {
      if mono > slot.showing.value.deadline {
        FinishedIsAccounted(s1, p, slot.showing.value.token, PL.Error, mono);
      } else {
        LaterIsAccounted(s1);
      }
    } else if mono < slot.idleUntil {
      LaterIsAccounted(s1);
    } else {
      var (due, book) := DueIn(s.book, s.log, queue);
      var s2 := s1.(book := book);
      IdleIsAccounted(s, p, book);
      if due == [] {
        LaterIsAccounted(s2);
      } else {
        StartedIsAccounted(s2, p, due[slot.index % |due|], (slot.index + 1) % |due|, wall, mono);
      }
    }
  }

  lemma {:induction false} RestartIsAccounted(s: Player)
    requires Accounted(s)
    ensures Accounted(Next(s, Restart))
  {
    var r := Next(s, Restart);
    forall j | 0 <= j < |r.log| ensures LoggedOk(r, r.log[j]) { assert LoggedOk(s, s.log[j]); }
    forall k | 0 <= k ensures TallyOk(r, k) { assert TallyOk(s, k); }
  }

  lemma {:induction false} StepIsAccounted(s: Player, step: Step)
    requires Accounted(s)
    ensures Accounted(Next(s, step))
    ensures step != Restart ==> Grown(s, Next(s, step))
  {
    hide Accounted;
    match step
    case Serve(p, queue, wall, mono) => ServedIsAccounted(s, p, queue, wall, mono);
    case Finish(p, token, status, mono) => FinishedIsAccounted(s, p, token, status, mono);
    case WriteRow(i, ended) =>
      if i < |s.freed| { RowIsAccounted(s, i, ended); } else { LaterIsAccounted(s); }
    case CheckShot(p, token, hour) => CheckIsAccounted(s, p, token, hour);
    case Grab(i) => GrabIsAccounted(s, i);
    case Attach(i) => AttachIsAccounted(s, i);
    case Restart => RestartIsAccounted(s);
  }

  /** In every reachable state every play of the process is on screen, about to be logged or logged: exactly once. */
  lemma {:induction false} EveryPlayIsLoggedOnce(s: Player, steps: seq<Step>)
    requires Accounted(s)
    ensures Accounted(AfterSteps(s, steps))
    decreases |steps|
  {
    hide Accounted, Next;
    if steps == [] {
    } else {
      StepIsAccounted(s, steps[0]);
      EveryPlayIsLoggedOnce(Next(s, steps[0]), steps[1..]);
    }
  }

  lemma FreshIsAccounted()
    ensures Accounted(FRESH)
  {
  }

  // ------------------------------------------------------------ what a row tells of the end

  lemma {:induction false} OneMoreStep(s: Player, steps: seq<Step>, last: Step)
    ensures AfterSteps(s, steps + [last]) == Next(AfterSteps(s, steps), last)
    decreases |steps|
  {
    hide Next;
    if steps == [] {
      assert steps + [last] == [last] && [last][1..] == [];
    } else {
      assert (steps + [last])[1..] == steps[1..] + [last];
      OneMoreStep(Next(s, steps[0]), steps[1..], last);
    }
  }

  /** The player after the first k steps of a run from nothing. */
  function At(steps: seq<Step>, k: nat): Player
    requires k <= |steps|
  {
    AfterSteps(FRESH, steps[..k])
  }

  lemma AtFirst(steps: seq<Step>)
    ensures At(steps, 0) == FRESH
  {
    assert steps[..0] == [];
  }

  lemma StepAt(steps: seq<Step>, k: nat)
    requires k < |steps|
    ensures At(steps, k + 1) == Next(At(steps, k), steps[k])
  {
    hide AfterSteps, Next;
    assert steps[..k + 1] == steps[..k] + [steps[k]];
    OneMoreStep(FRESH, steps[..k], steps[k]);
  }

  /** This step takes the play with this token off the screen of p, and why: a callback's status, or the watchdog's. */
  ghost predicate Ends(s: Player, step: Step, p: Placement, token: nat, status: PL.Status) {
    && OnScreen(s, p, token)
    && ((step.Finish? && step.at == p && step.token == token && step.status == status)
        || (step.Serve? && step.where == p && status == PL.Error && step.mono > SlotOf(s, p).showing.value.deadline))
  }

  /** Every step frees what it ends, with the status it ended with, and nothing else. */
  lemma StepFrees(s: Player, step: Step)
    ensures step != Restart && !step.WriteRow? ==>
              var r := Next(s, step);
              r.freed == s.freed
              || exists f :: r.freed == s.freed + [f] && Ends(s, step, f.placement, f.play, f.status)
  {
    hide DueIn, PlayTime, Pause;
    match step
    case Serve(p, queue, wall, mono) =>
      if SlotOf(s, p).showing.Some? && mono > SlotOf(s, p).showing.value.deadline {
        var x := SlotOf(s, p).showing.value;
        assert Ends(s, step, p, x.token, PL.Error);
      }
    case Finish(p, token, status, mono) =>
      if OnScreen(s, p, token) {
        assert Ends(s, step, p, token, status);
      }
    case WriteRow(_, _) =>
    case CheckShot(_, _, _) =>
    case Grab(_) =>
    case Attach(_) =>
    case Restart =>
  }

  /** What waits to be written was ended by the step that says so. */
  lemma {:induction false} FreedTellsTheEnd(steps: seq<Step>, k: nat, i: nat) returns (c: nat)
    requires k <= |steps| && i < |At(steps, k).freed|
    ensures var f := At(steps, k).freed[i];
            c < k && Ends(At(steps, c), steps[c], f.placement, f.play, f.status)
    decreases k
  {
    hide Next, Ends;
    if k == 0 {
      AtFirst(steps);
      assert false;
    } else {
      StepAt(steps, k - 1);
      var s, step := At(steps, k - 1), steps[k - 1];
      hide AfterSteps, At;
      FreedBefore(s, step, i);
      var j := if step.WriteRow? && step.row < |s.freed| && i >= step.row then i + 1 else i;
      if j < |s.freed| {
        c := FreedTellsTheEnd(steps, k - 1, j);
      } else {
        c := k - 1;
      }
    }
  }

  lemma FreedBefore(s: Player, step: Step, i: nat)
    requires i < |Next(s, step).freed|
    ensures step != Restart
    ensures var f := Next(s, step).freed[i];
            var j := if step.WriteRow? && step.row < |s.freed| && i >= step.row then i + 1 else i;
            if j < |s.freed| then f == s.freed[j] else Ends(s, step, f.placement, f.play, f.status)
  {
    if step != Restart && !step.WriteRow? {
      hide Next, Ends;
      StepFrees(s, step);
    }
  }

  /**
   In every run a row of the log tells how its play ended: a step took it off the screen with the status that the row has,
   a callback with its own or the watchdog with an error after the play's deadline; a later step wrote the row and its end.
   */
  lemma {:induction false} RowTellsTheEnd(steps: seq<Step>, k: nat, j: nat) returns (c: nat, w: nat)
    requires k <= |steps| && j < |At(steps, k).log|
    ensures var r := At(steps, k).log[j];
            && c < w < k && Ends(At(steps, c), steps[c], r.placement, r.play, r.status)
            && steps[w].WriteRow? && steps[w].ended == r.ended
            && |At(steps, w).log| == j && |At(steps, w + 1).log| == j + 1
    decreases k
  {
    hide Next, Ends;
    if k == 0 {
      AtFirst(steps);
      assert false;
    } else {
      StepAt(steps, k - 1);
      var s, step := At(steps, k - 1), steps[k - 1];
      hide AfterSteps, At;
      LogBefore(s, step);
      if j < |s.log| {
        c, w := RowTellsTheEnd(steps, k - 1, j);
      } else {
        c := FreedTellsTheEnd(steps, k - 1, step.row);
        w := k - 1;
      }
    }
  }

  /** Only WriteRow adds to the log, and it adds the row of the play it names. */
  lemma LogBefore(s: Player, step: Step)
    ensures var r := Next(s, step);
            if step.WriteRow? && step.row < |s.freed| then
              var f := s.freed[step.row];
              r.log == s.log + [PL.Record(f.play, f.ad.id, f.placement, f.status, f.started, step.ended, f.proof)]
            else r.log == s.log
  {
    hide DueIn, PlayTime, Pause;
  }
}
