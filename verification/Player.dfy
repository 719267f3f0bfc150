/** A hierarchical player with two orthogonal regions, a submachine with history, a deferred event
    and an interrupt state (libs/msm/doc/HTML/examples/BoostCon09Full.cpp). */
module Players {
  import opened Options

  datatype Disk = CD | DVD

  datatype Event =
    | Play | EndPause | Stop | Pause | OpenClose | NextSong | PreviousSong | AllSongsPlayed
    | ErrorFound | EndError | CdDetected(disk: Disk)

  datatype Deck = Empty | Open | Stopped | Playing | Paused
  datatype Song = Song1 | Song2 | Song3 | CDFinished
  datatype Health = AllOk | ErrorMode

  // The two regions, the last active state of the Playing submachine, and the number of
  // deferred play events.
  datatype Machine = Machine(deck: Deck, song: Song, health: Health, deferred: nat)

  // ---- The tables ----

  function SongRow(song: Song, e: Event): Option<Song> {
    match (song, e)
    case (Song1, NextSong) => Some(Song2)
    case (Song2, PreviousSong) => Some(Song1)
    case (Song2, NextSong) => Some(Song3)
    case (Song3, PreviousSong) => Some(Song2)
    case (Song3, NextSong) => Some(CDFinished)
    case _ => None
  }

  // The exit point is the source of the last Playing row, so that row needs the song to be over.
  function DeckRow(deck: Deck, song: Song, e: Event): Option<Deck> {
    match (deck, e)
    case (Stopped, Play) => Some(Playing)
    case (Stopped, OpenClose) => Some(Open)
    case (Stopped, Stop) => Some(Stopped)
    case (Open, OpenClose) => Some(Empty)
    case (Empty, OpenClose) => Some(Open)
    case (Empty, CdDetected(disk)) => if disk == CD then Some(Stopped) else None
    case (Playing, Stop) => Some(Stopped)
    case (Playing, Pause) => Some(Paused)
    case (Playing, OpenClose) => Some(Open)
    case (Playing, AllSongsPlayed) => if song == CDFinished then Some(Stopped) else None
    case (Paused, EndPause) => Some(Playing)
    case (Paused, Stop) => Some(Stopped)
    case (Paused, OpenClose) => Some(Open)
    case _ => None
  }

  function HealthRow(health: Health, e: Event): Option<Health> {
    match (health, e)
    case (AllOk, ErrorFound) => Some(ErrorMode)
    case (ErrorMode, EndError) => Some(AllOk)
    case _ => None
  }

  predicate Defers(deck: Deck, e: Event) {
    deck in {Empty, Open} && e == Play
  }

  // Entering Playing restores the last song only for end_pause.
  function EntrySong(song: Song, e: Event): Song {
    if e == EndPause then song else Song1
  }

  // ---- Processing one event, to completion ----

  // Both regions get the event; in Playing the submachine gets it before the outer table.
  function Dispatch(m: Machine, e: Event): (r: Machine)
    ensures r.deferred == m.deferred
  {
    var health := match HealthRow(m.health, e) case None => m.health case Some(h) => h;
    if m.deck == Playing && SongRow(m.song, e).Some? then
      m.(song := SongRow(m.song, e).value, health := health)
    else
      match DeckRow(m.deck, m.song, e)
      case None => m.(health := health)
      case Some(deck) =>
        m.(deck := deck, song := if deck == Playing then EntrySong(m.song, e) else m.song, health := health)
  }

  // The exit point forwards its event to the outer machine.
  function Forward(m: Machine): (r: Machine)
    ensures r.deferred == m.deferred
  {
    if m.deck == Playing && m.song == CDFinished then Dispatch(m, AllSongsPlayed) else m
  }

  // Deferred events are processed as soon as the state no longer defers them.
  function Replay(m: Machine): Machine
    decreases m.deferred
  {
    if m.deferred == 0 || Defers(m.deck, Play) then m
    else Replay(Forward(Dispatch(m.(deferred := m.deferred - 1), Play)))
  }

  function Step(m: Machine, e: Event): Machine {
    if m.health == ErrorMode && e != EndError then m
    else if Defers(m.deck, e) then m.(deferred := m.deferred + 1)
    else Replay(Forward(Dispatch(m, e)))
  }

  function Run(m: Machine, events: seq<Event>): Machine
    decreases |events|
  {
    if events == [] then m else Run(Step(m, events[0]), events[1..])
  }

  const START := Machine(Empty, Song1, AllOk, 0)

  // ---- The machine in place ----

  class Player {
    var deck: Deck
    var song: Song
    var health: Health
    var deferred: nat

    constructor ()
      ensures Value() == START
    {
      deck, song, health, deferred := Empty, Song1, AllOk, 0;
    }

    function Value(): Machine
      reads this
    {
      Machine(deck, song, health, deferred)
    }

    method ProcessEvent(e: Event)
      modifies this
      ensures Value() == Step(old(Value()), e)
    {
      if health == ErrorMode && e != EndError {
        return;
      }
      if Defers(deck, e) {
        deferred := deferred + 1;
        return;
      }
      Fire(e);
      ReplayDeferred();
    }

    // Take up deferred events until the state defers them again.
    method ReplayDeferred()
      modifies this
      ensures Value() == Replay(old(Value()))
    {
      while deferred > 0 && !Defers(deck, Play)
        invariant Replay(Value()) == Replay(old(Value()))
        decreases deferred
      {
        deferred := deferred - 1;
        Fire(Play);
      }
    }

    // Take the transitions for one event, and for the event that an exit point forwards.
    method Fire(e: Event)
      modifies this
      ensures Value() == Forward(Dispatch(old(Value()), e))
    {
      var inner := SongRow(song, e);
      var outer := DeckRow(deck, song, e);
      if deck == Playing && inner.Some? {
        song := inner.value;
      } else if outer.Some? {
        if outer.value == Playing {
          song := EntrySong(song, e);
        }
        deck := outer.value;
      }
      var next := HealthRow(health, e);
      if next.Some? {
        health := next.value;
      }
      if deck == Playing && song == CDFinished {
        deck := DeckRow(deck, song, AllSongsPlayed).value;
      }
    }
  }

  // ---- Invariants of every run ----

  // Play events are only queued while they are deferred, and the exit point is never rested in.
  ghost predicate Settled(m: Machine) {
    && (m.deferred > 0 ==> m.deck in {Empty, Open})
    && (m.deck in {Playing, Paused} ==> m.song != CDFinished)
  }

  lemma {:induction false} ReplaySettles(m: Machine)
    requires m.deck in {Playing, Paused} ==> m.song != CDFinished
    ensures Settled(Replay(m))
    decreases m.deferred
  {
    if m.deferred > 0 && !Defers(m.deck, Play) {
      ReplaySettles(Forward(Dispatch(m.(deferred := m.deferred - 1), Play)));
    }
  }

  lemma StepSettles(m: Machine, e: Event)
    requires Settled(m)
    ensures Settled(Step(m, e))
  {
    if !(m.health == ErrorMode && e != EndError) && !Defers(m.deck, e) {
      ReplaySettles(Forward(Dispatch(m, e)));
    }
  }

  lemma {:induction false} RunSettles(m: Machine, events: seq<Event>)
    requires Settled(m)
    ensures Settled(Run(m, events))
    decreases |events|
  {
    if events != [] {
      StepSettles(m, events[0]);
      RunSettles(Step(m, events[0]), events[1..]);
    }
  }

  // In a settled machine a step is one transition, followed by all the queued play events
  // if the state they waited for has been reached.
  lemma StepOfSettled(m: Machine, e: Event)
    requires Settled(m) && (m.health == AllOk || e == EndError) && !Defers(m.deck, e)
    ensures var n := Forward(Dispatch(m, e));
            Step(m, e) ==
            if m.deferred > 0 && n.deck == Stopped then n.(deck := Playing, song := Song1, deferred := 0) else n
  {
    var n := Forward(Dispatch(m, e));
    if m.deferred > 0 && n.deck == Stopped {
      var first := Forward(Dispatch(n.(deferred := n.deferred - 1), Play));
      assert first == n.(deck := Playing, song := Song1, deferred := n.deferred - 1);
      PlayingDropsPlays(first);
    }
  }

  // Play events that are replayed while playing are rejected.
  lemma {:induction false} PlayingDropsPlays(m: Machine)
    requires m.deck == Playing && m.song != CDFinished
    ensures Replay(m) == m.(deferred := 0)
    decreases m.deferred
  {
    if m.deferred > 0 {
      PlayingDropsPlays(m.(deferred := m.deferred - 1));
    }
  }

  // ---- Deferral ----

  // A good disk accepted with play events queued starts the first song.
  lemma QueuedPlayStartsFirstSong(m: Machine)
    requires Settled(m) && m.deck == Empty && m.health == AllOk
    ensures Step(m, CdDetected(CD)) ==
            if m.deferred > 0 then Machine(Playing, Song1, AllOk, 0) else m.(deck := Stopped)
    ensures Step(m, CdDetected(DVD)) == m
  {
    StepOfSettled(m, CdDetected(CD));
    StepOfSettled(m, CdDetected(DVD));
  }

  // How often an event arrives in a run while no error is pending.
  function Heard(e: Event, ok: bool, events: seq<Event>): nat
    decreases |events|
  {
    if events == [] then 0
    else
      (if ok && events[0] == e then 1 else 0) +
      Heard(e, if events[0] == ErrorFound then false else ok || events[0] == EndError, events[1..])
  }

  // The drawer opens if it is closed, and closes if it is open. Nothing else changes.
  lemma DrawerMoves(m: Machine)
    requires Settled(m) && m.health == AllOk
    ensures Step(m, OpenClose) == m.(deck := if m.deck == Open then Empty else Open)
  {
    StepOfSettled(m, OpenClose);
  }

  // Until a good disk arrives, the drawer is all that moves, and no play event is lost.
  lemma {:induction false} NoDiskNoLoss(m: Machine, events: seq<Event>)
    requires m.deck in {Empty, Open} && CdDetected(CD) !in events
    ensures var r := Run(m, events);
            && r.deck in {Empty, Open} && r.song == m.song
            && r.deferred == m.deferred + Heard(Play, m.health == AllOk, events)
    decreases |events|
  {
    if events != [] {
      assert events[0] in events;
      WaitingSteps(m, events[0]);
      NoDiskNoLoss(Step(m, events[0]), events[1..]);
    }
  }

  // The drawer is where it was after an even number of open_close events, and elsewhere after an odd number.
  lemma {:induction false} DrawerParity(m: Machine, events: seq<Event>)
    requires m.deck in {Empty, Open} && CdDetected(CD) !in events
    ensures Run(m, events).deck == m.deck <==> Heard(OpenClose, m.health == AllOk, events) % 2 == 0
    decreases |events|
  {
    if events != [] {
      assert events[0] in events;
      WaitingSteps(m, events[0]);
      DrawerParity(Step(m, events[0]), events[1..]);
      NoDiskNoLoss(Step(m, events[0]), events[1..]);
    }
  }

  lemma WaitingSteps(m: Machine, e: Event)
    requires m.deck in {Empty, Open} && e != CdDetected(CD)
    ensures m.health == ErrorMode ==> Step(m, e) == if e == EndError then m.(health := AllOk) else m
    ensures m.health == AllOk ==>
              Step(m, e) ==
              match e
              case Play => m.(deferred := m.deferred + 1)
              case OpenClose => m.(deck := if m.deck == Open then Empty else Open)
              case ErrorFound => m.(health := ErrorMode)
              case _ => m
  {
    if !Defers(m.deck, e) && (m.health == AllOk || e == EndError) {
      StepOfSettled(m, e);
    }
  }

  // A new player waits for its first good disk in the same way, with nothing queued before.
  lemma NewPlayerWaits(events: seq<Event>)
    requires CdDetected(CD) !in events
    ensures var r := Run(START, events);
            && r.deck == (if Heard(OpenClose, true, events) % 2 == 0 then Empty else Open)
            && r.deferred == Heard(Play, true, events) && r.song == Song1
  {
    NoDiskNoLoss(START, events);
    DrawerParity(START, events);
  }

  // And the disk starts its first song if a play event has been heard.
  lemma NewPlayerPlays(events: seq<Event>)
    requires CdDetected(CD) !in events && Run(START, events).health == AllOk && Run(START, events).deck == Empty
    ensures Run(START, events + [CdDetected(CD)]) ==
            Machine(if Heard(Play, true, events) > 0 then Playing else Stopped, Song1, AllOk, 0)
  {
    NewPlayerWaits(events);
    RunThen(START, events, [CdDetected(CD)]);
    RunOne(Run(START, events), CdDetected(CD));
    QueuedPlayStartsFirstSong(Run(START, events));
  }

  // ---- What leads where ----

  // Each state of the deck is entered in these ways only, and these events do nothing else to it.
  lemma DeckEntered(m: Machine, e: Event)
    requires Settled(m) && m.health == AllOk
    ensures var n := Step(m, e);
            && (n.deck == Open <==> (e == OpenClose && m.deck != Open) || (m.deck == Open && e != OpenClose))
            && (n.deck == Empty <==>
                  (e == OpenClose && m.deck == Open) || (m.deck == Empty && e !in {OpenClose, CdDetected(CD)}))
            && (n.deck == Paused <==>
                  (e == Pause && m.deck == Playing) || (m.deck == Paused && e !in {OpenClose, Stop, EndPause}))
            && (n.deck == Playing <==>
                  || (e == Play && m.deck == Stopped) || (e == EndPause && m.deck == Paused)
                  || (e == CdDetected(CD) && m.deck == Empty && m.deferred > 0)
                  || (m.deck == Playing && e !in {OpenClose, Stop, Pause} && !(e == NextSong && m.song == Song3)))
  {
    if !Defers(m.deck, e) {
      StepOfSettled(m, e);
    }
  }

  // The second region and the queue.
  lemma OthersChange(m: Machine, e: Event)
    requires Settled(m)
    ensures var n := Step(m, e);
            && (n.health == ErrorMode <==> e == ErrorFound || (m.health == ErrorMode && e != EndError))
            && (m.health == ErrorMode ==> n == m.(health := n.health))
            && n.deferred == (if m.health == AllOk && m.deck in {Empty, Open} && e == Play then m.deferred + 1
                              else if m.health == AllOk && m.deck == Empty && e == CdDetected(CD) then 0
                              else m.deferred)
  {
    if !Defers(m.deck, e) && (m.health == AllOk || e == EndError) {
      StepOfSettled(m, e);
    }
  }

  // The song changes by skipping, and by entering Playing other than at the end of a pause.
  lemma SongChanges(m: Machine, e: Event)
    requires Settled(m) && m.health == AllOk
    ensures Step(m, e).song ==
            if Step(m, e).deck == Playing && m.deck !in {Playing, Paused} then Song1
            else if m.deck != Playing then m.song
            else match e
              case NextSong => (match m.song case Song1 => Song2 case Song2 => Song3 case _ => CDFinished)
              case PreviousSong => if m.song == Song3 then Song2 else Song1
              case _ => m.song
  {
    if !Defers(m.deck, e) {
      StepOfSettled(m, e);
    }
  }

  // ---- Interruption ----

  // The rule for an interrupt state, over a run.
  lemma {:induction false} ErrorModeFreezes(m: Machine, events: seq<Event>)
    requires m.health == ErrorMode && EndError !in events
    ensures Run(m, events) == m
    decreases |events|
  {
    if events != [] {
      assert events[0] in events;
      ErrorModeFreezes(m, events[1..]);
    }
  }

  // Only the second region notices an error and its end.
  lemma ErrorSteps(m: Machine)
    requires Settled(m) && m.health == AllOk
    ensures Step(m, ErrorFound) == m.(health := ErrorMode)
    ensures Step(m.(health := ErrorMode), EndError) == m
  {
    StepOfSettled(m, ErrorFound);
    StepOfSettled(m.(health := ErrorMode), EndError);
  }

  // An error, whatever happens during it, and its end leave everything as it was.
  lemma ErrorLeavesNoTrace(m: Machine, events: seq<Event>)
    requires Settled(m) && m.health == AllOk && EndError !in events
    ensures Run(m, [ErrorFound] + events + [EndError]) == m
  {
    var broken := m.(health := ErrorMode);
    ErrorSteps(m);
    RunOne(m, ErrorFound);
    RunOne(broken, EndError);
    ErrorModeFreezes(broken, events);
    RunThen(m, [ErrorFound], events);
    RunThen(m, [ErrorFound] + events, [EndError]);
  }

  lemma RunOne(m: Machine, e: Event)
    ensures Run(m, [e]) == Step(m, e)
  {
    assert [e][1..] == [];
  }

  lemma {:induction false} RunThen(m: Machine, first: seq<Event>, second: seq<Event>)
    ensures Run(m, first + second) == Run(Run(m, first), second)
    decreases |first|
  {
    if first == [] {
      assert first + second == second;
    } else {
      assert (first + second)[0] == first[0] && (first + second)[1..] == first[1..] + second;
      RunThen(Step(m, first[0]), first[1..], second);
    }
  }

  // ---- History ----

  ghost predicate LeavesPause(e: Event) {
    e in {Stop, OpenClose, EndPause}
  }

  lemma {:induction false} PauseKeepsSong(m: Machine, events: seq<Event>)
    requires Settled(m) && m.deck == Paused
    requires forall e :: e in events ==> !LeavesPause(e)
    ensures Run(m, events).deck == Paused && Run(m, events).song == m.song
    ensures Settled(Run(m, events))
    decreases |events|
  {
    if events != [] {
      assert events[0] in events;
      StepSettles(m, events[0]);
      if m.health == AllOk || events[0] == EndError {
        StepOfSettled(m, events[0]);
      }
      PauseKeepsSong(Step(m, events[0]), events[1..]);
    }
  }

  // Pausing, anything that does not leave the pause, and ending the pause comes back to the song,
  // provided the end of the pause is not ignored because of an error.
  lemma PauseThenResume(m: Machine, events: seq<Event>)
    requires Settled(m) && m.deck == Playing && m.health == AllOk
    requires forall e :: e in events ==> !LeavesPause(e)
    ensures var paused := Run(m, [Pause] + events);
            var resumed := Run(m, [Pause] + events + [EndPause]);
            && paused.deck == Paused && resumed.song == m.song != CDFinished
            && resumed.deck == (if paused.health == AllOk then Playing else Paused)
  {
    StepOfSettled(m, Pause);
    StepSettles(m, Pause);
    RunOne(m, Pause);
    RunThen(m, [Pause], events);
    PauseKeepsSong(Step(m, Pause), events);
    var paused := Run(m, [Pause] + events);
    RunThen(m, [Pause] + events, [EndPause]);
    RunOne(paused, EndPause);
    if paused.health == AllOk {
      StepOfSettled(paused, EndPause);
    }
  }

  // However Playing is entered, other than by the end of a pause, it starts with the first song.
  lemma EntryStartsFirstSong(m: Machine, e: Event)
    requires Settled(m) && m.deck != Playing && Step(m, e).deck == Playing
    ensures if m.deck == Paused then e == EndPause && Step(m, e).song == m.song else Step(m, e).song == Song1
  {
    if !Defers(m.deck, e) {
      StepOfSettled(m, e);
    }
  }

  // ---- Skipping songs ----

  ghost predicate Skips(events: seq<Event>) {
    forall i :: 0 <= i < |events| ==> events[i] == NextSong || events[i] == PreviousSong
  }

  // How many songs the events go on, less those they go back.
  function Net(events: seq<Event>): int {
    if events == [] then 0 else Net(events[..|events| - 1]) + if events[|events| - 1] == NextSong then 1 else -1
  }

  function Number(song: Song): nat {
    match song
    case Song1 => 1
    case Song2 => 2
    case Song3 => 3
    case CDFinished => 4
  }

  // From song n, the events from i to j go past the third song: all of them from n,
  // or, after going back to the first song, some of them from there.
  ghost predicate GoesPast(n: nat, events: seq<Event>, i: nat, j: nat) {
    i <= j <= |events| && Net(events[i..j]) >= if i == 0 then 4 - n else 3
  }

  ghost predicate PastTheEnd(n: nat, events: seq<Event>) {
    exists i: nat, j: nat :: GoesPast(n, events, i, j)
  }

  // The song reached from song n: where the events lead from n, or, if going back has stopped at the first song
  // meanwhile, where the rest of them lead from there, whichever is more.
  ghost predicate LeadsTo(n: nat, events: seq<Event>, h: int) {
    && n + Net(events) <= h
    && (forall i: nat {:trigger events[i..]} :: i <= |events| ==> 1 + Net(events[i..]) <= h)
    && (h == n + Net(events) || exists i: nat {:trigger events[i..]} :: i <= |events| && h == 1 + Net(events[i..]))
  }

  lemma NetLast(events: seq<Event>, e: Event)
    ensures Net(events + [e]) == Net(events) + if e == NextSong then 1 else -1
  {
    assert (events + [e])[..|events|] == events;
  }

  lemma NetFrom(events: seq<Event>, e: Event, i: nat)
    requires i <= |events|
    ensures Net((events + [e])[i..]) == Net(events[i..]) + if e == NextSong then 1 else -1
  {
    NetLast(events[i..], e);
    assert (events + [e])[i..] == events[i..] + [e];
  }

  lemma NetOneMore(events: seq<Event>, e: Event)
    ensures Net(events + [e]) == Net(events) + if e == NextSong then 1 else -1
    ensures forall i: nat {:trigger (events + [e])[i..]} {:trigger events[i..]} :: i <= |events| ==>
              Net((events + [e])[i..]) == Net(events[i..]) + if e == NextSong then 1 else -1
  {
    NetLast(events, e);
    forall i: nat | i <= |events|
      ensures Net((events + [e])[i..]) == Net(events[i..]) + if e == NextSong then 1 else -1
    {
      NetFrom(events, e, i);
    }
  }

  lemma LeadsOneMore(n: nat, events: seq<Event>, e: Event, h: int)
    requires LeadsTo(n, events, h) && h >= 1
    ensures LeadsTo(n, events + [e], if e == NextSong then h + 1 else if h > 1 then h - 1 else 1)
  {
    var longer, d := events + [e], if e == NextSong then 1 else -1;
    NetOneMore(events, e);
    assert longer[|longer|..] == [] && Net([]) == 0;
    forall i: nat | i <= |longer|
      ensures i <= |events| ==> 1 + Net(longer[i..]) <= h + d
      ensures i == |longer| ==> 1 + Net(longer[i..]) == 1
    {
    }
    if h + d >= 1 && h != n + Net(events) {
      var i: nat :| i <= |events| && h == 1 + Net(events[i..]);
      assert h + d == 1 + Net(longer[i..]);
    }
  }

  // Going past the end happens with the last event or has happened before.
  lemma PastOneMore(n: nat, events: seq<Event>, e: Event, h: int)
    requires 1 <= n <= 3 && LeadsTo(n, events, h)
    ensures PastTheEnd(n, events + [e]) <==> PastTheEnd(n, events) || (e == NextSong && h >= 3)
  {
    if i: nat, j: nat :| GoesPast(n, events + [e], i, j) {
      PastBefore(n, events, e, h, i, j);
    }
    if PastTheEnd(n, events) {
      PastStays(n, events, e);
    }
    if e == NextSong && h >= 3 {
      PastNow(n, events, h);
    }
  }

  lemma PastBefore(n: nat, events: seq<Event>, e: Event, h: int, i: nat, j: nat)
    requires 1 <= n <= 3 && LeadsTo(n, events, h) && GoesPast(n, events + [e], i, j)
    ensures PastTheEnd(n, events) || (e == NextSong && h >= 3)
  {
    var longer := events + [e];
    if j <= |events| {
      assert events[i..j] == longer[i..j];
      assert GoesPast(n, events, i, j);
    } else if i <= |events| {
      NetFrom(events, e, i);
      assert longer[i..j] == longer[i..] && events[0..] == events;
      assert e != NextSong ==> events[i..|events|] == events[i..] && GoesPast(n, events, i, |events|);
    }
  }

  lemma PastNow(n: nat, events: seq<Event>, h: int)
    requires 1 <= n <= 3 && LeadsTo(n, events, h) && h >= 3
    ensures PastTheEnd(n, events + [NextSong])
  {
    if h == n + Net(events) {
      assert events[0..] == events;
      PastFrom(n, events, 0);
    } else {
      var i: nat :| i <= |events| && h == 1 + Net(events[i..]);
      PastFrom(n, events, i);
    }
  }

  lemma PastFrom(n: nat, events: seq<Event>, i: nat)
    requires i <= |events| && Net(events[i..]) + 1 >= if i == 0 then 4 - n else 3
    ensures PastTheEnd(n, events + [NextSong])
  {
    var longer := events + [NextSong];
    NetFrom(events, NextSong, i);
    assert longer[i..|longer|] == longer[i..];
    assert GoesPast(n, longer, i, |longer|);
  }

  // Songs only change while playing, and after the last one the player stops.
  lemma SongSteps(m: Machine)
    requires Settled(m) && m.health == AllOk
    ensures Step(m, NextSong) ==
            if m.deck != Playing then m
            else if m.song == Song3 then m.(deck := Stopped, song := CDFinished)
            else m.(song := if m.song == Song1 then Song2 else Song3)
    ensures Step(m, PreviousSong) ==
            if m.deck == Playing then m.(song := if m.song == Song3 then Song2 else Song1) else m
  {
    StepOfSettled(m, NextSong);
    StepOfSettled(m, PreviousSong);
  }

  // Going on and back any number of times, the player stops exactly when the songs are past the end,
  // and until then plays the song that the walk between the first song and the end leads to.
  lemma {:induction false} SkippingSongs(m: Machine, events: seq<Event>)
    requires Settled(m) && m.deck == Playing && m.health == AllOk && Skips(events)
    ensures var n, r := Number(m.song), Run(m, events);
            if PastTheEnd(n, events) then r == m.(deck := Stopped, song := CDFinished)
            else r == m.(song := r.song) && Number(r.song) <= 3 && LeadsTo(n, events, Number(r.song))
    decreases |events|
  {
    var n := Number(m.song);
    if events == [] {
      assert events[0..] == [] && Net([]) == 0;
      assert forall i: nat, j: nat :: i <= j <= |events| ==> events[i..j] == [];
    } else {
      var front, e := events[..|events| - 1], events[|events| - 1];
      assert events == front + [e];
      SkippingSongs(m, front);
      RunThen(m, front, [e]);
      RunOne(Run(m, front), e);
      RunSettles(m, front);
      SongSteps(Run(m, front));
      if PastTheEnd(n, front) {
        PastStays(n, front, e);
      } else {
        PastOneMore(n, front, e, Number(Run(m, front).song));
        LeadsOneMore(n, front, e, Number(Run(m, front).song));
      }
    }
  }

  lemma PastStays(n: nat, events: seq<Event>, e: Event)
    requires PastTheEnd(n, events)
    ensures PastTheEnd(n, events + [e])
  {
    var i: nat, j: nat :| GoesPast(n, events, i, j);
    assert (events + [e])[i..j] == events[i..j];
    assert GoesPast(n, events + [e], i, j);
  }

  // ---- Loading a disk ----

  // After stopping a loaded player and playing, nothing depends any more on what was played or paused before.
  lemma StopThenPlayForgets(m: Machine, n: Machine, events: seq<Event>)
    requires Settled(m) && m.health == AllOk && m.deck !in {Empty, Open}
    requires Settled(n) && n.health == AllOk && n.deck !in {Empty, Open}
    ensures Run(m, [Stop, Play] + events) == Run(n, [Stop, Play] + events)
    ensures Run(m, [Stop, Play] + events) == Run(Machine(Playing, Song1, AllOk, 0), events)
  {
    StopThenPlay(m);
    StopThenPlay(n);
    RunThen(m, [Stop, Play], events);
    RunThen(n, [Stop, Play], events);
  }

  lemma StopThenPlay(m: Machine)
    requires Settled(m) && m.health == AllOk && m.deck !in {Empty, Open}
    ensures Run(m, [Stop, Play]) == Machine(Playing, Song1, AllOk, 0)
  {
    RunOne(m, Stop);
    RunOne(Step(m, Stop), Play);
    RunThen(m, [Stop], [Play]);
    assert [Stop] + [Play] == [Stop, Play];
    Stops(m);
    Starts(Step(m, Stop));
  }

  lemma Stops(m: Machine)
    requires Settled(m) && m.health == AllOk && m.deck !in {Empty, Open}
    ensures Step(m, Stop) == m.(deck := Stopped) && m.deferred == 0
  {
    StepOfSettled(m, Stop);
  }

  lemma Starts(m: Machine)
    requires m.deck == Stopped && m.deferred == 0 && m.health == AllOk
    ensures Step(m, Play) == Machine(Playing, Song1, AllOk, 0)
  {
    StepOfSettled(m, Play);
  }

  // Closing the drawer on a disk plays it from the start if play has been pressed, and otherwise only loads it.
  lemma DiskLoads(m: Machine)
    requires m.deck == Open && m.health == AllOk
    ensures Run(m, [OpenClose, CdDetected(CD)]) ==
            if m.deferred > 0 then Machine(Playing, Song1, AllOk, 0) else m.(deck := Stopped)
  {
    var closed := m.(deck := Empty);
    StepOfSettled(m, OpenClose);
    RunOne(m, OpenClose);
    RunThen(m, [OpenClose], [CdDetected(CD)]);
    assert [OpenClose] + [CdDetected(CD)] == [OpenClose, CdDetected(CD)];
    RunOne(closed, CdDetected(CD));
    QueuedPlayStartsFirstSong(closed);
  }

  // Opening the drawer, pressing play any number of times, and closing the drawer on a disk resumes nothing:
  // the player stops, or starts over if play was pressed.
  lemma DrawerCycle(m: Machine, plays: seq<Event>)
    requires Settled(m) && m.health == AllOk && m.deck !in {Empty, Open}
    requires forall i :: 0 <= i < |plays| ==> plays[i] == Play
    ensures Run(m, [OpenClose] + plays + [OpenClose, CdDetected(CD)]) ==
            if plays != [] then Machine(Playing, Song1, AllOk, 0) else m.(deck := Stopped)
  {
    DrawerOpens(m);
    RunThen(m, [OpenClose], plays);
    QueuePlays(m.(deck := Open), plays);
    RunThen(m, [OpenClose] + plays, [OpenClose, CdDetected(CD)]);
    DiskLoads(m.(deck := Open, deferred := |plays|));
  }

  lemma DrawerOpens(m: Machine)
    requires Settled(m) && m.health == AllOk && m.deck !in {Empty, Open}
    ensures m.deferred == 0 && Run(m, [OpenClose]) == m.(deck := Open)
  {
    StepOfSettled(m, OpenClose);
    RunOne(m, OpenClose);
  }

  lemma {:induction false} QueuePlays(m: Machine, plays: seq<Event>)
    requires m.deck in {Empty, Open} && m.health == AllOk
    requires forall i :: 0 <= i < |plays| ==> plays[i] == Play
    ensures Run(m, plays) == m.(deferred := m.deferred + |plays|)
    decreases |plays|
  {
    if plays != [] {
      QueuePlays(Step(m, plays[0]), plays[1..]);
    }
  }
}
