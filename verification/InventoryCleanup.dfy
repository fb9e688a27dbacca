/** Removing the inventory container after a create that may have timed out. */
module InventoryCleanup {
  import opened Presence
  import opened Results
  import opened Text

  const IMAGE := "sha256:25ed3626e710081a571a86a29521eaf2e890e796afd422ba5e409e0ce1891635"
  // Milliseconds.
  const WINDOW := 5000
  const PAUSE := 100

  datatype Row = Row(identity: Option<string>, owner: Option<string>, image: string, neverStarted: bool)

  datatype Inspected = Absent | Fault | Present(row: Row)

  // An inspection is asked at one time and answered at a later one.
  datatype Event =
    | Inspect(name: string, asked: nat, answer: Inspected, answered: nat)
    | Remove(identity: string, confirmed: bool, answered: nat)

  datatype Trouble = WasStarted | ContainerTrouble | ScratchTrouble

  datatype Receipt = Receipt(removed: Option<string>, absent: bool, scratchRemoved: bool, errors: seq<Trouble>,
                             verified: bool)

  // Every answer is arbitrary; a command takes at least one tick.
  class Docker {
    var clock: nat
    ghost var log: seq<Event>

    constructor ()
      ensures log == []
    {
      clock, log := 0, [];
    }

    method Sleep()
      modifies this`clock
      ensures clock >= old(clock) + PAUSE
    {
      var delay: nat :| delay >= 0;
      clock := clock + PAUSE + delay;
    }

    method RunInspect(name: string) returns (answer: Inspected, ghost asked: nat)
      modifies this
      ensures clock > asked >= old(clock) && log == old(log) + [Inspect(name, asked, answer, clock)]
    {
      var drift: nat, delay: nat :| drift >= 0 && delay >= 0;
      answer := *;
      asked := clock + drift;
      clock := clock + drift + 1 + delay;
      log := log + [Inspect(name, asked, answer, clock)];
    }

    method RunRemove(identity: string) returns (confirmed: bool)
      modifies this
      ensures clock > old(clock) && log == old(log) + [Remove(identity, confirmed, clock)]
    {
      var delay: nat :| delay >= 0;
      clock := clock + 1 + delay;
      confirmed := *;
      log := log + [Remove(identity, confirmed, clock)];
    }
  }

  // This event shows a container of that identity with this run's nonce, made from the approved image.
  predicate ShowsOwn(e: Event, name: string, nonce: string, identity: string) {
    && e.Inspect? && e.name == name && e.answer.Present?
    && e.answer.row.owner == Some(nonce) && e.answer.row.image == IMAGE && e.answer.row.identity == Some(identity)
  }

  ghost predicate OnlyOwnRemoved(events: seq<Event>, name: string, nonce: string) {
    forall i :: 0 <= i < |events| && events[i].Remove? ==>
        i > 0 && ShowsOwn(events[i - 1], name, nonce, events[i].identity)
  }

  predicate ShowsStarted(e: Event, name: string, nonce: string) {
    && e.Inspect? && e.answer.Present? && !e.answer.row.neverStarted
    && e.answer.row.identity.Some? && ShowsOwn(e, name, nonce, e.answer.row.identity.value)
  }

  // The identity of the last removal the daemon confirmed.
  function LastRemoved(events: seq<Event>): Option<string> {
    if events == [] then None
    else if Last(events).Remove? && Last(events).confirmed then Some(Last(events).identity)
    else LastRemoved(Front(events))
  }

  ghost predicate Account(events: seq<Event>, name: string, nonce: string, r: Receipt) {
    && OnlyOwnRemoved(events, name, nonce)
    && r.removed == LastRemoved(events)
    && (r.errors == [] ==> forall e :: e in events ==> !ShowsStarted(e, name, nonce))
    && (WasStarted in r.errors ==> exists e :: e in events && ShowsStarted(e, name, nonce))
  }

  predicate AbsentRead(e: Event, name: string) {
    e.Inspect? && e.name == name && e.answer == Absent
  }

  // The run ends in two absent reads in a row, the second asked at least a pause after the first was answered.
  predicate StablyAbsent(events: seq<Event>, name: string) {
    var n := |events|;
    && n >= 2 && AbsentRead(events[n - 2], name) && AbsentRead(events[n - 1], name)
    && events[n - 1].asked >= events[n - 2].answered + PAUSE
  }

  // The answer after which cleanup gives up.
  predicate Halted(events: seq<Event>) {
    events != [] &&
    match Last(events)
    case Inspect(_, _, answer, _) => answer != Absent
    case Remove(_, confirmed, _) => !confirmed
  }

  // Nothing worse than a started container was added to the errors.
  ghost predicate OnlyStarted(r0: Receipt, r: Receipt) {
    r0.errors <= r.errors && forall t :: t in r.errors ==> t in r0.errors || t == WasStarted
  }

  lemma {:induction false} LastRemovedGrows(events: seq<Event>, e: Event)
    ensures LastRemoved(events + [e]) == if e.Remove? && e.confirmed then Some(e.identity) else LastRemoved(events)
  {
    assert Front(events + [e]) == events;
  }

  lemma {:induction false} AccountInspect(events: seq<Event>, name: string, nonce: string, r: Receipt, e: Event)
    requires Account(events, name, nonce, r) && e.Inspect? && !ShowsStarted(e, name, nonce)
    ensures Account(events + [e], name, nonce, r)
  {
    LastRemovedGrows(events, e);
    hide ShowsOwn, LastRemoved;
    assert forall x :: x in events ==> x in events + [e];
  }

  lemma {:induction false} AccountStarted(events: seq<Event>, name: string, nonce: string, r: Receipt, e: Event)
    requires Account(events, name, nonce, r) && ShowsStarted(e, name, nonce)
    ensures Account(events + [e], name, nonce, r.(errors := r.errors + [WasStarted]))
  {
    LastRemovedGrows(events, e);
    hide ShowsOwn, LastRemoved;
    assert e in events + [e];
  }

  lemma {:induction false} AccountRemove(events: seq<Event>, name: string, nonce: string, r: Receipt, e: Event)
    requires Account(events, name, nonce, r) && e.Remove? && events != []
             && ShowsOwn(Last(events), name, nonce, e.identity)
    ensures Account(events + [e], name, nonce, if e.confirmed then r.(removed := Some(e.identity)) else r)
  {
    LastRemovedGrows(events, e);
    hide ShowsOwn, LastRemoved;
    assert forall x :: x in events ==> x in events + [e];
  }

  lemma {:induction false} AccountError(events: seq<Event>, name: string, nonce: string, r: Receipt, t: Trouble)
    requires Account(events, name, nonce, r) && t != WasStarted
    ensures Account(events, name, nonce, r.(errors := r.errors + [t]))
  {
  }

  // inspect_owned_container followed, for a container of ours, by its removal.
  method InspectAndRemove(docker: Docker, name: string, nonce: string, r0: Receipt)
    returns (raised: bool, absent: bool, r: Receipt, ghost asked: nat)
    requires Account(docker.log, name, nonce, r0)
    modifies docker
    ensures docker.clock > asked >= old(docker.clock)
    ensures Account(docker.log, name, nonce, r) && r0.errors <= r.errors
    ensures if raised then r.errors != [] && Halted(docker.log) else OnlyStarted(r0, r)
    ensures absent ==>
            !raised && r == r0 && docker.log == old(docker.log) + [Inspect(name, asked, Absent, docker.clock)]
    ensures r.absent == r0.absent && r.scratchRemoved == r0.scratchRemoved
  {
    hide OnlyOwnRemoved, LastRemoved, Account;
    raised, absent, r := false, false, r0;
    ghost var log := docker.log;
    var answer;
    answer, asked := docker.RunInspect(name);
    ghost var e := Inspect(name, asked, answer, docker.clock);
    if answer == Absent {
      AccountInspect(log, name, nonce, r, e);
      absent := true;
      return;
    }
    if answer == Fault || answer.row.owner != Some(nonce) || answer.row.image != IMAGE || answer.row.identity.None? {
      AccountInspect(log, name, nonce, r, e);
      AccountError(log + [e], name, nonce, r, ContainerTrouble);
      raised, r := true, r.(errors := r.errors + [ContainerTrouble]);
      return;
    }
    var identity := answer.row.identity.value;
    if answer.row.neverStarted {
      AccountInspect(log, name, nonce, r, e);
    } else {
      AccountStarted(log, name, nonce, r, e);
      r := r.(errors := r.errors + [WasStarted]);
    }
    ghost var seen := docker.log;
    var confirmed := docker.RunRemove(identity);
    AccountRemove(seen, name, nonce, r, Remove(identity, confirmed, docker.clock));
    if confirmed {
      r := r.(removed := Some(identity));
    } else {
      AccountError(docker.log, name, nonce, r, ContainerTrouble);
      raised, r := true, r.(errors := r.errors + [ContainerTrouble]);
    }
  }

  // The reads that count so far end the log.
  predicate Counting(events: seq<Event>, name: string, consecutive: nat, clock: nat) {
    match consecutive
    case 0 => true
    case 1 => events != [] && AbsentRead(Last(events), name) && clock >= Last(events).answered + PAUSE
    case _ => consecutive == 2 && StablyAbsent(events, name)
  }

  // The container half of cleanup: it ends in stable absence, or is stopped for a cause.
  method CleanupContainer(docker: Docker, name: string, nonce: string, r0: Receipt) returns (done: bool, r: Receipt)
    requires Account(docker.log, name, nonce, r0)
    modifies docker
    ensures Account(docker.log, name, nonce, r) && r0.errors <= r.errors && r.scratchRemoved == r0.scratchRemoved
    ensures done ==> r.absent && StablyAbsent(docker.log, name) && OnlyStarted(r0, r)
    ensures !done ==> r.errors != [] && (Halted(docker.log) || docker.clock >= old(docker.clock) + WINDOW)
  {
    hide Account, StablyAbsent, Halted;
    done := false;
    var raised, absent;
    ghost var asked;
    raised, absent, r, asked := InspectAndRemove(docker, name, nonce, r0);
    if raised {
      return;
    }
    var consecutive := 0;
    var deadline := docker.clock + WINDOW;
    while consecutive < 2 && docker.clock < deadline
      invariant Account(docker.log, name, nonce, r) && OnlyStarted(r0, r) && r.scratchRemoved == r0.scratchRemoved
      invariant consecutive <= 2 && Counting(docker.log, name, consecutive, docker.clock)
      decreases if consecutive < 2 && docker.clock < deadline then deadline - docker.clock else 0
    {
      ghost var before := docker.log;
      raised, absent, r, asked := InspectAndRemove(docker, name, nonce, r);
      if raised {
        return;
      }
      if absent {
        if consecutive == 1 { TwoReads(before, name, Last(docker.log)); }
        consecutive := consecutive + 1;
        if consecutive < 2 {
          docker.Sleep();
        }
      } else {
        consecutive := 0;
      }
    }
    AccountAbsent(docker.log, name, nonce, r, consecutive == 2);
    r := r.(absent := consecutive == 2);
    done := r.absent;
    if !r.absent {
      AccountError(docker.log, name, nonce, r, ContainerTrouble);
      r := r.(errors := r.errors + [ContainerTrouble]);
    }
  }

  lemma {:induction false} TwoReads(events: seq<Event>, name: string, e: Event)
    requires events != [] && AbsentRead(Last(events), name) && AbsentRead(e, name)
             && e.asked >= Last(events).answered + PAUSE
    ensures StablyAbsent(events + [e], name)
  {
  }

  lemma {:induction false} AccountAbsent(events: seq<Event>, name: string, nonce: string, r: Receipt, flag: bool)
    requires Account(events, name, nonce, r)
    ensures Account(events, name, nonce, r.(absent := flag)) && Account(events, name, nonce, r.(scratchRemoved := flag))
    ensures Account(events, name, nonce, r.(verified := flag))
  {
  }

  ghost predicate Unstarted(events: seq<Event>, name: string, nonce: string) {
    forall e :: e in events ==> !ShowsStarted(e, name, nonce)
  }

  // cleanup, from an empty log. `gone`: removing the scratch directory returned, and it no longer exists. Verified
  // exactly without errors, and unverified only for a cause in the log, the clock or the scratch directory.
  method Cleanup(docker: Docker, name: string, nonce: string, gone: bool) returns (r: Receipt)
    requires docker.log == []
    modifies docker
    ensures Account(docker.log, name, nonce, r)
    ensures r.scratchRemoved == gone && (r.verified <==> r.errors == [])
    ensures r.verified ==> StablyAbsent(docker.log, name) && r.absent && gone
    ensures r.verified ==> Unstarted(docker.log, name, nonce)
    ensures !r.verified ==>
              || !gone || !Unstarted(docker.log, name, nonce)
              || Halted(docker.log) || docker.clock >= old(docker.clock) + WINDOW
  {
    r := Receipt(None, false, false, [], false);
    ghost var r0 := r;
    assert Account(docker.log, name, nonce, r);
    hide Account, StablyAbsent, Halted, Unstarted;
    var settled;
    settled, r := CleanupContainer(docker, name, nonce, r);
    ErrorsTell(docker.log, name, nonce, r);
    AccountAbsent(docker.log, name, nonce, r, gone);
    r := r.(scratchRemoved := gone);
    if !gone {
      AccountError(docker.log, name, nonce, r, ScratchTrouble);
      r := r.(errors := r.errors + [ScratchTrouble]);
    }
    AccountAbsent(docker.log, name, nonce, r, r.errors == [] && r.absent && r.scratchRemoved);
    r := r.(verified := r.errors == [] && r.absent && r.scratchRemoved);
    if settled && gone && r.errors != [] { assert r.errors[0] in r.errors; }
  }

  lemma {:induction false} ErrorsTell(events: seq<Event>, name: string, nonce: string, r: Receipt)
    requires Account(events, name, nonce, r)
    ensures r.errors == [] ==> Unstarted(events, name, nonce)
    ensures WasStarted in r.errors ==> !Unstarted(events, name, nonce)
  {
    hide OnlyOwnRemoved, ShowsStarted, LastRemoved;
  }

  // ----- what two separated absent reads are good for -----

  // Containers created and removed, each when that completes.
  datatype World = World(creations: iset<(string, nat)>, removals: iset<(string, nat)>)

  ghost predicate WasAbsent(w: World, e: Event)
    requires e.Inspect?
  {
    exists s :: e.asked <= s <= e.answered && !There(w.creations, w.removals, e.name, s)
  }

  // Every absent answer was right at some moment between its question and itself.
  ghost predicate Truthful(events: seq<Event>, w: World) {
    forall e :: e in events && e.Inspect? && e.answer == Absent ==> WasAbsent(w, e)
  }

  // A create that was still pending completes within a pause.
  ghost predicate InTime(w: World, name: string, answered: nat) {
    forall c :: (name, c) in w.creations ==> c <= answered + PAUSE
  }

  ghost predicate Gone(w: World, name: string, from: nat) {
    forall u :: u >= from ==> !There(w.creations, w.removals, name, u)
  }

  // Once the run has ended in its two reads, the container is gone for good, if a create still pending at the first of
  // them completes within a pause.
  lemma {:induction false} NothingRemains(events: seq<Event>, name: string, w: World)
    requires StablyAbsent(events, name) && Truthful(events, w) && InTime(w, name, events[|events| - 2].answered)
    ensures Gone(w, name, Last(events).answered)
  {
    var first, second := events[|events| - 2], Last(events);
    assert second in events && WasAbsent(w, second);
    hide There;
    var s :| second.asked <= s <= second.answered && !There(w.creations, w.removals, name, s);
    forall u | u >= second.answered ensures !There(w.creations, w.removals, name, u) {
      StaysAway(w.creations, w.removals, name, first.answered + PAUSE, s, u);
    }
  }

  // Reads closer together show nothing: then a create pending at the first can complete in time and after the second.
  lemma {:induction false} PauseExact(first: Event, second: Event, name: string)
    requires AbsentRead(first, name) && AbsentRead(second, name)
    requires first.asked <= first.answered <= second.asked <= second.answered
    ensures (forall w :: Truthful([first, second], w) && InTime(w, name, first.answered) ==>
            Gone(w, name, second.answered))
       <==> second.asked >= first.answered + PAUSE
  {
    hide There;
    if second.asked >= first.answered + PAUSE {
      forall w | Truthful([first, second], w) && InTime(w, name, first.answered)
          ensures Gone(w, name, second.answered) {
        NothingRemains([first, second], name, w);
      }
    } else {
      var c, t := second.asked + 1, second.answered + 1;
      var w := World(iset{(name, c)}, iset{});
      StaysThere(name, c, first.asked);
      StaysThere(name, c, second.asked);
      StaysThere(name, c, t);
      assert WasAbsent(w, first) && WasAbsent(w, second);
      assert !Gone(w, name, second.answered);
    }
  }
}
