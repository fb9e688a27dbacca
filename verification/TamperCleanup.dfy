/** Cleaning up after the tampered-plugin probe while the Docker daemon may still be finishing ambiguous commands. */
module TamperCleanup {
  import opened Ordering
  import opened Presence
  import opened Results
  import opened Text

  const APPROVED_IMAGE := "sha256:25ed3626e710081a571a86a29521eaf2e890e796afd422ba5e409e0ce1891635"
  // Milliseconds: the settle window, the slack after it, and the pause between rounds.
  const SETTLE := 15000
  const SLACK := 2000
  const PAUSE: nat := 100

  // What an inspection shows: Id, ownership label, and whether the container never ran.
  datatype Row = Row(identity: Option<string>, owner: Option<string>, neverStarted: bool)

  // Exit status 1, an error or malformed answer, or one row.
  datatype Inspected = Absent | Fault | Present(row: Row)

  datatype Removal = Removed | NotRemoved | RemovalFault

  datatype Listing = Listed(ids: set<string>) | ListingFault

  // One daemon command with its answer and the time the answer was given.
  datatype Event =
    | InspectContainer(name: string, answer: Inspected, time: nat)
    | RemoveContainer(identity: string, removal: Removal, time: nat)
    | ListImages(listing: Listing, time: nat)
    | InspectImage(identity: string, answer: Inspected, time: nat)
    | RemoveImage(identity: string, removal: Removal, time: nat)

  // A command the run recorded before cleanup. resolved: "commit_identity_resolved", when present.
  datatype Status = Completed | TimedOut | Interrupted | OutputLimited | UnexpectedExit
  datatype Command = Command(status: Status, argv: seq<string>, resolved: Option<bool>)

  datatype Trouble = WasStarted(name: string) | ContainerTrouble | ImageTrouble | RootTrouble

  datatype Receipt = Receipt(containersRemoved: seq<string>, imagesRemoved: seq<string>, rootRemoved: bool,
                             errors: seq<Trouble>, createSettled: bool, commitSettled: bool, reconciled: bool,
                             verified: bool)

  // The daemon and the clock: every answer and every delay is arbitrary, only time never runs backwards.
  class Daemon {
    var clock: nat
    ghost var log: seq<Event>

    ghost predicate Valid() reads this {
      forall e :: e in log ==> e.time <= clock
    }

    constructor ()
      ensures Valid() && log == []
    {
      clock, log := 0, [];
    }

    method Now() returns (now: nat)
      requires Valid()
      modifies this`clock
      ensures Valid() && old(clock) <= now == clock
    {
      var delay: nat :| delay >= 0;
      clock := clock + delay;
      now := clock;
    }

    method Sleep()
      requires Valid()
      modifies this`clock
      ensures Valid() && clock >= old(clock) + PAUSE
    {
      var delay: nat :| delay >= 0;
      clock := clock + PAUSE + delay;
    }

    method AskContainer(name: string) returns (answer: Inspected)
      requires Valid()
      modifies this
      ensures Valid() && clock >= old(clock) && log == old(log) + [InspectContainer(name, answer, clock)]
    {
      var now := Now();
      answer := *;
      log := log + [InspectContainer(name, answer, clock)];
    }

    method DropContainer(identity: string) returns (removal: Removal)
      requires Valid()
      modifies this
      ensures Valid() && clock >= old(clock) && log == old(log) + [RemoveContainer(identity, removal, clock)]
    {
      var now := Now();
      removal := *;
      log := log + [RemoveContainer(identity, removal, clock)];
    }

    // discover_owned_image
    method AskImages() returns (listing: Listing)
      requires Valid()
      modifies this
      ensures Valid() && clock >= old(clock) && log == old(log) + [ListImages(listing, clock)]
    {
      var now := Now();
      listing := *;
      log := log + [ListImages(listing, clock)];
    }

    method AskImage(identity: string) returns (answer: Inspected)
      requires Valid()
      modifies this
      ensures Valid() && clock >= old(clock) && log == old(log) + [InspectImage(identity, answer, clock)]
    {
      var now := Now();
      answer := *;
      log := log + [InspectImage(identity, answer, clock)];
    }

    method DropImage(identity: string) returns (removal: Removal)
      requires Valid()
      modifies this
      ensures Valid() && clock >= old(clock) && log == old(log) + [RemoveImage(identity, removal, clock)]
    {
      var now := Now();
      removal := *;
      log := log + [RemoveImage(identity, removal, clock)];
    }
  }

  // ----- what the log must look like -----

  predicate Removes(e: Event) {
    e.RemoveContainer? || e.RemoveImage?
  }

  // The removal is of the very object the event before it showed to carry this run's nonce.
  predicate Justifies(before: Event, removal: Event, nonce: string) {
    match removal
    case RemoveContainer(identity, _, _) =>
      && before.InspectContainer? && before.answer.Present?
      && before.answer.row.owner == Some(nonce) && before.answer.row.identity == Some(identity)
    case RemoveImage(identity, _, _) => ShowsOwnImage(before, nonce) && before.identity == identity
    case _ => true
  }

  predicate ShowsOwnImage(e: Event, nonce: string) {
    && e.InspectImage? && e.answer.Present? && e.identity != APPROVED_IMAGE
    && e.answer.row.owner == Some(nonce) && e.answer.row.identity == Some(e.identity)
  }

  ghost predicate OnlyOwnRemoved(events: seq<Event>, nonce: string) {
    forall i :: 0 <= i < |events| && Removes(events[i]) ==> i > 0 && Justifies(events[i - 1], events[i], nonce)
  }

  predicate ShowsStarted(e: Event, nonce: string) {
    && e.InspectContainer? && e.answer.Present? && e.answer.row.identity.Some?
    && e.answer.row.owner == Some(nonce) && !e.answer.row.neverStarted
  }

  ghost predicate Unstarted(events: seq<Event>, nonce: string) {
    forall e :: e in events ==> !ShowsStarted(e, nonce)
  }

  // The identities whose removal the daemon confirmed.
  function DroppedContainers(events: seq<Event>): set<string> {
    set e | e in events && e.RemoveContainer? && e.removal == Removed :: e.identity
  }

  function DroppedImages(events: seq<Event>): set<string> {
    set e | e in events && e.RemoveImage? && e.removal == Removed :: e.identity
  }

  // The receipt tells what the log shows, and an empty error list means no owned container was ever seen started.
  ghost predicate Account(events: seq<Event>, nonce: string, r: Receipt) {
    && OnlyOwnRemoved(events, nonce)
    && NoRepeats(r.containersRemoved) && Elements(r.containersRemoved) == DroppedContainers(events)
    && NoRepeats(r.imagesRemoved) && Elements(r.imagesRemoved) == DroppedImages(events)
    && (r.errors == [] ==> Unstarted(events, nonce))
    && forall name :: WasStarted(name) in r.errors ==>
       exists e :: e in events && ShowsStarted(e, nonce) && e.name == name
  }

  // Every name of the list, in order, inspected and absent, not before `since`.
  ghost predicate AbsentRound(events: seq<Event>, names: seq<string>, since: nat) {
    && |events| == |names|
    && forall i :: 0 <= i < |events| ==>
         events[i].InspectContainer? && events[i].name == names[i] && events[i].answer == Absent
             && events[i].time >= since
  }

  function Reverse(names: seq<string>): (r: seq<string>)
    ensures |r| == |names|
  {
    seq(|names|, i requires 0 <= i < |names| => names[|names| - 1 - i])
  }

  ghost predicate AnswersAbsent(e: Event, name: string, since: nat) {
    e.InspectContainer? && e.name == name && e.answer == Absent && e.time >= since
  }

  // The rounds ask about the names from the last to the first.
  lemma {:induction false} BackwardsExact(events: seq<Event>, names: seq<string>, since: nat)
    ensures AbsentRound(events, Reverse(names), since)
       <==> && |events| == |names|
            && forall i :: 0 <= i < |names| ==> AnswersAbsent(events[|names| - 1 - i], names[i], since)
  {
    var back := Reverse(names);
    if |events| == |names| {
      forall i | 0 <= i < |names| ensures back[|names| - 1 - i] == names[i] && names[|names| - 1 - i] == back[i] { }
      hide Reverse;
      if forall i :: 0 <= i < |names| ==> AnswersAbsent(events[|names| - 1 - i], names[i], since) {
        forall k | 0 <= k < |events| ensures AnswersAbsent(events[k], back[k], since) {
          var i := |names| - 1 - k;
          assert AnswersAbsent(events[|names| - 1 - i], names[i], since);
        }
      }
      if AbsentRound(events, back, since) {
        forall i | 0 <= i < |names| ensures AnswersAbsent(events[|names| - 1 - i], names[i], since) {
          assert AnswersAbsent(events[|names| - 1 - i], back[|names| - 1 - i], since);
        }
      }
    }
  }

  // Two consecutive absent rounds, the second entirely after the quiet time, and a last absent check of every name.
  ghost predicate StablyAbsent(events: seq<Event>, names: seq<string>, quiet: nat) {
    exists pre, r1, r2, last :: events == pre + r1 + r2 + last
      && AbsentRound(r1, Reverse(names), 0) && AbsentRound(r2, Reverse(names), quiet) && AbsentRound(last, names, quiet)
  }

  ghost predicate ImagesGone(events: seq<Event>, ids: seq<string>, since: nat) {
    && |events| == |ids|
    && forall i :: 0 <= i < |events| ==>
         events[i].InspectImage? && events[i].identity == ids[i] && events[i].answer == Absent
             && events[i].time >= since
  }

  // One image round: every known or listed image absent, and then nothing listed with the nonce.
  ghost predicate AbsentImages(events: seq<Event>, ids: seq<string>, since: nat) {
    exists listing, first: nat, checks, second: nat ::
      && events == [ListImages(Listed(listing), first)] + checks + [ListImages(Listed({}), second)]
      && first >= since && second >= since
      && ImagesGone(checks, ids, since) && listing <= Elements(ids)
  }

  // Everything known at the start and every image inspected so far.
  ghost predicate Covers(ids: set<string>, known: set<string>, events: seq<Event>) {
    known <= ids && forall e :: e in events && e.InspectImage? ==> e.identity in ids
  }

  ghost predicate ImagesStablyAbsent(events: seq<Event>, known: set<string>, quiet: nat) {
    exists pre, r1, r2, time: nat :: events == pre + r1 + r2 + [ListImages(Listed({}), time)] && time >= quiet
      && ImagesTwiceAbsent(pre, r1, r2, known, quiet)
  }

  // Both rounds look at every identity that was ever known.
  ghost predicate ImagesTwiceAbsent(pre: seq<Event>, r1: seq<Event>, r2: seq<Event>, known: set<string>, quiet: nat) {
    exists ids1, ids2 :: AbsentImages(r1, ids1, 0) && AbsentImages(r2, ids2, quiet)
      && Covers(Elements(ids1), known, pre + r1) && Covers(Elements(ids2), known, pre + r1 + r2)
  }

  ghost predicate OwnedImageSeen(events: seq<Event>, nonce: string) {
    exists e :: e in events && ShowsOwnImage(e, nonce)
  }

  // The answer that makes a half of cleanup give up when it comes last.
  predicate Stops(e: Event) {
    match e
    case InspectContainer(_, answer, _) => answer != Absent
    case RemoveContainer(_, removal, _) => removal == RemovalFault
    case ListImages(listing, _) => listing != Listed({})
    case InspectImage(_, answer, _) => answer != Absent
    case RemoveImage(_, removal, _) => removal == RemovalFault
  }

  ghost predicate Halted(events: seq<Event>) {
    events != [] && Stops(Last(events))
  }

  lemma {:induction false} HaltedLater(events: seq<Event>, more: seq<Event>)
    requires Halted(more)
    ensures Halted(events + more)
  {
  }

  lemma {:induction false} HaltedAt(events: seq<Event>, e: Event)
    requires Stops(e)
    ensures Halted(events + [e])
  {
  }

  ghost predicate OnlyContainers(events: seq<Event>) {
    forall e :: e in events ==> e.InspectContainer? || e.RemoveContainer?
  }

  ghost predicate OnlyImages(events: seq<Event>) {
    forall e :: e in events ==> e.ListImages? || e.InspectImage? || e.RemoveImage?
  }

  lemma {:induction false} ImagesApart(a: seq<Event>, b: seq<Event>)
    requires OnlyImages(a) && OnlyImages(b)
    ensures OnlyImages(a + b)
  {
  }

  lemma {:induction false} NoImageEvents()
    ensures OnlyImages([])
  {
  }

  lemma {:induction false} OneImageEvent(e: Event)
    requires e.ListImages? || e.InspectImage? || e.RemoveImage?
    ensures OnlyImages([e])
  {
  }

  // Nothing worse than a started container was added to the errors.
  ghost predicate OnlyStarted(r0: Receipt, r: Receipt) {
    forall t :: t in r.errors ==> t in r0.errors || t.WasStarted?
  }

  // ----- the log grows -----

  lemma {:induction false} AccountCommand(events: seq<Event>, nonce: string, r: Receipt, e: Event)
    requires Account(events, nonce, r) && !Removes(e) && !ShowsStarted(e, nonce)
    ensures Account(events + [e], nonce, r)
  {
    KeepsOwn(events, e, nonce);
    hide OnlyOwnRemoved;
    assert DroppedContainers(events + [e]) == DroppedContainers(events);
    assert DroppedImages(events + [e]) == DroppedImages(events);
  }

  lemma {:induction false} KeepsOwn(events: seq<Event>, e: Event, nonce: string)
    requires OnlyOwnRemoved(events, nonce) && (Removes(e) ==> events != [] && Justifies(Last(events), e, nonce))
    ensures OnlyOwnRemoved(events + [e], nonce)
  {
  }

  lemma {:induction false} AccountTrouble(events: seq<Event>, nonce: string, r: Receipt, e: Event, t: Trouble)
    requires Account(events, nonce, r) && !Removes(e)
    requires t.WasStarted? ==> ShowsStarted(e, nonce) && e.name == t.name
    ensures Account(events + [e], nonce, r.(errors := r.errors + [t]))
  {
    KeepsOwn(events, e, nonce);
    hide OnlyOwnRemoved;
    assert DroppedContainers(events + [e]) == DroppedContainers(events);
    assert DroppedImages(events + [e]) == DroppedImages(events);
    assert e in events + [e];
  }

  lemma {:induction false} AccountError(events: seq<Event>, nonce: string, r: Receipt, t: Trouble)
    requires Account(events, nonce, r) && !t.WasStarted?
    ensures Account(events, nonce, r.(errors := r.errors + [t]))
  {
  }

  function Noted(xs: seq<string>, x: string, removal: Removal): seq<string> {
    if removal == Removed && x !in xs then xs + [x] else xs
  }

  // A confirmed removal is put last, once.
  lemma {:induction false} NotedExact(xs: seq<string>, x: string, removal: Removal)
    ensures xs <= Noted(xs, x, removal) && |Noted(xs, x, removal)| <= |xs| + 1
    ensures forall y :: y in Noted(xs, x, removal) <==> y in xs || (y == x && removal == Removed)
    ensures x in xs ==> Noted(xs, x, removal) == xs
  {
  }

  lemma {:induction false} AccountContainer(events: seq<Event>, nonce: string, r: Receipt, e: Event)
    requires Account(events, nonce, r) && e.RemoveContainer? && events != [] && Justifies(Last(events), e, nonce)
    ensures Account(events + [e], nonce, r.(containersRemoved := Noted(r.containersRemoved, e.identity, e.removal)))
  {
    KeepsOwn(events, e, nonce);
    hide OnlyOwnRemoved, Justifies;
    assert e in events + [e];
    assert DroppedContainers(events + [e])
        == DroppedContainers(events) + if e.removal == Removed then {e.identity} else {};
    assert DroppedImages(events + [e]) == DroppedImages(events);
  }

  lemma {:induction false} AccountImage(events: seq<Event>, nonce: string, r: Receipt, e: Event)
    requires Account(events, nonce, r) && e.RemoveImage? && events != [] && Justifies(Last(events), e, nonce)
    ensures Account(events + [e], nonce, r.(imagesRemoved := Noted(r.imagesRemoved, e.identity, e.removal)))
  {
    KeepsOwn(events, e, nonce);
    hide OnlyOwnRemoved, Justifies;
    assert e in events + [e];
    assert DroppedImages(events + [e]) == DroppedImages(events) + if e.removal == Removed then {e.identity} else {};
    assert DroppedContainers(events + [e]) == DroppedContainers(events);
  }

  lemma {:induction false} RoundGrows(events: seq<Event>, names: seq<string>, i: nat, e: Event, since: nat)
    requires i < |names| && AbsentRound(events, names[..i], since)
    requires e.InspectContainer? && e.name == names[i] && e.answer == Absent && e.time >= since
    ensures AbsentRound(events + [e], names[..i + 1], since)
  {
  }

  // ----- containers -----

  datatype Owned = Gone | Mine(row: Row) | Refused

  // What an inspection of this name meant.
  predicate Means(owned: Owned, e: Event, name: string, nonce: string) {
    && e.InspectContainer? && e.name == name
    && match owned
       case Gone => e.answer == Absent
       case Mine(row) => e.answer == Present(row) && row.owner == Some(nonce) && row.identity.Some?
       case Refused =>
        e.answer == Fault
        || (e.answer.Present? && (e.answer.row.owner != Some(nonce) || e.answer.row.identity.None?))
  }

  // owned_container_for_cleanup
  method OwnedContainer(daemon: Daemon, name: string, nonce: string) returns (owned: Owned, ghost e: Event)
    requires daemon.Valid()
    modifies daemon
    ensures daemon.Valid() && daemon.clock >= old(daemon.clock) && daemon.log == old(daemon.log) + [e]
    ensures Means(owned, e, name, nonce) && e.time == daemon.clock
  {
    var answer := daemon.AskContainer(name);
    e := InspectContainer(name, answer, daemon.clock);
    match answer {
      case Absent => owned := Gone;
      case Fault => owned := Refused;
      case Present(row) => owned := if row.owner == Some(nonce) && row.identity.Some? then Mine(row) else Refused;
    }
  }

  // What one container of a round did to the log and the receipt.
  ghost predicate Visited(found: bool, added: seq<Event>, name: string, since: nat, r0: Receipt, r: Receipt) {
    && r == r0.(containersRemoved := r.containersRemoved, errors := r.errors) && r0.errors <= r.errors
    && added != [] && added[0].InspectContainer? && added[0].name == name && added[0].time >= since
    && (!found ==> r == r0 && |added| == 1 && added[0].answer == Absent)
    && OnlyContainers(added)
  }

  // docker container rm on a container whose inspection is the last event.
  method RemoveOwned(daemon: Daemon, nonce: string, row: Row, r0: Receipt)
    returns (raised: bool, r: Receipt, ghost drop: Event)
    requires daemon.Valid() && Account(daemon.log, nonce, r0) && daemon.log != [] && row.identity.Some?
    requires Last(daemon.log).InspectContainer? && Last(daemon.log).answer == Present(row) && row.owner == Some(nonce)
    modifies daemon
    ensures daemon.Valid() && daemon.clock >= old(daemon.clock) && daemon.log == old(daemon.log) + [drop]
    ensures Account(daemon.log, nonce, r) && if raised then r.errors != [] && Stops(drop) else r.errors == r0.errors
    ensures r == r0.(containersRemoved := r.containersRemoved, errors := r.errors) && r0.errors <= r.errors
    ensures drop.RemoveContainer?
  {
    hide Account;
    var identity := row.identity.value;
    var removal := daemon.DropContainer(identity);
    drop := RemoveContainer(identity, removal, daemon.clock);
    AccountContainer(old(daemon.log), nonce, r0, drop);
    raised, r := false, r0.(containersRemoved := Noted(r0.containersRemoved, identity, removal));
    if removal == RemovalFault {
      AccountError(daemon.log, nonce, r, ContainerTrouble);
      raised, r := true, r.(errors := r.errors + [ContainerTrouble]);
    }
  }

  method VisitContainer(daemon: Daemon, nonce: string, name: string, r0: Receipt)
    returns (raised: bool, found: bool, r: Receipt, ghost added: seq<Event>)
    requires daemon.Valid() && Account(daemon.log, nonce, r0)
    modifies daemon
    ensures daemon.Valid() && daemon.clock >= old(daemon.clock) && daemon.log == old(daemon.log) + added
    ensures Account(daemon.log, nonce, r) && if raised then r.errors != [] && Halted(added) else OnlyStarted(r0, r)
    ensures Visited(found || raised, added, name, old(daemon.clock), r0, r)
  {
    hide Account;
    ghost var log := daemon.log;
    raised, found, r := false, false, r0;
    var owned;
    ghost var e;
    owned, e := OwnedContainer(daemon, name, nonce);
    added := [e];
    match owned {
      case Gone => AccountCommand(log, nonce, r0, e);
      case Refused =>
        raised, r := true, r0.(errors := r0.errors + [ContainerTrouble]);
        AccountTrouble(log, nonce, r0, e, ContainerTrouble);
      case Mine(row) =>
        found := true;
        if row.neverStarted {
          AccountCommand(log, nonce, r, e);
        } else {
          AccountTrouble(log, nonce, r, e, WasStarted(name));
          r := r.(errors := r.errors + [WasStarted(name)]);
        }
        ghost var drop;
        raised, r, drop := RemoveOwned(daemon, nonce, row, r);
        added := [e, drop];
    }
  }

  // What a pass over some names did.
  ghost predicate Rounded(found: bool, round: seq<Event>, names: seq<string>, since: nat, r0: Receipt, r: Receipt) {
    && r == r0.(containersRemoved := r.containersRemoved, errors := r.errors) && r0.errors <= r.errors
    && (!found ==> r == r0 && AbsentRound(round, names, since))
    && OnlyContainers(round)
  }

  lemma {:induction false} RoundVisits(found0: bool, round: seq<Event>, names: seq<string>, i: nat, since: nat,
                                       r0: Receipt, r1: Receipt, found: bool, added: seq<Event>, later: nat, r: Receipt)
    requires i < |names| && Rounded(found0, round, names[..i], since, r0, r1)
    requires Visited(found, added, names[i], later, r1, r) && later >= since
    ensures Rounded(found0 || found, round + added, names[..i + 1], since, r0, r)
    ensures found0 || found ==> Rounded(true, round + added, names, since, r0, r)
  {
    if !found0 && !found {
      RoundGrows(round, names, i, added[0], since);
      assert added == [added[0]];
    }
  }

  // One pass over the names. `raised`: the source left the loop with an exception.
  method ContainerRound(daemon: Daemon, nonce: string, names: seq<string>, r0: Receipt)
    returns (raised: bool, found: bool, r: Receipt, ghost round: seq<Event>)
    requires daemon.Valid() && Account(daemon.log, nonce, r0)
    modifies daemon
    ensures daemon.Valid() && daemon.clock >= old(daemon.clock) && daemon.log == old(daemon.log) + round
    ensures Account(daemon.log, nonce, r) && if raised then r.errors != [] && Halted(round) else OnlyStarted(r0, r)
    ensures Rounded(found || raised, round, names, old(daemon.clock), r0, r)
  {
    raised, found, r, round := false, false, r0, [];
    ghost var log := daemon.log;
    assert Rounded(found, round, names[..0], daemon.clock, r0, r) && OnlyStarted(r0, r);
    hide *;
    for i := 0 to |names|
      invariant daemon.Valid() && daemon.clock >= old(daemon.clock) && daemon.log == log + round
      invariant Account(daemon.log, nonce, r) && Rounded(found, round, names[..i], old(daemon.clock), r0, r)
      invariant OnlyStarted(r0, r)
    {
      ghost var later, r1 := daemon.clock, r;
      var seen;
      ghost var added;
      raised, seen, r, added := VisitContainer(daemon, nonce, names[i], r);
      RoundVisits(found, round, names, i, old(daemon.clock), r0, r1, seen || raised, added, later, r);
      assert daemon.log == log + (round + added);
      if raised {
        HaltedLater(round, added);
        round := round + added;
        return;
      }
      StartedBefore(r0, r1, r);
      round := round + added;
      found := found || seen;
    }
    assert names[..|names|] == names;
  }

  lemma {:induction false} StartedBefore(r0: Receipt, r1: Receipt, r: Receipt)
    requires OnlyStarted(r0, r1) && OnlyStarted(r1, r)
    ensures OnlyStarted(r0, r)
  {
  }

  // The last check of every name; it removes nothing.
  method FinalCheck(daemon: Daemon, nonce: string, names: seq<string>, r0: Receipt)
    returns (absent: bool, r: Receipt, ghost events: seq<Event>)
    requires daemon.Valid() && Account(daemon.log, nonce, r0)
    modifies daemon
    ensures daemon.Valid() && daemon.clock >= old(daemon.clock) && daemon.log == old(daemon.log) + events
    ensures Account(daemon.log, nonce, r)
    ensures absent ==> r == r0 && AbsentRound(events, names, old(daemon.clock))
    ensures !absent ==> r == r0.(errors := r0.errors + [ContainerTrouble]) && Halted(events)
    ensures OnlyContainers(events)
  {
    events, r := [], r0;
    ghost var log := daemon.log;
    assert AbsentRound(events, names[..0], daemon.clock);
    hide Account, AbsentRound;
    for i := 0 to |names|
      invariant daemon.Valid() && daemon.clock >= old(daemon.clock) && daemon.log == log + events
      invariant Account(daemon.log, nonce, r0) && AbsentRound(events, names[..i], old(daemon.clock))
                && OnlyContainers(events)
    {
      ghost var before := daemon.log;
      var owned;
      ghost var e;
      owned, e := OwnedContainer(daemon, names[i], nonce);
      if !owned.Gone? {
        AccountTrouble(before, nonce, r0, e, ContainerTrouble);
        events := events + [e];
        return false, r0.(errors := r0.errors + [ContainerTrouble]), events;
      }
      AccountCommand(before, nonce, r0, e);
      RoundGrows(events, names, i, e, old(daemon.clock));
      events := events + [e];
    }
    assert names[..|names|] == names;
    absent := true;
  }

  // The rounds that count towards stable absence so far.
  ghost predicate Counting(events: seq<Event>, names: seq<string>, quiet: nat, consecutive: nat) {
    && consecutive <= 2
    && (consecutive == 1 ==> exists pre, r1 :: events == pre + r1 && AbsentRound(r1, names, 0))
    && (consecutive == 2 ==> exists pre, r1, r2 ::
          events == pre + r1 + r2 && AbsentRound(r1, names, 0) && AbsentRound(r2, names, quiet))
  }

  lemma {:induction false} NotCounted(events: seq<Event>, names: seq<string>, quiet: nat)
    ensures Counting(events, names, quiet, 0)
  {
  }

  lemma {:induction false} CountRound(events: seq<Event>, names: seq<string>, quiet: nat, consecutive: nat,
                                      r: seq<Event>, since: nat)
    requires Counting(events, names, quiet, consecutive) && consecutive < 2 && AbsentRound(r, names, since)
    requires consecutive == 1 ==> since >= quiet
    ensures Counting(events + r, names, quiet, consecutive + 1)
  {
    assert AbsentRound(r, names, 0);
    if consecutive == 0 {
      assert Counting(events + r, names, quiet, 1);
    } else {
      var pre, r1 :| events == pre + r1 && AbsentRound(r1, names, 0);
      assert AbsentRound(r, names, quiet);
      assert events + r == pre + r1 + r;
    }
  }

  lemma {:induction false} SettledBy(events: seq<Event>, names: seq<string>, quiet: nat, last: seq<Event>, since: nat)
    requires Counting(events, Reverse(names), quiet, 2) && AbsentRound(last, names, since) && since >= quiet
    ensures StablyAbsent(events + last, names, quiet)
  {
    var pre, r1, r2 :| events == pre + r1 + r2 && AbsentRound(r1, Reverse(names), 0)
        && AbsentRound(r2, Reverse(names), quiet);
    assert AbsentRound(last, names, quiet);
    assert events + last == pre + r1 + r2 + last;
  }

  // Two absent rounds in a row, in the reverse order of the names, the second from the quiet time on.
  ghost predicate TwiceAbsent(events: seq<Event>, names: seq<string>, quiet: nat) {
    exists pre, r1, r2, rest :: events == pre + r1 + r2 + rest
      && AbsentRound(r1, Reverse(names), 0) && AbsentRound(r2, Reverse(names), quiet)
  }

  lemma {:induction false} CountedTwice(events: seq<Event>, names: seq<string>, quiet: nat, rest: seq<Event>)
    requires Counting(events, Reverse(names), quiet, 2)
    ensures TwiceAbsent(events + rest, names, quiet)
  {
    hide AbsentRound, Reverse;
    var pre, r1, r2 :| events == pre + r1 + r2 && AbsentRound(r1, Reverse(names), 0)
        && AbsentRound(r2, Reverse(names), quiet);
    assert events + rest == pre + r1 + r2 + rest;
  }

  // The flag stays set, and is set once two rounds in a row were absent; until then something stopped the rounds.
  ghost predicate CreateFlag(r0: Receipt, r: Receipt, events: seq<Event>, names: seq<string>, quiet: nat, clock: nat) {
    && (r0.createSettled ==> r.createSettled)
    && (r.createSettled ==> r0.createSettled || TwiceAbsent(events, names, quiet + PAUSE))
    && (!r.createSettled ==> Halted(events) || clock >= quiet + SLACK)
  }

  lemma {:induction false} CreateUnset(r0: Receipt, r: Receipt, events: seq<Event>, names: seq<string>, quiet: nat,
                                       clock: nat)
    requires r.createSettled == r0.createSettled && (Halted(events) || clock >= quiet + SLACK)
    ensures CreateFlag(r0, r, events, names, quiet, clock)
  {
    hide Halted, TwiceAbsent;
  }

  lemma {:induction false} CreateSet(r0: Receipt, r: Receipt, events: seq<Event>, names: seq<string>, quiet: nat,
                                     clock: nat)
    requires r.createSettled && TwiceAbsent(events, names, quiet + PAUSE)
    ensures CreateFlag(r0, r, events, names, quiet, clock)
  {
    hide TwiceAbsent, Halted;
  }

  // What the container half leaves alone in the receipt.
  predicate OtherHalf(r0: Receipt, r: Receipt) {
    r.imagesRemoved == r0.imagesRemoved && r.commitSettled == r0.commitSettled && r.reconciled == r0.reconciled
    && r.rootRemoved == r0.rootRemoved && r0.errors <= r.errors
  }

  lemma {:induction false} RoundOther(found: bool, round: seq<Event>, names: seq<string>, since: nat, r0: Receipt,
                                      r1: Receipt, r: Receipt)
    requires OtherHalf(r0, r1) && Rounded(found, round, names, since, r1, r)
    ensures OtherHalf(r0, r) && (!found ==> AbsentRound(round, names, since)) && OnlyContainers(round)
    ensures r.createSettled == r1.createSettled
  {
  }

  // The rounds so far: how many in a row were absent, and a receipt with no worse trouble than started containers.
  ghost predicate Looked(events: seq<Event>, names: seq<string>, quiet: nat, consecutive: nat, r0: Receipt, r: Receipt)
  {
    && OtherHalf(r0, r) && OnlyStarted(r0, r) && OnlyContainers(events) && r.createSettled == r0.createSettled
    && consecutive <= 2 && Counting(events, Reverse(names), quiet + PAUSE, consecutive)
  }

  lemma {:induction false} NothingLooked(names: seq<string>, quiet: nat, r0: Receipt)
    ensures Looked([], names, quiet, 0, r0, r0)
  {
    hide Reverse;
  }

  // One turn of the loop: a round, and whether it counts.
  method CountContainers(daemon: Daemon, nonce: string, names: seq<string>, requiredQuietUntil: nat, consecutive0: nat,
                         r1: Receipt, ghost log: seq<Event>, ghost before: seq<Event>, ghost r0: Receipt)
    returns (raised: bool, consecutive: nat, r: Receipt, ghost events: seq<Event>)
    requires daemon.Valid() && daemon.log == log + before && Account(daemon.log, nonce, r1) && consecutive0 < 2
    requires Looked(before, names, requiredQuietUntil, consecutive0, r0, r1)
    requires consecutive0 == 1 ==> daemon.clock >= requiredQuietUntil + PAUSE
    modifies daemon
    ensures daemon.Valid() && daemon.clock >= old(daemon.clock) && daemon.log == log + events
    ensures Account(daemon.log, nonce, r)
    ensures raised ==> r.errors != [] && Halted(events) && OtherHalf(r0, r) && OnlyContainers(events)
    ensures raised ==> CreateFlag(r0, r, events, names, requiredQuietUntil, daemon.clock)
    ensures !raised ==>
              && Looked(events, names, requiredQuietUntil, consecutive, r0, r) && consecutive <= 2
              && (consecutive >= 1 ==> daemon.clock >= requiredQuietUntil)
              && (consecutive == 2 ==> daemon.clock >= requiredQuietUntil + PAUSE)
  {
    hide Account, AbsentRound, Counting, Rounded, OnlyStarted, Halted, OnlyContainers, Reverse, CreateFlag, OtherHalf;
    ghost var since := daemon.clock;
    consecutive := consecutive0;
    var found;
    ghost var round;
    raised, found, r, round := ContainerRound(daemon, nonce, Reverse(names), r1);
    RoundOther(found || raised, round, Reverse(names), since, r0, r1, r);
    AskedApart(before, round);
    events := before + round;
    JoinedLog(log, before, round);
    if raised {
      HaltedLater(before, round);
      CreateUnset(r0, r, events, names, requiredQuietUntil, daemon.clock);
      return;
    }
    StartedBefore(r0, r1, r);
    var later := daemon.Now();
    if found || later < requiredQuietUntil {
      NotCounted(events, Reverse(names), requiredQuietUntil + PAUSE);
      consecutive := 0;
    } else {
      CountRound(before, Reverse(names), requiredQuietUntil + PAUSE, consecutive, round, since);
      consecutive := consecutive + 1;
    }
  }

  // After the rounds: either two in a row were absent, or the deadline has passed.
  method EndContainers(daemon: Daemon, nonce: string, names: seq<string>, requiredQuietUntil: nat, consecutive: nat,
                       r1: Receipt, ghost log: seq<Event>, ghost before: seq<Event>, ghost r0: Receipt)
    returns (done: bool, r: Receipt, ghost events: seq<Event>)
    requires daemon.Valid() && daemon.log == log + before && Account(daemon.log, nonce, r1)
    requires Looked(before, names, requiredQuietUntil, consecutive, r0, r1)
    requires if consecutive == 2 then daemon.clock >= requiredQuietUntil + PAUSE
             else daemon.clock >= requiredQuietUntil + SLACK
    modifies daemon
    ensures daemon.Valid() && daemon.clock >= old(daemon.clock) && daemon.log == log + events
    ensures Account(daemon.log, nonce, r) && OtherHalf(r0, r) && OnlyContainers(events)
    ensures CreateFlag(r0, r, events, names, requiredQuietUntil, daemon.clock)
    ensures done ==> r.createSettled && StablyAbsent(events, names, requiredQuietUntil + PAUSE) && OnlyStarted(r0, r)
    ensures !done ==> r.errors != [] && (Halted(events) || daemon.clock >= requiredQuietUntil + SLACK)
  {
    hide Account, Counting, StablyAbsent, TwiceAbsent, OnlyStarted, Halted, OnlyContainers, Reverse, CreateFlag;
    if consecutive != 2 {
      AccountError(daemon.log, nonce, r1, ContainerTrouble);
      done, events, r := false, before, r1.(errors := r1.errors + [ContainerTrouble]);
      CreateUnset(r0, r, events, names, requiredQuietUntil, daemon.clock);
      return;
    }
    ghost var last;
    done, r, last := FinishContainers(daemon, nonce, names, r1, before, requiredQuietUntil + PAUSE);
    events := before + last;
    JoinedLog(log, before, last);
    CreateSet(r0, r, events, names, requiredQuietUntil, daemon.clock);
    if done {
      NothingStarted(r1, r);
      StartedBefore(r0, r1, r);
    }
  }

  // The container half of cleanup: it ends in stable absence after the settle window, or is stopped for a cause.
  method CleanupContainers(daemon: Daemon, nonce: string, names: seq<string>, ambiguous: bool, r0: Receipt)
    returns (done: bool, r: Receipt, ghost events: seq<Event>, ghost begun: nat, ghost quiet: nat)
    requires daemon.Valid() && Account(daemon.log, nonce, r0)
    modifies daemon
    ensures daemon.Valid() && daemon.clock >= old(daemon.clock) && daemon.log == old(daemon.log) + events
    ensures Account(daemon.log, nonce, r) && OtherHalf(r0, r) && OnlyContainers(events)
    ensures old(daemon.clock) <= begun <= daemon.clock && quiet == begun + if ambiguous then SETTLE else 0
    ensures CreateFlag(r0, r, events, names, quiet, daemon.clock)
    ensures done ==> r.createSettled && StablyAbsent(events, names, quiet + PAUSE) && OnlyStarted(r0, r)
    ensures !done ==> r.errors != [] && (Halted(events) || daemon.clock >= quiet + SLACK)
  {
    hide Account, StablyAbsent, OnlyStarted, Halted, OnlyContainers, CreateFlag, Looked, OtherHalf;
    done, r, events := false, r0, [];
    var now := daemon.Now();
    begun := now;
    var requiredQuietUntil := now + if ambiguous then SETTLE else 0;
    quiet := requiredQuietUntil;
    var deadline := requiredQuietUntil + SLACK;
    var consecutive := 0;
    NothingLooked(names, quiet, r0);
    now := daemon.Now();
    while consecutive < 2 && now < deadline
      invariant daemon.Valid() && daemon.clock >= old(daemon.clock) && 0 <= now <= daemon.clock
      invariant daemon.log == old(daemon.log) + events && Account(daemon.log, nonce, r)
      invariant Looked(events, names, quiet, consecutive, r0, r) && consecutive <= 2
      invariant consecutive >= 1 ==> daemon.clock >= quiet + PAUSE
      decreases if consecutive < 2 && now < deadline then deadline - now else 0
    {
      var raised;
      raised, consecutive, r, events :=
        CountContainers(daemon, nonce, names, requiredQuietUntil, consecutive, r, old(daemon.log), events, r0);
      if raised {
        return;
      }
      if consecutive < 2 {
        daemon.Sleep();
      }
      now := daemon.Now();
    }
    done, r, events :=
      EndContainers(daemon, nonce, names, requiredQuietUntil, consecutive, r, old(daemon.log), events, r0);
  }

  // After the rounds: every name is looked up once more.
  method FinishContainers(daemon: Daemon, nonce: string, names: seq<string>, r0: Receipt, ghost before: seq<Event>,
                          ghost quiet: nat)
    returns (done: bool, r: Receipt, ghost last: seq<Event>)
    requires daemon.Valid() && Account(daemon.log, nonce, r0)
    requires Counting(before, Reverse(names), quiet, 2) && daemon.clock >= quiet && OnlyContainers(before)
    modifies daemon
    ensures daemon.Valid() && daemon.clock >= old(daemon.clock) && daemon.log == old(daemon.log) + last
    ensures Account(daemon.log, nonce, r) && OtherHalf(r0, r) && OnlyContainers(before + last)
    ensures r.createSettled && TwiceAbsent(before + last, names, quiet)
    ensures done ==> r == r0.(createSettled := true) && StablyAbsent(before + last, names, quiet)
    ensures !done ==> r.errors != [] && Halted(before + last)
  {
    hide Account, AbsentRound, Counting, StablyAbsent, TwiceAbsent, Halted, OnlyContainers;
    AccountSettled(daemon.log, nonce, r0);
    r := r0.(createSettled := true);
    ghost var since := daemon.clock;
    done, r, last := FinalCheck(daemon, nonce, names, r);
    if done { SettledBy(before, names, quiet, last, since); } else { HaltedLater(before, last); }
    CountedTwice(before, names, quiet, last);
    AskedApart(before, last);
  }

  lemma {:induction false} NothingStarted(r0: Receipt, r: Receipt)
    requires r.errors == r0.errors
    ensures OnlyStarted(r0, r)
  {
  }

  lemma {:induction false} AskedApart(a: seq<Event>, b: seq<Event>)
    requires OnlyContainers(a) && OnlyContainers(b)
    ensures OnlyContainers(a + b)
  {
  }

  lemma {:induction false} AccountSettled(events: seq<Event>, nonce: string, r: Receipt)
    requires Account(events, nonce, r)
    ensures Account(events, nonce, r.(createSettled := true)) && Account(events, nonce, r.(commitSettled := true))
    ensures Account(events, nonce, r.(reconciled := true))
    ensures forall gone, verified :: Account(events, nonce, r.(rootRemoved := gone, verified := verified))
  {
  }

  // ----- images -----

  // An unresolved commit counts as reconciled exactly when an owned image is in the log.
  ghost predicate Reconciled(events: seq<Event>, nonce: string, unresolved: bool, r: Receipt) {
    if unresolved then r.reconciled <==> OwnedImageSeen(events, nonce) else r.reconciled
  }

  lemma {:induction false} ReconciledLater(events: seq<Event>, nonce: string, unresolved: bool, r0: Receipt,
                                           added: seq<Event>, r: Receipt)
    requires Reconciled(events, nonce, unresolved, r0)
    requires r.reconciled <==> r0.reconciled || (unresolved && OwnedImageSeen(added, nonce))
    ensures Reconciled(events + added, nonce, unresolved, r)
  {
    hide ShowsOwnImage;
    assert forall e :: e in events + added <==> e in events || e in added;
    if OwnedImageSeen(events, nonce) {
      var e :| e in events && ShowsOwnImage(e, nonce);
      assert e in events + added;
    }
    if OwnedImageSeen(added, nonce) {
      var e :| e in added && ShowsOwnImage(e, nonce);
      assert e in events + added;
    }
  }

  predicate FirstHalf(r0: Receipt, r: Receipt) {
    r.containersRemoved == r0.containersRemoved && r.createSettled == r0.createSettled
    && r.commitSettled == r0.commitSettled && r.rootRemoved == r0.rootRemoved && r0.errors <= r.errors
  }

  // The images a log asks about.
  function AskedImages(events: seq<Event>): set<string> {
    set e | e in events && e.InspectImage? :: e.identity
  }

  lemma {:induction false} AskedImagesApart(a: seq<Event>, b: seq<Event>)
    ensures AskedImages(a + b) == AskedImages(a) + AskedImages(b)
  {
    assert forall e :: e in a + b <==> e in a || e in b;
  }

  // A whole image round: when the loop test was passed, what was listed at its start, the pass over the known images,
  // what was listed at its end, and when the clock was read for counting it.
  datatype Trace = Trace(begun: nat, opening: set<string>, first: nat, pass: seq<Event>, closing: set<string>,
                         second: nat, ended: nat)

  function RoundEvents(t: Trace): seq<Event> {
    [ListImages(Listed(t.opening), t.first)] + t.pass + [ListImages(Listed(t.closing), t.second)]
  }

  function EventsOf(traces: seq<Trace>): seq<Event> {
    if traces == [] then [] else EventsOf(Front(traces)) + RoundEvents(Last(traces))
  }

  // The known images after some rounds: only the opening listings add to them.
  function KnownAfter(known: set<string>, traces: seq<Trace>): set<string> {
    if traces == [] then known else KnownAfter(known, Front(traces)) + Last(traces).opening
  }

  // One known image in a round: found absent, or found to be ours and then removed.
  ghost predicate Visit(events: seq<Event>, id: string, nonce: string) {
    || (|events| == 1 && events[0].InspectImage? && events[0].identity == id && events[0].answer == Absent)
    || (|events| == 2 && ShowsOwnImage(events[0], nonce) && events[0].identity == id
        && events[1].RemoveImage? && events[1].identity == id && events[1].removal != RemovalFault)
  }

  // The images of the list, visited in order.
  ghost predicate PassOver(pass: seq<Event>, ids: seq<string>, nonce: string)
    decreases |ids|
  {
    if ids == [] then pass == []
    else exists k :: 0 <= k <= |pass| && PassOver(pass[..k], Front(ids), nonce) && Visit(pass[k..], Last(ids), nonce)
  }

  predicate AllAbsent(pass: seq<Event>) {
    forall i :: 0 <= i < |pass| ==> pass[i].InspectImage? && pass[i].answer == Absent
  }

  // Answered one after the other, between two times.
  ghost predicate Between(events: seq<Event>, from: nat, until: nat) {
    && from <= until && (forall i :: 0 <= i < |events| ==> from <= events[i].time <= until)
    && forall i, j :: 0 <= i < j < |events| ==> events[i].time <= events[j].time
  }

  // A round that counts: nothing found, nothing listed afterwards, and the quiet time is over.
  predicate Counts(t: Trace, quiet: nat) {
    AllAbsent(t.pass) && t.closing == {} && t.ended >= quiet
  }

  function Streak(traces: seq<Trace>, quiet: nat): nat {
    if traces != [] && Counts(Last(traces), quiet) then Streak(Front(traces), quiet) + 1 else 0
  }

  // The rounds of the image loop: each asks, in order, about exactly the images known by then; each starts before the
  // deadline, not before the loop did and a pause after the round before it; and none starts once two in a row counted.
  ghost predicate Runs(known: set<string>, traces: seq<Trace>, start: nat, quiet: nat, nonce: string)
    decreases |traces|
  {
    traces != [] ==>
      var front, t := Front(traces), Last(traces);
      && Runs(known, front, start, quiet, nonce) && Streak(front, quiet) < 2
      && PassOver(t.pass, InOrder(KnownAfter(known, traces)), nonce) && Between(RoundEvents(t), t.begun, t.ended)
      && start <= t.begun < quiet + SLACK && (front != [] ==> t.begun >= Last(front).ended + PAUSE)
  }

  lemma {:induction false} BetweenWider(events: seq<Event>, from: nat, until: nat, earlier: nat, later: nat)
    requires Between(events, from, until) && earlier <= from && until <= later
    ensures Between(events, earlier, later)
  {
  }

  lemma {:induction false} BetweenApart(a: seq<Event>, b: seq<Event>, from: nat, middle: nat, until: nat)
    requires Between(a, from, middle) && Between(b, middle, until)
    ensures Between(a + b, from, until)
  {
  }

  method VisitImage(daemon: Daemon, nonce: string, identity: string, unresolved: bool, r0: Receipt)
    returns (raised: bool, found: bool, r: Receipt, ghost added: seq<Event>)
    requires daemon.Valid() && Account(daemon.log, nonce, r0) && Reconciled(daemon.log, nonce, unresolved, r0)
    modifies daemon
    ensures daemon.Valid() && daemon.clock >= old(daemon.clock) && daemon.log == old(daemon.log) + added
    ensures OnlyImages(added)
    ensures Account(daemon.log, nonce, r) && Reconciled(daemon.log, nonce, unresolved, r)
    ensures FirstHalf(r0, r) && if raised then r.errors != [] && Halted(added) else r.errors == r0.errors
    ensures !raised ==> Visit(added, identity, nonce) && (found <==> !AllAbsent(added))
    ensures !raised ==> Between(added, old(daemon.clock), daemon.clock)
  {
    hide Account, Reconciled, OnlyImages;
    ghost var log := daemon.log;
    raised, found, r := false, false, r0;
    var answer := daemon.AskImage(identity);
    ghost var e := InspectImage(identity, answer, daemon.clock);
    added := [e];
    OneImageEvent(e);
    if answer == Absent {
      AccountCommand(log, nonce, r, e);
      ReconciledLater(log, nonce, unresolved, r0, added, r);
      return;
    }
    found := true;
    if answer == Fault || identity == APPROVED_IMAGE || answer.row.identity != Some(identity)
        || answer.row.owner != Some(nonce) {
      AccountTrouble(log, nonce, r, e, ImageTrouble);
      raised, r := true, r.(errors := r.errors + [ImageTrouble]);
      ReconciledLater(log, nonce, unresolved, r0, added, r);
      return;
    }
    AccountCommand(log, nonce, r, e);
    if unresolved {
      AccountSettled(log + [e], nonce, r);
      r := r.(reconciled := true);
    }
    assert e in [e] && ShowsOwnImage(e, nonce);
    ReconciledLater(log, nonce, unresolved, r0, [e], r);
    ghost var drop;
    raised, r, drop := DropOwnImage(daemon, nonce, identity, unresolved, r);
    OneImageEvent(drop);
    ImagesApart([e], [drop]);
    added := [e, drop];
    assert [e] + [drop] == added;
  }

  // docker image rm on an image whose inspection is the last event.
  method DropOwnImage(daemon: Daemon, nonce: string, identity: string, unresolved: bool, r0: Receipt)
    returns (raised: bool, r: Receipt, ghost drop: Event)
    requires daemon.Valid() && Account(daemon.log, nonce, r0) && Reconciled(daemon.log, nonce, unresolved, r0)
    requires daemon.log != [] && ShowsOwnImage(Last(daemon.log), nonce) && Last(daemon.log).identity == identity
    modifies daemon
    ensures daemon.Valid() && daemon.clock >= old(daemon.clock) && daemon.log == old(daemon.log) + [drop]
    ensures Account(daemon.log, nonce, r) && Reconciled(daemon.log, nonce, unresolved, r) && drop.RemoveImage?
    ensures if raised then r.errors != [] && Stops(drop) else r.errors == r0.errors && drop.removal != RemovalFault
    ensures FirstHalf(r0, r) && drop.identity == identity && drop.time == daemon.clock
  {
    hide Account, Reconciled, ShowsOwnImage;
    ghost var log := daemon.log;
    var removal := daemon.DropImage(identity);
    drop := RemoveImage(identity, removal, daemon.clock);
    assert Justifies(Last(log), drop, nonce);
    AccountImage(log, nonce, r0, drop);
    raised, r := false, r0.(imagesRemoved := Noted(r0.imagesRemoved, identity, removal));
    if removal == RemovalFault {
      AccountError(daemon.log, nonce, r, ImageTrouble);
      raised, r := true, r.(errors := r.errors + [ImageTrouble]);
    }
    assert !OwnedImageSeen([drop], nonce) by { NotShown(drop, nonce); }
    ReconciledLater(log, nonce, unresolved, r0, [drop], r);
  }

  lemma {:induction false} NotShown(e: Event, nonce: string)
    requires !e.InspectImage?
    ensures !OwnedImageSeen([e], nonce)
  {
  }

  // A pass that went on over the first i images.
  ghost predicate Passing(found: bool, pass: seq<Event>, ids: seq<string>, i: nat, nonce: string, from: nat, until: nat,
                          r0: Receipt, r: Receipt) {
    && FirstHalf(r0, r) && r.errors == r0.errors && i <= |ids| && PassOver(pass, ids[..i], nonce)
    && Between(pass, from, until)
    && (found <==> !AllAbsent(pass))
  }

  lemma {:induction false} StartPassing(ids: seq<string>, nonce: string, from: nat, r0: Receipt)
    ensures Passing(false, [], ids, 0, nonce, from, from, r0, r0)
  {
  }

  lemma {:induction false} StillPassing(found0: bool, pass: seq<Event>, ids: seq<string>, i: nat, nonce: string,
                                        from: nat, middle: nat, until: nat, r0: Receipt, r1: Receipt, found: bool,
                                        added: seq<Event>, r: Receipt)
    requires i < |ids| && Passing(found0, pass, ids, i, nonce, from, middle, r0, r1)
    requires FirstHalf(r1, r) && r.errors == r1.errors && Visit(added, ids[i], nonce) && (found <==> !AllAbsent(added))
    requires Between(added, middle, until)
    ensures Passing(found0 || found, pass + added, ids, i + 1, nonce, from, until, r0, r)
  {
    BetweenApart(pass, added, from, middle, until);
    AbsentApart(pass, added);
    OnePassed(pass, ids, i, nonce, added);
    hide PassOver, Visit, Between, AllAbsent;
  }

  lemma {:induction false} OnePassed(pass: seq<Event>, ids: seq<string>, i: nat, nonce: string, added: seq<Event>)
    requires i < |ids| && PassOver(pass, ids[..i], nonce) && Visit(added, ids[i], nonce)
    ensures PassOver(pass + added, ids[..i + 1], nonce)
  {
    hide Visit;
    var all, some := pass + added, ids[..i + 1];
    assert Front(some) == ids[..i] && Last(some) == ids[i];
    assert all[..|pass|] == pass && all[|pass|..] == added;
  }

  lemma {:induction false} AbsentApart(a: seq<Event>, b: seq<Event>)
    ensures AllAbsent(a + b) <==> AllAbsent(a) && AllAbsent(b)
  {
    assert forall i :: 0 <= i < |a| ==> (a + b)[i] == a[i];
    assert forall i :: 0 <= i < |b| ==> (a + b)[|a| + i] == b[i];
  }

  lemma {:induction false} DonePassing(found: bool, pass: seq<Event>, ids: seq<string>, nonce: string, from: nat,
                                       until: nat, r0: Receipt, r: Receipt)
    requires Passing(found, pass, ids, |ids|, nonce, from, until, r0, r)
    ensures FirstHalf(r0, r) && r.errors == r0.errors && PassOver(pass, ids, nonce) && Between(pass, from, until)
    ensures found <==> !AllAbsent(pass)
  {
    assert ids[..|ids|] == ids;
  }

  lemma {:induction false} StoppedHalf(found: bool, pass: seq<Event>, ids: seq<string>, i: nat, nonce: string,
                                       from: nat, until: nat, r0: Receipt, r1: Receipt, r: Receipt)
    requires Passing(found, pass, ids, i, nonce, from, until, r0, r1) && FirstHalf(r1, r)
    ensures FirstHalf(r0, r)
  {
  }

  method ImagePass(daemon: Daemon, nonce: string, ids: seq<string>, unresolved: bool, r0: Receipt)
    returns (raised: bool, found: bool, r: Receipt, ghost pass: seq<Event>)
    requires daemon.Valid() && Account(daemon.log, nonce, r0) && Reconciled(daemon.log, nonce, unresolved, r0)
    modifies daemon
    ensures daemon.Valid() && daemon.clock >= old(daemon.clock) && daemon.log == old(daemon.log) + pass
    ensures OnlyImages(pass)
    ensures Account(daemon.log, nonce, r) && Reconciled(daemon.log, nonce, unresolved, r)
    ensures FirstHalf(r0, r) && if raised then r.errors != [] && Halted(pass) else r.errors == r0.errors
    ensures !raised ==> PassOver(pass, ids, nonce) && (found <==> !AllAbsent(pass))
    ensures !raised ==> Between(pass, old(daemon.clock), daemon.clock)
  {
    raised, found, r, pass := false, false, r0, [];
    ghost var log, from := daemon.log, daemon.clock;
    hide *;
    NoImageEvents();
    StartPassing(ids, nonce, from, r0);
    for i := 0 to |ids|
      invariant daemon.Valid() && daemon.clock >= from && daemon.log == log + pass && OnlyImages(pass)
      invariant Account(daemon.log, nonce, r) && Reconciled(daemon.log, nonce, unresolved, r)
      invariant Passing(found, pass, ids, i, nonce, from, daemon.clock, r0, r)
    {
      ghost var middle, r1 := daemon.clock, r;
      var seen;
      ghost var added;
      raised, seen, r, added := VisitImage(daemon, nonce, ids[i], unresolved, r);
      JoinedLog(log, pass, added);
      ImagesApart(pass, added);
      if raised {
        StoppedHalf(found, pass, ids, i, nonce, from, middle, r0, r1, r);
        HaltedLater(pass, added);
        pass := pass + added;
        return;
      }
      StillPassing(found, pass, ids, i, nonce, from, middle, daemon.clock, r0, r1, seen, added, r);
      found, pass := found || seen, pass + added;
    }
    DonePassing(found, pass, ids, nonce, from, daemon.clock, r0, r);
  }

  lemma {:induction false} JoinedLog(a: seq<Event>, b: seq<Event>, c: seq<Event>)
    ensures (a + b) + c == a + (b + c)
  {
  }

  lemma {:induction false} QuietRound(listing: set<string>, first: nat, pass: seq<Event>, second: nat, ids: seq<string>,
                                      since: nat)
    requires ImagesGone(pass, ids, since) && first >= since && second >= since && listing <= Elements(ids)
    ensures AbsentImages([ListImages(Listed(listing), first)] + pass + [ListImages(Listed({}), second)], ids, since)
  {
  }

  // discover_owned_image within cleanup
  method Discover(daemon: Daemon, nonce: string, unresolved: bool, r0: Receipt)
    returns (raised: bool, ids: set<string>, r: Receipt, ghost e: Event)
    requires daemon.Valid() && Account(daemon.log, nonce, r0) && Reconciled(daemon.log, nonce, unresolved, r0)
    modifies daemon
    ensures daemon.Valid() && daemon.clock >= old(daemon.clock) && daemon.log == old(daemon.log) + [e]
    ensures e.ListImages?
    ensures Account(daemon.log, nonce, r) && Reconciled(daemon.log, nonce, unresolved, r)
    ensures raised ==> r == r0.(errors := r0.errors + [ImageTrouble]) && Stops(e)
    ensures !raised ==> r == r0 && e == ListImages(Listed(ids), e.time) && old(daemon.clock) <= e.time == daemon.clock
  {
    hide Account, Reconciled;
    ghost var log := daemon.log;
    raised, r := false, r0;
    var listing := daemon.AskImages();
    e := ListImages(listing, daemon.clock);
    if listing == ListingFault {
      raised, ids, r := true, {}, r0.(errors := r0.errors + [ImageTrouble]);
      AccountTrouble(log, nonce, r0, e, ImageTrouble);
    } else {
      ids := listing.ids;
      AccountCommand(log, nonce, r0, e);
    }
    assert !OwnedImageSeen([e], nonce);
    ReconciledLater(log, nonce, unresolved, r0, [e], r);
  }

  // discover, visit every known image, discover again. `busy`: this round cannot count.
  method ImageRound(daemon: Daemon, nonce: string, known0: set<string>, unresolved: bool, r0: Receipt)
    returns (raised: bool, busy: bool, known: set<string>, r: Receipt, ghost round: seq<Event>, ghost trace: Trace)
    requires daemon.Valid() && Account(daemon.log, nonce, r0) && Reconciled(daemon.log, nonce, unresolved, r0)
    modifies daemon
    ensures daemon.Valid() && daemon.clock >= old(daemon.clock) && daemon.log == old(daemon.log) + round
    ensures OnlyImages(round)
    ensures Account(daemon.log, nonce, r) && Reconciled(daemon.log, nonce, unresolved, r)
    ensures FirstHalf(r0, r) && if raised then r.errors != [] && Halted(round) else r.errors == r0.errors
    ensures !raised ==>
              && round == RoundEvents(trace) && known == known0 + trace.opening
              && PassOver(trace.pass, InOrder(known), nonce)
              && Between(round, old(daemon.clock), daemon.clock)
              && (busy <==> !AllAbsent(trace.pass) || trace.closing != {})
  {
    hide *;
    ghost var log, start := daemon.log, daemon.clock;
    known, busy := known0, true;
    var listed;
    ghost var e;
    raised, listed, r, e := Discover(daemon, nonce, unresolved, r0);
    round, trace := [e], Trace(0, {}, 0, [], {}, 0, 0);
    OneImageEvent(e);
    TroubleHalf(r0, r0, r, raised);
    if raised {
      HaltedAt([], e);
      assert [] + [e] == [e];
      return;
    }
    known := known0 + listed;
    var found;
    ghost var pass, middle, r1 := [], daemon.clock, r;
    raised, found, r, pass := ImagePass(daemon, nonce, InOrder(known), unresolved, r);
    ghost var after, r2 := daemon.clock, r;
    HalfOn(r0, r1, r);
    ImagesApart([e], pass);
    round := [e] + pass;
    assert daemon.log == log + round;
    if raised {
      HaltedLater([e], pass);
      return;
    }
    var remaining;
    ghost var again;
    raised, remaining, r, again := Discover(daemon, nonce, unresolved, r);
    TroubleHalf(r0, r2, r, raised);
    OneImageEvent(again);
    ImagesApart([e] + pass, [again]);
    round := [e] + pass + [again];
    assert daemon.log == log + round;
    busy := found || remaining != {};
    trace := Trace(0, listed, e.time, pass, remaining, again.time, 0);
    TraceEvents(trace);
    if raised {
      HaltedAt([e] + pass, again);
    } else {
      RoundBetween(e, pass, again, start, middle, after, daemon.clock);
    }
  }

  lemma {:induction false} RoundBetween(e: Event, pass: seq<Event>, again: Event, from: nat, middle: nat, after: nat,
                                        until: nat)
    requires from <= e.time == middle && Between(pass, middle, after) && after <= again.time == until
    ensures Between([e] + pass + [again], from, until)
  {
    BetweenApart([e], pass, from, middle, after);
    BetweenApart([e] + pass, [again], from, after, until);
  }

  lemma {:induction false} TraceEvents(t: Trace)
    ensures RoundEvents(t) == [ListImages(Listed(t.opening), t.first)] + t.pass
            + [ListImages(Listed(t.closing), t.second)]
  {
  }

  lemma {:induction false} TroubleHalf(r0: Receipt, r1: Receipt, r: Receipt, raised: bool)
    requires r0 == r1 || FirstHalf(r0, r1)
    requires r == if raised then r1.(errors := r1.errors + [ImageTrouble]) else r1
    ensures FirstHalf(r0, r) && (raised ==> r.errors != [])
  {
  }

  // One turn of the loop: a round, and whether it counts.
  method CountImages(daemon: Daemon, nonce: string, known0: set<string>, unresolved: bool, now: nat,
                     requiredQuietUntil: nat, consecutive0: nat, r1: Receipt, ghost log: seq<Event>,
                     ghost before: seq<Event>, ghost first: set<string>, ghost start: nat, ghost traces: seq<Trace>,
                     ghost r0: Receipt)
    returns (raised: bool, known: set<string>, consecutive: nat, r: Receipt, ghost events: seq<Event>,
             ghost trace: Trace)
    requires daemon.Valid() && daemon.log == log + before
    requires Account(daemon.log, nonce, r1) && Reconciled(daemon.log, nonce, unresolved, r1)
    requires now <= daemon.clock && now < requiredQuietUntil + SLACK && Ready(traces, start, now) && consecutive0 < 2
    requires Turned(before, first, known0, traces, start, requiredQuietUntil, nonce, consecutive0, r0, r1)
    modifies daemon
    ensures daemon.Valid() && daemon.clock >= old(daemon.clock) && daemon.log == log + events && OnlyImages(events)
    ensures Account(daemon.log, nonce, r) && Reconciled(daemon.log, nonce, unresolved, r)
    ensures raised ==> r.errors != [] && Halted(events) && FirstHalf(r0.(commitSettled := r.commitSettled), r)
    ensures raised ==> CommitFlag(r0, r, events, first, traces, start, requiredQuietUntil, nonce, daemon.clock)
    ensures !raised ==>
              Turned(events, first, known, traces + [trace], start, requiredQuietUntil, nonce, consecutive, r0, r)
                  && start <= trace.ended <= daemon.clock
  {
    hide Account, Reconciled, Halted, PassOver, AllAbsent, Between, RoundEvents, Runs, EventsOf, KnownAfter, Streak,
         FirstHalf, CommitFlag, OnlyImages;
    ghost var from := daemon.clock;
    consecutive := consecutive0;
    var busy;
    ghost var round;
    raised, busy, known, r, round, trace := ImageRound(daemon, nonce, known0, unresolved, r1);
    events := before + round;
    JoinedLog(log, before, round);
    HalfOn(r0, r1, r);
    ImagesApart(before, round);
    if raised {
      HaltedLater(before, round);
      FlagUnset(r0, r, events, first, traces, start, requiredQuietUntil, nonce, daemon.clock);
      return;
    }
    ghost var until := daemon.clock;
    var later := daemon.Now();
    BetweenWider(round, from, until, now, later);
    Stamped(trace, now, later);
    trace := trace.(begun := now, ended := later);
    RunsMore(first, traces, start, requiredQuietUntil, nonce, now, trace, round, known, busy);
    if busy || later < requiredQuietUntil {
      consecutive := 0;
    } else {
      consecutive := consecutive + 1;
    }
  }

  // The image half of cleanup: it ends in stable absence after the settle window with a reconciled commit, or is
  // stopped for a cause.
  method CleanupImages(daemon: Daemon, nonce: string, known0: set<string>, ambiguous: bool, unresolved: bool,
                       r0: Receipt)
    returns (done: bool, r: Receipt, ghost events: seq<Event>, ghost start: nat, ghost quiet: nat,
             ghost traces: seq<Trace>)
    requires daemon.Valid() && Account(daemon.log, nonce, r0) && Reconciled(daemon.log, nonce, unresolved, r0)
    modifies daemon
    ensures daemon.Valid() && daemon.clock >= old(daemon.clock) && daemon.log == old(daemon.log) + events
    ensures OnlyImages(events)
    ensures Account(daemon.log, nonce, r) && FirstHalf(r0.(commitSettled := r.commitSettled), r)
    ensures Reconciled(daemon.log, nonce, unresolved, r)
    ensures CommitFlag(r0, r, events, known0, traces, start, quiet, nonce, daemon.clock)
    ensures start >= old(daemon.clock) && quiet == start + if ambiguous then SETTLE else 0
    ensures done ==> r.errors == r0.errors && r.commitSettled && r.reconciled
    ensures done ==> Traced(events, known0, traces, start, quiet, nonce)
    ensures done && unresolved ==> OwnedImageSeen(daemon.log, nonce)
    ensures !done ==> r.errors != []
                      && (Halted(events) || daemon.clock >= quiet + SLACK
                         || (unresolved && !OwnedImageSeen(daemon.log, nonce)))
  {
    hide Account, Reconciled, Halted, OwnedImageSeen, Runs, EventsOf, KnownAfter, Streak, FirstHalf, Traced, CommitFlag,
         OnlyImages, Turned, Ended, Ready;
    done, r, events, traces := false, r0, [], [];
    var known := known0;
    var now := daemon.Now();
    start := now;
    var requiredQuietUntil := now + if ambiguous then SETTLE else 0;
    quiet := requiredQuietUntil;
    var deadline := requiredQuietUntil + SLACK;
    var consecutive := 0;
    now := daemon.Now();
    NoTurns(known0, start, quiet, nonce, now, r0);
    while consecutive < 2 && now < deadline
      invariant daemon.Valid() && daemon.clock >= old(daemon.clock) && daemon.log == old(daemon.log) + events
      invariant 0 <= now <= daemon.clock
      invariant Account(daemon.log, nonce, r) && Reconciled(daemon.log, nonce, unresolved, r)
      invariant Turned(events, known0, known, traces, start, quiet, nonce, consecutive, r0, r)
      invariant traces == [] || consecutive < 2 ==> Ready(traces, start, now)
      invariant Ended(traces, daemon.clock)
      decreases if consecutive < 2 && now < deadline then deadline - now else 0
    {
      ghost var earlier := traces;
      var raised;
      ghost var trace;
      raised, known, consecutive, r, events, trace :=
        CountImages(daemon, nonce, known, unresolved, now, requiredQuietUntil, consecutive, r, old(daemon.log), events,
                    known0, start, traces, r0);
      if raised {
        return;
      }
      traces := traces + [trace];
      if consecutive < 2 {
        daemon.Sleep();
      }
      now := daemon.Now();
      NowReady(earlier, trace, start, daemon.clock);
    }
    done, r, events := EndImages(daemon, nonce, known, unresolved, requiredQuietUntil, consecutive, r, old(daemon.log),
                                 events, known0, start, traces, r0);
  }

  // The rounds so far: what the log shows of them, how many in a row count, and a receipt without trouble.
  ghost predicate Turned(events: seq<Event>, first: set<string>, known: set<string>, traces: seq<Trace>, start: nat,
                         quiet: nat, nonce: string, consecutive: nat, r0: Receipt, r: Receipt) {
    && OnlyImages(events) && FirstHalf(r0, r) && r.errors == r0.errors
    && events == EventsOf(traces) && known == KnownAfter(first, traces)
    && Runs(first, traces, start, quiet, nonce) && consecutive == Streak(traces, quiet) <= 2
  }

  lemma {:induction false} NoTurns(first: set<string>, start: nat, quiet: nat, nonce: string, now: nat, r0: Receipt)
    ensures Turned([], first, first, [], start, quiet, nonce, 0, r0, r0)
    ensures start <= now ==> Ready([], start, now)
    ensures Ended([], now)
  {
    NoRuns(first, start, quiet, nonce, now);
  }

  // After the rounds: either two in a row counted, or the deadline has passed.
  method EndImages(daemon: Daemon, nonce: string, known: set<string>, unresolved: bool, requiredQuietUntil: nat,
                   consecutive: nat, r1: Receipt, ghost log: seq<Event>, ghost before: seq<Event>,
                   ghost first: set<string>, ghost start: nat, ghost traces: seq<Trace>, ghost r0: Receipt)
    returns (done: bool, r: Receipt, ghost events: seq<Event>)
    requires daemon.Valid() && daemon.log == log + before
    requires Account(daemon.log, nonce, r1) && Reconciled(daemon.log, nonce, unresolved, r1)
    requires Turned(before, first, known, traces, start, requiredQuietUntil, nonce, consecutive, r0, r1)
    requires Ended(traces, daemon.clock) && (consecutive < 2 ==> daemon.clock >= requiredQuietUntil + SLACK)
    modifies daemon
    ensures daemon.Valid() && daemon.clock >= old(daemon.clock) && daemon.log == log + events && OnlyImages(events)
    ensures Account(daemon.log, nonce, r) && Reconciled(daemon.log, nonce, unresolved, r)
    ensures FirstHalf(r0.(commitSettled := r.commitSettled), r)
    ensures CommitFlag(r0, r, events, first, traces, start, requiredQuietUntil, nonce, daemon.clock)
    ensures done ==> r.errors == r0.errors && r.commitSettled && r.reconciled
    ensures done ==> Traced(events, first, traces, start, requiredQuietUntil, nonce)
    ensures done && unresolved ==> OwnedImageSeen(daemon.log, nonce)
    ensures !done ==> r.errors != []
                      && (Halted(events) || daemon.clock >= requiredQuietUntil + SLACK
                         || (unresolved && !OwnedImageSeen(daemon.log, nonce)))
  {
    hide Account, Reconciled, Halted, OwnedImageSeen, Runs, EventsOf, KnownAfter, Streak, FirstHalf, Traced, CommitFlag,
         OnlyImages, Ended;
    if consecutive != 2 {
      done, events, r := false, before, r1.(errors := r1.errors + [ImageTrouble]);
      AccountError(daemon.log, nonce, r1, ImageTrouble);
      TroubleHalf(r0, r1, r, true);
      StillReconciled(daemon.log, nonce, unresolved, r1, r);
      FlagUnset(r0, r, events, first, traces, start, requiredQuietUntil, nonce, daemon.clock);
      return;
    }
    ghost var ended := daemon.clock;
    ghost var e;
    done, r, e := FinishImages(daemon, nonce, unresolved, r1);
    FlagSet(r0, r1, r, first, traces, start, requiredQuietUntil, nonce, e, daemon.clock);
    OneImageEvent(e);
    ImagesApart(before, [e]);
    events := before + [e];
    JoinedLog(log, before, [e]);
    if done { TracedBy(traces, first, start, requiredQuietUntil, nonce, ended, e); }
    if Stops(e) { HaltedAt(before, e); }
  }

  lemma {:induction false} Stamped(t: Trace, begun: nat, ended: nat)
    ensures RoundEvents(t.(begun := begun, ended := ended)) == RoundEvents(t)
  {
  }

  // The loop may start its next round at this time.
  predicate Ready(traces: seq<Trace>, start: nat, now: nat) {
    start <= now && (traces != [] ==> now >= Last(traces).ended + PAUSE)
  }

  predicate Ended(traces: seq<Trace>, now: nat) {
    traces != [] ==> Last(traces).ended <= now
  }

  lemma {:induction false} NoRuns(known: set<string>, start: nat, quiet: nat, nonce: string, now: nat)
    ensures Runs(known, [], start, quiet, nonce) && EventsOf([]) == [] && KnownAfter(known, []) == known
            && Streak([], quiet) == 0
  {
  }

  lemma {:induction false} NowReady(front: seq<Trace>, t: Trace, start: nat, now: nat)
    requires start <= t.ended
    ensures now >= t.ended + PAUSE ==> Ready(front + [t], start, now)
    ensures now >= t.ended ==> Ended(front + [t], now)
  {
  }

  // One more round, with the times at which its loop test was passed and the clock was read for counting it.
  lemma {:induction false} RunsMore(known: set<string>, traces: seq<Trace>, start: nat, quiet: nat, nonce: string,
                                    now: nat, t: Trace, round: seq<Event>, more: set<string>, busy: bool)
    requires Runs(known, traces, start, quiet, nonce) && Streak(traces, quiet) < 2 && Ready(traces, start, now)
    requires t.begun == now < quiet + SLACK && round == RoundEvents(t) && Between(round, now, t.ended)
    requires more == KnownAfter(known, traces) + t.opening && PassOver(t.pass, InOrder(more), nonce)
    requires busy <==> !AllAbsent(t.pass) || t.closing != {}
    ensures Runs(known, traces + [t], start, quiet, nonce) && KnownAfter(known, traces + [t]) == more
    ensures EventsOf(traces + [t]) == EventsOf(traces) + round
    ensures Streak(traces + [t], quiet) == if busy || t.ended < quiet then 0 else Streak(traces, quiet) + 1
  {
    hide PassOver, AllAbsent, Between, RoundEvents;
    assert Front(traces + [t]) == traces && Last(traces + [t]) == t;
  }

  // The rounds behind a log: a run that ended with two rounds in a row that count, and then nothing listed.
  ghost predicate Traced(images: seq<Event>, known: set<string>, traces: seq<Trace>, start: nat, quiet: nat,
                         nonce: string) {
    && Runs(known, traces, start, quiet, nonce) && Streak(traces, quiet) == 2
    && exists time: nat :: time >= Last(traces).ended && images == EventsOf(traces) + [ListImages(Listed({}), time)]
  }

  lemma {:induction false} TracedBy(traces: seq<Trace>, known: set<string>, start: nat, quiet: nat, nonce: string,
                                    now: nat, e: Event)
    requires Runs(known, traces, start, quiet, nonce) && Streak(traces, quiet) == 2
    requires Ended(traces, now) && e.time >= now && e == ListImages(Listed({}), e.time)
    ensures Traced(EventsOf(traces) + [e], known, traces, start, quiet, nonce)
  {
    hide Runs, EventsOf;
  }

  lemma {:induction false} HalfOn(r0: Receipt, r1: Receipt, r: Receipt)
    requires FirstHalf(r0, r1) && FirstHalf(r1, r)
    ensures FirstHalf(r0, r)
  {
  }

  // Two rounds in a row counted, before what came last.
  ghost predicate Streaked(images: seq<Event>, known: set<string>, traces: seq<Trace>, start: nat, quiet: nat,
                           nonce: string) {
    Runs(known, traces, start, quiet, nonce) && Streak(traces, quiet) == 2 && EventsOf(traces) <= images
  }

  // The flag stays set, and is set once two rounds in a row have counted; until then something stopped the rounds.
  ghost predicate CommitFlag(r0: Receipt, r: Receipt, images: seq<Event>, known: set<string>, traces: seq<Trace>,
                             start: nat, quiet: nat, nonce: string, clock: nat) {
    && (r0.commitSettled ==> r.commitSettled)
    && (r.commitSettled ==> r0.commitSettled || Streaked(images, known, traces, start, quiet, nonce))
    && (!r.commitSettled ==> Halted(images) || clock >= quiet + SLACK)
  }

  lemma {:induction false} FlagUnset(r0: Receipt, r: Receipt, images: seq<Event>, known: set<string>,
                                     traces: seq<Trace>, start: nat, quiet: nat, nonce: string, clock: nat)
    requires FirstHalf(r0, r) && (Halted(images) || clock >= quiet + SLACK)
    ensures FirstHalf(r0.(commitSettled := r.commitSettled), r)
    ensures CommitFlag(r0, r, images, known, traces, start, quiet, nonce, clock)
  {
    hide Halted, Streaked;
  }

  lemma {:induction false} FlagSet(r0: Receipt, r1: Receipt, r: Receipt, known: set<string>, traces: seq<Trace>,
                                   start: nat, quiet: nat, nonce: string, e: Event, clock: nat)
    requires FirstHalf(r0, r1) && FirstHalf(r1.(commitSettled := true), r)
    requires Runs(known, traces, start, quiet, nonce) && Streak(traces, quiet) == 2
    ensures FirstHalf(r0.(commitSettled := r.commitSettled), r) && r.commitSettled
    ensures CommitFlag(r0, r, EventsOf(traces) + [e], known, traces, start, quiet, nonce, clock)
  {
    hide Runs, Streak, EventsOf, Halted;
  }

  // After the rounds: the last listing, and the unresolved commit's image must have been seen.
  method FinishImages(daemon: Daemon, nonce: string, unresolved: bool, r0: Receipt)
    returns (done: bool, r: Receipt, ghost e: Event)
    requires daemon.Valid() && Account(daemon.log, nonce, r0) && Reconciled(daemon.log, nonce, unresolved, r0)
    modifies daemon
    ensures daemon.Valid() && daemon.clock >= old(daemon.clock) && daemon.log == old(daemon.log) + [e]
    ensures e.ListImages?
    ensures Account(daemon.log, nonce, r) && FirstHalf(r0.(commitSettled := true), r)
    ensures Reconciled(daemon.log, nonce, unresolved, r)
    ensures done ==> r.errors == r0.errors && r.reconciled
    ensures done ==> e == ListImages(Listed({}), e.time) && e.time >= old(daemon.clock)
    ensures done && unresolved ==> OwnedImageSeen(daemon.log, nonce)
    ensures !done ==> r.errors != [] && (Stops(e) || (unresolved && !OwnedImageSeen(daemon.log, nonce)))
  {
    hide Account, Reconciled, OwnedImageSeen;
    AccountSettled(daemon.log, nonce, r0);
    r := r0.(commitSettled := true);
    StillReconciled(daemon.log, nonce, unresolved, r0, r);
    var raised, listed;
    raised, listed, r, e := Discover(daemon, nonce, unresolved, r);
    done := !raised && listed == {} && r.reconciled;
    SeenIfReconciled(daemon.log, nonce, unresolved, r);
    if !raised && !done {
      AccountError(daemon.log, nonce, r, ImageTrouble);
      StillReconciled(daemon.log, nonce, unresolved, r, r.(errors := r.errors + [ImageTrouble]));
      r := r.(errors := r.errors + [ImageTrouble]);
    }
  }

  lemma {:induction false} StillReconciled(events: seq<Event>, nonce: string, unresolved: bool, r0: Receipt, r: Receipt)
    requires Reconciled(events, nonce, unresolved, r0) && r.reconciled == r0.reconciled
    ensures Reconciled(events, nonce, unresolved, r)
  {
  }

  lemma {:induction false} SeenIfReconciled(events: seq<Event>, nonce: string, unresolved: bool, r: Receipt)
    requires Reconciled(events, nonce, unresolved, r)
    ensures if r.reconciled then unresolved ==> OwnedImageSeen(events, nonce)
            else unresolved && !OwnedImageSeen(events, nonce)
  {
  }

  // ----- the whole cleanup -----

  predicate Ambiguous(commands: seq<Command>, verb: string) {
    exists i :: 0 <= i < |commands| && commands[i].status != Completed && verb in commands[i].argv
  }

  predicate Unresolved(commands: seq<Command>) {
    exists i :: 0 <= i < |commands| && commands[i].resolved == Some(false)
  }

  // Each of the four unfinished statuses, on a command naming the verb, opens the settle window; with every such
  // command completed there is none.
  ghost predicate Window(commands: seq<Command>, verb: string, from: nat, quiet: nat) {
    && (forall i :: 0 <= i < |commands| && verb in commands[i].argv ==>
          && (commands[i].status == TimedOut ==> quiet == from + SETTLE)
          && (commands[i].status == Interrupted ==> quiet == from + SETTLE)
          && (commands[i].status == OutputLimited ==> quiet == from + SETTLE)
          && (commands[i].status == UnexpectedExit ==> quiet == from + SETTLE))
    && ((forall i :: 0 <= i < |commands| && verb in commands[i].argv ==> commands[i].status == Completed) ==>
          quiet == from)
  }

  lemma {:induction false} AmbiguousExact(commands: seq<Command>, verb: string, from: nat, quiet: nat)
    requires quiet == from + if Ambiguous(commands, verb) then SETTLE else 0
    ensures Window(commands, verb, from, quiet)
  {
  }

  lemma {:induction false} UnresolvedExact(commands: seq<Command>)
    ensures Unresolved(commands) <==> exists c :: c in commands && c.resolved == Some(false)
  {
    if Unresolved(commands) {
      var i :| 0 <= i < |commands| && commands[i].resolved == Some(false);
      assert commands[i] in commands;
    }
  }

  // Both halves ended in stable absence, a pause beyond their quiet times.
  ghost predicate BothAbsent(containers: seq<Event>, images: seq<Event>, names: seq<string>, known: set<string>,
                             quiet: nat, quietImages: nat) {
    StablyAbsent(containers, names, quiet + PAUSE) && ImagesStablyAbsent(images, known, quietImages + PAUSE)
  }

  // A half gave up on its last answer or at its deadline, or an unresolved commit's image was never seen.
  ghost predicate GaveUp(containers: seq<Event>, images: seq<Event>, quiet: nat, turn: nat, quietImages: nat,
                         clock: nat, unresolved: bool, nonce: string) {
    || Halted(containers) || turn >= quiet + SLACK
    || Halted(images) || clock >= quietImages + SLACK
    || (unresolved && !OwnedImageSeen(containers + images, nonce))
  }

  // Both halves, from an empty log. `turn` is the time between them.
  method CleanupHalves(daemon: Daemon, nonce: string, names: seq<string>, known: set<string>, ambiguousCreate: bool,
                       ambiguousCommit: bool, unresolved: bool)
    returns (r: Receipt, ghost containers: seq<Event>, ghost images: seq<Event>, ghost begun: nat,
             ghost quiet: nat, ghost quietImages: nat, ghost turn: nat, ghost start: nat, ghost traces: seq<Trace>)
    requires daemon.Valid() && daemon.log == []
    modifies daemon
    ensures daemon.Valid() && daemon.log == containers + images && Account(daemon.log, nonce, r)
    ensures OnlyContainers(containers) && OnlyImages(images) && old(daemon.clock) <= begun <= turn <= daemon.clock
    ensures quiet == begun + if ambiguousCreate then SETTLE else 0
    ensures start >= turn && quietImages == start + if ambiguousCommit then SETTLE else 0
    ensures !ambiguousCreate ==> r.createSettled
    ensures r.createSettled ==> !ambiguousCreate || TwiceAbsent(containers, names, quiet + PAUSE)
    ensures !r.createSettled ==> Halted(containers) || turn >= quiet + SLACK
    ensures !ambiguousCommit ==> r.commitSettled
    ensures r.commitSettled ==> !ambiguousCommit || Streaked(images, known, traces, start, quietImages, nonce)
    ensures !r.commitSettled ==> Halted(images) || daemon.clock >= quietImages + SLACK
    ensures Reconciled(daemon.log, nonce, unresolved, r)
    ensures r.errors == [] ==>
              && BothAbsent(containers, images, names, known, quiet, quietImages)
              && Traced(images, known, traces, start, quietImages, nonce)
              && r.createSettled && r.commitSettled && r.reconciled
              && (unresolved ==> OwnedImageSeen(daemon.log, nonce))
    ensures r.errors != [] ==>
              !Unstarted(daemon.log, nonce) || GaveUp(containers, images, quiet, turn, quietImages, daemon.clock,
                                                      unresolved, nonce)
  {
    r := Receipt([], [], false, [], !ambiguousCreate, !ambiguousCommit, !unresolved, false);
    ghost var r0 := r;
    assert Account([], nonce, r);
    hide Account, StablyAbsent, ImagesStablyAbsent, OwnedImageSeen, Halted, Unstarted, OnlyContainers, Reconciled,
         OnlyStarted, Traced, OnlyImages, TwiceAbsent, Streaked;
    var settled, imagesSettled;
    settled, r, containers, begun, quiet := CleanupContainers(daemon, nonce, names, ambiguousCreate, r);
    turn := daemon.clock;
    ghost var r1 := r;
    assert daemon.log == containers;
    ReconciledStart(containers, nonce, unresolved, r);
    imagesSettled, r, images, start, quietImages, traces :=
        CleanupImages(daemon, nonce, known, ambiguousCommit, unresolved, r);
    if imagesSettled { TracedStable(images, known, traces, start, quietImages, nonce); }
    if settled && imagesSettled && r.errors != [] { SomeStarted(daemon.log, nonce, r0, r1, r); }
  }

  // cleanup, from an empty log. `gone`: removing the private root returned, and it no longer exists. `verified` is true
  // exactly when nothing went wrong; then both halves are stably absent, and otherwise the log, the clock or the
  // private root shows why.
  method Cleanup(daemon: Daemon, nonce: string, names: seq<string>, known: set<string>, commands: seq<Command>,
                 gone: bool)
    returns (r: Receipt, ghost containers: seq<Event>, ghost images: seq<Event>, ghost begun: nat,
             ghost quiet: nat, ghost quietImages: nat, ghost turn: nat, ghost start: nat, ghost traces: seq<Trace>)
    requires daemon.Valid() && daemon.log == []
    modifies daemon
    ensures daemon.Valid() && daemon.log == containers + images && Account(daemon.log, nonce, r)
    ensures OnlyContainers(containers) && OnlyImages(images) && old(daemon.clock) <= begun <= turn <= daemon.clock
    ensures start >= turn
    ensures Window(commands, "create", begun, quiet)
    ensures (exists c :: c in commands && c.resolved == Some(false)) ==> quietImages == start + SETTLE
    ensures (forall c :: c in commands ==> c.resolved != Some(false)) ==> Window(commands, "commit", start, quietImages)
    ensures r.rootRemoved == gone && (r.verified <==> r.errors == [])
    ensures r.createSettled ==> quiet == begun || TwiceAbsent(containers, names, quiet + PAUSE)
    ensures !r.createSettled ==> quiet == begun + SETTLE && (Halted(containers) || turn >= quiet + SLACK)
    ensures r.commitSettled ==> quietImages == start || Streaked(images, known, traces, start, quietImages, nonce)
    ensures !r.commitSettled ==>
              quietImages == start + SETTLE && (Halted(images) || daemon.clock >= quietImages + SLACK)
    ensures r.reconciled <==>
              (forall c :: c in commands ==> c.resolved != Some(false)) || OwnedImageSeen(daemon.log, nonce)
    ensures r.verified ==> BothAbsent(containers, images, names, known, quiet, quietImages)
    ensures r.verified ==> Traced(images, known, traces, start, quietImages, nonce)
    ensures r.verified ==> gone && r.createSettled && r.commitSettled && r.reconciled
    ensures r.verified && Unresolved(commands) ==> OwnedImageSeen(daemon.log, nonce)
    ensures !r.verified ==>
              || !gone || !Unstarted(daemon.log, nonce)
              || GaveUp(containers, images, quiet, turn, quietImages, daemon.clock, Unresolved(commands), nonce)
  {
    UnresolvedExact(commands);
    hide *;
    var ambiguousCreate, unresolved := Ambiguous(commands, "create"), Unresolved(commands);
    var ambiguousCommit := Ambiguous(commands, "commit") || unresolved;
    r, containers, images, begun, quiet, quietImages, turn, start, traces :=
      CleanupHalves(daemon, nonce, names, known, ambiguousCreate, ambiguousCommit, unresolved);
    SeenIfReconciled(daemon.log, nonce, unresolved, r);
    AmbiguousExact(commands, "create", begun, quiet);
    if !unresolved { AmbiguousExact(commands, "commit", start, quietImages); }
    AccountSettled(daemon.log, nonce, r);
    r := r.(rootRemoved := gone);
    if !gone {
      AccountError(daemon.log, nonce, r, RootTrouble);
      r := r.(errors := r.errors + [RootTrouble]);
    }
    AccountSettled(daemon.log, nonce, r);
    r := r.(verified := r.errors == [] && r.rootRemoved && r.createSettled && r.commitSettled && r.reconciled);
  }

  lemma {:induction false} ReconciledStart(events: seq<Event>, nonce: string, unresolved: bool, r: Receipt)
    requires OnlyContainers(events) && r.reconciled == !unresolved
    ensures Reconciled(events, nonce, unresolved, r)
  {
  }

  lemma {:induction false} SomeStarted(events: seq<Event>, nonce: string, r0: Receipt, r1: Receipt, r: Receipt)
    requires Account(events, nonce, r) && OnlyStarted(r0, r1) && r0.errors == [] && r.errors == r1.errors != []
    ensures !Unstarted(events, nonce)
  {
    hide OnlyOwnRemoved, ShowsStarted;
    var t := r.errors[0];
    assert t in r.errors && t.WasStarted?;
    assert WasStarted(t.name) in r.errors;
  }

  // ----- which images are looked at -----

  function Openings(traces: seq<Trace>): set<string> {
    set t, id | t in traces && id in t.opening :: id
  }

  function Closings(traces: seq<Trace>): set<string> {
    set t, id | t in traces && id in t.closing :: id
  }

  lemma {:induction false} KnownIsOpened(known: set<string>, traces: seq<Trace>)
    ensures KnownAfter(known, traces) == known + Openings(traces)
  {
    if traces != [] {
      KnownIsOpened(known, Front(traces));
      assert forall t :: t in traces <==> t in Front(traces) || t == Last(traces) by {
        assert traces == Front(traces) + [Last(traces)];
      }
      assert Openings(traces) == Openings(Front(traces)) + Last(traces).opening;
    }
  }

  // A pass asks about exactly its images.
  lemma {:induction false} PassAsks(pass: seq<Event>, ids: seq<string>, nonce: string)
    requires PassOver(pass, ids, nonce)
    ensures AskedImages(pass) == Elements(ids)
    decreases |ids|
  {
    if ids == [] {
      NothingAskedYet();
    } else {
      var front, added := LastVisit(pass, ids, nonce);
      assert Elements(ids) == Elements(Front(ids)) + {Last(ids)} by { assert ids == Front(ids) + [Last(ids)]; }
      hide *;
      VisitAsks(added, Last(ids), nonce);
      PassAsks(front, Front(ids), nonce);
      AskedImagesApart(front, added);
    }
  }

  lemma {:induction false} LastVisit(pass: seq<Event>, ids: seq<string>, nonce: string) returns (front: seq<Event>,
                                     added: seq<Event>)
    requires PassOver(pass, ids, nonce) && ids != []
    ensures pass == front + added && PassOver(front, Front(ids), nonce) && Visit(added, Last(ids), nonce)
    ensures |Front(ids)| < |ids|
  {
    hide Visit;
    var k :| 0 <= k <= |pass| && PassOver(pass[..k], Front(ids), nonce) && Visit(pass[k..], Last(ids), nonce);
    front, added := pass[..k], pass[k..];
  }

  lemma {:induction false} VisitAsks(events: seq<Event>, id: string, nonce: string)
    requires Visit(events, id, nonce)
    ensures AskedImages(events) == {id}
  {
    assert events[0] in events;
    assert forall e :: e in events ==> e == events[0] || (|events| == 2 && e == events[1]);
    assert |events| == 2 ==> !events[1].InspectImage?;
  }

  lemma {:induction false} AbsentVisit(events: seq<Event>, id: string, nonce: string)
    requires Visit(events, id, nonce) && AllAbsent(events)
    ensures |events| == 1 && events == [events[0]]
    ensures events[0].InspectImage? && events[0].identity == id && events[0].answer == Absent
  {
    assert forall i :: 0 <= i < |events| ==> events[i].InspectImage?;
  }

  // A pass that found nothing is one absent answer for each image.
  lemma {:induction false} PassGone(pass: seq<Event>, ids: seq<string>, nonce: string, from: nat, until: nat)
    requires PassOver(pass, ids, nonce) && AllAbsent(pass) && Between(pass, from, until)
    ensures ImagesGone(pass, ids, from)
    decreases |ids|
  {
    if ids != [] {
      var front, added := LastVisit(pass, ids, nonce);
      BetweenPart(front, added, from, until);
      AbsentApart(front, added);
      AbsentVisit(added, Last(ids), nonce);
      assert added[0].time >= from;
      hide *;
      PassGone(front, Front(ids), nonce, from, until);
      LastGone(front, ids, added[0], from);
    }
  }

  lemma {:induction false} LastGone(front: seq<Event>, ids: seq<string>, e: Event, since: nat)
    requires ids != [] && ImagesGone(front, Front(ids), since)
    requires e.InspectImage? && e.identity == Last(ids) && e.answer == Absent && e.time >= since
    ensures ImagesGone(front + [e], ids, since)
  {
  }

  lemma {:induction false} BetweenPart(a: seq<Event>, b: seq<Event>, from: nat, until: nat)
    requires Between(a + b, from, until)
    ensures Between(a, from, until) && Between(b, from, until)
  {
    assert forall i :: 0 <= i < |a| ==> (a + b)[i] == a[i];
    assert forall i :: 0 <= i < |b| ==> (a + b)[|a| + i] == b[i];
  }

  // The rounds ask about the images known at first and those some opening listing named, and about no other.
  lemma {:induction false} InspectedExactly(known: set<string>, traces: seq<Trace>, start: nat, quiet: nat,
                                            nonce: string)
    requires Runs(known, traces, start, quiet, nonce) && traces != []
    ensures AskedImages(EventsOf(traces)) == known + Openings(traces)
    decreases |traces|
  {
    var front, t := Front(traces), Last(traces);
    hide PassOver, Between, AskedImages, Openings;
    KnownIsOpened(known, traces);
    KnownIsOpened(known, front);
    PassAsks(t.pass, InOrder(KnownAfter(known, traces)), nonce);
    RoundAsks(t);
    AskedImagesApart(EventsOf(front), RoundEvents(t));
    if front != [] {
      InspectedExactly(known, front, start, quiet, nonce);
    } else {
      NothingAskedYet();
      assert EventsOf(front) == [];
    }
  }

  lemma {:induction false} RoundAsks(t: Trace)
    ensures AskedImages(RoundEvents(t)) == AskedImages(t.pass)
  {
    var head, tail := [ListImages(Listed(t.opening), t.first)], [ListImages(Listed(t.closing), t.second)];
    AskedImagesApart(head, t.pass);
    AskedImagesApart(head + t.pass, tail);
    assert AskedImages(head) == {} && AskedImages(tail) == {};
  }

  lemma {:induction false} NothingAskedYet()
    ensures AskedImages([]) == {}
  {
  }

  // Every image ever listed was inspected exactly if each closing listing named only images known or opened in some
  // round.
  lemma {:induction false} CoveredExact(known: set<string>, traces: seq<Trace>, start: nat, quiet: nat, nonce: string)
    requires Runs(known, traces, start, quiet, nonce) && traces != []
    ensures Openings(traces) + Closings(traces) <= AskedImages(EventsOf(traces)) <==>
            Closings(traces) <= known + Openings(traces)
  {
    InspectedExactly(known, traces, start, quiet, nonce);
    hide Runs, EventsOf, AskedImages, Openings, Closings;
  }

  // ----- a finished run is stable absence -----

  // A round that counts shows every image known by then absent, and nothing listed afterwards.
  lemma {:induction false} CountedAbsent(t: Trace, known: set<string>, quiet: nat, nonce: string)
    requires PassOver(t.pass, InOrder(known), nonce) && Between(RoundEvents(t), t.begun, t.ended) && Counts(t, quiet)
    requires t.opening <= known
    ensures AbsentImages(RoundEvents(t), InOrder(known), t.begun)
  {
    PassBetween(t, t.begun, t.ended);
    hide PassOver, ImagesGone, Between;
    PassGone(t.pass, InOrder(known), nonce, t.begun, t.ended);
    QuietRound(t.opening, t.first, t.pass, t.second, InOrder(known), t.begun);
  }

  lemma {:induction false} PassBetween(t: Trace, from: nat, until: nat)
    requires Between(RoundEvents(t), from, until)
    ensures Between(t.pass, from, until) && t.first >= from && t.second >= from
  {
    var head, tail := [ListImages(Listed(t.opening), t.first)], [ListImages(Listed(t.closing), t.second)];
    BetweenPart(head + t.pass, tail, from, until);
    BetweenPart(head, t.pass, from, until);
    assert Between(head, from, until) && head[0].time == t.first && tail[0].time == t.second;
  }

  lemma {:induction false} EarlierImages(round: seq<Event>, ids: seq<string>, since: nat, quiet: nat)
    requires AbsentImages(round, ids, since) && quiet <= since
    ensures AbsentImages(round, ids, quiet)
  {
    var listing, first: nat, checks, second: nat :|
      && round == [ListImages(Listed(listing), first)] + checks + [ListImages(Listed({}), second)]
      && first >= since && second >= since
      && ImagesGone(checks, ids, since) && listing <= Elements(ids);
    assert ImagesGone(checks, ids, quiet);
  }

  lemma {:induction false} KnownCovers(known: set<string>, traces: seq<Trace>, start: nat, quiet: nat, nonce: string)
    requires Runs(known, traces, start, quiet, nonce) && traces != []
    ensures Covers(Elements(InOrder(KnownAfter(known, traces))), known, EventsOf(traces))
  {
    InspectedExactly(known, traces, start, quiet, nonce);
    KnownIsOpened(known, traces);
    hide Runs, EventsOf, Openings, KnownAfter;
    var events := EventsOf(traces);
    assert forall e :: e in events && e.InspectImage? ==> e.identity in AskedImages(events);
  }

  // A run that stopped on two counted rounds, followed by an empty listing.
  lemma {:induction false} TracedStable(images: seq<Event>, known: set<string>, traces: seq<Trace>, start: nat,
                                        quiet: nat, nonce: string)
    requires Traced(images, known, traces, start, quiet, nonce)
    ensures ImagesStablyAbsent(images, known, quiet + PAUSE)
  {
    var two, front := traces, Front(traces);
    var t2 := Last(two);
    assert Streak(front, quiet) == 1;
    var t1, before := Last(front), Front(front);
    assert Runs(known, front, start, quiet, nonce);
    assert t2.begun >= t1.ended + PAUSE >= quiet + PAUSE && t2.ended >= t2.begun by { hide PassOver, EventsOf; }
    var time: nat :| time >= t2.ended && images == EventsOf(two) + [ListImages(Listed({}), time)];
    KnownCovers(known, two, start, quiet, nonce);
    KnownCovers(known, front, start, quiet, nonce);
    CountedAbsent(t1, KnownAfter(known, front), quiet, nonce);
    CountedAbsent(t2, KnownAfter(known, two), quiet, nonce);
    var ids1, ids2 := InOrder(KnownAfter(known, front)), InOrder(KnownAfter(known, two));
    EarlierImages(RoundEvents(t1), ids1, t1.begun, 0);
    EarlierImages(RoundEvents(t2), ids2, t2.begun, quiet + PAUSE);
    assert EventsOf(front) == EventsOf(before) + RoundEvents(t1) && EventsOf(two) == EventsOf(front) + RoundEvents(t2);
    hide Runs, Streak, EventsOf, RoundEvents, AbsentImages, Covers, KnownAfter;
    assert ImagesTwiceAbsent(EventsOf(before), RoundEvents(t1), RoundEvents(t2), known, quiet + PAUSE);
  }

  // A closing listing can be the only one to name an image. Three rounds at the loop's own pace, after a loop that
  // began at time 0 without a settle window: the first ends with an image that is gone when the second starts, and is
  // never inspected; the other two count.
  function MissedTraces(id: string): seq<Trace> {
    [Trace(0, {}, 0, [], {id}, 0, 0), Trace(PAUSE, {}, PAUSE, [], {}, PAUSE, PAUSE),
     Trace(2 * PAUSE, {}, 2 * PAUSE, [], {}, 2 * PAUSE, 2 * PAUSE)]
  }

  lemma {:induction false} ListedNeverInspected(id: string, nonce: string)
    ensures var images := EventsOf(MissedTraces(id)) + [ListImages(Listed({}), 2 * PAUSE)];
            && Traced(images, {}, MissedTraces(id), 0, 0, nonce) && OnlyOwnRemoved(images, nonce)
            && id in Closings(MissedTraces(id)) && AskedImages(images) == {}
  {
    var traces, last := MissedTraces(id), ListImages(Listed({}), 2 * PAUSE);
    MissedListings(id);
    hide *;
    MissedRuns(id, nonce);
    MissedAsks(traces, nonce);
    TracedBy(traces, {}, 0, 0, nonce, 2 * PAUSE, last);
    AskedImagesApart(EventsOf(traces), [last]);
    ListingsRemoveNothing(traces, last, nonce);
  }

  lemma {:induction false} MissedListings(id: string)
    ensures var traces := MissedTraces(id);
            && (forall t :: t in traces ==> t.opening == {} && t.pass == []) && id in Closings(traces)
            && Ended(traces, 2 * PAUSE)
    ensures AskedImages([ListImages(Listed({}), 2 * PAUSE)]) == {}
  {
    var traces := MissedTraces(id);
    assert traces[0] in traces && id in traces[0].closing;
  }

  lemma {:induction false} MissedRuns(id: string, nonce: string)
    ensures Runs({}, MissedTraces(id), 0, 0, nonce) && Streak(MissedTraces(id), 0) == 2
  {
    var traces := MissedTraces(id);
    var a, b, c := traces[0], traces[1], traces[2];
    NoRuns({}, 0, 0, nonce, 0);
    EmptyPass(nonce);
    assert {id} != {};
    RunsMore({}, [], 0, 0, nonce, 0, a, RoundEvents(a), {}, true);
    assert [] + [a] == [a] && [a] + [b] == [a, b] && [a, b] + [c] == traces;
    hide Runs, Streak, KnownAfter;
    RunsMore({}, [a], 0, 0, nonce, PAUSE, b, RoundEvents(b), {}, false);
    RunsMore({}, [a, b], 0, 0, nonce, 2 * PAUSE, c, RoundEvents(c), {}, false);
  }

  lemma {:induction false} EmptyPass(nonce: string)
    ensures PassOver([], InOrder({}), nonce)
  {
    var ids := InOrder({});
    assert forall i :: 0 <= i < |ids| ==> ids[i] in ids;
    assert ids == [];
  }

  lemma {:induction false} MissedAsks(traces: seq<Trace>, nonce: string)
    requires Runs({}, traces, 0, 0, nonce) && traces != [] && forall t :: t in traces ==> t.opening == {}
    ensures AskedImages(EventsOf(traces)) == {}
  {
    InspectedExactly({}, traces, 0, 0, nonce);
    assert Openings(traces) == {};
  }

  lemma {:induction false} ListingsRemoveNothing(traces: seq<Trace>, last: Event, nonce: string)
    requires last.ListImages? && forall t :: t in traces ==> t.pass == []
    ensures OnlyOwnRemoved(EventsOf(traces) + [last], nonce)
  {
    OnlyListings(traces);
    var events := EventsOf(traces);
    hide EventsOf;
    assert forall i :: 0 <= i < |events| + 1 ==> (events + [last])[i].ListImages?;
  }

  lemma {:induction false} OnlyListings(traces: seq<Trace>)
    requires forall t :: t in traces ==> t.pass == []
    ensures forall i :: 0 <= i < |EventsOf(traces)| ==> EventsOf(traces)[i].ListImages?
  {
    if traces != [] {
      OnlyListings(Front(traces));
      assert Last(traces) in traces;
    }
  }

  // ----- what stable absence is good for -----

  // What happens to the objects of this run, as (name, time) pairs: containers are created and removed, and images
  // with the nonce are committed and deleted, by whatever operation completes at that time.
  datatype World = World(creations: iset<(string, nat)>, removals: iset<(string, nat)>,
                         commits: iset<(string, nat)>, deletions: iset<(string, nat)>)

  // An answer given at this time was right at one moment of the pause before it.
  ghost predicate Recent(s: nat, time: nat) {
    s <= time <= s + PAUSE
  }

  ghost predicate WasAbsent(w: World, e: Event)
    requires e.InspectContainer?
  {
    exists s :: Recent(s, e.time) && !There(w.creations, w.removals, e.name, s)
  }

  ghost predicate WasEmpty(w: World, e: Event)
    requires e.ListImages?
  {
    exists s :: Recent(s, e.time) && forall id :: !There(w.commits, w.deletions, id, s)
  }

  // Absent answers and empty listings are truthful, though they may be a pause old.
  ghost predicate Truthful(events: seq<Event>, w: World) {
    && (forall e :: e in events && e.InspectContainer? && e.answer == Absent ==> WasAbsent(w, e))
    && (forall e :: e in events && e.ListImages? && e.listing == Listed({}) ==> WasEmpty(w, e))
  }

  // Every pending operation has completed by its quiet time.
  ghost predicate InTime(w: World, quiet: nat, quietImages: nat) {
    && (forall name, c :: (name, c) in w.creations ==> c <= quiet)
    && (forall id, c :: (id, c) in w.commits ==> c <= quietImages)
  }

  // With answers at most a pause old and every pending operation completing within the settle window, nothing of this
  // run exists any more. The first counted round ends after the quiet time, so that the checks after the second one are
  // a pause beyond it.
  lemma {:induction false} NothingOwnedRemains(containers: seq<Event>, images: seq<Event>, names: seq<string>,
                                               known: set<string>, quiet: nat, quietImages: nat, w: World, now: nat)
    requires BothAbsent(containers, images, names, known, quiet, quietImages)
    requires Truthful(containers + images, w) && InTime(w, quiet, quietImages)
    requires forall e :: e in containers + images ==> e.time <= now
    ensures forall name, u: nat :: name in names && u >= now ==> !There(w.creations, w.removals, name, u)
    ensures forall id, u: nat :: u >= now ==> !There(w.commits, w.deletions, id, u)
  {
    hide Truthful, InTime, There, StablyAbsent, ImagesStablyAbsent;
    var log := containers + images;
    var last := LastChecks(containers, names, quiet + PAUSE);
    forall name, u: nat | name in names && u >= now ensures !There(w.creations, w.removals, name, u) {
      var e := last(name);
      assert e in containers + images;
      OneGone(log, w, quiet, quietImages, e, now, u);
    }
    var time := LastListing(images, known, quietImages + PAUSE);
    var e := ListImages(Listed({}), time);
    assert e in containers + images;
    forall id, u: nat | u >= now ensures !There(w.commits, w.deletions, id, u) {
      NoImages(log, w, quiet, quietImages, e, now, id, u);
    }
  }

  // For each name the event of the final check.
  lemma {:induction false} LastChecks(containers: seq<Event>, names: seq<string>, quiet: nat)
    returns (check: string -> Event)
    requires StablyAbsent(containers, names, quiet)
    ensures forall name :: name in names ==>
              var e := check(name);
              e in containers && e.InspectContainer? && e.name == name && e.answer == Absent && e.time >= quiet
  {
    var pre: seq<Event>, r1: seq<Event>, r2: seq<Event>, last: seq<Event> :| containers == pre + r1 + r2 + last
      && AbsentRound(r1, Reverse(names), 0) && AbsentRound(r2, Reverse(names), quiet)
      && AbsentRound(last, names, quiet);
    assert forall e :: e in last ==> e in containers;
    forall name | name in names
      ensures exists e :: e in last && e.InspectContainer? && e.name == name && e.answer == Absent && e.time >= quiet
    {
      var i :| 0 <= i < |names| && names[i] == name;
      assert last[i] in last;
    }
    var checks := map name | name in names ::
      var e :| e in last && e.InspectContainer? && e.name == name && e.answer == Absent && e.time >= quiet; e;
    check := name => if name in checks then checks[name] else InspectContainer(name, Absent, 0);
  }

  lemma {:induction false} OneGone(log: seq<Event>, w: World, quiet: nat, quietImages: nat, e: Event, now: nat, u: nat)
    requires Truthful(log, w) && InTime(w, quiet, quietImages) && e in log
    requires e.InspectContainer? && e.answer == Absent && quiet + PAUSE <= e.time <= now <= u
    ensures !There(w.creations, w.removals, e.name, u)
  {
    hide There;
    assert WasAbsent(w, e);
    var s :| Recent(s, e.time) && !There(w.creations, w.removals, e.name, s);
    StaysAway(w.creations, w.removals, e.name, quiet, s, u);
  }

  lemma {:induction false} NoImages(log: seq<Event>, w: World, quiet: nat, quietImages: nat, e: Event, now: nat,
                                    id: string, u: nat)
    requires Truthful(log, w) && InTime(w, quiet, quietImages) && e in log
    requires e.ListImages? && e.listing == Listed({}) && quietImages + PAUSE <= e.time <= now <= u
    ensures !There(w.commits, w.deletions, id, u)
  {
    hide There;
    assert WasEmpty(w, e);
    var s :| Recent(s, e.time) && forall id :: !There(w.commits, w.deletions, id, s);
    StaysAway(w.commits, w.deletions, id, quietImages, s, u);
  }

  lemma {:induction false} LastListing(images: seq<Event>, known: set<string>, quiet: nat) returns (time: nat)
    requires ImagesStablyAbsent(images, known, quiet)
    ensures time >= quiet && images != [] && Last(images) == ListImages(Listed({}), time)
    ensures ListImages(Listed({}), time) in images
  {
    var pre, r1, r2, t: nat :| images == pre + r1 + r2 + [ListImages(Listed({}), t)] && t >= quiet
      && ImagesTwiceAbsent(pre, r1, r2, known, quiet);
    time := t;
    assert images[|images| - 1] == ListImages(Listed({}), time);
  }
}
