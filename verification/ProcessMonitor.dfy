/** Which processes belong to the app server, and what may be killed when it is closed. */
module ProcessMonitor {
  import opened Ordering
  import opened Results

  // One line of the process table.
  datatype ProcessRow = ProcessRow(pid: int, ppid: int, pgid: int, zombie: bool, command: string)

  function Pids(rows: seq<ProcessRow>): set<int> {
    set row | row in rows :: row.pid
  }

  function Running(rows: seq<ProcessRow>): set<int> {
    set row | row in rows && !row.zombie :: row.pid
  }

  // The server itself and everything in its process group.
  function Seeds(rows: seq<ProcessRow>, self: int, pgid: int): set<int> {
    {self} + set row | row in rows && row.pgid == pgid :: row.pid
  }

  ghost predicate Closed(rows: seq<ProcessRow>, s: set<int>) {
    forall row :: row in rows && row.ppid in s ==> row.pid in s
  }

  // No closed superset of the seeds can do without s.
  ghost predicate Needed(rows: seq<ProcessRow>, seeds: set<int>, s: set<int>) {
    seeds <= s && forall t :: seeds <= t && Closed(rows, t) ==> s <= t
  }

  ghost predicate LeastClosed(rows: seq<ProcessRow>, seeds: set<int>, s: set<int>) {
    Needed(rows, seeds, s) && Closed(rows, s)
  }

  lemma {:induction false} ChildNeeded(rows: seq<ProcessRow>, seeds: set<int>, s: set<int>, row: ProcessRow)
    requires Needed(rows, seeds, s) && row in rows && row.ppid in s && row.pid !in s
    ensures Needed(rows, seeds, s + {row.pid}) && |Pids(rows) - (s + {row.pid})| < |Pids(rows) - s|
  {
    assert row.pid in Pids(rows);
    assert Pids(rows) - (s + {row.pid}) == Pids(rows) - s - {row.pid};
  }

  // The monitor's repeated pass over the rows, adding children of owned processes until a pass adds none.
  method OwnedProcesses(rows: seq<ProcessRow>, self: int, pgid: int) returns (owned: set<int>)
    ensures LeastClosed(rows, Seeds(rows, self, pgid), owned)
  {
    ghost var seeds := Seeds(rows, self, pgid);
    owned := Seeds(rows, self, pgid);
    hide Seeds, Needed, Pids;
    assert Needed(rows, seeds, owned) by { SeedsNeeded(rows, seeds); }
    var changed := true;
    while changed
      invariant Needed(rows, seeds, owned)
      invariant !changed ==> Closed(rows, owned)
      decreases |Pids(rows) - owned|, changed
    {
      changed := false;
      ghost var before := owned;
      for i := 0 to |rows|
        invariant Needed(rows, seeds, owned)
        invariant if changed then |Pids(rows) - owned| < |Pids(rows) - before| else owned == before
        invariant !changed ==> forall k :: 0 <= k < i && rows[k].ppid in owned ==> rows[k].pid in owned
      {
        var row := rows[i];
        if row.ppid in owned && row.pid !in owned {
          ChildNeeded(rows, seeds, owned, row);
          owned := owned + {row.pid};
          changed := true;
        }
      }
    }
  }

  lemma {:induction false} SeedsNeeded(rows: seq<ProcessRow>, seeds: set<int>)
    ensures Needed(rows, seeds, seeds)
  {
  }

  // ----- the least closed set is ancestry -----

  ghost predicate Fathers(rows: seq<ProcessRow>, parent: int, child: int) {
    exists row :: row in rows && row.ppid == parent && row.pid == child
  }

  ghost predicate Lineage(rows: seq<ProcessRow>, seeds: set<int>, path: seq<int>) {
    path != [] && path[0] in seeds && forall i :: 0 <= i < |path| - 1 ==> Fathers(rows, path[i], path[i + 1])
  }

  ghost predicate Descends(rows: seq<ProcessRow>, seeds: set<int>, pid: int) {
    exists path :: Lineage(rows, seeds, path) && path[|path| - 1] == pid
  }

  lemma {:induction false} LineageInside(rows: seq<ProcessRow>, seeds: set<int>, s: set<int>, path: seq<int>)
    requires seeds <= s && Closed(rows, s) && Lineage(rows, seeds, path)
    ensures path[|path| - 1] in s
    decreases |path|
  {
    if |path| > 1 {
      LineageInside(rows, seeds, s, path[..|path| - 1]);
      assert Fathers(rows, path[|path| - 2], path[|path| - 1]);
    }
  }

  // The monitor owns exactly the seeds and their descendants by recorded parent links.
  lemma {:induction false} OwnedAreDescendants(rows: seq<ProcessRow>, seeds: set<int>, s: set<int>)
    requires LeastClosed(rows, seeds, s)
    ensures forall pid :: pid in s <==> Descends(rows, seeds, pid)
  {
    forall pid | Descends(rows, seeds, pid) ensures pid in s {
      var path :| Lineage(rows, seeds, path) && path[|path| - 1] == pid;
      LineageInside(rows, seeds, s, path);
    }
    var t := set pid | pid in s && Descends(rows, seeds, pid);
    forall pid | pid in seeds ensures pid in t {
      assert Lineage(rows, seeds, [pid]);
    }
    forall row | row in rows && row.ppid in t ensures row.pid in t {
      var path :| Lineage(rows, seeds, path) && path[|path| - 1] == row.ppid;
      assert Fathers(rows, row.ppid, row.pid);
      assert Lineage(rows, seeds, path + [row.pid]);
    }
    assert Closed(rows, t);
  }

  ghost predicate Owns(rows: seq<ProcessRow>, self: int, pgid: int, pid: int) {
    Descends(rows, Seeds(rows, self, pgid), pid)
  }

  // ----- the identity of descendants -----

  datatype Approval = Approval(role: string, sha256: string)

  // What the system says of a pid's executable; without a digest its bytes could not be read.
  datatype Lookup = Found(executable: string, sha256: Option<string>) | Vanished | Unresolved

  datatype Identity = Identity(role: string, sha256: string, command: string)

  // {pid: command}: a later row replaces an earlier one.
  function Commands(rows: seq<ProcessRow>): map<int, string> {
    if rows == [] then map[]
    else
      var last := rows[|rows| - 1];
      Commands(rows[..|rows| - 1])[last.pid := last.command]
  }

  // One round of the monitor: a table, and what is then found for its pids.
  datatype Round = Round(rows: seq<ProcessRow>, lookup: int -> Lookup)

  type Allowed = map<string, Approval>

  // Only a named process other than the server is looked up, and only if some executable is allowed at all.
  predicate LookedUp(round: Round, self: int, allowed: Allowed, pid: int) {
    allowed != map[] && pid != self && pid in Commands(round.rows) && Commands(round.rows)[pid] != ""
  }

  predicate Approved(round: Round, allowed: Allowed, pid: int) {
    match round.lookup(pid)
    case Found(executable, sha256) => executable in allowed && sha256 == Some(allowed[executable].sha256)
    case Vanished => true
    case Unresolved => false
  }

  // Every owned process that is looked up has an allowed executable, or has gone.
  ghost predicate RoundPasses(round: Round, self: int, pgid: int, allowed: Allowed) {
    forall pid :: Owns(round.rows, self, pgid, pid) && LookedUp(round, self, allowed, pid) ==>
        Approved(round, allowed, pid)
  }

  predicate Recorded(round: Round, self: int, allowed: Allowed, pid: int) {
    LookedUp(round, self, allowed, pid) && round.lookup(pid).Found?
  }

  ghost predicate IdentityOf(round: Round, allowed: Allowed, pid: int, identity: Identity) {
    var found := round.lookup(pid);
    && found.Found? && found.executable in allowed && pid in Commands(round.rows)
    && identity == Identity(allowed[found.executable].role, allowed[found.executable].sha256, Commands(round.rows)[pid])
  }

  // The identities after these pids were checked: theirs are recorded, the others are as before.
  ghost predicate Identified(round: Round, self: int, allowed: Allowed, checked: set<int>, before: map<int, Identity>,
                             after: map<int, Identity>) {
    && (forall pid :: pid in after <==> pid in before || (pid in checked && Recorded(round, self, allowed, pid)))
    && forall pid :: pid in after ==>
         if pid in checked && Recorded(round, self, allowed, pid) then IdentityOf(round, allowed, pid, after[pid])
         else pid in before && after[pid] == before[pid]
  }

  // The first n rounds pass, and what is owned in them is observed.
  ghost predicate Watched(rounds: seq<Round>, n: nat, self: int, pgid: int, allowed: Allowed, before: set<int>,
                          observed: set<int>) {
    && n <= |rounds| && (forall i :: 0 <= i < n ==> RoundPasses(rounds[i], self, pgid, allowed))
    && forall pid :: pid in observed <==>
       pid in before || exists i :: 0 <= i < n && Owns(rounds[i].rows, self, pgid, pid)
  }

  lemma {:induction false} NothingIdentified(round: Round, self: int, allowed: Allowed, before: map<int, Identity>)
    ensures Identified(round, self, allowed, {}, before, before)
  {
  }

  lemma {:induction false} OneIdentified(round: Round, self: int, allowed: Allowed, checked: set<int>, pid: int,
                                         first: map<int, Identity>, before: map<int, Identity>,
                                         after: map<int, Identity>)
    requires Identified(round, self, allowed, checked, first, before)
             && Identified(round, self, allowed, {pid}, before, after)
    ensures Identified(round, self, allowed, checked + {pid}, first, after)
  {
    hide Recorded, IdentityOf;
  }

  lemma {:induction false} NothingMonitored(rounds: seq<Round>, self: int, pgid: int, allowed: Allowed,
                                            before: set<int>)
    ensures Watched(rounds, 0, self, pgid, allowed, before, before)
  {
  }

  lemma {:induction false} RoundMonitored(rounds: seq<Round>, i: nat, self: int, pgid: int, allowed: Allowed,
                                          first: set<int>, before: set<int>, after: set<int>)
    requires i < |rounds| && Watched(rounds, i, self, pgid, allowed, first, before)
             && RoundPasses(rounds[i], self, pgid, allowed)
    requires forall pid :: pid in after <==> pid in before || Owns(rounds[i].rows, self, pgid, pid)
    ensures Watched(rounds, i + 1, self, pgid, allowed, first, after)
  {
    hide RoundPasses, Owns;
  }

  // ----- the transport's bookkeeping -----

  // A role is asked for, and no recorded identity has it.
  ghost predicate RoleMissing(role: Option<string>, identities: map<int, Identity>) {
    && role.Some? && role.value != ""
    && forall pid :: pid in identities ==> identities[pid].role != role.value
  }

  // What os.getpgid and os.kill answer for one pid.
  datatype GroupAnswer = Group(id: int) | GroupGone | GroupDenied
  datatype KillAnswer = Killed | KillGone | KillDenied

  datatype CloseResult = CloseResult(exitCode: Option<int>, forced: bool, threadsJoined: bool, beforeKill: set<int>,
                                     remaining: set<int>, failure: bool)

  // How the wait for the server itself ends: it had exited, it exits once its input is closed, it exits once its group
  // is killed, or not even then.
  datatype Ending = Exited | ExitsInTime | ExitsKilled | Stays

  class Transport {
    const self: int
    const pgid: int
    const allowed: Allowed
    const requiredRole: Option<string>
    var observed: set<int>
    var identities: map<int, Identity>
    var failure: bool
    // The first close's result; later calls return it unchanged.
    var closing: Option<CloseResult>
    // Every pid that SIGKILL was sent to, successfully or not.
    ghost var signalled: set<int>
    // Whether the server's own group was killed.
    ghost var groupKilled: bool

    constructor (self: int, pgid: int, allowed: Allowed, requiredRole: Option<string>)
      ensures this.self == self && this.pgid == pgid && this.allowed == allowed && this.requiredRole == requiredRole
      ensures observed == {} && identities == map[] && !failure && closing.None? && signalled == {} && !groupKilled
    {
      this.self, this.pgid, this.allowed, this.requiredRole := self, pgid, allowed, requiredRole;
      observed, identities, failure, closing, signalled, groupKilled := {}, map[], false, None, {}, false;
    }

    // The monitor thread: rounds until it is stopped or one does not pass. What was ever owned in a round that passed
    // stays observed; what only the round that did not pass showed is not.
    method Monitor(rounds: seq<Round>) returns (ghost n: nat)
      modifies this`observed, this`identities, this`failure
      ensures Watched(rounds, n, self, pgid, allowed, old(observed), observed)
      ensures n < |rounds| ==> !RoundPasses(rounds[n], self, pgid, allowed)
      ensures failure <==> old(failure) || n < |rounds|
    {
      hide *;
      n := 0;
      NothingMonitored(rounds, self, pgid, allowed, observed);
      for i := 0 to |rounds|
        invariant n == i && failure == old(failure) && Watched(rounds, i, self, pgid, allowed, old(observed), observed)
      {
        ghost var before := observed;
        var ok;
        ghost var checked;
        ok, checked := Observe(rounds[i]);
        if !ok {
          return;
        }
        RoundMonitored(rounds, i, self, pgid, allowed, old(observed), before, observed);
        n := n + 1;
      }
    }

    // One round: it passes exactly if all its owned processes do. A round that does not pass observes nothing.
    method Observe(round: Round) returns (ok: bool, ghost checked: set<int>)
      modifies this`observed, this`identities, this`failure
      ensures ok <==> RoundPasses(round, self, pgid, allowed)
      ensures failure <==> old(failure) || !ok
      ensures forall pid :: pid in checked ==> Owns(round.rows, self, pgid, pid)
      ensures Identified(round, self, allowed, checked, old(identities), identities)
      ensures if ok then forall pid :: pid in observed <==> pid in old(observed) || Owns(round.rows, self, pgid, pid)
              else observed == old(observed)
      ensures ok ==> forall pid :: Owns(round.rows, self, pgid, pid) && pid != self ==> pid in checked
    {
      var owned := OwnedProcesses(round.rows, self, pgid);
      OwnedAreDescendants(round.rows, Seeds(round.rows, self, pgid), owned);
      ok, checked := CheckOwned(round, owned - {self});
      if ok {
        observed := observed + owned;
      }
      hide LookedUp, Approved, Identified, Descends, Seeds;
    }

    // The identity check of these pids, one after the other, until one does not pass.
    method CheckOwned(round: Round, pids: set<int>) returns (ok: bool, ghost checked: set<int>)
      modifies this`identities, this`failure
      ensures ok <==> forall pid :: pid in pids && LookedUp(round, self, allowed, pid) ==> Approved(round, allowed, pid)
      ensures failure <==> old(failure) || !ok
      ensures checked <= pids && (ok ==> checked == pids)
      ensures Identified(round, self, allowed, checked, old(identities), identities)
    {
      hide LookedUp, Approved, Identified, PidsInOrder;
      checked := {};
      ok := true;
      NothingIdentified(round, self, allowed, identities);
      var order := PidsInOrder(pids);
      for i := 0 to |order|
        invariant checked == Elements(order[..i]) && failure == old(failure) && ok
        invariant forall pid :: pid in checked && LookedUp(round, self, allowed, pid) ==> Approved(round, allowed, pid)
        invariant Identified(round, self, allowed, checked, old(identities), identities)
      {
        ghost var before := identities;
        ElementsPush(order, i);
        ok := Identify(round, order[i]);
        if !ok {
          assert order[i] in pids;
          return;
        }
        OneIdentified(round, self, allowed, checked, order[i], old(identities), before, identities);
        checked := checked + {order[i]};
      }
      assert order[..|order|] == order;
    }

    method Identify(round: Round, pid: int) returns (ok: bool)
      modifies this`identities, this`failure
      ensures ok <==> (LookedUp(round, self, allowed, pid) ==> Approved(round, allowed, pid))
      ensures failure <==> old(failure) || !ok
      ensures ok ==> Identified(round, self, allowed, {pid}, old(identities), identities)
      ensures !ok ==> identities == old(identities)
    {
      if allowed == map[] || pid == self || pid !in Commands(round.rows) || Commands(round.rows)[pid] == "" {
        return true;
      }
      match round.lookup(pid) {
        case Vanished =>
          return true;
        case Unresolved =>
          failure := true;
          return false;
        case Found(executable, sha256) =>
          if executable !in allowed || sha256 != Some(allowed[executable].sha256) {
            failure := true;
            return false;
          }
          var approval := allowed[executable];
          identities := identities[pid := Identity(approval.role, approval.sha256, Commands(round.rows)[pid])];
          return true;
      }
    }

    // The kill loop of close over the observed descendants that still run.
    method KillDescendants(targets: set<int>, group: int -> GroupAnswer, kill: int -> KillAnswer)
      modifies this`failure, this`signalled
      ensures signalled == old(signalled) + OwnGroup(targets, group)
      ensures failure <==> old(failure) || AnyForeign(targets, group, kill)
    {
      hide *;
      var pids := PidsInOrder(targets);
      NoTargets(pids, group, kill);
      for i := 0 to |pids|
        invariant signalled == old(signalled) + OwnGroup(Elements(pids[..i]), group)
        invariant failure <==> old(failure) || AnyForeign(Elements(pids[..i]), group, kill)
      {
        OneTarget(pids, i, old(signalled), group, kill);
        SignalOne(pids[i], group, kill);
      }
      assert pids[..|pids|] == pids;
    }

    // One pid: killed only if its group was just read as the transport's own.
    method SignalOne(pid: int, group: int -> GroupAnswer, kill: int -> KillAnswer)
      modifies this`failure, this`signalled
      ensures signalled == old(signalled) + Own(pid, group)
      ensures failure <==> old(failure) || Foreign(pid, group, kill)
    {
      match group(pid) {
        case Group(id) =>
          if id != pgid {
            failure := true;
          } else {
            signalled := signalled + {pid};
            if kill(pid) == KillDenied {
              failure := true;
            }
          }
        case GroupGone =>
        case GroupDenied =>
          failure := true;
      }
    }

    function Own(pid: int, group: int -> GroupAnswer): set<int> {
      if group(pid) == Group(pgid) then {pid} else {}
    }

    lemma {:induction false} NoTargets(pids: seq<int>, group: int -> GroupAnswer, kill: int -> KillAnswer)
      ensures OwnGroup(Elements(pids[..0]), group) == {} && !AnyForeign(Elements(pids[..0]), group, kill)
    {
    }

    lemma {:induction false} OneTarget(pids: seq<int>, i: nat, before: set<int>, group: int -> GroupAnswer,
                                       kill: int -> KillAnswer)
      requires i < |pids|
      ensures before + OwnGroup(Elements(pids[..i + 1]), group) == before + OwnGroup(Elements(pids[..i]), group)
              + Own(pids[i], group)
      ensures AnyForeign(Elements(pids[..i + 1]), group, kill) <==>
                AnyForeign(Elements(pids[..i]), group, kill) || Foreign(pids[i], group, kill)
    {
      var targets, pid := Elements(pids[..i]), pids[i];
      assert Elements(pids[..i + 1]) == targets + {pid};
      assert pid in targets + {pid};
      assert forall p :: p in targets ==> p in targets + {pid};
      hide Foreign, Elements;
    }

    // The targets whose group is still the transport's own.
    function OwnGroup(targets: set<int>, group: int -> GroupAnswer): set<int> {
      set pid | pid in targets && group(pid) == Group(pgid)
    }

    ghost predicate AnyForeign(targets: set<int>, group: int -> GroupAnswer, kill: int -> KillAnswer) {
      exists pid :: pid in targets && Foreign(pid, group, kill)
    }

    // The pid was reused by, or moved to, somebody else: it must not be killed and the close must fail.
    predicate Foreign(pid: int, group: int -> GroupAnswer, kill: int -> KillAnswer) {
      match group(pid)
      case Group(id) => id != pgid || kill(pid) == KillDenied
      case GroupGone => false
      case GroupDenied => true
    }

    // The role asked for, if any, was recorded.
    predicate RoleSeen()
      reads this`identities
    {
      requiredRole.Some? && requiredRole.value != "" ==>
        exists pid :: pid in identities && identities[pid].role == requiredRole.value
    }

    lemma {:induction false} RoleSeenExact()
      ensures RoleSeen() <==> !RoleMissing(requiredRole, identities)
    {
    }

    // close, with the server's ending, the tables and the answers of the system given. `snapshots` are the process
    // tables the reap loop reads before its deadline; the last one read decides what remains. A server that stays makes
    // it raise, and leaves it to be called again.
    method Close(forced0: bool, ending: Ending, exitCode: Option<int>, threadsJoined: bool, table: seq<ProcessRow>,
                 group: int -> GroupAnswer, kill: int -> KillAnswer, snapshots: seq<seq<ProcessRow>>)
      returns (result: Option<CloseResult>, ghost last: seq<ProcessRow>)
      requires snapshots != []
      modifies this`failure, this`signalled, this`closing, this`groupKilled
      ensures closing == if old(closing).None? && ending == Stays then None else result
      ensures old(closing).Some? ==>
                result == old(closing) && signalled == old(signalled) && failure == old(failure)
                    && groupKilled == old(groupKilled)
      ensures old(closing).None? ==> (groupKilled <==> old(groupKilled) || ending in {ExitsKilled, Stays})
      ensures old(closing).None? && ending == Stays ==>
              result.None? && signalled == old(signalled) && failure == old(failure)
      ensures old(closing).None? && ending != Stays ==>
                var targets := (observed - {self}) * Running(table);
                && signalled == old(signalled) + OwnGroup(targets, group)
                && (failure <==>
                      old(failure) || AnyForeign(targets, group, kill) || RoleMissing(requiredRole, identities))
                && last in snapshots
                && ((observed - {self}) * Running(last) != {} ==>
                      forall rows :: rows in snapshots ==> (observed - {self}) * Running(rows) != {})
                && result == Some(CloseResult(exitCode, forced0 || ending == ExitsKilled, threadsJoined, targets,
                                              (observed - {self}) * Running(last), failure))
    {
      last := snapshots[0];
      if closing.Some? {
        return closing, last;
      }
      RoleSeenExact();
      hide Running, OwnGroup, AnyForeign, RoleSeen, RoleMissing;
      var forced := forced0;
      if ending != Exited && ending != ExitsInTime {
        forced := true;
        groupKilled := true;
        if ending == Stays {
          return None, last;
        }
      }
      var beforeKill := (observed - {self}) * Running(table);
      KillDescendants(beforeKill, group, kill);
      var remaining;
      remaining, last := Reap(observed - {self}, snapshots);
      if !RoleSeen() {
        failure := true;
      }
      result := Some(CloseResult(exitCode, forced, threadsJoined, beforeKill, remaining, failure));
      closing := result;
    }
  }

  // sorted(pids)
  function PidsInOrder(pids: set<int>): (list: seq<int>)
    ensures Elements(list) == pids
  {
    SortSet((a, b) => a < b, pids)
  }

  // The wait for the killed processes to go, one table a round.
  method Reap(target: set<int>, snapshots: seq<seq<ProcessRow>>) returns (remaining: set<int>, last: seq<ProcessRow>)
    requires snapshots != []
    ensures last in snapshots && remaining == target * Running(last)
    ensures remaining != {} ==> forall rows :: rows in snapshots ==> target * Running(rows) != {}
  {
    hide Running;
    var k := 0;
    while target * Running(snapshots[k]) != {} && k + 1 < |snapshots|
      invariant 0 <= k < |snapshots|
      invariant forall m :: 0 <= m < k ==> target * Running(snapshots[m]) != {}
      decreases |snapshots| - k
    {
      k := k + 1;
    }
    remaining, last := target * Running(snapshots[k]), snapshots[k];
  }

  // require_transport_closed: a missing or zero exit code counts as none.
  predicate ClosedCleanly(result: CloseResult) {
    && result.exitCode in {None, Some(0)} && !result.forced && result.threadsJoined
    && result.remaining == {} && !result.failure
  }

  // Each of the five troubles refuses the result, and nothing else does.
  lemma {:induction false} RefusedExact(result: CloseResult)
    ensures !ClosedCleanly(result)
       <==> || (result.exitCode.Some? && result.exitCode.value != 0) || result.forced || !result.threadsJoined
            || (exists pid :: pid in result.remaining) || result.failure
  {
    if forall pid :: pid !in result.remaining { assert result.remaining == {}; }
  }

  // A close that is accepted left no observed descendant running in the last table read.
  lemma {:induction false} AcceptedCloseLeavesNothing(observed: set<int>, self: int, last: seq<ProcessRow>,
                                                      result: CloseResult)
    requires ClosedCleanly(result) && result.remaining == (observed - {self}) * Running(last)
    ensures forall row :: row in last && row.pid in observed && row.pid != self ==> row.zombie
  {
    forall row | row in last && row.pid in observed && row.pid != self ensures row.zombie {
      assert !row.zombie ==> row.pid in (observed - {self}) * Running(last);
    }
  }

  // So a monitored run whose close is accepted watched everything: whatever any table showed as owned had an allowed
  // executable when it was looked up, or had gone, and none of it still runs in the last table.
  lemma {:induction false} AcceptedRunWatched(rounds: seq<Round>, n: nat, self: int, pgid: int, allowed: Allowed,
                                              observed: set<int>, last: seq<ProcessRow>, result: CloseResult)
    requires Watched(rounds, n, self, pgid, allowed, {}, observed) && (n < |rounds| ==> result.failure)
    requires ClosedCleanly(result) && result.remaining == (observed - {self}) * Running(last)
    ensures forall i, pid :: 0 <= i < |rounds| && Owns(rounds[i].rows, self, pgid, pid) ==>
              && (LookedUp(rounds[i], self, allowed, pid) ==> Approved(rounds[i], allowed, pid))
              && (pid != self ==> forall row :: row in last && row.pid == pid ==> row.zombie)
  {
    AcceptedCloseLeavesNothing(observed, self, last, result);
    hide Owns, LookedUp, Approved, Running;
  }

  // Whatever later rounds showed, the close targets exactly the running processes that some round that passed owned.
  lemma {:induction false} TargetsExact(rounds: seq<Round>, n: nat, self: int, pgid: int, allowed: Allowed,
                                        observed: set<int>, table: seq<ProcessRow>)
    requires Watched(rounds, n, self, pgid, allowed, {}, observed)
    ensures forall pid :: pid in (observed - {self}) * Running(table) <==>
              && pid != self && pid in Running(table)
              && exists i :: 0 <= i < n && Owns(rounds[i].rows, self, pgid, pid)
  {
    hide Owns, Running, RoundPasses;
  }

  // Two tables: the server alone, then with a child whose executable is not allowed.
  function FailedRun(self: int, pgid: int, child: int): seq<Round> {
    var server := ProcessRow(self, 1, pgid, false, "server");
    [Round([server], pid => Vanished),
     Round([server, ProcessRow(child, self, pgid, false, "child")], pid => Found("child", Some("other")))]
  }

  lemma {:induction false} AloneOwned(row: ProcessRow, self: int, pgid: int, pid: int)
    requires row.pid == self && Owns([row], self, pgid, pid)
    ensures pid == self
  {
    var seeds := Seeds([row], self, pgid);
    assert Closed([row], {self}) && seeds <= {self};
    var path :| Lineage([row], seeds, path) && path[|path| - 1] == pid;
    LineageInside([row], seeds, {self}, path);
  }

  // The child of the round that does not pass belongs to the server and runs, and the failed run neither targets it nor
  // reports it as remaining.
  lemma {:induction false} FailedRoundUnseen(self: int, pgid: int, child: int, n: nat, observed: set<int>)
    requires child != self
    requires var rounds, allowed := FailedRun(self, pgid, child), map["server" := Approval("server", "digest")];
             && Watched(rounds, n, self, pgid, allowed, {}, observed)
             && (n < |rounds| ==> !RoundPasses(rounds[n], self, pgid, allowed))
    ensures var rows := FailedRun(self, pgid, child)[1].rows;
            && n == 1 && Owns(rows, self, pgid, child) && child in Running(rows)
            && (observed - {self}) * Running(rows) == {}
  {
    var rounds, allowed := FailedRun(self, pgid, child), map["server" := Approval("server", "digest")];
    var server, other := rounds[0].rows[0], rounds[1].rows[1];
    assert "server" in allowed && "child" != "server";
    FirstPasses(self, pgid, child, allowed);
    SecondFails(self, pgid, child, allowed);
    assert n == 1;
    assert other in rounds[1].rows;
    forall pid | pid in observed ensures pid == self {
      assert Owns(rounds[0].rows, self, pgid, pid);
      AloneOwned(server, self, pgid, pid);
    }
  }

  lemma {:induction false} FirstPasses(self: int, pgid: int, child: int, allowed: Allowed)
    ensures RoundPasses(FailedRun(self, pgid, child)[0], self, pgid, allowed)
  {
  }

  lemma {:induction false} SecondFails(self: int, pgid: int, child: int, allowed: Allowed)
    requires child != self && allowed != map[] && "child" !in allowed
    ensures var round := FailedRun(self, pgid, child)[1];
            Owns(round.rows, self, pgid, child) && !RoundPasses(round, self, pgid, allowed)
  {
    var round := FailedRun(self, pgid, child)[1];
    var server, other := round.rows[0], round.rows[1];
    assert other in round.rows && child in Seeds(round.rows, self, pgid);
    assert Lineage(round.rows, Seeds(round.rows, self, pgid), [child]);
    assert round.rows[..1] == [server] && Commands(round.rows) == Commands([server])[child := "child"];
    assert Owns(round.rows, self, pgid, child) && LookedUp(round, self, allowed, child)
           && !Approved(round, allowed, child);
  }

  // ----- the process table, line by line -----

  ghost predicate Starts(rows: seq<ProcessRow>, self: int, pgid: int, pid: int) {
    pid == self || exists i :: 0 <= i < |rows| && rows[i].pgid == pgid && rows[i].pid == pid
  }

  ghost predicate HasChild(rows: seq<ProcessRow>, parent: int, child: int) {
    exists j :: 0 <= j < |rows| && rows[j].ppid == parent && rows[j].pid == child
  }

  // From the server, or from a process of its group, down to the pid, each the parent of the next.
  ghost predicate LeadsTo(rows: seq<ProcessRow>, self: int, pgid: int, path: seq<int>, pid: int) {
    && |path| > 0 && path[|path| - 1] == pid && Starts(rows, self, pgid, path[0])
    && forall i :: 0 <= i < |path| - 1 ==> HasChild(rows, path[i], path[i + 1])
  }

  lemma {:induction false} StartsExact(rows: seq<ProcessRow>, self: int, pgid: int, x: int)
    ensures x in Seeds(rows, self, pgid) <==> Starts(rows, self, pgid, x)
  {
    if x in Seeds(rows, self, pgid) && x != self {
      var row :| row in rows && row.pgid == pgid && row.pid == x;
      var i :| 0 <= i < |rows| && rows[i] == row;
      assert rows[i].pgid == pgid;
    }
    if i :| 0 <= i < |rows| && rows[i].pgid == pgid && rows[i].pid == x { assert rows[i] in rows; }
  }

  lemma {:induction false} ChildExact(rows: seq<ProcessRow>, a: int, b: int)
    ensures Fathers(rows, a, b) <==> HasChild(rows, a, b)
  {
    if Fathers(rows, a, b) {
      var row :| row in rows && row.ppid == a && row.pid == b;
      var j :| 0 <= j < |rows| && rows[j] == row;
      assert rows[j].ppid == a;
    }
    if j :| 0 <= j < |rows| && rows[j].ppid == a && rows[j].pid == b { assert rows[j] in rows; }
  }

  lemma {:induction false} LeadsExact(rows: seq<ProcessRow>, self: int, pgid: int, path: seq<int>, pid: int)
    ensures LeadsTo(rows, self, pgid, path, pid)
       <==> Lineage(rows, Seeds(rows, self, pgid), path) && path[|path| - 1] == pid
  {
    hide Seeds, Starts, Fathers, HasChild;
    if path != [] {
      StartsExact(rows, self, pgid, path[0]);
      forall i | 0 <= i < |path| - 1
        ensures Fathers(rows, path[i], path[i + 1]) <==> HasChild(rows, path[i], path[i + 1])
      {
        ChildExact(rows, path[i], path[i + 1]);
      }
    }
  }

  // The owned processes are the server, its group and all their descendants by recorded parent links.
  lemma {:induction false} OwnsExact(rows: seq<ProcessRow>, self: int, pgid: int, pid: int)
    ensures Owns(rows, self, pgid, pid) <==> exists path :: LeadsTo(rows, self, pgid, path, pid)
  {
    forall path
      ensures LeadsTo(rows, self, pgid, path, pid)
         <==> Lineage(rows, Seeds(rows, self, pgid), path) && path[|path| - 1] == pid
    {
      LeadsExact(rows, self, pgid, path, pid);
    }
    hide LeadsTo, Lineage, Seeds;
  }

  // The last line of a pid.
  ghost predicate LastLine(rows: seq<ProcessRow>, pid: int, k: int) {
    0 <= k < |rows| && rows[k].pid == pid && forall j :: k < j < |rows| ==> rows[j].pid != pid
  }

  lemma {:induction false} CommandsLast(rows: seq<ProcessRow>, pid: int)
    ensures pid in Commands(rows) <==> exists k :: LastLine(rows, pid, k)
    ensures forall k :: LastLine(rows, pid, k) ==> Commands(rows)[pid] == rows[k].command
    decreases |rows|
  {
    if rows != [] {
      var n := |rows| - 1;
      CommandsLast(rows[..n], pid);
      if rows[n].pid == pid {
        assert LastLine(rows, pid, n);
      } else {
        forall k | LastLine(rows, pid, k) ensures LastLine(rows[..n], pid, k) { }
        forall k | LastLine(rows[..n], pid, k) ensures LastLine(rows, pid, k) { }
      }
    }
  }

  // An executable that was found is allowed with that digest, and one that was not found has gone.
  ghost predicate ExecutableFits(lookup: Lookup, allowed: Allowed) {
    && lookup != Unresolved
    && (lookup.Found? ==> lookup.executable in allowed && lookup.sha256 == Some(allowed[lookup.executable].sha256))
  }

  // A round passes exactly if every owned process but the server fits that has a command, when anything is allowed.
  lemma {:induction false} RoundPassesExact(round: Round, self: int, pgid: int, allowed: Allowed)
    ensures RoundPasses(round, self, pgid, allowed)
       <==> forall pid, k :: pid != self && |allowed| > 0 && Owns(round.rows, self, pgid, pid)
              && LastLine(round.rows, pid, k) && |round.rows[k].command| > 0
              ==> ExecutableFits(round.lookup(pid), allowed)
  {
    forall pid { CommandsLast(round.rows, pid); }
    hide Owns, Commands, LastLine;
    forall pid ensures Approved(round, allowed, pid) <==> ExecutableFits(round.lookup(pid), allowed) { }
    hide Approved, ExecutableFits;
    forall k, pid | LastLine(round.rows, pid, k) ensures 0 <= k < |round.rows| { LineInside(round.rows, pid, k); }
  }

  lemma {:induction false} LineInside(rows: seq<ProcessRow>, pid: int, k: int)
    requires LastLine(rows, pid, k)
    ensures 0 <= k < |rows|
  {
  }

  // What a close targets and what it reports as remaining: observed processes other than the server with a line in the
  // table that is not a zombie's.
  lemma {:induction false} TargetLines(observed: set<int>, self: int, table: seq<ProcessRow>, pid: int)
    ensures pid in (observed - {self}) * Running(table)
       <==> && pid in observed && pid != self
            && exists i :: 0 <= i < |table| && table[i].pid == pid && table[i].zombie == false
  {
    if pid in Running(table) {
      var row :| row in table && !row.zombie && row.pid == pid;
      var i :| 0 <= i < |table| && table[i] == row;
      assert table[i].zombie == false;
    }
    if i :| 0 <= i < |table| && table[i].pid == pid && table[i].zombie == false { assert table[i] in table; }
  }
}
