// Applying a configuration: stage, check, back up, swap in, restart, roll back. Every
// external operation may fail, and its outcome is given from outside.

module ConfigApply {
  import opened Bytes

  type Content = bytes

  datatype Status = Running | Stopped

  // The three files and the service.
  datatype Host = Host(live: Option<Content>, staged: Option<Content>, backup: Option<Content>, service: Status)

  // A write or copy that fails may leave anything behind in its target.
  datatype Write = Written | Broken(left: Option<Content>)

  // A service command that fails may leave the service in either state.
  datatype Command = Obeyed | Refused(stays: Status)

  // How the world answers during one application.
  datatype World = World(
    parses: bool, statusKnown: bool, write: Write, accepted: bool, copy: Write, renamed: bool, synced: bool,
    restart: Command, exposesHealth: bool, healthy: bool,
    unstaged: bool, restored: bool, resynced: bool, restartAgain: Command, start: Command, stop: Command)

  datatype Problem =
    | BadToml | NoStatus | NotStaged | NotAccepted | NotBackedUp | NotRenamed | NotSynced | NotRestarted | NotHealthy
    | NotRolledBack

  datatype Result = Ok | Err(problem: Problem)

  class Machine {
    var live: Option<Content>
    var staged: Option<Content>
    var backup: Option<Content>
    var service: Status

    // Every content the live file has had, in order, and how often a start was attempted.
    ghost var shown: seq<Option<Content>>
    ghost var starts: nat

    ghost function View(): Host
      reads this
    {
      Host(live, staged, backup, service)
    }

    constructor (h: Host)
      ensures View() == h && shown == [h.live] && starts == 0
    {
      live, staged, backup, service, shown, starts := h.live, h.staged, h.backup, h.service, [h.live], 0;
    }

    method WriteStaged(config: Content, w: Write) returns (ok: bool)
      modifies `staged
      ensures ok == w.Written? && staged == (if ok then Some(config) else w.left)
    {
      ok := w.Written?;
      staged := if ok then Some(config) else w.left;
    }

    // Cleaning up after an error; that this fails too is not reported.
    method RemoveStaged(ok: bool)
      modifies `staged
      ensures staged == (if ok then None else old(staged))
    {
      if ok {
        staged := None;
      }
    }

    method BackupConfig(w: Write) returns (ok: bool)
      modifies `backup
      ensures ok == w.Written? && backup == (if ok then live else w.left)
    {
      ok := w.Written?;
      backup := if ok then live else w.left;
    }

    // A rename is atomic: the live file is the old one or the new one.
    method SwapIn(ok: bool)
      modifies `live, `staged, `shown
      ensures live == (if ok then old(staged) else old(live)) && staged == (if ok then None else old(staged))
      ensures shown == old(shown) + [live]
    {
      if ok {
        live, staged := staged, None;
      }
      shown := shown + [live];
    }

    method RunService(c: Command, goal: Status)
      modifies `service, `starts
      ensures service == (if c.Obeyed? then goal else c.stays)
      ensures starts == old(starts) + (if goal.Running? then 1 else 0)
    {
      service := if c.Obeyed? then goal else c.stays;
      starts := starts + if goal.Running? then 1 else 0;
    }

    // Puts the old file back (or its absence), syncs, and returns to the prior service state.
    method Rollback(hadLive: bool, prior: Status, w: World) returns (ok: bool)
      modifies this
      ensures staged == old(staged) && old(shown) <= shown
      ensures forall i :: |old(shown)| <= i < |shown| ==> shown[i] in {old(live), if hadLive then old(backup) else None}
      ensures live in {old(live), if hadLive then old(backup) else None}
      ensures ok ==> live == (if hadLive then old(backup) else None) && service == prior
      ensures hadLive || old(live).Some? ==> ok == RollbackWorks(prior, w)
      ensures prior.Stopped? ==> starts == old(starts)
    {
      if hadLive {
        if !w.restored {
          return false;
        }
        live, backup := backup, None;
        shown := shown + [live];
      } else if live.Some? {
        if !w.restored {
          return false;
        }
        live := None;
        shown := shown + [live];
      }
      if !w.resynced {
        return false;
      }
      match prior
      case Running =>
        RunService(w.restartAgain, Running);
        if w.restartAgain.Refused? {
          RunService(w.start, Running);
          return w.start.Obeyed?;
        }
        ok := true;
      case Stopped =>
        RunService(w.stop, Stopped);
        ok := w.stop.Obeyed?;
    }

    method WaitForHttpHealth(w: World) returns (ok: bool)
      ensures ok == (w.exposesHealth ==> w.healthy)
    {
      ok := if w.exposesHealth then w.healthy else true;
    }

    /** One application of a configuration, with a failure possible at every step. */
    method ApplyConfig(config: Content, restart: bool, w: World) returns (r: Result)
      modifies this
      ensures r == Verdict(old(View()), restart, w)
      ensures Transaction(old(View()), config, w, r, View())
      ensures NeverTorn(old(live), config, w, old(shown), shown)
      ensures old(service).Stopped? ==> starts == old(starts)
      ensures r.Ok? ==> starts == old(starts) + (if restart && old(service).Running? then 1 else 0)
    {
      if !w.parses {
        return Err(BadToml);
      }
      if !w.statusKnown {
        return Err(NoStatus);
      }
      var prior := service;
      var ok := WriteStaged(config, w.write);
      if !ok {
        RemoveStaged(w.unstaged);
        return Err(NotStaged);
      }
      if !w.accepted {
        RemoveStaged(w.unstaged);
        return Err(NotAccepted);
      }
      var hadLive := live.Some?;
      if hadLive {
        ok := BackupConfig(w.copy);
        if !ok {
          RemoveStaged(w.unstaged);
          return Err(NotBackedUp);
        }
      }
      SwapIn(w.renamed);
      if !w.renamed {
        RemoveStaged(w.unstaged);
        return Err(NotRenamed);
      }
      if !w.synced {
        ok := Rollback(hadLive, prior, w);
        return Err(if ok then NotSynced else NotRolledBack);
      }
      var problem := Activate(prior, restart, w);
      if problem.Some? {
        ok := Rollback(hadLive, prior, w);
        return Err(if ok then problem.value else NotRolledBack);
      }
      r := Ok;
    }

    // Restarts a running service if asked to, and waits for it to be healthy.
    method Activate(prior: Status, restart: bool, w: World) returns (problem: Option<Problem>)
      modifies `service, `starts
      ensures problem == Inactive(prior, restart, w)
      ensures prior.Stopped? ==> problem.None? && service == old(service) && starts == old(starts)
      ensures problem.None? ==> service == old(service) || service.Running?
      ensures problem.None? ==> starts == old(starts) + (if restart && prior.Running? then 1 else 0)
    {
      if prior.Stopped? {
        return None;
      }
      if restart {
        RunService(w.restart, Running);
        if w.restart.Refused? {
          return Some(NotRestarted);
        }
      }
      var ok := WaitForHttpHealth(w);
      problem := if ok then None else Some(NotHealthy);
    }
  }

  // ---- What an application promises ---------------------------------------

  // Whether a rollback goes through.
  predicate RollbackWorks(prior: Status, w: World)
  {
    w.restored && w.resynced && if prior.Running? then w.restartAgain.Obeyed? || w.start.Obeyed? else w.stop.Obeyed?
  }

  // Why a service that was running is not up with the new configuration.
  function Inactive(prior: Status, restart: bool, w: World): Option<Problem>
  {
    if prior.Stopped? then None
    else if restart && w.restart.Refused? then Some(NotRestarted)
    else if w.exposesHealth && !w.healthy then Some(NotHealthy)
    else None
  }

  // The first problem met, if any.
  function FirstProblem(h: Host, restart: bool, w: World): Option<Problem>
  {
    if !w.parses then Some(BadToml)
    else if !w.statusKnown then Some(NoStatus)
    else if w.write.Broken? then Some(NotStaged)
    else if !w.accepted then Some(NotAccepted)
    else if h.live.Some? && w.copy.Broken? then Some(NotBackedUp)
    else if !w.renamed then Some(NotRenamed)
    else if !w.synced then Some(NotSynced)
    else Inactive(h.service, restart, w)
  }

  // The problems after which nothing has to be undone.
  predicate BeforeSwap(p: Problem)
  {
    p in {BadToml, NoStatus, NotStaged, NotAccepted, NotBackedUp, NotRenamed}
  }

  // Success exactly without problems; a problem after the swap is reported as such only
  // if the rollback worked.
  function Verdict(h: Host, restart: bool, w: World): Result
  {
    var p := FirstProblem(h, restart, w);
    if p.None? then Ok
    else if BeforeSwap(p.value) || RollbackWorks(h.service, w) then Err(p.value)
    else Err(NotRolledBack)
  }

  /** An application succeeds exactly when every step it takes does: the text parses, the status is
      known, the file is written, accepted, backed up if there was one, renamed and synced, and a
      running service is restarted if asked for and healthy if it can tell. */
  lemma OkExactly(h: Host, restart: bool, w: World)
    ensures Verdict(h, restart, w).Ok? <==>
            && w.parses && w.statusKnown && w.write.Written? && w.accepted
            && (h.live.Some? ==> w.copy.Written?) && w.renamed && w.synced
            && (h.service.Running? ==> (restart ==> w.restart.Obeyed?) && (w.exposesHealth ==> w.healthy))
  {}

  // The step this problem names did fail.
  predicate DidFail(p: Problem, h: Host, restart: bool, w: World)
  {
    match p
    case BadToml => !w.parses
    case NoStatus => !w.statusKnown
    case NotStaged => w.write.Broken?
    case NotAccepted => !w.accepted
    case NotBackedUp => h.live.Some? && w.copy.Broken?
    case NotRenamed => !w.renamed
    case NotSynced => !w.synced
    case NotRestarted => h.service.Running? && restart && w.restart.Refused?
    case NotHealthy => h.service.Running? && w.exposesHealth && !w.healthy
    case NotRolledBack =>
      !w.restored || !w.resynced ||
      (if h.service.Running? then w.restartAgain.Refused? && w.start.Refused? else w.stop.Refused?)
  }

  /** An error names a step that failed; one that is met after the swap, and is not a failed
      rollback, also means that every step of the rollback worked. */
  lemma ErrorsAreReal(h: Host, restart: bool, w: World)
    ensures var r := Verdict(h, restart, w);
            r.Err? ==>
              && DidFail(r.problem, h, restart, w)
              && (r.problem in {NotSynced, NotRestarted, NotHealthy} ==> !DidFail(NotRolledBack, h, restart, w))
  {}

  // The live file only ever shows the old content or a wholly written, accepted new one.
  ghost predicate NeverTorn(was: Option<Content>, config: Content, w: World,
                            before: seq<Option<Content>>, after: seq<Option<Content>>)
  {
    && before <= after
    && forall i :: |before| <= i < |after| ==>
         after[i] == was || (after[i] == Some(config) && w.write.Written? && w.accepted)
  }

  // All or nothing: Ok leaves the new configuration live and the old one in the backup;
  // any error but a failed rollback leaves the old configuration and service state.
  ghost predicate Transaction(a: Host, config: Content, w: World, r: Result, b: Host)
  {
    match r
    case Ok =>
      && b.live == Some(config) && w.accepted && b.staged.None? && b.service == a.service
      && b.backup == (if a.live.Some? then a.live else a.backup)
    case Err(p) =>
      if p.NotRolledBack? then w.accepted && (b.live == a.live || b.live == Some(config))
      else
        && b.live == a.live && b.service == a.service
        && (p in {BadToml, NoStatus, NotStaged, NotAccepted} ==> b.backup == a.backup)
  }

  // ---- Series of applications ---------------------------------------------

  datatype Round = Round(config: Content, world: World, result: Result)

  // Each host is what the application before it left.
  ghost predicate Series(hosts: seq<Host>, rounds: seq<Round>)
  {
    && |hosts| == |rounds| + 1
    && forall i :: 0 <= i < |rounds| ==>
         Transaction(hosts[i], rounds[i].config, rounds[i].world, rounds[i].result, hosts[i + 1])
  }

  // Round j's configuration is live after n rounds.
  ghost predicate LiveFrom(hosts: seq<Host>, rounds: seq<Round>, n: nat, j: int)
    requires n < |hosts|
  {
    && 0 <= j < n && j < |rounds| && hosts[n].live == Some(rounds[j].config) && rounds[j].world.accepted
    && (rounds[j].result.Ok? || rounds[j].result == Err(NotRolledBack))
  }

  /** Over any series of applications the live configuration is the first one or one that was
      accepted by the configuration check. While no rollback fails, it is that of the last
      application that succeeded, and the service state never changes. */
  lemma {:induction false} LiveIsAlwaysAccepted(hosts: seq<Host>, rounds: seq<Round>, n: nat)
    requires Series(hosts, rounds) && n < |hosts|
    ensures hosts[n].live == hosts[0].live || exists j :: LiveFrom(hosts, rounds, n, j)
    ensures (forall i :: 0 <= i < n ==> rounds[i].result != Err(NotRolledBack)) ==>
              hosts[n].service == hosts[0].service && hosts[n].live == LastApplied(hosts[0].live, rounds[..n])
    decreases n
  {
    if n == 0 {
      assert rounds[..0] == [];
    } else {
      var m := n - 1;
      LiveIsAlwaysAccepted(hosts, rounds, m);
      assert rounds[..n][..m] == rounds[..m];
      assert Transaction(hosts[m], rounds[m].config, rounds[m].world, rounds[m].result, hosts[m + 1]);
      if hosts[n].live == hosts[m].live {
        if j :| LiveFrom(hosts, rounds, m, j) {
          assert LiveFrom(hosts, rounds, n, j);
        }
      } else {
        assert LiveFrom(hosts, rounds, n, m);
      }
    }
  }

  function LastApplied(first: Option<Content>, rounds: seq<Round>): Option<Content>
  {
    if rounds == [] then first
    else
      var last := rounds[|rounds| - 1];
      if last.result.Ok? then Some(last.config) else LastApplied(first, rounds[..|rounds| - 1])
  }
}
