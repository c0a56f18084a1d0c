/** Activation and rollback of installed environments.

    The prefix is the two links `current` and `previous` and the environment
    directories.  Every file-system or subprocess step asks an oracle whether it
    succeeds, raises before it takes effect, or raises after (an interrupt
    delivered once the system call has returned): the theorems hold for every oracle.
 */
module Installer {
  import opened Common

  datatype Target = Env(name: string) | Other(path: string)

  /** A directory entry of the prefix. */
  datatype Entry = Absent | Link(target: Target) | UserFile

  datatype Identity = Identity(release: string, variant: string, revision: string, assets: string)

  datatype Fault = Fine | Before | After

  /** A prefix on disk; an environment holds installation.json when it has an identity. */
  datatype Disk = Disk(current: Entry, previous: Entry, envs: map<string, Option<Identity>>)

  predicate Installed(d: Disk, name: string) {
    name in d.envs && d.envs[name].Some?
  }

  /** Absent, or a link to an existing environment that holds installation.json. */
  predicate GoodLink(d: Disk, e: Entry) {
    e == Absent || (e.Link? && e.target.Env? && Installed(d, e.target.name))
  }

  /** What managed_current accepts. */
  function Managed(d: Disk): Option<Option<string>> {
    if d.current == Absent then Some(None)
    else if d.current.Link? && d.current.target.Env? && Installed(d, d.current.target.name) then
      Some(Some(d.current.target.name))
    else None
  }

  datatype Request = Request(identity: Identity, upgrade: bool, candidate: string)

  /** What one run, failing anywhere or not, may do to the disk. */
  ghost predicate RunEffect(d: Disk, e: Disk, q: Request) {
    // No environment but the candidate is created, changed or deleted.
    && (forall n :: n in d.envs ==> n in e.envs && e.envs[n] == d.envs[n])
    && (forall n :: n in e.envs ==> n in d.envs || n == q.candidate)
    // The switch goes to a complete candidate that was not there before.
    && (e.current == d.current
        || (e.current == Link(Env(q.candidate)) && q.candidate !in d.envs
            && q.candidate in e.envs && e.envs[q.candidate] == Some(q.identity)))
    // The rollback link is kept or names the environment that was active.
    && (e.previous == d.previous
        || (Managed(d).Some? && Managed(d).value.Some? && e.previous == Link(Env(Managed(d).value.value))))
    // Files that are not ours stay.
    && (d.current == UserFile ==> e.current == UserFile)
    && (d.previous == UserFile ==> e.previous == UserFile)
  }

  /** Why a run that meets no fault still refuses: `current` is not ours; something else is
      active and may not be replaced, or its record cannot; or the name is taken. */
  ghost predicate Refused(d: Disk, q: Request) {
    if d.current == Absent then q.candidate in d.envs
    else if !(d.current.Link? && d.current.target.Env? && Installed(d, d.current.target.name)) then true
    else !AlreadyActive(d, q) && (!q.upgrade || q.candidate in d.envs || d.previous == UserFile)
  }

  lemma NoEffect(d: Disk, q: Request)
    ensures RunEffect(d, d, q)
  {
  }

  /** The candidate was made and has no identity yet. */
  lemma MadeEffect(d: Disk, q: Request)
    requires q.candidate !in d.envs
    ensures RunEffect(d, d.(envs := d.envs[q.candidate := None]), q)
  {
  }

  /** The candidate was built, or not, and perhaps removed. */
  lemma BuiltEffect(d: Disk, e: Disk, q: Request, made: map<string, Option<Identity>>)
    requires q.candidate !in d.envs
    requires made == d.envs[q.candidate := None] || made == d.envs[q.candidate := Some(q.identity)]
    requires e.envs == made || (e.envs == made - {q.candidate} && e.current != Link(Env(q.candidate)))
    requires e.current == d.current || (e.current == Link(Env(q.candidate)) && made[q.candidate] == Some(q.identity))
    requires e.previous == d.previous
             || (Managed(d).Some? && Managed(d).value.Some? && e.previous == Link(Env(Managed(d).value.value)))
    requires (d.current == UserFile ==> e.current == UserFile) && (d.previous == UserFile ==> e.previous == UserFile)
    ensures RunEffect(d, e, q)
  {
  }

  /** The requested environment is the active one. */
  ghost predicate AlreadyActive(d: Disk, q: Request) {
    d.current.Link? && d.current.target.Env? && d.current.target.name in d.envs
    && d.envs[d.current.target.name] == Some(q.identity)
  }

  /** Steps of a run that is neither refused nor interrupted. */
  ghost function StepsOf(d: Disk, q: Request): nat {
    if d.current == Absent then 9 else if AlreadyActive(d, q) then 3 else 13
  }

  class Prefix {
    var disk: Disk
    const oracle: nat -> Fault
    var clock: nat

    constructor (disk: Disk, oracle: nat -> Fault)
      ensures this.disk == disk && this.oracle == oracle && clock == 0
    {
      this.disk, this.oracle, clock := disk, oracle, 0;
    }

    method Step() returns (f: Fault)
      modifies this`clock
      ensures f == oracle(old(clock)) && clock == old(clock) + 1
    {
      f := oracle(clock);
      clock := clock + 1;
    }

    function EntryOf(current: bool): Entry
      reads this
    {
      if current then disk.current else disk.previous
    }

    /** Fault pattern under which replace_link, started at time t, has renamed the
        temporary over the link but still raises. */
    predicate RaisesAfterRename(t: nat) {
      oracle(t) == Fine && (oracle(t + 1) == After || (oracle(t + 1) == Fine && oracle(t + 2) != Fine))
    }

    predicate RenamesCleanly(t: nat) {
      oracle(t) == Fine && oracle(t + 1) == Fine && oracle(t + 2) == Fine
    }

    /** At least two of the steps from time t up to u met a fault. */
    ghost predicate FaultsTwice(t: nat, u: nat) {
      exists i, j :: t <= i < j < u && oracle(i) != Fine && oracle(j) != Fine
    }

    /** The next n steps meet no fault. */
    ghost predicate Undisturbed(t: nat, n: nat) {
      forall i :: t <= i < t + n ==> oracle(i) == Fine
    }

    lemma OneStep(t: nat, n: nat)
      ensures Undisturbed(t, n + 1) <==> oracle(t) == Fine && Undisturbed(t + 1, n)
      ensures Undisturbed(t, 0)
    {
    }

    lemma InstallSteps(t: nat)
      ensures Undisturbed(t, 3) <==> oracle(t) == Fine && oracle(t + 1) == Fine && oracle(t + 2) == Fine
      ensures Undisturbed(t, 9) <==> oracle(t) == Fine && oracle(t + 1) == Fine && Undisturbed(t + 2, 7)
      ensures Undisturbed(t, 13) <==>
                oracle(t) == Fine && oracle(t + 1) == Fine && oracle(t + 2) == Fine && Undisturbed(t + 3, 10)
    {
      OneStep(t, 2);
      OneStep(t + 1, 1);
      OneStep(t + 2, 0);
      OneStep(t, 8);
      OneStep(t + 1, 7);
      OneStep(t, 12);
      OneStep(t + 1, 11);
      OneStep(t + 2, 10);
    }

    lemma BuildSteps(t: nat)
      ensures Undisturbed(t, 2) <==> oracle(t) == Fine && oracle(t + 1) == Fine
      ensures Undisturbed(t, 7) <==>
                oracle(t) == Fine && oracle(t + 1) == Fine && oracle(t + 2) == Fine && Undisturbed(t + 3, 4)
      ensures Undisturbed(t, 10) <==>
                oracle(t) == Fine && oracle(t + 1) == Fine && oracle(t + 2) == Fine && Undisturbed(t + 3, 7)
    {
      OneStep(t, 1);
      OneStep(t + 1, 0);
      OneStep(t, 6);
      OneStep(t + 1, 5);
      OneStep(t + 2, 4);
      OneStep(t, 9);
      OneStep(t + 1, 8);
      OneStep(t + 2, 7);
    }

    lemma ActivationSteps(t: nat)
      ensures Undisturbed(t, 4) <==> oracle(t) == Fine && RenamesCleanly(t + 1)
      ensures Undisturbed(t, 7) <==> oracle(t) == Fine && RenamesCleanly(t + 1) && RenamesCleanly(t + 4)
    {
    }

    /** A replacement that raised at time t, and then a step or a replacement at time u. */
    lemma FailedTwice(start: nat, t: nat, u: nat, end: nat, replacing: bool)
      requires start <= t && !RenamesCleanly(t) && u == t + if oracle(t) == Fine then 3 else 2
      requires if replacing then !RenamesCleanly(u) && end == u + (if oracle(u) == Fine then 3 else 2)
               else oracle(u) != Fine && end == u + 1
      ensures FaultsTwice(start, end)
    {
      var i := if oracle(t) != Fine then t else if oracle(t + 1) != Fine then t + 1 else t + 2;
      var j := if oracle(u) != Fine then u else if oracle(u + 1) != Fine then u + 1 else u + 2;
      assert start <= i < j < end && oracle(i) != Fine && oracle(j) != Fine;
    }

    /** replace_link: build a temporary link, rename it over the entry, always unlink the temporary. */
    method ReplaceLink(current: bool, target: Target) returns (raised: bool)
      modifies this
      ensures disk.envs == old(disk.envs) && EntryOf(!current) == old(EntryOf(!current))
      ensures old(EntryOf(current)) == UserFile ==> raised && EntryOf(current) == UserFile && clock == old(clock)
      ensures old(EntryOf(current)) != UserFile ==>
                && clock == old(clock) + (if oracle(old(clock)) == Fine then 3 else 2)
                && (raised <==> !RenamesCleanly(old(clock)))
                && EntryOf(current) == (if RenamesCleanly(old(clock)) || RaisesAfterRename(old(clock))
                                        then Link(target) else old(EntryOf(current)))
    {
      if EntryOf(current) == UserFile {
        return true;
      }
      var f := Step();                       // temporary.symlink_to(target)
      raised := f != Fine;
      if !raised {
        f := Step();                         // temporary.replace(path)
        if f != Before {
          disk := if current then disk.(current := Link(target)) else disk.(previous := Link(target));
        }
        raised := f != Fine;
      }
      f := Step();                           // finally: temporary.unlink(missing_ok=True)
      raised := raised || f != Fine;
    }

    /** Fault pattern under which activation with a record, started at time t, renames `current`. */
    predicate Switches(t: nat) {
      oracle(t) == Fine && RenamesCleanly(t + 1) && (RenamesCleanly(t + 4) || RaisesAfterRename(t + 4))
    }

    /** Fault pattern under which activation, started at time t, has switched `current` when
        the second replacement raises, and the handler then takes the record back. */
    predicate HandlerUndid(t: nat, before: Entry, record: Target) {
      && RaisesAfterRename(t + 4)
      && if before.Link? then before.target != record && (RenamesCleanly(t + 7) || RaisesAfterRename(t + 7))
         else oracle(t + 7) != Before
    }

    /** activate_environment.  `exposed` reports that `previous` was already renamed
        when the first replacement raised, before the try block; `undone` that the
        handler's own steps succeeded. */
    method Activate(candidate: string, previous: Option<string>)
      returns (raised: bool, ghost exposed: bool, ghost undone: bool)
      modifies this
      ensures disk.envs == old(disk.envs) && clock > old(clock)
      ensures !raised <==>
                && old(disk.current) != UserFile && (previous.Some? ==> old(disk.previous) != UserFile)
                && Undisturbed(old(clock), if previous.Some? then 7 else 4)
      ensures !raised ==> disk.current == Link(Env(candidate))
      ensures !raised ==> disk.previous == (if previous.Some? then Link(Env(previous.value)) else old(disk.previous))
      ensures disk.current == old(disk.current) || disk.current == Link(Env(candidate))
      ensures disk.previous == old(disk.previous)
              || (previous.Some? && disk.previous == Link(Env(previous.value)))
      ensures old(disk.current) == UserFile ==> disk.current == UserFile
      ensures old(disk.previous) == UserFile ==> disk.previous == UserFile
      ensures exposed <==> previous.Some? && old(disk.previous) != UserFile && oracle(old(clock)) == Fine
                           && RaisesAfterRename(old(clock) + 1)
      ensures exposed ==> raised && disk.previous == Link(Env(previous.value)) && disk.current == old(disk.current)
      ensures raised && !exposed && undone ==> disk.previous == old(disk.previous)
      ensures !undone ==> raised && previous.Some? && (old(disk.current) == UserFile || FaultsTwice(old(clock), clock))
      ensures previous.Some? && Switches(old(clock)) && old(disk.current) != UserFile && old(disk.previous) != UserFile ==>
                disk.current == Link(Env(candidate))
      ensures previous.Some? && disk.current != old(disk.current) ==>
                (disk.previous != Link(Env(previous.value)) <==>
                   HandlerUndid(old(clock), old(disk.previous), Env(previous.value)))
    {
      exposed, undone := false, true;
      ActivationSteps(clock);
      ghost var start := clock;
      hide Undisturbed;
      hide FaultsTwice;
      var f := Step();                       // rollback.readlink()
      if f != Fine {
        return true, false, true;
      }
      var original := if disk.previous.Link? then Some(disk.previous.target) else None;
      if previous.Some? {
        ghost var t := clock;
        raised := ReplaceLink(false, Env(previous.value));
        if raised {
          exposed := old(disk.previous) != UserFile && RaisesAfterRename(t);
          return;
        }
      }
      ghost var at := clock;
      raised := ReplaceLink(true, Env(candidate));
      ghost var handler := clock;
      if raised && previous.Some? {
        if original.None? {
          f := Step();                       // rollback.unlink(missing_ok=True)
          if f != Before {
            disk := disk.(previous := Absent);
          }
          undone := f == Fine;
        } else {
          var failed := ReplaceLink(false, original.value);
          undone := !failed;
        }
        if !undone && old(disk.current) != UserFile {
          FailedTwice(start, at, handler, clock, original.Some?);
        }
      }
    }

    /** install.  Returns the active environment, or None when an exception left the
        function.  `entered` reports that the try block was entered, `removal` how the
        handler's rmtree fared. */
    method Install(q: Request) returns (r: Option<string>, ghost entered: bool, ghost removal: Fault)
      modifies this
      ensures r.None? && !entered ==> disk.current == old(disk.current) && disk.previous == old(disk.previous)
      ensures r.None? && !entered ==>
                || disk.envs == old(disk.envs)
                || (disk.envs == old(disk.envs)[q.candidate := None] && clock > old(clock) && oracle(clock - 1) == After)
      ensures removal != Fine ==> entered && clock > old(clock) && oracle(clock - 1) == removal
      ensures removal == Before ==> q.candidate in disk.envs
      ensures r.None? && entered && removal != Before && disk.current != Link(Env(q.candidate)) ==>
                disk.envs == old(disk.envs)
      ensures entered ==> q.candidate !in old(disk.envs) && (old(disk.current) == Absent || q.upgrade)
      ensures disk.current == Link(Env(q.candidate)) && disk.current != old(disk.current) ==> q.candidate in disk.envs
      ensures RunEffect(old(disk), disk, q)
      ensures r.Some? <==> !Refused(old(disk), q) && Undisturbed(old(clock), StepsOf(old(disk), q))
      ensures r.Some? && AlreadyActive(old(disk), q) ==> disk == old(disk) && Link(Env(r.value)) == old(disk.current)
      ensures r.Some? && !AlreadyActive(old(disk), q) ==>
                && r.value == q.candidate
                && disk.envs == old(disk.envs)[q.candidate := Some(q.identity)]
                && disk.previous == (if old(disk.current) == Absent then old(disk.previous) else old(disk.current))
      ensures r.Some? ==> disk.current == Link(Env(r.value)) && r.value in disk.envs
                          && disk.envs[r.value] == Some(q.identity)
      ensures Managed(old(disk)).None? ==> r.None? && disk == old(disk)
    {
      entered, removal := false, Fine;
      r := None;
      ghost var before := disk;
      NoEffect(disk, q);
      hide RunEffect;
      InstallSteps(clock);
      hide Undisturbed;
      var f := Step();                       // platform checks, directories, prefix lock
      if f != Fine {
        return;
      }
      var managed := Managed(disk);
      if managed.None? {
        return;
      }
      var previous := managed.value;
      if previous.Some? {
        f := Step();                         // read installation.json
        if f != Fine {
          return;
        }
        if disk.envs[previous.value] == Some(q.identity) {
          f := Step();                       // validate_environment
          if f != Fine {
            return;
          }
          r := previous;
          return;
        }
        if !q.upgrade {
          return;
        }
      }
      if q.candidate in disk.envs {          // mkdir refuses an existing name
        return;
      }
      MadeEffect(disk, q);
      f := Step();                           // environment.mkdir()
      if f != Before {
        disk := disk.(envs := disk.envs[q.candidate := None]);
      }
      if f != Fine {
        return;
      }
      entered := true;
      var raised := Build(q, previous);
      ghost var made := disk.envs;
      BuiltEffect(before, disk, q, made);
      if !raised {
        r := Some(q.candidate);
        return;
      }
      removal := Abandon(q);
      BuiltEffect(before, disk, q, made);
    }

    /** The handler of install: the candidate goes unless `current` names it. */
    method Abandon(q: Request) returns (ghost removal: Fault)
      requires q.candidate in disk.envs
      modifies this
      ensures clock > old(clock) && disk.current == old(disk.current) && disk.previous == old(disk.previous)
      ensures disk.envs == if disk.current != Link(Env(q.candidate)) && removal != Before
                           then old(disk.envs) - {q.candidate} else old(disk.envs)
      ensures removal != Fine ==> oracle(clock - 1) == removal
    {
      removal := Fine;
      if disk.current != Link(Env(q.candidate)) {
        var f := Step();                     // shutil.rmtree(environment)
        removal := f;
        if f != Before {
          disk := disk.(envs := disk.envs - {q.candidate});
        }
        if f != Fine {
          return;
        }
      }
      var g := Step();                       // the failure log, then the exception again
    }

    /** The try block of install. */
    method Build(q: Request, previous: Option<string>) returns (raised: bool)
      requires q.candidate in disk.envs && disk.envs[q.candidate] == None
      modifies this
      ensures clock > old(clock)
      ensures disk.envs ==
              if Undisturbed(old(clock), 2) && oracle(old(clock) + 2) != Before
              then old(disk.envs)[q.candidate := Some(q.identity)] else old(disk.envs)
      ensures !raised <==>
                && old(disk.current) != UserFile && (previous.Some? ==> old(disk.previous) != UserFile)
                && Undisturbed(old(clock), if previous.Some? then 10 else 7)
      ensures disk.current == old(disk.current)
              || (disk.current == Link(Env(q.candidate)) && disk.envs[q.candidate] == Some(q.identity))
      ensures disk.previous == old(disk.previous)
              || (previous.Some? && disk.previous == Link(Env(previous.value)))
      ensures old(disk.current) == UserFile ==> disk.current == UserFile
      ensures old(disk.previous) == UserFile ==> disk.previous == UserFile
      ensures !raised ==> disk.current == Link(Env(q.candidate)) && disk.envs[q.candidate] == Some(q.identity)
                          && disk.previous == (if previous.Some? then Link(Env(previous.value)) else old(disk.previous))
    {
      BuildSteps(clock);
      hide Undisturbed;
      var f := Step();                       // install_environment
      if f != Fine {
        return true;
      }
      f := Step();                           // validate_environment
      if f != Fine {
        return true;
      }
      f := Step();                           // write installation.json
      if f != Before {
        disk := disk.(envs := disk.envs[q.candidate := Some(q.identity)]);
      }
      if f != Fine {
        return true;
      }
      ghost var exposed, undone;
      raised, exposed, undone := Activate(q.candidate, previous);
    }
  }

  // ---- every sequence of runs ------------------------------------------------------------

  const EMPTY := Disk(Absent, Absent, map[])

  /** One run keeps both links good. */
  lemma RunKeepsLinks(d: Disk, e: Disk, q: Request)
    requires GoodLink(d, d.current) && GoodLink(d, d.previous) && RunEffect(d, e, q)
    ensures GoodLink(e, e.current) && GoodLink(e, e.previous)
  {
  }

  ghost predicate IsHistory(disks: seq<Disk>, requests: seq<Request>) {
    && |disks| == |requests| + 1 && disks[0] == EMPTY
    && forall k :: 0 <= k < |requests| ==> RunEffect(disks[k], disks[k + 1], requests[k])
  }

  /** After any sequence of runs from an empty prefix, failing wherever they like, both
      links are absent or name a complete environment, and every environment that any
      earlier link named still exists with the identity it was installed with. */
  lemma {:induction false} HistoryKeepsLinks(disks: seq<Disk>, requests: seq<Request>, k: nat)
    requires IsHistory(disks, requests) && k < |disks|
    ensures GoodLink(disks[k], disks[k].current) && GoodLink(disks[k], disks[k].previous)
    ensures forall j :: 0 <= j <= k ==>
              && (disks[j].current.Link? ==> SameEnvironment(disks[j], disks[k], disks[j].current))
              && (disks[j].previous.Link? ==> SameEnvironment(disks[j], disks[k], disks[j].previous))
  {
    if k > 0 {
      HistoryKeepsLinks(disks, requests, k - 1);
      var d, e, q := disks[k - 1], disks[k], requests[k - 1];
      assert RunEffect(d, e, q);
      RunKeepsLinks(d, e, q);
    }
  }

  ghost predicate SameEnvironment(d: Disk, e: Disk, link: Entry)
    requires link.Link?
  {
    && link.target.Env?
    && Installed(d, link.target.name) && Installed(e, link.target.name)
    && e.envs[link.target.name] == d.envs[link.target.name]
  }

  /** Runs of the real installer are such histories. */
  method RunAll(requests: seq<Request>, oracle: nat -> Fault) returns (p: Prefix, ghost disks: seq<Disk>)
    ensures IsHistory(disks, requests) && p.disk == disks[|disks| - 1]
    ensures GoodLink(p.disk, p.disk.current) && GoodLink(p.disk, p.disk.previous)
  {
    p := new Prefix(EMPTY, oracle);
    disks := [EMPTY];
    var i := 0;
    while i < |requests|
      invariant 0 <= i <= |requests| && fresh(p)
      invariant IsHistory(disks, requests[..i]) && p.disk == disks[i]
    {
      ghost var entered, removal;
      var r;
      r, entered, removal := p.Install(requests[i]);
      ghost var before := disks;
      disks := disks + [p.disk];
      assert requests[..i + 1][..i] == requests[..i];
      i := i + 1;
    }
    assert requests[..i] == requests;
    HistoryKeepsLinks(disks, requests, |requests|);
  }

  /** A first install needs no --upgrade; and an upgrade records what it replaced. */
  method InstallThenUpgrade(q: Request, next: Request) returns (p: Prefix, ghost first: Disk)
    requires q.identity != next.identity && q.candidate != next.candidate && next.upgrade
    ensures first == Disk(Link(Env(q.candidate)), Absent, map[q.candidate := Some(q.identity)])
    ensures p.disk == Disk(Link(Env(next.candidate)), Link(Env(q.candidate)),
                           map[q.candidate := Some(q.identity), next.candidate := Some(next.identity)])
  {
    p := new Prefix(EMPTY, t => Fine);
    ghost var entered, removal;
    var r;
    r, entered, removal := p.Install(q);
    first := p.disk;
    r, entered, removal := p.Install(next);
  }

  // ---- the rollback promise ------------------------------------------------------------------

  /** When the switch does not happen and the handler's steps succeed, are both links
      as before?  Exactly unless an exception hits between the rename of `previous`
      and the try block, and the rename changed the link. */
  method RollbackIsExact(p: Prefix, candidate: string, previous: Option<string>)
    returns (raised: bool, ghost undone: bool)
    requires p.disk.current != Link(Env(candidate))
    modifies p
    ensures raised && undone && p.disk.current == old(p.disk.current) ==>
              (p.disk == old(p.disk) <==>
                 !(previous.Some? && old(p.disk.previous) != UserFile
                   && old(p.disk.previous) != Link(Env(previous.value))
                   && p.oracle(old(p.clock)) == Fine && p.RaisesAfterRename(old(p.clock) + 1)))
  {
    ghost var exposed;
    raised, exposed, undone := p.Activate(candidate, previous);
  }

  /** The exception is real: interrupted right after the first rename, activation
      leaves `previous` changed although `current` was never switched. */
  method InterruptedRename() returns (p: Prefix, raised: bool)
    ensures raised && p.disk.current == Link(Env("a")) && p.disk.previous == Link(Env("a"))
  {
    var envs := map["a" := Some(Identity("1", "cpu", "r", "x")), "b" := Some(Identity("2", "cpu", "r", "y"))];
    p := new Prefix(Disk(Link(Env("a")), Absent, envs), t => if t == 2 then After else Fine);
    ghost var exposed, undone;
    raised, exposed, undone := p.Activate("b", Some("a"));
    assert p.RaisesAfterRename(1);
  }

  /** After an upgrade `previous` should record the environment that was replaced.  Once
      `current` is switched, does it?  Exactly unless replace_link raises after it has
      renamed `current`: the handler then takes the record back. */
  method RecordIsExact(p: Prefix, candidate: string, replaced: string) returns (raised: bool)
    requires p.disk.current != Link(Env(candidate))
    modifies p
    ensures p.disk.current == Link(Env(candidate)) ==>
              (p.disk.previous == Link(Env(replaced)) <==>
                 !p.HandlerUndid(old(p.clock), old(p.disk.previous), Env(replaced)))
  {
    ghost var exposed, undone;
    raised, exposed, undone := p.Activate(candidate, Some(replaced));
  }

  /** The exception is real: interrupted right after `current` was renamed, an upgrade from
      a to b leaves `current` on b and nothing that records a. */
  method LostRecord() returns (p: Prefix, raised: bool)
    ensures raised && p.disk.current == Link(Env("b")) && p.disk.previous == Absent
  {
    var envs := map["a" := Some(Identity("1", "cpu", "r", "x")), "b" := Some(Identity("2", "cpu", "r", "y"))];
    p := new Prefix(Disk(Link(Env("a")), Absent, envs), t => if t == 5 then After else Fine);
    ghost var exposed, undone;
    raised, exposed, undone := p.Activate("b", Some("a"));
    assert p.RaisesAfterRename(4) && p.Switches(0) && p.HandlerUndid(0, Absent, Env("a"));
  }
}
