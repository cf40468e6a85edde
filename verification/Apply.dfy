/** Live reconciliation, the doing (inbound_apply.py): a plan carried out through XRay's API
    command by command, the fall back to a restart, and what is saved and written, over any
    sequence of applies with any failures. */
module Apply {
  import opened Wrappers
  import opened Ordering
  import opened Reconcile

  /** r runs, with nothing in the way of its addresses but lingering ones. */
  ghost predicate Runs(running: Running, r: Rendering, managesAddresses: bool) {
    running.inbounds == Abs(r).inbounds && running.rules == Abs(r).rules && running.outbounds == Abs(r).outbounds
    && (managesAddresses ==> Abs(r).addresses <= running.addresses)
  }

  /** The users of m and the clients, which are new to it. */
  function WithClients(m: map<string, Client>, clients: seq<Client>): map<string, Client>
    requires AllNamed(clients)
  {
    m + ByEmail(clients)
  }

  /** What a command can be about. */
  datatype Thing = User(tag: string, email: string) | ServerOutbound(tag: string) | Rules | Address(address: string)

  function OfListener(tag: string, emails: set<string>): set<Thing> {
    set e | e in emails :: User(tag, e)
  }

  function OfOutbounds(tags: set<string>): set<Thing> {
    set t | t in tags :: ServerOutbound(t)
  }

  /** The emails whose clients two listeners' users differ in. */
  function Changed(a: Split, b: Split): set<string> {
    Differing(a.users, b.users) + Differing(b.users, a.users)
  }

  /** A user of a listener who came, went or differs. */
  predicate UserChanged(old_: Rendering, new_: Rendering, tag: string, email: string) {
    var a, b := Abs(old_).inbounds, Abs(new_).inbounds;
    tag in a && tag in b
    && (email in a[tag].users || email in b[tag].users)
    && !(email in a[tag].users && email in b[tag].users && a[tag].users[email] == b[tag].users[email])
  }

  /** What came, went or differs between two renderings. */
  predicate ThingChanged(old_: Rendering, new_: Rendering, thing: Thing) {
    var a, b := Abs(old_), Abs(new_);
    match thing
    case User(tag, email) => UserChanged(old_, new_, tag, email)
    case ServerOutbound(tag) =>
      (tag in a.outbounds || tag in b.outbounds)
      && !(tag in a.outbounds && tag in b.outbounds && a.outbounds[tag] == b.outbounds[tag])
    case Rules => a.rules != b.rules
    case Address(address) => (address in a.addresses) != (address in b.addresses)
  }

  ghost predicate OnlyChanged(touched: set<Thing>, old_: Rendering, new_: Rendering) {
    forall thing :: thing in touched ==> ThingChanged(old_, new_, thing)
  }

  /** A listener came, went, or differs but for its users. */
  predicate ListenersChanged(old_: Rendering, new_: Rendering) {
    var a, b := Abs(old_).inbounds, Abs(new_).inbounds;
    a.Keys != b.Keys || exists t :: t in a && t in b && a[t].shape != b[t].shape
  }

  /** Nothing an apply looks at differs, and nothing was left to write. */
  predicate SameAll(old_: Rendering, new_: Rendering) {
    Abs(old_) == Abs(new_) && old_.links == new_.links && old_.subscriptions == new_.subscriptions
    && old_.singBox == new_.singBox && !old_.outputsPending
  }

  datatype Outcome = Unchanged | Restarted | Applied(written: bool)

  /** One apply's circumstances: what the specification renders to, if it can be rendered, what a
      restart renders, and whether the arguments of the last rendering can be read. */
  datatype Call = Call(rendered: Option<Rendering>, anew: Rendering, hasArgs: bool) {
    predicate Sound() {
      !anew.outputsPending && (rendered.Some? ==> rendered.value == anew)
    }
  }

  class Host {
    /** XRay's API and its interface for serverSource addresses, as they are now. */
    var running: Running
    /** sing-box's configuration. */
    var singBox: Option<string>
    /** The rendering on disk, if one can be read. */
    var saved: Option<Rendering>
    /** The links and subscriptions on disk. */
    var links: string
    var subscriptions: string
    /** Whether the addresses are this host's to set (ip and selfInterface are configured). */
    const managesAddresses: bool
    /** Whether deleting an address always works: its failure goes unnoticed. */
    const deletesWork: bool
    /** How many commands and writes have failed, and how often the inbounds have been restarted. */
    ghost var failures: nat
    ghost var restarts: nat
    /** What a command has been about. */
    ghost var touched: set<Thing>

    constructor (running: Running, managesAddresses: bool, deletesWork: bool)
      ensures this.running == running && saved == None
      ensures this.managesAddresses == managesAddresses && this.deletesWork == deletesWork
    {
      this.running, this.managesAddresses, this.deletesWork := running, managesAddresses, deletesWork;
      failures, restarts, touched := 0, 0, {};
      saved, singBox, links, subscriptions := None, None, "", "";
    }

    // ---- XRay's commands: any may fail, and then nothing is known of what runs ----

    method Rmu(tag: string, emails: seq<string>) returns (ok: bool)
      requires tag in running.inbounds
      requires forall e :: e in emails ==> e in running.inbounds[tag].users
      requires forall i, j :: 0 <= i < j < |emails| ==> emails[i] != emails[j]
      modifies this`running, this`failures, this`touched
      ensures touched == old(touched) + OfListener(tag, Elems(emails))
      ensures failures == if ok then old(failures) else old(failures) + 1
      ensures ok ==> running == old(running).(inbounds := old(running).inbounds[tag :=
                       old(running).inbounds[tag].(users := old(running).inbounds[tag].users - Elems(emails))])
    {
      ok := *;
      touched := touched + OfListener(tag, Elems(emails));
      if ok {
        var split := running.inbounds[tag];
        running := running.(inbounds := running.inbounds[tag := split.(users := split.users - Elems(emails))]);
      } else {
        running, failures := *, failures + 1;
      }
    }

    method Adu(tag: string, clients: seq<Client>) returns (ok: bool)
      requires tag in running.inbounds && AllNamed(clients)
      requires forall i :: 0 <= i < |clients| ==> clients[i].email.value !in running.inbounds[tag].users
      requires forall i, j :: 0 <= i < j < |clients| ==> clients[i].email != clients[j].email
      modifies this`running, this`failures, this`touched
      ensures touched == old(touched) + OfListener(tag, ByEmail(clients).Keys)
      ensures failures == if ok then old(failures) else old(failures) + 1
      ensures ok ==> running == old(running).(inbounds := old(running).inbounds[tag :=
                       old(running).inbounds[tag].(users := WithClients(old(running).inbounds[tag].users, clients))])
    {
      ok := *;
      touched := touched + OfListener(tag, ByEmail(clients).Keys);
      if ok {
        var split := running.inbounds[tag];
        running := running.(inbounds := running.inbounds[tag := split.(users := WithClients(split.users, clients))]);
      } else {
        running, failures := *, failures + 1;
      }
    }

    method Rmo(tag: string) returns (ok: bool)
      requires tag in running.outbounds
      modifies this`running, this`failures, this`touched
      ensures touched == old(touched) + {ServerOutbound(tag)}
      ensures failures == if ok then old(failures) else old(failures) + 1
      ensures ok ==> running == old(running).(outbounds := old(running).outbounds - {tag})
    {
      ok := *;
      touched := touched + {ServerOutbound(tag)};
      if ok {
        running := running.(outbounds := running.outbounds - {tag});
      } else {
        running, failures := *, failures + 1;
      }
    }

    method Ado(outbounds: seq<Outbound>) returns (ok: bool)
      requires forall i :: 0 <= i < |outbounds| ==> outbounds[i].tag !in running.outbounds
      requires forall i, j :: 0 <= i < j < |outbounds| ==> outbounds[i].tag != outbounds[j].tag
      modifies this`running, this`failures, this`touched
      ensures touched == old(touched) + OfOutbounds(OutboundsByTag(outbounds).Keys)
      ensures failures == if ok then old(failures) else old(failures) + 1
      ensures ok ==> running == old(running).(outbounds := old(running).outbounds + OutboundsByTag(outbounds))
    {
      ok := *;
      touched := touched + OfOutbounds(OutboundsByTag(outbounds).Keys);
      if ok {
        running := running.(outbounds := running.outbounds + OutboundsByTag(outbounds));
      } else {
        running, failures := *, failures + 1;
      }
    }

    method AdRules(rules: seq<string>) returns (ok: bool)
      modifies this`running, this`failures, this`touched
      ensures touched == old(touched) + {Rules}
      ensures failures == if ok then old(failures) else old(failures) + 1
      ensures ok ==> running == old(running).(rules := rules)
    {
      ok := *;
      touched := touched + {Rules};
      if ok {
        running := running.(rules := rules);
      } else {
        running, failures := *, failures + 1;
      }
    }

    /** ip addr del, whose exit code is not looked at: the address may stay. */
    method AddrDel(address: string) returns (ok: bool)
      modifies this`running, this`failures, this`touched
      ensures touched == old(touched) + {Address(address)}
      ensures failures == if ok then old(failures) else old(failures) + 1
      ensures ok ==> running == old(running).(addresses := running.addresses)
      ensures ok ==> old(running).addresses - {address} <= running.addresses <= old(running).addresses
      ensures ok && deletesWork ==> address !in running.addresses
    {
      ok := *;
      touched := touched + {Address(address)};
      var works: bool := *;
      if !ok {
        running, failures := *, failures + 1;
      } else if works || deletesWork {
        running := running.(addresses := running.addresses - {address});
      }
    }

    /** ip addr add, which fails on an address that is there. */
    method AddrAdd(address: string) returns (ok: bool)
      modifies this`running, this`failures, this`touched
      ensures touched == old(touched) + {Address(address)}
      ensures failures == if ok then old(failures) else old(failures) + 1
      ensures ok ==> running == old(running).(addresses := old(running).addresses + {address})
    {
      ok := *;
      touched := touched + {Address(address)};
      if ok && address !in running.addresses {
        running := running.(addresses := running.addresses + {address});
      } else {
        ok := false;
        running, failures := *, failures + 1;
      }
    }

    // ---- Carrying out a plan ----

    method RunSteps(ghost old_: Rendering, new_: Rendering, steps: Steps) returns (ok: bool)
      requires steps == Plan(old_, new_) && steps.restart == {} && Runs(running, old_, managesAddresses)
      modifies this`running, this`failures, this`touched
      ensures if ok then failures == old(failures) else failures > old(failures)
      // No command is about anything that is the same in both.
      ensures OnlyChanged(touched - old(touched), old_, new_)
      ensures ok ==> Runs(running, new_, managesAddresses)
      // No address is left over but one that was not of the old rendering, or whose deletion failed.
      ensures ok && managesAddresses && deletesWork && old(running).addresses == Abs(old_).addresses ==>
        running.addresses == Abs(new_).addresses
      ensures ok && !managesAddresses ==> running.addresses == old(running).addresses
    {
      hide Abs, Plan, ThingChanged;
      PlanRules(old_, new_);
      ok := RunUsers(old_, new_, steps);
      if !ok { return; }
      ok := RunOutbounds(old_, new_, steps);
      if !ok { return; }
      if steps.rules.Some? {
        ok := AdRules(steps.rules.value);
        if !ok { return; }
      }
      if managesAddresses {
        ok := RunAddresses(old_, new_, steps);
      }
    }

    method RunUsers(ghost old_: Rendering, new_: Rendering, steps: Steps) returns (ok: bool)
      requires steps == Plan(old_, new_) && steps.restart == {}
      requires running.inbounds == Abs(old_).inbounds
      modifies this`running, this`failures, this`touched
      ensures if ok then failures == old(failures) else failures > old(failures)
      ensures OnlyChanged(touched - old(touched), old_, new_)
      ensures ok ==> running == old(running).(inbounds := Abs(new_).inbounds)
    {
      hide Abs, Plan, ChangeOf, Elems, Sorted, NamedSplit, Mixed;
      ghost var a, b := Abs(old_).inbounds, Abs(new_).inbounds;
      PlanUsers(old_, new_);
      SortedFacts(steps.users.Keys);
      var tags := Sorted(steps.users.Keys);
      ghost var start := running;
      MixedEnds(a, b, Elems(tags));
      assert tags[..0] == [];
      for i := 0 to |tags|
        invariant running == start.(inbounds := Mixed(a, b, Elems(tags[..i]))) && failures == old(failures)
        invariant OnlyChanged(touched - old(touched), old_, new_)
      {
        var t := tags[i];
        MixedStep(a, b, tags, i);
        ghost var before := touched;
        ok := RunChange(t, steps.users[t], a[t], b[t]);
        TouchedChanged(old_, new_, t, old(touched), before, touched);
        if !ok { return; }
      }
      assert tags[..|tags|] == tags;
      ok := true;
    }

    /** A listener's users: those removed, then those added. */
    method RunChange(t: string, change: Change, ghost a: Split, ghost b: Split) returns (ok: bool)
      requires t in running.inbounds && running.inbounds[t] == a && change == ChangeOf(a, b)
      requires a.shape == b.shape && NamedSplit(a) && NamedSplit(b)
      modifies this`running, this`failures, this`touched
      ensures if ok then failures == old(failures) else failures > old(failures)
      ensures touched <= old(touched) + OfListener(t, Changed(a, b))
      ensures ok ==> running == old(running).(inbounds := old(running).inbounds[t := b])
    {
      hide ChangeOf, Elems, WithClients, AllNamed, NamedSplit, ByEmail, Changed, OfListener;
      ChangeApplies(a, b);
      ChangeTouches(t, a, b);
      ghost var start := running;
      ghost var rest := a.(users := a.users - Elems(change.remove));
      if change.remove != [] {
        ok := Rmu(t, change.remove);
        if !ok { return; }
      }
      assert running == start.(inbounds := start.inbounds[t := rest]);
      if change.add != [] {
        ok := Adu(t, change.add);
        if !ok { return; }
      }
      assert running == start.(inbounds := start.inbounds[t := b]);
      ok := true;
    }

    method RunOutbounds(ghost old_: Rendering, new_: Rendering, steps: Steps) returns (ok: bool)
      requires steps == Plan(old_, new_) && steps.restart == {}
      requires running.outbounds == Abs(old_).outbounds
      modifies this`running, this`failures, this`touched
      ensures if ok then failures == old(failures) else failures > old(failures)
      ensures OnlyChanged(touched - old(touched), old_, new_)
      ensures ok ==> running == old(running).(outbounds := Abs(new_).outbounds)
    {
      hide Abs, Plan, Elems, OutboundsByTag, Sorted, Differing, ThingChanged, OfOutbounds, Pick;
      ghost var a, b := Abs(old_).outbounds, Abs(new_).outbounds;
      PlanOutbounds(old_, new_);
      SortedFacts(Differing(a, b));
      DifferingWithin(a, b);
      OutboundsReplaced(a, b, steps.outRemove, steps.outAdd);
      OutboundsTouched(old_, new_, steps.outRemove, steps.outAdd);
      ok := RemoveOutbounds(steps.outRemove);
      if !ok { return; }
      if steps.outAdd != [] {
        ok := Ado(steps.outAdd);
        if !ok { return; }
      }
      ok := true;
    }

    method RemoveOutbounds(tags: seq<string>) returns (ok: bool)
      requires forall i :: 0 <= i < |tags| ==> tags[i] in running.outbounds
      requires forall i, j :: 0 <= i < j < |tags| ==> tags[i] != tags[j]
      modifies this`running, this`failures, this`touched
      ensures touched <= old(touched) + OfOutbounds(Elems(tags))
      ensures if ok then failures == old(failures) else failures > old(failures)
      ensures ok ==> running == old(running).(outbounds := old(running).outbounds - Elems(tags))
    {
      ghost var a, start := running.outbounds, running;
      assert a - Elems(tags[..0]) == a;
      for i := 0 to |tags|
        invariant running == start.(outbounds := a - Elems(tags[..i])) && failures == old(failures)
        invariant touched <= old(touched) + OfOutbounds(Elems(tags))
      {
        assert Elems(tags[..i + 1]) == Elems(tags[..i]) + {tags[i]};
        assert a - Elems(tags[..i]) - {tags[i]} == a - Elems(tags[..i + 1]);
        ok := Rmo(tags[i]);
        if !ok { return; }
      }
      assert tags[..|tags|] == tags;
      ok := true;
    }

    method RunAddresses(ghost old_: Rendering, new_: Rendering, steps: Steps) returns (ok: bool)
      requires steps == Plan(old_, new_) && steps.restart == {} && Abs(old_).addresses <= running.addresses
      modifies this`running, this`failures, this`touched
      ensures if ok then failures == old(failures) else failures > old(failures)
      ensures OnlyChanged(touched - old(touched), old_, new_)
      ensures ok ==>
        running == old(running).(addresses := running.addresses) && Abs(new_).addresses <= running.addresses
      ensures ok && deletesWork ==>
        running.addresses
        == (old(running).addresses - (Abs(old_).addresses - Abs(new_).addresses))
           + (Abs(new_).addresses - Abs(old_).addresses)
    {
      hide Abs, Plan, ThingChanged;
      ghost var a, b := Abs(old_).addresses, Abs(new_).addresses;
      PlanAddresses(old_, new_);
      ghost var start := running;
      for i := 0 to |steps.addrRemove|
        invariant running == start.(addresses := running.addresses) && failures == old(failures)
        invariant OnlyChanged(touched - old(touched), old_, new_)
        invariant start.addresses - Elems(steps.addrRemove[..i]) <= running.addresses <= start.addresses
        invariant deletesWork ==> running.addresses == start.addresses - Elems(steps.addrRemove[..i])
      {
        assert steps.addrRemove[..i + 1] == steps.addrRemove[..i] + [steps.addrRemove[i]];
        ok := AddrDel(steps.addrRemove[i]);
        if !ok { return; }
      }
      assert steps.addrRemove[..|steps.addrRemove|] == steps.addrRemove;
      assert a * b <= running.addresses;
      ghost var kept := running.addresses;
      for i := 0 to |steps.addrAdd|
        invariant running == start.(addresses := kept + Elems(steps.addrAdd[..i])) && failures == old(failures)
        invariant OnlyChanged(touched - old(touched), old_, new_)
      {
        assert steps.addrAdd[..i + 1] == steps.addrAdd[..i] + [steps.addrAdd[i]];
        ok := AddrAdd(steps.addrAdd[i]);
        if !ok { return; }
      }
      assert steps.addrAdd[..|steps.addrAdd|] == steps.addrAdd;
      ok := true;
    }

    // ---- One apply, and any number of them ----

    /** What is saved is what runs, and what is on disk for the users is what is saved or is
        noted as still to be written. */
    ghost predicate Consistent()
      reads this
    {
      saved.Some? ==>
        Runs(running, saved.value, managesAddresses) && singBox == saved.value.singBox
        && (saved.value.outputsPending || OnDisk(saved.value))
    }

    ghost predicate OnDisk(r: Rendering)
      reads this
    {
      links == r.links && subscriptions == r.subscriptions
    }

    /** systemctl try-restart, which succeeds: the start script renders, saves and writes all of it. */
    method Restart(anew: Rendering)
      requires !anew.outputsPending
      modifies this
      ensures saved == Some(anew) && running == Abs(anew) && singBox == anew.singBox && OnDisk(anew)
      ensures restarts == old(restarts) + 1 && failures == old(failures) && touched == old(touched)
    {
      restarts := restarts + 1;
      running, singBox, saved := Abs(anew), anew.singBox, Some(anew);
      links, subscriptions := anew.links, anew.subscriptions;
    }

    method WriteOutputs(r: Rendering) returns (ok: bool)
      modifies this`links, this`subscriptions, this`failures
      ensures ok ==> OnDisk(r)
      ensures failures == if ok then old(failures) else old(failures) + 1
    {
      ok := *;
      if ok {
        links, subscriptions := r.links, r.subscriptions;
      } else {
        failures := failures + 1;
        links := *;
        subscriptions := *;
      }
    }

    /** sing-box's configuration written again and reloaded; without a unit to reload, or from
        or to none at all, and when the reload fails, a restart. Not ok when it cannot be written. */
    method SyncSingBox(old_: Rendering, new_: Rendering, hasUnit: bool) returns (ok: bool)
      requires !new_.outputsPending && old_.singBox != new_.singBox && Runs(running, new_, managesAddresses)
      modifies this
      ensures ok ==> Runs(running, new_, managesAddresses) && singBox == new_.singBox
      ensures ok ==> (links == old(links) && subscriptions == old(subscriptions)) || OnDisk(new_)
      ensures !ok ==> failures > old(failures)
      // A restart only without a unit to reload, from or to none at all, or for a failure.
      ensures failures == old(failures) && hasUnit && old_.singBox.Some? && new_.singBox.Some? ==>
        restarts == old(restarts)
      ensures touched == old(touched) && failures >= old(failures)
    {
      if !hasUnit || new_.singBox == None || old_.singBox == None {
        Restart(new_);
        return true;
      }
      ok := *;
      if !ok {
        failures := failures + 1;
        return;
      }
      var reloaded: bool := *;
      if reloaded {
        singBox := new_.singBox;
      } else {
        failures := failures + 1;
        Restart(new_);
      }
    }

    /** rendered: what the specification renders to now, none when it cannot be rendered; anew:
        what a restart renders, the same when both can. */
    method ApplyXray(rendered: Option<Rendering>, anew: Rendering, hasArgs: bool, hasUnit: bool)
        returns (outcome: Outcome)
      requires Consistent() && !anew.outputsPending && (rendered.Some? ==> rendered.value == anew)
      modifies this
      ensures Consistent() && saved.Some?
      ensures outcome == Restarted ==> saved == Some(anew)
      ensures outcome.Applied? ==> saved == Some(anew.(outputsPending := !outcome.written))
      ensures outcome == Unchanged ==> saved == old(saved) && running == old(running) && Abs(saved.value) == Abs(anew)
      // Whatever was left to write before, only an output that fails now is still to be written.
      ensures outcome != Applied(false) ==> OnDisk(anew) && !saved.value.outputsPending
      ensures Runs(running, anew, managesAddresses)
      // What is the same is left alone.
      ensures old(saved).Some? && hasArgs && rendered.Some? && SameAll(old(saved).value, rendered.value) ==>
        outcome == Unchanged
      ensures outcome == Unchanged ==>
        singBox == old(singBox) && links == old(links) && subscriptions == old(subscriptions)
        && restarts == old(restarts) && touched == old(touched)
      // A restart only where XRay's commands cannot do it, or one failed.
      ensures outcome == Restarted ==>
        old(saved) == None || !hasArgs || rendered == None || ListenersChanged(old(saved).value, anew)
        || failures > old(failures)
      ensures restarts > old(restarts) ==>
        outcome == Restarted || failures > old(failures)
        || (old(saved).Some? && old(saved).value.singBox != anew.singBox
            && (!hasUnit || old(saved).value.singBox == None || anew.singBox == None))
      // No command is about what is the same: no user's connections are cut but of one who differs.
      ensures old(saved).Some? ==> OnlyChanged(touched - old(touched), old(saved).value, anew)
      ensures old(saved) == None ==> touched == old(touched)
      ensures outcome == Applied(false) ==> failures > old(failures)
    {
      hide Abs, Plan;
      if saved == None || !hasArgs || rendered == None {
        RestartRuns(anew, managesAddresses);
        Restart(anew);
        return Restarted;
      }
      var before, now := saved.value, rendered.value;
      var steps := Plan(before, now);
      NoopMeaning(before, now);
      RestartMeaning(before, now);
      RestartRuns(anew, managesAddresses);
      if steps.restart != {} {
        Restart(anew);
        return Restarted;
      }
      PlanOutputs(before, now);
      var singBoxChanged := before.singBox != now.singBox;
      if IsNoop(steps) && !singBoxChanged {
        return Unchanged;
      }
      var ok := RunSteps(before, now, steps);
      if !ok {
        Restart(anew);
        return Restarted;
      }
      if singBoxChanged {
        ok := SyncSingBox(before, now, hasUnit);
        if !ok {
          Restart(anew);
          return Restarted;
        }
      }
      saved := Some(now);
      if steps.outputs {
        ok := WriteOutputs(now);
        if !ok {
          saved := Some(now.(outputsPending := true));
          PendingRuns(running, now, managesAddresses);
          return Applied(false);
        }
      }
      return Applied(true);
    }

    /** Over any sequence of applies, with any failures: consistent throughout, and when the
        last one wrote all it had to, everything is as the last specification has it. */
    method ApplyAll(calls: seq<Call>, hasUnit: bool) returns (last: Outcome)
      requires Consistent() && calls != [] && forall i :: 0 <= i < |calls| ==> calls[i].Sound()
      modifies this
      ensures Consistent() && saved.Some? && Runs(running, calls[|calls| - 1].anew, managesAddresses)
      ensures last != Applied(false) ==> OnDisk(calls[|calls| - 1].anew) && !saved.value.outputsPending
    {
      hide Abs;
      last := Unchanged;
      for i := 0 to |calls|
        invariant Consistent()
        invariant i > 0 ==> saved.Some? && Runs(running, calls[i - 1].anew, managesAddresses)
        invariant i > 0 && last != Applied(false) ==> OnDisk(calls[i - 1].anew) && !saved.value.outputsPending
      {
        last := ApplyXray(calls[i].rendered, calls[i].anew, calls[i].hasArgs, hasUnit);
      }
    }
  }

  // ---- Why the plan works ----

  /** The listeners with those in done as they are to be, the others as they were. */
  ghost function Mixed(a: map<string, Split>, b: map<string, Split>, done: set<string>): map<string, Split>
    requires a.Keys == b.Keys
  {
    map t | t in a :: if t in done then b[t] else a[t]
  }

  lemma MixedStep(a: map<string, Split>, b: map<string, Split>, tags: seq<string>, i: nat)
    requires a.Keys == b.Keys && i < |tags| && tags[i] in a
    requires forall j :: 0 <= j < i ==> tags[j] != tags[i]
    ensures tags[i] in Mixed(a, b, Elems(tags[..i])) && Mixed(a, b, Elems(tags[..i]))[tags[i]] == a[tags[i]]
    ensures Mixed(a, b, Elems(tags[..i + 1])) == Mixed(a, b, Elems(tags[..i]))[tags[i] := b[tags[i]]]
  {
    assert Elems(tags[..i + 1]) == Elems(tags[..i]) + {tags[i]};
  }

  lemma MixedEnds(a: map<string, Split>, b: map<string, Split>, all: set<string>)
    requires a.Keys == b.Keys && forall t :: t in b && t !in all ==> a[t] == b[t]
    ensures Mixed(a, b, Elems([])) == a && Mixed(a, b, all) == b
  {
    assert Elems([]) == {};
  }

  lemma PlanUsers(old_: Rendering, new_: Rendering)
    requires Plan(old_, new_).restart == {}
    ensures var a, b, users := Abs(old_).inbounds, Abs(new_).inbounds, Plan(old_, new_).users;
            a.Keys == b.Keys
            && (forall t :: t in b ==> a[t].shape == b[t].shape && NamedSplit(a[t]) && NamedSplit(b[t]))
            && (forall t :: t in users ==> t in b && users[t] == ChangeOf(a[t], b[t]))
            && (forall t :: t in b && t !in users ==> a[t] == b[t])
  {
    hide SplitUsers, ByTag, OutboundsByTag, Addresses, ChangeOf, Sorted;
    var a, b, users := Abs(old_).inbounds, Abs(new_).inbounds, Plan(old_, new_).users;
    RestartMeaning(old_, new_);
    assert users == UserChanges(a, b);
    forall t | t in b ensures NamedSplit(a[t]) && NamedSplit(b[t]) && (t !in users ==> a[t] == b[t]) {
      SplitsNamed(old_.inbounds, t);
      SplitsNamed(new_.inbounds, t);
      ChangeNone(a[t], b[t]);
    }
  }

  ghost predicate NamedSplit(s: Split) {
    forall e :: e in s.users ==> s.users[e].email == Some(e)
  }

  /** What a map has at some keys. */
  function Part<V>(m: map<string, V>, keys: set<string>): map<string, V> {
    map e | e in m && e in keys :: m[e]
  }

  /** Taking out what b has not, or not the same, and putting in what a has not, or not the
      same, makes b of a. */
  lemma Patched<V>(a: map<string, V>, b: map<string, V>)
    ensures (a - Differing(a, b)) + Part(b, Differing(b, a)) == b
    ensures Differing(b, a) !! (a - Differing(a, b)).Keys
  {
    var got := (a - Differing(a, b)) + Part(b, Differing(b, a));
    assert got.Keys == b.Keys;
  }

  lemma PartNone<V>(m: map<string, V>)
    ensures Part(m, {}) == map[]
  {}

  lemma PartStep<V>(m: map<string, V>, keys: seq<string>, last: string)
    requires last in m
    ensures Part(m, Elems(keys + [last])) == Part(m, Elems(keys))[last := m[last]]
  {}

  lemma ChangeTouches(t: string, a: Split, b: Split)
    requires NamedSplit(a) && NamedSplit(b)
    ensures var c := ChangeOf(a, b);
            AllNamed(c.add) && OfListener(t, Elems(c.remove)) <= OfListener(t, Changed(a, b))
            && OfListener(t, ByEmail(c.add).Keys) <= OfListener(t, Changed(a, b))
  {
    hide Differing, Elems, ChangeOf, NamedSplit, ByEmail;
    Removal(a, b);
    Addition(a, b);
    DifferingWithin(a.users, b.users);
  }

  /** Touched since: what was before, and a listener's changed users. */
  lemma TouchedChanged(old_: Rendering, new_: Rendering, t: string, start: set<Thing>, before: set<Thing>,
      after: set<Thing>)
    requires t in Abs(old_).inbounds && t in Abs(new_).inbounds && OnlyChanged(before - start, old_, new_)
    requires after <= before + OfListener(t, Changed(Abs(old_).inbounds[t], Abs(new_).inbounds[t]))
    ensures OnlyChanged(after - start, old_, new_)
  {
    hide Abs;
  }

  lemma OutboundsTouched(old_: Rendering, new_: Rendering, remove: seq<string>, add: seq<Outbound>)
    requires remove == Sorted(Differing(Abs(old_).outbounds, Abs(new_).outbounds))
    requires add == Pick(Sorted(Differing(Abs(new_).outbounds, Abs(old_).outbounds)), Abs(new_).outbounds)
    requires forall t :: t in Abs(new_).outbounds ==> Abs(new_).outbounds[t].tag == t
    ensures OnlyChanged(OfOutbounds(Elems(remove)), old_, new_)
      && OnlyChanged(OfOutbounds(OutboundsByTag(add).Keys), old_, new_)
  {
    hide Abs, Pick, Elems, OutboundsByTag;
    SortedFacts(Differing(Abs(old_).outbounds, Abs(new_).outbounds));
    SortedFacts(Differing(Abs(new_).outbounds, Abs(old_).outbounds));
    OutboundsOfPick(Sorted(Differing(Abs(new_).outbounds, Abs(old_).outbounds)), Abs(new_).outbounds);
  }

  /** Removing and adding what differs: every command's precondition holds when it is issued,
      and the new users are what is left. */
  lemma ChangeApplies(a: Split, b: Split)
    requires a.shape == b.shape && NamedSplit(a) && NamedSplit(b)
    ensures var c := ChangeOf(a, b);
            (forall e :: e in c.remove ==> e in a.users)
            && (forall i, j :: 0 <= i < j < |c.remove| ==> c.remove[i] != c.remove[j])
            && AllNamed(c.add)
            && (forall i :: 0 <= i < |c.add| ==> c.add[i].email.value !in a.users - Elems(c.remove))
            && (forall i, j :: 0 <= i < j < |c.add| ==> c.add[i].email != c.add[j].email)
            && a.(users := WithClients(a.users - Elems(c.remove), c.add)) == b
            && (c.remove == [] ==> a.users - Elems(c.remove) == a.users)
            && (c.add == [] ==> WithClients(a.users - Elems(c.remove), c.add) == a.users - Elems(c.remove))
  {
    hide Differing, ByEmail, Elems, AllNamed, ChangeOf, NamedSplit, Part;
    Removal(a, b);
    Addition(a, b);
    Patched(a.users, b.users);
    PartNone(b.users);
    var kept := a.users - Differing(a.users, b.users);
    assert kept + map[] == kept;
  }

  lemma Removal(a: Split, b: Split)
    ensures var c := ChangeOf(a, b);
            Elems(c.remove) == Differing(a.users, b.users)
            && (forall e :: e in c.remove ==> e in a.users)
            && (forall i, j :: 0 <= i < j < |c.remove| ==> c.remove[i] != c.remove[j])
            && (c.remove == [] ==> a.users - Elems(c.remove) == a.users)
  {
    hide Sorted, Differing, Elems, ChangeOf;
    ChangeParts(a, b);
    SortedFacts(Differing(a.users, b.users));
    DifferingWithin(a.users, b.users);
  }

  lemma Addition(a: Split, b: Split)
    requires NamedSplit(b)
    ensures var c := ChangeOf(a, b);
            AllNamed(c.add) && ByEmail(c.add) == Part(b.users, Differing(b.users, a.users))
            && (forall i :: 0 <= i < |c.add| ==> c.add[i].email.value in Differing(b.users, a.users))
            && (forall i, j :: 0 <= i < j < |c.add| ==> c.add[i].email != c.add[j].email)
            && (c.add == [] ==> Differing(b.users, a.users) == {})
  {
    hide Sorted, Pick, Differing, ByEmail, Elems, AllNamed, ChangeOf, Part;
    ChangeParts(a, b);
    SortedFacts(Differing(b.users, a.users));
    DifferingWithin(b.users, a.users);
    ByEmailOfPick(Sorted(Differing(b.users, a.users)), b.users);
  }

  lemma ChangeParts(a: Split, b: Split)
    ensures ChangeOf(a, b).remove == Sorted(Differing(a.users, b.users))
    ensures ChangeOf(a, b).add == Pick(Sorted(Differing(b.users, a.users)), b.users)
  {}

  lemma DifferingWithin<V>(a: map<string, V>, b: map<string, V>)
    ensures Differing(a, b) <= a.Keys
  {}

  lemma SortedFacts(s: set<string>)
    ensures var r := Sorted(s);
            Elems(r) == s && (forall x :: x in r <==> x in s) && (forall i :: 0 <= i < |r| ==> r[i] in s)
            && (forall i, j :: 0 <= i < j < |r| ==> r[i] != r[j]) && (r == [] <==> s == {})
  {}

  lemma PickNamed(keys: seq<string>, m: map<string, Client>)
    requires forall i :: 0 <= i < |keys| ==> keys[i] in m
    requires forall e :: e in m ==> m[e].email == Some(e)
    ensures AllNamed(Pick(keys, m)) && forall i :: 0 <= i < |keys| ==> Pick(keys, m)[i].email == Some(keys[i])
  {}

  lemma ByEmailStep(list: seq<Client>, last: Client)
    requires AllNamed(list) && last.email.Some?
    ensures AllNamed(list + [last]) && ByEmail(list + [last]) == ByEmail(list)[last.email.value := last]
  {
    assert (list + [last])[..|list|] == list;
  }

  lemma {:induction false} ByEmailOfPick(keys: seq<string>, m: map<string, Client>)
    requires forall i :: 0 <= i < |keys| ==> keys[i] in m
    requires forall e :: e in m ==> m[e].email == Some(e)
    ensures AllNamed(Pick(keys, m)) && forall i :: 0 <= i < |keys| ==> Pick(keys, m)[i].email == Some(keys[i])
    ensures ByEmail(Pick(keys, m)) == Part(m, Elems(keys))
    decreases |keys|
  {
    hide Pick, ByEmail, AllNamed, Part, Elems;
    PickNamed(keys, m);
    if keys == [] {
      ByEmailNone(Pick(keys, m));
      PartNone(m);
      assert Elems(keys) == {} by { NoElems(); }
    } else {
      var n := |keys| - 1;
      ByEmailOfPick(keys[..n], m);
      PickStep(keys, m);
      ByEmailStep(Pick(keys[..n], m), m[keys[n]]);
      PartStep(m, keys[..n], keys[n]);
      assert keys == keys[..n] + [keys[n]];
    }
  }

  lemma NoElems()
    ensures Elems([]) == {}
  {}

  lemma PickStep<V>(keys: seq<string>, m: map<string, V>)
    requires keys != [] && forall i :: 0 <= i < |keys| ==> keys[i] in m
    ensures Pick(keys, m) == Pick(keys[..|keys| - 1], m) + [m[keys[|keys| - 1]]]
  {}

  lemma ByEmailNone(list: seq<Client>)
    requires list == []
    ensures AllNamed(list) && ByEmail(list) == map[]
  {}

  lemma PlanOutbounds(old_: Rendering, new_: Rendering)
    requires Plan(old_, new_).restart == {}
    ensures var a, b, s := Abs(old_).outbounds, Abs(new_).outbounds, Plan(old_, new_);
            s.outRemove == Sorted(Differing(a, b)) && s.outAdd == Pick(Sorted(Differing(b, a)), b)
            && (forall t :: t in b ==> b[t].tag == t)
  {
    hide SplitUsers, ByTag, Addresses, UserChanges, Sorted;
  }

  lemma OutboundsReplaced(a: map<string, Outbound>, b: map<string, Outbound>, remove: seq<string>, add: seq<Outbound>)
    requires remove == Sorted(Differing(a, b)) && add == Pick(Sorted(Differing(b, a)), b)
    requires forall t :: t in b ==> b[t].tag == t
    ensures forall i :: 0 <= i < |add| ==> add[i].tag !in a - Elems(remove)
    ensures forall i, j :: 0 <= i < j < |add| ==> add[i].tag != add[j].tag
    ensures (a - Elems(remove)) + OutboundsByTag(add) == b
    ensures add == [] ==> a - Elems(remove) == b
  {
    hide Sorted, Pick, Differing, OutboundsByTag, Elems, Part;
    SortedFacts(Differing(a, b));
    SortedFacts(Differing(b, a));
    Patched(a, b);
    PartNone(b);
    DifferingWithin(b, a);
    OutboundsOfPick(Sorted(Differing(b, a)), b);
    var kept := a - Differing(a, b);
    assert kept + map[] == kept;
  }

  lemma OutboundsStep(list: seq<Outbound>, last: Outbound)
    ensures OutboundsByTag(list + [last]) == OutboundsByTag(list)[last.tag := last] && OutboundsByTag([]) == map[]
  {
    assert (list + [last])[..|list|] == list;
  }

  lemma {:induction false} OutboundsOfPick(keys: seq<string>, m: map<string, Outbound>)
    requires forall i :: 0 <= i < |keys| ==> keys[i] in m
    requires forall t :: t in m ==> m[t].tag == t
    ensures OutboundsByTag(Pick(keys, m)) == Part(m, Elems(keys))
    decreases |keys|
  {
    hide Pick, OutboundsByTag, Part, Elems;
    if keys == [] {
      OutboundsStep([], Outbound("", ""));
      PartNone(m);
      assert Elems(keys) == {} by { NoElems(); }
      assert Pick(keys, m) == [];
    } else {
      var n := |keys| - 1;
      OutboundsOfPick(keys[..n], m);
      PickStep(keys, m);
      OutboundsStep(Pick(keys[..n], m), m[keys[n]]);
      PartStep(m, keys[..n], keys[n]);
      assert keys == keys[..n] + [keys[n]];
    }
  }

  lemma PlanRules(old_: Rendering, new_: Rendering)
    requires Plan(old_, new_).restart == {}
    ensures var a, b, s := Abs(old_).rules, Abs(new_).rules, Plan(old_, new_);
            s.rules == (if a == b then None else Some(b)) && (a != b ==> ThingChanged(old_, new_, Rules))
  {
    hide SplitUsers, ByTag, Addresses, UserChanges, Sorted, OutboundsByTag;
  }

  lemma PlanAddresses(old_: Rendering, new_: Rendering)
    requires Plan(old_, new_).restart == {}
    ensures var a, b, s := Abs(old_).addresses, Abs(new_).addresses, Plan(old_, new_);
            (forall t :: t in s.addrRemove <==> t in a - b) && (forall t :: t in s.addrAdd <==> t in b - a)
            && (forall t :: t in s.addrRemove || t in s.addrAdd ==> ThingChanged(old_, new_, Address(t)))
  {
    hide SplitUsers, ByTag, Addresses, UserChanges, Sorted, OutboundsByTag;
    SortedFacts(Abs(old_).addresses - Abs(new_).addresses);
    SortedFacts(Abs(new_).addresses - Abs(old_).addresses);
  }

  lemma RestartRuns(r: Rendering, managesAddresses: bool)
    ensures Runs(Abs(r), r, managesAddresses)
  {}

  lemma PendingRuns(running: Running, r: Rendering, managesAddresses: bool)
    requires Runs(running, r, managesAddresses)
    ensures Runs(running, r.(outputsPending := true), managesAddresses)
  {}

  lemma PlanOutputs(old_: Rendering, new_: Rendering)
    requires Plan(old_, new_).restart == {}
    ensures Plan(old_, new_).outputs <==>
      old_.outputsPending || old_.links != new_.links || old_.subscriptions != new_.subscriptions
  {
    hide Abs, UserChanges, Sorted, Differing, Pick;
  }
}
