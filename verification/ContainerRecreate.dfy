/**
 Replacing a container by an edited one, `internal/dockerapi/client.go`.  The daemon is
 remote: a call can be refused, and a call that took effect can still be reported as failed
 when its answer is lost.
 */
module ContainerRecreate {
  import opened Prelude

  type Id = nat

  datatype Container<S> = Container(name: string, running: bool, autoRemove: bool, composed: bool, spec: S)

  type Containers<S> = map<Id, Container<S>>

  datatype Kind = Renaming | Stopping | Starting | Creating | Deleting

  /** A call that may change something, and what it did. */
  datatype Call<S> = Call(kind: Kind, ok: bool, before: Containers<S>, after: Containers<S>) {
    /** It took effect though the caller was told that it failed. */
    ghost predicate Astray() {
      !ok && after != before
    }
  }

  /** A rename or a creation since call `from` went astray. */
  ghost predicate Misled<S>(log: seq<Call<S>>, from: nat) {
    exists i :: from <= i < |log| && log[i].Astray() && (log[i].kind == Renaming || log[i].kind == Creating)
  }

  lemma MisledAppend<S>(log: seq<Call<S>>, from: nat, c: Call<S>)
    requires from <= |log|
    ensures Misled(log + [c], from) <==> Misled(log, from) || (c.Astray() && (c.kind == Renaming || c.kind == Creating))
  {
    if Misled(log, from) {
      var i :| from <= i < |log| && log[i].Astray() && (log[i].kind == Renaming || log[i].kind == Creating);
      assert (log + [c])[i] == log[i];
    }
    assert (log + [c])[|log|] == c;
  }

  /** What to make of the container `id`. */
  datatype Request<S> = Request(id: Id, name: string, start: bool, spec: S)

  /** One run: the containers before it, the name for the old container meanwhile, and the
      identifier a new container gets. */
  datatype Plan<S> = Plan(init: Containers<S>, request: Request<S>, backup: string, created: Id)

  /** No moment without one of the two containers: the old one may be gone only when the new
      one is there, and running if that was asked for.  Other containers are left alone. */
  ghost predicate Covered<S>(plan: Plan<S>, cs: Containers<S>) {
    var oldId, newId := plan.request.id, plan.created;
    && (oldId in cs || (newId in cs && (plan.request.start ==> cs[newId].running)))
    && (oldId in cs && oldId in plan.init ==>
          cs[oldId].spec == plan.init[oldId].spec && cs[oldId].name in {plan.init[oldId].name, plan.backup})
    && (newId in cs ==> cs[newId].name == plan.request.name && cs[newId].spec == plan.request.spec)
    && (forall id :: id != oldId && id != newId ==>
          (id in cs <==> id in plan.init) && (id in cs && id in plan.init ==> cs[id] == plan.init[id]))
  }

  ghost predicate AlwaysCovered<S>(plan: Plan<S>, log: seq<Call<S>>, from: nat) {
    forall i :: from <= i < |log| ==> Covered(plan, log[i].after)
  }

  class Daemon<S> {
    var containers: Containers<S>
    var next: Id

    /** Calls answered with an error, other than to start what runs already. */
    ghost var errors: nat
    ghost var log: seq<Call<S>>

    constructor ()
      ensures Valid() && containers == map[] && errors == 0 && log == []
    {
      containers, next, errors, log := map[], 0, 0, [];
    }

    ghost predicate Valid()
      reads this
    {
      && (forall id :: id in containers ==> id < next)
      && (forall a, b :: a in containers && b in containers && containers[a].name == containers[b].name ==> a == b)
    }

    predicate Taken(name: string)
      reads this
    {
      exists id :: id in containers && containers[id].name == name
    }

    method Inspect(id: Id) returns (found: Option<Container<S>>)
      modifies this`errors
      ensures errors == old(errors) + (if found.Some? then 0 else 1)
      ensures found.Some? ==> id in containers && found.value == containers[id]
    {
      if id in containers {
        if * {
          return Some(containers[id]);
        }
      }
      errors := errors + 1;
      return None;
    }

    /** Makes `after` of the containers if `legal`; reports whether it is known to have. */
    method Perform(kind: Kind, legal: bool, after: Containers<S>) returns (ok: bool)
      modifies this`containers, this`log
      ensures containers == old(containers) || (legal && containers == after)
      ensures ok ==> legal && containers == after
      ensures log == old(log) + [Call(kind, ok, old(containers), containers)]
    {
      ok := false;
      ghost var before := containers;
      if legal {
        if * {
          containers := after;
          if * {
            ok := true;
          }
        }
      }
      log := log + [Call(kind, ok, before, containers)];
    }

    method Rename(id: Id, name: string) returns (ok: bool)
      requires Valid()
      modifies this`containers, this`errors, this`log
      ensures Valid() && errors == old(errors) + (if ok then 0 else 1)
      ensures log == old(log) + [Call(Renaming, ok, old(containers), containers)]
      ensures ok || containers != old(containers) ==>
                && id in old(containers) && !old(Taken(name))
                && containers == old(containers)[id := old(containers)[id].(name := name)]
    {
      if id in containers && !Taken(name) {
        ok := Perform(Renaming, true, containers[id := containers[id].(name := name)]);
      } else {
        ok := Perform(Renaming, false, containers);
      }
      errors := errors + if ok then 0 else 1;
    }

    /** A container that removes itself when it ends is gone after this. */
    method Stop(id: Id) returns (ok: bool)
      requires Valid()
      modifies this`containers, this`errors, this`log
      ensures Valid() && errors == old(errors) + (if ok then 0 else 1)
      ensures log == old(log) + [Call(Stopping, ok, old(containers), containers)]
      ensures containers == old(containers) || (id in old(containers) && containers == Stopped(old(containers), id))
      ensures ok ==> id in old(containers) && containers == Stopped(old(containers), id)
    {
      if id in containers && containers[id].running {
        ok := Perform(Stopping, true, Stopped(containers, id));
      } else {
        ok := Perform(Stopping, false, containers);
      }
      errors := errors + if ok then 0 else 1;
    }

    /** To start a running container is an error to the caller, and changes nothing. */
    method Start(id: Id) returns (ok: bool)
      requires Valid()
      modifies this`containers, this`errors, this`log
      ensures Valid()
      ensures log == old(log) + [Call(Starting, ok, old(containers), containers)]
      ensures containers == old(containers) || (id in old(containers) && containers == Started(old(containers), id))
      ensures ok ==> id in old(containers) && containers == Started(old(containers), id)
      ensures errors == old(errors) + if ok || (id in old(containers) && old(containers)[id].running) then 0 else 1
    {
      var running := id in containers && containers[id].running;
      if id in containers && !running {
        ok := Perform(Starting, true, Started(containers, id));
      } else {
        ok := Perform(Starting, false, containers);
      }
      errors := errors + if ok || running then 0 else 1;
    }

    method Create(name: string, spec: S) returns (created: Option<Id>)
      requires Valid()
      modifies this
      ensures Valid() && errors == old(errors) + (if created.Some? then 0 else 1)
      ensures log == old(log) + [Call(Creating, created.Some?, old(containers), containers)]
      ensures created.Some? || containers != old(containers) ==>
                && !old(Taken(name))
                && containers == old(containers)[old(next) := Container(name, false, false, false, spec)]
      ensures created.Some? ==> created.value == old(next)
    {
      var ok := Perform(Creating, !Taken(name), containers[next := Container(name, false, false, false, spec)]);
      errors := errors + if ok then 0 else 1;
      created := if ok then Some(next) else None;
      next := next + 1;
    }

    method Delete(id: Id, force: bool) returns (ok: bool)
      requires Valid()
      modifies this`containers, this`errors, this`log
      ensures Valid() && errors == old(errors) + (if ok then 0 else 1)
      ensures log == old(log) + [Call(Deleting, ok, old(containers), containers)]
      ensures ok || containers != old(containers) ==>
                && id in old(containers) && (force || !old(containers)[id].running)
                && containers == old(containers) - {id}
    {
      ok := Perform(Deleting, id in containers && (force || !containers[id].running), containers - {id});
      errors := errors + if ok then 0 else 1;
    }
  }

  function Stopped<S>(cs: Containers<S>, id: Id): Containers<S>
    requires id in cs
  {
    if cs[id].autoRemove then cs - {id} else cs[id := cs[id].(running := false)]
  }

  function Started<S>(cs: Containers<S>, id: Id): Containers<S>
    requires id in cs
  {
    cs[id := cs[id].(running := true)]
  }

  // ----- Steps that keep a plan covered -----

  lemma CoveredAppend<S>(plan: Plan<S>, log: seq<Call<S>>, from: nat, c: Call<S>)
    requires from <= |log| && AlwaysCovered(plan, log, from) && Covered(plan, c.after)
    ensures AlwaysCovered(plan, log + [c], from)
    ensures Misled(log + [c], from) <==> Misled(log, from) || (c.Astray() && (c.kind == Renaming || c.kind == Creating))
  {
    MisledAppend(log, from, c);
  }

  lemma CoveredUpdate<S>(plan: Plan<S>, cs: Containers<S>, c: Container<S>)
    requires Covered(plan, cs) && plan.request.id in cs && plan.request.id in plan.init
             && plan.request.id != plan.created
    requires c.spec == cs[plan.request.id].spec && c.name in {plan.init[plan.request.id].name, plan.backup}
    ensures Covered(plan, cs[plan.request.id := c])
  {
  }

  lemma CoveredWithoutNew<S>(plan: Plan<S>, cs: Containers<S>)
    requires Covered(plan, cs) && plan.request.id in cs && plan.request.id != plan.created
    ensures Covered(plan, cs - {plan.created})
  {
  }

  /** The old container comes back in two steps. */
  lemma ComesBack<S>(cs: Containers<S>, id: Id, c: Container<S>)
    requires id in cs && cs[id].(name := c.name, running := c.running) == c
    ensures cs[id := cs[id].(name := c.name)][id := c] == cs[id := c]
    ensures c.running ==> Started(cs[id := cs[id].(name := c.name)], id) == cs[id := c]
    ensures cs[id].running == c.running ==> cs[id := cs[id].(name := c.name)] == cs[id := c]
  {
  }

  /** Between two calls of a run: the old container is there. */
  ghost predicate Midway<S>(plan: Plan<S>, daemon: Daemon<S>, from: nat)
    reads daemon
  {
    && daemon.Valid() && from <= |daemon.log|
    && plan.request.id in plan.init && plan.request.id != plan.created
    && Covered(plan, daemon.containers) && plan.request.id in daemon.containers
    && AlwaysCovered(plan, daemon.log, from)
  }

  /** The old container differs from what it was in its name, or in having been stopped. */
  ghost predicate Recoverable<S>(plan: Plan<S>, cs: Containers<S>)
    requires plan.request.id in plan.init && plan.request.id in cs
  {
    var was, now := plan.init[plan.request.id], cs[plan.request.id];
    now.(name := was.name, running := was.running) == was && (now.running ==> was.running)
  }

  /** The new container has the old one's name, which goes on under the backup's. */
  ghost predicate Blocked<S>(plan: Plan<S>, cs: Containers<S>) {
    && plan.created in cs && plan.request.id in plan.init && plan.request.id in cs
    && cs[plan.created].name == plan.init[plan.request.id].name && cs[plan.request.id].name == plan.backup
  }

  /** Removes the new container and gives the old one its name and state back.  Errors are
      not looked at; without any, the old container is as it was in `plan.init`. */
  method Rollback<S>(daemon: Daemon<S>, created: Option<Id>, plan: Plan<S>, ghost from: nat)
    requires created.Some? ==> created.value == plan.created
    requires Midway(plan, daemon, from) && Recoverable(plan, daemon.containers)
    modifies daemon
    ensures daemon.errors >= old(daemon.errors)
    ensures created.None? && Blocked(plan, old(daemon.containers)) ==> Blocked(plan, daemon.containers)
    ensures Midway(plan, daemon, from)
    ensures daemon.errors == old(daemon.errors) ==>
              var left := if created.Some? then old(daemon.containers) - {plan.created} else old(daemon.containers);
              daemon.containers == left[plan.request.id := plan.init[plan.request.id]]
    ensures daemon.errors == old(daemon.errors) ==> (Misled(daemon.log, from) <==> Misled(old(daemon.log), from))
  {
    if created.Some? {
      CoveredWithoutNew(plan, daemon.containers);
      ghost var log := daemon.log;
      var deleted := daemon.Delete(created.value, true);
      CoveredAppend(plan, log, from, daemon.log[|log|]);
    }
    GiveBack(daemon, plan, from);
  }

  /** The second half of the rollback. */
  method GiveBack<S>(daemon: Daemon<S>, plan: Plan<S>, ghost from: nat)
    requires Midway(plan, daemon, from) && Recoverable(plan, daemon.containers)
    modifies daemon
    ensures daemon.errors >= old(daemon.errors)
    ensures Blocked(plan, old(daemon.containers)) ==> Blocked(plan, daemon.containers)
    ensures Midway(plan, daemon, from)
    ensures daemon.errors == old(daemon.errors) ==>
              daemon.containers == old(daemon.containers)[plan.request.id := plan.init[plan.request.id]]
    ensures daemon.errors == old(daemon.errors) ==> (Misled(daemon.log, from) <==> Misled(old(daemon.log), from))
  {
    var id := plan.request.id;
    var was := plan.init[id];
    ghost var log := daemon.log;
    ComesBack(daemon.containers, id, was);
    CoveredUpdate(plan, daemon.containers, daemon.containers[id].(name := was.name));
    assert Blocked(plan, daemon.containers) ==> daemon.Taken(was.name);
    var renamed := daemon.Rename(id, was.name);
    CoveredAppend(plan, log, from, daemon.log[|log|]);
    if was.running {
      log := daemon.log;
      CoveredUpdate(plan, daemon.containers, daemon.containers[id].(running := true));
      var started := daemon.Start(id);
      CoveredAppend(plan, log, from, daemon.log[|log|]);
    }
  }

  datatype Stage = Inspection | Validation | Preparation | Stop | Creation | Start

  datatype Outcome = Recreated(id: Id, leftover: bool) | Failed(stage: Stage)

  /** The containers after a success; the old one may be left over, stopped, as the backup. */
  function Replaced<S>(plan: Plan<S>, leftover: bool): Containers<S>
    requires plan.request.id in plan.init
  {
    var request := plan.request;
    var rest := if leftover then SetAside(plan) else plan.init - {request.id};
    rest[plan.created := Container(request.name, request.start, false, false, request.spec)]
  }

  /** The old container is out of the way. */
  function SetAside<S>(plan: Plan<S>): Containers<S>
    requires plan.request.id in plan.init
  {
    plan.init[plan.request.id := plan.init[plan.request.id].(name := plan.backup, running := false)]
  }

  /** The run of `request` that begins now. */
  function PlanFor<S>(daemon: Daemon<S>, request: Request<S>, backup: string): Plan<S>
    reads daemon
  {
    Plan(daemon.containers, request, backup, daemon.next)
  }

  /** Nothing is left of a rollback, or of the rename before it. */
  lemma NothingLeft<S>(plan: Plan<S>, cs: Containers<S>)
    requires plan.request.id in plan.init && plan.created !in plan.init && plan.request.id in cs
    requires Covered(plan, cs)
    ensures (cs - {plan.created})[plan.request.id := plan.init[plan.request.id]] == plan.init
    ensures cs[plan.request.id := plan.init[plan.request.id]] == plan.init <==> plan.created !in cs
  {
  }

  /** Replaces the container `request.id`.  At every moment the old one or the finished new one
      is there.  If no call fails but the one that stopped it, an error leaves everything as it
      was exactly if that call was not a rename or a creation that took effect nevertheless.
      After such a creation under the old name, the old container keeps the backup's name. */
  method RecreateContainer<S>(daemon: Daemon<S>, request: Request<S>, backup: string, valid: bool)
    returns (outcome: Outcome)
    requires daemon.Valid()
    modifies daemon
    ensures daemon.Valid() && daemon.errors >= old(daemon.errors)
    ensures AlwaysCovered(old(PlanFor(daemon, request, backup)), daemon.log, |old(daemon.log)|)
    ensures outcome.Recreated? ==>
              && request.id in old(daemon.containers) && valid
              && !old(daemon.containers)[request.id].composed && !old(daemon.containers)[request.id].autoRemove
              && outcome.id == old(daemon.next)
              && (daemon.containers == Replaced(old(PlanFor(daemon, request, backup)), false)
                  || (outcome.leftover && daemon.containers == Replaced(old(PlanFor(daemon, request, backup)), true)))
    ensures daemon.errors == old(daemon.errors) ==>
              outcome == Failed(Validation) || outcome == Recreated(old(daemon.next), false)
    ensures outcome == Failed(Validation) ==>
              daemon.containers == old(daemon.containers) && daemon.errors == old(daemon.errors)
    ensures outcome == Failed(Validation) ==>
              && request.id in old(daemon.containers)
              && var was := old(daemon.containers)[request.id]; was.composed || was.autoRemove || !valid
    ensures outcome == Failed(Inspection) ==> daemon.containers == old(daemon.containers)
    ensures outcome == Failed(Creation) && old(daemon.next) in daemon.containers && request.id in old(daemon.containers)
            && request.name == old(daemon.containers)[request.id].name ==>
              Blocked(old(PlanFor(daemon, request, backup)), daemon.containers)
    ensures outcome.Failed? && daemon.errors == old(daemon.errors) + 1 ==>
              (daemon.containers == old(daemon.containers) <==> !Misled(daemon.log, |old(daemon.log)|))
  {
    ghost var from := |daemon.log|;
    var found := daemon.Inspect(request.id);
    if found.None? {
      return Failed(Inspection);
    }
    var was := found.value;
    if was.composed || was.autoRemove || !valid {
      return Failed(Validation);
    }
    var plan := PlanFor(daemon, request, backup);
    ghost var log := daemon.log;
    CoveredUpdate(plan, daemon.containers, was.(name := backup));
    var renamed := daemon.Rename(request.id, backup);
    CoveredAppend(plan, log, from, daemon.log[|log|]);
    if !renamed {
      return Failed(Preparation);
    }
    if was.running {
      var stopped := StopOld(daemon, plan, from);
      if !stopped {
        return Failed(Stop);
      }
    }
    outcome := Replace(daemon, plan, from);
  }

  /** Stops the renamed container, or undoes the rename. */
  method StopOld<S>(daemon: Daemon<S>, plan: Plan<S>, ghost from: nat) returns (ok: bool)
    requires Midway(plan, daemon, from) && plan.created !in plan.init && !plan.init[plan.request.id].autoRemove
    requires plan.init[plan.request.id].running
    requires daemon.containers == plan.init[plan.request.id := plan.init[plan.request.id].(name := plan.backup)]
    requires !Misled(daemon.log, from)
    modifies daemon
    ensures Midway(plan, daemon, from) && daemon.errors >= old(daemon.errors) + (if ok then 0 else 1)
    ensures ok ==>
              && daemon.containers == SetAside(plan) && !Misled(daemon.log, from)
              && daemon.errors == old(daemon.errors) && daemon.next == old(daemon.next)
    ensures !ok && daemon.errors == old(daemon.errors) + 1 ==>
              daemon.containers == plan.init && !Misled(daemon.log, from)
  {
    ghost var log := daemon.log;
    CoveredUpdate(plan, daemon.containers, plan.init[plan.request.id].(name := plan.backup, running := false));
    ok := daemon.Stop(plan.request.id);
    CoveredAppend(plan, log, from, daemon.log[|log|]);
    if !ok {
      NothingLeft(plan, daemon.containers);
      Rollback(daemon, None, plan, from);
    }
  }

  /** The old container set aside and the new one there, running or not. */
  function WithNew<S>(plan: Plan<S>, running: bool): Containers<S>
    requires plan.request.id in plan.init
  {
    SetAside(plan)[plan.created := Container(plan.request.name, running, false, false, plan.request.spec)]
  }

  /** Creates the new container, or brings the old one back. */
  method CreateNew<S>(daemon: Daemon<S>, plan: Plan<S>, ghost from: nat) returns (ok: bool)
    requires Midway(plan, daemon, from) && daemon.containers == SetAside(plan)
    requires daemon.next == plan.created && plan.created !in plan.init && !Misled(daemon.log, from)
    modifies daemon
    ensures Midway(plan, daemon, from) && daemon.errors >= old(daemon.errors) + (if ok then 0 else 1)
    ensures ok ==>
              && daemon.containers == WithNew(plan, false) && !Misled(daemon.log, from)
              && daemon.errors == old(daemon.errors)
    ensures !ok && daemon.errors == old(daemon.errors) + 1 ==>
              (daemon.containers == plan.init <==> !Misled(daemon.log, from))
    ensures !ok && plan.created in daemon.containers && plan.request.name == plan.init[plan.request.id].name ==>
              Blocked(plan, daemon.containers)
  {
    ghost var log := daemon.log;
    var created := daemon.Create(plan.request.name, plan.request.spec);
    CoveredAppend(plan, log, from, daemon.log[|log|]);
    ok := created.Some?;
    if !ok {
      NothingLeft(plan, daemon.containers);
      Rollback(daemon, None, plan, from);
    }
  }

  /** Starts the new container, or deletes it and brings the old one back. */
  method StartNew<S>(daemon: Daemon<S>, plan: Plan<S>, ghost from: nat) returns (ok: bool)
    requires Midway(plan, daemon, from) && plan.created !in plan.init
    requires daemon.containers == WithNew(plan, false) && !Misled(daemon.log, from)
    modifies daemon
    ensures Midway(plan, daemon, from) && daemon.errors >= old(daemon.errors) + (if ok then 0 else 1)
    ensures ok ==>
              && daemon.containers == WithNew(plan, true) && !Misled(daemon.log, from)
              && daemon.errors == old(daemon.errors)
    ensures !ok && daemon.errors == old(daemon.errors) + 1 ==>
              daemon.containers == plan.init && !Misled(daemon.log, from)
  {
    ghost var log := daemon.log;
    ok := daemon.Start(plan.created);
    CoveredAppend(plan, log, from, daemon.log[|log|]);
    if !ok {
      NothingLeft(plan, daemon.containers);
      Rollback(daemon, Some(plan.created), plan, from);
    }
  }

  /** Deletes the old container; on failure it may be left over, stopped. */
  method DeleteOld<S>(daemon: Daemon<S>, plan: Plan<S>, ghost from: nat) returns (ok: bool)
    requires Midway(plan, daemon, from) && plan.created !in plan.init
    requires daemon.containers == WithNew(plan, plan.request.start)
    modifies daemon
    ensures daemon.Valid() && AlwaysCovered(plan, daemon.log, from)
    ensures daemon.errors == old(daemon.errors) + (if ok then 0 else 1)
    ensures daemon.containers == Replaced(plan, false) || (!ok && daemon.containers == Replaced(plan, true))
  {
    ghost var log := daemon.log;
    OldDeleted(plan);
    ok := daemon.Delete(plan.request.id, false);
    CoveredAppend(plan, log, from, daemon.log[|log|]);
  }

  lemma OldDeleted<S>(plan: Plan<S>)
    requires plan.request.id in plan.init && plan.created !in plan.init
    ensures WithNew(plan, plan.request.start) - {plan.request.id} == Replaced(plan, false)
  {
  }

  /** Creates and starts the new container and deletes the old one, which was set aside. */
  method Replace<S>(daemon: Daemon<S>, plan: Plan<S>, ghost from: nat) returns (outcome: Outcome)
    requires Midway(plan, daemon, from) && daemon.containers == SetAside(plan)
    requires daemon.next == plan.created && plan.created !in plan.init && !Misled(daemon.log, from)
    modifies daemon
    ensures daemon.Valid() && daemon.errors >= old(daemon.errors)
    ensures AlwaysCovered(plan, daemon.log, from)
    ensures outcome.Recreated? ==>
              && outcome.id == plan.created
              && (daemon.containers == Replaced(plan, false)
                || (outcome.leftover && daemon.containers == Replaced(plan, true)))
    ensures outcome.Failed? ==>
              (outcome.stage == Creation || outcome.stage == Start) && daemon.errors > old(daemon.errors)
    ensures daemon.errors == old(daemon.errors) ==> outcome == Recreated(plan.created, false)
    ensures outcome == Failed(Creation) && plan.created in daemon.containers
            && plan.request.name == plan.init[plan.request.id].name ==>
              Blocked(plan, daemon.containers)
    ensures outcome.Failed? && daemon.errors == old(daemon.errors) + 1 ==>
              (daemon.containers == plan.init <==> !Misled(daemon.log, from))
  {
    var created := CreateNew(daemon, plan, from);
    if !created {
      return Failed(Creation);
    }
    if plan.request.start {
      var started := StartNew(daemon, plan, from);
      if !started {
        return Failed(Start);
      }
    }
    var deleted := DeleteOld(daemon, plan, from);
    return Recreated(plan.created, !deleted);
  }
}
