/**
 Admission control, concurrent handlers and draining (crates/net/src/server.rs), as steps in any order. A
 handler holds its permit while it runs, drops it as its last act, is complete some time later, and leaves
 the join set when it is reaped. Complete handlers are reaped on every successful accept, when draining
 starts, and one by one while it lasts; otherwise loop, handlers and shutdown signal interleave freely.
 */
module AcceptLoop {
  import opened Bytes

  datatype Mode = Accepting | Draining | Stopped(drained: bool, abandoned: nat)

  /**
   Connections are numbered in the order they were admitted. `refusals` records, for every refused connection,
   the connections that held a permit at that moment; `offered` counts successful accepts.
   */
  datatype Server = Server(free: nat, running: set<nat>, released: set<nat>, complete: set<nat>, reaped: set<nat>,
                           accepted: nat, refused: nat, offered: nat, refusals: seq<set<nat>>, mode: Mode)

  function Initial(max: nat): Server {
    Server(max, {}, {}, {}, {}, 0, 0, 0, [], Accepting)
  }

  datatype Action =
    | Connect            // accept succeeded: reap, then admit, or refuse when no permit is free
    | AcceptError        // accept failed: the listener carries on
    | Finish(id: nat)    // a connection's handler drops its permit
    | Complete(id: nat)
    | Reap(id: nat)      // draining, and a complete handler is joined
    | Shutdown           // draining starts: reap, and stop when nothing is left
    | AllJoined          // draining, and the join set is empty
    | GraceExpired       // draining, and it is not

  function JoinSet(s: Server): set<nat> {
    s.running + s.released + s.complete
  }

  predicate Enabled(s: Server, a: Action) {
    !s.mode.Stopped? &&
    match a
    case Connect => s.mode == Accepting
    case AcceptError => s.mode == Accepting
    case Finish(t) => t in s.running
    case Complete(t) => t in s.released
    case Reap(t) => s.mode == Draining && t in s.complete
    case Shutdown => s.mode == Accepting
    case AllJoined => s.mode == Draining && JoinSet(s) == {}
    case GraceExpired => s.mode == Draining && JoinSet(s) != {}
  }

  /** `try_join_next` until nothing is complete. */
  function ReapComplete(s: Server): Server {
    s.(complete := {}, reaped := s.reaped + s.complete)
  }

  function Step(s: Server, a: Action): Server {
    if !Enabled(s, a) then s
    else match a
      case Connect =>
        var r := ReapComplete(s);
        if r.free == 0 then r.(offered := r.offered + 1, refused := r.refused + 1, refusals := r.refusals + [r.running])
        else r.(offered := r.offered + 1, accepted := r.accepted + 1, free := r.free - 1,
                running := r.running + {r.accepted})
      case AcceptError => s
      case Finish(t) => s.(running := s.running - {t}, released := s.released + {t}, free := s.free + 1)
      case Complete(t) => s.(released := s.released - {t}, complete := s.complete + {t})
      case Reap(t) => s.(complete := s.complete - {t}, reaped := s.reaped + {t})
      case Shutdown => var r := ReapComplete(s); r.(mode := if JoinSet(r) == {} then Stopped(true, 0) else Draining)
      case AllJoined => s.(mode := Stopped(true, 0))
      case GraceExpired => s.(mode := Stopped(false, |JoinSet(s)|))
  }

  function Exec(max: nat, actions: seq<Action>): Server
    decreases |actions|
  {
    if actions == [] then Initial(max) else Step(Exec(max, actions[..|actions| - 1]), actions[|actions| - 1])
  }

  /** Every admitted connection is in exactly one place. */
  ghost predicate Partition(s: Server) {
    && (forall t: nat :: t in s.running ==> t < s.accepted && t !in s.released && t !in s.complete && t !in s.reaped)
    && (forall t: nat :: t in s.released ==> t < s.accepted && t !in s.complete && t !in s.reaped)
    && (forall t: nat :: t in s.complete ==> t < s.accepted && t !in s.reaped)
    && (forall t: nat :: t in s.reaped ==> t < s.accepted)
    && (forall t: nat :: t < s.accepted ==> t in s.running || t in s.released || t in s.complete || t in s.reaped)
  }

  /** Accepts are accounted for, and every refusal found all permits held. */
  predicate Counted(max: nat, s: Server) {
    && s.accepted + s.refused == s.offered
    && |s.refusals| == s.refused && (forall i :: 0 <= i < |s.refusals| ==> |s.refusals[i]| == max)
  }

  predicate Reported(s: Server) {
    s.mode.Stopped? ==> s.mode.abandoned == |JoinSet(s)| && (s.mode.drained <==> JoinSet(s) == {})
  }

  ghost predicate Conserved(max: nat, s: Server) {
    Partition(s) && s.free + |s.running| == max && Counted(max, s) && Reported(s)
  }

  lemma StepPartitions(s: Server, a: Action)
    requires Partition(s)
    ensures Partition(Step(s, a))
  {}

  lemma StepPermits(s: Server, a: Action)
    requires s.accepted !in s.running
    ensures var s' := Step(s, a); s'.free + |s'.running| == s.free + |s.running|
  {
    if a.Connect? && Enabled(s, a) && s.free > 0 {
      assert |s.running + {s.accepted}| == |s.running| + 1;
    } else if a.Finish? && Enabled(s, a) {
      assert |s.running - {a.id}| == |s.running| - 1;
    }
  }

  lemma StepCounts(max: nat, s: Server, a: Action)
    requires Counted(max, s) && s.free + |s.running| == max && Reported(s)
    ensures Counted(max, Step(s, a)) && Reported(Step(s, a))
  {}

  lemma NextIsNew(s: Server)
    requires Partition(s)
    ensures s.accepted !in s.running
  {}

  lemma StepConserves(max: nat, s: Server, a: Action)
    requires Conserved(max, s)
    ensures Conserved(max, Step(s, a))
  {
    hide Partition, Step, Counted, Reported;
    NextIsNew(s);
    StepPartitions(s, a);
    StepPermits(s, a);
    StepCounts(max, s, a);
  }

  /**
   Admission conservation, in every interleaving: held and free permits add up to the cap; accepted and
   refused add up to the successful accepts; every refusal found all permits held; and a drained outcome
   means none abandoned and every admitted connection finished.
   */
  lemma {:induction false} AlwaysConserved(max: nat, actions: seq<Action>)
    ensures Conserved(max, Exec(max, actions))
    decreases |actions|
  {
    hide Conserved, Step;
    if actions == [] {
      StartConserved(max);
    } else {
      AlwaysConserved(max, actions[..|actions| - 1]);
      StepConserves(max, Exec(max, actions[..|actions| - 1]), actions[|actions| - 1]);
    }
  }

  lemma StartConserved(max: nat)
    ensures Conserved(max, Initial(max))
  {}

  /**
   What the outcome of a completed run says, read back against the connections. Drained means that none was
   abandoned and that every admitted connection was joined. The number abandoned is the number still running
   exactly when no handler has let its permit go without having been joined.
   */
  lemma OutcomeMeans(max: nat, actions: seq<Action>)
    requires Exec(max, actions).mode.Stopped?
    ensures var s := Exec(max, actions);
            && |s.running| <= max && |s.running| <= s.mode.abandoned
            && (s.mode.drained <==> s.mode.abandoned == 0)
            && (s.mode.drained <==> forall t: nat :: t < s.accepted ==> t in s.reaped)
            && (s.mode.abandoned == |s.running| <==> s.released == {} && s.complete == {})
  {
    hide Exec;
    AlwaysConserved(max, actions);
    var s := Exec(max, actions);
    SubsetSize(s.running, JoinSet(s));
    if JoinSet(s) != {} {
      var t :| t in JoinSet(s);
      assert t in s.running || t in s.released || t in s.complete;
      assert t < s.accepted && t !in s.reaped;
    }
    AbandonedSplit(s);
  }

  lemma AbandonedSplit(s: Server)
    requires Partition(s)
    ensures |JoinSet(s)| == |s.running| <==> s.released == {} && s.complete == {}
  {
    var others := s.released + s.complete;
    assert JoinSet(s) == s.running + others && s.running !! others;
    assert |s.running + others| == |s.running| + |others|;
    assert others == {} <==> s.released == {} && s.complete == {};
  }

  /** The count is documented as connections still running; here it is 1 and none is. */
  lemma AbandonedFinished()
    ensures var s := Exec(1, [Connect, Shutdown, Finish(0), GraceExpired]);
            s.mode == Stopped(false, 1) && s.running == {} && s.released == {0}
  {
    var a := [Connect, Shutdown, Finish(0), GraceExpired];
    assert a[..3][..2] == a[..2] && a[..2][..1] == a[..1] && a[..1][..0] == [];
    assert Exec(1, []) == Initial(1);
    assert Exec(1, a[..1]) == Initial(1).(offered := 1, accepted := 1, free := 0, running := {0});
    assert Exec(1, a[..2]) == Exec(1, a[..1]).(mode := Draining);
    assert Exec(1, a[..3]) == Exec(1, a[..2]).(free := 1, running := {}, released := {0});
    assert JoinSet(Exec(1, a[..3])) == {0};
  }

  lemma {:induction false} SubsetSize(a: set<nat>, b: set<nat>)
    requires a <= b
    ensures |a| <= |b|
  {
    if a != {} {
      var x :| x in a;
      SubsetSize(a - {x}, b - {x});
    }
  }

  /** A released permit is usable: a connection offered while fewer than the cap are held is admitted. */
  lemma AdmittedBelowCap(max: nat, actions: seq<Action>)
    requires Exec(max, actions).mode == Accepting && |Exec(max, actions).running| < max
    ensures var s, s' := Exec(max, actions), Exec(max, actions + [Connect]);
            s'.accepted == s.accepted + 1 && s'.refused == s.refused && s.accepted in s'.running
  {
    AlwaysConserved(max, actions);
    assert (actions + [Connect])[..|actions|] == actions;
  }

  lemma ExecSnoc(max: nat, actions: seq<Action>, a: Action)
    ensures Exec(max, actions + [a]) == Step(Exec(max, actions), a)
  {
    assert (actions + [a])[..|actions|] == actions;
  }

  // ----- what each event does -----

  /**
   An accepted connection first has every complete handler reaped. It is then admitted when fewer than the cap
   hold a permit, and refused when all are held; no other connection is touched.
   */
  lemma ConnectExact(max: nat, actions: seq<Action>)
    requires Exec(max, actions).mode == Accepting
    ensures var s, s' := Exec(max, actions), Exec(max, actions + [Connect]);
            && s'.complete == {} && s'.reaped == s.reaped + s.complete && s'.released == s.released
            && s'.mode == Accepting && s'.offered == s.offered + 1
            && (if |s.running| < max
                then s'.running == s.running + {s.accepted} && s'.accepted == s.accepted + 1 && s'.refused == s.refused
                else s'.running == s.running && s'.accepted == s.accepted && s'.refused == s.refused + 1)
  {
    AlwaysConserved(max, actions);
    ExecSnoc(max, actions, Connect);
    hide Exec;
  }

  /** A handler that ends gives its permit back before it is complete; a failed accept changes nothing. */
  lemma HandlerExact(max: nat, actions: seq<Action>, t: nat)
    requires !Exec(max, actions).mode.Stopped?
    ensures var s, s' := Exec(max, actions), Exec(max, actions + [Finish(t)]);
            s' == if t in s.running
                  then s.(running := s.running - {t}, released := s.released + {t}, free := s.free + 1) else s
    ensures var s, s' := Exec(max, actions), Exec(max, actions + [Complete(t)]);
            s' == if t in s.released then s.(released := s.released - {t}, complete := s.complete + {t}) else s
    ensures Exec(max, actions + [AcceptError]) == Exec(max, actions)
  {
    ExecSnoc(max, actions, Finish(t));
    ExecSnoc(max, actions, Complete(t));
    ExecSnoc(max, actions, AcceptError);
    hide Exec;
  }

  /**
   The shutdown signal has every complete handler reaped at once. With none running or still ending, the
   server has drained; otherwise it drains.
   */
  lemma ShutdownExact(max: nat, actions: seq<Action>)
    requires Exec(max, actions).mode == Accepting
    ensures var s, s' := Exec(max, actions), Exec(max, actions + [Shutdown]);
            && s'.complete == {} && s'.reaped == s.reaped + s.complete
            && s'.running == s.running && s'.released == s.released
            && s'.accepted == s.accepted && s'.refused == s.refused
            && s'.mode == if s.running == {} && s.released == {} then Stopped(true, 0) else Draining
  {
    ExecSnoc(max, actions, Shutdown);
    hide Exec;
  }

  /** Draining ends when the last handler is joined, or with the grace period and a count of the handlers left. */
  lemma DrainingEnds(max: nat, actions: seq<Action>)
    requires Exec(max, actions).mode == Draining
    ensures var s := Exec(max, actions);
            if s.running + s.released + s.complete == {}
            then Exec(max, actions + [AllJoined]) == s.(mode := Stopped(true, 0))
            else Exec(max, actions + [GraceExpired])
                 == s.(mode := Stopped(false, |s.running + s.released + s.complete|))
  {
    ExecSnoc(max, actions, AllJoined);
    ExecSnoc(max, actions, GraceExpired);
    hide Exec;
  }

  /** While draining, a complete handler can be joined; before it, only an accept reaps. */
  lemma ReapExact(max: nat, actions: seq<Action>, t: nat)
    ensures var s, s' := Exec(max, actions), Exec(max, actions + [Reap(t)]);
            s' == if s.mode == Draining && t in s.complete
                  then s.(complete := s.complete - {t}, reaped := s.reaped + {t}) else s
  {
    ExecSnoc(max, actions, Reap(t));
    hide Exec;
  }

  lemma StepAfterShutdown(s: Server, a: Action)
    requires s.mode != Accepting
    ensures var s' := Step(s, a);
            && s'.mode != Accepting && s'.accepted == s.accepted && s'.refused == s.refused && s'.offered == s.offered
            && s'.running <= s.running && JoinSet(s') <= JoinSet(s)
  {}

  /** From the signal on nothing is accepted or refused, and no connection starts. */
  lemma {:induction false} NothingAfterShutdown(max: nat, actions: seq<Action>, more: seq<Action>)
    requires Exec(max, actions).mode != Accepting
    ensures var s, s' := Exec(max, actions), Exec(max, actions + more);
            && s'.mode != Accepting && s'.accepted == s.accepted && s'.refused == s.refused && s'.offered == s.offered
            && s'.running <= s.running && JoinSet(s') <= JoinSet(s)
    decreases |more|
  {
    hide Exec, Step, JoinSet;
    if more == [] {
      assert actions + more == actions;
    } else {
      var init, a := more[..|more| - 1], more[|more| - 1];
      NothingAfterShutdown(max, actions, init);
      assert actions + more == (actions + init) + [a];
      ExecSnoc(max, actions + init, a);
      StepAfterShutdown(Exec(max, actions + init), a);
    }
  }

  /** Whatever follows the signal, at most the connections running or ending when it came are reported abandoned. */
  lemma AbandonedBound(max: nat, actions: seq<Action>, more: seq<Action>)
    requires Exec(max, actions).mode == Accepting && Exec(max, (actions + [Shutdown]) + more).mode.Stopped?
    ensures var s := Exec(max, actions);
            Exec(max, (actions + [Shutdown]) + more).mode.abandoned <= |s.running + s.released|
  {
    var s, s1, s2 := Exec(max, actions), Exec(max, actions + [Shutdown]), Exec(max, (actions + [Shutdown]) + more);
    ShutdownExact(max, actions);
    NothingAfterShutdown(max, actions + [Shutdown], more);
    AlwaysConserved(max, (actions + [Shutdown]) + more);
    hide Exec;
    SubsetSize(JoinSet(s2), s.running + s.released);
  }

  /** How many steps the handlers have left. */
  function Left(s: Server): nat {
    3 * |s.running| + 2 * |s.released| + |s.complete|
  }

  /** The next thing a handler does, if any is left. */
  ghost function HandlerStep(s: Server): (a: Option<Action>)
    ensures a.None? ==> JoinSet(s) == {}
    ensures a.Some? ==> match a.value
                        case Finish(t) => t in s.running
                        case Complete(t) => t in s.released
                        case Reap(t) => t in s.complete
                        case _ => false
  {
    if s.running != {} then var t :| t in s.running; Some(Finish(t))
    else if s.released != {} then var t :| t in s.released; Some(Complete(t))
    else if s.complete != {} then var t :| t in s.complete; Some(Reap(t))
    else None
  }

  /** A draining server whose handlers all end, and are joined, reports that it drained. */
  lemma DrainCompletes(max: nat, actions: seq<Action>) returns (more: seq<Action>)
    requires Exec(max, actions).mode == Draining
    ensures Exec(max, actions + more).mode == Stopped(true, 0)
    ensures forall i :: 0 <= i < |more| ==> !more[i].GraceExpired?
    decreases Left(Exec(max, actions))
  {
    hide Exec, Step, Left, Counted, Reported, Partition;
    AlwaysConserved(max, actions);
    var s := Exec(max, actions);
    match HandlerStep(s)
    case None =>
      DrainingEnds(max, actions);
      more := [AllJoined];
    case Some(a) =>
      ExecSnoc(max, actions, a);
      StepShrinks(s, a);
      var rest := DrainCompletes(max, actions + [a]);
      more := [a] + rest;
      assert actions + more == (actions + [a]) + rest;
  }

  lemma StepShrinks(s: Server, a: Action)
    requires Partition(s) && s.mode == Draining && HandlerStep(s) == Some(a)
    ensures Step(s, a).mode == Draining && Left(Step(s, a)) < Left(s)
  {
    hide HandlerStep;
    match a
    case Finish(t) =>
      assert t !in s.released;
      hide Partition;
      SizeMoves(s.running, s.released, t);
    case Complete(t) =>
      assert t !in s.complete;
      hide Partition;
      SizeMoves(s.released, s.complete, t);
    case Reap(t) =>
      hide Partition;
      SizeMoves(s.complete, {}, t);
  }

  lemma SizeMoves(from: set<nat>, to: set<nat>, t: nat)
    requires t in from && t !in to
    ensures |from - {t}| == |from| - 1 && |to + {t}| == |to| + 1
  {}

  // ----- the loop as the source runs it -----

  datatype ServeOutcome = ServeOutcome(accepted: nat, refused: nat, drained: bool, abandoned: nat)

  lemma ExecNext(max: nat, schedule: seq<Action>, i: nat)
    requires i < |schedule|
    ensures Exec(max, schedule[..i + 1]) == Step(Exec(max, schedule[..i]), schedule[i])
  {
    hide Step;
    assert schedule[..i + 1][..i] == schedule[..i];
  }

  lemma {:induction false} StoppedStays(max: nat, schedule: seq<Action>, i: nat)
    requires i <= |schedule| && Exec(max, schedule[..i]).mode.Stopped?
    ensures Exec(max, schedule) == Exec(max, schedule[..i])
    decreases |schedule| - i
  {
    if i == |schedule| {
      assert schedule[..i] == schedule;
    } else {
      ExecNext(max, schedule, i);
      hide Exec;
      StoppedStays(max, schedule, i + 1);
    }
  }

  lemma OutcomeDrained(max: nat, schedule: seq<Action>)
    ensures var m := Exec(max, schedule).mode; m.Stopped? ==> (m.drained <==> m.abandoned == 0)
  {
    AlwaysConserved(max, schedule);
  }

  /** The join set, by how far each handler has got. */
  predicate Holds(s: Server, running: set<nat>, released: set<nat>, complete: set<nat>) {
    s.running == running && s.released == released && s.complete == complete
  }

  /**
   `serve`: the accept loop up to the shutdown signal, then `drain`. The schedule is what happens around it;
   it may end before the server does.
   */
  method Serve(max: nat, schedule: seq<Action>) returns (outcome: Option<ServeOutcome>)
    ensures var s := Exec(max, schedule);
            outcome == if s.mode.Stopped?
                       then Some(ServeOutcome(s.accepted, s.refused, s.mode.drained, s.mode.abandoned))
                       else None
    ensures outcome.Some? ==> (outcome.value.drained <==> outcome.value.abandoned == 0)
  {
    OutcomeDrained(max, schedule);
    var permits := max;
    var running: set<nat>, released: set<nat>, complete: set<nat> := {}, {}, {};
    var accepted, refused := 0, 0;
    var i := 0;
    ghost var s := Initial(max);
    assert Exec(max, schedule[..0]) == s;
    hide Exec;
    while i < |schedule| && schedule[i] != Shutdown
      invariant i <= |schedule| && s == Exec(max, schedule[..i]) && s.mode == Accepting
      invariant Holds(s, running, released, complete) && s.free == permits && s.accepted == accepted
                && s.refused == refused
    {
      match schedule[i] {
        case Connect =>
          complete := {};
          if permits == 0 {
            refused := refused + 1;
          } else {
            permits := permits - 1;
            running := running + {accepted};
            accepted := accepted + 1;
          }
        case Finish(t) =>
          if t in running {
            running, released, permits := running - {t}, released + {t}, permits + 1;
          }
        case Complete(t) =>
          if t in released {
            released, complete := released - {t}, complete + {t};
          }
        case _ =>
      }
      ExecNext(max, schedule, i);
      s := Step(s, schedule[i]);
      i := i + 1;
    }
    if i == |schedule| {
      assert schedule[..i] == schedule;
      return None;
    }
    var drained := Drain(max, schedule, i, running, released, complete);
    return if drained.None? then None else Some(ServeOutcome(accepted, refused, drained.value.0, drained.value.1));
  }

  /** `drain`, from the shutdown signal at `start` on: whether everything finished, and how many were abandoned. */
  method Drain(max: nat, schedule: seq<Action>, start: nat, running0: set<nat>, released0: set<nat>,
               complete0: set<nat>)
    returns (result: Option<(bool, nat)>)
    requires start < |schedule| && schedule[start] == Shutdown && Exec(max, schedule[..start]).mode == Accepting
    requires Holds(Exec(max, schedule[..start]), running0, released0, complete0)
    ensures var s, s0 := Exec(max, schedule), Exec(max, schedule[..start]);
            && s.accepted == s0.accepted && s.refused == s0.refused
            && result == if s.mode.Stopped? then Some((s.mode.drained, s.mode.abandoned)) else None
  {
    hide Exec;
    ghost var s := Step(Exec(max, schedule[..start]), Shutdown);
    ExecNext(max, schedule, start);
    var running, released, complete: set<nat> := running0, released0, {};
    if running + released + complete == {} {
      StoppedStays(max, schedule, start + 1);
      return Some((true, 0));
    }
    var i := start + 1;
    while i < |schedule|
      invariant start < i <= |schedule| && s == Exec(max, schedule[..i]) && s.mode == Draining
      invariant Holds(s, running, released, complete)
      invariant s.accepted == Exec(max, schedule[..start]).accepted && s.refused == Exec(max, schedule[..start]).refused
    {
      var remaining := running + released + complete;
      ExecNext(max, schedule, i);
      s := Step(s, schedule[i]);
      match schedule[i] {
        case Finish(t) =>
          if t in running {
            running, released := running - {t}, released + {t};
          }
        case Complete(t) =>
          if t in released {
            released, complete := released - {t}, complete + {t};
          }
        case Reap(t) =>
          complete := complete - {t};
        case AllJoined =>
          if remaining == {} {
            StoppedStays(max, schedule, i + 1);
            return Some((true, 0));
          }
        case GraceExpired =>
          if remaining != {} {
            StoppedStays(max, schedule, i + 1);
            return Some((false, |remaining|));
          }
        case _ =>
      }
      i := i + 1;
    }
    assert schedule[..i] == schedule;
    return None;
  }
}
