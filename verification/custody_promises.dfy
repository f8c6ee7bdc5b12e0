/** What every behaviour of the custody protocol promises, and exactly where each promise ends. */
module CustodyPromises {
  import opened Strings
  import opened CustodyTree
  import opened MinIOCustody
  import opened CustodyProtocol

  // ----- One run at a time

  lemma AlwaysExclusive(conf: Conf, states: seq<Sys>, actions: seq<Action>, n: nat)
    requires Behaviour(conf, states, actions) && Initial(states[0]) && n < |states|
    ensures Exclusive(states[n])
  {
    AlwaysSafe(conf, states, actions, n);
  }

  /** At most one run is inside the lock. */
  lemma OneRunInside(conf: Conf, states: seq<Sys>, actions: seq<Action>, n: nat, a: nat, b: nat)
    requires Behaviour(conf, states, actions) && Initial(states[0]) && n < |states|
    requires a in states[n].runs && InLock(states[n].runs[a]) && b in states[n].runs && InLock(states[n].runs[b])
    ensures a == b
  {
    AlwaysSafe(conf, states, actions, n);
  }

  /** From the lock to the end of Init, every rollback included. */
  predicate InInit(pc: Pc) {
    !(pc.Serving? || pc.Ended? || pc.Crashed?)
  }

  predicate InitAt(s: Sys, r: nat) {
    r in s.runs && InInit(s.runs[r])
  }

  ghost predicate OneInInit(s: Sys) {
    forall a, b :: InitAt(s, a) && InitAt(s, b) ==> a == b
  }

  /** No failed start is still rolling back. */
  ghost predicate NoneRollingBack(s: Sys) {
    forall r :: r in s.runs ==> s.runs[r] != RollingBack(false)
  }

  /** A run enters Init with the lock, and rolls back outside it only after a failed start. */
  predicate Enters(s: Sys, a: Action, s': Sys, r: nat)
    requires r in s'.runs
  {
    && (InInit(s'.runs[r]) ==> a == Lock(r) || (r in s.runs && InInit(s.runs[r])))
    && (InLock(s'.runs[r]) ==> a == Lock(r) || (r in s.runs && InLock(s.runs[r])))
    && (s'.runs[r] == RollingBack(false) ==> a == FailStart(r) || At(s, r, RollingBack(false)))
  }

  lemma PreparingEnters(conf: Conf, s: Sys, a: Action, r: nat)
    requires Preparing(conf, s, a).Some? && r in Preparing(conf, s, a).value.runs
    ensures Enters(s, a, Preparing(conf, s, a).value, r)
  {
  }

  lemma StartingEnters(conf: Conf, s: Sys, a: Action, r: nat)
    requires Starting(conf, s, a).Some? && r in Starting(conf, s, a).value.runs
    ensures Enters(s, a, Starting(conf, s, a).value, r)
  {
  }

  lemma EndingEnters(conf: Conf, s: Sys, a: Action, r: nat)
    requires Ending(conf, s, a).Some? && r in Ending(conf, s, a).value.runs
    ensures Enters(s, a, Ending(conf, s, a).value, r)
  {
  }

  lemma StepEnters(conf: Conf, s: Sys, a: Action, r: nat)
    requires Next(conf, s, a).Some? && r in Next(conf, s, a).value.runs
    ensures Enters(s, a, Next(conf, s, a).value, r)
  {
    if Preparing(conf, s, a).Some? {
      PreparingEnters(conf, s, a, r);
    } else if Starting(conf, s, a).Some? {
      StartingEnters(conf, s, a, r);
    } else {
      EndingEnters(conf, s, a, r);
    }
  }

  lemma LockStep(conf: Conf, s: Sys, a: Action)
    requires a.Lock? && Next(conf, s, a).Some?
    ensures s.lock.None? && a.r !in s.runs && Next(conf, s, a).value.runs == s.runs[a.r := Locked]
  {
  }

  /**
   Of the runs in Init at most one is not rolling back a failed start, and two are in Init exactly when one is doing so
   beside another.
   */
  lemma TwoInInit(conf: Conf, states: seq<Sys>, actions: seq<Action>, n: nat)
    requires Behaviour(conf, states, actions) && Initial(states[0]) && n < |states|
    ensures var s := states[n];
      forall a, b :: InitAt(s, a) && InitAt(s, b) ==>
        a == b || s.runs[a] == RollingBack(false) || s.runs[b] == RollingBack(false)
    ensures var s := states[n];
      !OneInInit(s) <==> exists r, other :: At(s, r, RollingBack(false)) && InitAt(s, other) && r != other
  {
    AlwaysExclusive(conf, states, actions, n);
    var s := states[n];
    if !OneInInit(s) {
      var a, b :| InitAt(s, a) && InitAt(s, b) && a != b;
      assert At(s, a, RollingBack(false)) || At(s, b, RollingBack(false));
    }
    if exists r, other :: At(s, r, RollingBack(false)) && InitAt(s, other) && r != other {
      var r, other :| At(s, r, RollingBack(false)) && InitAt(s, other) && r != other;
      assert InitAt(s, r);
    }
  }

  /** Behind every such rollback there is the failed start that gave the lock back. */
  lemma {:induction false} FailedStartBehind(conf: Conf, states: seq<Sys>, actions: seq<Action>, n: nat, r: nat)
    returns (k: nat)
    requires Behaviour(conf, states, actions) && Initial(states[0]) && n < |states| &&
      At(states[n], r, RollingBack(false))
    ensures k < n && actions[k] == FailStart(r)
    ensures forall j :: k < j <= n ==> At(states[j], r, RollingBack(false))
  {
    assert n > 0;
    assert Next(conf, states[n - 1], actions[n - 1]) == Some(states[n]);
    StepEnters(conf, states[n - 1], actions[n - 1], r);
    if actions[n - 1] == FailStart(r) {
      k := n - 1;
    } else {
      k := FailedStartBehind(conf, states, actions, n - 1, r);
    }
  }

  /** Locks are taken only where no failed start is rolling back. */
  ghost predicate LocksWait(states: seq<Sys>, actions: seq<Action>, n: nat)
    requires n <= |actions| && n < |states|
  {
    forall i :: 0 <= i < n && actions[i].Lock? ==> NoneRollingBack(states[i])
  }

  ghost predicate OneByOne(states: seq<Sys>, n: nat)
    requires n < |states|
  {
    forall i :: 0 <= i <= n ==> OneInInit(states[i])
  }

  /**
   Whole Inits, rollback included, come one after another exactly as long as no lock is taken during such a rollback.
   */
  lemma {:induction false} InitsAreSerial(conf: Conf, states: seq<Sys>, actions: seq<Action>, n: nat)
    requires Behaviour(conf, states, actions) && Initial(states[0]) && n < |states|
    ensures OneByOne(states, n) <==> LocksWait(states, actions, n)
  {
    if n > 0 {
      InitsAreSerial(conf, states, actions, n - 1);
      if OneInInit(states[n - 1]) { SerialStep(conf, states, actions, n - 1); }
    }
  }

  lemma SerialStep(conf: Conf, states: seq<Sys>, actions: seq<Action>, n: nat)
    requires Behaviour(conf, states, actions) && Initial(states[0]) && n < |actions| && OneInInit(states[n])
    ensures OneInInit(states[n + 1]) <==> (actions[n].Lock? ==> NoneRollingBack(states[n]))
  {
    AlwaysExclusive(conf, states, actions, n);
    var s, a, s' := states[n], actions[n], states[n + 1];
    assert Next(conf, s, a) == Some(s');
    forall r ensures InitAt(s', r) ==> a == Lock(r) || InitAt(s, r) {
      if r in s'.runs { StepEnters(conf, s, a, r); }
    }
    if a.Lock? {
      LockStep(conf, s, a);
      LockBesideRollback(s, s', a.r);
    }
  }

  /** A run that takes the lock is alone in Init exactly if no failed start is still rolling back. */
  lemma LockBesideRollback(s: Sys, s': Sys, r: nat)
    requires Exclusive(s) && s.lock.None? && r !in s.runs && s'.runs == s.runs[r := Locked]
    requires OneInInit(s)
    ensures OneInInit(s') <==> NoneRollingBack(s)
  {
    assert InitAt(s', r);
    forall x | x in s.runs ensures InitAt(s', x) <==> s.runs[x] == RollingBack(false) {
      assert InitAt(s, x) ==> s.runs[x] == RollingBack(false);
    }
  }

  /**
   A rollback outside the lock leaves whichever run is inside where it is: its place, the lock and the tree are as
   before, and all it relies on still holds, even if the teardown takes that run's container.
   */
  lemma RollbackLeavesTheHolder(conf: Conf, states: seq<Sys>, actions: seq<Action>, n: nat, r: nat, other: nat)
    requires Behaviour(conf, states, actions) && Initial(states[0]) && n < |actions|
    requires actions[n].Rollback? && actions[n].r == r && At(states[n], r, RollingBack(false))
    requires other in states[n].runs && InLock(states[n].runs[other])
    ensures At(states[n + 1], other, states[n].runs[other]) && HolderSafe(states[n + 1], states[n].runs[other])
    ensures states[n + 1].lock == Some(other) && states[n + 1].root == states[n].root
  {
    AlwaysSafe(conf, states, actions, n);
    AlwaysSafe(conf, states, actions, n + 1);
    assert Next(conf, states[n], actions[n]) == Some(states[n + 1]);
  }

  // ----- No second store

  /** The steps that begin a store or give it its bucket. */
  predicate CreatesStore(a: Action) {
    a.Claim? || a.MakeData? || a.TempMarker? || a.RenameMarker? || a.TempRecord? || a.RenameRecord? || a.MakeBucket?
  }

  /** A bucket is made on a record that is not the one verified. */
  predicate RecreatesBucket(conf: Conf, s: Sys, a: Action) {
    && a.MakeBucket? && At(s, a.r, Started(true, false))
    && Runtime.WithBucket(s.root, conf.bucket(a.r)).Some? && !HasBucket(s.root, conf.bucket(a.r))
  }

  /** A bare directory is claimed although a container is there, started by others since the run looked for one. */
  predicate ClaimsUnderContainer(s: Sys, a: Action) {
    a.Claim? && a.id != "" && At(s, a.r, Inspected(false)) && Bare(s.root) && s.container.Foreign?
  }

  /**
   Once an object was written through a started gateway, a step that begins a store or makes a bucket is possible
   exactly in two cases: the record changed between its two reads, or a container appeared unseen over a directory that
   has become bare.
   */
  lemma NoSecondStore(conf: Conf, states: seq<Sys>, actions: seq<Action>, n: nat, a: Action)
    requires Behaviour(conf, states, actions) && Initial(states[0]) && n < |states|
    requires states[n].armed && CreatesStore(a)
    ensures Next(conf, states[n], a).Some? <==>
      RecreatesBucket(conf, states[n], a) || ClaimsUnderContainer(states[n], a)
  {
    AlwaysSafe(conf, states, actions, n);
    var s := states[n];
    if Next(conf, s, a).Some? {
      assert InLock(s.runs[a.r]) && HolderSafe(s, s.runs[a.r]);
    }
  }

  // ----- Faults that only lose

  /** The record is gone, unreadable, or as it was. */
  predicate Lost(before: Root, after: Root) {
    Runtime.Reread(after).None? || Runtime.Reread(after) == Runtime.Reread(before)
  }

  ghost predicate OnlyLosses(states: seq<Sys>, actions: seq<Action>)
    requires |states| == |actions| + 1
  {
    forall i :: 0 <= i < |actions| && actions[i].Disturb? ==> Lost(states[i].root, actions[i].next)
  }

  /** The record a run has verified is still there or lost, and the one it read last is the one it verified. */
  predicate Honest(s: Sys, pc: Pc) {
    match pc
    case RecordWritten(c) => Runtime.Reread(s.root).None? || Runtime.Reread(s.root) == Some(c)
    case Verified(c) => Runtime.Reread(s.root).None? || Runtime.Reread(s.root) == Some(c)
    case Prepared(_, same) => same
    case Started(_, same) => same
    case _ => true
  }

  lemma PreparingKeepsHonest(conf: Conf, s: Sys, a: Action)
    requires Preparing(conf, s, a).Some? && !a.Lock? && Honest(s, s.runs[a.r])
    ensures Honest(Preparing(conf, s, a).value, Preparing(conf, s, a).value.runs[a.r])
  {
  }

  lemma StartingKeepsHonest(conf: Conf, s: Sys, a: Action)
    requires Starting(conf, s, a).Some? && Honest(s, s.runs[a.r])
    ensures Honest(Starting(conf, s, a).value, Starting(conf, s, a).value.runs[a.r])
  {
  }

  /** Outside the protocol's own steps the record is at most lost. */
  lemma EndingKeepsHonest(conf: Conf, s: Sys, a: Action, r: nat)
    requires Ending(conf, s, a).Some? && (a.Disturb? ==> Lost(s.root, a.next))
    requires r in s.runs && InLock(s.runs[r]) && Honest(s, s.runs[r])
    ensures r in Ending(conf, s, a).value.runs && Honest(Ending(conf, s, a).value, Ending(conf, s, a).value.runs[r])
  {
  }

  /** The run inside the lock is the only one to take steps of its own. */
  lemma ActsAlone(conf: Conf, s: Sys, a: Action, r: nat)
    requires Exclusive(s) && r in s.runs && InLock(s.runs[r])
    requires Preparing(conf, s, a).Some? || Starting(conf, s, a).Some?
    ensures !a.Lock? && a.r == r
  {
  }

  lemma StepKeepsHonest(conf: Conf, s: Sys, a: Action, r: nat)
    requires Exclusive(s) && Next(conf, s, a).Some? && (a.Disturb? ==> Lost(s.root, a.next))
    requires r in s.runs && InLock(s.runs[r]) && Honest(s, s.runs[r])
    ensures r in Next(conf, s, a).value.runs && Honest(Next(conf, s, a).value, Next(conf, s, a).value.runs[r])
  {
    if Preparing(conf, s, a).Some? {
      ActsAlone(conf, s, a, r);
      PreparingKeepsHonest(conf, s, a);
    } else if Starting(conf, s, a).Some? {
      ActsAlone(conf, s, a, r);
      StartingKeepsHonest(conf, s, a);
    } else {
      EndingKeepsHonest(conf, s, a, r);
    }
  }

  lemma HonestStep(conf: Conf, s: Sys, a: Action, s': Sys, r: nat)
    requires Exclusive(s) && Next(conf, s, a) == Some(s') && (a.Disturb? ==> Lost(s.root, a.next))
    requires r in s.runs && InLock(s.runs[r]) ==> Honest(s, s.runs[r])
    requires r in s'.runs && InLock(s'.runs[r])
    ensures Honest(s', s'.runs[r])
  {
    StepEnters(conf, s, a, r);
    if r in s.runs && InLock(s.runs[r]) {
      StepKeepsHonest(conf, s, a, r);
    } else {
      LockStep(conf, s, a);
    }
  }

  lemma {:induction false} AlwaysHonest(conf: Conf, states: seq<Sys>, actions: seq<Action>, n: nat, r: nat)
    requires Behaviour(conf, states, actions) && Initial(states[0]) && OnlyLosses(states, actions) && n < |states|
    requires r in states[n].runs && InLock(states[n].runs[r])
    ensures Honest(states[n], states[n].runs[r])
  {
    if n > 0 {
      if r in states[n - 1].runs && InLock(states[n - 1].runs[r]) { AlwaysHonest(conf, states, actions, n - 1, r); }
      AlwaysExclusive(conf, states, actions, n - 1);
      HonestStep(conf, states[n - 1], actions[n - 1], states[n], r);
    }
  }

  /** Behind a bucket made on another record than the one verified there is a fault that put that record there. */
  lemma RecordReplaced(conf: Conf, states: seq<Sys>, actions: seq<Action>, n: nat, r: nat, isNew: bool)
    requires Behaviour(conf, states, actions) && Initial(states[0]) && n < |states|
    requires At(states[n], r, Started(isNew, false))
    ensures exists i :: 0 <= i < n && actions[i].Disturb? && !Lost(states[i].root, actions[i].next)
  {
    if forall i :: 0 <= i < n && actions[i].Disturb? ==> Lost(states[i].root, actions[i].next) {
      Prefix(conf, states, actions, n);
      AlwaysHonest(conf, states[..n + 1], actions[..n], n, r);
    }
  }

  lemma Prefix(conf: Conf, states: seq<Sys>, actions: seq<Action>, n: nat)
    requires Behaviour(conf, states, actions) && n < |states|
    ensures Behaviour(conf, states[..n + 1], actions[..n])
  {
    forall i | 0 <= i < n ensures Next(conf, states[..n + 1][i], actions[..n][i]) == Some(states[..n + 1][i + 1]) {
      assert Next(conf, states[i], actions[i]) == Some(states[i + 1]);
    }
  }

  /**
   When faults only lose things, no bucket is ever made over a store in use, and a claim needs the unseen container.
   */
  lemma LossesRecreateNothing(conf: Conf, states: seq<Sys>, actions: seq<Action>, n: nat, a: Action)
    requires Behaviour(conf, states, actions) && Initial(states[0]) && OnlyLosses(states, actions) && n < |states|
    requires states[n].armed && CreatesStore(a)
    ensures Next(conf, states[n], a).Some? <==> ClaimsUnderContainer(states[n], a)
  {
    NoSecondStore(conf, states, actions, n, a);
    if RecreatesBucket(conf, states[n], a) { AlwaysHonest(conf, states, actions, n, a.r); }
  }

  // ----- Containers started by others

  /** Since act k a container was started by others, and is still there. */
  ghost predicate ForeignSince(actions: seq<Action>, k: nat, n: nat)
    requires n <= |actions|
  {
    exists i :: k < i < n && actions[i].StartForeign? && forall j :: i < j < n ==> !Removes(actions[j])
  }

  predicate Removes(a: Action) {
    a.RemoveContainer? || ((a.Rollback? || a.Destroy?) && a.container)
  }

  /** Where a run that saw no container comes from, and what became of containers since. */
  predicate Looked(s: Sys, a: Action, s': Sys, r: nat) {
    if At(s, r, Inspected(false))
      then (s'.container.NoContainer? <==> !a.StartForeign? && (s.container.NoContainer? || Removes(a)))
    else a == Inspect(r) && s'.container.NoContainer?
  }

  lemma PreparingLooked(conf: Conf, s: Sys, a: Action, r: nat)
    requires Exclusive(s) && Preparing(conf, s, a).Some? && At(Preparing(conf, s, a).value, r, Inspected(false))
    ensures Looked(s, a, Preparing(conf, s, a).value, r)
  {
    if r in s.runs && InLock(s.runs[r]) { ActsAlone(conf, s, a, r); }
  }

  lemma StartingLooked(conf: Conf, s: Sys, a: Action, r: nat)
    requires Exclusive(s) && Starting(conf, s, a).Some?
    ensures !At(Starting(conf, s, a).value, r, Inspected(false))
  {
    if r in s.runs && InLock(s.runs[r]) { ActsAlone(conf, s, a, r); }
  }

  lemma EndingLooked(conf: Conf, s: Sys, a: Action, r: nat)
    requires Ending(conf, s, a).Some? && At(Ending(conf, s, a).value, r, Inspected(false))
    ensures Looked(s, a, Ending(conf, s, a).value, r)
  {
  }

  lemma InspectedStep(conf: Conf, s: Sys, a: Action, s': Sys, r: nat)
    requires Exclusive(s) && Next(conf, s, a) == Some(s') && At(s', r, Inspected(false))
    ensures Looked(s, a, s', r)
  {
    if Preparing(conf, s, a).Some? {
      PreparingLooked(conf, s, a, r);
    } else if Starting(conf, s, a).Some? {
      StartingLooked(conf, s, a, r);
    } else {
      EndingLooked(conf, s, a, r);
    }
  }

  lemma HoldsLock(conf: Conf, states: seq<Sys>, actions: seq<Action>, n: nat, r: nat)
    requires Behaviour(conf, states, actions) && Initial(states[0]) && n < |states| &&
      At(states[n], r, Inspected(false))
    ensures n > 0 && states[n].lock == Some(r)
  {
    AlwaysExclusive(conf, states, actions, n);
  }

  lemma LookedAt(conf: Conf, states: seq<Sys>, actions: seq<Action>, n: nat, r: nat)
    requires Behaviour(conf, states, actions) && Initial(states[0]) && 0 < n < |states| &&
      At(states[n], r, Inspected(false))
    ensures Looked(states[n - 1], actions[n - 1], states[n], r)
  {
    AlwaysExclusive(conf, states, actions, n - 1);
    InspectedStep(conf, states[n - 1], actions[n - 1], states[n], r);
  }

  /** There is no container now exactly when none came since act k. */
  ghost predicate NoneSince(s: Sys, actions: seq<Action>, k: nat, n: nat)
    requires n <= |actions|
  {
    s.container.NoContainer? <==> !ForeignSince(actions, k, n)
  }

  lemma NoneSinceNext(s: Sys, s': Sys, actions: seq<Action>, k: nat, n: nat, r: nat)
    requires k < n < |actions| && NoneSince(s, actions, k, n)
    requires At(s, r, Inspected(false)) && Looked(s, actions[n], s', r)
    ensures NoneSince(s', actions, k, n + 1)
  {
    ForeignNext(actions, k, n);
  }

  lemma NoneSinceInspect(s: Sys, s': Sys, actions: seq<Action>, k: nat, r: nat)
    requires k < |actions| && !At(s, r, Inspected(false)) && Looked(s, actions[k], s', r)
    ensures actions[k] == Inspect(r) && NoneSince(s', actions, k, k + 1)
  {
  }

  /** What act i did to a run that has seen no container is accounted for. */
  predicate LooksAt(states: seq<Sys>, actions: seq<Action>, i: nat, r: nat)
    requires i < |actions| && i + 1 < |states|
  {
    At(states[i + 1], r, Inspected(false)) ==>
      Looked(states[i], actions[i], states[i + 1], r) && states[i + 1].lock == Some(r)
  }

  ghost predicate LooksAlong(states: seq<Sys>, actions: seq<Action>, n: nat, r: nat)
    requires n <= |actions| && n < |states|
  {
    !At(states[0], r, Inspected(false)) && forall i :: 0 <= i < n ==> LooksAt(states, actions, i, r)
  }

  lemma AlwaysLooksAt(conf: Conf, states: seq<Sys>, actions: seq<Action>, i: nat, r: nat)
    requires Behaviour(conf, states, actions) && Initial(states[0]) && i < |actions|
    ensures LooksAt(states, actions, i, r)
  {
    if At(states[i + 1], r, Inspected(false)) {
      HoldsLock(conf, states, actions, i + 1, r);
      LookedAt(conf, states, actions, i + 1, r);
    }
  }

  lemma AlwaysLooks(conf: Conf, states: seq<Sys>, actions: seq<Action>, n: nat, r: nat)
    requires Behaviour(conf, states, actions) && Initial(states[0]) && n < |states|
    ensures LooksAlong(states, actions, n, r)
  {
    forall i | 0 <= i < n ensures LooksAt(states, actions, i, r) {
      AlwaysLooksAt(conf, states, actions, i, r);
    }
  }

  lemma {:induction false} SinceInspect(states: seq<Sys>, actions: seq<Action>, n: nat, r: nat) returns (k: nat)
    requires n <= |actions| && n < |states| && LooksAlong(states, actions, n, r) && At(states[n], r, Inspected(false))
    ensures k < n && actions[k] == Inspect(r) && NoneSince(states[n], actions, k, n)
    ensures forall j :: k < j <= n ==> states[j].lock == Some(r)
  {
    assert LooksAt(states, actions, n - 1, r);
    if At(states[n - 1], r, Inspected(false)) {
      k := SinceInspect(states, actions, n - 1, r);
      NoneSinceNext(states[n - 1], states[n], actions, k, n - 1, r);
    } else {
      k := n - 1;
      NoneSinceInspect(states[n - 1], states[n], actions, k, r);
    }
  }

  /** A run that saw no container: when it looked, and exactly when there is none now. */
  lemma ContainerSinceInspect(conf: Conf, states: seq<Sys>, actions: seq<Action>, n: nat, r: nat) returns (k: nat)
    requires Behaviour(conf, states, actions) && Initial(states[0]) && n < |states| &&
      At(states[n], r, Inspected(false))
    ensures k < n && actions[k] == Inspect(r) && NoneSince(states[n], actions, k, n)
    ensures forall j :: k < j <= n ==> states[j].lock == Some(r)
  {
    AlwaysLooks(conf, states, actions, n, r);
    k := SinceInspect(states, actions, n, r);
  }

  lemma ForeignNext(actions: seq<Action>, k: nat, n: nat)
    requires k < n < |actions|
    ensures ForeignSince(actions, k, n + 1) <==>
      actions[n].StartForeign? || (ForeignSince(actions, k, n) && !Removes(actions[n]))
  {
    if ForeignSince(actions, k, n) && !Removes(actions[n]) {
      var i :| k < i < n && actions[i].StartForeign? && forall j :: i < j < n ==> !Removes(actions[j]);
      assert forall j :: i < j < n + 1 ==> !Removes(actions[j]);
    }
    if ForeignSince(actions, k, n + 1) && !actions[n].StartForeign? {
      var i :| k < i < n + 1 && actions[i].StartForeign? && forall j :: i < j < n + 1 ==> !Removes(actions[j]);
      assert i < n && forall j :: i < j < n ==> !Removes(actions[j]);
    }
  }

  /**
   A store is begun only in an absent or empty directory, by a run that had seen no container; and no container is there
   exactly when none was started by others, and left, since the run looked.
   */
  lemma BegunOnlyWhereBare(conf: Conf, states: seq<Sys>, actions: seq<Action>, n: nat) returns (k: nat)
    requires Behaviour(conf, states, actions) && Initial(states[0]) && n < |actions| && actions[n].Claim?
    ensures Bare(states[n].root)
    ensures k < n && actions[k] == Inspect(actions[n].r) && NoneSince(states[n], actions, k, n)
  {
    assert Next(conf, states[n], actions[n]) == Some(states[n + 1]);
    k := ContainerSinceInspect(conf, states, actions, n, actions[n].r);
  }

  /**
   With losses only, and no container started by others while a run is inside the lock, nothing is ever created again.
   */
  lemma NothingIsRecreated(conf: Conf, states: seq<Sys>, actions: seq<Action>, n: nat)
    requires Behaviour(conf, states, actions) && Initial(states[0]) && OnlyLosses(states, actions) && n < |actions|
    requires forall i :: 0 <= i < n && actions[i].StartForeign? ==> states[i].lock.None?
    requires states[n].armed
    ensures !CreatesStore(actions[n])
  {
    if CreatesStore(actions[n]) {
      var s, a := states[n], actions[n];
      assert Next(conf, s, a) == Some(states[n + 1]);
      LossesRecreateNothing(conf, states, actions, n, a);
      NoContainerSlipsIn(conf, states, actions, n, a.r);
    }
  }

  lemma NoContainerSlipsIn(conf: Conf, states: seq<Sys>, actions: seq<Action>, n: nat, r: nat)
    requires Behaviour(conf, states, actions) && Initial(states[0]) && n < |states| &&
      At(states[n], r, Inspected(false))
    requires forall i :: 0 <= i < n && actions[i].StartForeign? ==> states[i].lock.None?
    ensures states[n].container.NoContainer?
  {
    var k := ContainerSinceInspect(conf, states, actions, n, r);
  }
}
