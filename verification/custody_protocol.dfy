/**
 Any number of runs, crashes and disturbances around one custody directory. Every system call that changes the tree or a
 container is one step; a run may stop after any of them.
 */
module CustodyProtocol {
  import opened Strings
  import opened CustodyTree
  import opened MinIOCustody

  /** The one service identity, and the bucket each run is configured with. */
  datatype Conf = Conf(owner: string, bucket: nat -> string)

  datatype Container = NoContainer | Foreign(owned: bool) | Of(run: nat)

  datatype Pc =
    | Locked
    | Inspected(present: bool)
    | Claimed(c: Custody)
    | DataMade(c: Custody)
    | MarkerTemp(c: Custody)
    | MarkerWritten(c: Custody)
    | RecordTemp(c: Custody)
    | RecordWritten(c: Custody)
    | Verified(seen: Custody)
    | Prepared(isNew: bool, same: bool) // same: the record read last is the record verified
    | Started(isNew: bool, same: bool)
    | BucketFound
    | CommitRead(c: Custody)
    | CommitTemp(c: Custody)
    | Committed_
    | Exposed
    | Serving
    | RollingBack(locked: bool)
    | Ended
    | Crashed

  datatype Sys = Sys(
    root: Root,
    container: Container,
    lock: Option<nat>,
    runs: map<nat, Pc>,
    gateways: set<nat>, // runs whose gateway container has been started and not torn down
    legacy: bool,
    // An object was written since a store was last begun, or the directory last bare with no container.
    armed: bool)

  datatype Action =
    | Lock(r: nat)
    | Inspect(r: nat)
    | Claim(r: nat, id: string)
    | MakeData(r: nat)
    | TempMarker(r: nat)
    | RenameMarker(r: nat)
    | TempRecord(r: nat)
    | RenameRecord(r: nat)
    | Adopt(r: nat)
    | Reread(r: nat)
    | StartContainer(r: nat)
    | FindBucket(r: nat)
    | MakeBucket(r: nat)
    | ReadCommit(r: nat)
    | TempCommit(r: nat)
    | RenameCommit(r: nat)
    | StartGateway(r: nat)
    | Finish(r: nat)
    | Write(r: nat, name: string)
    | Refuse(r: nat)
    | FailStart(r: nat)
    | FailLate(r: nat)
    | Rollback(r: nat, container: bool, gateway: bool) // what the teardown manages to remove
    | Destroy(r: nat, container: bool, gateway: bool)
    | Crash(r: nat)
    | RemoveContainer
    | StartForeign(owned: bool)
    | Disturb(next: Root)

  // ----- Program points

  /** Between taking the lock and giving it back. */
  predicate InLock(pc: Pc) {
    !(pc.Serving? || pc == RollingBack(false) || pc.Ended? || pc.Crashed?)
  }

  predicate Initialising(pc: Pc) {
    pc.Claimed? || pc.DataMade? || pc.MarkerTemp? || pc.MarkerWritten? || pc.RecordTemp? || pc.RecordWritten?
  }

  /** A run that may still create a store or its bucket on what its preflight verified. */
  predicate Creating(pc: Pc) {
    || Initialising(pc)
    || (pc.Verified? && pc.seen.phase == PENDING)
    || pc == Prepared(true, true)
    || pc == Started(true, true)
  }

  /** Still on the way to a gateway. */
  predicate BeforeGateway(pc: Pc) {
    InLock(pc) && !pc.Exposed? && !pc.RollingBack?
  }

  predicate At(s: Sys, r: nat, pc: Pc) {
    r in s.runs && s.runs[r] == pc
  }

  function Go(s: Sys, r: nat, pc: Pc): Sys {
    s.(runs := s.runs[r := pc])
  }

  function Free(s: Sys, r: nat, pc: Pc): Sys {
    s.(runs := s.runs[r := pc], lock := None)
  }

  /** A teardown may fail on either container, and may find another run's under the shared name. */
  function TornDown(s: Sys, r: nat, container: bool, gateway: bool): Sys {
    s.(container := if container then NoContainer else s.container,
       gateways := if gateway then s.gateways - {r} else s.gateways)
  }

  /** Nothing left to lose disarms. */
  function Settle(s: Sys): Sys {
    s.(armed := s.armed && !(Bare(s.root) && s.container.NoContainer?))
  }

  predicate HasBucket(root: Root, bucket: string) {
    Runtime.HasBucket(root, bucket)
  }

  function WithObject(root: Root, bucket: string, name: string): Root
    requires HasBucket(root, bucket)
  {
    var data := root.dir.data;
    RootDir(root.dir.(data := data.(buckets := data.buckets[bucket := data.buckets[bucket] + {name}])))
  }

  /** A record and marker that would let a run treat the store as a pending one of its own. */
  predicate PendingPair(root: Root) {
    && DirOf(root).Some?
    && var dir := DirOf(root).value;
    && ReadFile(dir.record).Contents? && ReadFile(dir.record).text.Json?
    && ReadFile(dir.record).text.custody.phase == PENDING
    && dir.data.DataDir?
    && ReadFile(dir.data.marker) == ReadFile(dir.record)
  }

  // ----- Steps

  function Preparing(conf: Conf, s: Sys, a: Action): Option<Sys> {
    match a
    case Lock(r) =>
      if r !in s.runs && s.lock.None? then Some(s.(lock := Some(r), runs := s.runs[r := Locked])) else None
    case Inspect(r) =>
      if At(s, r, Locked) && !s.legacy && s.container != Foreign(false)
      then Some(Go(s, r, Inspected(!s.container.NoContainer?))) else None
    case Claim(r, id) =>
      if At(s, r, Inspected(false)) && Bare(s.root) && id != ""
      then Some(Go(s.(root := RootDir(EMPTY_DIR), armed := false), r,
        Claimed(FirstRecord(conf.owner, conf.bucket(r), id)))) else None
    case MakeData(r) =>
      if r in s.runs && s.runs[r].Claimed? && DirOf(s.root).Some? && DirOf(s.root).value.data.NoData?
      then Some(Go(s.(root := SetDir(s.root, DirOf(s.root).value.(data := DataDir(NoFile, map[], 0)))), r,
        DataMade(s.runs[r].c))) else None
    case TempMarker(r) =>
      if r in s.runs && s.runs[r].DataMade? && HasDir(s.root, MarkerPath)
      then Some(Go(s.(root := AddTemp(s.root, MarkerPath)), r, MarkerTemp(s.runs[r].c))) else None
    case RenameMarker(r) =>
      if r in s.runs && s.runs[r].MarkerTemp? && CanRename(s.root, MarkerPath)
      then Some(Go(s.(root := Rename(s.root, MarkerPath, Json(s.runs[r].c))), r, MarkerWritten(s.runs[r].c))) else None
    case TempRecord(r) =>
      if r in s.runs && s.runs[r].MarkerWritten? && HasDir(s.root, RecordPath)
      then Some(Go(s.(root := AddTemp(s.root, RecordPath)), r, RecordTemp(s.runs[r].c))) else None
    case RenameRecord(r) =>
      if r in s.runs && s.runs[r].RecordTemp? && CanRename(s.root, RecordPath)
      then Some(Go(s.(root := Rename(s.root, RecordPath, Json(s.runs[r].c))), r, RecordWritten(s.runs[r].c))) else None
    case Adopt(r) =>
      if r !in s.runs then None
      else if s.runs[r].RecordWritten? then
        if Accepts(s.root, conf.owner, conf.bucket(r), Json(s.runs[r].c))
          then Some(Go(s, r, Verified(s.runs[r].c))) else None
      else if s.runs[r].Inspected? && ReadRecord(s.root).Contents? &&
        Accepts(s.root, conf.owner, conf.bucket(r), ReadRecord(s.root).text)
      then Some(Go(s, r, Verified(ReadRecord(s.root).text.custody))) else None
    case Reread(r) =>
      if r in s.runs && s.runs[r].Verified? && Runtime.Reread(s.root).Some?
      then
        var c := Runtime.Reread(s.root).value;
        Some(Go(s, r, Prepared(c.phase == PENDING, c == s.runs[r].seen)))
      else
        None
    case _ => None
  }

  function Starting(conf: Conf, s: Sys, a: Action): Option<Sys> {
    match a
    case StartContainer(r) =>
      if r in s.runs && s.runs[r].Prepared?
      then Some(Go(s.(container := Of(r)), r, Started(s.runs[r].isNew, s.runs[r].same))) else None
    case FindBucket(r) =>
      if r in s.runs && s.runs[r].Started? && HasBucket(s.root, conf.bucket(r)) then Some(Go(s, r, BucketFound))
      else None
    case MakeBucket(r) =>
      if r in s.runs && s.runs[r].Started? && s.runs[r].isNew && !HasBucket(s.root, conf.bucket(r))
        && Runtime.WithBucket(s.root, conf.bucket(r)).Some?
      then Some(Go(s.(root := Runtime.WithBucket(s.root, conf.bucket(r)).value), r, BucketFound)) else None
    case ReadCommit(r) =>
      if At(s, r, BucketFound) && Runtime.Reread(s.root).Some?
      then Some(Go(s, r, CommitRead(Runtime.Reread(s.root).value.(phase := COMMITTED)))) else None
    case TempCommit(r) =>
      if r in s.runs && s.runs[r].CommitRead? && HasDir(s.root, RecordPath)
      then Some(Go(s.(root := AddTemp(s.root, RecordPath)), r, CommitTemp(s.runs[r].c))) else None
    case RenameCommit(r) =>
      if r in s.runs && s.runs[r].CommitTemp? && CanRename(s.root, RecordPath)
      then Some(Go(s.(root := Rename(s.root, RecordPath, Json(s.runs[r].c))), r, Committed_)) else None
    case StartGateway(r) =>
      if At(s, r, Committed_) then Some(Go(s.(gateways := s.gateways + {r}), r, Exposed)) else None
    case Finish(r) => if At(s, r, Exposed) then Some(Free(s, r, Serving)) else None
    case _ => None
  }

  /** Failures, teardown, and what the rest of the world may do. */
  function Ending(conf: Conf, s: Sys, a: Action): Option<Sys> {
    match a
    case Refuse(r) =>
      if r in s.runs && (s.runs[r].Locked? || s.runs[r].Inspected? || Initialising(s.runs[r]) || s.runs[r].Verified?
        || (s.runs[r].Started? && !s.runs[r].isNew))
      then Some(Free(s, r, Ended)) else None
    case FailStart(r) => // the lock is released on the way out, before Init rolls back
      if r in s.runs && (s.runs[r].Prepared? || s.runs[r].Started? || s.runs[r].BucketFound? || s.runs[r].CommitRead?
        || s.runs[r].CommitTemp? || s.runs[r].Committed_?)
      then Some(Free(s, r, RollingBack(false))) else None
    case FailLate(r) => if At(s, r, Committed_) || At(s, r, Exposed) then Some(Go(s, r, RollingBack(true))) else None
    case Rollback(r, container, gateway) =>
      if r in s.runs && s.runs[r].RollingBack? then
        var after := TornDown(s, r, container, gateway);
        Some(Settle(if s.runs[r].locked then Free(after, r, Ended) else Go(after, r, Ended)))
      else
        None
    case Destroy(r, container, gateway) =>
      if At(s, r, Serving) || At(s, r, Ended) then Some(Settle(TornDown(s, r, container, gateway))) else None
    case Crash(r) =>
      if r in s.runs then
        Some(s.(runs := s.runs[r := Crashed], lock := if s.lock == Some(r) then None else s.lock))
      else
        None
    case Write(r, name) =>
      if r in s.gateways && s.container == Of(r) && HasBucket(s.root, conf.bucket(r))
      then Some(s.(root := WithObject(s.root, conf.bucket(r), name), armed := true)) else None
    case RemoveContainer => Some(Settle(s.(container := NoContainer)))
    case StartForeign(owned) => if s.container.NoContainer? then Some(s.(container := Foreign(owned))) else None
    case Disturb(next) => if PendingPair(next) ==> PendingPair(s.root) then Some(Settle(s.(root := next))) else None
    case _ => None
  }

  function Next(conf: Conf, s: Sys, a: Action): Option<Sys> {
    match Preparing(conf, s, a)
    case Some(s') => Some(s')
    case None =>
      match Starting(conf, s, a)
      case Some(s') => Some(s')
      case None => Ending(conf, s, a)
  }

  /** A behaviour: consecutive states joined by actions. */
  ghost predicate Behaviour(conf: Conf, states: seq<Sys>, actions: seq<Action>) {
    && |states| == |actions| + 1
    && forall i :: 0 <= i < |actions| ==> Next(conf, states[i], actions[i]) == Some(states[i + 1])
  }

  /** Whatever is on disk; no run under way, and no gateway of ours. */
  predicate Initial(s: Sys) {
    s.lock == None && s.runs == map[] && s.gateways == {} && !s.armed && !s.container.Of?
  }

  // ----- Invariants

  ghost predicate Exclusive(s: Sys) {
    forall r :: r in s.runs && InLock(s.runs[r]) ==> s.lock == Some(r)
  }

  /** A started gateway is attached to the container it was started with. */
  predicate Live(s: Sys) {
    s.container.Of? && s.container.run in s.gateways
  }

  /** What holds of the tree, the container and the gateways whichever run has the lock. */
  ghost predicate SharedSafe(s: Sys) {
    && (forall g :: g in s.gateways ==> g in s.runs && !BeforeGateway(s.runs[g]))
    && (s.armed || Live(s) ==> !PendingPair(s.root))
    && (s.armed ==> !(Bare(s.root) && s.container.NoContainer?))
  }

  /** What the run that has the lock can rely on. */
  predicate HolderSafe(s: Sys, pc: Pc) {
    && (Creating(pc) ==> !s.armed && !Live(s))
    && (pc == Inspected(false) || Initialising(pc) ==> !s.container.Of?)
    && (pc.CommitRead? || pc.CommitTemp? ==> pc.c.phase == COMMITTED)
    && (pc.Committed_? || pc.Exposed? ==> !PendingPair(s.root))
  }

  ghost predicate Safe(s: Sys) {
    && Exclusive(s)
    && SharedSafe(s)
    && forall r :: r in s.runs && InLock(s.runs[r]) ==> HolderSafe(s, s.runs[r])
  }

  /** Only the run with the lock moves inside it, so only its own obligations have to be shown. */
  lemma HolderMoves(s: Sys, s': Sys, r: nat, pc: Pc)
    requires Safe(s) && r in s.runs && InLock(s.runs[r])
    requires s'.runs == s.runs[r := pc] && s'.lock == if InLock(pc) then Some(r) else None
    requires SharedSafe(s') && (InLock(pc) ==> HolderSafe(s', pc))
    ensures Safe(s')
  {
  }

  lemma PreparingKeepsSafe(conf: Conf, s: Sys, a: Action)
    requires Safe(s) && Preparing(conf, s, a).Some?
    ensures Safe(Preparing(conf, s, a).value)
  {
    var s' := Preparing(conf, s, a).value;
    if !a.Lock? {
      assert InLock(s.runs[a.r]) && HolderSafe(s, s.runs[a.r]);
      PreparingShared(conf, s, a);
      HolderMoves(s, s', a.r, s'.runs[a.r]);
    }
  }

  lemma PreparingShared(conf: Conf, s: Sys, a: Action)
    requires SharedSafe(s) && Preparing(conf, s, a).Some? && !a.Lock?
    requires a.r in s.runs && InLock(s.runs[a.r]) && HolderSafe(s, s.runs[a.r]) && s.lock == Some(a.r)
    ensures var s' := Preparing(conf, s, a).value;
      && SharedSafe(s')
      && a.r in s'.runs && s'.runs == s.runs[a.r := s'.runs[a.r]] && s'.lock == s.lock
      && InLock(s'.runs[a.r]) && HolderSafe(s', s'.runs[a.r])
  {
    if a.Inspect? || a.Claim? || a.Adopt? || a.Reread? {
      PreflightShared(conf, s, a);
    }
  }

  lemma PreflightShared(conf: Conf, s: Sys, a: Action)
    requires a.Inspect? || a.Claim? || a.Adopt? || a.Reread?
    requires SharedSafe(s) && Preparing(conf, s, a).Some?
    requires a.r in s.runs && InLock(s.runs[a.r]) && HolderSafe(s, s.runs[a.r]) && s.lock == Some(a.r)
    ensures var s' := Preparing(conf, s, a).value;
      && SharedSafe(s')
      && a.r in s'.runs && s'.runs == s.runs[a.r := s'.runs[a.r]] && s'.lock == s.lock
      && InLock(s'.runs[a.r]) && HolderSafe(s', s'.runs[a.r])
  {
    if a.Adopt? && s.runs[a.r].Inspected? {
      AcceptedPending(s.root, conf.owner, conf.bucket(a.r));
    }
  }

  lemma AcceptedPending(root: Root, owner: string, bucket: string)
    requires ReadRecord(root).Contents? && Accepts(root, owner, bucket, ReadRecord(root).text)
    ensures ReadRecord(root).text.custody.phase == PENDING ==> PendingPair(root)
  {
    var c := ReadRecord(root).text.custody;
    assert c.phase == PENDING ==> root.dir.data.marker.text.custody == c;
  }

  lemma StartingKeepsSafe(conf: Conf, s: Sys, a: Action)
    requires Safe(s) && Starting(conf, s, a).Some?
    ensures Safe(Starting(conf, s, a).value)
  {
    assert InLock(s.runs[a.r]) && HolderSafe(s, s.runs[a.r]);
    StartingShared(conf, s, a);
    HolderMoves(s, Starting(conf, s, a).value, a.r, Starting(conf, s, a).value.runs[a.r]);
  }

  lemma StartingShared(conf: Conf, s: Sys, a: Action)
    requires SharedSafe(s) && Starting(conf, s, a).Some?
    requires a.r in s.runs && InLock(s.runs[a.r]) && HolderSafe(s, s.runs[a.r]) && s.lock == Some(a.r)
    ensures var s' := Starting(conf, s, a).value;
      && SharedSafe(s')
      && a.r in s'.runs && s'.runs == s.runs[a.r := s'.runs[a.r]]
      && s'.lock == (if InLock(s'.runs[a.r]) then Some(a.r) else None)
      && (InLock(s'.runs[a.r]) ==> HolderSafe(s', s'.runs[a.r]))
  {
    if a.RenameCommit? || a.TempCommit? || a.MakeBucket? || a.ReadCommit? {
      CommitShared(conf, s, a);
    }
  }

  lemma CommitShared(conf: Conf, s: Sys, a: Action)
    requires a.RenameCommit? || a.TempCommit? || a.MakeBucket? || a.ReadCommit?
    requires SharedSafe(s) && Starting(conf, s, a).Some?
    requires HolderSafe(s, s.runs[a.r])
    ensures SharedSafe(Starting(conf, s, a).value) &&
      HolderSafe(Starting(conf, s, a).value, Starting(conf, s, a).value.runs[a.r])
  {
    PairOnCommit(conf, s, a);
  }

  /** None of these steps can make a pending pair, and the last unmakes it. */
  lemma PairOnCommit(conf: Conf, s: Sys, a: Action)
    requires a.RenameCommit? || a.TempCommit? || a.MakeBucket? || a.ReadCommit?
    requires Starting(conf, s, a).Some? && (a.RenameCommit? ==> s.runs[a.r].c.phase == COMMITTED)
    ensures PendingPair(Starting(conf, s, a).value.root) ==> PendingPair(s.root) && !a.RenameCommit?
    ensures !Bare(Starting(conf, s, a).value.root)
  {
  }

  lemma EndingKeepsSafe(conf: Conf, s: Sys, a: Action)
    requires Safe(s) && Ending(conf, s, a).Some?
    ensures Safe(Ending(conf, s, a).value)
  {
    var s' := Ending(conf, s, a).value;
    if a.Refuse? || a.FailStart? || a.FailLate? {
      HolderMoves(s, s', a.r, s'.runs[a.r]);
    } else if a.Rollback? || a.Destroy? {
      TeardownKeepsSafe(conf, s, a);
    } else if a.Write? {
      WriteKeepsSafe(conf, s, a);
    } else if a.Disturb? {
      DisturbKeepsSafe(conf, s, a);
    }
  }

  lemma TeardownKeepsSafe(conf: Conf, s: Sys, a: Action)
    requires (a.Rollback? || a.Destroy?) && Safe(s) && Ending(conf, s, a).Some?
    ensures Safe(Ending(conf, s, a).value)
  {
    var s' := Ending(conf, s, a).value;
    if a.Rollback? && s.runs[a.r].locked {
      HolderMoves(s, s', a.r, Ended);
    }
  }

  lemma DisturbKeepsSafe(conf: Conf, s: Sys, a: Action)
    requires a.Disturb? && Safe(s) && Ending(conf, s, a).Some?
    ensures Safe(Ending(conf, s, a).value)
  {
  }

  lemma WriteKeepsSafe(conf: Conf, s: Sys, a: Action)
    requires a.Write? && Safe(s) && Ending(conf, s, a).Some?
    ensures Safe(Ending(conf, s, a).value)
  {
    var s' := Ending(conf, s, a).value;
    assert Live(s) && !PendingPair(s'.root);
    forall r | r in s'.runs && InLock(s'.runs[r])
      ensures HolderSafe(s', s'.runs[r]) { assert HolderSafe(s, s.runs[r]); }
  }

  /** Every reachable state is safe. */
  lemma {:induction false} AlwaysSafe(conf: Conf, states: seq<Sys>, actions: seq<Action>, n: nat)
    requires Behaviour(conf, states, actions) && Initial(states[0]) && n < |states|
    ensures Safe(states[n])
  {
    if n > 0 {
      AlwaysSafe(conf, states, actions, n - 1);
      var s, a := states[n - 1], actions[n - 1];
      assert Next(conf, s, a) == Some(states[n]);
      if Preparing(conf, s, a).Some? {
        PreparingKeepsSafe(conf, s, a);
      } else if Starting(conf, s, a).Some? {
        StartingKeepsSafe(conf, s, a);
      } else {
        EndingKeepsSafe(conf, s, a);
      }
    }
  }

  // ----- Where the promise ends

  function Last(states: seq<Sys>): Sys
    requires states != []
  {
    states[|states| - 1]
  }

  lemma Extend(conf: Conf, states: seq<Sys>, actions: seq<Action>, a: Action, next: Sys)
    returns (states': seq<Sys>, actions': seq<Action>)
    requires Behaviour(conf, states, actions) && Next(conf, Last(states), a) == Some(next)
    ensures Behaviour(conf, states', actions') && states'[0] == states[0] && Last(states') == next
  {
    states', actions' := states + [next], actions + [a];
  }

  /** A run that finds the lock free and a record it accepts adopts the store. */
  lemma Verifies(conf: Conf, states: seq<Sys>, actions: seq<Action>, r: nat, c: Custody)
    returns (states': seq<Sys>, actions': seq<Action>)
    requires Behaviour(conf, states, actions)
    requires var s := Last(states);
      && s.lock.None? && r !in s.runs && !s.legacy && s.container != Foreign(false)
      && ReadRecord(s.root) == Contents(Json(c)) && Accepts(s.root, conf.owner, conf.bucket(r), Json(c))
    ensures Behaviour(conf, states', actions') && states'[0] == states[0]
    ensures Last(states') == Last(states).(lock := Some(r), runs := Last(states).runs[r := Verified(c)])
  {
    var s := Last(states);
    var s1 := s.(lock := Some(r), runs := s.runs[r := Locked]);
    var s2 := s1.(runs := s.runs[r := Inspected(!s.container.NoContainer?)]);
    var s3 := s1.(runs := s.runs[r := Verified(c)]);
    states', actions' := Extend(conf, states, actions, Lock(r), s1);
    assert s1.runs[r := Inspected(!s.container.NoContainer?)] == s2.runs;
    states', actions' := Extend(conf, states', actions', Inspect(r), s2);
    assert s2.runs[r := Verified(c)] == s3.runs;
    states', actions' := Extend(conf, states', actions', Adopt(r), s3);
  }

  /** Undisturbed, it then starts the container. */
  lemma Starts(conf: Conf, states: seq<Sys>, actions: seq<Action>, r: nat, seen: Custody, c: Custody)
    returns (states': seq<Sys>, actions': seq<Action>)
    requires Behaviour(conf, states, actions)
    requires At(Last(states), r, Verified(seen)) && Runtime.Reread(Last(states).root) == Some(c)
    ensures Behaviour(conf, states', actions') && states'[0] == states[0]
    ensures Last(states') ==
      Last(states).(container := Of(r), runs := Last(states).runs[r := Started(c.phase == PENDING, c == seen)])
  {
    var s := Last(states);
    var s1 := s.(runs := s.runs[r := Prepared(c.phase == PENDING, c == seen)]);
    var s2 := s.(container := Of(r), runs := s.runs[r := Started(c.phase == PENDING, c == seen)]);
    states', actions' := Extend(conf, states, actions, Reread(r), s1);
    assert s1.runs[r := Started(c.phase == PENDING, c == seen)] == s2.runs;
    states', actions' := Extend(conf, states', actions', StartContainer(r), s2);
  }

  const SAMPLE_CONF := Conf("owner", r => "documents")
  const SAMPLE := Custody(2, "owner", "documents", "id", COMMITTED)
  const SAMPLE_PENDING := Custody(2, "owner", "documents", "id", PENDING)

  function SampleRoot(record: Custody, buckets: map<string, set<string>>, others: nat): Root {
    RootDir(Dir(Plain(Json(record)), DataDir(Plain(Json(SAMPLE_PENDING)), buckets, 0), others))
  }

  function SampleState(): Sys {
    Sys(SampleRoot(SAMPLE, map["documents" := {}], 0), NoContainer, None, map[], {}, false, false)
  }

  /** A run over a committed store as far as its container. */
  lemma SampleStarted() returns (states: seq<Sys>, actions: seq<Action>)
    ensures Behaviour(SAMPLE_CONF, states, actions) && states[0] == SampleState()
    ensures Last(states) == SampleState().(container := Of(0), lock := Some(0), runs := map[0 := Started(false, true)])
  {
    states, actions := [SampleState()], [];
    states, actions := Verifies(SAMPLE_CONF, states, actions, 0, SAMPLE);
    states, actions := Starts(SAMPLE_CONF, states, actions, 0, SAMPLE, SAMPLE);
  }

  function SampleGo(root: Root, pc: Pc): Sys {
    Sys(root, Of(0), Some(0), map[0 := pc], {}, false, false)
  }

  lemma SampleCommitting() returns (states: seq<Sys>, actions: seq<Action>)
    ensures Behaviour(SAMPLE_CONF, states, actions) && states[0] == SampleState()
    ensures Last(states) == SampleGo(SampleState().root, CommitRead(SAMPLE))
  {
    var root := SampleState().root;
    states, actions := SampleStarted();
    assert map[0 := Started(false, true)][0 := BucketFound] == map[0 := BucketFound];
    states, actions := Extend(SAMPLE_CONF, states, actions, FindBucket(0), SampleGo(root, BucketFound));
    assert map[0 := BucketFound][0 := CommitRead(SAMPLE)] == map[0 := CommitRead(SAMPLE)];
    states, actions := Extend(SAMPLE_CONF, states, actions, ReadCommit(0), SampleGo(root, CommitRead(SAMPLE)));
  }

  /** The same run to the end of its commit. */
  lemma SampleCommitted() returns (states: seq<Sys>, actions: seq<Action>)
    ensures Behaviour(SAMPLE_CONF, states, actions) && states[0] == SampleState()
    ensures Last(states) == SampleGo(SampleState().root, Committed_)
  {
    var root := SampleState().root;
    states, actions := SampleCommitting();
    var temp := SampleRoot(SAMPLE, map["documents" := {}], 1);
    assert map[0 := CommitRead(SAMPLE)][0 := CommitTemp(SAMPLE)] == map[0 := CommitTemp(SAMPLE)];
    states, actions := Extend(SAMPLE_CONF, states, actions, TempCommit(0), SampleGo(temp, CommitTemp(SAMPLE)));
    assert map[0 := CommitTemp(SAMPLE)][0 := Committed_] == map[0 := Committed_];
    states, actions := Extend(SAMPLE_CONF, states, actions, RenameCommit(0), SampleGo(root, Committed_));
  }

  lemma SampleWrite(s: Sys)
    requires s == Sys(SampleState().root, Of(0), None, map[0 := Serving], {0}, false, false)
    ensures Next(SAMPLE_CONF, s, Write(0, "object")) ==
      Some(s.(root := WithObject(s.root, "documents", "object"), armed := true))
  {
  }

  lemma SampleServing() returns (states: seq<Sys>, actions: seq<Action>)
    ensures Behaviour(SAMPLE_CONF, states, actions) && states[0] == SampleState()
    ensures Last(states) == Sys(SampleState().root, Of(0), None, map[0 := Serving], {0}, false, false)
  {
    var root := SampleState().root;
    states, actions := SampleCommitted();
    var exposed := SampleGo(root, Exposed).(gateways := {0});
    assert map[0 := Committed_][0 := Exposed] == map[0 := Exposed] && {} + {0} == {0};
    states, actions := Extend(SAMPLE_CONF, states, actions, StartGateway(0), exposed);
    assert map[0 := Exposed][0 := Serving] == map[0 := Serving];
    states, actions := Extend(SAMPLE_CONF, states, actions, Finish(0),
      Sys(root, Of(0), None, map[0 := Serving], {0}, false, false));
  }

  /** One whole Init on a committed store: the gateway serves, and an object is written. */
  lemma SampleServed() returns (states: seq<Sys>, actions: seq<Action>)
    ensures Behaviour(SAMPLE_CONF, states, actions) && states[0] == SampleState()
    ensures Last(states) ==
      Sys(WithObject(SampleState().root, "documents", "object"), Of(0), None, map[0 := Serving], {0}, false, true)
  {
    states, actions := SampleServing();
    var serving := Last(states);
    SampleWrite(serving);
    var full := WithObject(serving.root, "documents", "object");
    states, actions := Extend(SAMPLE_CONF, states, actions, Write(0, "object"), serving.(root := full, armed := true));
  }

  lemma SampleVerifiedAgain() returns (states: seq<Sys>, actions: seq<Action>)
    ensures Behaviour(SAMPLE_CONF, states, actions) && states[0] == SampleState()
    ensures var s := Last(states);
      s.armed && At(s, 1, Verified(SAMPLE)) && s.container == Of(0)
  {
    states, actions := SampleServed();
    states, actions := Verifies(SAMPLE_CONF, states, actions, 1, SAMPLE);
  }

  /**
   The record is read twice. If between the two reads it is overwritten with a pending one that does not even match the
   marker, and the bucket is lost, the run creates an empty bucket in a store that held objects.
   */
  lemma WindowBetweenReads() returns (states: seq<Sys>, actions: seq<Action>)
    ensures Behaviour(SAMPLE_CONF, states, actions) && Initial(states[0])
    ensures Last(states).armed && !PendingPair(Last(states).root)
    ensures Next(SAMPLE_CONF, Last(states), MakeBucket(1)).Some?
  {
    states, actions := SampleVerifiedAgain();
    var torn := SampleRoot(SAMPLE_PENDING.(id := "other"), map[], 0);
    assert !PendingPair(torn);
    states, actions := Extend(SAMPLE_CONF, states, actions, Disturb(torn), Last(states).(root := torn));
    states, actions := Starts(SAMPLE_CONF, states, actions, 1, SAMPLE, SAMPLE_PENDING.(id := "other"));
  }

  /** A failed start gives the lock back before it rolls back, so another run can be inside meanwhile. */
  lemma RollbackOutsideTheLock() returns (states: seq<Sys>, actions: seq<Action>)
    ensures Behaviour(SAMPLE_CONF, states, actions) && Initial(states[0])
    ensures At(Last(states), 0, RollingBack(false)) && 1 in Last(states).runs && InLock(Last(states).runs[1])
    ensures Last(states).container == Of(0)
  {
    states, actions := SampleStarted();
    var s := Last(states).(lock := None, runs := map[0 := RollingBack(false)]);
    assert map[0 := Started(false, true)][0 := RollingBack(false)] == s.runs;
    states, actions := Extend(SAMPLE_CONF, states, actions, FailStart(0), s);
    states, actions := Extend(SAMPLE_CONF, states, actions, Lock(1), s.(lock := Some(1), runs := s.runs[1 := Locked]));
  }

  /** The container goes, and another run looks for one. */
  lemma SampleLooked() returns (states: seq<Sys>, actions: seq<Action>)
    ensures Behaviour(SAMPLE_CONF, states, actions) && states[0] == SampleState()
    ensures var s := Last(states); s.armed && s.container.NoContainer? && At(s, 1, Inspected(false))
  {
    states, actions := SampleServed();
    var s1 := Last(states).(container := NoContainer);
    assert !Bare(s1.root);
    states, actions := Extend(SAMPLE_CONF, states, actions, RemoveContainer, s1);
    var s2 := s1.(lock := Some(1), runs := s1.runs[1 := Locked]);
    states, actions := Extend(SAMPLE_CONF, states, actions, Lock(1), s2);
    states, actions := Extend(SAMPLE_CONF, states, actions, Inspect(1), s2.(runs := s2.runs[1 := Inspected(false)]));
  }

  /**
   A container that others start after the run has looked is not seen: with the directory lost as well, a store is
   begun.
   */
  lemma ContainerSlipsIn() returns (states: seq<Sys>, actions: seq<Action>)
    ensures Behaviour(SAMPLE_CONF, states, actions) && Initial(states[0])
    ensures Last(states).armed && Last(states).container == Foreign(true)
    ensures Next(SAMPLE_CONF, Last(states), Claim(1, "new")).Some?
  {
    states, actions := SampleLooked();
    var s := Last(states).(container := Foreign(true));
    states, actions := Extend(SAMPLE_CONF, states, actions, StartForeign(true), s);
    states, actions := Extend(SAMPLE_CONF, states, actions, Disturb(NoRoot), s.(root := NoRoot));
  }
}
