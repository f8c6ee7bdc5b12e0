/** What every step of the custody protocol keeps when nothing outside the runs touches the directory. */
module CustodyUndisturbed {
  import opened Strings
  import opened CustodyTree
  import opened MinIOCustody
  import opened CustodyProtocol

  /** The tree is bare, half initialised, or a record with its own marker. */
  predicate Kind(root: Root, owner: string) {
    Bare(root) || Partial(root) || Recorded(root, owner)
  }

  function RecordOf(root: Root, owner: string): Custody
    requires Recorded(root, owner)
  {
    root.dir.record.text.custody
  }

  /** How far the run that holds the lock has brought the tree. */
  predicate Placed(conf: Conf, root: Root, r: nat, pc: Pc) {
    match pc
    case Claimed(c) => First(conf, r, c) && root == Stage(c, 1)
    case DataMade(c) => First(conf, r, c) && root == Stage(c, 2)
    case MarkerTemp(c) => First(conf, r, c) && root == Stage(c, 3)
    case MarkerWritten(c) => First(conf, r, c) && root == Stage(c, 4)
    case RecordTemp(c) => First(conf, r, c) && root == Stage(c, 5)
    case RecordWritten(c) => First(conf, r, c) && root == Stage(c, 6)
    case Verified(c) => Owns(conf, root, r) && RecordOf(root, conf.owner) == c
    case Prepared(isNew, same) => Owns(conf, root, r) && same && isNew == (RecordOf(root, conf.owner).phase == PENDING)
    case Started(isNew, same) => Owns(conf, root, r) && same && isNew == (RecordOf(root, conf.owner).phase == PENDING)
    case BucketFound => Owns(conf, root, r) && HasBucket(root, conf.bucket(r))
    case CommitRead(c) =>
      Owns(conf, root, r) && HasBucket(root, conf.bucket(r)) && c == RecordOf(root, conf.owner).(phase := COMMITTED)
    case CommitTemp(c) =>
      Owns(conf, root, r) && HasBucket(root, conf.bucket(r)) && c == RecordOf(root, conf.owner).(phase := COMMITTED)
    case _ => true
  }

  predicate First(conf: Conf, r: nat, c: Custody) {
    c == FirstRecord(conf.owner, conf.bucket(r), c.id) && c.id != ""
  }

  predicate Owns(conf: Conf, root: Root, r: nat) {
    Recorded(root, conf.owner) && RecordOf(root, conf.owner).bucket == conf.bucket(r)
  }

  ghost predicate Undisturbed(conf: Conf, s: Sys) {
    && Exclusive(s)
    && Kind(s.root, conf.owner)
    && forall r :: r in s.runs && InLock(s.runs[r]) ==> Placed(conf, s.root, r, s.runs[r])
  }

  /** A record never goes away, never changes but from pending to committed, and starts out pending. */
  predicate Progress(before: Root, after: Root, owner: string) {
    && (Recorded(before, owner) ==> Recorded(after, owner))
    && (Recorded(before, owner) ==> Succeeds(RecordOf(before, owner), RecordOf(after, owner)))
    && (!Recorded(before, owner) && Recorded(after, owner) ==> RecordOf(after, owner).phase == PENDING)
  }

  predicate Succeeds(before: Custody, after: Custody) {
    after == before || after == before.(phase := COMMITTED)
  }

  lemma HolderPlaced(conf: Conf, s: Sys, s': Sys, r: nat, pc: Pc)
    requires Undisturbed(conf, s) && r in s.runs && InLock(s.runs[r])
    requires s'.runs == s.runs[r := pc] && s'.lock == if InLock(pc) then Some(r) else None
    requires Kind(s'.root, conf.owner) && (InLock(pc) ==> Placed(conf, s'.root, r, pc))
    ensures Undisturbed(conf, s')
  {
  }

  lemma PreparingStep(conf: Conf, s: Sys, a: Action)
    requires Undisturbed(conf, s) && Preparing(conf, s, a).Some?
    ensures Undisturbed(conf, Preparing(conf, s, a).value)
    ensures Progress(s.root, Preparing(conf, s, a).value.root, conf.owner)
  {
    if !a.Lock? {
      var s' := Preparing(conf, s, a).value;
      assert Placed(conf, s.root, a.r, s.runs[a.r]);
      PreparingPlaced(conf, s, a);
      HolderPlaced(conf, s, s', a.r, s'.runs[a.r]);
    }
  }

  lemma PreparingPlaced(conf: Conf, s: Sys, a: Action)
    requires !a.Lock? && Preparing(conf, s, a).Some? && Kind(s.root, conf.owner)
    requires a.r in s.runs && InLock(s.runs[a.r]) && s.lock == Some(a.r) && Placed(conf, s.root, a.r, s.runs[a.r])
    ensures var s' := Preparing(conf, s, a).value;
      && a.r in s'.runs && s'.runs == s.runs[a.r := s'.runs[a.r]] && s'.lock == s.lock
      && InLock(s'.runs[a.r]) && Placed(conf, s'.root, a.r, s'.runs[a.r])
      && Kind(s'.root, conf.owner) && Progress(s.root, s'.root, conf.owner)
  {
    if a.Adopt? {
      AdoptPlaced(conf, s, a.r);
    } else if a.TempRecord? || a.RenameRecord? || a.RenameMarker? || a.TempMarker? {
      WritingPlaced(conf, s, a);
    }
  }

  /** The two file writes of a first initialisation lead from stage to stage. */
  lemma WritingPlaced(conf: Conf, s: Sys, a: Action)
    requires a.TempRecord? || a.RenameRecord? || a.RenameMarker? || a.TempMarker?
    requires Preparing(conf, s, a).Some? && Placed(conf, s.root, a.r, s.runs[a.r])
    ensures var s' := Preparing(conf, s, a).value;
      && Placed(conf, s'.root, a.r, s'.runs[a.r])
      && Kind(s'.root, conf.owner) && Progress(s.root, s'.root, conf.owner)
  {
  }

  lemma AdoptPlaced(conf: Conf, s: Sys, r: nat)
    requires Preparing(conf, s, Adopt(r)).Some? && Kind(s.root, conf.owner)
    requires r in s.runs && Placed(conf, s.root, r, s.runs[r])
    ensures Placed(conf, s.root, r, Preparing(conf, s, Adopt(r)).value.runs[r])
  {
    if s.runs[r].Inspected? {
      assert !Bare(s.root) && !Partial(s.root);
    }
  }

  lemma StartingStep(conf: Conf, s: Sys, a: Action)
    requires Undisturbed(conf, s) && Starting(conf, s, a).Some?
    ensures Undisturbed(conf, Starting(conf, s, a).value)
    ensures Progress(s.root, Starting(conf, s, a).value.root, conf.owner)
  {
    var s' := Starting(conf, s, a).value;
    assert Placed(conf, s.root, a.r, s.runs[a.r]);
    StartingHolder(conf, s, a);
    StartingPlaced(conf, s, a);
    HolderPlaced(conf, s, s', a.r, s'.runs[a.r]);
  }

  lemma StartingHolder(conf: Conf, s: Sys, a: Action)
    requires Starting(conf, s, a).Some? && Exclusive(s)
    ensures var s' := Starting(conf, s, a).value;
      && a.r in s.runs && InLock(s.runs[a.r])
      && a.r in s'.runs && s'.runs == s.runs[a.r := s'.runs[a.r]]
      && s'.lock == (if InLock(s'.runs[a.r]) then Some(a.r) else None)
  {
  }

  lemma StartingPlaced(conf: Conf, s: Sys, a: Action)
    requires Starting(conf, s, a).Some? && Kind(s.root, conf.owner) && Placed(conf, s.root, a.r, s.runs[a.r])
    ensures var s' := Starting(conf, s, a).value;
      && (InLock(s'.runs[a.r]) ==> Placed(conf, s'.root, a.r, s'.runs[a.r]))
      && Kind(s'.root, conf.owner) && Progress(s.root, s'.root, conf.owner)
  {
    if a.MakeBucket? || a.TempCommit? || a.RenameCommit? {
      CommittingPlaced(conf, s, a);
    } else {
      assert Starting(conf, s, a).value.root == s.root;
    }
  }

  lemma CommittingPlaced(conf: Conf, s: Sys, a: Action)
    requires a.MakeBucket? || a.TempCommit? || a.RenameCommit?
    requires Starting(conf, s, a).Some? && Placed(conf, s.root, a.r, s.runs[a.r])
    ensures var s' := Starting(conf, s, a).value;
      && Placed(conf, s'.root, a.r, s'.runs[a.r])
      && Kind(s'.root, conf.owner) && Progress(s.root, s'.root, conf.owner)
  {
  }

  lemma EndingStep(conf: Conf, s: Sys, a: Action)
    requires Undisturbed(conf, s) && !a.Disturb? && Ending(conf, s, a).Some?
    ensures Undisturbed(conf, Ending(conf, s, a).value)
    ensures Progress(s.root, Ending(conf, s, a).value.root, conf.owner)
  {
    var s' := Ending(conf, s, a).value;
    if a.Write? {
      forall r | r in s'.runs && InLock(s'.runs[r])
        ensures Placed(conf, s'.root, r, s'.runs[r]) { WritePlaced(conf, s, a, r); }
    } else if a.Refuse? || a.FailStart? || a.FailLate? || (a.Rollback? && s.runs[a.r].locked) {
      HolderPlaced(conf, s, s', a.r, s'.runs[a.r]);
    }
  }

  /** A gateway writes only where its bucket is, so never into a store still being initialised. */
  lemma WritePlaced(conf: Conf, s: Sys, a: Action, r: nat)
    requires Undisturbed(conf, s) && a.Write? && Ending(conf, s, a).Some?
    requires r in s.runs && InLock(s.runs[r])
    ensures Placed(conf, Ending(conf, s, a).value.root, r, s.runs[r])
  {
    assert Placed(conf, s.root, r, s.runs[r]);
  }

  /** One step of any run, a crash and a removed container included. */
  lemma StepKeeps(conf: Conf, s: Sys, a: Action)
    requires Undisturbed(conf, s) && !a.Disturb? && Next(conf, s, a).Some?
    ensures Undisturbed(conf, Next(conf, s, a).value)
    ensures Progress(s.root, Next(conf, s, a).value.root, conf.owner)
  {
    if Preparing(conf, s, a).Some? {
      PreparingStep(conf, s, a);
    } else if Starting(conf, s, a).Some? {
      StartingStep(conf, s, a);
    } else {
      EndingStep(conf, s, a);
    }
  }

  ghost predicate Calm(actions: seq<Action>) {
    forall i :: 0 <= i < |actions| ==> !actions[i].Disturb?
  }

  /**
   Over a whole undisturbed behaviour, at every state: a record has a pending marker equal to it up to the phase, a
   committed one has its bucket, and from then on it keeps its ID and at most moves from pending to committed.
   */
  lemma {:induction false} CustodyEndures(conf: Conf, states: seq<Sys>, actions: seq<Action>, i: nat, j: nat)
    requires Behaviour(conf, states, actions) && Calm(actions)
    requires Initial(states[0]) && Kind(states[0].root, conf.owner)
    requires i <= j < |states|
    ensures Undisturbed(conf, states[i]) && Undisturbed(conf, states[j])
    ensures Recorded(states[i].root, conf.owner) ==> Progress(states[i].root, states[j].root, conf.owner)
    decreases j
  {
    if j > 0 {
      CustodyEndures(conf, states, actions, if i < j then i else j - 1, j - 1);
      assert Next(conf, states[j - 1], actions[j - 1]) == Some(states[j]);
      StepKeeps(conf, states[j - 1], actions[j - 1]);
    }
  }

  /** Wherever a run stops, the next preflight finds exactly one of three things, and knows which. */
  lemma CrashLeavesOneOfThree(conf: Conf, states: seq<Sys>, actions: seq<Action>, n: nat, bucket: string)
    requires Behaviour(conf, states, actions) && Calm(actions)
    requires Initial(states[0]) && Kind(states[0].root, conf.owner) && n < |states|
    ensures var root := states[n].root;
      match Preflight(root, conf.owner, bucket, false)
      case Initialises => Bare(root) && !Partial(root) && !Recorded(root, conf.owner)
      case Adopts =>
        Recorded(root, conf.owner) && RecordOf(root, conf.owner).bucket == bucket && !Bare(root) && !Partial(root)
      case Refuses =>
        !Bare(root) && (Partial(root) || (Recorded(root, conf.owner) && RecordOf(root, conf.owner).bucket != bucket))
  {
    CustodyEndures(conf, states, actions, n, n);
    KindsDecide(states[n].root, conf.owner, bucket, false);
  }
}
