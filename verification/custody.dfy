/** One run's custody work: file-system calls in program order, any of which may fail. */
module MinIOCustody {
  import opened Strings
  import opened CustodyTree

  datatype MountType = Bind | Volume
  datatype Mount = Mount(destination: string, kind: MountType, source: string, writable: bool)

  /** The first mount at /data is a writable bind of the owned directory. */
  ghost predicate MountOwned(mounts: seq<Mount>, data: string) {
    exists i: nat ::
      && i < |mounts| && mounts[i] == Mount("/data", Bind, data, true)
      && forall j :: 0 <= j < i ==> mounts[j].destination != "/data"
  }

  method ValidateMinIOMount(mounts: seq<Mount>, data: string) returns (ok: bool)
    ensures ok <==> exists i: nat ::
      && i < |mounts| && mounts[i] == Mount("/data", Bind, data, true)
      && forall j :: 0 <= j < i ==> mounts[j].destination != "/data"
  {
    for i := 0 to |mounts|
      invariant forall j :: 0 <= j < i ==> mounts[j].destination != "/data"
    {
      if mounts[i].destination == "/data" {
        return mounts[i].kind == Bind && mounts[i].source == data && mounts[i].writable;
      }
    }
    return false;
  }

  datatype BucketOutcome = BucketReady | BucketMissing | NotReady

  class Runtime {
    var root: Root
    var locked: bool
    var newStore: bool
    // Every tree the host has shown, oldest first: a crash leaves one of them.
    ghost var history: seq<Root>
    // Which system calls succeed.
    const succeeds: nat -> bool
    var calls: nat

    ghost predicate Valid()
      reads this
    {
      history != [] && history[|history| - 1] == root
    }

    ghost predicate Reliable() {
      forall n :: succeeds(n)
    }

    method Call() returns (ok: bool)
      modifies this`calls
      ensures ok == succeeds(old(calls))
    {
      ok := succeeds(calls);
      calls := calls + 1;
    }

    method Show(next: Root)
      modifies this`root, this`history
      ensures Valid() && root == next && history == old(history) + [next]
    {
      root := next;
      history := history + [next];
    }

    method ClaimEmptyCustodyRoot() returns (ok: bool)
      requires Valid()
      modifies this`root, this`history, this`calls
      ensures Valid()
      ensures ok ==> Bare(old(root)) && root == Stage1()
      ensures !ok ==> root == old(root)
      ensures Reliable() ==> (ok <==> Bare(old(root)))
      ensures history == old(history) || (history == old(history) + [Stage1()] && old(root) == NoRoot)
    {
      var made := Call();
      if !made {
        return false;
      }
      if root.NoRoot? {
        Show(RootDir(EMPTY_DIR));
        return true;
      }
      var stated := Call();
      if !stated || !root.RootDir? {
        return false;
      }
      var read := Call();
      if !read {
        return false;
      }
      return root.dir == EMPTY_DIR;
    }

    static function Stage1(): Root {
      RootDir(EMPTY_DIR)
    }

    /** Success is one rename; a failure leaves the old tree, a temporary file, or the renamed file unsynced. */
    method WriteCustodyRecord(at: Path, text: Text) returns (ok: bool)
      requires Valid()
      modifies this`root, this`history, this`calls
      ensures Valid() && old(history) <= history
      ensures !HasDir(old(root), at) ==> !ok && history == old(history)
      ensures HasDir(old(root), at) ==>
        var temp := AddTemp(old(root), at);
        && (ok ==> CanRename(temp, at) && root == Rename(temp, at, text))
        && forall t :: t in history[|old(history)|..] ==>
          t == old(root) || t == temp || (CanRename(temp, at) && t == Rename(temp, at, text))
      ensures Reliable() && HasDir(old(root), at) && !FileAt(old(root), at).Unreadable? ==> ok
    {
      if !HasDir(root, at) {
        return false;
      }
      var created := Call();
      if !created {
        return false;
      }
      ghost var before := root;
      Show(AddTemp(root, at));
      var written := Call();
      var renamed := false;
      if written {
        renamed := Call();
        renamed := renamed && CanRename(root, at);
      }
      if renamed {
        Show(Rename(root, at, text));
        ok := Call();
      } else {
        var removed := Call();
        if removed {
          Show(SetTemps(root, at, Temps(root, at) - 1));
          assert root == before;
        }
        ok := false;
      }
    }

    /** The checks of a record in hand; they only read. */
    method Check(owner: string, bucket: string, record: Text) returns (ok: bool)
      modifies this`calls
      ensures ok ==> Accepts(root, owner, bucket, record)
      ensures Reliable() ==> (ok <==> Accepts(root, owner, bucket, record))
    {
      if record.NotJson? {
        return false;
      }
      var custody := record.custody;
      if custody.bucket != bucket {
        return false;
      }
      if custody.version != 2 || custody.owner != owner || custody.id == "" ||
        (custody.phase != PENDING && custody.phase != COMMITTED) {
        return false;
      }
      var stated := Call();
      if !stated || !root.RootDir? {
        return false;
      }
      if !root.dir.data.DataDir? || root.dir.record.NoFile? || root.dir.record.Link? {
        return false;
      }
      if root.dir.data.marker.NoFile? || root.dir.data.marker.Link? {
        return false;
      }
      var read := Call();
      if !read || root.dir.data.marker.Unreadable? {
        return false;
      }
      var marker := root.dir.data.marker.text;
      if marker.NotJson? {
        return false;
      }
      var actual := marker.custody;
      if actual.phase != PENDING {
        return false;
      }
      actual := actual.(phase := custody.phase);
      return actual == custody;
    }

    /** The directories of a first initialisation. */
    method MakeDirectories(ghost c: Custody) returns (ok: bool)
      requires Valid() && Bare(root)
      modifies this`root, this`history, this`calls
      ensures Valid() && old(history) <= history
      ensures ok ==> root == Stage(c, 2)
      ensures Reliable() ==> ok
      ensures forall t :: t in history[|old(history)|..] ==> exists k :: 1 <= k <= 2 && t == Stage(c, k)
    {
      ok := ClaimEmptyCustodyRoot();
      if !ok {
        return;
      }
      assert root == Stage(c, 1);
      ok := Call();
      if !ok {
        return;
      }
      Show(RootDir(root.dir.(data := DataDir(NoFile, map[], 0))));
      assert root == Stage(c, 2);
    }

    /** The four writes of a first initialisation, each leaving the next stage. */
    method Initialise(c: Custody) returns (ok: bool)
      requires Valid() && Bare(root)
      modifies this`root, this`history, this`calls
      ensures Valid() && old(history) <= history
      ensures ok ==> root == Stage(c, 6)
      ensures Reliable() ==> ok
      ensures forall t :: t in history[|old(history)|..] ==> exists k :: 1 <= k <= 6 && t == Stage(c, k)
    {
      ok := MakeDirectories(c);
      if !ok {
        return;
      }
      ghost var h2 := history;
      ok := WriteCustodyRecord(MarkerPath, Json(c));
      ghost var h3 := history;
      assert AddTemp(Stage(c, 2), MarkerPath) == Stage(c, 3);
      assert Rename(Stage(c, 3), MarkerPath, Json(c)) == Stage(c, 4);
      assert history[|old(history)|..] == h2[|old(history)|..] + history[|h2|..];
      if !ok {
        return;
      }
      ok := WriteCustodyRecord(RecordPath, Json(c));
      assert AddTemp(Stage(c, 4), RecordPath) == Stage(c, 5);
      assert Rename(Stage(c, 5), RecordPath, Json(c)) == Stage(c, 6);
      assert history[|old(history)|..] == h3[|old(history)|..] + history[|h3|..];
      if !ok {
        return;
      }
      ok := Call(); // the parent directory is synced
    }

    /**
     Adopts what agrees, initialises what is bare, refuses the rest. Only the initialise branch writes, and every tree
     it shows is one of the six stages of a first initialisation.
     */
    method EnsureMinIOCustody(owner: string, bucket: string, present: bool, id: string) returns (ok: bool)
      requires Valid() && id != ""
      modifies this`root, this`history, this`calls
      ensures Valid() && old(history) <= history
      ensures ok ==> Preflight(old(root), owner, bucket, present) != Refuses && Reread(root).Some?
      ensures Reliable() ==> (ok <==> Preflight(old(root), owner, bucket, present) != Refuses)
      ensures Preflight(old(root), owner, bucket, present) != Initialises ==>
        root == old(root) && history == old(history)
      ensures Preflight(old(root), owner, bucket, present) == Initialises ==>
        var c := FirstRecord(owner, bucket, id);
        && (ok ==> root == Stage(c, 6))
        && forall t :: t in history[|old(history)|..] ==> exists k :: 1 <= k <= 6 && t == Stage(c, k)
    {
      var read := Call();
      var found := ReadRecord(root);
      if !read || found.Failed? {
        return false;
      }
      var record: Text;
      if found.Missing? {
        if present || !Bare(root) {
          return false;
        }
        var custody := FirstRecord(owner, bucket, id);
        record := Json(custody);
        ok := Initialise(custody);
        if !ok {
          return;
        }
      } else {
        record := found.text;
      }
      ok := Check(owner, bucket, record);
    }

    /**
     Lock, legacy check, container and mount, then custody: the lock is held afterwards exactly on success, and the
     store counts as new exactly when the record read last is pending.
     */
    method PrepareMinIOData(owner: string, bucket: string, id: string, acquired: bool, legacy: bool,
                            existing: Option<seq<Mount>>, data: string)
      returns (ok: bool)
      requires Valid() && !locked && id != ""
      modifies this
      ensures Valid() && ok == locked
      ensures ok ==> acquired && !legacy && Preflight(old(root), owner, bucket, existing.Some?) != Refuses
      ensures ok ==> existing.Some? ==> MountOwned(existing.value, data)
      ensures ok ==> Reread(root).Some? && newStore == (Reread(root).value.phase == PENDING)
      ensures Preflight(old(root), owner, bucket, existing.Some?) != Initialises ==>
        root == old(root) && history == old(history)
      ensures !acquired || legacy ==> root == old(root)
      ensures Reliable() ==> (ok <==>
        && acquired && !legacy && (existing.Some? ==> MountOwned(existing.value, data))
        && Preflight(old(root), owner, bucket, existing.Some?) != Refuses)
    {
      if !acquired {
        return false;
      }
      locked := true;
      ok := PrepareLocked(owner, bucket, id, legacy, existing, data);
      if !ok {
        locked := false;
      }
    }

    method PrepareLocked(owner: string, bucket: string, id: string, legacy: bool,
                         existing: Option<seq<Mount>>, data: string)
      returns (ok: bool)
      requires Valid() && id != ""
      modifies this`root, this`history, this`calls, this`newStore
      ensures Valid()
      ensures ok ==> !legacy && Preflight(old(root), owner, bucket, existing.Some?) != Refuses
      ensures ok ==> existing.Some? ==> MountOwned(existing.value, data)
      ensures ok ==> Reread(root).Some? && newStore == (Reread(root).value.phase == PENDING)
      ensures Preflight(old(root), owner, bucket, existing.Some?) != Initialises ==>
        root == old(root) && history == old(history)
      ensures legacy ==> root == old(root)
      ensures Reliable() ==> (ok <==>
        && !legacy && (existing.Some? ==> MountOwned(existing.value, data))
        && Preflight(old(root), owner, bucket, existing.Some?) != Refuses)
    {
      var stated := Call();
      if !stated || legacy {
        return false;
      }
      var inspected := Call();
      if !inspected {
        return false;
      }
      if existing.Some? {
        var owned := ValidateMinIOMount(existing.value, data);
        if !owned {
          return false;
        }
      }
      ok := EnsureMinIOCustody(owner, bucket, existing.Some?, id);
      if !ok {
        return;
      }
      var read := Call();
      var found := ReadRecord(root);
      if !read || !found.Contents? || found.text.NotJson? {
        return false;
      }
      newStore := found.text.custody.phase == PENDING;
    }

    /**
     Creates the bucket at most once, and only for a new store; a store in service is never touched. A creation may take
     effect and still report an error: the next look then finds the bucket.
     */
    method EnsureBucket(bucket: string) returns (outcome: BucketOutcome)
      requires Valid()
      modifies this`root, this`history, this`calls
      ensures Valid()
      ensures history == old(history) || history == old(history) + [root]
      ensures history != old(history) ==>
        && newStore && old(root).RootDir? && old(root).dir.data.DataDir? && bucket !in old(root).dir.data.buckets
        && root.RootDir? && root.dir.data.DataDir?
        && root.dir.data.buckets == old(root).dir.data.buckets[bucket := {}]
        && root.dir.data.marker == old(root).dir.data.marker && root.dir.record == old(root).dir.record
        && root.dir.data.temps == old(root).dir.data.temps && root.dir.others == old(root).dir.others
      ensures history == old(history) ==> root == old(root)
      ensures outcome == BucketReady ==> HasBucket(root, bucket)
      ensures outcome == BucketMissing ==>
        !newStore && history == old(history) && root.RootDir? && root.dir.data.DataDir? && !HasBucket(root, bucket)
      ensures Reliable() && root.RootDir? && root.dir.data.DataDir? ==>
        (outcome == BucketReady <==> newStore || HasBucket(old(root), bucket))
    {
      for retry := 0 to 30
        invariant Valid()
        invariant history == old(history) || history == old(history) + [root]
        invariant history != old(history) ==>
          newStore && !HasBucket(old(root), bucket) && WithBucket(old(root), bucket) == Some(root)
        invariant Reliable() && root.RootDir? && root.dir.data.DataDir? ==> retry == 0 && history == old(history)
      {
        var connected := Call();
        var answered := Call();
        if connected && answered && root.RootDir? && root.dir.data.DataDir? {
          if HasBucket(root, bucket) {
            return BucketReady;
          }
          if !newStore {
            return BucketMissing;
          }
          var made := Call();
          if made {
            Show(WithBucket(root, bucket).value);
          }
          var reported := Call();
          if made && reported {
            return BucketReady;
          }
        }
      }
      return NotReady;
    }

    static predicate HasBucket(root: Root, bucket: string) {
      root.RootDir? && root.dir.data.DataDir? && bucket in root.dir.data.buckets
    }

    static function WithBucket(root: Root, bucket: string): Option<Root> {
      if root.RootDir? && root.dir.data.DataDir? then
        Some(RootDir(root.dir.(data := root.dir.data.(buckets := root.dir.data.buckets[bucket := {}]))))
      else
        None
    }

    /**
     Pending becomes committed in one rename: whatever happens, every tree shown holds the old record or the same record
     committed, and nothing beside it changes but temporary files.
     */
    method CommitMinIOProvisioning() returns (ok: bool)
      requires Valid()
      modifies this`root, this`history, this`calls, this`newStore
      ensures Valid() && old(history) <= history
      ensures ok ==>
        !newStore && Reread(old(root)).Some? && Reread(root) == Some(Reread(old(root)).value.(phase := COMMITTED))
      ensures !ok ==> newStore == old(newStore)
      ensures forall t :: t in history[|old(history)|..] ==> Reread(old(root)).Some? && Untouched(old(root), t)
      ensures forall t :: t in history[|old(history)|..] ==>
        Reread(t) == Reread(old(root)) || Reread(t) == Some(Reread(old(root)).value.(phase := COMMITTED))
      ensures Reliable() && Reread(old(root)).Some? ==> ok
    {
      var read := Call();
      var found := ReadRecord(root);
      if !read || !found.Contents? || found.text.NotJson? {
        return false;
      }
      var custody := found.text.custody.(phase := COMMITTED);
      ok := WriteCustodyRecord(RecordPath, Json(custody));
      if ok {
        newStore := false;
      }
    }

    /** The record a run that decodes it now sees. */
    static function Reread(root: Root): Option<Custody> {
      match ReadRecord(root)
      case Contents(Json(c)) => Some(c)
      case _ => None
    }

    /** The data beside the record is as it was. */
    static predicate Untouched(before: Root, after: Root) {
      DirOf(before).Some? ==> DirOf(after).Some? && DirOf(after).value.data == DirOf(before).value.data
    }
  }
}
