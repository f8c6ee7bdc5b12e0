/** The custody directory of a local MinIO store: what is on disk, and what the preflight makes of it. */
module CustodyTree {
  import opened Strings

  datatype Custody = Custody(version: int, owner: string, bucket: string, id: string, phase: string)

  /** The bytes of a record or marker, as JSON decoding sees them. */
  datatype Text = NotJson | Json(custody: Custody)

  datatype File =
    | NoFile
    | Plain(text: Text)
    | Link(target: Option<Text>) // a symbolic link; None dangles
    | Unreadable                 // anything a read fails on

  datatype Data =
    | NoData
    | DataDir(marker: File, buckets: map<string, set<string>>, temps: nat)
    | DataLink
    | DataFile

  datatype Dir = Dir(record: File, data: Data, others: nat) // others: every further entry, temporary files included

  datatype Root =
    | NoRoot
    | RootDir(dir: Dir)
    | RootLink(target: Option<Dir>)
    | RootFile

  const PENDING := "pending"
  const COMMITTED := "committed"
  const EMPTY_DIR := Dir(NoFile, NoData, 0)

  datatype ReadResult = Missing | Failed | Contents(text: Text)

  function ReadFile(f: File): ReadResult {
    match f
    case NoFile => Missing
    case Plain(text) => Contents(text)
    case Link(None) => Missing
    case Link(Some(text)) => Contents(text)
    case Unreadable => Failed
  }

  /** Reading the record follows a link at the root, as the system call does. */
  function ReadRecord(root: Root): ReadResult {
    match root
    case NoRoot => Missing
    case RootDir(dir) => ReadFile(dir.record)
    case RootLink(None) => Missing
    case RootLink(Some(dir)) => ReadFile(dir.record)
    case RootFile => Failed
  }

  /** The directory holds no entry, or there is none: the only state a first run may claim. */
  predicate Bare(root: Root) {
    root == NoRoot || root == RootDir(EMPTY_DIR)
  }

  /** The marker is pending and equals the record up to the phase. */
  predicate Agrees(marker: Text, c: Custody) {
    marker.Json? && marker.custody.phase == PENDING && marker.custody.(phase := c.phase) == c
  }

  /** Every check after the record is in hand: its fields, no link or gap on the four paths, and the marker. */
  predicate Accepts(root: Root, owner: string, bucket: string, text: Text) {
    && text.Json?
    && var c := text.custody;
    && c.bucket == bucket
    && c.version == 2 && c.owner == owner && c.id != "" && (c.phase == PENDING || c.phase == COMMITTED)
    && root.RootDir?
    && root.dir.data.DataDir?
    && (root.dir.record.Plain? || root.dir.record.Unreadable?)
    && root.dir.data.marker.Plain?
    && Agrees(root.dir.data.marker.text, c)
  }

  /** What a preflight decides from the tree alone. */
  datatype Verdict = Initialises | Adopts | Refuses

  function Preflight(root: Root, owner: string, bucket: string, present: bool): Verdict {
    match ReadRecord(root)
    case Missing => if !present && Bare(root) then Initialises else Refuses
    case Failed => Refuses
    case Contents(text) => if Accepts(root, owner, bucket, text) then Adopts else Refuses
  }

  // ----- Writing a record: a temporary file beside the path, renamed over it

  datatype Path = MarkerPath | RecordPath

  function DirOf(root: Root): Option<Dir> {
    match root
    case RootDir(dir) => Some(dir)
    case RootLink(target) => target
    case _ => None
  }

  function SetDir(root: Root, dir: Dir): Root
    requires DirOf(root).Some?
  {
    if root.RootDir? then RootDir(dir) else RootLink(Some(dir))
  }

  /** The directory of the path exists. */
  predicate HasDir(root: Root, at: Path) {
    DirOf(root).Some? && (at.MarkerPath? ==> DirOf(root).value.data.DataDir?)
  }

  function Temps(root: Root, at: Path): nat
    requires HasDir(root, at)
  {
    if at.MarkerPath? then DirOf(root).value.data.temps else DirOf(root).value.others
  }

  function SetTemps(root: Root, at: Path, n: nat): Root
    requires HasDir(root, at)
    ensures HasDir(SetTemps(root, at, n), at)
  {
    var dir := DirOf(root).value;
    SetDir(root, if at.MarkerPath? then dir.(data := dir.data.(temps := n)) else dir.(others := n))
  }

  function FileAt(root: Root, at: Path): File
    requires HasDir(root, at)
  {
    if at.MarkerPath? then DirOf(root).value.data.marker else DirOf(root).value.record
  }

  function SetFile(root: Root, at: Path, f: File): Root
    requires HasDir(root, at)
    ensures HasDir(SetFile(root, at, f), at)
  {
    var dir := DirOf(root).value;
    SetDir(root, if at.MarkerPath? then dir.(data := dir.data.(marker := f)) else dir.(record := f))
  }

  function AddTemp(root: Root, at: Path): Root
    requires HasDir(root, at)
    ensures HasDir(AddTemp(root, at), at)
  {
    SetTemps(root, at, Temps(root, at) + 1)
  }

  /** A rename replaces what is at the path, a link included, but never a directory. */
  predicate CanRename(root: Root, at: Path) {
    HasDir(root, at) && Temps(root, at) > 0 && !FileAt(root, at).Unreadable?
  }

  function Rename(root: Root, at: Path, text: Text): Root
    requires CanRename(root, at)
    ensures HasDir(Rename(root, at, text), at)
  {
    SetFile(SetTemps(root, at, Temps(root, at) - 1), at, Plain(text))
  }

  // ----- First initialisation

  function FirstRecord(owner: string, bucket: string, id: string): Custody {
    Custody(2, owner, bucket, id, PENDING)
  }

  /** The tree after each step of a first initialisation, in program order. */
  function Stage(c: Custody, k: nat): Root
    requires 1 <= k <= 6
  {
    var text := Plain(Json(c));
    match k
    case 1 => RootDir(EMPTY_DIR)
    case 2 => RootDir(Dir(NoFile, DataDir(NoFile, map[], 0), 0))
    case 3 => RootDir(Dir(NoFile, DataDir(NoFile, map[], 1), 0))
    case 4 => RootDir(Dir(NoFile, DataDir(text, map[], 0), 0))
    case 5 => RootDir(Dir(NoFile, DataDir(text, map[], 0), 1))
    case _ => RootDir(Dir(text, DataDir(text, map[], 0), 0))
  }

  /** A data directory without a record: what a run that stopped half way leaves. */
  predicate Partial(root: Root) {
    root.RootDir? && root.dir.record.NoFile? && root.dir.data.DataDir?
  }

  /** A record with its own marker beside the data, whose bucket exists once it is committed. */
  predicate Recorded(root: Root, owner: string) {
    && root.RootDir? && root.dir.record.Plain? && root.dir.record.text.Json?
    && var c := root.dir.record.text.custody;
    && c.version == 2 && c.owner == owner && c.id != ""
    && (c.phase == PENDING || c.phase == COMMITTED)
    && root.dir.data.DataDir?
    && root.dir.data.marker == Plain(Json(c.(phase := PENDING)))
    && (c.phase == COMMITTED ==> c.bucket in root.dir.data.buckets)
  }

  /** The three kinds of tree that an undisturbed system passes through decide the preflight, each its own way. */
  lemma KindsDecide(root: Root, owner: string, bucket: string, present: bool)
    ensures Bare(root) ==> Preflight(root, owner, bucket, present) == if present then Refuses else Initialises
    ensures Partial(root) ==> Preflight(root, owner, bucket, present) == Refuses
    ensures Recorded(root, owner) ==>
      Preflight(root, owner, bucket, present) == if root.dir.record.text.custody.bucket == bucket then Adopts
        else Refuses
  {
  }

  /** Adoption needs a readable record that is nobody else's and a pending marker equal to it up to the phase. */
  lemma AdoptsOnlyAgreement(root: Root, owner: string, bucket: string, present: bool)
    requires Preflight(root, owner, bucket, present) == Adopts
    ensures root.RootDir? && root.dir.record.Plain? && root.dir.record.text.Json?
    ensures var c := root.dir.record.text.custody;
      && c.version == 2 && c.owner == owner && c.bucket == bucket && c.id != ""
      && (c.phase == "pending" || c.phase == "committed")
      && root.dir.data.DataDir? && root.dir.data.marker == Plain(Json(c.(phase := "pending")))
  {
    var c := root.dir.record.text.custody;
    assert root.dir.data.marker.text.custody == c.(phase := PENDING);
  }

  /**
   A store is adopted exactly when a plain directory holds a record of version 2, of this owner and bucket, with an ID
   and one of the two phases, and beside its data the same record still pending. Whether a container is there does not
   matter.
   */
  lemma AdoptsExactly(root: Root, owner: string, bucket: string, present: bool)
    ensures Preflight(root, owner, bucket, present) == Adopts <==>
      && root.RootDir? && root.dir.data.DataDir?
      && exists id, phase ::
        && id != "" && (phase == "pending" || phase == "committed")
        && root.dir.record == Plain(Json(Custody(2, owner, bucket, id, phase)))
        && root.dir.data.marker == Plain(Json(Custody(2, owner, bucket, id, "pending")))
  {
    if Preflight(root, owner, bucket, present) == Adopts {
      AdoptsOnlyAgreement(root, owner, bucket, present);
      var c := root.dir.record.text.custody;
      assert c == Custody(2, owner, bucket, c.id, c.phase);
    }
  }

  /** A store is begun exactly when no container is there and there is no directory, or a plain empty one. */
  lemma InitialisesExactly(root: Root, owner: string, bucket: string, present: bool)
    ensures Preflight(root, owner, bucket, present) == Initialises <==>
      !present && (root.NoRoot? || root == RootDir(Dir(NoFile, NoData, 0)))
  {
  }

  /** With the record's text in hand, however it was read, the checks ask for exactly this. */
  lemma AcceptsExactly(root: Root, owner: string, bucket: string, text: Text)
    ensures Accepts(root, owner, bucket, text) <==>
      && root.RootDir? && root.dir.data.DataDir? && !root.dir.record.NoFile? && !root.dir.record.Link?
      && exists id, phase ::
        && id != "" && (phase == "pending" || phase == "committed")
        && text == Json(Custody(2, owner, bucket, id, phase))
        && root.dir.data.marker == Plain(Json(Custody(2, owner, bucket, id, "pending")))
  {
    if Accepts(root, owner, bucket, text) {
      var c := text.custody;
      assert c == Custody(2, owner, bucket, c.id, c.phase);
      assert root.dir.data.marker.text.custody == c.(phase := PENDING);
    }
  }
}
