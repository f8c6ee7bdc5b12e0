/** Deleting many keys over S3: batches of at most a thousand, failures attributed by position, events for the rest. */
module S3Delete {
  import opened Strings
  import opened Prefixed
  import H = Hub

  const BATCH := 1000

  /** One entry of a DeleteObjects answer; any part may be absent. */
  datatype Report = Report(key: Option<Str>, message: Option<Str>, code: Option<Str>)

  datatype Answer = BatchFailed(text: Str) | BatchDone(reports: seq<Report>)

  /** error is empty for a key that was deleted. */
  datatype Entry = Entry(key: Str, error: Str)

  /** What the store answers to the b-th batch, with these keys. */
  type Client = (nat, seq<Str>) -> Answer

  /** "delete failed" */
  const DELETE_FAILED: Str := [100, 101, 108, 101, 116, 101, 32, 102, 97, 105, 108, 101, 100]

  function TextOf(r: Report): Str {
    if r.message.Some? then r.message.value else if r.code.Some? then r.code.value else DELETE_FAILED
  }

  // ----- Which texts a run of answers leaves on the entries

  /** i is the last place of its key: the one the index map knows. */
  predicate LastPlace(keys: seq<Str>, i: nat) {
    i < |keys| && forall j :: i < j < |keys| ==> keys[j] != keys[i]
  }

  predicate Names(keys: seq<Str>, r: Report, i: nat) {
    LastPlace(keys, i) && r.key == Some(keys[i])
  }

  function Marked(keys: seq<Str>, texts: seq<Str>, r: Report): seq<Str>
    requires |texts| == |keys|
  {
    seq(|keys|, i requires 0 <= i < |keys| => if Names(keys, r, i) then TextOf(r) else texts[i])
  }

  function AllMarked(keys: seq<Str>, texts: seq<Str>, reports: seq<Report>): (r: seq<Str>)
    requires |texts| == |keys|
    ensures |r| == |keys|
  {
    if reports == [] then texts
    else Marked(keys, AllMarked(keys, texts, reports[..|reports| - 1]), reports[|reports| - 1])
  }

  /** How many batches these keys make. */
  function Calls(keys: seq<Str>): (n: nat)
    ensures BATCH * n >= |keys| && (n > 0 ==> BATCH * (n - 1) < |keys|)
  {
    (|keys| + BATCH - 1) / BATCH
  }

  function BatchEnd(keys: seq<Str>, b: nat): nat {
    if BATCH * b + BATCH > |keys| then |keys| else BATCH * b + BATCH
  }

  function BatchOf(keys: seq<Str>, b: nat): seq<Str>
    requires BATCH * b <= |keys|
  {
    keys[BATCH * b..BatchEnd(keys, b)]
  }

  function AfterBatch(keys: seq<Str>, texts: seq<Str>, b: nat, answer: Answer): seq<Str>
    requires |texts| == |keys|
  {
    match answer
    case BatchFailed(text) => seq(|keys|, i requires 0 <= i < |keys| => if InBatch(i, b) then text else texts[i])
    case BatchDone(reports) => AllMarked(keys, texts, reports)
  }

  predicate InBatch(i: nat, b: nat) {
    BATCH * b <= i < BATCH * b + BATCH
  }

  function NoErrors(n: nat): seq<Str> {
    seq(n, i => [])
  }

  /** The texts after the first b batches. */
  function After(client: Client, keys: seq<Str>, b: nat): (r: seq<Str>)
    requires b > 0 ==> BATCH * (b - 1) < |keys|
    ensures |r| == |keys|
  {
    if b == 0 then NoErrors(|keys|)
    else AfterBatch(keys, After(client, keys, b - 1), b - 1, client(b - 1, BatchOf(keys, b - 1)))
  }

  function Outcome(keys: seq<Str>, texts: seq<Str>): seq<Entry>
    requires |texts| == |keys|
  {
    seq(|keys|, i requires 0 <= i < |keys| => Entry(keys[i], texts[i]))
  }

  // ----- The method

  ghost predicate Indexed(keys: seq<Str>, n: nat, idx: map<Str, nat>)
    requires n <= |keys|
  {
    && (forall k :: k in idx <==> k in keys[..n])
    && forall k :: k in idx ==> idx[k] < n && keys[idx[k]] == k && forall j :: idx[k] < j < n ==> keys[j] != k
  }

  /** Sequences one after another. */
  function Flatten(batches: seq<seq<Str>>): seq<Str> {
    if batches == [] then [] else Flatten(batches[..|batches| - 1]) + batches[|batches| - 1]
  }

  /** Every key is in exactly one batch, in its place. */
  lemma {:induction false} BatchesAreKeys(keys: seq<Str>, batches: seq<seq<Str>>)
    requires |batches| > 0 ==> BATCH * (|batches| - 1) < |keys|
    requires forall b :: 0 <= b < |batches| ==> BATCH * b < |keys| && batches[b] == BatchOf(keys, b)
    ensures Flatten(batches) == keys[..if BATCH * |batches| > |keys| then |keys| else BATCH * |batches|]
    ensures forall b :: 0 <= b < |batches| ==> 0 < |batches[b]| <= BATCH
    ensures forall b :: 0 <= b < |batches| - 1 ==> |batches[b]| == BATCH
  {
    if batches != [] {
      var init := batches[..|batches| - 1];
      BatchesAreKeys(keys, init);
      assert Flatten(init) == keys[..BATCH * |init|];
      assert batches[|init|] == keys[BATCH * |init|..BatchEnd(keys, |init|)];
    }
  }

  /** Every batch but the last is full. */
  lemma BatchSizes(keys: seq<Str>, batches: seq<seq<Str>>)
    requires |batches| == Calls(keys)
    requires forall b :: 0 <= b < |batches| ==> BATCH * b < |keys| && batches[b] == BatchOf(keys, b)
    ensures forall b :: 0 <= b < |batches| ==> |batches[b]| == if b < |batches| - 1 then 1000 else |keys| - 1000 * b
  {
  }

  /** batches are the requests sent: the keys in order, cut every thousand. */
  method DeleteMany(client: Client, keys: seq<Str>) returns (entries: seq<Entry>, batches: seq<seq<Str>>)
    ensures |batches| == Calls(keys) && forall b :: 0 <= b < |batches| ==>
      BATCH * b < |keys| && batches[b] == BatchOf(keys, b)
    ensures Flatten(batches) == keys && forall b :: 0 <= b < |batches| ==> 0 < |batches[b]| <= 1000
    ensures forall b :: 0 <= b < |batches| - 1 ==> |batches[b]| == 1000
    ensures entries == Outcome(keys, After(client, keys, Calls(keys)))
  {
    var idx;
    entries, idx := Prepare(keys);
    batches := [];
    var start, call := 0, 0;
    while start < |keys|
      invariant call == |batches| && start == BATCH * call
      invariant call > 0 ==> BATCH * (call - 1) < |keys|
      invariant forall b :: 0 <= b < call ==> BATCH * b < |keys| && batches[b] == BatchOf(keys, b)
      invariant entries == Outcome(keys, After(client, keys, call))
      decreases |keys| - start
    {
      var sent;
      entries, sent := OneBatch(client, keys, After(client, keys, call), idx, entries, call, start);
      batches := batches + [sent];
      start, call := start + BATCH, call + 1;
    }
    BatchesAreKeys(keys, batches);
    assert keys[..|keys|] == keys;
  }

  /** Every key a success at first, and where to find it. */
  method Prepare(keys: seq<Str>) returns (entries: seq<Entry>, idx: map<Str, nat>)
    ensures Indexed(keys, |keys|, idx)
    ensures entries == Outcome(keys, NoErrors(|keys|))
  {
    entries, idx := [], map[];
    for i := 0 to |keys|
      invariant |entries| == i && Indexed(keys, i, idx)
      invariant forall j :: 0 <= j < i ==> entries[j] == Entry(keys[j], [])
    {
      entries := entries + [Entry(keys[i], [])];
      idx := idx[keys[i] := i];
      assert keys[..i + 1] == keys[..i] + [keys[i]];
    }
    assert keys[..|keys|] == keys;
  }

  /** One request: its keys are gathered, sent, and marked as the answer says. */
  method OneBatch(client: Client, keys: seq<Str>, ghost texts: seq<Str>, idx: map<Str, nat>, from: seq<Entry>,
                  call: nat, start: nat)
    returns (entries: seq<Entry>, objs: seq<Str>)
    requires start == BATCH * call < |keys| == |texts| && Indexed(keys, |keys|, idx) && from == Outcome(keys, texts)
    ensures objs == BatchOf(keys, call)
    ensures entries == Outcome(keys, AfterBatch(keys, texts, call, client(call, objs)))
  {
    var end := if start + BATCH > |keys| then |keys| else start + BATCH;
    objs := [];
    for i := start to end
      invariant objs == keys[start..i]
    {
      objs := objs + [keys[i]];
    }
    match client(call, objs) {
      case BatchFailed(text) => entries := MarkBatch(from, start, end, text);
      case BatchDone(reports) => entries := MarkReported(keys, texts, idx, from, reports);
    }
  }

  /** A whole-batch failure goes to each key of the batch. */
  method MarkBatch(from: seq<Entry>, start: nat, end: nat, text: Str) returns (entries: seq<Entry>)
    requires start <= end <= |from|
    ensures |entries| == |from|
    ensures forall i :: 0 <= i < |entries| ==>
      entries[i] == if start <= i < end then Entry(from[i].key, text) else from[i]
  {
    entries := from;
    for i := start to end
      invariant |entries| == |from|
      invariant forall j :: 0 <= j < |entries| ==>
        entries[j] == if start <= j < i then Entry(from[j].key, text) else from[j]
    {
      entries := entries[i := entries[i].(error := text)];
    }
  }

  method MarkReported(keys: seq<Str>, ghost texts: seq<Str>, idx: map<Str, nat>, from: seq<Entry>, reports: seq<Report>)
    returns (entries: seq<Entry>)
    requires |texts| == |keys| && Indexed(keys, |keys|, idx) && from == Outcome(keys, texts)
    ensures entries == Outcome(keys, AllMarked(keys, texts, reports))
  {
    entries := from;
    for n := 0 to |reports|
      invariant entries == Outcome(keys, AllMarked(keys, texts, reports[..n]))
    {
      var r := reports[n];
      assert reports[..n + 1][..n] == reports[..n];
      ghost var before := AllMarked(keys, texts, reports[..n]);
      MarkIsUpdate(keys, before, idx, r);
      if r.key.Some? && r.key.value in idx {
        var i := idx[r.key.value];
        entries := entries[i := entries[i].(error := TextOf(r))];
      }
      assert entries == Outcome(keys, Marked(keys, before, r));
    }
    assert reports[..|reports|] == reports;
  }

  lemma MarkIsUpdate(keys: seq<Str>, texts: seq<Str>, idx: map<Str, nat>, r: Report)
    requires |texts| == |keys| && Indexed(keys, |keys|, idx)
    ensures r.key.Some? && r.key.value in idx ==> Marked(keys, texts, r) == texts[idx[r.key.value] := TextOf(r)]
    ensures !(r.key.Some? && r.key.value in idx) ==> Marked(keys, texts, r) == texts
  {
    assert keys[..|keys|] == keys;
    forall i | 0 <= i < |keys|
      ensures Names(keys, r, i) <==> r.key.Some? && r.key.value in idx && idx[r.key.value] == i {
      if Names(keys, r, i) { assert keys[i] in keys; }
    }
  }

  // ----- Which keys end with an error

  /** Every failure says something. */
  ghost predicate Spoken(client: Client) {
    forall b, ks :: Says(client(b, ks))
  }

  predicate Says(answer: Answer) {
    match answer
    case BatchFailed(text) => text != []
    case BatchDone(reports) => forall n :: 0 <= n < |reports| ==> TextOf(reports[n]) != []
  }

  predicate Reports(answer: Answer, key: Str) {
    answer.BatchDone? && exists n :: 0 <= n < |answer.reports| && answer.reports[n].key == Some(key)
  }

  /** The answer to batch b speaks against the i-th key. */
  ghost predicate Against(client: Client, keys: seq<Str>, i: nat, b: nat)
    requires i < |keys| && BATCH * b < |keys|
  {
    var answer := client(b, BatchOf(keys, b));
    (InBatch(i, b) && answer.BatchFailed?) || (LastPlace(keys, i) && Reports(answer, keys[i]))
  }

  /** The last report of a key. */
  function LastNaming(reports: seq<Report>, key: Str): (n: nat)
    requires Reports(BatchDone(reports), key)
    ensures n < |reports| && reports[n].key == Some(key)
    ensures forall m :: n < m < |reports| ==> reports[m].key != Some(key)
  {
    if reports[|reports| - 1].key == Some(key) then |reports| - 1
    else
      ReportsSplit(reports, key);
      var n := LastNaming(reports[..|reports| - 1], key);
      assert forall m :: n < m < |reports| - 1 ==> reports[m] == reports[..|reports| - 1][m];
      n
  }

  lemma ReportsSplit(reports: seq<Report>, key: Str)
    requires reports != []
    ensures Reports(BatchDone(reports), key) <==>
      Reports(BatchDone(reports[..|reports| - 1]), key) || reports[|reports| - 1].key == Some(key)
  {
    var init := reports[..|reports| - 1];
    assert forall n :: 0 <= n < |init| ==> init[n] == reports[n];
  }

  lemma LastIs(reports: seq<Report>, key: Str, n: nat)
    requires n < |reports| && reports[n].key == Some(key) && forall m :: n < m < |reports| ==>
      reports[m].key != Some(key)
    ensures Reports(BatchDone(reports), key) && LastNaming(reports, key) == n
  {
  }

  /** Reports leave the text of the last one that names the place, or what was there. */
  lemma {:induction false} MarkedExactly(keys: seq<Str>, texts: seq<Str>, reports: seq<Report>, i: nat)
    requires |texts| == |keys| && i < |keys|
    ensures AllMarked(keys, texts, reports)[i] ==
      if LastPlace(keys, i) && Reports(BatchDone(reports), keys[i])
        then TextOf(reports[LastNaming(reports, keys[i])]) else texts[i]
  {
    if reports != [] {
      var init := reports[..|reports| - 1];
      MarkedExactly(keys, texts, init, i);
      ReportsSplit(reports, keys[i]);
      if reports[|init|].key != Some(keys[i]) && Reports(BatchDone(init), keys[i]) {
        var n := LastNaming(init, keys[i]);
        assert forall m :: n < m < |init| ==> reports[m] == init[m];
        LastIs(reports, keys[i], n);
      }
    }
  }

  /** The last thing the answer to batch b says against the i-th key. */
  ghost function TextAgainst(client: Client, keys: seq<Str>, i: nat, b: nat): Str
    requires i < |keys| && BATCH * b < |keys| && Against(client, keys, i, b)
  {
    match client(b, BatchOf(keys, b))
    case BatchFailed(text) => text
    case BatchDone(reports) =>
      var r := reports[LastNaming(reports, keys[i])];
      match (r.message, r.code)
      case (Some(message), _) => message
      case (None, Some(code)) => code
      case _ => [100, 101, 108, 101, 116, 101, 32, 102, 97, 105, 108, 101, 100]
  }

  /** Of the answers to these calls, b's is the last to speak against the i-th key. */
  ghost predicate LastAgainst(client: Client, keys: seq<Str>, calls: nat, i: nat, b: nat)
    requires i < |keys| && (calls > 0 ==> BATCH * (calls - 1) < |keys|)
  {
    b < calls && Against(client, keys, i, b) && forall c :: b < c < calls ==> !Against(client, keys, i, c)
  }

  lemma OneAnswer(client: Client, keys: seq<Str>, b: nat, i: nat)
    requires i < |keys| && BATCH * b < |keys|
    ensures After(client, keys, b + 1)[i] == if Against(client, keys, i, b) then TextAgainst(client, keys, i, b)
      else After(client, keys, b)[i]
  {
    var answer := client(b, BatchOf(keys, b));
    if answer.BatchDone? { MarkedExactly(keys, After(client, keys, b), answer.reports, i); }
  }

  /**
   Whatever the answers are: a key ends with the text of the last answer that speaks against it, and with none if none
   does.
   */
  lemma {:induction false} TextsExactly(client: Client, keys: seq<Str>, calls: nat, i: nat)
    requires i < |keys| && (calls > 0 ==> BATCH * (calls - 1) < |keys|)
    ensures forall b: nat :: LastAgainst(client, keys, calls, i, b) ==>
      After(client, keys, calls)[i] == TextAgainst(client, keys, i, b)
    ensures (forall b :: 0 <= b < calls ==> !Against(client, keys, i, b)) ==> After(client, keys, calls)[i] == []
  {
    if calls > 0 {
      TextsExactly(client, keys, calls - 1, i);
      OneAnswer(client, keys, calls - 1, i);
      forall b: nat | LastAgainst(client, keys, calls, i, b)
        ensures After(client, keys, calls)[i] == TextAgainst(client, keys, i, b) {
        if b < calls - 1 { assert LastAgainst(client, keys, calls - 1, i, b); }
      }
    }
  }

  lemma {:induction false} SomeIsLast(client: Client, keys: seq<Str>, calls: nat, i: nat, b: nat) returns (last: nat)
    requires i < |keys| && b < calls && BATCH * (calls - 1) < |keys| && Against(client, keys, i, b)
    ensures LastAgainst(client, keys, calls, i, last)
  {
    if Against(client, keys, i, calls - 1) {
      last := calls - 1;
    } else {
      last := SomeIsLast(client, keys, calls - 1, i, b);
    }
  }

  /** A key ends with an error exactly when some answer speaks against it and the last to do so says something. */
  lemma ErrorsExactly(client: Client, keys: seq<Str>, calls: nat, i: nat)
    requires i < |keys| && (calls > 0 ==> BATCH * (calls - 1) < |keys|)
    ensures After(client, keys, calls)[i] != [] <==>
      exists b: nat :: LastAgainst(client, keys, calls, i, b) && TextAgainst(client, keys, i, b) != []
  {
    TextsExactly(client, keys, calls, i);
    if After(client, keys, calls)[i] != [] {
      var b :| 0 <= b < calls && Against(client, keys, i, b);
      var last := SomeIsLast(client, keys, calls, i, b);
      assert TextAgainst(client, keys, i, last) != [];
    }
  }

  /** So a failure reads as a success exactly when the last answer to speak of it has an empty text. */
  lemma FailureReadsAsSuccess(client: Client, keys: seq<Str>, calls: nat, i: nat)
    requires i < |keys| && (calls > 0 ==> BATCH * (calls - 1) < |keys|)
    requires exists b :: 0 <= b < calls && Against(client, keys, i, b)
    ensures After(client, keys, calls)[i] == [] <==>
      exists b: nat :: LastAgainst(client, keys, calls, i, b) && TextAgainst(client, keys, i, b) == []
  {
    TextsExactly(client, keys, calls, i);
    var b :| 0 <= b < calls && Against(client, keys, i, b);
    var last := SomeIsLast(client, keys, calls, i, b);
    assert LastAgainst(client, keys, calls, i, last);
  }

  /** When every failure says something: an error exactly if some answer speaks against the key. */
  lemma SpokenErrors(client: Client, keys: seq<Str>, calls: nat, i: nat)
    requires Spoken(client) && i < |keys| && (calls > 0 ==> BATCH * (calls - 1) < |keys|)
    ensures After(client, keys, calls)[i] != [] <==> exists b :: 0 <= b < calls && Against(client, keys, i, b)
  {
    TextsExactly(client, keys, calls, i);
    if exists b :: 0 <= b < calls && Against(client, keys, i, b) {
      var b :| 0 <= b < calls && Against(client, keys, i, b);
      var last := SomeIsLast(client, keys, calls, i, b);
      assert Says(client(last, BatchOf(keys, last)));
    }
  }

  predicate Distinct(keys: seq<Str>) {
    forall i, j :: 0 <= i < j < |keys| ==> keys[i] != keys[j]
  }

  lemma OwnBatch(keys: seq<Str>, i: nat, b: nat)
    requires i < |keys| && InBatch(i, b)
    ensures BATCH * b < |keys| && b < Calls(keys)
    ensures forall c: nat :: InBatch(i, c) ==> c == b
  {
  }

  /**
   An earlier place of a repeated key is told a success whatever the answers report of the key: its error is the text of
   its own batch's failure, if that failed.
   */
  lemma RepeatedKeyLooksDeleted(client: Client, keys: seq<Str>, i: nat, b: nat)
    requires i < |keys| && !LastPlace(keys, i) && InBatch(i, b)
    ensures BATCH * b < |keys| && After(client, keys, Calls(keys))[i] ==
      match client(b, BatchOf(keys, b))
      case BatchFailed(text) => text
      case BatchDone(_) => []
  {
    OwnBatch(keys, i, b);
    TextsExactly(client, keys, Calls(keys), i);
    if client(b, BatchOf(keys, b)).BatchFailed? {
      assert LastAgainst(client, keys, Calls(keys), i, b);
    }
  }

  /** A report with a text is silenced by a later one of the same key without any. */
  lemma LaterReportSilences(key: Str, text: Str, code: Option<Str>)
    ensures AllMarked([key], [[]], [Report(Some(key), Some(text), None), Report(Some(key), Some([]), code)]) == [[]]
  {
    var reports := [Report(Some(key), Some(text), None), Report(Some(key), Some([]), code)];
    LastIs(reports, key, 1);
    MarkedExactly([key], [[]], reports, 0);
  }

  /** A failure whose message is present but empty reads as a success. */
  lemma SilentFailure(key: Str)
    ensures var client: Client := (b, ks) => BatchDone([Report(Some(key), Some([]), Some(DELETE_FAILED))]);
      Reports(client(0, [key]), key) && After(client, [key], 1) == [[]]
  {
    var client: Client := (b, ks) => BatchDone([Report(Some(key), Some([]), Some(DELETE_FAILED))]);
    var reports := client(0, BatchOf([key], 0)).reports;
    assert client(0, [key]).reports[0].key == Some(key);
    LastIs(reports, key, 0);
    OneAnswer(client, [key], 0, 0);
  }

  // ----- Through the prefix and the server

  function DeleteEvent(key: Str): H.Event {
    H.Event(key, H.OpDelete, [], [], 0)
  }

  /** The events of the successes, in order. */
  function Successes(entries: seq<Entry>): seq<H.Event> {
    if entries == [] then []
    else
      var last := entries[|entries| - 1];
      Successes(entries[..|entries| - 1]) + if last.error == [] then [DeleteEvent(last.key)] else []
  }

  /** The event of a success stands behind those of the successes before it. */
  lemma {:induction false} SuccessesInOrder(entries: seq<Entry>, i: nat)
    requires i < |entries| && entries[i].error == []
    ensures var at := |Successes(entries[..i])|;
      at < |Successes(entries)| && Successes(entries)[at] == H.Event(entries[i].key, H.OpDelete, [], [], 0)
    ensures Successes(entries[..i]) <= Successes(entries)
    decreases |entries|
  {
    var init := entries[..|entries| - 1];
    if i < |init| {
      SuccessesInOrder(init, i);
      assert init[..i] == entries[..i];
    } else {
      assert entries[..i] == init;
    }
  }

  /** Every published event is that of a success. */
  lemma {:induction false} OnlySuccesses(entries: seq<Entry>, e: H.Event)
    requires e in Successes(entries)
    ensures exists i :: 0 <= i < |entries| && entries[i].error == [] && e.key == entries[i].key
    ensures e.op == H.OpDelete && e.etag == [] && e.versionID == [] && e.time == 0
  {
    var init := entries[..|entries| - 1];
    if e in Successes(init) {
      OnlySuccesses(init, e);
      var i :| 0 <= i < |init| && init[i].error == [] && e.key == init[i].key;
      assert entries[i] == init[i];
    } else {
      assert entries[|init|].error == [];
    }
  }

  /**
   The request as the client sees it: outcome i is for key i, relative to the prefix, and an error exactly when its
   batch or its key failed; a delete event is published for exactly the successes, in request order.
   */
  method Request(client: Client, prefix: Str, keys: seq<Str>)
    returns (reply: seq<Entry>, published: seq<H.Event>, batches: seq<seq<Str>>)
    ensures |batches| == Calls(keys) && Flatten(batches) == UnderAll(prefix, keys)
    ensures forall b :: 0 <= b < |batches| ==> BATCH * b < |keys| && batches[b] == BatchOf(UnderAll(prefix, keys), b)
    ensures |Flatten(batches)| == |keys| && forall i :: 0 <= i < |keys| ==> Flatten(batches)[i] == prefix + keys[i]
    ensures forall b :: 0 <= b < |batches| ==> |batches[b]| == if b < |batches| - 1 then 1000 else |keys| - 1000 * b
    ensures |reply| == |keys| && forall i :: 0 <= i < |keys| ==> reply[i].key == keys[i]
    ensures forall i :: 0 <= i < |keys| ==> reply[i].error == After(client, UnderAll(prefix, keys), Calls(keys))[i]
    ensures Spoken(client) && Distinct(keys) ==> forall i :: 0 <= i < |keys| ==>
      (reply[i].error != [] <==>
        exists b :: 0 <= b < Calls(keys) &&
          KeyFails(client(b, BatchOf(UnderAll(prefix, keys), b)), prefix + keys[i], i, b))
    ensures published == Successes(reply)
  {
    reply, batches := ThroughPrefix(client, prefix, keys);
    BatchSizes(UnderAll(prefix, keys), batches);
    published := PublishSuccesses(reply);
    if Spoken(client) && Distinct(keys) {
      forall i | 0 <= i < |keys|
        ensures reply[i].error != [] <==>
          exists b :: 0 <= b < Calls(keys) &&
            KeyFails(client(b, BatchOf(UnderAll(prefix, keys), b)), prefix + keys[i], i, b)
      {
        DistinctOutcome(client, prefix, keys, i);
      }
    }
  }

  /** The prefix wrapper around the backend: full keys in, relative keys out. */
  method ThroughPrefix(client: Client, prefix: Str, keys: seq<Str>)
    returns (entries: seq<Entry>, batches: seq<seq<Str>>)
    ensures |batches| == Calls(keys) && Flatten(batches) == UnderAll(prefix, keys)
    ensures forall b :: 0 <= b < |batches| ==> BATCH * b < |keys| && batches[b] == BatchOf(UnderAll(prefix, keys), b)
    ensures entries == Outcome(keys, After(client, UnderAll(prefix, keys), Calls(keys)))
  {
    var full: seq<Str> := [];
    for i := 0 to |keys|
      invariant full == UnderAll(prefix, keys[..i])
    {
      full := full + [prefix + keys[i]];
    }
    assert keys[..|keys|] == keys;
    entries, batches := DeleteMany(client, full);
    entries := StripKeys(prefix, keys, entries);
  }

  method StripKeys(prefix: Str, ghost keys: seq<Str>, from: seq<Entry>) returns (entries: seq<Entry>)
    requires |from| == |keys| && forall i :: 0 <= i < |keys| ==> from[i].key == prefix + keys[i]
    ensures |entries| == |keys| && forall i :: 0 <= i < |keys| ==> entries[i] == Entry(keys[i], from[i].error)
  {
    entries := from;
    for i := 0 to |entries|
      invariant |entries| == |from|
      invariant forall j :: 0 <= j < |entries| ==>
        entries[j] == if j < i then Entry(keys[j], from[j].error) else from[j]
    {
      assert Strip(prefix, prefix + keys[i]) == keys[i];
      entries := entries[i := entries[i].(key := Strip(prefix, entries[i].key))];
    }
  }

  /** The server's loop over the outcomes. */
  method PublishSuccesses(entries: seq<Entry>) returns (published: seq<H.Event>)
    ensures published == Successes(entries)
  {
    published := [];
    for i := 0 to |entries|
      invariant published == Successes(entries[..i])
    {
      assert entries[..i + 1][..i] == entries[..i];
      if entries[i].error == [] {
        published := published + [DeleteEvent(entries[i].key)];
      }
    }
    assert entries[..|entries|] == entries;
  }

  predicate KeyFails(answer: Answer, key: Str, i: nat, b: nat) {
    (InBatch(i, b) && answer.BatchFailed?) || Reports(answer, key)
  }

  lemma DistinctOutcome(client: Client, prefix: Str, keys: seq<Str>, i: nat)
    requires Spoken(client) && Distinct(keys) && i < |keys|
    ensures After(client, UnderAll(prefix, keys), Calls(keys))[i] != [] <==>
      exists b :: 0 <= b < Calls(keys) &&
        KeyFails(client(b, BatchOf(UnderAll(prefix, keys), b)), prefix + keys[i], i, b)
  {
    var full := UnderAll(prefix, keys);
    assert LastPlace(full, i) by {
      forall j | i < j < |full| ensures full[j] != full[i] {
        assert (prefix + keys[j])[|prefix|..] == keys[j] && (prefix + keys[i])[|prefix|..] == keys[i];
      }
    }
    SpokenErrors(client, full, Calls(keys), i);
    forall b | 0 <= b < Calls(keys)
      ensures Against(client, full, i, b) <==> KeyFails(client(b, BatchOf(full, b)), prefix + keys[i], i, b) {
    }
    if exists b :: 0 <= b < Calls(keys) && KeyFails(client(b, BatchOf(full, b)), prefix + keys[i], i, b) {
      var b :| 0 <= b < Calls(keys) && KeyFails(client(b, BatchOf(full, b)), prefix + keys[i], i, b);
      assert Against(client, full, i, b);
    }
  }
}
