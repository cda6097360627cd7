/** The backup tool as it runs against a store nobody else writes to meanwhile. */
module BaseBackupTool {
  import opened Common
  import opened ObjectStore
  import opened StoreClient
  import opened BaseBackup

  type Weather = nat -> Network

  /** The rest of a backup once some files are uploaded: the final store and phase. */
  function Publish(job: Job, store: Store, uploaded: seq<Record>, weather: Weather): (Store, Phase)
    requires |uploaded| <= |job.files|
    decreases |job.files| - |uploaded|
  {
    if |uploaded| < |job.files| then
      var r, net := FileRequest(job, |uploaded|), weather(|uploaded|);
      var (next, outcome) := StoreClient.Complete(job.h, store, r, Begin, net);
      if outcome.Failed? then (next, Stopped(uploaded))
      else Publish(job, next, uploaded + [RecordOf(job, |uploaded|, outcome)], weather)
    else
      var r, net := ManifestRequest(job, uploaded), weather(|uploaded|);
      var (end, outcome) := StoreClient.Complete(job.h, store, r, Begin, net);
      (end, if outcome.Failed? || !BaseBackup.Complete(job, end) then Stopped(uploaded) else Finished(uploaded))
  }

  function FirstPhase(job: Job, uploaded: seq<Record>, pc: Pc): Phase {
    if |uploaded| < |job.files| then UploadingFile(uploaded, pc) else UploadingManifest(uploaded, pc)
  }

  lemma {:induction false} FileCalls(job: Job, store: Store, uploaded: seq<Record>, pc: Pc, net: Network)
    returns (schedule: seq<BackupEvent>)
    requires |uploaded| < |job.files| && !pc.Over()
    ensures
      var s, (end, outcome) := BackupState(store, UploadingFile(uploaded, pc)),
                               StoreClient.Complete(job.h, store, FileRequest(job, |uploaded|), pc, net);
      Legal(job, s, schedule) && Run(job, s, schedule) == BackupState(end, AfterFile(job, uploaded, Done(outcome)))
    decreases Rank(pc)
  {
    var s, r := BackupState(store, UploadingFile(uploaded, pc)), FileRequest(job, |uploaded|);
    var answer := AnswerTo(net, store, r, pc);
    var e, store', pc' := Reply(answer), NextStore(job.h, store, r, pc, answer), NextPc(job.h, store, r, pc, answer);
    assert Enabled(job, s, e) && Apply(job, s, e) == BackupState(store', AfterFile(job, uploaded, pc'));
    var rest := [];
    if !pc'.Done? {
      rest := FileCalls(job, store', uploaded, pc', net);
    }
    Prepend(job, s, e, rest);
    schedule := [e] + rest;
  }

  lemma {:induction false} ManifestCalls(job: Job, store: Store, uploaded: seq<Record>, pc: Pc, net: Network)
    returns (schedule: seq<BackupEvent>)
    requires !pc.Over()
    ensures
      var s, (end, outcome) := BackupState(store, UploadingManifest(uploaded, pc)),
                               StoreClient.Complete(job.h, store, ManifestRequest(job, uploaded), pc, net);
      Legal(job, s, schedule) && Run(job, s, schedule) == BackupState(end, AfterManifest(uploaded, Done(outcome)))
    decreases Rank(pc)
  {
    var s, r := BackupState(store, UploadingManifest(uploaded, pc)), ManifestRequest(job, uploaded);
    var answer := AnswerTo(net, store, r, pc);
    var e, store', pc' := Reply(answer), NextStore(job.h, store, r, pc, answer), NextPc(job.h, store, r, pc, answer);
    assert Enabled(job, s, e) && Apply(job, s, e) == BackupState(store', AfterManifest(uploaded, pc'));
    var rest := [];
    if !pc'.Done? {
      rest := ManifestCalls(job, store', uploaded, pc', net);
    }
    Prepend(job, s, e, rest);
    schedule := [e] + rest;
  }

  lemma {:induction false} RunAppend(job: Job, s: BackupState, a: seq<BackupEvent>, b: seq<BackupEvent>)
    requires Legal(job, s, a) && Legal(job, Run(job, s, a), b)
    ensures Legal(job, s, a + b) && Run(job, s, a + b) == Run(job, Run(job, s, a), b)
    decreases a
  {
    if a == [] {
      assert a + b == b;
    } else {
      assert (a + b)[1..] == a[1..] + b;
      RunAppend(job, Apply(job, s, a[0]), a[1..], b);
    }
  }

  /** A backup left alone is one run of the machine. */
  lemma {:induction false} PublishIsRun(job: Job, store: Store, uploaded: seq<Record>, weather: Weather)
    returns (schedule: seq<BackupEvent>)
    requires |uploaded| <= |job.files|
    ensures
      var s := BackupState(store, FirstPhase(job, uploaded, Begin));
      var (end, phase) := Publish(job, store, uploaded, weather);
      Legal(job, s, schedule) && Run(job, s, schedule) == BackupState(end, phase)
    decreases |job.files| - |uploaded|
  {
    hide StoreClient.Complete, NextStore, NextPc, AnswerTo;
    var s := BackupState(store, FirstPhase(job, uploaded, Begin));
    if |uploaded| < |job.files| {
      var first := FileCalls(job, store, uploaded, Begin, weather(|uploaded|));
      var r, net := FileRequest(job, |uploaded|), weather(|uploaded|);
      var (next, outcome) := StoreClient.Complete(job.h, store, r, Begin, net);
      schedule := first;
      if !outcome.Failed? {
        var rest := PublishIsRun(job, next, uploaded + [RecordOf(job, |uploaded|, outcome)], weather);
        RunAppend(job, s, first, rest);
        schedule := first + rest;
      }
    } else {
      schedule := ManifestCalls(job, store, uploaded, Begin, weather(|uploaded|));
      var r, net := ManifestRequest(job, uploaded), weather(|uploaded|);
      var (end, outcome) := StoreClient.Complete(job.h, store, r, Begin, net);
      if !outcome.Failed? {
        var mid := BackupState(end, Listing(uploaded));
        assert [Listed] + [] == [Listed];
        Prepend(job, mid, Listed, []);
        RunAppend(job, s, schedule, [Listed]);
        schedule := schedule + [Listed];
      }
    }
  }

  class BackupTool {
    const job: Job
    const client: Client

    constructor (job: Job, client: Client)
      ensures this.job == job && this.client == client
    {
      this.job, this.client := job, client;
    }

    /** Uploads file after file, then the manifest; a failed upload ends the backup. */
    method CreateBaseBackup(weather: Weather) returns (phase: Phase)
      requires client.h == job.h
      modifies client
      ensures (client.objects, phase) == Publish(job, old(client.objects), [], weather)
    {
      hide StoreClient.Complete;
      ghost var goal := Publish(job, client.objects, [], weather);
      var uploaded: seq<Record> := [];
      while |uploaded| < |job.files|
        invariant Describes(job, uploaded)
        invariant goal == Publish(job, client.objects, uploaded, weather)
      {
        var k := |uploaded|;
        var outcome := client.UploadFileVerified(FileRequest(job, k), weather(k));
        if outcome.Failed? {
          return Stopped(uploaded);
        }
        uploaded := uploaded + [RecordOf(job, k, outcome)];
      }
      var outcome := client.UploadFileVerified(ManifestRequest(job, uploaded), weather(|uploaded|));
      if outcome.Failed? {
        return Stopped(uploaded);
      }
      var complete := ListingShowsAll(uploaded);
      return if complete then Finished(uploaded) else Stopped(uploaded);
    }

    /** Compares the keys the backup should have with the keys that are there. */
    method ListingShowsAll(uploaded: seq<Record>) returns (complete: bool)
      requires Describes(job, uploaded) && |uploaded| == |job.files|
      ensures complete <==> BaseBackup.Complete(job, client.objects)
    {
      var expected := {ManifestKey(job)} + set i | 0 <= i < |uploaded| :: uploaded[i].key;
      complete := expected <= client.objects.Keys;
      assert forall i | 0 <= i < |uploaded| ::
          uploaded[i].key == FileRequest(job, i).key && uploaded[i].key in expected;
    }
  }

  /** After the tool returns, however it ended: if the manifest's key was free before and is taken
      now, all files are stored -- unless a file of that name comes before another one. */
  lemma {:induction false} ToolPublishesLast(job: Job, store: Store, weather: Weather)
    requires Staging(job) && !Shadowed(job) && ManifestKey(job) !in store
    ensures
      var (end, phase) := Publish(job, store, [], weather);
      && FilesFirst(job, end)
      && (phase.Finished? ==> ManifestKey(job) in end)
  {
    var schedule := PublishIsRun(job, store, [], weather);
    RunKeeps(job, Start(store), schedule);
    RunKeepsFilesFirst(job, Start(store), schedule);
  }

  // ---------------------------------------------------------------------------------------
  // Exactly when the manifest comes last
  // ---------------------------------------------------------------------------------------

  const CALM := Network(_ => false, _ => None)

  ghost predicate HasFirst(job: Job, store: Store, n: nat)
    requires n <= |job.files|
  {
    forall key :: key in store <==> exists k :: 0 <= k < n && FileRequest(job, k).key == key
  }

  ghost predicate Ready(job: Job, s: BackupState, n: nat)
    requires n <= |job.files|
  {
    s.phase.UploadingFile? && s.phase.pc == Begin && |s.phase.uploaded| == n && HasFirst(job, s.store, n)
  }

  lemma CalmFile(job: Job, s: BackupState, n: nat) returns (schedule: seq<BackupEvent>)
    requires Staging(job) && n + 1 < |job.files| && job.files[n].body != [] && Ready(job, s, n)
    ensures Legal(job, s, schedule) && Ready(job, Run(job, s, schedule), n + 1)
  {
    NotYet(job, s.store, n);
    QuietUpload(job.h, s.store, FileRequest(job, n), CALM);
    Extends(job, s.store, n);
    hide StoreClient.Complete, HasFirst, Staging, Legal, Run, RecordOf;
    schedule := FileCalls(job, s.store, s.phase.uploaded, Begin, CALM);
  }

  /** Undisturbed, the first files are uploaded one after the other. */
  lemma {:induction false} CalmFiles(job: Job, n: nat) returns (schedule: seq<BackupEvent>)
    requires Staging(job) && n < |job.files| && Filled(job, n)
    ensures Legal(job, Start(map[]), schedule) && Ready(job, Run(job, Start(map[]), schedule), n)
  {
    schedule := [];
    if n > 0 {
      hide Ready, Staging;
      var first := CalmFiles(job, n - 1);
      var next := CalmFile(job, Run(job, Start(map[]), first), n - 1);
      RunAppend(job, Start(map[]), first, next);
      schedule := first + next;
    }
  }

  lemma NotYet(job: Job, store: Store, n: nat)
    requires Staging(job) && n < |job.files| && HasFirst(job, store, n)
    ensures FileRequest(job, n).key !in store
  {
    if FileRequest(job, n).key in store {
      var k :| 0 <= k < n && FileRequest(job, k).key == FileRequest(job, n).key;
      KeyInjective(job, job.files[k].name, job.files[n].name);
    }
  }

  lemma Extends(job: Job, store: Store, n: nat)
    requires n < |job.files| && HasFirst(job, store, n)
    ensures HasFirst(job, store[FileRequest(job, n).key := ObjectOf(job.h, job.files[n].body)], n + 1)
  {
  }

  lemma ShadowBreaks(job: Job) returns (schedule: seq<BackupEvent>)
    requires Staging(job) && Shadowed(job)
    ensures Legal(job, Start(map[]), schedule) && !FilesFirst(job, Run(job, Start(map[]), schedule).store)
  {
    var k :| 0 <= k < |job.files| - 1 && job.files[k].name == MANIFEST_NAME && Filled(job, k + 1);
    var last := |job.files| - 1;
    schedule := CalmFiles(job, k + 1);
    var s := Run(job, Start(map[]), schedule);
    assert FileRequest(job, k).key == ManifestKey(job) && ManifestKey(job) in s.store;
    if FileRequest(job, last).key in s.store {
      var j :| 0 <= j < k + 1 && FileRequest(job, j).key == FileRequest(job, last).key;
      KeyInjective(job, job.files[j].name, job.files[last].name);
    }
    assert !Matches(job.h, s.store, FileRequest(job, last));
  }

  ghost predicate AlwaysFilesFirst(job: Job) {
    forall store, schedule | ManifestKey(job) !in store && Legal(job, Start(store), schedule) ::
      FilesFirst(job, Run(job, Start(store), schedule).store)
  }

  /**
   In every run from a store whose manifest key is free, that key is taken only once all files
   are stored -- exactly when no staged file of the manifest's name is uploaded before another
   file.
   */
  lemma FilesFirstIff(job: Job)
    requires Staging(job)
    ensures AlwaysFilesFirst(job) <==> !Shadowed(job)
  {
    hide Staging, FilesFirst, Shadowed;
    if !Shadowed(job) {
      forall store, schedule | ManifestKey(job) !in store && Legal(job, Start(store), schedule)
        ensures FilesFirst(job, Run(job, Start(store), schedule).store)
      {
        StartKeeps(job, store);
        RunKeepsFilesFirst(job, Start(store), schedule);
      }
    } else {
      var schedule := ShadowBreaks(job);
      assert ManifestKey(job) !in Start(map[]).store;
    }
  }

  lemma StartKeeps(job: Job, store: Store)
    requires Staging(job) && ManifestKey(job) !in store
    ensures Inv(job, Start(store)) && FilesFirst(job, store)
  {
  }

  // ---------------------------------------------------------------------------------------
  // A backup that nothing disturbs finishes
  // ---------------------------------------------------------------------------------------

  /** Nothing of this backup is stored yet but its first n files. */
  ghost predicate OnlyFirst(job: Job, store: Store, n: nat)
    requires n <= |job.files|
  {
    && ManifestKey(job) !in store && Stored(job, store, n)
    && forall k | n <= k < |job.files| :: FileRequest(job, k).key !in store
  }

  lemma FileStored(job: Job, store: Store, n: nat, net: Network)
    requires Staging(job) && !Named(job) && n < |job.files| && job.files[n].body != []
    requires OnlyFirst(job, store, n) && Quiet(net)
    ensures
      var (end, outcome) := StoreClient.Complete(job.h, store, FileRequest(job, n), Begin, net);
      outcome == Uploaded(Conditional) && OnlyFirst(job, end, n + 1)
  {
    var r := FileRequest(job, n);
    QuietUpload(job.h, store, r, net);
    hide StoreClient.Complete;
    UnnamedKey(job, n);
    var end := store[r.key := ObjectOf(job.h, r.body)];
    forall k | 0 <= k < |job.files| && k != n ensures FileRequest(job, k).key != r.key {
      if FileRequest(job, k).key == r.key {
        KeyInjective(job, job.files[k].name, job.files[n].name);
      }
    }
    forall k | 0 <= k < n + 1 ensures Matches(job.h, end, FileRequest(job, k)) {
      if k < n { assert Matches(job.h, store, FileRequest(job, k)); }
    }
  }

  /**
   With nothing going wrong, and nothing of this backup in the store but the files uploaded so
   far, the tool finishes, with a record for every file.
   */
  lemma {:induction false} QuietBackupFinishes(job: Job, store: Store, uploaded: seq<Record>, weather: Weather)
    requires Staging(job) && !Named(job) && Filled(job, |job.files|) && |uploaded| <= |job.files|
    requires forall n: nat :: Quiet(weather(n))
    requires forall records :: job.encode(Manifest(job.baseId, records)) != []
    requires OnlyFirst(job, store, |uploaded|) && Describes(job, uploaded)
    ensures
      var (end, phase) := Publish(job, store, uploaded, weather);
      && phase.Finished? && |phase.uploaded| == |job.files| && Describes(job, phase.uploaded)
      && Stored(job, end, |job.files|) && Matches(job.h, end, ManifestRequest(job, phase.uploaded))
    decreases |job.files| - |uploaded|
  {
    hide StoreClient.Complete, Staging, OnlyFirst, Quiet;
    var n := |uploaded|;
    assert Quiet(weather(n));
    if n < |job.files| {
      FileStored(job, store, n, weather(n));
      var (end, outcome) := StoreClient.Complete(job.h, store, FileRequest(job, n), Begin, weather(n));
      QuietBackupFinishes(job, end, uploaded + [RecordOf(job, n, outcome)], weather);
    } else {
      ManifestStored(job, store, uploaded, weather(n));
    }
  }

  lemma ManifestStored(job: Job, store: Store, uploaded: seq<Record>, net: Network)
    requires !Named(job) && Quiet(net) && OnlyFirst(job, store, |job.files|)
    requires job.encode(Manifest(job.baseId, uploaded)) != []
    ensures
      var (end, outcome) := StoreClient.Complete(job.h, store, ManifestRequest(job, uploaded), Begin, net);
      && outcome == Uploaded(Conditional) && BaseBackup.Complete(job, end)
      && Stored(job, end, |job.files|) && Matches(job.h, end, ManifestRequest(job, uploaded))
  {
    var r := ManifestRequest(job, uploaded);
    QuietUpload(job.h, store, r, net);
    hide StoreClient.Complete;
    var end := store[r.key := ObjectOf(job.h, r.body)];
    forall k | 0 <= k < |job.files| ensures Matches(job.h, end, FileRequest(job, k)) {
      UnnamedKey(job, k);
      assert Matches(job.h, store, FileRequest(job, k));
    }
    assert forall k | 0 <= k < |job.files| ::
        Matches(job.h, end, FileRequest(job, k)) ==> FileRequest(job, k).key in end;
  }
}
