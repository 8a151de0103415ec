/** Upload followed by build: what the recipe and the store that
    `upload_cake` leaves behind give back when `build_cake` reads them. */
module RoundTrip {
  import opened Results
  import opened Slicing
  import opened RemoteStore
  import opened Recipes
  import opened Uploader
  import opened Builder
  import Paths

  /** If recipe entry `k` points at a blob holding window `k` of the file,
      for every slice the loop visits, the build reproduces the file. */
  lemma FiledWindowsRebuild(slices: seq<SliceEntry>, blobs: map<Url, Bytes>, data: Bytes, sliceSize: nat)
    requires sliceSize > 0
    requires |slices| == SliceCount(|data|, sliceSize)
    requires forall k :: 0 <= k < |slices| ==>
      slices[k].url in blobs && blobs[slices[k].url] == Window(data, k, sliceSize)
    ensures Assemble(slices, blobs) == Ok(data)
  {
    assert Fetched(slices, blobs) == Windows(data, sliceSize);
    WindowsCover(data, sliceSize);
  }

  /** Entry `k` of a filed recipe points at a blob holding what the
      `k`-th accepted attempt read, and that read obeys the policy. */
  lemma FiledPayloads(slices: seq<SliceEntry>, st: Store, log: seq<Attempt>, original: Store,
                      policy: SeekPolicy, data: Bytes, sliceSize: nat)
    requires SlicesFiled(slices, st, log, original)
    requires forall j :: 0 <= j < |log| ==> ReadAsPolicy(policy, data, sliceSize, log[j])
    ensures forall k :: 0 <= k < |slices| ==>
      && slices[k].url in st.blobs
      && AcceptedAttempts(log)[k] in log
      && AcceptedAttempts(log)[k].index == k
      && st.blobs[slices[k].url] == AcceptedAttempts(log)[k].payload
      && ReadAsPolicy(policy, data, sliceSize, AcceptedAttempts(log)[k])
  {
    AcceptedAreAttempts(log);
  }

  lemma {:induction false} AcceptedAreAccepted(log: seq<Attempt>, k: nat)
    requires k < |AcceptedAttempts(log)|
    ensures AcceptedAttempts(log)[k].response == Accepted
    decreases |log|
  {
    var init := log[..|log| - 1];
    if k < |AcceptedAttempts(init)| {
      AcceptedAreAccepted(init, k);
    }
  }

  /** With a faithful store and no failed attempt, building from the recipe
      the upload produced gives back exactly the original bytes, under the
      name the path split chose, and the checksum comparison succeeds. */
  lemma UploadThenBuild(path: string, data: Bytes, sliceSize: nat, store: Store,
                        script: seq<Response>, hash: Bytes -> Digest, now: int)
    requires sliceSize > 0 && Valid(store)
    requires AllAccepted(script) && |script| >= |data| / sliceSize + 1
    ensures var r := UploadCake(path, data, sliceSize, store, script, hash, now);
      && r.Ok?
      && BuildCake(r.value.recipe, r.value.store.blobs, hash)
         == Ok(Baked(Paths.SplitPath(path).filename + "." + Paths.SplitPath(path).format, data, true))
  {
    var policy := SeekOncePerSlice;
    var r := UploadWith(policy, path, data, sliceSize, store, script, hash, now);
    UploadWithoutFailures(policy, path, data, sliceSize, store, script, hash, now);
    UploadFilesEachSliceOnce(policy, path, data, sliceSize, store, script, hash, now);
    AttemptsReadAsPolicy(policy, path, data, sliceSize, store, script, hash, now);
    var u := r.value;
    Rebuild(u, store, policy, data, sliceSize);
  }

  /** The common end of both round trips: a filed upload whose accepted
      attempts each read their own window rebuilds the file. */
  lemma Rebuild(u: Upload, store: Store, policy: SeekPolicy, data: Bytes, sliceSize: nat)
    requires sliceSize > 0
    requires |u.recipe.slices| == SliceCount(|data|, sliceSize)
    requires SlicesFiled(u.recipe.slices, u.store, u.log, store)
    requires forall j :: 0 <= j < |u.log| ==> ReadAsPolicy(policy, data, sliceSize, u.log[j])
    requires policy == SeekOncePerSlice ==> forall j :: 0 <= j < |u.log| ==> u.log[j].retry == 0
    ensures Assemble(u.recipe.slices, u.store.blobs) == Ok(data)
  {
    FiledPayloads(u.recipe.slices, u.store, u.log, store, policy, data, sliceSize);
    forall k | 0 <= k < |u.recipe.slices|
      ensures u.store.blobs[u.recipe.slices[k].url] == Window(data, k, sliceSize)
    {
      var a := AcceptedAttempts(u.log)[k];
      assert ReadAsPolicy(policy, data, sliceSize, a);
    }
    FiledWindowsRebuild(u.recipe.slices, u.store.blobs, data, sliceSize);
  }

  /** With the seek inside the retry loop, every finished upload rebuilds
      the original bytes and passes the checksum comparison, however many
      attempts were rejected or failed in transport along the way. */
  lemma ReseekingUploadThenBuild(path: string, data: Bytes, sliceSize: nat, store: Store,
                                 script: seq<Response>, hash: Bytes -> Digest, now: int)
    requires sliceSize > 0 && Valid(store)
    ensures var r := UploadCakeReseeking(path, data, sliceSize, store, script, hash, now);
      r.Ok? ==>
        BuildCake(r.value.recipe, r.value.store.blobs, hash)
        == Ok(Baked(Paths.SplitPath(path).filename + "." + Paths.SplitPath(path).format, data, true))
  {
    var policy := SeekEveryAttempt;
    var r := UploadWith(policy, path, data, sliceSize, store, script, hash, now);
    if r.Ok? {
      UploadFilesEachSliceOnce(policy, path, data, sliceSize, store, script, hash, now);
      AttemptsReadAsPolicy(policy, path, data, sliceSize, store, script, hash, now);
      Rebuild(r.value, store, policy, data, sliceSize);
    }
  }

  /** A concrete run showing the as-written upload losing data. The file
      is one byte long and slices are two bytes, so there is one slice. Its
      first post is rejected after reading the byte; the retry reads on
      from where that read stopped, at the end of the file, and the
      channel accepts an empty slice. The build yields an empty file, and
      the checksum comparison fails for any hash that tells the two
      contents apart. */
  lemma RetryCorruptsCake(path: string, hash: Bytes -> Digest, now: int)
    ensures var r := UploadCake(path, [7], 2, Store(map[], 0), [Rejected, Accepted], hash, now);
      && r.Ok?
      && BuildCake(r.value.recipe, r.value.store.blobs, hash)
         == Ok(Baked(Paths.SplitPath(path).filename + "." + Paths.SplitPath(path).format, [], hash([]) == hash([7])))
  {
    var data: Bytes := [7];
    var script := [Rejected, Accepted];
    var policy := SeekOncePerSlice;
    UploadWithUnfold(policy, path, data, 2, Store(map[], 0), script, hash, now);
    assert SliceCount(|data|, 2) == 1;
    var s0 := StartSession(data, Store(map[], 0), script);
    var start := s0.(file := SourceFile.Seek(s0.file, 0));
    assert start.file == SourceFile.Handle(data, 0);
    var s1 := RejectedThenEmpty(start);
    var entries: seq<SliceEntry> := [];
    assert entries + [SliceEntry(0, 0)] == [SliceEntry(0, 0)];
    assert UploadSlices(s1, [SliceEntry(0, 0)], 1, 1, 2, policy) == Ok((s1, [SliceEntry(0, 0)]));
    assert SendSlice(start, 0, 0, 0 * 2, 2, policy) == Ok((s1, 0));
    assert UploadSlices(s0, entries, 0, 1, 2, policy) == Ok((s1, [SliceEntry(0, 0)]));
    assert s1.store.blobs == map[0 := []];
    assert Concat([[]]) == [];
  }

  /** The one slice of `RetryCorruptsCake`: rejected with the byte, then
      accepted empty and filed under locator 0. */
  lemma RejectedThenEmpty(start: Session) returns (s1: Session)
    requires start.file == SourceFile.Handle([7], 0)
    requires start.script == [Rejected, Accepted] && start.store == Store(map[], 0)
    ensures s1.store.blobs == map[0 := []]
    ensures SendSlice(start, 0, 0, 0, 2, SeekOncePerSlice) == Ok((s1, 0))
  {
    var data: Bytes := [7];
    var first := Attempt(0, 0, data, Rejected);
    assert Chunk(data, 0, 2) == data[0..1] == data;
    assert Chunk(data, 1, 2) == [];
    assert MakeAttempt(start, 0, 0, 0, 2, SeekOncePerSlice) == (first, SourceFile.Handle(data, 1));
    var mid := AfterAttempt(start, first, SourceFile.Handle(data, 1)).(bound := true);
    var second := Attempt(0, 1, [], Accepted);
    assert MakeAttempt(mid, 0, 1, 0, 2, SeekOncePerSlice) == (second, SourceFile.Handle(data, 1));
    s1 := AfterAttempt(mid, second, SourceFile.Handle(data, 1)).(store := Store(map[0 := []], 1), bound := true);
    assert SendSlice(mid, 0, 1, 0, 2, SeekOncePerSlice) == Ok((s1, 0));
  }

  /** On the run of `RetryCorruptsCake`, seeking before every attempt
      finishes too, and the build gives back the byte and passes the
      checksum comparison. */
  lemma ReseekingRecoversCake(path: string, hash: Bytes -> Digest, now: int)
    ensures var r := UploadCakeReseeking(path, [7], 2, Store(map[], 0), [Rejected, Accepted], hash, now);
      && r.Ok?
      && BuildCake(r.value.recipe, r.value.store.blobs, hash)
         == Ok(Baked(Paths.SplitPath(path).filename + "." + Paths.SplitPath(path).format, [7], true))
  {
    RetryCorruptsCake(path, hash, now);
    SeekPolicyOnlyMovesReads(path, [7], 2, Store(map[], 0), [Rejected, Accepted], hash, now);
    ReseekingUploadThenBuild(path, [7], 2, Store(map[], 0), [Rejected, Accepted], hash, now);
  }
}
