/** `upload_cake` (cake2.py:11-112) with the channel replaced by a remote
    store and a script of channel responses: the path split, the checksum
    taken before any slice is sent, one upload per slice index, retried
    until the channel accepts it, and one recipe entry appended per accepted
    upload. */
module Uploader {
  import opened Results
  import opened Slicing
  import opened SourceFile
  import opened RemoteStore
  import opened Recipes
  import Paths

  /** What the channel does with one upload attempt: a 200 response, any
      other status code, or an exception raised by the request itself. */
  datatype Response = Accepted | Rejected | TransportError

  /** One call of `requests.post`: the slice index, how many attempts for
      that index came before it, the bytes it carried and the outcome. */
  datatype Attempt = Attempt(index: nat, retry: nat, payload: Bytes, response: Response)

  datatype UploadError =
    /** The script ran out while a slice was still unsent: `upload_cake`
        would still be retrying. */
    | ScriptExhausted(index: nat)
    /** A request raised before any response had ever been received: the
        error handler reads `response.text` of a variable never assigned,
        which raises in turn and ends the upload. */
    | ResponseUnbound(index: nat)

  /** Where a retried attempt reads from. `upload_cake` seeks once per
      slice, before its retry loop; `SeekEveryAttempt` seeks again before
      every attempt. */
  datatype SeekPolicy = SeekOncePerSlice | SeekEveryAttempt

  /** The state the upload loop threads along: the open file, the store,
      the responses still to come, whether the local `response` has been
      assigned yet, and every attempt made so far. */
  datatype Session = Session(file: Handle, store: Store, script: seq<Response>, bound: bool, log: seq<Attempt>)

  /** A finished upload: the recipe to be written, the store holding the
      slices, and the attempts made. */
  datatype Upload = Upload(recipe: Recipe, store: Store, log: seq<Attempt>)

  /** One attempt (cake2.py:71-80): read `slice_size` bytes from the
      current position (after seeking back to the slice's offset, under
      `SeekEveryAttempt`) and post them; the script says how the channel
      answers. */
  function MakeAttempt(s: Session, index: nat, retry: nat, offset: nat, sliceSize: nat, policy: SeekPolicy): (Attempt, Handle)
    requires |s.script| > 0
  {
    var h := if policy == SeekEveryAttempt then Seek(s.file, offset) else s.file;
    var (payload, file) := Read(h, sliceSize);
    (Attempt(index, retry, payload, s.script[0]), file)
  }

  /** The session after an attempt: new file position, one response used up,
      the attempt logged. */
  function AfterAttempt(s: Session, a: Attempt, file: Handle): Session
    requires |s.script| > 0
  {
    s.(file := file, script := s.script[1..], log := s.log + [a])
  }

  /** The retry loop of one slice (cake2.py:67-96): attempt, and on anything
      but an accepted post go round again. Gives the session after the
      accepted post and the locator the store issued. */
  function SendSlice(s: Session, index: nat, retry: nat, offset: nat, sliceSize: nat, policy: SeekPolicy)
    : (r: Result<(Session, Url), UploadError>)
    ensures r.Err? ==> r.error.index == index
    ensures r.Ok? ==> |r.value.0.script| < |s.script|
    decreases |s.script|
  {
    if |s.script| == 0 then
      Err(ScriptExhausted(index))
    else
      var (a, file) := MakeAttempt(s, index, retry, offset, sliceSize, policy);
      var next := AfterAttempt(s, a, file);
      match a.response
      case Accepted =>
        var (url, store) := Put(s.store, a.payload);
        Ok((next.(store := store, bound := true), url))
      case Rejected =>
        SendSlice(next.(bound := true), index, retry + 1, offset, sliceSize, policy)
      case TransportError =>
        if s.bound then SendSlice(next, index, retry + 1, offset, sliceSize, policy)
        else Err(ResponseUnbound(index))
  }

  /** The slice loop (cake2.py:61-103) from slice `index` on: seek to the
      slice's offset, send it, then append `{index, url}`. */
  function UploadSlices(s: Session, slices: seq<SliceEntry>, index: nat, count: nat, sliceSize: nat, policy: SeekPolicy)
    : (r: Result<(Session, seq<SliceEntry>), UploadError>)
    ensures r.Err? ==> index <= r.error.index < count
    ensures r.Ok? && index <= count ==> |r.value.0.script| + (count - index) <= |s.script|
    decreases count - index
  {
    if index >= count then
      Ok((s, slices))
    else
      var offset := index * sliceSize;
      match SendSlice(s.(file := Seek(s.file, offset)), index, 0, offset, sliceSize, policy)
      case Err(e) => Err(e)
      case Ok((next, url)) => UploadSlices(next, slices + [SliceEntry(index, url)], index + 1, count, sliceSize, policy)
  }

  /** The whole upload for a file with contents `data`; `hash` stands for
      SHA-256 with hex encoding and `now` for the clock reading taken at
      the end. The recipe carries the fixed header, the path split, the
      checksum of the whole file and one entry per slice, entry `k` for
      index `k`. */
  function UploadWith(policy: SeekPolicy, path: string, data: Bytes, sliceSize: nat, store: Store,
                      script: seq<Response>, hash: Bytes -> Digest, now: int): (r: Result<Upload, UploadError>)
    requires sliceSize > 0
    ensures r.Ok? ==>
      var recipe := r.value.recipe;
      && recipe.version == 2
      && recipe.checksumMethod == "sha256"
      && recipe.checksum == hash(data)
      && recipe.filename == Paths.SplitPath(path).filename
      && recipe.format == Paths.SplitPath(path).format
      && recipe.timestamp == now
      && recipe.cakeSize == |data| / sliceSize + 1
      && |recipe.slices| == recipe.cakeSize
      && InIndexOrder(recipe.slices)
  {
    var parts := Paths.SplitPath(path);
    var count := SliceCount(|data|, sliceSize);
    var (contents, file) := ReadAll(Open(data));
    var recipe := NewRecipe(parts).(cakeSize := count, checksum := hash(contents));
    var run := UploadSlices(Session(file, store, script, false, []), [], 0, count, sliceSize, policy);
    UploadSlicesShape(Session(file, store, script, false, []), [], 0, count, sliceSize, policy);
    match run
    case Err(e) => Err(e)
    case Ok((s, slices)) => Ok(Upload(recipe.(slices := slices, timestamp := now), s.store, s.log))
  }

  /** `upload_cake` as written. */
  function UploadCake(path: string, data: Bytes, sliceSize: nat, store: Store,
                      script: seq<Response>, hash: Bytes -> Digest, now: int): Result<Upload, UploadError>
    requires sliceSize > 0
  {
    UploadWith(SeekOncePerSlice, path, data, sliceSize, store, script, hash, now)
  }

  /** `upload_cake` with the seek moved inside the retry loop. */
  function UploadCakeReseeking(path: string, data: Bytes, sliceSize: nat, store: Store,
                               script: seq<Response>, hash: Bytes -> Digest, now: int): Result<Upload, UploadError>
    requires sliceSize > 0
  {
    UploadWith(SeekEveryAttempt, path, data, sliceSize, store, script, hash, now)
  }

  lemma {:induction false} UploadSlicesShape(s: Session, slices: seq<SliceEntry>, index: nat, count: nat,
                                             sliceSize: nat, policy: SeekPolicy)
    requires |slices| == index <= count && InIndexOrder(slices)
    ensures var r := UploadSlices(s, slices, index, count, sliceSize, policy);
      r.Ok? ==> |r.value.1| == count && InIndexOrder(r.value.1)
    decreases count - index
  {
    if index < count {
      var offset := index * sliceSize;
      match SendSlice(s.(file := Seek(s.file, offset)), index, 0, offset, sliceSize, policy)
      case Err(e) =>
      case Ok((next, url)) =>
        var more := slices + [SliceEntry(index, url)];
        assert UploadSlices(s, slices, index, count, sliceSize, policy) == UploadSlices(next, more, index + 1, count, sliceSize, policy);
        assert InIndexOrder(more);
        UploadSlicesShape(next, more, index + 1, count, sliceSize, policy);
    }
  }

  /** The accepted attempts of a log, in order. */
  function AcceptedAttempts(log: seq<Attempt>): seq<Attempt>
    decreases |log|
  {
    if |log| == 0 then []
    else
      var last := log[|log| - 1];
      AcceptedAttempts(log[..|log| - 1]) + (if last.response == Accepted then [last] else [])
  }

  lemma AcceptedAttemptsSnoc(log: seq<Attempt>, a: Attempt)
    ensures AcceptedAttempts(log + [a]) == AcceptedAttempts(log) + (if a.response == Accepted then [a] else [])
  {
    assert (log + [a])[..|log|] == log;
  }

  /** `after` ends a slice's retry loop begun in `before`: its last
      attempt, for `index`, is accepted, and it is the only accepted
      attempt added. The file stays the same. */
  predicate ClosesSlice(before: Session, after: Session, index: nat) {
    && |after.log| > 0
    && after.log[|after.log| - 1].index == index
    && after.log[|after.log| - 1].response == Accepted
    && AcceptedAttempts(after.log) == AcceptedAttempts(before.log) + [after.log[|after.log| - 1]]
    && after.file.data == before.file.data
  }

  /** One slice's retry loop ends with exactly one accepted attempt, the
      last one, for that index. */
  lemma {:induction false} SendSliceAcceptsOnce(s: Session, index: nat, retry: nat, offset: nat, sliceSize: nat, policy: SeekPolicy)
    ensures var r := SendSlice(s, index, retry, offset, sliceSize, policy);
      r.Ok? ==> ClosesSlice(s, r.value.0, index)
    decreases |s.script|
  {
    if |s.script| > 0 {
      var (a, file) := MakeAttempt(s, index, retry, offset, sliceSize, policy);
      var next := AfterAttempt(s, a, file);
      AcceptedAttemptsSnoc(s.log, a);
      var r := SendSlice(s, index, retry, offset, sliceSize, policy);
      match a.response
      case Accepted =>
        var (url, store) := Put(s.store, a.payload);
        assert r == Ok((next.(store := store, bound := true), url));
      case Rejected =>
        assert r == SendSlice(next.(bound := true), index, retry + 1, offset, sliceSize, policy);
        SendSliceAcceptsOnce(next.(bound := true), index, retry + 1, offset, sliceSize, policy);
      case TransportError =>
        if s.bound {
          assert r == SendSlice(next, index, retry + 1, offset, sliceSize, policy);
          SendSliceAcceptsOnce(next, index, retry + 1, offset, sliceSize, policy);
        }
    }
  }

  /** The accepted payload of a slice is filed under a locator the store
      never issued before, and nothing else in the store changes. */
  lemma {:induction false} SendSliceStores(s: Session, index: nat, retry: nat, offset: nat, sliceSize: nat, policy: SeekPolicy)
    requires Valid(s.store)
    ensures var r := SendSlice(s, index, retry, offset, sliceSize, policy);
      r.Ok? ==>
        var (next, url) := r.value;
        && |next.log| > 0
        && url !in s.store.blobs
        && next.store.blobs == s.store.blobs[url := next.log[|next.log| - 1].payload]
        && Valid(next.store)
    decreases |s.script|
  {
    if |s.script| > 0 {
      var (a, file) := MakeAttempt(s, index, retry, offset, sliceSize, policy);
      var next := AfterAttempt(s, a, file);
      var r := SendSlice(s, index, retry, offset, sliceSize, policy);
      match a.response
      case Accepted =>
        var (url, store) := Put(s.store, a.payload);
        assert r == Ok((next.(store := store, bound := true), url));
      case Rejected =>
        assert r == SendSlice(next.(bound := true), index, retry + 1, offset, sliceSize, policy);
        SendSliceStores(next.(bound := true), index, retry + 1, offset, sliceSize, policy);
      case TransportError =>
        if s.bound {
          assert r == SendSlice(next, index, retry + 1, offset, sliceSize, policy);
          SendSliceStores(next, index, retry + 1, offset, sliceSize, policy);
        }
    }
  }

  /** What the recipe entries so far promise about the store: entry `k`
      points at a blob not in the original store that holds the payload of
      the `k`-th accepted attempt, and that attempt was for index `k`. */
  predicate SlicesFiled(slices: seq<SliceEntry>, store: Store, log: seq<Attempt>, original: Store) {
    && InIndexOrder(slices)
    && |AcceptedAttempts(log)| == |slices|
    && forall k :: 0 <= k < |slices| ==>
         && slices[k].url in store.blobs
         && slices[k].url !in original.blobs
         && store.blobs[slices[k].url] == AcceptedAttempts(log)[k].payload
         && AcceptedAttempts(log)[k].index == k
  }

  lemma {:induction false} UploadSlicesFiles(s: Session, slices: seq<SliceEntry>, index: nat, count: nat,
                                             sliceSize: nat, policy: SeekPolicy, original: Store)
    requires Valid(s.store) && Extends(original, s.store)
    requires |slices| == index <= count
    requires SlicesFiled(slices, s.store, s.log, original)
    ensures var r := UploadSlices(s, slices, index, count, sliceSize, policy);
      r.Ok? ==>
        var (next, slices') := r.value;
        && |slices'| == count
        && SlicesFiled(slices', next.store, next.log, original)
        && Valid(next.store)
        && Extends(original, next.store)
        && next.file.data == s.file.data
    decreases count - index
  {
    if index < count {
      var offset := index * sliceSize;
      var start := s.(file := Seek(s.file, offset));
      SendSliceAcceptsOnce(start, index, 0, offset, sliceSize, policy);
      SendSliceStores(start, index, 0, offset, sliceSize, policy);
      match SendSlice(start, index, 0, offset, sliceSize, policy)
      case Err(e) =>
      case Ok((next, url)) =>
        var more := slices + [SliceEntry(index, url)];
        FiledStep(slices, s.store, s.log, original, next.store, next.log, url);
        UploadSlicesFiles(next, more, index + 1, count, sliceSize, policy, original);
    }
  }

  /** Filing one more accepted payload under a fresh locator extends the
      promise by one entry. */
  lemma FiledStep(slices: seq<SliceEntry>, store: Store, log: seq<Attempt>, original: Store,
                  store': Store, log': seq<Attempt>, url: Url)
    requires SlicesFiled(slices, store, log, original) && Valid(store) && Extends(original, store)
    requires |log'| > 0 && log'[|log'| - 1].index == |slices|
    requires AcceptedAttempts(log') == AcceptedAttempts(log) + [log'[|log'| - 1]]
    requires url !in store.blobs && store'.blobs == store.blobs[url := log'[|log'| - 1].payload]
    ensures SlicesFiled(slices + [SliceEntry(|slices|, url)], store', log', original)
  {
    var more := slices + [SliceEntry(|slices|, url)];
    forall k | 0 <= k < |more|
      ensures && more[k].url in store'.blobs
              && more[k].url !in original.blobs
              && store'.blobs[more[k].url] == AcceptedAttempts(log')[k].payload
              && AcceptedAttempts(log')[k].index == k
    {
      if k < |slices| {
        assert more[k] == slices[k];
      }
    }
  }

  /** What an attempt must have read: as written, the `retry`-th attempt
      for slice `index` reads on from where the previous attempt stopped,
      at `(index + retry) * slice_size`; seeking before every attempt, it
      reads the slice's own window. */
  predicate ReadAsPolicy(policy: SeekPolicy, data: Bytes, sliceSize: nat, a: Attempt) {
    match policy
    case SeekOncePerSlice => a.payload == Chunk(data, (a.index + a.retry) * sliceSize, sliceSize)
    case SeekEveryAttempt => a.payload == Window(data, a.index, sliceSize)
  }

  /** Every attempt of a log read what the policy dictates. */
  predicate LogReadAsPolicy(policy: SeekPolicy, data: Bytes, sliceSize: nat, log: seq<Attempt>) {
    forall j :: 0 <= j < |log| ==> ReadAsPolicy(policy, data, sliceSize, log[j])
  }

  /** Two positions that agree once clamped to the file read the same bytes,
      and so do the positions `len` further on. */
  lemma SamePlace(data: Bytes, p: nat, q: nat, len: nat)
    requires Min(p, |data|) == Min(q, |data|)
    ensures Chunk(data, p, len) == Chunk(data, q, len)
    ensures Min(p + len, |data|) == Min(q + len, |data|)
  {
  }

  lemma MulDistrib(a: nat, b: nat, c: nat)
    ensures (a + b) * c == a * c + b * c
  {
  }

  lemma {:induction false} SendSliceReads(s: Session, index: nat, retry: nat, offset: nat, sliceSize: nat, policy: SeekPolicy)
    requires offset == index * sliceSize
    requires policy == SeekOncePerSlice ==>
      Min(s.file.pos, |s.file.data|) == Min(offset + retry * sliceSize, |s.file.data|)
    requires LogReadAsPolicy(policy, s.file.data, sliceSize, s.log)
    ensures var r := SendSlice(s, index, retry, offset, sliceSize, policy);
      r.Ok? ==>
        var next := r.value.0;
        && next.file.data == s.file.data
        && LogReadAsPolicy(policy, s.file.data, sliceSize, next.log)
    decreases |s.script|
  {
    if |s.script| > 0 {
      var data := s.file.data;
      var (a, file) := MakeAttempt(s, index, retry, offset, sliceSize, policy);
      var next := AfterAttempt(s, a, file);
      var r := SendSlice(s, index, retry, offset, sliceSize, policy);
      MulDistrib(index, retry, sliceSize);
      MulDistrib(retry, 1, sliceSize);
      if policy == SeekOncePerSlice {
        SamePlace(data, s.file.pos, offset + retry * sliceSize, sliceSize);
        assert file.pos == s.file.pos + |a.payload|;
        assert Min(file.pos, |data|) == Min(offset + (retry + 1) * sliceSize, |data|);
      }
      assert ReadAsPolicy(policy, data, sliceSize, a);
      assert LogReadAsPolicy(policy, data, sliceSize, next.log);
      match a.response
      case Accepted =>
        var (url, store) := Put(s.store, a.payload);
        assert r == Ok((next.(store := store, bound := true), url));
      case Rejected =>
        assert r == SendSlice(next.(bound := true), index, retry + 1, offset, sliceSize, policy);
        SendSliceReads(next.(bound := true), index, retry + 1, offset, sliceSize, policy);
      case TransportError =>
        if s.bound {
          assert r == SendSlice(next, index, retry + 1, offset, sliceSize, policy);
          SendSliceReads(next, index, retry + 1, offset, sliceSize, policy);
        }
    }
  }

  lemma {:induction false} UploadSlicesReads(s: Session, slices: seq<SliceEntry>, index: nat, count: nat,
                                             sliceSize: nat, policy: SeekPolicy)
    requires LogReadAsPolicy(policy, s.file.data, sliceSize, s.log)
    ensures var r := UploadSlices(s, slices, index, count, sliceSize, policy);
      r.Ok? ==> LogReadAsPolicy(policy, s.file.data, sliceSize, r.value.0.log)
    decreases count - index
  {
    if index < count {
      var offset := index * sliceSize;
      var start := s.(file := Seek(s.file, offset));
      assert offset + 0 * sliceSize == offset;
      SendSliceReads(start, index, 0, offset, sliceSize, policy);
      var sent := SendSlice(start, index, 0, offset, sliceSize, policy);
      if sent.Ok? {
        var (next, url) := sent.value;
        var more := slices + [SliceEntry(index, url)];
        assert UploadSlices(s, slices, index, count, sliceSize, policy) == UploadSlices(next, more, index + 1, count, sliceSize, policy);
        UploadSlicesReads(next, more, index + 1, count, sliceSize, policy);
      }
    }
  }

  /** The session the slice loop starts from (cake2.py:54-61): the file has
      been read to the end for the checksum, and no response exists yet. */
  function StartSession(data: Bytes, store: Store, script: seq<Response>): Session {
    Session(ReadAll(Open(data)).1, store, script, false, [])
  }

  lemma UploadWithUnfold(policy: SeekPolicy, path: string, data: Bytes, sliceSize: nat, store: Store,
                         script: seq<Response>, hash: Bytes -> Digest, now: int)
    requires sliceSize > 0
    ensures var run := UploadSlices(StartSession(data, store, script), [], 0, SliceCount(|data|, sliceSize), sliceSize, policy);
      var r := UploadWith(policy, path, data, sliceSize, store, script, hash, now);
      && (run.Err? <==> r.Err?)
      && (run.Ok? ==> r.value.recipe.slices == run.value.1 && r.value.store == run.value.0.store && r.value.log == run.value.0.log)
      && (run.Err? ==> r.error == run.error)
  {
  }

  /** A finished upload files each slice exactly once, however many
      attempts it took: the `k`-th accepted attempt is the one for index
      `k`, and recipe entry `k` points at a blob, new to the store, holding
      exactly the bytes that attempt carried. Nothing the store held before
      is disturbed. */
  lemma UploadFilesEachSliceOnce(policy: SeekPolicy, path: string, data: Bytes, sliceSize: nat, store: Store,
                                 script: seq<Response>, hash: Bytes -> Digest, now: int)
    requires sliceSize > 0 && Valid(store)
    ensures var r := UploadWith(policy, path, data, sliceSize, store, script, hash, now);
      r.Ok? ==>
        && Valid(r.value.store)
        && Extends(store, r.value.store)
        && |AcceptedAttempts(r.value.log)| == r.value.recipe.cakeSize
        && SlicesFiled(r.value.recipe.slices, r.value.store, r.value.log, store)
  {
    UploadWithUnfold(policy, path, data, sliceSize, store, script, hash, now);
    UploadSlicesFiles(StartSession(data, store, script), [], 0, SliceCount(|data|, sliceSize), sliceSize, policy, store);
  }

  /** Every attempt of a finished upload read the bytes its policy
      dictates. As written (cake2.py:65, cake2.py:80), the `retry`-th
      attempt for slice `index` carries the window at `(index + retry) *
      slice_size`, so only first attempts carry their own slice; seeking
      before every attempt, every attempt carries its own slice. */
  lemma AttemptsReadAsPolicy(policy: SeekPolicy, path: string, data: Bytes, sliceSize: nat, store: Store,
                             script: seq<Response>, hash: Bytes -> Digest, now: int)
    requires sliceSize > 0
    ensures var r := UploadWith(policy, path, data, sliceSize, store, script, hash, now);
      r.Ok? ==> forall j :: 0 <= j < |r.value.log| ==> ReadAsPolicy(policy, data, sliceSize, r.value.log[j])
  {
    UploadWithUnfold(policy, path, data, sliceSize, store, script, hash, now);
    UploadSlicesReads(StartSession(data, store, script), [], 0, SliceCount(|data|, sliceSize), sliceSize, policy);
  }

  predicate AllAccepted(script: seq<Response>) {
    forall j :: 0 <= j < |script| ==> script[j] == Accepted
  }

  lemma {:induction false} UploadSlicesWithoutFailures(s: Session, slices: seq<SliceEntry>, index: nat, count: nat,
                                                      sliceSize: nat, policy: SeekPolicy)
    requires AllAccepted(s.script) && |s.script| >= count - index
    requires forall j :: 0 <= j < |s.log| ==> s.log[j].retry == 0
    ensures var r := UploadSlices(s, slices, index, count, sliceSize, policy);
      && r.Ok?
      && forall j :: 0 <= j < |r.value.0.log| ==> r.value.0.log[j].retry == 0
    decreases count - index
  {
    if index < count {
      var offset := index * sliceSize;
      var start := s.(file := Seek(s.file, offset));
      var (a, file) := MakeAttempt(start, index, 0, offset, sliceSize, policy);
      var (url, store) := Put(start.store, a.payload);
      var next := AfterAttempt(start, a, file).(store := store, bound := true);
      assert SendSlice(start, index, 0, offset, sliceSize, policy) == Ok((next, url));
      assert UploadSlices(s, slices, index, count, sliceSize, policy)
          == UploadSlices(next, slices + [SliceEntry(index, url)], index + 1, count, sliceSize, policy);
      UploadSlicesWithoutFailures(next, slices + [SliceEntry(index, url)], index + 1, count, sliceSize, policy);
    }
  }

  /** When the channel accepts every post, the upload finishes after one
      attempt per slice, each a first attempt. */
  lemma UploadWithoutFailures(policy: SeekPolicy, path: string, data: Bytes, sliceSize: nat, store: Store,
                              script: seq<Response>, hash: Bytes -> Digest, now: int)
    requires sliceSize > 0
    requires AllAccepted(script) && |script| >= |data| / sliceSize + 1
    ensures var r := UploadWith(policy, path, data, sliceSize, store, script, hash, now);
      && r.Ok?
      && forall j :: 0 <= j < |r.value.log| ==> r.value.log[j].retry == 0
  {
    UploadWithUnfold(policy, path, data, sliceSize, store, script, hash, now);
    UploadSlicesWithoutFailures(StartSession(data, store, script), [], 0, SliceCount(|data|, sliceSize), sliceSize, policy);
  }

  /** A request that raises before any response was ever received ends the
      upload: the handler's `response.text` (cake2.py:93) names a variable
      not yet assigned. */
  lemma FirstTransportErrorAborts(policy: SeekPolicy, path: string, data: Bytes, sliceSize: nat, store: Store,
                                  script: seq<Response>, hash: Bytes -> Digest, now: int)
    requires sliceSize > 0
    requires |script| > 0 && script[0] == TransportError
    ensures UploadWith(policy, path, data, sliceSize, store, script, hash, now) == Err(ResponseUnbound(0))
  {
    UploadWithUnfold(policy, path, data, sliceSize, store, script, hash, now);
    var s := StartSession(data, store, script);
    var start := s.(file := Seek(s.file, 0));
    assert SendSlice(start, 0, 0, 0, sliceSize, policy) == Err(ResponseUnbound(0));
  }

  lemma {:induction false} AcceptedAreAttempts(log: seq<Attempt>)
    ensures forall k :: 0 <= k < |AcceptedAttempts(log)| ==> AcceptedAttempts(log)[k] in log
    decreases |log|
  {
    if |log| > 0 {
      var init := log[..|log| - 1];
      AcceptedAreAttempts(init);
      forall a | a in init
        ensures a in log
      {
      }
    }
  }

  /** Two sessions in step: the same responses still to come, the same
      `response` binding, and the same next locator. Where the file stands
      and what the store holds may differ. */
  predicate InStep(s1: Session, s2: Session) {
    s1.script == s2.script && s1.bound == s2.bound && s1.store.next == s2.store.next
  }

  /** Where an attempt reads never decides how the retry loop goes: two
      sessions in step finish or fail a slice together, with the same
      locator or the same error, and stay in step. */
  lemma {:induction false} SendSliceInStep(s1: Session, s2: Session, index: nat, retry: nat, offset: nat, sliceSize: nat,
                                           p1: SeekPolicy, p2: SeekPolicy)
    requires InStep(s1, s2)
    ensures var r1 := SendSlice(s1, index, retry, offset, sliceSize, p1);
      var r2 := SendSlice(s2, index, retry, offset, sliceSize, p2);
      && r1.Ok? == r2.Ok?
      && (r1.Err? ==> r1.error == r2.error)
      && (r1.Ok? ==> InStep(r1.value.0, r2.value.0) && r1.value.1 == r2.value.1)
    decreases |s1.script|
  {
    if |s1.script| > 0 {
      var (a1, f1) := MakeAttempt(s1, index, retry, offset, sliceSize, p1);
      var (a2, f2) := MakeAttempt(s2, index, retry, offset, sliceSize, p2);
      var n1 := AfterAttempt(s1, a1, f1);
      var n2 := AfterAttempt(s2, a2, f2);
      var r1 := SendSlice(s1, index, retry, offset, sliceSize, p1);
      var r2 := SendSlice(s2, index, retry, offset, sliceSize, p2);
      match a1.response
      case Accepted =>
        assert r1 == Ok((n1.(store := Put(s1.store, a1.payload).1, bound := true), s1.store.next));
        assert r2 == Ok((n2.(store := Put(s2.store, a2.payload).1, bound := true), s2.store.next));
      case Rejected =>
        assert r1 == SendSlice(n1.(bound := true), index, retry + 1, offset, sliceSize, p1);
        assert r2 == SendSlice(n2.(bound := true), index, retry + 1, offset, sliceSize, p2);
        SendSliceInStep(n1.(bound := true), n2.(bound := true), index, retry + 1, offset, sliceSize, p1, p2);
      case TransportError =>
        if s1.bound {
          assert r1 == SendSlice(n1, index, retry + 1, offset, sliceSize, p1);
          assert r2 == SendSlice(n2, index, retry + 1, offset, sliceSize, p2);
          SendSliceInStep(n1, n2, index, retry + 1, offset, sliceSize, p1, p2);
        }
    }
  }

  /** Two runs of the slice loop that finish together with the same
      entries, or fail together with the same error. */
  predicate SameEntries(r1: Result<(Session, seq<SliceEntry>), UploadError>, r2: Result<(Session, seq<SliceEntry>), UploadError>) {
    && r1.Ok? == r2.Ok?
    && (r1.Err? ==> r1.error == r2.error)
    && (r1.Ok? ==> r1.value.1 == r2.value.1)
  }

  lemma {:induction false} UploadSlicesInStep(s1: Session, s2: Session, slices: seq<SliceEntry>, index: nat, count: nat,
                                              sliceSize: nat, p1: SeekPolicy, p2: SeekPolicy)
    requires InStep(s1, s2)
    ensures SameEntries(UploadSlices(s1, slices, index, count, sliceSize, p1),
                        UploadSlices(s2, slices, index, count, sliceSize, p2))
    decreases count - index
  {
    if index < count {
      var offset := index * sliceSize;
      var t1 := s1.(file := Seek(s1.file, offset));
      var t2 := s2.(file := Seek(s2.file, offset));
      SendSliceInStep(t1, t2, index, 0, offset, sliceSize, p1, p2);
      var a1 := SendSlice(t1, index, 0, offset, sliceSize, p1);
      var a2 := SendSlice(t2, index, 0, offset, sliceSize, p2);
      if a1.Ok? {
        var (n1, url) := a1.value;
        var n2 := a2.value.0;
        var more := slices + [SliceEntry(index, url)];
        assert UploadSlices(s1, slices, index, count, sliceSize, p1) == UploadSlices(n1, more, index + 1, count, sliceSize, p1);
        assert UploadSlices(s2, slices, index, count, sliceSize, p2) == UploadSlices(n2, more, index + 1, count, sliceSize, p2);
        UploadSlicesInStep(n1, n2, more, index + 1, count, sliceSize, p1, p2);
      } else {
        assert UploadSlices(s1, slices, index, count, sliceSize, p1) == Err(a1.error);
        assert UploadSlices(s2, slices, index, count, sliceSize, p2) == Err(a2.error);
      }
    }
  }

  /** Seeking before every attempt changes only the bytes the attempts
      carry: against the same responses, the corrected upload finishes
      exactly when `upload_cake` does, with the same recipe (the same
      locators in the same order), and fails with the same error when it
      fails. */
  lemma SeekPolicyOnlyMovesReads(path: string, data: Bytes, sliceSize: nat, store: Store,
                                 script: seq<Response>, hash: Bytes -> Digest, now: int)
    requires sliceSize > 0
    ensures var r1 := UploadCake(path, data, sliceSize, store, script, hash, now);
      var r2 := UploadCakeReseeking(path, data, sliceSize, store, script, hash, now);
      && r1.Ok? == r2.Ok?
      && (r1.Err? ==> r1.error == r2.error)
      && (r1.Ok? ==> r1.value.recipe == r2.value.recipe)
  {
    UploadWithUnfold(SeekOncePerSlice, path, data, sliceSize, store, script, hash, now);
    UploadWithUnfold(SeekEveryAttempt, path, data, sliceSize, store, script, hash, now);
    var s := StartSession(data, store, script);
    UploadSlicesInStep(s, s, [], 0, SliceCount(|data|, sliceSize), sliceSize, SeekOncePerSlice, SeekEveryAttempt);
  }
}
