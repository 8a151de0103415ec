/** `build_cake` (cake2.py:115-163): fetch the bytes of every recipe entry
    in the order the entries are listed, write them one after another into
    `<filename>.<format>`, then compare the SHA-256 of what was written with
    the recorded checksum. */
module Builder {
  import opened Results
  import opened Slicing
  import opened RemoteStore
  import opened Recipes

  /** The file produced, its contents, and whether the checksums matched. */
  datatype Baked = Baked(name: string, output: Bytes, verified: bool)

  /** A fetch failed at list position `position`; `written` is what the
      output file held when the build stopped. */
  datatype BuildError = FetchFailed(position: nat, url: Url, written: Bytes)

  /** The bytes behind each entry's locator, in list order (nothing for a
      locator the store does not know). */
  function Fetched(slices: seq<SliceEntry>, blobs: map<Url, Bytes>): (parts: seq<Bytes>)
    ensures |parts| == |slices|
    ensures forall k :: 0 <= k < |slices| && slices[k].url in blobs ==> parts[k] == blobs[slices[k].url]
  {
    seq(|slices|, k requires 0 <= k < |slices| => if slices[k].url in blobs then blobs[slices[k].url] else [])
  }

  predicate AllStored(slices: seq<SliceEntry>, blobs: map<Url, Bytes>) {
    forall k :: 0 <= k < |slices| ==> slices[k].url in blobs
  }

  lemma FetchedPrefix(slices: seq<SliceEntry>, blobs: map<Url, Bytes>, n: nat)
    requires n <= |slices|
    ensures Fetched(slices[..n], blobs) == Fetched(slices, blobs)[..n]
  {
  }

  /** The download loop (cake2.py:138-144). It succeeds exactly when every
      locator can be fetched, and then yields the fetched bytes
      concatenated in list order. Otherwise it stops at the first locator
      that cannot be fetched, with everything before it written. */
  function Assemble(slices: seq<SliceEntry>, blobs: map<Url, Bytes>): (r: Result<Bytes, BuildError>)
    ensures r.Ok? <==> AllStored(slices, blobs)
    ensures r.Ok? ==> r.value == Concat(Fetched(slices, blobs))
    ensures r.Err? ==>
      var p := r.error.position;
      && p < |slices|
      && r.error.url == slices[p].url
      && slices[p].url !in blobs
      && AllStored(slices[..p], blobs)
      && r.error.written == Concat(Fetched(slices[..p], blobs))
    decreases |slices|
  {
    if |slices| == 0 then
      Ok([])
    else
      var init := slices[..|slices| - 1];
      var e := slices[|slices| - 1];
      FetchedPrefix(slices, blobs, |slices| - 1);
      match Assemble(init, blobs)
      case Err(err) =>
        assert init[..err.position] == slices[..err.position];
        Err(err)
      case Ok(written) =>
        if e.url in blobs then
          Ok(written + blobs[e.url])
        else
          assert slices[..|slices| - 1] == init;
          Err(FetchFailed(|slices| - 1, e.url, written))
  }

  /** The whole build for a recipe against the store's contents; `hash`
      stands for SHA-256 with hex encoding. The output file is produced
      whether or not the checksums match; only a failed fetch stops it. */
  function BuildCake(recipe: Recipe, blobs: map<Url, Bytes>, hash: Bytes -> Digest): (r: Result<Baked, BuildError>)
    ensures r.Ok? <==> AllStored(recipe.slices, blobs)
    ensures r.Ok? ==>
      && r.value.name == recipe.filename + "." + recipe.format
      && r.value.output == Concat(Fetched(recipe.slices, blobs))
      && (r.value.verified <==> hash(r.value.output) == recipe.checksum)
  {
    match Assemble(recipe.slices, blobs)
    case Err(e) => Err(e)
    case Ok(output) => Ok(Baked(recipe.filename + "." + recipe.format, output, hash(output) == recipe.checksum))
  }

  /** The build reads the entries' locators in list order and never looks
      at their `index` fields: relabelling the indices changes nothing. */
  lemma BuildIgnoresIndexField(recipe: Recipe, relabelled: seq<SliceEntry>, blobs: map<Url, Bytes>, hash: Bytes -> Digest)
    requires |relabelled| == |recipe.slices|
    requires forall k :: 0 <= k < |relabelled| ==> relabelled[k].url == recipe.slices[k].url
    ensures BuildCake(recipe.(slices := relabelled), blobs, hash) == BuildCake(recipe, blobs, hash)
  {
    var r1 := BuildCake(recipe.(slices := relabelled), blobs, hash);
    var r2 := BuildCake(recipe, blobs, hash);
    assert Fetched(relabelled, blobs) == Fetched(recipe.slices, blobs);
    assert AllStored(relabelled, blobs) <==> AllStored(recipe.slices, blobs);
    if r1.Err? {
      var p1 := r1.error.position;
      var p2 := r2.error.position;
      forall k | 0 <= k < p2
        ensures relabelled[k].url in blobs
      {
        assert recipe.slices[..p2][k] == recipe.slices[k];
      }
      forall k | 0 <= k < p1
        ensures recipe.slices[k].url in blobs
      {
        assert relabelled[..p1][k] == relabelled[k];
      }
      assert p1 == p2;
      assert Fetched(relabelled[..p1], blobs) == Fetched(recipe.slices[..p1], blobs);
    }
  }

  /** Entries listed out of index order are concatenated as listed: a
      recipe listing index 1 before index 0 yields slice 1's bytes first. */
  lemma BuildFollowsListOrder(recipe: Recipe, blobs: map<Url, Bytes>, hash: Bytes -> Digest, u0: Url, u1: Url)
    requires recipe.slices == [SliceEntry(1, u1), SliceEntry(0, u0)]
    requires u0 in blobs && u1 in blobs
    ensures BuildCake(recipe, blobs, hash).Ok?
    ensures BuildCake(recipe, blobs, hash).value.output == blobs[u1] + blobs[u0]
  {
    var f := Fetched(recipe.slices, blobs);
    assert f[..1][..0] == [];
    assert f[..1] == [blobs[u1]];
    assert f == [blobs[u1], blobs[u0]];
    assert f[..|f| - 1] == f[..1];
    assert Concat(f[..1]) == blobs[u1];
    assert Concat(f) == Concat(f[..1]) + blobs[u0];
  }

  /** Only the slices, the name fields and the checksum matter: the build
      checks neither the version, nor `cake_size` against the number of
      entries, nor the recorded checksum method. */
  lemma BuildIgnoresHeader(recipe: Recipe, blobs: map<Url, Bytes>, hash: Bytes -> Digest,
                           version: int, timestamp: int, cakeSize: int, checksumMethod: string)
    ensures BuildCake(recipe.(version := version, timestamp := timestamp, cakeSize := cakeSize,
                              checksumMethod := checksumMethod), blobs, hash)
         == BuildCake(recipe, blobs, hash)
  {
  }

  /** With a collision-free hash, the comparison succeeds exactly when the
      output is the file whose checksum the recipe records. */
  lemma VerifiedIffIdentical(recipe: Recipe, blobs: map<Url, Bytes>, hash: Bytes -> Digest, original: Bytes)
    requires forall a: Bytes, b: Bytes :: hash(a) == hash(b) ==> a == b
    requires recipe.checksum == hash(original)
    requires AllStored(recipe.slices, blobs)
    ensures BuildCake(recipe, blobs, hash).value.verified <==> BuildCake(recipe, blobs, hash).value.output == original
  {
  }
}
