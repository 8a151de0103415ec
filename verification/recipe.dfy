/** The recipe, the record `upload_cake` writes and `build_cake` reads
    (cake2.py:9, cake2.py:26-35). The JSON text form is not modelled; the
    record is a datatype with the same fields. */
module Recipes {
  import opened RemoteStore
  import Paths

  /** `VERSION` (cake2.py:9). */
  const Version: int := 2

  /** The only checksum method the uploader records. */
  const ChecksumMethod: string := "sha256"

  /** A hex digest as the recipe stores it. */
  type Digest = string

  datatype SliceEntry = SliceEntry(index: int, url: Url)

  datatype Recipe = Recipe(
    version: int,
    filename: string,
    format: string,
    timestamp: int,
    cakeSize: int,
    slices: seq<SliceEntry>,
    checksumMethod: string,
    checksum: Digest)

  /** The record as first created, before the file is looked at. */
  function NewRecipe(parts: Paths.PathParts): Recipe {
    Recipe(Version, parts.filename, parts.format, 0, 0, [], ChecksumMethod, "")
  }

  /** Entry `k` of the list carries index `k`: the indices are strictly
      ascending and each index below the length appears exactly once. */
  predicate InIndexOrder(slices: seq<SliceEntry>) {
    forall k :: 0 <= k < |slices| ==> slices[k].index == k
  }
}
