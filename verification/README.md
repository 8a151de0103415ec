# Cake slicing and baking, modelled in Dafny

`cake2.py` stores a file in a chat channel. It cuts the file into slices and
uploads each slice as an attachment. A *recipe* records the slices' locators,
and the file can later be *baked* back from that recipe.

This project models the two core routines of that program:

- `upload_cake` (cake2.py:11-112) does four things:
  - It splits the file path into a `filename` and a `format`.
  - It cuts the file into `size // slice_size + 1` windows.
  - For each slice index it seeks to `index * slice_size` once, then posts `f.read(slice_size)` until the channel answers 200. Every retry reads on from wherever the previous read left the file. It then appends one `{index, url}` entry to the recipe.
  - It records a fixed header, the slice count and the SHA-256 of the whole file.
- `build_cake` (cake2.py:115-163) fetches every entry's locator in list order and writes the bytes one after another into `<filename>.<format>`. It then compares the SHA-256 of the result with the recorded checksum.

The channel is replaced by a remote store: a map from locators to bytes with a
counter that issues fresh locators. The channel's answers come from a finite
script with three kinds of response:

- an accepted post (status 200);
- a rejected post (any other status);
- a transport error (the request raised).

Running out of script means the uploader would still be retrying. SHA-256 with hex encoding is a function parameter `hash`.

Modules, in dependency order:

| module | file | what it holds |
|---|---|---|
| `Results` | results.dfy | the `Result` type for error paths |
| `PyStr` | pystr.dfy | Python's `str.split` and `str.replace` as left-to-right scans, with `join` and their identities |
| `Paths` | paths.dfy | the path split of cake2.py:20-24 |
| `Slicing` | slicing.dfy | slice count, slice windows, concatenation |
| `SourceFile` | sourcefile.dfy | the open binary file: `seek`, `read(n)`, `read()` |
| `RemoteStore` | store.dfy | the store standing in for the channel |
| `Recipes` | recipe.dfy | the recipe record, `VERSION = 2`, `"sha256"` |
| `Uploader` | uploader.dfy | `upload_cake` and the facts about its loops |
| `Builder` | builder.dfy | `build_cake` |
| `RoundTrip` | roundtrip.dfy | upload followed by build |

The uploader's position in the file matters, because `f.seek(index*slice_size)`
(cake2.py:65) sits outside the retry loop while `f.read(slice_size)`
(cake2.py:80) runs on every attempt. The model therefore threads a file
handle through the loops and is parameterised by a seek policy:

- `SeekOncePerSlice` is the code as written (`Uploader.UploadCake`).
- `SeekEveryAttempt` seeks again before each attempt (`Uploader.UploadCakeReseeking`).

See "Findings".

The model also reproduces what happens when the very first post raises. The
handler at cake2.py:91-93 prints `response.text`, but `response` has not been
assigned yet. That raises `UnboundLocalError`, which ends the upload. This is
`Err(ResponseUnbound(index))`. After any response has been received, a
transport error just retries. The loop is commented as an error-retrying
loop (cake2.py:66) and catches every exception (cake2.py:91), so a retry was
evidently meant here too. The model follows the code.

## Model

| member | source | states |
|---|---|---|
| PyStr.Split | cake2.py:20-22 | `s.split(sep)` always yields at least one piece |
| PyStr.Replace | cake2.py:24 | a string with no occurrence of the pattern comes back unchanged |
| PyStr.JoinSplit | cake2.py:20-22 | joining the pieces of `s.split(sep)` with `sep` gives back `s` |
| PyStr.SplitPiecesAvoidSeparator | cake2.py:20-22 | no piece of `s.split(sep)` contains `sep` |
| PyStr.ReplaceIsJoinOfSplit | cake2.py:24 | `s.replace(pat, rep)` equals `rep.join(s.split(pat))` for the scanning replacement |
| PyStr.ReplaceChar | cake2.py:20 | replacing one character by another keeps the length and changes exactly the positions holding that character |
| PyStr.LastPiece | cake2.py:20-22 | `s.split(c)[-1]` is the text after the last `c`: free of `c`, a suffix of `s`, and either all of `s` or preceded by `c` |
| PyStr.ReplaceSuffixOnly | cake2.py:24 | if no occurrence of `pat` starts inside `t`, then `(t + pat).replace(pat, rep)` is `t + rep` |
| PyStr.TextAfterLastUnique | cake2.py:22 | the text after the last `c` is determined by the string |
| Paths.Normalize | cake2.py:20 | every backslash becomes a slash and nothing else changes |
| Paths.BaseName | cake2.py:20 | the base name is a suffix of the path with neither kind of slash in it, and it is the whole path or follows a slash or backslash |
| Paths.SplitPath | cake2.py:20-24 | `format` is the text after the last `.` of the base name; `filename` is the base name with every `'.'+format` removed; without a `.` both equal the base name |
| Paths.StemAndExtension | cake2.py:20-24 | for a base name `stem.ext` where `ext` has no `.` and `.ext` does not occur in `stem`, the split gives exactly `stem` and `ext` |
| Slicing.SliceCount | cake2.py:42 | the count is at least one, and it is the one count whose last window starts inside the file or exactly at its end |
| Slicing.WindowContents | cake2.py:61-80 | window `index` covers bytes `[index*slice_size, min((index+1)*slice_size, size))`; all windows but the last are full; the last holds `size % slice_size` bytes and is empty exactly when the size is a multiple of the slice size |
| Slicing.WindowsCover | cake2.py:61-80 | the windows, concatenated in index order, are the whole file |
| Slicing.ConcatAppend | cake2.py:138-142 | writing two lists of slices one after the other writes their concatenations one after the other |
| SourceFile.Read | cake2.py:80 | `read(n)` returns the bytes starting at the position, at most `n` of them and fewer only at the end of the file, nothing at or past the end, and advances the position by what it returned |
| SourceFile.ReadAll | cake2.py:57 | `read()` from a freshly opened file returns the whole file and leaves the position at the end |
| RemoteStore.Put | cake2.py:79-102 | an accepted upload files the payload under a locator never issued before and leaves every earlier locator as it was |
| Uploader.UploadWith | cake2.py:11-112 | a finished upload records version 2, `"sha256"`, the hash of the whole file, the path split and the clock reading; `cake_size` is `size // slice_size + 1`, which is also the number of entries; entry `k` carries index `k` |
| Uploader.SendSlice | cake2.py:67-96 | a slice's retry loop either fails naming that slice's index, or finishes having used up at least one response |
| Uploader.UploadSlices | cake2.py:61-103 | the slice loop either fails at a slice it was still to send, or finishes having used at least one response per slice |
| Uploader.UploadSlicesShape | cake2.py:61-103 | the slice loop appends exactly one entry per index, in index order |
| Uploader.SendSliceAcceptsOnce | cake2.py:67-96 | a slice's retry loop ends with exactly one accepted attempt, its last, for that index |
| Uploader.SendSliceStores | cake2.py:79-102 | the accepted payload is filed under a fresh locator and nothing else in the store changes |
| Uploader.FiledStep | cake2.py:97-103 | appending the entry for a freshly filed payload keeps entry `k` pointing at the payload of the `k`-th accepted attempt |
| Uploader.UploadSlicesFiles | cake2.py:61-103 | after the slice loop, entry `k` points at a blob new to the store that holds what the `k`-th accepted attempt sent, and that attempt was for index `k` |
| Uploader.UploadFilesEachSliceOnce | cake2.py:61-103 | a finished upload has exactly `cake_size` accepted attempts, one per index, each filed under its entry; earlier contents of the store are untouched |
| Uploader.SendSliceReads | cake2.py:65-80 | within one slice's retry loop, each attempt reads what the seek policy dictates |
| Uploader.UploadSlicesReads | cake2.py:61-80 | across the slice loop, each attempt reads what the seek policy dictates |
| Uploader.AttemptsReadAsPolicy | cake2.py:65-80 | as written, the `retry`-th attempt for slice `index` sends the window at `(index + retry) * slice_size`, so a first attempt sends its own window; with a seek per attempt every attempt sends its own window |
| Uploader.UploadWithoutFailures | cake2.py:61-103 | when the channel accepts every post and enough responses remain, the upload finishes with one first attempt per slice |
| Uploader.FirstTransportErrorAborts | cake2.py:79-93 | a request that raises before any response was received ends the upload with the unbound-response error at slice 0 |
| Uploader.SendSliceInStep | cake2.py:67-96 | where an attempt reads never affects how a slice's retry loop goes |
| Uploader.UploadSlicesInStep | cake2.py:61-103 | two slice loops fed the same responses produce the same entries or the same error |
| Uploader.SeekPolicyOnlyMovesReads | cake2.py:65-80 | seeking before every attempt finishes or fails exactly when the code as written does, with the same recipe or the same error |
| Uploader.AcceptedAreAttempts | cake2.py:67-96 | every accepted attempt is one of the attempts made |
| Builder.Assemble | cake2.py:136-144 | the download loop succeeds exactly when every locator can be fetched, and then writes the fetched bytes in list order; otherwise it stops at the first missing locator, having written the bytes of every entry before it |
| Builder.BuildCake | cake2.py:130-163 | the output file is named `filename.format` and holds the fetched bytes in list order; it is produced whether or not the checksums agree; it is verified exactly when its hash equals the recorded checksum |
| Builder.BuildIgnoresIndexField | cake2.py:138-144 | relabelling the entries' `index` fields changes nothing about the build |
| Builder.BuildFollowsListOrder | cake2.py:138-142 | an entry for index 1 listed before index 0 puts slice 1's bytes first |
| Builder.BuildIgnoresHeader | cake2.py:129-163 | the build does not depend on the version, the timestamp, `cake_size` or the checksum method |
| Builder.VerifiedIffIdentical | cake2.py:150-163 | with a collision-free hash, verification succeeds exactly when the output is the original file |
| RoundTrip.FiledWindowsRebuild | cake2.py:136-144 | if entry `k` points at window `k` for every slice, the build writes the original file |
| RoundTrip.FiledPayloads | cake2.py:97-103 | entry `k` of a filed recipe points at the bytes the `k`-th accepted attempt sent, which were read as the seek policy dictates |
| RoundTrip.AcceptedAreAccepted | cake2.py:83-86 | every attempt among the accepted ones had an accepted response |
| RoundTrip.Rebuild | cake2.py:61-144 | a filed upload whose accepted attempts each sent their own window rebuilds the original file |
| RoundTrip.UploadThenBuild | cake2.py:54-152 | with a faithful store and every post accepted, the upload finishes, and building from its recipe writes exactly the original bytes under the split name and verifies |
| RoundTrip.ReseekingUploadThenBuild | cake2.py:65-80 | seeking before every attempt, every finished upload rebuilds the original bytes and verifies, however many attempts failed |
| RoundTrip.RetryCorruptsCake | cake2.py:65-80 | as written, a one-byte file with two-byte slices whose first post is rejected finishes with an empty slice filed; the build writes an empty file, which verifies only if the hash cannot tell it from the original |
| RoundTrip.ReseekingRecoversCake | cake2.py:65-80 | on the same run, seeking before every attempt rebuilds the byte and verifies |

## Left out

- HTTP and the chat service are not modelled: headers, token, channel URL, the random nonce and the JSON shape of responses (cake2.py:46-49, 59, 71-77, 102). A post is one script entry, and the attachment URL is the store's fresh locator.
- The unbounded `while True` and `time.sleep(10)` are not modelled. An upload whose script runs out ends in `ScriptExhausted`, which stands for an upload still retrying.
- Timing and `print` diagnostics are left out. The final `int(time.time())` is the parameter `now`.
- SHA-256 and hex encoding are the parameter `hash`. Their collision resistance is an explicit hypothesis wherever it is used.
- JSON serialisation and reading of the recipe file are left out: the recipe is a datatype. A recipe file that does not parse, or lacks a key, is outside the model.
- The command-line driver and configuration loading (cake2.py:166-239) are left out.
- File-system effects are not modelled: `os.path.getsize` is the length of the byte sequence, and writing the recipe and the output files is not represented.
- Uploader.UploadWith requires `slice_size > 0`. With 0 the source raises `ZeroDivisionError` at cake2.py:42, and negative slice sizes are not modelled.
- Builder.Assemble treats a locator the store does not hold as a failed fetch that stops the build. The source would write whatever body the server returns for a non-200 reply, and would raise on a connection error. Download responses other than the stored bytes are not modelled.
- The model does not say what a rejected or failed post leaves on the channel. The store changes only on an accepted post.

## Findings

| source | as written | input that shows it | evidently intended | confidence | as-written member | corrected member |
|---|---|---|---|---|---|---|
| cake2.py:65-80 | `f.seek(index*slice_size)` runs once before the retry loop, and every attempt calls `f.read(slice_size)`, so a retried attempt sends the bytes after the previous attempt's | a one-byte file with slice size 2 whose first post gets a non-200 reply: the retry sends an empty slice, the recipe points at it, and the baked file is empty, and the checksum comparison fails for any hash that tells the empty file from the byte | seek to `index*slice_size` before every attempt, so that each attempt sends the slice's own window | not executed | RoundTrip.RetryCorruptsCake | RoundTrip.ReseekingUploadThenBuild |
