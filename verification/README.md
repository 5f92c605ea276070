# Trinket manifest updater — Dafny model

A model of the manifest update script of TrinketTrayManifest. The script reads
`trinkets.json`, a JSON array of trinket entries. It visits each entry whose `appUrl`
contains the configured content repository (`TRINKET_CONTENT_REPO`). For each such
entry it downloads that repository's zipball at `TRINKET_CONTENT_REF` and hashes it
with SHA-256. When the digest is present and differs from the entry's stored `hash`,
it overwrites `hash` and `ref` and raises an `updated` flag. The file is rewritten
only when the flag is up.

Modules:

- `Wrappers` (`wrappers.dfy`): the `Option` type, which stands for Python's `None`-or-value.
- `Substring` (`substring.dfy`): Python's `needle in haystack` on strings. `Contains`
  is proved equal to the reference definition "some position holds an occurrence".
- `Reconcile` (`reconcile.dfy`): an entry is a `map<string, string>`. `ReconcileEntry`
  specifies one iteration of the loop and `ReconcileAll` specifies the whole loop.
  `AnyUpdate` is the final value of `updated`. `ReconcileInPlace` is the loop itself,
  over an `array` of entries updated in place, and is proved against those functions.
- `ManifestRun` (`manifest_run.dfy`): the whole run. It covers the environment guard,
  a missing or undecodable file, the loop, and the conditional rewrite. A second
  method shows that a second run with the same downloads is a no-op.

Parameters stand for the outside world. The environment variables are `Option<string>`
values. The file is a `ManifestFile` value. JSON decoding and encoding are the
function parameters `parse` and `serialize`. The download-and-hash step is
`fetch: nat -> Option<string>`: `fetch(i)` is what the download for entry `i` returns,
and `None` stands for a transport error.

What the script does and does not do, as the model captures it:

- The script adds no entries and removes none. It only updates `hash` and `ref` of
  existing entries.
- The download and hash happen inside the loop (update_manifest_script.py:51), once per
  matching entry. Two matching entries can therefore end with different hashes when
  their downloads differ. `SharedDigest` gives the condition under which they agree.
- An entry whose hash is already current keeps its old `ref` (update_manifest_script.py:58-59),
  even when that `ref` differs from the configured one.

## Model

| member | source | states |
|---|---|---|
| `Substring.ContainsIff` | update_manifest_script.py:42 | the match test holds exactly when the repository string occurs at some position of the `appUrl` |
| `Substring.EmptyNeedleAlwaysContained` | update_manifest_script.py:42 | the containment test at the match treats an empty repository string as occurring in every `appUrl`, the missing one included |
| `Substring.NothingInEmpty` | update_manifest_script.py:42 | a non-empty repository string never occurs in the empty string |
| `Reconcile.ReconcileEntry` | update_manifest_script.py:51-61 | an entry outside the update branch is returned unchanged; in the update branch `hash` becomes the digest, `ref` becomes the configured ref, both keys are present, and every other field keeps its value; the entry changes exactly when the update branch is taken |
| `Reconcile.ReconcileInPlace` | update_manifest_script.py:37-64 | the loop leaves in the list exactly the entries the per-entry rule gives, position by position, and returns `updated` true exactly when some entry took the update branch |
| `Reconcile.KeepsLength` | update_manifest_script.py:38-57 | the loop's output has exactly as many entries as its input, for every list including the empty one |
| `Reconcile.OnlyHashAndRefChange` | update_manifest_script.py:38-57 | position `i` of the output is position `i` of the input, so order is kept, and every field other than `hash` and `ref` keeps its presence and value |
| `Reconcile.NonMatchingUnchanged` | update_manifest_script.py:42 | an entry whose `appUrl` does not contain the repository string is left unchanged and does not raise `updated` |
| `Reconcile.MissingAppUrlNeverMatches` | update_manifest_script.py:42 | an entry with no `appUrl` never matches a non-empty repository string |
| `Reconcile.FailedDownloadUnchanged` | update_manifest_script.py:51-61 | when the download yields `None` or an empty digest, the entry is unchanged and `updated` is not raised |
| `Reconcile.UpToDateUnchanged` | update_manifest_script.py:53-59 | a digest equal to the stored `hash` leaves the entry unchanged and does not raise `updated` |
| `Reconcile.UpdatedIffModified` | update_manifest_script.py:37-57 | `updated` ends true exactly when the loop's output differs from its input |
| `Reconcile.ReconcileEntryIdempotent` | update_manifest_script.py:53-57 | an entry the loop has handled does not take the update branch again with the same digest |
| `Reconcile.ReconcileAllIdempotent` | update_manifest_script.py:38-64 | a second loop over the output, with the same downloads, changes nothing and leaves `updated` false |
| `Reconcile.OnlyMatchingDownloadsMatter` | update_manifest_script.py:42-51 | download results for non-matching entries affect neither the output nor `updated`, because no download is made for them |
| `Reconcile.SharedDigest` | update_manifest_script.py:51-56 | if every matching entry's download yields the same digest, every matching entry ends with that hash; its `ref` is set when its hash was stale and is otherwise unchanged |
| `ManifestRun.Run` | update_manifest_script.py:8-79 | a missing or empty environment variable, a missing file or undecodable JSON each end the run with that error and leave the file untouched; otherwise the run reports a rewrite exactly when some entry changed, the rewritten file holds the encoding of the reconciled entries, and on no change the file is untouched |
| `ManifestRun.RerunIsNoOp` | update_manifest_script.py:53-72 | when decoding inverts encoding, a second run with the same downloads reports no change (or the same error) and leaves the file as the first run left it |

## Left out

- The HTTP download (`requests`, the User-Agent header, chunked streaming) and the zipball URL it uses are modelled only as the result `fetch(i)`.
- The SHA-256 computation is not modelled: the digest is an opaque string.
- JSON decoding and encoding, and the `seek`/`dump`/`truncate` rewrite, are the parameters `parse` and `serialize`. A rewrite sets the file's text to `serialize` of the entries.
- Entries are JSON objects with string values only; values of other JSON types are not modelled. For `appUrl` this matters: a number or `null` makes the test at update_manifest_script.py:42 raise `TypeError`, and a list or object is tested by membership instead of substring containment, so it can match without error.
- Entry key order is not modelled. An entry is a map, so two files that differ only in key order decode to the same entries. The script keeps each object's key order and appends a missing `hash` or `ref` at the end of its object. `serialize` therefore fixes the rewritten text only up to key order.
- A manifest whose JSON is not a list of objects is not modelled. An empty object or an empty string runs the loop zero times, as an empty list does, and ends with no change. Other shapes (a non-empty object or string, a number, a list holding a non-object) raise an uncaught exception during the loop, before any rewrite.
- The `time.sleep(1)` between entries is not modelled: it only paces requests.
- The diagnostic `print` lines are not modelled. The exit status is represented by the `Outcome` value.
- Exceptions other than the two the script catches (for example, an OS error while writing) are not modelled.
