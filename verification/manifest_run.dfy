/**
 * One run of the manifest update script: the configuration guard on the two
 * environment variables, opening and parsing `trinkets.json`, the reconciliation
 * loop, and the rewrite of the file that happens only when some entry changed.
 */
module ManifestRun {
  import opened Wrappers
  import opened Reconcile

  /** The manifest file on disk. */
  datatype ManifestFile = Missing | Exists(text: string)

  /** How a run ends; the first three exit with status 1. */
  datatype Outcome =
    | MissingConfig     // an environment variable is unset or empty
    | ManifestNotFound  // the manifest file does not exist
    | InvalidJson       // the manifest file does not decode
    | Rewritten         // some entry changed and the file was rewritten
    | NoChanges         // nothing changed and the file was left alone

  /** Both environment variables are set and non-empty (Python truthiness). */
  predicate Configured(repoVar: Option<string>, refVar: Option<string>)
  {
    repoVar.Some? && repoVar.value != "" && refVar.Some? && refVar.value != ""
  }

  /**
   * The script, with the environment, the file, JSON decoding and encoding, and the
   * archive download-and-hash all passed in: `fetch(i)` is what the download for
   * entry `i` returns (`None` on a transport error).
   */
  method Run(repoVar: Option<string>, refVar: Option<string>, file: ManifestFile,
             parse: string -> Option<seq<Entry>>, serialize: seq<Entry> -> string,
             fetch: nat -> Option<string>)
    returns (outcome: Outcome, after: ManifestFile)
    ensures !Configured(repoVar, refVar) ==> outcome == MissingConfig && after == file
    ensures Configured(repoVar, refVar) && file.Missing? ==>
      outcome == ManifestNotFound && after == file
    ensures Configured(repoVar, refVar) && file.Exists? && parse(file.text).None? ==>
      outcome == InvalidJson && after == file
    ensures Configured(repoVar, refVar) && file.Exists? && parse(file.text).Some? ==>
      var entries := parse(file.text).value;
      && (outcome == Rewritten <==> AnyUpdate(entries, repoVar.value, fetch))
      && (outcome == NoChanges <==> !AnyUpdate(entries, repoVar.value, fetch))
      && after == if outcome == Rewritten
                  then Exists(serialize(ReconcileAll(entries, repoVar.value, refVar.value, fetch)))
                  else file
    ensures outcome != Rewritten ==> after == file
  {
    if !(repoVar.Some? && repoVar.value != "" && refVar.Some? && refVar.value != "") {
      return MissingConfig, file;
    }
    var repo, ref := repoVar.value, refVar.value;
    if file.Missing? {
      return ManifestNotFound, file;
    }
    var parsed := parse(file.text);
    if parsed.None? {
      return InvalidJson, file;
    }
    var entries := parsed.value;
    var trinkets := new Entry[|entries|](i requires 0 <= i < |entries| => entries[i]);
    assert trinkets[..] == entries;
    var updated := ReconcileInPlace(trinkets, repo, ref, fetch);
    if updated {
      outcome, after := Rewritten, Exists(serialize(trinkets[..]));
    } else {
      outcome, after := NoChanges, file;
    }
  }

  /**
   * Running the script a second time, against unchanged upstream content, reports
   * that nothing changed and leaves the file exactly as the first run left it,
   * provided decoding inverts encoding.
   */
  method RerunIsNoOp(repoVar: Option<string>, refVar: Option<string>, file: ManifestFile,
                     parse: string -> Option<seq<Entry>>, serialize: seq<Entry> -> string,
                     fetch: nat -> Option<string>)
    returns (first: Outcome, second: Outcome, afterFirst: ManifestFile, afterSecond: ManifestFile)
    requires forall es :: parse(serialize(es)) == Some(es)
    ensures second != Rewritten
    ensures first == Rewritten || first == NoChanges ==> second == NoChanges
    ensures first != Rewritten && first != NoChanges ==> second == first
    ensures afterSecond == afterFirst
  {
    first, afterFirst := Run(repoVar, refVar, file, parse, serialize, fetch);
    if first == Rewritten {
      var entries := parse(file.text).value;
      ReconcileAllIdempotent(entries, repoVar.value, refVar.value, fetch);
    }
    second, afterSecond := Run(repoVar, refVar, afterFirst, parse, serialize, fetch);
  }
}
