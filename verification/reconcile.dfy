/**
 * The manifest reconciliation loop: every trinket entry whose `appUrl` mentions the
 * configured content repository gets a freshly downloaded archive digest; when that
 * digest is present and differs from the stored `hash`, the entry's `hash` and `ref`
 * are overwritten and the run is marked as updated.
 */
module Reconcile {
  import opened Wrappers
  import opened Substring

  /** A manifest entry: a JSON object whose fields hold strings. */
  type Entry = map<string, string>

  const AppUrlKey: string := "appUrl"
  const HashKey: string := "hash"
  const RefKey: string := "ref"

  /** Python's `d.get(key, default)`. */
  function Get(e: Entry, key: string, default: string): string
  {
    if key in e then e[key] else default
  }

  /** The entry points at the content repository (a missing `appUrl` reads as ""). */
  predicate Matches(e: Entry, repo: string)
  {
    Contains(repo, Get(e, AppUrlKey, ""))
  }

  /** Python truthiness of the download result: `None` and "" are both false. */
  predicate Present(digest: Option<string>)
  {
    digest.Some? && digest.value != ""
  }

  /** The stored hash differs from `d`; a missing hash (`None`) differs from every string. */
  predicate Stale(e: Entry, d: string)
  {
    HashKey !in e || e[HashKey] != d
  }

  /** This entry takes the update branch of the loop. */
  predicate Changes(e: Entry, repo: string, digest: Option<string>)
  {
    Matches(e, repo) && Present(digest) && Stale(e, digest.value)
  }

  /** One iteration of the loop, applied to the entry it visits. */
  function ReconcileEntry(e: Entry, repo: string, ref: string, digest: Option<string>): (r: Entry)
    ensures !Changes(e, repo, digest) ==> r == e
    ensures Changes(e, repo, digest) ==>
      && r.Keys == e.Keys + {HashKey, RefKey}
      && r[HashKey] == digest.value
      && r[RefKey] == ref
      && (forall k :: k in e && k != HashKey && k != RefKey ==> r[k] == e[k])
    ensures Changes(e, repo, digest) <==> r != e
  {
    if Changes(e, repo, digest) then
      e[HashKey := digest.value][RefKey := ref]
    else e
  }

  /** The whole loop on a list of entries; `fetch(i)` is the download result for entry `i`. */
  function ReconcileAll(entries: seq<Entry>, repo: string, ref: string, fetch: nat -> Option<string>): seq<Entry>
  {
    seq(|entries|, i requires 0 <= i < |entries| => ReconcileEntry(entries[i], repo, ref, fetch(i)))
  }

  /** Some entry takes the update branch: the value of `updated` after the loop. */
  predicate AnyUpdate(entries: seq<Entry>, repo: string, fetch: nat -> Option<string>)
  {
    exists i :: 0 <= i < |entries| && Changes(entries[i], repo, fetch(i))
  }

  /**
   * The loop itself, updating the entries of the list in place and returning the
   * `updated` flag.
   */
  method ReconcileInPlace(trinkets: array<Entry>, repo: string, ref: string, fetch: nat -> Option<string>)
    returns (updated: bool)
    modifies trinkets
    ensures trinkets[..] == ReconcileAll(old(trinkets[..]), repo, ref, fetch)
    ensures updated == AnyUpdate(old(trinkets[..]), repo, fetch)
  {
    updated := false;
    var i := 0;
    while i < trinkets.Length
      invariant 0 <= i <= trinkets.Length
      invariant forall k :: 0 <= k < i ==> trinkets[k] == ReconcileEntry(old(trinkets[k]), repo, ref, fetch(k))
      invariant forall k :: i <= k < trinkets.Length ==> trinkets[k] == old(trinkets[k])
      invariant updated <==> exists k :: 0 <= k < i && Changes(old(trinkets[k]), repo, fetch(k))
    {
      var trinket := trinkets[i];
      if Contains(repo, Get(trinket, AppUrlKey, "")) {
        var newHash := fetch(i);
        if newHash.Some? && newHash.value != "" && (HashKey !in trinket || newHash.value != trinket[HashKey]) {
          trinkets[i] := trinket[HashKey := newHash.value][RefKey := ref];
          updated := true;
        }
      }
      i := i + 1;
    }
  }

  /** The loop never adds or removes entries, whatever the list holds, the empty list included. */
  lemma KeepsLength(entries: seq<Entry>, repo: string, ref: string, fetch: nat -> Option<string>)
    ensures |ReconcileAll(entries, repo, ref, fetch)| == |entries|
  {
  }

  /**
   * Entry `i` of the output is entry `i` of the input with at most `hash` and `ref`
   * touched: the loop neither reorders entries nor changes any other field.
   */
  lemma OnlyHashAndRefChange(entries: seq<Entry>, repo: string, ref: string, fetch: nat -> Option<string>, i: int)
    requires 0 <= i < |entries|
    ensures i < |ReconcileAll(entries, repo, ref, fetch)|
    ensures forall k :: k != HashKey && k != RefKey ==>
      && (k in ReconcileAll(entries, repo, ref, fetch)[i] <==> k in entries[i])
      && (k in entries[i] ==> ReconcileAll(entries, repo, ref, fetch)[i][k] == entries[i][k])
  {
    assert ReconcileAll(entries, repo, ref, fetch)[i] == ReconcileEntry(entries[i], repo, ref, fetch(i));
  }

  /** An entry whose `appUrl` does not mention the repository is left exactly as it was. */
  lemma NonMatchingUnchanged(e: Entry, repo: string, ref: string, digest: Option<string>)
    requires !Matches(e, repo)
    ensures ReconcileEntry(e, repo, ref, digest) == e
    ensures !Changes(e, repo, digest)
  {
  }

  /** A missing `appUrl` reads as "", which a non-empty repository string never matches. */
  lemma MissingAppUrlNeverMatches(e: Entry, repo: string)
    requires AppUrlKey !in e
    requires repo != ""
    ensures !Matches(e, repo)
  {
    NothingInEmpty(repo);
  }

  /** A failed download leaves the entry unchanged and does not raise `updated`. */
  lemma FailedDownloadUnchanged(e: Entry, repo: string, ref: string, digest: Option<string>)
    requires !Present(digest)
    ensures ReconcileEntry(e, repo, ref, digest) == e
    ensures !Changes(e, repo, digest)
  {
  }

  /** A digest equal to the stored hash leaves the entry unchanged and does not raise `updated`. */
  lemma UpToDateUnchanged(e: Entry, repo: string, ref: string, d: string)
    requires HashKey in e && e[HashKey] == d
    ensures ReconcileEntry(e, repo, ref, Some(d)) == e
    ensures !Changes(e, repo, Some(d))
  {
  }

  /** `updated` is raised exactly when the loop's output differs from its input. */
  lemma UpdatedIffModified(entries: seq<Entry>, repo: string, ref: string, fetch: nat -> Option<string>)
    ensures AnyUpdate(entries, repo, fetch) <==> ReconcileAll(entries, repo, ref, fetch) != entries
  {
    var out := ReconcileAll(entries, repo, ref, fetch);
    if AnyUpdate(entries, repo, fetch) {
      var i :| 0 <= i < |entries| && Changes(entries[i], repo, fetch(i));
      assert out[i] != entries[i];
    }
    if out != entries {
      assert |out| == |entries|;
      var i :| 0 <= i < |entries| && out[i] != entries[i];
      assert Changes(entries[i], repo, fetch(i));
    }
  }

  /** A second pass with the same download results changes nothing. */
  lemma ReconcileEntryIdempotent(e: Entry, repo: string, ref: string, digest: Option<string>)
    ensures !Changes(ReconcileEntry(e, repo, ref, digest), repo, digest)
    ensures ReconcileEntry(ReconcileEntry(e, repo, ref, digest), repo, ref, digest)
         == ReconcileEntry(e, repo, ref, digest)
  {
  }

  /** Running the loop on its own output with the same downloads is a no-op that leaves `updated` false. */
  lemma ReconcileAllIdempotent(entries: seq<Entry>, repo: string, ref: string, fetch: nat -> Option<string>)
    ensures !AnyUpdate(ReconcileAll(entries, repo, ref, fetch), repo, fetch)
    ensures ReconcileAll(ReconcileAll(entries, repo, ref, fetch), repo, ref, fetch)
         == ReconcileAll(entries, repo, ref, fetch)
  {
    var out := ReconcileAll(entries, repo, ref, fetch);
    forall i | 0 <= i < |out|
      ensures !Changes(out[i], repo, fetch(i))
    {
      ReconcileEntryIdempotent(entries[i], repo, ref, fetch(i));
    }
    UpdatedIffModified(out, repo, ref, fetch);
  }

  /** Downloads are made only for matching entries: results at other positions do not matter. */
  lemma OnlyMatchingDownloadsMatter(entries: seq<Entry>, repo: string, ref: string, f: nat -> Option<string>, g: nat -> Option<string>)
    requires forall i :: 0 <= i < |entries| && Matches(entries[i], repo) ==> f(i) == g(i)
    ensures ReconcileAll(entries, repo, ref, f) == ReconcileAll(entries, repo, ref, g)
    ensures AnyUpdate(entries, repo, f) == AnyUpdate(entries, repo, g)
  {
    forall i | 0 <= i < |entries|
      ensures ReconcileEntry(entries[i], repo, ref, f(i)) == ReconcileEntry(entries[i], repo, ref, g(i))
    {
    }
  }

  /**
   * When every download for a matching entry yields the same digest `d`, every matching
   * entry ends with `hash == d`; its `ref` is rewritten only if its hash was stale.
   */
  lemma SharedDigest(entries: seq<Entry>, repo: string, ref: string, fetch: nat -> Option<string>, d: string, i: int)
    requires d != ""
    requires forall j :: 0 <= j < |entries| && Matches(entries[j], repo) ==> fetch(j) == Some(d)
    requires 0 <= i < |entries| && Matches(entries[i], repo)
    ensures var out := ReconcileAll(entries, repo, ref, fetch);
      && HashKey in out[i] && out[i][HashKey] == d
      && (Stale(entries[i], d) ==> RefKey in out[i] && out[i][RefKey] == ref)
      && (!Stale(entries[i], d) ==> out[i] == entries[i])
  {
  }
}
