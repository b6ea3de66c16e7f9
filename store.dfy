/**
 * Building and persisting the search index (`init`, `checkComplete`,
 * `saveData`). `init` empties the global `INDEXS`, starts one fetch per
 * path and counts settled fetches; when the counter reaches the number of
 * configured paths, the index and its expiry time are written to local
 * storage. The fetches themselves are not modelled: each one settles
 * through `Settle`, in whatever order they finish, carrying either the page
 * index `genIndex` built from the page or a failure.
 */
module IndexStore {
  import opened Dict
  import opened StorageKeys
  import Indexer
  import opened Query

  /** A local-storage value: the expiry stamp or the serialised index. */
  datatype Stored = ExpiresAt(time: int) | Snapshot(index: Dict<Dict<Indexer.Entry>>)

  /** How a page fetch settles. */
  datatype Outcome = Fetched(page: Dict<Indexer.Entry>) | Failed

  predicate EndsWithMd(p: string) {
    |p| >= 3 && p[|p| - 3..] == ".md"
  }

  /** Release 2.0 asks for `path + ".md"` unless the path already ends with `.md`. */
  function NormalizePath(p: string): (r: string)
    ensures EndsWithMd(r) && |p| <= |r| && r[..|p|] == p
    ensures EndsWithMd(p) ==> r == p
  {
    if EndsWithMd(p) then p
    else
      var r := p + ".md";
      assert r[|r| - 3..] == ".md";
      r
  }

  lemma NormalizePathFacts(p: string)
    ensures EndsWithMd(NormalizePath(p))
    ensures NormalizePath(NormalizePath(p)) == NormalizePath(p)
    ensures EndsWithMd(p) <==> NormalizePath(p) == p
    ensures NormalizePath(p)[..|p|] == p
  {
    if !EndsWithMd(p) {
      var r := p + ".md";
      assert r[|r| - 3..] == ".md";
    }
  }

  /**
   * The files the paths name under `f`, in order of first appearance,
   * each once. With `NormalizePath` for `f`, the fetches release 2.0 starts.
   */
  function UniqueBy(f: string -> string, paths: seq<string>): seq<string>
    decreases |paths|
  {
    if paths == [] then []
    else
      var seen := UniqueBy(f, paths[..|paths| - 1]);
      var path := f(paths[|paths| - 1]);
      if path in seen then seen else seen + [path]
  }

  function UniqueNormalized(paths: seq<string>): (r: seq<string>)
    ensures Distinct(r) && |r| <= |paths|
  {
    UniqueByDistinct(NormalizePath, paths);
    UniqueBy(NormalizePath, paths)
  }

  predicate Distinct(xs: seq<string>) {
    forall i, j :: 0 <= i < j < |xs| ==> xs[i] != xs[j]
  }

  /** No two paths name the same file under `f`. */
  predicate NoRepeatsBy(f: string -> string, paths: seq<string>) {
    forall i, j :: 0 <= i < j < |paths| ==> f(paths[i]) != f(paths[j])
  }

  /** No two paths normalise to the same file. */
  predicate NoNormalizedRepeats(paths: seq<string>) {
    NoRepeatsBy(NormalizePath, paths)
  }

  /** Each file is fetched once, and exactly the files some path normalises to are fetched. */
  lemma UniqueNormalizedFacts(paths: seq<string>)
    ensures Distinct(UniqueNormalized(paths))
    ensures forall x :: x in UniqueNormalized(paths) <==> exists i :: 0 <= i < |paths| && NormalizePath(paths[i]) == x
    ensures |UniqueNormalized(paths)| <= |paths|
  {
    UniqueByDistinct(NormalizePath, paths);
    forall x {
      UniqueByMember(NormalizePath, paths, x);
    }
  }

  lemma {:induction false} UniqueByDistinct(f: string -> string, paths: seq<string>)
    ensures Distinct(UniqueBy(f, paths))
    ensures |UniqueBy(f, paths)| <= |paths|
    decreases |paths|
  {
    if paths != [] {
      var seen := UniqueBy(f, paths[..|paths| - 1]);
      var last := f(paths[|paths| - 1]);
      UniqueByDistinct(f, paths[..|paths| - 1]);
      if last !in seen {
        var u := seen + [last];
        forall i, j | 0 <= i < j < |u| ensures u[i] != u[j] {
          if j == |seen| {
            assert u[i] == seen[i] && u[j] == last;
          } else {
            assert u[i] == seen[i] && u[j] == seen[j];
          }
        }
      }
    }
  }

  lemma {:induction false} UniqueByMember(f: string -> string, paths: seq<string>, x: string)
    ensures x in UniqueBy(f, paths) <==> exists i :: 0 <= i < |paths| && f(paths[i]) == x
    decreases |paths|
  {
    if paths != [] {
      var init := paths[..|paths| - 1];
      var seen := UniqueBy(f, init);
      var last := f(paths[|paths| - 1]);
      UniqueByMember(f, init, x);
      assert x in UniqueBy(f, paths) <==> x in seen || x == last;
      if x in seen {
        var i :| 0 <= i < |init| && f(init[i]) == x;
        assert paths[i] == init[i];
      } else if x == last {
        assert f(paths[|paths| - 1]) == x;
      } else {
        forall i | 0 <= i < |paths| ensures f(paths[i]) != x {
          if i < |init| {
            assert paths[i] == init[i];
          }
        }
      }
    }
  }

  /** Release 2.0 starts one fetch per configured path exactly when no two paths name the same file. */
  lemma UniqueNormalizedCount(paths: seq<string>)
    ensures |UniqueNormalized(paths)| == |paths| <==> NoNormalizedRepeats(paths)
  {
    UniqueByCount(NormalizePath, paths);
  }

  lemma {:induction false} UniqueByCount(f: string -> string, paths: seq<string>)
    ensures |UniqueBy(f, paths)| == |paths| <==> NoRepeatsBy(f, paths)
    decreases |paths|
  {
    if paths != [] {
      var init := paths[..|paths| - 1];
      var seen := UniqueBy(f, init);
      var last := f(paths[|paths| - 1]);
      assert |seen| == |init| <==> NoRepeatsBy(f, init) by { UniqueByCount(f, init); }
      assert |seen| <= |init| by { UniqueByDistinct(f, init); }
      assert last in seen <==> exists i :: 0 <= i < |init| && f(init[i]) == last by {
        UniqueByMember(f, init, last);
      }
      RepeatsSplit(f, paths);
    }
  }

  /** No repeats among the paths: none among all but the last, and the last repeats none of them. */
  lemma RepeatsSplit(f: string -> string, paths: seq<string>)
    requires paths != []
    ensures var init := paths[..|paths| - 1];
      NoRepeatsBy(f, paths) <==>
        NoRepeatsBy(f, init) && forall i :: 0 <= i < |init| ==> f(init[i]) != f(paths[|paths| - 1])
  {
    var init := paths[..|paths| - 1];
    assert forall i :: 0 <= i < |init| ==> init[i] == paths[i];
  }

  /** The state `init` leaves behind and the fetch callbacks share. */
  class IndexBuild {
    const release: Release
    /** The configured paths, as given. */
    const paths: seq<string>
    const len: nat
    const expireKey: string
    const indexKey: string
    const maxAge: int
    /** The global `INDEXS`: page path to page index. */
    var indexs: Dict<Dict<Indexer.Entry>>
    /** `localStorage`. */
    var storage: map<string, Stored>
    var count: nat
    /** Paths whose fetch has started and not yet settled. */
    ghost var pending: multiset<string>
    ghost var failures: nat
    /** Whether `saveData` has run. */
    ghost var saved: bool

    ghost predicate Valid()
      reads this
    {
      len == |paths| && expireKey != indexKey &&
      (release == Release2_0 ==>
        count + |pending| == |UniqueNormalized(paths)|) &&
      (release == Release1_10 ==>
        count + failures + |pending| == len) &&
      (saved <==> len > 0 && count == len) &&
      (saved ==> pending == multiset{} && indexKey in storage && storage[indexKey] == Snapshot(indexs))
    }

    /**
     * `init(config, vm)`: resolve the keys, empty `INDEXS` (release 1.10
     * also drops the stored index), and start a fetch per path; release
     * 2.0 normalises each path and skips files it has already started.
     */
    constructor Start(release: Release, paths: seq<string>, namespace: string, maxAge: int, storage: map<string, Stored>)
      ensures Valid()
      ensures this.release == release && this.paths == paths && this.maxAge == maxAge
      ensures expireKey == ResolveExpireKey(namespace) && indexKey == ResolveIndexKey(namespace)
      ensures indexs == Empty() && count == 0 && failures == 0 && !saved
      ensures release == Release2_0 ==> this.storage == storage && pending == multiset(UniqueNormalized(paths))
      ensures release == Release1_10 ==> this.storage == storage - {ResolveIndexKey(namespace)} && pending == multiset(paths)
    {
      this.release := release;
      this.paths := paths;
      this.len := |paths|;
      this.maxAge := maxAge;
      this.expireKey := ResolveExpireKey(namespace);
      this.indexKey := ResolveIndexKey(namespace);
      this.indexs := Empty();
      this.storage := if release == Release1_10 then storage - {ResolveIndexKey(namespace)} else storage;
      this.count := 0;
      this.failures := 0;
      this.saved := false;
      ExpireAndIndexApart(namespace, namespace);
      if release == Release2_0 {
        var started := StartFetches(paths);
        this.pending := multiset(started);
      } else {
        this.pending := multiset(paths);
      }
    }

    /** Settles one fetch: record the page index on success, count, and save when the count is complete. */
    method Settle(path: string, outcome: Outcome, now: int)
      requires Valid() && path in pending
      modifies this
      ensures Valid()
      ensures pending == old(pending) - multiset{path}
      ensures indexs == if outcome.Fetched? then old(indexs).Put(path, outcome.page) else old(indexs)
      ensures count == if release == Release2_0 || outcome.Fetched? then old(count) + 1 else old(count)
      ensures storage ==
        if (release == Release2_0 || outcome.Fetched?) && count == len
        then old(storage)[expireKey := ExpiresAt(now + maxAge)][indexKey := Snapshot(indexs)]
        else old(storage)
    {
      if release == Release2_0 {
        SettleCounted(path, outcome, now);
      } else {
        SettleOnSuccess(path, outcome, now);
      }
    }

    /** Release 2.0: every settled fetch is counted, in `finally`. */
    method SettleCounted(path: string, outcome: Outcome, now: int)
      requires Valid() && path in pending && release == Release2_0
      modifies this
      ensures Valid()
      ensures pending == old(pending) - multiset{path}
      ensures indexs == if outcome.Fetched? then old(indexs).Put(path, outcome.page) else old(indexs)
      ensures count == old(count) + 1
      ensures storage ==
        if count == len
        then old(storage)[expireKey := ExpiresAt(now + maxAge)][indexKey := Snapshot(indexs)]
        else old(storage)
    {
      assert |UniqueNormalized(paths)| <= len by { UniqueByDistinct(NormalizePath, paths); }
      RemoveOne(pending, path);
      pending := pending - multiset{path};
      if outcome.Fetched? {
        indexs := indexs.Put(path, outcome.page);
      }
      count := count + 1;
      CheckComplete(now);
    }

    /** Release 1.10: only a fetch that succeeds is counted, in `then`. */
    method SettleOnSuccess(path: string, outcome: Outcome, now: int)
      requires Valid() && path in pending && release == Release1_10
      modifies this
      ensures Valid()
      ensures pending == old(pending) - multiset{path}
      ensures indexs == if outcome.Fetched? then old(indexs).Put(path, outcome.page) else old(indexs)
      ensures count == if outcome.Fetched? then old(count) + 1 else old(count)
      ensures storage ==
        if outcome.Fetched? && count == len
        then old(storage)[expireKey := ExpiresAt(now + maxAge)][indexKey := Snapshot(indexs)]
        else old(storage)
    {
      RemoveOne(pending, path);
      assert !saved && count + failures < len;
      pending := pending - multiset{path};
      if outcome.Fetched? {
        indexs := indexs.Put(path, outcome.page);
        count := count + 1;
        if count == len {
          assert pending == multiset{} by { assert |pending| == 0; }
          SaveData(now);
        }
      } else {
        failures := failures + 1;
      }
    }

    /** `checkComplete`: save once every configured path is counted. */
    method CheckComplete(now: int)
      modifies this
      ensures count == old(count) && indexs == old(indexs) && pending == old(pending) && failures == old(failures)
      ensures storage == if count == len then old(storage)[expireKey := ExpiresAt(now + maxAge)][indexKey := Snapshot(indexs)] else old(storage)
      ensures saved == (old(saved) || count == len)
    {
      if count == len {
        SaveData(now);
      }
    }

    /** `saveData`: the expiry time `now + maxAge` and the serialised index. */
    method SaveData(now: int)
      modifies this
      ensures storage == old(storage)[expireKey := ExpiresAt(now + maxAge)][indexKey := Snapshot(indexs)]
      ensures count == old(count) && indexs == old(indexs) && pending == old(pending) && failures == old(failures)
      ensures saved
    {
      storage := storage[expireKey := ExpiresAt(now + maxAge)][indexKey := Snapshot(indexs)];
      saved := true;
    }
  }

  lemma RemoveOne(m: multiset<string>, x: string)
    requires x in m
    ensures |m - multiset{x}| == |m| - 1
  {
    assert m == (m - multiset{x}) + multiset{x};
  }

  /** The loop of release 2.0's `init`: normalise, skip what `seenPaths` holds, start the fetch. */
  method StartFetches(paths: seq<string>) returns (started: seq<string>)
    ensures started == UniqueNormalized(paths)
  {
    var seenPaths: set<string> := {};
    started := [];
    for i := 0 to |paths|
      invariant started == UniqueNormalized(paths[..i])
      invariant forall x :: x in seenPaths <==> x in started
    {
      assert paths[..i + 1][..i] == paths[..i];
      var path := paths[i];
      if !EndsWithMd(path) {
        path := path + ".md";
      }
      if path in seenPaths {
        continue;
      }
      seenPaths := seenPaths + {path};
      started := started + [path];
    }
    assert paths[..|paths|] == paths;
  }

  /** Release 2.0: when two paths name the same file, the counter never reaches the path count and nothing is saved. */
  lemma RepeatsNeverSave(b: IndexBuild)
    requires b.Valid() && b.release == Release2_0
    requires !NoNormalizedRepeats(b.paths)
    ensures b.count < b.len && !b.saved
  {
    UniqueNormalizedFacts(b.paths);
    UniqueNormalizedCount(b.paths);
    assert |b.pending| >= 0;
  }

  /** Release 2.0: with no repeats, failures included, the index is saved once every fetch has settled. */
  lemma SettledSaves(b: IndexBuild)
    requires b.Valid() && b.release == Release2_0
    requires NoNormalizedRepeats(b.paths) && |b.paths| > 0
    ensures b.saved <==> b.pending == multiset{}
  {
    UniqueNormalizedCount(b.paths);
  }

  /** Release 1.10: a single failed fetch keeps the index from ever being saved. */
  lemma FailureNeverSaves(b: IndexBuild)
    requires b.Valid() && b.release == Release1_10
    requires b.failures > 0
    ensures b.count < b.len && !b.saved
  {}

  /** Release 1.10: the index is saved once every fetch has succeeded. */
  lemma SuccessSaves(b: IndexBuild)
    requires b.Valid() && b.release == Release1_10 && |b.paths| > 0
    requires b.failures == 0 && b.pending == multiset{}
    ensures b.saved
  {}

  /** With no paths configured the counter is never checked, so nothing is saved. */
  lemma NoPathsNeverSave(b: IndexBuild)
    requires b.Valid() && b.paths == []
    ensures !b.saved
  {}
}
