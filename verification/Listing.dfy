/** Listing a bucket page by page, finding an object, and deleting under a prefix
    (`GetPagedObjects`, `GetAllObjects`, `GetIObject` and `DeletePrefix` in
    pkg/cloudprovider/objectstore.go), for recursive listings. */
module Listing {
  import Sorting
  import Text

  // ---------- The keys of a bucket in their order ----------

  ghost predicate Ascending(s: seq<string>) {
    forall i, j :: 0 <= i < j < |s| ==> Text.Less(s[i], s[j])
  }

  predicate Matches(k: string, prefix: string, marker: string) {
    Text.HasPrefix(k, prefix) && (marker == "" || Text.Less(marker, k))
  }

  /** The keys a listing with this prefix and marker ranges over. */
  function Select(keys: seq<string>, prefix: string, marker: string): seq<string> {
    if keys == [] then []
    else if Matches(keys[0], prefix, marker) then [keys[0]] + Select(keys[1..], prefix, marker)
    else Select(keys[1..], prefix, marker)
  }

  lemma {:induction false} SelectMember(keys: seq<string>, prefix: string, marker: string, k: string)
    ensures k in Select(keys, prefix, marker) <==> k in keys && Matches(k, prefix, marker)
  {
    if keys != [] {
      SelectMember(keys[1..], prefix, marker, k);
      assert keys == [keys[0]] + keys[1..];
    }
  }

  lemma {:induction false} SelectAscending(keys: seq<string>, prefix: string, marker: string)
    requires Ascending(keys)
    ensures Ascending(Select(keys, prefix, marker))
  {
    if keys != [] {
      SelectAscending(keys[1..], prefix, marker);
      var rest := Select(keys[1..], prefix, marker);
      forall i | 0 <= i < |rest| ensures Text.Less(keys[0], rest[i]) {
        SelectMember(keys[1..], prefix, marker, rest[i]);
        var j :| 0 <= j < |keys[1..]| && keys[1..][j] == rest[i];
        assert keys[j + 1] == rest[i];
      }
    }
  }

  /** A marker below every key changes nothing. */
  lemma {:induction false} SelectAfterSmaller(keys: seq<string>, prefix: string, marker: string)
    requires forall k :: k in keys ==> Text.Less(marker, k)
    ensures Select(keys, prefix, marker) == Select(keys, prefix, "")
  {
    if keys != [] {
      SelectAfterSmaller(keys[1..], prefix, marker);
    }
  }

  /** Listing on from the `n`-th key lists the keys after it. */
  lemma {:induction false} SelectFrom(keys: seq<string>, prefix: string, n: int)
    requires Ascending(keys) && "" !in keys && 0 < n <= |Select(keys, prefix, "")|
    ensures var all := Select(keys, prefix, "");
      all[n - 1] != "" && Select(keys, prefix, all[n - 1]) == all[n..]
  {
    var all, rest := Select(keys, prefix, ""), Select(keys[1..], prefix, "");
    SelectMember(keys, prefix, "", all[n - 1]);
    if !Matches(keys[0], prefix, "") {
      SelectFrom(keys[1..], prefix, n);
    } else if n == 1 {
      Text.LessIrreflexive(keys[0]);
      SelectAfterSmaller(keys[1..], prefix, keys[0]);
    } else {
      SelectFrom(keys[1..], prefix, n - 1);
      SelectAscending(keys, prefix, "");
      FirstNotAbove(all, n - 1);
      SkipFirst(keys[0], rest, n);
    }
  }

  lemma SkipFirst(k: string, rest: seq<string>, n: int)
    requires 1 < n <= |rest| + 1
    ensures ([k] + rest)[n - 1] == rest[n - 2] && ([k] + rest)[n..] == rest[n - 1..]
  {
  }

  lemma FirstNotAbove(all: seq<string>, k: int)
    requires Ascending(all) && 0 < k < |all|
    ensures !Text.Less(all[k], all[0])
  {
    Text.LessIrreflexive(all[0]);
    if Text.Less(all[k], all[0]) {
      Text.LessTransitive(all[0], all[k], all[0]);
    }
  }

  // ---------- The bucket ----------

  /** `SListObjectResult`, the objects by their keys. */
  datatype ListResult = ListResult(Objects: seq<string>, NextMarker: string, IsTruncated: bool)

  function Min(a: int, b: int): int { if a <= b then a else b }

  /** The first `limit` keys; a page that is not the last is truncated and may carry its
      last key as the marker. */
  function PageOf(all: seq<string>, limit: int, sendsMarker: bool): ListResult
    requires limit > 0
  {
    if |all| <= limit then ListResult(all, "", false)
    else ListResult(all[..limit], if sendsMarker then all[limit - 1] else "", true)
  }

  /** A bucket as a listing sees it: its keys in their order, the longest page it returns,
      and whether it sends a marker with a page that is not the last. */
  class KeyStore {
    var keys: seq<string>
    const pageLimit: int
    const sendsMarker: bool
    /** How many calls have failed. */
    ghost var refusals: nat

    constructor (keys: seq<string>, pageLimit: int, sendsMarker: bool)
      requires Ascending(keys) && "" !in keys && pageLimit > 0
      ensures Valid() && this.keys == keys && this.pageLimit == pageLimit && this.sendsMarker == sendsMarker
    {
      this.keys, this.pageLimit, this.sendsMarker, refusals := keys, pageLimit, sendsMarker, 0;
    }

    ghost predicate Valid()
      reads this`keys
    {
      Ascending(keys) && "" !in keys && pageLimit > 0
    }

    method ListObjects(prefix: string, marker: string, maxCount: int) returns (ok: bool, result: ListResult)
      requires Valid() && maxCount > 0
      modifies this`refusals
      ensures refusals == old(refusals) + if ok then 0 else 1
      ensures ok ==> result == PageOf(Select(keys, prefix, marker), Min(maxCount, pageLimit), sendsMarker)
    {
      ok := *;
      result := PageOf(Select(keys, prefix, marker), Min(maxCount, pageLimit), sendsMarker);
      if !ok {
        refusals := refusals + 1;
      }
    }

    /** Deletes the key if it is there; may take effect even when it fails. */
    method DeleteObject(key: string) returns (ok: bool)
      requires Valid()
      modifies this
      ensures Valid() && refusals == old(refusals) + if ok then 0 else 1
      ensures keys == old(keys) || keys == Without(old(keys), {key})
      ensures ok ==> keys == Without(old(keys), {key})
    {
      var applied: bool := *;
      ok := *;
      if ok || applied {
        WithoutKeepsOrder(keys, {key});
        keys := Without(keys, {key});
      }
      if !ok {
        refusals := refusals + 1;
      }
    }
  }

  function Without(keys: seq<string>, gone: set<string>): seq<string> {
    if keys == [] then []
    else if keys[0] in gone then Without(keys[1..], gone)
    else [keys[0]] + Without(keys[1..], gone)
  }

  lemma {:induction false} WithoutMember(keys: seq<string>, gone: set<string>, k: string)
    ensures k in Without(keys, gone) <==> k in keys && k !in gone
  {
    if keys != [] {
      WithoutMember(keys[1..], gone, k);
      assert keys == [keys[0]] + keys[1..];
    }
  }

  lemma {:induction false} WithoutKeepsOrder(keys: seq<string>, gone: set<string>)
    requires Ascending(keys) && "" !in keys
    ensures Ascending(Without(keys, gone)) && "" !in Without(keys, gone)
  {
    WithoutMember(keys, gone, "");
    if keys != [] {
      WithoutKeepsOrder(keys[1..], gone);
      var rest := Without(keys[1..], gone);
      forall i | 0 <= i < |rest| ensures Text.Less(keys[0], rest[i]) {
        WithoutMember(keys[1..], gone, rest[i]);
        var j :| 0 <= j < |keys[1..]| && keys[1..][j] == rest[i];
        assert keys[j + 1] == rest[i];
      }
    }
  }

  lemma {:induction false} WithoutTwice(keys: seq<string>, a: set<string>, b: set<string>)
    ensures Without(Without(keys, a), b) == Without(keys, a + b)
  {
    if keys != [] {
      WithoutTwice(keys[1..], a, b);
      if keys[0] !in a {
        assert Without(keys, a) == [keys[0]] + Without(keys[1..], a);
      }
    }
  }

  lemma {:induction false} WithoutNone(keys: seq<string>, gone: set<string>)
    requires forall k :: k in keys ==> k !in gone
    ensures Without(keys, gone) == keys
  {
    if keys != [] {
      WithoutNone(keys[1..], gone);
      assert keys == [keys[0]] + keys[1..];
    }
  }

  // ---------- One page ----------

  const PAGE_SIZE := 1000

  /** The page `GetPagedObjects` gets, and the marker it returns with it. */
  function PageAt(store: KeyStore, prefix: string, marker: string, maxCount: int): (seq<string>, string)
    requires store.pageLimit > 0
    reads store`keys
  {
    var limit := Min(if maxCount > PAGE_SIZE || maxCount <= 0 then PAGE_SIZE else maxCount, store.pageLimit);
    var all := Select(store.keys, prefix, marker);
    if |all| <= limit then (all, "") else (all[..limit], all[limit - 1])
  }

  function KeyLess(): (seq<string>, int, int) -> bool {
    (s, i, j) => 0 <= i < |s| && 0 <= j < |s| && Text.Less(s[i], s[j])
  }

  /** `sort.Sort` by key leaves ascending keys as they are. */
  method SortKeys(keys: seq<string>) returns (sorted: seq<string>)
    requires Ascending(keys)
    ensures sorted == keys
  {
    var a := new string[|keys|](k requires 0 <= k < |keys| => keys[k]);
    assert a[..] == keys;
    Text.LessIsTotalOrder();
    AscendingIsSorted(keys);
    assert Sorting.Agrees(KeyLess(), Text.Less, multiset(keys));
    Sorting.Sort(a, KeyLess(), Text.Less);
    sorted := a[..];
    Sorting.SortedUnique(Text.Less, sorted, keys);
  }

  lemma AscendingIsSorted(keys: seq<string>)
    requires Ascending(keys)
    ensures Sorting.SortedBy(Text.Less, keys)
  {
    forall i, j | 0 <= i < j < |keys| ensures !Text.Less(keys[j], keys[i]) {
      if Text.Less(keys[j], keys[i]) {
        Text.LessTransitive(keys[i], keys[j], keys[i]);
        Text.LessIrreflexive(keys[i]);
      }
    }
  }

  method GetPagedObjects(store: KeyStore, objectPrefix: string, marker0: string, maxCount0: int)
    returns (ok: bool, ret: seq<string>, marker: string)
    requires store.Valid()
    modifies store`refusals
    ensures store.refusals == old(store.refusals) + if ok then 0 else 1
    ensures ok ==> (ret, marker) == PageAt(store, objectPrefix, marker0, maxCount0)
  {
    var maxCount := maxCount0;
    if maxCount > PAGE_SIZE || maxCount <= 0 {
      maxCount := PAGE_SIZE;
    }
    ret, marker := [], marker0;
    var result;
    ok, result := store.ListObjects(objectPrefix, marker, maxCount);
    if !ok {
      return;
    }
    for i := 0 to |result.Objects|
      invariant ret == result.Objects[..i]
      invariant i > 0 ==> marker == result.Objects[i - 1]
    {
      ret := ret + [result.Objects[i]];
      marker := result.Objects[i];
    }
    assert ret == result.Objects;
    SelectAscending(store.keys, objectPrefix, marker0);
    ret := SortKeys(ret);
    if result.NextMarker != "" {
      marker := result.NextMarker;
    }
    if !result.IsTruncated {
      marker := "";
    }
  }

  /** A page: the first keys with the prefix behind the marker, no more of them than are asked for, than 1000, or than
      the bucket returns at once, and as many as that if there are more; the marker is the last key then. */
  lemma PageIs(store: KeyStore, prefix: string, marker: string, maxCount: int)
    requires store.Valid()
    ensures var (page, next) := PageAt(store, prefix, marker, maxCount);
      var all := Select(store.keys, prefix, marker);
      && page <= all && |page| <= 1000 && |page| <= store.pageLimit && (maxCount > 0 ==> |page| <= maxCount)
      && (page != all ==> |page| == 1000 || |page| == store.pageLimit || |page| == maxCount)
      && (if page == all then next == "" else page != [] && next == page[|page| - 1] != "")
  {
    var (page, next) := PageAt(store, prefix, marker, maxCount);
    if page != Select(store.keys, prefix, marker) {
      SelectMember(store.keys, prefix, marker, page[|page| - 1]);
    }
  }

  /** The keys a listing ranges over, in order: those with the prefix, and greater than the marker unless that
      is empty. */
  lemma ListedIff(store: KeyStore, prefix: string, marker: string, k: string)
    requires store.Valid()
    ensures k in Select(store.keys, prefix, marker) <==>
      k in store.keys && |prefix| <= |k| && k[..|prefix|] == prefix && (marker != "" ==> Text.Less(marker, k))
    ensures Ascending(Select(store.keys, prefix, marker))
  {
    SelectMember(store.keys, prefix, marker, k);
    SelectAscending(store.keys, prefix, marker);
  }

  // ---------- The whole listing ----------

  /** The loop with the marker carried from page to page: it ends, and returns every
      key with the prefix once, in order. */
  method ListCarrying(store: KeyStore, objectPrefix: string) returns (ok: bool, ret: seq<string>)
    requires store.Valid()
    modifies store`refusals
    ensures store.refusals == old(store.refusals) + if ok then 0 else 1
    ensures ok ==> ret == Select(store.keys, objectPrefix, "")
  {
    ret := [];
    var marker := "";
    ghost var all := Select(store.keys, objectPrefix, "");
    while true
      invariant |ret| <= |all| && ret == all[..|ret|] && store.refusals == old(store.refusals)
      invariant marker == if ret == [] then "" else ret[|ret| - 1]
      decreases |all| - |ret|
    {
      if ret != [] {
        SelectFrom(store.keys, objectPrefix, |ret|);
      }
      ghost var before := marker;
      var page;
      ok, page, marker := GetPagedObjects(store, objectPrefix, marker, PAGE_SIZE);
      if !ok {
        return;
      }
      PageAdvances(store, objectPrefix, before);
      ret := ret + page;
      if marker == "" {
        break;
      }
    }
    ok := true;
  }

  /** A page that comes with no marker is the rest of the listing; any other is a nonempty
      piece of it and comes with its last key. */
  lemma PageAdvances(store: KeyStore, prefix: string, marker: string)
    requires store.Valid()
    ensures var (page, next) := PageAt(store, prefix, marker, PAGE_SIZE);
      var rest := Select(store.keys, prefix, marker);
      if next == "" then page == rest else page != [] && page <= rest && next == page[|page| - 1]
  {
    var rest := Select(store.keys, prefix, marker);
    var limit := Min(PAGE_SIZE, store.pageLimit);
    if |rest| > limit {
      SelectMember(store.keys, prefix, marker, rest[limit - 1]);
    }
  }

  /** The loop as written: a declaration inside it shadows the marker, so every round
      lists the first page again. It is run for at most `rounds` rounds. */
  method GetAllObjects(store: KeyStore, objectPrefix: string, rounds: nat)
    returns (ended: bool, ok: bool, ret: seq<string>)
    requires store.Valid()
    modifies store`refusals
    ensures store.refusals == old(store.refusals) + if ok then 0 else 1
    ensures !ok ==> ended
    ensures ended && ok ==> ret == Select(store.keys, objectPrefix, "")
    ensures ended && ok ==> FirstPageHoldsAll(store, objectPrefix)
    ensures !ended && rounds > 0 ==> !FirstPageHoldsAll(store, objectPrefix)
  {
    ret := [];
    var marker := "";
    ended, ok := false, true;
    var round := 0;
    while round < rounds
      invariant 0 <= round <= rounds && ok && store.refusals == old(store.refusals)
      invariant round > 0 ==> !FirstPageHoldsAll(store, objectPrefix)
      invariant round == 0 ==> ret == []
    {
      var okPage, result, shadow := GetPagedObjects(store, objectPrefix, marker, PAGE_SIZE);
      if !okPage {
        return true, false, [];
      }
      PageAdvances(store, objectPrefix, "");
      ret := ret + result;
      if shadow == "" {
        return true, true, ret;
      }
      round := round + 1;
    }
  }

  /** The bucket holds no more keys with the prefix than the first page can take. */
  predicate FirstPageHoldsAll(store: KeyStore, prefix: string)
    reads store`keys
  {
    |Select(store.keys, prefix, "")| <= Min(PAGE_SIZE, store.pageLimit)
  }

  // ---------- Finding one object ----------

  datatype Lookup = Found(key: string) | NotFound | ListFailed

  /** `GetIObject`: lists one key with the prefix and, if the prefix ends in a slash,
      one key with the slash left out. */
  method GetIObject(store: KeyStore, objectPrefix: string) returns (r: Lookup)
    requires store.Valid()
    modifies store`refusals
    ensures store.refusals == old(store.refusals) + if r.ListFailed? then 1 else 0
    ensures r.Found? ==> r.key == objectPrefix && objectPrefix in store.keys
    ensures r.NotFound? ==> objectPrefix !in store.keys
  {
    var tryPrefix := [objectPrefix];
    if Text.HasSuffix(objectPrefix, "/") {
      tryPrefix := tryPrefix + [objectPrefix[..|objectPrefix| - 1]];
    }
    FirstIsTheKey(store.keys, objectPrefix);
    var i := 0;
    while i < |tryPrefix|
      invariant store.refusals == old(store.refusals)
      invariant i > 0 ==> objectPrefix !in store.keys
    {
      var ok, result := store.ListObjects(tryPrefix[i], "", 1);
      if !ok {
        return ListFailed;
      }
      if |result.Objects| > 0 && result.Objects[0] == objectPrefix {
        SelectMember(store.keys, tryPrefix[i], "", objectPrefix);
        return Found(objectPrefix);
      }
      i := i + 1;
    }
    return NotFound;
  }

  /** The first key with a prefix is the prefix itself exactly when that is a key. */
  lemma FirstIsTheKey(keys: seq<string>, prefix: string)
    requires Ascending(keys)
    ensures var all := Select(keys, prefix, ""); prefix in keys <==> all != [] && all[0] == prefix
  {
    var all := Select(keys, prefix, "");
    SelectMember(keys, prefix, "", prefix);
    SelectAscending(keys, prefix, "");
    if prefix in keys {
      var j :| 0 <= j < |all| && all[j] == prefix;
      SelectMember(keys, prefix, "", all[0]);
      Text.PrefixIsLeast(prefix, all[0]);
      if j > 0 {
        assert Text.Less(all[0], all[j]);
        Text.LessIrreflexive(prefix);
        if Text.Less(prefix, all[0]) {
          Text.LessTransitive(prefix, all[0], prefix);
        }
      }
    }
  }

  // ---------- Deleting under a prefix ----------

  datatype DeleteResult = Deleted | ListError | DeleteError | StillListing

  /** Deletes keys one by one, stopping at the first failure. */
  method DeleteKeys(store: KeyStore, objs: seq<string>) returns (ok: bool)
    requires store.Valid()
    modifies store
    ensures store.Valid() && store.refusals == old(store.refusals) + if ok then 0 else 1
    ensures ok ==> store.keys == Without(old(store.keys), (set k | k in objs))
    ensures exists gone: set<string> :: gone <= (set k | k in objs) && store.keys == Without(old(store.keys), gone)
  {
    ghost var gone: set<string> := {};
    WithoutNone(store.keys, {});
    for i := 0 to |objs|
      invariant store.Valid()
      invariant gone == (set k | k in objs[..i]) && store.refusals == old(store.refusals)
      invariant store.keys == Without(old(store.keys), gone)
    {
      ghost var before := store.keys;
      ok := store.DeleteObject(objs[i]);
      WithoutTwice(old(store.keys), gone, {objs[i]});
      assert objs[..i + 1] == objs[..i] + [objs[i]];
      if !ok {
        if store.keys == before {
          assert gone <= set k | k in objs;
        } else {
          assert gone + {objs[i]} <= set k | k in objs;
        }
        return;
      }
      gone := gone + {objs[i]};
    }
    assert objs[..|objs|] == objs;
    ok := true;
  }

  /** `DeletePrefix`, on the listing as written: when it ends well, exactly the keys with
      the prefix are gone; whatever happens, no other key is. */
  method DeletePrefix(store: KeyStore, prefix: string, rounds: nat) returns (r: DeleteResult)
    requires store.Valid()
    modifies store
    ensures store.Valid()
    // It fails exactly when a call fails.
    ensures store.refusals == old(store.refusals) + if r in {ListError, DeleteError} then 1 else 0
    ensures forall k :: k in store.keys ==> k in old(store.keys)
    ensures forall k :: k in old(store.keys) && !Text.HasPrefix(k, prefix) ==> k in store.keys
    ensures r == Deleted ==> forall k :: k in store.keys ==> !Text.HasPrefix(k, prefix)
    ensures r == StillListing && rounds > 0 ==> !old(FirstPageHoldsAll(store, prefix))
    ensures r in {StillListing, ListError} ==> store.keys == old(store.keys)
    ensures !old(FirstPageHoldsAll(store, prefix)) ==> r in {StillListing, ListError}
  {
    var ended, ok, objs := GetAllObjects(store, prefix, rounds);
    if !ended {
      return StillListing;
    }
    if !ok {
      return ListError;
    }
    ok := DeleteKeys(store, objs);
    DeletedExactly(old(store.keys), store.keys, prefix, objs);
    r := if ok then Deleted else DeleteError;
  }

  /** The same with the marker carried: it deletes the keys whatever their number. */
  method DeletePrefixCarrying(store: KeyStore, prefix: string) returns (r: DeleteResult)
    requires store.Valid()
    modifies store
    ensures store.Valid()
    // It fails exactly when a call fails.
    ensures store.refusals == old(store.refusals) + if r in {ListError, DeleteError} then 1 else 0
    ensures forall k :: k in store.keys ==> k in old(store.keys)
    ensures forall k :: k in old(store.keys) && !Text.HasPrefix(k, prefix) ==> k in store.keys
    ensures r == Deleted ==> forall k :: k in store.keys ==> !Text.HasPrefix(k, prefix)
    ensures r in {Deleted, ListError, DeleteError} && (r == ListError ==> store.keys == old(store.keys))
  {
    var ok, objs := ListCarrying(store, prefix);
    if !ok {
      return ListError;
    }
    ok := DeleteKeys(store, objs);
    DeletedExactly(old(store.keys), store.keys, prefix, objs);
    r := if ok then Deleted else DeleteError;
  }

  /** Taking away listed keys touches no key without the prefix; taking all of them away leaves none with it. */
  lemma DeletedExactly(before: seq<string>, after: seq<string>, prefix: string, objs: seq<string>)
    requires objs == Select(before, prefix, "")
    requires exists gone: set<string> :: gone <= (set k | k in objs) && after == Without(before, gone)
    ensures forall k :: k in after ==> k in before
    ensures forall k :: k in before && !Text.HasPrefix(k, prefix) ==> k in after
    ensures after == Without(before, (set k | k in objs)) ==> forall k :: k in after ==> !Text.HasPrefix(k, prefix)
  {
    var gone: set<string> :| gone <= (set k | k in objs) && after == Without(before, gone);
    forall k ensures (k in after ==> k in before) && (k in before && !Text.HasPrefix(k, prefix) ==> k in after) {
      WithoutMember(before, gone, k);
      SelectMember(before, prefix, "", k);
    }
    if after == Without(before, (set k | k in objs)) {
      forall k | k in after ensures !Text.HasPrefix(k, prefix) {
        WithoutMember(before, (set x | x in objs), k);
        SelectMember(before, prefix, "", k);
      }
    }
  }
}
