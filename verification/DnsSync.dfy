/** What a comparison of DNS records followed by `SyncDnsRecordSets` leaves in the zone. */
module DnsSync {
  import opened Images
  import opened DnsKeys
  import opened DnsRecords
  import opened DnsZone

  function KeysOf(z: Zone): set<string> {
    set id | id in z :: KeyOf(z[id])
  }

  lemma KeyOfRead(id: string, z: SDomainRecord)
    ensures Read(id, z).String() == KeyOf(z)
  {
  }

  lemma CopiesOfListing(z: Zone, rs: seq<DnsRecordSet>)
    requires Lists(z, rs)
    ensures Copies(rs) == rs
  {
    forall k | 0 <= k < |rs| ensures rs[k].Copy() == rs[k] {
      assert rs[k] in rs;
    }
  }

  /** The index of the zone's records has the zone's keys, and every entry is a record of the zone. */
  lemma IndexOfZone(z: Zone, rs: seq<DnsRecordSet>)
    requires Lists(z, rs)
    ensures ByKey(IndexOf(rs)) && IndexOf(rs).Keys == KeysOf(z)
    ensures forall k :: k in IndexOf(rs) ==> EntryOf(z, IndexOf(rs)[k], k)
  {
    IndexByKey(rs);
    var m := IndexOf(rs);
    forall k | k in m ensures EntryOf(z, m[k], k) {
      IndexEntry(rs, k);
      KeyOfRead(m[k].ExternalId, z[m[k].ExternalId]);
    }
    forall k | k in KeysOf(z) ensures k in m {
      var id :| id in z && KeyOf(z[id]) == k;
      KeyOfRead(id, z[id]);
      var i :| 0 <= i < |rs| && rs[i] == Read(id, z[id]);
      IndexHoldsTheLast(rs, i);
    }
  }

  /** `r` is a record of the zone with key `k`. */
  ghost predicate EntryOf(z: Zone, r: DnsRecordSet, k: string) {
    r.ExternalId in z && r == Read(r.ExternalId, z[r.ExternalId]) && KeyOf(z[r.ExternalId]) == k
  }

  // ---------- The loops, id by id ----------

  /** What the getters tell of a record. */
  function Content(z: SDomainRecord): DnsRecordSet { Read("", z) }

  ghost predicate SameContent(a: Zone, b: Zone) {
    a.Keys == b.Keys && forall id :: id in a ==> Content(a[id]) == Content(b[id])
  }

  lemma {:induction false} RemarksKeepContent(z: Zone, common: seq<DnsRecordSet>)
    ensures SameContent(RemarkAll(z, common), z)
  {
    if common != [] {
      RemarksKeepContent(z, common[..|common| - 1]);
    }
  }

  lemma {:induction false} Deleted(z: Zone, del: seq<DnsRecordSet>, id: string)
    ensures id in DeleteAll(z, del) <==> id in z && !Named(del, id)
    ensures id in DeleteAll(z, del) ==> DeleteAll(z, del)[id] == z[id]
  {
    if del != [] {
      Deleted(z, del[..|del| - 1], id);
      assert del == del[..|del| - 1] + [del[|del| - 1]];
    }
  }

  lemma {:induction false} AddedAt(z: Zone, add: seq<DnsRecordSet>, ids: seq<string>, priority: int, k: int)
    requires |ids| == |add| && NewIds(z, ids) && 0 <= k < |add|
    ensures ids[k] in AddAll(z, add, ids, priority)
    ensures AddAll(z, add, ids, priority)[ids[k]] == Complete(add[k], priority)
  {
    if k < |add| - 1 {
      AddedAt(z, add[..|add| - 1], ids[..|ids| - 1], priority, k);
    }
  }

  lemma {:induction false} NotAdded(z: Zone, add: seq<DnsRecordSet>, ids: seq<string>, priority: int, id: string)
    requires |ids| == |add| && id !in ids
    ensures id in AddAll(z, add, ids, priority) <==> id in z
    ensures id in z ==> AddAll(z, add, ids, priority)[id] == z[id]
  {
    if add != [] {
      assert ids == ids[..|ids| - 1] + [ids[|ids| - 1]];
      NotAdded(z, add[..|add| - 1], ids[..|ids| - 1], priority, id);
    }
  }

  predicate Same(z: SDomainRecord, u: DnsRecordSet) {
    Match(z, u) && u.Enabled == (z.Status == "ENABLE")
  }

  /** Every update names a record of the zone and says what the record says already. */
  ghost predicate AllMatch(z: Zone, update: seq<DnsRecordSet>) {
    forall u :: u in update ==> u.ExternalId in z && Same(z[u.ExternalId], u)
  }

  lemma {:induction false} MatchingUpdatesKeepContent(z: Zone, update: seq<DnsRecordSet>)
    requires AllMatch(z, update)
    ensures SameContent(UpdateAll(z, update), z)
  {
    if update != [] {
      var init, last := update[..|update| - 1], update[|update| - 1];
      assert last in update && forall u :: u in init ==> u in update;
      MatchingUpdatesKeepContent(z, init);
      MatchingUpdateKeepsContent(UpdateAll(z, init), last);
    }
  }

  lemma MatchingUpdateKeepsContent(z: Zone, u: DnsRecordSet)
    requires u.ExternalId in z && Same(z[u.ExternalId], u)
    ensures SameContent(Update(z, u), z)
  {
  }

  lemma ContentDecidesKey(a: SDomainRecord, b: SDomainRecord)
    requires Content(a) == Content(b)
    ensures KeyOf(a) == KeyOf(b)
  {
    assert KeyOf(a) == Content(a).String() && KeyOf(b) == Content(b).String();
  }

  lemma CompleteKey(r: DnsRecordSet, priority: int)
    ensures KeyOf(Complete(r, priority)) == StoredKey(r)
  {
  }

  // ---------- One comparison and one sync ----------

  /** A comparison of local records with the listing `rs` of zone `z`, and a sync without errors. */
  datatype Round = Round(lib: Lib, local: Index, rs: seq<DnsRecordSet>, o: Orders, c: Comparison,
                         z: Zone, ids: seq<string>, priority: int, after: Zone)
  {
    function Remote(): Index { IndexOf(rs) }

    /** The zone when the deletions are done. */
    function Base(): Zone { DeleteAll(RemarkAll(z, c.common), c.removed) }

    ghost predicate Valid() {
      && ByKey(local) && Lists(z, rs)
      && Compared(lib, local, IndexOf(Copies(rs)), o, c)
      && |ids| == |c.added| && NewIds(Base(), ids)
      && after == Synced(z, c, ids, priority)
    }

    lemma Facts()
      requires Valid()
      ensures Compared(lib, local, Remote(), o, c)
      ensures ByKey(Remote()) && Remote().Keys == KeysOf(z)
    {
      CopiesOfListing(z, rs);
      IndexOfZone(z, rs);
    }

    /** The record of the zone that stands for a key. */
    lemma Entry(k: string)
      requires Valid() && k in Remote()
      ensures EntryOf(z, Remote()[k], k)
    {
      IndexOfZone(z, rs);
    }

    /** Deleted are the records that stand for a key that no local record has. */
    lemma RemovedIds(id: string)
      requires Valid() && id in z
      ensures Named(c.removed, id)
        <==> KeyOf(z[id]) !in local && KeyOf(z[id]) in Remote() && Remote()[KeyOf(z[id])].ExternalId == id
    {
      Facts();
      var k := KeyOf(z[id]);
      if r :| r in c.removed && r.ExternalId == id {
        RemovedIff(lib, local, Remote(), o, c, r);
        Entry(r.String());
      }
      if k !in local && k in Remote() && Remote()[k].ExternalId == id {
        RemovedIff(lib, local, Remote(), o, c, Remote()[k]);
      }
    }

    lemma InBase(id: string)
      requires Valid()
      ensures id in Base() <==> id in z && !Named(c.removed, id)
      ensures id in Base() ==> Content(Base()[id]) == Content(z[id])
    {
      RemarksKeepContent(z, c.common);
      Deleted(RemarkAll(z, c.common), c.removed, id);
    }

    /** Updates carry what the zone says already. */
    lemma UpdateMatches(u: DnsRecordSet)
      requires Valid() && u in c.updated
      ensures u.ExternalId in z && u.ExternalId in Base() && Same(z[u.ExternalId], u)
    {
      Facts();
      var k := UpdatedKey(lib, local, Remote(), o, c, u);
      Entry(k);
      RemoteSays(z, Remote()[k], k, At(local, k).Id);
      RemovedIds(u.ExternalId);
      InBase(u.ExternalId);
    }

    lemma AfterContent()
      requires Valid()
      ensures SameContent(after, AddAll(Base(), c.added, ids, priority))
    {
      var mid := AddAll(Base(), c.added, ids, priority);
      forall u | u in c.updated ensures u.ExternalId in mid && Same(mid[u.ExternalId], u) {
        UpdateMatches(u);
        InBase(u.ExternalId);
        NotAdded(Base(), c.added, ids, priority, u.ExternalId);
        ContentDecidesSame(mid[u.ExternalId], z[u.ExternalId], u);
      }
      MatchingUpdatesKeepContent(mid, c.updated);
    }

    /** The zone's records after the sync are those that were not removed, with their content, and those that were
        added. */
    lemma Survives(id: string)
      requires Valid() && id in z && !Named(c.removed, id)
      ensures id in after && Content(after[id]) == Content(z[id]) && KeyOf(after[id]) == KeyOf(z[id])
    {
      InBase(id);
      NotAdded(Base(), c.added, ids, priority, id);
      AfterContent();
      ContentDecidesKey(after[id], z[id]);
    }

    lemma Arrives(i: int)
      requires Valid() && 0 <= i < |c.added|
      ensures ids[i] in after && KeyOf(after[ids[i]]) == StoredKey(c.added[i])
    {
      AddedAt(Base(), c.added, ids, priority, i);
      AfterContent();
      CompleteKey(c.added[i], priority);
      ContentDecidesKey(after[ids[i]], Complete(c.added[i], priority));
    }

    lemma NothingElse(id: string)
      requires Valid() && id in after && id !in ids
      ensures id in z && !Named(c.removed, id)
    {
      AfterContent();
      NotAdded(Base(), c.added, ids, priority, id);
      InBase(id);
    }
  }

  lemma RemoteSays(z: Zone, r: DnsRecordSet, k: string, id: string)
    requires EntryOf(z, r, k)
    ensures Same(z[r.ExternalId], r.(Id := id))
  {
  }

  lemma ContentDecidesSame(a: SDomainRecord, b: SDomainRecord, u: DnsRecordSet)
    requires Content(a) == Content(b)
    ensures Same(a, u) <==> Same(b, u)
  {
    SameByContent(a, u);
    SameByContent(b, u);
  }

  predicate Says(r: DnsRecordSet, u: DnsRecordSet) {
    && u.DnsName == r.DnsName && u.DnsType == r.DnsType && u.DnsValue == r.DnsValue
    && u.PolicyType == r.PolicyType && u.PolicyValue == r.PolicyValue && u.Ttl == r.Ttl && u.Enabled == r.Enabled
  }

  lemma SameByContent(z: SDomainRecord, u: DnsRecordSet)
    ensures Same(z, u) <==> Says(Content(z), u)
  {
  }

  /** A record of the zone with this key is not removed. */
  ghost predicate Kept(w: Round, k: string) {
    exists id :: id in w.z && !Named(w.c.removed, id) && KeyOf(w.z[id]) == k
  }

  /** A local record that is added is stored under this key. */
  ghost predicate Arrived(w: Round, k: string) {
    exists i :: 0 <= i < |w.c.added| && StoredKey(w.c.added[i]) == k
  }

  lemma KeptOrArrived(w: Round, id: string)
    requires w.Valid() && id in w.after
    ensures Kept(w, KeyOf(w.after[id])) || Arrived(w, KeyOf(w.after[id]))
  {
    if id in w.ids {
      var i :| 0 <= i < |w.ids| && w.ids[i] == id;
      w.Arrives(i);
    } else {
      w.NothingElse(id);
      w.Survives(id);
    }
  }

  /** The keys of the zone afterwards: those of the records that were not removed, and those
      under which the added records are stored. */
  lemma KeysAfter(w: Round, k: string)
    requires w.Valid()
    ensures k in KeysOf(w.after) <==> Kept(w, k) || Arrived(w, k)
  {
    if k in KeysOf(w.after) {
      var id :| id in w.after && KeyOf(w.after[id]) == k;
      KeptOrArrived(w, id);
    }
    if Kept(w, k) {
      var id :| id in w.z && !Named(w.c.removed, id) && KeyOf(w.z[id]) == k;
      w.Survives(id);
    }
    if Arrived(w, k) {
      var i :| 0 <= i < |w.c.added| && StoredKey(w.c.added[i]) == k;
      w.Arrives(i);
    }
  }

  // ---------- When the zone gets the local keys ----------

  /** No two records of the zone share a key that no local record has. */
  ghost predicate NoStrayTwins(z: Zone, local: Index) {
    forall a, b :: a in z && b in z && KeyOf(z[a]) == KeyOf(z[b]) && KeyOf(z[a]) !in local ==> a == b
  }

  function NewKeys(w: Round): set<string> {
    set k | k in w.local && k !in KeysOf(w.z)
  }

  /** The local records the zone does not have read back as they are sent. */
  ghost predicate NewOnesFaithful(w: Round) {
    forall k :: k in NewKeys(w) ==> Faithful(w.local[k])
  }

  lemma LocalKeyKeptIff(w: Round, k: string)
    requires w.Valid() && k in w.local
    ensures Kept(w, k) <==> k in KeysOf(w.z)
  {
    if k in KeysOf(w.z) {
      var id :| id in w.z && KeyOf(w.z[id]) == k;
      w.RemovedIds(id);
    }
  }

  /** A key that no local record has is kept only for a twin. */
  lemma StrayKeyKept(w: Round, id: string)
    requires w.Valid() && id in w.z && KeyOf(w.z[id]) !in w.local && !Named(w.c.removed, id)
    ensures !NoStrayTwins(w.z, w.local)
  {
    var k := KeyOf(w.z[id]);
    w.RemovedIds(id);
    w.Facts();
    w.Entry(k);
    assert w.Remote()[k].ExternalId != id;
  }

  lemma TwinIsKept(w: Round, a: string, b: string)
    requires w.Valid() && a in w.z && b in w.z && a != b
    requires KeyOf(w.z[a]) == KeyOf(w.z[b]) && KeyOf(w.z[a]) !in w.local
    ensures Kept(w, KeyOf(w.z[a]))
  {
    w.RemovedIds(a);
    w.RemovedIds(b);
    assert !Named(w.c.removed, a) || !Named(w.c.removed, b);
  }

  lemma NewKeyArrives(w: Round, k: string)
    requires w.Valid() && k in NewKeys(w)
    ensures exists i :: 0 <= i < |w.c.added| && w.c.added[i] == w.local[k]
  {
    w.Facts();
    AddedIff(w.lib, w.local, w.Remote(), w.o, w.c, w.local[k]);
  }

  lemma ArrivalIsNew(w: Round, i: int)
    requires w.Valid() && 0 <= i < |w.c.added|
    ensures var k := w.c.added[i].String(); k in NewKeys(w) && w.local[k] == w.c.added[i]
  {
    w.Facts();
    AddedIff(w.lib, w.local, w.Remote(), w.o, w.c, w.c.added[i]);
  }

  lemma ConvergesIf(w: Round)
    requires w.Valid() && NoStrayTwins(w.z, w.local) && NewOnesFaithful(w)
    ensures KeysOf(w.after) == w.local.Keys
  {
    forall k ensures k in KeysOf(w.after) <==> k in w.local {
      KeysAfter(w, k);
      if k in w.local {
        LocalKeyKeptIff(w, k);
        if k in NewKeys(w) {
          NewKeyArrives(w, k);
          FaithfulKeepsKey(w.local[k]);
        }
      } else {
        if id :| id in w.z && !Named(w.c.removed, id) && KeyOf(w.z[id]) == k {
          StrayKeyKept(w, id);
        }
        if i :| 0 <= i < |w.c.added| && StoredKey(w.c.added[i]) == k {
          ArrivalIsNew(w, i);
          FaithfulKeepsKey(w.c.added[i]);
        }
      }
    }
  }

  lemma ConvergedIsFaithful(w: Round)
    requires w.Valid() && KeysOf(w.after) == w.local.Keys
    ensures NewOnesFaithful(w)
  {
    var keys := NewKeys(w);
    forall k {:trigger Hit(w.local, keys, k)} | k in keys ensures Hit(w.local, keys, k) {
      KeysAfter(w, k);
      LocalKeyKeptIff(w, k);
      var i :| 0 <= i < |w.c.added| && StoredKey(w.c.added[i]) == k;
      ArrivalIsNew(w, i);
      assert w.c.added[i].String() in keys;
    }
    AllFaithful(w.local, keys);
  }

  lemma ConvergedHasNoTwins(w: Round)
    requires w.Valid() && KeysOf(w.after) == w.local.Keys
    ensures NoStrayTwins(w.z, w.local)
  {
    forall a, b | a in w.z && b in w.z && KeyOf(w.z[a]) == KeyOf(w.z[b]) && KeyOf(w.z[a]) !in w.local ensures a == b {
      if a != b {
        TwinIsKept(w, a, b);
        KeysAfter(w, KeyOf(w.z[a]));
      }
    }
  }

  /** After a sync without errors the zone has exactly the local keys if and only if no two of its records
      shared a key that no local record has, and the records it did not have read back as they are sent. */
  lemma ConvergesIff(w: Round)
    requires w.Valid()
    ensures KeysOf(w.after) == w.local.Keys <==> NoStrayTwins(w.z, w.local) && NewOnesFaithful(w)
  {
    if KeysOf(w.after) == w.local.Keys {
      ConvergedIsFaithful(w);
      ConvergedHasNoTwins(w);
    } else if NoStrayTwins(w.z, w.local) && NewOnesFaithful(w) {
      ConvergesIf(w);
    }
  }

  /** A second comparison, with whatever listing of the zone, then has nothing to add or remove
      exactly under the same condition. */
  lemma SecondComparisonIff(w: Round, rs2: seq<DnsRecordSet>, o2: Orders, c2: Comparison)
    requires w.Valid() && Lists(w.after, rs2) && Compared(w.lib, w.local, IndexOf(Copies(rs2)), o2, c2)
    ensures c2.added == [] && c2.removed == [] <==> NoStrayTwins(w.z, w.local) && NewOnesFaithful(w)
  {
    ConvergesIff(w);
    CopiesOfListing(w.after, rs2);
    IndexOfZone(w.after, rs2);
    SettledIff(w.lib, w.local, IndexOf(rs2), o2, c2);
  }

  /** The round that a listing, a comparison and a sync make. */
  lemma RoundOf(lib: Lib, local: seq<DnsRecordSet>, rs: seq<DnsRecordSet>, c: Comparison, z: Zone, ids: seq<string>,
                priority: int, after: Zone) returns (w: Round)
    requires Lists(z, rs) && exists o :: Compared(lib, IndexOf(local), IndexOf(Copies(rs)), o, c)
    requires |ids| == |c.added| && NewIds(DeleteAll(RemarkAll(z, c.common), c.removed), ids)
    requires after == Synced(z, c, ids, priority)
    ensures w.Valid() && w.local == IndexOf(local) && w.z == z && w.after == after
    ensures KeysOf(after) == IndexOf(local).Keys <==> NoStrayTwins(z, IndexOf(local)) && NewOnesFaithful(w)
  {
    var o :| Compared(lib, IndexOf(local), IndexOf(Copies(rs)), o, c);
    w := Round(lib, IndexOf(local), rs, o, c, z, ids, priority, after);
    IndexByKey(local);
    ConvergesIff(w);
  }

  /** List the zone, compare, sync: the round that the theorems are about. */
  method SyncZone(lib: Lib, zone: SDomain, local: seq<DnsRecordSet>) returns (ok: bool, ghost w: Round)
    modifies zone
    ensures zone.refusals == old(zone.refusals) + if ok then 0 else 1
    ensures ok ==> w.Valid() && w.local == IndexOf(local) && w.z == old(zone.records) && w.after == zone.records
    ensures ok ==>
      (KeysOf(zone.records) == IndexOf(local).Keys
       <==> NoStrayTwins(old(zone.records), IndexOf(local)) && NewOnesFaithful(w))
  {
    w := Round(lib, map[], [], Orders([], []), Comparison([], [], [], []), map[], [], 0, map[]);
    var rs;
    ok, rs := zone.GetIDnsRecordSets();
    if !ok {
      return;
    }
    ghost var z := zone.records;
    var c := CompareDnsRecordSet(lib, rs, local);
    ghost var ids;
    ok, ids := zone.SyncDnsRecordSets(c);
    if ok {
      w := RoundOf(lib, local, rs, c, z, ids, zone.priority, zone.records);
    }
  }

  // ---------- Fields do not converge ----------

  lemma ReadByContent(id: string, a: SDomainRecord, b: SDomainRecord)
    requires Content(a) == Content(b)
    ensures Read(id, a) == Read(id, b)
  {
    assert Read(id, a) == Content(a).(ExternalId := id) && Read(id, b) == Content(b).(ExternalId := id);
  }

  /** What is updated is the record that stands for its key, and is still there after the sync. */
  lemma UpdatedStands(w: Round, u: DnsRecordSet)
    requires w.Valid() && u in w.c.updated
    ensures var (k, id) := (u.String(), u.ExternalId);
      && k in w.local && k in w.Remote() && w.Remote()[k].ExternalId == id && u == UpdatedAt(w.local, w.Remote(), k)
      && PartOf(w.lib, w.local, w.Remote(), k) == Updated
      && id in w.z && id in w.after && KeyOf(w.z[id]) == k && KeyOf(w.after[id]) == k
      && Read(id, w.after[id]) == w.Remote()[k]
  {
    w.Facts();
    var k := UpdatedKey(w.lib, w.local, w.Remote(), w.o, w.c, u);
    w.Entry(k);
    var id := w.Remote()[k].ExternalId;
    w.RemovedIds(id);
    w.Survives(id);
    ReadByContent(id, w.after[id], w.z[id]);
  }

  /** A second comparison, with some listing of the zone after the sync. */
  ghost predicate Second(w: Round, rs2: seq<DnsRecordSet>, o2: Orders, c2: Comparison) {
    Lists(w.after, rs2) && Compared(w.lib, w.local, IndexOf(Copies(rs2)), o2, c2)
  }

  /** What is to be updated under a local key is among the updates. */
  lemma FoundAt(lib: Lib, local: Index, remote: Index, o: Orders, c: Comparison, k: string)
    requires Compared(lib, local, remote, o, c) && k in local && PartOf(lib, local, remote, k) == Updated
    ensures UpdatedAt(local, remote, k) in c.updated
  {
    OrderMember(o.local, local.Keys, k);
    TakenMember(lib, local, remote, o.local, Updated, UpdatedAt(local, remote, k));
  }

  /** An update is found again by a second comparison exactly when the listing it works with
      ends, among the records with that key, with the same record. */
  lemma FoundAgainIff(w: Round, u: DnsRecordSet, rs2: seq<DnsRecordSet>, o2: Orders, c2: Comparison)
    requires w.Valid() && u in w.c.updated && Second(w, rs2, o2, c2)
    ensures var k := u.String();
      k in IndexOf(rs2) && (u in c2.updated <==> IndexOf(rs2)[k].ExternalId == u.ExternalId)
  {
    CopiesOfListing(w.after, rs2);
    IndexOfZone(w.after, rs2);
    UpdatedStands(w, u);
    var k := u.String();
    assert k in KeysOf(w.after);
    if IndexOf(rs2)[k].ExternalId == u.ExternalId {
      SamePart(w.lib, w.local, w.Remote(), IndexOf(rs2), k);
      FoundAt(w.lib, w.local, IndexOf(rs2), o2, c2, k);
    }
    if u in c2.updated {
      var k2 := UpdatedKey(w.lib, w.local, IndexOf(rs2), o2, c2, u);
    }
  }

  /** No other record of the zone has the record's key, and no addition is stored under it. */
  ghost predicate Alone(w: Round, r: DnsRecordSet) {
    (forall id :: id in w.z && KeyOf(w.z[id]) == r.String() ==> id == r.ExternalId) && !Arrived(w, r.String())
  }

  /** Records that come under a local key are there after the sync. */
  lemma StaysUnder(w: Round, id: string)
    requires w.Valid() && id in w.z && KeyOf(w.z[id]) in w.local
    ensures id in w.after && KeyOf(w.after[id]) == KeyOf(w.z[id]) && id in w.Base()
  {
    w.RemovedIds(id);
    w.Survives(id);
    w.InBase(id);
  }

  lemma NotAlone(w: Round, r: DnsRecordSet) returns (id: string)
    requires w.Valid() && r.String() in w.local && r.ExternalId in w.Base() && !Alone(w, r)
    ensures id in w.after && KeyOf(w.after[id]) == r.String() && id != r.ExternalId
  {
    if x :| x in w.z && KeyOf(w.z[x]) == r.String() && x != r.ExternalId {
      StaysUnder(w, x);
      id := x;
    } else {
      var i :| 0 <= i < |w.c.added| && StoredKey(w.c.added[i]) == r.String();
      w.Arrives(i);
      id := w.ids[i];
    }
  }

  lemma AloneAfter(w: Round, r: DnsRecordSet, id: string)
    requires w.Valid() && Alone(w, r) && id in w.after && KeyOf(w.after[id]) == r.String()
    ensures id == r.ExternalId
  {
    if id in w.ids {
      var i :| 0 <= i < |w.ids| && w.ids[i] == id;
      w.Arrives(i);
    } else {
      w.NothingElse(id);
      w.Survives(id);
    }
  }

  /** The zone can be listed, with whichever record at the end. */
  lemma {:induction false} SomeListing(z: Zone) returns (rs: seq<DnsRecordSet>)
    ensures Lists(z, rs)
    decreases |z|
  {
    rs := [];
    if z != map[] {
      var id :| id in z;
      rs := ListingTo(z, id);
    }
  }

  lemma {:induction false} ListingTo(z: Zone, id: string) returns (rs: seq<DnsRecordSet>)
    requires id in z
    ensures Lists(z, rs) && rs != [] && rs[|rs| - 1] == Read(id, z[id])
    decreases |z|, 0
  {
    var rest := SomeListing(z - {id});
    rs := rest + [Read(id, z[id])];
    ListsOneMore(z, id, rest);
  }

  lemma ListsOneMore(z: Zone, id: string, rest: seq<DnsRecordSet>)
    requires id in z && Lists(z - {id}, rest)
    ensures Lists(z, rest + [Read(id, z[id])])
  {
    var (less, rs) := (z - {id}, rest + [Read(id, z[id])]);
    forall r | r in rs ensures r.ExternalId in z && r == Read(r.ExternalId, z[r.ExternalId]) {
      if r in rest {
        assert r.ExternalId in less;
      }
    }
    forall x | x in z ensures Read(x, z[x]) in rs {
      if x == id {
        assert rs[|rest|] == Read(x, z[x]);
      } else {
        assert Read(x, less[x]) in rest;
      }
    }
    forall k, l | 0 <= k < l < |rs| ensures rs[k].ExternalId != rs[l].ExternalId {
      assert rs[k] == rest[k] && rest[k] in rest;
    }
  }

  /** Every comparison after the sync finds the update again. */
  ghost predicate FoundAgain(w: Round, u: DnsRecordSet) {
    forall rs2, o2, c2 | Second(w, rs2, o2, c2) :: u in c2.updated
  }

  /** What a comparison finds to update is found again by every next one, in whatever order the cloud lists
      its records, exactly when no other record comes under its key: the update carries what the cloud
      has, so the loop over updates changes nothing that a getter tells. */
  lemma UpdatesNeverLand(w: Round, u: DnsRecordSet)
    requires w.Valid() && u in w.c.updated
    ensures FoundAgain(w, u) <==> Alone(w, u)
  {
    UpdatedStands(w, u);
    StaysUnder(w, u.ExternalId);
    if Alone(w, u) {
      forall rs2, o2, c2 | Second(w, rs2, o2, c2) ensures u in c2.updated {
        FoundAgainIff(w, u, rs2, o2, c2);
        IndexOfZone(w.after, rs2);
        AloneAfter(w, u, IndexOf(rs2)[u.String()].ExternalId);
      }
    } else {
      var id := NotAlone(w, u);
      var rs2 := ListingTo(w.after, id);
      var o2, c2 := SomeComparison(w.lib, w.local, IndexOf(Copies(rs2)));
      FoundAgainIff(w, u, rs2, o2, c2);
      KeyOfRead(id, w.after[id]);
      assert Second(w, rs2, o2, c2) && u !in c2.updated;
    }
  }

  lemma SomeComparison(lib: Lib, local: Index, remote: Index) returns (o: Orders, c: Comparison)
    ensures Compared(lib, local, remote, o, c)
  {
    var ls := SomeOrder(local.Keys);
    var rs := SomeOrder(remote.Keys);
    o := Orders(ls, rs);
    c := Comparison(Taken(lib, local, remote, ls, Common), Taken(lib, local, remote, ls, Added),
                    Dropped(local, remote, rs), Taken(lib, local, remote, ls, Updated));
  }

  lemma SamePart(lib: Lib, local: Index, a: Index, b: Index, k: string)
    requires k in a && k in b && a[k] == b[k]
    ensures PartOf(lib, local, a, k) == PartOf(lib, local, b, k)
      && RecordFor(lib, local, a, k) == RecordFor(lib, local, b, k)
  {
  }

  /** A record that was added is equal to what is read back of it exactly when its options are equal to none. */
  lemma AddedReadsBackEqualIff(lib: Lib, id: string, r: DnsRecordSet, priority: int)
    requires Faithful(r)
    ensures r.Equals(lib, Read(id, Complete(r, priority))) <==> IsPolicyOptionEquals(lib, r.PolicyOptions, Nil)
  {
    var back := Read(id, Complete(r, priority));
    assert back.DnsName == r.DnsName && back.DnsType == r.DnsType && back.DnsValue == r.DnsValue && back.Ttl == r.Ttl;
    assert back.PolicyType == r.PolicyType && back.PolicyValue == r.PolicyValue && back.PolicyOptions == Nil;
    assert "ENABLE" != "DISABLE" by {
      assert |"ENABLE"| != |"DISABLE"|;
    }
  }
}
