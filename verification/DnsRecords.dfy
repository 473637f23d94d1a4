/** The comparison of DNS records (pkg/cloudprovider/dnszone.go). */
module DnsRecords {
  import opened Images

  /** A dictionary of policy options, its values in their text form; which may be missing altogether. */
  type Dict = map<string, string>

  datatype Options = Nil | Options(dict: Dict)

  /** The library functions the comparison calls: `strings.ToLower` and the equality of dictionaries. */
  datatype Lib = Lib(lower: string -> string, dictEquals: (Dict, Dict) -> bool)

  datatype DnsRecordSet = DnsRecordSet(
    Id: string, ExternalId: string, Desc: string, Enabled: bool, DnsName: string, DnsType: string, DnsValue: string,
    Status: string, Ttl: int, MxPriority: int, PolicyType: string, PolicyValue: string, PolicyOptions: Options)
  {
    function String(): string {
      DnsType + "-" + DnsName + "-" + DnsValue + "-" + PolicyType + "-" + PolicyValue
    }

    predicate Equals(lib: Lib, r: DnsRecordSet) {
      && lib.lower(DnsName) == lib.lower(r.DnsName)
      && DnsType == r.DnsType
      && DnsValue == r.DnsValue
      && PolicyType == r.PolicyType
      && PolicyValue == r.PolicyValue
      && Ttl == r.Ttl
      && Enabled == r.Enabled
      && (DnsType != "MX" || MxPriority == r.MxPriority)
      && IsPolicyOptionEquals(lib, PolicyOptions, r.PolicyOptions)
    }

    /** The copy made of a cloud's record: its getters know neither id nor description. */
    function Copy(): DnsRecordSet {
      this.(Id := "", Desc := "")
    }
  }

  predicate IsPolicyOptionEquals(lib: Lib, o1: Options, o2: Options) {
    lib.dictEquals(if o1.Nil? then map[] else o1.dict, if o2.Nil? then map[] else o2.dict)
  }

  // ---------- Records by their key ----------

  type Index = map<string, DnsRecordSet>

  function Key(r: DnsRecordSet): string { r.String() }

  /** Of records with the same key, the last counts. */
  function IndexOf(rs: seq<DnsRecordSet>): Index {
    if rs == [] then map[] else IndexOf(rs[..|rs| - 1])[rs[|rs| - 1].String() := rs[|rs| - 1]]
  }

  lemma IndexSnoc(rs: seq<DnsRecordSet>, r: DnsRecordSet)
    ensures IndexOf(rs + [r]) == IndexOf(rs)[r.String() := r]
  {
    assert (rs + [r])[..|rs|] == rs;
  }

  /** The key of every entry is its record's. */
  ghost predicate ByKey(m: Index) {
    forall k :: k in m ==> m[k].String() == k
  }

  lemma {:induction false} IndexByKey(rs: seq<DnsRecordSet>)
    ensures ByKey(IndexOf(rs))
  {
    if rs != [] {
      IndexByKey(rs[..|rs| - 1]);
    }
  }

  /** Every entry is one of the records. */
  lemma {:induction false} IndexEntry(rs: seq<DnsRecordSet>, k: string)
    requires k in IndexOf(rs)
    ensures IndexOf(rs)[k] in rs
  {
    if k != rs[|rs| - 1].String() {
      IndexEntry(rs[..|rs| - 1], k);
    }
  }

  /** Every record has its key in the index; the entry is the record or one that comes after it. */
  lemma {:induction false} IndexHoldsTheLast(rs: seq<DnsRecordSet>, i: int)
    requires 0 <= i < |rs|
    ensures rs[i].String() in IndexOf(rs)
    ensures IndexOf(rs)[rs[i].String()] in rs[i..]
  {
    var init, last := rs[..|rs| - 1], rs[|rs| - 1];
    assert rs[i..] == init[i..] + [last];
    if i < |rs| - 1 {
      IndexHoldsTheLast(init, i);
    }
  }

  function Blank(): DnsRecordSet {
    DnsRecordSet("", "", "", false, "", "", "", "", 0, 0, "", "", Nil)
  }

  function At(m: Index, k: string): DnsRecordSet {
    if k in m then m[k] else Blank()
  }

  // ---------- The comparison ----------

  /** The part of the answer a local key goes to. */
  datatype Part = Common | Updated | Added

  function CommonAt(local: Index, remote: Index, k: string): DnsRecordSet {
    At(local, k).(ExternalId := At(remote, k).ExternalId)
  }

  /** The cloud's own record, with the local id. */
  function UpdatedAt(local: Index, remote: Index, k: string): DnsRecordSet {
    At(remote, k).(Id := At(local, k).Id)
  }

  function PartOf(lib: Lib, local: Index, remote: Index, k: string): Part {
    if k !in remote then Added
    else if CommonAt(local, remote, k).Equals(lib, UpdatedAt(local, remote, k)) then Common
    else Updated
  }

  /** What is listed for the key in its part. */
  function RecordFor(lib: Lib, local: Index, remote: Index, k: string): DnsRecordSet {
    match PartOf(lib, local, remote, k)
    case Added => At(local, k)
    case Common => CommonAt(local, remote, k)
    case Updated => UpdatedAt(local, remote, k)
  }

  /** One part of the answer, when the local keys come up in this order. */
  function Taken(lib: Lib, local: Index, remote: Index, order: seq<string>, p: Part): seq<DnsRecordSet> {
    if order == [] then []
    else
      var (rest, k) := (Taken(lib, local, remote, order[..|order| - 1], p), order[|order| - 1]);
      if PartOf(lib, local, remote, k) == p then rest + [RecordFor(lib, local, remote, k)] else rest
  }

  /** What is removed, when the cloud's keys come up in this order. */
  function Dropped(local: Index, remote: Index, order: seq<string>): seq<DnsRecordSet> {
    if order == [] then []
    else
      var (rest, k) := (Dropped(local, remote, order[..|order| - 1]), order[|order| - 1]);
      if k !in local then rest + [At(remote, k)] else rest
  }

  lemma TakenSnoc(lib: Lib, local: Index, remote: Index, order: seq<string>, p: Part, k: string)
    ensures Taken(lib, local, remote, order + [k], p)
      == if PartOf(lib, local, remote, k) == p
         then Taken(lib, local, remote, order, p) + [RecordFor(lib, local, remote, k)]
         else Taken(lib, local, remote, order, p)
  {
    assert (order + [k])[..|order|] == order;
  }

  lemma DroppedSnoc(local: Index, remote: Index, order: seq<string>, k: string)
    ensures Dropped(local, remote, order + [k])
      == if k !in local then Dropped(local, remote, order) + [At(remote, k)] else Dropped(local, remote, order)
  {
    assert (order + [k])[..|order|] == order;
  }

  datatype Comparison = Comparison(
    common: seq<DnsRecordSet>, added: seq<DnsRecordSet>, removed: seq<DnsRecordSet>, updated: seq<DnsRecordSet>)

  /** The orders in which the two loops over maps took their keys. */
  datatype Orders = Orders(local: seq<string>, remote: seq<string>)

  ghost predicate Compared(lib: Lib, local: Index, remote: Index, o: Orders, c: Comparison) {
    && LocalSorted(lib, local, remote, o.local, c.common, c.added, c.updated)
    && RemoteSorted(local, remote, o.remote, c.removed)
  }

  function Copies(rs: seq<DnsRecordSet>): seq<DnsRecordSet> {
    seq(|rs|, k requires 0 <= k < |rs| => rs[k].Copy())
  }

  method CompareDnsRecordSet(lib: Lib, iRecords: seq<DnsRecordSet>, local: seq<DnsRecordSet>) returns (c: Comparison)
    ensures exists o :: Compared(lib, IndexOf(local), IndexOf(Copies(iRecords)), o, c)
  {
    var remoteMaps := BuildIndex(Copies(iRecords));
    var localMaps := BuildIndex(local);
    var common, added, updated := CompareLocal(lib, localMaps, remoteMaps);
    var removed := CompareRemote(localMaps, remoteMaps);
    c := Comparison(common, added, removed, updated);
    ghost var ls :| LocalSorted(lib, localMaps, remoteMaps, ls, common, added, updated);
    ghost var rs :| RemoteSorted(localMaps, remoteMaps, rs, removed);
    assert Compared(lib, localMaps, remoteMaps, Orders(ls, rs), c);
  }

  method BuildIndex(rs: seq<DnsRecordSet>) returns (m: Index)
    ensures m == IndexOf(rs)
  {
    m := map[];
    for i := 0 to |rs|
      invariant m == IndexOf(rs[..i])
    {
      assert rs[..i] + [rs[i]] == rs[..i + 1];
      IndexSnoc(rs[..i], rs[i]);
      m := m[rs[i].String() := rs[i]];
    }
    assert rs[..|rs|] == rs;
  }

  ghost predicate LocalSorted(lib: Lib, local: Index, remote: Index, order: seq<string>,
                              common: seq<DnsRecordSet>, added: seq<DnsRecordSet>, updated: seq<DnsRecordSet>) {
    && OrderOf(order, local.Keys)
    && common == Taken(lib, local, remote, order, Common)
    && added == Taken(lib, local, remote, order, Added)
    && updated == Taken(lib, local, remote, order, Updated)
  }

  ghost predicate RemoteSorted(local: Index, remote: Index, order: seq<string>, removed: seq<DnsRecordSet>) {
    OrderOf(order, remote.Keys) && removed == Dropped(local, remote, order)
  }

  /** The loop over the local records, in any order of their keys. */
  method CompareLocal(lib: Lib, localMaps: Index, remoteMaps: Index)
    returns (common: seq<DnsRecordSet>, added: seq<DnsRecordSet>, updated: seq<DnsRecordSet>)
    ensures exists order :: LocalSorted(lib, localMaps, remoteMaps, order, common, added, updated)
  {
    common, added, updated := [], [], [];
    ghost var order: seq<string> := [];
    var todo := localMaps.Keys;
    while todo != {}
      invariant todo <= localMaps.Keys && OrderOf(order, localMaps.Keys - todo)
      invariant common == Taken(lib, localMaps, remoteMaps, order, Common)
      invariant added == Taken(lib, localMaps, remoteMaps, order, Added)
      invariant updated == Taken(lib, localMaps, remoteMaps, order, Updated)
    {
      var key :| key in todo;
      OrderSnoc(order, localMaps.Keys, todo, key);
      TakenSnoc(lib, localMaps, remoteMaps, order, Common, key);
      TakenSnoc(lib, localMaps, remoteMaps, order, Added, key);
      TakenSnoc(lib, localMaps, remoteMaps, order, Updated, key);
      var record := localMaps[key];
      if key in remoteMaps {
        var remoteRecord := remoteMaps[key];
        record := record.(ExternalId := remoteRecord.ExternalId);
        remoteRecord := remoteRecord.(Id := record.Id);
        if !record.Equals(lib, remoteRecord) {
          updated := updated + [remoteRecord];
        } else {
          common := common + [record];
        }
      } else {
        added := added + [record];
      }
      todo, order := todo - {key}, order + [key];
    }
    assert LocalSorted(lib, localMaps, remoteMaps, order, common, added, updated);
  }

  /** The loop over the cloud's records, in any order of their keys. */
  method CompareRemote(localMaps: Index, remoteMaps: Index) returns (removed: seq<DnsRecordSet>)
    ensures exists order :: RemoteSorted(localMaps, remoteMaps, order, removed)
  {
    removed := [];
    ghost var order: seq<string> := [];
    var todo := remoteMaps.Keys;
    while todo != {}
      invariant todo <= remoteMaps.Keys && OrderOf(order, remoteMaps.Keys - todo)
      invariant removed == Dropped(localMaps, remoteMaps, order)
    {
      var key :| key in todo;
      OrderSnoc(order, remoteMaps.Keys, todo, key);
      DroppedSnoc(localMaps, remoteMaps, order, key);
      if key !in localMaps {
        removed := removed + [remoteMaps[key]];
      }
      todo, order := todo - {key}, order + [key];
    }
    assert RemoteSorted(localMaps, remoteMaps, order, removed);
  }

  // ---------- What the answer means ----------

  lemma {:induction false} TakenMember(lib: Lib, local: Index, remote: Index, order: seq<string>, p: Part,
                                       r: DnsRecordSet)
    ensures r in Taken(lib, local, remote, order, p)
      <==> exists k :: k in order && PartOf(lib, local, remote, k) == p && r == RecordFor(lib, local, remote, k)
  {
    if order != [] {
      var init, last := order[..|order| - 1], order[|order| - 1];
      TakenMember(lib, local, remote, init, p, r);
      assert order == init + [last];
    }
  }

  lemma {:induction false} DroppedMember(local: Index, remote: Index, order: seq<string>, r: DnsRecordSet)
    ensures r in Dropped(local, remote, order) <==> exists k :: k in order && k !in local && r == At(remote, k)
  {
    if order != [] {
      var init, last := order[..|order| - 1], order[|order| - 1];
      DroppedMember(local, remote, init, r);
      assert order == init + [last];
    }
  }

  /** What is removed is what the cloud has under keys that no local record has. */
  lemma RemovedIff(lib: Lib, local: Index, remote: Index, o: Orders, c: Comparison, r: DnsRecordSet)
    requires Compared(lib, local, remote, o, c) && ByKey(remote)
    ensures r in c.removed <==> r.String() !in local && r.String() in remote && remote[r.String()] == r
  {
    DroppedMember(local, remote, o.remote, r);
    forall k ensures k in o.remote <==> k in remote {
      OrderMember(o.remote, remote.Keys, k);
    }
  }

  /** What is added is what is local under keys that the cloud does not have. */
  lemma AddedIff(lib: Lib, local: Index, remote: Index, o: Orders, c: Comparison, r: DnsRecordSet)
    requires Compared(lib, local, remote, o, c) && ByKey(local)
    ensures r in c.added <==> r.String() !in remote && r.String() in local && local[r.String()] == r
  {
    TakenMember(lib, local, remote, o.local, Added, r);
    forall k ensures k in o.local <==> k in local {
      OrderMember(o.local, local.Keys, k);
    }
  }

  /** What is updated is the cloud's record under a key of both sides, with the local id. */
  lemma UpdatedKey(lib: Lib, local: Index, remote: Index, o: Orders, c: Comparison, u: DnsRecordSet) returns (k: string)
    requires Compared(lib, local, remote, o, c) && u in c.updated
    ensures k in local && k in remote && PartOf(lib, local, remote, k) == Updated && u == UpdatedAt(local, remote, k)
  {
    TakenMember(lib, local, remote, o.local, Updated, u);
    k :| k in o.local && PartOf(lib, local, remote, k) == Updated && u == RecordFor(lib, local, remote, k);
    OrderMember(o.local, local.Keys, k);
  }

  /** A comparison has nothing to add and nothing to remove exactly when both sides have the same keys. */
  lemma SettledIff(lib: Lib, local: Index, remote: Index, o: Orders, c: Comparison)
    requires Compared(lib, local, remote, o, c) && ByKey(local) && ByKey(remote)
    ensures c.added == [] && c.removed == [] <==> local.Keys == remote.Keys
  {
    if c.added == [] && c.removed == [] {
      forall k ensures k in local <==> k in remote {
        if k in local {
          AddedIff(lib, local, remote, o, c, local[k]);
        }
        if k in remote {
          RemovedIff(lib, local, remote, o, c, remote[k]);
        }
      }
    } else if c.added != [] {
      AddedIff(lib, local, remote, o, c, c.added[0]);
    } else {
      RemovedIff(lib, local, remote, o, c, c.removed[0]);
    }
  }

  lemma TakenKeysSnoc(lib: Lib, local: Index, remote: Index, order: seq<string>, p: Part, k: string)
    requires ByKey(local) && ByKey(remote) && k in local
    ensures Image(Key, Taken(lib, local, remote, order + [k], p))
      == Image(Key, Taken(lib, local, remote, order, p))
         + if PartOf(lib, local, remote, k) == p then multiset{k} else multiset{}
  {
    TakenSnoc(lib, local, remote, order, p, k);
    KeyKept(lib, local, remote, k);
    ImageSnoc(Key, Taken(lib, local, remote, order, p), RecordFor(lib, local, remote, k));
  }

  /** The keys of the three parts together. */
  ghost function ListedKeys(lib: Lib, local: Index, remote: Index, order: seq<string>): multiset<string> {
    Image(Key, Taken(lib, local, remote, order, Common)) + Image(Key, Taken(lib, local, remote, order, Added))
    + Image(Key, Taken(lib, local, remote, order, Updated))
  }

  lemma ListedKeysSnoc(lib: Lib, local: Index, remote: Index, order: seq<string>, k: string)
    requires ByKey(local) && ByKey(remote) && k in local
    ensures ListedKeys(lib, local, remote, order + [k]) == ListedKeys(lib, local, remote, order) + multiset{k}
  {
    TakenKeysSnoc(lib, local, remote, order, Common, k);
    TakenKeysSnoc(lib, local, remote, order, Added, k);
    TakenKeysSnoc(lib, local, remote, order, Updated, k);
    OneOfThree(Image(Key, Taken(lib, local, remote, order, Common)),
               Image(Key, Taken(lib, local, remote, order, Added)),
               Image(Key, Taken(lib, local, remote, order, Updated)), PartOf(lib, local, remote, k), k);
  }

  lemma OneOfThree(common: multiset<string>, added: multiset<string>, updated: multiset<string>, p: Part, k: string)
    ensures (common + if p == Common then multiset{k} else multiset{})
      + (added + if p == Added then multiset{k} else multiset{})
            + (updated + if p == Updated then multiset{k} else multiset{})
      == common + added + updated + multiset{k}
  {
  }

  lemma {:induction false} AllKeysListed(lib: Lib, local: Index, remote: Index, order: seq<string>)
    requires ByKey(local) && ByKey(remote) && forall k :: k in order ==> k in local
    ensures ListedKeys(lib, local, remote, order) == multiset(order)
  {
    if order != [] {
      var init, last := order[..|order| - 1], order[|order| - 1];
      assert order == init + [last];
      AllKeysListed(lib, local, remote, init);
      ListedKeysSnoc(lib, local, remote, init, last);
    }
  }

  lemma KeyKept(lib: Lib, local: Index, remote: Index, k: string)
    requires ByKey(local) && ByKey(remote) && k in local
    ensures Key(RecordFor(lib, local, remote, k)) == k
  {
  }

  /** Every local key is in exactly one of the three parts, once. */
  lemma LocalKeysPartitioned(lib: Lib, local: Index, remote: Index, o: Orders, c: Comparison)
    requires Compared(lib, local, remote, o, c) && ByKey(local) && ByKey(remote)
    ensures Image(Key, c.common) + Image(Key, c.added) + Image(Key, c.updated) == multiset(local.Keys)
  {
    forall k | k in o.local ensures k in local {
      OrderMember(o.local, local.Keys, k);
    }
    AllKeysListed(lib, local, remote, o.local);
  }
}
