/** Which records a comparison takes for the same, field by field. */
module DnsFields {
  import opened Images
  import opened DnsRecords
  import Text

  /** A missing dictionary of options counts as an empty one. */
  function DictOf(o: Options): Dict {
    match o
    case Nil => map[]
    case Options(dict) => dict
  }

  /** The fields in which a local and a cloud record must agree. */
  predicate Agree(lib: Lib, l: DnsRecordSet, r: DnsRecordSet) {
    && l.Ttl == r.Ttl && l.Enabled == r.Enabled
    && l.DnsType == r.DnsType && l.DnsValue == r.DnsValue
    && l.PolicyType == r.PolicyType && l.PolicyValue == r.PolicyValue
    && lib.lower(l.DnsName) == lib.lower(r.DnsName)
    && (l.DnsType == "MX" ==> l.MxPriority == r.MxPriority)
    && lib.dictEquals(DictOf(l.PolicyOptions), DictOf(r.PolicyOptions))
  }

  /** Some record of the list has the key. */
  ghost predicate Under(rs: seq<DnsRecordSet>, k: string) {
    exists r :: r in rs && r.String() == k
  }

  lemma PartIs(lib: Lib, local: Index, remote: Index, k: string)
    requires k in local && k in remote
    ensures PartOf(lib, local, remote, k) == if Agree(lib, local[k], remote[k]) then Common else Updated
  {
  }

  /** What a part lists under a key of both sides. */
  lemma TakenUnder(lib: Lib, local: Index, remote: Index, order: seq<string>, p: Part, k: string)
    requires ByKey(local) && ByKey(remote) && OrderOf(order, local.Keys) && k in local && k in remote
    ensures Under(Taken(lib, local, remote, order, p), k) <==> PartOf(lib, local, remote, k) == p
    ensures PartOf(lib, local, remote, k) == p ==>
      RecordFor(lib, local, remote, k) in Taken(lib, local, remote, order, p)
  {
    OrderMember(order, local.Keys, k);
    KeyKept(lib, local, remote, k);
    TakenMember(lib, local, remote, order, p, RecordFor(lib, local, remote, k));
    if r :| r in Taken(lib, local, remote, order, p) && r.String() == k {
      TakenMember(lib, local, remote, order, p, r);
      var x :| x in order && PartOf(lib, local, remote, x) == p && r == RecordFor(lib, local, remote, x);
      OrderMember(order, local.Keys, x);
      KeyKept(lib, local, remote, x);
    }
  }

  /** A key of both sides is in common, as the local record with the cloud's id, if and only if the records agree;
      it is in updated, as the cloud's record with the local id, if and only if they do not. */
  lemma PartsByFields(lib: Lib, local: Index, remote: Index, o: Orders, c: Comparison, k: string)
    requires Compared(lib, local, remote, o, c) && ByKey(local) && ByKey(remote) && k in local && k in remote
    ensures Under(c.common, k) <==> Agree(lib, local[k], remote[k])
    ensures Under(c.updated, k) <==> !Agree(lib, local[k], remote[k])
    ensures if Agree(lib, local[k], remote[k]) then local[k].(ExternalId := remote[k].ExternalId) in c.common
            else remote[k].(Id := local[k].Id) in c.updated
    ensures !Under(c.added, k)
  {
    PartIs(lib, local, remote, k);
    TakenUnder(lib, local, remote, o.local, Common, k);
    TakenUnder(lib, local, remote, o.local, Updated, k);
    TakenUnder(lib, local, remote, o.local, Added, k);
  }

  // ---------- One field at a time ----------

  lemma TtlCounts(lib: Lib, local: Index, remote: Index, o: Orders, c: Comparison, k: string)
    requires Compared(lib, local, remote, o, c) && ByKey(local) && ByKey(remote) && k in local && k in remote
    requires local[k].Ttl != remote[k].Ttl
    ensures Under(c.updated, k) && !Under(c.common, k)
  {
    PartsByFields(lib, local, remote, o, c, k);
  }

  lemma EnabledCounts(lib: Lib, local: Index, remote: Index, o: Orders, c: Comparison, k: string)
    requires Compared(lib, local, remote, o, c) && ByKey(local) && ByKey(remote) && k in local && k in remote
    requires local[k].Enabled != remote[k].Enabled
    ensures Under(c.updated, k) && !Under(c.common, k)
  {
    PartsByFields(lib, local, remote, o, c, k);
  }

  /** Type and value, and type and value of the policy, are in the key, but their texts may share it. */
  lemma KeyFieldsCount(lib: Lib, local: Index, remote: Index, o: Orders, c: Comparison, k: string)
    requires Compared(lib, local, remote, o, c) && ByKey(local) && ByKey(remote) && k in local && k in remote
    requires local[k].DnsType != remote[k].DnsType || local[k].DnsValue != remote[k].DnsValue
      || local[k].PolicyType != remote[k].PolicyType || local[k].PolicyValue != remote[k].PolicyValue
    ensures Under(c.updated, k) && !Under(c.common, k)
  {
    PartsByFields(lib, local, remote, o, c, k);
  }

  lemma NameCounts(lib: Lib, local: Index, remote: Index, o: Orders, c: Comparison, k: string)
    requires Compared(lib, local, remote, o, c) && ByKey(local) && ByKey(remote) && k in local && k in remote
    requires lib.lower(local[k].DnsName) != lib.lower(remote[k].DnsName)
    ensures Under(c.updated, k) && !Under(c.common, k)
  {
    PartsByFields(lib, local, remote, o, c, k);
  }

  lemma OptionsCount(lib: Lib, local: Index, remote: Index, o: Orders, c: Comparison, k: string)
    requires Compared(lib, local, remote, o, c) && ByKey(local) && ByKey(remote) && k in local && k in remote
    requires !lib.dictEquals(DictOf(local[k].PolicyOptions), DictOf(remote[k].PolicyOptions))
    ensures Under(c.updated, k) && !Under(c.common, k)
  {
    PartsByFields(lib, local, remote, o, c, k);
  }

  lemma MxPriorityCounts(lib: Lib, local: Index, remote: Index, o: Orders, c: Comparison, k: string)
    requires Compared(lib, local, remote, o, c) && ByKey(local) && ByKey(remote) && k in local && k in remote
    requires local[k].DnsType == "MX" && local[k].MxPriority != remote[k].MxPriority
    ensures Under(c.updated, k) && !Under(c.common, k)
  {
    PartsByFields(lib, local, remote, o, c, k);
  }

  /** For other types the MX priority of either side does not count, nor do ids, status and description for any. */
  lemma OthersDoNotCount(lib: Lib, local: Index, remote: Index, remote2: Index, o: Orders, o2: Orders,
                         c: Comparison, c2: Comparison, k: string)
    requires Compared(lib, local, remote, o, c) && Compared(lib, local, remote2, o2, c2)
    requires ByKey(local) && ByKey(remote) && ByKey(remote2) && k in local && k in remote && k in remote2
    requires local[k].DnsType != "MX"
    requires remote2[k] == remote[k].(
      MxPriority := remote2[k].MxPriority, Id := remote2[k].Id, ExternalId := remote2[k].ExternalId,
      Status := remote2[k].Status, Desc := remote2[k].Desc)
    ensures Under(c.updated, k) <==> Under(c2.updated, k)
    ensures Under(c.common, k) <==> Under(c2.common, k)
  {
    PartsByFields(lib, local, remote, o, c, k);
    PartsByFields(lib, local, remote2, o2, c2, k);
  }

  // ---------- The key ----------

  /** Where only the value may contain a hyphen, records share a key exactly when they agree in all five fields
      it is made of. */
  lemma SameKeyIff(a: DnsRecordSet, b: DnsRecordSet)
    requires '-' !in a.DnsType && '-' !in b.DnsType && '-' !in a.DnsName && '-' !in b.DnsName
    requires '-' !in a.PolicyType && '-' !in b.PolicyType && '-' !in a.PolicyValue && '-' !in b.PolicyValue
    ensures a.String() == b.String() <==>
      a.DnsType == b.DnsType && a.DnsName == b.DnsName && a.DnsValue == b.DnsValue
      && a.PolicyType == b.PolicyType && a.PolicyValue == b.PolicyValue
  {
    if a.String() == b.String() {
      var (u, v) := (a.DnsType + "-" + a.DnsName + "-" + a.DnsValue, b.DnsType + "-" + b.DnsName + "-" + b.DnsValue);
      Text.LastSplit(u + "-" + a.PolicyType, a.PolicyValue, v + "-" + b.PolicyType, b.PolicyValue, '-');
      Text.LastSplit(u, a.PolicyType, v, b.PolicyType, '-');
      Text.Regrouped(a.DnsType, "-", a.DnsName, "-" + a.DnsValue);
      Text.Regrouped(b.DnsType, "-", b.DnsName, "-" + b.DnsValue);
      FrontSplit(a, u);
      FrontSplit(b, v);
      Text.FirstSplit(a.DnsType, a.DnsName + "-" + a.DnsValue, b.DnsType, b.DnsName + "-" + b.DnsValue, '-');
      Text.FirstSplit(a.DnsName, a.DnsValue, b.DnsName, b.DnsValue, '-');
    }
  }

  /** With hyphens elsewhere, records of different names and values can share a key. */
  lemma HyphensConfuse()
    ensures var a := Blank().(DnsName := "a-b", DnsValue := "c");
      var b := Blank().(DnsName := "a", DnsValue := "b-c");
      a.String() == b.String() && a != b
  {
    var a, b := Blank().(DnsName := "a-b", DnsValue := "c"), Blank().(DnsName := "a", DnsValue := "b-c");
    assert a.String() == "-a-b-c--" == b.String();
    assert |a.DnsName| != |b.DnsName|;
  }

  lemma FrontSplit(r: DnsRecordSet, u: string)
    requires u == r.DnsType + "-" + r.DnsName + "-" + r.DnsValue
    ensures u == r.DnsType + "-" + (r.DnsName + "-" + r.DnsValue)
  {
  }
}
