/** An Aliyun DNS zone and what `SyncDnsRecordSets` does to it
    (pkg/multicloud/aliyun/dns_domain.go and dns_domain_record.go). */
module DnsZone {
  import opened DnsRecords
  import Text

  datatype SDomainRecord = SDomainRecord(
    RR: string, Type: string, Value: string, Line: string, TTL: int, Priority: int, Status: string, Remark: string)

  /** The records by their ids. */
  type Zone = map<string, SDomainRecord>

  // ---------- Reading and writing records ----------

  /** `GetRecordLineLineType`. */
  function LineOf(policyValue: string): string {
    if policyValue == "oversea" then "oversea"
    else if policyValue == "telecom" then "telecom"
    else if policyValue == "unicom" then "unicom"
    else if policyValue == "chinamobile" then "mobile"
    else if policyValue == "cernet" then "edu"
    else if policyValue == "drpeng" then "drpeng"
    else if policyValue == "btvn" then "btvn"
    else if policyValue == "baidu" then "baidu"
    else if policyValue == "google" then "google"
    else if policyValue == "youdao" then "youdao"
    else if policyValue == "bing" then "biying"
    else "default"
  }

  predicate HasAnyPrefix(s: string, prefixes: seq<string>) {
    exists k :: 0 <= k < |prefixes| && Text.HasPrefix(s, prefixes[k])
  }

  function GetPolicyType(line: string): string {
    if line == "telecom" || line == "unicom" || line == "mobile" || line == "edu" || line == "drpeng" || line == "btvn"
    then "ByCarrier"
    else if line == "google" || line == "baidu" || line == "biying" || line == "youdao" then "BySearchEngine"
    else if line == "oversea" then "ByGeoLocation"
    else if HasAnyPrefix(line, ["cn_telecom", "cn_unicom", "cn_mobile", "cn_edu", "cn_drpeng", "cn_btvn"])
      then "ByCarrier"
    else if HasAnyPrefix(line, ["cn_region", "os_", "aliyun_"]) then "ByGeoLocation"
    else "Simple"
  }

  function GetPolicyValue(line: string): string {
    if line == "mobile" then "chinamobile"
    else if line == "edu" then "cernet"
    else if line == "biying" then "bing"
    else line
  }

  /** The record as the getters give it. */
  function Read(id: string, z: SDomainRecord): DnsRecordSet {
    DnsRecordSet("", id, "", z.Status == "ENABLE", z.RR, z.Type, z.Value, "available", z.TTL,
                 if z.Type == "MX" then z.Priority else 0, GetPolicyType(z.Line), GetPolicyValue(z.Line), Nil)
  }

  /** What the parameters of an addition or update say, stored word for word; `priority`
      is what is stored when none is sent. */
  function Sent(r: DnsRecordSet, z: SDomainRecord): SDomainRecord {
    z.(RR := r.DnsName, Type := r.DnsType, Value := r.DnsValue, Line := LineOf(r.PolicyValue), TTL := r.Ttl,
       Priority := if r.DnsType == "MX" then r.MxPriority else z.Priority)
  }

  function StatusOf(enabled: bool): string { if enabled then "ENABLE" else "DISABLE" }

  /** The record just after it was added. */
  function Fresh(r: DnsRecordSet, priority: int): SDomainRecord {
    Sent(r, SDomainRecord("", "", "", "", 0, priority, "ENABLE", ""))
  }

  /** The record when its addition is complete. */
  function Complete(r: DnsRecordSet, priority: int): SDomainRecord {
    var z := Fresh(r, priority);
    z.(Status := StatusOf(r.Enabled), Remark := if r.Desc != "" then r.Desc else z.Remark)
  }

  /** `SDomainRecord.match`. */
  predicate Match(z: SDomainRecord, u: DnsRecordSet) {
    && u.DnsName == z.RR
    && u.DnsType == z.Type
    && u.DnsValue == z.Value
    && u.PolicyType == GetPolicyType(z.Line)
    && u.PolicyValue == GetPolicyValue(z.Line)
    && u.Ttl == z.TTL
  }

  /** The zone's records as `GetIDnsRecordSets` lists them, in any order, each once. */
  ghost predicate Lists(z: Zone, rs: seq<DnsRecordSet>) {
    && (forall r :: r in rs ==> r.ExternalId in z && r == Read(r.ExternalId, z[r.ExternalId]))
    && (forall id :: id in z ==> Read(id, z[id]) in rs)
    && (forall k, l :: 0 <= k < l < |rs| ==> rs[k].ExternalId != rs[l].ExternalId)
  }

  // ---------- The effects of a sync without errors ----------

  function SetRemark(z: Zone, id: string, remark: string): Zone {
    if id in z && remark != "" then z[id := z[id].(Remark := remark)] else z
  }

  function RemarkAll(z: Zone, common: seq<DnsRecordSet>): Zone {
    if common == [] then z
    else
      var r := common[|common| - 1];
      SetRemark(RemarkAll(z, common[..|common| - 1]), r.ExternalId, r.Desc)
  }

  function DeleteAll(z: Zone, del: seq<DnsRecordSet>): Zone {
    if del == [] then z else DeleteAll(z, del[..|del| - 1]) - {del[|del| - 1].ExternalId}
  }

  /** The ids are those the cloud gave to the new records. */
  function AddAll(z: Zone, add: seq<DnsRecordSet>, ids: seq<string>, priority: int): Zone
    requires |ids| == |add|
  {
    if add == [] then z
    else AddAll(z, add[..|add| - 1], ids[..|ids| - 1], priority)[ids[|ids| - 1] := Complete(add[|add| - 1], priority)]
  }

  function Update(z: Zone, u: DnsRecordSet): Zone {
    if u.ExternalId !in z then z
    else
      var r := z[u.ExternalId].(Status := StatusOf(u.Enabled));
      SetRemark(z[u.ExternalId := if Match(r, u) then r else Sent(u, r)], u.ExternalId, u.Desc)
  }

  function UpdateAll(z: Zone, update: seq<DnsRecordSet>): Zone {
    if update == [] then z else Update(UpdateAll(z, update[..|update| - 1]), update[|update| - 1])
  }

  /** New ids: none is in the zone, and no two are equal. */
  ghost predicate NewIds(z: Zone, ids: seq<string>) {
    && (forall k :: 0 <= k < |ids| ==> ids[k] !in z)
    && (forall k, l :: 0 <= k < l < |ids| ==> ids[k] != ids[l])
  }

  function Synced(z: Zone, c: Comparison, ids: seq<string>, priority: int): Zone
    requires |ids| == |c.added|
  {
    UpdateAll(AddAll(DeleteAll(RemarkAll(z, c.common), c.removed), c.added, ids, priority), c.updated)
  }

  lemma RemarkSnoc(z: Zone, common: seq<DnsRecordSet>, i: int)
    requires 0 <= i < |common|
    ensures RemarkAll(z, common[..i + 1]) == SetRemark(RemarkAll(z, common[..i]), common[i].ExternalId, common[i].Desc)
  {
    assert common[..i + 1][..i] == common[..i];
  }

  lemma DeleteSnoc(z: Zone, del: seq<DnsRecordSet>, i: int)
    requires 0 <= i < |del|
    ensures DeleteAll(z, del[..i + 1]) == DeleteAll(z, del[..i]) - {del[i].ExternalId}
  {
    assert del[..i + 1][..i] == del[..i];
  }

  lemma AddSnoc(z: Zone, add: seq<DnsRecordSet>, i: int, ids: seq<string>, id: string, priority: int)
    requires 0 <= i < |add| && |ids| == i
    ensures AddAll(z, add[..i + 1], ids + [id], priority)
      == AddAll(z, add[..i], ids, priority)[id := Complete(add[i], priority)]
  {
    assert add[..i + 1][..i] == add[..i] && (ids + [id])[..i] == ids;
  }

  lemma UpdateSnoc(z: Zone, update: seq<DnsRecordSet>, i: int)
    requires 0 <= i < |update|
    ensures UpdateAll(z, update[..i + 1]) == Update(UpdateAll(z, update[..i]), update[i])
  {
    assert update[..i + 1][..i] == update[..i];
  }

  lemma {:induction false} AddAllKeys(z: Zone, add: seq<DnsRecordSet>, ids: seq<string>, priority: int)
    requires |ids| == |add|
    ensures forall id :: id in AddAll(z, add, ids, priority) <==> id in z || id in ids
  {
    if add != [] {
      AddAllKeys(z, add[..|add| - 1], ids[..|ids| - 1], priority);
      assert ids == ids[..|ids| - 1] + [ids[|ids| - 1]];
    }
  }

  lemma NewIdsSnoc(z: Zone, add: seq<DnsRecordSet>, ids: seq<string>, priority: int, id: string)
    requires |ids| == |add| && NewIds(z, ids) && id !in AddAll(z, add, ids, priority)
    ensures NewIds(z, ids + [id])
  {
    AddAllKeys(z, add, ids, priority);
  }

  // ---------- What no run does ----------

  ghost predicate Named(rs: seq<DnsRecordSet>, id: string) {
    exists r :: r in rs && r.ExternalId == id
  }

  /** What the key of a record is made of, as far as the zone stores it. */
  function Essence(z: SDomainRecord): (string, string, string, string) { (z.Type, z.RR, z.Value, z.Line) }

  /** Only records named for removal are gone; of the others only those named for update may have
      changed in essence; and every record that is new is one of the additions, or was updated since. */
  ghost predicate Safe(before: Zone, now: Zone, c: Comparison) {
    forall id {:trigger SafeAt(before, now, c, id)} :: SafeAt(before, now, c, id)
  }

  ghost predicate SafeAt(before: Zone, now: Zone, c: Comparison, id: string) {
    if id in before then
      Named(c.removed, id) || (id in now && (Named(c.updated, id) || Essence(now[id]) == Essence(before[id])))
    else
      id in now ==> Named(c.updated, id) || exists r :: r in c.added && Essence(now[id]) == Essence(Fresh(r, 0))
  }

  lemma SafeSame(before: Zone, now: Zone, c: Comparison, id: string, z: SDomainRecord)
    requires Safe(before, now, c) && id in now && Essence(z) == Essence(now[id])
    ensures Safe(before, now[id := z], c)
  {
    var next := now[id := z];
    forall k ensures SafeAt(before, next, c, k) {
      assert SafeAt(before, now, c, k);
    }
  }

  lemma SafeRemark(before: Zone, now: Zone, c: Comparison, id: string, remark: string)
    requires Safe(before, now, c)
    ensures Safe(before, SetRemark(now, id, remark), c)
  {
    if id in now {
      SafeSame(before, now, c, id, now[id].(Remark := remark));
    }
  }

  lemma SafeStatus(before: Zone, now: Zone, c: Comparison, id: string, enabled: bool)
    requires Safe(before, now, c) && id in now
    ensures Safe(before, now[id := now[id].(Status := StatusOf(enabled))], c)
  {
    SafeSame(before, now, c, id, now[id].(Status := StatusOf(enabled)));
  }

  lemma SafeDelete(before: Zone, now: Zone, c: Comparison, r: DnsRecordSet)
    requires Safe(before, now, c) && r in c.removed
    ensures Safe(before, now - {r.ExternalId}, c)
  {
    assert Named(c.removed, r.ExternalId);
    var next := now - {r.ExternalId};
    forall k ensures SafeAt(before, next, c, k) {
      assert SafeAt(before, now, c, k);
    }
  }

  lemma SafeAdd(before: Zone, now: Zone, c: Comparison, id: string, r: DnsRecordSet, priority: int)
    requires Safe(before, now, c) && id !in now && r in c.added
    ensures Safe(before, now[id := Fresh(r, priority)], c)
  {
    assert Essence(Fresh(r, priority)) == Essence(Fresh(r, 0));
    var next := now[id := Fresh(r, priority)];
    forall k ensures SafeAt(before, next, c, k) {
      assert SafeAt(before, now, c, k);
    }
  }

  lemma SafeUpdate(before: Zone, now: Zone, c: Comparison, u: DnsRecordSet, z: SDomainRecord)
    requires Safe(before, now, c) && u in c.updated && u.ExternalId in now
    ensures Safe(before, now[u.ExternalId := z], c)
  {
    assert Named(c.updated, u.ExternalId);
    var next := now[u.ExternalId := z];
    forall k ensures SafeAt(before, next, c, k) {
      assert SafeAt(before, now, c, k);
    }
  }

  lemma SafeAtFirst(z: Zone, c: Comparison)
    ensures Safe(z, z, c)
  {
    forall k ensures SafeAt(z, z, c, k) {
    }
  }

  // ---------- The zone ----------

  /** Every call to the cloud may fail, and may then have taken effect all the same. */
  class SDomain {
    /** The priority the cloud stores when none is sent. */
    const priority: int
    var records: Zone
    /** How many calls have failed. */
    ghost var refusals: nat

    constructor (priority: int)
      ensures this.priority == priority && records == map[]
    {
      this.priority, records, refusals := priority, map[], 0;
    }

    /** The listing, whose order is the cloud's. */
    method GetIDnsRecordSets() returns (ok: bool, irecords: seq<DnsRecordSet>)
      modifies this`refusals
      ensures refusals == old(refusals) + if ok then 0 else 1
      ensures ok ==> Lists(records, irecords)
    {
      irecords := [];
      var todo := records.Keys;
      while todo != {}
        invariant todo <= records.Keys
        invariant forall r :: r in irecords ==>
          r.ExternalId in records && r.ExternalId !in todo && r == Read(r.ExternalId, records[r.ExternalId])
        invariant forall id :: id in records && id !in todo ==> Read(id, records[id]) in irecords
        invariant forall k, l :: 0 <= k < l < |irecords| ==> irecords[k].ExternalId != irecords[l].ExternalId
      {
        var id :| id in todo;
        var next := irecords + [Read(id, records[id])];
        assert forall r :: r in next <==> r in irecords || r == Read(id, records[id]);
        irecords, todo := next, todo - {id};
      }
      ok := *;
      refusals := refusals + if ok then 0 else 1;
    }

    method UpdateDomainRecordRemark(id: string, remark: string) returns (ok: bool)
      requires remark != ""
      modifies this
      ensures refusals == old(refusals) + if ok then 0 else 1
      ensures records == SetRemark(old(records), id, remark) || (!ok && records == old(records))
    {
      var applied: bool := *;
      ok := *;
      ok := ok && id in records;
      if (ok || applied) && id in records {
        records := records[id := records[id].(Remark := remark)];
      }
      refusals := refusals + if ok then 0 else 1;
    }

    method DeleteDomainRecord(id: string) returns (ok: bool)
      modifies this
      ensures refusals == old(refusals) + if ok then 0 else 1
      ensures records == old(records) - {id} || (!ok && records == old(records))
    {
      var applied: bool := *;
      ok := *;
      if ok || applied {
        records := records - {id};
      }
      refusals := refusals + if ok then 0 else 1;
    }

    /** The cloud gives the record a new id. */
    method AddDomainRecord(opts: DnsRecordSet) returns (ok: bool, id: string)
      modifies this
      ensures refusals == old(refusals) + if ok then 0 else 1
      ensures (id !in old(records) && records == old(records)[id := Fresh(opts, priority)])
        || (!ok && records == old(records))
    {
      var applied: bool := *;
      ok, id := *, *;
      ok := ok && id !in records;
      if (ok || applied) && id !in records {
        records := records[id := Fresh(opts, priority)];
      }
      refusals := refusals + if ok then 0 else 1;
    }

    method SetDomainRecordStatus(id: string, status: string) returns (ok: bool)
      requires status == "Enable" || status == "Disable"
      modifies this
      ensures refusals == old(refusals) + if ok then 0 else 1
      ensures ok ==> id in old(records)
      ensures (id in old(records)
               && records == old(records)[id := old(records)[id].(Status := StatusOf(status == "Enable"))])
        || (!ok && records == old(records))
    {
      var applied: bool := *;
      ok := *;
      ok := ok && id in records;
      if (ok || applied) && id in records {
        records := records[id := records[id].(Status := StatusOf(status == "Enable"))];
      }
      refusals := refusals + if ok then 0 else 1;
    }

    method DescribeDomainRecordInfo(id: string) returns (ok: bool, r: SDomainRecord)
      modifies this`refusals
      ensures refusals == old(refusals) + if ok then 0 else 1
      ensures ok ==> id in records && r == records[id]
    {
      ok := *;
      r := SDomainRecord("", "", "", "", 0, 0, "", "");
      ok := ok && id in records;
      if ok {
        r := records[id];
      }
      refusals := refusals + if ok then 0 else 1;
    }

    method UpdateDomainRecord(opts: DnsRecordSet) returns (ok: bool)
      modifies this
      ensures refusals == old(refusals) + if ok then 0 else 1
      ensures ok ==> opts.ExternalId in old(records)
      ensures (opts.ExternalId in old(records)
               && records == old(records)[opts.ExternalId := Sent(opts, old(records)[opts.ExternalId])])
        || (!ok && records == old(records))
    {
      var applied: bool := *;
      ok := *;
      ok := ok && opts.ExternalId in records;
      if (ok || applied) && opts.ExternalId in records {
        records := records[opts.ExternalId := Sent(opts, records[opts.ExternalId])];
      }
      refusals := refusals + if ok then 0 else 1;
    }

    /** The four loops, one after the other; the first error ends them. */
    method SyncDnsRecordSets(c: Comparison) returns (ok: bool, ghost ids: seq<string>)
      modifies this
      ensures refusals == old(refusals) + if ok then 0 else 1
      ensures ok ==> |ids| == |c.added| && NewIds(DeleteAll(RemarkAll(old(records), c.common), c.removed), ids)
      ensures ok ==> records == Synced(old(records), c, ids, priority)
      ensures Safe(old(records), records, c)
    {
      ids := [];
      ghost var before := records;
      SafeAtFirst(before, c);
      ok := RemarkCommon(c, before);
      if ok {
        ok := DeleteRemoved(c, before);
        if ok {
          ok, ids := AddNew(c, before);
          if ok {
            ok := UpdateRest(c, before);
          }
        }
      }
    }

    method RemarkCommon(c: Comparison, ghost before: Zone) returns (ok: bool)
      requires Safe(before, records, c)
      modifies this
      ensures refusals == old(refusals) + if ok then 0 else 1
      ensures ok ==> records == RemarkAll(old(records), c.common)
      ensures Safe(before, records, c)
    {
      for i := 0 to |c.common|
        invariant refusals == old(refusals)
        invariant records == RemarkAll(old(records), c.common[..i])
        invariant Safe(before, records, c)
      {
        RemarkSnoc(old(records), c.common, i);
        SafeRemark(before, records, c, c.common[i].ExternalId, c.common[i].Desc);
        if |c.common[i].Desc| > 0 {
          ok := UpdateDomainRecordRemark(c.common[i].ExternalId, c.common[i].Desc);
          if !ok {
            return;
          }
        }
      }
      assert c.common[..|c.common|] == c.common;
      ok := true;
    }

    method DeleteRemoved(c: Comparison, ghost before: Zone) returns (ok: bool)
      requires Safe(before, records, c)
      modifies this
      ensures refusals == old(refusals) + if ok then 0 else 1
      ensures ok ==> records == DeleteAll(old(records), c.removed)
      ensures Safe(before, records, c)
    {
      for i := 0 to |c.removed|
        invariant refusals == old(refusals)
        invariant records == DeleteAll(old(records), c.removed[..i])
        invariant Safe(before, records, c)
      {
        DeleteSnoc(old(records), c.removed, i);
        SafeDelete(before, records, c, c.removed[i]);
        ok := DeleteDomainRecord(c.removed[i].ExternalId);
        if !ok {
          return;
        }
      }
      assert c.removed[..|c.removed|] == c.removed;
      ok := true;
    }

    method AddNew(c: Comparison, ghost before: Zone) returns (ok: bool, ghost ids: seq<string>)
      requires Safe(before, records, c)
      modifies this
      ensures refusals == old(refusals) + if ok then 0 else 1
      ensures ok ==> |ids| == |c.added| && NewIds(old(records), ids)
      ensures ok ==> records == AddAll(old(records), c.added, ids, priority)
      ensures Safe(before, records, c)
    {
      ids := [];
      for i := 0 to |c.added|
        invariant |ids| == i && NewIds(old(records), ids)
        invariant refusals == old(refusals)
        invariant records == AddAll(old(records), c.added[..i], ids, priority)
        invariant Safe(before, records, c)
      {
        var recordId;
        ok, recordId := AddOne(c.added[i], c, before);
        if !ok {
          return;
        }
        AddSnoc(old(records), c.added, i, ids, recordId, priority);
        NewIdsSnoc(old(records), c.added[..i], ids, priority, recordId);
        ids := ids + [recordId];
      }
      assert c.added[..|c.added|] == c.added;
      ok := true;
    }

    /** The body of the loop over additions. */
    method AddOne(r: DnsRecordSet, ghost c: Comparison, ghost before: Zone) returns (ok: bool, recordId: string)
      requires Safe(before, records, c) && r in c.added
      modifies this
      ensures refusals == old(refusals) + if ok then 0 else 1
      ensures ok ==> recordId !in old(records) && records == old(records)[recordId := Complete(r, priority)]
      ensures Safe(before, records, c)
    {
      ghost var z := records;
      ok, recordId := AddDomainRecord(r);
      if recordId !in z {
        SafeAdd(before, z, c, recordId, r, priority);
      }
      if !ok {
        return;
      }
      if !r.Enabled {
        SafeStatus(before, records, c, recordId, false);
        ok := SetDomainRecordStatus(recordId, "Disable");
        if !ok {
          return;
        }
      }
      if |r.Desc| > 0 {
        SafeRemark(before, records, c, recordId, r.Desc);
        ok := UpdateDomainRecordRemark(recordId, r.Desc);
      }
    }

    method UpdateRest(c: Comparison, ghost before: Zone) returns (ok: bool)
      requires Safe(before, records, c)
      modifies this
      ensures refusals == old(refusals) + if ok then 0 else 1
      ensures ok ==> records == UpdateAll(old(records), c.updated)
      ensures Safe(before, records, c)
    {
      for i := 0 to |c.updated|
        invariant refusals == old(refusals)
        invariant records == UpdateAll(old(records), c.updated[..i])
        invariant Safe(before, records, c)
      {
        UpdateSnoc(old(records), c.updated, i);
        ok := UpdateOne(c.updated[i], c, before);
        if !ok {
          return;
        }
      }
      assert c.updated[..|c.updated|] == c.updated;
      ok := true;
    }

    /** The body of the loop over updates. */
    method UpdateOne(u: DnsRecordSet, ghost c: Comparison, ghost before: Zone) returns (ok: bool)
      requires Safe(before, records, c) && u in c.updated
      modifies this
      ensures refusals == old(refusals) + if ok then 0 else 1
      ensures ok ==> records == Update(old(records), u)
      ensures Safe(before, records, c)
    {
      var status := "Enable";
      if !u.Enabled {
        status := "Disable";
      }
      if u.ExternalId in records {
        SafeStatus(before, records, c, u.ExternalId, status == "Enable");
      }
      ok := SetDomainRecordStatus(u.ExternalId, status);
      if !ok {
        return;
      }
      var domainRecord;
      ok, domainRecord := DescribeDomainRecordInfo(u.ExternalId);
      if !ok {
        return;
      }
      if !Match(domainRecord, u) {
        SafeUpdate(before, records, c, u, Sent(u, records[u.ExternalId]));
        ok := UpdateDomainRecord(u);
        if !ok {
          return;
        }
      }
      if |u.Desc| > 0 {
        SafeRemark(before, records, c, u.ExternalId, u.Desc);
        ok := UpdateDomainRecordRemark(u.ExternalId, u.Desc);
      }
    }
  }
}
