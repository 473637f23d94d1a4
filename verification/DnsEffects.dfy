/** What `SyncDnsRecordSets` leaves in each record of a zone, field by field. */
module DnsEffects {
  import opened DnsRecords
  import opened DnsZone
  import opened DnsSync

  /** The record says what was sent. */
  predicate Holds(z: SDomainRecord, r: DnsRecordSet) {
    && z.RR == r.DnsName && z.Type == r.DnsType && z.Value == r.DnsValue && z.TTL == r.Ttl
    && z.Line == LineOf(r.PolicyValue) && (r.DnsType == "MX" ==> z.Priority == r.MxPriority)
  }

  predicate HasStatus(z: SDomainRecord, enabled: bool) {
    z.Status == if enabled then "ENABLE" else "DISABLE"
  }

  /** The records agree in everything but the remark. */
  predicate SameButRemark(a: SDomainRecord, b: SDomainRecord) {
    a.RR == b.RR && a.Type == b.Type && a.Value == b.Value && a.Line == b.Line && a.TTL == b.TTL
    && a.Priority == b.Priority && a.Status == b.Status
  }

  /** What the getters tell. */
  lemma GettersTell(id: string, z: SDomainRecord)
    ensures var r := Read(id, z);
      && r.ExternalId == id && r.DnsName == z.RR && r.DnsType == z.Type && r.DnsValue == z.Value && r.Ttl == z.TTL
      && (r.Enabled <==> z.Status == "ENABLE") && r.MxPriority == (if z.Type == "MX" then z.Priority else 0)
      && r.PolicyOptions == Nil && r.Status == "available"
  {
  }

  // ---------- Remarks ----------

  /** The last of the records that gives the id a remark. */
  predicate LastRemark(rs: seq<DnsRecordSet>, id: string, k: int) {
    && 0 <= k < |rs| && rs[k].ExternalId == id && rs[k].Desc != ""
    && forall x :: k < x < |rs| && rs[x].ExternalId == id ==> rs[x].Desc == ""
  }

  /** None of them does. */
  predicate NoRemark(rs: seq<DnsRecordSet>, id: string) {
    forall x :: 0 <= x < |rs| && rs[x].ExternalId == id ==> rs[x].Desc == ""
  }

  lemma {:induction false} RemarksOnly(z: Zone, common: seq<DnsRecordSet>, id: string)
    ensures id in RemarkAll(z, common) <==> id in z
    ensures id in z ==> SameButRemark(RemarkAll(z, common)[id], z[id])
  {
    if common != [] {
      RemarksOnly(z, common[..|common| - 1], id);
    }
  }

  lemma {:induction false} Remarked(z: Zone, common: seq<DnsRecordSet>, id: string, k: int)
    requires id in z && LastRemark(common, id, k)
    ensures id in RemarkAll(z, common) && RemarkAll(z, common)[id].Remark == common[k].Desc
  {
    var init := common[..|common| - 1];
    RemarksOnly(z, init, id);
    if k < |common| - 1 {
      Remarked(z, init, id, k);
    }
  }

  lemma {:induction false} NotRemarked(z: Zone, common: seq<DnsRecordSet>, id: string)
    requires id in z && NoRemark(common, id)
    ensures id in RemarkAll(z, common) && RemarkAll(z, common)[id] == z[id]
  {
    if common != [] {
      NotRemarked(z, common[..|common| - 1], id);
    }
  }

  /** The record with the remark that the records in common leave it. */
  ghost predicate RemarkedAs(z: SDomainRecord, r: SDomainRecord, common: seq<DnsRecordSet>, id: string) {
    && SameButRemark(r, z) && (NoRemark(common, id) ==> r.Remark == z.Remark)
    && (forall k :: LastRemark(common, id, k) ==> r.Remark == common[k].Desc)
  }

  lemma RemarkAllIs(z: Zone, common: seq<DnsRecordSet>, id: string)
    requires id in z
    ensures id in RemarkAll(z, common) && RemarkedAs(z[id], RemarkAll(z, common)[id], common, id)
  {
    RemarksOnly(z, common, id);
    if NoRemark(common, id) {
      NotRemarked(z, common, id);
    }
    forall k | LastRemark(common, id, k) ensures RemarkAll(z, common)[id].Remark == common[k].Desc {
      Remarked(z, common, id, k);
    }
  }

  // ---------- Updates ----------

  lemma {:induction false} UpdatesLeave(z: Zone, update: seq<DnsRecordSet>, id: string)
    requires !Named(update, id)
    ensures id in UpdateAll(z, update) <==> id in z
    ensures id in z ==> UpdateAll(z, update)[id] == z[id]
  {
    if update != [] {
      var init, last := update[..|update| - 1], update[|update| - 1];
      assert last in update && forall r :: r in init ==> r in update;
      UpdatesLeave(z, init, id);
    }
  }

  lemma {:induction false} UpdatesKeepKeys(z: Zone, update: seq<DnsRecordSet>, id: string)
    ensures id in UpdateAll(z, update) <==> id in z
  {
    if update != [] {
      UpdatesKeepKeys(z, update[..|update| - 1], id);
    }
  }

  /** What an update leaves: its fields, its status, and its remark if it has one. A record that agrees already in
      name, type, value, policy and TTL is not sent: its line and its MX priority stay. */
  predicate UpdatedTo(before: SDomainRecord, after: SDomainRecord, u: DnsRecordSet) {
    && HasStatus(after, u.Enabled)
    && after.RR == u.DnsName && after.Type == u.DnsType && after.Value == u.DnsValue && after.TTL == u.Ttl
    && after.Remark == (if u.Desc != "" then u.Desc else before.Remark)
    && (if Agrees(before, u) then after.Line == before.Line && after.Priority == before.Priority
        else Holds(after, u) && (u.DnsType != "MX" ==> after.Priority == before.Priority))
  }

  predicate Agrees(z: SDomainRecord, u: DnsRecordSet) {
    && z.RR == u.DnsName && z.Type == u.DnsType && z.Value == u.DnsValue && z.TTL == u.Ttl
    && GetPolicyType(z.Line) == u.PolicyType && GetPolicyValue(z.Line) == u.PolicyValue
  }

  lemma UpdateLeaves(z: Zone, u: DnsRecordSet)
    requires u.ExternalId in z
    ensures u.ExternalId in Update(z, u) && UpdatedTo(z[u.ExternalId], Update(z, u)[u.ExternalId], u)
  {
  }

  /** The only update of a record leaves it so. */
  lemma {:induction false} UpdatedOnce(z: Zone, update: seq<DnsRecordSet>, k: int)
    requires 0 <= k < |update| && update[k].ExternalId in z
    requires forall x :: 0 <= x < |update| && x != k ==> update[x].ExternalId != update[k].ExternalId
    ensures var id := update[k].ExternalId;
      id in UpdateAll(z, update) && UpdatedTo(z[id], UpdateAll(z, update)[id], update[k])
  {
    var init, last, id := update[..|update| - 1], update[|update| - 1], update[k].ExternalId;
    UpdatesKeepKeys(z, init, id);
    if k < |update| - 1 {
      UpdatedOnce(z, init, k);
    } else {
      UpdatesLeave(z, init, id);
      UpdateLeaves(UpdateAll(z, init), last);
    }
  }

  // ---------- A sync without errors ----------

  /** A record that is neither removed nor updated keeps everything but its remark, which is that of the
      last record in common that has one. */
  lemma KeptFields(z: Zone, c: Comparison, ids: seq<string>, priority: int, id: string)
    requires |ids| == |c.added| && id in z && id !in ids && !Named(c.removed, id) && !Named(c.updated, id)
    ensures var after := Synced(z, c, ids, priority);
      id in after && RemarkedAs(z[id], after[id], c.common, id)
  {
    var a := RemarkAll(z, c.common);
    RemarkAllIs(z, c.common, id);
    Deleted(a, c.removed, id);
    NotAdded(DeleteAll(a, c.removed), c.added, ids, priority, id);
    UpdatesLeave(AddAll(DeleteAll(a, c.removed), c.added, ids, priority), c.updated, id);
  }

  /** A record that is removed, and neither added nor updated, is gone. */
  lemma RemovedGone(z: Zone, c: Comparison, ids: seq<string>, priority: int, id: string)
    requires |ids| == |c.added| && id !in ids && Named(c.removed, id) && !Named(c.updated, id)
    ensures id !in Synced(z, c, ids, priority)
  {
    var a := RemarkAll(z, c.common);
    Deleted(a, c.removed, id);
    NotAdded(DeleteAll(a, c.removed), c.added, ids, priority, id);
    UpdatesLeave(AddAll(DeleteAll(a, c.removed), c.added, ids, priority), c.updated, id);
  }

  /** A record that was added holds what was sent, with its status and its remark, if it has one. */
  lemma AddedFields(z: Zone, c: Comparison, ids: seq<string>, priority: int, k: int)
    requires |ids| == |c.added| && NewIds(DeleteAll(RemarkAll(z, c.common), c.removed), ids) && 0 <= k < |ids|
    requires !Named(c.updated, ids[k])
    ensures var (after, r) := (Synced(z, c, ids, priority), c.added[k]);
      && ids[k] in after && Holds(after[ids[k]], r) && HasStatus(after[ids[k]], r.Enabled)
      && after[ids[k]].Remark == r.Desc && (r.DnsType != "MX" ==> after[ids[k]].Priority == priority)
  {
    var b := DeleteAll(RemarkAll(z, c.common), c.removed);
    AddedAt(b, c.added, ids, priority, k);
    UpdatesLeave(AddAll(b, c.added, ids, priority), c.updated, ids[k]);
  }

  /** A record that is updated once, and not removed, holds what the update says; its remark, where the update
      has none, is the one that the records in common left. */
  lemma UpdatedFields(z: Zone, c: Comparison, ids: seq<string>, priority: int, k: int)
    requires |ids| == |c.added| && 0 <= k < |c.updated|
    requires var id := c.updated[k].ExternalId; id in z && id !in ids && !Named(c.removed, id)
    requires forall x :: 0 <= x < |c.updated| && x != k ==> c.updated[x].ExternalId != c.updated[k].ExternalId
    ensures var (after, id) := (Synced(z, c, ids, priority), c.updated[k].ExternalId);
      && id in after
      && (exists before :: RemarkedAs(z[id], before, c.common, id) && UpdatedTo(before, after[id], c.updated[k]))
  {
    var (a, id) := (RemarkAll(z, c.common), c.updated[k].ExternalId);
    RemarkAllIs(z, c.common, id);
    Deleted(a, c.removed, id);
    NotAdded(DeleteAll(a, c.removed), c.added, ids, priority, id);
    UpdatedOnce(AddAll(DeleteAll(a, c.removed), c.added, ids, priority), c.updated, k);
  }

  /** A difference in the MX priority alone is never sent. */
  lemma MxPriorityNotSent(z: Zone, u: DnsRecordSet)
    requires u.ExternalId in z && Agrees(z[u.ExternalId], u)
    ensures u.ExternalId in Update(z, u) && Update(z, u)[u.ExternalId].Priority == z[u.ExternalId].Priority
  {
    UpdateLeaves(z, u);
  }

  // ---------- Lines that Aliyun knows besides those that are sent ----------

  const CARRIERS: seq<string> := ["cn_telecom", "cn_unicom", "cn_mobile", "cn_edu", "cn_drpeng", "cn_btvn"]
  const REGIONS: seq<string> := ["cn_region", "os_", "aliyun_"]

  /** A line that begins like one of a carrier is one, and keeps its name as policy value. */
  lemma CarrierLine(k: int, rest: string)
    requires 0 <= k < |CARRIERS|
    ensures var line := CARRIERS[k] + rest; GetPolicyType(line) == "ByCarrier" && GetPolicyValue(line) == line
  {
    var line := CARRIERS[k] + rest;
    assert line[0] == 'c' && line[1] == 'n' && line[2] == '_';
    assert CARRIERS[k] <= line;
    assert HasAnyPrefix(line, CARRIERS);
  }

  /** And so does one that begins like one of a region. */
  lemma RegionLine(k: int, rest: string)
    requires 0 <= k < |REGIONS|
    ensures var line := REGIONS[k] + rest; GetPolicyType(line) == "ByGeoLocation" && GetPolicyValue(line) == line
  {
    var line := REGIONS[k] + rest;
    assert REGIONS[k] <= line;
    assert HasAnyPrefix(line, REGIONS);
    assert if k == 0 then line[0] == 'c' && line[2] == '_' && line[3] == 'r'
           else if k == 1 then line[0] == 'o' && line[2] == '_' else line[0] == 'a';
    forall x | 0 <= x < |CARRIERS| ensures !(CARRIERS[x] <= line) {
      NotBoth(CARRIERS[x], line, k);
    }
  }

  lemma NotBoth(carrier: string, line: string, k: int)
    requires carrier in CARRIERS && 0 <= k < |REGIONS| && REGIONS[k] <= line
    ensures !(carrier <= line)
  {
    assert carrier[0] == 'c' && carrier[3] != 'r';
  }
}
