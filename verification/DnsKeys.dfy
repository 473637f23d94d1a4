/** How the key of a DNS record changes when the record is stored by Aliyun and read back. */
module DnsKeys {
  import opened DnsRecords
  import opened DnsZone
  import Text

  function BackType(policyValue: string): string { GetPolicyType(LineOf(policyValue)) }

  function BackValue(policyValue: string): string { GetPolicyValue(LineOf(policyValue)) }

  /** The key under which the zone's record is compared. */
  function KeyOf(z: SDomainRecord): string { Read("", z).String() }

  /** The key of a record once it is stored. */
  function StoredKey(r: DnsRecordSet): string { KeyOf(Fresh(r, 0)) }

  /** The policy of the record reads back as it was sent. */
  predicate Faithful(r: DnsRecordSet) {
    r.PolicyType == BackType(r.PolicyValue) && r.PolicyValue == BackValue(r.PolicyValue)
  }

  predicate IsCarrier(v: string) {
    v == "telecom" || v == "unicom" || v == "chinamobile" || v == "cernet" || v == "drpeng" || v == "btvn"
  }

  predicate IsSearchEngine(v: string) {
    v == "baidu" || v == "google" || v == "youdao" || v == "bing"
  }

  lemma DefaultIsSimple()
    ensures GetPolicyType("default") == "Simple"
  {
    NoPrefix(["cn_telecom", "cn_unicom", "cn_mobile", "cn_edu", "cn_drpeng", "cn_btvn"]);
    NoPrefix(["cn_region", "os_", "aliyun_"]);
  }

  lemma NoPrefix(prefixes: seq<string>)
    requires forall k :: 0 <= k < |prefixes| ==> prefixes[k] != "" && prefixes[k][0] != 'd'
    ensures !HasAnyPrefix("default", prefixes)
  {
    forall k | 0 <= k < |prefixes| ensures !Text.HasPrefix("default", prefixes[k]) {
      assert "default"[0] == 'd';
    }
  }

  lemma ReadBackCarrier(v: string)
    requires IsCarrier(v)
    ensures BackType(v) == "ByCarrier" && BackValue(v) == v
  {
  }

  lemma ReadBackSearchEngine(v: string)
    requires IsSearchEngine(v)
    ensures BackType(v) == "BySearchEngine" && BackValue(v) == v
  {
    if v == "bing" {
      assert LineOf(v) == "biying";
    } else {
      assert LineOf(v) == v;
    }
  }

  lemma ReadBackOther(v: string)
    requires !IsCarrier(v) && !IsSearchEngine(v) && v != "oversea"
    ensures BackType(v) == "Simple" && BackValue(v) == "default"
  {
    DefaultIsSimple();
  }

  /** A record reads back with the policy it was sent with exactly when its policy is one of twelve.
      A plain record, with policy type Simple and no policy value, is not among them. */
  lemma FaithfulIff(r: DnsRecordSet)
    ensures Faithful(r)
      <==> (r.PolicyType == "Simple" && r.PolicyValue == "default")
           || (r.PolicyType == "ByGeoLocation" && r.PolicyValue == "oversea")
           || (r.PolicyType == "ByCarrier" && IsCarrier(r.PolicyValue))
           || (r.PolicyType == "BySearchEngine" && IsSearchEngine(r.PolicyValue))
  {
    if IsCarrier(r.PolicyValue) {
      ReadBackCarrier(r.PolicyValue);
    } else if IsSearchEngine(r.PolicyValue) {
      ReadBackSearchEngine(r.PolicyValue);
    } else if r.PolicyValue != "oversea" {
      ReadBackOther(r.PolicyValue);
    }
  }

  /** What is read back has no dash, reads back as itself, and is not shorter than what is
      read back of a value that is not known. */
  lemma BackIsPlain(v: string)
    ensures '-' !in BackType(v) && '-' !in BackValue(v)
    ensures BackType(BackValue(v)) == BackType(v) && BackValue(BackValue(v)) == BackValue(v)
    ensures |BackType(v)| + |BackValue(v)| >= 13
    ensures BackValue(v) == v || |BackType(v)| + |BackValue(v)| == 13
  {
    if IsCarrier(v) {
      ReadBackCarrier(v);
      CarrierIsPlain(v);
    } else if IsSearchEngine(v) {
      ReadBackSearchEngine(v);
      SearchEngineIsPlain(v);
    } else if v != "oversea" {
      ReadBackOther(v);
      ReadBackOther("default");
    }
  }

  lemma CarrierIsPlain(v: string)
    requires IsCarrier(v)
    ensures '-' !in v && |v| >= 4 && '-' !in "ByCarrier"
  {
  }

  lemma SearchEngineIsPlain(v: string)
    requires IsSearchEngine(v)
    ensures '-' !in v && |v| >= 4 && '-' !in "BySearchEngine"
  {
  }

  /** The part of the key before the policy. */
  function Stem(r: DnsRecordSet): string { r.DnsType + "-" + r.DnsName + "-" + r.DnsValue }

  lemma KeyParts(r: DnsRecordSet)
    ensures r.String() == Stem(r) + "-" + r.PolicyType + "-" + r.PolicyValue
    ensures StoredKey(r) == Stem(r) + "-" + BackType(r.PolicyValue) + "-" + BackValue(r.PolicyValue)
  {
  }

  lemma FaithfulKeepsKey(r: DnsRecordSet)
    requires Faithful(r)
    ensures StoredKey(r) == r.String()
  {
    KeyParts(r);
  }

  /** When a key ends in a policy that was read back, a record with this key either reads
      back with the same policy or with a shorter one. */
  lemma PolicyShrinks(p: string, v: string, q: string, pt: string, pv: string)
    requires p + "-" + BackType(v) + "-" + BackValue(v) == q + "-" + pt + "-" + pv
    requires !(pt == BackType(pv) && pv == BackValue(pv))
    ensures |BackType(pv)| + |BackValue(pv)| < |pt| + |pv|
  {
    BackIsPlain(v);
    BackIsPlain(pv);
    var (p1, q1) := (p + "-" + BackType(v), q + "-" + pt);
    if '-' !in pv {
      Text.LastSplit(p1, BackValue(v), q1, pv, '-');
      TypeShrinks(p, BackType(v), q, pt);
    } else {
      ValueShrinks(p, BackType(v), BackValue(v), q1, pv);
    }
  }

  lemma TypeShrinks(p: string, bt: string, q: string, pt: string)
    requires p + "-" + bt == q + "-" + pt && '-' !in bt && pt != bt
    ensures |bt| < |pt|
  {
    Text.SeparatorAfter(p, bt, q, pt, '-');
    Text.SameLengthSplit(p, bt, q, pt, '-');
    assert |p| + |bt| == |q| + |pt|;
  }

  lemma ValueShrinks(p: string, bt: string, bv: string, q1: string, pv: string)
    requires p + "-" + bt + "-" + bv == q1 + "-" + pv && '-' !in bt && '-' !in bv && '-' in pv
    ensures |bt| + |bv| + 1 <= |pv|
  {
    var (p1, s) := (p + "-" + bt, q1 + "-" + pv);
    Text.SeparatorAfter(p1, bv, q1, pv, '-');
    Text.SameLengthSplit(p1, bv, q1, pv, '-');
    assert |q1| < |p1|;
    var x := pv[..|p1| - |q1| - 1];
    assert p1 == s[..|p1|] == q1 + "-" + x;
    Text.SeparatorAfter(p, bt, q1, x, '-');
  }

  /** A record whose key is that of a stored record, but which does not read back as it is, gets a shorter key. */
  lemma UnfaithfulShrinks(stored: DnsRecordSet, r: DnsRecordSet)
    requires StoredKey(stored) == r.String() && !Faithful(r)
    ensures |StoredKey(r)| < |r.String()|
  {
    KeyParts(stored);
    KeyParts(r);
    PolicyShrinks(Stem(stored), stored.PolicyValue, Stem(r), r.PolicyType, r.PolicyValue);
  }

  /** The key is the stored key of one of the records under these keys. */
  ghost predicate Hit(index: Index, keys: set<string>, k: string)
    requires keys <= index.Keys
  {
    exists j :: j in keys && StoredKey(index[j]) == k
  }

  ghost predicate AllHit(index: Index, keys: set<string>)
    requires keys <= index.Keys
  {
    forall k {:trigger Hit(index, keys, k)} :: k in keys ==> Hit(index, keys, k)
  }

  /** If the records under some keys are stored, and every one of the keys is then a stored one, all read back as
      they were. */
  lemma AllFaithful(index: Index, keys: set<string>)
    requires keys <= index.Keys && ByKey(index) && AllHit(index, keys)
    ensures forall k :: k in keys ==> Faithful(index[k])
  {
    var n := Longest(keys);
    forall k | k in keys ensures Faithful(index[k]) {
      FaithfulUpTo(index, keys, n, k);
    }
  }

  lemma {:induction false} FaithfulUpTo(index: Index, keys: set<string>, n: nat, k: string)
    requires keys <= index.Keys && ByKey(index) && AllHit(index, keys)
    requires (forall x :: x in keys ==> |x| <= n) && k in keys
    ensures Faithful(index[k])
    decreases n - |k|
  {
    if !Faithful(index[k]) {
      assert Hit(index, keys, k);
      var j :| j in keys && StoredKey(index[j]) == k;
      LongerBefore(index, keys, j);
      FaithfulUpTo(index, keys, n, j);
    }
  }

  lemma LongerBefore(index: Index, keys: set<string>, j: string)
    requires keys <= index.Keys && ByKey(index) && AllHit(index, keys) && j in keys
    ensures if Faithful(index[j]) then StoredKey(index[j]) == j else |StoredKey(index[j])| < |j|
  {
    if Faithful(index[j]) {
      FaithfulKeepsKey(index[j]);
    } else {
      assert Hit(index, keys, j);
      var i :| i in keys && StoredKey(index[i]) == j;
      UnfaithfulShrinks(index[i], index[j]);
    }
  }

  lemma {:induction false} Longest(keys: set<string>) returns (n: nat)
    ensures forall k :: k in keys ==> |k| <= n
  {
    if keys == {} {
      n := 0;
    } else {
      var k :| k in keys;
      n := Longest(keys - {k});
      n := if |k| > n then |k| else n;
    }
  }
}
