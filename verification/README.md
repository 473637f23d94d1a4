# CloudMuX: proofs of the provider-independent algorithms

A model in Dafny of the algorithms in `pkg/cloudprovider` that do more than pass calls on, each with
the cloud side it works against as a small state machine, and proofs of what they guarantee.

| Files | What they model |
|---|---|
| `SecRules`, `RuleMerge`, `RuleMergeProofs`, `RuleExact`, `RulePriorities`, `RuleAssigned`, `RuleGroups`, `RuleCompare`, `RuleLaws` | the comparison of security-group rules, `CompareRules`, and `SortUniqPriority` |
| `AccessRules`, `AccessProofs`, `AccessPriorities`, `AccessSync` | the comparison of access-group rules, and an Aliyun access group it is applied to |
| `TransferPlan`, `Bucket`, `Transfer` | the cutting of objects into parts, and `UploadObject` and `CopyObject` against a bucket any of whose calls may fail |
| `Listing` | listing by pages, `GetIObject`, `DeletePrefix` |
| `ByteRange`, `MetaHeader` | byte ranges and object metadata as HTTP headers, and back |
| `Endpoints` | the endpoint cache of `SHCSOEndpoints` |
| `DnsRecords`, `DnsFields`, `DnsZone`, `DnsEffects`, `DnsKeys`, `DnsSync` | the comparison of DNS records, an Aliyun zone, and `SyncDnsRecordSets` |
| `Sorting`, `Text`, `Images`, `Arith` | `sort.Sort`, the string functions of Go, multisets of values, and arithmetic, as the others need them |

Where the Go code changes things step by step, so does the model: slices that are sorted or rewritten
in place are arrays, objects with state are classes, loops are loops. Each such method is tied to a
function of its inputs or of the old state, and the theorems are about that function. A run of a merge
is the function `Run`, which repeats the loop body `Step`; the overwriting of `srcRules[i].Priority`
before the next round reads it is part of the step.

## What the proofs found

Several promises do not hold of the code as it stands. The code is modelled as it is, and the exact
condition is proved instead.

- **Rule priorities.** The merge copies the priorities of destination rules into what it adds. No added
  rule passes MaxPriority, whatever the source, if and only if no real destination rule has passed it
  (`AddsWithinIff`, `PastMax`). Nothing guards the other bound: additions stay on this side of MinPriority
  if and only if each gets a priority as far from it as back-shifts follow (`AddsAfterMinIff`); without
  real destination rules, if and only if the test for a new priority fires no more often than the bounds
  are apart (`BothBoundsIff`; priorities 1, 2, 3 between bounds 1 and 2 give 0, `BelowMin`).
  Kept and added rules together need not follow the source's order of precedence: they do if and only
  if between consecutive matched rules the test fires no more often than their priorities differ, or the
  second one is at MaxPriority (`OrderKeptIff`, `TurnsBack`).
- **Parts.** When the part count is capped, the last part can be left with nothing or with a negative
  size (`TransferPlan.NegativeLastPart`: eleven bytes, blocks of one, ten parts give -7).
  `LastPartPositiveIff` and `EverySizeCutIff` say when; `Transfer.ContentAsOneShotIff` says when the
  stored object is the right one all the same. `CopyObject` is safe in every case, because the source
  has no bytes beyond the object; it passes offset 0 with every part.
- **Listing.** `GetAllObjects` declares its marker anew in each round, so every round lists the first
  page again. It ends exactly when the first page holds all keys; `ListCarrying` is the loop with the
  marker carried.
- **Metadata.** `Content-MD5` is not in canonical form, so the switch in `MetaToHttpHeader` never meets
  it and `Content-Md5` makes the round trip like any other key. For metadata whose keys consist of
  header characters the round trip holds for a prefix that is not empty if and only if no standard name
  that is read back starts with its canonical form (`TokenKeysRoundTripIff`); of the prefixes that end in
  a hyphen only `Content-` and `Cache-` fail, in any case (`ClashIff`). Metadata with other characters in
  its keys makes it for all prefixes that are canonical too, and for no others (`AllKeysRoundTripIff`):
  behind Aliyun's `x-oss-meta-` the key `my key` is stored and not found again (`OssPrefix`).
- **Access groups.** The comparison is the exact multiset difference when the texts of both lists ascend.
  A provider whose priorities fall, like Aliyun's 100 to 1, sorts the other way, and a rule can be removed
  only to be added again (`AliyunReadds`, `AlwaysExactIff`). The texts of the group come out right all the
  same, if and only if the access types of the rules to be added can be sent
  (`AccessSync.SyncReachesSourceIff`). `GetRules` never advances its page number: the rules are listed
  right if and only if they fit one page of 50 (`ListingIff`).
- **Endpoints.** The cache key leaves out the default region, but the answer can depend on it. For one
  default region the cache agrees with the uncached computation (`OneRegionIsTransparent`). For several
  without dots it does if and only if none of them occurs in the configured endpoint of a service or,
  where none is configured, in the service's name (`SeveralRegionsIff`); an endpoint configured with the
  name of one region fails under the other (`TwoRegions`). `RegionsTransparentIff` is the condition for
  default regions of any form.
- **DNS.** A local record whose policy Aliyun cannot give back, such as a plain one (Simple, with no
  policy value), is stored under another key than it was sent with, and so is deleted and added again
  by the next sync, unless another local record owns the key it is stored under (`ConvergesIff`,
  `FaithfulIff`). Hyphens in names and values can give different records one key (`HyphensConfuse`), and a
  difference in the MX priority alone is found but never sent (`MxPriorityNotSent`). Updates carry the cloud's own record, so they change nothing; every next comparison finds
  an update again if and only if no other record comes under its key (`UpdatesNeverLand`).
- **Overflow.** The numbers computed for a plan stay in 64 bits if and only if the last part has bytes to
  carry or the parts before it stay there (`NoOverflowIff`).

## Model

| member | source | states |
|---|---|---|
| SecRules.SortOrderIsWeakOrder | pkg/cloudprovider/securitygroup.go:199-213 | both sorts order rules by a strict weak order |
| SecRules.LessAgreesWithOrder | pkg/cloudprovider/securitygroup.go:199-213 | although `Less` reads whichever rule is at position 0, on rules whose bounds run one way it is that order for every arrangement met while sorting |
| SecRules.SortSecurityRule | pkg/cloudprovider/securitygroup.go:251-258 | permutes the slice in place and leaves it sorted in the direction that bounds and flags call for |
| SecRules.SecRuleInfo.Split | pkg/cloudprovider/securitygroup.go:167-189 | the untagged copies by direction, the bounds written into every rule of the shared slice, and the lists of each direction without the peer rules that are not supported |
| SecRules.DefaultSortsLast | pkg/cloudprovider/securitygroup.go:84-119 | sorted high to low, an added default rule comes last after explicit rules within bounds, whichever way the provider counts |
| SecRules.UniqIsGreatestFree | pkg/cloudprovider/securitygroup.go:560-574 | each position gets the greatest priority not above its own that no earlier one holds, and position i drops by at most i |
| SecRules.UniqIsDistinct | pkg/cloudprovider/securitygroup.go:560-574 | the priorities handed out are pairwise distinct |
| SecRules.UniqKeepsDistinct | pkg/cloudprovider/securitygroup.go:560-574 | priorities that are distinct already are left alone |
| SecRules.SortUniqPriority | pkg/cloudprovider/securitygroup.go:560-574 | sorts the slice and gives its rules exactly those priorities; it terminates |
| RuleMerge.CompareMerge | pkg/cloudprovider/securitygroup.go:386-453 | the loop of `_compare`, with its writes to both slices, ends in the state of the run |
| RuleMergeProofs.MergeConserves | pkg/cloudprovider/securitygroup.go:386-453 | kept and deleted rules are the destination list up to Ids and shifts, kept and added ones carry exactly the texts and Ids of the source list, deletions are verbatim |
| RuleMergeProofs.AddedAsAssigned | pkg/cloudprovider/securitygroup.go:386-453 | added rules are source rules in order, each the one written back to the source list moved by what its offset has grown by since; for rules that enter with offset 0, priority less offset is the priority assigned |
| RuleMergeProofs.NothingToDoIffSameTexts | pkg/cloudprovider/securitygroup.go:386-453 | nothing is added or deleted if and only if both lists carry the same texts in the same order |
| RuleExact.ExactIffDisjoint | pkg/cloudprovider/securitygroup.go:386-453 | what is kept, added and deleted are, as texts, the multiset intersection and both differences of the two lists if and only if no text is deleted only to be added again |
| RuleExact.AscendingIsExact | pkg/cloudprovider/securitygroup.go:393-451 | they are when the texts of both lists ascend |
| RuleExact.AddedTagged | pkg/cloudprovider/securitygroup.go:425-427 | every added rule bears the destination's bounds |
| RulePriorities.AddsWithinIff | pkg/cloudprovider/securitygroup.go:386-453 | whatever the source, through every back-shift, no added rule passes MaxPriority in the provider's direction, if and only if no real destination rule has |
| RulePriorities.PastMax | pkg/cloudprovider/securitygroup.go:388-408 | an instance: a destination rule at 101 of 100 has the rule added behind it at 101 |
| RulePriorities.AddsAfterMinIff | pkg/cloudprovider/securitygroup.go:414-449 | for any lists: no addition ends up before MinPriority if and only if each gets a priority as far from it as back-shifts follow |
| RulePriorities.BothBoundsIff | pkg/cloudprovider/securitygroup.go:70-82 | without real destination rules all additions lie between both bounds if and only if, after the first one, the test for a new priority fires no more often than the bounds are apart |
| RulePriorities.BelowMin | pkg/cloudprovider/securitygroup.go:430-449 | an instance: three priorities between bounds 1 and 2 leave the first rule at 0 |
| RulePriorities.LineInterleaves | pkg/cloudprovider/securitygroup.go:386-453 | the line of places lists every added rule and every real rule kept, and no other, in the order of the source and with its texts |
| RulePriorities.OrderKeptIff | pkg/cloudprovider/securitygroup.go:386-453 | the priorities along that line never turn back if and only if between consecutive matched rules the test fires no more often than their priorities differ, or the second one is at MaxPriority |
| RulePriorities.TurnsBack | pkg/cloudprovider/securitygroup.go:386-453 | an instance: a rule is added at 2 although the rule kept behind it is at 1 |
| RuleAssigned.AssignedPriorities | pkg/cloudprovider/securitygroup.go:386-453 | the priority assigned to every addition: that of the last real match before it or, there being none, of the first destination rule if it is real, else MinPriority; moved towards MaxPriority once for each firing of the test since, and no further |
| RuleAssigned.FirstAssigned | pkg/cloudprovider/securitygroup.go:387-390 | before any real match the first addition has the priority of the first destination rule, if real, or MinPriority, or one step more |
| RuleAssigned.FinalPriorities | pkg/cloudprovider/securitygroup.go:386-453 | the final priorities, back-shifts included: the last of the rules kept and added has the one given to it, and each other one is behind the next by one, by nothing, or as the given ones are |
| RuleAssigned.StartsFromDeleted | pkg/cloudprovider/securitygroup.go:387-390 | an instance: one rule against another at 5 is added at 5, though the other is deleted |
| RuleMergeProofs.UnmatchedClimb | pkg/cloudprovider/securitygroup.go:414-438 | when nothing matches, the whole source list is added in order, and the final priorities move by one towards MaxPriority exactly where the test fired |
| RuleGroups.SplitRules | pkg/cloudprovider/securitygroup.go:461-486 | one pair for each protocol of either list, holding its rules in their order |
| RuleLaws.GroupedByProtocol | pkg/cloudprovider/securitygroup.go:461-486 | a pair has exactly the rules with its protocol, and there is one exactly for the protocols that occur |
| RuleGroups.CompareByProtocol | pkg/cloudprovider/securitygroup.go:488-497 | for any order of the protocols: the outcomes of their merges one after the other, conserving the rules of both lists |
| RuleCompare.AllowList | pkg/cloudprovider/securitygroup.go:233-243 | the library's allow list of all the rules, and whether none of them names a peer group |
| RuleCompare.IsAllowListEqual | pkg/cloudprovider/securitygroup.go:260-270 | the loop over both lists compares their lengths and their sets of texts |
| RuleCompare.AllowListEqualIff | pkg/cloudprovider/securitygroup.go:260-270 | allow lists count as equal if and only if they have one length and each text of either occurs in the other |
| RuleCompare.SameDirectionIff | pkg/cloudprovider/securitygroup.go:306-311 | a direction is the same if and only if the allow lists of both sides have the same texts and no rule names a peer group |
| RuleCompare.OneTextDiffers | pkg/cloudprovider/securitygroup.go:306-311 | one text that only one side allows makes the direction differ |
| RuleLaws.DirectionListIs | pkg/cloudprovider/securitygroup.go:84-119 | the list of a direction: the rules that take part, with the bounds of their side, and the default one priority outside the bounds with its reserved id, unless a text ends in `allow any` or `deny any` |
| RuleLaws.HighFirst | pkg/cloudprovider/securitygroup.go:251-258 | sorted high to low, rules nearer MaxPriority come first, and greater texts of equal ones |
| RuleLaws.LowFirst | pkg/cloudprovider/securitygroup.go:251-258 | sorted low to high, the other way round, but by number where only allowing rules are supported |
| RuleLaws.UsedRulesAre | pkg/cloudprovider/securitygroup.go:332-352 | the source's allow list takes the place of its rules if no peer group is named and it is shorter, or only allowing rules are supported; a denying default completes it unless it is one of five trivial ones |
| RuleLaws.DefaultTurnedAround | pkg/cloudprovider/securitygroup.go:511-554 | if the synthetic default is lost, its opposite at MinPriority is added exactly when the allow list of what is kept and added is empty, or neither contains its text nor equals the source's |
| RuleCompare.TryUseAllowList | pkg/cloudprovider/securitygroup.go:332-352 | the rules a direction is merged with: the list, or its allow list, completed by the default where that denies |
| RuleCompare.HandleDefaultRules | pkg/cloudprovider/securitygroup.go:511-538 | drops the synthetic default and nothing else, and turns around the last one whose loss calls for that |
| RuleCompare.MergeDirection | pkg/cloudprovider/securitygroup.go:499-509 | sorts both lists low to high and merges them, at once or by protocols, conserving rules either way |
| RuleCompare.FinishDirection | pkg/cloudprovider/securitygroup.go:540-554 | deletions are the real ones of the merge; the default turned around is added if it was lost and what is kept and added does not cover it |
| RuleCompare.DirectionAccounted | pkg/cloudprovider/securitygroup.go:386-497 | in a merged direction the real rules kept and deleted are together exactly the destination's rules of that direction |
| RuleCompare.DeletionsMatchDirection | pkg/cloudprovider/securitygroup.go:511-558 | every deletion is a real rule of its direction, never the synthetic default |
| RuleCompare.BothAccounted | pkg/cloudprovider/securitygroup.go:555-557 | over both directions, every destination rule dealt with is kept or deleted, once |
| RuleCompare.MergeApplied | pkg/cloudprovider/securitygroup.go:499-554 | in a merged direction the texts of the real rules kept and those added are those of the source's rules in the form merged, less those matched by the synthetic default, plus the turned-around default if it was added |
| RuleCompare.CompareRules | pkg/cloudprovider/securitygroup.go:284-558 | the whole comparison: a direction is the same if and only if the allow lists of both sides have one length and the same texts and no rule names a peer group, and then has nothing to do; otherwise it is the merge of both sides, and applying it gives the source's texts as above; every destination rule that takes part is kept or deleted, once, and nothing else is |
| AccessRules.AccessGroupRuleInfo.Sort | pkg/cloudprovider/access_group.go:94-100 | permutes the rules in place and leaves them ascending or descending as the bounds say |
| AccessRules.OrdersAreOrders | pkg/cloudprovider/access_group.go:83-85 | the order by priority and text is a strict weak order, total on priorities and texts |
| AccessRules.CompareAccessGroupRules | pkg/cloudprovider/access_group.go:102-156 | sorts both sides in place and ends in the state of the run, with its writes to both slices, which may be one |
| AccessRules.MergeRules | pkg/cloudprovider/access_group.go:118-154 | its loop, for any two slices or one passed twice, ends in the state of the run |
| AccessProofs.MergeConserves | pkg/cloudprovider/access_group.go:118-154 | for any priorities and directions: kept and removed rules are the destination's, kept and unmatched ones the source's, added ones the unmatched with supported access types, renumbered |
| AccessProofs.UnmatchedFromSource | pkg/cloudprovider/access_group.go:118-154 | what matches nothing is a source rule as it was before the merge wrote to the slice |
| AccessProofs.ExactIffDisjoint | pkg/cloudprovider/access_group.go:118-154 | the answer is the multiset intersection and both differences if and only if no text is both removed and unmatched |
| AccessProofs.AscendingIsExact | pkg/cloudprovider/access_group.go:118-154 | it is when the texts of both lists ascend |
| AccessProofs.AlwaysExactIff | pkg/cloudprovider/access_group.go:94-154 | with one priority on each side it always is if and only if MinPriority < MaxPriority on both sides |
| AccessProofs.AliyunReadds | pkg/multicloud/aliyun/access_groups.go:66-81 | an instance with Aliyun's bounds and access types: a rule is removed and added again |
| AccessProofs.NothingToDoIffSameTexts | pkg/cloudprovider/access_group.go:118-154 | nothing is unmatched or removed if and only if the sorted lists carry the same texts in the same order |
| AccessProofs.SameRulesNothingToDo | pkg/cloudprovider/access_group.go:102-156 | for equal multisets of rules and the same sort direction nothing is added or removed, whatever the priorities |
| AccessProofs.MiddleInBoundsIff | pkg/cloudprovider/access_group.go:117 | the first priority lies between the bounds if and only if they differ or the lower is not positive |
| AccessProofs.AddsStayInBoundsIff | pkg/cloudprovider/access_group.go:105-117 | every added priority lies between the bounds whenever the destination's do if and only if the bounds differ, are not positive, or no access type is supported |
| AccessPriorities.AddedStepwise | pkg/cloudprovider/access_group.go:105-150 | for any lists and bounds: every addition is exactly one ahead, towards MaxPriority, of the rule kept or added before it, or of the middle if it is the first, when that is strictly between the bounds, and otherwise the same |
| AccessPriorities.StepsAfterMatch | pkg/cloudprovider/access_group.go:105-150 | the n-th addition after a match is n steps ahead of the matched priority, up to MaxPriority |
| AccessPriorities.StepsAtFirst | pkg/cloudprovider/access_group.go:105-117 | the n-th addition before any match is n steps ahead of the middle, up to MaxPriority |
| AccessPriorities.ApartWithin | pkg/cloudprovider/access_group.go:105-150 | additions between two matches that are strictly between the bounds have pairwise different priorities |
| AccessPriorities.AliyunFirstTwo | pkg/multicloud/aliyun/access_groups.go:71-77 | an instance: the first two rules of an empty Aliyun group get 49 and 48 |
| AccessSync.ReadsBackIff | pkg/multicloud/aliyun/access_groups.go:289-313 | a rule reads back from the cloud as it was sent if and only if its access type is one that can be sent, or what the cloud's default reads as |
| AccessSync.SentAs | pkg/multicloud/aliyun/access_groups.go:289-313 | what is stored for each access type, and that those that can be sent read back as themselves |
| AccessSync.SAccessGroup.GetRules | pkg/multicloud/aliyun/access_groups.go:87-123 | the first page of 50 over and over until as many are listed as there are rules, with the access types translated; it fails exactly when a call fails |
| AccessSync.ListingIff | pkg/multicloud/aliyun/access_groups.go:87-99 | that is the list of the rules if and only if there are at most 50 |
| AccessSync.SAccessGroup.SyncRules | pkg/multicloud/aliyun/access_groups.go:315-329 | deletions before creations, up to the first failing call; the group is what the calls made leave, a failed one counted or not |
| AccessSync.DeletionLeavesCommon | pkg/multicloud/aliyun/access_groups.go:316-321 | deleting by id what a comparison removed leaves the texts of what it kept |
| AccessSync.CreatedReadBackIff | pkg/multicloud/aliyun/access_groups.go:322-327 | the created rules read back as the added ones if and only if all their access types can be sent |
| AccessSync.SyncLeaves | pkg/multicloud/aliyun/access_groups.go:315-329 | for any rules on either side, in any order and with any access types: after a comparison and an error-free sync the group has the source's texts, with the text as sent in place of each unmatched supported rule and none in place of the others |
| AccessSync.SentAlikeIff | pkg/multicloud/aliyun/access_groups.go:289-313 | sending leaves the texts of the rules to add as they are if and only if all their access types can be sent |
| AccessSync.SyncReachesSourceIff | pkg/multicloud/aliyun/access_groups.go:315-329 | the group then has the source's texts less exactly the unmatched rules with unsupported access types, if and only if the access types of the other unmatched rules can be sent |
| AccessSync.GetAccessGroupRuleInfo | pkg/cloudprovider/access_group.go:46-57 | the group's bounds and supported access types and, unless the call fails, its rules |
| AccessSync.SyncGroup | pkg/multicloud/aliyun/access_groups.go:315-329 | the whole round of reading, comparing and syncing on a group and a source that are updated in place: without a failing call a group of at most 50 rules has the source's texts less the unmatched rules that are not supported, if and only if the access types of what the run over both sorted lists leaves unmatched can be sent; it fails only when a call fails |
| TransferPlan.MakePlan | pkg/cloudprovider/objectstore.go:493-518 | computes the plan: one request, a refusal, or the fewest blocks that hold the object, capped |
| TransferPlan.PlanIff | pkg/cloudprovider/objectstore.go:493-518 | one request if and only if the size is below the block, 50 MiB if none is given; a refusal if and only if it is not and neither MaxPartCount blocks nor MaxPartCount parts of MaxPartSizeBytes hold it; else the least number of parts that holds it, up to the limit, of the least size |
| TransferPlan.PlanFits | pkg/cloudprovider/objectstore.go:502-518 | a plan in parts has at most MaxPartCount parts that hold the object and fit MaxPartSizeBytes when the block does |
| TransferPlan.LastPartPositiveIff | pkg/cloudprovider/objectstore.go:507-530 | the last part carries bytes if and only if the blocks fit the part limit or spreading the object over the limit leaves enough |
| TransferPlan.LastPartNotNegativeIff | pkg/cloudprovider/objectstore.go:507-530 | it is not left with a negative size if and only if, moreover, it may be left with none |
| TransferPlan.EverySizeCutIff | pkg/cloudprovider/objectstore.go:507-530 | every 64-bit size is cut into nonempty parts if and only if the block is at least MaxPartCount - 1 or MaxPartSizeBytes, or MaxPartCount blocks hold every 64-bit size |
| TransferPlan.NegativeLastPart | pkg/cloudprovider/objectstore.go:507-530 | an instance that leaves -7 bytes for the last part |
| TransferPlan.PartsTile | pkg/cloudprovider/objectstore.go:526-543 | nonempty parts tile the object, each starting at its index times the part size where the one before ends |
| TransferPlan.NoOverflowIff | pkg/cloudprovider/objectstore.go:502-530 | no product or sum of the plan leaves the 64-bit range if and only if the last part carries bytes or the parts before it end within the range |
| TransferPlan.NoOverflow | pkg/cloudprovider/objectstore.go:502-530 | in particular when the size and the part limit add up to a 64-bit value |
| Transfer.UploadParts | pkg/cloudprovider/objectstore.go:526-543 | the loop over parts: one call for each with its size and offset, the upload holding the input so far, nothing after a failure |
| Transfer.FinishUpload | pkg/cloudprovider/objectstore.go:532-551 | completes, or aborts exactly once after a failure |
| Transfer.UploadObject | pkg/cloudprovider/objectstore.go:492-553 | whatever fails, the object is unchanged or holds the whole content; success leaves the content and no upload; the calls are those of the protocol, one put exactly for sizes below the block, none for those refused, the least parts with their sizes and offsets for the others |
| Transfer.ContentAsOneShotIff | pkg/cloudprovider/objectstore.go:526-543 | a transfer in parts stores what one PutObject would if and only if the last part's size is not negative or the input has no more bytes |
| Transfer.CopyRange | pkg/cloudprovider/objectstore.go:647-672 | one round: fetches the range and stores it as the next part with offset 0; the upload then holds the source up to its end, or the call that failed is the last |
| Transfer.CopyParts | pkg/cloudprovider/objectstore.go:637-672 | the loop over ranges, the part size rewritten in the last round, offset 0 with every part; the upload holds the source so far |
| Transfer.CopyObject | pkg/cloudprovider/objectstore.go:592-682 | succeeds only with the destination's bytes equal to the source's, for every plan; the protocol, the requested ranges, and what is sent how by its size, as for an upload; it fails to read the source exactly when a read fails |
| Transfer.RangeGivesPart | pkg/cloudprovider/objectstore.go:638-659 | what the server answers to a range, cut to the part size, is the part, also for range 0-0 and for ranges that are not valid |
| Transfer.RangesTile | pkg/cloudprovider/objectstore.go:638-646 | the inclusive ranges are disjoint, in order, without gaps, from 0 to the last byte |
| Transfer.RangesAddUp | pkg/cloudprovider/objectstore.go:186-193 | their sizes add up to the object's |
| Bucket.RangeAnswers | pkg/cloudprovider/objectstore.go:638-659 | what the server answers to a range with two ends, by section 2.1 of RFC 7233 |
| Transfer.PiecesFollowProtocol | pkg/cloudprovider/objectstore.go:522-552 | create, parts in order, complete; after any failure but that of create, one abort and nothing more |
| Listing.GetPagedObjects | pkg/cloudprovider/objectstore.go:401-439 | one page in order and the marker to go on from, empty when there is no more; it fails exactly when a call fails |
| Listing.PageIs | pkg/cloudprovider/objectstore.go:401-439 | the page is the first keys listed, at most as many as asked for, as 1000 and as the bucket returns, and as many as that if there are more; the marker is empty exactly when there are not |
| Listing.ListedIff | pkg/cloudprovider/objectstore.go:401-439 | listed are the keys with the prefix, greater than the marker unless that is empty, in order |
| Listing.ListCarrying | pkg/cloudprovider/objectstore.go:441-457 | with the marker carried, the listing ends and returns every key with the prefix once, in order |
| Listing.GetAllObjects | pkg/cloudprovider/objectstore.go:441-457 | as written, it ends only if the first page holds all keys, and then returns the same |
| Listing.FirstIsTheKey | pkg/cloudprovider/objectstore.go:468-471 | the first key listed under a prefix is the prefix itself if and only if that is a key |
| Listing.GetIObject | pkg/cloudprovider/objectstore.go:459-475 | finds the object if and only if that exact key exists; the retry without the slash finds no other; it fails exactly when a call fails |
| Listing.DeletePrefix | pkg/cloudprovider/objectstore.go:555-567 | deletes exactly the keys with the prefix when it ends well, and no other key on any run; as written, it deletes nothing when the first page does not hold all; it fails exactly when a call fails |
| Listing.DeletePrefixCarrying | pkg/cloudprovider/objectstore.go:555-567 | the same over the listing with the marker carried, for any number of keys; it fails exactly when a call fails |
| ByteRange.ParseRangeInvertsString | pkg/cloudprovider/objectstore.go:195-221 | parsing the printed range gives it back with negative ends clamped to 0, for all 64-bit ends |
| ByteRange.ParseRangeIsStable | pkg/cloudprovider/objectstore.go:199-221 | printing and parsing what was parsed from any text changes nothing |
| ByteRange.StringIsInjective | pkg/cloudprovider/objectstore.go:211-221 | ranges without negative ends print alike if and only if they are equal |
| ByteRange.HeaderTexts | pkg/cloudprovider/objectstore.go:191-221 | how ranges with and without ends read in a header |
| MetaHeader.MetaToHttpHeader | pkg/cloudprovider/objectstore.go:708-728 | each key with a first value gets its header and no other header arises, in any order of the keys |
| MetaHeader.FetchMetaFromHttpHeader | pkg/cloudprovider/objectstore.go:730-754 | for any prefix and any headers: what the headers are read as, in some order of theirs, and over it the standard headers that have a value |
| MetaHeader.FetchedValue | pkg/cloudprovider/objectstore.go:730-754 | when no two headers are read under one key, in whatever order: each key has the standard header's value, or else the values of the one header read under it, and no other key arises |
| MetaHeader.CanonicalReadApart | pkg/cloudprovider/objectstore.go:731-738 | no two canonical headers are read under one key, whatever the prefix of header characters |
| MetaHeader.CanonicalIdempotent | pkg/cloudprovider/objectstore.go:714 | canonicalising twice is canonicalising once |
| MetaHeader.StoredForm | pkg/cloudprovider/objectstore.go:724-737 | what a key is stored under, with any prefix that can carry it, is canonical, has the prefix and gives the key back |
| MetaHeader.ContentMd5IsNotCanonical | pkg/cloudprovider/objectstore.go:715-722 | no key canonicalises to `Content-MD5` |
| MetaHeader.FetchUndoesStore | pkg/cloudprovider/objectstore.go:708-754 | fetching undoes storing, up to first values, for canonical keys that are of header characters or meet a canonical prefix, unless a standard name starts with the canonical prefix |
| MetaHeader.TokenKeysRoundTripIff | pkg/cloudprovider/objectstore.go:708-754 | for every prefix: the round trip holds for all metadata with canonical keys of header characters if and only if the prefix is empty or no standard name that is read back starts with its canonical form |
| MetaHeader.AllKeysRoundTripIff | pkg/cloudprovider/objectstore.go:708-754 | for every prefix: it holds for all metadata with canonical keys if and only if, moreover, the prefix is canonical |
| MetaHeader.ClashIff | pkg/cloudprovider/objectstore.go:741-747 | of the prefixes that end in a hyphen, a standard name starts with the canonical form of those alone that are `Content-` or `Cache-` in canonical form |
| MetaHeader.OssPrefix | pkg/multicloud/aliyun/objects.go:30 | `x-oss-meta-` carries every key of header characters but not every canonical key |
| MetaHeader.NamesPassedOn | pkg/cloudprovider/objectstore.go:714-725 | the five standard names are passed on as they are under any prefix, any other key behind the prefix |
| MetaHeader.NamesFetched | pkg/cloudprovider/objectstore.go:741-752 | each of the five is fetched with the first value of its header |
| MetaHeader.TokensAre | pkg/cloudprovider/objectstore.go:714 | header characters are the printing ASCII characters but the delimiters of section 3.2.6 of RFC 7230 |
| MetaHeader.CanonicalAt | pkg/cloudprovider/objectstore.go:714 | canonicalising a key changes letters to upper case at its start and behind hyphens, others to lower case, and nothing else |
| Endpoints.SHCSOEndpoints.GetEndpoint | pkg/cloudprovider/endpoints.go:88-123 | one request against the cache: the answer and the cache afterwards |
| Endpoints.FirstAnswer | pkg/cloudprovider/endpoints.go:105-114 | on an empty cache, without a region: the configured field as it is if it is not empty, else service, default region and domain with dots between |
| Endpoints.FirstAnswerFor | pkg/cloudprovider/endpoints.go:116-119 | with a region, the same with the region in the place where the default region first occurs, if it does |
| Endpoints.UncachedIsNotEmpty | pkg/cloudprovider/endpoints.go:112-119 | the computed endpoint is never empty, so every entry of the cache is used |
| Endpoints.TransparentIffCollisionsAgree | pkg/cloudprovider/endpoints.go:88-123 | after every history the answers are the uncached ones if and only if requests that share a key have the same answer |
| Endpoints.OnlyDefaultCollides | pkg/cloudprovider/endpoints.go:94-97 | for one default region, the only distinct requests that share a key are no region and the default region, and they agree |
| Endpoints.OneRegionIsTransparent | pkg/cloudprovider/endpoints.go:88-123 | for one default region and services told apart by dot-free names the cache cannot be told from none |
| Endpoints.OneRegionIff | pkg/cloudprovider/endpoints.go:88-123 | for one default region and dot-free field names it cannot if and only if any two services with one field name are the same or have it configured |
| Endpoints.RegionsTransparentIff | pkg/cloudprovider/endpoints.go:88-123 | for services told apart by dot-free names, any configuration and any default regions, the cache cannot be told from none if and only if each service's endpoint leaves the same text fixed around the first occurrence of each default region |
| Endpoints.SeveralRegionsIff | pkg/cloudprovider/endpoints.go:88-123 | for such services and several default regions without dots, if and only if none of them occurs in the configured endpoint of a service or, where none is configured, in its name |
| Endpoints.TwoRegions | pkg/cloudprovider/endpoints.go:112-119 | an instance: with `cn-north-1` and `cn-south-1` the cache does no harm to a service that is not configured, and does when its endpoint is configured with one of the two in it |
| Endpoints.AnyRegionIsNot | pkg/cloudprovider/endpoints.go:88-123 | if any text at all may be a default region, even one equal to the whole endpoint or service name, the cache can be told, for every configuration |
| DnsRecords.CompareDnsRecordSet | pkg/cloudprovider/dnszone.go:648-697 | for any orders of the two maps: the four lists, key by key |
| DnsRecords.IndexHoldsTheLast | pkg/cloudprovider/dnszone.go:653-672 | of records with one key, the last counts |
| DnsRecords.LocalKeysPartitioned | pkg/cloudprovider/dnszone.go:674-688 | every local key is in exactly one of common, added and updated, once |
| DnsRecords.AddedIff | pkg/cloudprovider/dnszone.go:674-688 | added is what is local under keys the cloud does not have |
| DnsRecords.RemovedIff | pkg/cloudprovider/dnszone.go:690-695 | removed is what the cloud has under keys that are not local |
| DnsRecords.UpdatedKey | pkg/cloudprovider/dnszone.go:677-681 | what is updated is the cloud's own record, with the local id |
| DnsFields.PartsByFields | pkg/cloudprovider/dnszone.go:606-646 | a key of both sides is in common if and only if the records agree in Ttl, Enabled, type, value, policy, lower-cased name, MxPriority for type MX, and options with missing ones as empty; in updated if and only if not; never in added |
| DnsFields.TtlCounts | pkg/cloudprovider/dnszone.go:622-624 | a difference in Ttl moves the key to updated |
| DnsFields.EnabledCounts | pkg/cloudprovider/dnszone.go:625-627 | so does one in Enabled |
| DnsFields.KeyFieldsCount | pkg/cloudprovider/dnszone.go:610-621 | and one in type, value, or type or value of the policy |
| DnsFields.NameCounts | pkg/cloudprovider/dnszone.go:607-609 | and one in the lower-cased name |
| DnsFields.MxPriorityCounts | pkg/cloudprovider/dnszone.go:628-630 | and one in MxPriority, for type MX |
| DnsFields.OptionsCount | pkg/cloudprovider/dnszone.go:638-646 | and one in the options |
| DnsFields.OthersDoNotCount | pkg/cloudprovider/dnszone.go:606-632 | for other types MxPriority decides nothing, nor do ids, status and description for any |
| DnsFields.SameKeyIff | pkg/cloudprovider/dnszone.go:634-636 | where only values contain hyphens, records share a key if and only if they agree in the five fields it is made of |
| DnsFields.HyphensConfuse | pkg/cloudprovider/dnszone.go:634-636 | an instance of two records with different names and values that share a key |
| DnsRecords.SettledIff | pkg/cloudprovider/dnszone.go:674-696 | nothing is added or removed if and only if both sides have the same keys |
| DnsZone.SDomain.GetIDnsRecordSets | pkg/multicloud/aliyun/dns_domain.go:292-302 | every record of the zone once, as its getters tell it, in any order |
| DnsZone.SDomain.AddDomainRecord | pkg/multicloud/aliyun/dns_domain_record.go:142-161 | the record as sent, word for word, under a new id; a failed call may have had that effect too |
| DnsZone.SDomain.SyncDnsRecordSets | pkg/multicloud/aliyun/dns_domain.go:304-368 | without errors, the four loops' effects one after the other; on every run, nothing but what is named is deleted or changed, and nothing but additions is new; it fails exactly when a call fails |
| DnsEffects.KeptFields | pkg/multicloud/aliyun/dns_domain.go:304-321 | after a sync without errors, a record that is neither removed nor updated has every field it had, but for the remark of the last record in common that gives it one |
| DnsEffects.RemovedGone | pkg/multicloud/aliyun/dns_domain.go:314-320 | one that is removed is gone |
| DnsEffects.AddedFields | pkg/multicloud/aliyun/dns_domain.go:322-341 | one that was added has each field, the status and the remark of the addition |
| DnsEffects.UpdatedFields | pkg/multicloud/aliyun/dns_domain.go:343-367 | one that is updated has each field, the status and the remark of the update |
| DnsEffects.MxPriorityNotSent | pkg/multicloud/aliyun/dns_domain_record.go:321-341 | a difference in the MX priority alone is never sent |
| DnsEffects.GettersTell | pkg/multicloud/aliyun/dns_domain_record.go:220-253 | what the getters tell of a record |
| DnsEffects.CarrierLine | pkg/multicloud/aliyun/dns_domain_record.go:255-289 | a line that begins like one of the six carriers has a carrier's policy, with its own name as value |
| DnsEffects.RegionLine | pkg/multicloud/aliyun/dns_domain_record.go:255-289 | one that begins like one of the three kinds of region has a location's |
| DnsKeys.FaithfulIff | pkg/multicloud/aliyun/dns_domain_record.go:112-140 | a record's policy reads back as it was sent if and only if it is one of twelve |
| DnsKeys.UnfaithfulShrinks | pkg/multicloud/aliyun/dns_domain_record.go:255-315 | a record whose key is a stored one but whose policy does not read back gets a strictly shorter key |
| DnsKeys.AllFaithful | pkg/multicloud/aliyun/dns_domain_record.go:112-161 | if storing some records produces all their keys, every one of them reads back as it was |
| DnsSync.IndexOfZone | pkg/cloudprovider/dnszone.go:653-669 | the index of a zone's listing has the zone's keys, and its entries are records of the zone |
| DnsSync.KeysAfter | pkg/multicloud/aliyun/dns_domain.go:304-368 | the zone's keys after a comparison and an error-free sync: those of the records not removed, and those the additions are stored under |
| DnsSync.ConvergesIff | pkg/multicloud/aliyun/dns_domain.go:304-368 | they are the local keys if and only if no two records shared a key that is not local and the new records' policies read back as sent |
| DnsSync.SecondComparisonIff | pkg/cloudprovider/dnszone.go:648-697 | under exactly that condition a second comparison adds and removes nothing |
| DnsSync.SyncZone | pkg/multicloud/aliyun/dns_domain.go:292-368 | the whole round of listing, comparing and syncing on a zone: without a failing call the zone gets the local keys under exactly that condition |
| DnsSync.FoundAgainIff | pkg/cloudprovider/dnszone.go:674-681 | a second comparison finds an update again if and only if the last record listed under its key is the same one |
| DnsSync.UpdatesNeverLand | pkg/cloudprovider/dnszone.go:674-681 | every second comparison does, whatever the order of the listing, if and only if no other record of the zone has the key and no addition is stored under it |
| DnsSync.AddedReadsBackEqualIff | pkg/cloudprovider/dnszone.go:606-646 | an added record equals what is read back of it if and only if its options equal none |

## Left out

- `secrules.SecurityRule.String`, `AllowList`, its text and its `Equals` are parameters: nothing is claimed about what an allow list lets through.
- `CanBeSplitByProtocol` only chooses between one merge and one merge per protocol; the model leaves the choice open and the results hold for both.
- RuleMerge.CompareMerge: priorities are unbounded integers; a wrap-around of Go's 64-bit `int` is not modelled.
- AccessRules.CompareAccessGroupRules: priorities are unbounded integers.
- AccessSync.SAccessGroup.GetRules: the group does not change between the pages; the server answers a page number and size as its parameters say, in one order.
- The order in which `sort.Sort` leaves equivalent elements is not specified, in the model as in Go.
- TransferPlan.MakePlan: a part limit of 0 makes the source divide by zero; the model takes the limit to be positive, as `SBaseBucket` and the providers have it.
- Transfer.UploadObject: ACL, storage class and metadata are passed through and left out; a request for an object of a given size stores that many bytes of the input, as a server with a content length does.
- Transfer.CopyObject: other clients do not change the source between its calls; the look-up of its size is the contract of `GetIObject`.
- Listing.GetAllObjects: the loop that would never end is run for a number of rounds given by the caller.
- Listing.GetPagedObjects: listings with a delimiter, and their common prefixes, are not modelled.
- MetaHeader.MetaToHttpHeader: canonical header keys are those of `net/http`, as its documentation describes them; keys are strings of characters, not of bytes.
- ByteRange.ParseRangeInvertsString: the regular expression is modelled by its leftmost greedy match.
- Endpoints.SHCSOEndpoints.GetEndpoint: `utils.Kebab2Camel` is a parameter; reading a field by reflection is a look-up by name among the string fields.
- DnsRecords.CompareDnsRecordSet: `strings.ToLower` and the equality of option dictionaries are parameters; values in a dictionary are texts.
- DnsZone.SDomain.SyncDnsRecordSets: the cloud stores parameters word for word; remarks are not read back.
- Other clients changing a bucket, a zone or a group during an operation.
- HTTP and SDK calls, credentials, JSON, logging, and the wording of errors.
- `GetSuppportedTTL`, `waitstatus.go`, `retry.go`, bucket CORS, policies and tags: short scans and polling loops.
