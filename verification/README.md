# SAMADCON: the text languages and the guarded state

SAMADCON administers an Active Directory domain. Much of its own logic works on small text languages (distinguished
names, SDDL, the extension list of a policy, INI and CSV files) and on state that has to hold over whole runs (the
directory under protected OUs, a DNS zone's serial, two throttles). This project models that logic and proves what it is
for.

`dafny verify dfyconfig.toml` checks everything.

## What is modelled

- **Distinguished names** (`Values`, `PrintedValues`, `DnTs`, `WriteGuard`): printing and splitting on the server, the
  console's second parser, and the comparison both rest on.
- **Writes through the connection** (`Directory`, `Connection`, `WriteAnswers`, `AttributeEdits`, `ReservedNames`,
  `ReservedRules`, `Positions`): a tree of objects with the server's semantics of RFC 4511 sections 4.6 to 4.9, a
  connection object that guards every write, and runs of writes.
- **Permissions** (`Sddl`, `DeleteProtection`, `ProtectionEntries`, `ProtectionState`, `AceMeaning`, `AceSpelling`,
  `AceDifference`, `AclEditing`, `AclLaws`, `AclDifference`, `CannotChange`, `SecuredObjects`, `SecuredText`): SDDL text
  taken apart and put back, entries compared by meaning (section 2.5.1.1 of MS-DTYP), and an object whose descriptor is
  edited in place.
- **DNS zones** (`DnsRecords`, `DnsMatching`, `DnsZone`, `DnsRuns`): names with values, one SOA serial (section 3.3.13 of
  RFC 1035), two reads around each bump.
- **Policy text** (`Cse`, `CseLaws`, `CseRemoval`, `CsePairs`, `Folders`, `FolderLines`, `FolderWrites`, `FolderLaws`,
  `FolderEdits`, `FolderMap`, `FolderRoundTrip`, `AuditCsv`).
- **Throttles** (`RateLimit`, `LoginThrottle`, `ThrottleExact`) and **nested groups** (`NestedGroups`).

`Text`, `Sorting` and `Numerals` hold the string, sorting and number operations of Python they use.

Loops of the source are methods with loops, and objects that update their fields are classes. Each such method is proved
equal to a specification function; the lemmas say what that function is worth. Library calls (address parsing, record
validation, `int()` on a DNS field), the catalogue of audit subcategories, the clock and the server's own refusals are
parameters.

## Where the code does something else than one may expect

- The comment at backend/samadcon/core/ratelimit.py:46-50 says a stale key "can never trip the limit again". The lookup
  drops events strictly older than the window and the pruning those at its edge, so a full bucket exactly one window old
  can (`RateLimit.PruningShows`); away from that edge no answer changes (`RateLimit.PruningUnobservable`). The bound on
  half-open windows is not affected. A limit of zero makes every attempt fail with an index error
  (`RateLimit.NothingAccepted`).
- The depth cut-off of the group walk counts along the path an object is first met on, and the seen-set then keeps a
  shorter path from opening it (`NestedGroups.NearObjectMissed`). Without long chains of groups nothing is missed
  (`NestedGroups.ExpandReaches`).
- `isAtOrBelow` with an empty ancestor is true of every text that ends in a comma (`DnTs.BelowNothing`).
- `modify_attributes` reports a stored `[""]` as `""`, which means "delete" when it is written back
  (`AttributeEdits.UndoRestores`). An edit that takes a reserved value away cannot be undone either: the value is no
  longer one the object has, so writing it back is refused (`Connection.ReservedUndoRefused`, exactly when:
  `Connection.EditUndo`).
- `remove_tool` also drops a group of the extension that had no tool before (`CseRemoval.AddThenRemove`), and the order
  of two additions shows in one odd case (`CseLaws.AddCommutes`).
- Deleting the last record of a name removes the name even when it had existed empty before the create
  (`DnsRuns.CreateThenDelete`).
- `delete_record` takes any type and any data. Data that names the SOA by its serial, and matches nothing else, raises
  that serial and then fails (`DnsRuns.DeletingSoaVanishes`, exactly when: `DnsZone.DeleteExact`). Data that matches the
  SOA without naming a serial deletes it, and the apex when that was its only value (`DnsRuns.DeletingSoaSucceeds`,
  exactly when: `DnsZone.SoaTaken`, `DnsZone.ApexTaken`).
- Two sections of fdeploy1.ini that name one pair in two spellings of the GUID become one when any pair is edited
  (`FolderMap.SetTargetExact`). The module's own introduction still says it only reads; the code writes.
- A conditional entry loses its last parenthesis when the DACL is split and joined (`Sddl.WholeSplit`,
  `Sddl.ConditionalLosesItsEnd`), and setting deletion protection on a text without "D:" leaves "D:" behind when it is
  cleared (`DeleteProtection.SetThenClear`). Clearing it in a text that is no list of entries can join what stood
  around the entry to a new one (`ProtectionState.ClearingCanJoin`).
- White space after the colon of a proxy address stays part of what the rules look at, while mail loses it
  (`ReservedRules.ProxyIff`, `ReservedRules.ProxyIsMail`).
- `with_cannot_change` can raise when it clears the option (`CannotChange.RefusedIff`, `CannotChange.UnreadableRefused`).

## Model

| member | source | states |
|---|---|---|
| `Values.EscapeRdnValue` | backend/samadcon/ad/values.py:295-311 | the loop over the characters writes the RFC 4514 form that `Values.UnescapeEscape` shows to be lossless |
| `Values.UnescapeEscape` | backend/samadcon/ad/values.py:283-311 | a reader of RFC 4514 section 3 gets every value back from its printed form, control characters included |
| `Values.ScanRdn` | backend/samadcon/ad/values.py:314-326 | the scan by parity of backslash runs returns the first component read pair by pair |
| `Values.SplitPrinted` | backend/samadcon/ad/values.py:295-341 | of `attr=escaped,parent` the first RDN comes back exactly, and the parent exactly when it does not start with white space |
| `Values.SplitName` | backend/samadcon/ad/values.py:314-341 | a printed name splits into the components it was printed from, whatever they hold |
| `Values.PrintDnInjective` | backend/samadcon/ad/values.py:295-311 | different names never print alike |
| `PrintedValues.NothingBare` | backend/samadcon/ad/values.py:283-311 | in a printed value none of `,+"<>;=` stands without a backslash of its own, nor a leading space or number sign, nor a trailing space; no backslash is left over and no control character is left |
| `DnTs.ParsersAgree` | frontend/src/dn.ts:20-34 | the console's token pattern and the server's parity scan cut the same first component, exactly when no unescaped backslash stands at the end or before a line terminator |
| `DnTs.ParentOfName` | frontend/src/dn.ts:31-34 | the console's parent of a printed name is the print of the rest |
| `DnTs.NameRoundTrip` | frontend/src/dn.ts:20-23 | for every attribute type the console shows the value that was printed, exactly when the type is all letters and the value holds no control character |
| `DnTs.AtOrBelowIsSuffix` | frontend/src/dn.ts:37-44 | the string suffix test is containment of the component lists; no escaped comma fools it |
| `DnTs.BelowNothing` | frontend/src/dn.ts:37-44 | with an empty ancestor the test is about the last character of the text instead |
| `DnTs.RelocateFollowsRename` | frontend/src/dn.ts:56-60 | relocate sends every name at or below a renamed object to the name the tree rename gives it, and leaves all others alone |
| `DnTs.RelocateAfterDelete` | frontend/src/dn.ts:56-60 | after a deletion a position at or below the object goes to its parent, any other stays |
| `Positions.ConsoleFollowsRename` | frontend/src/dn.ts:56-60 | after any rename the server makes, each object stands in the directory at the place whose text relocate computes from its old text, with its attributes |
| `WriteGuard.ComputeDnKey` | backend/samadcon/ad/write_guard.py:48-56 | the loop that splits and compares gives the key that `WriteGuard.KeyOfPrinted` ties to the name |
| `WriteGuard.KeyOfPrinted` | backend/samadcon/ad/write_guard.py:39-56 | the key computed from a printed name is the list of its components, compared without case, spaces around a value kept when escaped |
| `WriteGuard.RdnKeyIff` | backend/samadcon/ad/write_guard.py:39-45 | two components have one key exactly when they are equal without case |
| `WriteGuard.NameKeySuffix` | backend/samadcon/ad/write_guard.py:59-60 | the guard's containment of keys is containment of names |
| `WriteGuard.ProtectingOu` | backend/samadcon/ad/write_guard.py:63-69 | an OU is returned exactly when a configured one is the object or holds it, and it is such a one |
| `WriteGuard.ProtectedBelow` | backend/samadcon/ad/write_guard.py:72-84 | an OU is returned exactly when a configured one lies strictly below |
| `WriteGuard.GuardAgreesWithConsole` | backend/samadcon/ad/write_guard.py:63-69 | server guard and console answer the containment question alike |
| `ReservedRules.AddressIff` | backend/samadcon/ad/write_guard.py:88-117 | a mail address or user principal name is reserved exactly when a prefix starts, or a name equals, the part before "@" in lower case, or a name with "@" equals all of it |
| `ReservedRules.AccountIff` | backend/samadcon/ad/write_guard.py:109-117 | an account name likewise, without the one "$" it may end in |
| `ReservedRules.DollarDoesNotShow` | backend/samadcon/ad/write_guard.py:110-111 | a computer's name with and without its "$" is reserved alike |
| `ReservedRules.ProxyIff` | backend/samadcon/ad/write_guard.py:104-117 | a proxy address is reserved exactly when its type is SMTP in any case and a rule names its address |
| `ReservedRules.ProxyIsMail` | backend/samadcon/ad/write_guard.py:104-117 | behind "smtp:" in any case an address is reserved exactly when it is in mail |
| `ReservedRules.UntypedProxy` | backend/samadcon/ad/write_guard.py:105-107 | a proxy address without a type never is |
| `ReservedRules.OtherAttributes` | backend/samadcon/ad/write_guard.py:100-102 | a value of any other attribute never is |
| `ReservedRules.PrefixedProxy` | backend/samadcon/ad/write_guard.py:88-117 | for instance any "SMTP:havora-..." under the prefix "havora-" |
| `Connection.DirectoryConnection.CheckReserved` | backend/samadcon/ad/connection.py:317-357 | all hits of an attribute first, then without the values the object has: the refusal is that of the first reserved value the object does not have |
| `Connection.DirectoryConnection.Add` | backend/samadcon/ad/connection.py:259-265 | guards in order, then the write: new tree and answer are the specified step's |
| `Connection.DirectoryConnection.Modify` | backend/samadcon/ad/connection.py:267-276 | as above, with the reserved check against the stored values |
| `Connection.DirectoryConnection.Delete` | backend/samadcon/ad/connection.py:278-286 | as above; only a recursive deletion looks below the object |
| `Connection.DirectoryConnection.Rename` | backend/samadcon/ad/connection.py:288-295 | as above; old place, new place and the subtree are checked |
| `WriteAnswers.AddIff` | backend/samadcon/ad/connection.py:259-265 | an object is added exactly outside the protected OUs, without a reserved value, under a free name whose parent exists, unless the server refuses |
| `WriteAnswers.ModifyIff` | backend/samadcon/ad/connection.py:267-276 | modified exactly outside the protected OUs, when it exists and gets no reserved value it does not have |
| `WriteAnswers.DeleteIff` | backend/samadcon/ad/connection.py:278-286 | deleted exactly outside the protected OUs: alone when nothing lies below it, with its subtree when no protected OU does |
| `WriteAnswers.RenameIff` | backend/samadcon/ad/connection.py:288-295 | renamed exactly when neither place is protected, no protected OU lies below, the name is free and the new parent stands outside the subtree |
| `Connection.StepKeepsProtected` | backend/samadcon/ad/connection.py:259-315 | one write of any kind, let through or not, leaves every object at or below a protected OU under its DN and with its attributes, and the tree well formed |
| `Connection.RunKeepsProtected` | backend/samadcon/ad/connection.py:259-315 | the same over every run of writes, whatever the server refuses on top; renames of other subtrees onto an ancestor's name included |
| `Directory.ParentClosedHasNoGaps` | backend/samadcon/ad/connection.py:259-295 | a tree in which every object but the naming contexts has its parent meets the invariant the runs start from |
| `Directory.RenameKeeps` | backend/samadcon/ad/connection.py:288-295 | a subtree rename (RFC 4511 section 4.9) keeps the tree well formed |
| `Directory.DeleteKeeps` | backend/samadcon/ad/connection.py:278-286 | so does a deletion (RFC 4511 section 4.8), of a leaf or of a subtree |
| `ReservedNames.RunOrigins` | backend/samadcon/ad/connection.py:259-295 | over any run each object that was not added in it stood, traced back through the renames, at one place of the starting tree, and no two at the same |
| `ReservedNames.RunGivesNothing` | backend/samadcon/ad/connection.py:317-357 | over any run an object holds a reserved value at the end only if that very object, traced back through the renames, held it at the start; an added one never does |
| `ReservedNames.HoldersNeverGrow` | backend/samadcon/ad/connection.py:317-357 | so the number of objects that hold a reserved value never grows |
| `AttributeEdits.PlanChanges` | backend/samadcon/ad/connection.py:374-394 | the loop that fills message and report gives the specified plan |
| `AttributeEdits.PlanEffect` | backend/samadcon/ad/connection.py:374-394 | applied, the message gives every named attribute the values asked for and leaves the others |
| `AttributeEdits.ReportSays` | backend/samadcon/ad/connection.py:374-394 | the report names exactly the attributes whose values change, with the values they had |
| `AttributeEdits.SecondEditIsEmpty` | backend/samadcon/ad/connection.py:389-390 | the same edit a second time has nothing to write and nothing to report |
| `AttributeEdits.UndoRestores` | backend/samadcon/ad/connection.py:372-394 | writing the reported old values back restores the object exactly when the edit changes no attribute that stores a single empty text |
| `Connection.DirectoryConnection.ModifyAttributes` | backend/samadcon/ad/connection.py:359-399 | the edit of one object: not found, refused, empty report without a write, or report and write |
| `Connection.EditChangesWhatItReports` | backend/samadcon/ad/connection.py:359-399 | only the object is touched, and on it exactly the reported attributes change |
| `Connection.EditTwice` | backend/samadcon/ad/connection.py:359-399 | a second identical call leaves the tree and returns an empty report |
| `Connection.EditedIff` | backend/samadcon/ad/connection.py:359-399 | an edit of an existing object goes through exactly when it changes nothing, or the object is not protected and gets no reserved value it does not have |
| `Connection.EditUndo` | backend/samadcon/ad/connection.py:317-399 | the undo call, with the reported old values, is refused exactly when it would give back a reserved value the edit took away; the tree is restored exactly when it is not refused and the edit changed no attribute that stores a single empty text |
| `Connection.ReservedUndoRefused` | backend/samadcon/ad/connection.py:343-346 | such an edit, on any tree with an object whose mail address is reserved |
| `NestedGroups.ExpandNested` | backend/samadcon/ad/groups.py:390-423 | the loop over an explicit stack terminates on any graph, cycles included, and returns the recursive preorder walk's list |
| `NestedGroups.GroupIff` | backend/samadcon/ad/groups.py:416-418 | exactly the objects with the class "group", in any case, are opened |
| `NestedGroups.WalkOnce` | backend/samadcon/ad/groups.py:398-408 | no object is collected twice, in any spelling |
| `NestedGroups.WalkReaches` | backend/samadcon/ad/groups.py:398-423 | every collected object is reachable from the input |
| `NestedGroups.ExpandReaches` | backend/samadcon/ad/groups.py:390-423 | where no chain of memberships through different names is longer than the depth limit allows, exactly the reachable objects are collected; on any graph each collected object lies within the limit of the input |
| `NestedGroups.ExpandExact` | backend/samadcon/ad/groups.py:390-423 | the step to it, on any graph: all reachable objects are collected exactly when the members of objects met at the depth limit were collected anyway |
| `NestedGroups.NearObjectMissed` | backend/samadcon/ad/groups.py:410-411 | a group first met at the depth limit is never opened again, so an object two steps from the input can be missed |
| `RateLimit.RateLimiter.Check` | backend/samadcon/core/ratelimit.py:25-54 | bucket, refusal and pruning are those of the specified step, for any limit; the waiting time counts from the oldest event |
| `RateLimit.NothingAccepted` | backend/samadcon/core/ratelimit.py:32-33 | a limit of zero or less accepts nothing, and every attempt fails looking for an oldest event |
| `RateLimit.WindowBound` | backend/samadcon/core/ratelimit.py:25-54 | over any run no half-open window holds more than `max_events` accepted events of a key, pruning or not |
| `RateLimit.RefusedOnlyWhenFull` | backend/samadcon/core/ratelimit.py:32-39 | a refusal means `max_events` accepted events in the closed window |
| `RateLimit.WaitingHelps` | backend/samadcon/core/ratelimit.py:33-39 | after the reported wait without another attempt on that key the next attempt is accepted, whatever other keys did |
| `RateLimit.ShorterWaitRefused` | backend/samadcon/core/ratelimit.py:33-39 | whoever comes back before the reported second but one is refused again, whatever other keys did |
| `RateLimit.PruningUnobservable` | backend/samadcon/core/ratelimit.py:46-54 | over any run in which no attempt comes exactly one window after an earlier one on its key, every answer is that of a limiter that never prunes |
| `RateLimit.PruningShows` | backend/samadcon/core/ratelimit.py:46-54 | for every limit and window a run in which the two answer differently: a full key, one window later 1024 other keys, and the key again |
| `LoginThrottle.Throttle.Check` | backend/samadcon/auth/session.py:191-215 | the loop over account and address: expired entries go, the first blocking one gives the wait |
| `LoginThrottle.Throttle.RecordFailure` | backend/samadcon/auth/session.py:217-227 | both counters go up, from zero after a lockout; then the table is pruned when it is large |
| `LoginThrottle.Throttle.Prune` | backend/samadcon/auth/session.py:229-243 | exactly the expired entries go, and only from a large table |
| `LoginThrottle.Throttle.RecordSuccess` | backend/samadcon/auth/session.py:245-248 | both counters are forgotten |
| `LoginThrottle.CounterBound` | backend/samadcon/auth/session.py:191-227 | with check and record as separate steps and at most K sign-ins of a key in flight, its counter never exceeds `max_attempts` + K - 1 |
| `LoginThrottle.SequentialBound` | backend/samadcon/auth/session.py:191-248 | one sign-in after the other, no interval of the lockout's length holds more than `max_attempts` failures of a key without a success between them |
| `LoginThrottle.PruningUnobservable` | backend/samadcon/auth/session.py:229-243 | over any run every answer equals that of a throttle that never prunes |
| `ThrottleExact.BlocksIff` | backend/samadcon/auth/session.py:185-243 | over a run in time order a check blocks exactly when throttling is on and the account or the address has `max_attempts` failures since its last success, no two in a row further apart than the lockout and the last within it; the lockout ends in the second after the wait, or within one second of it when the wait is the least one |
| `ThrottleExact.KeyIff` | backend/samadcon/auth/session.py:185-189 | a sign-in counts for its account, in any case, and for its address |
| `DnsRecords.EncodedMatches` | backend/samadcon/ad/dnsrecords.py:454-507 | a record just packed matches the validated data it was packed from |
| `DnsMatching.MatchesIff` | backend/samadcon/ad/dnsrecords.py:449-507 | any record matches exactly the data of its kind whose every field stands in it and agrees: one address, one name without case and trailing dot, one number, or the same value |
| `DnsMatching.CreateTouches` | backend/samadcon/ad/dns.py:286-341 | valid data is refused as a duplicate exactly when it describes a record of the node; otherwise the record is added behind the others, with the TTL given or 900 |
| `DnsMatching.UpdateTouches` | backend/samadcon/ad/dns.py:344-410 | an update replaces the first record that the old data describes, and is refused exactly when it describes none |
| `DnsMatching.DeleteTouches` | backend/samadcon/ad/dns.py:413-472 | a deletion takes out the first record that the data describes and leaves the others; it is refused exactly when the data describes none |
| `DnsMatching.TheOtherAddress` | backend/samadcon/ad/dns.py:451-460 | of two addresses of a name exactly the one that is named goes |
| `DnsMatching.AddBeside` | backend/samadcon/ad/dns.py:306-316 | a second address is added beside the first |
| `DnsZone.DnsZoneEditor.AdvanceZoneSerial` | backend/samadcon/ad/dns.py:243-283 | the first readable SOA is bumped, unreadable values and later SOAs stay; 1 without one |
| `DnsZone.DnsZoneEditor.Create` | backend/samadcon/ad/dns.py:286-341 | two reads around the serial bump give the specified zone and outcome |
| `DnsZone.DnsZoneEditor.Update` | backend/samadcon/ad/dns.py:344-410 | the loop with its flag replaces as specified |
| `DnsZone.DnsZoneEditor.Delete` | backend/samadcon/ad/dns.py:413-472 | the loop with its flag removes as specified, and the node with its last value |
| `DnsZone.AdvanceExact` | backend/samadcon/ad/dns.py:243-283 | the bump changes the serial of one value of the apex and nothing else |
| `DnsZone.UpdateExact` | backend/samadcon/ad/dns.py:344-410 | an update replaces exactly the first matching value; all others stay byte for byte, at the apex but for the serial |
| `DnsZone.DeleteExact` | backend/samadcon/ad/dns.py:413-472 | for any type and data: a deletion takes out exactly the first match after the bump, or nothing changes; it does not find the record any more exactly when the data names the SOA by its old serial and matches no other value of the apex |
| `DnsZone.SoaTaken` | backend/samadcon/ad/dns.py:413-472 | when a deletion takes the SOA: its data fits it, with no serial or with the next one and another match to start from, and no earlier value matches |
| `DnsZone.ApexTaken` | backend/samadcon/ad/dns.py:466-470 | when a deletion takes the apex: its only value is an SOA that the data matches without naming a serial |
| `DnsRuns.RunIsGood` | backend/samadcon/ad/dns.py:243-472 | over any run of editable records the serial equals its start plus the successes, everything written carries a serial no greater than the SOA's, no name is left empty, the apex stays, and the second "not found" never happens |
| `DnsRuns.RefusedChangesNothing` | backend/samadcon/ad/dns.py:286-472 | a refused operation of any type leaves the zone as it was, serial included, exactly when it is not the deletion named above |
| `DnsRuns.DeletingSoaVanishes` | backend/samadcon/ad/dns.py:441-455 | asked to delete the SOA by all that was read from it, the code raises the serial and then does not find the record |
| `DnsRuns.DeletingSoaSucceeds` | backend/samadcon/ad/dns.py:441-470 | asked the same without the serial, it deletes the SOA, and the apex with it when that was its only value |
| `DnsRuns.CreateThenDelete` | backend/samadcon/ad/dns.py:286-472 | create then delete restores the zone but for the serial exactly when the node had not existed empty |
| `Cse.AddExtension` | backend/samadcon/gpo/cse.py:151-165 | the search for the group and the appended tools give the specified text |
| `Cse.RemoveOneTool` | backend/samadcon/gpo/cse.py:179-197 | the loop over the groups drops the tool, and a group left without any |
| `Cse.RegisterPairs` | backend/samadcon/gpo/cse.py:315-335 | the fold over the pairs, adding or removing |
| `CsePairs.AddPairsEverything` | backend/samadcon/gpo/cse.py:331-333 | after adding pairs an extension has what it had and the tools the pairs name for it, nothing else |
| `CsePairs.PairsAreRegistered` | backend/samadcon/gpo/cse.py:331-333 | each pair that was added is read back: its tool behind its extension in one group |
| `Cse.ParseIsText` | backend/samadcon/gpo/cse.py:125-133 | whatever the text, the groups read from it can be written |
| `CseLaws.ParseRender` | backend/samadcon/gpo/cse.py:125-148 | reading what was rendered gives the groups ascending by extension, tools ascending inside |
| `CseLaws.NormaliseIdempotent` | backend/samadcon/gpo/cse.py:125-148 | normalising any text twice is normalising it once |
| `CseLaws.AddRegisters` | backend/samadcon/gpo/cse.py:151-165 | adding a tool changes the groups of its extension and no others |
| `CseLaws.AddIdempotent` | backend/samadcon/gpo/cse.py:151-165 | adding a tool twice is adding it once, as text |
| `CseLaws.AddCommutes` | backend/samadcon/gpo/cse.py:151-165 | two additions commute as text, exactly outside one case: a new extension, and one of the two tools is the extension's own GUID |
| `CseRemoval.RemoveRegisters` | backend/samadcon/gpo/cse.py:179-197 | taking a tool out changes the groups of its extension and no others |
| `CseRemoval.AddThenRemove` | backend/samadcon/gpo/cse.py:331-333 | adding unregistered pairs and taking them out again gives the canonical original, exactly when no group of their extensions is without tools |
| `AuditCsv.Settings` | backend/samadcon/gpo/audit_csv.py:237-248 | the loop finds for each subcategory the value of the last row that names it with a number |
| `AuditCsv.Apply` | backend/samadcon/gpo/audit_csv.py:279-304 | there is no error exactly when every change names a known subcategory and gives None or 0 to 3, and else it is the first fault; without one the settings are the old ones with the last change for each GUID, in any case and with white space around it, and the rows no change names stay in order |
| `AuditCsv.NamedRowsSay` | backend/samadcon/gpo/audit_csv.py:279-304 | afterwards every row of a named subcategory says the value asked for, as a number and as text in the language of the file, and none is left of one to be removed |
| `AuditCsv.RowGuidIff` | backend/samadcon/gpo/audit_csv.py:251-256 | a row names a subcategory by its GUID in braces, in any case, with white space around it |
| `AuditCsv.RewriteRows` | backend/samadcon/gpo/audit_csv.py:287-296 | rows of mentioned subcategories are rewritten or dropped in place, all others passed on |
| `AuditCsv.AppendRows` | backend/samadcon/gpo/audit_csv.py:298-302 | what found no row is appended in catalogue order |
| `AuditCsv.CheckAllIs` | backend/samadcon/gpo/audit_csv.py:322-342 | the check passes exactly when every change is acceptable, and collects for each GUID the value of its last change |
| `AuditCsv.AppliedSettings` | backend/samadcon/gpo/audit_csv.py:237-304 | the settings afterwards are the old ones overridden by the changes, None removing, also with duplicate or unreadable rows |
| `AuditCsv.AppliedKeepsOthers` | backend/samadcon/gpo/audit_csv.py:287-296 | every row of an unmentioned subcategory, option or SACL stays unchanged and in order |
| `AuditCsv.AppliedTwice` | backend/samadcon/gpo/audit_csv.py:279-304 | applying the same changes twice is applying them once, row for row |
| `Folders.ReadSections` | backend/samadcon/gpo/folders.py:149-167 | the loop over the lines: comments, section lines, pairs, the later of two keys counts |
| `Folders.ParseText` | backend/samadcon/gpo/folders.py:88-146 | header, version and pair sections are collected as specified, the folders sorted |
| `Folders.RenderText` | backend/samadcon/gpo/folders.py:197-231 | the lines written, folders without targets left out |
| `Folders.SetTargetText` | backend/samadcon/gpo/folders.py:234-271 | the edit of one pair of the parsed file, and its text |
| `FolderLines.TidySections` | backend/samadcon/gpo/folders.py:149-167 | whatever the file, every section and pair read from it can be written and read back |
| `FolderWrites.SectionsWritten` | backend/samadcon/gpo/folders.py:197-231 | a written file reads as its version, its header and one section for each pair, with the pair's entries |
| `FolderLaws.ParsedTargets` | backend/samadcon/gpo/folders.py:115-146 | the redirections of a folder are what its pair sections say, in their order; the header adds none |
| `FolderLaws.TrusteesAre` | backend/samadcon/gpo/folders.py:108-113 | the groups of a header entry are its non-empty parts between semicolons |
| `FolderRoundTrip.ParseRender` | backend/samadcon/gpo/folders.py:88-231 | parsing what was rendered: the version, the folders with targets sorted by GUID, their groups as trustees, default flags filled in, nothing left over |
| `FolderMap.SetTargetExact` | backend/samadcon/gpo/folders.py:234-271 | folder by folder the edited file redirects the old file's pairs with the one set or removed, exactly when the old file names no other pair in two sections |
| `FolderMap.SetTargetMap` | backend/samadcon/gpo/folders.py:234-271 | as a map from (folder, lower-case group) the new file is the old one with that one pair set or removed; an edited pair keeps its options |
| `FolderMap.CanonKeeps` | backend/samadcon/gpo/folders.py:219-228 | a target written and read keeps path, group and options; only missing flags are filled in |
| `FolderMap.SetTargetKeepsVersion` | backend/samadcon/gpo/folders.py:274-278 | the version survives any edit, with 100 for a file without one |
| `FolderRoundTrip.HeaderAgrees` | backend/samadcon/gpo/folders.py:213-228 | after an edit each folder of the header has exactly the groups its sections have, and no section is left over |
| `FolderRoundTrip.MergedSections` | backend/samadcon/gpo/folders.py:115-146 | a file with two spellings of one pair, for which editing any other folder merges them |
| `Sddl.SplitText` | backend/samadcon/ad/sacl.py:245-271 | the cursor loop and the search give prefix, entries and suffix as specified |
| `Sddl.SplitHasShape` | backend/samadcon/ad/sacl.py:245-271 | whatever is split, the prefix ends at the first entry, the entries are entries and the suffix is a SACL |
| `Sddl.SplitWhole` | backend/samadcon/ad/sacl.py:245-271 | joined parts split into themselves: owner, group, flags and SACL come back verbatim |
| `Sddl.WholeSplit` | backend/samadcon/ad/sacl.py:241-271 | splitting and joining gives the same text exactly when the DACL's body is nothing but entries without inner closing parentheses |
| `Sddl.ConditionalLosesItsEnd` | backend/samadcon/ad/sacl.py:241-271 | a text with a conditional entry, which comes back without its last parenthesis |
| `DeleteProtection.CheckProtected` | backend/samadcon/ad/sacl.py:113-119 | the loop over the matches that do not overlap |
| `ProtectionState.CoversIff` | backend/samadcon/ad/sacl.py:29-29 | an entry protects exactly when it is a plain deny for Everyone, on no object type, whose rights in capitals hold both SD and DT |
| `DeleteProtection.ProtectedIff` | backend/samadcon/ad/sacl.py:113-119 | the scan says protected exactly when a covering entry stands anywhere in the text |
| `DeleteProtection.InsertAce` | backend/samadcon/ad/sacl.py:144-156 | the insertion behind the DACL flags |
| `DeleteProtection.SettingProtects` | backend/samadcon/ad/sacl.py:122-156 | after setting, any text is protected |
| `DeleteProtection.SetThenClear` | backend/samadcon/ad/sacl.py:122-156 | on an unprotected text setting and clearing gives back the exact text, exactly when it has a DACL |
| `ProtectionEntries.ClearEntries` | backend/samadcon/ad/sacl.py:113-141 | on a descriptor made of entries: protected exactly when an entry covers, and clearing takes out those entries and nothing else |
| `ProtectionEntries.ClearingUnprotects` | backend/samadcon/ad/sacl.py:134-141 | after clearing, such a descriptor is not protected |
| `ProtectionState.ProtectionIsAsAsked` | backend/samadcon/ad/sacl.py:122-141 | on a descriptor made of entries the state afterwards is the one asked for |
| `ProtectionState.ProtectionStandsFirst` | backend/samadcon/ad/sacl.py:144-156 | the entry put in is the first of the DACL, with prefix, other entries and suffix as they were |
| `ProtectionState.ClearingCanJoin` | backend/samadcon/ad/sacl.py:134-141 | a text without that form that is still protected after clearing |
| `AceMeaning.NormalMaskOf` | backend/samadcon/ad/sacl.py:569-586 | the loop that ORs the right letters, with its number and text cases |
| `AceMeaning.SameAceIsEquivalence` | backend/samadcon/ad/sacl.py:606-629 | being the same entry is an equivalence, entries that cannot be taken apart included |
| `AceDifference.SameIff` | backend/samadcon/ad/sacl.py:606-629 | two entries are the same exactly when the types agree without case, the flags are one set, the masks one number, both GUIDs agree without case and braces, and the trustees are one SID |
| `AceDifference.MaskIff` | backend/samadcon/ad/sacl.py:569-586 | a rights field is read as a number exactly when it is empty, a numeral, or right letters, and then as that number or the union of their bits |
| `AceDifference.InheritedIff` | backend/samadcon/ad/sacl.py:453-465 | an entry is inherited exactly when "ID" is one of its flag pairs |
| `AceSpelling.ParsePrint` | backend/samadcon/ad/sacl.py:302-306 | an entry assembled from six fields is taken apart into them |
| `AceSpelling.HexRoundTrip` | backend/samadcon/ad/sacl.py:569-577 | a mask written as eight or more hex digits is read as its number |
| `AceSpelling.LettersMask` | backend/samadcon/ad/sacl.py:578-586 | right letters are read as the union of their bits |
| `AceSpelling.OrderDoesNotShow` | backend/samadcon/ad/sacl.py:580-586 | order, repetition and case of the letters do not show in the mask |
| `AceSpelling.TrusteeIs` | backend/samadcon/ad/sacl.py:589-599 | an alias, well known or of the domain, and the full SID in any case are one trustee |
| `AceSpelling.GuidSpellings` | backend/samadcon/ad/sacl.py:602-603 | a GUID in any case, with or without braces, is one GUID |
| `AceSpelling.BuiltIsAnySpelling` | backend/samadcon/ad/sacl.py:274-306 | what build_ace assembles is the same entry as any spelling of its rights, GUIDs and trustee |
| `AclEditing.ChangeIsOneByOne` | backend/samadcon/ad/sacl.py:412-434 | the batch succeeds exactly when its positions exist and removing from the highest down, then adding one by one, succeeds, with the same list |
| `AclLaws.ChangeConserves` | backend/samadcon/ad/sacl.py:417-434 | result plus removed is the old list plus the added, as multisets |
| `AclLaws.ChangeKeepsOrder` | backend/samadcon/ad/sacl.py:419-419 | the kept entries stand in the result in their old order |
| `AclLaws.ChangeDeniesFirst` | backend/samadcon/ad/sacl.py:425-433 | every added deny stands before every allow |
| `AclLaws.ChangeKeepsCanonical` | backend/samadcon/ad/sacl.py:425-433 | a list without a deny after an allow stays one |
| `AclLaws.ChangeKeepsDifferent` | backend/samadcon/ad/sacl.py:422-424 | entries that pairwise differ in meaning still do |
| `AclLaws.ChangeSucceedsIff` | backend/samadcon/ad/sacl.py:400-434 | the batch is refused exactly for a position that cannot be removed or an added entry that means what a kept or earlier added one does |
| `AclDifference.AddRefusedIff` | backend/samadcon/ad/sacl.py:327-333 | an addition is refused as already there exactly when some entry agrees with it in all six fields; one for another object GUID is no reason |
| `AclDifference.BuiltIsDeny` | backend/samadcon/ad/sacl.py:290-306 | what build_ace assembles with `deny` is placed as a deny, and as an allow without |
| `AclDifference.BuiltDenyBeforeAllows` | backend/samadcon/ad/sacl.py:425-433 | an added entry that was assembled with `deny` stands before every allow |
| `SecuredObjects.SecuredObject.AddAce` | backend/samadcon/ad/sacl.py:309-339 | all or nothing: the specified text is stored, or the refusal is returned and nothing changed |
| `SecuredObjects.SecuredObject.RemoveAce` | backend/samadcon/ad/sacl.py:342-373 | the same for a removal, which refuses inherited and missing entries |
| `SecuredObjects.SecuredObject.ChangeAcl` | backend/samadcon/ad/sacl.py:376-436 | the same for the batch: one check of the expected text, one write |
| `SecuredObjects.SecuredObject.SetDeleteProtection` | backend/samadcon/ad/sacl.py:122-141 | nothing is written when the state is already as asked; asked to protect, the text left behind is protected |
| `SecuredText.ChangeKeepsTheRest` | backend/samadcon/ad/sacl.py:431-435 | after a batch the stored text splits into the changed entries between the old prefix and suffix |
| `SecuredText.ChangeIsManyCalls` | backend/samadcon/ad/sacl.py:376-436 | the stored text is the one that single calls to remove_ace and add_ace would have left |
| `SecuredText.BuiltIsEntry` | backend/samadcon/ad/sacl.py:274-306 | what build_ace assembles is found again as one entry |
| `CannotChange.SetCannotChange` | backend/samadcon/ad/users.py:965-999 | the option set or cleared is read back, the list holds the two entries of the right, every other entry is as it was in order, and doing it again changes nothing |
| `AclDifference.OptionIff` | backend/samadcon/ad/users.py:948-963 | an entry counts for the option exactly when it is an object allow or deny of the change-password right alone, without flags, on the object itself, for SELF or Everyone |
| `AclDifference.CannotChangeIff` | backend/samadcon/ad/users.py:966-972 | the option is read as set exactly when such a deny is in the list |
| `AclDifference.OthersStay` | backend/samadcon/ad/users.py:991-999 | every other entry stands in the list as often as before, one for another object GUID included |
| `AclDifference.SendAsStays` | backend/samadcon/ad/users.py:991-999 | for instance SELF's right to send as itself |
| `CannotChange.OnceEach` | backend/samadcon/ad/users.py:985-991 | also in the unchanged branch each of the two entries stands exactly once and no third one |
| `CannotChange.Placement` | backend/samadcon/ad/users.py:993-999 | a rewrite puts denies before every allow and allows before every inherited entry |
| `CannotChange.RefusedIff` | backend/samadcon/ad/users.py:997-998 | clearing is refused exactly when an entry that cannot be taken apart stands before every inherited one |
| `CannotChange.UnreadableRefused` | backend/samadcon/ad/users.py:997-998 | such a list: an entry that cannot be taken apart, alone, for instance "()" |
| `SecuredObjects.SecuredObject.SetCannotChangePassword` | backend/samadcon/ad/users.py:1023-1033 | nothing is written when the list already says it; with "must change" setting is refused |
| `SecuredText.OptionReadsBack` | backend/samadcon/ad/users.py:1002-1033 | the option is read back from the stored text, prefix and suffix are as they were, a second call writes nothing |

## Left out

- Text: strings are sequences of characters with ASCII case mapping; non-ASCII case folding, digits other than 0 to 9 and UTF-16 code units are not modelled.
- Values.SplitPrinted: hexadecimal respellings of a name (such as `\2C` for a comma) are other names here, as they are for the code's own comparison.
- Connection.DirectoryConnection.Modify: an element's values are applied as a list; schema rules, duplicate values within a message and the naming attribute the server rewrites on a rename are the server's and appear only as a possible refusal.
- AttributeEdits.PlanEffect: a dictionary that names one attribute in two letter cases is excluded (`Distinct`), here and in AttributeEdits.ReportSays, AttributeEdits.SecondEditIsEmpty, AttributeEdits.UndoRestores, Connection.EditChangesWhatItReports, Connection.EditTwice and Connection.EditUndo; the code accepts one, and which of the two elements the message then keeps is up to the ldb library.
- Connection.DirectoryConnection.Delete: the controls and error translation around the server calls are not modelled.
- Directory.RenameKeeps: moving between naming contexts is not modelled.
- RateLimit.RateLimiter.Check: time is a real number from a clock that does not go back, and `reset` is not modelled.
- RateLimit.PruningUnobservable: the condition is sufficient only; with an attempt exactly at the edge it depends on the number of keys at that moment whether an answer changes, as in `RateLimit.PruningShows`.
- NestedGroups.ExpandReaches: short chains are sufficient only; with a longer one the order of members decides what is met first, and `NestedGroups.ExpandExact` and `NestedGroups.NearObjectMissed` say what then is missed.
- LoginThrottle.Throttle.Check: time is whole microseconds; the wait in seconds is rounded as the code rounds it, from them.
- DnsRecords.EncodedMatches: packing a record is a constructor, so packing and unpacking are inverse; validation and address parsing are functions with the properties stated in `DnsRecords.Lawful`.
- DnsRuns.RunIsGood: one writer, a serial below 2^32 and the editable record types are preconditions; a failing write between the bump and the record is not modelled.
- DnsMatching.MatchesIff: the record type arrives stripped and in capitals, as every operation makes it first.
- DnsZone.DnsZoneEditor.Create: the mapping from names to nodes (`relative_name`, `node_dn`) is not modelled; nodes are keys.
- AuditCsv.Apply: CSV quoting is not modelled; a file is its rows.
- Folders.ParseText: the byte order mark and UTF-16 encoding are not modelled; a file is its text.
- FolderRoundTrip.ParseRender: sections kept under `other` on reading are not written by the code, so they are not part of the round trip; a header entry with "=" in the folder's name or ";" in a group's is read differently, so the header part is for names without them.
- Cse.RegisterPairs: reading and writing the attribute and the version of the policy are not modelled.
- SecuredObjects.SecuredObject.ChangeAcl: the server stores the text as written; Samba's own respelling of a stored descriptor shows only through entries compared by meaning.
- ProtectionEntries.ClearEntries: it is about descriptors whose entries have a field after the flags and no inner parentheses; for any other text `DeleteProtection.ProtectedIff` and `DeleteProtection.SetThenClear` hold.
- AceSpelling.BuiltIsAnySpelling: file and registry right letters are unknown to the code too; a mask with one of them is compared as text.
- The NDR structures, LDAP, Kerberos, SMB, the SYSVOL share, routes, translations and logging are not modelled.
- Reading ACLs with names resolved, findings rules, flag tables, functional levels and site validation are short case splits and are not modelled.
