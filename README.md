# Event editor: access policies and scheduling conflicts

This project models the core of the event editor's controller in the Opencast admin UI (`eventController.js`). It covers two concerns.

**Access control.** An event's access-control list is persisted as a flat list of access entries `{role, action, allow}`. The editor shows the list as one policy per role, `{role, read, write, actions}`.
- `changePolicies` folds an entry list into policies.
- `accessSave` unfolds the policies into an entry list. It sets the two warning flags `hasRights` and `unvalidRule`. It sends the list to be persisted only when some policy grants both read and write and the rule check passes.
- `addPolicy` appends an empty row.
- `deletePolicy` removes the last row with the target's role, read and write, then runs `accessSave`, which sends the list only under the condition above.

**Scheduling.**
- `readyToPollConflicts` says whether the source has a start date and a capture device.
- `checkConflicts` asks the conflict-check service.
- `noConflictsDetected` empties the conflict list.
- `conflictsDetected` lists the conflicts of a 409 response. Each start has its first six characters removed and each end its first five, and both are then localised.
- On success, `saveScheduling` assigns the capture agent and rebuilds the comma-separated device-name list from the selected input methods.

Files:
- `optional.dfy` — `Option`, which stands for JavaScript's `undefined` next to a defined value.
- `acl_policies.dfy` (module `AclPolicies`) — values and reference functions:
  - `Fold`, the policies `changePolicies` builds;
  - `Summary`, a role-by-role description of `Fold`;
  - `Emit`, the entry list `accessSave` builds;
  - `HasRights` and `LastRuleValid`, the two flags;
  - `RemoveLastMatch`, what `deletePolicy` leaves;
  - the lemmas relating these functions.
- `scheduling.dfy` (module `Scheduling`):
  - the conflict records;
  - the device-name list;
  - the `SchedulingSource` class, whose agent fields a successful save updates in place.
- `event_controller.dfy` (module `EventController`) — the class `EventCtrl`, holding the controller's state. Its methods update that state in place, with the same loops as the source. Each method is proved against the reference functions.

JavaScript values are modelled as follows:
- An `allow` value may be a boolean or a string (`Allow`).
- `read` and `write` are tested for truthiness (`Truthy`).
- Custom actions are kept only when `allow === true || allow === 'true'` (`Granted`).
- `deletePolicy` compares with strict equality, which is datatype equality here.
- A policy's `actions.value` array is the sequence `actions`.

Calls to services are recorded in fields instead of being performed:
- `aclSaves` holds every entry list sent to `EventAccessResource.save`.
- `conflictChecks` counts the calls to `ConflictCheckResource.check`.

The answer of the conflict check (`CheckOutcome`) and the localisation function `Language.toLocalTime` are parameters.

## Model

Paths are relative to the repository root.

| member | source | states |
|---|---|---|
| AclPolicies.CreatePolicy | modules/matterhorn-admin-ui-ng/src/main/webapp/scripts/modules/events/controllers/eventController.js:44-54 | a fresh policy has the given role, no custom action, read and write both `false`, and is not a valid rule |
| AclPolicies.ApplyEntry | modules/matterhorn-admin-ui-ng/src/main/webapp/scripts/modules/events/controllers/eventController.js:164-168 | applying an entry to a policy never changes the policy's role |
| AclPolicies.IndexOfRole | modules/matterhorn-admin-ui-ng/src/main/webapp/scripts/modules/events/controllers/eventController.js:159-163 | the dictionary lookup by role: the index found holds that role and no earlier policy does; when none is found no policy has the role |
| AclPolicies.LastAllowIsLastWrite | modules/matterhorn-admin-ui-ng/src/main/webapp/scripts/modules/events/controllers/eventController.js:164-165 | a role's read (or write) is the `allow` of the last entry naming that role and action, and `false` when no entry does |
| AclPolicies.GrantedActions | modules/matterhorn-admin-ui-ng/src/main/webapp/scripts/modules/events/controllers/eventController.js:166-167 | the custom actions collected for a role are never `read` or `write` |
| AclPolicies.FirstSeenDedups | modules/matterhorn-admin-ui-ng/src/main/webapp/scripts/modules/events/controllers/eventController.js:171-174 | the key order of the dictionary: every role occurs once, in first-occurrence order, and no other role occurs |
| AclPolicies.Fold | modules/matterhorn-admin-ui-ng/src/main/webapp/scripts/modules/events/controllers/eventController.js:156-174 | the policies `changePolicies` builds: one per role in first-seen order, each entry applied to its role's policy (definition; its properties are the two rows below) |
| AclPolicies.FoldSummarisesEntries | modules/matterhorn-admin-ui-ng/src/main/webapp/scripts/modules/events/controllers/eventController.js:156-174 | the rebuilt list has one policy per distinct role in first-seen order; each holds the last read and write `allow` for its role and its granted custom actions in entry order |
| AclPolicies.FoldOnePolicyPerRole | modules/matterhorn-admin-ui-ng/src/main/webapp/scripts/modules/events/controllers/eventController.js:156-174 | every rebuilt policy has a role, no two share one, and a role has a policy exactly when some entry names it |
| AclPolicies.CustomEntriesGrantEachAction | modules/matterhorn-admin-ui-ng/src/main/webapp/scripts/modules/events/controllers/eventController.js:611-617 | the k-th custom entry grants the k-th action to the policy's role with `allow` true |
| AclPolicies.PolicyEntries | modules/matterhorn-admin-ui-ng/src/main/webapp/scripts/modules/events/controllers/eventController.js:592-618 | a policy contributes entries exactly when it is a valid rule |
| AclPolicies.PolicyEntriesGrantForItsRole | modules/matterhorn-admin-ui-ng/src/main/webapp/scripts/modules/events/controllers/eventController.js:592-618 | every entry a policy contributes carries that policy's role and a truthy `allow` |
| AclPolicies.Emit | modules/matterhorn-admin-ui-ng/src/main/webapp/scripts/modules/events/controllers/eventController.js:585-619 | the entry list `accessSave` builds: each policy's entries in policy order (definition; its properties are stated by the rows that name it) |
| AclPolicies.HasRights | modules/matterhorn-admin-ui-ng/src/main/webapp/scripts/modules/events/controllers/eventController.js:588-590 | the `hasRights` flag of `accessSave` (definition; see the next row) |
| AclPolicies.HasRightsIffSomePolicyGrantsBoth | modules/matterhorn-admin-ui-ng/src/main/webapp/scripts/modules/events/controllers/eventController.js:588-590 | `hasRights` is set exactly when some policy, valid or not, has a truthy read and a truthy write |
| AclPolicies.LastRuleValid | modules/matterhorn-admin-ui-ng/src/main/webapp/scripts/modules/events/controllers/eventController.js:586-593 | the `rulesValid` flag, which each iteration resets, so the last policy decides it (definition; see the next two rows) |
| AclPolicies.AppendPolicy | modules/matterhorn-admin-ui-ng/src/main/webapp/scripts/modules/events/controllers/eventController.js:585-619 | one more policy appends its entries to the list, may set `hasRights`, and alone decides `rulesValid` |
| AclPolicies.OnlyLastPolicyDecidesValidity | modules/matterhorn-admin-ui-ng/src/main/webapp/scripts/modules/events/controllers/eventController.js:583-593 | `rulesValid` holds exactly when the last policy is a valid rule, whatever precedes it; for no policies both flags are false and nothing is saved |
| AclPolicies.InvalidRuleBeforeLastIsSaved | modules/matterhorn-admin-ui-ng/src/main/webapp/scripts/modules/events/controllers/eventController.js:586-593 | a list with an invalid row before a valid last row that grants read and write is saved |
| AclPolicies.EmittedEntriesComeFromValidPolicies | modules/matterhorn-admin-ui-ng/src/main/webapp/scripts/modules/events/controllers/eventController.js:592-618 | every saved entry has a truthy `allow` and the role of some valid policy of the list |
| AclPolicies.ValidPolicies | modules/matterhorn-admin-ui-ng/src/main/webapp/scripts/modules/events/controllers/eventController.js:592-593 | the policies kept are valid rules taken from the list |
| AclPolicies.PolicyEntriesFoldBack | modules/matterhorn-admin-ui-ng/src/main/webapp/scripts/modules/events/controllers/eventController.js:592-618 | the entries of one valid policy fold back into that policy, with a falsy read or write read back as `false` |
| AclPolicies.ReloadNormalises | modules/matterhorn-admin-ui-ng/src/main/webapp/scripts/modules/events/controllers/eventController.js:580-619 | when roles are distinct and no custom action is named `read` or `write`, folding the list `accessSave` builds gives back the valid policies in order, actions unchanged, each falsy read or write read back as `false` |
| AclPolicies.RoundTrip | modules/matterhorn-admin-ui-ng/src/main/webapp/scripts/modules/events/controllers/eventController.js:580-619 | under the same conditions and with boolean rights, folding the list `accessSave` builds gives back exactly the valid policies |
| AclPolicies.EmitIgnoresNormalisation | modules/matterhorn-admin-ui-ng/src/main/webapp/scripts/modules/events/controllers/eventController.js:592-618 | reading falsy rights back as `false` does not change the list `accessSave` builds |
| AclPolicies.EmitIgnoresInvalidPolicies | modules/matterhorn-admin-ui-ng/src/main/webapp/scripts/modules/events/controllers/eventController.js:592-593 | dropping the invalid rows does not change the list `accessSave` builds |
| AclPolicies.FoldIsReloadSafe | modules/matterhorn-admin-ui-ng/src/main/webapp/scripts/modules/events/controllers/eventController.js:156-169 | policies rebuilt from any entry list have distinct roles and no custom action named `read` or `write` |
| AclPolicies.FoldIsRoundTripSafe | modules/matterhorn-admin-ui-ng/src/main/webapp/scripts/modules/events/controllers/eventController.js:156-169 | policies rebuilt from entries whose read and write carry booleans meet the round-trip conditions |
| AclPolicies.SaveAfterReloadIsStable | modules/matterhorn-admin-ui-ng/src/main/webapp/scripts/modules/events/controllers/eventController.js:156-179 | for every loaded list: saving, reloading and saving again sends the same list twice, and the reload gives the valid policies with falsy rights read as `false` |
| AclPolicies.ReloadGivesValidPolicies | modules/matterhorn-admin-ui-ng/src/main/webapp/scripts/modules/events/controllers/eventController.js:156-179 | when the loaded list's read and write entries carry booleans, the reload gives exactly the valid policies |
| AclPolicies.LastMatch | modules/matterhorn-admin-ui-ng/src/main/webapp/scripts/modules/events/controllers/eventController.js:380-386 | the index found matches role, write and read, and no later policy does; none found means no policy matches |
| AclPolicies.RemoveLastMatch | modules/matterhorn-admin-ui-ng/src/main/webapp/scripts/modules/events/controllers/eventController.js:377-391 | without a match the list is unchanged; otherwise exactly the last matching policy is removed and the others stay in order |
| Scheduling.Substr | modules/matterhorn-admin-ui-ng/src/main/webapp/scripts/modules/events/controllers/eventController.js:319-320 | `s.substr(from, s.length)` keeps the characters from `from` on, and is empty when `from` is past the end |
| Scheduling.ConflictRecords | modules/matterhorn-admin-ui-ng/src/main/webapp/scripts/modules/events/controllers/eventController.js:315-322 | one record per item, in order, with the item's title, its start without the first six characters and its end without the first five, localised |
| Scheduling.Eligible | modules/matterhorn-admin-ui-ng/src/main/webapp/scripts/modules/events/controllers/eventController.js:293-296 | the eligibility test: a defined, non-empty start date and a defined, non-empty device id (definition; the scheduling methods' rows state its use) |
| Scheduling.DeviceNames | modules/matterhorn-admin-ui-ng/src/main/webapp/scripts/modules/events/controllers/eventController.js:344-353 | the device-name list: from the empty string, each selected method adds a comma when the list is non-empty, then its name (definition; see the next three rows) |
| Scheduling.EnabledNames | modules/matterhorn-admin-ui-ng/src/main/webapp/scripts/modules/events/controllers/eventController.js:346-353 | a name is listed exactly when some selected input method has it |
| Scheduling.DeviceNamesJoinsEnabled | modules/matterhorn-admin-ui-ng/src/main/webapp/scripts/modules/events/controllers/eventController.js:344-353 | with non-empty names the device-name list is the comma-join of the selected names, and it is empty exactly when none is selected |
| Scheduling.EmptyNameAddsNoSeparator | modules/matterhorn-admin-ui-ng/src/main/webapp/scripts/modules/events/controllers/eventController.js:348-351 | a selected method with an empty name leaves the list empty, so the next name gets no comma before it, unlike a comma-join |
| Scheduling.SchedulingSource.AssignCaptureAgent | modules/matterhorn-admin-ui-ng/src/main/webapp/scripts/modules/events/controllers/eventController.js:343-353 | the agent becomes the device's id, and the device-name entry of the configuration becomes the list built from the selected input methods; other keys are kept |
| EventController.AppendCustomEntries | modules/matterhorn-admin-ui-ng/src/main/webapp/scripts/modules/events/controllers/eventController.js:611-617 | the inner loop appends the custom entries of the policy's actions, in order |
| EventController.AppendPolicyEntries | modules/matterhorn-admin-ui-ng/src/main/webapp/scripts/modules/events/controllers/eventController.js:595-617 | the body for one valid policy appends exactly that policy's entries |
| EventController.StepOnKnownRole | modules/matterhorn-admin-ui-ng/src/main/webapp/scripts/modules/events/controllers/eventController.js:159-168 | an entry for a role already in the dictionary updates that role's policy in place, as one fold step does |
| EventController.StepOnNewRole | modules/matterhorn-admin-ui-ng/src/main/webapp/scripts/modules/events/controllers/eventController.js:159-168 | an entry for a new role adds a fresh policy as the last key and applies the entry, as one fold step does |
| EventController.CollectEntries | modules/matterhorn-admin-ui-ng/src/main/webapp/scripts/modules/events/controllers/eventController.js:580-619 | the loop yields the entry list of all policies, `hasRights` and the last policy's `rulesValid` |
| EventController.EventCtrl.ChangePolicies | modules/matterhorn-admin-ui-ng/src/main/webapp/scripts/modules/events/controllers/eventController.js:156-179 | the policies become the fold of the entries; unless loading, the flags and the save follow as in `AccessSave`, and when loading they are untouched |
| EventController.EventCtrl.AddPolicy | modules/matterhorn-admin-ui-ng/src/main/webapp/scripts/modules/events/controllers/eventController.js:373-375 | an empty policy without a role is appended |
| EventController.EventCtrl.DeletePolicy | modules/matterhorn-admin-ui-ng/src/main/webapp/scripts/modules/events/controllers/eventController.js:377-393 | the last policy matching role, write and read is removed (nothing when none matches), then the flags and the save follow |
| EventController.EventCtrl.AccessSave | modules/matterhorn-admin-ui-ng/src/main/webapp/scripts/modules/events/controllers/eventController.js:580-652 | `hasRights` and `unvalidRule` are set from the policies, and the entry list is sent exactly when `hasRights` holds and the last rule is valid |
| EventController.EventCtrl.ReadyToPollConflicts | modules/matterhorn-admin-ui-ng/src/main/webapp/scripts/modules/events/controllers/eventController.js:291-299 | the source is defined and eligible (definition; `SaveScheduling` keeps it true) |
| EventController.EventCtrl.ClearConflicts | modules/matterhorn-admin-ui-ng/src/main/webapp/scripts/modules/events/controllers/eventController.js:302-304 | popping until empty leaves no conflicts |
| EventController.EventCtrl.NoConflictsDetected | modules/matterhorn-admin-ui-ng/src/main/webapp/scripts/modules/events/controllers/eventController.js:301-306 | no conflicts are left and the check is no longer running |
| EventController.EventCtrl.ConflictsDetected | modules/matterhorn-admin-ui-ng/src/main/webapp/scripts/modules/events/controllers/eventController.js:308-325 | on status 409 the conflicts become the records of the response items; on any other status they are kept; either way the check is no longer running |
| EventController.EventCtrl.CheckConflicts | modules/matterhorn-admin-ui-ng/src/main/webapp/scripts/modules/events/controllers/eventController.js:327-334 | an ineligible source is not checked and keeps its conflicts; an eligible one is checked once and its conflicts follow the answer; the running flag ends false |
| EventController.EventCtrl.SaveScheduling | modules/matterhorn-admin-ui-ng/src/main/webapp/scripts/modules/events/controllers/eventController.js:336-356 | nothing happens for an ineligible source; otherwise one check is made; on success the conflicts are cleared and the agent and device names assigned; on failure the source is unchanged and the conflicts follow the response; an eligible source stays eligible |

## Left out

- Workflow configuration: loading, the DOM, and saving (lines 71-155 and 418-452). These are not part of this model.
- Metadata, comments, assets, transactions and the other REST calls and timers of the controller. These are not part of this model.
- Notifications. The `Notifications.add`/`remove` calls in `accessSave` and `conflictsDetected` only show messages. The flags they depend on are modelled.
- Service calls happen synchronously in the model:
  - `EventAccessResource.save` appends to `aclSaves`.
  - `ConflictCheckResource.check` increments `conflictChecks` and receives its answer as the `outcome` parameter.
  - Interleaving is not modelled: neither a second check started before the first answers nor a stale answer arriving late.
  - Nor is the persistence callback of a save.
- `Language.toLocalTime` is a parameter, because its behaviour belongs to another module.
- Role names as JavaScript object keys. The model assumes the dictionary in `changePolicies` iterates in insertion order. JavaScript instead lists integer-like keys first, and names such as `__proto__` or `constructor` clash with `Object.prototype`; neither case is modelled.
- The `{name: 'event-acl-actions', value: [...]}` wrapper of a policy's actions. Only `value` is modelled.
- `EventController.EventCtrl.CheckConflicts`: the running flag reads true only while a request is outstanding. Because the model answers at once, only its final value is stated.
- `EventController.EventCtrl.ConflictsDetected`: `conflicts = []` in the source replaces the array, while the pop loops in `noConflictsDetected` and `saveScheduling` empty it in place. The model holds the list as a value, so aliasing of the array by the view is not captured.
- `Scheduling.DeviceNamesJoinsEnabled` requires the selected names to be non-empty. With an empty name the list differs from a comma-join, as `Scheduling.EmptyNameAddsNoSeparator` shows, and the model keeps that behaviour.
- `AclPolicies.RoundTrip` holds only under the conditions named in its row. Repeated roles or custom actions named `read`/`write` do not survive a save and reload unchanged. A falsy string right such as `''` reloads as `false`, so the exact round trip also needs boolean rights. The model keeps all three behaviours. `AclPolicies.SaveAfterReloadIsStable` needs none of these conditions.
