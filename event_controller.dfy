/**
 * The event editor's controller state: the ACL policies with their two
 * warning flags, and the scheduling conflicts with the `checkingConflicts`
 * flag. Calls the controller makes to services are recorded in fields:
 * `aclSaves` holds every entry list sent to be persisted, `conflictChecks`
 * counts the conflict-check requests.
 */
module EventController {
  import opened Optional
  import opened AclPolicies
  import opened Scheduling

  /** The inner loop of `accessSave`: one granted entry per custom action, appended to `ace`. */
  method AppendCustomEntries(ace: seq<AccessEntry>, role: string, actions: seq<string>) returns (r: seq<AccessEntry>)
    ensures r == ace + CustomEntries(role, actions)
  {
    r := ace;
    var k := 0;
    while k < |actions|
      invariant 0 <= k <= |actions|
      invariant r == ace + CustomEntries(role, actions[..k])
    {
      assert actions[..k + 1][..k] == actions[..k];
      var entry := AccessEntry(role, actions[k], AllowBool(true));
      assert CustomEntries(role, actions[..k + 1]) == CustomEntries(role, actions[..k]) + [entry];
      r := r + [entry];
      k := k + 1;
    }
    assert actions[..k] == actions;
  }

  /**
   * The body of `accessSave` for one valid policy: its read entry, its write
   * entry and one granted entry per custom action, appended to `ace`.
   */
  method AppendPolicyEntries(ace: seq<AccessEntry>, policy: Policy) returns (r: seq<AccessEntry>)
    requires PolicyValid(policy)
    ensures r == ace + PolicyEntries(policy)
  {
    r := ace;
    var role := policy.role.value;
    if Truthy(policy.read) {
      r := r + [AccessEntry(role, ReadAction, policy.read)];
    }
    if Truthy(policy.write) {
      r := r + [AccessEntry(role, WriteAction, policy.write)];
    }
    assert r == ace + RightsEntries(role, policy);
    r := AppendCustomEntries(r, role, policy.actions);
    assert r == (ace + RightsEntries(role, policy)) + CustomEntries(role, policy.actions);
  }

  /**
   * `changePolicies`' dictionary represents `ps`: `order` lists its keys in
   * insertion order, once each, and key `order[k]` holds `ps[k]`, whose role
   * it is.
   */
  predicate Indexes(m: map<string, Policy>, order: seq<string>, ps: seq<Policy>) {
    && |order| == |ps|
    && (forall k :: 0 <= k < |order| ==> order[k] in m && m[order[k]] == ps[k] && ps[k].role == Some(order[k]))
    && (forall r :: r in m ==> r in order)
    && (forall k, l :: 0 <= k < l < |order| ==> order[k] != order[l])
  }

  /** An entry whose role the dictionary holds updates that role's policy, as `Step` does. */
  lemma StepOnKnownRole(m: map<string, Policy>, order: seq<string>, ps: seq<Policy>, e: AccessEntry)
    requires Indexes(m, order, ps) && e.role in m
    ensures Indexes(m[e.role := ApplyEntry(m[e.role], e)], order, Step(ps, e))
  {
    var k :| 0 <= k < |order| && order[k] == e.role;
    assert ps[k].role == Some(e.role);
    forall j | 0 <= j < k
      ensures ps[j].role != Some(e.role)
    {
      assert ps[j].role == Some(order[j]);
    }
    assert IndexOfRole(ps, e.role) == Some(k);
    var ps' := ps[k := ApplyEntry(ps[k], e)];
    assert Step(ps, e) == ps';
    var m' := m[e.role := ApplyEntry(m[e.role], e)];
    forall j | 0 <= j < |order|
      ensures order[j] in m' && m'[order[j]] == ps'[j] && ps'[j].role == Some(order[j])
    {
      if j != k {
        assert order[j] != e.role;
      }
    }
  }

  /** An entry with a new role adds a fresh policy for it, then applies the entry, as `Step` does. */
  lemma StepOnNewRole(m: map<string, Policy>, order: seq<string>, ps: seq<Policy>, e: AccessEntry)
    requires Indexes(m, order, ps) && e.role !in m
    ensures var m1 := m[e.role := CreatePolicy(Some(e.role))];
      Indexes(m1[e.role := ApplyEntry(m1[e.role], e)], order + [e.role], Step(ps, e))
  {
    forall j | 0 <= j < |ps|
      ensures ps[j].role != Some(e.role)
    {
      assert ps[j].role == Some(order[j]);
    }
    assert IndexOfRole(ps, e.role) == None;
    var p := ApplyEntry(CreatePolicy(Some(e.role)), e);
    var ps', order' := ps + [p], order + [e.role];
    assert Step(ps, e) == ps';
    var m' := m[e.role := p];
    assert m[e.role := CreatePolicy(Some(e.role))][e.role := p] == m';
    forall j | 0 <= j < |order'|
      ensures order'[j] in m' && m'[order'[j]] == ps'[j] && ps'[j].role == Some(order'[j])
    {
      if j < |order| {
        assert order'[j] == order[j] && ps'[j] == ps[j];
      }
    }
    forall r | r in m'
      ensures r in order'
    {
      if r != e.role {
        assert r in order;
      }
    }
  }

  /**
   * The loop of `accessSave`: the entry list of all valid policies in order,
   * whether some policy grants read and write, and the `rulesValid` flag,
   * which each policy resets before deciding it anew.
   */
  method CollectEntries(policies: seq<Policy>) returns (ace: seq<AccessEntry>, rights: bool, rulesValid: bool)
    ensures ace == Emit(policies)
    ensures rights == HasRights(policies)
    ensures rulesValid == LastRuleValid(policies)
  {
    ace, rights, rulesValid := [], false, false;
    var i := 0;
    while i < |policies|
      invariant 0 <= i <= |policies|
      invariant ace == Emit(policies[..i])
      invariant rights == HasRights(policies[..i])
      invariant rulesValid == LastRuleValid(policies[..i])
    {
      var policy := policies[i];
      ghost var before := policies[..i];
      rulesValid := false;
      if Truthy(policy.read) && Truthy(policy.write) {
        rights := true;
      }
      if (Truthy(policy.read) || Truthy(policy.write) || |policy.actions| > 0) && policy.role.Some? {
        rulesValid := true;
        ace := AppendPolicyEntries(ace, policy);
      }
      i := i + 1;
      assert policies[..i] == before + [policy];
      AppendPolicy(before, policy);
    }
    assert policies[..i] == policies;
  }

  class EventCtrl {
    var policies: seq<Policy>
    var unvalidRule: bool
    var hasRights: bool
    var aclSaves: seq<seq<AccessEntry>>

    var source: SchedulingSource?
    var conflicts: seq<ConflictRecord>
    var checkingConflicts: bool
    var conflictChecks: nat

    constructor (source: SchedulingSource?)
      ensures this.source == source
      ensures policies == [] && aclSaves == [] && !unvalidRule && !hasRights
      ensures conflicts == [] && !checkingConflicts && conflictChecks == 0
    {
      this.source := source;
      policies := [];
      unvalidRule, hasRights := false, false;
      aclSaves := [];
      conflicts := [];
      checkingConflicts := false;
      conflictChecks := 0;
    }

    // -------------------------------------------------------------------------
    // Access policies
    // -------------------------------------------------------------------------

    /**
     * Rebuilds the policies from an entry list: a dictionary from role to
     * policy is filled in entry order, then read back in key-insertion order.
     * Unless `loading`, the result is saved.
     */
    method ChangePolicies(access: seq<AccessEntry>, loading: bool)
      modifies this`policies, this`unvalidRule, this`hasRights, this`aclSaves
      ensures policies == Fold(access)
      ensures loading ==> unvalidRule == old(unvalidRule) && hasRights == old(hasRights) && aclSaves == old(aclSaves)
      ensures !loading ==> hasRights == HasRights(policies) && unvalidRule == !LastRuleValid(policies)
      ensures !loading ==> aclSaves == old(aclSaves) + (if SavesAcl(policies) then [Emit(policies)] else [])
    {
      var newPolicies: map<string, Policy> := map[];
      var order: seq<string> := [];
      var i := 0;
      while i < |access|
        modifies {}
        invariant 0 <= i <= |access|
        invariant Indexes(newPolicies, order, Fold(access[..i]))
      {
        var acl := access[i];
        assert access[..i + 1][..i] == access[..i];
        if acl.role !in newPolicies {
          StepOnNewRole(newPolicies, order, Fold(access[..i]), acl);
          newPolicies := newPolicies[acl.role := CreatePolicy(Some(acl.role))];
          order := order + [acl.role];
        } else {
          StepOnKnownRole(newPolicies, order, Fold(access[..i]), acl);
        }
        var policy := newPolicies[acl.role];
        if acl.action == ReadAction || acl.action == WriteAction {
          if acl.action == ReadAction {
            policy := policy.(read := acl.allow);
          } else {
            policy := policy.(write := acl.allow);
          }
        } else if Granted(acl.allow) {
          policy := policy.(actions := policy.actions + [acl.action]);
        }
        newPolicies := newPolicies[acl.role := policy];
        i := i + 1;
      }
      assert access[..i] == access;

      policies := [];
      var k := 0;
      while k < |order|
        modifies this`policies
        invariant 0 <= k <= |order|
        invariant policies == Fold(access)[..k]
      {
        policies := policies + [newPolicies[order[k]]];
        k := k + 1;
      }

      if !loading {
        AccessSave();
      }
    }

    /** Appends an empty row: no role yet, nothing granted. */
    method AddPolicy()
      modifies this`policies
      ensures policies == old(policies) + [CreatePolicy(None)]
    {
      policies := policies + [CreatePolicy(None)];
    }

    /** Removes the last policy with the target's role, read and write, then saves. */
    method DeletePolicy(target: Policy)
      modifies this`policies, this`unvalidRule, this`hasRights, this`aclSaves
      ensures policies == RemoveLastMatch(old(policies), target)
      ensures hasRights == HasRights(policies) && unvalidRule == !LastRuleValid(policies)
      ensures aclSaves == old(aclSaves) + (if SavesAcl(policies) then [Emit(policies)] else [])
    {
      var index: Option<nat> := None;
      var idx := 0;
      while idx < |policies|
        invariant 0 <= idx <= |policies|
        invariant index == LastMatch(policies[..idx], target)
      {
        assert policies[..idx + 1][..idx] == policies[..idx];
        var policy := policies[idx];
        if policy.role == target.role && policy.write == target.write && policy.read == target.read {
          index := Some(idx);
        }
        idx := idx + 1;
      }
      assert policies[..idx] == policies;
      if index.Some? {
        policies := policies[..index.value] + policies[index.value + 1..];
      }
      AccessSave();
    }

    /**
     * Turns the policies into an entry list, sets the two warning flags and,
     * when some policy grants read and write and the last rule is valid,
     * sends the list to be persisted.
     */
    method AccessSave()
      modifies this`unvalidRule, this`hasRights, this`aclSaves
      ensures hasRights == HasRights(policies)
      ensures unvalidRule == !LastRuleValid(policies)
      ensures aclSaves == old(aclSaves) + (if SavesAcl(policies) then [Emit(policies)] else [])
    {
      var ace, rights, rulesValid := CollectEntries(policies);
      unvalidRule := !rulesValid;
      hasRights := rights;
      if rights && rulesValid {
        aclSaves := aclSaves + [ace];
      }
    }

    // -------------------------------------------------------------------------
    // Scheduling conflicts
    // -------------------------------------------------------------------------

    /** The source has a non-empty start date and a non-empty device id. */
    predicate ReadyToPollConflicts()
      reads this, source
    {
      source != null && Eligible(source.start, source.device)
    }

    /** Empties the conflict list by removing its last element until none is left. */
    method ClearConflicts()
      modifies this`conflicts
      ensures conflicts == []
    {
      while |conflicts| > 0
        decreases |conflicts|
      {
        conflicts := conflicts[..|conflicts| - 1];
      }
    }

    /** The success callback of a conflict check. */
    method NoConflictsDetected()
      modifies this`conflicts, this`checkingConflicts
      ensures conflicts == [] && !checkingConflicts
    {
      ClearConflicts();
      checkingConflicts := false;
    }

    /**
     * The failure callback of a conflict check: on status 409 the list is
     * replaced by one record per response item, in order; any other status
     * leaves it as it was.
     */
    method ConflictsDetected(response: CheckResponse, toLocalTime: string -> string)
      modifies this`conflicts, this`checkingConflicts
      ensures response.status == ConflictStatus ==> conflicts == ConflictRecords(response.data, toLocalTime)
      ensures response.status != ConflictStatus ==> conflicts == old(conflicts)
      ensures !checkingConflicts
    {
      if response.status == ConflictStatus {
        conflicts := [];
        var i := 0;
        while i < |response.data|
          invariant 0 <= i <= |response.data|
          invariant |conflicts| == i
          invariant forall j :: 0 <= j < i ==> conflicts[j] == ToConflictRecord(response.data[j], toLocalTime)
        {
          var d := response.data[i];
          conflicts := conflicts + [ConflictRecord(d.title,
            toLocalTime(Substr(d.start, StartPrefixLength)), toLocalTime(Substr(d.end, EndPrefixLength)))];
          i := i + 1;
        }
      }
      checkingConflicts := false;
    }

    /**
     * Checks the source for conflicts when it is eligible; `outcome` is the
     * callback the conflict-check resource answers with.
     */
    method CheckConflicts(outcome: CheckOutcome, toLocalTime: string -> string)
      modifies this`conflicts, this`checkingConflicts, this`conflictChecks
      ensures !checkingConflicts
      ensures !old(ReadyToPollConflicts()) ==> conflicts == old(conflicts) && conflictChecks == old(conflictChecks)
      ensures old(ReadyToPollConflicts()) ==> conflictChecks == old(conflictChecks) + 1
      ensures old(ReadyToPollConflicts()) && outcome.NoConflicts? ==> conflicts == []
      ensures old(ReadyToPollConflicts()) && outcome.CheckFailed? ==>
        conflicts == if outcome.response.status == ConflictStatus
                     then ConflictRecords(outcome.response.data, toLocalTime) else old(conflicts)
    {
      checkingConflicts := true;
      if ReadyToPollConflicts() {
        conflictChecks := conflictChecks + 1;
        match outcome
        case NoConflicts => NoConflictsDetected();
        case CheckFailed(response) => ConflictsDetected(response, toLocalTime);
      } else {
        checkingConflicts := false;
      }
    }

    /**
     * Saves the scheduling when the source is eligible. On success the
     * conflicts are cleared and the source's agent and device-name list are
     * set; on failure the conflicts are handled as in `ConflictsDetected`.
     */
    method SaveScheduling(outcome: CheckOutcome, toLocalTime: string -> string)
      modifies this`conflicts, this`checkingConflicts, this`conflictChecks
      modifies if source != null then {source} else {}
      ensures !old(ReadyToPollConflicts()) ==>
        conflicts == old(conflicts) && checkingConflicts == old(checkingConflicts) &&
        conflictChecks == old(conflictChecks) && (source != null ==> unchanged(source))
      ensures old(ReadyToPollConflicts()) ==> conflictChecks == old(conflictChecks) + 1
      ensures old(ReadyToPollConflicts()) ==> ReadyToPollConflicts()
      ensures old(ReadyToPollConflicts()) && outcome.NoConflicts? ==>
        && conflicts == [] && checkingConflicts == old(checkingConflicts)
        && source.start == old(source.start) && source.device == old(source.device)
        && source.agentId == source.device.value.id
        && source.agentConfiguration ==
             old(source.agentConfiguration)[DeviceNamesKey := DeviceNames(source.device.value.inputMethods)]
      ensures old(ReadyToPollConflicts()) && outcome.CheckFailed? ==>
        && !checkingConflicts && unchanged(source)
        && conflicts == if outcome.response.status == ConflictStatus
                        then ConflictRecords(outcome.response.data, toLocalTime) else old(conflicts)
    {
      if ReadyToPollConflicts() {
        conflictChecks := conflictChecks + 1;
        match outcome
        case NoConflicts =>
          ClearConflicts();
          source.AssignCaptureAgent();
        case CheckFailed(response) =>
          ConflictsDetected(response, toLocalTime);
      }
    }
  }
}
