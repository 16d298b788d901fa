/**
 * Access-control lists of an event, as the event editor sees them.
 *
 * The persisted form is a flat list of access entries `{role, action, allow}`.
 * The editor shows one policy per role, `{role, read, write, actions}`.
 * `Fold` is the reference definition of what the editor's `changePolicies`
 * builds from an entry list, `Emit` of the entry list `accessSave` sends back,
 * and `RemoveLastMatch` of what `deletePolicy` leaves. The lemmas state what
 * these promise: one policy per role in first-seen order, last-wins for read
 * and write, granted custom actions in order, and a round trip.
 */
module AclPolicies {
  import opened Optional

  const ReadAction: string := "read"
  const WriteAction: string := "write"

  /** The JavaScript value in an entry's `allow` field: a boolean or a string. */
  datatype Allow = AllowBool(b: bool) | AllowText(s: string)

  /** JavaScript truthiness of an `allow` value. */
  predicate Truthy(a: Allow) {
    match a
    case AllowBool(b) => b
    case AllowText(s) => s != ""
  }

  /** The test a custom action must pass: `allow === true || allow === 'true'`. */
  predicate Granted(a: Allow) {
    a == AllowBool(true) || a == AllowText("true")
  }

  predicate IsCustom(action: string) {
    action != ReadAction && action != WriteAction
  }

  datatype AccessEntry = AccessEntry(role: string, action: string, allow: Allow)

  /** A per-role policy; `role` is undefined for a row added by the user and not yet filled in. */
  datatype Policy = Policy(role: Option<string>, read: Allow, write: Allow, actions: seq<string>)

  /** A policy that `accessSave` turns into entries: a defined role and some right. */
  predicate PolicyValid(p: Policy) {
    (Truthy(p.read) || Truthy(p.write) || |p.actions| > 0) && p.role.Some?
  }

  /** A fresh policy: no read, no write, no custom action. */
  function CreatePolicy(role: Option<string>): (p: Policy)
    ensures p.role == role && p.actions == []
    ensures p.read == AllowBool(false) && p.write == AllowBool(false)
    ensures !PolicyValid(p)
  {
    Policy(role, AllowBool(false), AllowBool(false), [])
  }

  // ---------------------------------------------------------------------------
  // Folding entries into policies (changePolicies)
  // ---------------------------------------------------------------------------

  /** The effect of one entry on its role's policy. */
  function ApplyEntry(p: Policy, e: AccessEntry): (q: Policy)
    ensures q.role == p.role
  {
    if e.action == ReadAction then p.(read := e.allow)
    else if e.action == WriteAction then p.(write := e.allow)
    else if Granted(e.allow) then p.(actions := p.actions + [e.action])
    else p
  }

  /** Position of the first policy for `role`, if any. */
  function IndexOfRole(ps: seq<Policy>, role: string): (r: Option<nat>)
    ensures r.Some? ==> r.value < |ps| && ps[r.value].role == Some(role)
    ensures r.Some? ==> forall j :: 0 <= j < r.value ==> ps[j].role != Some(role)
    ensures r.None? ==> forall j :: 0 <= j < |ps| ==> ps[j].role != Some(role)
  {
    if ps == [] then None
    else if ps[0].role == Some(role) then Some(0)
    else match IndexOfRole(ps[1..], role)
      case None => None
      case Some(i) => Some(i + 1)
  }

  /** One iteration of the fold: look up or create the role's policy, then apply the entry. */
  function Step(ps: seq<Policy>, e: AccessEntry): seq<Policy> {
    match IndexOfRole(ps, e.role)
    case Some(i) => ps[i := ApplyEntry(ps[i], e)]
    case None => ps + [ApplyEntry(CreatePolicy(Some(e.role)), e)]
  }

  function FoldFrom(acc: seq<Policy>, es: seq<AccessEntry>): seq<Policy>
    decreases |es|
  {
    if es == [] then acc else Step(FoldFrom(acc, es[..|es| - 1]), es[|es| - 1])
  }

  /** The policies `changePolicies` builds from an entry list. */
  function Fold(es: seq<AccessEntry>): seq<Policy> {
    FoldFrom([], es)
  }

  // Independent description of the fold's result, role by role.

  function Roles(es: seq<AccessEntry>): seq<string>
    decreases |es|
  {
    if es == [] then [] else Roles(es[..|es| - 1]) + [es[|es| - 1].role]
  }

  /** The distinct elements of `rs`, in the order of their first occurrence. */
  function FirstSeen(rs: seq<string>): seq<string>
    decreases |rs|
  {
    if rs == [] then []
    else
      var d := FirstSeen(rs[..|rs| - 1]);
      if rs[|rs| - 1] in d then d else d + [rs[|rs| - 1]]
  }

  predicate Names(e: AccessEntry, role: string, action: string) {
    e.role == role && e.action == action
  }

  /** The `allow` of the last entry for this role and action; `false` when there is none. */
  function LastAllow(es: seq<AccessEntry>, role: string, action: string): Allow
    decreases |es|
  {
    if es == [] then AllowBool(false)
    else if Names(es[|es| - 1], role, action) then es[|es| - 1].allow
    else LastAllow(es[..|es| - 1], role, action)
  }

  /** Last wins: the `allow` of the last entry naming the role and action, `false` when none does. */
  lemma {:induction false} LastAllowIsLastWrite(es: seq<AccessEntry>, role: string, action: string)
    ensures (forall i :: 0 <= i < |es| ==> !Names(es[i], role, action)) ==> LastAllow(es, role, action) == AllowBool(false)
    ensures (exists i :: 0 <= i < |es| && Names(es[i], role, action)) ==>
      exists i :: 0 <= i < |es| && Names(es[i], role, action) && LastAllow(es, role, action) == es[i].allow &&
        forall j :: i < j < |es| ==> !Names(es[j], role, action)
    decreases |es|
  {
    if es != [] {
      var init, last := es[..|es| - 1], es[|es| - 1];
      LastAllowIsLastWrite(init, role, action);
      if Names(last, role, action) {
        assert Names(es[|es| - 1], role, action) && LastAllow(es, role, action) == es[|es| - 1].allow;
      } else {
        assert LastAllow(es, role, action) == LastAllow(init, role, action);
        if i :| 0 <= i < |es| && Names(es[i], role, action) {
          assert init[i] == es[i];
          var w :| 0 <= w < |init| && Names(init[w], role, action) && LastAllow(init, role, action) == init[w].allow &&
            forall j :: w < j < |init| ==> !Names(init[j], role, action);
          assert es[w] == init[w];
          assert forall j :: w < j < |es| ==> !Names(es[j], role, action) by {
            forall j | w < j < |es|
              ensures !Names(es[j], role, action)
            {
              if j < |init| {
                assert es[j] == init[j];
              }
            }
          }
        } else {
          forall i | 0 <= i < |init|
            ensures !Names(init[i], role, action)
          {
            assert init[i] == es[i];
          }
        }
      }
    }
  }

  /** The custom actions granted to `role`, in entry order, repetitions kept. */
  function GrantedActions(es: seq<AccessEntry>, role: string): (acts: seq<string>)
    decreases |es|
    ensures forall k :: 0 <= k < |acts| ==> IsCustom(acts[k])
  {
    if es == [] then []
    else
      var e := es[|es| - 1];
      GrantedActions(es[..|es| - 1], role) +
        (if e.role == role && IsCustom(e.action) && Granted(e.allow) then [e.action] else [])
  }

  /** The policy a role should end up with after folding `es`. */
  function Summary(es: seq<AccessEntry>, role: string): Policy {
    Policy(Some(role), LastAllow(es, role, ReadAction), LastAllow(es, role, WriteAction), GrantedActions(es, role))
  }

  /** Index of the first occurrence of `x` in `rs`. */
  function FirstIndex(rs: seq<string>, x: string): (k: nat)
    requires x in rs
    decreases |rs|
    ensures k < |rs| && rs[k] == x
    ensures forall j :: 0 <= j < k ==> rs[j] != x
  {
    if x in rs[..|rs| - 1] then FirstIndex(rs[..|rs| - 1], x) else |rs| - 1
  }

  lemma {:induction false} FirstSeenDedups(rs: seq<string>)
    ensures forall x :: x in FirstSeen(rs) <==> x in rs
    ensures forall i, j :: 0 <= i < j < |FirstSeen(rs)| ==> FirstSeen(rs)[i] != FirstSeen(rs)[j]
    ensures forall i, j :: 0 <= i < j < |FirstSeen(rs)| ==>
      FirstIndex(rs, FirstSeen(rs)[i]) < FirstIndex(rs, FirstSeen(rs)[j])
    decreases |rs|
  {
    if rs != [] {
      var init, x := rs[..|rs| - 1], rs[|rs| - 1];
      FirstSeenDedups(init);
      assert rs == init + [x];
      var d := FirstSeen(init);
      assert forall y :: y in init ==> FirstIndex(rs, y) == FirstIndex(init, y);
    }
  }

  lemma {:induction false} SummaryStep(es: seq<AccessEntry>, role: string)
    requires es != []
    ensures Summary(es, role) ==
      if es[|es| - 1].role == role then ApplyEntry(Summary(es[..|es| - 1], role), es[|es| - 1])
      else Summary(es[..|es| - 1], role)
  {
  }

  lemma {:induction false} SummaryOfAbsentRole(es: seq<AccessEntry>, role: string)
    requires role !in Roles(es)
    ensures Summary(es, role) == CreatePolicy(Some(role))
    decreases |es|
  {
    if es != [] {
      SummaryOfAbsentRole(es[..|es| - 1], role);
      SummaryStep(es, role);
    }
  }

  /**
   * What `changePolicies` builds: one policy per distinct role, in the order in
   * which the roles first occur, each holding the last read and write `allow`
   * for its role and its granted custom actions.
   */
  lemma {:induction false} FoldSummarisesEntries(es: seq<AccessEntry>)
    ensures |Fold(es)| == |FirstSeen(Roles(es))|
    ensures forall i :: 0 <= i < |Fold(es)| ==> Fold(es)[i] == Summary(es, FirstSeen(Roles(es))[i])
    decreases |es|
  {
    if es != [] {
      var init, e := es[..|es| - 1], es[|es| - 1];
      FoldSummarisesEntries(init);
      FirstSeenDedups(Roles(init));
      var F, D := Fold(init), FirstSeen(Roles(init));
      assert Fold(es) == Step(F, e);
      assert Roles(es) == Roles(init) + [e.role];
      match IndexOfRole(F, e.role)
      case Some(k) =>
        assert D[k] == e.role;
        assert FirstSeen(Roles(es)) == D;
        forall i | 0 <= i < |Fold(es)|
          ensures Fold(es)[i] == Summary(es, D[i])
        {
          SummaryStep(es, D[i]);
        }
      case None =>
        forall j | 0 <= j < |D|
          ensures D[j] != e.role
        {
          assert F[j].role == Some(D[j]);
        }
        assert FirstSeen(Roles(es)) == D + [e.role];
        SummaryOfAbsentRole(init, e.role);
        forall i | 0 <= i < |Fold(es)|
          ensures Fold(es)[i] == Summary(es, FirstSeen(Roles(es))[i])
        {
          SummaryStep(es, FirstSeen(Roles(es))[i]);
        }
    }
  }

  /**
   * One policy per role: every policy has a defined role, no two share one, and
   * a role has a policy exactly when some entry names it (a denied custom
   * action still creates its role's policy).
   */
  lemma FoldOnePolicyPerRole(es: seq<AccessEntry>)
    ensures forall i :: 0 <= i < |Fold(es)| ==> Fold(es)[i].role.Some?
    ensures forall i, j :: 0 <= i < j < |Fold(es)| ==> Fold(es)[i].role != Fold(es)[j].role
    ensures forall r :: r in Roles(es) <==> IndexOfRole(Fold(es), r).Some?
  {
    FoldSummarisesEntries(es);
    FirstSeenDedups(Roles(es));
    var D := FirstSeen(Roles(es));
    forall r
      ensures r in Roles(es) <==> IndexOfRole(Fold(es), r).Some?
    {
      if r in Roles(es) {
        var j :| 0 <= j < |D| && D[j] == r;
        assert Fold(es)[j].role == Some(r);
      }
    }
  }

  // ---------------------------------------------------------------------------
  // Unfolding policies into entries (accessSave)
  // ---------------------------------------------------------------------------

  /** One granted entry per custom action, in order. */
  function CustomEntries(role: string, actions: seq<string>): (es: seq<AccessEntry>)
    decreases |actions|
    ensures |es| == |actions|
  {
    if actions == [] then []
    else CustomEntries(role, actions[..|actions| - 1]) + [AccessEntry(role, actions[|actions| - 1], AllowBool(true))]
  }

  /** The `k`-th custom entry grants the `k`-th action to the role. */
  lemma {:induction false} CustomEntriesGrantEachAction(role: string, actions: seq<string>)
    ensures forall k :: 0 <= k < |actions| ==>
      CustomEntries(role, actions)[k] == AccessEntry(role, actions[k], AllowBool(true))
    decreases |actions|
  {
    if actions != [] {
      CustomEntriesGrantEachAction(role, actions[..|actions| - 1]);
    }
  }

  /** The read entry, then the write entry, each present when that right is set. */
  function RightsEntries(role: string, p: Policy): seq<AccessEntry> {
    (if Truthy(p.read) then [AccessEntry(role, ReadAction, p.read)] else []) +
    (if Truthy(p.write) then [AccessEntry(role, WriteAction, p.write)] else [])
  }

  /** The entries one policy contributes: read, then write, then its custom actions. */
  function PolicyEntries(p: Policy): (es: seq<AccessEntry>)
    ensures es != [] <==> PolicyValid(p)
  {
    if !PolicyValid(p) then []
    else RightsEntries(p.role.value, p) + CustomEntries(p.role.value, p.actions)
  }

  /** Every entry of a policy carries the policy's role and a truthy `allow`. */
  lemma PolicyEntriesGrantForItsRole(p: Policy)
    ensures forall k :: 0 <= k < |PolicyEntries(p)| ==>
      Some(PolicyEntries(p)[k].role) == p.role && Truthy(PolicyEntries(p)[k].allow)
  {
    if PolicyValid(p) {
      CustomEntriesGrantEachAction(p.role.value, p.actions);
    }
  }

  /** The entry list `accessSave` assembles from the policies, in policy order. */
  function Emit(ps: seq<Policy>): seq<AccessEntry>
    decreases |ps|
  {
    if ps == [] then [] else Emit(ps[..|ps| - 1]) + PolicyEntries(ps[|ps| - 1])
  }

  /** `hasRights`: some policy grants both read and write. */
  function HasRights(ps: seq<Policy>): bool
    decreases |ps|
  {
    if ps == [] then false
    else HasRights(ps[..|ps| - 1]) || (Truthy(ps[|ps| - 1].read) && Truthy(ps[|ps| - 1].write))
  }

  /** The flag is set exactly when some policy, valid or not, has a truthy read and a truthy write. */
  lemma {:induction false} HasRightsIffSomePolicyGrantsBoth(ps: seq<Policy>)
    ensures HasRights(ps) <==> exists i :: 0 <= i < |ps| && Truthy(ps[i].read) && Truthy(ps[i].write)
    decreases |ps|
  {
    if ps != [] {
      var init := ps[..|ps| - 1];
      HasRightsIffSomePolicyGrantsBoth(init);
      if HasRights(init) {
        var i :| 0 <= i < |init| && Truthy(init[i].read) && Truthy(init[i].write);
        assert ps[i] == init[i];
      } else if !(Truthy(ps[|ps| - 1].read) && Truthy(ps[|ps| - 1].write)) {
        forall i | 0 <= i < |ps|
          ensures !(Truthy(ps[i].read) && Truthy(ps[i].write))
        {
          if i < |init| {
            assert ps[i] == init[i];
          }
        }
      }
    }
  }

  /**
   * `rulesValid` as `accessSave` computes it: the flag is reset for every
   * policy, so only the last policy decides it.
   */
  predicate LastRuleValid(ps: seq<Policy>) {
    |ps| > 0 && PolicyValid(ps[|ps| - 1])
  }

  /** The condition under which `accessSave` sends the entry list to be persisted. */
  predicate SavesAcl(ps: seq<Policy>) {
    HasRights(ps) && LastRuleValid(ps)
  }

  /** How `accessSave`'s loop takes one more policy into account. */
  lemma AppendPolicy(ps: seq<Policy>, p: Policy)
    ensures Emit(ps + [p]) == Emit(ps) + PolicyEntries(p)
    ensures HasRights(ps + [p]) == (HasRights(ps) || (Truthy(p.read) && Truthy(p.write)))
    ensures LastRuleValid(ps + [p]) == PolicyValid(p)
  {
    assert (ps + [p])[..|ps|] == ps;
  }

  /**
   * Validity is decided by the last policy alone: whatever comes before it,
   * invalid rows included, does not change the flag; an empty list is invalid.
   */
  lemma OnlyLastPolicyDecidesValidity(ps: seq<Policy>, p: Policy)
    ensures LastRuleValid(ps + [p]) <==> PolicyValid(p)
    ensures !LastRuleValid([]) && !HasRights([]) && !SavesAcl([])
  {
  }

  /** A list with an invalid rule is still saved when its last rule is valid. */
  lemma InvalidRuleBeforeLastIsSaved()
    ensures var ps := [CreatePolicy(None), Policy(Some("ROLE_ADMIN"), AllowBool(true), AllowBool(true), [])];
      !PolicyValid(ps[0]) && SavesAcl(ps)
  {
    var ps := [CreatePolicy(None), Policy(Some("ROLE_ADMIN"), AllowBool(true), AllowBool(true), [])];
    assert Truthy(ps[1].read) && Truthy(ps[1].write);
  }

  /**
   * Every emitted entry grants its action (its `allow` is truthy) and belongs
   * to a valid policy of the list.
   */
  lemma {:induction false} EmittedEntriesComeFromValidPolicies(ps: seq<Policy>)
    ensures forall e :: e in Emit(ps) ==>
      Truthy(e.allow) && exists p :: p in ps && PolicyValid(p) && p.role == Some(e.role)
    decreases |ps|
  {
    if ps != [] {
      var init, last := ps[..|ps| - 1], ps[|ps| - 1];
      EmittedEntriesComeFromValidPolicies(init);
      assert Emit(ps) == Emit(init) + PolicyEntries(last);
      forall e | e in Emit(ps)
        ensures Truthy(e.allow) && exists p :: p in ps && PolicyValid(p) && p.role == Some(e.role)
      {
        if e in Emit(init) {
          var p :| p in init && PolicyValid(p) && p.role == Some(e.role);
          assert p in ps;
        } else {
          assert e in PolicyEntries(last);
          PolicyEntriesGrantForItsRole(last);
          assert last in ps && PolicyValid(last);
        }
      }
    }
  }

  // ---------------------------------------------------------------------------
  // Round trip: folding what accessSave emits gives back the valid policies
  // ---------------------------------------------------------------------------

  /** The policies that contribute entries, in their original order. */
  function ValidPolicies(ps: seq<Policy>): (vs: seq<Policy>)
    decreases |ps|
    ensures forall k :: 0 <= k < |vs| ==> PolicyValid(vs[k]) && vs[k] in ps
  {
    if ps == [] then []
    else ValidPolicies(ps[..|ps| - 1]) + (if PolicyValid(ps[|ps| - 1]) then [ps[|ps| - 1]] else [])
  }

  /**
   * The side conditions of a reload: defined roles are distinct and no custom
   * action is called `read` or `write`.
   */
  predicate ReloadSafe(ps: seq<Policy>) {
    && (forall i, j :: 0 <= i < j < |ps| && ps[i].role.Some? ==> ps[i].role != ps[j].role)
    && (forall i, k :: 0 <= i < |ps| && 0 <= k < |ps[i].actions| ==> IsCustom(ps[i].actions[k]))
  }

  /** The side conditions of the exact round trip: a reload's, and read and write hold booleans. */
  predicate RoundTripSafe(ps: seq<Policy>) {
    ReloadSafe(ps) && forall i :: 0 <= i < |ps| ==> ps[i].read.AllowBool? && ps[i].write.AllowBool?
  }

  /** A right as it reads back after a save: a falsy right is not emitted and reloads as `false`. */
  function Reloaded(a: Allow): (r: Allow)
    ensures Truthy(r) == Truthy(a)
  {
    if Truthy(a) then a else AllowBool(false)
  }

  /** A policy as it reads back after a save. */
  function Normalised(p: Policy): Policy {
    p.(read := Reloaded(p.read), write := Reloaded(p.write))
  }

  function NormalisedAll(ps: seq<Policy>): seq<Policy>
    decreases |ps|
  {
    if ps == [] then [] else NormalisedAll(ps[..|ps| - 1]) + [Normalised(ps[|ps| - 1])]
  }

  lemma {:induction false} NormalisedAllPointwise(ps: seq<Policy>)
    ensures |NormalisedAll(ps)| == |ps|
    ensures forall k :: 0 <= k < |ps| ==> NormalisedAll(ps)[k] == Normalised(ps[k])
    decreases |ps|
  {
    if ps != [] {
      NormalisedAllPointwise(ps[..|ps| - 1]);
    }
  }

  lemma {:induction false} FoldFromAppend(acc: seq<Policy>, a: seq<AccessEntry>, b: seq<AccessEntry>)
    ensures FoldFrom(acc, a + b) == FoldFrom(FoldFrom(acc, a), b)
    decreases |b|
  {
    if b == [] {
      assert a + b == a;
    } else {
      var init := b[..|b| - 1];
      FoldFromAppend(acc, a, init);
      assert (a + b)[..|a + b| - 1] == a + init;
    }
  }

  /** Folding entries of a single role that `acc` does not know appends its summary. */
  lemma {:induction false} FoldFromOneRole(acc: seq<Policy>, es: seq<AccessEntry>, role: string)
    requires es != []
    requires forall k :: 0 <= k < |es| ==> es[k].role == role
    requires forall j :: 0 <= j < |acc| ==> acc[j].role != Some(role)
    ensures FoldFrom(acc, es) == acc + [Summary(es, role)]
    decreases |es|
  {
    var init, e := es[..|es| - 1], es[|es| - 1];
    SummaryStep(es, role);
    if init == [] {
      assert FoldFrom(acc, es) == Step(acc, e);
      assert Summary(init, role) == CreatePolicy(Some(role));
    } else {
      FoldFromOneRole(acc, init, role);
      var S := Summary(init, role);
      var T := acc + [S];
      assert FoldFrom(acc, es) == Step(T, e);
      assert T[|acc|].role == Some(role);
      assert forall j :: 0 <= j < |acc| ==> T[j] == acc[j];
      assert IndexOfRole(T, role) == Some(|acc|);
      assert (acc + [S])[|acc| := ApplyEntry(S, e)] == acc + [ApplyEntry(S, e)];
    }
  }

  /** A granted custom entry for `role` adds its action to the role's summary. */
  lemma SummaryOfGrantedCustom(es: seq<AccessEntry>, role: string, action: string)
    requires IsCustom(action)
    ensures Summary(es + [AccessEntry(role, action, AllowBool(true))], role) ==
      Summary(es, role).(actions := Summary(es, role).actions + [action])
  {
    var e := AccessEntry(role, action, AllowBool(true));
    assert (es + [e])[..|es|] == es;
    SummaryStep(es + [e], role);
  }

  lemma CustomEntriesSnoc(base: seq<AccessEntry>, role: string, acts: seq<string>)
    requires acts != []
    ensures base + CustomEntries(role, acts) ==
      (base + CustomEntries(role, acts[..|acts| - 1])) + [AccessEntry(role, acts[|acts| - 1], AllowBool(true))]
  {
  }

  lemma {:induction false} SummaryOfCustomEntries(base: seq<AccessEntry>, role: string, acts: seq<string>)
    requires forall k :: 0 <= k < |acts| ==> IsCustom(acts[k])
    ensures Summary(base + CustomEntries(role, acts), role) ==
      Summary(base, role).(actions := Summary(base, role).actions + acts)
    decreases |acts|
  {
    if acts == [] {
      assert base + CustomEntries(role, acts) == base;
    } else {
      var init, a := acts[..|acts| - 1], acts[|acts| - 1];
      SummaryOfCustomEntries(base, role, init);
      CustomEntriesSnoc(base, role, acts);
      SummaryOfGrantedCustom(base + CustomEntries(role, init), role, a);
      var granted := Summary(base, role).actions;
      assert (granted + init) + [a] == granted + acts by {
        assert init + [a] == acts;
      }
    }
  }

  lemma {:induction false} SummaryOfRightsEntries(role: string, p: Policy)
    ensures Summary(RightsEntries(role, p), role) == Policy(Some(role), Reloaded(p.read), Reloaded(p.write), [])
  {
    var R := if Truthy(p.read) then [AccessEntry(role, ReadAction, p.read)] else [];
    var W := if Truthy(p.write) then [AccessEntry(role, WriteAction, p.write)] else [];
    assert RightsEntries(role, p) == R + W;
    assert Summary([], role) == CreatePolicy(Some(role));
    assert Summary(R, role) == Policy(Some(role), Reloaded(p.read), AllowBool(false), []) by {
      if R != [] { SummaryStep(R, role); }
    }
    if W == [] {
      assert R + W == R;
    } else {
      SummaryStep(R + W, role);
      assert (R + W)[..|R + W| - 1] == R;
    }
  }

  /** A valid policy's own entries fold back into that policy, its falsy rights read as `false`. */
  lemma {:induction false} PolicyEntriesFoldBack(acc: seq<Policy>, p: Policy)
    requires PolicyValid(p)
    requires forall k :: 0 <= k < |p.actions| ==> IsCustom(p.actions[k])
    requires forall j :: 0 <= j < |acc| ==> acc[j].role != p.role
    ensures FoldFrom(acc, PolicyEntries(p)) == acc + [Normalised(p)]
  {
    var role := p.role.value;
    var es := PolicyEntries(p);
    assert es == RightsEntries(role, p) + CustomEntries(role, p.actions);
    SummaryOfRightsEntries(role, p);
    SummaryOfCustomEntries(RightsEntries(role, p), role, p.actions);
    assert Summary(es, role) == Normalised(p);
    PolicyEntriesGrantForItsRole(p);
    assert forall k :: 0 <= k < |es| ==> es[k].role == role;
    FoldFromOneRole(acc, es, role);
  }

  /** A role that no valid policy has is not the role of any policy `ValidPolicies` keeps. */
  lemma ValidPoliciesAvoidRole(ps: seq<Policy>, role: Option<string>)
    requires forall i :: 0 <= i < |ps| && PolicyValid(ps[i]) ==> ps[i].role != role
    ensures forall k :: 0 <= k < |ValidPolicies(ps)| ==> ValidPolicies(ps)[k].role != role
  {
    forall k | 0 <= k < |ValidPolicies(ps)|
      ensures ValidPolicies(ps)[k].role != role
    {
      var v := ValidPolicies(ps)[k];
      var i :| 0 <= i < |ps| && ps[i] == v;
    }
  }

  /** `PolicyEntriesFoldBack` behind the policies already folded back. */
  lemma FoldBackAfter(acc: seq<Policy>, vs: seq<Policy>, p: Policy)
    requires PolicyValid(p)
    requires forall k :: 0 <= k < |p.actions| ==> IsCustom(p.actions[k])
    requires forall j :: 0 <= j < |acc| ==> acc[j].role != p.role
    requires forall j :: 0 <= j < |vs| ==> vs[j].role != p.role
    ensures FoldFrom(acc + vs, PolicyEntries(p)) == acc + (vs + [Normalised(p)])
  {
    PolicyEntriesFoldBack(acc + vs, p);
  }

  lemma NormalisedAllSnoc(vs: seq<Policy>, p: Policy)
    ensures NormalisedAll(vs + [p]) == NormalisedAll(vs) + [Normalised(p)]
  {
    assert (vs + [p])[..|vs|] == vs;
  }

  /** The step of `RoundTripFrom` that folds back one more valid policy. */
  lemma RoundTripValidStep(acc: seq<Policy>, init: seq<Policy>, p: Policy)
    requires PolicyValid(p)
    requires forall k :: 0 <= k < |p.actions| ==> IsCustom(p.actions[k])
    requires forall j :: 0 <= j < |acc| ==> acc[j].role != p.role
    requires forall i :: 0 <= i < |init| && PolicyValid(init[i]) ==> init[i].role != p.role
    ensures FoldFrom(acc + NormalisedAll(ValidPolicies(init)), PolicyEntries(p)) ==
      acc + NormalisedAll(ValidPolicies(init) + [p])
  {
    ValidPoliciesAvoidRole(init, p.role);
    var N := NormalisedAll(ValidPolicies(init));
    NormalisedAllPointwise(ValidPolicies(init));
    FoldBackAfter(acc, N, p);
    NormalisedAllSnoc(ValidPolicies(init), p);
  }

  lemma {:induction false} RoundTripFrom(acc: seq<Policy>, ps: seq<Policy>)
    requires ReloadSafe(ps)
    requires forall j, i :: 0 <= j < |acc| && 0 <= i < |ps| && PolicyValid(ps[i]) ==> acc[j].role != ps[i].role
    ensures FoldFrom(acc, Emit(ps)) == acc + NormalisedAll(ValidPolicies(ps))
    decreases |ps|
  {
    if ps == [] {
      assert acc + [] == acc;
    } else {
      var init, p := ps[..|ps| - 1], ps[|ps| - 1];
      assert forall i :: 0 <= i < |init| ==> init[i] == ps[i];
      RoundTripFrom(acc, init);
      FoldFromAppend(acc, Emit(init), PolicyEntries(p));
      assert Emit(ps) == Emit(init) + PolicyEntries(p);
      var V := ValidPolicies(init);
      if PolicyValid(p) {
        assert ValidPolicies(ps) == V + [p];
        RoundTripValidStep(acc, init, p);
      } else {
        assert ValidPolicies(ps) == V;
        assert Emit(init) + PolicyEntries(p) == Emit(init);
      }
    }
  }

  /**
   * Reload: folding the entry list `accessSave` emits gives back the valid
   * policies, in their original order, actions unchanged, each falsy right
   * read back as `false`.
   */
  lemma ReloadNormalises(ps: seq<Policy>)
    requires ReloadSafe(ps)
    ensures Fold(Emit(ps)) == NormalisedAll(ValidPolicies(ps))
  {
    RoundTripFrom([], ps);
    assert [] + NormalisedAll(ValidPolicies(ps)) == NormalisedAll(ValidPolicies(ps));
  }

  /**
   * Round trip: with boolean rights, folding the entry list `accessSave` emits
   * gives back exactly the valid policies, in their original order, actions unchanged.
   */
  lemma RoundTrip(ps: seq<Policy>)
    requires RoundTripSafe(ps)
    ensures Fold(Emit(ps)) == ValidPolicies(ps)
  {
    ReloadNormalises(ps);
    var vs := ValidPolicies(ps);
    forall k | 0 <= k < |vs|
      ensures Normalised(vs[k]) == vs[k]
    {
      var i :| 0 <= i < |ps| && ps[i] == vs[k];
    }
    NormalisedAllPointwise(vs);
    assert NormalisedAll(vs) == vs;
  }

  /** A policy and its normalised form emit the same entries. */
  lemma NormalisedEmitsSame(p: Policy)
    ensures PolicyEntries(Normalised(p)) == PolicyEntries(p)
  {
    if PolicyValid(p) {
      assert RightsEntries(p.role.value, Normalised(p)) == RightsEntries(p.role.value, p);
    }
  }

  lemma {:induction false} EmitIgnoresNormalisation(ps: seq<Policy>)
    ensures Emit(NormalisedAll(ps)) == Emit(ps)
    decreases |ps|
  {
    if ps != [] {
      var init, p := ps[..|ps| - 1], ps[|ps| - 1];
      EmitIgnoresNormalisation(init);
      NormalisedEmitsSame(p);
      var N := NormalisedAll(init);
      assert (N + [Normalised(p)])[..|N|] == N;
    }
  }

  lemma {:induction false} EmitIgnoresInvalidPolicies(ps: seq<Policy>)
    ensures Emit(ValidPolicies(ps)) == Emit(ps)
    decreases |ps|
  {
    if ps != [] {
      var init, p := ps[..|ps| - 1], ps[|ps| - 1];
      EmitIgnoresInvalidPolicies(init);
      var V := ValidPolicies(init);
      if PolicyValid(p) {
        assert (V + [p])[..|V + [p]| - 1] == V;
      } else {
        assert ValidPolicies(ps) == V;
      }
    }
  }

  /** Read and write entries carry booleans, as the persisted ACL does. */
  predicate BooleanRights(es: seq<AccessEntry>) {
    forall i :: 0 <= i < |es| && !IsCustom(es[i].action) ==> es[i].allow.AllowBool?
  }

  lemma FoldIsReloadSafe(es: seq<AccessEntry>)
    ensures ReloadSafe(Fold(es))
  {
    FoldSummarisesEntries(es);
    FoldOnePolicyPerRole(es);
  }

  lemma FoldIsRoundTripSafe(es: seq<AccessEntry>)
    requires BooleanRights(es)
    ensures RoundTripSafe(Fold(es))
  {
    FoldIsReloadSafe(es);
    FoldSummarisesEntries(es);
    var D := FirstSeen(Roles(es));
    forall i | 0 <= i < |Fold(es)|
      ensures Fold(es)[i].read.AllowBool? && Fold(es)[i].write.AllowBool?
    {
      var r := D[i];
      LastAllowIsLastWrite(es, r, ReadAction);
      LastAllowIsLastWrite(es, r, WriteAction);
      if exists j :: 0 <= j < |es| && Names(es[j], r, ReadAction) {
        var j :| 0 <= j < |es| && Names(es[j], r, ReadAction) && LastAllow(es, r, ReadAction) == es[j].allow;
      }
      if exists j :: 0 <= j < |es| && Names(es[j], r, WriteAction) {
        var j :| 0 <= j < |es| && Names(es[j], r, WriteAction) && LastAllow(es, r, WriteAction) == es[j].allow;
      }
    }
  }

  /**
   * Saving is stable for every loaded list: reloading what `accessSave` emitted
   * gives the valid policies with falsy rights read as `false`, and saving
   * again emits the same list.
   */
  lemma SaveAfterReloadIsStable(es: seq<AccessEntry>)
    ensures Fold(Emit(Fold(es))) == NormalisedAll(ValidPolicies(Fold(es)))
    ensures Emit(Fold(Emit(Fold(es)))) == Emit(Fold(es))
  {
    FoldIsReloadSafe(es);
    ReloadNormalises(Fold(es));
    EmitIgnoresNormalisation(ValidPolicies(Fold(es)));
    EmitIgnoresInvalidPolicies(Fold(es));
  }

  /** When the loaded list's read and write entries carry booleans, the reload gives exactly the valid policies. */
  lemma ReloadGivesValidPolicies(es: seq<AccessEntry>)
    requires BooleanRights(es)
    ensures Fold(Emit(Fold(es))) == ValidPolicies(Fold(es))
  {
    FoldIsRoundTripSafe(es);
    RoundTrip(Fold(es));
  }

  // ---------------------------------------------------------------------------
  // Deleting a policy (deletePolicy)
  // ---------------------------------------------------------------------------

  /** `deletePolicy`'s match: same role, same write, same read; actions are not compared. */
  predicate SameRule(p: Policy, target: Policy) {
    p.role == target.role && p.write == target.write && p.read == target.read
  }

  /** Index of the last policy matching `target`, if any. */
  function LastMatch(ps: seq<Policy>, target: Policy): (r: Option<nat>)
    decreases |ps|
    ensures r.Some? ==> r.value < |ps| && SameRule(ps[r.value], target)
    ensures r.Some? ==> forall j :: r.value < j < |ps| ==> !SameRule(ps[j], target)
    ensures r.None? ==> forall j :: 0 <= j < |ps| ==> !SameRule(ps[j], target)
  {
    if ps == [] then None
    else if SameRule(ps[|ps| - 1], target) then Some(|ps| - 1)
    else LastMatch(ps[..|ps| - 1], target)
  }

  /** The policies `deletePolicy` leaves: the last match removed, the rest in order. */
  function RemoveLastMatch(ps: seq<Policy>, target: Policy): (r: seq<Policy>)
    ensures (forall j :: 0 <= j < |ps| ==> !SameRule(ps[j], target)) ==> r == ps
    ensures (exists j :: 0 <= j < |ps| && SameRule(ps[j], target)) ==>
      exists i :: 0 <= i < |ps| && SameRule(ps[i], target) &&
        (forall j :: i < j < |ps| ==> !SameRule(ps[j], target)) &&
        r == ps[..i] + ps[i + 1..]
    ensures |ps| - 1 <= |r| <= |ps|
  {
    match LastMatch(ps, target)
    case None => ps
    case Some(i) => ps[..i] + ps[i + 1..]
  }
}
