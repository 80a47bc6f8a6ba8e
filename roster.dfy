/**
 * The next-value computations of the member handlers in App.tsx: token
 * verification, wholesale replace-by-id, and the owner / finance-officer
 * toggles with their ceilings.
 */
module Roster {
  import opened ClubTypes

  const MEMBER_LIMIT := 50
  const OWNER_LIMIT := 5
  const FINANCE_OFFICER_LIMIT := 3

  /** `members.findIndex(m => m.id === id)`. */
  function IndexOfId(ms: seq<Member>, id: string): (k: int)
    ensures -1 <= k < |ms|
    ensures k == -1 <==> forall i :: 0 <= i < |ms| ==> ms[i].id != id
    ensures k >= 0 ==> ms[k].id == id && forall i :: 0 <= i < k ==> ms[i].id != id
  {
    if ms == [] then -1
    else if ms[0].id == id then 0
    else
      var k := IndexOfId(ms[1..], id);
      if k == -1 then -1 else k + 1
  }

  /** `members.find(m => m.id === id)`. */
  function FindById(ms: seq<Member>, id: string): (r: Option<Member>)
    ensures r.None? <==> forall i :: 0 <= i < |ms| ==> ms[i].id != id
    ensures r.Some? ==> r.value in ms && r.value.id == id
  {
    var k := IndexOfId(ms, id);
    if k == -1 then None else Some(ms[k])
  }

  /** In a roster with unique ids, the member found by id is the one at that index. */
  lemma FindByUniqueId(ms: seq<Member>, k: int)
    requires IdsUnique(ms) && 0 <= k < |ms|
    ensures IndexOfId(ms, ms[k].id) == k
    ensures FindById(ms, ms[k].id) == Some(ms[k])
  {
  }

  /** `members.findIndex(m => m.verificationToken === token)`. */
  function IndexOfToken(ms: seq<Member>, token: string): (k: int)
    ensures -1 <= k < |ms|
    ensures k == -1 <==> forall i :: 0 <= i < |ms| ==> ms[i].verificationToken != token
    ensures k >= 0 ==> (ms[k].verificationToken == token &&
                        forall i :: 0 <= i < k ==> ms[i].verificationToken != token)
  {
    if ms == [] then -1
    else if ms[0].verificationToken == token then 0
    else
      var k := IndexOfToken(ms[1..], token);
      if k == -1 then -1 else k + 1
  }

  /**
   * The verification link handler: the first member carrying `token` is
   * flipped from pending to verified; if that member is already verified, or
   * nobody carries the token, the roster is returned as it was.
   */
  function Verify(ms: seq<Member>, token: string): (r: seq<Member>)
    ensures |r| == |ms|
    ensures forall i :: 0 <= i < |ms| ==>
      r[i] == ms[i] ||
      (ms[i].verificationToken == token && ms[i].verificationStatus == Pending &&
       r[i] == ms[i].(verificationStatus := Verified))
    ensures forall i, j :: 0 <= i < j < |ms| && r[i] != ms[i] ==> r[j] == ms[j]
    ensures forall i, j :: 0 <= j < i < |ms| && r[i] != ms[i] ==> ms[j].verificationToken != token
    ensures r != ms <==> exists i :: 0 <= i < |ms| && ms[i].verificationToken == token &&
                                     ms[i].verificationStatus == Pending &&
                                     forall j :: 0 <= j < i ==> ms[j].verificationToken != token
  {
    var k := IndexOfToken(ms, token);
    if k != -1 && ms[k].verificationStatus == Pending then
      var r := ms[k := ms[k].(verificationStatus := Verified)];
      assert r[k] != ms[k];
      r
    else
      ms
  }

  /** A verification link used twice has the effect of using it once. */
  lemma {:induction false} VerifyIdempotent(ms: seq<Member>, token: string)
    ensures Verify(Verify(ms, token), token) == Verify(ms, token)
  {
    var once := Verify(ms, token);
    var k := IndexOfToken(ms, token);
    assert forall i :: 0 <= i < |ms| ==> once[i].verificationToken == ms[i].verificationToken;
    assert IndexOfToken(once, token) == k;
    if k != -1 {
      assert once[k].verificationStatus == Verified;
    }
  }

  /** `members.map(m => m.id === updated.id ? updated : m)`. */
  function ReplaceById(ms: seq<Member>, updated: Member): (r: seq<Member>)
    ensures |r| == |ms|
    ensures forall i :: 0 <= i < |ms| ==> r[i].id == ms[i].id
    ensures forall i :: 0 <= i < |ms| && ms[i].id != updated.id ==> r[i] == ms[i]
    ensures forall i :: 0 <= i < |ms| && ms[i].id == updated.id ==> r[i] == updated
    ensures (forall i :: 0 <= i < |ms| ==> ms[i].id != updated.id) ==> r == ms
    ensures IdsUnique(ms) ==> IdsUnique(r)
  {
    seq(|ms|, i requires 0 <= i < |ms| => if ms[i].id == updated.id then updated else ms[i])
  }

  /** The two capacity-limited roles. */
  datatype Role = Owner | FinanceOfficer

  /** Refusals of a role toggle. */
  datatype RoleError = UnknownMember | AtCeiling

  function Ceiling(role: Role): nat
  {
    match role
    case Owner => OWNER_LIMIT
    case FinanceOfficer => FINANCE_OFFICER_LIMIT
  }

  /** The role flag read as the handlers and badges read it: absent counts as false. */
  predicate HasRole(m: Member, role: Role)
  {
    match role
    case Owner => m.isOwner == Some(true)
    case FinanceOfficer => m.isFinanceOfficer == Some(true)
  }

  function WithRole(m: Member, role: Role, on: bool): (r: Member)
    ensures HasRole(r, role) == on
    ensures r.id == m.id
    ensures forall other: Role :: other != role ==> HasRole(r, other) == HasRole(m, other)
  {
    match role
    case Owner => m.(isOwner := Some(on))
    case FinanceOfficer => m.(isFinanceOfficer := Some(on))
  }

  /** `members.filter(m => m.isOwner).length`, and likewise for finance officers. */
  function RoleCount(ms: seq<Member>, role: Role): (n: nat)
    ensures n <= |ms|
  {
    if ms == [] then 0
    else (if HasRole(ms[0], role) then 1 else 0) + RoleCount(ms[1..], role)
  }

  predicate WithinCeilings(ms: seq<Member>)
  {
    RoleCount(ms, Owner) <= OWNER_LIMIT && RoleCount(ms, FinanceOfficer) <= FINANCE_OFFICER_LIMIT
  }

  /** Every member carrying `id` gets the flag set to `on`. */
  function SetRoleWhere(ms: seq<Member>, id: string, role: Role, on: bool): (r: seq<Member>)
    ensures |r| == |ms|
    ensures forall i :: 0 <= i < |ms| ==> r[i].id == ms[i].id
  {
    seq(|ms|, i requires 0 <= i < |ms| => if ms[i].id == id then WithRole(ms[i], role, on) else ms[i])
  }

  /**
   * `handleToggleOwner` / `handleToggleFinanceOfficer`: the first member with
   * `id` decides; a holder loses the role, a non-holder gains it only while
   * the role's count is below its ceiling.
   */
  function ToggleRole(ms: seq<Member>, role: Role, id: string): (r: Result<seq<Member>, RoleError>)
    ensures r == Failure(UnknownMember) <==> forall i :: 0 <= i < |ms| ==> ms[i].id != id
    ensures r == Failure(AtCeiling) ==> RoleCount(ms, role) >= Ceiling(role)
    ensures r.Success? ==>
      var k := IndexOfId(ms, id);
      k >= 0 && |r.value| == |ms| &&
      (HasRole(ms[k], role) || RoleCount(ms, role) < Ceiling(role)) &&
      forall i :: 0 <= i < |ms| ==>
        if ms[i].id == id then r.value[i] == WithRole(ms[i], role, !HasRole(ms[k], role))
        else r.value[i] == ms[i]
  {
    match FindById(ms, id)
    case None => Failure(UnknownMember)
    case Some(m) =>
      if HasRole(m, role) then Success(SetRoleWhere(ms, id, role, false))
      else if RoleCount(ms, role) < Ceiling(role) then Success(SetRoleWhere(ms, id, role, true))
      else Failure(AtCeiling)
  }

  lemma SetRoleWhereTail(ms: seq<Member>, id: string, role: Role, on: bool)
    requires ms != []
    ensures SetRoleWhere(ms, id, role, on)[1..] == SetRoleWhere(ms[1..], id, role, on)
  {
  }

  /** Setting the flag of an id no member carries changes nothing. */
  lemma SetRoleWhereAbsent(ms: seq<Member>, id: string, role: Role, on: bool)
    requires forall i :: 0 <= i < |ms| ==> ms[i].id != id
    ensures SetRoleWhere(ms, id, role, on) == ms
  {
  }

  /**
   * With unique ids, setting the flag of member `k` moves the role's count by
   * exactly the change of that one flag.
   */
  lemma {:induction false} RoleCountAfterSet(ms: seq<Member>, id: string, role: Role, on: bool, k: int)
    requires IdsUnique(ms) && 0 <= k < |ms| && ms[k].id == id
    ensures RoleCount(SetRoleWhere(ms, id, role, on), role)
         == RoleCount(ms, role) - (if HasRole(ms[k], role) then 1 else 0) + (if on then 1 else 0)
  {
    var r := SetRoleWhere(ms, id, role, on);
    SetRoleWhereTail(ms, id, role, on);
    assert IdsUnique(ms[1..]);
    if k == 0 {
      assert forall i :: 0 <= i < |ms[1..]| ==> ms[1..][i].id != id by {
        forall i | 0 <= i < |ms[1..]| ensures ms[1..][i].id != id {
          assert ms[i + 1].id != ms[0].id;
        }
      }
      SetRoleWhereAbsent(ms[1..], id, role, on);
    } else {
      assert ms[0].id != id;
      RoleCountAfterSet(ms[1..], id, role, on, k - 1);
    }
  }

  /**
   * The ceiling invariant: in a roster with unique ids whose role count is
   * within the ceiling, a successful toggle keeps it within the ceiling.
   */
  lemma {:induction false} ToggleKeepsCeiling(ms: seq<Member>, role: Role, id: string)
    requires IdsUnique(ms) && RoleCount(ms, role) <= Ceiling(role)
    ensures ToggleRole(ms, role, id).Success? ==>
      RoleCount(ToggleRole(ms, role, id).value, role) <= Ceiling(role)
    ensures ToggleRole(ms, role, id).Success? ==> IdsUnique(ToggleRole(ms, role, id).value)
  {
    var k := IndexOfId(ms, id);
    if k >= 0 {
      RoleCountAfterSet(ms, id, role, !HasRole(ms[k], role), k);
    }
  }

  /** A toggle of one role leaves the count of the other role as it was. */
  lemma {:induction false} ToggleLeavesOtherRole(ms: seq<Member>, role: Role, other: Role, id: string)
    requires other != role
    ensures ToggleRole(ms, role, id).Success? ==>
      RoleCount(ToggleRole(ms, role, id).value, other) == RoleCount(ms, other)
  {
    var r := ToggleRole(ms, role, id);
    if r.Success? {
      RoleCountPointwise(ms, r.value, other);
    }
  }

  lemma {:induction false} RoleCountPointwise(a: seq<Member>, b: seq<Member>, role: Role)
    requires |a| == |b| && forall i :: 0 <= i < |a| ==> HasRole(a[i], role) == HasRole(b[i], role)
    ensures RoleCount(a, role) == RoleCount(b, role)
  {
    if a != [] {
      RoleCountPointwise(a[1..], b[1..], role);
    }
  }

  /** Appending a member adds its own flag to the count. */
  lemma {:induction false} RoleCountAppend(ms: seq<Member>, m: Member, role: Role)
    ensures RoleCount(ms + [m], role) == RoleCount(ms, role) + (if HasRole(m, role) then 1 else 0)
  {
    if ms != [] {
      assert (ms + [m])[1..] == ms[1..] + [m];
      RoleCountAppend(ms[1..], m, role);
    }
  }

  /**
   * Exactly when turning a role on succeeds: for a known member without the
   * role, iff the role's count is below its ceiling; removing a role always
   * succeeds.
   */
  lemma GrantIffBelowCeiling(ms: seq<Member>, role: Role, id: string)
    requires FindById(ms, id).Some?
    ensures !HasRole(FindById(ms, id).value, role) ==>
      (ToggleRole(ms, role, id).Success? <==> RoleCount(ms, role) < Ceiling(role))
    ensures HasRole(FindById(ms, id).value, role) ==> ToggleRole(ms, role, id).Success?
  {
  }

  /** The three seed members loaded on first start; `avatar` is the default photo. */
  function InitialMembers(avatar: string): (r: seq<Member>)
    ensures |r| == 3 && IdsUnique(r)
    ensures RoleCount(r, Owner) == 2 && RoleCount(r, FinanceOfficer) == 1
    ensures forall i :: 0 <= i < |r| ==> r[i].verificationStatus == Verified
  {
    var r := [ Member("1", "Heramb", "heramb@example.com", "123-456-7890", avatar, Drum, "", Advanced,
             "Founder and lead drummer.", "founder1", Verified, Some(true), None, None, Some(4150)),
      Member("2", "Rhythm Raja", "raja@example.com", "123-456-7891", avatar, ThapDhol, "", Advanced,
             "Specializes in traditional beats.", "founder2", Verified, Some(true), Some(true), None, Some(4150)),
      Member("3", "Beatriz", "beatriz@example.com", "123-456-7892", avatar, Tasha, "", Intermediate,
             "Loves high-energy performances.", "founder3", Verified, Some(false), None, None, Some(3320)) ];
    assert r[1..][1..] == [r[2]] && [r[2]][1..] == [];
    assert RoleCount([r[2]], Owner) == 0 && RoleCount([r[2]], FinanceOfficer) == 0;
    assert RoleCount(r[1..], Owner) == 1 && RoleCount(r[1..], FinanceOfficer) == 1;
    r
  }
}
