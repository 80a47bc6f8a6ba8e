/**
 * The biometric modal (components/FingerprintModal.tsx). Registration stores
 * the credential id a platform authenticator returns on the member record;
 * check-in builds an allow-list from the registered ids and resolves the
 * returned id back to a member by exact equality. The authenticator itself
 * is a parameter: each ceremony's outcome is given, already base64-encoded.
 */
module Fingerprint {
  import opened ClubTypes
  import opened Roster

  datatype ScanStatus = ScanIdle | ScanPending | ScanSucceeded | ScanFailed

  /** What a credential ceremony resolves to. */
  datatype Outcome =
    | Credential(rawId: string)   // a credential, its raw id in base64
    | NoCredential                // the promise resolved to null
    | Thrown(errorMessage: string) // the promise rejected

  const REGISTER_PROMPT := "Follow the instructions from your browser or device..."
  const REGISTER_FALLBACK := "Registration failed. Please try again."
  const CHECKIN_PROMPT := "Ready for check-in. Use your fingerprint or face recognition."
  const NOBODY_REGISTERED := "No members have registered for biometric check-in yet."
  const UNRECOGNIZED := "Unrecognized member. Please register first."
  const CHECKIN_FALLBACK := "Check-in failed. Please try again."

  function RegisteredMessage(fullName: string): string
  {
    "Success! Biometric check-in is now enabled for " + fullName + "."
  }

  function WelcomeMessage(fullName: string): string
  {
    "Welcome, " + fullName + "! You are checked in."
  }

  /** An error's own message when it has one, the fallback otherwise. */
  function ErrorText(thrown: string, fallback: string): (s: string)
    ensures s != "" <== fallback != ""
    ensures thrown != "" ==> s == thrown
    ensures thrown == "" ==> s == fallback
  {
    if thrown != "" then thrown else fallback
  }

  /**
   * How a check-in ends: with nobody registered it fails at once; otherwise a
   * matching credential checks its member in, an unknown one is refused, no
   * credential leaves the prompt up and an error shows its message.
   */
  predicate CheckInSettles(allMembers: seq<Member>, outcome: Outcome, checkedIn: Option<string>,
                           status: ScanStatus, message: string)
  {
    if AllowList(allMembers) == [] then
      checkedIn.None? && status == ScanFailed && message == NOBODY_REGISTERED
    else
      match outcome
      case Credential(c) =>
        (match FindByCredential(allMembers, c)
         case Some(m) => checkedIn == Some(m.id) && status == ScanSucceeded && message == WelcomeMessage(m.fullName)
         case None => checkedIn.None? && status == ScanFailed && message == UNRECOGNIZED)
      case NoCredential => checkedIn.None? && status == ScanPending && message == CHECKIN_PROMPT
      case Thrown(e) => checkedIn.None? && status == ScanFailed && message == ErrorText(e, CHECKIN_FALLBACK)
  }

  /** A member with a non-empty credential id offers it for check-in. */
  predicate Registered(m: Member)
  {
    m.webAuthnCredentialId.Some? && m.webAuthnCredentialId.value != ""
  }

  /** `allowCredentials`: the registered credential ids, in roster order. */
  function AllowList(ms: seq<Member>): (ids: seq<string>)
    ensures |ids| <= |ms|
    ensures forall c :: c in ids <==> exists m :: m in ms && Registered(m) && m.webAuthnCredentialId == Some(c)
  {
    if ms == [] then []
    else
      var rest := AllowList(ms[1..]);
      assert forall m :: m in ms <==> m == ms[0] || m in ms[1..];
      if Registered(ms[0]) then [ms[0].webAuthnCredentialId.value] + rest else rest
  }

  /** The first member whose stored credential id is exactly `credentialId`. */
  function FindByCredential(ms: seq<Member>, credentialId: string): (r: Option<Member>)
    ensures r.None? <==> forall i :: 0 <= i < |ms| ==> ms[i].webAuthnCredentialId != Some(credentialId)
    ensures r.Some? ==>
      (r.value.webAuthnCredentialId == Some(credentialId) &&
       exists k :: 0 <= k < |ms| && ms[k] == r.value &&
         forall i :: 0 <= i < k ==> ms[i].webAuthnCredentialId != Some(credentialId))
  {
    if ms == [] then None
    else if ms[0].webAuthnCredentialId == Some(credentialId) then Some(ms[0])
    else
      var r := FindByCredential(ms[1..], credentialId);
      if r.Some? then
        var k :| 1 <= k + 1 < |ms| && ms[1..][k] == r.value &&
          forall i :: 0 <= i < k ==> ms[1..][i].webAuthnCredentialId != Some(credentialId);
        assert ms[k + 1] == r.value;
        assert forall i :: 0 <= i < k + 1 ==> ms[i].webAuthnCredentialId != Some(credentialId) by {
          forall i | 0 <= i < k + 1 ensures ms[i].webAuthnCredentialId != Some(credentialId) {
            if i > 0 { assert ms[i] == ms[1..][i - 1]; }
          }
        }
        r
      else r
  }

  /**
   * Registering `m`'s credential and then checking in with it finds `m`'s
   * updated record, provided `m` is on a roster of unique ids and nobody
   * else already holds that credential id.
   */
  lemma RegisterThenCheckIn(ms: seq<Member>, m: Member, credentialId: string)
    requires IdsUnique(ms) && m in ms
    requires forall i :: 0 <= i < |ms| && ms[i].id != m.id ==> ms[i].webAuthnCredentialId != Some(credentialId)
    ensures var updated := m.(webAuthnCredentialId := Some(credentialId));
      FindByCredential(ReplaceById(ms, updated), credentialId) == Some(updated) &&
      (credentialId != "" ==> credentialId in AllowList(ReplaceById(ms, updated)))
  {
    var updated := m.(webAuthnCredentialId := Some(credentialId));
    var r := ReplaceById(ms, updated);
    var k :| 0 <= k < |ms| && ms[k] == m;
    assert r[k] == updated;
    assert forall i :: 0 <= i < |r| && r[i].webAuthnCredentialId == Some(credentialId) ==> r[i] == updated;
    assert r[k] in r;
  }

  /** The modal's own state: a status and the message shown under the icon. */
  class FingerprintModal {
    var status: ScanStatus
    var message: string

    constructor ()
      ensures status == ScanIdle && message == ""
    {
      status := ScanIdle;
      message := "";
    }

    /** `resetState`, also what opening and closing the modal do first. */
    method ResetState()
      modifies this
      ensures status == ScanIdle && message == ""
    {
      status := ScanIdle;
      message := "";
    }

    /**
     * `handleRegister`: without a member nothing happens. Otherwise the
     * returned record, when there is one, is the member with the new
     * credential id, for the caller to store.
     */
    method Register(member: Option<Member>, outcome: Outcome) returns (update: Option<Member>)
      modifies this
      ensures member.None? ==> update.None? && status == old(status) && message == old(message)
      ensures member.Some? ==> match outcome
        case Credential(c) =>
          update == Some(member.value.(webAuthnCredentialId := Some(c))) &&
          status == ScanSucceeded && message == RegisteredMessage(member.value.fullName)
        case NoCredential =>
          update.None? && status == ScanPending && message == REGISTER_PROMPT
        case Thrown(e) =>
          update.None? && status == ScanFailed && message == ErrorText(e, REGISTER_FALLBACK)
    {
      update := None;
      if member.None? {
        return;
      }
      var m := member.value;
      status, message := ScanPending, REGISTER_PROMPT;
      match outcome
      case Credential(c) =>
        update := Some(m.(webAuthnCredentialId := Some(c)));
        status, message := ScanSucceeded, RegisteredMessage(m.fullName);
      case NoCredential =>
      case Thrown(e) =>
        status, message := ScanFailed, ErrorText(e, REGISTER_FALLBACK);
    }

    /**
     * `handleCheckIn`: with nobody registered the ceremony is not started.
     * Otherwise a returned credential that matches a member checks that
     * member in; the returned id is what the caller records.
     */
    method CheckIn(allMembers: seq<Member>, outcome: Outcome) returns (checkedIn: Option<string>)
      modifies this
      ensures CheckInSettles(allMembers, outcome, checkedIn, status, message)
      ensures checkedIn.Some? ==>
        exists m :: m in allMembers && m.id == checkedIn.value && m.webAuthnCredentialId.Some?
    {
      checkedIn := None;
      status, message := ScanPending, CHECKIN_PROMPT;
      if AllowList(allMembers) == [] {
        status, message := ScanFailed, NOBODY_REGISTERED;
        return;
      }
      match outcome
      case Credential(c) =>
        var found := FindByCredential(allMembers, c);
        if found.Some? {
          status, message := ScanSucceeded, WelcomeMessage(found.value.fullName);
          checkedIn := Some(found.value.id);
        } else {
          status, message := ScanFailed, UNRECOGNIZED;
        }
      case NoCredential =>
      case Thrown(e) =>
        status, message := ScanFailed, ErrorText(e, CHECKIN_FALLBACK);
    }

    /**
     * The effect run when the modal opens: reset, and in check-in mode start
     * a check-in at once.
     */
    method Open(mode: FingerprintMode, allMembers: seq<Member>, outcome: Outcome) returns (checkedIn: Option<string>)
      modifies this
      ensures mode == RegisterMode ==> status == ScanIdle && message == "" && checkedIn.None?
      ensures mode == CheckInMode ==> status != ScanIdle
      ensures mode == CheckInMode ==> CheckInSettles(allMembers, outcome, checkedIn, status, message)
      ensures checkedIn.Some? ==>
        (mode == CheckInMode &&
         exists m :: m in allMembers && m.id == checkedIn.value && m.webAuthnCredentialId.Some?)
    {
      ResetState();
      checkedIn := None;
      if mode == CheckInMode {
        checkedIn := CheckIn(allMembers, outcome);
      }
    }
  }
}
