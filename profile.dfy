/**
 * A member's profile page (components/MemberProfile.tsx). Editing works on
 * a private copy of the member record; Cancel throws the copy away and Save
 * hands the whole copy to the roster's wholesale replace-by-id. The member
 * shown (`member`) is the page's input and is passed to each handler.
 */
module Profile {
  import opened ClubTypes
  import opened Roster
  import Club

  /** The text inputs wired to `handleChange`. */
  datatype TextField = FullName | Email | Phone | OtherInstrument | Experience

  /** `{ ...prev, [name]: value }` for a text input. */
  function WithText(m: Member, field: TextField, value: string): (r: Member)
    ensures field == FullName ==> r == m.(fullName := value)
    ensures field == Email ==> r == m.(email := value)
    ensures field == Phone ==> r == m.(phone := value)
    ensures field == OtherInstrument ==> r == m.(otherInstrument := value)
    ensures field == Experience ==> r == m.(experience := value)
  {
    match field
    case FullName => m.(fullName := value)
    case Email => m.(email := value)
    case Phone => m.(phone := value)
    case OtherInstrument => m.(otherInstrument := value)
    case Experience => m.(experience := value)
  }

  /**
   * The fields no input on the page can change: the id, the roles, the
   * verification state and the credential. An edited copy keeps them.
   */
  predicate SameIdentity(a: Member, b: Member)
  {
    a.id == b.id && a.isOwner == b.isOwner && a.isFinanceOfficer == b.isFinanceOfficer &&
    a.verificationToken == b.verificationToken && a.verificationStatus == b.verificationStatus &&
    a.webAuthnCredentialId == b.webAuthnCredentialId
  }

  class ProfileEditor {
    var isEditing: bool
    var editable: Member

    /** The page opens in view mode, its copy being the member itself. */
    constructor (member: Member)
      ensures !isEditing && editable == member
    {
      isEditing := false;
      editable := member;
    }

    /** `handleEditToggle`: entering edit mode starts again from the member as shown. */
    method EditToggle(member: Member)
      modifies this
      ensures isEditing == !old(isEditing)
      ensures editable == if old(isEditing) then old(editable) else member
    {
      if !isEditing {
        editable := member;
      }
      isEditing := !isEditing;
    }

    /** `handleCancel`: the edits are discarded. */
    method Cancel(member: Member)
      modifies this
      ensures !isEditing && editable == member
    {
      isEditing := false;
      editable := member;
    }

    /** A text input changed. */
    method ChangeText(field: TextField, value: string)
      modifies this`editable
      ensures editable == WithText(old(editable), field, value)
      ensures SameIdentity(old(editable), editable)
    {
      editable := WithText(editable, field, value);
    }

    /**
     * The pay-rate input changed: an emptied input clears the rate;
     * otherwise `parsed` is the number typed.
     */
    method ChangePayRate(raw: string, parsed: int)
      modifies this`editable
      ensures editable == old(editable).(payRate := if raw == "" then None else Some(parsed))
      ensures raw == "" ==> editable.payRate.None? && editable.Payout() == 0
      ensures SameIdentity(old(editable), editable)
    {
      editable := editable.(payRate := if raw == "" then None else Some(parsed));
    }

    /** `handleRadioChange` on the skill level. */
    method ChangeSkill(level: SkillLevel)
      modifies this`editable
      ensures editable == old(editable).(skillLevel := level)
      ensures SameIdentity(old(editable), editable)
    {
      editable := editable.(skillLevel := level);
    }

    /** `handleInstrumentChange`: leaving OTHER clears its free text. */
    method ChangeInstrument(instrument: Instrument)
      modifies this`editable
      ensures editable == old(editable).(instrument := instrument,
        otherInstrument := OtherTextAfter(instrument, old(editable).otherInstrument))
      ensures SameIdentity(old(editable), editable)
    {
      editable := editable.(instrument := instrument,
        otherInstrument := OtherTextAfter(instrument, editable.otherInstrument));
    }

    /**
     * `handleSave`: the whole copy replaces the roster entry with its id, and
     * the page leaves edit mode. A copy of a roster member that kept its
     * identity keeps the role ceilings.
     */
    method Save(club: Club.ClubState, member: Member)
      modifies this`isEditing, club`members
      ensures club.members == ReplaceById(old(club.members), editable)
      ensures !isEditing && editable == old(editable)
      ensures forall i :: 0 <= i < |club.members| && club.members[i].id == member.id ==>
        (old(SameIdentity(member, editable)) ==> club.members[i] == editable)
      ensures old(IdsUnique(club.members) && WithinCeilings(club.members) && member in club.members &&
                  SameIdentity(member, editable))
        ==> IdsUnique(club.members) && WithinCeilings(club.members)
    {
      if IdsUnique(club.members) && member in club.members && SameIdentity(member, editable) {
        var k :| 0 <= k < |club.members| && club.members[k] == member;
        forall i | 0 <= i < |club.members| && club.members[i].id == editable.id
          ensures HasRole(club.members[i], Owner) == HasRole(editable, Owner)
          ensures HasRole(club.members[i], FinanceOfficer) == HasRole(editable, FinanceOfficer)
        {
          assert i == k;
        }
      }
      club.UpdateMember(editable);
      isEditing := false;
    }
  }
}
