/**
 * The club's record shapes: members, events, ledger entries, and the enums
 * they are built on. Every other module works on these values.
 */
module ClubTypes {

  datatype Option<+T> = None | Some(value: T)

  datatype Result<+R, +E> = Success(value: R) | Failure(error: E)

  /** The six instruments a member can play; OTHER is qualified by free text. */
  datatype Instrument = Roto | Drum | ThapDhol | Base | Tasha | Other

  datatype SkillLevel = Beginner | Intermediate | Advanced

  datatype VerificationStatus = Pending | Verified

  /** Which flow the biometric modal was opened for. */
  datatype FingerprintMode = RegisterMode | CheckInMode

  /** Status of the registration form. */
  datatype FormStatus = Idle | Loading | FormSuccess | FormError

  /** The string each instrument stands for in the user interface and in exports. */
  function InstrumentLabel(i: Instrument): string
  {
    match i
    case Roto => "Roto"
    case Drum => "Drum"
    case ThapDhol => "Thap-Dhol"
    case Base => "Base"
    case Tasha => "Tasha"
    case Other => "Other"
  }

  function SkillLabel(s: SkillLevel): string
  {
    match s
    case Beginner => "Beginner"
    case Intermediate => "Intermediate"
    case Advanced => "Advanced"
  }

  function StatusLabel(v: VerificationStatus): string
  {
    match v
    case Pending => "pending"
    case Verified => "verified"
  }

  /** Every instrument, each exactly once, in declaration order. */
  function AllInstruments(): (r: seq<Instrument>)
    ensures |r| == 6
    ensures forall i: Instrument :: i in r
    ensures forall j, k :: 0 <= j < k < |r| ==> r[j] != r[k]
    ensures forall j, k :: 0 <= j < k < |r| ==> InstrumentLabel(r[j]) != InstrumentLabel(r[k])
  {
    var r := [Roto, Drum, ThapDhol, Base, Tasha, Other];
    assert forall i: Instrument :: i in r by {
      forall i: Instrument ensures i in r {
        assert i == r[0] || i == r[1] || i == r[2] || i == r[3] || i == r[4] || i == r[5];
      }
    }
    r
  }

  /** Every skill level, each exactly once. */
  function AllSkillLevels(): (r: seq<SkillLevel>)
    ensures |r| == 3
    ensures forall s: SkillLevel :: s in r
    ensures forall j, k :: 0 <= j < k < |r| ==> SkillLabel(r[j]) != SkillLabel(r[k])
  {
    var r := [Beginner, Intermediate, Advanced];
    assert forall s: SkillLevel :: s in r by {
      forall s: SkillLevel ensures s in r {
        assert s == r[0] || s == r[1] || s == r[2];
      }
    }
    r
  }

  /** What the registration form collects. */
  datatype RegistrationFormData = RegistrationFormData(
    fullName: string,
    email: string,
    phone: string,
    photo: string,
    instrument: Instrument,
    otherInstrument: string,
    skillLevel: SkillLevel,
    experience: string)

  /**
   * A roster entry. The optional flags are kept optional because an absent
   * flag and a false flag are told apart by the CSV export. `payRate` is the
   * optional pay per event attended, in whole currency units.
   */
  datatype Member = Member(
    id: string,
    fullName: string,
    email: string,
    phone: string,
    photo: string,
    instrument: Instrument,
    otherInstrument: string,
    skillLevel: SkillLevel,
    experience: string,
    verificationToken: string,
    verificationStatus: VerificationStatus,
    isOwner: Option<bool>,
    isFinanceOfficer: Option<bool>,
    webAuthnCredentialId: Option<string>,
    payRate: Option<int>)
  {
    /** The payout for one attended event; a missing rate pays nothing. */
    function Payout(): int
    {
      match payRate
      case Some(r) => r
      case None => 0
    }
  }

  /**
   * A scheduled jam. The three sets hold member ids, never members; `date` is
   * an opaque comparable timestamp.
   */
  datatype JamEvent = JamEvent(
    id: int,
    title: string,
    date: int,
    attendees: seq<string>,
    checkedInMembers: seq<string>,
    paidMembers: seq<string>)

  /** One ledger entry: positive for deposits, negative for withdrawals and payments. */
  datatype Transaction = Transaction(id: string, date: int, description: string, amount: int)

  /** The club's treasury: a balance and its transactions, newest first. */
  datatype Financials = Financials(balance: int, transactions: seq<Transaction>)

  /** The identifier and creation time a new record receives from the platform. */
  datatype Stamp = Stamp(id: string, at: int)

  /** The free-text instrument kept when `instrument` is chosen: cleared unless it is OTHER. */
  function OtherTextAfter(instrument: Instrument, previous: string): (s: string)
    ensures instrument == Other ==> s == previous
    ensures instrument != Other ==> s == ""
  {
    if instrument != Other then "" else previous
  }

  /** True iff no member id occurs twice in the roster. */
  predicate IdsUnique(ms: seq<Member>)
  {
    forall i, j :: 0 <= i < j < |ms| ==> ms[i].id != ms[j].id
  }

  /**
   * Regrouping joined lists: a list that is `head` before `rest`, where `rest`
   * is `partRest` before `tail`, is `head + partRest` before `tail`.
   */
  lemma JoinRegroup<T>(whole: seq<T>, rest: seq<T>, part: seq<T>, partRest: seq<T>, tail: seq<T>, head: seq<T>)
    requires whole == head + rest && rest == partRest + tail && part == head + partRest
    ensures whole == part + tail
  {
  }
}
