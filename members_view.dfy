/**
 * The roster screen (components/Members.tsx): who may manage roles, the
 * search filter, the founder badge, the enablement of the role toggles, and
 * the CSV / JSON export guards and CSV layout.
 */
module MembersView {
  import opened ClubTypes
  import opened Roster
  import opened Text
  import Csv

  /** Role toggles and Add Member are offered only when the acting member is an owner. */
  predicate CanManageRoles(activeMember: Option<Member>)
  {
    activeMember.Some? && activeMember.value.isOwner == Some(true)
  }

  /**
   * Role management belongs to owners: on a roster of unique ids, the acting
   * member looked up by id may manage roles exactly when it is an owner, and
   * nobody may when no acting member is found.
   */
  lemma OnlyOwnersManageRoles(ms: seq<Member>, k: int)
    requires IdsUnique(ms) && 0 <= k < |ms|
    ensures CanManageRoles(FindById(ms, ms[k].id)) <==> HasRole(ms[k], Owner)
    ensures !CanManageRoles(None)
  {
    FindByUniqueId(ms, k);
  }

  /** The instrument a member is listed under: the free text for OTHER when given, else the label. */
  function DisplayInstrument(m: Member): (name: string)
    ensures m.instrument != Other ==> name == InstrumentLabel(m.instrument)
    ensures m.instrument == Other ==> name == (if m.otherInstrument != "" then m.otherInstrument else "Other")
  {
    if m.instrument == Other && m.otherInstrument != "" then m.otherInstrument else InstrumentLabel(m.instrument)
  }

  /** The search predicate: the query, ignoring case, occurs in the name or the listed instrument. */
  predicate MatchesSearch(m: Member, query: string)
  {
    MatchesIgnoringCase(m.fullName, query) || MatchesIgnoringCase(DisplayInstrument(m), query)
  }

  /** `filteredMembers`: the members matching the query, in roster order. */
  function FilterMembers(ms: seq<Member>, query: string): (r: seq<Member>)
    ensures |r| <= |ms|
    ensures forall m :: m in r <==> m in ms && MatchesSearch(m, query)
  {
    if ms == [] then []
    else
      var rest := FilterMembers(ms[1..], query);
      assert forall m :: m in ms <==> m == ms[0] || m in ms[1..];
      if MatchesSearch(ms[0], query) then [ms[0]] + rest else rest
  }

  /** One unfolding of the search filter. */
  lemma FilterMembersCons(ms: seq<Member>, query: string)
    requires ms != []
    ensures FilterMembers(ms, query) ==
      (if MatchesSearch(ms[0], query) then [ms[0]] else []) + FilterMembers(ms[1..], query)
  {
  }

  /**
   * The search keeps roster order: searching a joined roster searches each
   * part and lists the matches of the first part before those of the second.
   */
  lemma {:induction false} FilterMembersSplits(a: seq<Member>, b: seq<Member>, query: string)
    ensures FilterMembers(a + b, query) == FilterMembers(a, query) + FilterMembers(b, query)
  {
    if a == [] {
      assert a + b == b;
    } else {
      FilterMembersConsJoin(a, b, query);
      FilterMembersSplits(a[1..], b, query);
      FilterMembersCons(a, query);
      var head := if MatchesSearch(a[0], query) then [a[0]] else [];
      JoinRegroup(FilterMembers(a + b, query), FilterMembers(a[1..] + b, query),
        FilterMembers(a, query), FilterMembers(a[1..], query), FilterMembers(b, query), head);
    }
  }

  /** One unfolding of the filter on a joined list whose first part is not empty. */
  lemma FilterMembersConsJoin(a: seq<Member>, b: seq<Member>, query: string)
    requires a != []
    ensures FilterMembers(a + b, query) ==
      (if MatchesSearch(a[0], query) then [a[0]] else []) + FilterMembers(a[1..] + b, query)
  {
    FilterMembersCons(a + b, query);
    assert (a + b)[0] == a[0];
    assert (a + b)[1..] == a[1..] + b;
  }


  /** An empty search box lists the whole roster, in order. */
  lemma {:induction false} EmptySearchListsAll(ms: seq<Member>)
    ensures FilterMembers(ms, "") == ms
  {
    if ms != [] {
      EmptyQueryMatches(ms[0].fullName);
      EmptySearchListsAll(ms[1..]);
      assert [ms[0]] + ms[1..] == ms;
    }
  }

  /** The founder badge: the member's position in the roster is one of the first three. */
  predicate IsFounder(ms: seq<Member>, m: Member)
  {
    var k := IndexOfId(ms, m.id);
    k < 3 && k != -1
  }

  /** On a roster of unique ids, the founders are exactly the first three entries. */
  lemma FoundersAreFirstThree(ms: seq<Member>, k: int)
    requires IdsUnique(ms) && 0 <= k < |ms|
    ensures IsFounder(ms, ms[k]) <==> k < 3
  {
    FindByUniqueId(ms, k);
  }

  /**
   * The badge goes to a member whose id appears among the first three roster
   * entries, and only to such a member.
   */
  lemma FounderIffAmongFirstThree(ms: seq<Member>, m: Member)
    ensures IsFounder(ms, m) <==> exists k :: 0 <= k < |ms| && k < 3 && ms[k].id == m.id
  {
    var i := IndexOfId(ms, m.id);
    if exists k :: 0 <= k < |ms| && k < 3 && ms[k].id == m.id {
      var k :| 0 <= k < |ms| && k < 3 && ms[k].id == m.id;
      assert i != -1 && i <= k;
    }
  }

  /** `canBecomeOwner` / `canBecomeFinanceOfficer`. */
  predicate CanBecome(ms: seq<Member>, m: Member, role: Role)
  {
    !HasRole(m, role) && RoleCount(ms, role) < Ceiling(role)
  }

  /**
   * On a roster of unique ids, a member can become a holder of the role
   * exactly when it lacks the role and the handler would grant it.
   */
  lemma CanBecomeIffGrantAccepted(ms: seq<Member>, k: int, role: Role)
    requires IdsUnique(ms) && 0 <= k < |ms|
    ensures CanBecome(ms, ms[k], role) <==> !HasRole(ms[k], role) && ToggleRole(ms, role, ms[k].id).Success?
  {
    FindByUniqueId(ms, k);
    GrantIffBelowCeiling(ms, role, ms[k].id);
  }

  /** A role toggle is disabled when the member lacks the role and cannot gain it. */
  predicate ToggleEnabled(ms: seq<Member>, m: Member, role: Role)
  {
    !(!HasRole(m, role) && !CanBecome(ms, m, role))
  }

  /**
   * The button agrees with the handler: on a roster of unique ids, a
   * member's toggle is enabled exactly when toggling that member succeeds.
   */
  lemma ToggleEnabledIffAccepted(ms: seq<Member>, k: int, role: Role)
    requires IdsUnique(ms) && 0 <= k < |ms|
    ensures ToggleEnabled(ms, ms[k], role) <==> ToggleRole(ms, role, ms[k].id).Success?
  {
    FindByUniqueId(ms, k);
    GrantIffBelowCeiling(ms, role, ms[k].id);
  }

  datatype ExportError = NoMembers

  /** `handleExportJSON`: refused on an empty roster; the JSON text itself is not modelled. */
  function ExportJson(ms: seq<Member>): (r: Result<seq<Member>, ExportError>)
    ensures r.Failure? <==> ms == []
    ensures r.Success? ==> r.value == ms
  {
    if ms == [] then Failure(NoMembers) else Success(ms)
  }

  /** The CSV columns, in order. */
  const HEADERS: seq<string> := ["id", "fullName", "email", "phone", "instrument", "otherInstrument",
                                "skillLevel", "experience", "verificationStatus", "isOwner", "isFinanceOfficer"]

  /** `String(x ?? '')` of an optional flag. */
  function FlagCell(b: Option<bool>): (s: string)
    ensures b == None <==> s == ""
  {
    match b
    case None => ""
    case Some(v) => if v then "true" else "false"
  }

  /** The cells of one member, in the order of `HEADERS`. */
  function MemberCells(m: Member): (cells: seq<string>)
    ensures |cells| == |HEADERS|
    ensures cells[0] == m.id && cells[1] == m.fullName && cells[2] == m.email && cells[3] == m.phone
    ensures cells[4] == InstrumentLabel(m.instrument) && cells[5] == m.otherInstrument
    ensures cells[6] == SkillLabel(m.skillLevel) && cells[7] == m.experience
    ensures cells[8] == StatusLabel(m.verificationStatus)
    ensures cells[9] == FlagCell(m.isOwner) && cells[10] == FlagCell(m.isFinanceOfficer)
  {
    [m.id, m.fullName, m.email, m.phone, InstrumentLabel(m.instrument), m.otherInstrument,
     SkillLabel(m.skillLevel), m.experience, StatusLabel(m.verificationStatus),
     FlagCell(m.isOwner), FlagCell(m.isFinanceOfficer)]
  }

  /** The exported table: the header record, then one record per member. */
  function Table(ms: seq<Member>): (t: seq<seq<string>>)
    ensures |t| == |ms| + 1 && t[0] == HEADERS
    ensures forall i :: 0 <= i < |ms| ==> t[i + 1] == MemberCells(ms[i])
  {
    [HEADERS] + seq(|ms|, i requires 0 <= i < |ms| => MemberCells(ms[i]))
  }

  /** `handleExportCSV`: refused on an empty roster; the header line is written unescaped. */
  function ExportCsv(ms: seq<Member>): (r: Result<string, ExportError>)
    ensures r.Failure? <==> ms == []
  {
    if ms == [] then Failure(NoMembers)
    else
      var t := Table(ms);
      Success(Csv.JoinLines([Csv.JoinCells(t[0])] + Csv.Lines(t[1..])))
  }

  /** No header needs quoting, so writing it unescaped is writing it escaped. */
  lemma HeadersNeedNoQuoting()
    ensures Csv.EscapeCells(HEADERS) == HEADERS
  {
    forall i | 0 <= i < |HEADERS| ensures !Csv.NeedsQuoting(HEADERS[i]) {
      LettersNeedNoQuoting(HEADERS[i]);
    }
    Csv.EscapeCellsClean(HEADERS);
  }

  /** A text of ASCII letters needs no quoting. */
  lemma LettersNeedNoQuoting(s: string)
    requires forall k :: 0 <= k < |s| ==> 'A' <= s[k] <= 'Z' || 'a' <= s[k] <= 'z'
    ensures !Csv.NeedsQuoting(s)
  {
  }

  /**
   * The export round trip: reading the CSV back gives the header record
   * followed by each member's cells, whatever the names, notes and free
   * text contain.
   */
  lemma ExportCsvRoundTrip(ms: seq<Member>)
    requires ms != []
    ensures Csv.ParseCsv(ExportCsv(ms).value) == Table(ms)
  {
    var t := Table(ms);
    ExportIsWrite(ms);
    TableRecordsNonEmpty(ms);
    Csv.WriteThenParse(t);
  }

  /** The exported text is what the CSV writer produces for the table. */
  lemma ExportIsWrite(ms: seq<Member>)
    requires ms != []
    ensures ExportCsv(ms).value == Csv.Write(Table(ms))
  {
    var t := Table(ms);
    assert Csv.Line(t[0]) == Csv.JoinCells(t[0]) by {
      HeadersNeedNoQuoting();
    }
    LinesSplit(t);
  }

  /** The lines of a table are its first record's line followed by the lines of the rest. */
  lemma LinesSplit(t: seq<seq<string>>)
    requires t != []
    ensures Csv.Lines(t) == [Csv.Line(t[0])] + Csv.Lines(t[1..])
  {
    var ls := Csv.Lines(t);
    var tail := Csv.Lines(t[1..]);
    var expected := [Csv.Line(t[0])] + tail;
    assert |ls| == |expected|;
    forall i | 0 <= i < |ls| ensures ls[i] == expected[i] {
      if i > 0 {
        assert t[1..][i - 1] == t[i];
        assert expected[i] == tail[i - 1];
      }
    }
    assert ls == expected;
  }

  /** Every record of the table has at least one cell. */
  lemma TableRecordsNonEmpty(ms: seq<Member>)
    ensures forall i :: 0 <= i < |Table(ms)| ==> |Table(ms)[i]| >= 1
  {
    var t := Table(ms);
    forall i | 0 <= i < |t| ensures |t[i]| >= 1 {
      if i > 0 { assert t[(i - 1) + 1] == MemberCells(ms[i - 1]); }
    }
  }
}
