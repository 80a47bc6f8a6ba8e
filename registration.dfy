/**
 * The registration form (components/RegistrationForm.tsx) and its
 * verification link: the form validates, builds a pending member with a
 * fresh token, hands it to the roster, and shows a link whose `verify`
 * query parameter carries that token back to the app on first load.
 */
module Registration {
  import opened ClubTypes
  import opened Roster
  import Club

  const PHOTO_MISSING := "Please upload a member photo."
  const INSTRUMENT_MISSING := "Please specify your instrument."
  const WELCOME_FAILED := "Something went wrong while generating your welcome message. Please try again later."

  /** The blank form: drum, beginner, every text field empty. */
  function DefaultForm(): (f: RegistrationFormData)
    ensures f.instrument == Drum && f.skillLevel == Beginner
    ensures f.fullName == "" && f.email == "" && f.phone == "" && f.photo == ""
    ensures f.otherInstrument == "" && f.experience == ""
  {
    RegistrationFormData("", "", "", "", Drum, "", Beginner, "")
  }

  /** `handleSubmit`'s checks, in order: a photo, then free text for OTHER. */
  function ValidationError(f: RegistrationFormData): (e: Option<string>)
    ensures e == None <==> f.photo != "" && (f.instrument == Other ==> f.otherInstrument != "")
    ensures f.photo == "" ==> e == Some(PHOTO_MISSING)
    ensures f.photo != "" && f.instrument == Other && f.otherInstrument == "" ==> e == Some(INSTRUMENT_MISSING)
  {
    if f.photo == "" then Some(PHOTO_MISSING)
    else if f.instrument == Other && f.otherInstrument == "" then Some(INSTRUMENT_MISSING)
    else None
  }

  /** The member a valid form becomes: the form's fields, a new id and token, pending, no roles. */
  function NewMember(f: RegistrationFormData, id: string, token: string): (m: Member)
    ensures m.id == id && m.verificationToken == token && m.verificationStatus == Pending
    ensures m.fullName == f.fullName && m.email == f.email && m.phone == f.phone && m.photo == f.photo
    ensures m.instrument == f.instrument && m.otherInstrument == f.otherInstrument
    ensures m.skillLevel == f.skillLevel && m.experience == f.experience
    ensures !HasRole(m, Owner) && !HasRole(m, FinanceOfficer)
    ensures m.webAuthnCredentialId == None && m.payRate == None
  {
    Member(id, f.fullName, f.email, f.phone, f.photo, f.instrument, f.otherInstrument, f.skillLevel,
           f.experience, token, Pending, None, None, None, None)
  }

  /** The form is offered only while the roster is below its limit. */
  predicate FormOffered(memberCount: int, memberLimit: int)
  {
    !(memberCount >= memberLimit)
  }

  /** The form is offered exactly when one more registration still fits under the limit. */
  lemma OfferedIffOneMoreFits(ms: seq<Member>, f: RegistrationFormData, id: string, token: string)
    ensures FormOffered(|ms|, MEMBER_LIMIT) <==> |ms + [NewMember(f, id, token)]| <= MEMBER_LIMIT
  {
  }

  /** `${origin}${pathname}?verify=${token}`. */
  function VerificationLink(origin: string, pathname: string, token: string): string
  {
    origin + pathname + "?verify=" + token
  }

  /** The first position of `c` in `s`, or -1. */
  function FirstIndex(s: string, c: char): (k: int)
    ensures -1 <= k < |s|
    ensures k == -1 <==> c !in s
    ensures k >= 0 ==> s[k] == c && c !in s[..k]
  {
    if s == [] then -1
    else if s[0] == c then 0
    else
      var k := FirstIndex(s[1..], c);
      if k == -1 then -1
      else
        assert s[..k + 1] == [s[0]] + s[1..][..k];
        k + 1
  }

  /**
   * `window.location.search`: from the first `?` up to the fragment, which
   * starts at the first `#`; empty when no `?` comes before the fragment.
   */
  function SearchOf(url: string): string
  {
    var h := FirstIndex(url, '#');
    var beforeFragment := if h == -1 then url else url[..h];
    var k := FirstIndex(beforeFragment, '?');
    if k == -1 then "" else beforeFragment[k..]
  }

  /** A `name=value` pair's name: everything before the first `=`. */
  function ParamName(pair: string): string
  {
    var k := FirstIndex(pair, '=');
    if k == -1 then pair else pair[..k]
  }

  /** A `name=value` pair's value: everything after the first `=`, or empty. */
  function ParamValue(pair: string): string
  {
    var k := FirstIndex(pair, '=');
    if k == -1 then "" else pair[k + 1..]
  }

  /** `URLSearchParams.get(key)` on `&`-separated pairs: the value of the first pair named `key`. */
  function QueryGet(query: string, key: string): (r: Option<string>)
    decreases |query|
  {
    var k := FirstIndex(query, '&');
    var pair := if k == -1 then query else query[..k];
    if ParamName(pair) == key then Some(ParamValue(pair))
    else if k == -1 then None
    else QueryGet(query[k + 1..], key)
  }

  /** The `verify` parameter of a page address, as the app reads it on load. */
  function VerifyParam(url: string): Option<string>
  {
    var search := SearchOf(url);
    QueryGet(if search != [] then search[1..] else search, "verify")
  }

  /** `FirstIndex` is the position of the first occurrence. */
  lemma FirstIndexIs(s: string, c: char, k: int)
    requires 0 <= k < |s| && s[k] == c && c !in s[..k]
    ensures FirstIndex(s, c) == k
  {
    assert s[k] in s;
  }

  /** The query string of a verification link: a single `verify` pair. */
  lemma VerifyQuery(token: string)
    requires '&' !in token
    ensures QueryGet("verify=" + token, "verify") == Some(token)
  {
    var query := "verify=" + token;
    assert query[..6] == "verify" && query[6] == '=' && query[7..] == token;
    assert '=' !in query[..6];
    FirstIndexIs(query, '=', 6);
    assert ParamName(query) == "verify";
    assert '&' !in query by {
      assert forall i :: 0 <= i < 7 ==> query[i] == "verify="[i];
      assert forall i :: 7 <= i < |query| ==> query[i] == token[i - 7];
    }
  }

  /**
   * The tokens the form generates: `Date.now()` and the fractional digits of
   * `Math.random()`, both written in base 36, so digits and lower-case letters.
   */
  predicate Base36(token: string)
  {
    forall i :: 0 <= i < |token| ==> '0' <= token[i] <= '9' || 'a' <= token[i] <= 'z'
  }

  /**
   * The link round trip: the app, loaded from the link, reads back exactly
   * the token, as long as the page address has neither a query nor a
   * fragment of its own. A base-36 token holds none of the characters that
   * would end it early (`&`, `#`) or that reading it back would decode (`+`, `%`).
   */
  lemma LinkCarriesToken(origin: string, pathname: string, token: string)
    requires '?' !in origin + pathname && '#' !in origin + pathname
    requires Base36(token)
    ensures VerifyParam(VerificationLink(origin, pathname, token)) == Some(token)
  {
    var base := origin + pathname;
    var query := "verify=" + token;
    assert '&' !in token && '#' !in token by {
      forall i | 0 <= i < |token| ensures token[i] != '&' && token[i] != '#' { }
    }
    assert '#' !in query by {
      assert forall i :: 0 <= i < 7 ==> query[i] == "verify="[i];
      assert forall i :: 7 <= i < |query| ==> query[i] == token[i - 7];
    }
    assert VerificationLink(origin, pathname, token) == base + ("?" + query);
    SearchAfterBase(base, query);
    assert ("?" + query)[1..] == query;
    VerifyQuery(token);
  }

  /**
   * Without a fragment, the search part of an address whose base has no `?`
   * is everything from the `?` that follows the base.
   */
  lemma SearchAfterBase(base: string, query: string)
    requires '?' !in base && '#' !in base && '#' !in query
    ensures SearchOf(base + ("?" + query)) == "?" + query
  {
    var url := base + ("?" + query);
    assert '#' !in url by {
      forall i | 0 <= i < |url| ensures url[i] != '#' {
        if i < |base| { assert url[i] == base[i]; }
        else if i > |base| { assert url[i] == query[i - |base| - 1]; }
      }
    }
    assert url[|base|] == '?' && url[..|base|] == base;
    FirstIndexIs(url, '?', |base|);
    assert url[|base|..] == "?" + query;
  }

  /**
   * A fragment is not part of the search: appending `#` and anything after
   * it to an address without a fragment leaves its search, and so the
   * `verify` parameter read from it, as they were.
   */
  lemma FragmentEndsSearch(url: string, fragment: string)
    requires '#' !in url
    ensures SearchOf(url + ("#" + fragment)) == SearchOf(url)
    ensures VerifyParam(url + ("#" + fragment)) == VerifyParam(url)
  {
    var full := url + ("#" + fragment);
    assert full[|url|] == '#' && full[..|url|] == url;
    FirstIndexIs(full, '#', |url|);
  }

  /**
   * A member registered with a token nobody else holds is verified by that
   * token, and nobody else is touched.
   */
  lemma RegisterThenVerify(ms: seq<Member>, f: RegistrationFormData, id: string, token: string)
    requires forall i :: 0 <= i < |ms| ==> ms[i].verificationToken != token
    ensures var m := NewMember(f, id, token);
      Verify(ms + [m], token) == ms + [m.(verificationStatus := Verified)]
  {
    var m := NewMember(f, id, token);
    var all := ms + [m];
    var r := Verify(all, token);
    assert forall i :: 0 <= i < |ms| ==> all[i] == ms[i];
    assert all[|ms|].verificationToken == token;
    assert IndexOfToken(all, token) == |ms|;
    assert r == all[|ms| := m.(verificationStatus := Verified)];
  }

  class RegistrationForm {
    var formData: RegistrationFormData
    var status: FormStatus
    var error: Option<string>
    var welcomeMessage: string
    var verificationLink: string

    constructor ()
      ensures formData == DefaultForm() && status == Idle && error == None
      ensures welcomeMessage == "" && verificationLink == ""
    {
      formData := DefaultForm();
      status := Idle;
      error := None;
      welcomeMessage := "";
      verificationLink := "";
    }

    /** `handleInstrumentChange`: leaving OTHER clears its free text. */
    method InstrumentChange(instrument: Instrument)
      modifies this`formData
      ensures formData == old(formData).(instrument := instrument,
        otherInstrument := OtherTextAfter(instrument, old(formData).otherInstrument))
    {
      formData := formData.(instrument := instrument,
        otherInstrument := OtherTextAfter(instrument, formData.otherInstrument));
    }

    /** `resetForm`; the welcome message is left as it was. */
    method Reset()
      modifies this`formData, this`status, this`error, this`verificationLink
      ensures formData == DefaultForm() && status == Idle && error == None && verificationLink == ""
    {
      formData := DefaultForm();
      status := Idle;
      error := None;
      verificationLink := "";
    }

    /**
     * `handleSubmit`. `welcome` is the generated message, or None when
     * generating it threw; `id` and `token` are the new member's id and
     * verification token. An invalid form only sets the error; a failed
     * generation adds nobody; otherwise the pending member is appended to
     * the roster and the verification link is shown.
     */
    method Submit(club: Club.ClubState, id: string, token: string, welcome: Option<string>,
                  origin: string, pathname: string) returns (added: Option<Member>)
      modifies this`status, this`error, this`welcomeMessage, this`verificationLink, club`members
      ensures ValidationError(old(formData)).Some? ==>
        error == ValidationError(old(formData)) && added == None &&
        status == old(status) && welcomeMessage == old(welcomeMessage) &&
        verificationLink == old(verificationLink) && club.members == old(club.members)
      ensures ValidationError(old(formData)).None? && welcome.None? ==>
        error == Some(WELCOME_FAILED) && status == FormError && added == None &&
        welcomeMessage == old(welcomeMessage) && verificationLink == old(verificationLink) &&
        club.members == old(club.members)
      ensures ValidationError(old(formData)).None? && welcome.Some? ==>
        added == Some(NewMember(formData, id, token)) && error == None && status == FormSuccess &&
        welcomeMessage == welcome.value &&
        verificationLink == VerificationLink(origin, pathname, token) &&
        club.members == old(club.members) + [added.value]
      ensures old(FormOffered(|club.members|, MEMBER_LIMIT)) ==> |club.members| <= MEMBER_LIMIT
      ensures old(WithinCeilings(club.members)) ==> WithinCeilings(club.members)
    {
      added := None;
      var invalid := ValidationError(formData);
      if invalid.Some? {
        error := invalid;
        return;
      }
      error := None;
      status := Loading;
      if welcome.None? {
        error := Some(WELCOME_FAILED);
        status := FormError;
        return;
      }
      welcomeMessage := welcome.value;
      var m := NewMember(formData, id, token);
      verificationLink := VerificationLink(origin, pathname, token);
      club.AddMember(m);
      added := Some(m);
      status := FormSuccess;
    }
  }
}
