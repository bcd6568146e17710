/** What the inquiry form's submit handler decides about each field (static/adamus.js,
    lines 83-156), as values: which fields it looks at, in which order, and which message
    each one earns. */
module FormValidation {
  import opened TextOps
  import opened Patterns
  import opened Wrappers

  /** The form controls the handler looks up by id, plus the message box it never checks. */
  datatype FieldId = FullName | FirstName | LastName | Email | Organization | InquiryType | Message

  /** One field that failed, with the message shown above it. */
  datatype Failure = Failure(field: FieldId, message: string)

  const FillOut: string := "Please fill out this field"
  const OnlyLetters: string := "Only letters allowed"
  const BadEmail: string := "Invalid email format"
  const BadOrganization: string := "Only letters, numbers, spaces, and basic punctuation allowed"

  /** Position of a field in the handler's order of checks. */
  function Rank(f: FieldId): nat {
    match f
    case FullName => 0
    case FirstName => 1
    case LastName => 2
    case Email => 3
    case Organization => 4
    case InquiryType => 5
    case Message => 6
  }

  predicate IsNameField(f: FieldId) {
    f == FullName || f == FirstName || f == LastName
  }

  /** The fields checked in each layout: on a viewport at most 767px wide one combined
      name, otherwise first and last name. */
  function CheckedFields(isMobile: bool): (r: seq<FieldId>)
    ensures (FullName in r <==> isMobile) && (FirstName in r <==> !isMobile) && Message !in r
  {
    if isMobile then [FullName, Email, Organization, InquiryType]
    else [FirstName, LastName, Email, Organization, InquiryType]
  }

  /** The message one present field earns, or None when it passes. Text fields are trimmed,
      tested for emptiness, and only when non-empty tested against their pattern; the inquiry
      type is only tested for the empty string, untrimmed. */
  function Verdict(f: FieldId, value: string): (r: Option<string>)
    ensures f == Message ==> r.None?
    ensures r.Some? && r.value != FillOut ==>
      (IsNameField(f) && r.value == OnlyLetters) || (f == Email && r.value == BadEmail)
      || (f == Organization && r.value == BadOrganization)
  {
    match f
    case FullName | FirstName | LastName =>
      var t := Trim(JavaScript, value);
      if t == "" then Some(FillOut) else if !NamePattern(t) then Some(OnlyLetters) else None
    case Email =>
      var t := Trim(JavaScript, value);
      if t == "" then Some(FillOut) else if !IsEmail(t) then Some(BadEmail) else None
    case Organization =>
      var t := Trim(JavaScript, value);
      if t == "" then Some(FillOut) else if !OrganizationPattern(t) then Some(BadOrganization) else None
    case InquiryType =>
      if value == "" then Some(FillOut) else None
    case Message => None
  }

  /** A field is told to fill itself out exactly when it is blank: all whitespace for the text
      fields, the empty string for the inquiry type; any other message goes to a non-blank value. */
  lemma VerdictFillOut(f: FieldId, value: string)
    ensures Verdict(f, value) == Some(FillOut) <==>
      if f == InquiryType then value == "" else f != Message && AllSpace(JavaScript, value)
    ensures Verdict(f, value).Some? && Verdict(f, value).value != FillOut ==>
      f != InquiryType && !AllSpace(JavaScript, value)
  {
  }

  /** The failure one field contributes: none when its element is absent or it passes. */
  function Hit(f: FieldId, values: map<FieldId, string>): seq<Failure> {
    if f in values && Verdict(f, values[f]).Some? then [Failure(f, Verdict(f, values[f]).value)] else []
  }

  /** The failures of `fields`, checked one after the other, in that order. */
  function FailuresOver(fields: seq<FieldId>, values: map<FieldId, string>): (r: seq<Failure>)
    ensures |r| <= |fields|
  {
    if fields == [] then [] else Hit(fields[0], values) + FailuresOver(fields[1..], values)
  }

  /** A failure is reported for exactly the listed, present fields whose verdict is a message,
      and carries that message. */
  lemma {:induction false} FailuresOverMembers(fields: seq<FieldId>, values: map<FieldId, string>)
    ensures forall x | x in FailuresOver(fields, values) ::
      x.field in fields && x.field in values && Verdict(x.field, values[x.field]) == Some(x.message)
    ensures forall f | f in fields && f in values && Verdict(f, values[f]).Some? ::
      Failure(f, Verdict(f, values[f]).value) in FailuresOver(fields, values)
    decreases |fields|
  {
    if fields != [] {
      FailuresOverMembers(fields[1..], values);
      assert forall f | f in fields[1..] :: f in fields;
      assert forall f | f in fields && f != fields[0] :: f in fields[1..];
    }
  }

  /** The errors one submit shows, in the order they are shown. */
  function Failures(values: map<FieldId, string>, isMobile: bool): (r: seq<Failure>)
    ensures |r| <= |CheckedFields(isMobile)|
  {
    FailuresOver(CheckedFields(isMobile), values)
  }

  predicate Ascending(fields: seq<FieldId>) {
    forall i, j | 0 <= i < j < |fields| :: Rank(fields[i]) < Rank(fields[j])
  }

  predicate AscendingFailures(fs: seq<Failure>) {
    forall i, j | 0 <= i < j < |fs| :: Rank(fs[i].field) < Rank(fs[j].field)
  }

  lemma {:induction false} FailuresOverAscending(fields: seq<FieldId>, values: map<FieldId, string>)
    requires Ascending(fields)
    ensures AscendingFailures(FailuresOver(fields, values))
    decreases |fields|
  {
    if fields != [] {
      var rest := FailuresOver(fields[1..], values);
      FailuresOverAscending(fields[1..], values);
      FailuresOverMembers(fields[1..], values);
      forall x | x in rest ensures Rank(fields[0]) < Rank(x.field) {
        var j :| 0 <= j < |fields[1..]| && fields[1..][j] == x.field;
        assert fields[j + 1] == x.field;
      }
    }
  }

  /** Failures come in the handler's order of checks, so no field is reported twice. */
  lemma FailuresAscending(values: map<FieldId, string>, isMobile: bool)
    ensures AscendingFailures(Failures(values, isMobile))
    ensures forall i, j | 0 <= i < j < |Failures(values, isMobile)| ::
      Failures(values, isMobile)[i].field != Failures(values, isMobile)[j].field
  {
    FailuresOverAscending(CheckedFields(isMobile), values);
  }

  /** A field is reported, with message `m`, exactly when the layout checks it, its element is
      present, and its verdict is `m`. */
  lemma FailureIff(values: map<FieldId, string>, isMobile: bool, f: FieldId, m: string)
    ensures Failure(f, m) in Failures(values, isMobile) <==>
      f in CheckedFields(isMobile) && f in values && Verdict(f, values[f]) == Some(m)
  {
    FailuresOverMembers(CheckedFields(isMobile), values);
  }

  /** The narrow layout never reports the first or last name, the wide one never the full name,
      and no layout reports an absent field or the message box. */
  lemma LayoutDecidesNameFields(values: map<FieldId, string>, isMobile: bool)
    ensures forall x | x in Failures(values, isMobile) :: x.field in values && x.field != Message
    ensures isMobile ==> forall x | x in Failures(values, isMobile) :: x.field != FirstName && x.field != LastName
    ensures !isMobile ==> forall x | x in Failures(values, isMobile) :: x.field != FullName
  {
    FailuresOverMembers(CheckedFields(isMobile), values);
  }

  /** The submit goes ahead exactly when every checked, present field passes. */
  lemma AcceptedIff(values: map<FieldId, string>, isMobile: bool)
    ensures Failures(values, isMobile) == [] <==>
      forall f | f in CheckedFields(isMobile) && f in values :: Verdict(f, values[f]) == None
  {
    FailuresOverMembers(CheckedFields(isMobile), values);
    if Failures(values, isMobile) != [] {
      var x := Failures(values, isMobile)[0];
      assert x in Failures(values, isMobile);
    }
  }

  /** Focus ends on the last failing field: the one latest in the order of checks. */
  lemma FocusEndsOnLatestFailure(values: map<FieldId, string>, isMobile: bool)
    requires Failures(values, isMobile) != []
    ensures var fs := Failures(values, isMobile); var last := fs[|fs| - 1].field;
      forall f | f in CheckedFields(isMobile) && f in values && Verdict(f, values[f]).Some? ::
        Rank(f) <= Rank(last)
  {
    var fs := Failures(values, isMobile);
    FailuresAscending(values, isMobile);
    FailuresOverMembers(CheckedFields(isMobile), values);
    forall f | f in CheckedFields(isMobile) && f in values && Verdict(f, values[f]).Some?
      ensures Rank(f) <= Rank(fs[|fs| - 1].field)
    {
      var i :| 0 <= i < |fs| && fs[i] == Failure(f, Verdict(f, values[f]).value);
      assert i == |fs| - 1 || Rank(fs[i].field) < Rank(fs[|fs| - 1].field);
    }
  }

  /** A name field passes exactly when its trimmed value has two or more characters, all
      letters (Spanish accented vowels and eñe included) or spaces; it is reported empty
      exactly when it is all whitespace. */
  lemma NameVerdict(f: FieldId, value: string)
    requires IsNameField(f)
    ensures Verdict(f, value) == None <==>
      var t := Trim(JavaScript, value); |t| >= 2 && forall k | 0 <= k < |t| :: IsNameChar(t[k])
    ensures Verdict(f, value) == Some(FillOut) <==> AllSpace(JavaScript, value)
    ensures Verdict(f, value) == Some(OnlyLetters) <==>
      !AllSpace(JavaScript, value) && !NamePattern(Trim(JavaScript, value))
  {
  }

  /** The email field passes exactly when its trimmed value is in the language of the email
      regular expression. */
  lemma EmailVerdict(value: string)
    ensures Verdict(Email, value) == None <==> EmailPattern(Trim(JavaScript, value))
    ensures Verdict(Email, value) == Some(FillOut) <==> AllSpace(JavaScript, value)
    ensures Verdict(Email, value) == Some(BadEmail) <==>
      !AllSpace(JavaScript, value) && !EmailPattern(Trim(JavaScript, value))
  {
    EmailScanMatchesRegex(Trim(JavaScript, value));
  }

  /** The organization passes exactly when its trimmed value has two or more characters from
      the ASCII letters, digits, whitespace, the dot, the comma and the hyphen. */
  lemma OrganizationVerdict(value: string)
    ensures Verdict(Organization, value) == None <==>
      var t := Trim(JavaScript, value); |t| >= 2 && forall k | 0 <= k < |t| :: IsOrganizationChar(t[k])
    ensures Verdict(Organization, value) == Some(FillOut) <==> AllSpace(JavaScript, value)
  {
  }

  /** The inquiry type fails only when it is the empty string: it is not trimmed, and
      whitespace alone passes. */
  lemma InquiryTypeVerdict(value: string)
    ensures Verdict(InquiryType, value) == Some(FillOut) <==> value == ""
    ensures Verdict(InquiryType, value) == None <==> value != ""
  {
  }
}
