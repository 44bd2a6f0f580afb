/**
 * The contact form's field validators. Each returns the error message to show,
 * or `None` (JavaScript `null`) when the value is acceptable. An argument of
 * `None` stands for an `undefined` or `null` value.
 */
module Validation {
  import opened Wrappers
  import opened Text

  const RequiredMessage := "This field is required"
  const EmailMessage := "Please enter a valid email address"

  // ---------------------------------------------------------------- email

  /** A character allowed in an address part (the class `[^\s@]`). */
  predicate Clean(c: char) {
    !IsSpace(c) && c != '@'
  }

  /** A non-empty piece of an address (the class `[^\s@]+`). */
  predicate AddressPart(s: string) {
    s != [] && forall k :: 0 <= k < |s| ==> Clean(s[k])
  }

  /**
   * The whole-string regex `^[^\s@]+@[^\s@]+\.[^\s@]+$` as a reference definition:
   * some `@` at `i` and some `.` at `j` cut the string into three address parts.
   */
  ghost predicate EmailShape(s: string) {
    exists i, j :: 0 <= i < j < |s| && s[i] == '@' && s[j] == '.'
      && AddressPart(s[..i]) && AddressPart(s[i + 1..j]) && AddressPart(s[j + 1..])
  }

  /** The domain side after the `@`: free of whitespace and `@`, with a dot that has text on both sides. */
  predicate DomainPart(d: string) {
    AddressPart(d) && exists j :: 0 < j < |d| - 1 && d[j] == '.'
  }

  /** `isValidEmail`: split at the first `@` and check both sides. */
  predicate IsValidEmail(s: string) {
    var at := IndexOf(s, '@');
    at < |s| && AddressPart(s[..at]) && DomainPart(s[at + 1..])
  }

  lemma AddressPartSlice(d: string, a: nat, b: nat)
    requires AddressPart(d) && a < b <= |d|
    ensures AddressPart(d[a..b])
  {
    forall k | 0 <= k < b - a ensures Clean(d[a..b][k]) {
      assert d[a..b][k] == d[a + k];
    }
  }

  lemma AddressPartJoin(x: string, y: string)
    requires AddressPart(x) && AddressPart(y)
    ensures AddressPart(x + ['.'] + y)
  {
    var d := x + ['.'] + y;
    forall k | 0 <= k < |d| ensures Clean(d[k]) {
      if k < |x| { assert d[k] == x[k]; }
      else if k > |x| { assert d[k] == y[k - |x| - 1]; }
    }
  }

  lemma DomainOfParts(x: string, y: string)
    requires AddressPart(x) && AddressPart(y)
    ensures DomainPart(x + ['.'] + y)
  {
    AddressPartJoin(x, y);
    assert (x + ['.'] + y)[|x|] == '.';
  }

  lemma ValidEmailHasShape(s: string)
    requires IsValidEmail(s)
    ensures EmailShape(s)
  {
    var at := IndexOf(s, '@');
    var d := s[at + 1..];
    var jd :| 0 < jd < |d| - 1 && d[jd] == '.';
    var j := at + 1 + jd;
    assert s[at + 1..j] == d[..jd];
    assert s[j + 1..] == d[jd + 1..];
    AddressPartSlice(d, 0, jd);
    AddressPartSlice(d, jd + 1, |d|);
    assert s[j] == '.';
  }

  /** The `@` ending a clean prefix is the first `@` of the string. */
  lemma FirstAt(s: string, i: nat)
    requires i < |s| && s[i] == '@' && AddressPart(s[..i])
    ensures IndexOf(s, '@') == i
  {
    forall k | 0 <= k < i ensures s[k] != '@' {
      assert s[k] == s[..i][k];
    }
  }

  /** A string cut by an `@` at `i` and a `.` at `j` into three address parts is accepted by `IsValidEmail`. */
  lemma CutIsValidEmail(s: string, i: nat, j: nat)
    requires i < j < |s| && s[i] == '@' && s[j] == '.'
    requires AddressPart(s[..i]) && AddressPart(s[i + 1..j]) && AddressPart(s[j + 1..])
    ensures IsValidEmail(s)
  {
    FirstAt(s, i);
    var x, y := s[i + 1..j], s[j + 1..];
    assert s[i + 1..] == x + ['.'] + y;
    DomainOfParts(x, y);
  }

  lemma ShapeIsValidEmail(s: string)
    requires EmailShape(s)
    ensures IsValidEmail(s)
  {
    var i, j :| 0 <= i < j < |s| && s[i] == '@' && s[j] == '.'
      && AddressPart(s[..i]) && AddressPart(s[i + 1..j]) && AddressPart(s[j + 1..]);
    CutIsValidEmail(s, i, j);
  }

  /** `IsValidEmail` agrees with the pattern on every string. */
  lemma IsValidEmailMatchesShape(s: string)
    ensures IsValidEmail(s) <==> EmailShape(s)
  {
    if IsValidEmail(s) { ValidEmailHasShape(s); }
    if EmailShape(s) { ShapeIsValidEmail(s); }
  }

  /** `a@b.co` passes: `@` at 1 and `.` at 3 cut it into `a`, `b` and `co`. */
  lemma AcceptedExample()
    ensures IsValidEmail("a@b.co")
  {
    var good := "a@b.co";
    assert good[..1] == "a" && good[2..3] == "b" && good[4..] == "co";
    CutIsValidEmail(good, 1, 3);
  }

  /** `a@b` fails: the domain `b` has no room for a dot. */
  lemma NoDotExample()
    ensures !IsValidEmail("a@b")
  {
    var short := "a@b";
    assert short[..1] == "a";
    FirstAt(short, 1);
    assert |short[2..]| == 1;
  }

  /** `a b@c.com` fails: the local part holds a space. */
  lemma SpaceExample()
    ensures !IsValidEmail("a b@c.com")
  {
    var spaced := "a b@c.com";
    assert spaced[3] == '@' && spaced[0] != '@' && spaced[1] != '@' && spaced[2] != '@';
    assert IndexOf(spaced, '@') == 3;
    assert spaced[..3][1] == ' ';
  }

  /** Three addresses: one valid, two rejected. */
  lemma EmailExamples()
    ensures IsValidEmail("a@b.co")
    ensures !IsValidEmail("a@b")
    ensures !IsValidEmail("a b@c.com")
  {
    AcceptedExample();
    NoDotExample();
    SpaceExample();
  }

  // ------------------------------------------------------------ validators

  /** `validateRequired`: an error for an absent value or one that trims to nothing. */
  function ValidateRequired(value: Option<string>): Option<string> {
    if value.None? || value.value == "" || Trim(value.value) == "" then Some(RequiredMessage) else None
  }

  /** The required check fails exactly on absent and all-whitespace values, and then only with its one message. */
  lemma ValidateRequiredIffBlank(value: Option<string>)
    ensures ValidateRequired(value).Some? <==> value.None? || AllSpace(value.value)
    ensures ValidateRequired(value).Some? ==> ValidateRequired(value) == Some(RequiredMessage)
  {
    if value.Some? {
      TrimEmptyIffBlank(value.value);
    }
  }

  /** `validateEmail`: the required error comes first, then the format error. */
  function ValidateEmail(email: Option<string>): Option<string> {
    var requiredError := ValidateRequired(email);
    if requiredError.Some? && requiredError.value != "" then requiredError
    else if !IsValidEmail(email.value) then Some(EmailMessage)
    else None
  }

  /** An email value passes exactly when it matches the regex; otherwise blank values get the required message. */
  lemma ValidateEmailVerdict(email: Option<string>)
    ensures ValidateEmail(email) == None <==> email.Some? && EmailShape(email.value)
    ensures email.None? || AllSpace(email.value) ==> ValidateEmail(email) == Some(RequiredMessage)
    ensures email.Some? && !AllSpace(email.value) && !EmailShape(email.value) ==> ValidateEmail(email) == Some(EmailMessage)
  {
    ValidateRequiredIffBlank(email);
    if email.Some? {
      var s := email.value;
      IsValidEmailMatchesShape(s);
      if IsValidEmail(s) {
        var at := IndexOf(s, '@');
        assert s[..at][0] == s[0];
        assert !AllSpace(s);
      }
    }
  }

  function MinLengthMessage(minLength: nat): string {
    "Must be at least " + NatToString(minLength) + " characters"
  }

  function MaxLengthMessage(maxLength: nat): string {
    "Must be " + NatToString(maxLength) + " characters or less"
  }

  /** `validateMinLength`: required first, then the length of the trimmed value. */
  function ValidateMinLength(value: Option<string>, minLength: nat): Option<string> {
    var requiredError := ValidateRequired(value);
    if requiredError.Some? && requiredError.value != "" then requiredError
    else if |Trim(value.value)| < minLength then Some(MinLengthMessage(minLength))
    else None
  }

  /** `validateMaxLength`: the raw (untrimmed) length; absent and empty values always pass. */
  function ValidateMaxLength(value: Option<string>, maxLength: nat): Option<string> {
    if value.Some? && value.value != "" && |value.value| > maxLength then Some(MaxLengthMessage(maxLength))
    else None
  }

  /** JavaScript `a || b` on two `string|null` values: `a` when it is a non-empty string. */
  function Or(a: Option<string>, b: Option<string>): Option<string> {
    if a.Some? && a.value != "" then a else b
  }

  /** `validateName`: 2 to 100 characters, the minimum checked first. */
  function ValidateName(name: Option<string>): Option<string> {
    Or(ValidateMinLength(name, 2), ValidateMaxLength(name, 100))
  }

  /** `validateMessage`: 10 to 2000 characters, the minimum checked first. */
  function ValidateMessage(message: Option<string>): Option<string> {
    Or(ValidateMinLength(message, 10), ValidateMaxLength(message, 2000))
  }

  /**
   * A bounded-length field passes exactly when its trimmed length reaches the minimum
   * and its raw length stays within the maximum; a short value gets the required or
   * minimum message even when it is also too long.
   */
  lemma {:induction false} LengthRuleVerdict(value: string, minLength: nat, maxLength: nat)
    requires minLength >= 1
    ensures var v := Or(ValidateMinLength(Some(value), minLength), ValidateMaxLength(Some(value), maxLength));
      && (v == None <==> |Trim(value)| >= minLength && |value| <= maxLength)
      && (AllSpace(value) ==> v == Some(RequiredMessage))
      && (!AllSpace(value) && |Trim(value)| < minLength ==> v == Some(MinLengthMessage(minLength)))
      && (|Trim(value)| >= minLength && |value| > maxLength ==> v == Some(MaxLengthMessage(maxLength)))
  {
    TrimEmptyIffBlank(value);
    assert NatToString(minLength) != [];
  }

  /** The verdict on a name, with the message for a blank, a short and a long one. */
  lemma ValidateNameVerdict(name: string)
    ensures ValidateName(Some(name)) == None <==> |Trim(name)| >= 2 && |name| <= 100
    ensures AllSpace(name) ==> ValidateName(Some(name)) == Some(RequiredMessage)
    ensures !AllSpace(name) && |Trim(name)| < 2 ==> ValidateName(Some(name)) == Some(MinLengthMessage(2))
    ensures |Trim(name)| >= 2 && |name| > 100 ==> ValidateName(Some(name)) == Some(MaxLengthMessage(100))
  {
    LengthRuleVerdict(name, 2, 100);
  }

  /** The verdict on a message, with the message for a blank, a short and a long one. */
  lemma ValidateMessageVerdict(message: string)
    ensures ValidateMessage(Some(message)) == None <==> |Trim(message)| >= 10 && |message| <= 2000
    ensures AllSpace(message) ==> ValidateMessage(Some(message)) == Some(RequiredMessage)
    ensures !AllSpace(message) && |Trim(message)| < 10 ==> ValidateMessage(Some(message)) == Some(MinLengthMessage(10))
    ensures |Trim(message)| >= 10 && |message| > 2000 ==> ValidateMessage(Some(message)) == Some(MaxLengthMessage(2000))
  {
    LengthRuleVerdict(message, 10, 2000);
  }

  // A one-letter name is too short, two letters pass, 101 letters are too long.

  /** A one-letter name is too short. */
  lemma NameTooShortExample()
    ensures ValidateName(Some("a")) == Some("Must be at least 2 characters")
  {
    assert Trim("a") == "a" by { TrimOfTrimmed("a"); }
    assert NatToString(2) == "2";
    assert MinLengthMessage(2) == "Must be at least " + "2" + " characters" == "Must be at least 2 characters";
    assert ValidateMinLength(Some("a"), 2) == Some(MinLengthMessage(2));
  }

  /** A two-letter name passes. */
  lemma NameShortestExample()
    ensures ValidateName(Some("ab")) == None
  {
    assert Trim("ab") == "ab" by { TrimOfTrimmed("ab"); }
  }

  lemma MaxNameMessageText()
    ensures MaxLengthMessage(100) == "Must be 100 characters or less"
  {
    assert NatToString(10) == "10";
    assert NatToString(100) == "100";
    assert MaxLengthMessage(100) == "Must be " + "100" + " characters or less";
  }

  /** A 101-letter name is too long. */
  lemma NameTooLongExample(name: string)
    requires |name| == 101 && forall k :: 0 <= k < |name| ==> name[k] == 'a'
    ensures ValidateName(Some(name)) == Some("Must be 100 characters or less")
  {
    assert !IsSpace(name[0]) && !IsSpace(name[100]);
    TrimOfTrimmed(name);
    ValidateNameVerdict(name);
    MaxNameMessageText();
  }
}
