/**
 * The sign-up form of frontend/src/pages/SignUp.tsx: the validation rules of
 * its mobile, password, confirmation and terms fields, and the character
 * filter of the mobile input.
 */
module SignUpForm {
  import opened JsText
  import opened JsRegex
  import opened Wrappers

  const MobileLength: nat := 10
  const PasswordMinLength: nat := 8

  /** `[@$!%*?&]`. */
  predicate IsSpecial(c: char) { c in "@$!%*?&" }

  /** `[A-Za-z\d@$!%*?&]`. */
  predicate IsPasswordChar(c: char) { IsAsciiLetter(c) || IsDigit(c) || IsSpecial(c) }

  /** `[0-9\b]`: inside a class `\b` is the backspace character U+0008. */
  predicate IsMobileKey(c: char) { IsDigit(c) || c == '\U{0008}' }

  /** `/^[0-9]{10}$/`. */
  const MobilePattern: Pattern := Pattern([], IsDigit, 10, Some(10))

  /** `/^(?=.*[a-z])(?=.*[A-Z])(?=.*\d)(?=.*[@$!%*?&])[A-Za-z\d@$!%*?&]{8,}$/`. */
  const StrongPasswordPattern: Pattern :=
    Pattern([IsLower, IsUpper, IsDigit, IsSpecial], IsPasswordChar, 8, None)

  /** `/^[0-9\b]+$/`, the filter of the mobile input. */
  const MobileKeysPattern: Pattern := Pattern([], IsMobileKey, 1, None)

  /** `.required()` on a string field: not empty. */
  predicate Required(s: string) { s != "" }

  datatype SignUpValues = SignUpValues(
    email: string, mobile: string, password: string, confirmPassword: string, termsAccepted: bool)

  /** The `mobile` rules: `/^[0-9]{10}$/` and required. */
  predicate MobileAccepted(m: string)
    ensures MobileAccepted(m) ==> AllDigits(m)
  {
    Test(MobilePattern, m) && Required(m)
  }

  /** The `password` rules: `.min(8)`, the strong pattern and required. */
  predicate PasswordAccepted(p: string)
    ensures PasswordAccepted(p) ==> forall i :: 0 <= i < |p| ==> IsPasswordChar(p[i])
  {
    |p| >= PasswordMinLength && Test(StrongPasswordPattern, p) && Required(p)
  }

  /** `.oneOf([Yup.ref('password')])` and `.required()`. */
  predicate ConfirmationAccepted(password: string, confirmation: string)
    ensures ConfirmationAccepted(password, confirmation) ==> password != ""
  {
    confirmation == password && Required(confirmation)
  }

  /** `Yup.boolean().oneOf([true]).required()`. */
  predicate TermsAccepted(t: bool)
    ensures TermsAccepted(t) <==> t
  {
    t == true
  }

  /**
   * The whole schema; the `.email()` rule belongs to the validation library and
   * is given as `emailAccepted`.
   */
  predicate SignUpAccepted(f: SignUpValues, emailAccepted: bool)
    ensures SignUpAccepted(f, emailAccepted) ==>
      AllDigits(f.mobile) && |f.password| >= PasswordMinLength && f.confirmPassword == f.password && f.termsAccepted
  {
    emailAccepted && Required(f.email)
    && MobileAccepted(f.mobile) && PasswordAccepted(f.password)
    && ConfirmationAccepted(f.password, f.confirmPassword) && TermsAccepted(f.termsAccepted)
  }

  /** A mobile number is accepted exactly when it is ten ASCII digits. */
  lemma MobileAcceptedIff(m: string)
    ensures MobileAccepted(m) <==> |m| == MobileLength && AllDigits(m)
  {
    TestMeans(MobilePattern, m);
  }

  /** The pattern alone already demands eight characters, so `.min(8)` never rejects what it accepts. */
  lemma StrongPatternImpliesMinLength(p: string)
    requires Test(StrongPasswordPattern, p)
    ensures |p| >= PasswordMinLength && Required(p)
    ensures PasswordAccepted(p)
  {
  }

  /** A password character is never a line terminator, so `.` runs across the whole password. */
  lemma PasswordLookahead(p: string, cls: Class)
    requires forall i :: 0 <= i < |p| ==> IsPasswordChar(p[i])
    ensures FoundOnFirstLine(p, cls) <==> exists i :: 0 <= i < |p| && cls(p[i])
  {
    forall i | 0 <= i < |p| ensures !IsLineTerminator(p[i]) {
      assert IsPasswordChar(p[i]);
    }
    LookaheadMeans(p, cls);
    LookaheadOnOneLine(p, cls);
  }

  /** One character of each of the four kinds the lookaheads ask for. */
  ghost predicate HasEveryKind(p: string) {
    (exists i :: 0 <= i < |p| && IsLower(p[i]))
    && (exists i :: 0 <= i < |p| && IsUpper(p[i]))
    && (exists i :: 0 <= i < |p| && IsDigit(p[i]))
    && (exists i :: 0 <= i < |p| && IsSpecial(p[i]))
  }

  /**
   * A password is accepted exactly when it has at least eight characters, all
   * letters, digits or `@$!%*?&`, among them a lower-case letter, an upper-case
   * letter, a digit and one of `@$!%*?&`.
   */
  lemma PasswordAcceptedIff(p: string)
    ensures PasswordAccepted(p) <==>
      |p| >= PasswordMinLength && (forall i :: 0 <= i < |p| ==> IsPasswordChar(p[i])) && HasEveryKind(p)
  {
    var pat := StrongPasswordPattern;
    TestMeans(pat, p);
    var las := pat.lookaheads;
    assert |las| == 4 && las[0] == IsLower && las[1] == IsUpper && las[2] == IsDigit && las[3] == IsSpecial;
    if forall i :: 0 <= i < |p| ==> IsPasswordChar(p[i]) {
      PasswordLookahead(p, IsLower);
      PasswordLookahead(p, IsUpper);
      PasswordLookahead(p, IsDigit);
      PasswordLookahead(p, IsSpecial);
      assert (forall k :: 0 <= k < |las| ==> FoundOnFirstLine(p, las[k])) <==> HasEveryKind(p) by {
        if HasEveryKind(p) {
          forall k | 0 <= k < |las| ensures FoundOnFirstLine(p, las[k]) {
            assert k == 0 || k == 1 || k == 2 || k == 3;
          }
        }
        if forall k :: 0 <= k < |las| ==> FoundOnFirstLine(p, las[k]) {
          assert FoundOnFirstLine(p, las[0]) && FoundOnFirstLine(p, las[1]);
          assert FoundOnFirstLine(p, las[2]) && FoundOnFirstLine(p, las[3]);
        }
      }
    }
  }

  /** The confirmation is accepted exactly when it repeats a non-empty password. */
  lemma ConfirmationAcceptedIff(password: string, confirmation: string)
    ensures ConfirmationAccepted(password, confirmation) <==> confirmation == password && password != ""
  {
  }

  /** In an accepted form the confirmation meets every password rule itself. */
  lemma AcceptedConfirmationIsStrong(f: SignUpValues, emailAccepted: bool)
    requires SignUpAccepted(f, emailAccepted)
    ensures PasswordAccepted(f.confirmPassword) && MobileAccepted(f.mobile)
    ensures f.termsAccepted
  {
  }

  /** The condition of line 182 under which the typed value is stored. */
  predicate FilterStores(typed: string)
    ensures AllDigits(typed) ==> FilterStores(typed)
  {
    TestMeans(MobileKeysPattern, typed);
    typed == "" || Test(MobileKeysPattern, typed)
  }

  /** The mobile field after the user changes the input to `typed`. */
  function MobileAfterInput(current: string, typed: string): (r: string)
    ensures FilterStores(typed) ==> r == typed
    ensures !FilterStores(typed) ==> r == current
  {
    if typed == "" || Test(MobileKeysPattern, typed) then typed else current
  }

  /** The filter stores a value exactly when every character is a digit or a backspace. */
  lemma FilterStoresIff(typed: string)
    ensures FilterStores(typed) <==> forall i :: 0 <= i < |typed| ==> IsMobileKey(typed[i])
  {
    TestMeans(MobileKeysPattern, typed);
  }

  /** Every mobile number the schema accepts gets through the input filter unchanged. */
  lemma AcceptedMobilePassesFilter(current: string, m: string)
    requires MobileAccepted(m)
    ensures FilterStores(m) && MobileAfterInput(current, m) == m
  {
    MobileAcceptedIff(m);
    FilterStoresIff(m);
  }
}
