/** The browser's sign-up form (SignupModal.js): the three validators, the
    order in which `handleSubmit` applies them, and the phone input filter. */
module SignupForm {
  import Text
  import Seqs

  const CompanyDomain := "@adventz.com"

  /** `validateEmail`. */
  predicate ValidEmail(email: string)
  {
    Text.EndsWith(email, CompanyDomain)
  }

  /** `validatePhone`: `/^\d{10}$/` (ASCII digits, see README). */
  predicate ValidPhone(phone: string)
  {
    |phone| == 10 && Text.AllDigits(phone)
  }

  /** The four password rules, in the order they are reported. */
  const PasswordRules: seq<string> :=
    ["at least 8 characters", "one uppercase letter", "one lowercase letter", "one number"]

  /** `validatePassword`: one message per failing rule, in rule order. The
      length rule counts UTF-16 code units (`password.length`). */
  function PasswordProblems(password: string): (r: seq<string>)
    ensures r == [] <==>
      Text.Utf16Length(password) >= 8 && Text.HasUpper(password) && Text.HasLower(password) && Text.HasDigit(password)
    ensures Seqs.IsSubsequence(r, PasswordRules)
    ensures (PasswordRules[0] in r <==> Text.Utf16Length(password) < 8)
         && (PasswordRules[1] in r <==> !Text.HasUpper(password))
         && (PasswordRules[2] in r <==> !Text.HasLower(password))
         && (PasswordRules[3] in r <==> !Text.HasDigit(password))
  {
    var a := if Text.Utf16Length(password) < 8 then [PasswordRules[0]] else [];
    var b := if !Text.HasUpper(password) then [PasswordRules[1]] else [];
    var c := if !Text.HasLower(password) then [PasswordRules[2]] else [];
    var d := if !Text.HasDigit(password) then [PasswordRules[3]] else [];
    RulesSubsequence(a, b, c, d);
    a + b + c + d
  }

  /** Any choice of kept rules, in order, is a subsequence of the rule list. */
  lemma RulesSubsequence(a: seq<string>, b: seq<string>, c: seq<string>, d: seq<string>)
    requires a == [] || a == [PasswordRules[0]]
    requires b == [] || b == [PasswordRules[1]]
    requires c == [] || c == [PasswordRules[2]]
    requires d == [] || d == [PasswordRules[3]]
    ensures Seqs.IsSubsequence(a + b + c + d, PasswordRules)
  {
    var r := a + b + c + d;
    var R := PasswordRules;
    assert R[1..] == [R[1], R[2], R[3]];
    assert R[2..] == [R[2], R[3]];
    assert R[3..] == [R[3]];
    assert R[1..][1..] == R[2..];
    assert R[2..][1..] == R[3..];
    assert R[3..][1..] == [];
    var cd := c + d;
    var bcd := b + cd;
    assert r == a + bcd;
    assert Seqs.IsSubsequence(d, R[3..]);
    assert Seqs.IsSubsequence(cd, R[2..]) by {
      if c != [] {
        assert cd[0] == R[2] && cd[1..] == d;
      } else {
        assert cd == d;
        if d != [] {
          assert R[2..][0] != d[0];
        }
      }
    }
    assert Seqs.IsSubsequence(bcd, R[1..]) by {
      if b != [] {
        assert bcd[0] == R[1] && bcd[1..] == cd;
      } else {
        assert bcd == cd;
        if cd != [] {
          assert cd[0] == R[2] || cd[0] == R[3];
          assert R[1..][0] != cd[0];
        }
      }
    }
    if a != [] {
      assert r[0] == R[0] && r[1..] == bcd;
    } else {
      assert r == bcd;
      if bcd != [] {
        assert bcd[0] == R[1] || bcd[0] == R[2] || bcd[0] == R[3];
        assert R[0] != bcd[0];
      }
    }
  }

  /** What pressing "Create Account" does: show the first failing check's
      message, or call `signup` with the five fields. */
  datatype SubmitOutcome =
    | ShowError(message: string)
    | CallSignup(email: string, fullName: string, phone: string, password: string, confirmPassword: string)

  /** `handleSubmit`: email, then phone, then password rules, then the
      confirmation; the first failure stops it before `signup`. */
  function HandleSubmit(email: string, fullName: string, phone: string, password: string,
                        confirmPassword: string): (r: SubmitOutcome)
    ensures r.CallSignup? <==>
      ValidEmail(email) && ValidPhone(phone) && PasswordProblems(password) == [] && password == confirmPassword
    ensures r.CallSignup? ==> r == CallSignup(email, fullName, phone, password, confirmPassword)
    ensures !ValidEmail(email) ==> r == ShowError("Only @adventz.com email addresses are allowed")
    ensures ValidEmail(email) && !ValidPhone(phone) ==> r == ShowError("Phone number must be exactly 10 digits")
    ensures ValidEmail(email) && ValidPhone(phone) && PasswordProblems(password) != [] ==>
      r == ShowError("Password must contain " + Text.Join(PasswordProblems(password), ", "))
    ensures (ValidEmail(email) && ValidPhone(phone) && PasswordProblems(password) == []
             && password != confirmPassword) ==> r == ShowError("Passwords do not match")
  {
    if !ValidEmail(email) then ShowError("Only @adventz.com email addresses are allowed")
    else if !ValidPhone(phone) then ShowError("Phone number must be exactly 10 digits")
    else
      var problems := PasswordProblems(password);
      if |problems| > 0 then ShowError("Password must contain " + Text.Join(problems, ", "))
      else if password != confirmPassword then ShowError("Passwords do not match")
      else CallSignup(email, fullName, phone, password, confirmPassword)
  }

  /** The phone input's `onChange`: `value.replace(/\D/g, '').slice(0, 10)`. */
  function SanitizePhone(input: string): (r: string)
    ensures Text.AllDigits(r) && |r| <= 10
    ensures Seqs.IsSubsequence(r, input)
    ensures var n := Seqs.CountWhere(input, Text.IsAsciiDigit); |r| == if n <= 10 then n else 10
    ensures r <= Seqs.Filter(input, Text.IsAsciiDigit)
  {
    var digits := Seqs.Filter(input, Text.IsAsciiDigit);
    Seqs.FilterIsSubsequence(input, Text.IsAsciiDigit);
    var n := if |digits| <= 10 then |digits| else 10;
    PrefixIsSubsequence(digits, input, n);
    digits[..n]
  }

  lemma {:induction false} PrefixIsSubsequence<T>(a: seq<T>, b: seq<T>, n: nat)
    requires Seqs.IsSubsequence(a, b) && n <= |a|
    ensures Seqs.IsSubsequence(a[..n], b)
    decreases |b|
  {
    if n > 0 {
      if a[0] == b[0] {
        PrefixIsSubsequence(a[1..], b[1..], n - 1);
        assert a[..n][1..] == a[1..][..n - 1];
      } else {
        PrefixIsSubsequence(a, b[1..], n);
      }
    }
  }

  /** A string the filter has already produced passes through unchanged. */
  lemma SanitizeKeepsClean(s: string)
    requires Text.AllDigits(s) && |s| <= 10
    ensures SanitizePhone(s) == s
  {
    Seqs.FilterAll(s, Text.IsAsciiDigit);
  }

  /** Filtering twice is filtering once. */
  lemma SanitizeIdempotent(s: string)
    ensures SanitizePhone(SanitizePhone(s)) == SanitizePhone(s)
  {
    SanitizeKeepsClean(SanitizePhone(s));
  }

  /** Typing more never changes the digits already kept: the field after
      more input extends the field before it. */
  lemma SanitizeExtends(typed: string, more: string)
    ensures SanitizePhone(typed) <= SanitizePhone(typed + more)
  {
    Seqs.FilterAppend(typed, more, Text.IsAsciiDigit);
  }

  /** Whatever is typed, the field never holds a non-digit, so the phone check
      fails only for a number that is too short. */
  lemma SanitizedPhoneCheck(s: string)
    ensures ValidPhone(SanitizePhone(s)) <==> |SanitizePhone(s)| == 10
  {
  }
}
