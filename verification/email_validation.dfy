/**
  `validateEmailWithZeroBounce`: a format check by regular expression, and on a
  development host a remote verification whose answer decides instead. Where the page
  runs and what the remote call returns are inputs. The call itself, the API key and the
  JSON parsing are not modelled.
*/
module EmailValidation {
  import opened Options

  /** `\s` in a JavaScript regular expression: the WhiteSpace and LineTerminator
      characters of ECMAScript. */
  predicate IsSpace(c: char) {
    var n := c as int;
    || n == 0x09 || n == 0x0A || n == 0x0B || n == 0x0C || n == 0x0D || n == 0x20
    || n == 0xA0 || n == 0x1680 || (0x2000 <= n <= 0x200A)
    || n == 0x2028 || n == 0x2029 || n == 0x202F || n == 0x205F || n == 0x3000 || n == 0xFEFF
  }

  /** The character class `[^\s@]`. */
  predicate Plain(c: char) {
    !IsSpace(c) && c != '@'
  }

  predicate AllPlain(s: string) {
    forall k | 0 <= k < |s| :: Plain(s[k])
  }

  /** What `/^[^\s@]+@[^\s@]+\.[^\s@]+$/` accepts: the string splits into three
      non-empty runs of `[^\s@]`, the first two joined by `@` and the last two by `.`. */
  ghost predicate MatchesPattern(s: string) {
    exists at, dot | 0 < at && at + 1 < dot && dot + 1 < |s| ::
      && s[at] == '@' && s[dot] == '.'
      && AllPlain(s[..at]) && AllPlain(s[at + 1..dot]) && AllPlain(s[dot + 1..])
  }

  function Count(s: string, c: char): nat {
    if |s| == 0 then 0 else (if s[0] == c then 1 else 0) + Count(s[1..], c)
  }

  /** The first position of `c`, or `|s|` when `c` does not occur. */
  function IndexOf(s: string, c: char): (i: nat)
    ensures i <= |s|
    ensures i < |s| ==> s[i] == c
    ensures forall k | 0 <= k < i :: s[k] != c
  {
    if |s| == 0 then 0
    else if s[0] == c then 0
    else 1 + IndexOf(s[1..], c)
  }

  predicate NoSpace(s: string) {
    forall k | 0 <= k < |s| :: !IsSpace(s[k])
  }

  /** A `.` that is neither the first nor the last character. */
  predicate HasInnerDot(domain: string) {
    exists p | 0 < p < |domain| - 1 :: domain[p] == '.'
  }

  /** No whitespace, exactly one `@`, a non-empty part before it, and an inner `.` in
      the part after it. */
  predicate FourConditions(s: string) {
    var at := IndexOf(s, '@');
    && NoSpace(s)
    && Count(s, '@') == 1
    && 0 < at < |s|
    && HasInnerDot(s[at + 1..])
  }

  /** `isEmailFormatValid`: the four conditions hold exactly for the strings the
      regular expression accepts. */
  function IsEmailFormatValid(email: string): (ok: bool)
    ensures ok <==> MatchesPattern(email)
  {
    FormatMatchesPattern(email);
    FourConditions(email)
  }

  /** With `c` at position `i`, `c` occurs once exactly when it occurs nowhere else. */
  lemma {:induction false} CountOne(s: string, c: char, i: nat)
    requires i < |s| && s[i] == c
    ensures Count(s, c) == 1 <==> forall k | 0 <= k < |s| && k != i :: s[k] != c
    decreases |s|
  {
    if i == 0 {
      CountZero(s[1..], c);
      forall k | 0 < k < |s| ensures s[k] == s[1..][k - 1] {}
    } else {
      CountOne(s[1..], c, i - 1);
      if s[0] == c {
        assert Count(s, c) >= 2 by { assert Count(s[1..], c) >= 1 by { CountPositive(s[1..], c, i - 1); } }
      }
      forall k | 0 < k < |s| ensures s[k] == s[1..][k - 1] {}
    }
  }

  lemma {:induction false} CountZero(s: string, c: char)
    ensures Count(s, c) == 0 <==> forall k | 0 <= k < |s| :: s[k] != c
    decreases |s|
  {
    if |s| > 0 {
      CountZero(s[1..], c);
      forall k | 0 < k < |s| ensures s[k] == s[1..][k - 1] {}
    }
  }

  lemma {:induction false} CountPositive(s: string, c: char, i: nat)
    requires i < |s| && s[i] == c
    ensures Count(s, c) >= 1
    decreases |s|
  {
    if i > 0 {
      CountPositive(s[1..], c, i - 1);
    }
  }

  /** The four conditions accept exactly the strings the pattern matches. */
  lemma FormatMatchesPattern(s: string)
    ensures FourConditions(s) <==> MatchesPattern(s)
  {
    if FourConditions(s) {
      FourConditionsMatch(s);
    }
    if MatchesPattern(s) {
      var at, dot :| 0 < at && at + 1 < dot && dot + 1 < |s|
        && s[at] == '@' && s[dot] == '.'
        && AllPlain(s[..at]) && AllPlain(s[at + 1..dot]) && AllPlain(s[dot + 1..]);
      MatchFourConditions(s, at, dot);
    }
  }

  lemma FourConditionsMatch(s: string)
    requires FourConditions(s)
    ensures MatchesPattern(s)
  {
    var at := IndexOf(s, '@');
    var d := s[at + 1..];
    var p :| 0 < p < |d| - 1 && d[p] == '.';
    var dot := at + 1 + p;
    CountOne(s, '@', at);
    assert s[dot] == '.';
    PlainSlice(s, 0, at, at);
    PlainSlice(s, at + 1, dot, at);
    PlainSlice(s, dot + 1, |s|, at);
  }

  lemma MatchFourConditions(s: string, at: nat, dot: nat)
    requires 0 < at && at + 1 < dot && dot + 1 < |s|
    requires s[at] == '@' && s[dot] == '.'
    requires AllPlain(s[..at]) && AllPlain(s[at + 1..dot]) && AllPlain(s[dot + 1..])
    ensures FourConditions(s)
  {
    forall k | 0 <= k < |s| && k != at ensures Plain(s[k]) {
      if k < at {
        assert s[..at][k] == s[k];
      } else if k < dot {
        assert s[at + 1..dot][k - at - 1] == s[k];
      } else if k > dot {
        assert s[dot + 1..][k - dot - 1] == s[k];
      }
    }
    assert !IsSpace('@');
    assert NoSpace(s);
    CountOne(s, '@', at);
    assert IndexOf(s, '@') == at;
    assert s[at + 1..][dot - at - 1] == '.';
  }

  /** Without whitespace and with its only `@` at `at`, every slice avoiding `at` is
      made of `[^\s@]`. */
  lemma PlainSlice(s: string, lo: nat, hi: nat, at: nat)
    requires lo <= hi <= |s| && !(lo <= at < hi)
    requires NoSpace(s) && forall k | 0 <= k < |s| && k != at :: s[k] != '@'
    ensures AllPlain(s[lo..hi])
  {
    forall k | 0 <= k < hi - lo ensures Plain(s[lo..hi][k]) {
      assert s[lo..hi][k] == s[lo + k];
      assert lo + k != at;
    }
  }

  /** What the remote verification call produced. */
  datatype Remote =
    | Response(status: Option<string>) // an ok response; its `status` field, if present
    | HttpError                        // a response that is not ok
    | Failed                           // the request, the JSON parsing or `toLowerCase` threw

  datatype Verdict = Verdict(isValid: bool, message: string)

  const InvalidMessage: string := "Please enter a valid email address"

  /** The result object built on each of the three paths. */
  function VerdictOf(valid: bool): (v: Verdict)
    ensures v.isValid == valid
    ensures v.message == "" <==> valid
    ensures !valid ==> v.message == InvalidMessage
  {
    Verdict(valid, if valid then "" else InvalidMessage)
  }

  /** `toLowerCase` on the ASCII letters. */
  function LowerChar(c: char): (r: char)
    ensures 'A' <= c <= 'Z' ==> r as int == c as int + 32
    ensures !('A' <= c <= 'Z') ==> r == c
  {
    if 'A' <= c <= 'Z' then (c as int + 32) as char else c
  }

  function ToLower(s: string): (r: string)
    ensures |r| == |s| && forall k | 0 <= k < |s| :: r[k] == LowerChar(s[k])
  {
    if |s| == 0 then "" else [LowerChar(s[0])] + ToLower(s[1..])
  }

  /** Reference definition: `a` spells `b` with some of `b`'s letters written as
      upper-case ASCII. */
  predicate SameUpToAsciiCase(a: string, b: string) {
    && |a| == |b|
    && forall k | 0 <= k < |a| ::
         a[k] == b[k] || ('A' <= a[k] <= 'Z' && a[k] as int + 32 == b[k] as int)
  }

  predicate NoUpper(b: string) {
    forall k | 0 <= k < |b| :: !('A' <= b[k] <= 'Z')
  }

  /** Lower-casing gives a string without upper-case letters exactly when the input
      is that string up to ASCII case. */
  lemma LowerMatches(a: string, b: string)
    requires NoUpper(b)
    ensures ToLower(a) == b <==> SameUpToAsciiCase(a, b)
  {
    var l := ToLower(a);
    if l == b {
      forall k | 0 <= k < |a|
        ensures a[k] == b[k] || ('A' <= a[k] <= 'Z' && a[k] as int + 32 == b[k] as int)
      {
        assert l[k] == LowerChar(a[k]);
      }
    }
    if SameUpToAsciiCase(a, b) {
      forall k | 0 <= k < |a| ensures l[k] == b[k] {
        assert !('A' <= b[k] <= 'Z');
      }
    }
  }

  /** `['valid', 'catch-all'].includes(status?.toLowerCase())`: the status is compared
      ignoring ASCII case, and a missing status is refused. */
  function AcceptedStatus(status: Option<string>): (ok: bool)
    ensures status.None? ==> !ok
    ensures status.Some? ==>
      (ok <==> SameUpToAsciiCase(status.value, "valid") || SameUpToAsciiCase(status.value, "catch-all"))
  {
    match status
    case None => false
    case Some(st) =>
      assert NoUpper("valid") by {
        var v := "valid";
        assert v[0] == 'v' && v[1] == 'a' && v[2] == 'l' && v[3] == 'i' && v[4] == 'd';
      }
      assert NoUpper("catch-all") by {
        var c := "catch-all";
        assert c[0] == 'c' && c[1] == 'a' && c[2] == 't' && c[3] == 'c' && c[4] == 'h';
        assert c[5] == '-' && c[6] == 'a' && c[7] == 'l' && c[8] == 'l';
      }
      LowerMatches(st, "valid");
      LowerMatches(st, "catch-all");
      ToLower(st) in ["valid", "catch-all"]
  }

  /** `validateEmailWithZeroBounce`. */
  function ValidateEmail(email: string, hostname: string, remote: Remote): (v: Verdict)
    ensures hostname != "localhost" ==> v.isValid == IsEmailFormatValid(email)
    ensures hostname == "localhost" && remote.Response? ==> v.isValid == AcceptedStatus(remote.status)
    ensures hostname == "localhost" && !remote.Response? ==> v.isValid == IsEmailFormatValid(email)
    ensures v.message == "" <==> v.isValid
    ensures !v.isValid ==> v.message == InvalidMessage
  {
    if hostname != "localhost" then VerdictOf(IsEmailFormatValid(email))
    else match remote
      case Response(status) => VerdictOf(AcceptedStatus(status))
      case HttpError => VerdictOf(IsEmailFormatValid(email))
      case Failed => VerdictOf(IsEmailFormatValid(email))
  }

  /** Off the development host the remote answer is never consulted. */
  lemma RemoteIgnoredInProduction(email: string, hostname: string, r1: Remote, r2: Remote)
    requires hostname != "localhost"
    ensures ValidateEmail(email, hostname, r1) == ValidateEmail(email, hostname, r2)
  {
  }

  /** Status matching ignores case: "VALID" is accepted. */
  lemma UpperCaseStatusAccepted()
    ensures AcceptedStatus(Some("VALID"))
  {
    var v := ToLower("VALID");
    assert v[0] == 'v' && v[1] == 'a' && v[2] == 'l' && v[3] == 'i' && v[4] == 'd';
    assert v == "valid";
  }

  /** "Catch-All" is accepted in any case mixture. */
  lemma MixedCaseCatchAllAccepted()
    ensures AcceptedStatus(Some("Catch-All"))
  {
    var c := ToLower("Catch-All");
    assert c[0] == 'c' && c[1] == 'a' && c[2] == 't' && c[3] == 'c' && c[4] == 'h';
    assert c[5] == '-' && c[6] == 'a' && c[7] == 'l' && c[8] == 'l';
    assert c == "catch-all";
  }

  /** Any other status, such as "invalid", is refused. */
  lemma OtherStatusRefused()
    ensures !AcceptedStatus(Some("invalid"))
  {
    assert |ToLower("invalid")| == 7;
  }

  lemma Witness(s: string, at: nat, dot: nat)
    requires 0 < at && at + 1 < dot && dot + 1 < |s|
    requires s[at] == '@' && s[dot] == '.'
    requires AllPlain(s[..at]) && AllPlain(s[at + 1..dot]) && AllPlain(s[dot + 1..])
    ensures IsEmailFormatValid(s)
  {
  }

  /** The smallest accepted shape. */
  lemma ShortestAccepted()
    ensures IsEmailFormatValid("a@b.c")
  {
    var s := "a@b.c";
    assert s[..1] == "a" && s[2..3] == "b" && s[4..] == "c";
    Witness(s, 1, 3);
  }

  /** Dots may sit anywhere in the local part and repeat in the domain: the check is
      much weaker than RFC 5322. */
  lemma LaxDotsAccepted()
    ensures IsEmailFormatValid("a.b@c..d")
  {
    var t := "a.b@c..d";
    assert t[..3] == "a.b" && t[4..5] == "c" && t[6..] == ".d";
    Witness(t, 3, 5);
  }

  /** A domain without a dot is refused. */
  lemma DotlessDomainRefused()
    ensures !IsEmailFormatValid("a@b")
  {
    assert IndexOf("a@b", '@') == 1;
    assert "a@b"[2..] == "b";
  }

  /** A second `@` is refused. */
  lemma TwoAtSignsRefused()
    ensures !IsEmailFormatValid("a@b@c.d")
  {
    assert Count("a@b@c.d", '@') == 2;
  }

  /** Whitespace anywhere is refused. */
  lemma SpaceRefused()
    ensures !IsEmailFormatValid("a b@c.d")
  {
    assert IsSpace("a b@c.d"[1]);
  }
}
