/** The login-id validators of server/src/utils/regex.check.ts: the phone and email
    regular expressions restated as predicates on strings, and what they accept. */
module RegexCheck {

  /** JavaScript's `\s`: the WhiteSpace and LineTerminator code points of ECMAScript. */
  predicate IsWhitespace(c: char) {
    || c == '\t' || c == '\n' || c == '\U{B}' || c == '\U{C}' || c == '\r' || c == ' '
    || c == '\U{A0}' || c == '\U{1680}' || ('\U{2000}' <= c <= '\U{200A}')
    || c == '\U{2028}' || c == '\U{2029}' || c == '\U{202F}' || c == '\U{205F}'
    || c == '\U{3000}' || c == '\U{FEFF}'
  }

  /** JavaScript's `\d` (ASCII digits only). */
  predicate IsDigit(c: char) {
    '0' <= c <= '9'
  }

  /** The character class `[^\s@]`. */
  predicate IsAddressChar(c: char) {
    !IsWhitespace(c) && c != '@'
  }

  /** The repetition `[^\s@]+`: a non-empty run of address characters. */
  predicate AddressRun(s: string) {
    |s| > 0 && forall i :: 0 <= i < |s| ==> IsAddressChar(s[i])
  }

  /** `s`, cut at an '@' at index `at` and a '.' at index `dot`, matches the three runs of
      `^[^\s@]+@[^\s@]+\.[^\s@]+$`. */
  predicate EmailSplit(s: string, at: nat, dot: nat)
    requires at < dot < |s|
  {
    && s[at] == '@' && s[dot] == '.'
    && AddressRun(s[..at]) && AddressRun(s[at + 1..dot]) && AddressRun(s[dot + 1..])
  }

  /** `isEmail` (regex.check.ts:2,4): some placement of the '@' and the '.' matches. */
  predicate IsEmail(s: string) {
    exists at: nat, dot: nat | at < dot < |s| :: EmailSplit(s, at, dot)
  }

  /** The pattern `[6-9]\d{9}`: ten ASCII digits, the first one 6 to 9. */
  predicate IsBarePhone(s: string) {
    |s| == 10 && '6' <= s[0] <= '9' && forall i :: 1 <= i < 10 ==> IsDigit(s[i])
  }

  /** `isPhone` (regex.check.ts:1,5), `^(?:\+91[-\s]?)?[6-9]\d{9}$`: the bare number, or
      the number after "+91", or after "+91" and one '-' or whitespace character. */
  predicate IsPhone(s: string) {
    || IsBarePhone(s)
    || (|s| >= 3 && s[..3] == "+91" && IsBarePhone(s[3..]))
    || (|s| >= 4 && s[..3] == "+91" && (s[3] == '-' || IsWhitespace(s[3])) && IsBarePhone(s[4..]))
  }

  /** `validateLoginId` (regex.check.ts:7-9): an email or a phone. For an accepted login id
      the presence of an '@' tells the two apart, so the services' choice of lookup by
      `isEmail` sends every accepted phone to the phone lookup. */
  function ValidateLoginId(s: string): (r: bool)
    ensures r <==> IsEmail(s) || IsPhone(s)
    ensures r ==> (IsEmail(s) <==> '@' in s)
    ensures r && '@' !in s ==> IsPhone(s)
  {
    if IsEmail(s) then
      EmailHasOneAt(s);
      assert s[FirstAt(s)] == '@';
      true
    else if IsPhone(s) then
      PhoneHasNoAt(s);
      true
    else
      false
  }

  // ---------------------------------------------------------------------------------
  // An independent, field-by-field reading of the email rule, and its equivalence
  // with the regular expression.

  /** The number of '@' characters in `s`. */
  function AtCount(s: string): nat {
    if s == [] then 0 else (if s[0] == '@' then 1 else 0) + AtCount(s[1..])
  }

  /** The index of the first '@' in `s`, or `|s|` when there is none. */
  function FirstAt(s: string): (i: nat)
    ensures i <= |s|
    ensures forall k :: 0 <= k < i ==> s[k] != '@'
    ensures i < |s| ==> s[i] == '@'
  {
    if s == [] then 0 else if s[0] == '@' then 0 else 1 + FirstAt(s[1..])
  }

  predicate NoWhitespace(s: string) {
    forall i :: 0 <= i < |s| ==> !IsWhitespace(s[i])
  }

  /** The domain: no whitespace, and a '.' with at least one character on each side. */
  predicate DomainRule(d: string) {
    NoWhitespace(d) && exists k :: 0 < k < |d| - 1 && d[k] == '.'
  }

  /** Exactly one '@'; a non-empty local part before it without whitespace; a domain after it. */
  predicate EmailRule(s: string) {
    AtCount(s) == 1 && 0 < FirstAt(s) < |s| && NoWhitespace(s[..FirstAt(s)])
    && DomainRule(s[FirstAt(s) + 1..])
  }

  lemma {:induction false} AtCountConcat(a: string, b: string)
    ensures AtCount(a + b) == AtCount(a) + AtCount(b)
  {
    if a == [] {
      assert a + b == b;
    } else {
      assert (a + b)[1..] == a[1..] + b;
      AtCountConcat(a[1..], b);
    }
  }

  lemma {:induction false} AtCountZero(t: string)
    ensures AtCount(t) == 0 <==> forall i :: 0 <= i < |t| ==> t[i] != '@'
  {
    if t != [] {
      AtCountZero(t[1..]);
      assert forall i :: 1 <= i < |t| ==> t[i] == t[1..][i - 1];
    }
  }

  /** A matching split puts the only '@' of `s` at `at`. */
  lemma SplitAtCount(s: string, at: nat, dot: nat)
    requires at < dot < |s| && EmailSplit(s, at, dot)
    ensures AtCount(s) == 1 && FirstAt(s) == at
  {
    var local, domain := s[..at], s[at + 1..];
    var mid, tail := s[at + 1..dot], s[dot + 1..];
    assert domain == mid + ['.'] + tail;
    assert s == local + [s[at]] + domain;
    AtCountZero(local);
    AtCountZero(mid);
    AtCountZero(tail);
    AtCountConcat(mid + ['.'], tail);
    AtCountConcat(mid, ['.']);
    assert AtCount(['.']) == 0;
    AtCountConcat(local + [s[at]], domain);
    AtCountConcat(local, [s[at]]);
    assert AtCount([s[at]]) == 1;
  }

  /** A matching split leaves a domain that meets the domain rule. */
  lemma SplitDomain(s: string, at: nat, dot: nat)
    requires at < dot < |s| && EmailSplit(s, at, dot)
    ensures DomainRule(s[at + 1..])
  {
    var domain := s[at + 1..];
    var mid, tail := s[at + 1..dot], s[dot + 1..];
    assert domain == mid + ['.'] + tail;
    assert domain[|mid|] == '.';
    forall i | 0 <= i < |domain|
      ensures !IsWhitespace(domain[i])
    {
      if i < |mid| {
        assert domain[i] == mid[i];
      } else if i > |mid| {
        assert domain[i] == tail[i - |mid| - 1];
      }
    }
  }

  /** Every string the regular expression accepts meets the field-by-field rule. */
  lemma EmailRegexMeetsRule(s: string)
    requires IsEmail(s)
    ensures EmailRule(s)
  {
    var at: nat, dot: nat :| at < dot < |s| && EmailSplit(s, at, dot);
    SplitAtCount(s, at, dot);
    SplitDomain(s, at, dot);
    assert NoWhitespace(s[..at]);
  }

  /** Every string meeting the field-by-field rule is accepted by the regular expression. */
  lemma EmailRuleMeetsRegex(s: string)
    requires EmailRule(s)
    ensures IsEmail(s)
  {
    var at := FirstAt(s);
    var local, domain := s[..at], s[at + 1..];
    var k :| 0 < k < |domain| - 1 && domain[k] == '.';
    var dot := at + 1 + k;
    assert s == local + [s[at]] + domain;
    AtCountConcat(local + [s[at]], domain);
    AtCountConcat(local, [s[at]]);
    assert AtCount([s[at]]) == 1;
    AtCountZero(domain);
    var mid, tail := s[at + 1..dot], s[dot + 1..];
    assert AddressRun(local);
    assert AddressRun(mid) by {
      forall i | 0 <= i < |mid|
        ensures IsAddressChar(mid[i])
      {
        assert mid[i] == domain[i];
      }
    }
    assert AddressRun(tail) by {
      forall i | 0 <= i < |tail|
        ensures IsAddressChar(tail[i])
      {
        assert tail[i] == domain[k + 1 + i];
      }
    }
    assert EmailSplit(s, at, dot);
  }

  /** The regular expression and the field-by-field rule accept the same strings. */
  lemma EmailCharacterization(s: string)
    ensures IsEmail(s) <==> EmailRule(s)
  {
    if IsEmail(s) {
      EmailRegexMeetsRule(s);
    }
    if EmailRule(s) {
      EmailRuleMeetsRegex(s);
    }
  }

  /** An accepted email has exactly one '@', and its local part and domain are non-empty. */
  lemma EmailHasOneAt(s: string)
    requires IsEmail(s)
    ensures AtCount(s) == 1 && 0 < FirstAt(s) < |s| - 1
  {
    EmailCharacterization(s);
  }

  /** The '.' that the domain needs has an address character right before and right after it. */
  lemma EmailDotIsInner(s: string)
    requires IsEmail(s)
    ensures exists at: nat, dot: nat | at + 1 < dot < |s| - 1 ::
              s[at] == '@' && s[dot] == '.' && IsAddressChar(s[dot - 1]) && IsAddressChar(s[dot + 1])
  {
    var at: nat, dot: nat :| at < dot < |s| && EmailSplit(s, at, dot);
    assert s[dot - 1] == s[at + 1..dot][dot - 1 - at - 1];
    assert s[dot + 1] == s[dot + 1..][0];
  }

  // ---------------------------------------------------------------------------------
  // Phones.

  /** A phone string never contains an '@'. */
  lemma PhoneHasNoAt(s: string)
    requires IsPhone(s)
    ensures forall i :: 0 <= i < |s| ==> s[i] != '@'
  {
    forall i | 0 <= i < |s|
      ensures s[i] != '@'
    {
      if !IsBarePhone(s) && i >= 3 {
        if IsBarePhone(s[3..]) {
          assert s[i] == s[3..][i - 3];
        } else if i >= 4 {
          assert s[i] == s[4..][i - 4];
        }
      } else if !IsBarePhone(s) {
        assert s[i] == s[..3][i];
      }
    }
  }

  /** No string is both an email and a phone, so `validateLoginId` has no overlap. */
  lemma EmailAndPhoneDisjoint(s: string)
    ensures !(IsEmail(s) && IsPhone(s))
  {
    if IsEmail(s) && IsPhone(s) {
      var at: nat, dot: nat :| at < dot < |s| && EmailSplit(s, at, dot);
      PhoneHasNoAt(s);
    }
  }

  /** A phone has one of three lengths: ten characters and bare, or 13 or 14 characters
      starting with '+'. In particular a ten-character phone is bare, and no phone has the
      country code without its '+'. */
  lemma PhoneShape(s: string)
    requires IsPhone(s)
    ensures (|s| == 10 && IsBarePhone(s)) || ((|s| == 13 || |s| == 14) && s[0] == '+')
  {
    if !IsBarePhone(s) {
      assert s[0] == s[..3][0];
    }
  }

  /** "+91", then optionally one '-' or whitespace character, then a bare number, is a phone. */
  lemma PrefixedPhone(number: string, sep: char)
    requires IsBarePhone(number)
    ensures IsPhone("+91" + number)
    ensures sep == '-' || IsWhitespace(sep) ==> IsPhone("+91" + [sep] + number)
  {
    assert ("+91" + number)[..3] == "+91" && ("+91" + number)[3..] == number;
    var t := "+91" + [sep] + number;
    assert t[..3] == "+91" && t[3] == sep && t[4..] == number;
  }
}
