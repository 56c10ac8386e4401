/**
 * The Ukrainian phone canonicaliser `normalize_phone_e164_ua`: keep the digits, turn a
 * national leading `0` into the country code, drop the country code, keep at most the
 * last nine digits and put `+380` in front.
 */
module Phone {
  import opened Text

  const Prefix: string := "+380"
  const CountryCode: string := "380"
  /** The most subscriber digits a canonical number keeps. */
  const BodyLength: nat := 9

  /** The set of characters `str.lstrip("380")` removes. */
  predicate IsLStripChar(c: char) {
    c == '3' || c == '8' || c == '0'
  }

  /** `s.lstrip("380")`: drops the whole leading run of 3s, 8s and 0s, in any order. */
  function LStrip380(s: string): (r: string)
    ensures EndsWith(s, r)
    ensures r == [] || !IsLStripChar(r[0])
    ensures forall i :: 0 <= i < |s| - |r| ==> IsLStripChar(s[i])
  {
    if s != [] && IsLStripChar(s[0]) then LStrip380(s[1..]) else s
  }

  /** The digits left after the country code is dealt with, before the last-nine cut. */
  function Subscriber(digits: string): (r: string)
    requires digits != ""
    ensures EndsWith(digits, r)
  {
    var withCode := if digits[0] == '0' then CountryCode + digits else digits;
    if StartsWith(withCode, CountryCode) then withCode[|CountryCode|..] else LStrip380(withCode)
  }

  /** The shape of every canonical number: `+380` and at most nine digits. */
  predicate IsCanonical(s: string) {
    StartsWith(s, Prefix) && |s| <= |Prefix| + BodyLength && AllDigits(s[|Prefix|..])
  }

  lemma EndsWithTrans(a: string, b: string, c: string)
    requires EndsWith(a, b) && EndsWith(b, c)
    ensures EndsWith(a, c)
  {
    assert a[|a| - |c|..] == a[|a| - |b|..][|b| - |c|..];
  }

  /** `normalize_phone_e164_ua(phone)`. */
  function NormalizePhone(phone: string): (r: string)
    ensures IsCanonical(r)
    ensures EndsWith(Digits(phone), r[|Prefix|..])
    ensures Digits(phone) == "" ==> r == Prefix
  {
    var digits := Digits(phone);
    if digits == "" then Prefix
    else
      var body := TakeLast(Subscriber(digits), BodyLength);
      EndsWithTrans(digits, Subscriber(digits), body);
      assert forall c | c in body :: c in digits;
      Prefix + body
  }

  /** With no digit at all the result is the bare `+380` placeholder. */
  lemma NoDigitsGivesPrefix(phone: string)
    requires Digits(phone) == ""
    ensures NormalizePhone(phone) == Prefix
  {
  }

  /** A national number `0XXXXXXXXX` is read as `380` followed by it, so its last nine digits are kept. */
  lemma LeadingZero(phone: string)
    requires Digits(phone) != "" && Digits(phone)[0] == '0'
    ensures NormalizePhone(phone) == Prefix + TakeLast(Digits(phone), BodyLength)
  {
    var d := Digits(phone);
    assert (CountryCode + d)[|CountryCode|..] == d;
  }

  /** A number that carries the country code and at least nine more digits keeps exactly nine. */
  lemma FullBody(phone: string)
    requires StartsWith(Digits(phone), CountryCode) && |Digits(phone)| >= |CountryCode| + BodyLength
    ensures |NormalizePhone(phone)| == |Prefix| + BodyLength
    ensures NormalizePhone(phone)[|Prefix|..] == Digits(phone)[|Digits(phone)| - BodyLength..]
  {
  }

  /** A canonical number is its own canonical form. */
  lemma {:induction false} CanonicalFixpoint(s: string)
    requires IsCanonical(s)
    ensures NormalizePhone(s) == s
  {
    var body := s[|Prefix|..];
    assert s == Prefix + body;
    DigitsAppend(Prefix, body);
    DigitsOfDigitString(body);
    assert Digits(Prefix) == CountryCode;
    assert Digits(s) == CountryCode + body;
    assert (CountryCode + body)[|CountryCode|..] == body;
  }

  /** Canonicalising twice is canonicalising once. */
  lemma Idempotent(phone: string)
    ensures NormalizePhone(NormalizePhone(phone)) == NormalizePhone(phone)
  {
    CanonicalFixpoint(NormalizePhone(phone));
  }

  /** The digits of a canonical number are the country code followed by its body. */
  lemma DigitsOfCanonical(s: string)
    requires IsCanonical(s)
    ensures Digits(s) == CountryCode + s[|Prefix|..]
  {
    var body := s[|Prefix|..];
    assert s == Prefix + body;
    DigitsAppend(Prefix, body);
    DigitsOfDigitString(body);
    assert Digits(Prefix) == CountryCode;
  }

  /** Only the digits of the input matter: canonicalising its digit string gives the same number. */
  lemma NormalizePhoneOfDigits(phone: string)
    ensures NormalizePhone(Digits(phone)) == NormalizePhone(phone)
  {
    DigitsOfDigitString(Digits(phone));
  }

  /** A canonical number is `+` and digits: no whitespace, comma or apostrophe. */
  lemma CanonicalChars(s: string)
    requires IsCanonical(s)
    ensures forall c | c in s :: c == '+' || IsDigit(c)
  {
    forall c | c in s
      ensures c == '+' || IsDigit(c)
    {
      var i :| 0 <= i < |s| && s[i] == c;
      if i < |Prefix| {
        assert s[i] == Prefix[i];
      } else {
        assert s[i] == s[|Prefix|..][i - |Prefix|];
      }
    }
  }

  /** On a non-empty digit string the canonical form is `+380` and the last nine subscriber digits. */
  lemma NormalizeDigitString(d: string, body: string)
    requires d != "" && AllDigits(d) && TakeLast(Subscriber(d), BodyLength) == body
    ensures NormalizePhone(d) == Prefix + body
  {
    DigitsOfDigitString(d);
  }

  /** `lstrip` removes exactly the leading run of stripped characters. */
  lemma {:induction false} LStripRun(s: string, k: nat)
    requires k <= |s| && (forall i :: 0 <= i < k ==> IsLStripChar(s[i]))
    requires k == |s| || !IsLStripChar(s[k])
    ensures LStrip380(s) == s[k..]
    decreases k
  {
    if k > 0 {
      assert s[1..][k - 1..] == s[k..];
      LStripRun(s[1..], k - 1);
    }
  }

  /** A number without the country code that does not start with `0` loses its leading run of 3s, 8s and 0s. */
  lemma SubscriberWithoutCode(d: string, k: nat)
    requires d != "" && d[0] != '0' && !StartsWith(d, CountryCode)
    requires k <= |d| && (forall i :: 0 <= i < k ==> IsLStripChar(d[i]))
    requires k == |d| || !IsLStripChar(d[k])
    ensures Subscriber(d) == d[k..]
  {
    LStripRun(d, k);
  }

  /**
   * `lstrip("380")` is a character-class strip, not a prefix removal: a number without the
   * country code loses every leading 3, 8 and 0, so `8001234567` keeps only seven digits.
   */
  lemma LStripIsNotPrefixRemoval(d: string)
    requires d == "8001234567"
    ensures NormalizePhone(d) == Prefix + "1234567"
  {
    DigitsOfDigitString(d);
    assert d[0] == '8' && d[1] == '0' && d[2] == '0' && d[3] == '1';
    assert !StartsWith(d, CountryCode) by {
      assert d[..3][0] != CountryCode[0];
    }
    SubscriberWithoutCode(d, 3);
    assert d[3..] == "1234567";
    assert TakeLast("1234567", BodyLength) == "1234567";
    NormalizeDigitString(d, "1234567");
  }

  /** A national number `0…` is read as `380` followed by it, so all of its digits reach the last-nine cut. */
  lemma SubscriberOfNational(d: string)
    requires d != "" && d[0] == '0'
    ensures Subscriber(d) == d
  {
    var w := CountryCode + d;
    assert w[..3] == CountryCode;
    assert w[3..] == d;
  }

  /** The national form of a mobile number gets the country code and keeps its nine digits. */
  lemma NationalExample(d: string)
    requires d == "0671234567"
    ensures NormalizePhone(d) == Prefix + "671234567"
  {
    DigitsOfDigitString(d);
    SubscriberOfNational(d);
    assert TakeLast(d, BodyLength) == d[1..];
    assert d[1..] == "671234567";
    NormalizeDigitString(d, "671234567");
  }

  /** A short number is not padded: its digits are simply kept. */
  lemma ShortExample(d: string)
    requires d == "123"
    ensures NormalizePhone(d) == Prefix + "123"
  {
    DigitsOfDigitString(d);
    assert d[0] == '1';
    SubscriberWithoutCode(d, 0);
    assert TakeLast("123", BodyLength) == "123";
    NormalizeDigitString(d, "123");
  }
}
