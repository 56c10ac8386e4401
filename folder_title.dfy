/**
 * The folder-title codec: `build_folder_title` writes `"<name>, <phone>"`, and
 * `normalize_folder_title_for_compare` reads a title back by splitting it at its first comma,
 * normalising the left side as a name and the right side as a phone.
 */
module FolderTitle {
  import opened Text
  import opened Phone
  import opened Names

  /** `build_folder_title(fio, phone_e164)`. */
  function BuildFolderTitle(fio: string, phoneE164: string): string {
    NormalizeFio(fio) + ", " + NormalizePhone(phoneE164)
  }

  /** The first step of `normalize_folder_title_for_compare`: unify apostrophes, collapse spaces. */
  function CleanTitle(title: string): string {
    NormalizeSpaces(Unified(title))
  }

  /** The phone side: its digits when it has any, else the side itself, canonicalised. */
  function PhonePart(right: string): string {
    var digits := Digits(right);
    if digits != "" then NormalizePhone(digits) else NormalizePhone(right)
  }

  /**
   * `normalize_folder_title_for_compare(title)`. The pattern `^(.*?),(.*)$` matches exactly
   * when the cleaned title holds a comma (the clean-up leaves no line break for `.` to miss),
   * and its lazy first group ends at the first comma.
   */
  function NormalizeFolderTitleForCompare(title: string): string {
    ReadCleanTitle(CleanTitle(title))
  }

  /** What `normalize_folder_title_for_compare` does once the title is clean. */
  function ReadCleanTitle(t: string): string {
    var k := FirstIndex(t, ',');
    if k == |t| then NormalizeFio(t)
    else NormalizeFio(Strip(t[..k])) + ", " + PhonePart(Strip(t[k + 1..]))
  }

  /** The two branches of the phone side agree: canonicalising the digits is canonicalising the side. */
  lemma PhonePartIsNormalizePhone(right: string)
    ensures PhonePart(right) == NormalizePhone(right)
  {
    NormalizePhoneOfDigits(right);
  }

  /** `name + ", " + phone` is already clean. */
  lemma TitleClean(n: string, q: string)
    requires Collapsed(n) && (forall c | c in n :: c !in Apostrophes) && IsCanonical(q)
    ensures CleanTitle(n + ", " + q) == n + ", " + q
  {
    var s := n + ", " + q;
    CanonicalChars(q);
    assert forall c | c in s :: c !in Apostrophes;
    UnifiedNoop(s);
    assert NoSpace(q);
    NoSpaceCollapsed(q);
    assert SingleSpaced(", ");
    SingleSpacedConcat(n, ", ");
    assert q[0] == '+';
    SingleSpacedConcat(n + ", ", q);
    assert s[0] != ' ' by {
      if n == [] {
        assert s[0] == ',';
      } else {
        assert s[0] == n[0];
      }
    }
    assert s[|s| - 1] == q[|q| - 1];
    assert q[|q| - 1] in q;
    NormalizeSpacesOfCollapsed(s);
  }

  /** The first comma of `name + ", " + phone` ends the name when the name has none. */
  lemma TitleSplit(n: string, q: string)
    requires ',' !in n
    ensures var s := n + ", " + q;
      FirstIndex(s, ',') == |n| && s[..|n|] == n && s[|n| + 1..] == " " + q
  {
    var s := n + ", " + q;
    assert s[|n|] == ',';
    assert forall i :: 0 <= i < |n| ==> s[i] == n[i] && n[i] in n;
    assert s[..|n|] == n;
    assert s[|n| + 1..] == " " + q;
  }

  /** The pieces of `name + ", " + phone`: it is already clean and its first comma ends the name. */
  lemma TitleParts(n: string, q: string)
    requires IsCanonicalName(n) && IsCanonical(q)
    ensures var s := n + ", " + q;
      && CleanTitle(s) == s
      && FirstIndex(s, ',') == |n|
      && s[..|n|] == n
      && s[|n| + 1..] == " " + q
  {
    CanonicalNameHasNoComma(n);
    TitleClean(n, q);
    TitleSplit(n, q);
  }

  /** The pieces of a built title. */
  lemma BuiltTitleParts(fio: string, phoneE164: string)
    ensures var s := BuildFolderTitle(fio, phoneE164);
      var n := NormalizeFio(fio);
      && CleanTitle(s) == s
      && FirstIndex(s, ',') == |n|
      && s[..|n|] == n
      && s[|n| + 1..] == " " + NormalizePhone(phoneE164)
  {
    NormalizeFioShape(fio);
    TitleParts(NormalizeFio(fio), NormalizePhone(phoneE164));
  }

  /** Stripping the space the encoder puts after the comma gives the phone back. */
  lemma StripPhoneSide(q: string)
    requires IsCanonical(q)
    ensures Strip(" " + q) == q
  {
    CanonicalChars(q);
    assert q[0] == '+' && q[|q| - 1] in q;
    StripLeadingSpace(q);
  }

  /** Reading `name + ", " + phone` splits it back into a normal name and a canonical phone. */
  lemma ReadTitleOfParts(n: string, q: string)
    requires IsCanonicalName(n) && NormalizeFio(n) == n && IsCanonical(q)
    ensures ReadCleanTitle(n + ", " + q) == n + ", " + q
  {
    CanonicalNameHasNoComma(n);
    TitleSplit(n, q);
    StripCollapsed(n);
    StripPhoneSide(q);
    PhonePartIsNormalizePhone(q);
    CanonicalFixpoint(q);
  }

  /** Reading a built title back gives the same title. */
  lemma CodecRoundTrip(fio: string, phoneE164: string)
    ensures NormalizeFolderTitleForCompare(BuildFolderTitle(fio, phoneE164)) == BuildFolderTitle(fio, phoneE164)
  {
    var n := NormalizeFio(fio);
    var q := NormalizePhone(phoneE164);
    BuiltTitleParts(fio, phoneE164);
    NormalizeFioShape(fio);
    CanonicalFixpoint(q);
    ReadTitleOfParts(n, q);
  }

  /** The substring anchor the fuzzy tier takes from a built title is the whole normalised name. */
  lemma FuzzyAnchorIsName(fio: string, phoneE164: string)
    ensures Split(NormalizeFolderTitleForCompare(BuildFolderTitle(fio, phoneE164)), ',')[0] == NormalizeFio(fio)
  {
    CodecRoundTrip(fio, phoneE164);
    BuiltTitleParts(fio, phoneE164);
    SplitHead(BuildFolderTitle(fio, phoneE164), ',');
  }

  /** A title without a comma is read as a name only. */
  lemma NoCommaGivesName(title: string)
    requires ',' !in title
    ensures NormalizeFolderTitleForCompare(title) == NormalizeFio(title)
  {
    var t := CleanTitle(title);
    UnifiedChars(title);
    assert ',' !in t;
    NormalizeFioAbsorbsCleanup(title);
  }

  lemma SidesReencode(left: string, right: string)
    ensures NormalizeFio(left) + ", " + PhonePart(right) == BuildFolderTitle(left, right)
  {
    PhonePartIsNormalizePhone(right);
  }

  /** A title with a comma is re-encoded from its two stripped sides. */
  lemma CommaReencodes(title: string)
    requires ',' in CleanTitle(title)
    ensures var t := CleanTitle(title);
      var k := FirstIndex(t, ',');
      NormalizeFolderTitleForCompare(title) == BuildFolderTitle(Strip(t[..k]), Strip(t[k + 1..]))
  {
    CleanCommaReencodes(CleanTitle(title));
  }

  lemma CleanCommaReencodes(t: string)
    requires ',' in t
    ensures var k := FirstIndex(t, ',');
      ReadCleanTitle(t) == BuildFolderTitle(Strip(t[..k]), Strip(t[k + 1..]))
  {
    FirstIndexPresent(t, ',');
    var k := FirstIndex(t, ',');
    ReadCommaSides(t);
    SidesReencode(Strip(t[..k]), Strip(t[k + 1..]));
  }

  lemma ReadCommaSides(t: string)
    requires FirstIndex(t, ',') < |t|
    ensures var k := FirstIndex(t, ',');
      ReadCleanTitle(t) == NormalizeFio(Strip(t[..k])) + ", " + PhonePart(Strip(t[k + 1..]))
  {
  }

  /** Reading a title twice is reading it once. */
  lemma NormalizeFolderTitleIdempotent(title: string)
    ensures NormalizeFolderTitleForCompare(NormalizeFolderTitleForCompare(title)) == NormalizeFolderTitleForCompare(title)
  {
    var t := CleanTitle(title);
    if ',' in t {
      CommaReencodes(title);
      var k := FirstIndex(t, ',');
      CodecRoundTrip(Strip(t[..k]), Strip(t[k + 1..]));
    } else {
      var n := NormalizeFio(t);
      NormalizeFioShape(t);
      CanonicalNameHasNoComma(n);
      NoCommaGivesName(n);
    }
  }
}
