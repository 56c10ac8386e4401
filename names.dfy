/**
 * The personal-name normaliser: `_unify_apostrophes`, `normalize_spaces`, `_smart_title`,
 * `normalize_fio_string` and `build_fio_from_contact`. A canonical name is a run of
 * single-spaced tokens without `,` `.` `;` or apostrophe look-alikes, each hyphen piece
 * and each apostrophe piece of which starts with an upper-cased letter followed by
 * lower-cased ones.
 */
module Names {
  import opened Wrappers
  import opened Text

  // ---------------------------------------------------------------------------
  // _unify_apostrophes
  // ---------------------------------------------------------------------------

  /** The apostrophe look-alikes of `APOSTROPHES`, in its order. */
  const Apostrophes: seq<char> :=
    ['\U{2019}', '`', '\U{2BC}', '\U{2B9}', '\U{2032}', '\U{FF07}', '\U{A78C}']

  /** What `_unify_apostrophes` computes: each look-alike becomes the ASCII apostrophe. */
  function Unified(s: string): (r: string)
    ensures |r| == |s|
    ensures forall c | c in r :: c !in Apostrophes
    ensures forall i :: 0 <= i < |s| && s[i] !in Apostrophes ==> r[i] == s[i]
    ensures forall i :: 0 <= i < |s| && s[i] in Apostrophes ==> r[i] == '\''
  {
    seq(|s|, i requires 0 <= i < |s| => if s[i] in Apostrophes then '\'' else s[i])
  }

  /** `_unify_apostrophes(s)`: one `str.replace` per look-alike, in the list's order. */
  method UnifyApostrophes(s: string) returns (r: string)
    ensures r == Unified(s)
  {
    if s == "" {
      return "";
    }
    r := s;
    for k := 0 to |Apostrophes|
      invariant |r| == |s|
      invariant forall i :: 0 <= i < |s| ==> r[i] == if s[i] in Apostrophes[..k] then '\'' else s[i]
    {
      r := ReplaceChar(r, Apostrophes[k], '\'');
      assert forall i :: 0 <= i < |s| ==> (s[i] in Apostrophes[..k + 1] <==> s[i] in Apostrophes[..k] || s[i] == Apostrophes[k]);
    }
    assert Apostrophes[..|Apostrophes|] == Apostrophes;
  }

  /** Unification only ever introduces the ASCII apostrophe. */
  lemma UnifiedChars(s: string)
    ensures forall c | c in Unified(s) :: c == '\'' || c in s
  {
    forall c | c in Unified(s)
      ensures c == '\'' || c in s
    {
      var i :| 0 <= i < |s| && Unified(s)[i] == c;
      assert s[i] in s;
    }
  }

  lemma UnifiedNoop(s: string)
    requires forall c | c in s :: c !in Apostrophes
    ensures Unified(s) == s
  {
    assert forall i :: 0 <= i < |s| ==> s[i] in s;
  }

  // ---------------------------------------------------------------------------
  // normalize_spaces
  // ---------------------------------------------------------------------------

  /**
   * `normalize_spaces(s)` (with NFKC taken as the identity): whitespace runs become one space,
   * ends trimmed; that is, the whitespace-separated words of `s` joined by single spaces.
   */
  function NormalizeSpaces(s: string): (r: string)
    ensures r == Join(Fields(s, Whitespace), " ")
    ensures Collapsed(r)
    ensures forall c | c in r :: c == ' ' || (c in s && !IsSpace(c))
    ensures Without(r, Whitespace) == Without(s, Whitespace)
  {
    var noNbsp := ReplaceChar(s, '\U{A0}', ' ');
    var collapsed := ReplaceRuns(noNbsp, Whitespace);
    ReplaceWhitespaceSingleSpaced(noNbsp);
    StripSingleSpaced(collapsed);
    WithoutReplaceSpace(s, '\U{A0}', ' ');
    WithoutReplaceRuns(noNbsp, Whitespace);
    WithoutTwice(noNbsp, Whitespace);
    WithoutStrip(collapsed);
    FieldsReplaceChar(s, '\U{A0}', ' ', Whitespace);
    FieldsReplaceRuns(noNbsp, Whitespace, Whitespace, Whitespace);
    FieldsStrip(collapsed, Whitespace);
    CollapsedFields(Strip(collapsed));
    assert forall c | c in noNbsp && c != ' ' :: c in s by {
      forall c | c in noNbsp && c != ' ' ensures c in s {
        var i :| 0 <= i < |noNbsp| && noNbsp[i] == c;
        assert s[i] == c;
      }
    }
    Strip(collapsed)
  }

  /** A class that holds all whitespace separates the same fields after `normalize_spaces`. */
  lemma FieldsOfNormalizeSpaces(s: string, k: RunClass)
    requires forall c :: IsSpace(c) ==> InClass(c, k)
    ensures Fields(NormalizeSpaces(s), k) == Fields(s, k)
  {
    var noNbsp := ReplaceChar(s, '\U{A0}', ' ');
    FieldsReplaceChar(s, '\U{A0}', ' ', k);
    FieldsReplaceRuns(noNbsp, Whitespace, k, k);
    FieldsStrip(ReplaceRuns(noNbsp, Whitespace), k);
  }

  /** A collapsed string is its own normal form. */
  lemma NormalizeSpacesOfCollapsed(s: string)
    requires Collapsed(s)
    ensures NormalizeSpaces(s) == s
  {
    assert ReplaceChar(s, '\U{A0}', ' ') == s;
    ReplaceWhitespaceOfSingleSpaced(s);
    StripCollapsed(s);
  }

  // ---------------------------------------------------------------------------
  // _smart_title
  // ---------------------------------------------------------------------------

  /** `x[:1].upper() + x[1:].lower()` leaves exactly this shape. */
  predicate IsTitledPiece(x: string) {
    x == "" || (x[0] == Upper(x[0]) && forall i :: 1 <= i < |x| ==> x[i] == Lower(x[i]))
  }

  /** `y` is `x` with the case of some letters changed: both lower-case to the same string. */
  predicate CaseOf(x: string, y: string) {
    |x| == |y| && forall i :: 0 <= i < |x| ==> Lower(y[i]) == Lower(x[i])
  }

  /** Characters with the same lower case are equal, or both cased letters. */
  lemma SameLowerChar(a: char, b: char)
    requires Lower(a) == Lower(b)
    ensures a == b || (IsCasedLetter(a) && IsCasedLetter(b))
  {
  }

  /** Upper- and lower-casing keep the lower case of every character of `x`. */
  lemma CaseMapsKeepLower(x: string)
    ensures forall i :: 0 <= i < |x| ==> Lower(Upper(x[i])) == Lower(x[i]) && Lower(Lower(x[i])) == Lower(x[i])
  {
  }

  /** `x[:1].upper() + x[1:].lower()`. */
  function TitlePiece(x: string): (r: string)
    ensures IsTitledPiece(r)
    ensures CaseOf(x, r)
  {
    CaseMapsKeepLower(x);
    if x == "" then "" else [Upper(x[0])] + LowerAll(x[1..])
  }

  lemma TitlePieceIdempotent(x: string)
    ensures TitlePiece(TitlePiece(x)) == TitlePiece(x)
  {
    if x != "" {
      var r := TitlePiece(x);
      assert r[1..] == LowerAll(x[1..]);
      assert LowerAll(r[1..]) == r[1..];
    }
  }

  function MapTitlePiece(xs: seq<string>): (r: seq<string>)
    ensures |r| == |xs| && forall i :: 0 <= i < |xs| ==> r[i] == TitlePiece(xs[i])
  {
    seq(|xs|, i requires 0 <= i < |xs| => TitlePiece(xs[i]))
  }

  /** `"'".join(title(x) for x in part.split("'"))`, the comprehension inside `_smart_title`. */
  function TitleApostrophePieces(part: string): string {
    Join(MapTitlePiece(Split(part, '\'')), "'")
  }

  function MapTitleApostrophePieces(parts: seq<string>): (r: seq<string>)
    ensures |r| == |parts| && forall i :: 0 <= i < |parts| ==> r[i] == TitleApostrophePieces(parts[i])
  {
    seq(|parts|, i requires 0 <= i < |parts| => TitleApostrophePieces(parts[i]))
  }

  lemma MapTitleApostrophePiecesSnoc(parts: seq<string>, i: nat)
    requires i < |parts|
    ensures MapTitleApostrophePieces(parts[..i + 1])
            == MapTitleApostrophePieces(parts[..i]) + [TitleApostrophePieces(parts[i])]
  {
    assert parts[..i + 1][i] == parts[i];
  }

  /** What `_smart_title(token)` computes. */
  function Titled(token: string): string {
    var t := Strip(token);
    if t == "" then "" else Join(MapTitleApostrophePieces(Split(t, '-')), "-")
  }

  /** `_smart_title(token)`: title-case every apostrophe piece of every hyphen piece. */
  method SmartTitle(token: string) returns (r: string)
    ensures r == Titled(token)
  {
    var t := Strip(token);
    if t == "" {
      return "";
    }
    var partsByDash := Split(t, '-');
    var titledParts: seq<string> := [];
    for i := 0 to |partsByDash|
      invariant titledParts == MapTitleApostrophePieces(partsByDash[..i])
    {
      MapTitleApostrophePiecesSnoc(partsByDash, i);
      titledParts := titledParts + [TitleApostrophePieces(partsByDash[i])];
    }
    assert partsByDash[..|partsByDash|] == partsByDash;
    r := Join(titledParts, "-");
  }

  /** Every hyphen piece of every apostrophe piece is title-cased. */
  predicate IsTitledToken(w: string) {
    forall p | p in Split(w, '-') :: forall x | x in Split(p, '\'') :: IsTitledPiece(x)
  }

  lemma CaseOfConcat(a: string, a': string, b: string, b': string)
    requires CaseOf(a, a') && CaseOf(b, b')
    ensures CaseOf(a + b, a' + b')
  {
    forall i | 0 <= i < |a| + |b|
      ensures Lower((a' + b')[i]) == Lower((a + b)[i])
    {
      if i < |a| {
        assert (a + b)[i] == a[i] && (a' + b')[i] == a'[i];
      } else {
        assert (a + b)[i] == b[i - |a|] && (a' + b')[i] == b'[i - |a|];
      }
    }
  }

  lemma {:induction false} JoinCaseOf(ps: seq<string>, qs: seq<string>, sep: string)
    requires |ps| == |qs| && forall i :: 0 <= i < |ps| ==> CaseOf(ps[i], qs[i])
    ensures CaseOf(Join(ps, sep), Join(qs, sep))
  {
    if |ps| > 1 {
      JoinCaseOf(ps[1..], qs[1..], sep);
      assert CaseOf(sep, sep);
      CaseOfConcat(ps[0], qs[0], sep, sep);
      CaseOfConcat(ps[0] + sep, qs[0] + sep, Join(ps[1..], sep), Join(qs[1..], sep));
    }
  }

  lemma CaseOfChars(x: string, y: string)
    requires CaseOf(x, y)
    ensures forall c | c in y :: c in x || IsCasedLetter(c)
  {
    forall c | c in y
      ensures c in x || IsCasedLetter(c)
    {
      var i :| 0 <= i < |y| && y[i] == c;
      assert x[i] in x;
      SameLowerChar(x[i], y[i]);
    }
  }

  /** The apostrophe-piece title-caser only changes the case of letters. */
  lemma TitleApostrophePiecesCaseOf(part: string)
    ensures CaseOf(part, TitleApostrophePieces(part))
  {
    var xs := Split(part, '\'');
    JoinCaseOf(xs, MapTitlePiece(xs), "'");
    JoinSplit(part, '\'');
  }

  /** `_smart_title` only changes the case of letters of the stripped token. */
  lemma TitledCaseOf(token: string)
    ensures CaseOf(Strip(token), Titled(token))
  {
    var t := Strip(token);
    if t != "" {
      var ps := Split(t, '-');
      forall i | 0 <= i < |ps|
        ensures CaseOf(ps[i], MapTitleApostrophePieces(ps)[i])
      {
        TitleApostrophePiecesCaseOf(ps[i]);
      }
      JoinCaseOf(ps, MapTitleApostrophePieces(ps), "-");
      JoinSplit(t, '-');
    }
  }

  /** The apostrophe pieces of a title-cased part are the title-cased pieces of the part. */
  lemma SplitTitleApostrophePieces(part: string)
    ensures Split(TitleApostrophePieces(part), '\'') == MapTitlePiece(Split(part, '\''))
  {
    var xs := Split(part, '\'');
    SplitPieces(part, '\'');
    forall y | y in MapTitlePiece(xs)
      ensures '\'' !in y
    {
      var i :| 0 <= i < |xs| && MapTitlePiece(xs)[i] == y;
      assert xs[i] in xs;
      CaseOfChars(xs[i], y);
    }
    SplitJoin(MapTitlePiece(xs), '\'');
  }

  lemma TitleApostrophePiecesIdempotent(part: string)
    ensures TitleApostrophePieces(TitleApostrophePieces(part)) == TitleApostrophePieces(part)
  {
    var xs := Split(part, '\'');
    SplitTitleApostrophePieces(part);
    forall i | 0 <= i < |xs|
      ensures TitlePiece(TitlePiece(xs[i])) == TitlePiece(xs[i])
    {
      TitlePieceIdempotent(xs[i]);
    }
    assert MapTitlePiece(MapTitlePiece(xs)) == MapTitlePiece(xs);
  }

  /** The hyphen pieces of a title-cased token are the title-cased hyphen pieces of the token. */
  lemma SplitTitled(token: string)
    requires NoSpace(token) && token != ""
    ensures Split(Titled(token), '-') == MapTitleApostrophePieces(Split(token, '-'))
  {
    StripNoSpace(token);
    var ps := Split(token, '-');
    SplitPieces(token, '-');
    forall q | q in MapTitleApostrophePieces(ps)
      ensures '-' !in q
    {
      var i :| 0 <= i < |ps| && MapTitleApostrophePieces(ps)[i] == q;
      assert ps[i] in ps;
      TitleApostrophePiecesCaseOf(ps[i]);
      CaseOfChars(ps[i], q);
    }
    SplitJoin(MapTitleApostrophePieces(ps), '-');
  }

  lemma MapTitlePieceTitled(xs: seq<string>)
    ensures forall x | x in MapTitlePiece(xs) :: IsTitledPiece(x)
  {
    forall x | x in MapTitlePiece(xs)
      ensures IsTitledPiece(x)
    {
      var j :| 0 <= j < |xs| && MapTitlePiece(xs)[j] == x;
    }
  }

  /** Title-casing a non-empty space-free token again changes nothing. */
  lemma TitledIdempotent(token: string)
    requires NoSpace(token) && token != ""
    ensures Titled(Titled(token)) == Titled(token)
  {
    StripNoSpace(token);
    TitledCaseOf(token);
    var u := Titled(token);
    CaseOfChars(token, u);
    assert NoSpace(u);
    StripNoSpace(u);
    var ps := Split(token, '-');
    SplitTitled(token);
    forall i | 0 <= i < |ps|
      ensures TitleApostrophePieces(TitleApostrophePieces(ps[i])) == TitleApostrophePieces(ps[i])
    {
      TitleApostrophePiecesIdempotent(ps[i]);
    }
    assert MapTitleApostrophePieces(MapTitleApostrophePieces(ps)) == MapTitleApostrophePieces(ps);
  }

  /** Every piece of a title-cased non-empty space-free token is title-cased. */
  lemma TitledPiecesTitled(token: string)
    requires NoSpace(token) && token != ""
    ensures IsTitledToken(Titled(token))
  {
    StripNoSpace(token);
    var u := Titled(token);
    var ps := Split(token, '-');
    SplitTitled(token);
    forall p | p in Split(u, '-')
      ensures forall x | x in Split(p, '\'') :: IsTitledPiece(x)
    {
      var i :| 0 <= i < |ps| && MapTitleApostrophePieces(ps)[i] == p;
      SplitTitleApostrophePieces(ps[i]);
      MapTitlePieceTitled(Split(ps[i], '\''));
    }
  }

  /** Title-casing a space-free token again changes nothing, and leaves every piece title-cased. */
  lemma TitledProperties(token: string)
    requires NoSpace(token)
    ensures Titled(Titled(token)) == Titled(token)
    ensures IsTitledToken(Titled(token))
    ensures CaseOf(token, Titled(token))
  {
    StripNoSpace(token);
    TitledCaseOf(token);
    if token == "" {
      assert Titled(token) == "";
      assert Split("", '-') == [""];
      assert Split("", '\'') == [""];
    } else {
      TitledIdempotent(token);
      TitledPiecesTitled(token);
    }
  }

  // ---------------------------------------------------------------------------
  // normalize_fio_string and build_fio_from_contact
  // ---------------------------------------------------------------------------

  /** A character a name token may hold after the clean-up steps (hyphens and `'` included). */
  predicate IsNameChar(c: char) {
    !IsSpace(c) && !InClass(c, StopPunct) && c !in Apostrophes
  }

  predicate IsNameToken(t: string) {
    t != "" && forall c | c in t :: IsNameChar(c)
  }

  /** The shape of a canonical name. */
  predicate IsCanonicalName(s: string) {
    && Collapsed(s)
    && (forall c | c in s :: c == ' ' || IsNameChar(c))
    && (forall w | w in Split(s, ' ') :: IsTitledToken(w))
  }

  /** The space-separated words of `s`: `[t for t in s.split(" ") if t]`. */
  function Words(s: string): seq<string> {
    NonEmpty(Split(s, ' '))
  }

  function MapTitled(tokens: seq<string>): (r: seq<string>)
    ensures |r| == |tokens| && forall i :: 0 <= i < |tokens| ==> r[i] == Titled(tokens[i])
  {
    seq(|tokens|, i requires 0 <= i < |tokens| => Titled(tokens[i]))
  }

  /** The tokens `normalize_fio_string` title-cases: what is left after the clean-up steps. */
  function NameTokens(raw: string): seq<string> {
    var s := NormalizeSpaces(Unified(raw));
    var s2 := NormalizeSpaces(ReplaceRuns(s, StopPunct));
    Words(s2)
  }

  /** `normalize_fio_string(raw)`. */
  function NormalizeFio(raw: string): string {
    Join(MapTitled(NameTokens(raw)), " ")
  }

  /**
   * The tokens hold exactly the input's characters other than whitespace and `,.;`, in their
   * order, with the look-alike apostrophes unified: the clean-up loses no letter.
   */
  lemma NameTokensText(raw: string)
    ensures Join(NameTokens(raw), "") == Without(Without(Unified(raw), Whitespace), StopPunct)
  {
    var u := Unified(raw);
    var s := NormalizeSpaces(u);
    var s1 := ReplaceRuns(s, StopPunct);
    var s2 := NormalizeSpaces(s1);
    JoinNonEmptyPieces(Split(s2, ' '));
    JoinSplitSpaces(s2);
    WithoutReplaceRuns(s, StopPunct);
    WithoutCommute(s, StopPunct, Whitespace);
    WithoutCommute(u, StopPunct, Whitespace);
  }

  /**
   * The tokens are the maximal runs of the unified input that hold neither whitespace nor
   * `,` `.` `;`: the clean-up splits exactly at those characters.
   */
  lemma NameTokensAreFields(raw: string)
    ensures NameTokens(raw) == Fields(Unified(raw), NameBreak)
  {
    var u := Unified(raw);
    var s := NormalizeSpaces(u);
    var s1 := ReplaceRuns(s, StopPunct);
    var s2 := NormalizeSpaces(s1);
    WordsAreFields(s2);
    FieldsOfNormalizeSpaces(s1, Whitespace);
    FieldsReplaceRuns(s, StopPunct, Whitespace, NameBreak);
    FieldsOfNormalizeSpaces(u, NameBreak);
  }

  /** The clean-up steps leave non-empty tokens free of spaces, `,.;` and look-alike apostrophes. */
  lemma NameTokensClean(raw: string)
    ensures forall t | t in NameTokens(raw) :: IsNameToken(t)
  {
    var s := NormalizeSpaces(Unified(raw));
    var s1 := ReplaceRuns(s, StopPunct);
    var s2 := NormalizeSpaces(s1);
    SplitPieces(s2, ' ');
    forall t | t in NameTokens(raw)
      ensures IsNameToken(t)
    {
      assert t in Split(s2, ' ');
      forall c | c in t
        ensures IsNameChar(c)
      {
        assert c in s2 && c != ' ';
        assert c in s1 && !IsSpace(c);
        assert c in s && !InClass(c, StopPunct);
        assert c in Unified(raw);
      }
    }
  }

  lemma {:induction false} JoinNameText(words: seq<string>)
    requires forall w | w in words :: IsNameToken(w)
    ensures forall c | c in Join(words, " ") :: c == ' ' || IsNameChar(c)
  {
    if |words| == 1 {
      assert words[0] in words;
    } else if |words| > 1 {
      assert words[0] in words;
      assert forall w | w in words[1..] :: w in words;
      JoinNameText(words[1..]);
      assert Join(words, " ") == words[0] + " " + Join(words[1..], " ");
    }
  }

  lemma CasedLetterIsNameChar(c: char)
    requires IsCasedLetter(c)
    ensures IsNameChar(c)
  {
  }

  /** Changing the case of letters keeps a name token a name token. */
  lemma CaseOfNameToken(x: string, y: string)
    requires CaseOf(x, y) && IsNameToken(x)
    ensures IsNameToken(y)
  {
    forall c | c in y
      ensures IsNameChar(c)
    {
      var i :| 0 <= i < |y| && y[i] == c;
      assert x[i] in x;
      SameLowerChar(x[i], y[i]);
      if y[i] != x[i] {
        CasedLetterIsNameChar(c);
      }
    }
  }

  /** Title-casing keeps a token a name token. */
  lemma TitledNameToken(t: string)
    requires IsNameToken(t)
    ensures IsNameToken(Titled(t)) && Titled(Titled(t)) == Titled(t) && IsTitledToken(Titled(t))
  {
    assert NoSpace(t);
    TitledProperties(t);
    CaseOfNameToken(t, Titled(t));
  }

  /** The clean-up steps of `normalize_fio_string` leave a space-join of name tokens alone. */
  lemma NameTokensOfJoin(words: seq<string>)
    requires forall w | w in words :: IsNameToken(w)
    ensures NameTokens(Join(words, " ")) == words
  {
    assert forall w | w in words :: w != "" && NoSpace(w);
    var r := Join(words, " ");
    JoinWordsCollapsed(words);
    JoinNameText(words);
    UnifiedNoop(r);
    NormalizeSpacesOfCollapsed(r);
    ReplaceRunsNoop(r, StopPunct);
    WordsOfJoin(words);
  }

  /** A space-join of title-cased name tokens has the canonical shape. */
  lemma JoinCanonicalShape(words: seq<string>)
    requires forall w | w in words :: IsNameToken(w) && IsTitledToken(w)
    ensures IsCanonicalName(Join(words, " "))
  {
    assert forall w | w in words :: w != "" && NoSpace(w);
    JoinWordsCollapsed(words);
    JoinNameText(words);
    if words == [] {
      assert Split("", ' ') == [""];
      assert Split("", '-') == [""];
      assert Split("", '\'') == [""];
    } else {
      SplitJoin(words, ' ');
    }
  }

  /**
   * Joining title-cased name tokens gives a canonical name that `normalize_fio_string`
   * leaves unchanged, and whose words are those title-cased tokens.
   */
  lemma CanonicalJoin(tokens: seq<string>)
    requires forall t | t in tokens :: IsNameToken(t)
    ensures var r := Join(MapTitled(tokens), " ");
      IsCanonicalName(r) && NormalizeFio(r) == r && Words(r) == MapTitled(tokens)
  {
    var words := MapTitled(tokens);
    forall i | 0 <= i < |tokens|
      ensures IsNameToken(words[i]) && Titled(words[i]) == words[i] && IsTitledToken(words[i])
    {
      assert tokens[i] in tokens;
      TitledNameToken(tokens[i]);
    }
    var r := Join(words, " ");
    JoinCanonicalShape(words);
    NameTokensOfJoin(words);
    assert MapTitled(words) == words;
    assert forall w | w in words :: w != "" && NoSpace(w);
    WordsOfJoin(words);
  }

  /** `normalize_fio_string` yields a canonical name and is idempotent. */
  lemma NormalizeFioShape(raw: string)
    ensures IsCanonicalName(NormalizeFio(raw))
    ensures NormalizeFio(NormalizeFio(raw)) == NormalizeFio(raw)
  {
    NameTokensClean(raw);
    CanonicalJoin(NameTokens(raw));
  }

  /**
   * `normalize_fio_string` always yields a canonical name and is idempotent; its words are the
   * title-cased tokens, which are the runs of the input between whitespace and `,` `.` `;`.
   */
  lemma NormalizeFioCanonical(raw: string)
    ensures IsCanonicalName(NormalizeFio(raw))
    ensures NormalizeFio(NormalizeFio(raw)) == NormalizeFio(raw)
    ensures Words(NormalizeFio(raw)) == MapTitled(NameTokens(raw))
    ensures Join(NameTokens(raw), "") == Without(Without(Unified(raw), Whitespace), StopPunct)
    ensures NormalizeFio(raw) == Join(MapTitled(Fields(Unified(raw), NameBreak)), " ")
  {
    NameTokensClean(raw);
    NameTokensText(raw);
    NameTokensAreFields(raw);
    CanonicalJoin(NameTokens(raw));
  }

  /** `normalize_fio_string` starts with the apostrophe and space clean-up, so doing that first changes nothing. */
  lemma NormalizeFioAbsorbsCleanup(raw: string)
    ensures NormalizeFio(NormalizeSpaces(Unified(raw))) == NormalizeFio(raw)
  {
    var s := NormalizeSpaces(Unified(raw));
    UnifiedNoop(s);
    NormalizeSpacesOfCollapsed(s);
    assert NameTokens(s) == NameTokens(raw);
  }

  /** A token without spaces, hyphens or apostrophes is title-cased as one piece. */
  lemma TitledOfPlainWord(w: string)
    requires w != "" && NoSpace(w) && '-' !in w && '\'' !in w
    ensures Titled(w) == TitlePiece(w)
  {
    StripNoSpace(w);
    SplitWithoutSep(w, '-');
    SplitWithoutSep(w, '\'');
  }

  /** `normalize_spaces` on `"  a,  b "`: the outer spaces go, the inner run shrinks to one. */
  lemma NormalizeSpacesOfPaddedPair(a: string, b: string)
    requires IsNameToken(a) && IsNameToken(b)
    ensures NormalizeSpaces("  " + (a + ("," + ("  " + (b + " "))))) == a + ("," + (" " + b))
  {
    var raw := "  " + (a + ("," + ("  " + (b + " "))));
    assert a[0] in a && b[0] in b;
    assert '\U{A0}' !in raw;
    ReplaceCharAbsent(raw, '\U{A0}', ' ');
    var q := a + ("," + (" " + b));
    calc {
      ReplaceRuns(raw, Whitespace);
    ==  { ReplaceRunsRunPrefix("  ", a + ("," + ("  " + (b + " "))), Whitespace); }
      " " + ReplaceRuns(a + ("," + ("  " + (b + " "))), Whitespace);
    ==  { ReplaceRunsKeepPrefix(a, "," + ("  " + (b + " ")), Whitespace); }
      " " + (a + ReplaceRuns("," + ("  " + (b + " ")), Whitespace));
    ==  { ReplaceRunsKeepPrefix(",", "  " + (b + " "), Whitespace); }
      " " + (a + ("," + ReplaceRuns("  " + (b + " "), Whitespace)));
    ==  { ReplaceRunsRunPrefix("  ", b + " ", Whitespace); }
      " " + (a + ("," + (" " + ReplaceRuns(b + " ", Whitespace))));
    ==  { ReplaceRunsKeepPrefix(b, " ", Whitespace); }
      " " + (a + ("," + (" " + (b + ReplaceRuns(" ", Whitespace)))));
    ==  { assert ReplaceRuns(" ", Whitespace) == " " by { ReplaceRunsRunPrefix(" ", [], Whitespace); } }
      " " + (a + ("," + (" " + (b + " "))));
    ==
      " " + q + " ";
    }
    assert q[0] == a[0] && q[|q| - 1] == b[|b| - 1] && b[|b| - 1] in b;
    StripPadded(q);
  }

  /** The `,.;` clean-up turns the comma of `"a, b"` into a second space. */
  lemma StopPunctOfCommaPair(a: string, b: string)
    requires IsNameToken(a) && IsNameToken(b)
    ensures ReplaceRuns(a + ("," + (" " + b)), StopPunct) == a + (" " + (" " + b))
  {
    assert b[0] in b;
    calc {
      ReplaceRuns(a + ("," + (" " + b)), StopPunct);
    ==  { ReplaceRunsKeepPrefix(a, "," + (" " + b), StopPunct); }
      a + ReplaceRuns("," + (" " + b), StopPunct);
    ==  { ReplaceRunsRunPrefix(",", " " + b, StopPunct); }
      a + (" " + ReplaceRuns(" " + b, StopPunct));
    ==  { ReplaceRunsNoop(" " + b, StopPunct); }
      a + (" " + (" " + b));
    }
  }

  /** The second `normalize_spaces` shrinks the double space of `"a  b"`. */
  lemma NormalizeSpacesOfDoubleSpace(a: string, b: string)
    requires IsNameToken(a) && IsNameToken(b)
    ensures NormalizeSpaces(a + (" " + (" " + b))) == a + (" " + b)
  {
    var s1 := a + (" " + (" " + b));
    assert b[0] in b;
    assert '\U{A0}' !in s1;
    ReplaceCharAbsent(s1, '\U{A0}', ' ');
    var s2 := a + (" " + b);
    calc {
      ReplaceRuns(s1, Whitespace);
    ==  { ReplaceRunsKeepPrefix(a, " " + (" " + b), Whitespace); }
      a + ReplaceRuns(" " + (" " + b), Whitespace);
    ==  { assert " " + (" " + b) == "  " + b; ReplaceRunsRunPrefix("  ", b, Whitespace); }
      a + (" " + ReplaceRuns(b, Whitespace));
    ==  { ReplaceRunsNoop(b, Whitespace); }
      s2;
    }
    CollapsedPair(a, b);
    StripCollapsed(s2);
  }

  /** The first two clean-up steps on `"  a,  b "` leave `"a, b"`. */
  lemma FirstCleanupOfPaddedPair(a: string, b: string)
    requires IsNameToken(a) && IsNameToken(b)
    ensures NormalizeSpaces(Unified("  " + a + ",  " + b + " ")) == a + ("," + (" " + b))
  {
    var raw := "  " + a + ",  " + b + " ";
    assert raw == "  " + (a + ("," + ("  " + (b + " "))));
    UnifiedNoop(raw);
    NormalizeSpacesOfPaddedPair(a, b);
  }

  lemma WordsOfPair(a: string, b: string)
    requires IsNameToken(a) && IsNameToken(b)
    ensures Words(a + (" " + b)) == [a, b]
  {
    SplitWithoutSep(b, ' ');
    SplitAtSep(a, b, ' ');
    assert a + [' '] + b == a + (" " + b);
    NonEmptyOfNonEmpty([a, b]);
  }

  /** Whitespace at the ends and a comma between two name tokens: the clean-up yields exactly the two tokens. */
  lemma NameTokensOfTwoWords(a: string, b: string)
    requires IsNameToken(a) && IsNameToken(b)
    ensures NameTokens("  " + a + ",  " + b + " ") == [a, b]
  {
    FirstCleanupOfPaddedPair(a, b);
    StopPunctOfCommaPair(a, b);
    NormalizeSpacesOfDoubleSpace(a, b);
    WordsOfPair(a, b);
  }

  /** On `"  a,  b "` `normalize_fio_string` yields the two tokens title-cased, one space apart. */
  lemma NormalizeFioOfTwoWords(a: string, b: string)
    requires IsNameToken(a) && IsNameToken(b)
    ensures NormalizeFio("  " + a + ",  " + b + " ") == Titled(a) + " " + Titled(b)
  {
    NameTokensOfTwoWords(a, b);
    TitledPair(a, b);
  }

  lemma TitledPair(a: string, b: string)
    ensures Join(MapTitled([a, b]), " ") == Titled(a) + " " + Titled(b)
  {
    var ts := MapTitled([a, b]);
    assert ts == [Titled(a), Titled(b)];
    assert ts[1..] == [Titled(b)];
  }

  /** A non-empty run of ASCII letters is a name token without hyphens or apostrophes. */
  lemma AsciiWordIsNameToken(w: string)
    requires w != "" && forall c | c in w :: 'A' <= c <= 'Z' || 'a' <= c <= 'z'
    ensures IsNameToken(w) && NoSpace(w) && '-' !in w && '\'' !in w
  {
  }

  /** `x[:1].upper() + x[1:].lower()` on the two words of the example below. */
  lemma TitlePieceOfExampleWords()
    ensures TitlePiece("ivan") == "Ivan" && TitlePiece("PETROV") == "Petrov"
  {
    var a, b := "ivan", "PETROV";
    assert TitlePiece(a) == "Ivan" by {
      var l := LowerAll(a[1..]);
      assert a[1..] == "van" && |l| == 3;
      assert l[0] == 'v' && l[1] == 'a' && l[2] == 'n';
      assert l == "van";
    }
    assert TitlePiece(b) == "Petrov" by {
      var l := LowerAll(b[1..]);
      assert b[1..] == "ETROV" && |l| == 5;
      assert l[0] == 'e' && l[1] == 't' && l[2] == 'r' && l[3] == 'o' && l[4] == 'v';
      assert l == "etrov";
    }
  }

  /** `_smart_title` on the two words of the example below. */
  lemma TitledOfExampleWords()
    ensures Titled("ivan") == "Ivan" && Titled("PETROV") == "Petrov"
  {
    var a, b := "ivan", "PETROV";
    TitlePieceOfExampleWords();
    assert forall c | c in a :: 'a' <= c <= 'z';
    assert forall c | c in b :: 'A' <= c <= 'Z';
    AsciiWordIsNameToken(a);
    AsciiWordIsNameToken(b);
    TitledOfPlainWord(a);
    TitledOfPlainWord(b);
  }

  /** `normalize_fio_string("  ivan,  PETROV ")` is `"Ivan Petrov"`. */
  lemma NormalizeFioExample()
    ensures NormalizeFio("  " + "ivan" + ",  " + "PETROV" + " ") == "Ivan" + " " + "Petrov"
  {
    var a, b := "ivan", "PETROV";
    assert forall c | c in a :: 'a' <= c <= 'z';
    assert forall c | c in b :: 'A' <= c <= 'Z';
    AsciiWordIsNameToken(a);
    AsciiWordIsNameToken(b);
    NormalizeFioOfTwoWords(a, b);
    TitledOfExampleWords();
  }

  /** A canonical name holds no `,`, which is what lets the folder-title codec split at the first comma. */
  lemma CanonicalNameHasNoComma(s: string)
    requires IsCanonicalName(s)
    ensures ',' !in s
  {
  }

  /** A contact record: the three name fields may be missing. */
  datatype Contact = Contact(lastName: Option<string>, name: Option<string>, secondName: Option<string>)

  /** `contact.get(field) or ""`. */
  function FieldOrEmpty(field: Option<string>): string {
    match field
    case Some(s) => s
    case None => ""
  }

  /** `build_fio_from_contact(contact)`: the normalised last, first and middle names, the empty ones skipped. */
  function BuildFioFromContact(contact: Contact): string {
    var last := NormalizeFio(FieldOrEmpty(contact.lastName));
    var first := NormalizeFio(FieldOrEmpty(contact.name));
    var middle := NormalizeFio(FieldOrEmpty(contact.secondName));
    Strip(Join(NonEmpty([last, first, middle]), " "))
  }

  /** Joining with one space, skipping an empty side. */
  function SpaceJoin2(a: string, b: string): string {
    if a == "" then b else if b == "" then a else a + " " + b
  }

  lemma JoinNonEmpty3(a: string, b: string, c: string)
    ensures Join(NonEmpty([a, b, c]), " ") == SpaceJoin2(SpaceJoin2(a, b), c)
  {
    assert [a, b, c][1..] == [b, c];
    assert [b, c][1..] == [c];
    assert [c][1..] == [];
    var pa: seq<string> := if a != "" then [a] else [];
    var pb: seq<string> := if b != "" then [b] else [];
    var pc: seq<string> := if c != "" then [c] else [];
    assert NonEmpty([c]) == pc;
    assert NonEmpty([b, c]) == pb + pc;
    assert NonEmpty([a, b, c]) == (pa + pb) + pc;
    JoinAppend(pa, pb, " ");
    JoinAppend(pa + pb, pc, " ");
  }

  /** The join of two word lists, when no word is empty, is `SpaceJoin2` of their joins. */
  lemma JoinWordLists(a: seq<string>, b: seq<string>)
    requires forall w | w in a + b :: w != ""
    ensures Join(a + b, " ") == SpaceJoin2(Join(a, " "), Join(b, " "))
  {
    JoinAppend(a, b, " ");
    if a != [] {
      assert a[0] in a + b;
      JoinNonEmpty(a, " ");
    }
    if b != [] {
      assert b[0] in a + b;
      JoinNonEmpty(b, " ");
    }
  }

  /** Skipping the empty ones among three joins of non-empty words joins all the words. */
  lemma JoinThreeWordLists(wl: seq<string>, wf: seq<string>, wm: seq<string>)
    requires forall w | w in wl + wf + wm :: w != ""
    ensures Join(NonEmpty([Join(wl, " "), Join(wf, " "), Join(wm, " ")]), " ") == Join(wl + wf + wm, " ")
  {
    assert forall w | w in wl + wf :: w in wl + wf + wm;
    JoinWordLists(wl, wf);
    JoinWordLists(wl + wf, wm);
    JoinNonEmpty3(Join(wl, " "), Join(wf, " "), Join(wm, " "));
  }

  lemma MapTitledAppend3(tl: seq<string>, tf: seq<string>, tm: seq<string>)
    ensures MapTitled(tl + tf + tm) == MapTitled(tl) + MapTitled(tf) + MapTitled(tm)
  {
  }

  lemma TitledTokensNonEmpty(all: seq<string>)
    requires forall t | t in all :: IsNameToken(t)
    ensures forall w | w in MapTitled(all) :: w != ""
  {
    var words := MapTitled(all);
    forall i | 0 <= i < |all|
      ensures words[i] != ""
    {
      assert all[i] in all;
      TitledNameToken(all[i]);
    }
  }

  /** Joining the non-empty ones of three normalised names is normalising all their tokens at once. */
  lemma JoinNormalizedNames(tl: seq<string>, tf: seq<string>, tm: seq<string>)
    requires forall t | t in tl + tf + tm :: IsNameToken(t)
    ensures var r := Strip(Join(NonEmpty([Join(MapTitled(tl), " "), Join(MapTitled(tf), " "), Join(MapTitled(tm), " ")]), " "));
      && r == Join(MapTitled(tl + tf + tm), " ")
      && IsCanonicalName(r)
      && NormalizeFio(r) == r
      && Words(r) == MapTitled(tl) + MapTitled(tf) + MapTitled(tm)
  {
    var all := tl + tf + tm;
    var wl, wf, wm := MapTitled(tl), MapTitled(tf), MapTitled(tm);
    MapTitledAppend3(tl, tf, tm);
    TitledTokensNonEmpty(all);
    JoinThreeWordLists(wl, wf, wm);
    CanonicalJoin(all);
    StripCollapsed(Join(MapTitled(all), " "));
  }

  /**
   * `build_fio_from_contact` yields a canonical name, one `normalize_fio_string` leaves alone,
   * whose words are those of the normalised last, first and middle names, in that order.
   */
  lemma BuildFioFromContactCanonical(contact: Contact)
    ensures var r := BuildFioFromContact(contact);
      && IsCanonicalName(r)
      && NormalizeFio(r) == r
      && Words(r) == Words(NormalizeFio(FieldOrEmpty(contact.lastName)))
                     + Words(NormalizeFio(FieldOrEmpty(contact.name)))
                     + Words(NormalizeFio(FieldOrEmpty(contact.secondName)))
  {
    var l, f, m := FieldOrEmpty(contact.lastName), FieldOrEmpty(contact.name), FieldOrEmpty(contact.secondName);
    NormalizeFioCanonical(l);
    NormalizeFioCanonical(f);
    NormalizeFioCanonical(m);
    NameTokensClean(l);
    NameTokensClean(f);
    NameTokensClean(m);
    JoinNormalizedNames(NameTokens(l), NameTokens(f), NameTokens(m));
  }
}
