/**
 * The parts of Python's `str` and `re` behaviour that the bot's normalisers rely on,
 * stated over `seq<char>`: character classes, `re.sub(r"\D", "", s)`, `str.split(sep)`,
 * `sep.join(parts)`, `str.strip()`, `str.replace` of one character, `x in s` for
 * strings, and a length-preserving model of `str.upper()` / `str.lower()`.
 */
module Text {

  // ---------------------------------------------------------------------------
  // Character classes
  // ---------------------------------------------------------------------------

  /** The characters for which Python's `str.isspace()` holds; `\s` matches the same set. */
  predicate IsSpace(c: char) {
    ('\t' <= c <= '\r') || ('\U{1C}' <= c <= ' ') || c == '\U{85}' || c == '\U{A0}'
    || c == '\U{1680}' || ('\U{2000}' <= c <= '\U{200A}') || c == '\U{2028}'
    || c == '\U{2029}' || c == '\U{202F}' || c == '\U{205F}' || c == '\U{3000}'
  }

  predicate IsDigit(c: char) {
    '0' <= c <= '9'
  }

  predicate AllDigits(s: string) {
    forall c | c in s :: IsDigit(c)
  }

  predicate NoSpace(s: string) {
    forall c | c in s :: !IsSpace(c)
  }

  /** The letters whose case the model of `upper`/`lower` changes: ASCII Latin and Cyrillic. */
  predicate IsCasedLetter(c: char) {
    ('A' <= c <= 'Z') || ('a' <= c <= 'z') || ('\U{400}' <= c <= '\U{45F}')
    || c == '\U{490}' || c == '\U{491}'
  }

  /** `c.upper()` for one character, restricted to ASCII Latin and Cyrillic. */
  function Upper(c: char): (r: char)
    ensures r == c || (IsCasedLetter(c) && IsCasedLetter(r))
  {
    if 'a' <= c <= 'z' then (c as int - 32) as char
    else if '\U{430}' <= c <= '\U{44F}' then (c as int - 32) as char
    else if '\U{450}' <= c <= '\U{45F}' then (c as int - 80) as char
    else if c == '\U{491}' then '\U{490}'
    else c
  }

  /** `c.lower()` for one character, restricted to ASCII Latin and Cyrillic. */
  function Lower(c: char): (r: char)
    ensures r == c || (IsCasedLetter(c) && IsCasedLetter(r))
  {
    if 'A' <= c <= 'Z' then (c as int + 32) as char
    else if '\U{410}' <= c <= '\U{42F}' then (c as int + 32) as char
    else if '\U{400}' <= c <= '\U{40F}' then (c as int + 80) as char
    else if c == '\U{490}' then '\U{491}'
    else c
  }

  lemma CaseMapsIdempotent(c: char)
    ensures Upper(Upper(c)) == Upper(c) && Lower(Lower(c)) == Lower(c)
  {
  }

  /** `s.lower()`. */
  function LowerAll(s: string): (r: string)
    ensures |r| == |s|
    ensures forall i :: 0 <= i < |s| ==> r[i] == Lower(s[i])
  {
    seq(|s|, i requires 0 <= i < |s| => Lower(s[i]))
  }

  // ---------------------------------------------------------------------------
  // re.sub(r"\D", "", s)
  // ---------------------------------------------------------------------------

  /** The decimal digits of `s`, in order. */
  function Digits(s: string): (r: string)
    ensures |r| <= |s|
    ensures AllDigits(r)
  {
    if s == [] then []
    else (if IsDigit(s[0]) then [s[0]] else []) + Digits(s[1..])
  }

  lemma {:induction false} DigitsAppend(a: string, b: string)
    ensures Digits(a + b) == Digits(a) + Digits(b)
  {
    if a == [] {
      assert a + b == b;
    } else {
      assert (a + b)[1..] == a[1..] + b;
      DigitsAppend(a[1..], b);
    }
  }

  lemma {:induction false} DigitsOfDigitString(s: string)
    requires AllDigits(s)
    ensures Digits(s) == s
  {
    if s != [] {
      assert forall c | c in s[1..] :: c in s;
      DigitsOfDigitString(s[1..]);
    }
  }

  // ---------------------------------------------------------------------------
  // Prefixes, suffixes and `x in s`
  // ---------------------------------------------------------------------------

  predicate StartsWith(s: string, p: string) {
    |p| <= |s| && s[..|p|] == p
  }

  predicate EndsWith(s: string, p: string) {
    |p| <= |s| && s[|s| - |p|..] == p
  }

  /** Python's `p in s` for two strings. */
  predicate IsSubstring(p: string, s: string)
    decreases |s|
  {
    StartsWith(s, p) || (s != [] && IsSubstring(p, s[1..]))
  }

  /** `s[a:b]` with Python's clamping of out-of-range bounds (here `0 <= a <= b`). */
  function Slice(s: string, a: nat, b: nat): (r: string)
    requires a <= b
    ensures |r| <= b - a
  {
    var hi := if b <= |s| then b else |s|;
    var lo := if a <= hi then a else hi;
    s[lo..hi]
  }

  /** `s[-n:]`. */
  function TakeLast(s: string, n: nat): (r: string)
    ensures |r| == if |s| <= n then |s| else n
    ensures EndsWith(s, r)
  {
    if |s| <= n then s else s[|s| - n..]
  }

  // ---------------------------------------------------------------------------
  // str.split(sep) and sep.join(parts)
  // ---------------------------------------------------------------------------

  /** `s.split(sep)` for a one-character separator: never empty, keeps empty pieces. */
  function Split(s: string, sep: char): (r: seq<string>)
    ensures |r| >= 1
    decreases |s|
  {
    if s == [] then [""]
    else if s[0] == sep then [""] + Split(s[1..], sep)
    else
      var rest := Split(s[1..], sep);
      [[s[0]] + rest[0]] + rest[1..]
  }

  /** `sep.join(parts)`. */
  function Join(parts: seq<string>, sep: string): string
  {
    if parts == [] then ""
    else if |parts| == 1 then parts[0]
    else parts[0] + sep + Join(parts[1..], sep)
  }

  /** The index of the first `c` in `s`, or `|s|` when there is none. */
  function FirstIndex(s: string, c: char): (k: nat)
    ensures k <= |s|
    ensures forall i :: 0 <= i < k ==> s[i] != c
    ensures k < |s| ==> s[k] == c
  {
    if s == [] || s[0] == c then 0 else 1 + FirstIndex(s[1..], c)
  }

  lemma FirstIndexPresent(s: string, c: char)
    requires c in s
    ensures FirstIndex(s, c) < |s|
  {
    var i :| 0 <= i < |s| && s[i] == c;
  }

  /** The first piece of `s.split(c)` is what precedes the first `c`. */
  lemma {:induction false} SplitHead(s: string, c: char)
    ensures Split(s, c)[0] == s[..FirstIndex(s, c)]
    decreases |s|
  {
    if s != [] && s[0] != c {
      SplitHead(s[1..], c);
      assert s[..FirstIndex(s, c)] == [s[0]] + s[1..][..FirstIndex(s[1..], c)];
    }
  }

  /** `[p for p in parts if p]`. */
  function NonEmpty(parts: seq<string>): (r: seq<string>)
    ensures forall p | p in r :: p != "" && p in parts
    ensures |r| <= |parts|
  {
    if parts == [] then []
    else (if parts[0] != "" then [parts[0]] else []) + NonEmpty(parts[1..])
  }

  lemma {:induction false} NonEmptyOfNonEmpty(parts: seq<string>)
    requires forall p | p in parts :: p != ""
    ensures NonEmpty(parts) == parts
  {
    if parts != [] {
      assert parts[0] in parts;
      assert forall p | p in parts[1..] :: p in parts;
      NonEmptyOfNonEmpty(parts[1..]);
    }
  }

  lemma {:induction false} SplitWithoutSep(s: string, sep: char)
    requires sep !in s
    ensures Split(s, sep) == [s]
  {
    if s != [] {
      assert s[0] in s && forall c | c in s[1..] :: c in s;
      SplitWithoutSep(s[1..], sep);
      assert [s[0]] + s[1..] == s;
    }
  }

  lemma {:induction false} SplitAtSep(x: string, y: string, sep: char)
    requires sep !in x
    ensures Split(x + [sep] + y, sep) == [x] + Split(y, sep)
  {
    if x == [] {
      assert x + [sep] + y == [sep] + y;
    } else {
      assert (x + [sep] + y)[1..] == x[1..] + [sep] + y;
      assert x[0] in x && forall c | c in x[1..] :: c in x;
      SplitAtSep(x[1..], y, sep);
      assert [x[0]] + x[1..] == x;
    }
  }

  /** Splitting a join at the separator gives the parts back, when no part holds the separator. */
  lemma {:induction false} SplitJoin(parts: seq<string>, sep: char)
    requires |parts| >= 1
    requires forall p | p in parts :: sep !in p
    ensures Split(Join(parts, [sep]), sep) == parts
  {
    if |parts| == 1 {
      SplitWithoutSep(parts[0], sep);
    } else {
      SplitJoin(parts[1..], sep);
      SplitAtSep(parts[0], Join(parts[1..], [sep]), sep);
      assert parts[0] + [sep] + Join(parts[1..], [sep]) == Join(parts, [sep]);
    }
  }

  /** Joining the pieces of a split with the separator restores the string. */
  lemma {:induction false} JoinSplit(s: string, sep: char)
    ensures Join(Split(s, sep), [sep]) == s
  {
    if s != [] {
      JoinSplit(s[1..], sep);
      var rest := Split(s[1..], sep);
      if s[0] == sep {
        assert Split(s, sep) == [""] + rest;
        assert Join(Split(s, sep), [sep]) == "" + [sep] + Join(rest, [sep]);
      } else {
        var parts := Split(s, sep);
        assert parts == [[s[0]] + rest[0]] + rest[1..];
        if |rest| == 1 {
          assert Join(parts, [sep]) == [s[0]] + rest[0];
        } else {
          assert parts[1..] == rest[1..];
          assert Join(parts, [sep]) == [s[0]] + rest[0] + [sep] + Join(rest[1..], [sep]);
          assert Join(rest, [sep]) == rest[0] + [sep] + Join(rest[1..], [sep]);
        }
      }
    }
  }

  /** Every piece of a split is free of the separator and made of characters of `s`. */
  lemma {:induction false} SplitPieces(s: string, sep: char)
    ensures forall p | p in Split(s, sep) :: sep !in p && forall c | c in p :: c in s
  {
    if s != [] {
      SplitPieces(s[1..], sep);
      var rest := Split(s[1..], sep);
      assert forall c | c in s[1..] :: c in s;
      if s[0] != sep {
        assert rest[0] in rest;
        assert forall p | p in rest[1..] :: p in rest;
      }
    }
  }

  /** A split with a single piece holds the whole string. */
  lemma SplitSingle(s: string, sep: char)
    requires |Split(s, sep)| == 1
    ensures Split(s, sep) == [s]
  {
    JoinSplit(s, sep);
  }

  lemma {:induction false} JoinNonEmpty(parts: seq<string>, sep: string)
    requires parts != [] && parts[0] != ""
    ensures Join(parts, sep) != "" && Join(parts, sep)[0] == parts[0][0]
  {
  }

  /** Joining two lists of parts is joining their joins, skipping an empty side. */
  lemma {:induction false} JoinAppend(a: seq<string>, b: seq<string>, sep: string)
    ensures Join(a + b, sep) ==
      if a == [] then Join(b, sep)
      else if b == [] then Join(a, sep)
      else Join(a, sep) + sep + Join(b, sep)
  {
    if a == [] {
      assert a + b == b;
    } else if b == [] {
      assert a + b == a;
    } else if |a| == 1 {
      assert (a + b)[1..] == b;
    } else {
      assert (a + b)[1..] == a[1..] + b;
      JoinAppend(a[1..], b, sep);
    }
  }

  // ---------------------------------------------------------------------------
  // str.replace(a, b) of one character by one character
  // ---------------------------------------------------------------------------

  function ReplaceChar(s: string, a: char, b: char): (r: string)
    ensures |r| == |s|
    ensures forall i :: 0 <= i < |s| ==> r[i] == if s[i] == a then b else s[i]
  {
    seq(|s|, i requires 0 <= i < |s| => if s[i] == a then b else s[i])
  }

  lemma ReplaceCharAbsent(s: string, a: char, b: char)
    requires a !in s
    ensures ReplaceChar(s, a, b) == s
  {
    assert forall i :: 0 <= i < |s| ==> s[i] in s;
  }

  // ---------------------------------------------------------------------------
  // re.sub(r"\s+", " ", s), re.sub(r"[,\.;]+", " ", s) and str.strip()
  // ---------------------------------------------------------------------------

  /**
   * The two character classes whose runs the normalisers replace by one space, and their
   * union, which separates the tokens of a personal name.
   */
  datatype RunClass = Whitespace | StopPunct | NameBreak

  predicate InClass(c: char, k: RunClass) {
    match k
    case Whitespace => IsSpace(c)
    case StopPunct => c == ',' || c == '.' || c == ';'
    case NameBreak => IsSpace(c) || c == ',' || c == '.' || c == ';'
  }

  /** The length of the run of class-`k` characters at the head of `s`. */
  function RunLength(s: string, k: RunClass): (n: nat)
    ensures n <= |s|
    ensures forall i :: 0 <= i < n ==> InClass(s[i], k)
    ensures n == |s| || !InClass(s[n], k)
  {
    if s != [] && InClass(s[0], k) then 1 + RunLength(s[1..], k) else 0
  }

  /** `re.sub(pattern + "+", " ", s)`: every maximal run of class-`k` characters becomes one space. */
  function ReplaceRuns(s: string, k: RunClass): (r: string)
    ensures forall c | c in r :: c == ' ' || (c in s && !InClass(c, k))
    decreases |s|
  {
    if s == [] then []
    else if InClass(s[0], k) then " " + ReplaceRuns(s[RunLength(s, k)..], k)
    else [s[0]] + ReplaceRuns(s[1..], k)
  }

  /** The characters of `s` outside class `k`, in their order. */
  function Without(s: string, k: RunClass): (r: string)
    ensures |r| <= |s|
    decreases |s|
  {
    if s == [] then []
    else (if InClass(s[0], k) then [] else [s[0]]) + Without(s[1..], k)
  }

  lemma {:induction false} WithoutAppend(a: string, b: string, k: RunClass)
    ensures Without(a + b, k) == Without(a, k) + Without(b, k)
    decreases |a|
  {
    if a == [] {
      assert a + b == b;
    } else {
      var h := if InClass(a[0], k) then [] else [a[0]];
      calc {
        Without(a + b, k);
      ==  { assert (a + b)[0] == a[0] && (a + b)[1..] == a[1..] + b; }
        h + Without(a[1..] + b, k);
      ==  { WithoutAppend(a[1..], b, k); }
        h + (Without(a[1..], k) + Without(b, k));
      ==
        (h + Without(a[1..], k)) + Without(b, k);
      }
    }
  }

  /** A string made only of class-`k` characters vanishes. */
  lemma {:induction false} WithoutAllInClass(s: string, k: RunClass)
    requires forall i :: 0 <= i < |s| ==> InClass(s[i], k)
    ensures Without(s, k) == []
    decreases |s|
  {
    if s != [] {
      assert forall i :: 0 <= i < |s| - 1 ==> s[1..][i] == s[i + 1];
      WithoutAllInClass(s[1..], k);
    }
  }

  /** Skipping the leading class-`k` run does not change what is left once class `k` is dropped. */
  lemma WithoutSkipRun(s: string, k: RunClass)
    ensures Without(s[RunLength(s, k)..], k) == Without(s, k)
  {
    var n := RunLength(s, k);
    assert s == s[..n] + s[n..];
    WithoutAppend(s[..n], s[n..], k);
    WithoutAllInClass(s[..n], k);
  }

  /** Dropping a class twice is dropping it once. */
  lemma {:induction false} WithoutTwice(s: string, k: RunClass)
    ensures Without(Without(s, k), k) == Without(s, k)
    decreases |s|
  {
    if s != [] {
      WithoutTwice(s[1..], k);
      WithoutAppend(if InClass(s[0], k) then [] else [s[0]], Without(s[1..], k), k);
    }
  }

  /** Dropping two classes in either order gives the same string. */
  lemma {:induction false} WithoutCommute(s: string, j: RunClass, k: RunClass)
    ensures Without(Without(s, j), k) == Without(Without(s, k), j)
    decreases |s|
  {
    if s != [] {
      WithoutCommute(s[1..], j, k);
      WithoutAppend(if InClass(s[0], j) then [] else [s[0]], Without(s[1..], j), k);
      WithoutAppend(if InClass(s[0], k) then [] else [s[0]], Without(s[1..], k), j);
    }
  }

  /** Turning one whitespace character into another leaves the non-whitespace text alone. */
  lemma {:induction false} WithoutReplaceSpace(s: string, a: char, b: char)
    requires IsSpace(a) && IsSpace(b)
    ensures Without(ReplaceChar(s, a, b), Whitespace) == Without(s, Whitespace)
    decreases |s|
  {
    if s != [] {
      assert ReplaceChar(s, a, b)[1..] == ReplaceChar(s[1..], a, b);
      WithoutReplaceSpace(s[1..], a, b);
    }
  }

  /** Replacing class-`k` runs by a space loses, once whitespace is dropped, exactly the class-`k` characters. */
  lemma {:induction false} WithoutReplaceRuns(s: string, k: RunClass)
    ensures Without(ReplaceRuns(s, k), Whitespace) == Without(Without(s, k), Whitespace)
    decreases |s|
  {
    if s != [] {
      if InClass(s[0], k) {
        var n := RunLength(s, k);
        WithoutReplaceRuns(s[n..], k);
        WithoutAppend(" ", ReplaceRuns(s[n..], k), Whitespace);
        WithoutSkipRun(s, k);
      } else {
        WithoutReplaceRuns(s[1..], k);
        WithoutAppend([s[0]], ReplaceRuns(s[1..], k), Whitespace);
        WithoutAppend([s[0]], Without(s[1..], k), Whitespace);
      }
    }
  }

  /** A character outside class `k` passes through `re.sub` unchanged. */
  lemma ReplaceRunsCons(c: char, u: string, k: RunClass)
    requires !InClass(c, k)
    ensures ReplaceRuns([c] + u, k) == [c] + ReplaceRuns(u, k)
  {
    assert ([c] + u)[1..] == u;
  }

  /** A prefix free of class-`k` characters passes through `re.sub` unchanged. */
  lemma {:induction false} ReplaceRunsKeepPrefix(w: string, t: string, k: RunClass)
    requires forall c | c in w :: !InClass(c, k)
    ensures ReplaceRuns(w + t, k) == w + ReplaceRuns(t, k)
    decreases |w|
  {
    if w == [] {
      assert w + t == t;
    } else {
      assert w[0] in w && forall c | c in w[1..] :: c in w;
      calc {
        ReplaceRuns(w + t, k);
      ==  { assert w + t == [w[0]] + (w[1..] + t); }
        ReplaceRuns([w[0]] + (w[1..] + t), k);
      ==  { ReplaceRunsCons(w[0], w[1..] + t, k); }
        [w[0]] + ReplaceRuns(w[1..] + t, k);
      ==  { ReplaceRunsKeepPrefix(w[1..], t, k); }
        [w[0]] + (w[1..] + ReplaceRuns(t, k));
      ==  { assert w == [w[0]] + w[1..]; }
        w + ReplaceRuns(t, k);
      }
    }
  }

  lemma {:induction false} RunLengthOfPrefix(r: string, t: string, k: RunClass)
    requires forall i :: 0 <= i < |r| ==> InClass(r[i], k)
    requires t == [] || !InClass(t[0], k)
    ensures RunLength(r + t, k) == |r|
    decreases |r|
  {
    if r == [] {
      assert r + t == t;
    } else {
      assert (r + t)[1..] == r[1..] + t;
      assert forall i :: 0 <= i < |r| - 1 ==> r[1..][i] == r[i + 1];
      RunLengthOfPrefix(r[1..], t, k);
    }
  }

  /** A leading class-`k` run becomes one space. */
  lemma ReplaceRunsRunPrefix(r: string, t: string, k: RunClass)
    requires r != [] && forall i :: 0 <= i < |r| ==> InClass(r[i], k)
    requires t == [] || !InClass(t[0], k)
    ensures ReplaceRuns(r + t, k) == " " + ReplaceRuns(t, k)
  {
    RunLengthOfPrefix(r, t, k);
    assert (r + t)[0] == r[0];
    assert (r + t)[|r|..] == t;
  }

  /** The length of the run of whitespace at the tail of `s`. */
  function TrailingSpace(s: string): (n: nat)
    ensures n <= |s|
    ensures forall i :: |s| - n <= i < |s| ==> IsSpace(s[i])
    ensures n == |s| || !IsSpace(s[|s| - n - 1])
  {
    if s != [] && IsSpace(s[|s| - 1]) then 1 + TrailingSpace(s[..|s| - 1]) else 0
  }

  /** `s.strip()`. */
  function Strip(s: string): (r: string)
    ensures r == [] || (!IsSpace(r[0]) && !IsSpace(r[|r| - 1]))
    ensures forall c | c in r :: c in s
  {
    var t := s[RunLength(s, Whitespace)..];
    t[..|t| - TrailingSpace(t)]
  }

  /**
   * `s.strip()` is the slice of `s` left when the whitespace at both ends is cut off; with
   * the first ensures of `Strip` (no whitespace at either end of the result) this determines it.
   */
  lemma StripIsSlice(s: string)
    ensures exists a, b :: 0 <= a <= b <= |s| && Strip(s) == s[a..b]
              && (forall i :: 0 <= i < a ==> IsSpace(s[i]))
              && (forall i :: b <= i < |s| ==> IsSpace(s[i]))
  {
    var a := RunLength(s, Whitespace);
    var t := s[a..];
    var b := a + |t| - TrailingSpace(t);
    assert Strip(s) == s[a..b];
    assert forall i :: b <= i < |s| ==> s[i] == t[i - a];
  }

  /** The only whitespace is `' '`, and no two spaces are adjacent. */
  predicate SingleSpaced(s: string) {
    && (forall i :: 0 <= i < |s| ==> IsSpace(s[i]) ==> s[i] == ' ')
    && (forall i :: 0 <= i < |s| - 1 ==> s[i] == ' ' ==> s[i + 1] != ' ')
  }

  /** The shape `normalize_spaces` produces: single-spaced, with no space at either end. */
  predicate Collapsed(s: string) {
    SingleSpaced(s) && (s != [] ==> s[0] != ' ' && s[|s| - 1] != ' ')
  }

  lemma NoSpaceCollapsed(s: string)
    requires NoSpace(s)
    ensures Collapsed(s)
  {
    assert forall i :: 0 <= i < |s| ==> s[i] in s;
  }

  lemma SingleSpacedConcat(a: string, b: string)
    requires SingleSpaced(a) && SingleSpaced(b)
    requires a == [] || b == [] || a[|a| - 1] != ' ' || b[0] != ' '
    ensures SingleSpaced(a + b)
  {
    var s := a + b;
    forall i | 0 <= i < |s| && IsSpace(s[i])
      ensures s[i] == ' '
    {
      if i < |a| {
        assert s[i] == a[i];
      } else {
        assert s[i] == b[i - |a|];
      }
    }
    forall i | 0 <= i < |s| - 1 && s[i] == ' '
      ensures s[i + 1] != ' '
    {
      if i < |a| - 1 {
        assert s[i] == a[i] && s[i + 1] == a[i + 1];
      } else if i == |a| - 1 {
        assert s[i] == a[i] && s[i + 1] == b[0];
      } else {
        assert s[i] == b[i - |a|] && s[i + 1] == b[i + 1 - |a|];
      }
    }
  }

  /** After replacing whitespace runs, the string is single-spaced. */
  lemma {:induction false} ReplaceWhitespaceSingleSpaced(s: string)
    ensures SingleSpaced(ReplaceRuns(s, Whitespace))
    ensures s != [] ==>
              (ReplaceRuns(s, Whitespace) != [] && (ReplaceRuns(s, Whitespace)[0] == ' ' <==> IsSpace(s[0])))
    decreases |s|
  {
    if s != [] {
      if IsSpace(s[0]) {
        var t := s[RunLength(s, Whitespace)..];
        ReplaceWhitespaceSingleSpaced(t);
        SingleSpacedConcat(" ", ReplaceRuns(t, Whitespace));
      } else {
        ReplaceWhitespaceSingleSpaced(s[1..]);
        SingleSpacedConcat([s[0]], ReplaceRuns(s[1..], Whitespace));
      }
    }
  }

  /** A single-spaced string has no whitespace run to replace. */
  lemma {:induction false} ReplaceWhitespaceOfSingleSpaced(s: string)
    requires SingleSpaced(s)
    ensures ReplaceRuns(s, Whitespace) == s
    decreases |s|
  {
    if s != [] {
      assert SingleSpaced(s[1..]) by {
        assert forall i :: 0 <= i < |s| - 1 ==> s[1..][i] == s[i + 1];
      }
      ReplaceWhitespaceOfSingleSpaced(s[1..]);
      if IsSpace(s[0]) {
        assert |s| > 1 ==> !IsSpace(s[1]);
        assert RunLength(s, Whitespace) == 1;
      }
    }
  }

  /** A string with no character of class `k` is left alone. */
  lemma {:induction false} ReplaceRunsNoop(s: string, k: RunClass)
    requires forall c | c in s :: !InClass(c, k)
    ensures ReplaceRuns(s, k) == s
    decreases |s|
  {
    if s != [] {
      assert forall c | c in s[1..] :: c in s;
      ReplaceRunsNoop(s[1..], k);
    }
  }

  lemma StripSingleSpaced(s: string)
    requires SingleSpaced(s)
    ensures Collapsed(Strip(s))
  {
    var a := RunLength(s, Whitespace);
    var t := s[a..];
    var r := t[..|t| - TrailingSpace(t)];
    assert forall i :: 0 <= i < |r| ==> r[i] == s[a + i];
  }

  lemma StripCollapsed(s: string)
    requires Collapsed(s)
    ensures Strip(s) == s
  {
    assert RunLength(s, Whitespace) == 0;
    assert TrailingSpace(s) == 0;
  }

  lemma StripNoSpace(s: string)
    requires NoSpace(s)
    ensures Strip(s) == s
  {
    NoSpaceCollapsed(s);
    StripCollapsed(s);
  }

  /** `strip` removes only whitespace. */
  lemma WithoutStrip(s: string)
    ensures Without(Strip(s), Whitespace) == Without(s, Whitespace)
  {
    var t := s[RunLength(s, Whitespace)..];
    var m := |t| - TrailingSpace(t);
    WithoutSkipRun(s, Whitespace);
    assert t == t[..m] + t[m..];
    WithoutAppend(t[..m], t[m..], Whitespace);
    WithoutAllInClass(t[m..], Whitespace);
  }

  /** One leading space before a string with no space at its ends is all `strip` removes. */
  lemma StripLeadingSpace(q: string)
    requires q != [] && !IsSpace(q[0]) && !IsSpace(q[|q| - 1])
    ensures Strip(" " + q) == q
  {
    var s := " " + q;
    assert s[1..] == q;
    assert RunLength(q, Whitespace) == 0;
    assert RunLength(s, Whitespace) == 1;
    assert TrailingSpace(q) == 0;
  }

  /** One space at each end of a string with no space at its ends is all `strip` removes. */
  lemma StripPadded(q: string)
    requires q != [] && !IsSpace(q[0]) && !IsSpace(q[|q| - 1])
    ensures Strip(" " + q + " ") == q
  {
    var s := " " + q + " ";
    assert s[1..] == q + " ";
    assert RunLength(q + " ", Whitespace) == 0;
    assert RunLength(s, Whitespace) == 1;
    assert (q + " ")[..|q|] == q;
    assert TrailingSpace(q) == 0;
    assert TrailingSpace(q + " ") == 1;
  }

  /** Two non-empty, space-free words with one space between them. */
  lemma CollapsedPair(a: string, b: string)
    requires a != [] && b != [] && NoSpace(a) && NoSpace(b)
    ensures Collapsed(a + (" " + b))
  {
    NoSpaceCollapsed(a);
    NoSpaceCollapsed(b);
    SingleSpacedConcat(" ", b);
    SingleSpacedConcat(a, " " + b);
    var s := a + (" " + b);
    assert s[0] == a[0] && a[0] in a;
    assert s[|s| - 1] == b[|b| - 1] && b[|b| - 1] in b;
  }

  /** Single spaces between non-empty, space-free words make a collapsed string. */
  lemma {:induction false} JoinWordsCollapsed(words: seq<string>)
    requires forall w | w in words :: w != "" && NoSpace(w)
    ensures Collapsed(Join(words, " "))
    ensures words != [] ==> Join(words, " ") != []
  {
    if words != [] {
      var w := words[0];
      assert w in words;
      NoSpaceCollapsed(w);
      if |words| > 1 {
        assert forall v | v in words[1..] :: v in words;
        JoinWordsCollapsed(words[1..]);
        var j := Join(words[1..], " ");
        SingleSpacedConcat(w, " ");
        SingleSpacedConcat(w + " ", j);
        assert Join(words, " ") == (w + " ") + j;
      }
    }
  }

  /** The words of a space-join of non-empty, space-free words are those words. */
  lemma WordsOfJoin(words: seq<string>)
    requires forall w | w in words :: w != "" && NoSpace(w)
    ensures NonEmpty(Split(Join(words, " "), ' ')) == words
  {
    if words == [] {
      assert Split("", ' ') == [""];
    } else {
      SplitJoin(words, ' ');
      NonEmptyOfNonEmpty(words);
    }
  }

  /** `"".join([p] + ps)`. */
  lemma JoinEmptySepCons(p: string, ps: seq<string>)
    ensures Join([p] + ps, "") == p + Join(ps, "")
  {
    if ps != [] {
      assert ([p] + ps)[1..] == ps;
    }
  }

  /** Dropping empty pieces does not change their concatenation. */
  lemma {:induction false} JoinNonEmptyPieces(parts: seq<string>)
    ensures Join(NonEmpty(parts), "") == Join(parts, "")
  {
    if parts != [] {
      JoinNonEmptyPieces(parts[1..]);
      assert parts == [parts[0]] + parts[1..];
      JoinEmptySepCons(parts[0], parts[1..]);
      if parts[0] != "" {
        assert NonEmpty(parts) == [parts[0]] + NonEmpty(parts[1..]);
        JoinEmptySepCons(parts[0], NonEmpty(parts[1..]));
      } else {
        assert NonEmpty(parts) == NonEmpty(parts[1..]);
      }
    }
  }

  /** When `' '` is the only whitespace, gluing the pieces of `s.split(" ")` back together drops the whitespace. */
  lemma {:induction false} JoinSplitSpaces(s: string)
    requires forall i :: 0 <= i < |s| && IsSpace(s[i]) ==> s[i] == ' '
    ensures Join(Split(s, ' '), "") == Without(s, Whitespace)
    decreases |s|
  {
    if s != [] {
      assert forall i :: 0 <= i < |s| - 1 ==> s[1..][i] == s[i + 1];
      JoinSplitSpaces(s[1..]);
      var rest := Split(s[1..], ' ');
      if s[0] == ' ' {
        JoinEmptySepCons("", rest);
      } else {
        assert !IsSpace(s[0]);
        assert rest == [rest[0]] + rest[1..];
        JoinEmptySepCons([s[0]] + rest[0], rest[1..]);
        JoinEmptySepCons(rest[0], rest[1..]);
      }
    }
  }

  // ---------------------------------------------------------------------------
  // s.split() and re.split(pattern + "+", s) with the empty pieces dropped
  // ---------------------------------------------------------------------------

  /**
   * The maximal runs of characters outside class `k`, in order: `s.split()` for `Whitespace`.
   * A character outside the class starts a new field, unless the one before it is also
   * outside the class.
   */
  function Fields(s: string, k: RunClass): (r: seq<string>)
    ensures s != [] && !InClass(s[0], k) ==> r != []
    decreases |s|
  {
    if s == [] then []
    else
      var rest := Fields(s[1..], k);
      if InClass(s[0], k) then rest
      else if s[1..] == [] || InClass(s[1], k) then [[s[0]]] + rest
      else [[s[0]] + rest[0]] + rest[1..]
  }

  /** Every field is non-empty and free of class-`k` characters. */
  lemma {:induction false} FieldsClean(s: string, k: RunClass)
    ensures forall w | w in Fields(s, k) :: w != [] && forall c | c in w :: !InClass(c, k)
    decreases |s|
  {
    if s != [] {
      FieldsClean(s[1..], k);
      var rest := Fields(s[1..], k);
      if !InClass(s[0], k) && !(s[1..] == [] || InClass(s[1], k)) {
        assert rest[0] in rest;
        assert forall w | w in rest[1..] :: w in rest;
      }
    }
  }

  /** Gluing the fields back together gives the characters outside the class, in order. */
  lemma {:induction false} FieldsText(s: string, k: RunClass)
    ensures Join(Fields(s, k), "") == Without(s, k)
    decreases |s|
  {
    if s != [] {
      FieldsText(s[1..], k);
      var rest := Fields(s[1..], k);
      if !InClass(s[0], k) {
        if s[1..] == [] || InClass(s[1], k) {
          JoinEmptySepCons([s[0]], rest);
        } else {
          assert rest == [rest[0]] + rest[1..];
          JoinEmptySepCons([s[0]] + rest[0], rest[1..]);
          JoinEmptySepCons(rest[0], rest[1..]);
        }
      }
    }
  }

  /** A leading stretch of class-`k` characters does not change the fields. */
  lemma {:induction false} FieldsSkip(s: string, k: RunClass, n: nat)
    requires n <= |s| && forall i :: 0 <= i < n ==> InClass(s[i], k)
    ensures Fields(s[n..], k) == Fields(s, k)
    decreases n
  {
    if n > 0 {
      assert forall i :: 0 <= i < n - 1 ==> s[1..][i] == s[i + 1];
      FieldsSkip(s[1..], k, n - 1);
      assert s[1..][n - 1..] == s[n..];
    }
  }

  /** Only a string made of class-`k` characters has no fields. */
  lemma {:induction false} FieldsEmpty(s: string, k: RunClass)
    ensures Fields(s, k) == [] <==> forall i :: 0 <= i < |s| ==> InClass(s[i], k)
    decreases |s|
  {
    if s != [] {
      FieldsEmpty(s[1..], k);
      assert forall i :: 0 <= i < |s| - 1 ==> s[1..][i] == s[i + 1];
    }
  }

  /** A trailing stretch of class-`k` characters does not change the fields. */
  lemma {:induction false} FieldsTrailing(a: string, b: string, k: RunClass)
    requires forall i :: 0 <= i < |b| ==> InClass(b[i], k)
    ensures Fields(a + b, k) == Fields(a, k)
    decreases |a|
  {
    if a == [] {
      assert a + b == b;
      FieldsEmpty(b, k);
    } else {
      assert (a + b)[0] == a[0] && (a + b)[1..] == a[1..] + b;
      FieldsTrailing(a[1..], b, k);
      if a[1..] == [] {
        assert a[1..] + b == b;
        FieldsEmpty(b, k);
      } else {
        assert (a + b)[1] == a[1];
      }
    }
  }

  /** `strip` cuts only whitespace, which a class holding all whitespace separates anyway. */
  lemma FieldsStrip(s: string, k: RunClass)
    requires forall c :: IsSpace(c) ==> InClass(c, k)
    ensures Fields(Strip(s), k) == Fields(s, k)
  {
    var a := RunLength(s, Whitespace);
    var t := s[a..];
    var m := |t| - TrailingSpace(t);
    FieldsSkip(s, k, a);
    assert t == t[..m] + t[m..];
    assert forall i :: 0 <= i < |t| - m ==> t[m..][i] == t[m + i];
    FieldsTrailing(t[..m], t[m..], k);
  }

  /** Turning one separator into another leaves the fields alone. */
  lemma {:induction false} FieldsReplaceChar(s: string, a: char, b: char, k: RunClass)
    requires InClass(a, k) && InClass(b, k)
    ensures Fields(ReplaceChar(s, a, b), k) == Fields(s, k)
    decreases |s|
  {
    if s != [] {
      var t := ReplaceChar(s, a, b);
      assert t[1..] == ReplaceChar(s[1..], a, b);
      FieldsReplaceChar(s[1..], a, b, k);
    }
  }

  /** The head of `re.sub`: a space for a leading run, the first character otherwise. */
  lemma ReplaceRunsHead(s: string, j: RunClass)
    requires s != []
    ensures ReplaceRuns(s, j) != [] && ReplaceRuns(s, j)[0] == if InClass(s[0], j) then ' ' else s[0]
  {
  }

  /**
   * Replacing the runs of class `j` by a space, where the space separates fields of class `k`,
   * gives the fields of the union of the two classes.
   */
  lemma {:induction false} FieldsReplaceRuns(s: string, j: RunClass, k: RunClass, m: RunClass)
    requires InClass(' ', k)
    requires forall c :: InClass(c, m) <==> InClass(c, k) || InClass(c, j)
    ensures Fields(ReplaceRuns(s, j), k) == Fields(s, m)
    decreases |s|
  {
    if s != [] {
      if InClass(s[0], j) {
        var n := RunLength(s, j);
        var y := ReplaceRuns(s[n..], j);
        FieldsReplaceRuns(s[n..], j, k, m);
        assert ReplaceRuns(s, j) == " " + y;
        assert (" " + y)[1..] == y;
        assert forall i :: 0 <= i < n ==> InClass(s[i], m);
        FieldsSkip(s, m, n);
      } else {
        var y := ReplaceRuns(s[1..], j);
        FieldsReplaceRuns(s[1..], j, k, m);
        assert ReplaceRuns(s, j) == [s[0]] + y;
        assert ([s[0]] + y)[0] == s[0] && ([s[0]] + y)[1..] == y;
        if s[1..] != [] {
          ReplaceRunsHead(s[1..], j);
          assert InClass(y[0], k) <==> InClass(s[1], m);
        }
      }
    }
  }

  lemma JoinCons(p: string, ps: seq<string>, sep: string)
    requires ps != []
    ensures Join([p] + ps, sep) == p + sep + Join(ps, sep)
  {
    assert ([p] + ps)[1..] == ps;
  }

  lemma JoinConsHead(c: char, p: string, ps: seq<string>, sep: string)
    ensures Join([[c] + p] + ps, sep) == [c] + Join([p] + ps, sep)
  {
    if ps != [] {
      JoinCons([c] + p, ps, sep);
      JoinCons(p, ps, sep);
    }
  }

  /** The fields joined by single spaces, with one more space for a run at either end. */
  function SpacedFields(s: string, k: RunClass): string {
    (if s != [] && InClass(s[0], k) then " " else "")
    + Join(Fields(s, k), " ")
    + (if Fields(s, k) != [] && InClass(s[|s| - 1], k) then " " else "")
  }

  /** Two strings with the same fields, the first led by a run and the second not, end alike. */
  lemma SpacedFieldsLead(s: string, t: string, k: RunClass)
    requires Fields(s, k) == Fields(t, k)
    requires s != [] && InClass(s[0], k)
    requires t == [] || (!InClass(t[0], k) && t[|t| - 1] == s[|s| - 1])
    ensures SpacedFields(s, k) == " " + SpacedFields(t, k)
  {
  }

  /** A leading run stands for one space in front of the rest. */
  lemma SpacedFieldsOfRun(s: string, k: RunClass)
    requires s != [] && InClass(s[0], k)
    ensures SpacedFields(s, k) == " " + SpacedFields(s[RunLength(s, k)..], k)
  {
    var n := RunLength(s, k);
    var t := s[n..];
    FieldsSkip(s, k, n);
    if t != [] {
      assert t[|t| - 1] == s[|s| - 1];
    }
    SpacedFieldsLead(s, t, k);
  }

  /** A character outside the class in front of a run is a field of its own. */
  lemma FieldsConsRun(c: char, t: string, k: RunClass)
    requires !InClass(c, k) && t != [] && InClass(t[0], k)
    ensures Fields([c] + t, k) == [[c]] + Fields(t, k)
  {
    assert ([c] + t)[1..] == t;
  }

  /** A character outside the class in front of another one joins its field. */
  lemma FieldsConsWord(c: char, t: string, k: RunClass)
    requires !InClass(c, k) && t != [] && !InClass(t[0], k)
    ensures Fields([c] + t, k) == [[c] + Fields(t, k)[0]] + Fields(t, k)[1..]
  {
    assert ([c] + t)[1..] == t;
  }

  /** Without a leading run, only the fields and the trailing space are left. */
  lemma SpacedFieldsNoLead(s: string, k: RunClass)
    requires s != [] && !InClass(s[0], k)
    ensures SpacedFields(s, k) ==
      Join(Fields(s, k), " ") + (if Fields(s, k) != [] && InClass(s[|s| - 1], k) then " " else "")
  {
  }

  /** Prefixing a character outside the class to a string led by a run adds a field. */
  lemma SpacedFieldsOfCharRun(c: char, t: string, k: RunClass)
    requires !InClass(c, k) && t != [] && InClass(t[0], k)
    ensures SpacedFields([c] + t, k) == [c] + SpacedFields(t, k)
  {
    var s := [c] + t;
    var f := Fields(t, k);
    FieldsConsRun(c, t, k);
    SpacedFieldsNoLead(s, k);
    assert s[|s| - 1] == t[|t| - 1];
    if f == [] {
      FieldsEmpty(t, k);
      assert InClass(t[|t| - 1], k);
      assert SpacedFields(t, k) == " ";
      assert Join([[c]], " ") == [c];
    } else {
      JoinCons([c], f, " ");
    }
  }

  /** Prefixing a character outside the class to a string led by another one extends the first field. */
  lemma SpacedFieldsOfCharWord(c: char, t: string, k: RunClass)
    requires !InClass(c, k) && t != [] && !InClass(t[0], k)
    ensures SpacedFields([c] + t, k) == [c] + SpacedFields(t, k)
  {
    var s := [c] + t;
    var f := Fields(t, k);
    FieldsConsWord(c, t, k);
    SpacedFieldsNoLead(s, k);
    SpacedFieldsNoLead(t, k);
    assert s[|s| - 1] == t[|t| - 1];
    assert f == [f[0]] + f[1..];
    JoinConsHead(c, f[0], f[1..], " ");
  }

  /** A leading character outside the class goes in front of the rest. */
  lemma SpacedFieldsOfChar(s: string, k: RunClass)
    requires s != [] && !InClass(s[0], k)
    ensures SpacedFields(s, k) == [s[0]] + SpacedFields(s[1..], k)
  {
    var t := s[1..];
    assert s == [s[0]] + t;
    if t == [] {
      assert Fields(s, k) == [[s[0]]];
    } else if InClass(t[0], k) {
      SpacedFieldsOfCharRun(s[0], t, k);
    } else {
      SpacedFieldsOfCharWord(s[0], t, k);
    }
  }

  /**
   * `re.sub(pattern + "+", " ", s)` in terms of the fields: each maximal run becomes one
   * space, so consecutive fields end up one space apart, with a space for a run at either end.
   */
  lemma {:induction false} ReplaceRunsFields(s: string, k: RunClass)
    ensures ReplaceRuns(s, k) ==
      (if s != [] && InClass(s[0], k) then " " else "")
      + Join(Fields(s, k), " ")
      + (if Fields(s, k) != [] && InClass(s[|s| - 1], k) then " " else "")
    decreases |s|
  {
    if s != [] {
      if InClass(s[0], k) {
        ReplaceRunsFields(s[RunLength(s, k)..], k);
        SpacedFieldsOfRun(s, k);
      } else {
        ReplaceRunsFields(s[1..], k);
        SpacedFieldsOfChar(s, k);
      }
    }
    assert ReplaceRuns(s, k) == SpacedFields(s, k);
  }

  /** A collapsed string is its fields joined by single spaces. */
  lemma {:induction false} CollapsedFields(s: string)
    requires Collapsed(s)
    ensures Join(Fields(s, Whitespace), " ") == s
    decreases |s|
  {
    if |s| > 1 {
      if s[1] == ' ' {
        var t := s[2..];
        assert forall i :: 0 <= i < |t| ==> t[i] == s[i + 2];
        CollapsedFields(t);
        assert s[1..][1..] == t;
        assert Fields(s, Whitespace) == [[s[0]]] + Fields(t, Whitespace);
        JoinCons([s[0]], Fields(t, Whitespace), " ");
        assert s == [s[0]] + " " + t;
      } else {
        var t := s[1..];
        assert forall i :: 0 <= i < |t| ==> t[i] == s[i + 1];
        CollapsedFields(t);
        var f := Fields(t, Whitespace);
        assert f == [f[0]] + f[1..];
        JoinConsHead(s[0], f[0], f[1..], " ");
        assert s == [s[0]] + t;
      }
    }
  }

  /** When `' '` is the only whitespace, the words of `s.split(" ")` are the fields of `s.split()`. */
  lemma {:induction false} WordsAreFields(s: string)
    requires forall i :: 0 <= i < |s| && IsSpace(s[i]) ==> s[i] == ' '
    ensures NonEmpty(Split(s, ' ')) == Fields(s, Whitespace)
    decreases |s|
  {
    if s != [] {
      assert forall i :: 0 <= i < |s| - 1 ==> s[1..][i] == s[i + 1];
      WordsAreFields(s[1..]);
      var r := Split(s[1..], ' ');
      if s[0] == ' ' {
        assert ([""] + r)[1..] == r;
      } else {
        var p := Split(s, ' ');
        assert p[1..] == r[1..];
        if s[1..] == [] {
          assert r == [""];
          assert [s[0]] + r[0] == [s[0]];
          assert p == [[s[0]]];
        } else if s[1] == ' ' {
          assert r[0] == "";
          assert r == [r[0]] + r[1..];
          assert [s[0]] + r[0] == [s[0]];
        } else {
          assert r[0] != "";
          assert r == [r[0]] + r[1..];
        }
      }
    }
  }
}
