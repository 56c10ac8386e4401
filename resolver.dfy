/**
 * The client-folder resolver: `_extract_e164_from_title` and the three tiers of
 * `find_client_folder_strict` (exact name, fuzzy name plus last nine digits, phone patterns).
 * Every Drive query under the root folder is an input listing of `{id, name}` records.
 */
module Resolver {
  import opened Wrappers
  import opened Text
  import opened Phone
  import opened Names
  import opened FolderTitle

  /** A Drive folder record as the queries return it. */
  datatype Folder = Folder(id: string, name: string)

  /**
   * The child folders of the root folder that each query returns, all pages concatenated:
   * `name = X`, `name contains X`, and `name contains P1 or ... or name contains Pn`.
   */
  datatype Drive = Drive(
    nameEquals: string -> seq<Folder>,
    nameContains: string -> seq<Folder>,
    nameContainsAny: seq<string> -> seq<Folder>)

  // ---------------------------------------------------------------------------
  // _extract_e164_from_title
  // ---------------------------------------------------------------------------

  /** The least and most digits one match of `\d{9,12}` takes. */
  const MinRun: nat := 9
  const MaxRun: nat := 12

  /**
   * `re.findall(r"\d{9,12}", digits)` on a string of digits: greedy twelve-digit chunks from
   * the left, and a final shorter chunk only when it still has nine digits.
   */
  function DigitRuns(digits: string): (r: seq<string>)
    ensures forall k :: 0 <= k < |r| ==> MinRun <= |r[k]| <= MaxRun
    ensures |digits| >= MinRun <==> r != []
    decreases |digits|
  {
    if |digits| < MinRun then []
    else if |digits| <= MaxRun then [digits]
    else [digits[..MaxRun]] + DigitRuns(digits[MaxRun..])
  }

  /** `_extract_e164_from_title(title)`. */
  function ExtractPhone(title: string): (r: Option<string>)
    ensures r.None? <==> |Digits(title)| < MinRun
    ensures r.Some? ==> IsCanonical(r.value)
  {
    var digits := Digits(title);
    if |digits| < MinRun then None
    else
      var m := DigitRuns(digits);
      if m == [] then None else Some(NormalizePhone(m[|m| - 1]))
  }

  /**
   * Where the last match lies, in closed form: with `n` digits and `n % 12 = q`, it is the
   * tail of `q` digits when `q >= 9`, the last twelve when `q = 0`, and otherwise the
   * twelve before the `q`-digit tail that is too short to match.
   */
  function LastRunSpec(digits: string): string
    requires |digits| >= MinRun
  {
    var (lo, hi) := LastRunBounds(|digits|);
    digits[lo..hi]
  }

  /** The bounds of the last match among `n` digits, as `LastRunSpec` describes them. */
  function LastRunBounds(n: nat): (b: (nat, nat))
    requires n >= MinRun
    ensures b.0 <= b.1 <= n
  {
    var q := n % MaxRun;
    if q >= MinRun then (n - q, n)
    else if q == 0 then (n - MaxRun, n)
    else (n - q - MaxRun, n - q)
  }

  lemma ModStep(n: nat)
    requires n > MaxRun
    ensures (n - MaxRun) % MaxRun == n % MaxRun
    ensures n - MaxRun < MinRun ==> n % MaxRun == n - MaxRun
  {
  }

  lemma LastRunBoundsSmall(n: nat)
    requires MinRun <= n < MaxRun + MinRun
    ensures LastRunBounds(n) == if n <= MaxRun then (0, n) else (0, MaxRun)
  {
    if n > MaxRun {
      ModStep(n);
    }
  }

  lemma {:induction false} LastRun(digits: string)
    requires |digits| >= MinRun
    ensures var m := DigitRuns(digits); m[|m| - 1] == LastRunSpec(digits)
    decreases |digits|
  {
    var n := |digits|;
    var m := DigitRuns(digits);
    if n >= MaxRun + MinRun {
      var rest := digits[MaxRun..];
      var mr := DigitRuns(rest);
      assert m == [digits[..MaxRun]] + mr;
      assert m[|m| - 1] == mr[|mr| - 1];
      LastRun(rest);
      LastRunOfTail(digits);
    } else {
      LastRunBoundsSmall(n);
      if n > MaxRun {
        assert DigitRuns(digits[MaxRun..]) == [];
        assert m == [digits[..MaxRun]];
      }
    }
  }

  /** Twelve fewer digits move the bounds of the last match twelve places down. */
  lemma LastRunBoundsShift(n: nat)
    requires n >= MaxRun + MinRun
    ensures LastRunBounds(n - MaxRun) == (LastRunBounds(n).0 - MaxRun, LastRunBounds(n).1 - MaxRun)
  {
    ModStep(n);
  }

  /** Dropping the first twelve digits does not move the last match, when nine digits are left. */
  lemma LastRunOfTail(digits: string)
    requires |digits| >= MaxRun + MinRun
    ensures LastRunSpec(digits[MaxRun..]) == LastRunSpec(digits)
  {
    var rest := digits[MaxRun..];
    LastRunBoundsShift(|digits|);
    var (lo, hi) := LastRunBounds(|digits|);
    assert rest[lo - MaxRun..hi - MaxRun] == digits[lo..hi];
  }

  /** A title yields a phone exactly when it has nine digits, and then the canonical form of its last match. */
  lemma ExtractPhoneSpec(title: string)
    ensures |Digits(title)| < MinRun ==> ExtractPhone(title) == None
    ensures |Digits(title)| >= MinRun ==> ExtractPhone(title) == Some(NormalizePhone(LastRunSpec(Digits(title))))
  {
    if |Digits(title)| >= MinRun {
      LastRun(Digits(title));
    }
  }

  // ---------------------------------------------------------------------------
  // Picking the head of a stable descending sort
  // ---------------------------------------------------------------------------

  /** The sort key of the phone tier's tie-break: token overlap, then name length. */
  datatype Rank = Rank(overlap: nat, length: nat)

  /** `a` sorts strictly before `b` in a descending sort by the pair. */
  predicate Outranks(a: Rank, b: Rank) {
    a.overlap > b.overlap || (a.overlap == b.overlap && a.length > b.length)
  }

  /** `tokens(s)` in `find_folder_by_phone`: the words of the part before the first comma. */
  function NameTokenSet(s: string): set<string> {
    set w | w in Words(NormalizeSpaces(Split(s, ',')[0]))
  }

  /** The key of a folder: length only, or overlap with the expected tokens and then length. */
  function RankOf(f: Folder, expected: Option<set<string>>): Rank {
    match expected
    case None => Rank(0, |f.name|)
    case Some(exp) => Rank(|NameTokenSet(f.name) * exp|, |f.name|)
  }

  /** The keys of `items`, in order. */
  function RanksOf(items: seq<Folder>, expected: Option<set<string>>): (r: seq<Rank>)
    ensures |r| == |items| && forall i :: 0 <= i < |items| ==> r[i] == RankOf(items[i], expected)
  {
    seq(|items|, i requires 0 <= i < |items| => RankOf(items[i], expected))
  }

  /**
   * `i` is the position `sort(key, reverse=True)[0]` takes its element from: no key outranks
   * its key, and it outranks every key before it (the sort is stable, so among equal keys
   * the first one stays first).
   */
  predicate IsFirstBest(ranks: seq<Rank>, i: int) {
    && 0 <= i < |ranks|
    && (forall j :: 0 <= j < |ranks| ==> !Outranks(ranks[j], ranks[i]))
    && (forall j :: 0 <= j < i ==> Outranks(ranks[i], ranks[j]))
  }

  /** The head of the sorted list is unique. */
  lemma FirstBestUnique(ranks: seq<Rank>, i: int, k: int)
    requires IsFirstBest(ranks, i) && 0 <= k < |ranks| && k != i
    ensures !IsFirstBest(ranks, k)
  {
    if k < i {
      assert Outranks(ranks[i], ranks[k]);
    } else {
      assert !Outranks(ranks[k], ranks[i]);
    }
  }

  /** The head of the stable descending sort, as a reference definition. */
  function BestIndex(ranks: seq<Rank>): (i: nat)
    requires |ranks| > 0
    ensures IsFirstBest(ranks, i)
    decreases |ranks|
  {
    if |ranks| == 1 then 0
    else
      var init := ranks[..|ranks| - 1];
      var b := BestIndex(init);
      assert forall j :: 0 <= j < |init| ==> init[j] == ranks[j];
      if Outranks(ranks[|ranks| - 1], ranks[b]) then |ranks| - 1 else b
  }

  /** One step of the scan: the best of a longer prefix is the new key if it outranks the old best. */
  lemma BestIndexStep(ranks: seq<Rank>, j: nat)
    requires 0 < j < |ranks|
    ensures var b := BestIndex(ranks[..j]);
      BestIndex(ranks[..j + 1]) == if Outranks(ranks[j], ranks[b]) then j else b
  {
    var p := ranks[..j + 1];
    assert p[..|p| - 1] == ranks[..j];
    assert p[|p| - 1] == ranks[j];
  }

  /** `items.sort(key=..., reverse=True); items[0]`, as one scan for the first maximum. */
  method PickFirstBest(items: seq<Folder>, expected: Option<set<string>>) returns (i: nat)
    requires |items| > 0
    ensures i == BestIndex(RanksOf(items, expected))
    ensures IsFirstBest(RanksOf(items, expected), i)
  {
    ghost var ranks := RanksOf(items, expected);
    i := 0;
    var best := RankOf(items[0], expected);
    for j := 1 to |items|
      invariant i == BestIndex(ranks[..j])
      invariant best == ranks[i]
    {
      BestIndexStep(ranks, j);
      var key := RankOf(items[j], expected);
      assert key == ranks[j];
      if Outranks(key, best) {
        i := j;
        best := key;
      }
    }
    assert ranks[..|items|] == ranks;
  }

  // ---------------------------------------------------------------------------
  // Tier 1: find_folder_by_exact_name_under
  // ---------------------------------------------------------------------------

  /** `find_folder_by_exact_name_under`: the first folder named exactly `exactName`, if any. */
  function FindFolderByExactName(drive: Drive, exactName: string): (r: Option<Folder>)
    ensures r.None? <==> drive.nameEquals(exactName) == []
    ensures r.Some? ==> r.value in drive.nameEquals(exactName)
  {
    var res := drive.nameEquals(exactName);
    if res != [] then Some(res[0]) else None
  }

  // ---------------------------------------------------------------------------
  // Tier 2: find_folder_by_fuzzy
  // ---------------------------------------------------------------------------

  /** `[f for f in items if last9 in re.sub(r"\D", "", f["name"])]`. */
  function WithDigits(items: seq<Folder>, last9: string): (r: seq<Folder>)
    ensures forall f | f in r :: f in items && IsSubstring(last9, Digits(f.name))
    decreases |items|
  {
    if items == [] then []
    else
      var init := WithDigits(items[..|items| - 1], last9);
      var f := items[|items| - 1];
      if IsSubstring(last9, Digits(f.name)) then init + [f] else init
  }

  /** The filter keeps exactly the folders whose digits contain `last9`. */
  lemma {:induction false} WithDigitsComplete(items: seq<Folder>, last9: string)
    ensures forall f | f in items :: f in WithDigits(items, last9) <==> IsSubstring(last9, Digits(f.name))
    decreases |items|
  {
    if items != [] {
      var init := items[..|items| - 1];
      WithDigitsComplete(init, last9);
      assert items == init + [items[|items| - 1]];
    }
  }

  /** The candidates the fuzzy tier ranks (the filter applies only for a non-empty `last9`). */
  function FuzzySurvivors(drive: Drive, fioNorm: string, last9: string): seq<Folder> {
    var items := drive.nameContains(Split(fioNorm, ',')[0]);
    if last9 != "" then WithDigits(items, last9) else items
  }

  /** What `find_folder_by_fuzzy` returns: the first longest survivor. */
  function FuzzyResult(drive: Drive, fioNorm: string, last9: string): Option<Folder> {
    var items := FuzzySurvivors(drive, fioNorm, last9);
    if items == [] then None else Some(items[BestIndex(RanksOf(items, None))])
  }

  /** `find_folder_by_fuzzy(drive, parent_id, fio_norm, phone_last9)`. */
  method FindFolderByFuzzy(drive: Drive, fioNorm: string, phoneLast9: string) returns (r: Option<Folder>)
    ensures r == FuzzyResult(drive, fioNorm, phoneLast9)
  {
    var items := drive.nameContains(Split(fioNorm, ',')[0]);
    if phoneLast9 != "" {
      items := WithDigits(items, phoneLast9);
    }
    if items == [] {
      return None;
    }
    var i := PickFirstBest(items, None);
    r := Some(items[i]);
  }

  /**
   * A fuzzy result is a folder of the `name contains` listing for the text before the comma,
   * whose digits contain `last9` when that is given; no survivor's name is longer, and every
   * survivor listed before it has a shorter name (the stable sort keeps the first of equals).
   */
  lemma FuzzyResultProperties(drive: Drive, fioNorm: string, last9: string)
    ensures var r := FuzzyResult(drive, fioNorm, last9);
      var items := FuzzySurvivors(drive, fioNorm, last9);
      && (r.None? <==> items == [])
      && (r.Some? ==> r.value in drive.nameContains(Split(fioNorm, ',')[0]))
      && (r.Some? && last9 != "" ==> IsSubstring(last9, Digits(r.value.name)))
      && (r.Some? ==> forall f | f in items :: |f.name| <= |r.value.name|)
      && (r.Some? ==> exists i :: 0 <= i < |items| && items[i] == r.value
                                  && forall j :: 0 <= j < i ==> |items[j].name| < |r.value.name|)
  {
    var items := FuzzySurvivors(drive, fioNorm, last9);
    if items != [] {
      var i := BestIndex(RanksOf(items, None));
      assert items[i] in items;
      assert forall j :: 0 <= j < i ==> Outranks(RanksOf(items, None)[i], RanksOf(items, None)[j]);
      forall f | f in items
        ensures |f.name| <= |items[i].name|
      {
        var j :| 0 <= j < |items| && items[j] == f;
        assert !Outranks(RanksOf(items, None)[j], RanksOf(items, None)[i]);
      }
    }
  }

  // ---------------------------------------------------------------------------
  // Tier 3: find_folder_by_phone
  // ---------------------------------------------------------------------------

  /** The six digit groupings searched for, built from the last nine digits of the canonical phone. */
  function PhonePatterns(e164: string): (r: seq<string>)
    ensures |r| == 6
  {
    var last9 := TakeLast(Digits(e164), BodyLength);
    var op2, mid3, last4 := Slice(last9, 0, 2), Slice(last9, 2, 5), Slice(last9, 5, 9);
    [op2 + " " + mid3 + " " + last4,
     mid3 + " " + last4,
     last4,
     last9,
     "+380 " + op2 + " " + mid3 + " " + last4,
     "+380" + op2 + mid3 + last4]
  }

  /** No pattern holds an apostrophe, so the query's filter on `'` removes none of them. */
  lemma PhonePatternsHaveNoQuote(e164: string)
    ensures forall p | p in PhonePatterns(e164) :: '\'' !in p
  {
    var last9 := TakeLast(Digits(e164), BodyLength);
    assert AllDigits(last9) by {
      assert forall c | c in last9 :: c in Digits(e164);
    }
    assert forall a, b | 0 <= a <= b :: forall c | c in Slice(last9, a, b) :: c in last9;
  }

  /** The ids occurring in `s`. */
  function IdsOf(s: seq<Folder>): set<string> {
    set f | f in s :: f.id
  }

  /** `seen.setdefault(f["id"], f)` over the listing, then `seen.values()`: the first folder per id. */
  function DedupById(s: seq<Folder>): seq<Folder>
    decreases |s|
  {
    if s == [] then []
    else
      var init := s[..|s| - 1];
      var f := s[|s| - 1];
      if f.id in IdsOf(init) then DedupById(init) else DedupById(init) + [f]
  }

  /** The first folder of `s` with the given id. */
  function FirstWithId(s: seq<Folder>, id: string): (f: Folder)
    requires id in IdsOf(s)
    ensures f in s && f.id == id
    decreases |s|
  {
    if s[0].id == id then s[0]
    else
      assert forall g | g in s && g.id == id :: g in s[1..];
      FirstWithId(s[1..], id)
  }

  /** The position of the first folder of `s` with the given id. */
  function FirstPos(s: seq<Folder>, id: string): (p: nat)
    requires id in IdsOf(s)
    ensures p < |s| && s[p].id == id && forall j :: 0 <= j < p ==> s[j].id != id
    decreases |s|
  {
    if s[0].id == id then 0
    else
      assert forall g | g in s && g.id == id :: g in s[1..];
      1 + FirstPos(s[1..], id)
  }

  /** Appending a folder keeps it exactly when its id is new. */
  lemma DedupByIdSnoc(s: seq<Folder>, f: Folder)
    ensures DedupById(s + [f]) == if f.id in IdsOf(s) then DedupById(s) else DedupById(s) + [f]
  {
    var t := s + [f];
    assert t[..|t| - 1] == s;
  }

  lemma IdsOfAppend(s: seq<Folder>, f: Folder)
    ensures IdsOf(s + [f]) == IdsOf(s) + {f.id}
  {
    assert forall g | g in s + [f] :: g in s || g == f;
  }

  lemma {:induction false} FirstWithIdAppend(s: seq<Folder>, f: Folder, id: string)
    requires id in IdsOf(s + [f])
    ensures id in IdsOf(s) ==> FirstWithId(s + [f], id) == FirstWithId(s, id)
    ensures id !in IdsOf(s) ==> FirstWithId(s + [f], id) == f
    decreases |s|
  {
    IdsOfAppend(s, f);
    if s != [] {
      assert (s + [f])[0] == s[0];
      assert (s + [f])[1..] == s[1..] + [f];
      if s[0].id != id {
        assert IdsOf(s) == {s[0].id} + IdsOf(s[1..]) by {
          assert forall g | g in s :: g == s[0] || g in s[1..];
        }
        FirstWithIdAppend(s[1..], f, id);
      }
    }
  }

  lemma {:induction false} DedupByIdIds(s: seq<Folder>)
    ensures IdsOf(DedupById(s)) == IdsOf(s)
    decreases |s|
  {
    if s != [] {
      var init, f := s[..|s| - 1], s[|s| - 1];
      assert s == init + [f];
      DedupByIdIds(init);
      DedupByIdSnoc(init, f);
      IdsOfAppend(init, f);
      IdsOfAppend(DedupById(init), f);
    }
  }

  lemma {:induction false} DedupByIdDistinct(s: seq<Folder>)
    ensures forall a, b :: 0 <= a < b < |DedupById(s)| ==> DedupById(s)[a].id != DedupById(s)[b].id
    decreases |s|
  {
    if s != [] {
      var init, f := s[..|s| - 1], s[|s| - 1];
      assert s == init + [f];
      DedupByIdDistinct(init);
      DedupByIdSnoc(init, f);
      var d := DedupById(init);
      if f.id !in IdsOf(init) {
        DedupByIdIds(init);
        assert forall a :: 0 <= a < |d| ==> d[a] in d;
      }
    }
  }

  lemma {:induction false} DedupByIdFirst(s: seq<Folder>)
    ensures forall f | f in DedupById(s) :: f.id in IdsOf(s) && f == FirstWithId(s, f.id)
    decreases |s|
  {
    if s != [] {
      var init, f := s[..|s| - 1], s[|s| - 1];
      assert s == init + [f];
      DedupByIdFirst(init);
      DedupByIdSnoc(init, f);
      IdsOfAppend(init, f);
      var d := DedupById(init);
      forall g | g in DedupById(s)
        ensures g.id in IdsOf(s) && g == FirstWithId(s, g.id)
      {
        if g in d {
          FirstWithIdAppend(init, f, g.id);
        } else {
          FirstWithIdAppend(init, f, f.id);
        }
      }
    }
  }

  /** An id already present keeps its first position when a folder is appended. */
  lemma FirstPosAppend(s: seq<Folder>, f: Folder, id: string)
    requires id in IdsOf(s)
    ensures id in IdsOf(s + [f]) && FirstPos(s + [f], id) == FirstPos(s, id)
  {
    IdsOfAppend(s, f);
    var p, q := FirstPos(s, id), FirstPos(s + [f], id);
    assert (s + [f])[p] == s[p];
    assert q <= p;
    assert s[q] == (s + [f])[q];
  }

  /** An appended folder with a new id occurs first at the end. */
  lemma FirstPosOfNew(s: seq<Folder>, f: Folder)
    requires f.id !in IdsOf(s)
    ensures f.id in IdsOf(s + [f]) && FirstPos(s + [f], f.id) == |s|
  {
    IdsOfAppend(s, f);
    forall j | 0 <= j < |s|
      ensures (s + [f])[j].id != f.id
    {
      assert (s + [f])[j] == s[j] && s[j] in s;
    }
    assert (s + [f])[|s|] == f;
  }

  /** The ids of `d` occur in `s`, and they occur first in `s` in the order of `d`. */
  predicate InFirstSeenOrder(d: seq<Folder>, s: seq<Folder>) {
    && (forall a :: 0 <= a < |d| ==> d[a].id in IdsOf(s))
    && (forall a, b :: 0 <= a < b < |d| ==> FirstPos(s, d[a].id) < FirstPos(s, d[b].id))
  }

  /** Appending a folder to the listing keeps the order of the ids it already had. */
  lemma FirstSeenOrderAppend(d: seq<Folder>, s: seq<Folder>, f: Folder)
    requires InFirstSeenOrder(d, s)
    ensures InFirstSeenOrder(d, s + [f])
  {
    forall a | 0 <= a < |d|
      ensures d[a].id in IdsOf(s + [f]) && FirstPos(s + [f], d[a].id) == FirstPos(s, d[a].id)
    {
      FirstPosAppend(s, f, d[a].id);
    }
  }

  /** A folder with a new id, added at the end of both, stays last in the order. */
  lemma FirstSeenOrderSnoc(d: seq<Folder>, s: seq<Folder>, f: Folder)
    requires InFirstSeenOrder(d, s) && f.id !in IdsOf(s)
    ensures InFirstSeenOrder(d + [f], s + [f])
  {
    FirstSeenOrderAppend(d, s, f);
    FirstPosOfNew(s, f);
    var e := d + [f];
    forall a | 0 <= a < |d|
      ensures e[a] == d[a] && FirstPos(s + [f], d[a].id) < |s|
    {
      FirstPosAppend(s, f, d[a].id);
    }
    assert e[|d|] == f;
  }

  /** The kept folders come in the order in which their ids first occur in the listing. */
  lemma {:induction false} DedupByIdOrder(s: seq<Folder>)
    ensures InFirstSeenOrder(DedupById(s), s)
    decreases |s|
  {
    if s == [] {
      assert DedupById(s) == [];
    } else {
      var init, f := s[..|s| - 1], s[|s| - 1];
      assert s == init + [f];
      DedupByIdOrder(init);
      DedupByIdSnoc(init, f);
      if f.id in IdsOf(init) {
        FirstSeenOrderAppend(DedupById(init), init, f);
      } else {
        FirstSeenOrderSnoc(DedupById(init), init, f);
      }
    }
  }

  /**
   * Deduplication keeps one folder per id, never two with the same id, the one it keeps is
   * the first folder with that id in the listing, and the kept folders follow the order of
   * those first occurrences (the insertion order of the `seen` dict).
   */
  lemma DedupByIdProperties(s: seq<Folder>)
    ensures IdsOf(DedupById(s)) == IdsOf(s)
    ensures forall a, b :: 0 <= a < b < |DedupById(s)| ==> DedupById(s)[a].id != DedupById(s)[b].id
    ensures forall f | f in DedupById(s) :: f.id in IdsOf(s) && f == FirstWithId(s, f.id)
    ensures InFirstSeenOrder(DedupById(s), s)
  {
    DedupByIdIds(s);
    DedupByIdDistinct(s);
    DedupByIdFirst(s);
    DedupByIdOrder(s);
  }

  /** The match test of `find_folder_by_phone`: the title's phone, canonicalised, is the expected one. */
  predicate Confirms(f: Folder, e164: string) {
    var cand := ExtractPhone(f.name);
    cand.Some? && NormalizePhone(cand.value) == e164
  }

  /** A folder confirms exactly when the phone extracted from its title is the expected one. */
  lemma ConfirmsIff(f: Folder, e164: string)
    ensures Confirms(f, e164) <==> ExtractPhone(f.name) == Some(e164)
  {
    if ExtractPhone(f.name).Some? {
      CanonicalFixpoint(ExtractPhone(f.name).value);
    }
  }

  /** The `matched` list: the deduplicated folders that confirm, in order. */
  function Confirmed(s: seq<Folder>, e164: string): (r: seq<Folder>)
    ensures forall f | f in r :: f in s && Confirms(f, e164)
    decreases |s|
  {
    if s == [] then []
    else
      var init := Confirmed(s[..|s| - 1], e164);
      var f := s[|s| - 1];
      if Confirms(f, e164) then init + [f] else init
  }

  /** The `matched` list keeps every confirming folder. */
  lemma {:induction false} ConfirmedComplete(s: seq<Folder>, e164: string)
    ensures forall f | f in s :: f in Confirmed(s, e164) <==> Confirms(f, e164)
    decreases |s|
  {
    if s != [] {
      var init := s[..|s| - 1];
      ConfirmedComplete(init, e164);
      assert s == init + [s[|s| - 1]];
    }
  }

  /** The tie-break key in use: by overlap only with two or more matches and a non-empty expected name. */
  function TieBreak(matched: seq<Folder>, expectedFio: Option<string>): Option<set<string>> {
    if |matched| == 1 || expectedFio == None || expectedFio == Some("") then None
    else Some(NameTokenSet(expectedFio.value))
  }

  /** The confirmed candidates of the phone tier. */
  function PhoneMatches(drive: Drive, phoneE164: string): seq<Folder> {
    var e164 := NormalizePhone(phoneE164);
    Confirmed(DedupById(drive.nameContainsAny(PhonePatterns(e164))), e164)
  }

  /** What `find_folder_by_phone` returns. */
  function PhoneResult(drive: Drive, phoneE164: string, expectedFio: Option<string>): Option<Folder> {
    var matched := PhoneMatches(drive, phoneE164);
    if matched == [] then None else Some(matched[BestIndex(RanksOf(matched, TieBreak(matched, expectedFio)))])
  }

  /** The `seen` loop of `find_folder_by_phone`: `setdefault` per folder, then the values in insertion order. */
  method CollectUnique(listing: seq<Folder>) returns (uniq: seq<Folder>)
    ensures uniq == DedupById(listing)
  {
    var seen: set<string> := {};
    uniq := [];
    for i := 0 to |listing|
      invariant uniq == DedupById(listing[..i])
      invariant seen == IdsOf(listing[..i])
    {
      assert listing[..i + 1] == listing[..i] + [listing[i]];
      IdsOfAppend(listing[..i], listing[i]);
      DedupByIdSnoc(listing[..i], listing[i]);
      if listing[i].id !in seen {
        uniq := uniq + [listing[i]];
        seen := seen + {listing[i].id};
      }
    }
    assert listing[..|listing|] == listing;
  }

  /** The `matched` loop of `find_folder_by_phone`. */
  method CollectMatched(uniq: seq<Folder>, e164: string) returns (matched: seq<Folder>)
    ensures matched == Confirmed(uniq, e164)
  {
    matched := [];
    for i := 0 to |uniq|
      invariant matched == Confirmed(uniq[..i], e164)
    {
      assert uniq[..i + 1][..i] == uniq[..i];
      var cand := ExtractPhone(uniq[i].name);
      if cand.Some? && NormalizePhone(cand.value) == e164 {
        matched := matched + [uniq[i]];
      }
    }
    assert uniq[..|uniq|] == uniq;
  }

  /** `find_folder_by_phone(drive, parent_id, phone_e164, expected_fio)`. */
  method FindFolderByPhone(drive: Drive, phoneE164: string, expectedFio: Option<string>) returns (r: Option<Folder>)
    ensures r == PhoneResult(drive, phoneE164, expectedFio)
  {
    var e164 := NormalizePhone(phoneE164);
    var listing := drive.nameContainsAny(PhonePatterns(e164));
    var uniq := CollectUnique(listing);
    var matched := CollectMatched(uniq, e164);
    if matched == [] {
      return None;
    }
    var exp := if |matched| == 1 || expectedFio == None || expectedFio == Some("") then None
               else Some(NameTokenSet(expectedFio.value));
    var i := PickFirstBest(matched, exp);
    r := Some(matched[i]);
  }

  /**
   * Every phone-tier result carries the expected phone in its title, is the first listed
   * folder with its id, and with two or more matches and an expected name it maximises
   * (token overlap, name length).
   */
  lemma PhoneResultProperties(drive: Drive, phoneE164: string, expectedFio: Option<string>)
    ensures var r := PhoneResult(drive, phoneE164, expectedFio);
      var listing := drive.nameContainsAny(PhonePatterns(NormalizePhone(phoneE164)));
      var matched := PhoneMatches(drive, phoneE164);
      && (r.None? <==> matched == [])
      && (r.Some? ==> ExtractPhone(r.value.name) == Some(NormalizePhone(phoneE164)))
      && (r.Some? ==> r.value.id in IdsOf(listing) && r.value == FirstWithId(listing, r.value.id))
      && (r.Some? ==> exists i :: IsFirstBest(RanksOf(matched, TieBreak(matched, expectedFio)), i) && matched[i] == r.value)
  {
    var e164 := NormalizePhone(phoneE164);
    var listing := drive.nameContainsAny(PhonePatterns(e164));
    var matched := PhoneMatches(drive, phoneE164);
    DedupByIdProperties(listing);
    if matched != [] {
      var i := BestIndex(RanksOf(matched, TieBreak(matched, expectedFio)));
      assert matched[i] in matched;
      ConfirmsIff(matched[i], e164);
    }
  }

  /** The first listed folder of each id is matched whenever it carries the expected phone. */
  lemma PhoneMatchesComplete(drive: Drive, phoneE164: string, f: Folder)
    requires f in drive.nameContainsAny(PhonePatterns(NormalizePhone(phoneE164)))
    requires ExtractPhone(FirstWithId(drive.nameContainsAny(PhonePatterns(NormalizePhone(phoneE164))), f.id).name)
             == Some(NormalizePhone(phoneE164))
    ensures FirstWithId(drive.nameContainsAny(PhonePatterns(NormalizePhone(phoneE164))), f.id) in PhoneMatches(drive, phoneE164)
  {
    var e164 := NormalizePhone(phoneE164);
    var listing := drive.nameContainsAny(PhonePatterns(e164));
    DedupByIdProperties(listing);
    var g := FirstWithId(listing, f.id);
    assert f.id in IdsOf(DedupById(listing));
    var h :| h in DedupById(listing) && h.id == f.id;
    assert h == g;
    ConfirmedComplete(DedupById(listing), e164);
    ConfirmsIff(g, e164);
  }

  // ---------------------------------------------------------------------------
  // find_client_folder_strict
  // ---------------------------------------------------------------------------

  /** `find_client_folder_strict(drive, root_folder_id, expected_title, phone_e164)`: exact, then fuzzy, then phone. */
  method FindClientFolderStrict(drive: Drive, expectedTitle: string, phoneE164: string) returns (r: Option<Folder>)
    ensures var exact := FindFolderByExactName(drive, expectedTitle);
      var fuzzy := FuzzyResult(drive, NormalizeFolderTitleForCompare(expectedTitle), TakeLast(Digits(phoneE164), BodyLength));
      && (exact.Some? ==> r == exact)
      && (exact.None? && fuzzy.Some? ==> r == fuzzy)
      && (exact.None? && fuzzy.None? ==> r == PhoneResult(drive, phoneE164, Some(expectedTitle)))
  {
    var exact := FindFolderByExactName(drive, expectedTitle);
    if exact.Some? {
      return exact;
    }
    var fioOnly := NormalizeFolderTitleForCompare(expectedTitle);
    var last9 := TakeLast(Digits(phoneE164), BodyLength);
    var fuzzy := FindFolderByFuzzy(drive, fioOnly, last9);
    if fuzzy.Some? {
      return fuzzy;
    }
    r := FindFolderByPhone(drive, phoneE164, Some(expectedTitle));
  }

  /**
   * For a title the bot built itself, the fuzzy tier searches for the whole normalised name,
   * and a fuzzy hit carries the last nine digits of the phone.
   */
  lemma FuzzyTierOnBuiltTitle(drive: Drive, fio: string, phoneE164: string)
    ensures var title := BuildFolderTitle(fio, phoneE164);
      var last9 := TakeLast(Digits(phoneE164), BodyLength);
      var fuzzy := FuzzyResult(drive, NormalizeFolderTitleForCompare(title), last9);
      && (fuzzy.Some? ==> fuzzy.value in drive.nameContains(NormalizeFio(fio)))
      && (fuzzy.Some? && last9 != "" ==> IsSubstring(last9, Digits(fuzzy.value.name)))
  {
    var title := BuildFolderTitle(fio, phoneE164);
    FuzzyAnchorIsName(fio, phoneE164);
    FuzzyResultProperties(drive, NormalizeFolderTitleForCompare(title), TakeLast(Digits(phoneE164), BodyLength));
  }
}
