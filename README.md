# Client-folder resolver and stage-history reducer, modelled in Dafny

This project models the pure decision logic of `main.py`, a Telegram bot that looks up a
client in Bitrix24 and finds the client's Google Drive folder. The model has five connected parts:

- **Phone canonicaliser** (`phone.dfy`, module `Phone`). `normalize_phone_e164_ua` keeps the digits and turns a
  national leading `0` into `380`. It then drops the country code, either as the literal prefix or, through
  `lstrip("380")`, as any leading run of 3s, 8s and 0s. It keeps at most the last nine digits behind `+380`.
- **Name normaliser** (`names.dfy`, module `Names`). This covers `_unify_apostrophes`, `normalize_spaces`, `_smart_title`,
  `normalize_fio_string` and `build_fio_from_contact`.
- **Folder-title codec** (`folder_title.dfy`, module `FolderTitle`). `build_folder_title` writes `"<name>, <phone>"`.
  `normalize_folder_title_for_compare` splits at the first comma and re-normalises both sides.
- **Folder resolver cascade** (`resolver.dfy`, module `Resolver`). This covers `_extract_e164_from_title` and the three tiers of
  `find_client_folder_strict`: exact name, then fuzzy name plus last nine digits, then phone patterns. Each
  Drive query is a field of a `Drive` value mapping the query's argument to the listing it returns
  (all pages concatenated).
- **Stage-history reducer** (`stage_history.dfy`, module `StageHistory`). This covers the following:
  - the stable sort by creation time and the consecutive-stage dedup of `get_deal_stage_history`;
  - `compute_stage_segments`;
  - `_fmt_tdelta`;
  - `_stage_name_by_sid`, with `_STAGE_MAP_CACHE` as a class whose fetch is an abstract function.

Python semantics the code relies on are spelled out in `text.dfy` (module `Text`):

- `str.split` keeps empty pieces;
- `str.strip` and `re.sub(r"\s+", " ", ...)` are modelled with their own functions, and `s.split()` as `Text.Fields`,
  the maximal runs outside a character class;
- `"".join`, `re.sub(r"\D", "", ...)` and `s[-n:]` likewise.

`wrappers.dfy` holds `Option`.

Loops in the source are methods proved equal to a specification function:

- `_smart_title`: `Names.SmartTitle`;
- `_unify_apostrophes`: `Names.UnifyApostrophes`;
- the dedup loop: `StageHistory.DedupConsecutive`;
- the segments loop: `StageHistory.ComputeStageSegments`;
- the `seen` loop: `Resolver.CollectUnique`;
- the `matched` loop: `Resolver.CollectMatched`;
- the sort-then-take-first: `Resolver.PickFirstBest`.

The properties are proved about those functions.

Three behaviours of `main.py` worth noting:

- **Phone body length.** The body of a canonical phone can be shorter than nine digits: `"123"` gives `"+380123"`.
  `lstrip("380")` strips a character class, so `"8001234567"` gives `"+3801234567"`.
- **Tie-break tokens.** The phone tier's tie-break compares tokens without lower-casing them.
- **Segment durations.** Segment durations are not floored at zero. Only `_fmt_tdelta` clamps, when rendering.

## Model

| member | source | states |
|---|---|---|
| Text.Digits | main.py:202 | `re.sub(r"\D", "", s)`: the result is all digits and no longer than the input; `Text.DigitsOfDigitString` and `Text.DigitsAppend` pin it down on digit strings and concatenations |
| Text.TakeLast | main.py:207 | `s[-n:]`: a suffix of `s` of length `min(n, len(s))` |
| Text.Slice | main.py:260 | `s[a:b]` with Python's clamping of out-of-range bounds |
| Text.IsSubstring | main.py:249-250 | the `in` test on strings: some contiguous slice equals the pattern |
| Text.Split | main.py:178-181 | `s.split(sep)` for one separator character: never empty, keeps empty pieces |
| Text.Join | main.py:183-184 | `sep.join(parts)`; properties in `Text.SplitJoin` and `Text.JoinSplit` |
| Text.SplitJoin | main.py:178-184 | splitting a join at its separator gives the parts back when no part holds the separator |
| Text.JoinSplit | main.py:178-184 | joining the pieces of a split with the separator restores the string |
| Text.ReplaceRuns | main.py:173 | `re.sub(pattern + "+", " ", s)`; its exact shape is `Text.ReplaceRunsFields` |
| Text.ReplaceRunsFields | main.py:173 | each maximal run of the class becomes exactly one space: the result is the fields of the input joined by single spaces, with one space in front when the input starts with a run and one at the end when it ends with one |
| Text.Fields | main.py:173 | `s.split()` (for whitespace) and `re.split(pattern + "+", s)` with empty pieces dropped: the maximal runs of characters outside a class, in order; a string starting outside the class has at least one |
| Text.FieldsClean | main.py:173 | every field is non-empty and holds no character of the class |
| Text.FieldsText | main.py:173 | the fields, concatenated, are the input without the class's characters, in order |
| Text.FieldsEmpty | main.py:173 | there are no fields exactly when every character is in the class |
| Text.FieldsReplaceRuns | main.py:173 | after the runs of one class are replaced by a space, the fields of a class containing the space are the fields of the original text under the union of both classes |
| Text.FieldsStrip | main.py:173 | stripping whitespace from the ends does not change the fields of a class that contains all whitespace |
| Text.CollapsedFields | main.py:173 | a collapsed string is its own whitespace fields joined by single spaces |
| Text.WordsAreFields | main.py:190 | for text whose only whitespace is the space, `[t for t in s.split(" ") if t]` is `s.split()` |
| Text.Strip | main.py:173 | `s.strip()`: no whitespace at either end, and only characters of the input; `Text.StripIsSlice` says which |
| Text.StripIsSlice | main.py:173 | `s.strip()` is a contiguous slice of `s` and everything cut off on either side is whitespace |
| Text.Without | main.py:170-173 | the characters of a string outside one class, in order: the reference for what clean-up must keep |
| Text.WithoutReplaceRuns | main.py:173 | replacing runs of a class by a space loses, once whitespace is dropped, exactly the characters of that class |
| Text.WithoutStrip | main.py:173 | `strip` removes only whitespace |
| Phone.NormalizePhone | main.py:201-208 | the result is `+380` followed by at most nine digits, its body is a suffix of the input's digits, and no digits gives exactly `+380` |
| Phone.LStrip380 | main.py:206 | `lstrip("380")` returns a suffix of its input that does not start with 3, 8 or 0, and everything it removed is 3, 8 or 0 |
| Phone.LStripRun | main.py:206 | `lstrip("380")` removes exactly the leading run of 3s, 8s and 0s |
| Phone.SubscriberOfNational | main.py:204-205 | a number starting with `0` gets `380` in front and then loses it again, so all of its digits reach the last-nine cut |
| Phone.SubscriberWithoutCode | main.py:205-206 | a number that neither starts with `0` nor carries `380` loses exactly its leading run of 3s, 8s and 0s |
| Phone.Subscriber | main.py:204-206 | the digits left after the country code is handled are a suffix of the (possibly `380`-prefixed) digits |
| Phone.NoDigitsGivesPrefix | main.py:202-203 | an input without digits yields the `+380` placeholder |
| Phone.LeadingZero | main.py:204-208 | a national number starting with `0` keeps the last nine of its digits behind `+380` |
| Phone.FullBody | main.py:205-208 | a number carrying `380` and at least nine more digits keeps exactly its last nine digits |
| Phone.CanonicalFixpoint | main.py:201-208 | every canonical number is its own canonical form |
| Phone.Idempotent | main.py:201-208 | canonicalising twice is canonicalising once |
| Phone.DigitsOfCanonical | main.py:202-205 | the digits of a canonical number are `380` followed by its body, so it re-enters through the `startswith("380")` branch |
| Phone.NormalizePhoneOfDigits | main.py:202 | only the digits of the input matter |
| Phone.CanonicalChars | main.py:208 | a canonical number holds only `+` and digits |
| Phone.LStripIsNotPrefixRemoval | main.py:206 | `8001234567` loses its leading 8, 0 and 0 and becomes `+380` followed by `1234567` |
| Phone.NationalExample | main.py:204 | `0671234567` becomes `+380` followed by `671234567` |
| Phone.ShortExample | main.py:207-208 | `123` becomes `+380123`, with no padding |
| Names.Unified | main.py:163-168 | replacing every look-alike apostrophe keeps the length, leaves no look-alike, and keeps every other character in place |
| Names.UnifyApostrophes | main.py:165-168 | the loop over the look-alikes computes `Unified` |
| Names.UnifiedChars | main.py:165-168 | the result holds only `'` and characters of the input |
| Names.UnifiedNoop | main.py:165-168 | a string without look-alikes is unchanged |
| Names.NormalizeSpaces | main.py:170-173 | the result is the whitespace-separated words of the input (`s.split()`, NBSP counting as whitespace) joined by single spaces; so it is collapsed and keeps the input's non-whitespace characters in order |
| Names.FieldsOfNormalizeSpaces | main.py:170-173 | the clean-up keeps the fields of every class that contains all whitespace, so it neither merges nor splits words |
| Names.NormalizeSpacesOfCollapsed | main.py:170-173 | a collapsed string is its own normal form |
| Names.TitlePiece | main.py:182 | `x[:1].upper() + x[1:].lower()` has an upper first letter and lower other letters, and keeps every character's lower case, so only letter case changes |
| Names.TitlePieceIdempotent | main.py:182 | title-casing a piece twice is doing it once |
| Names.Titled | main.py:175-184 | what `_smart_title` computes: the stripped token with each apostrophe piece of each hyphen piece title-cased; properties in `Names.TitledProperties` |
| Names.SmartTitle | main.py:175-184 | the loop over hyphen pieces computes `Titled`, the title-casing of each apostrophe piece of each hyphen piece of the stripped token |
| Names.TitledCaseOf | main.py:175-184 | `_smart_title` keeps the length and the lower case of every character of the stripped token, so only letter case changes |
| Names.SplitTitled | main.py:178-184 | the hyphen pieces of a title-cased token are the title-cased hyphen pieces |
| Names.TitledIdempotent | main.py:175-184 | title-casing a non-empty space-free token again changes nothing |
| Names.TitledPiecesTitled | main.py:178-184 | every apostrophe piece of every hyphen piece of the result is title-cased |
| Names.TitledProperties | main.py:175-184 | for any space-free token: idempotent, every piece title-cased, and each character keeps its lower case |
| Names.TitledOfPlainWord | main.py:175-184 | a token without spaces, hyphens or apostrophes is title-cased as a single piece |
| Names.NameTokens | main.py:186-190 | the tokens `normalize_fio_string` title-cases; which they are is `Names.NameTokensAreFields` |
| Names.NameTokensAreFields | main.py:186-190 | the tokens are exactly the maximal runs of the apostrophe-unified input between whitespace and `,.;` characters, in order |
| Names.NameTokensText | main.py:186-190 | the tokens, concatenated, are exactly the input's characters other than whitespace and `,.;`, in order, with look-alike apostrophes unified |
| Names.NameTokensClean | main.py:186-190 | after the clean-up steps every token is non-empty and free of whitespace, `,.;` and look-alike apostrophes |
| Names.NameTokensOfJoin | main.py:186-190 | the clean-up steps leave a space-join of clean tokens alone |
| Names.CanonicalJoin | main.py:191-192 | joining title-cased clean tokens gives a canonical name that `normalize_fio_string` leaves unchanged and whose words are those tokens |
| Names.NormalizeFioCanonical | main.py:186-192 | `normalize_fio_string` always returns a canonical name, is idempotent, and equals the title-cased maximal runs of the unified input between whitespace and `,.;`, joined by single spaces; those runs hold every other character in order |
| Names.NormalizeFioAbsorbsCleanup | main.py:187 | doing the apostrophe and space clean-up first changes nothing |
| Names.NormalizeFio | main.py:186-192 | `normalize_fio_string`; properties in `Names.NormalizeFioCanonical` |
| Names.NameTokensOfTwoWords | main.py:186-190 | `"  a,  b "` with two name tokens splits into exactly `[a, b]` |
| Names.NormalizeFioOfTwoWords | main.py:186-192 | `"  a,  b "` with two name tokens normalises to the two tokens title-cased, one space apart |
| Names.NormalizeFioExample | main.py:186-192 | `"  ivan,  PETROV "` normalises to `"Ivan Petrov"` |
| Names.TitlePieceOfExampleWords | main.py:182 | `ivan` title-cases to `Ivan` and `PETROV` to `Petrov` |
| Names.CanonicalNameHasNoComma | main.py:188 | a canonical name holds no comma |
| Names.JoinNormalizedNames | main.py:198-199 | joining the non-empty normalised names is normalising all their tokens at once, and the result is canonical |
| Names.BuildFioFromContact | main.py:194-199 | `build_fio_from_contact`; properties in `Names.BuildFioFromContactCanonical` |
| Names.BuildFioFromContactCanonical | main.py:194-199 | `build_fio_from_contact` gives a canonical, normaliser-stable name whose words are the last, first and middle names' words, in that order |
| FolderTitle.BuildFolderTitle | main.py:210-211 | `build_folder_title`; read back by `FolderTitle.CodecRoundTrip` |
| FolderTitle.PhonePart | main.py:218-220 | the phone side of a read title; equal to canonicalising the side, by `FolderTitle.PhonePartIsNormalizePhone` |
| FolderTitle.ReadCleanTitle | main.py:215-222 | the split at the first comma of a clean title; properties in `FolderTitle.NoCommaGivesName` and `FolderTitle.CleanCommaReencodes` |
| FolderTitle.NormalizeFolderTitleForCompare | main.py:213-222 | `normalize_folder_title_for_compare`; properties in `FolderTitle.CodecRoundTrip`, `FolderTitle.CommaReencodes` and `FolderTitle.NormalizeFolderTitleIdempotent` |
| FolderTitle.PhonePartIsNormalizePhone | main.py:219-220 | the digits branch and the raw branch of the phone side agree |
| FolderTitle.TitleClean | main.py:214 | `name + ", " + phone` is unchanged by the apostrophe and space clean-up |
| FolderTitle.TitleSplit | main.py:215-217 | the first comma of `name + ", " + phone` ends the name when the name holds no comma |
| FolderTitle.BuiltTitleParts | main.py:210-217 | a built title is clean, and its first comma separates the normalised name from `" " + phone` |
| FolderTitle.StripPhoneSide | main.py:217 | stripping the right side of a built title gives the canonical phone |
| FolderTitle.ReadTitleOfParts | main.py:215-222 | a canonical, normaliser-stable name and a canonical phone joined by `", "` read back unchanged |
| FolderTitle.CodecRoundTrip | main.py:210-222 | reading a built title back gives the same title |
| FolderTitle.FuzzyAnchorIsName | main.py:240-242 | the part before the first comma of a re-read built title is the whole normalised name |
| FolderTitle.NoCommaGivesName | main.py:215-216 | a title without a comma is read as a name only |
| FolderTitle.CleanCommaReencodes | main.py:217-222 | a clean title with a comma reads as the built title of its two stripped sides |
| FolderTitle.CommaReencodes | main.py:213-222 | a title whose clean form has a comma reads as the built title of its two stripped sides |
| FolderTitle.NormalizeFolderTitleIdempotent | main.py:213-222 | reading a title twice is reading it once |
| Resolver.DigitRuns | main.py:229 | every match of `\d{9,12}` has 9 to 12 digits, and there is a match exactly when there are nine digits |
| Resolver.ExtractPhone | main.py:225-232 | no phone exactly when the title has fewer than nine digits, and any phone found is canonical |
| Resolver.LastRunBounds | main.py:229-232 | the closed-form bounds of the last match lie inside the digit string |
| Resolver.LastRunOfTail | main.py:229 | dropping the first twelve digits does not move the last match when nine digits remain |
| Resolver.LastRun | main.py:229-232 | the last element of `findall` is the closed-form last match |
| Resolver.ExtractPhoneSpec | main.py:225-232 | `_extract_e164_from_title` gives None below nine digits and otherwise the canonical form of the closed-form last match |
| Resolver.NameTokenSet | main.py:290-293 | `tokens(s)`: the words of the normalised part before the first comma |
| Resolver.RankOf | main.py:287-294 | the sort key: name length alone, or token overlap with the expected name and then length |
| Resolver.TieBreak | main.py:287-294 | the overlap key is used only for two or more matches and a non-empty expected name |
| Resolver.FirstBestUnique | main.py:252-253 | the head of the stable descending sort is unique |
| Resolver.BestIndex | main.py:252-253 | the reference head of `sort(key, reverse=True)`: nothing outranks it and it outranks everything before it |
| Resolver.PickFirstBest | main.py:287-295 | the scan returns the stable sort's head |
| Resolver.FindFolderByExactName | main.py:234-238 | None exactly when the exact-name listing is empty, otherwise a folder from it |
| Resolver.WithDigits | main.py:249-250 | the filter keeps only folders from the listing whose digits contain `last9` |
| Resolver.WithDigitsComplete | main.py:249-250 | a listed folder is kept exactly when its digits contain `last9` |
| Resolver.FuzzyResult | main.py:240-254 | what `find_folder_by_fuzzy` returns; properties in `Resolver.FuzzyResultProperties` |
| Resolver.FindFolderByFuzzy | main.py:240-254 | the method returns the first longest survivor of the filter |
| Resolver.FuzzyResultProperties | main.py:240-254 | a fuzzy result comes from the `name contains` listing, carries `last9` when given, no survivor has a longer name and every survivor listed before it has a shorter one (the stable sort's first); None exactly when nothing survives |
| Resolver.PhonePatterns | main.py:257-268 | the six groupings of the canonical phone's last nine digits that the phone tier searches for |
| Resolver.PhonePatternsHaveNoQuote | main.py:259-269 | no phone pattern holds an apostrophe, so the query keeps all six |
| Resolver.DedupById | main.py:272-279 | the first-seen folder per id; properties in `Resolver.DedupByIdProperties` |
| Resolver.FirstWithId | main.py:272-279 | the first listed folder with an id is in the listing and has that id |
| Resolver.DedupByIdIds | main.py:272-279 | deduplication keeps every id |
| Resolver.DedupByIdDistinct | main.py:272-279 | no two kept folders share an id |
| Resolver.DedupByIdFirst | main.py:272-279 | each kept folder is the first listed one with its id |
| Resolver.FirstPos | main.py:272-279 | the position of the first listed folder with an id: it has the id and no earlier folder does |
| Resolver.DedupByIdOrder | main.py:272-279 | the kept folders come in the order in which their ids first appear in the listing (the dict's insertion order) |
| Resolver.DedupByIdProperties | main.py:272-279 | the dedup properties together: every id kept, no id twice, each the first with its id, in first-seen order |
| Resolver.CollectUnique | main.py:272-279 | the `seen` loop computes the first-per-id deduplication |
| Resolver.ConfirmsIff | main.py:280-284 | a folder confirms exactly when the phone extracted from its title is the expected canonical phone |
| Resolver.Confirmed | main.py:280-284 | the `matched` list holds only candidates that confirm; `Resolver.ConfirmedComplete` gives the converse |
| Resolver.ConfirmedComplete | main.py:280-284 | a candidate is kept exactly when it confirms |
| Resolver.CollectMatched | main.py:280-284 | the `matched` loop computes the confirmed candidates |
| Resolver.PhoneResult | main.py:256-295 | what `find_folder_by_phone` returns; properties in `Resolver.PhoneResultProperties` |
| Resolver.FindFolderByPhone | main.py:256-295 | the method returns `PhoneResult`: None with no match, else the head of the sort by length or by (token overlap, length) |
| Resolver.PhoneResultProperties | main.py:256-295 | a phone-tier result's title yields the expected phone, it is the first listed folder with its id, and it is the first best by the tie-break key; None exactly when nothing matched |
| Resolver.PhoneMatchesComplete | main.py:272-284 | the first listed folder of every id carrying the expected phone is among the matches |
| Resolver.FindClientFolderStrict | main.py:297-309 | an exact hit is returned first; otherwise a fuzzy hit; only when both fail the phone tier's result |
| Resolver.FuzzyTierOnBuiltTitle | main.py:240-254 | for a built title the fuzzy tier searches for the whole normalised name, and a hit carries the last nine digits |
| StageHistory.Take | main.py:433 | `items[:limit]` for a non-negative limit |
| StageHistory.SortByTime | main.py:434 | the stable sort by creation time; properties in `StageHistory.SortByTimeCorrect` and `StageHistory.SortByTimeStable` |
| StageHistory.Insert | main.py:434 | inserting adds exactly one row (as a multiset) |
| StageHistory.InsertSorted | main.py:434 | inserting into a time-ordered list keeps it time-ordered |
| StageHistory.SortByTimeCorrect | main.py:434 | the sort yields a time-ordered permutation of its input |
| StageHistory.AtTimeInsert | main.py:434 | inserting places a row after the rows with its creation time |
| StageHistory.SortByTimeStable | main.py:434 | rows with equal creation times keep their input order |
| StageHistory.RunStarts | main.py:436-441 | the rows whose stage id differs from the previous row's; properties in `StageHistory.RunStartsProperties` |
| StageHistory.DedupConsecutive | main.py:436-441 | the loop keeps exactly the rows whose stage id differs from the previous row's |
| StageHistory.RunStartsLast | main.py:436-441 | `prev_sid` at the end is the last input row's stage id |
| StageHistory.RunStartsNoRepeat | main.py:436-441 | no two adjacent retained rows share a stage id, and the first retained row has one |
| StageHistory.RunStartsFromInput | main.py:436-441 | every retained row comes from the input |
| StageHistory.RunStartsSorted | main.py:434-441 | dedup keeps time order |
| StageHistory.RunStartsProperties | main.py:434-441 | the dedup properties together |
| StageHistory.RunStartsOfDistinct | main.py:436-441 | a list without repeated neighbours whose first row has a stage id is left alone |
| StageHistory.RunStartsIdempotent | main.py:436-441 | deduplicating twice is deduplicating once |
| StageHistory.GetDealStageHistory | main.py:423-442 | the first `limit` rows, stably sorted and deduplicated: time-ordered with no repeated neighbours |
| StageHistory.ComputeStageSegments | main.py:444-456 | one segment per row with the row's stage and start, each ending where the next starts, the last at `now`, with `duration == end - start` |
| StageHistory.ChainedTotal | main.py:444-456 | the durations add up to `now` minus the first start |
| StageHistory.ChainedDurationSign | main.py:447-452 | over time-ordered rows every duration is non-negative when `now` is not before the last row, and the last is negative otherwise |
| StageHistory.NatToString | main.py:418-420 | `str(n)` is a non-empty digit string |
| StageHistory.ParseNatToString | main.py:418-420 | reading a rendered count back gives the count |
| StageHistory.DivmodChain | main.py:413-416 | the divmod chain gives hours below 24 and minutes below 60, and days, hours and minutes add up to the total cut down to whole minutes |
| StageHistory.PartsValueTotal | main.py:413-420 | the kept parts are worth the total cut down to whole minutes |
| StageHistory.RenderedWords | main.py:418-421 | the words of the rendered text are the counts and unit labels of the parts |
| StageHistory.DurationParts | main.py:413-420 | the kept parts of `_fmt_tdelta`: non-zero days and hours, and minutes when non-zero or alone |
| StageHistory.FmtTdelta | main.py:412-421 | `_fmt_tdelta`; properties in `StageHistory.FmtTdeltaNonEmpty`, `StageHistory.FmtTdeltaNonPositive` and `StageHistory.FmtTdeltaReadsBack` |
| StageHistory.FmtTdeltaNonEmpty | main.py:412-421 | `_fmt_tdelta` never returns an empty string |
| StageHistory.FmtTdeltaNonPositive | main.py:412-421 | zero and negative durations render as `0 хв` |
| StageHistory.FmtTdeltaReadsBack | main.py:412-421 | the rendered text reads back as the clamped total cut down to whole minutes |
| StageHistory.LeadingDigits | main.py:400 | the head run of `\d+` is all digits and maximal |
| StageHistory.ParseCategory | main.py:400-402 | the category of a stage id matching `^C(\d+):`, or None |
| StageHistory.ParseCategoryOfStageId | main.py:400-402 | `C<n>:...` matches `^C(\d+):` with category `n` |
| StageHistory.ParseCategoryMatch | main.py:400-402 | a stage id with a category starts with `C`, its maximal digit run and `:`, and the category is that run read as a number |
| StageHistory.ParseCategoryOfPrefix | main.py:400-402 | any `C`, digit run, `:` prefix gives the category of its digits |
| StageHistory.ParseCategoryIff | main.py:400-402 | `ParseCategory(s) == Some(n)` exactly when `s` starts with `C`, a digit run reading `n`, then `:` |
| StageHistory.StageLabel | main.py:397-406 | what `_stage_name_by_sid` returns, given the category stage maps |
| StageHistory.StageLabelOfCategory | main.py:400-406 | the label of `C<n>:...` is its name in category `n`'s map, or the id itself |
| StageHistory.StageNameCache.constructor | main.py:395 | the cache starts empty and consistent |
| StageHistory.StageNameCache.StageName | main.py:397-406 | the cached lookup returns the same label as the uncached one; the cache gains exactly the needed category; a missing category is fetched once and a cached one is not fetched |

## Left out

- Telegram handling (`handle_check`, `on_text`, `on_check_cmd`, `main`), reply formatting and logging: user interface and transport.
- Drive and Bitrix24 clients (`build_drive`, `drive_search`, `get_view_link`, `list_child_folders`, `b24_post`, the contact, deal and user lookups, `get_stage_map_for_category`): network I/O. Each Drive query is an input listing. The stage-map fetch is an abstract function that is assumed to return the same map every time it is called.
- Pagination loops, query-string syntax and escaping: each listing already holds all pages. The `'` filter on the phone patterns is kept out of the query model; `Resolver.PhonePatternsHaveNoQuote` shows it drops nothing.
- `find_plan_file`, `parse_http_error` and `_assert_required_env`: Drive I/O, error-body decoding and environment checks.
- Unicode semantics:
  - NFKC normalisation is taken as the identity.
  - `upper`/`lower` are per-character maps on ASCII Latin and Cyrillic letters only.
  - `\d` matches ASCII digits only.
  - Whitespace is the character set of `str.isspace()`, each character standing alone.
- Dates and clocks:
  - Timestamps are whole seconds, so `_parse_iso`, `timedelta.total_seconds()` as a float and `datetime.now` are not modelled.
  - `now` is a parameter of `StageHistory.ComputeStageSegments`.
  - Sorting by the ISO text of `CREATED_TIME` is modelled as sorting by the integer time, which agrees for timestamps of one format and zone.
  - A record without `CREATED_TIME` is not modelled.
- `get_deal_stage_history` inputs:
  - The `asc` flag only changes the server-side order of the fetched records, which the model takes as the input order.
  - Extracting `items` from the response is not modelled.
  - The limit is taken as non-negative.
- Segments: the model carries the stage id and the times of each record, not the whole record dict.
- `StageHistory.StageNameCache.StageName`: the global dict is a field of one cache object; sharing it between threads is not modelled.
