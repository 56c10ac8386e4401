/**
 * The deal stage-history reducer: the stable sort and consecutive-stage dedup of
 * `get_deal_stage_history`, `compute_stage_segments`, `_fmt_tdelta`, and the category
 * stage-name cache behind `_stage_name_by_sid`. Timestamps are integer seconds.
 */
module StageHistory {
  import opened Wrappers
  import opened Text

  /** A stage-history record: its `STAGE_ID` (possibly missing) and its `CREATED_TIME`. */
  datatype StageRow = StageRow(stageId: Option<string>, createdTime: int)

  // ---------------------------------------------------------------------------
  // items.sort(key=lambda r: r.get("CREATED_TIME", ""))
  // ---------------------------------------------------------------------------

  predicate SortedByTime(rows: seq<StageRow>) {
    forall i, j :: 0 <= i < j < |rows| ==> rows[i].createdTime <= rows[j].createdTime
  }

  /** Inserts `x` before the first row that is strictly later, so earlier equal rows stay first. */
  function Insert(x: StageRow, rows: seq<StageRow>): (r: seq<StageRow>)
    ensures multiset(r) == multiset(rows) + multiset{x}
    ensures |r| == |rows| + 1
  {
    if rows == [] then [x]
    else if x.createdTime < rows[0].createdTime then [x] + rows
    else
      assert rows == [rows[0]] + rows[1..];
      [rows[0]] + Insert(x, rows[1..])
  }

  /** Python's stable `list.sort` by creation time, as an insertion sort. */
  function SortByTime(rows: seq<StageRow>): seq<StageRow>
    decreases |rows|
  {
    if rows == [] then [] else Insert(rows[|rows| - 1], SortByTime(rows[..|rows| - 1]))
  }

  lemma SortedTail(rows: seq<StageRow>)
    requires rows != [] && SortedByTime(rows)
    ensures SortedByTime(rows[1..])
    ensures forall k :: 0 <= k < |rows[1..]| ==> rows[0].createdTime <= rows[1..][k].createdTime
  {
    var rest := rows[1..];
    forall i, j | 0 <= i < j < |rest|
      ensures rest[i].createdTime <= rest[j].createdTime
    {
      assert rest[i] == rows[i + 1] && rest[j] == rows[j + 1];
    }
    forall k | 0 <= k < |rest|
      ensures rows[0].createdTime <= rest[k].createdTime
    {
      assert rest[k] == rows[k + 1];
    }
  }

  /** Every row of `Insert(x, rows)` is `x` or a row of `rows`. */
  lemma InsertMember(x: StageRow, rows: seq<StageRow>, r: StageRow)
    requires r in Insert(x, rows)
    ensures r == x || r in rows
  {
    assert r in multiset(Insert(x, rows));
  }

  /** A row no later than every row of a sorted list can go in front of it. */
  lemma ConsSorted(h: StageRow, rows: seq<StageRow>)
    requires SortedByTime(rows)
    requires forall k :: 0 <= k < |rows| ==> h.createdTime <= rows[k].createdTime
    ensures SortedByTime([h] + rows)
  {
    var res := [h] + rows;
    forall i, j | 0 <= i < j < |res|
      ensures res[i].createdTime <= res[j].createdTime
    {
      assert res[j] == rows[j - 1];
      if i > 0 {
        assert res[i] == rows[i - 1];
      }
    }
  }

  lemma {:induction false} InsertSorted(x: StageRow, rows: seq<StageRow>)
    requires SortedByTime(rows)
    ensures SortedByTime(Insert(x, rows))
    decreases |rows|
  {
    if rows == [] {
    } else if x.createdTime < rows[0].createdTime {
      forall k | 0 <= k < |rows|
        ensures x.createdTime <= rows[k].createdTime
      {
        assert rows[0].createdTime <= rows[k].createdTime;
      }
      ConsSorted(x, rows);
    } else {
      var rest := rows[1..];
      SortedTail(rows);
      InsertSorted(x, rest);
      var tail := Insert(x, rest);
      forall k | 0 <= k < |tail|
        ensures rows[0].createdTime <= tail[k].createdTime
      {
        InsertMember(x, rest, tail[k]);
        if tail[k] != x {
          var m :| 0 <= m < |rest| && rest[m] == tail[k];
        }
      }
      ConsSorted(rows[0], tail);
    }
  }

  /** The sort yields a time-ordered permutation of its input. */
  lemma {:induction false} SortByTimeCorrect(rows: seq<StageRow>)
    ensures SortedByTime(SortByTime(rows))
    ensures multiset(SortByTime(rows)) == multiset(rows)
    decreases |rows|
  {
    if rows != [] {
      var init := rows[..|rows| - 1];
      SortByTimeCorrect(init);
      InsertSorted(rows[|rows| - 1], SortByTime(init));
      assert rows == init + [rows[|rows| - 1]];
    }
  }

  /** The rows created at time `t`, in order. */
  function AtTime(rows: seq<StageRow>, t: int): seq<StageRow>
    decreases |rows|
  {
    if rows == [] then []
    else (if rows[0].createdTime == t then [rows[0]] else []) + AtTime(rows[1..], t)
  }

  lemma {:induction false} AtTimeAppend(a: seq<StageRow>, b: seq<StageRow>, t: int)
    ensures AtTime(a + b, t) == AtTime(a, t) + AtTime(b, t)
    decreases |a|
  {
    if a == [] {
      assert a + b == b;
    } else {
      var h: seq<StageRow> := if a[0].createdTime == t then [a[0]] else [];
      assert (a + b)[0] == a[0];
      assert (a + b)[1..] == a[1..] + b;
      assert AtTime(a + b, t) == h + AtTime(a[1..] + b, t);
      AtTimeAppend(a[1..], b, t);
      assert AtTime(a, t) == h + AtTime(a[1..], t);
    }
  }

  lemma {:induction false} AtTimeOfLater(rows: seq<StageRow>, t: int)
    requires forall r | r in rows :: r.createdTime > t
    ensures AtTime(rows, t) == []
    decreases |rows|
  {
    if rows != [] {
      assert rows[0] in rows;
      assert forall r | r in rows[1..] :: r in rows;
      AtTimeOfLater(rows[1..], t);
    }
  }

  lemma {:induction false} AtTimeInsert(x: StageRow, rows: seq<StageRow>, t: int)
    requires SortedByTime(rows)
    ensures AtTime(Insert(x, rows), t) == AtTime(rows, t) + (if x.createdTime == t then [x] else [])
    decreases |rows|
  {
    if rows == [] {
      assert AtTime([x], t) == (if x.createdTime == t then [x] else []) + AtTime([], t);
    } else if x.createdTime < rows[0].createdTime {
      assert ([x] + rows)[1..] == rows;
      if x.createdTime == t {
        forall r | r in rows
          ensures r.createdTime > t
        {
          var k :| 0 <= k < |rows| && rows[k] == r;
          assert rows[0].createdTime <= rows[k].createdTime;
        }
        AtTimeOfLater(rows, t);
      }
    } else {
      var rest := rows[1..];
      assert SortedByTime(rest) by {
        forall i, j | 0 <= i < j < |rest|
          ensures rest[i].createdTime <= rest[j].createdTime
        {
          assert rest[i] == rows[i + 1] && rest[j] == rows[j + 1];
        }
      }
      AtTimeInsert(x, rest, t);
      assert ([rows[0]] + Insert(x, rest))[1..] == Insert(x, rest);
    }
  }

  lemma AtTimeSnoc(rows: seq<StageRow>, t: int)
    requires rows != []
    ensures var x := rows[|rows| - 1];
      AtTime(rows, t) == AtTime(rows[..|rows| - 1], t) + (if x.createdTime == t then [x] else [])
  {
    var x := rows[|rows| - 1];
    assert rows == rows[..|rows| - 1] + [x];
    AtTimeAppend(rows[..|rows| - 1], [x], t);
    assert [x][1..] == [];
  }

  lemma AtTimeSortStep(rows: seq<StageRow>, t: int)
    requires rows != []
    ensures var x := rows[|rows| - 1];
      AtTime(SortByTime(rows), t) == AtTime(SortByTime(rows[..|rows| - 1]), t) + (if x.createdTime == t then [x] else [])
  {
    var init := rows[..|rows| - 1];
    SortByTimeCorrect(init);
    AtTimeInsert(rows[|rows| - 1], SortByTime(init), t);
  }

  /** The sort is stable: rows created at the same time keep their input order. */
  lemma {:induction false} SortByTimeStable(rows: seq<StageRow>, t: int)
    ensures AtTime(SortByTime(rows), t) == AtTime(rows, t)
    decreases |rows|
  {
    if rows != [] {
      AtTimeSortStep(rows, t);
      SortByTimeStable(rows[..|rows| - 1], t);
      AtTimeSnoc(rows, t);
    }
  }

  // ---------------------------------------------------------------------------
  // The dedup loop of get_deal_stage_history
  // ---------------------------------------------------------------------------

  /** The stage id of the row before position `k`, or `None` before the first row. */
  function PrevId(rows: seq<StageRow>, k: nat): Option<string>
    requires k <= |rows|
  {
    if k == 0 then None else rows[k - 1].stageId
  }

  /** The rows that start a run: those whose stage id differs from the previous row's. */
  function RunStarts(rows: seq<StageRow>): seq<StageRow>
    decreases |rows|
  {
    if rows == [] then []
    else
      var k := |rows| - 1;
      RunStarts(rows[..k]) + (if rows[k].stageId != PrevId(rows, k) then [rows[k]] else [])
  }

  /** The loop `if sid == prev_sid: continue; out.append(r); prev_sid = sid`. */
  method DedupConsecutive(items: seq<StageRow>) returns (out: seq<StageRow>)
    ensures out == RunStarts(items)
  {
    out := [];
    var prevSid: Option<string> := None;
    for i := 0 to |items|
      invariant out == RunStarts(items[..i])
      invariant prevSid == PrevId(items, i)
    {
      assert items[..i + 1][..i] == items[..i];
      assert PrevId(items[..i + 1], i) == PrevId(items, i);
      var sid := items[i].stageId;
      if sid == prevSid {
        continue;
      }
      out := out + [items[i]];
      prevSid := sid;
    }
    assert items[..|items|] == items;
  }

  /** The stage id of the last retained row, `None` when none is retained. */
  function LastRetainedId(out: seq<StageRow>): Option<string> {
    if out == [] then None else out[|out| - 1].stageId
  }

  /** The last retained row always has the stage id of the last input row. */
  lemma {:induction false} RunStartsLast(rows: seq<StageRow>)
    requires rows != []
    ensures LastRetainedId(RunStarts(rows)) == rows[|rows| - 1].stageId
    decreases |rows|
  {
    var k := |rows| - 1;
    if k > 0 {
      RunStartsLast(rows[..k]);
    }
  }

  /** No two neighbouring rows share a stage id, and the first row has one. */
  predicate NoRepeatedStage(rows: seq<StageRow>) {
    && (forall i :: 0 <= i < |rows| - 1 ==> rows[i].stageId != rows[i + 1].stageId)
    && (rows != [] ==> rows[0].stageId != None)
  }

  /** The last step of `RunStarts`, with the prefix named. */
  lemma RunStartsSnoc(rows: seq<StageRow>)
    requires rows != []
    ensures var k := |rows| - 1;
      RunStarts(rows) == RunStarts(rows[..k]) + (if rows[k].stageId != PrevId(rows, k) then [rows[k]] else [])
  {
  }

  lemma {:induction false} RunStartsNoRepeat(rows: seq<StageRow>)
    ensures NoRepeatedStage(RunStarts(rows))
    decreases |rows|
  {
    if rows != [] {
      var k := |rows| - 1;
      var init := rows[..k];
      RunStartsNoRepeat(init);
      RunStartsSnoc(rows);
      var prev := RunStarts(init);
      if rows[k].stageId != PrevId(rows, k) {
        var out := prev + [rows[k]];
        if k > 0 {
          RunStartsLast(init);
        }
        forall i | 0 <= i < |out| - 1
          ensures out[i].stageId != out[i + 1].stageId
        {
          if i < |prev| - 1 {
            assert out[i] == prev[i] && out[i + 1] == prev[i + 1];
          }
        }
      }
    }
  }

  lemma {:induction false} RunStartsFromInput(rows: seq<StageRow>)
    ensures forall r | r in RunStarts(rows) :: r in rows
    decreases |rows|
  {
    if rows != [] {
      var k := |rows| - 1;
      var init := rows[..k];
      RunStartsFromInput(init);
      RunStartsSnoc(rows);
      assert forall r | r in init :: r in rows;
    }
  }

  lemma {:induction false} RunStartsSorted(rows: seq<StageRow>)
    requires SortedByTime(rows)
    ensures SortedByTime(RunStarts(rows))
    decreases |rows|
  {
    if rows != [] {
      var k := |rows| - 1;
      var init := rows[..k];
      assert SortedByTime(init);
      RunStartsSorted(init);
      RunStartsFromInput(init);
      RunStartsSnoc(rows);
      var prev := RunStarts(init);
      if rows[k].stageId != PrevId(rows, k) {
        var out := prev + [rows[k]];
        forall i, j | 0 <= i < j < |out|
          ensures out[i].createdTime <= out[j].createdTime
        {
          assert out[i] == prev[i];
          if j < |prev| {
            assert out[j] == prev[j];
          } else {
            assert prev[i] in init;
            var m :| 0 <= m < |init| && init[m] == prev[i];
            assert rows[m] == out[i];
          }
        }
      }
    }
  }

  /**
   * No two adjacent retained rows share a stage id, the first retained row has one, every
   * retained row comes from the input, and time order is kept.
   */
  lemma RunStartsProperties(rows: seq<StageRow>)
    ensures var out := RunStarts(rows);
      && (forall i :: 0 <= i < |out| - 1 ==> out[i].stageId != out[i + 1].stageId)
      && (out != [] ==> out[0].stageId != None)
      && (forall r | r in out :: r in rows)
      && (SortedByTime(rows) ==> SortedByTime(out))
  {
    RunStartsNoRepeat(rows);
    RunStartsFromInput(rows);
    if SortedByTime(rows) {
      RunStartsSorted(rows);
    }
  }

  /** A list with no repeated neighbours and a first row that has a stage id is left alone. */
  lemma {:induction false} RunStartsOfDistinct(rows: seq<StageRow>)
    requires NoRepeatedStage(rows)
    ensures RunStarts(rows) == rows
    decreases |rows|
  {
    if rows != [] {
      var k := |rows| - 1;
      var init := rows[..k];
      forall i | 0 <= i < |init| - 1
        ensures init[i].stageId != init[i + 1].stageId
      {
        assert init[i] == rows[i] && init[i + 1] == rows[i + 1];
      }
      RunStartsOfDistinct(init);
      RunStartsSnoc(rows);
      if k > 0 {
        assert rows[k - 1].stageId != rows[k].stageId;
      }
      assert rows == init + [rows[k]];
    }
  }

  /** Dropping repeated stages a second time drops nothing more. */
  lemma RunStartsIdempotent(rows: seq<StageRow>)
    ensures RunStarts(RunStarts(rows)) == RunStarts(rows)
  {
    RunStartsNoRepeat(rows);
    RunStartsOfDistinct(RunStarts(rows));
  }

  /** `items[:limit]` for a non-negative limit. */
  function Take(rows: seq<StageRow>, limit: nat): seq<StageRow> {
    if limit <= |rows| then rows[..limit] else rows
  }

  /**
   * `get_deal_stage_history(deal_id, asc, limit)` once the records are fetched: the first
   * `limit` records, stably sorted by creation time, with repeated stages dropped.
   */
  method GetDealStageHistory(fetched: seq<StageRow>, limit: nat) returns (out: seq<StageRow>)
    ensures out == RunStarts(SortByTime(Take(fetched, limit)))
    ensures SortedByTime(out)
    ensures forall i :: 0 <= i < |out| - 1 ==> out[i].stageId != out[i + 1].stageId
  {
    var items := Take(fetched, limit);
    items := SortByTime(items);
    out := DedupConsecutive(items);
    SortByTimeCorrect(Take(fetched, limit));
    RunStartsProperties(items);
  }

  // ---------------------------------------------------------------------------
  // compute_stage_segments
  // ---------------------------------------------------------------------------

  /** A stage segment: the stage, when it started and ended, and `end - start`. */
  datatype Segment = Segment(stageId: Option<string>, start: int, end: int, duration: int)

  /** Segments that follow each other without gap, the last ending at `now`. */
  predicate Chained(segs: seq<Segment>, now: int) {
    && (forall i :: 0 <= i < |segs| ==> segs[i].duration == segs[i].end - segs[i].start)
    && (forall i :: 0 <= i < |segs| - 1 ==> segs[i].end == segs[i + 1].start)
    && (segs != [] ==> segs[|segs| - 1].end == now)
  }

  /** `compute_stage_segments(rows)` with the current time as a parameter. */
  method ComputeStageSegments(rows: seq<StageRow>, now: int) returns (segs: seq<Segment>)
    ensures |segs| == |rows|
    ensures forall i :: 0 <= i < |rows| ==> segs[i].stageId == rows[i].stageId && segs[i].start == rows[i].createdTime
    ensures Chained(segs, now)
  {
    segs := [];
    for i := 0 to |rows|
      invariant |segs| == i
      invariant forall j :: 0 <= j < i ==> segs[j].stageId == rows[j].stageId && segs[j].start == rows[j].createdTime
      invariant forall j :: 0 <= j < i ==> segs[j].duration == segs[j].end - segs[j].start
      invariant forall j :: 0 <= j < i ==> segs[j].end == if j + 1 < |rows| then rows[j + 1].createdTime else now
    {
      var start := rows[i].createdTime;
      var end := if i + 1 < |rows| then rows[i + 1].createdTime else now;
      segs := segs + [Segment(rows[i].stageId, start, end, end - start)];
    }
  }

  function TotalDuration(segs: seq<Segment>): int {
    if segs == [] then 0 else segs[0].duration + TotalDuration(segs[1..])
  }

  /** The durations of chained segments add up to the time from the first start to `now`. */
  lemma {:induction false} ChainedTotal(segs: seq<Segment>, now: int)
    requires Chained(segs, now) && segs != []
    ensures TotalDuration(segs) == now - segs[0].start
    decreases |segs|
  {
    if |segs| > 1 {
      var rest := segs[1..];
      assert Chained(rest, now) by {
        assert forall i :: 0 <= i < |rest| ==> rest[i] == segs[i + 1];
      }
      ChainedTotal(rest, now);
    }
  }

  /**
   * Segments over time-ordered rows never run backwards, as long as `now` is not before
   * the last row; otherwise the last duration is negative, as nothing clamps it here.
   */
  lemma ChainedDurationSign(rows: seq<StageRow>, segs: seq<Segment>, now: int)
    requires |segs| == |rows| && rows != []
    requires forall i :: 0 <= i < |rows| ==> segs[i].start == rows[i].createdTime
    requires Chained(segs, now) && SortedByTime(rows)
    ensures now >= rows[|rows| - 1].createdTime ==> forall i :: 0 <= i < |segs| ==> segs[i].duration >= 0
    ensures now < rows[|rows| - 1].createdTime ==> segs[|segs| - 1].duration < 0
  {
    if now >= rows[|rows| - 1].createdTime {
      forall i | 0 <= i < |segs|
        ensures segs[i].duration >= 0
      {
        if i + 1 < |segs| {
          assert segs[i].end == segs[i + 1].start;
        }
      }
    }
  }

  // ---------------------------------------------------------------------------
  // _fmt_tdelta
  // ---------------------------------------------------------------------------

  const SecondsPerDay: nat := 86400
  const SecondsPerHour: nat := 3600
  const SecondsPerMinute: nat := 60

  const DayLabel: string := "\U{434}"
  const HourLabel: string := "\U{433}\U{43E}\U{434}"
  const MinuteLabel: string := "\U{445}\U{432}"

  function DigitChar(k: nat): (c: char)
    requires k < 10
    ensures IsDigit(c)
  {
    ('0' as int + k) as char
  }

  /** `str(n)` for a non-negative integer. */
  function NatToString(n: nat): (r: string)
    ensures r != [] && AllDigits(r)
    decreases n
  {
    if n < 10 then [DigitChar(n)] else NatToString(n / 10) + [DigitChar(n % 10)]
  }

  /** `int(s)` for a string of decimal digits. */
  function ParseNat(s: string): nat
    requires AllDigits(s)
    decreases |s|
  {
    if s == [] then 0
    else
      assert forall c | c in s[..|s| - 1] :: c in s;
      assert s[|s| - 1] in s;
      ParseNat(s[..|s| - 1]) * 10 + (s[|s| - 1] as int - '0' as int)
  }

  /** Reading a rendered number back gives the number. */
  lemma {:induction false} ParseNatToString(n: nat)
    ensures ParseNat(NatToString(n)) == n
    decreases n
  {
    if n >= 10 {
      ParseNatToString(n / 10);
      var s := NatToString(n);
      assert s[..|s| - 1] == NatToString(n / 10);
    }
  }

  /** One rendered part: a count and its unit label. */
  datatype Part = Part(count: nat, unitName: string)

  /** The parts `_fmt_tdelta` keeps for a clamped total: non-zero days and hours, then minutes unless another part exists. */
  function DurationParts(total: nat): seq<Part> {
    var d := total / SecondsPerDay;
    var h := total % SecondsPerDay / SecondsPerHour;
    var m := total % SecondsPerDay % SecondsPerHour / SecondsPerMinute;
    var parts := (if d != 0 then [Part(d, DayLabel)] else []) + (if h != 0 then [Part(h, HourLabel)] else []);
    if m != 0 || parts == [] then parts + [Part(m, MinuteLabel)] else parts
  }

  function RenderPart(p: Part): string {
    NatToString(p.count) + " " + p.unitName
  }

  function RenderParts(ps: seq<Part>): (r: seq<string>)
    ensures |r| == |ps| && forall i :: 0 <= i < |ps| ==> r[i] == RenderPart(ps[i])
  {
    seq(|ps|, i requires 0 <= i < |ps| => RenderPart(ps[i]))
  }

  /** `_fmt_tdelta(td)` for a duration of `seconds` whole seconds. */
  function FmtTdelta(seconds: int): string {
    var total: nat := if seconds > 0 then seconds else 0;
    Join(RenderParts(DurationParts(total)), " ")
  }

  /** The seconds one unit label stands for. */
  function UnitSeconds(unitName: string): Option<nat> {
    if unitName == DayLabel then Some(SecondsPerDay)
    else if unitName == HourLabel then Some(SecondsPerHour)
    else if unitName == MinuteLabel then Some(SecondsPerMinute)
    else None
  }

  /** Reads `count label count label ...` back into seconds. */
  function ReadDuration(words: seq<string>): Option<int>
    decreases |words|
  {
    if words == [] then Some(0)
    else if |words| == 1 || !AllDigits(words[0]) || words[0] == "" || UnitSeconds(words[1]).None? then None
    else
      match ReadDuration(words[2..])
      case None => None
      case Some(rest) => Some(ParseNat(words[0]) * UnitSeconds(words[1]).value + rest)
  }

  /** The words of rendered parts: each count followed by its label. */
  function PartWords(ps: seq<Part>): seq<string>
    decreases |ps|
  {
    if ps == [] then [] else [NatToString(ps[0].count), ps[0].unitName] + PartWords(ps[1..])
  }

  lemma {:induction false} JoinRenderParts(ps: seq<Part>)
    ensures Join(RenderParts(ps), " ") == Join(PartWords(ps), " ")
    decreases |ps|
  {
    if ps != [] {
      var a, b := NatToString(ps[0].count), ps[0].unitName;
      assert Join([a, b], " ") == a + " " + b by {
        assert [a, b][1..] == [b];
      }
      JoinRenderParts(ps[1..]);
      JoinAppend([a, b], PartWords(ps[1..]), " ");
      if |ps| > 1 {
        assert RenderParts(ps)[1..] == RenderParts(ps[1..]);
        assert PartWords(ps[1..]) != [];
      } else {
        assert PartWords(ps[1..]) == [];
      }
    }
  }

  lemma {:induction false} ReadPartWords(ps: seq<Part>)
    requires forall p | p in ps :: UnitSeconds(p.unitName).Some?
    ensures ReadDuration(PartWords(ps)) == Some(PartsValue(ps))
    decreases |ps|
  {
    if ps != [] {
      assert ps[0] in ps;
      assert forall p | p in ps[1..] :: p in ps;
      ReadPartWords(ps[1..]);
      ParseNatToString(ps[0].count);
      assert PartWords(ps)[2..] == PartWords(ps[1..]);
    }
  }

  function PartsValue(ps: seq<Part>): int
    decreases |ps|
  {
    if ps == [] then 0
    else
      var u := UnitSeconds(ps[0].unitName);
      (if u.Some? then ps[0].count * u.value else 0) + PartsValue(ps[1..])
  }

  lemma DivMod(a: nat, b: nat)
    requires b > 0
    ensures a == a / b * b + a % b && 0 <= a % b < b
  {
  }

  lemma ModOfMultiplePlus(k: nat, s: nat)
    requires s < SecondsPerMinute
    ensures (k * SecondsPerMinute + s) % SecondsPerMinute == s
  {
  }

  /** The divmod chain: days, hours below 24, minutes below 60, and the left-over seconds cut off. */
  lemma DivmodChain(total: nat)
    ensures var d := total / SecondsPerDay;
      var h := total % SecondsPerDay / SecondsPerHour;
      var m := total % SecondsPerDay % SecondsPerHour / SecondsPerMinute;
      && h < 24 && m < 60
      && d * SecondsPerDay + h * SecondsPerHour + m * SecondsPerMinute == total - total % SecondsPerMinute
  {
    var d := total / SecondsPerDay;
    var r1 := total % SecondsPerDay;
    var h := r1 / SecondsPerHour;
    var r2 := r1 % SecondsPerHour;
    var m := r2 / SecondsPerMinute;
    var s := r2 % SecondsPerMinute;
    DivMod(total, SecondsPerDay);
    DivMod(r1, SecondsPerHour);
    DivMod(r2, SecondsPerMinute);
    var k: nat := d * 1440 + h * 60 + m;
    assert total == k * SecondsPerMinute + s;
    ModOfMultiplePlus(k, s);
  }

  /** The rendered parts are non-empty words without spaces, each with a known unit. */
  lemma PartsWords(total: nat)
    ensures forall w | w in PartWords(DurationParts(total)) :: w != "" && NoSpace(w)
    ensures forall p | p in DurationParts(total) :: UnitSeconds(p.unitName).Some?
  {
    var ps := DurationParts(total);
    forall p | p in ps
      ensures NatToString(p.count) != "" && NoSpace(NatToString(p.count)) && p.unitName != "" && NoSpace(p.unitName)
    {
    }
    PartWordsChars(ps);
  }

  /** The parts add up to the divmod chain's days, hours and minutes. */
  lemma PartsValueOfDivmod(total: nat)
    ensures PartsValue(DurationParts(total)) ==
      total / SecondsPerDay * SecondsPerDay
      + total % SecondsPerDay / SecondsPerHour * SecondsPerHour
      + total % SecondsPerDay % SecondsPerHour / SecondsPerMinute * SecondsPerMinute
  {
    var d := total / SecondsPerDay;
    var h := total % SecondsPerDay / SecondsPerHour;
    var m := total % SecondsPerDay % SecondsPerHour / SecondsPerMinute;
    var pd: seq<Part> := if d != 0 then [Part(d, DayLabel)] else [];
    var ph: seq<Part> := if h != 0 then [Part(h, HourLabel)] else [];
    PartsValueAppend(pd, ph);
    PartsValueAppend(pd + ph, [Part(m, MinuteLabel)]);
  }

  /** The parts are worth the total cut down to whole minutes. */
  lemma PartsValueTotal(total: nat)
    ensures PartsValue(DurationParts(total)) == total - total % SecondsPerMinute
  {
    PartsValueOfDivmod(total);
    DivmodChain(total);
  }

  lemma {:induction false} PartWordsChars(ps: seq<Part>)
    requires forall p | p in ps :: NatToString(p.count) != "" && NoSpace(NatToString(p.count)) && p.unitName != "" && NoSpace(p.unitName)
    ensures forall w | w in PartWords(ps) :: w != "" && NoSpace(w)
    decreases |ps|
  {
    if ps != [] {
      assert ps[0] in ps;
      assert forall p | p in ps[1..] :: p in ps;
      PartWordsChars(ps[1..]);
    }
  }

  lemma {:induction false} PartsValueAppend(a: seq<Part>, b: seq<Part>)
    ensures PartsValue(a + b) == PartsValue(a) + PartsValue(b)
    decreases |a|
  {
    if a == [] {
      assert a + b == b;
    } else {
      assert (a + b)[0] == a[0];
      assert (a + b)[1..] == a[1..] + b;
      PartsValueAppend(a[1..], b);
    }
  }

  /** The words of the rendered text are exactly the counts and labels of the parts. */
  lemma RenderedWords(total: nat)
    ensures NonEmpty(Split(Join(RenderParts(DurationParts(total)), " "), ' ')) == PartWords(DurationParts(total))
  {
    var ps := DurationParts(total);
    JoinRenderParts(ps);
    PartsWords(total);
    WordsOfJoin(PartWords(ps));
  }

  /** `_fmt_tdelta` never yields an empty string. */
  lemma FmtTdeltaNonEmpty(seconds: int)
    ensures FmtTdelta(seconds) != ""
  {
    var total: nat := if seconds > 0 then seconds else 0;
    var ps := DurationParts(total);
    assert ps != [];
    JoinNonEmpty(RenderParts(ps), " ");
  }

  /** Zero and negative durations render as `"0 хв"`. */
  lemma FmtTdeltaNonPositive(seconds: int)
    requires seconds <= 0
    ensures FmtTdelta(seconds) == "0 " + MinuteLabel
  {
    var ps := DurationParts(0);
    assert ps == [Part(0, MinuteLabel)];
    assert NatToString(0) == "0";
    assert RenderPart(ps[0]) == "0 " + MinuteLabel;
    assert RenderParts(ps) == [RenderPart(ps[0])];
  }

  lemma ReadsBackTotal(total: nat)
    ensures ReadDuration(NonEmpty(Split(Join(RenderParts(DurationParts(total)), " "), ' ')))
      == Some(total - total % SecondsPerMinute)
  {
    RenderedWords(total);
    PartsWords(total);
    ReadPartWords(DurationParts(total));
    PartsValueTotal(total);
  }

  /** The rendered text reads back as the clamped duration cut down to whole minutes. */
  lemma FmtTdeltaReadsBack(seconds: int)
    ensures var total := if seconds > 0 then seconds else 0;
      ReadDuration(NonEmpty(Split(FmtTdelta(seconds), ' '))) == Some(total - total % SecondsPerMinute)
  {
    var total: nat := if seconds > 0 then seconds else 0;
    assert FmtTdelta(seconds) == Join(RenderParts(DurationParts(total)), " ");
    ReadsBackTotal(total);
  }

  // ---------------------------------------------------------------------------
  // _stage_name_by_sid with _STAGE_MAP_CACHE
  // ---------------------------------------------------------------------------

  /** The length of the run of digits at the head of `s`. */
  function LeadingDigits(s: string): (n: nat)
    ensures n <= |s|
    ensures forall i :: 0 <= i < n ==> IsDigit(s[i])
    ensures n == |s| || !IsDigit(s[n])
  {
    if s != [] && IsDigit(s[0]) then 1 + LeadingDigits(s[1..]) else 0
  }

  /** The category of a stage id matching `^C(\\d+):`, if it matches. */
  function ParseCategory(stageId: string): Option<nat> {
    if stageId == [] || stageId[0] != 'C' then None
    else
      var n := LeadingDigits(stageId[1..]);
      if n == 0 || 1 + n >= |stageId| || stageId[1 + n] != ':' then None
      else
        var digits := stageId[1..1 + n];
        assert forall c | c in digits :: IsDigit(c) by {
          assert forall i :: 0 <= i < n ==> digits[i] == stageId[1..][i];
        }
        Some(ParseNat(digits))
  }

  lemma LeadingDigitsOfNumber(n: nat, rest: string)
    ensures LeadingDigits(NatToString(n) + ":" + rest) == |NatToString(n)|
  {
    var digits := NatToString(n);
    LeadingDigitsPrefix(digits, ":" + rest);
    assert digits + ":" + rest == digits + (":" + rest);
  }

  lemma {:induction false} LeadingDigitsPrefix(digits: string, tail: string)
    requires AllDigits(digits) && tail != [] && !IsDigit(tail[0])
    ensures LeadingDigits(digits + tail) == |digits|
    decreases |digits|
  {
    if digits == [] {
      assert digits + tail == tail;
    } else {
      assert (digits + tail)[1..] == digits[1..] + tail;
      assert digits[0] in digits;
      assert forall c | c in digits[1..] :: c in digits;
      LeadingDigitsPrefix(digits[1..], tail);
    }
  }

  /** Stage ids of the form `C<n>:...` belong to category `n`. */
  lemma ParseCategoryOfStageId(n: nat, rest: string)
    ensures ParseCategory("C" + NatToString(n) + ":" + rest) == Some(n)
  {
    var digits := NatToString(n);
    var s := "C" + digits + ":" + rest;
    assert s[1..] == digits + ":" + rest;
    LeadingDigitsOfNumber(n, rest);
    assert s[1 + |digits|] == ':';
    assert s[1..1 + |digits|] == digits;
    ParseNatToString(n);
  }

  /** `s` starts with `C`, then the `k` digits `s[1..1 + k]` (at least one), then `:`. */
  predicate CategoryPrefix(s: string, k: nat) {
    1 <= k && 1 + k < |s| && s[0] == 'C' && AllDigits(s[1..1 + k]) && s[1 + k] == ':'
  }

  /** A parsed category comes from a `C<digits>:` prefix. */
  lemma ParseCategoryMatch(s: string)
    requires ParseCategory(s).Some?
    ensures CategoryPrefix(s, LeadingDigits(s[1..]))
    ensures ParseCategory(s) == Some(ParseNat(s[1..1 + LeadingDigits(s[1..])]))
  {
    var k := LeadingDigits(s[1..]);
    assert forall i :: 0 <= i < k ==> s[1..1 + k][i] == s[1..][i];
  }

  /** A `C<digits>:` prefix is parsed, and its digits are the category. */
  lemma ParseCategoryOfPrefix(s: string, k: nat)
    requires CategoryPrefix(s, k)
    ensures ParseCategory(s) == Some(ParseNat(s[1..1 + k]))
  {
    assert s[1..] == s[1..1 + k] + s[1 + k..];
    LeadingDigitsPrefix(s[1..1 + k], s[1 + k..]);
  }

  /**
   * `re.match(r"^C(\d+):", stage_id)` is exact: the category is `n` precisely when the id is
   * `C`, a non-empty run of digits reading `n`, then `:`.
   */
  lemma ParseCategoryIff(s: string, n: nat)
    ensures ParseCategory(s) == Some(n) <==> exists k :: CategoryPrefix(s, k) && ParseNat(s[1..1 + k]) == n
  {
    if ParseCategory(s) == Some(n) {
      ParseCategoryMatch(s);
    }
    if exists k :: CategoryPrefix(s, k) && ParseNat(s[1..1 + k]) == n {
      var k :| CategoryPrefix(s, k) && ParseNat(s[1..1 + k]) == n;
      ParseCategoryOfPrefix(s, k);
    }
  }

  /** What `_stage_name_by_sid(stage_id)` returns, given the category stage maps. */
  function StageLabel(stageId: Option<string>, stageMaps: nat -> map<string, string>): string {
    match stageId
    case None => "\U{2014}"
    case Some(sid) =>
      if sid == "" then "\U{2014}"
      else match ParseCategory(sid)
        case None => sid
        case Some(cat) => if sid in stageMaps(cat) then stageMaps(cat)[sid] else sid
  }

  /** The label of a categorised stage id is its name in that category's map, or the id itself. */
  lemma StageLabelOfCategory(n: nat, rest: string, stageMaps: nat -> map<string, string>)
    ensures var sid := "C" + NatToString(n) + ":" + rest;
      StageLabel(Some(sid), stageMaps) == if sid in stageMaps(n) then stageMaps(n)[sid] else sid
  {
    ParseCategoryOfStageId(n, rest);
  }

  /** The categories a lookup of `stageId` needs a stage map for. */
  function NeededCategory(stageId: Option<string>): set<nat> {
    match stageId
    case None => {}
    case Some(sid) =>
      if sid == "" then {} else match ParseCategory(sid)
        case None => {}
        case Some(cat) => {cat}
  }

  /** `_STAGE_MAP_CACHE` and the lookup that fills it, with the Bitrix fetch as a given function. */
  class StageNameCache {
    /** `get_stage_map_for_category`. */
    const fetch: nat -> map<string, string>
    /** The cached stage maps, by category. */
    var cache: map<nat, map<string, string>>
    /** The categories fetched so far, in order. */
    ghost var fetchLog: seq<nat>

    /** Every cached map is the fetched one, and each category is fetched at most once. */
    ghost predicate Valid()
      reads this
    {
      && (forall c | c in cache :: cache[c] == fetch(c))
      && (forall c :: c in cache <==> c in fetchLog)
      && (forall i, j :: 0 <= i < j < |fetchLog| ==> fetchLog[i] != fetchLog[j])
    }

    constructor(fetch: nat -> map<string, string>)
      ensures Valid() && this.fetch == fetch && cache == map[]
    {
      this.fetch := fetch;
      cache := map[];
      fetchLog := [];
    }

    /** `_stage_name_by_sid(stage_id)`: the same label as without the cache; a missing category is fetched once. */
    method StageName(stageId: Option<string>) returns (name: string)
      requires Valid()
      modifies this
      ensures Valid()
      ensures name == StageLabel(stageId, fetch)
      ensures forall c :: c in cache <==> c in old(cache) || c in NeededCategory(stageId)
      ensures NeededCategory(stageId) <= old(cache).Keys ==> fetchLog == old(fetchLog)
      ensures forall c | c in NeededCategory(stageId) && c !in old(cache) :: fetchLog == old(fetchLog) + [c]
    {
      if stageId == None || stageId == Some("") {
        return "\U{2014}";
      }
      var sid := stageId.value;
      var m := ParseCategory(sid);
      if m == None {
        return sid;
      }
      var cat := m.value;
      if cat !in cache {
        cache := cache[cat := fetch(cat)];
        fetchLog := fetchLog + [cat];
      }
      var stages := cache[cat];
      name := if sid in stages then stages[sid] else sid;
    }
  }
}
