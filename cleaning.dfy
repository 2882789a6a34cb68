/**
 * The batch cleaning (`transform_data`) and batch validation (`validate_data`) rules of the
 * ETL service, over a frame modelled as a sequence of rows.
 */
module Cleaning {
  import opened Wrappers

  /** One row of the extracted CSV frame; every column may be missing (an empty cell). */
  datatype RawRow = RawRow(
    studyId: Option<string>,
    participantId: Option<string>,
    measurementType: Option<string>,
    value: Option<real>,
    unit: Option<string>,
    timestamp: Option<string>,
    siteId: Option<string>,
    qualityScore: Option<real>)

  /** One row of the cleaned frame: every column present, the timestamp parsed. */
  datatype Row = Row(
    studyId: string,
    participantId: string,
    measurementType: string,
    value: real,
    unit: string,
    timestamp: int,
    siteId: string,
    qualityScore: real)

  /** The datetime conversion of one timestamp cell; None stands for a cell that does not parse. */
  type TimestampParser = string -> Option<int>

  /** The columns rows are deduplicated on: (participant_id, measurement_type). */
  type DedupKey = (string, string)

  function KeyOf(r: Row): DedupKey
  {
    (r.participantId, r.measurementType)
  }

  function RawKey(x: RawRow): DedupKey
    requires x.participantId.Some? && x.measurementType.Some?
  {
    (x.participantId.value, x.measurementType.value)
  }

  /** No column of the row is missing. */
  predicate Complete(x: RawRow)
  {
    && x.studyId.Some? && x.participantId.Some? && x.measurementType.Some? && x.value.Some?
    && x.unit.Some? && x.timestamp.Some? && x.siteId.Some? && x.qualityScore.Some?
  }

  /** The row survives both missing-value filters: complete, and its timestamp parses. */
  predicate Admissible(x: RawRow, parse: TimestampParser)
  {
    Complete(x) && parse(x.timestamp.value).Some?
  }

  /** The cleaned row `r` carries exactly the columns of raw row `x`, with the timestamp parsed. */
  predicate RowFrom(r: Row, x: RawRow, parse: TimestampParser)
  {
    && Admissible(x, parse)
    && r.studyId == x.studyId.value
    && r.participantId == x.participantId.value
    && r.measurementType == x.measurementType.value
    && r.value == x.value.value
    && r.unit == x.unit.value
    && r.timestamp == parse(x.timestamp.value).value
    && r.siteId == x.siteId.value
    && r.qualityScore == x.qualityScore.value
  }

  /** The keys of the raw rows that survive both missing-value filters. */
  function AdmissibleKeys(raw: seq<RawRow>, parse: TimestampParser): set<DedupKey>
  {
    set x | x in raw && Admissible(x, parse) :: RawKey(x)
  }

  // ---------------------------------------------------------------------------
  // transform_data, stage by stage
  // ---------------------------------------------------------------------------

  /** `a` is `b` with some elements left out, the rest in their order in `b`. */
  predicate IsSubsequence<T(==)>(a: seq<T>, b: seq<T>)
    decreases |b|
  {
    if |a| == 0 then true
    else if |b| == 0 then false
    else (a[0] == b[0] && IsSubsequence(a[1..], b[1..])) || IsSubsequence(a, b[1..])
  }

  /** `data.dropna()`: drop every row with a missing column, keeping the order of the rest. */
  function DropMissing(rows: seq<RawRow>): (kept: seq<RawRow>)
    ensures forall x :: x in kept <==> x in rows && Complete(x)
    ensures forall x :: multiset(kept)[x] == if Complete(x) then multiset(rows)[x] else 0
    ensures IsSubsequence(kept, rows)
  {
    if rows == [] then []
    else
      assert forall x :: x in rows <==> x == rows[0] || x in rows[1..];
      assert rows == [rows[0]] + rows[1..];
      var rest := DropMissing(rows[1..]);
      if Complete(rows[0]) then
        assert ([rows[0]] + rest)[1..] == rest;
        [rows[0]] + rest
      else
        rest
  }

  function Typed(x: RawRow, t: int): Row
    requires Complete(x)
  {
    Row(x.studyId.value, x.participantId.value, x.measurementType.value, x.value.value,
        x.unit.value, t, x.siteId.value, x.qualityScore.value)
  }

  /**
   * The timestamp conversion with coercion followed by `dropna(subset=['timestamp'])`:
   * a row whose timestamp does not parse is dropped, every other row is typed.
   */
  function CoerceTimestamps(rows: seq<RawRow>, parse: TimestampParser): (typed: seq<Row>)
    requires forall x :: x in rows ==> Complete(x)
    ensures forall r :: r in typed ==> exists x :: x in rows && RowFrom(r, x, parse)
    ensures forall x :: x in rows && Admissible(x, parse) ==> exists r :: r in typed && RowFrom(r, x, parse)
  {
    if rows == [] then []
    else
      var x := rows[0];
      assert x in rows && Complete(x);
      var t := parse(x.timestamp.value);
      assert forall y :: y in rows <==> y == x || y in rows[1..];
      var rest := CoerceTimestamps(rows[1..], parse);
      if t.Some? then
        assert RowFrom(Typed(x, t.value), x, parse);
        [Typed(x, t.value)] + rest
      else rest
  }

  /** Converting a frame's two halves and concatenating converts the frame: rows keep their order. */
  lemma {:induction false} CoerceTimestampsAppend(a: seq<RawRow>, b: seq<RawRow>, parse: TimestampParser)
    requires forall x :: x in a + b ==> Complete(x)
    ensures CoerceTimestamps(a + b, parse) == CoerceTimestamps(a, parse) + CoerceTimestamps(b, parse)
  {
    if a != [] {
      assert (a + b)[0] == a[0];
      assert (a + b)[1..] == a[1..] + b;
      CoerceTimestampsAppend(a[1..], b, parse);
    } else {
      assert a + b == b;
    }
  }

  /** A single complete row yields one typed row from it if its timestamp parses, and none otherwise. */
  lemma CoerceTimestampsOne(x: RawRow, parse: TimestampParser)
    requires Complete(x)
    ensures |CoerceTimestamps([x], parse)| == if Admissible(x, parse) then 1 else 0
    ensures forall r :: r in CoerceTimestamps([x], parse) ==> RowFrom(r, x, parse)
  {
  }

  /** Quality scores never increase along the frame. */
  predicate SortedByQuality(rows: seq<Row>)
  {
    forall i, j :: 0 <= i < j < |rows| ==> rows[i].qualityScore >= rows[j].qualityScore
  }

  /** A row that scores at least as high as every row of a sorted frame can go in front of it. */
  lemma ConsSorted(h: Row, rest: seq<Row>)
    requires SortedByQuality(rest)
    requires forall y :: y in rest ==> y.qualityScore <= h.qualityScore
    ensures SortedByQuality([h] + rest)
  {
  }

  /** In a sorted frame no row scores higher than the first. */
  lemma HeadIsBest(sorted: seq<Row>)
    requires SortedByQuality(sorted) && sorted != []
    ensures forall y :: y in sorted ==> y.qualityScore <= sorted[0].qualityScore
  {
  }

  /** One step of the sort: `x` placed into a frame already sorted by descending quality. */
  function Insert(x: Row, sorted: seq<Row>): (r: seq<Row>)
    requires SortedByQuality(sorted)
    ensures SortedByQuality(r)
    ensures multiset(r) == multiset(sorted) + multiset{x}
  {
    if sorted == [] || x.qualityScore >= sorted[0].qualityScore then
      assert forall y :: y in sorted ==> y.qualityScore <= x.qualityScore by {
        if sorted != [] {
          HeadIsBest(sorted);
        }
      }
      ConsSorted(x, sorted);
      [x] + sorted
    else
      var rest := Insert(x, sorted[1..]);
      assert sorted == [sorted[0]] + sorted[1..];
      KeepHead(x, sorted, rest);
      [sorted[0]] + rest
  }

  /** Inserting below the first row of a sorted frame keeps that row in front. */
  lemma KeepHead(x: Row, sorted: seq<Row>, rest: seq<Row>)
    requires SortedByQuality(sorted) && sorted != [] && x.qualityScore < sorted[0].qualityScore
    requires SortedByQuality(rest) && multiset(rest) == multiset(sorted[1..]) + multiset{x}
    ensures SortedByQuality([sorted[0]] + rest)
  {
    HeadIsBest(sorted);
    forall y | y in rest ensures y.qualityScore <= sorted[0].qualityScore {
      assert y in multiset(rest);
      if y != x {
        assert y in sorted[1..];
      }
    }
    ConsSorted(sorted[0], rest);
  }

  /** `sort_values(by='quality_score', ascending=False)`: a permutation in descending quality. */
  function SortByQuality(rows: seq<Row>): (sorted: seq<Row>)
    ensures SortedByQuality(sorted)
    ensures multiset(sorted) == multiset(rows)
  {
    if rows == [] then []
    else
      assert rows == [rows[0]] + rows[1..];
      Insert(rows[0], SortByQuality(rows[1..]))
  }

  function KeySet(rows: seq<Row>): set<DedupKey>
  {
    set r | r in rows :: KeyOf(r)
  }

  /** No two rows share a (participant_id, measurement_type) pair. */
  predicate KeysUnique(rows: seq<Row>)
  {
    forall i, j :: 0 <= i < j < |rows| ==> KeyOf(rows[i]) != KeyOf(rows[j])
  }

  /** A row whose pair no row of a frame without repeated pairs has can go in front of it. */
  lemma ConsUnique(h: Row, rest: seq<Row>)
    requires KeysUnique(rest)
    requires forall y :: y in rest ==> KeyOf(y) != KeyOf(h)
    ensures KeysUnique([h] + rest)
  {
  }

  /**
   * `drop_duplicates(subset=['participant_id', 'measurement_type'], keep='first')`, scanning
   * the frame from the front with `seen` the keys already kept.
   */
  function DropDuplicateKeys(rows: seq<Row>, seen: set<DedupKey>): (kept: seq<Row>)
    ensures forall r :: r in kept ==> r in rows && KeyOf(r) !in seen
    ensures KeysUnique(kept)
    ensures KeySet(kept) == KeySet(rows) - seen
  {
    if rows == [] then []
    else
      var k := KeyOf(rows[0]);
      assert forall r :: r in rows <==> r == rows[0] || r in rows[1..];
      assert KeySet(rows) == {k} + KeySet(rows[1..]);
      if k in seen then DropDuplicateKeys(rows[1..], seen)
      else
        var rest := DropDuplicateKeys(rows[1..], seen + {k});
        ConsUnique(rows[0], rest);
        assert KeySet([rows[0]] + rest) == {k} + KeySet(rest) by {
          assert forall r :: r in [rows[0]] + rest <==> r == rows[0] || r in rest;
        }
        [rows[0]] + rest
  }

  /** The pairs of the first `i + 1` rows are the first row's pair and those of the next `i`. */
  lemma KeySetOfPrefix(rows: seq<Row>, i: nat)
    requires i < |rows|
    ensures KeySet(rows[..i + 1]) == {KeyOf(rows[0])} + KeySet(rows[1..][..i])
  {
  }

  /**
   * `keep='first'`: every kept row is, at some position of the frame, the first row with its
   * pair, and the kept rows appear in the order the frame has them.
   */
  lemma {:induction false} DropDuplicateKeysKeepsFirst(rows: seq<Row>, seen: set<DedupKey>)
    ensures var kept := DropDuplicateKeys(rows, seen);
      && (forall r :: r in kept ==> exists i :: 0 <= i < |rows| && rows[i] == r && KeyOf(r) !in KeySet(rows[..i]))
      && IsSubsequence(kept, rows)
  {
    if rows != [] {
      var k := KeyOf(rows[0]);
      var kept := DropDuplicateKeys(rows, seen);
      var tailSeen := if k in seen then seen else seen + {k};
      var rest := DropDuplicateKeys(rows[1..], tailSeen);
      DropDuplicateKeysKeepsFirst(rows[1..], tailSeen);
      forall r | r in rest
        ensures exists i :: 0 <= i < |rows| && rows[i] == r && KeyOf(r) !in KeySet(rows[..i])
      {
        var j :| 0 <= j < |rows[1..]| && rows[1..][j] == r && KeyOf(r) !in KeySet(rows[1..][..j]);
        KeySetOfPrefix(rows, j);
        assert rows[j + 1] == r;
      }
      if k !in seen {
        assert kept == [rows[0]] + rest;
        assert rows[..0] == [];
        assert kept[1..] == rest;
      }
    }
  }

  /**
   * `transform_data` on typed rows: drop rows with a missing column, drop rows whose timestamp
   * does not parse, sort by descending quality score, keep the first row of each
   * (participant_id, measurement_type) pair. The dtype assertions are not part of this function.
   */
  function TransformData(raw: seq<RawRow>, parse: TimestampParser): seq<Row>
  {
    DropDuplicateKeys(SortByQuality(CoerceTimestamps(DropMissing(raw), parse)), {})
  }

  /**
   * Every row of the cleaned frame is a raw row with all columns present and a timestamp that
   * parses; no two rows share a pair; and every pair of such a raw row is kept.
   */
  lemma TransformDataCleans(raw: seq<RawRow>, parse: TimestampParser)
    ensures forall r :: r in TransformData(raw, parse) ==> exists x :: x in raw && RowFrom(r, x, parse)
    ensures KeysUnique(TransformData(raw, parse))
    ensures KeySet(TransformData(raw, parse)) == AdmissibleKeys(raw, parse)
  {
    var complete := DropMissing(raw);
    var typed := CoerceTimestamps(complete, parse);
    var sorted := SortByQuality(typed);
    assert forall r :: r in sorted <==> r in typed by {
      assert forall r :: r in sorted <==> r in multiset(sorted);
      assert forall r :: r in typed <==> r in multiset(typed);
    }
    TypedKeys(raw, parse);
    assert KeySet(sorted) == KeySet(typed);
  }

  /** The pairs left after both missing-value filters are those of the admissible raw rows. */
  lemma TypedKeys(raw: seq<RawRow>, parse: TimestampParser)
    ensures KeySet(CoerceTimestamps(DropMissing(raw), parse)) == AdmissibleKeys(raw, parse)
  {
  }

  /** Over a frame sorted by descending quality, the row kept for a key scores at least as high as every row with that key. */
  lemma {:induction false} DropDuplicateKeysKeepsBest(rows: seq<Row>, seen: set<DedupKey>)
    requires SortedByQuality(rows)
    ensures forall r, x :: r in DropDuplicateKeys(rows, seen) && x in rows && KeyOf(x) == KeyOf(r) ==>
      x.qualityScore <= r.qualityScore
  {
    if rows != [] {
      var k := KeyOf(rows[0]);
      var kept := DropDuplicateKeys(rows, seen);
      assert SortedByQuality(rows[1..]);
      if k in seen {
        DropDuplicateKeysKeepsBest(rows[1..], seen);
        forall r, x | r in kept && x in rows && KeyOf(x) == KeyOf(r)
          ensures x.qualityScore <= r.qualityScore
        {
          assert x != rows[0];
          assert x in rows[1..];
        }
      } else {
        var rest := DropDuplicateKeys(rows[1..], seen + {k});
        DropDuplicateKeysKeepsBest(rows[1..], seen + {k});
        assert kept == [rows[0]] + rest;
        forall r, x | r in kept && x in rows && KeyOf(x) == KeyOf(r)
          ensures x.qualityScore <= r.qualityScore
        {
          var i :| 0 <= i < |rows| && rows[i] == x;
          if r == rows[0] {
            assert i == 0 || rows[0].qualityScore >= rows[i].qualityScore;
          } else {
            assert r in rest;
            assert x != rows[0];
            assert x in rows[1..];
          }
        }
      }
    }
  }

  /** Dropping duplicates keeps the relative order of the rows it keeps, so sortedness survives. */
  lemma {:induction false} DropDuplicateKeysKeepsOrder(rows: seq<Row>, seen: set<DedupKey>)
    requires SortedByQuality(rows)
    ensures SortedByQuality(DropDuplicateKeys(rows, seen))
  {
    if rows != [] {
      var k := KeyOf(rows[0]);
      assert SortedByQuality(rows[1..]);
      if k in seen {
        DropDuplicateKeysKeepsOrder(rows[1..], seen);
      } else {
        var rest := DropDuplicateKeys(rows[1..], seen + {k});
        DropDuplicateKeysKeepsOrder(rows[1..], seen + {k});
        forall j | 0 <= j < |rest| ensures rows[0].qualityScore >= rest[j].qualityScore {
          assert rest[j] in rest;
          var i :| 0 <= i < |rows[1..]| && rows[1..][i] == rest[j];
          assert rows[i + 1] == rest[j];
        }
        assert DropDuplicateKeys(rows, seen) == [rows[0]] + rest;
      }
    }
  }

  /**
   * For every (participant_id, measurement_type) pair that survives the missing-value filters,
   * the one row `transform_data` keeps has the highest quality score among that pair's rows.
   */
  lemma TransformDataKeepsBest(raw: seq<RawRow>, parse: TimestampParser)
    ensures forall r, x :: r in TransformData(raw, parse) && x in raw && Admissible(x, parse) && RawKey(x) == KeyOf(r) ==>
      x.qualityScore.value <= r.qualityScore
  {
    var complete := DropMissing(raw);
    var typed := CoerceTimestamps(complete, parse);
    var sorted := SortByQuality(typed);
    DropDuplicateKeysKeepsBest(sorted, {});
    forall r, x | r in TransformData(raw, parse) && x in raw && Admissible(x, parse) && RawKey(x) == KeyOf(r)
      ensures x.qualityScore.value <= r.qualityScore
    {
      assert x in complete;
      var t :| t in typed && RowFrom(t, x, parse);
      assert t in multiset(typed);
      assert t in sorted;
    }
  }

  /** The cleaned frame is ordered by descending quality score. */
  lemma TransformDataSorted(raw: seq<RawRow>, parse: TimestampParser)
    ensures SortedByQuality(TransformData(raw, parse))
  {
    var sorted := SortByQuality(CoerceTimestamps(DropMissing(raw), parse));
    DropDuplicateKeysKeepsOrder(sorted, {});
  }

  // ---------------------------------------------------------------------------
  // validate_data
  // ---------------------------------------------------------------------------

  /** The three column-wise checks of `validate_data`; `NotAfter(now)` compares timestamps with `now`. */
  datatype Check = NonNegativeValue | ScoreInUnitRange | NotAfter(now: int)

  /** The boolean a check computes for one row; the score range is closed at both ends. */
  predicate Passes(c: Check, r: Row)
  {
    match c
    case NonNegativeValue => r.value >= 0.0
    case ScoreInUnitRange => 0.0 <= r.qualityScore <= 1.0
    case NotAfter(now) => r.timestamp <= now
  }

  /** `all(...)` over the boolean column a check computes row by row. */
  function All(rows: seq<Row>, c: Check): (b: bool)
    ensures b <==> forall r :: r in rows ==> Passes(c, r)
  {
    if rows == [] then true
    else
      assert forall r :: r in rows <==> r == rows[0] || r in rows[1..];
      Passes(c, rows[0]) && All(rows[1..], c)
  }

  function MeasurementTypes(rows: seq<Row>): set<string>
  {
    set r | r in rows :: r.measurementType
  }

  /** The group of `data.groupby('measurement_type')` for measurement type `mt`, in frame order. */
  function Group(rows: seq<Row>, mt: string): (g: seq<Row>)
    ensures forall r :: r in g <==> r in rows && r.measurementType == mt
    ensures IsSubsequence(g, rows)
  {
    if rows == [] then []
    else
      assert forall r :: r in rows <==> r == rows[0] || r in rows[1..];
      var rest := Group(rows[1..], mt);
      if rows[0].measurementType == mt then
        assert ([rows[0]] + rest)[1..] == rest;
        [rows[0]] + rest
      else
        rest
  }

  /** `group['unit'].unique()`, as a set. */
  function UniqueUnits(g: seq<Row>): set<string>
  {
    set r | r in g :: r.unit
  }

  /** The groupby loop: every measurement-type group has exactly one distinct unit. */
  predicate UnitsConsistent(rows: seq<Row>)
  {
    forall mt :: mt in MeasurementTypes(rows) ==> |UniqueUnits(Group(rows, mt))| == 1
  }

  /** Any two rows of the same measurement type use the same unit. */
  predicate OneUnitPerType(rows: seq<Row>)
  {
    forall r, s :: r in rows && s in rows && r.measurementType == s.measurementType ==> r.unit == s.unit
  }

  lemma TwoMembers(u: set<string>, a: string, b: string)
    requires a in u && b in u && a != b
    ensures |u| >= 2
  {
    var rest := u - {a};
    assert b in rest;
    assert |u| == |rest| + 1;
  }

  /** The groupby formulation of unit consistency agrees with the pairwise one. */
  lemma UnitsConsistentMeans(rows: seq<Row>)
    ensures UnitsConsistent(rows) <==> OneUnitPerType(rows)
  {
    if UnitsConsistent(rows) {
      forall r, s | r in rows && s in rows && r.measurementType == s.measurementType
        ensures r.unit == s.unit
      {
        var mt := r.measurementType;
        assert mt in MeasurementTypes(rows);
        var g := Group(rows, mt);
        assert r.unit in UniqueUnits(g) && s.unit in UniqueUnits(g);
        if r.unit != s.unit {
          TwoMembers(UniqueUnits(g), r.unit, s.unit);
        }
      }
    }
    if OneUnitPerType(rows) {
      forall mt | mt in MeasurementTypes(rows) ensures |UniqueUnits(Group(rows, mt))| == 1 {
        var r :| r in rows && r.measurementType == mt;
        var g := Group(rows, mt);
        assert r in g;
        assert UniqueUnits(g) == {r.unit};
      }
    }
  }

  /** What `validate_data` accepts: the four checks, stated row by row and pair by pair. */
  predicate ValidBatch(rows: seq<Row>, now: int)
  {
    && (forall r :: r in rows ==> r.value >= 0.0)
    && (forall r :: r in rows ==> 0.0 <= r.qualityScore <= 1.0)
    && (forall r :: r in rows ==> r.timestamp <= now)
    && OneUnitPerType(rows)
  }

  /**
   * `validate_data`: values non-negative, quality scores within [0, 1] inclusive, no timestamp
   * after `now`, and one unit per measurement type; the first failing check returns false.
   */
  function ValidateData(rows: seq<Row>, now: int): bool
  {
    && All(rows, NonNegativeValue)
    && All(rows, ScoreInUnitRange)
    && All(rows, NotAfter(now))
    && UnitsConsistent(rows)
  }

  /** `validate_data` returns true exactly when the batch meets the four checks; an empty batch passes. */
  lemma ValidateDataMeans(rows: seq<Row>, now: int)
    ensures ValidateData(rows, now) <==> ValidBatch(rows, now)
    ensures rows == [] ==> ValidateData(rows, now)
  {
    UnitsConsistentMeans(rows);
  }
}
