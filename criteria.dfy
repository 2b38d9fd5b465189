/**
 * The criteria checker (`check`) and the validation report (`validate`) of `IamDataFrame`.
 *
 * `check(variable, check, filters, ret_true)` selects the rows of `variable` (a pseudo-regex),
 * narrowed by the check's `year` and the caller's filters, and flags each row that satisfies every
 * bound: `up` is inclusive, `lo` is exclusive. It returns the rows that fail, or the
 * (model, scenario) keys that pass: in the one year asked for, or, otherwise, with as many
 * satisfying rows as the selection has distinct years.
 */
module Criteria {
  import opened Wrappers
  import opened Observations
  import opened Patterns
  import opened Selection

  /** One bound of a check dict: `'up'` (value <= up) or `'lo'` (value > lo). */
  datatype Bound = Up(up: real) | Lo(lo: real)

  /** A check dict: its bounds in dict order and its optional `'year'` filter; `check` ignores other keys. */
  datatype Check = Check(bounds: seq<Bound>, year: Option<FilterValue>)

  /** A criteria dict: each variable pattern with its check, in dict order. */
  type Criteria = seq<(string, Check)>

  predicate SupportedCriteria(criteria: Criteria) {
    forall e :: e in criteria ==> VariablePattern(e.0)
  }

  predicate BoundHolds(b: Bound, x: real) {
    match b
    case Up(up) => x <= up
    case Lo(lo) => x > lo
  }

  /** A value satisfies a check iff it satisfies every bound; no bound, no constraint. */
  predicate Satisfies(x: real, bounds: seq<Bound>) {
    forall b :: b in bounds ==> BoundHolds(b, x)
  }

  /** The upper bound is inclusive and the lower bound exclusive. */
  lemma BoundAsymmetry(up: real, lo: real, x: real)
    ensures Satisfies(up, [Up(up)])
    ensures !Satisfies(lo, [Lo(lo)])
    ensures Satisfies(x, [Up(up), Lo(lo)]) <==> lo < x <= up
    ensures Satisfies(x, [])
  {
    assert Lo(lo) in [Lo(lo)];
    assert Up(up) in [Up(up), Lo(lo)] && Lo(lo) in [Up(up), Lo(lo)];
  }

  /** `isinstance(check['year'], int)`: the check is about one year. */
  predicate SingleYear(c: Check) {
    c.year.Some? && c.year.value.Int?
  }

  // ---------------------------------------------------------------------------------------------
  // The selection a check runs on

  /**
   * The filter dict `check` selects with: the caller's filters, with `year` set to the check's
   * year when it has one and `variable` set to the checked variable. This is a fresh dict; the
   * source writes into the caller's dict instead (see `LeakedFilters`).
   */
  function EffectiveFilters(filters: Filters, variable: string, c: Check): (r: Filters)
    ensures ("variable", Str(variable)) in r
    ensures c.year.Some? ==> ("year", c.year.value) in r
    ensures forall e :: e in r && e.0 == "variable" ==> e.1 == Str(variable)
    ensures c.year.Some? ==> forall e :: e in r && e.0 == "year" ==> e.1 == c.year.value
    ensures forall e :: e in r && e.0 != "variable" && (c.year.Some? ==> e.0 != "year") ==> e in filters
    ensures forall e :: e in filters && e.0 != "variable" && (c.year.Some? ==> e.0 != "year") ==> e in r
    ensures SupportedFilters(filters) && VariablePattern(variable) ==> SupportedFilters(r)
  {
    var withYear := if c.year.Some? then Put(filters, "year", c.year.value) else filters;
    assert SupportedFilters(filters) ==> SupportedFilters(withYear);
    Put(withYear, "variable", Str(variable))
  }

  /** A single-string variable filter keeps the rows whose variable the pattern matches. */
  lemma VariableEntry(o: Observation, v: string)
    requires VariablePattern(v)
    ensures SupportedEntry(("variable", Str(v)))
    ensures EntryHolds(o, ("variable", Str(v))) <==> Matches(v, o.variable, true)
  {
    assert PatternsOf("variable", Str(v)).value == [v];
    assert v in [v];
  }

  /** A single-string region filter keeps the rows whose region starts with it. */
  lemma RegionEntry(o: Observation, p: string)
    requires LiteralPattern(p)
    ensures SupportedEntry(("region", Str(p)))
    ensures EntryHolds(o, ("region", Str(p))) <==> p <= o.region
  {
    assert PatternsOf("region", Str(p)).value == [p];
    assert p in [p];
    AxisMatchIsPrefix(p, o.region);
  }

  /**
   * The rows a check examines: those of the checked variable, in the check's year if it has one,
   * that satisfy every other entry of the caller's filters.
   */
  lemma CheckSelection(o: Observation, filters: Filters, variable: string, c: Check)
    requires SupportedFilters(filters) && VariablePattern(variable)
    ensures RowSatisfies(o, EffectiveFilters(filters, variable, c)) <==>
              && Matches(variable, o.variable, true)
              && (c.year.Some? ==> YearHolds(c.year.value, o.year))
              && forall e :: e in filters && e.0 != "variable" && (c.year.Some? ==> e.0 != "year") ==> EntryHolds(o, e)
  {
    VariableEntry(o, variable);
    if c.year.Some? {
      assert EntryHolds(o, ("year", c.year.value)) <==> YearHolds(c.year.value, o.year);
    }
  }

  // ---------------------------------------------------------------------------------------------
  // Row flags

  function SatisfiedMask(rows: seq<Observation>, bounds: seq<Bound>): (r: seq<bool>)
    ensures |r| == |rows| && forall i :: 0 <= i < |rows| ==> r[i] == Satisfies(rows[i].value, bounds)
  {
    seq(|rows|, i requires 0 <= i < |rows| => Satisfies(rows[i].value, bounds))
  }

  function Negate(m: seq<bool>): (r: seq<bool>)
    ensures |r| == |m| && forall i :: 0 <= i < |m| ==> r[i] == !m[i]
  {
    seq(|m|, i requires 0 <= i < |m| => !m[i])
  }

  /** `df.loc[is_true]`: the selected rows that satisfy the check, in order. */
  function SatisfyingRows(rows: seq<Observation>, bounds: seq<Bound>): (r: seq<Observation>)
    ensures forall o :: o in r <==> o in rows && Satisfies(o.value, bounds)
  {
    var m := SatisfiedMask(rows, bounds);
    assert forall o :: o in rows && Satisfies(o.value, bounds) ==> exists i :: 0 <= i < |rows| && m[i] && rows[i] == o by {
      forall o | o in rows && Satisfies(o.value, bounds) ensures exists i :: 0 <= i < |rows| && m[i] && rows[i] == o {
        var i :| 0 <= i < |rows| && rows[i] == o;
        assert m[i];
      }
    }
    Mask(rows, m)
  }

  /** `df[~is_true]`: the selected rows that violate the check, in order, with all their columns. */
  function FailingRows(rows: seq<Observation>, bounds: seq<Bound>): (r: seq<Observation>)
    ensures forall o :: o in r <==> o in rows && !Satisfies(o.value, bounds)
  {
    var m := Negate(SatisfiedMask(rows, bounds));
    assert forall o :: o in rows && !Satisfies(o.value, bounds) ==> exists i :: 0 <= i < |rows| && m[i] && rows[i] == o by {
      forall o | o in rows && !Satisfies(o.value, bounds) ensures exists i :: 0 <= i < |rows| && m[i] && rows[i] == o {
        var i :| 0 <= i < |rows| && rows[i] == o;
        assert m[i];
      }
    }
    Mask(rows, m)
  }

  /** A mask and its negation split a sequence: every row is either kept or dropped. */
  lemma {:induction false} MaskSplits<T(!new)>(s: seq<T>, m: seq<bool>)
    requires |m| == |s|
    ensures |Mask(s, m)| + |Mask(s, Negate(m))| == |s|
  {
    if s != [] {
      assert Negate(m)[1..] == Negate(m[1..]);
      MaskSplits(s[1..], m[1..]);
    }
  }

  /** Every selected row is reported either as satisfying or as failing, never both. */
  lemma FailingAndSatisfyingSplitSelection(rows: seq<Observation>, bounds: seq<Bound>)
    ensures |SatisfyingRows(rows, bounds)| + |FailingRows(rows, bounds)| == |rows|
    ensures forall o :: o in rows ==> (o in SatisfyingRows(rows, bounds) <==> o !in FailingRows(rows, bounds))
  {
    MaskSplits(rows, SatisfiedMask(rows, bounds));
  }

  // ---------------------------------------------------------------------------------------------
  // Satisfying mode

  function KeySet(rows: seq<Observation>): set<Key> {
    set o | o in rows :: KeyOf(o)
  }

  /** `groupby(['model', 'scenario']).count()`: the number of rows with key `k`, zero iff there is none. */
  function CountKey(rows: seq<Observation>, k: Key): (r: nat)
    ensures r <= |rows|
    ensures r == 0 <==> k !in KeySet(rows)
  {
    if rows == [] then 0
    else
      assert KeySet(rows) == {KeyOf(rows[0])} + KeySet(rows[1..]) by {
        assert forall o :: o in rows <==> o == rows[0] || o in rows[1..];
      }
      (if KeyOf(rows[0]) == k then 1 else 0) + CountKey(rows[1..], k)
  }

  /** The groupby count of `k` is the multiplicity of `k` in the key column. */
  lemma {:induction false} CountKeyCountsRows(rows: seq<Observation>, k: Key)
    ensures CountKey(rows, k) == multiset(KeyColumn(rows))[k]
  {
    if rows != [] {
      CountKeyCountsRows(rows[1..], k);
      assert KeyColumn(rows) == [KeyOf(rows[0])] + KeyColumn(rows[1..]);
    }
  }

  /** `df.year.drop_duplicates()`, as a set. */
  function YearsOf(rows: seq<Observation>): set<int> {
    set o | o in rows :: o.year
  }

  /**
   * The keys `check` returns in satisfying mode. For one year: every key with a satisfying row.
   * Otherwise: every key whose number of satisfying ROWS equals the number of distinct years
   * in the whole selection.
   */
  function PassingKeys(rows: seq<Observation>, c: Check): (r: set<Key>)
    ensures r <= KeySet(SatisfyingRows(rows, c.bounds)) <= KeySet(rows)
    ensures SingleYear(c) ==> r == KeySet(SatisfyingRows(rows, c.bounds))
  {
    var satisfying := SatisfyingRows(rows, c.bounds);
    if SingleYear(c) then KeySet(satisfying)
    else set k | k in KeySet(satisfying) && CountKey(satisfying, k) == |YearsOf(rows)|
  }

  /** What `check` returns: the failing rows, or the passing keys. */
  datatype CheckResult = Failing(rows: seq<Observation>) | Passing(keys: set<Key>)

  /**
   * `check(variable, c, filters, retTrue)` as a function of the table. The mask starts as
   * `np.array([True] * n)`, which for n = 0 is a float64 array; unless a bound turns it into a
   * boolean series first, `~is_true` in failing mode raises `TypeError`.
   */
  function CheckOutcome(data: seq<Observation>, variable: string, c: Check, filters: Filters, retTrue: bool)
    : (r: Result<CheckResult, Error>)
    requires SupportedFilters(filters) && VariablePattern(variable)
    ensures r.Err? <==> Selected(data, EffectiveFilters(filters, variable, c)).Err? ||
                          (!retTrue && c.bounds == [] && Selected(data, EffectiveFilters(filters, variable, c)) == Ok([]))
    ensures Selected(data, EffectiveFilters(filters, variable, c)).Ok? && r.Err? ==> r.error == InvertFloatMask
    ensures r.Ok? ==> (r.value.Passing? <==> retTrue)
  {
    var rows :- Selected(data, EffectiveFilters(filters, variable, c));
    if retTrue then Ok(Passing(PassingKeys(rows, c)))
    else if c.bounds == [] && rows == [] then Err(InvertFloatMask)
    else Ok(Failing(FailingRows(rows, c.bounds)))
  }

  /** In failing mode `check` returns exactly the selected rows that violate the check. */
  lemma CheckReturnsFailingRows(data: seq<Observation>, variable: string, c: Check, filters: Filters)
    requires SupportedFilters(filters) && VariablePattern(variable)
    ensures CheckOutcome(data, variable, c, filters, false).Ok? ==>
              forall o :: o in CheckOutcome(data, variable, c, filters, false).value.rows <==>
                o in data && RowSatisfies(o, EffectiveFilters(filters, variable, c)) && !Satisfies(o.value, c.bounds)
  {
  }

  /**
   * In satisfying mode `check` returns only keys with a selected row; for one year, exactly the
   * keys with a selected row that satisfies the check.
   */
  lemma CheckReturnsPassingKeys(data: seq<Observation>, variable: string, c: Check, filters: Filters)
    requires SupportedFilters(filters) && VariablePattern(variable)
    ensures CheckOutcome(data, variable, c, filters, true).Ok? ==>
              forall k :: k in CheckOutcome(data, variable, c, filters, true).value.keys ==>
                exists o :: o in data && RowSatisfies(o, EffectiveFilters(filters, variable, c)) && KeyOf(o) == k
    ensures CheckOutcome(data, variable, c, filters, true).Ok? && SingleYear(c) ==>
              forall k :: k in CheckOutcome(data, variable, c, filters, true).value.keys <==>
              exists o :: o in data && RowSatisfies(o, EffectiveFilters(filters, variable, c))
                && Satisfies(o.value, c.bounds) && KeyOf(o) == k
  {
    if CheckOutcome(data, variable, c, filters, true).Err? {
      return;
    }
    var rows := Selected(data, EffectiveFilters(filters, variable, c)).value;
    var keys := CheckOutcome(data, variable, c, filters, true).value.keys;
    forall k | k in keys
      ensures exists o :: o in data && RowSatisfies(o, EffectiveFilters(filters, variable, c)) && KeyOf(o) == k
    {
      assert k in KeySet(rows);
      var o :| o in rows && KeyOf(o) == k;
    }
    if SingleYear(c) {
      forall k | exists o :: o in data && RowSatisfies(o, EffectiveFilters(filters, variable, c))
                   && Satisfies(o.value, c.bounds) && KeyOf(o) == k
        ensures k in keys
      {
        var o :| o in data && RowSatisfies(o, EffectiveFilters(filters, variable, c))
                   && Satisfies(o.value, c.bounds) && KeyOf(o) == k;
        assert o in SatisfyingRows(rows, c.bounds);
      }
    }
  }

  /**
   * The `for check_type, val in check.items()` loop of `check`: start from an all-true mask and AND
   * in one bound at a time. The result flags exactly the rows that satisfy every bound.
   */
  method SatisfiedFlags(rows: seq<Observation>, bounds: seq<Bound>) returns (isTrue: seq<bool>)
    ensures isTrue == SatisfiedMask(rows, bounds)
  {
    isTrue := seq(|rows|, _ => true);
    for j := 0 to |bounds|
      invariant |isTrue| == |rows|
      invariant forall i :: 0 <= i < |rows| ==> (isTrue[i] <==> Satisfies(rows[i].value, bounds[..j]))
    {
      assert bounds[..j + 1] == bounds[..j] + [bounds[j]];
      isTrue := seq(|rows|, i requires 0 <= i < |rows| => isTrue[i] && BoundHolds(bounds[j], rows[i].value));
    }
    assert bounds[..|bounds|] == bounds;
  }

  /**
   * `check`: select with the check's filters, narrow a mask that starts all true by each bound in
   * turn, then report the failing rows or aggregate the satisfying ones into keys.
   */
  method CheckVariable(data: seq<Observation>, variable: string, c: Check, filters: Filters, retTrue: bool)
    returns (r: Result<CheckResult, Error>)
    requires SupportedFilters(filters) && VariablePattern(variable)
    ensures r == CheckOutcome(data, variable, c, filters, retTrue)
  {
    var effective := EffectiveFilters(filters, variable, c);
    var selected := Select(data, effective);
    if selected.Err? {
      return Err(selected.error);
    }
    var rows := selected.value;
    var isTrue := SatisfiedFlags(rows, c.bounds);
    if retTrue {
      var satisfying := Mask(rows, isTrue);
      if SingleYear(c) {
        r := Ok(Passing(KeySet(satisfying)));
      } else {
        var numYears := |YearsOf(rows)|;
        r := Ok(Passing(set k | k in KeySet(satisfying) && CountKey(satisfying, k) == numYears));
      }
    } else if |c.bounds| == 0 && |rows| == 0 {
      r := Err(InvertFloatMask);
    } else {
      r := Ok(Failing(Mask(rows, Negate(isTrue))));
    }
  }

  // ---------------------------------------------------------------------------------------------
  // What "every year" means

  /** Each key has at most one row per year (one region, one variable). */
  predicate OneRowPerKeyYear(rows: seq<Observation>) {
    forall i, j :: 0 <= i < j < |rows| ==> KeyOf(rows[i]) != KeyOf(rows[j]) || rows[i].year != rows[j].year
  }

  /** Key `k` has a satisfying row in year `y`. */
  predicate SatisfiedIn(rows: seq<Observation>, bounds: seq<Bound>, k: Key, y: int) {
    exists o :: o in rows && KeyOf(o) == k && o.year == y && Satisfies(o.value, bounds)
  }

  function KeyYears(rows: seq<Observation>, k: Key): set<int> {
    set o | o in rows && KeyOf(o) == k :: o.year
  }

  lemma {:induction false} MaskKeepsOneRowPerKeyYear(rows: seq<Observation>, m: seq<bool>)
    requires |m| == |rows| && OneRowPerKeyYear(rows)
    ensures OneRowPerKeyYear(Mask(rows, m))
  {
    if rows != [] {
      var tail := rows[1..];
      assert OneRowPerKeyYear(tail) by {
        forall i, j | 0 <= i < j < |tail| ensures KeyOf(tail[i]) != KeyOf(tail[j]) || tail[i].year != tail[j].year {
          assert tail[i] == rows[i + 1] && tail[j] == rows[j + 1];
        }
      }
      MaskKeepsOneRowPerKeyYear(tail, m[1..]);
      var rest := Mask(tail, m[1..]);
      var head: seq<Observation> := if m[0] then [rows[0]] else [];
      forall o | o in rest ensures KeyOf(o) != KeyOf(rows[0]) || o.year != rows[0].year {
        var i :| 1 <= i < |rows| && m[i] && rows[i] == o;
      }
      assert Mask(rows, m) == head + rest;
    }
  }

  /** With one row per key and year, counting rows counts distinct years. */
  lemma {:induction false} CountIsDistinctYears(rows: seq<Observation>, k: Key)
    requires OneRowPerKeyYear(rows)
    ensures CountKey(rows, k) == |KeyYears(rows, k)|
  {
    if rows == [] {
      assert KeyYears(rows, k) == {};
    } else {
      var tail := rows[1..];
      assert OneRowPerKeyYear(tail) by {
        forall i, j | 0 <= i < j < |tail| ensures KeyOf(tail[i]) != KeyOf(tail[j]) || tail[i].year != tail[j].year {
          assert tail[i] == rows[i + 1] && tail[j] == rows[j + 1];
        }
      }
      CountIsDistinctYears(tail, k);
      if KeyOf(rows[0]) == k {
        assert KeyYears(rows, k) == {rows[0].year} + KeyYears(tail, k);
        assert rows[0].year !in KeyYears(tail, k) by {
          forall o | o in tail && KeyOf(o) == k ensures o.year != rows[0].year {
            var i :| 0 <= i < |tail| && tail[i] == o;
            assert rows[i + 1] == o;
          }
        }
      } else {
        assert KeyYears(rows, k) == KeyYears(tail, k);
      }
    }
  }

  /** A subset as large as its superset is the superset. */
  lemma SubsetOfSameSize(a: set<int>, b: set<int>)
    requires a <= b && |a| == |b|
    ensures a == b
  {
    var rest := b - a;
    assert b == a + rest;
    assert |b| == |a| + |rest|;
  }

  /**
   * When each key has one row per year, the row count test of `check` means what it intends: a
   * key passes iff it satisfies the check in every year the selection contains.
   */
  lemma EveryYearWhenOneRowPerYear(rows: seq<Observation>, c: Check, k: Key)
    requires OneRowPerKeyYear(rows) && !SingleYear(c)
    ensures k in PassingKeys(rows, c) <==>
              YearsOf(rows) != {} && forall y :: y in YearsOf(rows) ==> SatisfiedIn(rows, c.bounds, k, y)
  {
    var satisfying := SatisfyingRows(rows, c.bounds);
    MaskKeepsOneRowPerKeyYear(rows, SatisfiedMask(rows, c.bounds));
    CountIsDistinctYears(satisfying, k);
    var years := KeyYears(satisfying, k);
    assert years <= YearsOf(rows);
    assert forall y :: y in years <==> SatisfiedIn(rows, c.bounds, k, y) by {
      forall y | SatisfiedIn(rows, c.bounds, k, y) ensures y in years {
        var o :| o in rows && KeyOf(o) == k && o.year == y && Satisfies(o.value, c.bounds);
        assert o in satisfying;
      }
    }
    assert k in KeySet(satisfying) <==> years != {} by {
      if k in KeySet(satisfying) {
        var o :| o in satisfying && KeyOf(o) == k;
        assert o.year in years;
      }
    }
    if years == YearsOf(rows) && years != {} {
      assert k in PassingKeys(rows, c);
    }
    if k in PassingKeys(rows, c) {
      SubsetOfSameSize(years, YearsOf(rows));
    }
  }

  /** Four yearly rows of one key, the last with value `last`. */
  function FourYears(last: real): seq<Observation> {
    [ Observation("m", "s", "World", "Emissions|CO2", "Mt CO2/yr", 2010, 1.0),
      Observation("m", "s", "World", "Emissions|CO2", "Mt CO2/yr", 2020, 1.0),
      Observation("m", "s", "World", "Emissions|CO2", "Mt CO2/yr", 2030, 1.0),
      Observation("m", "s", "World", "Emissions|CO2", "Mt CO2/yr", 2040, last) ]
  }

  lemma FourYearsOneRowEach(last: real)
    ensures OneRowPerKeyYear(FourYears(last))
    ensures YearsOf(FourYears(last)) == {2010, 2020, 2030, 2040}
  {
    var rows := FourYears(last);
    assert rows[0] in rows && rows[1] in rows && rows[2] in rows && rows[3] in rows;
  }

  /** A key that satisfies `up` in three of four queried years does not pass. */
  lemma ThreeOfFourYearsIsNotEnough()
    ensures Key("m", "s") !in PassingKeys(FourYears(20.0), Check([Up(10.0)], None))
  {
    var c := Check([Up(10.0)], None);
    var rows := FourYears(20.0);
    FourYearsOneRowEach(20.0);
    assert !SatisfiedIn(rows, c.bounds, Key("m", "s"), 2040) by {
      forall o | o in rows && o.year == 2040 ensures !Satisfies(o.value, c.bounds) {
        assert o == rows[3];
        assert Up(10.0) in c.bounds;
      }
    }
    EveryYearWhenOneRowPerYear(rows, c, Key("m", "s"));
  }

  /** A key that satisfies `up` in all four queried years passes. */
  lemma FourOfFourYearsPass()
    ensures Key("m", "s") in PassingKeys(FourYears(5.0), Check([Up(10.0)], None))
  {
    var c := Check([Up(10.0)], None);
    var rows := FourYears(5.0);
    FourYearsOneRowEach(5.0);
    forall y | y in YearsOf(rows) ensures SatisfiedIn(rows, c.bounds, Key("m", "s"), y) {
      var i := (y - 2010) / 10;
      assert rows[i].year == y && rows[i] in rows;
    }
    EveryYearWhenOneRowPerYear(rows, c, Key("m", "s"));
  }

  /**
   * The row count is not a year count: a key reported in two regions for one year, satisfying the
   * check in both, has two satisfying rows against one distinct year and does not pass.
   */
  lemma TwoRegionsCountTwice()
    ensures var rows := [ Observation("m", "s", "R1", "V", "u", 2010, 1.0),
                          Observation("m", "s", "R2", "V", "u", 2010, 1.0) ];
            && (forall y :: y in YearsOf(rows) ==> SatisfiedIn(rows, [Up(10.0)], Key("m", "s"), y))
            && Key("m", "s") !in PassingKeys(rows, Check([Up(10.0)], None))
  {
    var rows := [ Observation("m", "s", "R1", "V", "u", 2010, 1.0),
                  Observation("m", "s", "R2", "V", "u", 2010, 1.0) ];
    var bounds := [Up(10.0)];
    assert YearsOf(rows) == {2010} by {
      assert rows[0] in rows;
    }
    assert SatisfiedIn(rows, bounds, Key("m", "s"), 2010) by {
      assert rows[0] in rows && Satisfies(rows[0].value, bounds);
    }
    var satisfying := SatisfyingRows(rows, bounds);
    assert SatisfiedMask(rows, bounds) == [true, true];
    assert satisfying == rows;
    assert CountKey(rows, Key("m", "s")) == 2;
  }

  /** Two regions of one key: both satisfy `up: 10` in 2010, both fail it in 2020. */
  function TwoRegionsTwoYears(): seq<Observation> {
    [ Observation("m", "s", "R1", "V", "u", 2010, 1.0),
      Observation("m", "s", "R2", "V", "u", 2010, 1.0),
      Observation("m", "s", "R1", "V", "u", 2020, 20.0),
      Observation("m", "s", "R2", "V", "u", 2020, 20.0) ]
  }

  lemma TwoRegionsTwoYearsYears()
    ensures YearsOf(TwoRegionsTwoYears()) == {2010, 2020}
    ensures |YearsOf(TwoRegionsTwoYears())| == 2
  {
    var rows := TwoRegionsTwoYears();
    assert rows[0] in rows && rows[2] in rows;
    assert {2010, 2020} == {2010} + {2020};
  }

  lemma TwoRegionsTwoYearsSatisfying()
    ensures SatisfyingRows(TwoRegionsTwoYears(), [Up(10.0)]) == TwoRegionsTwoYears()[..2]
  {
    var rows := TwoRegionsTwoYears();
    var bounds := [Up(10.0)];
    assert Up(10.0) in bounds;
    assert SatisfiedMask(rows, bounds) == [true, true, false, false];
  }

  /**
   * The row count can also admit a key that fails a whole year: two regions satisfying the check
   * in 2010 make up for two regions failing it in 2020.
   */
  lemma TwoRegionsHideFailingYear()
    ensures 2020 in YearsOf(TwoRegionsTwoYears())
    ensures !SatisfiedIn(TwoRegionsTwoYears(), [Up(10.0)], Key("m", "s"), 2020)
    ensures Key("m", "s") in PassingKeys(TwoRegionsTwoYears(), Check([Up(10.0)], None))
  {
    TwoRegionsTwoYearsYears();
    TwoRegionsTwoYearsFail2020();
    TwoRegionsTwoYearsSatisfying();
    TwoRegionsTwoYearsCount();
    PassesOnCount(TwoRegionsTwoYears(), Check([Up(10.0)], None), Key("m", "s"));
  }

  /** Outside single-year mode a key with a satisfying row passes when its row count is the year count. */
  lemma PassesOnCount(rows: seq<Observation>, c: Check, k: Key)
    requires !SingleYear(c)
    requires k in KeySet(SatisfyingRows(rows, c.bounds))
    requires CountKey(SatisfyingRows(rows, c.bounds), k) == |YearsOf(rows)|
    ensures k in PassingKeys(rows, c)
  {
  }

  lemma TwoRegionsTwoYearsFail2020()
    ensures !SatisfiedIn(TwoRegionsTwoYears(), [Up(10.0)], Key("m", "s"), 2020)
  {
    var rows := TwoRegionsTwoYears();
    var bounds := [Up(10.0)];
    assert Up(10.0) in bounds;
    forall o | o in rows && o.year == 2020 ensures !Satisfies(o.value, bounds) {
      assert o == rows[2] || o == rows[3];
    }
  }

  lemma TwoRegionsTwoYearsCount()
    ensures Key("m", "s") in KeySet(TwoRegionsTwoYears()[..2])
    ensures CountKey(TwoRegionsTwoYears()[..2], Key("m", "s")) == 2
  {
    var satisfying := TwoRegionsTwoYears()[..2];
    assert satisfying[0] in satisfying;
    assert satisfying[1..][1..] == [];
  }

  /**
   * `year: 2010` and `year: [2010]` select the same rows but judge them differently: with two
   * satisfying 2010 rows of one key the int form passes the key and the list form does not.
   */
  lemma SingleYearAndYearListDisagree()
    ensures var rows := [ Observation("m", "s", "R1", "V", "u", 2010, 1.0),
                          Observation("m", "s", "R2", "V", "u", 2010, 1.0) ];
            && Key("m", "s") in PassingKeys(rows, Check([Up(10.0)], Some(Int(2010))))
            && Key("m", "s") !in PassingKeys(rows, Check([Up(10.0)], Some(IntList([2010]))))
  {
    var rows := [ Observation("m", "s", "R1", "V", "u", 2010, 1.0),
                  Observation("m", "s", "R2", "V", "u", 2010, 1.0) ];
    var bounds := [Up(10.0)];
    assert YearsOf(rows) == {2010} by {
      assert rows[0] in rows;
    }
    assert SatisfiedMask(rows, bounds) == [true, true];
    assert SatisfyingRows(rows, bounds) == rows;
    assert rows[0] in rows;
    assert CountKey(rows, Key("m", "s")) == 2;
  }

  // ---------------------------------------------------------------------------------------------
  // validate

  /** The failing rows of one criterion: `check(variable, c, filters, ret_true=False)`. */
  function Violations(data: seq<Observation>, criterion: (string, Check), filters: Filters)
    : Result<seq<Observation>, Error>
    requires SupportedFilters(filters) && VariablePattern(criterion.0)
  {
    var outcome :- CheckOutcome(data, criterion.0, criterion.1, filters, false);
    Ok(outcome.rows)
  }

  /** `prefix` in front of a report, unless the report is an error. */
  function Prepend(prefix: seq<Observation>, r: Result<seq<Observation>, Error>): Result<seq<Observation>, Error> {
    if r.Ok? then Ok(prefix + r.value) else r
  }

  /** Repeated `DataFrame.append`: the rows of every result in order, or the first error. */
  function Collect(results: seq<Result<seq<Observation>, Error>>): (r: Result<seq<Observation>, Error>)
    ensures r.Err? ==> exists j :: 0 <= j < |results| && results[j] == r
    ensures r.Ok? ==> forall j :: 0 <= j < |results| ==> results[j].Ok?
  {
    if results == [] then Ok([])
    else
      var rest := Collect(results[1..]);
      assert forall j :: 0 <= j < |results| - 1 ==> results[1..][j] == results[j + 1];
      match results[0]
      case Err(e) => Err(e)
      case Ok(rows) => Prepend(rows, rest)
  }

  /** Result `j` is the first error of `results`: every result before it is Ok. */
  predicate FirstErrAt<R>(results: seq<Result<R, Error>>, j: int) {
    0 <= j < |results| && results[j].Err? && forall i :: 0 <= i < j ==> results[i].Ok?
  }

  /** Repeated `append` stops at the first check that raises: the error is the first one in order. */
  lemma {:induction false} CollectFirstError(results: seq<Result<seq<Observation>, Error>>)
    ensures Collect(results).Err? ==> exists j :: FirstErrAt(results, j) && results[j] == Collect(results)
  {
    if results != [] && Collect(results).Err? {
      if results[0].Err? {
        assert FirstErrAt(results, 0);
      } else {
        var tail := results[1..];
        CollectFirstError(tail);
        var j :| FirstErrAt(tail, j) && tail[j] == Collect(tail);
        forall i | 0 <= i < j + 1 ensures results[i].Ok? {
          if i > 0 {
            assert results[i] == tail[i - 1];
          }
        }
        assert results[j + 1] == tail[j];
        assert FirstErrAt(results, j + 1);
      }
    }
  }

  /** A collected row comes from some result, every row of every result is collected, and nothing else. */
  lemma {:induction false} CollectConcatenates(results: seq<Result<seq<Observation>, Error>>)
    ensures Collect(results).Ok? <==> forall j :: 0 <= j < |results| ==> results[j].Ok?
    ensures Collect(results).Ok? ==> forall o :: o in Collect(results).value <==>
              exists j :: 0 <= j < |results| && o in results[j].value
    ensures Collect(results).Ok? ==>
              (Collect(results).value == [] <==> forall j :: 0 <= j < |results| ==> results[j].value == [])
  {
    if results != [] {
      var tail := results[1..];
      assert forall j :: 0 <= j < |tail| ==> tail[j] == results[j + 1];
      CollectConcatenates(tail);
      if Collect(results).Ok? {
        var first := results[0].value;
        assert Collect(results).value == first + Collect(tail).value;
        forall o | o in Collect(results).value ensures exists j :: 0 <= j < |results| && o in results[j].value {
          if o !in first {
            var j :| 0 <= j < |tail| && o in tail[j].value;
            assert o in results[j + 1].value;
          }
        }
        forall o, j | 0 <= j < |results| && o in results[j].value ensures o in Collect(results).value {
          if j > 0 {
            assert o in tail[j - 1].value;
          }
        }
      }
    }
  }

  /** Each criterion's violations, in criteria order. */
  function ViolationsPerCriterion(data: seq<Observation>, criteria: Criteria, filters: Filters)
    : (r: seq<Result<seq<Observation>, Error>>)
    requires SupportedFilters(filters) && SupportedCriteria(criteria)
    ensures |r| == |criteria| && forall j :: 0 <= j < |criteria| ==> r[j] == Violations(data, criteria[j], filters)
  {
    seq(|criteria|, j requires 0 <= j < |criteria| =>
      assert criteria[j] in criteria; Violations(data, criteria[j], filters))
  }

  /**
   * The violation report of `validate`: each criterion's failing rows, concatenated in criteria
   * order, or the first error a check raises.
   */
  function Report(data: seq<Observation>, criteria: Criteria, filters: Filters): (r: Result<seq<Observation>, Error>)
    requires SupportedFilters(filters) && SupportedCriteria(criteria)
    ensures r.Err? ==> exists j :: 0 <= j < |criteria| && Violations(data, criteria[j], filters) == r
    ensures criteria == [] ==> r == Ok([])
  {
    Collect(ViolationsPerCriterion(data, criteria, filters))
  }

  /**
   * The report is an error iff some check raises; otherwise a row is reported iff some criterion
   * reports it, and the report is empty iff no criterion has a violation.
   */
  lemma ReportCollectsViolations(data: seq<Observation>, criteria: Criteria, filters: Filters)
    requires SupportedFilters(filters) && SupportedCriteria(criteria)
    ensures Report(data, criteria, filters).Ok? <==>
              forall j :: 0 <= j < |criteria| ==> Violations(data, criteria[j], filters).Ok?
    ensures Report(data, criteria, filters).Ok? ==> forall o :: o in Report(data, criteria, filters).value <==>
              exists j :: 0 <= j < |criteria| && o in Violations(data, criteria[j], filters).value
    ensures Report(data, criteria, filters).Ok? ==> (Report(data, criteria, filters).value == [] <==>
              forall j :: 0 <= j < |criteria| ==> Violations(data, criteria[j], filters).value == [])
  {
    CollectConcatenates(ViolationsPerCriterion(data, criteria, filters));
  }

  /** `validate` raises the error of the FIRST criterion whose check raises. */
  lemma ReportFirstError(data: seq<Observation>, criteria: Criteria, filters: Filters)
    requires SupportedFilters(filters) && SupportedCriteria(criteria)
    ensures Report(data, criteria, filters).Err? ==>
              exists j :: 0 <= j < |criteria| && Violations(data, criteria[j], filters) == Report(data, criteria, filters)
                && forall i :: 0 <= i < j ==> Violations(data, criteria[i], filters).Ok?
  {
    var results := ViolationsPerCriterion(data, criteria, filters);
    CollectFirstError(results);
    if Report(data, criteria, filters).Err? {
      var j :| FirstErrAt(results, j) && results[j] == Collect(results);
      assert forall i :: 0 <= i < j ==> results[i] == Violations(data, criteria[i], filters);
    }
  }

  /** One step of the report loop: append the rows of result `j`, or stop at its error. */
  lemma CollectStep(results: seq<Result<seq<Observation>, Error>>, j: nat, report: seq<Observation>)
    requires j < |results|
    ensures results[j].Err? ==> Prepend(report, Collect(results[j..])) == results[j]
    ensures results[j].Ok? ==>
              Prepend(report, Collect(results[j..])) == Prepend(report + results[j].value, Collect(results[j + 1..]))
  {
    assert results[j..][0] == results[j] && results[j..][1..] == results[j + 1..];
    var rest := Collect(results[j + 1..]);
    if results[j].Ok? && rest.Ok? {
      assert report + (results[j].value + rest.value) == (report + results[j].value) + rest.value;
    }
  }

  /** The result of criterion `j`'s check in failing mode is its entry in the per-criterion list. */
  lemma ViolationsOfCheck(data: seq<Observation>, criteria: Criteria, filters: Filters, j: nat,
                          failed: Result<CheckResult, Error>)
    requires SupportedFilters(filters) && SupportedCriteria(criteria) && j < |criteria|
    requires VariablePattern(criteria[j].0)
    requires failed == CheckOutcome(data, criteria[j].0, criteria[j].1, filters, false)
    ensures failed.Err? ==> ViolationsPerCriterion(data, criteria, filters)[j] == Err(failed.error)
    ensures failed.Ok? ==> ViolationsPerCriterion(data, criteria, filters)[j] == Ok(failed.value.rows)
  {
  }

  /**
   * `validate(criteria, filters, exclude)`: append each criterion's failing rows to an initially
   * empty report. An empty report means every criterion holds; with `exclude` a non-empty report
   * is an error, because excluding failing scenarios is not supported.
   */
  method Validate(data: seq<Observation>, criteria: Criteria, filters: Filters, exclude: bool)
    returns (r: Result<seq<Observation>, Error>)
    requires SupportedFilters(filters) && SupportedCriteria(criteria)
    ensures Report(data, criteria, filters).Err? ==> r == Report(data, criteria, filters)
    ensures Report(data, criteria, filters).Ok? ==>
              r == if Report(data, criteria, filters).value != [] && exclude then Err(ExcludeNotSupported)
                   else Report(data, criteria, filters)
  {
    ghost var results := ViolationsPerCriterion(data, criteria, filters);
    ghost var all := Collect(results);
    var report: seq<Observation> := [];
    assert results[0..] == results;
    assert all.Ok? ==> [] + all.value == all.value;
    for j := 0 to |criteria|
      invariant all == Prepend(report, Collect(results[j..]))
    {
      assert criteria[j] in criteria;
      var failed := CheckVariable(data, criteria[j].0, criteria[j].1, filters, false);
      ViolationsOfCheck(data, criteria, filters, j, failed);
      CollectStep(results, j, report);
      if failed.Err? {
        return Err(failed.error);
      }
      report := report + failed.value.rows;
    }
    assert results[|criteria|..] == [];
    assert report + [] == report;
    assert all == Ok(report);
    if |report| > 0 && exclude {
      return Err(ExcludeNotSupported);
    }
    r := Ok(report);
  }

  // ---------------------------------------------------------------------------------------------
  // The shared filter dict, as written

  /**
   * As written, `check` stores `year` and `variable` into the caller's dict unless that dict is
   * empty, and `category` and `validate` hand one dict to every criterion. This is that dict as it
   * stands when criterion `j` is checked.
   */
  function SharedFilters(filters: Filters, criteria: Criteria, j: nat): (r: Filters)
    requires j <= |criteria|
    ensures filters == [] ==> r == []
    ensures filters != [] && j > 0 ==> ("variable", Str(criteria[j - 1].0)) in r
    ensures filters != [] && j > 0 && criteria[j - 1].1.year.Some? ==> ("year", criteria[j - 1].1.year.value) in r
  {
    if filters == [] || j == 0 then filters
    else EffectiveFilters(SharedFilters(filters, criteria, j - 1), criteria[j - 1].0, criteria[j - 1].1)
  }

  /** The dict criterion `j`'s check selects with, as written. */
  function LeakedFilters(filters: Filters, criteria: Criteria, j: nat): (r: Filters)
    requires j < |criteria|
    ensures filters == [] || j == 0 ==> r == EffectiveFilters(filters, criteria[j].0, criteria[j].1)
  {
    EffectiveFilters(SharedFilters(filters, criteria, j), criteria[j].0, criteria[j].1)
  }

  /** The per-criterion example of the finding: caller filters, two criteria, and a 2020 row. */
  const ExampleFilters: Filters := [("region", Str("World"))]
  const ExampleCriteria: Criteria :=
    [("Primary Energy", Check([Up(1.0)], Some(Int(2010)))), ("Emissions", Check([Up(1.0)], None))]
  const ExampleRow := Observation("m", "s", "World", "Emissions", "Mt/yr", 2020, 0.5)

  lemma ExampleSupported()
    ensures SupportedFilters(ExampleFilters) && SupportedCriteria(ExampleCriteria)
  {
    assert PatternsOf("region", Str("World")).value == ["World"];
    assert LiteralPattern("World");
    assert VariablePattern("Primary Energy") && VariablePattern("Emissions");
  }

  /**
   * The year of one criterion stays in force for the next: with a region filter, the check of a
   * criterion without `year` that follows one with `year: 2010` still selects 2010 only.
   */
  lemma YearLeaksIntoLaterCriterion()
    ensures ("year", Int(2010)) in LeakedFilters(ExampleFilters, ExampleCriteria, 1)
    ensures forall e :: e in EffectiveFilters(ExampleFilters, "Emissions", ExampleCriteria[1].1) ==> e.0 != "year"
  {
    var shared := SharedFilters(ExampleFilters, ExampleCriteria, 1);
    assert ("year", Int(2010)) in shared;
    assert ExampleCriteria[1].1.year.None?;
  }

  lemma ExampleOwnFilters()
    ensures EffectiveFilters(ExampleFilters, "Emissions", ExampleCriteria[1].1)
         == [("region", Str("World")), ("variable", Str("Emissions"))]
  {
    assert ExampleCriteria[1].1.year.None?;
    assert !exists e :: e in ExampleFilters && e.0 == "variable";
  }

  lemma ExampleVariableMatches()
    ensures VariablePattern("Emissions") && Matches("Emissions", "Emissions", true)
  {
    assert '*' !in "Emissions";
    VariableLiteralMatch("Emissions", "Emissions");
  }

  /**
   * So a 2020 row of the second criterion's variable, in the filtered region, is examined by the
   * per-criterion filters ...
   */
  lemma PerCriterionFiltersKeepRow()
    ensures SupportedFilters(ExampleFilters) && VariablePattern("Emissions")
    ensures RowSatisfies(ExampleRow, EffectiveFilters(ExampleFilters, "Emissions", ExampleCriteria[1].1))
  {
    ExampleSupported();
    assert ExampleCriteria[1] in ExampleCriteria;
    ExampleOwnFilters();
    RegionEntry(ExampleRow, "World");
    ExampleVariableMatches();
    VariableEntry(ExampleRow, "Emissions");
  }

  /** ... and silently skipped by the shared ones. */
  lemma SharedFiltersDropRow()
    ensures SupportedFilters(LeakedFilters(ExampleFilters, ExampleCriteria, 1))
    ensures !RowSatisfies(ExampleRow, LeakedFilters(ExampleFilters, ExampleCriteria, 1))
  {
    ExampleSupported();
    assert ExampleCriteria[0] in ExampleCriteria && ExampleCriteria[1] in ExampleCriteria;
    var shared := SharedFilters(ExampleFilters, ExampleCriteria, 1);
    assert shared == EffectiveFilters(ExampleFilters, ExampleCriteria[0].0, ExampleCriteria[0].1);
    assert SupportedFilters(shared);
    var leaked := LeakedFilters(ExampleFilters, ExampleCriteria, 1);
    assert SupportedFilters(leaked);
    YearLeaksIntoLaterCriterion();
    OtherYearFailsRow(ExampleRow, leaked, ("year", Int(2010)));
  }

  /** A dict holding `year: 2010` selects no row of another year. */
  lemma OtherYearFailsRow(o: Observation, filters: Filters, e: (string, FilterValue))
    requires SupportedFilters(filters) && e in filters && e == ("year", Int(2010)) && o.year != 2010
    ensures !RowSatisfies(o, filters)
  {
    assert !EntryHolds(o, e);
  }
}
