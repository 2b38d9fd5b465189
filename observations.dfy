/**
 * The long-format IAMC table: one observation per (model, scenario, region, variable, unit, year),
 * the (model, scenario) keys that categories are attached to, the errors the engine raises, and
 * the two table operations pandas performs for it (boolean-mask row selection and
 * `drop_duplicates`).
 */
module Observations {
  import opened Wrappers

  /** One row of the table after loading: the IAMC index columns, the year and the value. */
  datatype Observation = Observation(
    model: string,
    scenario: string,
    region: string,
    variable: string,
    unit: string,
    year: int,
    value: real)

  /** The (model, scenario) pair, the unit of categorization. */
  datatype Key = Key(model: string, scenario: string)

  function KeyOf(o: Observation): Key {
    Key(o.model, o.scenario)
  }

  /** The exceptions the core raises; each aborts the call that raised it. */
  datatype Error =
    | UnsupportedFilterColumn(column: string)  // select: a filter key that is not an axis
    | UnsupportedYearFilter                    // keep_col_yr: a year filter that is not int, list or range
    | NonStringPattern(column: string)         // keep_col_match: an int, or a non-empty list/range of ints
    | UnknownColumn(column: string)            // select: projecting onto a column the table lacks
    | MissingCriteria                          // category: no criteria and no name to read
    | ExcludeNotSupported                      // validate: exclude=True with violations
    | InvertFloatMask                          // check: `~` on the float64 mask of an empty, bound-free check

  predicate NoDuplicates<T(==, !new)>(s: seq<T>) {
    forall i, j :: 0 <= i < j < |s| ==> s[i] != s[j]
  }

  /** pandas `drop_duplicates()`: the first occurrence of every element, in order. */
  function Dedup<T(==, !new)>(s: seq<T>): (r: seq<T>)
    ensures NoDuplicates(r)
    ensures forall x :: x in r <==> x in s
    ensures |r| <= |s|
  {
    if s == [] then []
    else
      var earlier := Dedup(s[..|s| - 1]);
      if s[|s| - 1] in earlier then earlier else earlier + [s[|s| - 1]]
  }

  /** The position of the first occurrence of `x` in `s`. */
  function FirstIndex<T(==)>(s: seq<T>, x: T): (r: nat)
    requires x in s
    ensures r < |s| && s[r] == x
    ensures forall j :: 0 <= j < r ==> s[j] != x
  {
    if x in s[..|s| - 1] then FirstIndex(s[..|s| - 1], x) else |s| - 1
  }

  /** `drop_duplicates()` keeps the survivors in the order of their first occurrences. */
  lemma {:induction false} DedupKeepsFirstOccurrenceOrder<T(!new)>(s: seq<T>, i: int, j: int)
    requires 0 <= i < j < |Dedup(s)|
    ensures Dedup(s)[i] in s && Dedup(s)[j] in s
    ensures FirstIndex(s, Dedup(s)[i]) < FirstIndex(s, Dedup(s)[j])
  {
    var init := s[..|s| - 1];
    var earlier := Dedup(init);
    var last := s[|s| - 1];
    if last in earlier {
      DedupKeepsFirstOccurrenceOrder(init, i, j);
    } else if j < |earlier| {
      DedupKeepsFirstOccurrenceOrder(init, i, j);
    } else {
      assert Dedup(s)[i] == earlier[i] && earlier[i] in init;
      assert FirstIndex(s, Dedup(s)[i]) == FirstIndex(init, earlier[i]);
    }
  }

  /** Dropping duplicates from a sequence that has none changes nothing. */
  lemma {:induction false} DedupOfDistinct<T(!new)>(s: seq<T>)
    requires NoDuplicates(s)
    ensures Dedup(s) == s
  {
    if s != [] {
      var init := s[..|s| - 1];
      DedupOfDistinct(init);
      forall i | 0 <= i < |init| ensures init[i] != s[|s| - 1] {
        assert init[i] == s[i];
      }
      assert init + [s[|s| - 1]] == s;
    }
  }

  /** Boolean-mask selection `df[keep]`: the rows whose flag is set, in their original order. */
  function Mask<T(==, !new)>(s: seq<T>, keep: seq<bool>): (r: seq<T>)
    requires |keep| == |s|
    ensures |r| <= |s|
    ensures forall x :: x in r <==> exists i :: 0 <= i < |s| && keep[i] && s[i] == x
    ensures (forall i :: 0 <= i < |s| ==> keep[i]) ==> r == s
  {
    if s == [] then []
    else
      var rest := Mask(s[1..], keep[1..]);
      assert forall x :: x in rest <==> exists i :: 1 <= i < |s| && keep[i] && s[i] == x by {
        forall x | x in rest ensures exists i :: 1 <= i < |s| && keep[i] && s[i] == x {
          var j :| 0 <= j < |s| - 1 && keep[1..][j] && s[1..][j] == x;
          assert keep[j + 1] && s[j + 1] == x;
        }
        forall x | exists i :: 1 <= i < |s| && keep[i] && s[i] == x ensures x in rest {
          var i :| 1 <= i < |s| && keep[i] && s[i] == x;
          assert keep[1..][i - 1] && s[1..][i - 1] == x;
        }
      }
      (if keep[0] then [s[0]] else []) + rest
  }

  /** The positions whose flag is set, in increasing order. */
  function KeptPositions(keep: seq<bool>): (r: seq<nat>)
    ensures forall i :: 0 <= i < |r| ==> r[i] < |keep| && keep[r[i]]
    ensures forall i, j :: 0 <= i < j < |r| ==> r[i] < r[j]
  {
    if keep == [] then []
    else
      var tail := KeptPositions(keep[1..]);
      var shifted := seq(|tail|, i requires 0 <= i < |tail| => tail[i] + 1);
      if keep[0] then [0] + shifted else shifted
  }

  /** A masked selection lists the kept rows in their original order: the i-th kept row is row `KeptPositions(keep)[i]`. */
  lemma {:induction false} MaskKeepsOrder<T(!new)>(s: seq<T>, keep: seq<bool>)
    requires |keep| == |s|
    ensures |Mask(s, keep)| == |KeptPositions(keep)|
    ensures forall i :: 0 <= i < |Mask(s, keep)| ==> Mask(s, keep)[i] == s[KeptPositions(keep)[i]]
  {
    if s != [] {
      MaskKeepsOrder(s[1..], keep[1..]);
      var rest := Mask(s[1..], keep[1..]);
      var tail := KeptPositions(keep[1..]);
      forall i | 0 <= i < |rest| ensures rest[i] == s[tail[i] + 1] {
        assert s[1..][tail[i]] == s[tail[i] + 1];
      }
      var shifted := seq(|tail|, i requires 0 <= i < |tail| => tail[i] + 1);
      if keep[0] {
        assert Mask(s, keep) == [s[0]] + rest;
        assert KeptPositions(keep) == [0] + shifted;
      } else {
        assert Mask(s, keep) == rest;
        assert KeptPositions(keep) == shifted;
      }
    }
  }

  /** The key column of the table, row by row. */
  function KeyColumn(data: seq<Observation>): (r: seq<Key>)
    ensures |r| == |data|
    ensures forall i :: 0 <= i < |data| ==> r[i] == KeyOf(data[i])
  {
    seq(|data|, i requires 0 <= i < |data| => KeyOf(data[i]))
  }

  /** The index of the label table: every key of the table once, in order of first appearance. */
  function EntityKeys(data: seq<Observation>): (r: seq<Key>)
    ensures NoDuplicates(r)
    ensures forall k :: k in r <==> exists o :: o in data && KeyOf(o) == k
  {
    var keys := KeyColumn(data);
    assert forall k :: k in keys <==> exists o :: o in data && KeyOf(o) == k by {
      forall k | k in keys ensures exists o :: o in data && KeyOf(o) == k {
        var i :| 0 <= i < |keys| && keys[i] == k;
        assert data[i] in data;
      }
      forall k | exists o :: o in data && KeyOf(o) == k ensures k in keys {
        var o :| o in data && KeyOf(o) == k;
        var i :| 0 <= i < |data| && data[i] == o;
        assert keys[i] == k;
      }
    }
    Dedup(keys)
  }
}
