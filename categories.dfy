/**
 * The categorization table of `IamDataFrame`: one label cell per (model, scenario) key of the
 * data, initially empty (NaN), which `category` reads or writes.
 *
 * `category(name, criteria, filters, assign)` either lists the keys labelled `name` (when `name`
 * is given and `criteria` is empty or absent), or intersects the full key index with the passing
 * keys of `check` for every criterion and, when that leaves at least one key and `assign` holds,
 * labels those keys `name`, overwriting any earlier label.
 */
module Categories {
  import opened Wrappers
  import opened Observations
  import opened Patterns
  import opened Selection
  import opened Criteria

  /** A label cell: `None` stands for the NaN every key starts with. */
  type Labels = map<Key, Option<string>>

  /** `self.cat[self.cat.category == name].index`: the keys labelled `name`, in index order. NaN equals nothing. */
  function Labelled(index: seq<Key>, labels: Labels, name: string): (r: seq<Key>)
    ensures forall k :: k in r <==> k in index && k in labels && labels[k] == Some(name)
    ensures |r| <= |index|
    ensures NoDuplicates(index) ==> NoDuplicates(r)
  {
    if index == [] then []
    else
      var rest := Labelled(index[1..], labels, name);
      assert forall k :: k in index <==> k == index[0] || k in index[1..];
      if index[0] in labels && labels[index[0]] == Some(name) then
        assert NoDuplicates(index) ==> index[0] !in index[1..] by {
          if NoDuplicates(index) {
            forall i | 0 <= i < |index| - 1 ensures index[1..][i] != index[0] {
              assert index[1..][i] == index[i + 1];
            }
          }
        }
        assert NoDuplicates(index) ==> NoDuplicates(index[1..]) by {
          if NoDuplicates(index) {
            forall i, j | 0 <= i < j < |index| - 1 ensures index[1..][i] != index[1..][j] {
              assert index[1..][i] == index[i + 1] && index[1..][j] == index[j + 1];
            }
          }
        }
        [index[0]] + rest
      else
        assert NoDuplicates(index) ==> NoDuplicates(index[1..]) by {
          if NoDuplicates(index) {
            forall i, j | 0 <= i < j < |index| - 1 ensures index[1..][i] != index[1..][j] {
              assert index[1..][i] == index[i + 1] && index[1..][j] == index[j + 1];
            }
          }
        }
        rest
  }

  /** `self.cat.loc[q, 'category'] = name`: the keys of `q` get label `name`, every other cell is kept. */
  function Relabel(labels: Labels, q: set<Key>, name: string): (r: Labels)
    ensures r.Keys == labels.Keys
    ensures forall k :: k in r && k in q ==> r[k] == Some(name)
    ensures forall k :: k in r && k !in q ==> r[k] == labels[k]
  {
    map k | k in labels :: if k in q then Some(name) else labels[k]
  }

  /** Assigning the same keys the same name twice is the same as assigning them once. */
  lemma RelabelIdempotent(labels: Labels, q: set<Key>, name: string)
    ensures Relabel(Relabel(labels, q, name), q, name) == Relabel(labels, q, name)
  {
  }

  /** A later assignment of the same keys replaces the earlier name entirely. */
  lemma RelabelOverwrites(labels: Labels, q: set<Key>, first: string, second: string)
    ensures Relabel(Relabel(labels, q, first), q, second) == Relabel(labels, q, second)
  {
  }

  /**
   * After an assignment the keys listed under any name are: the assigned keys if the name is the
   * assigned one, and otherwise the unassigned keys that carried that name before.
   */
  lemma ListedAfterAssignment(index: seq<Key>, labels: Labels, q: set<Key>, name: string, other: string)
    ensures forall k :: k in Labelled(index, Relabel(labels, q, name), other) <==>
              k in index && k in labels && (if k in q then name == other else labels[k] == Some(other))
  {
  }

  /** The table right after construction: every key of the data, every label NaN. */
  function Unlabelled(index: seq<Key>): (r: Labels)
    ensures r.Keys == set k | k in index
    ensures forall k :: k in r ==> r[k].None?
  {
    map k | k in index :: None
  }

  /** A table of NaN labels lists nothing under any name. */
  lemma {:induction false} NothingListedWhenUnlabelled(index: seq<Key>, labels: Labels, name: string)
    requires forall k :: k in labels ==> labels[k].None?
    ensures Labelled(index, labels, name) == []
  {
    if index != [] {
      NothingListedWhenUnlabelled(index[1..], labels, name);
    }
  }

  /** Nothing is listed under any name before a first assignment. */
  lemma NothingListedInitially(index: seq<Key>, name: string)
    ensures Labelled(index, Unlabelled(index), name) == []
  {
    NothingListedWhenUnlabelled(index, Unlabelled(index), name);

  }

  // ---------------------------------------------------------------------------------------------
  // Qualification

  /** Repeated `Index.intersection`: the keys that pass every result, or the first error. */
  function Narrow(keys: set<Key>, results: seq<Result<set<Key>, Error>>): (r: Result<set<Key>, Error>)
    ensures r.Ok? ==> r.value <= keys
    ensures r.Err? ==> exists j :: 0 <= j < |results| && results[j] == r
  {
    if results == [] then Ok(keys)
    else
      match results[0]
      case Err(e) => Err(e)
      case Ok(passing) =>
        assert forall j :: 0 <= j < |results| - 1 ==> results[1..][j] == results[j + 1];
        Narrow(keys * passing, results[1..])
  }

  /** Narrowing fails iff some result is an error, and otherwise keeps exactly the keys every result passes. */
  lemma {:induction false} NarrowIntersects(keys: set<Key>, results: seq<Result<set<Key>, Error>>)
    ensures Narrow(keys, results).Ok? <==> forall j :: 0 <= j < |results| ==> results[j].Ok?
    ensures Narrow(keys, results).Ok? ==> forall k :: k in Narrow(keys, results).value <==>
              k in keys && forall j :: 0 <= j < |results| ==> k in results[j].value
  {
    if results != [] {
      var tail := results[1..];
      assert forall j :: 0 <= j < |tail| ==> tail[j] == results[j + 1];
      if results[0].Ok? {
        NarrowIntersects(keys * results[0].value, tail);
        if Narrow(keys, results).Ok? {
          forall k | k in keys && (forall j :: 0 <= j < |results| ==> k in results[j].value)
            ensures k in Narrow(keys, results).value
          {
            assert k in results[0].value;
            forall j | 0 <= j < |tail| ensures k in tail[j].value {
              assert k in results[j + 1].value;
            }
          }
        }
      }
    }
  }

  /** The narrowing loop stops at the first check that raises: the error is the first one in order. */
  lemma {:induction false} NarrowFirstError(keys: set<Key>, results: seq<Result<set<Key>, Error>>)
    ensures Narrow(keys, results).Err? ==> exists j :: FirstErrAt(results, j) && results[j] == Narrow(keys, results)
  {
    if results != [] && Narrow(keys, results).Err? {
      if results[0].Err? {
        assert FirstErrAt(results, 0);
      } else {
        var tail := results[1..];
        NarrowFirstError(keys * results[0].value, tail);
        var j :| FirstErrAt(tail, j) && tail[j] == Narrow(keys * results[0].value, tail);
        forall i | 0 <= i < j + 1 ensures results[i].Ok? {
          if i > 0 {
            assert results[i] == tail[i - 1];
          }
        }
        assert results[j + 1] == tail[j];
        assert FirstErrAt(results, j + 1);
      }
    }
  }

  /** One step of the narrowing loop: intersect with result `j`, or stop at its error. */
  lemma NarrowStep(keys: set<Key>, results: seq<Result<set<Key>, Error>>, j: nat)
    requires j < |results|
    ensures results[j].Err? ==> Narrow(keys, results[j..]) == results[j]
    ensures results[j].Ok? ==> Narrow(keys, results[j..]) == Narrow(keys * results[j].value, results[j + 1..])
  {
    assert results[j..][0] == results[j] && results[j..][1..] == results[j + 1..];
  }

  /** The keys `check(variable, c, filters)` returns in satisfying mode, or its error. */
  function PassingOf(data: seq<Observation>, criterion: (string, Check), filters: Filters): Result<set<Key>, Error>
    requires SupportedFilters(filters) && VariablePattern(criterion.0)
  {
    var outcome :- CheckOutcome(data, criterion.0, criterion.1, filters, true);
    Ok(outcome.keys)
  }

  function PassingPerCriterion(data: seq<Observation>, criteria: Criteria, filters: Filters)
    : (r: seq<Result<set<Key>, Error>>)
    requires SupportedFilters(filters) && SupportedCriteria(criteria)
    ensures |r| == |criteria| && forall j :: 0 <= j < |criteria| ==> r[j] == PassingOf(data, criteria[j], filters)
  {
    seq(|criteria|, j requires 0 <= j < |criteria| =>
      assert criteria[j] in criteria; PassingOf(data, criteria[j], filters))
  }

  /** The keys of the index, as a set. */
  function IndexSet(index: seq<Key>): (r: set<Key>)
    ensures forall k :: k in r <==> k in index
  {
    set k | k in index
  }

  /** The keys of the index that pass every criterion, or the first error a check raises. */
  function Qualification(data: seq<Observation>, index: seq<Key>, criteria: Criteria, filters: Filters)
    : (r: Result<set<Key>, Error>)
    requires SupportedFilters(filters) && SupportedCriteria(criteria)
    ensures r.Ok? ==> forall k :: k in r.value ==> k in index
    ensures r.Err? ==> exists j :: 0 <= j < |criteria| && PassingOf(data, criteria[j], filters) == r
  {
    Narrow(IndexSet(index), PassingPerCriterion(data, criteria, filters))
  }

  /** `category` raises the error of the FIRST criterion whose check raises. */
  lemma QualificationFirstError(data: seq<Observation>, index: seq<Key>, criteria: Criteria, filters: Filters)
    requires SupportedFilters(filters) && SupportedCriteria(criteria)
    ensures Qualification(data, index, criteria, filters).Err? ==>
              exists j :: 0 <= j < |criteria| && PassingOf(data, criteria[j], filters) == Qualification(data, index, criteria, filters)
                && forall i :: 0 <= i < j ==> PassingOf(data, criteria[i], filters).Ok?
  {
    var results := PassingPerCriterion(data, criteria, filters);
    NarrowFirstError(IndexSet(index), results);
    if Qualification(data, index, criteria, filters).Err? {
      var j :| FirstErrAt(results, j) && results[j] == Narrow(IndexSet(index), results);
      assert forall i :: 0 <= i < j ==> results[i] == PassingOf(data, criteria[i], filters);
    }
  }

  /**
   * A key qualifies iff it is in the index and passes every criterion's check; the qualifying keys
   * are a subset of the index, and with no criteria every key of the index qualifies.
   */
  lemma QualifyingKeys(data: seq<Observation>, index: seq<Key>, criteria: Criteria, filters: Filters)
    requires SupportedFilters(filters) && SupportedCriteria(criteria)
    ensures Qualification(data, index, criteria, filters).Ok? <==>
              forall j :: 0 <= j < |criteria| ==> PassingOf(data, criteria[j], filters).Ok?
    ensures Qualification(data, index, criteria, filters).Ok? ==>
              forall k :: k in Qualification(data, index, criteria, filters).value <==>
                k in index && forall j :: 0 <= j < |criteria| ==> k in PassingOf(data, criteria[j], filters).value
    ensures criteria == [] ==> Qualification(data, index, criteria, filters) == Ok(IndexSet(index))
  {
    NarrowIntersects(IndexSet(index), PassingPerCriterion(data, criteria, filters));
  }

  // ---------------------------------------------------------------------------------------------
  // category

  /** What `category` hands back: the listed keys (read) or the qualifying keys (assign). */
  datatype CategoryResult = Listed(members: seq<Key>) | Qualified(qualifying: set<Key>)

  /** `name and not criteria`: the call only reads the table. */
  predicate ReadOnly(name: string, criteria: Option<Criteria>) {
    name != "" && (criteria.None? || criteria.value == [])
  }

  /** The label table after `category(name, criteria, filters, assign)`. */
  function Categorized(data: seq<Observation>, index: seq<Key>, labels: Labels, name: string,
                       criteria: Option<Criteria>, filters: Filters, assign: bool): (r: Labels)
    requires SupportedFilters(filters) && (criteria.Some? ==> SupportedCriteria(criteria.value))
    ensures r.Keys == labels.Keys
    ensures forall k :: k in r && r[k] != labels[k] ==> r[k] == Some(name) && assign
    ensures ReadOnly(name, criteria) || criteria.None? ==> r == labels
  {
    if ReadOnly(name, criteria) || criteria.None? then labels
    else
      match Qualification(data, index, criteria.value, filters)
      case Err(_) => labels
      case Ok(q) => if |q| > 0 && assign then Relabel(labels, q, name) else labels
  }

  /** Once the qualification is known, the new table is the relabelled one or the old one. */
  lemma CategorizedBy(data: seq<Observation>, index: seq<Key>, labels: Labels, name: string,
                      criteria: Criteria, filters: Filters, assign: bool, q: Result<set<Key>, Error>)
    requires SupportedFilters(filters) && SupportedCriteria(criteria) && !ReadOnly(name, Some(criteria))
    requires q == Qualification(data, index, criteria, filters)
    ensures q.Err? ==> Categorized(data, index, labels, name, Some(criteria), filters, assign) == labels
    ensures q.Ok? ==> Categorized(data, index, labels, name, Some(criteria), filters, assign) ==
                        (if |q.value| > 0 && assign then Relabel(labels, q.value, name) else labels)
  {
  }

  /**
   * Categorizing twice with the same arguments leaves the table as categorizing once: the
   * qualifying keys do not depend on the labels, and relabelling is idempotent.
   */
  lemma CategorizeIdempotent(data: seq<Observation>, index: seq<Key>, labels: Labels, name: string,
                             criteria: Option<Criteria>, filters: Filters, assign: bool)
    requires SupportedFilters(filters) && (criteria.Some? ==> SupportedCriteria(criteria.value))
    ensures var once := Categorized(data, index, labels, name, criteria, filters, assign);
            Categorized(data, index, once, name, criteria, filters, assign) == once
  {
    if !ReadOnly(name, criteria) && criteria.Some? {
      var result := Qualification(data, index, criteria.value, filters);
      if result.Ok? && |result.value| > 0 && assign {
        RelabelIdempotent(labels, result.value, name);
      }
    }
  }

  /**
   * Whatever the call, only qualifying keys (see `QualifyingKeys`) change their label, and they
   * change to `name`; a read, an error, an empty qualification or `assign = False` changes nothing.
   */
  lemma CategorizeChangesOnlyQualifying(data: seq<Observation>, index: seq<Key>, labels: Labels, name: string,
                                        criteria: Option<Criteria>, filters: Filters, assign: bool, k: Key)
    requires SupportedFilters(filters) && (criteria.Some? ==> SupportedCriteria(criteria.value))
    requires k in labels
    ensures var after := Categorized(data, index, labels, name, criteria, filters, assign);
            && after.Keys == labels.Keys
            && (after[k] != labels[k] ==>
                  && after[k] == Some(name) && assign && criteria.Some? && !ReadOnly(name, criteria)
                  && Qualification(data, index, criteria.value, filters).Ok?
                  && k in Qualification(data, index, criteria.value, filters).value)
  {
    var after := Categorized(data, index, labels, name, criteria, filters, assign);
    if !ReadOnly(name, criteria) && criteria.Some? {
      var result := Qualification(data, index, criteria.value, filters);
      if result.Ok? && |result.value| > 0 && assign {
        assert after == Relabel(labels, result.value, name);
      } else {
        assert after == labels;
      }
    } else {
      assert after == labels;
    }
  }

  /** The in-memory frame: the data, the key index built from it, and the mutable label column. */
  class IamDataFrame {
    const data: seq<Observation>
    const index: seq<Key>
    var labels: Labels

    ghost predicate Valid()
      reads this
    {
      index == EntityKeys(data) && labels.Keys == set k | k in index
    }

    /** `self.cat = data[['model', 'scenario']].drop_duplicates()...; self.cat['category'] = nan`. */
    constructor (data: seq<Observation>)
      ensures Valid()
      ensures this.data == data
      ensures labels == Unlabelled(EntityKeys(data))
    {
      this.data := data;
      index := EntityKeys(data);
      labels := Unlabelled(EntityKeys(data));
    }

    /**
     * `category(name, criteria, filters, assign)`. A read lists the keys labelled `name`; otherwise
     * missing criteria are an error, and each criterion narrows the index to the keys its check
     * passes; a check that raises leaves the table untouched.
     */
    method Category(name: string, criteria: Option<Criteria>, filters: Filters, assign: bool)
      returns (r: Result<CategoryResult, Error>)
      requires Valid()
      requires SupportedFilters(filters) && (criteria.Some? ==> SupportedCriteria(criteria.value))
      modifies this
      ensures Valid()
      ensures labels == Categorized(data, index, old(labels), name, criteria, filters, assign)
      ensures ReadOnly(name, criteria) ==> r == Ok(Listed(Labelled(index, labels, name)))
      ensures !ReadOnly(name, criteria) && criteria.None? ==> r == Err(MissingCriteria)
      ensures !ReadOnly(name, criteria) && criteria.Some? ==>
                match Qualification(data, index, criteria.value, filters)
                case Err(e) => r == Err(e)
                case Ok(q) => r == Ok(Qualified(q))
    {
      if ReadOnly(name, criteria) {
        return Ok(Listed(Labelled(index, labels, name)));
      }
      if criteria.None? {
        return Err(MissingCriteria);
      }
      var checks := criteria.value;
      ghost var results := PassingPerCriterion(data, checks, filters);
      var cat := IndexSet(index);
      assert results[0..] == results;
      for j := 0 to |checks|
        invariant Qualification(data, index, checks, filters) == Narrow(cat, results[j..])
        invariant labels == old(labels)
      {
        assert checks[j] in checks;
        var passing := CheckVariable(data, checks[j].0, checks[j].1, filters, true);
        NarrowStep(cat, results, j);
        if passing.Err? {
          CategorizedBy(data, index, labels, name, checks, filters, assign, Qualification(data, index, checks, filters));
          return Err(passing.error);
        }
        cat := cat * passing.value.keys;
      }
      assert results[|checks|..] == [];
      CategorizedBy(data, index, labels, name, checks, filters, assign, Qualification(data, index, checks, filters));
      if |cat| > 0 && assign {
        labels := Relabel(labels, cat, name);
      }
      r := Ok(Qualified(cat));
    }
  }
}
