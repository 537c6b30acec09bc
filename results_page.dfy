/**
 * The results page: `loadResults` skips the fetch while the period is
 * flagged active, and `displayResults` groups the accepted applications by
 * the name of their first choice, keeping their order inside each group.
 */
module ResultsPage {
  import opened Common
  import Periods

  /** A row of `/api/applications/accepted` as the page reads it; `firstChoice` is the university's name. */
  datatype ResultRow = ResultRow(firstChoice: string, firstName: string, lastName: string, studentId: string)

  /** `loadResults` fetches the results unless `period.is_active` is truthy; the reply's status is not looked at. */
  predicate ShouldFetch(reply: PeriodReply)
  {
    !(reply.period.Some? && reply.period.value.isActive)
  }

  /** With `/current` failing as written, the page always goes on to fetch the results. */
  lemma AlwaysFetchesAsWritten()
    ensures ShouldFetch(Periods.CurrentAsWritten())
  {
  }

  /** With a working `/current`, the results are fetched exactly when no stored period is flagged active. */
  lemma FetchesIffNoActivePeriod(body: Periods.CurrentBody)
    ensures ShouldFetch(Periods.ViewOf(body)) <==> body.period.None? || !body.period.value.active
  {
  }

  /** The results whose first choice is `key`, in their order: the group `reduce` builds for `key`. */
  function OfKey(results: seq<ResultRow>, key: string): seq<ResultRow>
  {
    if results == [] then []
    else
      var last := results[|results| - 1];
      OfKey(results[..|results| - 1], key) + (if last.firstChoice == key then [last] else [])
  }

  /** A first choice some result names. */
  ghost predicate IsKey(results: seq<ResultRow>, key: string)
  {
    exists j :: 0 <= j < |results| && results[j].firstChoice == key
  }

  /** No key twice. */
  predicate Distinct(keys: seq<string>)
  {
    forall a, b :: 0 <= a < b < |keys| ==> keys[a] != keys[b]
  }

  /**
   * `keys` and `groups` group `rs`: each key once, the keys are exactly the
   * first choices the results name, and each group holds that key's results
   * in their order.
   */
  ghost predicate Grouping(keys: seq<string>, groups: map<string, seq<ResultRow>>, rs: seq<ResultRow>)
  {
    && Distinct(keys)
    && (forall k :: k in groups <==> k in keys)
    && (forall k :: k in groups <==> IsKey(rs, k))
    && (forall k :: k in groups ==> groups[k] == OfKey(rs, k))
  }

  /**
   * The `reduce` of `displayResults`: a group is opened the first time its
   * key is seen, and each result is pushed onto its key's group. `keys` is
   * the order `Object.entries` lists the groups in.
   */
  method GroupByFirstChoice(results: seq<ResultRow>) returns (keys: seq<string>, groups: map<string, seq<ResultRow>>)
    ensures Grouping(keys, groups, results)
  {
    keys, groups := [], map[];
    var i := 0;
    while i < |results|
      invariant 0 <= i <= |results|
      invariant Grouping(keys, groups, results[..i])
    {
      assert results[..i + 1] == results[..i] + [results[i]];
      keys, groups := AddResult(keys, groups, results[..i], results[i]);
      i := i + 1;
    }
    assert results[..i] == results;
  }

  /** One step of the `reduce`: open the key's group if it is new, then push the result onto it. */
  method AddResult(keys: seq<string>, groups: map<string, seq<ResultRow>>, prefix: seq<ResultRow>, result: ResultRow)
    returns (keys': seq<string>, groups': map<string, seq<ResultRow>>)
    requires Grouping(keys, groups, prefix)
    ensures Grouping(keys', groups', prefix + [result])
  {
    var key := result.firstChoice;
    if key !in groups {
      keys' := keys + [key];
      groups' := groups[key := [result]];
      NewKeyKeepsGrouping(keys, groups, prefix, result);
    } else {
      keys' := keys;
      groups' := groups[key := groups[key] + [result]];
      KnownKeyKeepsGrouping(keys, groups, prefix, result);
    }
  }

  /** A result with a new first choice opens a group of its own at the end of the keys. */
  lemma NewKeyKeepsGrouping(keys: seq<string>, groups: map<string, seq<ResultRow>>, prefix: seq<ResultRow>,
                            result: ResultRow)
    requires Grouping(keys, groups, prefix) && result.firstChoice !in groups
    ensures Grouping(keys + [result.firstChoice], groups[result.firstChoice := [result]], prefix + [result])
  {
    var key := result.firstChoice;
    var keys', groups' := keys + [key], groups[key := [result]];
    var rs := prefix + [result];
    GroupStep(prefix, result);
    DistinctAppend(keys, key);
    assert forall k :: k in groups' <==> k in keys';
    assert forall k :: k in groups' <==> IsKey(rs, k);
    assert !IsKey(prefix, key);
    assert OfKey(rs, key) == [result];
    forall k | k in groups' ensures groups'[k] == OfKey(rs, k) {
      if k != key {
        assert groups'[k] == groups[k] == OfKey(prefix, k);
      }
    }
  }

  /** A key not among distinct keys can be added at the end. */
  lemma DistinctAppend(keys: seq<string>, key: string)
    requires Distinct(keys) && key !in keys
    ensures Distinct(keys + [key])
  {
    var keys' := keys + [key];
    forall a, b | 0 <= a < b < |keys'| ensures keys'[a] != keys'[b] {
      if b == |keys| {
        assert keys'[a] == keys[a];
      }
    }
  }

  /** A result whose first choice already has a group is pushed onto that group. */
  lemma KnownKeyKeepsGrouping(keys: seq<string>, groups: map<string, seq<ResultRow>>, prefix: seq<ResultRow>,
                              result: ResultRow)
    requires Grouping(keys, groups, prefix) && result.firstChoice in groups
    ensures Grouping(keys, groups[result.firstChoice := groups[result.firstChoice] + [result]], prefix + [result])
  {
    var key := result.firstChoice;
    var groups' := groups[key := groups[key] + [result]];
    GroupStep(prefix, result);
    forall k | k in groups' ensures groups'[k] == OfKey(prefix + [result], k) {
      if k != key {
        assert groups'[k] == groups[k];
      }
    }
  }

  /** What one more result changes: its own key's group grows by it, and its key becomes a key. */
  lemma {:induction false} GroupStep(prefix: seq<ResultRow>, result: ResultRow)
    ensures forall k :: OfKey(prefix + [result], k) == OfKey(prefix, k) + (if result.firstChoice == k then [result] else [])
    ensures forall k :: IsKey(prefix + [result], k) <==> IsKey(prefix, k) || k == result.firstChoice
    ensures !IsKey(prefix, result.firstChoice) ==> OfKey(prefix, result.firstChoice) == []
  {
    var extended := prefix + [result];
    assert extended[..|extended| - 1] == prefix;
    forall k ensures IsKey(extended, k) <==> IsKey(prefix, k) || k == result.firstChoice {
      if IsKey(extended, k) && k != result.firstChoice {
        var j :| 0 <= j < |extended| && extended[j].firstChoice == k;
        assert prefix[j] == extended[j];
      }
      if IsKey(prefix, k) {
        var j :| 0 <= j < |prefix| && prefix[j].firstChoice == k;
        assert extended[j] == prefix[j];
      }
      if k == result.firstChoice {
        assert extended[|prefix|].firstChoice == k;
      }
    }
    if !IsKey(prefix, result.firstChoice) {
      NoResultsNoGroup(prefix, result.firstChoice);
    }
  }

  /** A key no result names has an empty group. */
  lemma {:induction false} NoResultsNoGroup(rs: seq<ResultRow>, key: string)
    requires !IsKey(rs, key)
    ensures OfKey(rs, key) == []
  {
    if rs != [] {
      var init := rs[..|rs| - 1];
      assert forall j :: 0 <= j < |init| ==> init[j] == rs[j];
      NoResultsNoGroup(init, key);
    }
  }

  /**
   * Each result lands in the group of its own first choice, as often as the
   * list holds it, and in no other group.
   */
  lemma {:induction false} GroupsPartitionResults(results: seq<ResultRow>, key: string, x: ResultRow)
    ensures multiset(OfKey(results, key))[x] == if x.firstChoice == key then multiset(results)[x] else 0
  {
    if results != [] {
      var init, last := results[..|results| - 1], results[|results| - 1];
      GroupsPartitionResults(init, key, x);
      assert results == init + [last];
    }
  }

  /** What the page ends up showing. */
  datatype ResultsView =
    | NotPublishedYet
    | LoadFailed
    | NoResults
    | Grouped(keys: seq<string>, groups: map<string, seq<ResultRow>>)

  /**
   * `loadResults` followed by `displayResults`. `accepted` is the list the
   * results request returns, absent when it fails or throws.
   */
  method LoadResults(reply: PeriodReply, accepted: Option<seq<ResultRow>>) returns (view: ResultsView)
    ensures !ShouldFetch(reply) <==> view == NotPublishedYet
    ensures ShouldFetch(reply) && accepted.None? ==> view == LoadFailed
    ensures ShouldFetch(reply) && accepted == Some([]) ==> view == NoResults
    ensures view.Grouped? ==> accepted.Some? && accepted.value != [] && Grouping(view.keys, view.groups, accepted.value)
    ensures ShouldFetch(reply) && accepted.Some? && accepted.value != [] ==> view.Grouped?
  {
    if !ShouldFetch(reply) {
      return NotPublishedYet;
    }
    if accepted.None? {
      return LoadFailed;
    }
    var results := accepted.value;
    if |results| == 0 {
      return NoResults;
    }
    var keys, groups := GroupByFirstChoice(results);
    view := Grouped(keys, groups);
  }
}
