/** `LocalStorageHistoryRepository`: the recent search queries, most recent
    first, held in storage under the history key. The storage adapter is the
    `stored` field. */
module History {
  import opened Seqs
  import opened Storage

  /** `CACHE_CONFIG.maxHistoryItems`. */
  const MaxHistoryItems: nat := 20

  function Other(query: string): string -> bool {
    q => q != query
  }

  /** The history without the first occurrence of the query, if any: an
      absent query leaves the history as it is, a present one loses exactly
      the entry at its first position. */
  function WithoutFirst(history: seq<string>, query: string): (rest: seq<string>)
    ensures query !in history ==> rest == history
    ensures query in history ==>
      exists i ::
        && 0 <= i < |history|
        && history[i] == query
        && query !in history[..i]
        && rest == history[..i] + history[i + 1..]
    ensures IsSubsequence(rest, history)
  {
    var i := IndexOf(history, query);
    if i == -1 then
      SubsequenceReflexive(history);
      history
    else
      RemoveAtIsSubsequence(history, i);
      RemoveAt(history, i)
  }

  /** The history `add(query)` saves: the query in front of the old history
      without its first occurrence, cut to `MaxHistoryItems` entries. The
      query comes first, and the history only loses an entry other than the
      query when it is full. */
  function Added(history: seq<string>, query: string): (added: seq<string>)
    ensures |added| >= 1 && added[0] == query
    ensures |added| ==
      var grown := if query in history then |history| else |history| + 1;
      if grown > MaxHistoryItems then MaxHistoryItems else grown
    ensures added[1..] == WithoutFirst(history, query)[..|added| - 1]
  {
    var h := [query] + WithoutFirst(history, query);
    if |h| > MaxHistoryItems then h[..MaxHistoryItems] else h
  }

  /** The other entries keep their relative order. */
  lemma AddedKeepsOrder(history: seq<string>, query: string)
    ensures IsSubsequence(Added(history, query)[1..], history)
  {
    var rest := WithoutFirst(history, query);
    var added := Added(history, query);
    assert added[1..] == rest[..|added| - 1];
    PrefixIsSubsequence(rest, |added| - 1);
    SubsequenceTransitive(added[1..], rest, history);
  }

  /** On a history without repeated queries: the result has none either,
      and after the query come all the other entries in their order, with
      only the tail cut off. */
  lemma AddedDistinct(history: seq<string>, query: string)
    requires NoDuplicates(history)
    ensures NoDuplicates(Added(history, query))
    ensures var added, others := Added(history, query), Filter(history, Other(query));
      |added| - 1 <= |others| && added[1..] == others[..|added| - 1]
  {
    var others := Filter(history, Other(query));
    assert NoDuplicates([query] + others) by {
      FilterNoDuplicates(history, Other(query));
      FilterSatisfies(history, Other(query));
      ConsNoDuplicates(query, others);
    }
    WithoutFirstDistinct(history, query);
    var added := Added(history, query);
    assert added == ([query] + others)[..|added|];
    PrefixNoDuplicates([query] + others, |added|);
  }

  lemma PrefixNoDuplicates<T>(s: seq<T>, n: nat)
    requires NoDuplicates(s) && n <= |s|
    ensures NoDuplicates(s[..n])
  {
  }

  lemma ConsNoDuplicates<T>(x: T, s: seq<T>)
    requires NoDuplicates(s) && forall i :: 0 <= i < |s| ==> s[i] != x
    ensures NoDuplicates([x] + s)
  {
    var full := [x] + s;
    forall j, k | 0 <= j < k < |full| ensures full[j] != full[k] {
      assert full[k] == s[k - 1];
      if j > 0 {
        assert full[j] == s[j - 1];
      }
    }
  }

  /** Without repeated queries, removing the first occurrence removes them all. */
  lemma WithoutFirstDistinct(history: seq<string>, query: string)
    requires NoDuplicates(history)
    ensures WithoutFirst(history, query) == Filter(history, Other(query))
  {
    var i := IndexOf(history, query);
    if i == -1 {
      FilterKeepsAll(history, Other(query));
    } else {
      RemoveAtFilter(history, i, Other(query));
    }
  }

  /** A stored history may repeat an entry: only the first occurrence of the
      query is moved to the front. */
  lemma AddedRepeatedEntries()
    ensures Added(["x", "q", "x"], "q") == ["q", "x", "x"]
  {
    var history: seq<string> := ["x", "q", "x"];
    assert history[..1] == ["x"] && "q" !in history[..1];
    assert IndexOf(history, "q") == 1;
  }

  /** Adding the same query twice in a row is adding it once. */
  lemma AddedTwice(history: seq<string>, query: string)
    ensures Added(Added(history, query), query) == Added(history, query)
  {
    var added := Added(history, query);
    assert IndexOf(added, query) == 0;
    assert [query] + added[1..] == added;
  }

  lemma {:induction false} PrefixIsSubsequence<T>(s: seq<T>, n: nat)
    requires n <= |s|
    ensures IsSubsequence(s[..n], s)
    decreases n
  {
    if n > 0 {
      PrefixIsSubsequence(s[1..], n - 1);
      assert s[..n][1..] == s[1..][..n - 1];
    }
  }

  class HistoryRepository {
    var stored: Stored<string>

    constructor(stored: Stored<string>)
      ensures this.stored == stored
    {
      this.stored := stored;
    }

    /** `getAll()`: missing or non-array data reads as no history. */
    function GetAll(): (history: seq<string>)
      reads this
      ensures stored.Items? ==> history == stored.items
      ensures !stored.Items? ==> history == []
    {
      if stored.Items? then stored.items else []
    }

    /** `add(query)`: move the query to the front and save at most
        `MaxHistoryItems` entries. */
    method Add(query: string)
      modifies this
      ensures stored == Items(Added(old(GetAll()), query))
    {
      var history := GetAll();
      var existingIndex := IndexOf(history, query);
      ghost var before := history;
      if existingIndex != -1 {
        history := history[..existingIndex] + history[existingIndex + 1..];
      }
      assert history == WithoutFirst(before, query);
      history := [query] + history;
      if |history| > MaxHistoryItems {
        history := history[..MaxHistoryItems];
      }
      stored := Items(history);
    }

    /** `clear()`: the key is removed, so the history reads as empty. */
    method Clear()
      modifies this
      ensures stored == Absent && GetAll() == []
    {
      stored := Absent;
    }
  }
}
