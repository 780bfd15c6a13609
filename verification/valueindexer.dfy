/** The first-occurrence deduplication loop that the encoder runs over the
    per-occurrence normals (AlembicPolyMsh.cpp:224-252) and over each UV set
    (AlembicPolyMsh.cpp:375-403): a table of distinct values in first-seen order
    plus one table index per occurrence. Written once, over any type with
    equality; an ordered map keyed by exact equality plays the part of the
    std::map. */
module ValueIndexer {

  predicate Distinct<V(==)>(s: seq<V>) {
    forall i, j :: 0 <= i < j < |s| ==> s[i] != s[j]
  }

  /** The distinct values of s, each kept at its first occurrence. */
  function Dedup<V(==)>(s: seq<V>): (r: seq<V>)
    ensures |r| <= |s|
    ensures Distinct(r)
  {
    if s == [] then []
    else
      var d := Dedup(s[..|s| - 1]);
      if s[|s| - 1] in d then d else d + [s[|s| - 1]]
  }

  /** Position of the first occurrence of v in s. */
  function FirstIndex<V(==)>(s: seq<V>, v: V): (r: nat)
    requires v in s
    ensures r < |s| && s[r] == v
    ensures forall k :: 0 <= k < r ==> s[k] != v
  {
    if s[0] == v then 0 else 1 + FirstIndex(s[1..], v)
  }

  /** For each value, the position of its first occurrence in the table. */
  function IndicesOf<V(==)>(table: seq<V>, vals: seq<V>): (r: seq<nat>)
    requires forall i :: 0 <= i < |vals| ==> vals[i] in table
  {
    seq(|vals|, i requires 0 <= i < |vals| => FirstIndex(table, vals[i]))
  }

  /** Looking up an indexed table: the flat sequence a reader expands to. */
  function Expand<V>(table: seq<V>, indices: seq<nat>): (r: seq<V>)
    requires forall i :: 0 <= i < |indices| ==> indices[i] < |table|
    ensures |r| == |indices|
  {
    seq(|indices|, i requires 0 <= i < |indices| => table[indices[i]])
  }

  /** The deduplication loop. `table` and `indices` are preallocated to the
      input's length and filled by position; only the first `count` table
      entries are meaningful, the rest keep their initial values. */
  method IndexValues<V(==,!new)>(vals: seq<V>) returns (table: seq<V>, indices: seq<nat>, count: nat)
    ensures |table| == |vals| && |indices| == |vals|
    ensures count <= |vals|
    ensures table[..count] == Dedup(vals)
    ensures forall i :: 0 <= i < |vals| ==> indices[i] < count && table[indices[i]] == vals[i]
    ensures forall i, j :: 0 <= i < |vals| && 0 <= j < |vals| ==> (indices[i] == indices[j] <==> vals[i] == vals[j])
    ensures DedupCoversInput(vals) && indices == IndicesOf(Dedup(vals), vals)
  {
    // The resized table's entries past `count` are never read, so any
    // start value of the right length serves.
    table := vals;
    indices := seq(|vals|, _ => 0);
    count := 0;
    var seen: map<V, nat> := map[];
    var i := 0;
    while i < |vals|
      invariant IndexerState(vals, i, table, indices, count, seen)
    {
      var v := vals[i];
      if v in seen {
        SeenValueStep(vals, i, table, indices, count, seen);
        indices := indices[i := seen[v]];
      } else {
        FreshValueStep(vals, i, table, indices, count, seen);
        indices := indices[i := count];
        seen := seen[v := count];
        table := table[count := v];
        count := count + 1;
      }
      i := i + 1;
    }
    assert vals[..i] == vals;
    IndexerOutcome(vals, table[..count], indices);
  }

  /** The loop's state after the first i values: the table's first `count`
      entries deduplicate them, the map knows exactly those entries and their
      positions, and each occurrence so far has the index of its value. */
  ghost predicate IndexerState<V(!new)>(vals: seq<V>, i: nat, table: seq<V>, indices: seq<nat>, count: nat, seen: map<V, nat>) {
    && i <= |vals| && |table| == |vals| && |indices| == |vals| && count <= i
    && table[..count] == Dedup(vals[..i])
    && (forall w :: w in seen <==> w in table[..count])
    && (forall w :: w in seen ==> seen[w] < count && table[seen[w]] == w)
    && (forall k :: 0 <= k < i ==> indices[k] < count && table[indices[k]] == vals[k])
  }

  /** The loop's step for a value seen before: it gets the recorded index. */
  lemma SeenValueStep<V(!new)>(vals: seq<V>, i: nat, table: seq<V>, indices: seq<nat>, count: nat, seen: map<V, nat>)
    requires IndexerState(vals, i, table, indices, count, seen) && i < |vals| && vals[i] in seen
    ensures IndexerState(vals, i + 1, table, indices[i := seen[vals[i]]], count, seen)
  {
    DedupStep(vals, i);
    assert vals[i] in Dedup(vals[..i]);
  }

  /** The loop's step for a value not seen before: it goes to the next free
      table position, under which the map records it. */
  lemma FreshValueStep<V(!new)>(vals: seq<V>, i: nat, table: seq<V>, indices: seq<nat>, count: nat, seen: map<V, nat>)
    requires IndexerState(vals, i, table, indices, count, seen) && i < |vals| && vals[i] !in seen
    ensures IndexerState(vals, i + 1, table[count := vals[i]], indices[i := count], count + 1, seen[vals[i] := count])
  {
    DedupStep(vals, i);
    assert table[count := vals[i]][..count + 1] == table[..count] + [vals[i]];
  }

  /** What the loop's final state implies about the indices. */
  lemma IndexerOutcome<V>(vals: seq<V>, t: seq<V>, indices: seq<nat>)
    requires t == Dedup(vals) && |indices| == |vals|
    requires forall k :: 0 <= k < |vals| ==> indices[k] < |t| && t[indices[k]] == vals[k]
    ensures forall i, j :: 0 <= i < |vals| && 0 <= j < |vals| ==> (indices[i] == indices[j] <==> vals[i] == vals[j])
    ensures DedupCoversInput(vals) && indices == IndicesOf(Dedup(vals), vals)
  {
    SameIndexIffEqual(t, indices, vals);
    IndicesAreFirstOccurrences(t, indices, vals);
    DedupCoversInputHolds(vals);
  }

  /** Every input value has a place in the deduplicated table. */
  predicate DedupCoversInput<V(==)>(vals: seq<V>) {
    forall i :: 0 <= i < |vals| ==> vals[i] in Dedup(vals)
  }

  lemma DedupCoversInputHolds<V>(vals: seq<V>)
    ensures DedupCoversInput(vals)
  {
    forall i | 0 <= i < |vals|
      ensures vals[i] in Dedup(vals)
    {
      DedupKeepsEveryValue(vals, vals[i]);
    }
  }

  /** Over a distinct table, indices that hit the right values are exactly the
      first-occurrence positions: the indexer's output is determined by its input. */
  lemma IndicesAreFirstOccurrences<V>(t: seq<V>, indices: seq<nat>, vals: seq<V>)
    requires Distinct(t)
    requires |indices| == |vals|
    requires forall i :: 0 <= i < |vals| ==> indices[i] < |t| && t[indices[i]] == vals[i]
    ensures forall i :: 0 <= i < |vals| ==> vals[i] in t
    ensures indices == IndicesOf(t, vals)
  {
    assert forall i :: 0 <= i < |vals| ==> vals[i] in t by {
      forall i | 0 <= i < |vals| ensures vals[i] in t {
        assert t[indices[i]] == vals[i];
      }
    }
    var r := IndicesOf(t, vals);
    forall i | 0 <= i < |vals|
      ensures indices[i] == r[i]
    {
      var k := FirstIndex(t, vals[i]);
      assert t[k] == t[indices[i]];
    }
  }

  /** Over a distinct table, two occurrences share an index exactly when their
      values are equal. */
  lemma SameIndexIffEqual<V>(t: seq<V>, indices: seq<nat>, vals: seq<V>)
    requires Distinct(t)
    requires |indices| == |vals|
    requires forall i :: 0 <= i < |vals| ==> indices[i] < |t| && t[indices[i]] == vals[i]
    ensures forall i, j :: 0 <= i < |vals| && 0 <= j < |vals| ==> (indices[i] == indices[j] <==> vals[i] == vals[j])
  {
  }

  /** Every table entry is a value of s. */
  lemma {:induction false} DedupValuesOccur<V>(s: seq<V>, j: nat)
    requires j < |Dedup(s)|
    ensures Dedup(s)[j] in s
  {
    var init := s[..|s| - 1];
    if j < |Dedup(init)| {
      DedupValuesOccur(init, j);
      assert Dedup(init)[j] in init;
    }
  }

  /** Every value of s is kept in the table. */
  lemma {:induction false} DedupKeepsEveryValue<V>(s: seq<V>, v: V)
    requires v in s
    ensures v in Dedup(s)
  {
    var init := s[..|s| - 1];
    if v != s[|s| - 1] {
      assert v in init;
      DedupKeepsEveryValue(init, v);
    }
  }

  /** One step of the loop: the table of a longer prefix. */
  lemma DedupStep<V>(s: seq<V>, i: nat)
    requires i < |s|
    ensures Dedup(s[..i + 1]) == if s[i] in Dedup(s[..i]) then Dedup(s[..i]) else Dedup(s[..i]) + [s[i]]
  {
    assert s[..i + 1][..i] == s[..i];
    var d := Dedup(s[..i]);
    if s[i] in d {
      var j :| 0 <= j < |d| && d[j] == s[i];
    }
  }

  /** A table whose entries are distinct deduplicates to itself. */
  lemma {:induction false} DedupOfDistinct<V>(s: seq<V>)
    requires Distinct(s)
    ensures Dedup(s) == s
  {
    if s != [] {
      var init := s[..|s| - 1];
      assert Distinct(init);
      DedupOfDistinct(init);
      assert s[|s| - 1] !in init;
      assert init + [s[|s| - 1]] == s;
    }
  }

  /** Deduplicating twice changes nothing. */
  lemma DedupIdempotent<V>(s: seq<V>)
    ensures Dedup(Dedup(s)) == Dedup(s)
  {
    DedupOfDistinct(Dedup(s));
  }

  /** Re-indexing a deduplicated table maps every entry to itself: any index
      sequence meeting the indexer's contract over a distinct table is 0..n-1. */
  lemma ReindexIsIdentity<V>(t: seq<V>, indices: seq<nat>)
    requires Distinct(t)
    requires |indices| == |t|
    requires forall i :: 0 <= i < |t| ==> indices[i] < |t| && t[indices[i]] == t[i]
    ensures forall i :: 0 <= i < |t| ==> indices[i] == i
  {
  }

  /** The table keeps first-seen order: earlier table entries first occur earlier. */
  lemma {:induction false} DedupFirstSeenOrder<V>(s: seq<V>, j1: nat, j2: nat)
    requires j1 < j2 < |Dedup(s)|
    ensures Dedup(s)[j1] in s && Dedup(s)[j2] in s
    ensures FirstIndex(s, Dedup(s)[j1]) < FirstIndex(s, Dedup(s)[j2])
  {
    DedupValuesOccur(s, j1);
    DedupValuesOccur(s, j2);
    var init := s[..|s| - 1];
    var d := Dedup(init);
    var last := s[|s| - 1];
    if j2 < |d| {
      DedupValuesOccur(init, j1);
      FirstIndexOfPrefix(s, |s| - 1, Dedup(s)[j1]);
      DedupValuesOccur(init, j2);
      DedupFirstSeenOrder(init, j1, j2);
      FirstIndexOfPrefix(s, |s| - 1, Dedup(s)[j2]);
    } else {
      assert last !in d && Dedup(s)[j2] == last;
      if last in init {
        DedupKeepsEveryValue(init, last);
      }
      DedupValuesOccur(init, j1);
      FirstIndexOfPrefix(s, |s| - 1, Dedup(s)[j1]);
      assert FirstIndex(s, last) == |s| - 1;
    }
  }

  /** A value occurring in a prefix first occurs at the same place in the whole. */
  lemma FirstIndexOfPrefix<V>(s: seq<V>, n: nat, v: V)
    requires n <= |s| && v in s[..n]
    ensures FirstIndex(s, v) == FirstIndex(s[..n], v)
  {
    var k := FirstIndex(s[..n], v);
    assert s[k] == v;
    forall j | 0 <= j < k
      ensures s[j] != v
    {
      assert s[..n][j] == s[j];
    }
  }

  /** Expanding the indexer's table through its indices recovers the input:
      indexed storage loses nothing. */
  lemma ExpandRecoversInput<V>(vals: seq<V>, table: seq<V>, indices: seq<nat>)
    requires |indices| == |vals|
    requires forall i :: 0 <= i < |vals| ==> indices[i] < |table| && table[indices[i]] == vals[i]
    ensures Expand(table, indices) == vals
  {
  }
}
