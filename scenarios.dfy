// Concrete keyspaces that show how exact search behaves on small inputs.
module Scenarios {
  import opened Types
  import opened Postings
  import opened RedisIndexModel

  /**
   * Two records: 1 with atoms {a, b, c} and 2 with atoms {a, b}. The query
   * [a, b] finds both under every atom, but only record 2 has two pairs.
   */
  lemma SubsetRecordIsNotExact()
    ensures var postings := map["a" := {1, 2}, "b" := {1, 2}, "c" := {1}];
      var numPairs := map[1 := 3, 2 := 2];
      Common(postings, ["a", "b"]) == {1, 2} &&
      ExactMatches(postings, numPairs, ["a", "b"]) == {2}
  {
    var postings := map["a" := {1, 2}, "b" := {1, 2}, "c" := {1}];
    var numPairs := map[1 := 3, 2 := 2];
    var q := ["a", "b"];
    assert q[..1] == ["a"];
    assert Common(postings, q) == {1, 2};
    forall id ensures id in ExactMatches(postings, numPairs, q) <==> id == 2 {
      ExactMatchesIff(postings, numPairs, q, id);
      if id == 1 || id == 2 {
        assert id in Lookup(postings, q[0]) && id in Lookup(postings, q[1]);
      }
    }
  }

  /**
   * The pair count stored for a record is the size of its atom SET, while
   * exact search compares against the length of the query's atom LIST. So
   * the query [a, a] exact-matches the record with atoms {a, b}: both atoms
   * of the list are under it and its count, 2, is the list's length.
   */
  lemma RepeatedAtomQueryMatchesOtherRecord()
    ensures var postings := map["a" := {1}, "b" := {1}];
      var numPairs := map[1 := |{"a", "b"}|];
      Elems(["a", "a"]) != {"a", "b"} &&
      ExactMatches(postings, numPairs, ["a", "a"]) == {1}
  {
    var postings := map["a" := {1}, "b" := {1}];
    var numPairs := map[1 := |{"a", "b"}|];
    var q := ["a", "a"];
    assert "b" !in Elems(q);
    assert |{"a", "b"}| == 2;
    forall id ensures id in ExactMatches(postings, numPairs, q) <==> id == 1 {
      ExactMatchesIff(postings, numPairs, q, id);
      if id == 1 {
        assert id in Lookup(postings, q[0]) && id in Lookup(postings, q[1]);
      }
    }
  }

  /**
   * `add(tree)` followed by `exact_search(tree)`: for a tree whose atom list
   * is non-empty and has no repeats, the search finds the record `add` left
   * the tree in; a tree without atoms is never found.
   */
  method AddThenExactSearch(index: RedisIndex, tree: Tree) returns (r: Option<Id>)
    requires index.Valid()
    modifies index
    ensures index.Valid()
    ensures var q := index.ranker.getAtoms(tree);
      (|q| > 0 && NoDups(q) ==> r.Some?) && (|q| == 0 ==> r.None?)
  {
    var _ := index.Add(tree);
    r := index.ExactSearch(tree);
  }

  /** `add` of a tree without atoms: a record with the empty atom set under the next id. */
  method AddZeroAtomTree(index: RedisIndex, tree: Tree)
    requires index.Valid() && index.ranker.getAtoms(tree) == []
    modifies index
    ensures index.Valid()
    ensures index.nextExprId == old(index.nextExprId) + 1
    ensures index.atomsOf == old(index.atomsOf)[index.nextExprId := {}]
    ensures index.doc == old(index.doc)[index.nextExprId := {tree.document}]
    ensures old(DistinctNonEmpty(index.atomsOf)) ==> DistinctNonEmpty(index.atomsOf)
  {
    var _ := index.Add(tree);
  }

  /**
   * A tree without atoms is never found by exact search, so adding it twice
   * to an empty index stores two records with the empty atom set; the
   * records with atoms are still distinct.
   */
  method ZeroAtomTreeAddedTwice(ranker: Ranker, tree: Tree) returns (index: RedisIndex)
    requires ranker.getAtoms(tree) == []
    ensures index.atomsOf == map[1 := {}, 2 := {}]
    ensures index.doc == map[1 := {tree.document}, 2 := {tree.document}]
    ensures DistinctNonEmpty(index.atomsOf)
  {
    index := new RedisIndex(ranker);
    AddZeroAtomTree(index, tree);
    AddZeroAtomTree(index, tree);
  }
}
