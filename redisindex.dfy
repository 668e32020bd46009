// The Redis-backed expression index: the keyspace as typed tables, and
// insertion with deduplication, exact search and ranked search over it.
module RedisIndexModel {
  import opened Types
  import opened Postings
  import opened Ranking

  /** The number of results a ranked search yields at most. */
  const MaxResults: nat := 10

  /** One result of a ranked search: text, score, matched atoms and documents. */
  datatype Hit = Hit(text: Html, score: real, matched: seq<Atom>, docs: set<Doc>)

  /** The entry `final_matches` holds for candidate `id` of query `q`. */
  function ScoreOf(postings: map<Atom, set<Id>>, numPairs: map<Id, nat>, q: seq<Atom>,
                   ranker: Ranker, queryCount: int, id: Id): Scored
    requires id in numPairs
  {
    var matched := MatchedPairs(postings, q, id);
    Scored(id, ranker.rank(matched, queryCount, numPairs[id]), matched)
  }

  /** The entries of `final_matches` for the candidates in the order `ids`. */
  function ScoreEach(postings: map<Atom, set<Id>>, numPairs: map<Id, nat>, q: seq<Atom>,
                     ranker: Ranker, queryCount: int, ids: seq<Id>): seq<Scored>
    requires forall k | 0 <= k < |ids| :: ids[k] in numPairs
  {
    seq(|ids|, k requires 0 <= k < |ids| => ScoreOf(postings, numPairs, q, ranker, queryCount, ids[k]))
  }

  /**
   * The store's invariant: every record has text, a pair count equal to the
   * size of its atom set, a non-empty document set and an id the counter has
   * issued, and the posting sets agree with the records' atom sets.
   */
  ghost predicate Consistent(nextExprId: nat, text: map<Id, Html>, numPairs: map<Id, nat>, doc: map<Id, set<Doc>>,
                             postings: map<Atom, set<Id>>, atomsOf: map<Id, set<Atom>>)
  {
    text.Keys == atomsOf.Keys && doc.Keys == atomsOf.Keys &&
    (forall id | id in atomsOf :: 1 <= id <= nextExprId && doc[id] != {}) &&
    CountsAgree(numPairs, atomsOf) &&
    PostingsAgree(postings, atomsOf)
  }

  /** Creating a record under the next id keeps the store consistent, and that id was unused. */
  lemma CreateKeepsConsistent(nextExprId: nat, text: map<Id, Html>, numPairs: map<Id, nat>, doc: map<Id, set<Doc>>,
                              postings: map<Atom, set<Id>>, atomsOf: map<Id, set<Atom>>,
                              html: Html, document: Doc, atoms: set<Atom>,
                              nextExprId': nat, text': map<Id, Html>, numPairs': map<Id, nat>, doc': map<Id, set<Doc>>,
                              postings': map<Atom, set<Id>>, atomsOf': map<Id, set<Atom>>)
    requires Consistent(nextExprId, text, numPairs, doc, postings, atomsOf)
    requires nextExprId' == nextExprId + 1
    requires text' == text[nextExprId' := html] && numPairs' == numPairs[nextExprId' := |atoms|]
    requires doc' == doc[nextExprId' := {document}] && postings' == AddPostings(postings, atoms, nextExprId')
    requires atomsOf' == atomsOf[nextExprId' := atoms]
    ensures nextExprId' !in atomsOf
    ensures Consistent(nextExprId', text', numPairs', doc', postings', atomsOf')
  {
    NewRecordConsistent(nextExprId, text, numPairs, doc, postings, atomsOf, html, document, atoms);
  }

  /** `CreateKeepsConsistent` with the new state written out in terms of the old one. */
  lemma NewRecordConsistent(nextExprId: nat, text: map<Id, Html>, numPairs: map<Id, nat>, doc: map<Id, set<Doc>>,
                            postings: map<Atom, set<Id>>, atomsOf: map<Id, set<Atom>>,
                            html: Html, document: Doc, atoms: set<Atom>)
    requires Consistent(nextExprId, text, numPairs, doc, postings, atomsOf)
    ensures nextExprId + 1 !in atomsOf
    ensures Consistent(nextExprId + 1, text[nextExprId + 1 := html], numPairs[nextExprId + 1 := |atoms|],
                       doc[nextExprId + 1 := {document}], AddPostings(postings, atoms, nextExprId + 1),
                       atomsOf[nextExprId + 1 := atoms])
  {
    var n := nextExprId + 1;
    var m := atomsOf[n := atoms];
    assert n !in atomsOf;
    assert text[n := html].Keys == m.Keys && doc[n := {document}].Keys == m.Keys;
    assert forall id | id in m :: 1 <= id <= n && doc[n := {document}][id] != {};
    assert CountsAgree(numPairs[n := |atoms|], m);
    AddPostingsAgree(postings, atomsOf, atoms, n);
  }

  /**
   * No two records with atoms share their atom set. Records of trees
   * without atoms are left out: exact search never finds them, so every
   * such tree gets a record of its own.
   */
  ghost predicate DistinctNonEmpty(atomsOf: map<Id, set<Atom>>)
  {
    forall i, j | i in atomsOf && j in atomsOf && i != j && atomsOf[i] != {} :: atomsOf[i] != atomsOf[j]
  }

  /** Some record was stored with the atom set `atoms` and lists `document`. */
  ghost predicate Recorded(atomsOf: map<Id, set<Atom>>, doc: map<Id, set<Doc>>, atoms: set<Atom>, document: Doc)
  {
    exists id | id in atomsOf && id in doc :: atomsOf[id] == atoms && document in doc[id]
  }

  /**
   * What an exact match found by `add` tells: it is a stored record; for a
   * query without repeats it has the query's atom set and so records the
   * document once it is added, and when the records are distinct and one
   * of them already lists the document, it is that one and adding the
   * document changes nothing.
   */
  lemma ExistingRecord(postings: map<Atom, set<Id>>, numPairs: map<Id, nat>, atomsOf: map<Id, set<Atom>>,
                       doc: map<Id, set<Doc>>, q: seq<Atom>, existing: Id, document: Doc)
    requires PostingsAgree(postings, atomsOf) && CountsAgree(numPairs, atomsOf) && doc.Keys == atomsOf.Keys
    requires existing in ExactMatches(postings, numPairs, q)
    ensures existing in atomsOf && |q| > 0
    ensures NoDups(q) ==> atomsOf[existing] == Elems(q)
    ensures NoDups(q) ==> Recorded(atomsOf, doc[existing := doc[existing] + {document}], Elems(q), document)
    ensures NoDups(q) && DistinctNonEmpty(atomsOf) && Recorded(atomsOf, doc, Elems(q), document) ==>
      doc[existing := doc[existing] + {document}] == doc
  {
    ExactMatchesIff(postings, numPairs, q, existing);
    CommonIsStored(postings, atomsOf, q, existing);
    if NoDups(q) {
      ExactMatchIsSameAtomSet(postings, numPairs, atomsOf, q, existing);
      assert existing in doc[existing := doc[existing] + {document}];
      if DistinctNonEmpty(atomsOf) && Recorded(atomsOf, doc, Elems(q), document) {
        var r :| r in atomsOf && r in doc && atomsOf[r] == Elems(q) && document in doc[r];
        assert q[0] in Elems(q);
        assert r == existing;
        assert doc[existing] + {document} == doc[existing];
      }
    }
  }

  /**
   * When `add` finds no exact match for a query without repeats, no record
   * has the query's atom set unless that set is empty, so a new record
   * keeps the records with atoms distinct and records the document.
   */
  lemma NovelAtomSet(postings: map<Atom, set<Id>>, numPairs: map<Id, nat>, atomsOf: map<Id, set<Atom>>,
                     doc: map<Id, set<Doc>>, q: seq<Atom>, id: Id, document: Doc,
                     atomsOf': map<Id, set<Atom>>, doc': map<Id, set<Doc>>)
    requires PostingsAgree(postings, atomsOf) && CountsAgree(numPairs, atomsOf)
    requires ExactMatches(postings, numPairs, q) == {}
    requires NoDups(q)
    requires id !in atomsOf
    requires atomsOf' == atomsOf[id := Elems(q)] && doc' == doc[id := {document}]
    ensures |q| > 0 ==> forall j | j in atomsOf :: atomsOf[j] != Elems(q)
    ensures |q| > 0 ==> !Recorded(atomsOf, doc, Elems(q), document)
    ensures DistinctNonEmpty(atomsOf) ==> DistinctNonEmpty(atomsOf')
    ensures Recorded(atomsOf', doc', Elems(q), document)
  {
    if |q| > 0 {
      forall j | j in atomsOf ensures atomsOf[j] != Elems(q) {
        ExactMatchIsSameAtomSet(postings, numPairs, atomsOf, q, j);
      }
    } else {
      assert Elems(q) == {};
    }
    assert id in atomsOf' && id in doc';
  }

  /**
   * The pipeline of `get`s that reads the pair count of every id of
   * `matchIds`, in the order the set is iterated.
   */
  method ReadCounts(numPairs: map<Id, nat>, matchIds: set<Id>) returns (ids: seq<Id>, counts: seq<nat>)
    requires matchIds <= numPairs.Keys
    ensures Elems(ids) == matchIds && NoDups(ids)
    ensures |counts| == |ids|
    ensures forall k | 0 <= k < |ids| :: ids[k] in numPairs && counts[k] == numPairs[ids[k]]
  {
    ids, counts := [], [];
    var rest := matchIds;
    while rest != {}
      invariant rest <= matchIds
      invariant Elems(ids) == matchIds - rest && NoDups(ids)
      invariant |counts| == |ids|
      invariant forall k | 0 <= k < |ids| :: ids[k] in numPairs && counts[k] == numPairs[ids[k]]
      decreases rest
    {
      var e :| e in rest;
      assert Elems(ids + [e]) == Elems(ids) + {e};
      ids, counts := ids + [e], counts + [numPairs[e]];
      rest := rest - {e};
    }
  }

  /** The first id whose count is `n`, scanning `ids` and `counts` side by side. */
  method FirstWithCount(ids: seq<Id>, counts: seq<nat>, n: nat) returns (r: Option<Id>)
    requires |counts| == |ids|
    ensures r.None? <==> forall k | 0 <= k < |ids| :: counts[k] != n
    ensures r.Some? ==> exists k | 0 <= k < |ids| ::
      ids[k] == r.value && counts[k] == n && forall j | 0 <= j < k :: counts[j] != n
  {
    var k := 0;
    while k < |ids|
      invariant 0 <= k <= |ids|
      invariant forall j | 0 <= j < k :: counts[j] != n
    {
      if counts[k] == n {
        return Some(ids[k]);
      }
      k := k + 1;
    }
    return None;
  }

  /** The posting sets once `id` is added under each atom of `atoms`, one `sadd` at a time. */
  method QueuePostings(postings: map<Atom, set<Id>>, atoms: set<Atom>, id: Id) returns (newPostings: map<Atom, set<Id>>)
    ensures newPostings == AddPostings(postings, atoms, id)
  {
    newPostings := postings;
    var rest := atoms;
    while rest != {}
      invariant rest <= atoms
      invariant newPostings == AddPostings(postings, atoms - rest, id)
      decreases rest
    {
      var a :| a in rest;
      AddPostingsStep(postings, atoms - rest, a, id);
      assert atoms - (rest - {a}) == (atoms - rest) + {a};
      newPostings := newPostings[a := Lookup(newPostings, a) + {id}];
      rest := rest - {a};
    }
    assert atoms - rest == atoms;
  }

  /**
   * Builds `match_lists` for a query: for each query atom in turn, every id
   * in its posting set gets that atom appended to its list. `ids` lists the
   * keys in the order they were first seen.
   */
  method CollectMatches(postings: map<Atom, set<Id>>, q: seq<Atom>) returns (matchLists: map<Id, seq<Atom>>, ids: seq<Id>)
    ensures matchLists.Keys == Candidates(postings, q)
    ensures forall id | id in matchLists :: matchLists[id] == MatchedPairs(postings, q, id)
    ensures NoDups(ids) && Elems(ids) == matchLists.Keys
  {
    matchLists, ids := map[], [];
    var i := 0;
    while i < |q|
      invariant 0 <= i <= |q|
      invariant matchLists.Keys == Candidates(postings, q[..i])
      invariant forall id | id in matchLists :: matchLists[id] == MatchedPairs(postings, q[..i], id)
      invariant NoDups(ids) && Elems(ids) == matchLists.Keys
    {
      matchLists, ids := AppendMatches(postings, q, i, matchLists, ids);
      i := i + 1;
    }
    assert q[..|q|] == q;
  }

  /** One round of the outer loop of `CollectMatches`: the ids under atom `q[i]`. */
  method AppendMatches(postings: map<Atom, set<Id>>, q: seq<Atom>, i: nat, matchLists: map<Id, seq<Atom>>, ids: seq<Id>)
    returns (matchLists': map<Id, seq<Atom>>, ids': seq<Id>)
    requires i < |q|
    requires matchLists.Keys == Candidates(postings, q[..i])
    requires forall id | id in matchLists :: matchLists[id] == MatchedPairs(postings, q[..i], id)
    requires NoDups(ids) && Elems(ids) == matchLists.Keys
    ensures matchLists'.Keys == Candidates(postings, q[..i + 1])
    ensures forall id | id in matchLists' :: matchLists'[id] == MatchedPairs(postings, q[..i + 1], id)
    ensures NoDups(ids') && Elems(ids') == matchLists'.Keys
  {
    var expressions := Lookup(postings, q[i]);
    matchLists', ids' := matchLists, ids;
    var rest := expressions;
    while rest != {}
      invariant rest <= expressions
      invariant matchLists'.Keys == matchLists.Keys + (expressions - rest)
      invariant forall id | id in matchLists' && id !in expressions - rest :: matchLists'[id] == matchLists[id]
      invariant forall id | id in expressions - rest :: matchLists'[id] == MatchedPairs(postings, q[..i + 1], id)
      invariant NoDups(ids') && Elems(ids') == matchLists'.Keys
      decreases rest
    {
      var e :| e in rest;
      AppendStep(postings, q, i, e);
      matchLists', ids' := AppendPair(matchLists', ids', e, q[i]);
      rest := rest - {e};
    }
    RoundComplete(postings, q, i, matchLists, matchLists');
  }

  /**
   * `match_lists[e].append(pair)` on a `defaultdict(list)`: a missing key
   * starts from the empty list and joins the end of the key order.
   */
  method AppendPair(matchLists: map<Id, seq<Atom>>, ids: seq<Id>, e: Id, pair: Atom)
    returns (matchLists': map<Id, seq<Atom>>, ids': seq<Id>)
    requires NoDups(ids) && Elems(ids) == matchLists.Keys
    ensures matchLists' == matchLists[e := (if e in matchLists then matchLists[e] else []) + [pair]]
    ensures NoDups(ids') && Elems(ids') == matchLists'.Keys
    ensures ids' == if e in matchLists then ids else ids + [e]
  {
    var soFar := if e in matchLists then matchLists[e] else [];
    ids' := ids;
    if e !in matchLists {
      assert Elems(ids + [e]) == Elems(ids) + {e};
      ids' := ids + [e];
    }
    matchLists' := matchLists[e := soFar + [pair]];
  }

  /** Appending `q[i]` to the list `e` had so far gives its list for the longer prefix. */
  lemma AppendStep(postings: map<Atom, set<Id>>, q: seq<Atom>, i: nat, e: Id)
    requires i < |q| && e in Lookup(postings, q[i])
    ensures (if e in Candidates(postings, q[..i]) then MatchedPairs(postings, q[..i], e) else []) + [q[i]] ==
      MatchedPairs(postings, q[..i + 1], e)
  {
    PrefixStep(postings, q, i, e);
    CandidatesIff(postings, q[..i], e);
  }

  /** After the round for `q[i]`, every list is the matched list of the longer prefix. */
  lemma RoundComplete(postings: map<Atom, set<Id>>, q: seq<Atom>, i: nat,
                      before: map<Id, seq<Atom>>, after: map<Id, seq<Atom>>)
    requires i < |q|
    requires before.Keys == Candidates(postings, q[..i])
    requires forall id | id in before :: before[id] == MatchedPairs(postings, q[..i], id)
    requires after.Keys == before.Keys + Lookup(postings, q[i])
    requires forall id | id in after && id !in Lookup(postings, q[i]) :: after[id] == before[id]
    requires forall id | id in Lookup(postings, q[i]) :: after[id] == MatchedPairs(postings, q[..i + 1], id)
    ensures after.Keys == Candidates(postings, q[..i + 1])
    ensures forall id | id in after :: after[id] == MatchedPairs(postings, q[..i + 1], id)
  {
    PrefixStep(postings, q, i, 0);
    forall id | id in after
      ensures after[id] == MatchedPairs(postings, q[..i + 1], id)
    {
      PrefixStep(postings, q, i, id);
    }
  }

  /** Reads each candidate's stored pair count and scores it with the ranker. */
  method ScoreCandidates(postings: map<Atom, set<Id>>, numPairs: map<Id, nat>, q: seq<Atom>, ranker: Ranker,
                         queryCount: int, matchLists: map<Id, seq<Atom>>, ids: seq<Id>)
    returns (scored: seq<Scored>)
    requires Elems(ids) <= numPairs.Keys && Elems(ids) <= matchLists.Keys
    requires forall id | id in matchLists :: matchLists[id] == MatchedPairs(postings, q, id)
    ensures forall k | 0 <= k < |ids| :: ids[k] in numPairs
    ensures scored == ScoreEach(postings, numPairs, q, ranker, queryCount, ids)
    ensures |scored| == |ids| && forall k | 0 <= k < |ids| :: scored[k].id == ids[k]
  {
    scored := [];
    var k := 0;
    while k < |ids|
      invariant 0 <= k <= |ids|
      invariant |scored| == k
      invariant forall j | 0 <= j < k ::
        ids[j] in numPairs && scored[j] == ScoreOf(postings, numPairs, q, ranker, queryCount, ids[j])
    {
      var id := ids[k];
      assert id in Elems(ids);
      var count := numPairs[id];
      scored := scored + [Scored(id, ranker.rank(matchLists[id], queryCount, count), matchLists[id])];
      k := k + 1;
    }
  }

  /** Fetches the text and document set of each returned candidate. */
  method FetchHits(text: map<Id, Html>, doc: map<Id, set<Doc>>, top: seq<Scored>) returns (hits: seq<Hit>)
    requires forall j | 0 <= j < |top| :: top[j].id in text && top[j].id in doc
    ensures |hits| == |top|
    ensures forall j | 0 <= j < |top| ::
      hits[j] == Hit(text[top[j].id], top[j].score, top[j].matched, doc[top[j].id])
  {
    hits := [];
    var t := 0;
    while t < |top|
      invariant 0 <= t <= |top|
      invariant |hits| == t
      invariant forall j | 0 <= j < t ::
        hits[j] == Hit(text[top[j].id], top[j].score, top[j].matched, doc[top[j].id])
    {
      var s := top[t];
      hits := hits + [Hit(text[s.id], s.score, s.matched, doc[s.id])];
      t := t + 1;
    }
  }

  /**
   * `sorted(final_matches, reverse=True, key=score)[:10]` and the fetch of
   * each entry's text and documents: `ranked` is the whole sorted list and
   * `hits` its first ten entries, best first.
   */
  method RankHits(text: map<Id, Html>, doc: map<Id, set<Doc>>, scored: seq<Scored>, ids: seq<Id>)
    returns (hits: seq<Hit>, ranked: seq<Scored>)
    requires |scored| == |ids| && forall k | 0 <= k < |ids| :: scored[k].id == ids[k]
    requires Elems(ids) <= text.Keys && Elems(ids) <= doc.Keys
    ensures multiset(ranked) == multiset(scored)
    ensures Descending(ranked)
    ensures |hits| == Min(MaxResults, |ranked|) && |hits| <= MaxResults
    ensures forall k | 0 <= k < |hits| ::
      ranked[k].id in text && ranked[k].id in doc &&
      hits[k] == Hit(text[ranked[k].id], ranked[k].score, ranked[k].matched, doc[ranked[k].id])
    ensures forall i, j | 0 <= i < j < |hits| :: hits[i].score >= hits[j].score
  {
    ranked := SortByScore(scored);
    PermutedIdsAmong(scored, ranked, ids, text.Keys);
    PermutedIdsAmong(scored, ranked, ids, doc.Keys);
    hits := FetchHits(text, doc, ranked[..Min(MaxResults, |ranked|)]);
  }

  /** A reordering of entries whose ids are those of `ids` has its ids in any superset of them. */
  lemma PermutedIdsAmong(scored: seq<Scored>, sorted: seq<Scored>, ids: seq<Id>, keys: set<Id>)
    requires |scored| == |ids| && forall k | 0 <= k < |ids| :: scored[k].id == ids[k]
    requires multiset(sorted) == multiset(scored)
    requires Elems(ids) <= keys
    ensures forall j | 0 <= j < |sorted| :: sorted[j].id in keys
  {
    forall j | 0 <= j < |sorted| ensures sorted[j].id in keys {
      assert sorted[j] in multiset(scored);
      var m :| 0 <= m < |scored| && scored[m] == sorted[j];
      assert ids[m] in Elems(ids);
    }
  }

  class RedisIndex {
    const ranker: Ranker

    // The keyspace, one typed table per key family.
    var nextExprId: nat                  // next_expr_id
    var text: map<Id, Html>              // expr:<id>:text
    var numPairs: map<Id, nat>           // expr:<id>:num_pairs
    var doc: map<Id, set<Doc>>           // expr:<id>:doc
    var postings: map<Atom, set<Id>>     // pair:<atom>:exprs

    /** The atom set each record was stored with (not kept by the store itself). */
    ghost var atomsOf: map<Id, set<Atom>>

    ghost predicate Valid()
      reads this
    {
      Consistent(nextExprId, text, numPairs, doc, postings, atomsOf)
    }

    /** An index over an empty keyspace. */
    constructor (ranker: Ranker)
      ensures Valid() && DistinctNonEmpty(atomsOf)
      ensures this.ranker == ranker
      ensures nextExprId == 0 && text == map[] && numPairs == map[] && doc == map[]
      ensures postings == map[] && atomsOf == map[]
    {
      this.ranker := ranker;
      nextExprId := 0;
      text, numPairs, doc, postings := map[], map[], map[], map[];
      atomsOf := map[];
    }

    /**
     * Returns an id of a stored record that lies under every atom of the
     * tree and has as many pairs as the tree's atom list, or None when there
     * is none; a tree without atoms is never found.
     */
    method ExactSearch(tree: Tree) returns (r: Option<Id>)
      requires Valid()
      ensures r.None? <==> ExactMatches(postings, numPairs, ranker.getAtoms(tree)) == {}
      ensures r.Some? ==> r.value in ExactMatches(postings, numPairs, ranker.getAtoms(tree))
      ensures |ranker.getAtoms(tree)| == 0 ==> r.None?
    {
      var pairs := ranker.getAtoms(tree);
      if |pairs| == 0 {
        return None;
      }
      var matchIds := Common(postings, pairs);
      if |matchIds| <= 0 {
        return None;
      }
      forall e | e in matchIds ensures e in numPairs {
        CommonIsStored(postings, atomsOf, pairs, e);
      }
      var ids, counts := ReadCounts(numPairs, matchIds);
      r := FirstWithCount(ids, counts, |pairs|);
      if r.Some? {
        var k :| 0 <= k < |ids| && ids[k] == r.value && counts[k] == |pairs|;
        assert ids[k] in Elems(ids);
        assert r.value in ExactMatches(postings, numPairs, pairs);
      } else {
        forall id | id in matchIds ensures id !in ExactMatches(postings, numPairs, pairs) {
          assert id in Elems(ids);
          var j :| 0 <= j < |ids| && ids[j] == id;
          assert counts[j] != |pairs|;
        }
        DisjointSubsetEmpty(ExactMatches(postings, numPairs, pairs), matchIds);
        assert ExactMatches(postings, numPairs, pairs) == {};
      }
    }

    /**
     * Inserts `tree`: when an exact search finds a record, only that
     * record's document set gains `tree.document`; otherwise a record with a
     * fresh id is created and posted under each atom of the tree. The ghost
     * result `id` is the record that now holds the tree.
     */
    method Add(tree: Tree) returns (ghost id: Id)
      requires Valid()
      modifies this
      ensures Valid()
      ensures id in atomsOf && tree.document in doc[id]
      ensures var q := ranker.getAtoms(tree);
        var found := old(ExactMatches(postings, numPairs, q));
        found != {} ==>
          id in found &&
          nextExprId == old(nextExprId) && text == old(text) && numPairs == old(numPairs) &&
          postings == old(postings) && atomsOf == old(atomsOf) &&
          doc == old(doc)[id := old(doc)[id] + {tree.document}]
      ensures var q := ranker.getAtoms(tree);
        var found := old(ExactMatches(postings, numPairs, q));
        found == {} ==>
          id == old(nextExprId) + 1 && nextExprId == id && id !in old(atomsOf) &&
          text == old(text)[id := tree.html] &&
          numPairs == old(numPairs)[id := |Elems(q)|] &&
          doc == old(doc)[id := {tree.document}] &&
          postings == AddPostings(old(postings), Elems(q), id) &&
          atomsOf == old(atomsOf)[id := Elems(q)]
      // A tree without atoms always gets a record of its own.
      ensures |ranker.getAtoms(tree)| == 0 ==> id !in old(atomsOf) && atomsOf[id] == {}
      // A later exact search of a tree with distinct atoms finds a record.
      ensures var q := ranker.getAtoms(tree);
        |q| > 0 && NoDups(q) ==> id in ExactMatches(postings, numPairs, q)
      // A tree without repeated atoms, zero-atom trees included, is recorded,
      // and the records with atoms keep distinct atom sets ...
      ensures var q := ranker.getAtoms(tree);
        NoDups(q) ==>
          Recorded(atomsOf, doc, Elems(q), tree.document) &&
          (old(DistinctNonEmpty(atomsOf)) ==> DistinctNonEmpty(atomsOf))
      // ... and adding an already recorded tree with atoms again changes nothing.
      ensures var q := ranker.getAtoms(tree);
        |q| > 0 && NoDups(q) && old(DistinctNonEmpty(atomsOf)) &&
        old(Recorded(atomsOf, doc, Elems(q), tree.document)) ==>
          nextExprId == old(nextExprId) && text == old(text) && numPairs == old(numPairs) &&
          doc == old(doc) && postings == old(postings) && atomsOf == old(atomsOf)
    {
      var existingId := ExactSearch(tree);
      if existingId.Some? {
        id := existingId.value;
        AddExisting(tree, existingId.value);
      } else {
        id := AddNovel(tree);
      }
    }

    /** The branch of `add` where an exact search found the record `existing`. */
    method AddExisting(tree: Tree, existing: Id)
      requires Valid() && existing in ExactMatches(postings, numPairs, ranker.getAtoms(tree))
      modifies this
      ensures Valid()
      ensures existing in atomsOf && tree.document in doc[existing]
      ensures nextExprId == old(nextExprId) && text == old(text) && numPairs == old(numPairs)
      ensures postings == old(postings) && atomsOf == old(atomsOf)
      ensures doc == old(doc)[existing := old(doc)[existing] + {tree.document}]
      ensures var q := ranker.getAtoms(tree);
        NoDups(q) ==>
          existing in ExactMatches(postings, numPairs, q) && Recorded(atomsOf, doc, Elems(q), tree.document)
      ensures var q := ranker.getAtoms(tree);
        NoDups(q) && old(DistinctNonEmpty(atomsOf)) && old(Recorded(atomsOf, doc, Elems(q), tree.document)) ==>
          doc == old(doc)
    {
      var q := ranker.getAtoms(tree);
      ExistingRecord(postings, numPairs, atomsOf, doc, q, existing, tree.document);
      AddDocument(existing, tree.document);
    }

    /** The branch of `add` where an exact search found no record: a new one is created. */
    method AddNovel(tree: Tree) returns (id: Id)
      requires Valid() && ExactMatches(postings, numPairs, ranker.getAtoms(tree)) == {}
      modifies this
      ensures Valid()
      ensures id == old(nextExprId) + 1 && nextExprId == id && id !in old(atomsOf)
      ensures text == old(text)[id := tree.html]
      ensures numPairs == old(numPairs)[id := |Elems(ranker.getAtoms(tree))|]
      ensures doc == old(doc)[id := {tree.document}]
      ensures postings == AddPostings(old(postings), Elems(ranker.getAtoms(tree)), id)
      ensures atomsOf == old(atomsOf)[id := Elems(ranker.getAtoms(tree))]
      ensures |ranker.getAtoms(tree)| == 0 ==> atomsOf[id] == {}
      ensures var q := ranker.getAtoms(tree);
        NoDups(q) ==> (id in ExactMatches(postings, numPairs, q) <==> |q| > 0)
      ensures var q := ranker.getAtoms(tree);
        NoDups(q) ==>
          (|q| > 0 ==> !old(Recorded(atomsOf, doc, Elems(q), tree.document))) &&
          (old(DistinctNonEmpty(atomsOf)) ==> DistinctNonEmpty(atomsOf)) &&
          Recorded(atomsOf, doc, Elems(q), tree.document)
    {
      var q := ranker.getAtoms(tree);
      ghost var postings0, numPairs0, atomsOf0, doc0 := postings, numPairs, atomsOf, doc;
      id := CreateRecord(tree);
      if NoDups(q) {
        NovelAtomSet(postings0, numPairs0, atomsOf0, doc0, q, id, tree.document, atomsOf, doc);
        ExactMatchIsSameAtomSet(postings, numPairs, atomsOf, q, id);
      }
      if |q| == 0 {
        assert Elems(q) == {};
      }
    }

    /** `sadd('expr:%s:doc' % existing, document)` on a stored record. */
    method AddDocument(existing: Id, document: Doc)
      requires Valid() && existing in atomsOf
      modifies this
      ensures Valid()
      ensures doc == old(doc)[existing := old(doc)[existing] + {document}]
      ensures nextExprId == old(nextExprId) && text == old(text) && numPairs == old(numPairs)
      ensures postings == old(postings) && atomsOf == old(atomsOf)
    {
      doc := doc[existing := doc[existing] + {document}];
    }

    /**
     * The insertion of a novel tree: the counter is incremented and names
     * the record; its text, pair count (the size of the atom SET) and
     * document are written, and the id is added to each atom's posting set.
     */
    method CreateRecord(tree: Tree) returns (exprId: Id)
      requires Valid()
      modifies this
      ensures Valid()
      ensures exprId == old(nextExprId) + 1 && nextExprId == exprId && exprId !in old(atomsOf)
      ensures text == old(text)[exprId := tree.html]
      ensures numPairs == old(numPairs)[exprId := |Elems(ranker.getAtoms(tree))|]
      ensures doc == old(doc)[exprId := {tree.document}]
      ensures postings == AddPostings(old(postings), Elems(ranker.getAtoms(tree)), exprId)
      ensures atomsOf == old(atomsOf)[exprId := Elems(ranker.getAtoms(tree))]
    {
      var pairs := Elems(ranker.getAtoms(tree));
      exprId := nextExprId + 1;
      // The pipeline's posting writes, applied when it is executed.
      var newPostings := QueuePostings(postings, pairs, exprId);
      nextExprId, text, numPairs, doc, postings :=
        exprId, text[exprId := tree.html], numPairs[exprId := |pairs|], doc[exprId := {tree.document}], newPostings;
      atomsOf := atomsOf[exprId := pairs];
      CreateKeepsConsistent(old(nextExprId), old(text), old(numPairs), old(doc), old(postings), old(atomsOf),
                            tree.html, tree.document, pairs,
                            nextExprId, text, numPairs, doc, postings, atomsOf);
    }

    /**
     * Ranked search: every candidate (an id under some query atom) is scored
     * from the query atoms it matched, the tree's own pair count and the
     * candidate's stored count; the candidates are sorted by descending
     * score and at most the first ten are returned with their text and
     * documents. The ghost results name the candidates' discovery order and
     * the full ranking.
     */
    method Search(tree: Tree) returns (hits: seq<Hit>, ghost order: seq<Id>, ghost ranked: seq<Scored>)
      requires Valid()
      ensures NoDups(order) && Elems(order) == Candidates(postings, ranker.getAtoms(tree))
      ensures forall k | 0 <= k < |order| :: order[k] in numPairs
      ensures multiset(ranked) ==
        multiset(ScoreEach(postings, numPairs, ranker.getAtoms(tree), ranker, tree.numPairs, order))
      ensures Descending(ranked)
      ensures |hits| == Min(MaxResults, |ranked|) && |hits| <= MaxResults
      ensures forall k | 0 <= k < |hits| ::
        ranked[k].id in text && ranked[k].id in doc &&
        hits[k] == Hit(text[ranked[k].id], ranked[k].score, ranked[k].matched, doc[ranked[k].id])
      ensures forall i, j | 0 <= i < j < |hits| :: hits[i].score >= hits[j].score
    {
      var q := ranker.getAtoms(tree);
      var matchLists, ids := CollectMatches(postings, q);
      CandidatesAreStored(postings, atomsOf, q);
      var scored := ScoreCandidates(postings, numPairs, q, ranker, tree.numPairs, matchLists, ids);
      order := ids;
      var sorted;
      hits, sorted := RankHits(text, doc, scored, ids);
      ranked := sorted;
    }
  }
}
