// The posting sets of the index (`pair:<atom>:exprs`) and the queries the
// index runs against them, as functions over the typed tables.
module Postings {
  import opened Types

  /** `smembers('pair:%s:exprs' % a)`: a key that was never written reads as the empty set. */
  function Lookup(postings: map<Atom, set<Id>>, a: Atom): set<Id>
  {
    if a in postings then postings[a] else {}
  }

  /**
   * The ids stored under every atom of a non-empty query: `smembers` of the
   * only key for one atom, `sinter` of all keys for several.
   */
  function Common(postings: map<Atom, set<Id>>, q: seq<Atom>): set<Id>
    requires |q| > 0
    decreases |q|
  {
    if |q| == 1 then Lookup(postings, q[0])
    else Common(postings, q[..|q| - 1]) * Lookup(postings, q[|q| - 1])
  }

  lemma {:induction false} CommonIff(postings: map<Atom, set<Id>>, q: seq<Atom>, id: Id)
    requires |q| > 0
    ensures id in Common(postings, q) <==> forall i | 0 <= i < |q| :: id in Lookup(postings, q[i])
    decreases |q|
  {
    if |q| > 1 {
      var init := q[..|q| - 1];
      CommonIff(postings, init, id);
      assert forall i | 0 <= i < |init| :: init[i] == q[i];
    }
  }

  /**
   * The ids an exact search may return: an empty query has none; otherwise
   * an id under every query atom whose stored pair count equals the length
   * of the query's atom LIST (repeated atoms counted).
   */
  function ExactMatches(postings: map<Atom, set<Id>>, numPairs: map<Id, nat>, q: seq<Atom>): set<Id>
  {
    if |q| == 0 then {}
    else set id | id in Common(postings, q) && id in numPairs && numPairs[id] == |q|
  }

  lemma ExactMatchesIff(postings: map<Atom, set<Id>>, numPairs: map<Id, nat>, q: seq<Atom>, id: Id)
    ensures id in ExactMatches(postings, numPairs, q) <==>
      |q| > 0 && (forall i | 0 <= i < |q| :: id in Lookup(postings, q[i])) &&
      id in numPairs && numPairs[id] == |q|
  {
    if |q| > 0 {
      CommonIff(postings, q, id);
    }
  }

  /** The posting sets hold an id under an atom exactly when that atom is in the id's recorded atom set. */
  ghost predicate PostingsAgree(postings: map<Atom, set<Id>>, atomsOf: map<Id, set<Atom>>)
  {
    (forall a | a in postings :: forall id | id in postings[a] :: id in atomsOf && a in atomsOf[id]) &&
    (forall id | id in atomsOf :: forall a | a in atomsOf[id] :: a in postings && id in postings[a])
  }

  /** Every record's stored pair count is the size of its recorded atom set. */
  ghost predicate CountsAgree(numPairs: map<Id, nat>, atomsOf: map<Id, set<Atom>>)
  {
    numPairs.Keys == atomsOf.Keys &&
    forall id | id in atomsOf :: numPairs[id] == |atomsOf[id]|
  }

  /**
   * The deduplication argument: for a query without repeated atoms, an id
   * lies under every query atom and has as many pairs as the query exactly
   * when its recorded atom set is the query's atom set.
   */
  lemma ExactMatchIsSameAtomSet(postings: map<Atom, set<Id>>, numPairs: map<Id, nat>,
                                atomsOf: map<Id, set<Atom>>, q: seq<Atom>, id: Id)
    requires PostingsAgree(postings, atomsOf) && CountsAgree(numPairs, atomsOf)
    requires NoDups(q)
    ensures id in ExactMatches(postings, numPairs, q) <==>
      |q| > 0 && id in atomsOf && atomsOf[id] == Elems(q)
  {
    ExactMatchesIff(postings, numPairs, q, id);
    ElemsCard(q);
    if id in ExactMatches(postings, numPairs, q) {
      assert id in Lookup(postings, q[0]);
      forall a | a in Elems(q) ensures a in atomsOf[id] {
        var i :| 0 <= i < |q| && q[i] == a;
        assert id in Lookup(postings, q[i]);
      }
      SubsetSameCard(Elems(q), atomsOf[id]);
    }
    if |q| > 0 && id in atomsOf && atomsOf[id] == Elems(q) {
      forall i | 0 <= i < |q| ensures id in Lookup(postings, q[i]) {
        assert q[i] in Elems(q);
      }
    }
  }

  /**
   * A record stored from an atom list WITH repeats (its count is the size of
   * the set) never matches that same list again, whose length is larger.
   */
  lemma RecordOfRepeatedAtomsNeverMatches(postings: map<Atom, set<Id>>, numPairs: map<Id, nat>,
                                          atomsOf: map<Id, set<Atom>>, q: seq<Atom>, id: Id)
    requires CountsAgree(numPairs, atomsOf)
    requires !NoDups(q)
    requires id in atomsOf && atomsOf[id] == Elems(q)
    ensures id !in ExactMatches(postings, numPairs, q)
  {
    ElemsCard(q);
    ExactMatchesIff(postings, numPairs, q, id);
  }

  /** Every id found under some atom of a consistent index is a stored record. */
  lemma CommonIsStored(postings: map<Atom, set<Id>>, atomsOf: map<Id, set<Atom>>, q: seq<Atom>, id: Id)
    requires PostingsAgree(postings, atomsOf)
    requires |q| > 0 && id in Common(postings, q)
    ensures id in atomsOf && q[0] in atomsOf[id]
  {
    CommonIff(postings, q, id);
    assert id in Lookup(postings, q[0]);
  }

  /** The ids a ranked search discovers: the union of the posting sets of the query atoms. */
  function Candidates(postings: map<Atom, set<Id>>, q: seq<Atom>): set<Id>
    decreases |q|
  {
    if q == [] then {}
    else Candidates(postings, q[..|q| - 1]) + Lookup(postings, q[|q| - 1])
  }

  /**
   * The list `match_lists[id]` a ranked search builds for `id`: the query
   * atoms whose posting set holds `id`, in query order, repeats kept.
   */
  function MatchedPairs(postings: map<Atom, set<Id>>, q: seq<Atom>, id: Id): seq<Atom>
    decreases |q|
  {
    if q == [] then []
    else MatchedPairs(postings, q[..|q| - 1], id) +
         (if id in Lookup(postings, q[|q| - 1]) then [q[|q| - 1]] else [])
  }

  /** How both grow when one more query atom is processed. */
  lemma PrefixStep(postings: map<Atom, set<Id>>, q: seq<Atom>, i: nat, id: Id)
    requires i < |q|
    ensures Candidates(postings, q[..i + 1]) == Candidates(postings, q[..i]) + Lookup(postings, q[i])
    ensures MatchedPairs(postings, q[..i + 1], id) ==
      MatchedPairs(postings, q[..i], id) + (if id in Lookup(postings, q[i]) then [q[i]] else [])
  {
    assert q[..i + 1][..i] == q[..i];
  }

  /**
   * An id is a candidate exactly when some query atom's posting set holds it,
   * and exactly when its matched list is non-empty.
   */
  lemma {:induction false} CandidatesIff(postings: map<Atom, set<Id>>, q: seq<Atom>, id: Id)
    ensures id in Candidates(postings, q) <==> exists i | 0 <= i < |q| :: id in Lookup(postings, q[i])
    ensures id in Candidates(postings, q) <==> MatchedPairs(postings, q, id) != []
    decreases |q|
  {
    if q != [] {
      var init := q[..|q| - 1];
      CandidatesIff(postings, init, id);
      assert forall i | 0 <= i < |init| :: init[i] == q[i];
      if id in Lookup(postings, q[|q| - 1]) {
        assert MatchedPairs(postings, q, id) != [];
      }
    }
  }

  /**
   * The matched list of `id` holds each atom `a` as often as the query does
   * when `a`'s posting set holds `id`, and not at all otherwise.
   */
  lemma {:induction false} MatchedPairsCount(postings: map<Atom, set<Id>>, q: seq<Atom>, id: Id, a: Atom)
    ensures multiset(MatchedPairs(postings, q, id))[a] ==
      if id in Lookup(postings, a) then multiset(q)[a] else 0
    decreases |q|
  {
    if q != [] {
      var init := q[..|q| - 1];
      MatchedPairsCount(postings, init, id, a);
      assert q == init + [q[|q| - 1]];
    }
  }

  /** In a consistent index every candidate is a stored record. */
  lemma {:induction false} CandidatesAreStored(postings: map<Atom, set<Id>>, atomsOf: map<Id, set<Atom>>, q: seq<Atom>)
    requires PostingsAgree(postings, atomsOf)
    ensures Candidates(postings, q) <= atomsOf.Keys
    decreases |q|
  {
    if q != [] {
      CandidatesAreStored(postings, atomsOf, q[..|q| - 1]);
    }
  }

  /**
   * The postings after a new record `id` is inserted under each atom of
   * `atoms` (`sadd('pair:%s:exprs' % pair, id)`); a missing key is created.
   */
  function AddPostings(postings: map<Atom, set<Id>>, atoms: set<Atom>, id: Id): map<Atom, set<Id>>
  {
    map a | a in postings.Keys + atoms :: if a in atoms then Lookup(postings, a) + {id} else postings[a]
  }

  /** Exactly the posting sets of `atoms` gain `id`; every other one reads as before. */
  lemma AddPostingsLookup(postings: map<Atom, set<Id>>, atoms: set<Atom>, id: Id, a: Atom)
    ensures Lookup(AddPostings(postings, atoms, id), a) ==
      if a in atoms then Lookup(postings, a) + {id} else Lookup(postings, a)
  {
  }

  /** One more `sadd` of the insertion loop. */
  lemma AddPostingsStep(postings: map<Atom, set<Id>>, done: set<Atom>, a: Atom, id: Id)
    requires a !in done
    ensures AddPostings(postings, done + {a}, id) ==
      AddPostings(postings, done, id)[a := Lookup(AddPostings(postings, done, id), a) + {id}]
  {
    var lhs := AddPostings(postings, done + {a}, id);
    var rhs := AddPostings(postings, done, id)[a := Lookup(AddPostings(postings, done, id), a) + {id}];
    assert lhs.Keys == rhs.Keys;
    forall b | b in lhs.Keys ensures lhs[b] == rhs[b] {
      AddPostingsLookup(postings, done, id, b);
    }
  }

  /** Inserting a fresh record keeps the postings in agreement with the recorded atom sets. */
  lemma AddPostingsAgree(postings: map<Atom, set<Id>>, atomsOf: map<Id, set<Atom>>, atoms: set<Atom>, id: Id)
    requires PostingsAgree(postings, atomsOf)
    requires id !in atomsOf
    ensures PostingsAgree(AddPostings(postings, atoms, id), atomsOf[id := atoms])
  {
    var p := AddPostings(postings, atoms, id);
    var m := atomsOf[id := atoms];
    forall a, x ensures x in Lookup(p, a) <==> x in m && a in m[x] {
      AddPostingsLookup(postings, atoms, id, a);
      if x == id {
        assert id !in Lookup(postings, a);
      }
    }
  }
}
