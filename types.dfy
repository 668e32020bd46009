// The values the index handles: atoms, expression ids, documents, trees and
// the pluggable ranker that extracts atoms and scores matches.
module Types {

  /** One structural feature of an expression tree (a symbol pair in Tangent). */
  type Atom = string

  /** An expression id, as issued by the store's counter. */
  type Id = nat

  /** The name of a document an expression occurs in. */
  type Doc = string

  /** The canonical rendering of an expression (`tree.get_html()`). */
  type Html = string

  /** An expression tree, seen only through what the index reads of it. */
  datatype Tree = Tree(html: Html, document: Doc, numPairs: int)

  /**
   * The ranker the index is built with: it extracts the atom list of a tree
   * and scores a candidate from the atoms it matched, the query's pair count
   * and the candidate's stored pair count. Both are foreign code, so they are
   * arbitrary function values here.
   */
  datatype Ranker = Ranker(getAtoms: Tree -> seq<Atom>, rank: (seq<Atom>, int, nat) -> real)

  datatype Option<T> = None | Some(value: T)

  function Min(a: int, b: int): int
  {
    if a <= b then a else b
  }

  /** The elements of a list, as Python's `set(...)` collects them. */
  function Elems<T>(s: seq<T>): set<T>
  {
    set x | x in s
  }

  predicate NoDups<T(==)>(s: seq<T>)
  {
    forall i, j | 0 <= i < j < |s| :: s[i] != s[j]
  }

  /** Collapsing a list to a set keeps its length exactly when no element repeats. */
  lemma {:induction false} ElemsCard<T>(s: seq<T>)
    ensures |Elems(s)| <= |s|
    ensures NoDups(s) <==> |Elems(s)| == |s|
  {
    if |s| == 0 {
      assert Elems(s) == {};
    } else {
      var init, last := s[..|s| - 1], s[|s| - 1];
      ElemsCard(init);
      assert s == init + [last];
      assert Elems(s) == Elems(init) + {last};
      if last in Elems(init) {
        assert Elems(s) == Elems(init);
        var k :| 0 <= k < |init| && init[k] == last;
        assert s[k] == s[|s| - 1];
      } else {
        assert |Elems(s)| == |Elems(init)| + 1;
        if NoDups(s) {
          forall i, j | 0 <= i < j < |init| ensures init[i] != init[j] {
            assert init[i] == s[i] && init[j] == s[j];
          }
        }
        if NoDups(init) {
          forall i, j | 0 <= i < j < |s| ensures s[i] != s[j] {
            if j == |s| - 1 {
              assert s[i] == init[i] && init[i] in Elems(init);
            } else {
              assert s[i] == init[i] && s[j] == init[j];
            }
          }
        }
      }
    }
  }

  /** A subset as large as its superset is the superset. */
  lemma SubsetSameCard<T>(a: set<T>, b: set<T>)
    requires a <= b && |a| == |b|
    ensures a == b
  {
    assert b == a + (b - a);
    assert a * (b - a) == {};
    assert |b - a| == 0;
    assert b - a == {};
  }

  /** A subset that shares no element with its superset is empty. */
  lemma DisjointSubsetEmpty<T>(a: set<T>, b: set<T>)
    requires a <= b && forall x | x in b :: x !in a
    ensures a == {}
  {
  }
}
