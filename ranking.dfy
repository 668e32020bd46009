// Scored candidates and the descending sort by score that ranked search
// applies before truncating to its first results.
module Ranking {
  import opened Types

  /** One element of `final_matches`: a candidate id, its score and its matched atoms. */
  datatype Scored = Scored(id: Id, score: real, matched: seq<Atom>)

  ghost predicate Descending(s: seq<Scored>)
  {
    forall i, j | 0 <= i < j < |s| :: s[i].score >= s[j].score
  }

  /**
   * Places `x` before the first element of `t` that scores no higher, so
   * that among equal scores the earlier input stays first.
   */
  function Insert(x: Scored, t: seq<Scored>): (r: seq<Scored>)
    ensures multiset(r) == multiset(t) + multiset{x}
    decreases |t|
  {
    if t == [] || t[0].score <= x.score then [x] + t
    else
      assert t == [t[0]] + t[1..];
      [t[0]] + Insert(x, t[1..])
  }

  /** Inserting into a descending list keeps it descending. */
  lemma {:induction false} InsertDescending(x: Scored, t: seq<Scored>)
    requires Descending(t)
    ensures Descending(Insert(x, t))
    decreases |t|
  {
    if t != [] && t[0].score > x.score {
      var rest := Insert(x, t[1..]);
      InsertDescending(x, t[1..]);
      forall k | 0 <= k < |rest| ensures t[0].score >= rest[k].score {
        assert rest[k] in multiset(rest);
        if rest[k] != x {
          assert rest[k] in multiset(t[1..]);
          var j :| 0 <= j < |t[1..]| && t[1..][j] == rest[k];
          assert t[j + 1] == rest[k];
        }
      }
      assert Insert(x, t) == [t[0]] + rest;
    }
  }

  /** `sorted(s, reverse=True, key=score)`: a stable sort by descending score. */
  function SortByScore(s: seq<Scored>): (r: seq<Scored>)
    ensures multiset(r) == multiset(s)
    ensures Descending(r)
    decreases |s|
  {
    if s == [] then []
    else
      assert s == [s[0]] + s[1..];
      InsertDescending(s[0], SortByScore(s[1..]));
      Insert(s[0], SortByScore(s[1..]))
  }
}
