# RedisIndex: a verified model of Tangent's Redis-backed expression index

Tangent indexes math expression trees through the structural features ("atoms",
symbol pairs) of each tree. `RedisIndex` aims to keep one record per distinct atom
set. That holds for records with atoms, as long as every tree added has no repeated
atom. Trees without atoms, and atom lists with repeats, break it (see below).
- `add` stores a tree. It attaches the tree's document to an existing record when
  an exact search finds one, and creates a new record otherwise.
- `exact_search` finds a record stored under every atom of a tree whose pair
  count equals the length of the tree's atom list, repeats counted.
- `search` ranks every record that shares at least one atom with a query tree and
  returns the ten best.

The model treats the Redis keyspace as five typed tables, held in the fields of
the class `RedisIndexModel.RedisIndex`:

| key family | field |
|---|---|
| `next_expr_id` | `nextExprId: nat` |
| `expr:<id>:text` | `text: map<Id, Html>` |
| `expr:<id>:num_pairs` | `numPairs: map<Id, nat>` |
| `expr:<id>:doc` | `doc: map<Id, set<Doc>>` |
| `pair:<atom>:exprs` | `postings: map<Atom, set<Id>>` |

A ghost field `atomsOf` records the atom set each record was created with. The
class invariant `Valid()` ties everything together:
- every record has a text, a document and an id the counter has issued;
- every record's pair count is the size of its atom set;
- an id lies in the posting set of atom `a` exactly when `a` is in that record's
  atom set.

The atom extractor (`get_atoms`) and the scorer (`rank`) are supplied by the ranker
the index is built with. Here they are arbitrary function values in the datatype
`Types.Ranker`.

Files:
- `types.dfy`: module `Types`, the values and small set and sequence lemmas.
- `postings.dfy`: module `Postings`, the queries over the posting sets as
  functions, and their lemmas.
- `ranking.dfy`: module `Ranking`, the sort by descending score.
- `redisindex.dfy`: module `RedisIndexModel`, the class and the loops of the three
  operations.
- `scenarios.dfy`: module `Scenarios`, concrete keyspaces and the composition of
  `add` with `exact_search`.

The central result is the deduplication argument, `Postings.ExactMatchIsSameAtomSet`.
Take an index whose invariant holds and a non-empty query whose atom list has no
repeats. An id is an exact match for that query exactly when its recorded atom
set is the query's atom set. So every `add` of a tree without repeated atoms keeps
the records that have atoms distinct from one another. In an index whose records
with atoms have distinct atom sets, adding an already recorded tree that has atoms
and no repeated atom changes nothing. A tree without atoms is never found, so each
`add` of one creates another record with the empty atom set
(`Scenarios.ZeroAtomTreeAddedTwice`).

The code as written compares a record's stored count, the size of the atom SET
(line 32), against the length of the query's atom LIST (line 91). The model keeps
that behaviour as it is. `Postings.RecordOfRepeatedAtomsNeverMatches` and
`Scenarios.RepeatedAtomQueryMatchesOtherRecord` show what it means for atom lists
with repeats:
- such a tree never matches any record with its own atom set. Adding it after that
  atom set is stored creates a second record with the same atom set, unless some
  record with a different atom set qualifies. When it does create one, the records
  with atoms are no longer distinct;
- such a tree can match a record with a different atom set.

## Model

| member | source | states |
|---|---|---|
| Types.ElemsCard | tangent/redisindex.py:27-32 | collapsing an atom list to a set never makes it longer, and keeps its length exactly when no atom repeats |
| Postings.CommonIff | tangent/redisindex.py:74-79 | for a non-empty query, `smembers` of the single key or `sinter` of all keys holds exactly the ids in the posting set of every query atom |
| Postings.ExactMatchesIff | tangent/redisindex.py:70-94 | an id qualifies for exact search iff the query is non-empty, every query atom's posting set holds the id, and its stored count equals the length of the atom list |
| Postings.ExactMatchIsSameAtomSet | tangent/redisindex.py:76-92 | with the postings and counts in agreement and a non-empty query without repeated atoms: an id qualifies iff its recorded atom set equals the query's atom set |
| Postings.RecordOfRepeatedAtomsNeverMatches | tangent/redisindex.py:32 | for an atom list with repeats, no record whose atom set is that list's set (count = size of the set) qualifies for the list |
| Postings.CommonIsStored | tangent/redisindex.py:76-79 | every id in the intersection is a stored record, recorded with the first query atom |
| Postings.CandidatesIff | tangent/redisindex.py:47-51 | an id becomes a key of `match_lists` iff some query atom's posting set holds it, iff its matched list is non-empty |
| Postings.MatchedPairsCount | tangent/redisindex.py:49-51 | a candidate's matched list holds each atom as many times as the query list does when that atom's posting set holds the candidate, and never otherwise |
| Postings.CandidatesAreStored | tangent/redisindex.py:49-54 | every candidate of a consistent index is a stored record, so its count can be read |
| Postings.AddPostingsLookup | tangent/redisindex.py:36-37 | the posting sets of exactly the tree's atoms gain the new id; every other posting set is unchanged |
| Postings.AddPostingsAgree | tangent/redisindex.py:36-37 | posting a fresh id under its atoms keeps the postings in agreement with the recorded atom sets |
| Ranking.Insert | tangent/redisindex.py:67 | insertion into a ranked list adds exactly that entry (multiset) |
| Ranking.InsertDescending | tangent/redisindex.py:67 | insertion keeps a list in descending score order |
| Ranking.SortByScore | tangent/redisindex.py:67 | the sorted list is a permutation of the scored candidates, in descending score order |
| RedisIndexModel.CreateKeepsConsistent | tangent/redisindex.py:25-39 | a record written under the incremented counter, with its text, set size, document and postings, keeps the store invariant, and its id is unused |
| RedisIndexModel.ExistingRecord | tangent/redisindex.py:19-22 | an exact match is a stored record; for a query without repeats it has the query's atom set and records the document once it is added; for a query without repeats, in an index whose records with atoms are distinct, if a record with the query's atom set already lists the document, adding it again leaves `doc` unchanged |
| RedisIndexModel.NovelAtomSet | tangent/redisindex.py:19-27 | when exact search finds nothing for a query without repeats, no record has its atom set unless the set is empty. So a tree with atoms was not recorded before, and the new record keeps the records with atoms distinct and records the document |
| RedisIndexModel.ReadCounts | tangent/redisindex.py:86-89 | the queued `get`s enumerate every id of the intersection exactly once, each paired with its stored count |
| RedisIndexModel.FirstWithCount | tangent/redisindex.py:90-94 | the scan returns the first id whose count equals the atom list's length, or None exactly when no count does |
| RedisIndexModel.QueuePostings | tangent/redisindex.py:36-37 | the `sadd` loop yields the posting sets with the new id under each atom of the set |
| RedisIndexModel.CollectMatches | tangent/redisindex.py:47-51 | `match_lists` has exactly the candidates as keys, each mapped to its matched atoms in query order, and its key order lists each candidate once |
| RedisIndexModel.AppendMatches | tangent/redisindex.py:49-51 | processing one more query atom turns the lists for a prefix of the query into the lists for the longer prefix |
| RedisIndexModel.AppendPair | tangent/redisindex.py:51 | a `defaultdict(list)` append: a missing key starts empty and joins the key order; only that key's list changes |
| RedisIndexModel.AppendStep | tangent/redisindex.py:51 | appending the atom to an id's list so far gives its matched list for the longer prefix |
| RedisIndexModel.RoundComplete | tangent/redisindex.py:49-51 | once every id under the atom has been appended to, all lists match the longer prefix |
| RedisIndexModel.ScoreCandidates | tangent/redisindex.py:54-64 | each candidate, in key order, is scored by the ranker from its matched atoms, the tree's own pair count and its stored count |
| RedisIndexModel.FetchHits | tangent/redisindex.py:67-68 | each returned entry yields its text, score, matched atoms and document set |
| RedisIndexModel.RankHits | tangent/redisindex.py:67-68 | the ranking is a permutation of the scored candidates in descending order, and at most ten hits are returned, the first ones of the ranking, with non-increasing scores |
| RedisIndexModel.RedisIndex.constructor | tangent/redisindex.py:10-15 | an index over an empty keyspace, with the given ranker, satisfies the invariant |
| RedisIndexModel.RedisIndex.ExactSearch | tangent/redisindex.py:70-94 | returns None exactly when no id qualifies; any id returned qualifies; a tree without atoms is never found; the store is not modified |
| RedisIndexModel.RedisIndex.Add | tangent/redisindex.py:17-39 | keeps the invariant. On a match, only the matched record's document set gains the document. On no match, the counter increases by one and names an unused record with the tree's text, set size, document and postings. A zero-atom tree always gets a new record. A tree with atoms but no repeated atom is found afterwards. Any tree without repeated atoms, zero-atom trees included, is recorded afterwards, and the records with atoms stay distinct. In an index whose records with atoms have distinct atom sets, adding an already recorded tree with atoms and no repeated atom changes nothing |
| RedisIndexModel.RedisIndex.AddExisting | tangent/redisindex.py:19-22 | the matched record gains the document and nothing else changes; for a tree without repeats the record qualifies and records the tree; for a tree without repeats in an index whose records with atoms have distinct atom sets, if the tree was already recorded, `doc` is unchanged |
| RedisIndexModel.RedisIndex.AddNovel | tangent/redisindex.py:23-39 | the new record is the whole change. For a tree without repeats: a tree with atoms was not recorded before; the tree is recorded afterwards; the records with atoms stay distinct; the new record qualifies for exact search exactly when the tree has atoms |
| RedisIndexModel.RedisIndex.AddDocument | tangent/redisindex.py:22 | `sadd` of the document to one record's document set, everything else unchanged |
| RedisIndexModel.RedisIndex.CreateRecord | tangent/redisindex.py:24-39 | counter incremented; text, count = size of the atom set, document set and postings of the new id written; the invariant kept |
| RedisIndexModel.RedisIndex.Search | tangent/redisindex.py:41-68 | the candidates are exactly the ids under some query atom, each once; the ranking is a permutation of their scores in descending order; at most ten hits, the first of the ranking, with text and documents, in non-increasing score order |
| Scenarios.SubsetRecordIsNotExact | tangent/redisindex.py:90-92 | with records {a, b, c} and {a, b}, the query [a, b] intersects to both ids but only the second one qualifies |
| Scenarios.RepeatedAtomQueryMatchesOtherRecord | tangent/redisindex.py:91 | the query [a, a] qualifies the record stored with atoms {a, b}, whose atom set differs |
| Scenarios.AddThenExactSearch | tangent/redisindex.py:17-39 | after `add` of a tree with a non-empty atom list without repeats, exact search finds a record; a tree without atoms is never found |
| Scenarios.AddZeroAtomTree | tangent/redisindex.py:19-39 | `add` of a tree without atoms always writes a record with the empty atom set and the tree's document under the next id, and keeps the records with atoms distinct |
| Scenarios.ZeroAtomTreeAddedTwice | tangent/redisindex.py:74-75 | adding a zero-atom tree twice to an empty index stores two records, ids 1 and 2, each with the empty atom set and the tree's document |

## Left out

- The Redis client, the connection and pipelining (lines 11, 28, 39, 43): each pipeline is a sequence of map updates applied in order. Partial failure of a pipeline is not modelled.
- Concurrency: a concurrent `add` between the exact search and the insertion (lines 19-25) is not modelled; every operation runs alone.
- `get_atoms`, `rank` and `FMeasureRanker`: foreign code, modelled as arbitrary function values. Scores are `real` rather than floating point. The constructor always takes a ranker. The `FMeasureRanker()` default that `__init__` picks when no ranker is given (lines 12-15) is one such value. The extractor is assumed deterministic. `add` calls `get_atoms` in `exact_search` (line 71) and again at line 27, and `search` calls it at line 44; all these calls return the same list.
- `tree.get_html()`, `tree.document` and `tree.num_pairs`: opaque values read from the tree.
- Key formatting (`'expr:%d:text'` and the rest) and `int(...)` parsing of stored strings (lines 51, 57, 89): the tables are typed, so parsing cannot fail.
- The lazy generator of `search` (line 68): the model returns the finite list of hits at once.
- `if existing_id:` (line 20) tests the returned id for truthiness. `exact_search` returns a member of a Redis reply (lines 77, 79, 92), a non-empty string, which is always truthy, so the model tests for presence.
- A new `RedisIndex` (lines 10-15) attaches to whatever the Redis server already holds and never clears it. The model starts from an empty keyspace. Every other operation assumes only the invariant `Valid()`, not an empty start.
- `incr('next_expr_id')` (line 25) fails once Redis's 64-bit signed counter reaches 2^63-1. `nextExprId` is an unbounded `nat`, so that failure is not modelled.
- RedisIndexModel.RedisIndex.ExactSearch: Redis does not order set iteration, so when several ids qualify the model returns any one of them.
- RedisIndexModel.RedisIndex.Search: the key order of `match_lists` is modelled as first-seen order, with each posting set iterated in an unspecified order; the only effect of that order is on how ties are broken in the ranking.
- Ranking.SortByScore: Python's sort is stable. The insertion sort here keeps equal scores in input order, but its contract does not state stability.
- RedisIndexModel.RedisIndex.Add: idempotence is stated for trees with atoms and without repeated atoms, in an index whose records with atoms have distinct atom sets. A tree without atoms is never found (lines 74-75), so each call creates another record with the empty atom set. For a tree with repeated atoms, the exact search never finds any record with the tree's atom set. Each call then creates another record with that atom set, unless some record with a different atom set qualifies. Such a call leaves more than one record for an atom set, so the records with atoms are no longer distinct.
