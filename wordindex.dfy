/**
 * The tag-word index that Post::afterSave maintains: the vocabulary of
 * distinct words with their ids, and the junction rows that link a word to
 * every post containing it.
 *
 * The vocabulary is a map from word to id (the word column is unique); the
 * junction table is the sequence of its rows, in insertion order.
 */
module WordIndex {
  import opened Entities
  import opened Tokenizer

  /** Ids lie below the allocator and no two words share one. */
  predicate ValidVocabulary(vocabulary: map<string, int>, nextWordId: int)
  {
    && (forall w :: w in vocabulary ==> vocabulary[w] < nextWordId)
    && (forall a, b :: a in vocabulary && b in vocabulary && a != b ==> vocabulary[a] != vocabulary[b])
  }

  predicate Distinct(words: seq<string>)
  {
    forall i, j :: 0 <= i < j < |words| ==> words[i] != words[j]
  }

  /** The words of the list that the vocabulary does not hold yet. */
  function Missing(vocabulary: map<string, int>, words: seq<string>): set<string>
  {
    set w | w in words && w !in vocabulary
  }

  /** The ids of the vocabulary rows `WHERE word IN (words)`. */
  function IdsOf(vocabulary: map<string, int>, words: seq<string>): set<int>
  {
    set w | w in words && w in vocabulary :: vocabulary[w]
  }

  /** The ids of the words the junction links to post p. */
  function LinkedIds(junction: seq<JunctionRow>, p: int): set<int>
  {
    set r | r in junction && r.postId == p :: r.wordId
  }

  /** How many junction rows link word id to post p. */
  function Links(junction: seq<JunctionRow>, id: int, p: int): nat
  {
    multiset(junction)[JunctionRow(id, p)]
  }

  /** The words of the list that the vocabulary lacks, in list order. */
  function NewWords(vocabulary: map<string, int>, words: seq<string>): (r: seq<string>)
    ensures forall k :: 0 <= k < |r| ==> r[k] in words && r[k] !in vocabulary
    ensures |r| <= |words|
  {
    if words == [] then []
    else
      var last := words[|words| - 1];
      NewWords(vocabulary, words[..|words| - 1]) + (if last in vocabulary then [] else [last])
  }

  /**
   * Post::_addNewWords: every word the vocabulary lacks is inserted with the
   * next id, in the order of the list; the words it already holds keep theirs.
   */
  method AddNewWords(vocabulary: map<string, int>, nextWordId: int, words: seq<string>)
      returns (vocabulary': map<string, int>, nextWordId': int)
    requires ValidVocabulary(vocabulary, nextWordId) && Distinct(words)
    ensures ValidVocabulary(vocabulary', nextWordId')
    ensures forall w :: w in vocabulary' <==> w in vocabulary || w in words
    ensures forall w :: w in vocabulary ==> vocabulary'[w] == vocabulary[w]
    ensures forall w :: w in vocabulary' && w !in vocabulary ==> nextWordId <= vocabulary'[w]
    ensures nextWordId' == nextWordId + |Missing(vocabulary, words)|
    ensures var added := NewWords(vocabulary, words);
      forall k :: 0 <= k < |added| ==> vocabulary'[added[k]] == nextWordId + k
  {
    vocabulary', nextWordId' := vocabulary, nextWordId;
    var i := 0;
    while i < |words|
      invariant 0 <= i <= |words|
      invariant AddedUpTo(vocabulary, nextWordId, words, vocabulary', nextWordId', i)
    {
      var w := words[i];
      AddStep(vocabulary, nextWordId, words, vocabulary', nextWordId', i);
      if w !in vocabulary' {
        vocabulary' := vocabulary'[w := nextWordId'];
        nextWordId' := nextWordId' + 1;
      }
      i := i + 1;
    }
    assert words[..i] == words;
  }

  /** The state of AddNewWords once the first i words are handled. */
  ghost predicate AddedUpTo(vocabulary: map<string, int>, nextWordId: int, words: seq<string>,
                            current: map<string, int>, next: int, i: int)
    requires 0 <= i <= |words|
  {
    && ValidVocabulary(current, next)
    && (forall w :: w in current <==> w in vocabulary || w in words[..i])
    && (forall w :: w in vocabulary ==> current[w] == vocabulary[w])
    && (forall w :: w in current && w !in vocabulary ==> nextWordId <= current[w])
    && next == nextWordId + |Missing(vocabulary, words[..i])|
    && next == nextWordId + |NewWords(vocabulary, words[..i])|
    && (var added := NewWords(vocabulary, words[..i]);
        forall k :: 0 <= k < |added| ==> current[added[k]] == nextWordId + k)
  }

  /** One turn of the AddNewWords loop keeps AddedUpTo. */
  lemma AddStep(vocabulary: map<string, int>, nextWordId: int, words: seq<string>,
                current: map<string, int>, next: int, i: int)
    requires ValidVocabulary(vocabulary, nextWordId) && Distinct(words) && 0 <= i < |words|
    requires AddedUpTo(vocabulary, nextWordId, words, current, next, i)
    ensures words[i] !in current ==> AddedUpTo(vocabulary, nextWordId, words, current[words[i] := next], next + 1, i + 1)
    ensures words[i] in current ==> AddedUpTo(vocabulary, nextWordId, words, current, next, i + 1)
  {
    MissingStep(vocabulary, words, i);
    NewWordsStep(vocabulary, words, i);
    if words[i] !in current {
      AddFreshStep(vocabulary, nextWordId, words, current, next, i);
    } else {
      NotEarlier(words, i);
    }
  }

  /** A word the vocabulary lacks takes the next id, after every earlier new word. */
  lemma AddFreshStep(vocabulary: map<string, int>, nextWordId: int, words: seq<string>,
                     current: map<string, int>, next: int, i: int)
    requires 0 <= i < |words| && words[i] !in current
    requires AddedUpTo(vocabulary, nextWordId, words, current, next, i)
    requires forall u :: u in words[..i + 1] <==> u in words[..i] || u == words[i]
    requires |Missing(vocabulary, words[..i + 1])| == |Missing(vocabulary, words[..i])| + 1
    requires NewWords(vocabulary, words[..i + 1]) == NewWords(vocabulary, words[..i]) + [words[i]]
    ensures AddedUpTo(vocabulary, nextWordId, words, current[words[i] := next], next + 1, i + 1)
  {
    var w := words[i];
    var added := NewWords(vocabulary, words[..i]);
    FreshWordKeepsValid(current, next, w);
    forall k | 0 <= k < |added| ensures added[k] != w {
      assert added[k] in words[..i];
    }
  }

  /** Handling one more word appends it to the new words exactly when the vocabulary lacks it. */
  lemma NewWordsStep(vocabulary: map<string, int>, words: seq<string>, i: int)
    requires 0 <= i < |words|
    ensures NewWords(vocabulary, words[..i + 1]) ==
            NewWords(vocabulary, words[..i]) + (if words[i] in vocabulary then [] else [words[i]])
  {
    assert words[..i + 1][..i] == words[..i];
  }

  /** In a list without repeats, a word does not occur before its own position. */
  lemma NotEarlier(words: seq<string>, i: int)
    requires Distinct(words) && 0 <= i < |words|
    ensures words[i] !in words[..i]
  {
    forall k | 0 <= k < i ensures words[..i][k] != words[i] {
      assert words[..i][k] == words[k];
    }
  }

  /** Extending the list by one word adds it to the missing words exactly when it is new. */
  lemma MissingStep(vocabulary: map<string, int>, words: seq<string>, i: int)
    requires 0 <= i < |words|
    ensures forall u :: u in words[..i + 1] <==> u in words[..i] || u == words[i]
    ensures |Missing(vocabulary, words[..i + 1])| ==
      |Missing(vocabulary, words[..i])| + (if words[i] in vocabulary || words[i] in words[..i] then 0 else 1)
  {
    var w := words[i];
    assert words[..i + 1] == words[..i] + [w];
    if w in vocabulary || w in words[..i] {
      assert Missing(vocabulary, words[..i + 1]) == Missing(vocabulary, words[..i]);
    } else {
      assert Missing(vocabulary, words[..i + 1]) == Missing(vocabulary, words[..i]) + {w};
    }
  }

  /** A word added under the allocator's id keeps the vocabulary valid. */
  lemma FreshWordKeepsValid(vocabulary: map<string, int>, nextWordId: int, w: string)
    requires ValidVocabulary(vocabulary, nextWordId) && w !in vocabulary
    ensures ValidVocabulary(vocabulary[w := nextWordId], nextWordId + 1)
  {
  }

  /** One junction row per word, linking its id to post p. */
  function RowsFor(vocabulary: map<string, int>, p: int, words: seq<string>): (rows: seq<JunctionRow>)
    requires forall i :: 0 <= i < |words| ==> words[i] in vocabulary
    ensures |rows| == |words|
  {
    seq(|words|, k requires 0 <= k < |words| => JunctionRow(vocabulary[words[k]], p))
  }

  /**
   * The rows of the junction batch insert: one row linking post p to the id
   * of each word, in the order of the list.
   */
  method LinkRows(vocabulary: map<string, int>, p: int, words: seq<string>) returns (rows: seq<JunctionRow>)
    requires forall i :: 0 <= i < |words| ==> words[i] in vocabulary
    ensures rows == RowsFor(vocabulary, p, words)
    ensures forall r :: r in rows ==> r.postId == p
    ensures forall r :: r in rows ==> r.wordId in IdsOf(vocabulary, words)
    ensures forall id :: id in IdsOf(vocabulary, words) ==> JunctionRow(id, p) in rows
  {
    rows := [];
    var i := 0;
    while i < |words|
      invariant 0 <= i <= |words| && |rows| == i
      invariant forall k :: 0 <= k < i ==> rows[k] == JunctionRow(vocabulary[words[k]], p)
    {
      rows := rows + [JunctionRow(vocabulary[words[i]], p)];
      i := i + 1;
    }
    forall id | id in IdsOf(vocabulary, words) ensures JunctionRow(id, p) in rows {
      var w :| w in words && w in vocabulary && vocabulary[w] == id;
      var k :| 0 <= k < |words| && words[k] == w;
      assert rows[k] == JunctionRow(id, p);
    }
  }

  /** The junction rows of post p whose word is not among `keep` are deleted; every other row stays. */
  function DropStale(junction: seq<JunctionRow>, p: int, keep: set<int>): (r: seq<JunctionRow>)
    ensures forall row: JunctionRow :: multiset(r)[row] == if row.postId == p && row.wordId !in keep then 0 else multiset(junction)[row]
    decreases |junction|
  {
    if junction == [] then []
    else
      var rest := DropStale(junction[1..], p, keep);
      assert junction == [junction[0]] + junction[1..];
      if junction[0].postId == p && junction[0].wordId !in keep then rest else [junction[0]] + rest
  }

  lemma LinkedIdsByCount(junction: seq<JunctionRow>, p: int, id: int)
    ensures id in LinkedIds(junction, p) <==> Links(junction, id, p) > 0
  {
    if Links(junction, id, p) > 0 {
      assert JunctionRow(id, p) in junction;
    }
  }

  // ---------------------------------------------------------------------
  // Post::_insertWords and Post::_updateWords
  // ---------------------------------------------------------------------

  /** The index after a post is saved: its words are added and its junction rows are brought up to date. */
  datatype Index = Index(vocabulary: map<string, int>, nextWordId: int, junction: seq<JunctionRow>)

  /** Post::_insertWords for the new post p: the words of its content are added, then one row per word links them to p. */
  method InsertWords(ix: Index, p: int, content: string) returns (r: Index)
    requires ValidVocabulary(ix.vocabulary, ix.nextWordId)
    requires LinkedIds(ix.junction, p) == {}
    ensures ValidVocabulary(r.vocabulary, r.nextWordId)
    ensures forall w :: w in PrepareWords(content) ==> w in r.vocabulary
    ensures LinkedIds(r.junction, p) == IdsOf(r.vocabulary, PrepareWords(content))
    ensures forall id :: Links(r.junction, id, p) <= 1
    ensures forall row: JunctionRow :: row.postId != p ==> multiset(r.junction)[row] == multiset(ix.junction)[row]
  {
    var words := PrepareWords(content);
    PrepareWordsSpec(content);
    var vocabulary, next := AddNewWords(ix.vocabulary, ix.nextWordId, words);
    var rows := LinkRows(vocabulary, p, words);
    RowsOfDistinctWords(vocabulary, p, words, rows);
    var junction := ix.junction + rows;
    AppendLinks(ix.junction, rows, p, IdsOf(vocabulary, words));
    r := Index(vocabulary, next, junction);
  }

  /** Appending rows for post p to a junction that links nothing to p links exactly their ids, once each. */
  lemma AppendLinks(junction: seq<JunctionRow>, rows: seq<JunctionRow>, p: int, ids: set<int>)
    requires LinkedIds(junction, p) == {}
    requires forall r :: r in rows ==> r.postId == p && r.wordId in ids
    requires forall id :: id in ids ==> JunctionRow(id, p) in rows
    requires forall id :: multiset(rows)[JunctionRow(id, p)] <= 1
    ensures LinkedIds(junction + rows, p) == ids
    ensures forall id :: Links(junction + rows, id, p) <= 1
    ensures forall row: JunctionRow :: row.postId != p ==> multiset(junction + rows)[row] == multiset(junction)[row]
  {
    var all := junction + rows;
    assert multiset(all) == multiset(junction) + multiset(rows);
    forall id ensures Links(all, id, p) <= 1 {
      LinkedIdsByCount(junction, p, id);
    }
    forall row: JunctionRow | row.postId != p ensures multiset(rows)[row] == 0 {
    }
    forall id ensures id in LinkedIds(all, p) <==> id in ids {
      LinkedIdsByCount(junction, p, id);
      LinkedIdsByCount(all, p, id);
      if id in ids {
        assert JunctionRow(id, p) in rows;
        assert multiset(rows)[JunctionRow(id, p)] > 0;
      }
      if Links(all, id, p) > 0 {
        assert JunctionRow(id, p) in multiset(rows);
        assert JunctionRow(id, p) in rows;
      }
    }
  }

  /** One row per word of a duplicate-free list gives each id at most one row. */
  lemma RowsOfDistinctWords(vocabulary: map<string, int>, p: int, words: seq<string>, rows: seq<JunctionRow>)
    requires forall a, b :: a in vocabulary && b in vocabulary && a != b ==> vocabulary[a] != vocabulary[b]
    requires Distinct(words) && |rows| == |words|
    requires forall k :: 0 <= k < |words| ==> words[k] in vocabulary && rows[k] == JunctionRow(vocabulary[words[k]], p)
    ensures forall id :: multiset(rows)[JunctionRow(id, p)] <= 1
  {
    forall id ensures multiset(rows)[JunctionRow(id, p)] <= 1 {
      var row := JunctionRow(id, p);
      var ks := set k | 0 <= k < |rows| && rows[k] == row;
      CountIsPositions(rows, row);
      if a :| a in ks {
        forall b | b in ks ensures b == a {
          assert vocabulary[words[b]] == vocabulary[words[a]];
          assert words[b] == words[a];
        }
        assert ks == {a};
      } else {
        assert forall k :: k in ks <==> k in {};
      }
    }
  }

  lemma {:induction false} CountIsPositions(rows: seq<JunctionRow>, row: JunctionRow)
    ensures multiset(rows)[row] == |set k | 0 <= k < |rows| && rows[k] == row|
    decreases |rows|
  {
    if rows != [] {
      var n := |rows| - 1;
      CountIsPositions(rows[..n], row);
      assert rows == rows[..n] + [rows[n]];
      var before := set k | 0 <= k < n && rows[..n][k] == row;
      var all := set k | 0 <= k < |rows| && rows[k] == row;
      if rows[n] == row {
        assert all == before + {n};
      } else {
        assert all == before;
      }
    }
  }

  // ---------------------------------------------------------------------
  // Post::_updateWords
  // ---------------------------------------------------------------------

  /** The words whose row linking them to post p is not in the junction yet. */
  function Unlinked(vocabulary: map<string, int>, junction: seq<JunctionRow>, p: int, words: seq<string>): (r: seq<string>)
    requires forall i :: 0 <= i < |words| ==> words[i] in vocabulary
    ensures forall w :: w in r <==> w in words && JunctionRow(vocabulary[w], p) !in junction
    ensures Distinct(words) ==> Distinct(r)
    ensures forall i :: 0 <= i < |r| ==> r[i] in vocabulary
    decreases |words|
  {
    if words == [] then []
    else
      var rest := Unlinked(vocabulary, junction, p, words[1..]);
      assert forall w :: w in words <==> w == words[0] || w in words[1..];
      if JunctionRow(vocabulary[words[0]], p) in junction then rest else [words[0]] + rest
  }

  /**
   * The junction after Post::_updateWords as written: a row for every current
   * word is inserted, whether or not one exists, then the post's rows for
   * words it no longer holds are deleted.
   */
  function RelinkAsWritten(vocabulary: map<string, int>, junction: seq<JunctionRow>, p: int, words: seq<string>): seq<JunctionRow>
    requires forall i :: 0 <= i < |words| ==> words[i] in vocabulary
  {
    DropStale(junction + RowsFor(vocabulary, p, words), p, IdsOf(vocabulary, words))
  }

  /** The junction after the re-indexing the update intends: rows only for the words not linked yet, then the same deletion. */
  function Relink(vocabulary: map<string, int>, junction: seq<JunctionRow>, p: int, words: seq<string>): seq<JunctionRow>
    requires forall i :: 0 <= i < |words| ==> words[i] in vocabulary
  {
    DropStale(junction + RowsFor(vocabulary, p, Unlinked(vocabulary, junction, p, words)), p, IdsOf(vocabulary, words))
  }

  /** How many rows for word id the batch for a duplicate-free list holds: one when the id is among the list's, else none. */
  lemma RowsForCount(vocabulary: map<string, int>, p: int, words: seq<string>, id: int)
    requires forall a, b :: a in vocabulary && b in vocabulary && a != b ==> vocabulary[a] != vocabulary[b]
    requires Distinct(words) && forall i :: 0 <= i < |words| ==> words[i] in vocabulary
    ensures multiset(RowsFor(vocabulary, p, words))[JunctionRow(id, p)] == if id in IdsOf(vocabulary, words) then 1 else 0
  {
    var rows := RowsFor(vocabulary, p, words);
    RowsOfDistinctWords(vocabulary, p, words, rows);
    if id in IdsOf(vocabulary, words) {
      var w :| w in words && w in vocabulary && vocabulary[w] == id;
      var k :| 0 <= k < |words| && words[k] == w;
      assert rows[k] == JunctionRow(id, p);
      assert JunctionRow(id, p) in rows;
    } else {
      forall k | 0 <= k < |rows| ensures rows[k] != JunctionRow(id, p) {
        assert words[k] in words;
      }
      assert JunctionRow(id, p) !in rows;
    }
  }

  /** As written, every current word of the post gains one more row, so a word kept across an edit is linked twice. */
  lemma RelinkAsWrittenCounts(vocabulary: map<string, int>, junction: seq<JunctionRow>, p: int, words: seq<string>, id: int)
    requires forall a, b :: a in vocabulary && b in vocabulary && a != b ==> vocabulary[a] != vocabulary[b]
    requires Distinct(words) && forall i :: 0 <= i < |words| ==> words[i] in vocabulary
    ensures Links(RelinkAsWritten(vocabulary, junction, p, words), id, p) ==
      if id in IdsOf(vocabulary, words) then Links(junction, id, p) + 1 else 0
  {
    var rows := RowsFor(vocabulary, p, words);
    assert multiset(junction + rows) == multiset(junction) + multiset(rows);
    RowsForCount(vocabulary, p, words, id);
  }

  /** Editing a post without changing its words doubles the row of a word it had. */
  lemma RelinkAsWrittenDuplicates()
    ensures var vocabulary := map["hello" := 1];
      var junction := [JunctionRow(1, 7)];
      && Links(junction, 1, 7) == 1
      && Links(RelinkAsWritten(vocabulary, junction, 7, ["hello"]), 1, 7) == 2
  {
    var vocabulary := map["hello" := 1];
    var junction := [JunctionRow(1, 7)];
    assert IdsOf(vocabulary, ["hello"]) == {1} by {
      assert "hello" in ["hello"];
    }
    RelinkAsWrittenCounts(vocabulary, junction, 7, ["hello"], 1);
  }

  /**
   * The intended re-indexing: the post's rows stand for exactly its current
   * words, a word linked once stays linked once, and no other post's rows change.
   */
  lemma RelinkCounts(vocabulary: map<string, int>, junction: seq<JunctionRow>, p: int, words: seq<string>, id: int)
    requires forall a, b :: a in vocabulary && b in vocabulary && a != b ==> vocabulary[a] != vocabulary[b]
    requires Distinct(words) && forall i :: 0 <= i < |words| ==> words[i] in vocabulary
    ensures var r := Relink(vocabulary, junction, p, words);
      && Links(r, id, p) == (if id !in IdsOf(vocabulary, words) then 0
                             else if Links(junction, id, p) == 0 then 1 else Links(junction, id, p))
      && (forall row: JunctionRow :: row.postId != p ==> multiset(r)[row] == multiset(junction)[row])
  {
    var unlinked := Unlinked(vocabulary, junction, p, words);
    var rows := RowsFor(vocabulary, p, unlinked);
    assert multiset(junction + rows) == multiset(junction) + multiset(rows);
    RowsForCount(vocabulary, p, unlinked, id);
    var row := JunctionRow(id, p);
    assert id in IdsOf(vocabulary, unlinked) <==> id in IdsOf(vocabulary, words) && row !in junction by {
      if id in IdsOf(vocabulary, words) {
        var w :| w in words && w in vocabulary && vocabulary[w] == id;
        assert row !in junction ==> w in unlinked;
      }
      if id in IdsOf(vocabulary, unlinked) {
        var w :| w in unlinked && w in vocabulary && vocabulary[w] == id;
        assert w in words;
      }
    }
    assert row in junction <==> Links(junction, id, p) > 0;
    forall other: JunctionRow | other.postId != p ensures multiset(rows)[other] == 0 {
    }
  }

  /**
   * Post::_updateWords, with the row insert limited to the words not linked
   * yet: afterwards the post's rows stand for exactly the words of its new
   * content, one row each.
   */
  method UpdateWords(ix: Index, p: int, content: string) returns (r: Index)
    requires ValidVocabulary(ix.vocabulary, ix.nextWordId)
    requires forall id :: Links(ix.junction, id, p) <= 1
    ensures ValidVocabulary(r.vocabulary, r.nextWordId)
    ensures forall w :: w in PrepareWords(content) ==> w in r.vocabulary
    ensures forall id :: Links(r.junction, id, p) == if id in IdsOf(r.vocabulary, PrepareWords(content)) then 1 else 0
    ensures LinkedIds(r.junction, p) == IdsOf(r.vocabulary, PrepareWords(content))
    ensures forall row: JunctionRow :: row.postId != p ==> multiset(r.junction)[row] == multiset(ix.junction)[row]
  {
    var words := PrepareWords(content);
    PrepareWordsSpec(content);
    var vocabulary, next := AddNewWords(ix.vocabulary, ix.nextWordId, words);
    var junction := Relink(vocabulary, ix.junction, p, words);
    forall id ensures Links(junction, id, p) == if id in IdsOf(vocabulary, words) then 1 else 0 {
      RelinkCounts(vocabulary, ix.junction, p, words, id);
    }
    forall id ensures id in LinkedIds(junction, p) <==> id in IdsOf(vocabulary, words) {
      LinkedIdsByCount(junction, p, id);
    }
    forall row: JunctionRow | row.postId != p ensures multiset(junction)[row] == multiset(ix.junction)[row] {
      RelinkCounts(vocabulary, ix.junction, p, words, 0);
    }
    r := Index(vocabulary, next, junction);
  }

  /** Post::_updateWords as written: the same vocabulary, with the junction of RelinkAsWritten. */
  method UpdateWordsAsWritten(ix: Index, p: int, content: string) returns (r: Index)
    requires ValidVocabulary(ix.vocabulary, ix.nextWordId)
    ensures ValidVocabulary(r.vocabulary, r.nextWordId)
    ensures forall id :: (Links(r.junction, id, p) ==
      if id in IdsOf(r.vocabulary, PrepareWords(content)) then Links(ix.junction, id, p) + 1 else 0)
  {
    var words := PrepareWords(content);
    PrepareWordsSpec(content);
    var vocabulary, next := AddNewWords(ix.vocabulary, ix.nextWordId, words);
    var rows := LinkRows(vocabulary, p, words);
    var junction := DropStale(ix.junction + rows, p, IdsOf(vocabulary, words));
    forall id ensures Links(junction, id, p) == if id in IdsOf(vocabulary, words) then Links(ix.junction, id, p) + 1 else 0 {
      RelinkAsWrittenCounts(vocabulary, ix.junction, p, words, id);
    }
    r := Index(vocabulary, next, junction);
  }
}
