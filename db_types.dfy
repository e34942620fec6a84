/** The answer letters, the letter/ordinal dictionaries built from them, and the shapes
    a parser hands to ingestion (db/db_types.py). */
module DbTypes {

  /** `AnswerKeys`: the letters of the at most five options of a question, in order. */
  const ValidAnswerLetters: seq<string> := ["A", "B", "C", "D", "E"]

  /** `range(n)`. */
  function Range(n: nat): (r: seq<nat>)
    ensures |r| == n && forall i :: 0 <= i < n ==> r[i] == i
  {
    seq(n, i => i)
  }

  /** `zip(ks, vs)`: pairs up the elements, stopping at the shorter sequence. */
  function Zip<K, V>(ks: seq<K>, vs: seq<V>): (r: seq<(K, V)>)
    ensures |r| == if |ks| <= |vs| then |ks| else |vs|
    ensures forall i :: 0 <= i < |r| ==> r[i] == (ks[i], vs[i])
  {
    if |ks| == 0 || |vs| == 0 then [] else [(ks[0], vs[0])] + Zip(ks[1..], vs[1..])
  }

  /** `dict(pairs)`: inserts the pairs in order, so a later pair overwrites an earlier one
      with the same key. */
  function DictOf<K, V>(pairs: seq<(K, V)>): map<K, V>
  {
    if pairs == [] then map[]
    else DictOf(pairs[..|pairs| - 1])[pairs[|pairs| - 1].0 := pairs[|pairs| - 1].1]
  }

  /** No key occurs twice among the pairs. */
  predicate DistinctKeys<K(==), V>(pairs: seq<(K, V)>) {
    forall i, j :: 0 <= i < j < |pairs| ==> pairs[i].0 != pairs[j].0
  }

  /** Every key of `dict(pairs)` comes from some pair. */
  lemma {:induction false} DictOfKeysFromPairs<K, V>(pairs: seq<(K, V)>, x: K)
    requires x in DictOf(pairs)
    ensures exists i :: 0 <= i < |pairs| && pairs[i].0 == x
  {
    var init := pairs[..|pairs| - 1];
    if x != pairs[|pairs| - 1].0 {
      DictOfKeysFromPairs(init, x);
      var i :| 0 <= i < |init| && init[i].0 == x;
      assert pairs[i] == init[i];
    }
  }

  /** With distinct keys, `dict(pairs)` has one entry per pair, holding that pair's value. */
  lemma {:induction false} DictOfContents<K, V>(pairs: seq<(K, V)>)
    requires DistinctKeys(pairs)
    ensures |DictOf(pairs)| == |pairs|
    ensures forall i :: 0 <= i < |pairs| ==>
              pairs[i].0 in DictOf(pairs) && DictOf(pairs)[pairs[i].0] == pairs[i].1
  {
    if pairs != [] {
      var init := pairs[..|pairs| - 1];
      var last := pairs[|pairs| - 1];
      assert DistinctKeys(init) by {
        forall i, j | 0 <= i < j < |init| ensures init[i].0 != init[j].0 {
          assert init[i] == pairs[i] && init[j] == pairs[j];
        }
      }
      DictOfContents(init);
      assert last.0 !in DictOf(init) by {
        if last.0 in DictOf(init) {
          DictOfKeysFromPairs(init, last.0);
        }
      }
      forall i | 0 <= i < |pairs|
        ensures pairs[i].0 in DictOf(pairs) && DictOf(pairs)[pairs[i].0] == pairs[i].1
      {
        if i < |init| { assert pairs[i] == init[i]; }
      }
    }
  }

  /** No two keys share a value. */
  predicate Injective<K, V(==)>(m: map<K, V>) {
    forall k, k' :: k in m && k' in m && k != k' ==> m[k] != m[k']
  }

  /** `{v: k for k, v in m.items()}` for a dictionary whose values are distinct. */
  function Invert<K, V(==)>(m: map<K, V>): (r: map<V, K>)
    requires Injective(m)
    ensures r.Keys == m.Values
    ensures forall k :: k in m ==> r[m[k]] == k
  {
    map k | k in m :: m[k] := k
  }

  /** `ANSWER_LETTER_TO_INT`: each letter mapped to its position. */
  function AnswerLetterToInt(): map<string, nat> {
    DictOf(Zip(ValidAnswerLetters, Range(|ValidAnswerLetters|)))
  }

  /** The letters are pairwise distinct, so the zipped pairs have distinct keys and the
      dictionary holds exactly the five letters, the i-th mapped to i. */
  lemma {:induction false} AnswerLetterToIntContents()
    ensures AnswerLetterToInt().Keys == {"A", "B", "C", "D", "E"}
    ensures |AnswerLetterToInt()| == 5
    ensures forall i :: 0 <= i < 5 ==> AnswerLetterToInt()[ValidAnswerLetters[i]] == i
    ensures AnswerLetterToInt().Values == {0, 1, 2, 3, 4}
  {
    var pairs := Zip(ValidAnswerLetters, Range(|ValidAnswerLetters|));
    assert |pairs| == 5;
    assert DistinctKeys(pairs) by {
      forall i, j | 0 <= i < j < 5 ensures pairs[i].0 != pairs[j].0 {
        assert pairs[i].0 == ValidAnswerLetters[i] && pairs[j].0 == ValidAnswerLetters[j];
        assert ValidAnswerLetters[i][0] != ValidAnswerLetters[j][0];
      }
    }
    DictOfContents(pairs);
    var m := AnswerLetterToInt();
    forall x | x in m ensures x in {"A", "B", "C", "D", "E"} {
      DictOfKeysFromPairs(pairs, x);
    }
    forall i | 0 <= i < 5 ensures m[ValidAnswerLetters[i]] == i {
      assert pairs[i] == (ValidAnswerLetters[i], i);
    }
    assert m["A"] == 0 && m["B"] == 1 && m["C"] == 2 && m["D"] == 3 && m["E"] == 4 by {
      assert ValidAnswerLetters[0] == "A" && ValidAnswerLetters[1] == "B";
      assert ValidAnswerLetters[2] == "C" && ValidAnswerLetters[3] == "D";
      assert ValidAnswerLetters[4] == "E";
    }
  }

  /** `ANSWER_LETTER_TO_INT` never maps two letters to one ordinal. */
  lemma AnswerLetterToIntInjective()
    ensures Injective(AnswerLetterToInt())
  {
    AnswerLetterToIntContents();
    var m := AnswerLetterToInt();
    forall k, k' | k in m && k' in m && k != k' ensures m[k] != m[k'] {
      assert k in {"A", "B", "C", "D", "E"} && k' in {"A", "B", "C", "D", "E"};
      assert m["A"] == 0 && m["B"] == 1 && m["C"] == 2 && m["D"] == 3 && m["E"] == 4 by {
        assert ValidAnswerLetters[0] == "A" && ValidAnswerLetters[1] == "B";
        assert ValidAnswerLetters[2] == "C" && ValidAnswerLetters[3] == "D";
        assert ValidAnswerLetters[4] == "E";
      }
    }
  }

  /** `ANSWER_INT_TO_LETTER`: the inverse dictionary, ordinal to letter. */
  function AnswerIntToLetter(): map<nat, string> {
    AnswerLetterToIntInjective();
    Invert(AnswerLetterToInt())
  }

  /** `ANSWER_INT_TO_LETTER` maps each of the ordinals 0..4, and only those, to the letter
      at that position. */
  lemma AnswerIntToLetterContents()
    ensures AnswerIntToLetter().Keys == {0, 1, 2, 3, 4}
    ensures forall i :: 0 <= i < 5 ==> AnswerIntToLetter()[i] == ValidAnswerLetters[i]
  {
    AnswerLetterToIntContents();
    AnswerLetterToIntInjective();
    var m := AnswerLetterToInt();
    var inv := AnswerIntToLetter();
    assert inv == Invert(m);
    assert inv.Keys == m.Values;
    forall i | 0 <= i < 5 ensures i in inv && inv[i] == ValidAnswerLetters[i] {
      var c := ValidAnswerLetters[i];
      assert c in m && m[c] == i;
      assert m[c] in m.Values;
      assert inv[m[c]] == c;
    }
  }

  /** Both dictionaries have five entries, and each undoes the other: letter to ordinal
      to letter, and ordinal 0..4 to letter to ordinal. */
  lemma AnswerLetterRoundTrips()
    ensures |AnswerIntToLetter()| == 5
    ensures forall c :: c in AnswerLetterToInt() ==>
              AnswerLetterToInt()[c] in AnswerIntToLetter()
              && AnswerIntToLetter()[AnswerLetterToInt()[c]] == c
    ensures forall i :: i in AnswerIntToLetter() ==>
              AnswerIntToLetter()[i] in AnswerLetterToInt()
              && AnswerLetterToInt()[AnswerIntToLetter()[i]] == i
  {
    AnswerLetterToIntInjective();
    AnswerIntToLetterContents();
    var m := AnswerLetterToInt();
    var inv := AnswerIntToLetter();
    assert |{0, 1, 2, 3, 4}| == 5;
    forall i | i in inv ensures inv[i] in m && m[inv[i]] == i {
      var k :| k in m && m[k] == i;
    }
  }

  /** `AnswerType`: one option of a question as a parser produces it. */
  datatype AnswerType = AnswerType(isCorrect: bool, key: int, text: string)

  /** `QuestionType`. */
  datatype QuestionType = QuestionType(text: string, explanation: string)

  /** `ProcessedRow`: a question with its options, ready for ingestion. */
  datatype ProcessedRow = ProcessedRow(question: QuestionType, answers: seq<AnswerType>)
}
