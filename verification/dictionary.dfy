/**
 The domain dictionary: the first column of the dictionary sheet, each cell
 lower-cased, duplicates collapsed. The page builds a Python set, whose
 iteration order is unspecified; this model keeps the words in the order of
 their first occurrence, and the detector's properties are stated so that they
 do not depend on that order.
 */
module Dictionary {
  import opened Text

  /** No element of `s` appears twice. */
  predicate Distinct<T(==)>(s: seq<T>) {
    forall j, k :: 0 <= j < k < |s| ==> s[j] != s[k]
  }

  /** The set of lower-cased cells of a column. */
  function LowerSet(column: seq<string>): set<string> {
    set x | x in column :: Lower(x)
  }

  /**
   The domain words of a dictionary column: each cell lower-cased, every
   lower-cased cell present exactly once, nothing else.
   */
  function DomainWords(column: seq<string>): (words: seq<string>)
    ensures Distinct(words)
    ensures forall w :: w in words <==> w in LowerSet(column)
    ensures forall w :: w in words ==> IsLower(w)
    ensures |words| == |LowerSet(column)| <= |column|
  {
    if column == [] then []
    else
      var front := column[..|column| - 1];
      var last := column[|column| - 1];
      LowerSetSnoc(column);
      var words := DomainWords(front);
      if Lower(last) in words then
        assert LowerSet(column) == LowerSet(front);
        words
      else
        assert |LowerSet(column)| == |LowerSet(front)| + 1;
        words + [Lower(last)]
  }

  lemma LowerSetSnoc(column: seq<string>)
    requires column != []
    ensures LowerSet(column) == LowerSet(column[..|column| - 1]) + {Lower(column[|column| - 1])}
  {
    assert column == column[..|column| - 1] + [column[|column| - 1]];
  }

  /** Re-ordering or repeating the cells of the column does not change the set of domain words. */
  lemma DomainWordsDependOnCellsOnly(c1: seq<string>, c2: seq<string>)
    requires forall x :: x in c1 <==> x in c2
    ensures forall w :: w in DomainWords(c1) <==> w in DomainWords(c2)
  {
    assert LowerSet(c1) == LowerSet(c2);
  }
}
