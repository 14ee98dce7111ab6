/**
 The domain-error detector: for every aligned pair of rows of the ASR and the
 corrected transcript, and every domain word, one error record when the word
 occurs in the lower-cased corrected text but not in the lower-cased ASR text.
 Rows past the end of the shorter transcript are not looked at.
 */
module Detector {
  import opened Text
  import opened Dictionary

  /** One row of the result table: `Row`, `Missing Domain Word`, `ASR Text`, `Corrected Text`. */
  datatype ErrorRecord = ErrorRecord(row: nat, word: string, asrText: string, correctedText: string)

  function Min(a: nat, b: nat): nat {
    if a <= b then a else b
  }

  /** The number of aligned rows the detector walks over. */
  function RowCount(asr: seq<string>, corr: seq<string>): (n: nat)
    ensures n <= |asr| && n <= |corr|
    ensures n == |asr| || n == |corr|
  {
    Min(|asr|, |corr|)
  }

  /** The test applied to each word: present in the corrected text, absent from the ASR text. */
  predicate IsMissing(word: string, asrText: string, corrText: string) {
    Contains(corrText, word) && !Contains(asrText, word)
  }

  /** The record the detector emits for word `w` at 0-based row index `i`. */
  function RecordFor(w: string, i: nat, asr: seq<string>, corr: seq<string>): ErrorRecord
    requires i < |asr| && i < |corr|
  {
    ErrorRecord(i + 1, w, Lower(asr[i]), Lower(corr[i]))
  }

  /** A record is a legitimate finding of the first `n` rows: it names a row, a domain word missing there, and that row's texts. */
  ghost predicate IsFinding(words: seq<string>, asr: seq<string>, corr: seq<string>, n: nat, r: ErrorRecord)
    requires n <= |asr| && n <= |corr|
  {
    && 1 <= r.row <= n
    && r.word in words
    && r.asrText == Lower(asr[r.row - 1])
    && r.correctedText == Lower(corr[r.row - 1])
    && IsMissing(r.word, r.asrText, r.correctedText)
  }

  /**
   The records for one row (0-based index `i`, texts already lower-cased), in
   the order the words are tried.
   */
  function RowErrors(words: seq<string>, i: nat, a: string, c: string): (rs: seq<ErrorRecord>)
    ensures |rs| <= |words|
    ensures forall r {:trigger r in rs} :: r in rs ==>
              r.row == i + 1 && r.asrText == a && r.correctedText == c && r.word in words && IsMissing(r.word, a, c)
    ensures forall w :: w in words && IsMissing(w, a, c) ==> ErrorRecord(i + 1, w, a, c) in rs
  {
    if words == [] then []
    else
      var front := words[..|words| - 1];
      var last := words[|words| - 1];
      assert words == front + [last];
      RowErrors(front, i, a, c) + (if IsMissing(last, a, c) then [ErrorRecord(i + 1, last, a, c)] else [])
  }

  /** The records of the first `n` rows, row after row. */
  function DetectRows(words: seq<string>, asr: seq<string>, corr: seq<string>, n: nat): (rs: seq<ErrorRecord>)
    requires n <= |asr| && n <= |corr|
    ensures |rs| <= n * |words|
    ensures forall r {:trigger r in rs} :: r in rs ==> IsFinding(words, asr, corr, n, r)
    ensures forall i, w :: 0 <= i < n && w in words && IsMissing(w, Lower(asr[i]), Lower(corr[i])) ==>
              RecordFor(w, i, asr, corr) in rs
  {
    if n == 0 then []
    else
      var rest := DetectRows(words, asr, corr, n - 1);
      var row := RowErrors(words, n - 1, Lower(asr[n - 1]), Lower(corr[n - 1]));
      DetectRowsStep(words, asr, corr, n, rest, row);
      rest + row
  }

  /** The inductive step of `DetectRows`: the records of n - 1 rows followed by those of row n - 1 are those of n rows. */
  lemma DetectRowsStep(words: seq<string>, asr: seq<string>, corr: seq<string>, n: nat,
                       rest: seq<ErrorRecord>, row: seq<ErrorRecord>)
    requires 0 < n <= |asr| && n <= |corr|
    requires |rest| <= (n - 1) * |words|
    requires forall r {:trigger r in rest} :: r in rest ==> IsFinding(words, asr, corr, n - 1, r)
    requires forall i, w :: 0 <= i < n - 1 && w in words && IsMissing(w, Lower(asr[i]), Lower(corr[i])) ==>
               RecordFor(w, i, asr, corr) in rest
    requires |row| <= |words|
    requires forall r {:trigger r in row} :: r in row ==>
               r == RecordFor(r.word, n - 1, asr, corr) && r.word in words && IsMissing(r.word, r.asrText, r.correctedText)
    requires forall w :: w in words && IsMissing(w, Lower(asr[n - 1]), Lower(corr[n - 1])) ==>
               RecordFor(w, n - 1, asr, corr) in row
    ensures |rest + row| <= n * |words|
    ensures forall r {:trigger r in rest + row} :: r in rest + row ==> IsFinding(words, asr, corr, n, r)
    ensures forall i, w :: 0 <= i < n && w in words && IsMissing(w, Lower(asr[i]), Lower(corr[i])) ==>
              RecordFor(w, i, asr, corr) in rest + row
  {
    assert (n - 1) * |words| + |words| == n * |words|;
  }

  /**
   The detector: every record names a row of both transcripts, a domain word
   missing from that row's ASR text but present in its corrected text, and
   the row's lower-cased texts; every such (row, word) pair has its record.
   */
  function Detect(words: seq<string>, asr: seq<string>, corr: seq<string>): (rs: seq<ErrorRecord>)
    ensures |rs| <= RowCount(asr, corr) * |words|
    ensures forall r {:trigger r in rs} :: r in rs ==> IsFinding(words, asr, corr, RowCount(asr, corr), r)
    ensures forall i, w :: 0 <= i < RowCount(asr, corr) && w in words && IsMissing(w, Lower(asr[i]), Lower(corr[i])) ==>
              RecordFor(w, i, asr, corr) in rs
  {
    DetectRows(words, asr, corr, RowCount(asr, corr))
  }

  /** The whole pipeline: dictionary column to domain words, then the detector. */
  function Run(column: seq<string>, asr: seq<string>, corr: seq<string>): (rs: seq<ErrorRecord>)
    ensures forall r {:trigger r in rs} :: r in rs ==> IsFinding(DomainWords(column), asr, corr, RowCount(asr, corr), r)
    ensures forall r {:trigger r in rs} :: r in rs ==> r.word in LowerSet(column) && IsLower(r.word)
    ensures PairsDistinct(rs)
    ensures |rs| <= RowCount(asr, corr) * |LowerSet(column)|
    ensures forall i, x :: 0 <= i < RowCount(asr, corr) && x in column && IsMissing(Lower(x), Lower(asr[i]), Lower(corr[i])) ==>
              RecordFor(Lower(x), i, asr, corr) in rs
  {
    var words := DomainWords(column);
    assert forall x :: x in column ==> Lower(x) in words;
    DetectDistinct(words, asr, corr);
    Detect(words, asr, corr)
  }

  /** A record of the output for row `i` and word `w` exists exactly when `w` is missing at row `i`. */
  lemma Characterisation(words: seq<string>, asr: seq<string>, corr: seq<string>, i: nat, w: string)
    requires i < RowCount(asr, corr) && w in words
    ensures RecordFor(w, i, asr, corr) in Detect(words, asr, corr)
        <==> Contains(Lower(corr[i]), w) && !Contains(Lower(asr[i]), w)
  {
  }

  /** Every record's row number lies in `1 .. min(|asr|, |corr|)`. */
  lemma RowsInRange(words: seq<string>, asr: seq<string>, corr: seq<string>)
    ensures forall r :: r in Detect(words, asr, corr) ==> 1 <= r.row <= |asr| && r.row <= |corr|
  {
  }

  /** Rows past the end of the shorter transcript have no influence on the output. */
  lemma {:induction false} Truncation(words: seq<string>, asr: seq<string>, corr: seq<string>)
    ensures var n := RowCount(asr, corr);
            Detect(words, asr, corr) == Detect(words, asr[..n], corr[..n])
  {
    var n := RowCount(asr, corr);
    assert RowCount(asr[..n], corr[..n]) == n;
    SamePrefixSameRows(words, asr, corr, asr[..n], corr[..n], n);
  }

  /** `DetectRows` over `n` rows only looks at the first `n` rows of each transcript. */
  lemma {:induction false} SamePrefixSameRows(words: seq<string>, asr: seq<string>, corr: seq<string>,
                                              asr': seq<string>, corr': seq<string>, n: nat)
    requires n <= |asr| && n <= |corr| && n <= |asr'| && n <= |corr'|
    requires asr[..n] == asr'[..n] && corr[..n] == corr'[..n]
    ensures DetectRows(words, asr, corr, n) == DetectRows(words, asr', corr', n)
  {
    if n > 0 {
      assert asr[..n - 1] == asr'[..n - 1] && corr[..n - 1] == corr'[..n - 1] by {
        assert asr[..n - 1] == asr[..n][..n - 1];
        assert asr'[..n - 1] == asr'[..n][..n - 1];
        assert corr[..n - 1] == corr[..n][..n - 1];
        assert corr'[..n - 1] == corr'[..n][..n - 1];
      }
      assert asr[n - 1] == asr[..n][n - 1] == asr'[n - 1];
      assert corr[n - 1] == corr[..n][n - 1] == corr'[n - 1];
      SamePrefixSameRows(words, asr, corr, asr', corr', n - 1);
    }
  }

  /** Appending one aligned row appends that row's records and changes nothing before them. */
  lemma AppendRow(words: seq<string>, asr: seq<string>, corr: seq<string>, a: string, c: string)
    requires |asr| == |corr|
    ensures Detect(words, asr + [a], corr + [c])
         == Detect(words, asr, corr) + RowErrors(words, |asr|, Lower(a), Lower(c))
  {
    var n := |asr|;
    assert (asr + [a])[..n] == asr[..n] && (corr + [c])[..n] == corr[..n];
    SamePrefixSameRows(words, asr + [a], corr + [c], asr, corr, n);
  }

  /** Records are in non-decreasing row order. */
  ghost predicate Ascending(rs: seq<ErrorRecord>) {
    forall j, k :: 0 <= j < k < |rs| ==> rs[j].row <= rs[k].row
  }

  /** No two records name the same (row, word) pair. */
  ghost predicate PairsDistinct(rs: seq<ErrorRecord>) {
    forall j, k :: 0 <= j < k < |rs| ==> rs[j].row != rs[k].row || rs[j].word != rs[k].word
  }

  /** The records of the first `n` rows name rows up to `n` only. */
  lemma RowsBelow(words: seq<string>, asr: seq<string>, corr: seq<string>, n: nat)
    requires n <= |asr| && n <= |corr|
    ensures forall r {:trigger r in DetectRows(words, asr, corr, n)} :: r in DetectRows(words, asr, corr, n) ==> r.row <= n
  {
    forall r | r in DetectRows(words, asr, corr, n)
      ensures r.row <= n
    {
      assert IsFinding(words, asr, corr, n, r);
    }
  }

  lemma ConcatAscending(a: seq<ErrorRecord>, b: seq<ErrorRecord>, m: nat)
    requires Ascending(a)
    requires forall r {:trigger r in a} :: r in a ==> r.row <= m
    requires forall r {:trigger r in b} :: r in b ==> r.row == m
    ensures Ascending(a + b)
  {
    var ab := a + b;
    forall j, k | 0 <= j < k < |ab|
      ensures ab[j].row <= ab[k].row
    {
      if k < |a| {
        assert ab[j] == a[j] && ab[k] == a[k];
      } else {
        assert ab[k] == b[k - |a|] && ab[k] in b;
        if j < |a| {
          assert ab[j] == a[j] && ab[j] in a;
        } else {
          assert ab[j] == b[j - |a|] && ab[j] in b;
        }
      }
    }
  }

  lemma ConcatPairsDistinct(a: seq<ErrorRecord>, b: seq<ErrorRecord>)
    requires PairsDistinct(a) && PairsDistinct(b)
    requires forall r, s {:trigger r in a, s in b} :: r in a && s in b ==> r.row != s.row || r.word != s.word
    ensures PairsDistinct(a + b)
  {
    var ab := a + b;
    forall j, k | 0 <= j < k < |ab|
      ensures ab[j].row != ab[k].row || ab[j].word != ab[k].word
    {
      if k < |a| {
        assert ab[j] == a[j] && ab[k] == a[k];
      } else if j < |a| {
        assert ab[j] == a[j] && ab[j] in a;
        assert ab[k] == b[k - |a|] && ab[k] in b;
      } else {
        assert ab[j] == b[j - |a|] && ab[k] == b[k - |a|];
      }
    }
  }

  lemma ConcatRowsDistinct(a: seq<ErrorRecord>, b: seq<ErrorRecord>, m: nat)
    requires PairsDistinct(a) && PairsDistinct(b)
    requires forall r {:trigger r in a} :: r in a ==> r.row < m
    requires forall s {:trigger s in b} :: s in b ==> s.row == m
    ensures PairsDistinct(a + b)
  {
    ConcatPairsDistinct(a, b);
  }

  /** Records come out in non-decreasing row order, because rows are visited in ascending order. */
  lemma {:induction false} RowsAscending(words: seq<string>, asr: seq<string>, corr: seq<string>, n: nat)
    requires n <= |asr| && n <= |corr|
    ensures Ascending(DetectRows(words, asr, corr, n))
  {
    if n > 0 {
      RowsAscending(words, asr, corr, n - 1);
      var rest := DetectRows(words, asr, corr, n - 1);
      var row := RowErrors(words, n - 1, Lower(asr[n - 1]), Lower(corr[n - 1]));
      RowsBelow(words, asr, corr, n - 1);
      ConcatAscending(rest, row, n);
    }
  }

  /** The output of `Detect` is in non-decreasing row order. */
  lemma DetectAscending(words: seq<string>, asr: seq<string>, corr: seq<string>)
    ensures Ascending(Detect(words, asr, corr))
  {
    RowsAscending(words, asr, corr, RowCount(asr, corr));
  }

  /** With distinct words, one row never reports the same word twice. */
  lemma {:induction false} RowErrorsDistinct(words: seq<string>, i: nat, a: string, c: string)
    requires Distinct(words)
    ensures PairsDistinct(RowErrors(words, i, a, c))
  {
    if words != [] {
      var front := words[..|words| - 1];
      var last := words[|words| - 1];
      assert words == front + [last];
      assert Distinct(front);
      assert last !in front;
      RowErrorsDistinct(front, i, a, c);
      var tail := if IsMissing(last, a, c) then [ErrorRecord(i + 1, last, a, c)] else [];
      ConcatPairsDistinct(RowErrors(front, i, a, c), tail);
    }
  }

  /** With distinct words, at most one record is emitted per (row, word) pair among the first `n` rows. */
  lemma {:induction false} RowsDistinct(words: seq<string>, asr: seq<string>, corr: seq<string>, n: nat)
    requires Distinct(words)
    requires n <= |asr| && n <= |corr|
    ensures PairsDistinct(DetectRows(words, asr, corr, n))
  {
    if n > 0 {
      RowsDistinct(words, asr, corr, n - 1);
      var rest := DetectRows(words, asr, corr, n - 1);
      var row := RowErrors(words, n - 1, Lower(asr[n - 1]), Lower(corr[n - 1]));
      RowErrorsDistinct(words, n - 1, Lower(asr[n - 1]), Lower(corr[n - 1]));
      RowsBelow(words, asr, corr, n - 1);
      ConcatRowsDistinct(rest, row, n);
    }
  }

  /** With distinct words, at most one record is emitted per (row, word) pair. */
  lemma DetectDistinct(words: seq<string>, asr: seq<string>, corr: seq<string>)
    requires Distinct(words)
    ensures PairsDistinct(Detect(words, asr, corr))
  {
    RowsDistinct(words, asr, corr, RowCount(asr, corr));
  }

  /** An empty dictionary produces no records. */
  lemma EmptyDictionary(asr: seq<string>, corr: seq<string>)
    ensures Detect([], asr, corr) == []
  {
  }

  /** The empty word is in every text, so it is never reported missing. */
  lemma EmptyWordNeverMissing(words: seq<string>, asr: seq<string>, corr: seq<string>)
    ensures forall r :: r in Detect(words, asr, corr) ==> r.word != ""
  {
    forall r | r in Detect(words, asr, corr)
      ensures r.word != ""
    {
      EmptyContained(r.asrText);
    }
  }

  /** A row whose corrected text occurs inside its ASR text (after lower-casing) produces no record. */
  lemma CorrectedInsideAsr(words: seq<string>, asr: seq<string>, corr: seq<string>, i: nat)
    requires i < RowCount(asr, corr)
    requires Contains(Lower(asr[i]), Lower(corr[i]))
    ensures forall r :: r in Detect(words, asr, corr) ==> r.row != i + 1
  {
    forall r | r in Detect(words, asr, corr)
      ensures r.row != i + 1
    {
      if r.row == i + 1 {
        ContainsTransitive(r.asrText, r.correctedText, r.word);
      }
    }
  }

  /** Identical rows produce no record. */
  lemma IdenticalRows(words: seq<string>, asr: seq<string>, corr: seq<string>, i: nat)
    requires i < RowCount(asr, corr)
    requires asr[i] == corr[i]
    ensures forall r :: r in Detect(words, asr, corr) ==> r.row != i + 1
  {
    ContainsSelf(Lower(asr[i]));
    CorrectedInsideAsr(words, asr, corr, i);
  }

  /** The set of records does not depend on the order in which the words are tried. */
  lemma OrderIndependent(words1: seq<string>, words2: seq<string>, asr: seq<string>, corr: seq<string>)
    requires forall w :: w in words1 <==> w in words2
    ensures forall r :: r in Detect(words1, asr, corr) <==> r in Detect(words2, asr, corr)
  {
    var n := RowCount(asr, corr);
    forall r | r in Detect(words1, asr, corr)
      ensures r in Detect(words2, asr, corr)
    {
      assert r == RecordFor(r.word, r.row - 1, asr, corr);
    }
    forall r | r in Detect(words2, asr, corr)
      ensures r in Detect(words1, asr, corr)
    {
      assert r == RecordFor(r.word, r.row - 1, asr, corr);
    }
  }

  /** `RowErrors` over one more word appends that word's record, if any. */
  lemma RowErrorsSnoc(words: seq<string>, j: nat, i: nat, a: string, c: string)
    requires j < |words|
    ensures RowErrors(words[..j + 1], i, a, c)
         == RowErrors(words[..j], i, a, c) + (if IsMissing(words[j], a, c) then [ErrorRecord(i + 1, words[j], a, c)] else [])
  {
    assert words[..j + 1][..j] == words[..j];
  }

  /**
   The inner loop for one row (0-based index `i`, texts already lower-cased):
   every word tested with the substring search on both texts, one record
   appended to `errors` per missing word.
   */
  method AppendRowErrors(errors: seq<ErrorRecord>, words: seq<string>, i: nat, asrText: string, corrText: string)
    returns (errors': seq<ErrorRecord>)
    ensures errors' == errors + RowErrors(words, i, asrText, corrText)
  {
    errors' := errors;
    for j := 0 to |words|
      invariant errors' == errors + RowErrors(words[..j], i, asrText, corrText)
    {
      var word := words[j];
      var inCorr, _ := Find(corrText, word);
      var inAsr, _ := Find(asrText, word);
      assert inCorr && !inAsr <==> IsMissing(word, asrText, corrText);
      RowErrorsSnoc(words, j, i, asrText, corrText);
      if inCorr && !inAsr {
        errors' := errors' + [ErrorRecord(i + 1, word, asrText, corrText)];
      }
    }
    assert words[..|words|] == words;
  }

  /**
   The detection loop as written: rows in ascending order, each row's texts
   lower-cased once, then the words of the row tested in turn.
   */
  method DetectErrors(words: seq<string>, asr: seq<string>, corr: seq<string>) returns (errors: seq<ErrorRecord>)
    ensures errors == Detect(words, asr, corr)
  {
    errors := [];
    var n := Min(|asr|, |corr|);
    for i := 0 to n
      invariant errors == DetectRows(words, asr, corr, i)
    {
      var asrText := Lower(asr[i]);
      var corrText := Lower(corr[i]);
      errors := AppendRowErrors(errors, words, i, asrText, corrText);
    }
  }
}
