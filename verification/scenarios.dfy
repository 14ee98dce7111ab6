/** Worked examples of the detector on concrete transcripts. */
module Scenarios {
  import opened Text
  import opened Detector

  lemma RefundTexts()
    ensures Lower("refund") == "refund"
    ensures Lower("no") == "no"
    ensures Lower("REFUND") == "refund"
  {
  }

  lemma RefundRows()
    ensures RowErrors(["refund"], 0, "refund", "refund") == []
    ensures RowErrors(["refund"], 1, "no", "refund") == [ErrorRecord(2, "refund", "no", "refund")]
  {
    ContainsSelf("refund");
    assert !Contains("no", "refund");
  }

  /**
   Two rows and the dictionary word "refund": the first row has the word on
   both sides, the second only in the corrected text, which is upper-case
   there; exactly one record comes out, for row 2, with lower-cased texts.
   */
  lemma RefundScenario()
    ensures Detect(["refund"], ["refund", "no"], ["refund", "REFUND"])
         == [ErrorRecord(2, "refund", "no", "refund")]
  {
    var words, asr, corr := ["refund"], ["refund", "no"], ["refund", "REFUND"];
    RefundTexts();
    RefundRows();
    assert DetectRows(words, asr, corr, 1) == [];
    assert DetectRows(words, asr, corr, 2) == [ErrorRecord(2, "refund", "no", "refund")];
  }
}
