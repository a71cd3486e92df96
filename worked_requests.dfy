/** Worked requests: the measurements the rules take of a few concrete
    texts, and the responses that follow. */
module WorkedRequests {
  import opened PyStr
  import opened Signals
  import opened Api

  lemma GreatWords()
    ensures WordCount("great") == 1
  {
    SplitOneWord("great");
  }

  lemma GreatBangs()
    ensures Count("great", '!') == 0
  {
    CountAbsent("great", '!');
  }

  lemma GreatNotPromotional()
    ensures !IsPromotional("great")
  {
    forall k | 0 <= k < |PromotionalPhrases| ensures !Contains(Lower("great"), PromotionalPhrases[k]) {
      ContainsTooLong(Lower("great"), PromotionalPhrases[k]);
    }
  }

  /** One word and a confidence above 0.9000: short, and strongly patterned. */
  lemma GreatSignals(c: Confidence)
    requires c > StrongThreshold
    ensures SignalsOf("great", c) == [ShortReviewMessage, StrongPatternMessage]
  {
    GreatWords();
    GreatBangs();
    GreatNotPromotional();
    assert Observe("great", c) == Observation(1, 0, false, c);
    RuleOrderUnfolds(Observe("great", c));
  }

  /** A one-word review the classifier calls "real" with confidence
      0.9500 still carries the deceptive-language signal. */
  lemma ConfidentRealExample(classify: string -> Inference)
    requires classify("great") == Inference(0, 9500)
    ensures PredictReview(true, "great", classify)
         == Ok(Prediction(Real, 9500, [ShortReviewMessage, StrongPatternMessage]))
  {
    GreatWords();
    BlankIffNoWords("great");
    GreatSignals(9500);
  }

  lemma BestEverWords()
    ensures WordCount("Best ever!") == 2
  {
    SplitTwoWords("Best", ' ', "ever!");
    assert "Best" + [' '] + "ever!" == "Best ever!";
  }

  lemma BestEverBangs()
    ensures Count("Best ever!", '!') == 1
  {
    assert "Best ever!" == "Best ever" + "!";
    CountAppend("Best ever", "!", '!');
    CountAbsent("Best ever", '!');
  }

  lemma BestEverPromotional()
    ensures IsPromotional("Best ever!")
  {
    assert Lower("Best ever!")[..9] == "best ever";
    assert Contains(Lower("Best ever!"), PromotionalPhrases[0]);
  }

  /** "Best ever!" has two words and a promotional phrase; up to a
      confidence of 0.9000 those are its only signals. */
  lemma BestEverExample(c: Confidence)
    requires c <= StrongThreshold
    ensures SignalsOf("Best ever!", c) == [ShortReviewMessage, PromotionalMessage]
  {
    BestEverWords();
    BestEverBangs();
    BestEverPromotional();
    assert Observe("Best ever!", c) == Observation(2, 1, true, c);
    RuleOrderUnfolds(Observe("Best ever!", c));
  }
}
