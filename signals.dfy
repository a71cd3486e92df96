/** The explainability rule set of the review service (`extract_signals`):
    four independent heuristics, checked in a fixed order, each adding one
    fixed message to the result when it fires. */
module Signals {
  import opened PyStr

  /** A model confidence in ten-thousandths, 0 .. 10000: the service rounds
      the winning softmax probability to four decimal places. */
  type Confidence = c: int | 0 <= c <= 10000

  const ShortReviewMessage: string := "Very short review length"
  const PunctuationMessage: string := "Excessive punctuation"
  const PromotionalMessage: string := "Overly promotional language"
  const StrongPatternMessage: string := "Strong deceptive language pattern detected by model"

  /** A review with fewer words than this is "very short". */
  const MinWords: nat := 5
  /** This many `!` or more is "excessive punctuation". */
  const MinExclamations: nat := 3
  /** 0.90 in ten-thousandths; the rule fires strictly above it. */
  const StrongThreshold: int := 9000

  const PromotionalPhrases: seq<string> :=
    ["best ever", "must buy", "highly recommend", "five stars", "life changing"]

  /** `len(text.split())`. */
  function WordCount(text: string): nat {
    |Split(text)|
  }

  /** `any(phrase in lowered for phrase in phrases)`. */
  function AnyPhraseIn(phrases: seq<string>, lowered: string): (b: bool)
    ensures b <==> exists k :: 0 <= k < |phrases| && Contains(lowered, phrases[k])
  {
    if phrases == [] then false
    else Contains(lowered, phrases[0]) || AnyPhraseIn(phrases[1..], lowered)
  }

  predicate IsPromotional(text: string) {
    AnyPhraseIn(PromotionalPhrases, Lower(text))
  }

  // ---------------------------------------------------------------------
  // The rule table
  // ---------------------------------------------------------------------

  datatype Rule = ShortReview | ExcessivePunctuation | PromotionalLanguage | StrongModelPattern

  /** The rules in the order the service checks them. */
  const RuleOrder: seq<Rule> :=
    [ShortReview, ExcessivePunctuation, PromotionalLanguage, StrongModelPattern]

  /** The position of a rule in `RuleOrder`. */
  function Index(r: Rule): nat {
    match r
    case ShortReview => 0
    case ExcessivePunctuation => 1
    case PromotionalLanguage => 2
    case StrongModelPattern => 3
  }

  function Message(r: Rule): string {
    match r
    case ShortReview => ShortReviewMessage
    case ExcessivePunctuation => PunctuationMessage
    case PromotionalLanguage => PromotionalMessage
    case StrongModelPattern => StrongPatternMessage
  }

  /** What the rules look at: the word count, the number of `!`, whether a
      promotional phrase occurs, and the model's confidence. */
  datatype Observation = Observation(words: nat, bangs: nat, promotional: bool, confidence: Confidence)

  /** The measurements `extract_signals` takes of its inputs. */
  function Observe(text: string, confidence: Confidence): Observation {
    Observation(WordCount(text), Count(text, '!'), IsPromotional(text), confidence)
  }

  /** The condition under which a rule adds its message. */
  predicate Fires(r: Rule, o: Observation) {
    match r
    case ShortReview => o.words < MinWords
    case ExcessivePunctuation => o.bangs >= MinExclamations
    case PromotionalLanguage => o.promotional
    case StrongModelPattern => o.confidence > StrongThreshold
  }

  /** The rules of `rules` that fire, in the order of `rules`. */
  function FiredRules(rules: seq<Rule>, o: Observation): (fired: seq<Rule>)
    ensures |fired| <= |rules|
  {
    if rules == [] then []
    else (if Fires(rules[0], o) then [rules[0]] else []) + FiredRules(rules[1..], o)
  }

  function Messages(rules: seq<Rule>): seq<string> {
    seq(|rules|, k requires 0 <= k < |rules| => Message(rules[k]))
  }

  /** The signals the service reports for `text` scored at `confidence`:
      the messages of the rules that fire, in declaration order. */
  function SignalsOf(text: string, confidence: Confidence): seq<string> {
    Messages(FiredRules(RuleOrder, Observe(text, confidence)))
  }

  /** The declaration position of a message; 4 for any other string. */
  function Rank(m: string): nat {
    if m == ShortReviewMessage then 0
    else if m == PunctuationMessage then 1
    else if m == PromotionalMessage then 2
    else if m == StrongPatternMessage then 3
    else 4
  }

  // ---------------------------------------------------------------------
  // Properties of the rule table
  // ---------------------------------------------------------------------

  /** Each rule's message names that rule and no other. */
  lemma RankOfMessage(r: Rule)
    ensures Rank(Message(r)) == Index(r)
  {
  }

  /** A rule's message is listed exactly when the rule is. */
  lemma MessagesHas(rules: seq<Rule>, r: Rule)
    ensures Message(r) in Messages(rules) <==> r in rules
  {
    RankOfMessage(r);
    if Message(r) in Messages(rules) {
      var k :| 0 <= k < |rules| && Messages(rules)[k] == Message(r);
      RankOfMessage(rules[k]);
    }
    if r in rules {
      var k :| 0 <= k < |rules| && rules[k] == r;
      assert Messages(rules)[k] == Message(r);
    }
  }

  /** `rules` is listed in strictly increasing declaration order. */
  predicate Increasing(rules: seq<Rule>) {
    forall i, j :: 0 <= i < j < |rules| ==> Index(rules[i]) < Index(rules[j])
  }

  /** No rule of `rules` comes before position `lo` of the declaration order. */
  predicate From(rules: seq<Rule>, lo: nat) {
    forall i :: 0 <= i < |rules| ==> lo <= Index(rules[i])
  }

  lemma IncreasingCons(r: Rule, rest: seq<Rule>)
    requires Increasing(rest) && From(rest, Index(r) + 1)
    ensures Increasing([r] + rest) && From([r] + rest, Index(r))
  {
    var rs := [r] + rest;
    forall i | 0 < i < |rs| ensures rs[i] == rest[i - 1] {
    }
  }

  lemma IncreasingTail(rules: seq<Rule>, lo: nat)
    requires rules != [] && Increasing(rules) && From(rules, lo)
    ensures Increasing(rules[1..]) && From(rules[1..], Index(rules[0]) + 1) && lo <= Index(rules[0])
  {
    var tail := rules[1..];
    forall i | 0 <= i < |tail| ensures tail[i] == rules[i + 1] {
    }
  }

  /** A rule survives the filter exactly when it is listed and fires. */
  lemma {:induction false} FiredRulesHas(rules: seq<Rule>, r: Rule, o: Observation)
    ensures r in FiredRules(rules, o) <==> r in rules && Fires(r, o)
    decreases |rules|
  {
    if rules != [] {
      FiredRulesHas(rules[1..], r, o);
      assert rules == [rules[0]] + rules[1..];
    }
  }

  /** Rules listed in strictly increasing declaration order still are
      after the ones that do not fire are dropped, and none of them comes
      before a given bound if none of the listed rules does. */
  lemma {:induction false} FiredRulesOrdered(rules: seq<Rule>, lo: nat, o: Observation)
    requires Increasing(rules) && From(rules, lo)
    ensures Increasing(FiredRules(rules, o)) && From(FiredRules(rules, o), lo)
    decreases |rules|
  {
    if rules != [] {
      var r := rules[0];
      IncreasingTail(rules, lo);
      FiredRulesOrdered(rules[1..], Index(r) + 1, o);
      var rest := FiredRules(rules[1..], o);
      if Fires(r, o) {
        IncreasingCons(r, rest);
      }
    }
  }

  /** `s`, with `x` appended when `fires` holds. */
  function AppendIf<T>(s: seq<T>, fires: bool, x: T): seq<T> {
    if fires then s + [x] else s
  }

  /** The list built from an empty one by appending each condition's
      message in turn. */
  function Appended(short: bool, punctuation: bool, promotional: bool, strong: bool): seq<string> {
    AppendIf(AppendIf(AppendIf(AppendIf([], short, ShortReviewMessage),
      punctuation, PunctuationMessage), promotional, PromotionalMessage), strong, StrongPatternMessage)
  }

  lemma MessagesAppendIf(rules: seq<Rule>, fires: bool, r: Rule)
    ensures Messages(AppendIf(rules, fires, r)) == AppendIf(Messages(rules), fires, Message(r))
  {
  }

  /** Checking the rules in declaration order is checking the four
      conditions one after the other. */
  lemma RuleOrderUnfolds(o: Observation)
    ensures Messages(FiredRules(RuleOrder, o))
         == Appended(o.words < MinWords, o.bangs >= MinExclamations, o.promotional, o.confidence > StrongThreshold)
  {
    var rs := RuleOrder;
    assert rs[1..] == [ExcessivePunctuation, PromotionalLanguage, StrongModelPattern];
    assert rs[1..][1..] == [PromotionalLanguage, StrongModelPattern];
    assert rs[1..][1..][1..] == [StrongModelPattern];
    assert rs[1..][1..][1..][1..] == [];
    var f3 := FiredRules(rs[1..][1..][1..], o);
    var f2 := FiredRules(rs[1..][1..], o);
    var f1 := FiredRules(rs[1..], o);
    var f0 := FiredRules(rs, o);
    assert f3 == (if Fires(StrongModelPattern, o) then [StrongModelPattern] else []);
    assert f2 == (if Fires(PromotionalLanguage, o) then [PromotionalLanguage] else []) + f3;
    assert f1 == (if Fires(ExcessivePunctuation, o) then [ExcessivePunctuation] else []) + f2;
    assert f0 == (if Fires(ShortReview, o) then [ShortReview] else []) + f1;
    var g1 := AppendIf([], Fires(ShortReview, o), ShortReview);
    var g2 := AppendIf(g1, Fires(ExcessivePunctuation, o), ExcessivePunctuation);
    var g3 := AppendIf(g2, Fires(PromotionalLanguage, o), PromotionalLanguage);
    var g4 := AppendIf(g3, Fires(StrongModelPattern, o), StrongModelPattern);
    assert f0 == g4;
    MessagesAppendIf([], Fires(ShortReview, o), ShortReview);
    MessagesAppendIf(g1, Fires(ExcessivePunctuation, o), ExcessivePunctuation);
    MessagesAppendIf(g2, Fires(PromotionalLanguage, o), PromotionalLanguage);
    MessagesAppendIf(g3, Fires(StrongModelPattern, o), StrongModelPattern);
  }

  /** Over the rule table each message is listed exactly when its own rule
      fires, and nothing but the four messages is ever listed. */
  lemma RuleOrderExactly(o: Observation)
    ensures ShortReviewMessage in Messages(FiredRules(RuleOrder, o)) <==> o.words < MinWords
    ensures PunctuationMessage in Messages(FiredRules(RuleOrder, o)) <==> o.bangs >= MinExclamations
    ensures PromotionalMessage in Messages(FiredRules(RuleOrder, o)) <==> o.promotional
    ensures StrongPatternMessage in Messages(FiredRules(RuleOrder, o)) <==> o.confidence > StrongThreshold
    ensures forall k :: 0 <= k < |Messages(FiredRules(RuleOrder, o))| ==> Rank(Messages(FiredRules(RuleOrder, o))[k]) < 4
  {
    var fired := FiredRules(RuleOrder, o);
    FiredRulesHas(RuleOrder, ShortReview, o);
    FiredRulesHas(RuleOrder, ExcessivePunctuation, o);
    FiredRulesHas(RuleOrder, PromotionalLanguage, o);
    FiredRulesHas(RuleOrder, StrongModelPattern, o);
    MessagesHas(fired, ShortReview);
    MessagesHas(fired, ExcessivePunctuation);
    MessagesHas(fired, PromotionalLanguage);
    MessagesHas(fired, StrongModelPattern);
    forall k | 0 <= k < |fired| ensures Rank(Messages(fired)[k]) < 4 {
      RankOfMessage(fired[k]);
    }
  }

  /** Each message is reported exactly when its own condition holds; no
      rule suppresses another, and nothing but the four messages is ever
      reported. */
  lemma SignalsExactly(text: string, confidence: Confidence)
    ensures ShortReviewMessage in SignalsOf(text, confidence) <==> WordCount(text) < MinWords
    ensures PunctuationMessage in SignalsOf(text, confidence) <==> Count(text, '!') >= MinExclamations
    ensures PromotionalMessage in SignalsOf(text, confidence) <==> IsPromotional(text)
    ensures StrongPatternMessage in SignalsOf(text, confidence) <==> confidence > StrongThreshold
    ensures forall k :: 0 <= k < |SignalsOf(text, confidence)| ==> Rank(SignalsOf(text, confidence)[k]) < 4
  {
    RuleOrderExactly(Observe(text, confidence));
  }

  /** Over the rule table the messages follow declaration order, so none
      is listed twice and there are at most four. */
  lemma RuleOrderOrdered(o: Observation)
    ensures forall k, l :: 0 <= k < l < |Messages(FiredRules(RuleOrder, o))|
              ==> Rank(Messages(FiredRules(RuleOrder, o))[k]) < Rank(Messages(FiredRules(RuleOrder, o))[l])
    ensures forall k, l :: 0 <= k < l < |Messages(FiredRules(RuleOrder, o))|
              ==> Messages(FiredRules(RuleOrder, o))[k] != Messages(FiredRules(RuleOrder, o))[l]
    ensures |Messages(FiredRules(RuleOrder, o))| <= 4
  {
    var fired := FiredRules(RuleOrder, o);
    FiredRulesOrdered(RuleOrder, 0, o);
    assert Increasing(fired);
    var s := Messages(fired);
    forall k, l | 0 <= k < l < |s| ensures Rank(s[k]) < Rank(s[l]) {
      RankOfMessage(fired[k]);
      RankOfMessage(fired[l]);
    }
  }

  /** The signals follow declaration order, so there are no duplicates and
      at most one message per rule. */
  lemma SignalsOrdered(text: string, confidence: Confidence)
    ensures forall k, l :: 0 <= k < l < |SignalsOf(text, confidence)|
              ==> Rank(SignalsOf(text, confidence)[k]) < Rank(SignalsOf(text, confidence)[l])
    ensures forall k, l :: 0 <= k < l < |SignalsOf(text, confidence)|
              ==> SignalsOf(text, confidence)[k] != SignalsOf(text, confidence)[l]
    ensures |SignalsOf(text, confidence)| <= 4
  {
    RuleOrderOrdered(Observe(text, confidence));
  }

  /** The result is empty exactly when no rule fires. */
  lemma SignalsEmptyIff(text: string, confidence: Confidence)
    ensures SignalsOf(text, confidence) == []
        <==> && WordCount(text) >= MinWords
             && Count(text, '!') < MinExclamations
             && !IsPromotional(text)
             && confidence <= StrongThreshold
  {
    RuleOrderUnfolds(Observe(text, confidence));
  }

  // ---------------------------------------------------------------------
  // The conditions in the builtins' own terms
  // ---------------------------------------------------------------------

  /** The short-review rule counts maximal runs of non-whitespace. */
  lemma ShortReviewCountsRuns(text: string)
    ensures WordCount(text) < MinWords <==> Runs(text) < MinWords
  {
    SplitCountsRuns(text);
  }

  /** The punctuation rule counts the occurrences of `!` in the text. */
  lemma PunctuationCountsBangs(text: string)
    ensures Count(text, '!') >= MinExclamations <==> multiset(text)['!'] >= MinExclamations
  {
    CountIsMultiplicity(text, '!');
  }

  /** Phrase `p` matches `text` at position `i`, ignoring ASCII case. */
  predicate MatchesAt(text: string, p: string, i: int) {
    0 <= i <= |text| - |p| && EqualIgnoringCase(text[i..i + |p|], p)
  }

  /** The promotional rule is a case-insensitive search for the phrases:
      it fires exactly when some phrase matches some stretch of the text
      letter for letter, ignoring ASCII case. */
  lemma PromotionalIgnoresCase(text: string)
    ensures IsPromotional(text)
        <==> exists k, i :: 0 <= k < |PromotionalPhrases| && MatchesAt(text, PromotionalPhrases[k], i)
  {
    var ps := PromotionalPhrases;
    forall k | 0 <= k < |ps| ensures IsLower(ps[k]) {
    }
    forall k, i | 0 <= k < |ps|
      ensures OccursAt(Lower(text), ps[k], i) <==> MatchesAt(text, ps[k], i)
    {
      LowerOccursIgnoringCase(text, ps[k], i);
    }
    forall k | 0 <= k < |ps|
      ensures Contains(Lower(text), ps[k]) <==> exists i :: OccursAt(Lower(text), ps[k], i)
    {
      ContainsIffOccurs(Lower(text), ps[k]);
    }
  }

  // ---------------------------------------------------------------------
  // extract_signals
  // ---------------------------------------------------------------------

  /** Starts from an empty list and appends the message of each rule that
      fires, checking the rules in declaration order. */
  method ExtractSignals(text: string, confidence: Confidence) returns (signals: seq<string>)
    ensures signals == SignalsOf(text, confidence)
    ensures ShortReviewMessage in signals <==> WordCount(text) < MinWords
    ensures PunctuationMessage in signals <==> Count(text, '!') >= MinExclamations
    ensures PromotionalMessage in signals <==> IsPromotional(text)
    ensures StrongPatternMessage in signals <==> confidence > StrongThreshold
  {
    signals := [];
    var wordCount := |Split(text)|;
    if wordCount < MinWords {
      signals := signals + [ShortReviewMessage];
    }
    if Count(text, '!') >= MinExclamations {
      signals := signals + [PunctuationMessage];
    }
    if AnyPhraseIn(PromotionalPhrases, Lower(text)) {
      signals := signals + [PromotionalMessage];
    }
    if confidence > StrongThreshold {
      signals := signals + [StrongPatternMessage];
    }
    RuleOrderUnfolds(Observe(text, confidence));
    SignalsExactly(text, confidence);
  }
}
