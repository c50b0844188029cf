/** The quiz of `HistoryApp`: the answer key, keyword matching, scoring of
    the submitted form entries, the pass threshold, required-field
    validation and the progress counts. */
module Quiz {
  import opened Wrappers
  import opened Text

  /** One entry of the answer key: the accepted keywords and the points the
      question is worth. */
  datatype Question = Question(answers: seq<string>, points: nat)

  /** Question name (the form field's `name`) to its accepted keywords. */
  type AnswerKey = map<string, Question>

  /** A submitted form entry: field name and the text typed into it. Form
      data is a sequence, since the same name may occur more than once. */
  type Entry = (string, string)

  /** The pass threshold, in percent. */
  const MinPassScore: nat := 70

  /** The answer key the quiz ships with. */
  const CorrectAnswers: AnswerKey := map[
    "question1" := Question(["antigua", "egipto", "grecia", "roma"], 1),
    "question2" := Question(["prohibía", "desaprobaba", "contra"], 1)
  ]

  // ---------------------------------------------------------------------
  // Answer matching
  // ---------------------------------------------------------------------

  /** Some keyword of `correctAnswers`, lower-cased, occurs in the already
      normalized answer. */
  ghost predicate SomeKeywordIn(normalized: string, correctAnswers: seq<string>) {
    exists k :: 0 <= k < |correctAnswers| && IsSubstring(Lower(correctAnswers[k]), normalized)
  }

  /** `some` over the keywords: stops at the first one the answer includes. */
  function SomeIncluded(normalized: string, correctAnswers: seq<string>): (r: bool)
    ensures r <==> SomeKeywordIn(normalized, correctAnswers)
  {
    if correctAnswers == [] then false
    else Includes(normalized, Lower(correctAnswers[0])) || SomeIncluded(normalized, correctAnswers[1..])
  }

  /** The matching rule: once lower-cased and trimmed, the answer contains
      one of the accepted keywords, lower-cased, anywhere. */
  ghost predicate Accepted(userAnswer: string, correctAnswers: seq<string>) {
    SomeKeywordIn(Trim(Lower(userAnswer)), correctAnswers)
  }

  /** Checks an answer against the accepted keywords, keyword by keyword. */
  function CheckAnswer(userAnswer: string, correctAnswers: seq<string>): (r: bool)
    ensures r <==> Accepted(userAnswer, correctAnswers)
  {
    SomeIncluded(Trim(Lower(userAnswer)), correctAnswers)
  }

  /** Reordering (or permuting) the accepted keywords never changes the
      verdict: the first-match shortcut is not observable. */
  lemma CheckAnswerOrderIndependent(userAnswer: string, a: seq<string>, b: seq<string>)
    requires multiset(a) == multiset(b)
    ensures CheckAnswer(userAnswer, a) == CheckAnswer(userAnswer, b)
  {
    var n := Trim(Lower(userAnswer));
    if CheckAnswer(userAnswer, a) {
      var k :| 0 <= k < |a| && IsSubstring(Lower(a[k]), n);
      assert a[k] in multiset(b);
      var j :| 0 <= j < |b| && b[j] == a[k];
    }
    if CheckAnswer(userAnswer, b) {
      var k :| 0 <= k < |b| && IsSubstring(Lower(b[k]), n);
      assert b[k] in multiset(a);
      var j :| 0 <= j < |a| && a[j] == b[k];
    }
  }

  /** Matching ignores case: lower-casing the answer first never changes the
      verdict. */
  lemma CheckAnswerIgnoresCase(userAnswer: string, correctAnswers: seq<string>)
    ensures CheckAnswer(Lower(userAnswer), correctAnswers) == CheckAnswer(userAnswer, correctAnswers)
  {
    LowerIdempotent(userAnswer);
  }

  /** A blank or whitespace-only answer matches no list of non-empty
      keywords. */
  lemma BlankAnswerNeverMatches(userAnswer: string, correctAnswers: seq<string>)
    requires forall i :: 0 <= i < |userAnswer| ==> IsWhitespace(userAnswer[i])
    requires forall k :: 0 <= k < |correctAnswers| ==> correctAnswers[k] != []
    ensures !CheckAnswer(userAnswer, correctAnswers)
  {
    var lowered := Lower(userAnswer);
    forall i | 0 <= i < |lowered| ensures IsWhitespace(lowered[i]) {
      LowerCharWhitespace(userAnswer[i]);
    }
    assert Trim(lowered) == [];
    forall k | 0 <= k < |correctAnswers| ensures !IsSubstring(Lower(correctAnswers[k]), []) {
      assert |Lower(correctAnswers[k])| > 0;
    }
  }

  /** Every keyword of the shipped key is non-empty, so a blank answer never
      scores on any of its questions. */
  lemma BlankAnswerScoresNothing(userAnswer: string, question: string)
    requires forall i :: 0 <= i < |userAnswer| ==> IsWhitespace(userAnswer[i])
    requires question in CorrectAnswers
    ensures !CheckAnswer(userAnswer, CorrectAnswers[question].answers)
  {
    BlankAnswerNeverMatches(userAnswer, CorrectAnswers[question].answers);
  }

  // ---------------------------------------------------------------------
  // Scoring
  // ---------------------------------------------------------------------

  /** The names every object literal inherits from `Object.prototype`. Indexing
      the answer key with one of them finds a function (or, for `__proto__`,
      the prototype itself): a truthy value with neither `points` nor
      `answers`. */
  const ObjectPrototypeNames: set<string> := {
    "constructor", "hasOwnProperty", "isPrototypeOf", "propertyIsEnumerable",
    "toLocaleString", "toString", "valueOf", "__proto__",
    "__defineGetter__", "__defineSetter__", "__lookupGetter__", "__lookupSetter__"
  }

  /** What `CORRECT_ANSWERS[name]` yields: one of the key's own questions, a
      member inherited from `Object.prototype`, or `undefined`. */
  datatype Lookup = Own(question: Question) | Inherited | Missing

  function LookUp(name: string, key: AnswerKey): (r: Lookup)
    ensures r.Own? <==> name in key
    ensures r.Own? ==> r.question == key[name]
    ensures r.Inherited? <==> name !in key && name in ObjectPrototypeNames
  {
    if name in key then Own(key[name])
    else if name in ObjectPrototypeNames then Inherited
    else Missing
  }

  /** Some submitted entry is named after an inherited member. Its lookup is
      truthy, so the loop adds its missing `points` and then calls
      `checkAnswer` with `answers` undefined, whose `some` throws a
      `TypeError`. */
  ghost predicate Throws(entries: seq<Entry>, key: AnswerKey) {
    exists e :: e in entries && LookUp(e.0, key).Inherited?
  }

  /** Why `evaluateAnswers` rejects: `correctAnswers.some` on `undefined`. */
  datatype EvaluationError = AnswersUndefined

  /** The points one submitted entry puts at stake: its question's points
      when its name is a question of the key, nothing otherwise. */
  function Stake(entry: Entry, key: AnswerKey): nat {
    if entry.0 in key then key[entry.0].points else 0
  }

  /** The points one submitted entry earns: its question's points when the
      answer matches, so never more than it puts at stake. */
  function Gain(entry: Entry, key: AnswerKey): (g: nat)
    ensures g <= Stake(entry, key)
    ensures g == (if entry.0 in key && Accepted(entry.1, key[entry.0].answers) then Stake(entry, key) else 0)
  {
    if entry.0 in key && CheckAnswer(entry.1, key[entry.0].answers) then key[entry.0].points else 0
  }

  /** `maxPoints` after the loop over the submitted entries. */
  function MaxPoints(entries: seq<Entry>, key: AnswerKey): nat {
    if entries == [] then 0 else Stake(entries[0], key) + MaxPoints(entries[1..], key)
  }

  /** `totalPoints` after the loop: never more than `maxPoints`. */
  function TotalPoints(entries: seq<Entry>, key: AnswerKey): (t: nat)
    ensures t <= MaxPoints(entries, key)
  {
    if entries == [] then 0 else Gain(entries[0], key) + TotalPoints(entries[1..], key)
  }

  /** The entry names a question worth at least one point. */
  predicate AtStake(e: Entry, key: AnswerKey) {
    e.0 in key && key[e.0].points > 0
  }

  /** No point is at stake exactly when no submitted entry names a question
      worth a point. */
  lemma {:induction false} NothingAtStake(entries: seq<Entry>, key: AnswerKey)
    ensures MaxPoints(entries, key) == 0 <==> forall e :: e in entries ==> !AtStake(e, key)
    decreases |entries|
  {
    if entries != [] {
      NothingAtStake(entries[1..], key);
      var e0 := entries[0];
      assert Stake(e0, key) == 0 <==> !AtStake(e0, key);
      if MaxPoints(entries, key) == 0 {
        forall e | e in entries ensures !AtStake(e, key) {
          if e != e0 {
            assert e in entries[1..];
          }
        }
      }
      if forall e :: e in entries ==> !AtStake(e, key) {
        assert e0 in entries;
        forall e | e in entries[1..] ensures !AtStake(e, key) {
          assert e in entries;
        }
      }
    }
  }

  /** The sum of a per-entry count over a list of entries. */
  function SumBy(entries: seq<Entry>, f: Entry -> nat): nat {
    if entries == [] then 0 else f(entries[0]) + SumBy(entries[1..], f)
  }

  lemma {:induction false} SumByAppend(a: seq<Entry>, b: seq<Entry>, f: Entry -> nat)
    ensures SumBy(a + b, f) == SumBy(a, f) + SumBy(b, f)
    decreases |a|
  {
    if a == [] {
      assert a + b == b;
    } else {
      assert (a + b)[1..] == a[1..] + b;
      SumByAppend(a[1..], b, f);
    }
  }

  /** Taking one entry out of the list takes out exactly its own count. */
  lemma SumByWithout(b: seq<Entry>, j: nat, f: Entry -> nat)
    requires j < |b|
    ensures SumBy(b, f) == f(b[j]) + SumBy(b[..j] + b[j + 1..], f)
  {
    var front, back := b[..j], b[j + 1..];
    assert b == front + b[j..];
    assert b[j..][1..] == back;
    SumByAppend(front, b[j..], f);
    SumByAppend(front, back, f);
  }


  /** A position at which an element of the list sits. */
  lemma IndexIn(b: seq<Entry>, x: Entry) returns (j: nat)
    requires x in multiset(b)
    ensures j < |b| && b[j] == x
  {
    assert x in b;
    j :| 0 <= j < |b| && b[j] == x;
  }

  lemma MultisetWithout(b: seq<Entry>, j: nat)
    requires j < |b|
    ensures multiset(b[..j] + b[j + 1..]) == multiset(b) - multiset{b[j]}
  {
    assert b == b[..j] + [b[j]] + b[j + 1..];
  }

  /** A sum over entries does not depend on their order. */
  lemma {:induction false} SumByPermutation(a: seq<Entry>, b: seq<Entry>, f: Entry -> nat)
    requires multiset(a) == multiset(b)
    ensures SumBy(a, f) == SumBy(b, f)
    decreases |a|
  {
    if a == [] {
      assert |b| == |multiset(b)| == 0;
    } else {
      var x := a[0];
      var j := IndexIn(b, x);
      var rest := b[..j] + b[j + 1..];
      assert multiset(a[1..]) == multiset(rest) by {
        MultisetWithout(b, j);
        assert a == [x] + a[1..];
        assert multiset(a) == multiset{x} + multiset(a[1..]);
      }
      SumByPermutation(a[1..], rest, f);
      SumByWithout(b, j, f);
      assert SumBy(a, f) == f(x) + SumBy(a[1..], f);
    }
  }

  /** The loop's totals are sums of the per-entry gains and stakes. */
  lemma {:induction false} PointsAreSums(entries: seq<Entry>, key: AnswerKey, gain: Entry -> nat, stake: Entry -> nat)
    requires forall e :: gain(e) == Gain(e, key) && stake(e) == Stake(e, key)
    ensures TotalPoints(entries, key) == SumBy(entries, gain)
    ensures MaxPoints(entries, key) == SumBy(entries, stake)
    decreases |entries|
  {
    if entries != [] {
      PointsAreSums(entries[1..], key, gain, stake);
    }
  }

  /** The points do not depend on the order in which the form lists its
      entries. */
  lemma PointsOrderIndependent(a: seq<Entry>, b: seq<Entry>, key: AnswerKey)
    requires multiset(a) == multiset(b)
    ensures TotalPoints(a, key) == TotalPoints(b, key)
    ensures MaxPoints(a, key) == MaxPoints(b, key)
  {
    var gain := (e: Entry) => Gain(e, key);
    var stake := (e: Entry) => Stake(e, key);
    PointsAreSums(a, key, gain, stake);
    PointsAreSums(b, key, gain, stake);
    SumByPermutation(a, b, gain);
    SumByPermutation(a, b, stake);
  }

  /** The entries whose name the key object answers to, own or inherited,
      in order. */
  function FoundEntries(entries: seq<Entry>, key: AnswerKey): (r: seq<Entry>)
    ensures forall e :: e in r <==> e in entries && !LookUp(e.0, key).Missing?
  {
    if entries == [] then []
    else
      assert entries == [entries[0]] + entries[1..];
      (if !LookUp(entries[0].0, key).Missing? then [entries[0]] else []) + FoundEntries(entries[1..], key)
  }

  /** Dropping the entries whose name finds nothing keeps every entry that
      throws. */
  lemma FoundEntriesThrow(entries: seq<Entry>, key: AnswerKey)
    ensures Throws(FoundEntries(entries, key), key) <==> Throws(entries, key)
  {
    var found := FoundEntries(entries, key);
    if Throws(entries, key) {
      var e :| e in entries && LookUp(e.0, key).Inherited?;
      assert e in found;
    }
  }

  /** An entry whose name finds nothing puts nothing at stake and earns
      nothing. */
  lemma MissingScoresNothing(e: Entry, key: AnswerKey)
    requires LookUp(e.0, key).Missing?
    ensures Gain(e, key) == 0 && Stake(e, key) == 0
  {
  }

  /** Scoring only the found entries gives the same totals. */
  lemma {:induction false} FoundEntriesTotals(entries: seq<Entry>, key: AnswerKey)
    ensures TotalPoints(FoundEntries(entries, key), key) == TotalPoints(entries, key)
    ensures MaxPoints(FoundEntries(entries, key), key) == MaxPoints(entries, key)
    decreases |entries|
  {
    if entries != [] {
      FoundEntriesTotals(entries[1..], key);
      var e := entries[0];
      var k := FoundEntries(entries[1..], key);
      if !LookUp(e.0, key).Missing? {
        assert ([e] + k)[1..] == k;
      } else {
        MissingScoresNothing(e, key);
        assert [] + k == k;
      }
    }
  }

  /** Entries whose name finds nothing in the key object (neither a question
      nor an inherited member) change neither the earned nor the maximum
      points, nor whether the evaluation throws: evaluating only the found
      entries gives the same outcome. */
  lemma UnknownEntriesIgnored(entries: seq<Entry>, key: AnswerKey)
    ensures TotalPoints(FoundEntries(entries, key), key) == TotalPoints(entries, key)
    ensures MaxPoints(FoundEntries(entries, key), key) == MaxPoints(entries, key)
    ensures Throws(FoundEntries(entries, key), key) <==> Throws(entries, key)
  {
    FoundEntriesTotals(entries, key);
    FoundEntriesThrow(entries, key);
  }

  /** The number `evaluateAnswers` resolves to: the percentage
      (earned / max) * 100 kept as an exact ratio, or NaN, which is what
      the unguarded 0 / 0 gives when no point was at stake. */
  datatype Score = Ratio(earned: nat, max: nat) | NaN

  /** The score of a submission, from the loop's two totals. */
  function ScoreOf(entries: seq<Entry>, key: AnswerKey): Score {
    var maxPoints := MaxPoints(entries, key);
    if maxPoints == 0 then NaN else Ratio(TotalPoints(entries, key), maxPoints)
  }

  /** The percentage a non-NaN score stands for. */
  function Percentage(s: Score): real
    requires s.Ratio? && s.max > 0
  {
    (s.earned as real / s.max as real) * 100.0
  }

  lemma RatioBounds(e: nat, m: nat)
    requires 0 < m && e <= m
    ensures 0.0 <= (e as real / m as real) * 100.0 <= 100.0
  {
    var q := e as real / m as real;
    assert q * m as real == e as real;
    assert q <= 1.0;
  }

  lemma RatioThreshold(e: nat, m: nat, k: nat)
    requires 0 < m
    ensures (e as real / m as real) * 100.0 >= k as real <==> 100 * e >= k * m
  {
    var q := e as real / m as real;
    assert q * m as real == e as real;
    assert (q * 100.0) * m as real == (100 * e) as real;
    if q * 100.0 >= k as real {
      assert (q * 100.0) * m as real >= k as real * m as real;
    }
    if 100 * e >= k * m {
      assert (q * 100.0) * m as real >= k as real * m as real;
    }
  }

  /** Scores the submitted entries as the submit handler does: every entry
      whose name is a question puts that question's points at stake and
      earns them when its answer matches, and entries whose name finds
      nothing are skipped. An entry named after an inherited member makes
      the evaluation throw. Otherwise the result is NaN exactly when no
      point was at stake, and a percentage between 0 and 100 when one
      was. */
  method EvaluateAnswers(entries: seq<Entry>, key: AnswerKey) returns (r: Result<Score, EvaluationError>)
    ensures r.Failure? <==> Throws(entries, key)
    ensures r.Success? ==> (r.value.NaN? <==> forall e :: e in entries ==> !AtStake(e, key))
    ensures r.Success? && r.value.Ratio? ==> 0 < r.value.max && r.value.earned <= r.value.max
    ensures r.Success? && r.value.Ratio? ==> 0.0 <= Percentage(r.value) <= 100.0
    ensures r.Success? ==> r.value == ScoreOf(entries, key)
  {
    var totalPoints: nat := 0;
    var maxPoints: nat := 0;
    for i := 0 to |entries|
      invariant totalPoints + TotalPoints(entries[i..], key) == TotalPoints(entries, key)
      invariant maxPoints + MaxPoints(entries[i..], key) == MaxPoints(entries, key)
      invariant forall j :: 0 <= j < i ==> !LookUp(entries[j].0, key).Inherited?
    {
      assert entries[i..][1..] == entries[i + 1..];
      var (question, answer) := entries[i];
      match LookUp(question, key)
      case Own(questionData) =>
        maxPoints := maxPoints + questionData.points;
        if CheckAnswer(answer, questionData.answers) {
          totalPoints := totalPoints + questionData.points;
        }
      case Inherited =>
        assert entries[i] in entries;
        return Failure(AnswersUndefined);
      case Missing =>
    }
    assert entries[|entries|..] == [];
    NothingAtStake(entries, key);
    if maxPoints == 0 {
      r := Success(NaN);
    } else {
      r := Success(Ratio(totalPoints, maxPoints));
      RatioBounds(totalPoints, maxPoints);
    }
  }

  /** No question of the shipped key shares its name with an inherited
      member. */
  lemma QuestionsNotInherited()
    ensures forall q :: q in CorrectAnswers ==> q !in ObjectPrototypeNames
  {
  }

  /** With the shipped key the evaluation throws exactly when some entry is
      named after an inherited member, and otherwise, since every question
      is worth a point, the score is NaN exactly when no submitted entry
      names a question. */
  lemma NoKnownQuestionIsNaN(entries: seq<Entry>)
    ensures Throws(entries, CorrectAnswers) <==> exists e :: e in entries && e.0 in ObjectPrototypeNames
    ensures ScoreOf(entries, CorrectAnswers).NaN? <==> forall e :: e in entries ==> e.0 !in CorrectAnswers
  {
    NothingAtStake(entries, CorrectAnswers);
    QuestionsNotInherited();
    assert forall q :: q in CorrectAnswers ==> CorrectAnswers[q].points == 1;
  }

  /** The result message reports success when the score is at least the
      pass threshold, the threshold itself included; a NaN score never
      passes, since every comparison with NaN is false. */
  function IsPassing(s: Score): (r: bool)
    ensures s.NaN? ==> !r
    ensures s.Ratio? && s.max > 0 ==> (r <==> Percentage(s) >= MinPassScore as real)
  {
    match s
    case NaN => false
    case Ratio(e, m) =>
      if m > 0 then RatioThreshold(e, m, MinPassScore); 100 * e >= MinPassScore * m
      else false
  }

  /** The threshold is inclusive: exactly 70% passes, 69% does not. */
  lemma PassBoundary()
    ensures IsPassing(Ratio(7, 10))
    ensures !IsPassing(Ratio(69, 100))
  {
  }

  // ---------------------------------------------------------------------
  // Required fields and progress
  // ---------------------------------------------------------------------

  /** A form control: its name, its current value and whether it carries
      the `required` attribute. */
  datatype Field = Field(name: string, value: string, required: bool)

  type Form = seq<Field>

  /** A value counts as given when it is not blank. */
  predicate Filled(f: Field) {
    Trim(f.value) != []
  }

  /** Every required field holds a non-blank value. */
  ghost predicate AllRequiredFilled(form: Form) {
    forall i :: 0 <= i < |form| && form[i].required ==> Filled(form[i])
  }

  /** The form's required controls, in document order. */
  function RequiredInputs(form: Form): (r: Form)
    ensures forall f :: f in r <==> f in form && f.required
  {
    if form == [] then []
    else
      var last := form[|form| - 1];
      assert form == form[..|form| - 1] + [last];
      RequiredInputs(form[..|form| - 1]) + (if last.required then [last] else [])
  }

  /** The selection lists every required control as often as the form
      holds it, and no other control. */
  lemma {:induction false} RequiredInputsCount(form: Form)
    ensures forall f :: multiset(RequiredInputs(form))[f] == (if f.required then multiset(form)[f] else 0)
    decreases |form|
  {
    if form != [] {
      var init, last := form[..|form| - 1], form[|form| - 1];
      RequiredInputsCount(init);
      assert form == init + [last];
      assert multiset(form) == multiset(init) + multiset{last};
    }
  }

  /** The class-based validation: visits every required input (marking or
      clearing its error, which is not modelled) and reports whether all of
      them were filled. */
  method ValidateForm(form: Form) returns (isValid: bool)
    ensures isValid <==> AllRequiredFilled(form)
  {
    var requiredInputs := RequiredInputs(form);
    isValid := true;
    for i := 0 to |requiredInputs|
      invariant isValid <==> forall j :: 0 <= j < i ==> Filled(requiredInputs[j])
    {
      if !Filled(requiredInputs[i]) {
        isValid := false;
      }
    }
    assert isValid <==> forall f :: f in requiredInputs ==> Filled(f);
  }

  /** `every` over a list of controls. */
  function AllFilled(fields: Form): (r: bool)
    ensures r <==> forall j :: 0 <= j < |fields| ==> Filled(fields[j])
  {
    if fields == [] then true else Filled(fields[0]) && AllFilled(fields[1..])
  }

  /** The module variant of the validation: `every` required input has a
      non-blank value, vacuously so when there is none. */
  function ValidateEvery(form: Form): (r: bool)
    ensures r <==> AllRequiredFilled(form)
    ensures (forall i :: 0 <= i < |form| ==> !form[i].required) ==> r
  {
    var requiredInputs := RequiredInputs(form);
    assert AllFilled(requiredInputs) <==> forall f :: f in requiredInputs ==> Filled(f);
    AllFilled(requiredInputs)
  }

  /** The progress bar's counts: required fields filled, and required
      fields in all. */
  datatype Progress = Progress(completed: nat, total: nat)

  /** Completed fields never outnumber the required ones, the total is the
      number of required controls, and the count is full exactly when the
      form would validate. */
  function FormProgress(form: Form): (p: Progress)
    ensures p.completed <= p.total
    ensures p.total == |RequiredInputs(form)|
    ensures p.completed == p.total <==> AllRequiredFilled(form)
  {
    if form == [] then Progress(0, 0)
    else
      var prefix := form[..|form| - 1];
      var last := form[|form| - 1];
      assert forall i :: 0 <= i < |prefix| ==> prefix[i] == form[i];
      var p := FormProgress(prefix);
      Progress(p.completed + (if last.required && Filled(last) then 1 else 0),
               p.total + (if last.required then 1 else 0))
  }

  /** The required fields, and the required fields holding a value, by
      position. */
  ghost function RequiredAt(form: Form): set<int> {
    set i | 0 <= i < |form| && form[i].required
  }

  ghost function FilledAt(form: Form): set<int> {
    set i | 0 <= i < |form| && form[i].required && Filled(form[i])
  }

  lemma PositionsSnoc(form: Form)
    requires form != []
    ensures var n := |form| - 1;
            && RequiredAt(form) == RequiredAt(form[..n]) + (if form[n].required then {n} else {})
            && FilledAt(form) == FilledAt(form[..n]) + (if form[n].required && Filled(form[n]) then {n} else {})
            && n !in RequiredAt(form[..n]) && n !in FilledAt(form[..n])
  {
    var n := |form| - 1;
    assert forall i :: 0 <= i < n ==> form[..n][i] == form[i];
  }

  lemma AddFresh(a: set<int>, n: int, b: bool)
    requires n !in a
    ensures |a + (if b then {n} else {})| == |a| + (if b then 1 else 0)
  {
  }

  /** The progress counts are the number of required fields and the number
      of those holding a non-blank value. */
  lemma {:induction false} FormProgressCounts(form: Form)
    ensures FormProgress(form).total == |RequiredAt(form)|
    ensures FormProgress(form).completed == |FilledAt(form)|
    decreases |form|
  {
    if form == [] {
      assert RequiredAt(form) == {};
      assert FilledAt(form) == {};
    } else {
      var n := |form| - 1;
      var last := form[n];
      FormProgressCounts(form[..n]);
      PositionsSnoc(form);
      AddFresh(RequiredAt(form[..n]), n, last.required);
      AddFresh(FilledAt(form[..n]), n, last.required && Filled(last));
    }
  }
}
