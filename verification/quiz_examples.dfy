/** Worked answers for the shipped key: which sample answers match, and
    how two sample submissions score. The small literal lemmas exist so
    that each string fact is established once and reused. */
module QuizExamples {
  import opened Text
  import opened Quiz

  /** Matching ignores case: a capitalised answer naming two of the accepted
      civilisations is right for the first question. */
  lemma MixedCaseAnswerMatches()
    ensures CheckAnswer("ROMA y Egipto", CorrectAnswers["question1"].answers)
  {
    NormalizedRomaYEgipto();
    assert Lower("roma") == "roma";
    assert OccursAt("roma y egipto", "roma", 0);
    AcceptedAt("ROMA y Egipto", CorrectAnswers["question1"].answers, 3, 0);
  }

  lemma LowerLiteralRomaYEgipto()
    ensures Lower("ROMA y Egipto") == "roma y egipto"
  {
  }

  lemma NormalizedRomaYEgipto()
    ensures Trim(Lower("ROMA y Egipto")) == "roma y egipto"
  {
    LowerLiteralRomaYEgipto();
    TrimUnchanged("roma y egipto");
  }

  lemma LowerLiteralDuranteElImperioRomano()
    ensures Lower("durante el Imperio Romano") == "durante el imperio romano"
  {
  }

  lemma LowerLiteralNoDiceNada()
    ensures Lower("no dice nada") == "no dice nada"
  {
  }

  lemma LowerLiteralRoma()
    ensures Lower("Roma") == "roma"
  {
  }

  lemma LowerLiteralEstabaEnContra()
    ensures Lower("estaba en contra") == "estaba en contra"
  {
  }

  /** An answer whose normalized form holds an accepted keyword, at some
      position, is right. */
  lemma AcceptedAt(u: string, cs: seq<string>, k: nat, i: nat)
    requires k < |cs| && OccursAt(Trim(Lower(u)), Lower(cs[k]), i)
    ensures CheckAnswer(u, cs)
  {
  }

  lemma NormalizedImperioRomano()
    ensures Trim(Lower("durante el Imperio Romano")) == "durante el imperio romano"
  {
    LowerLiteralDuranteElImperioRomano();
    TrimUnchanged("durante el imperio romano");
  }

  lemma ImperioRomanoIsRight()
    ensures CheckAnswer("durante el Imperio Romano", CorrectAnswers["question1"].answers)
  {
    NormalizedImperioRomano();
    assert Lower("roma") == "roma";
    assert OccursAt("durante el imperio romano", "roma", 19);
    AcceptedAt("durante el Imperio Romano", CorrectAnswers["question1"].answers, 3, 19);
  }


  /** A needle that differs from the text at one of its positions does not
      occur there. */
  lemma Mismatch(hay: string, needle: string, i: nat, k: nat)
    requires k < |needle| && i + |needle| <= |hay|
    requires hay[i + k] != needle[k]
    ensures !OccursAt(hay, needle, i)
  {
    assert hay[i..i + |needle|][k] == hay[i + k];
  }

  lemma ProhibiaAbsent()
    ensures !IsSubstring("prohibía", "no dice nada")
  {
    var a := "no dice nada";
    var w := "prohibía";
    forall i | 0 <= i ensures !OccursAt(a, w, i) {
      if i == 0 { Mismatch(a, w, 0, 0); }
      else if i == 1 { Mismatch(a, w, 1, 0); }
      else if i == 2 { Mismatch(a, w, 2, 0); }
      else if i == 3 { Mismatch(a, w, 3, 0); }
      else if i == 4 { Mismatch(a, w, 4, 0); }
    }
  }

  lemma DesaprobabaAbsent()
    ensures !IsSubstring("desaprobaba", "no dice nada")
  {
    var a := "no dice nada";
    var w := "desaprobaba";
    forall i | 0 <= i ensures !OccursAt(a, w, i) {
      if i == 0 { Mismatch(a, w, 0, 0); }
      else if i == 1 { Mismatch(a, w, 1, 0); }
    }
  }

  lemma ContraAbsent()
    ensures !IsSubstring("contra", "no dice nada")
  {
    var a := "no dice nada";
    var w := "contra";
    forall i | 0 <= i ensures !OccursAt(a, w, i) {
      if i == 0 { Mismatch(a, w, 0, 0); }
      else if i == 1 { Mismatch(a, w, 1, 0); }
      else if i == 2 { Mismatch(a, w, 2, 0); }
      else if i == 3 { Mismatch(a, w, 3, 0); }
      else if i == 4 { Mismatch(a, w, 4, 0); }
      else if i == 5 { Mismatch(a, w, 5, 1); }
      else if i == 6 { Mismatch(a, w, 6, 0); }
    }
  }

  lemma NormalizedNoDiceNada()
    ensures Trim(Lower("no dice nada")) == "no dice nada"
  {
    LowerLiteralNoDiceNada();
    TrimUnchanged("no dice nada");
  }

  lemma LowerLiteralQuestion2()
    ensures Lower("prohibía") == "prohibía"
    ensures Lower("desaprobaba") == "desaprobaba"
    ensures Lower("contra") == "contra"
  {
  }

  /** An answer whose normalized form holds none of the three keywords of a
      three-keyword list is wrong. */
  lemma RejectedByAll(u: string, cs: seq<string>)
    requires |cs| == 3
    requires !IsSubstring(Lower(cs[0]), Trim(Lower(u)))
    requires !IsSubstring(Lower(cs[1]), Trim(Lower(u)))
    requires !IsSubstring(Lower(cs[2]), Trim(Lower(u)))
    ensures !CheckAnswer(u, cs)
  {
    forall k | 0 <= k < |cs| ensures !IsSubstring(Lower(cs[k]), Trim(Lower(u))) {
      assert k == 0 || k == 1 || k == 2;
    }
  }

  lemma NoDiceNadaIsWrong()
    ensures !CheckAnswer("no dice nada", CorrectAnswers["question2"].answers)
  {
    NormalizedNoDiceNada();
    LowerLiteralQuestion2();
    ProhibiaAbsent();
    DesaprobabaAbsent();
    ContraAbsent();
    RejectedByAll("no dice nada", CorrectAnswers["question2"].answers);
  }


  lemma NormalizedRoma()
    ensures Trim(Lower("Roma")) == "roma"
  {
    LowerLiteralRoma();
    TrimUnchanged("roma");
  }

  lemma RomaIsRight()
    ensures CheckAnswer("Roma", CorrectAnswers["question1"].answers)
  {
    NormalizedRoma();
    assert Lower("roma") == "roma";
    assert OccursAt("roma", "roma", 0);
    AcceptedAt("Roma", CorrectAnswers["question1"].answers, 3, 0);
  }


  lemma NormalizedEstabaEnContra()
    ensures Trim(Lower("estaba en contra")) == "estaba en contra"
  {
    LowerLiteralEstabaEnContra();
    TrimUnchanged("estaba en contra");
  }

  lemma EstabaEnContraIsRight()
    ensures CheckAnswer("estaba en contra", CorrectAnswers["question2"].answers)
  {
    NormalizedEstabaEnContra();
    assert Lower("contra") == "contra";
    assert OccursAt("estaba en contra", "contra", 10);
    AcceptedAt("estaba en contra", CorrectAnswers["question2"].answers, 2, 10);
  }


  lemma ScoreOfTwo(e1: Entry, e2: Entry, key: AnswerKey)
    ensures TotalPoints([e1, e2], key) == Gain(e1, key) + Gain(e2, key)
    ensures MaxPoints([e1, e2], key) == Stake(e1, key) + Stake(e2, key)
  {
    assert [e1, e2][1..] == [e2];
    assert [e2][1..] == [];
  }

  lemma HalfRightScore()
    ensures ScoreOf([("question1", "durante el Imperio Romano"), ("question2", "no dice nada")], CorrectAnswers) == Ratio(1, 2)
  {
    var e1: Entry := ("question1", "durante el Imperio Romano");
    var e2: Entry := ("question2", "no dice nada");
    ImperioRomanoIsRight();
    NoDiceNadaIsWrong();
    assert Stake(e1, CorrectAnswers) == 1 && Gain(e1, CorrectAnswers) == 1;
    assert Stake(e2, CorrectAnswers) == 1 && Gain(e2, CorrectAnswers) == 0;
    ScoreOfTwo(e1, e2, CorrectAnswers);
  }

  lemma AllRightScore()
    ensures ScoreOf([("question1", "Roma"), ("question2", "estaba en contra")], CorrectAnswers) == Ratio(2, 2)
  {
    var e1: Entry := ("question1", "Roma");
    var e2: Entry := ("question2", "estaba en contra");
    RomaIsRight();
    EstabaEnContraIsRight();
    assert Stake(e1, CorrectAnswers) == 1 && Gain(e1, CorrectAnswers) == 1;
    assert Stake(e2, CorrectAnswers) == 1 && Gain(e2, CorrectAnswers) == 1;
    ScoreOfTwo(e1, e2, CorrectAnswers);
  }

  /** Earning every point at stake is 100%. */
  lemma FullMarks(m: nat)
    requires 0 < m
    ensures Percentage(Ratio(m, m)) == 100.0
  {
    var q := m as real / m as real;
    assert q * m as real == m as real;
    assert q == 1.0;
  }

  /** Half the questions right scores 50% and does not pass. */
  lemma HalfRightFails()
    ensures var entries := [("question1", "durante el Imperio Romano"), ("question2", "no dice nada")];
            var s := ScoreOf(entries, CorrectAnswers);
            !Throws(entries, CorrectAnswers) && s == Ratio(1, 2) && Percentage(s) == 50.0 && !IsPassing(s)
  {
    NoKnownQuestionIsNaN([("question1", "durante el Imperio Romano"), ("question2", "no dice nada")]);
    HalfRightScore();
    assert Percentage(Ratio(1, 2)) == 50.0;
  }

  /** All questions right scores 100% and passes. */
  lemma AllRightPasses()
    ensures var entries := [("question1", "Roma"), ("question2", "estaba en contra")];
            var s := ScoreOf(entries, CorrectAnswers);
            !Throws(entries, CorrectAnswers) && s == Ratio(2, 2) && Percentage(s) == 100.0 && IsPassing(s)
  {
    NoKnownQuestionIsNaN([("question1", "Roma"), ("question2", "estaba en contra")]);
    AllRightScore();
    FullMarks(2);
  }
}
