/**
 * Judging an answer on the practice and exam screens of the SQLite front
 * end (`render_questao`), the answer log `save_resposta` appends to, and the
 * per-questionnaire summary `desempenho_questionario` reads from it.
 */
module SqliteEval {
  import opened Wrappers
  import opened Text
  import opened CsvRow
  import opened SqliteImport

  /** The two entries of the true/false radio. */
  const TrueLabel: string := "Verdadeiro"
  const FalseLabel: string := "Falso"

  /** The key `V` reads as "true"; the answer is right when the choice agrees with it. */
  function EvalVf(key: string, choice: string): (r: bool)
    ensures choice == TrueLabel ==> (r <==> key == "V")
    ensures choice == FalseLabel ==> (r <==> key != "V")
  {
    (key == "V") == (choice == TrueLabel)
  }

  /** One entry of the multiple-choice radio: the option in slot `index`. */
  datatype Choice = Choice(index: nat, text: string)

  /** `f"{letra}) {alt}"`. */
  function Label(c: Choice): (l: string)
    requires c.index < 5
    ensures |l| == |c.text| + 3
    ensures l[0] == Letters[c.index] && l[1..3] == ") " && l[3..] == c.text
  {
    [Letters[c.index]] + ") " + c.text
  }

  /** The present (non-empty) options from slot `i` on, in slot order. */
  function OfferedFrom(options: seq<Option<string>>, i: nat): (cs: seq<Choice>)
    requires |options| <= 5 && i <= |options|
    ensures forall k :: 0 <= k < |cs| ==>
      i <= cs[k].index < |options| && options[cs[k].index] == Some(cs[k].text) && cs[k].text != ""
    ensures forall k, l :: 0 <= k < l < |cs| ==> cs[k].index < cs[l].index
    decreases |options| - i
  {
    if i == |options| then []
    else if Truthy(options[i]) then [Choice(i, options[i].value)] + OfferedFrom(options, i + 1)
    else OfferedFrom(options, i + 1)
  }

  /** `[(letras[i], alt) for i, alt in enumerate(alternativas) if alt]`. */
  function Offered(options: seq<Option<string>>): (cs: seq<Choice>)
    requires |options| <= 5
    ensures forall k :: 0 <= k < |cs| ==>
      cs[k].index < |options| && options[cs[k].index] == Some(cs[k].text) && cs[k].text != ""
    ensures forall k, l :: 0 <= k < l < |cs| ==> cs[k].index < cs[l].index
    ensures forall j :: 0 <= j < |options| && Truthy(options[j]) ==>
      exists k :: 0 <= k < |cs| && cs[k].index == j
  {
    var cs := OfferedFrom(options, 0);
    OfferedAll(options, cs);
    cs
  }

  /** Every present option is offered. */
  lemma OfferedAll(options: seq<Option<string>>, cs: seq<Choice>)
    requires |options| <= 5 && cs == OfferedFrom(options, 0)
    ensures forall j :: 0 <= j < |options| && Truthy(options[j]) ==>
      exists k :: 0 <= k < |cs| && cs[k].index == j
  {
    forall j | 0 <= j < |options| && Truthy(options[j])
      ensures exists k :: 0 <= k < |cs| && cs[k].index == j
    {
      OfferedFromComplete(options, 0, j);
    }
  }

  /** Every present option from slot `i` on is offered. */
  lemma {:induction false} OfferedFromComplete(options: seq<Option<string>>, i: nat, j: nat)
    requires |options| <= 5 && i <= j < |options| && Truthy(options[j])
    ensures exists k :: 0 <= k < |OfferedFrom(options, i)| && OfferedFrom(options, i)[k].index == j
    decreases j - i
  {
    var cs := OfferedFrom(options, i);
    if i == j {
      assert cs[0].index == j;
    } else {
      OfferedFromComplete(options, i + 1, j);
      var rest := OfferedFrom(options, i + 1);
      var k :| 0 <= k < |rest| && rest[k].index == j;
      if Truthy(options[i]) {
        assert cs[k + 1] == rest[k];
      } else {
        assert cs[k] == rest[k];
      }
    }
  }

  /** The radio labels: exactly the present options, lettered by their slot. */
  function Labels(options: seq<Option<string>>): (ls: seq<string>)
    requires |options| <= 5
    ensures |ls| == |Offered(options)|
    ensures forall k :: 0 <= k < |ls| ==> ls[k] == Label(Offered(options)[k])
  {
    var cs := Offered(options);
    seq(|cs|, k requires 0 <= k < |cs| => Label(cs[k]))
  }

  /** `escolha.split(")")[0]`: the text before the first `)`. */
  function ChosenLetter(entry: string): (r: string)
    ensures ')' !in r
    ensures |entry| >= 2 && entry[0] != ')' && entry[1] == ')' ==> r == entry[..1]
  {
    if |entry| >= 2 && entry[0] != ')' && entry[1] == ')' then
      SplitCharsPrefix(entry[..1], ')', entry[2..], {')'});
      assert entry == entry[..1] + [')'] + entry[2..];
      SplitChars(entry, {')'})[0]
    else
      SplitChars(entry, {')'})[0]
  }

  /** The letter a label starts with is what the split hands back, whatever the option text holds. */
  lemma LabelLetter(c: Choice)
    requires c.index < 5
    ensures ChosenLetter(Label(c)) == [Letters[c.index]]
  {
    var l := Letters[c.index];
    assert l in "ABCDE";
    assert Label(c) == [l] + [')'] + (" " + c.text);
    SplitCharsPrefix([l], ')', " " + c.text, {')'});
  }

  /** The multiple-choice radio: right when the chosen label's letter is the stored key. */
  function EvalMc(key: string, choice: string): (r: bool)
    ensures r ==> ')' !in key
    ensures |choice| >= 2 && choice[0] != ')' && choice[1] == ')' ==> (r <==> key == [choice[0]])
  {
    ChosenLetter(choice) == key
  }

  /**
   * What one render records for question `q` and the radio's current value:
   * nothing while the radio holds no value, else whether it is right.
   * Every stored kind other than `VF` takes the multiple-choice branch.
   */
  function Judge(q: Question, choice: Option<string>): (r: Option<bool>)
    ensures r.Some? <==> Truthy(choice)
  {
    if !Truthy(choice) then None
    else if q.kind == VF then Some(EvalVf(q.key, choice.value))
    else Some(EvalMc(q.key, choice.value))
  }

  /**
   * A true/false question imported from the cell `correct` is judged right
   * exactly when the choice says the same as `normalize_bool(correct)`.
   */
  lemma VfJudgedAgainstImport(qid: nat, text: string, correct: Value, explanation: string, choice: string)
    requires choice == TrueLabel || choice == FalseLabel
    ensures Judge(VfQuestion(qid, text, correct, explanation), Some(choice))
      == Some((choice == TrueLabel) == NormalizeBool(correct))
  {
  }

  /**
   * On a well-formed multiple-choice question, an offered label is judged
   * right exactly when its slot's letter is the stored key.
   */
  lemma McJudgedByKey(q: Question, k: nat)
    requires WellFormed(q) && q.kind == MC
    requires k < |Offered(q.options)|
    ensures Judge(q, Some(Labels(q.options)[k])) == Some(q.key == [Letters[Offered(q.options)[k].index]])
  {
    var c := Offered(q.options)[k];
    LabelLetter(c);
    assert Labels(q.options)[k] == Label(c);
  }

  /** The key of a well-formed multiple-choice question has a label judged right. */
  lemma McSomeRight(q: Question) returns (k: nat)
    requires WellFormed(q) && q.kind == MC
    ensures k < |Labels(q.options)| && Judge(q, Some(Labels(q.options)[k])) == Some(true)
  {
    var cs := Offered(q.options);
    var i :| 0 <= i < 5 && q.options[i].Some? && q.key[0] == Letters[i];
    k :| 0 <= k < |cs| && cs[k].index == i;
    assert q.key == [Letters[i]];
    hide *;
    McJudgedByKey(q, k);
  }

  /** Two labels judged right are the same label: distinct slots carry distinct letters. */
  lemma McRightUnique(q: Question, k: nat, l: nat)
    requires WellFormed(q) && q.kind == MC
    requires k < |Labels(q.options)| && l < |Labels(q.options)|
    requires Judge(q, Some(Labels(q.options)[k])) == Some(true)
    requires Judge(q, Some(Labels(q.options)[l])) == Some(true)
    ensures k == l
  {
    var cs := Offered(q.options);
    McJudgedByKey(q, k);
    McJudgedByKey(q, l);
    assert Letters[cs[k].index] == Letters[cs[l].index];
    assert cs[k].index == cs[l].index;
  }

  /** Exactly one label of a well-formed multiple-choice question is judged right. */
  lemma McExactlyOneRight(q: Question)
    requires WellFormed(q) && q.kind == MC
    ensures exists k :: 0 <= k < |Labels(q.options)| && Judge(q, Some(Labels(q.options)[k])) == Some(true)
    ensures forall k, l ::
      (0 <= k < |Labels(q.options)| && 0 <= l < |Labels(q.options)|
      && Judge(q, Some(Labels(q.options)[k])) == Some(true)
      && Judge(q, Some(Labels(q.options)[l])) == Some(true)) ==> k == l
  {
    var k := McSomeRight(q);
    forall k1, l1 | (0 <= k1 < |Labels(q.options)| && 0 <= l1 < |Labels(q.options)|
      && Judge(q, Some(Labels(q.options)[k1])) == Some(true)
      && Judge(q, Some(Labels(q.options)[l1])) == Some(true))
      ensures k1 == l1
    {
      McRightUnique(q, k1, l1);
    }
  }

  /** A row of the `respostas` table. */
  datatype Answer = Answer(questionnaireId: nat, questionId: nat, correct: bool)

  /** `COUNT(*)` over the answers to questionnaire `qn`. */
  function Total(log: seq<Answer>, qn: nat): (n: nat)
    ensures n <= |log|
  {
    if log == [] then 0
    else Total(log[..|log| - 1], qn) + (if log[|log| - 1].questionnaireId == qn then 1 else 0)
  }

  /** `SUM(CASE WHEN correto = 1 ...)` over the answers to questionnaire `qn`. */
  function Hits(log: seq<Answer>, qn: nat): (n: nat)
    ensures n <= Total(log, qn)
  {
    if log == [] then 0
    else
      var a := log[|log| - 1];
      Hits(log[..|log| - 1], qn) + (if a.questionnaireId == qn && a.correct then 1 else 0)
  }

  /** `(acertos/total)*100 if total > 0 else 0.0`. */
  function Percentage(hits: nat, total: nat): (p: real)
    ensures total == 0 ==> p == 0.0
    ensures total > 0 ==> p * total as real == hits as real * 100.0
    ensures hits <= total ==> 0.0 <= p <= 100.0
  {
    if total > 0 then (hits as real / total as real) * 100.0 else 0.0
  }

  /** What `desempenho_questionario` returns. */
  datatype Summary = Summary(total: nat, hits: nat, percent: real)

  function Performance(log: seq<Answer>, qn: nat): (s: Summary)
    ensures s.hits <= s.total
    ensures 0.0 <= s.percent <= 100.0
  {
    var total := Total(log, qn);
    var hits := Hits(log, qn);
    Summary(total, hits, Percentage(hits, total))
  }

  /**
   * Every saved answer counts: one more answer to `qn` raises its total by
   * one and its hits by one when right, however often that question was
   * answered before; answers to other questionnaires change nothing.
   */
  lemma SaveCounts(log: seq<Answer>, a: Answer, qn: nat)
    ensures Total(log + [a], qn) == Total(log, qn) + (if a.questionnaireId == qn then 1 else 0)
    ensures Hits(log + [a], qn) == Hits(log, qn) + (if a.questionnaireId == qn && a.correct then 1 else 0)
  {
    assert (log + [a])[..|log|] == log;
  }

  /** Answering the same question twice counts twice: no latest-answer-wins. */
  lemma RepeatedAnswerCountsTwice(log: seq<Answer>, a: Answer)
    ensures Total(log + [a] + [a], a.questionnaireId) == Total(log, a.questionnaireId) + 2
  {
    SaveCounts(log, a, a.questionnaireId);
    SaveCounts(log + [a], a, a.questionnaireId);
  }

  /** The `respostas` table. */
  class AnswerLog {
    var events: seq<Answer>

    constructor()
      ensures events == []
    {
      events := [];
    }

    /** `save_resposta`: one more row, stored correctness as given. */
    method Save(qn: nat, question: nat, correct: bool)
      modifies this
      ensures events == old(events) + [Answer(qn, question, correct)]
      ensures Total(events, qn) == old(Total(events, qn)) + 1
      ensures Hits(events, qn) == old(Hits(events, qn)) + (if correct then 1 else 0)
    {
      SaveCounts(events, Answer(qn, question, correct), qn);
      events := events + [Answer(qn, question, correct)];
    }

    /** `desempenho_questionario` over the current rows. */
    function Summary(qn: nat): (s: Summary)
      reads this
      ensures s.hits <= s.total <= |events|
      ensures 0.0 <= s.percent <= 100.0
    {
      Performance(events, qn)
    }
  }
}
