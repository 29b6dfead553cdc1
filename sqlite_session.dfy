/**
 * The two study sessions of the SQLite front end: practice (`page_praticar`),
 * a shuffled stack of question ids consumed from its end, and the exam
 * (`page_run_simulado`), a cursor over a random sample with a running score.
 */
module SqliteSession {
  import opened Wrappers
  import opened Seqs
  import opened SqliteImport
  import opened SqliteEval

  // ---------------------------------------------------------------------
  // Practice

  /**
   * `[r["id"] for r in get_questoes(qn)]`: the ids of questionnaire `qn`'s
   * questions in ascending order, a question's id being its place in `qs`.
   */
  function QuestionIds(qs: seq<Question>, qn: nat): (ids: seq<nat>)
    ensures forall k :: 0 <= k < |ids| ==> ids[k] < |qs| && qs[ids[k]].questionnaireId == qn
    ensures forall k, l :: 0 <= k < l < |ids| ==> ids[k] < ids[l]
    ensures forall i :: 0 <= i < |qs| && qs[i].questionnaireId == qn ==> i in ids
    decreases |qs|
  {
    if qs == [] then []
    else
      var init := QuestionIds(qs[..|qs| - 1], qn);
      if qs[|qs| - 1].questionnaireId == qn then init + [|qs| - 1] else init
  }

  /**
   * The ids handed out so far are the loaded deck read from its end: what
   * is left is a prefix of the deck and nothing is lost or repeated.
   */
  lemma ServedFromTheEnd(deck: seq<nat>, pool: seq<nat>, served: seq<nat>)
    requires deck == pool + Reverse(served)
    ensures served == Reverse(deck[|pool|..])
    ensures multiset(pool) + multiset(served) == multiset(deck)
  {
    assert deck[|pool|..] == Reverse(served);
    ReverseReverse(served);
    ReverseMultiset(served);
  }

  /** Popping the top of the pool moves it to the end of what was served; the deck is unchanged. */
  lemma PopKeepsDeck(deck: seq<nat>, pool: seq<nat>, served: seq<nat>)
    requires deck == pool + Reverse(served) && pool != []
    ensures deck == pool[..|pool| - 1] + Reverse(served + [pool[|pool| - 1]])
  {
    var top := pool[|pool| - 1];
    ReverseSnoc(served, top);
    assert pool == pool[..|pool| - 1] + [top];
  }

  /** Once the pool is empty every loaded id has been served, each as often as it was loaded. */
  lemma ExhaustedServesAll(deck: seq<nat>, served: seq<nat>)
    requires deck == [] + Reverse(served)
    ensures served == Reverse(deck)
    ensures multiset(served) == multiset(deck)
  {
    ServedFromTheEnd(deck, [], served);
    assert deck[0..] == deck;
  }

  /**
   * The practice state of one questionnaire: `pool_{qn}` and the
   * `answered_{id}` flag of the question on screen. The ghost fields keep
   * the deck as loaded, the ids popped so far and the answers recorded
   * since the deck was loaded.
   */
  class PracticePool {
    var pool: seq<nat>
    var answered: bool
    ghost var ids: seq<nat>
    ghost var deck: seq<nat>
    ghost var served: seq<nat>
    ghost var recorded: nat

    /** The pool is the deck minus what was served, from the end; at most one answer per view. */
    ghost predicate Valid()
      reads this
    {
      && multiset(deck) == multiset(ids)
      && deck == pool + Reverse(served)
      && recorded <= |served| + (if answered then 1 else 0)
    }

    /** The question on screen: `pool[-1]`, or none once the pool is exhausted. */
    function Current(): (c: Option<nat>)
      reads this
      ensures c.None? <==> pool == []
      ensures c.Some? ==> c.value == pool[|pool| - 1]
    {
      if pool == [] then None else Some(pool[|pool| - 1])
    }

    /** The first visit: the questionnaire's ids in some shuffled order. */
    constructor (qs: seq<Question>, qn: nat, shuffled: seq<nat>)
      requires multiset(shuffled) == multiset(QuestionIds(qs, qn))
      ensures Valid()
      ensures pool == shuffled && deck == shuffled && served == [] && !answered
      ensures ids == QuestionIds(qs, qn)
    {
      pool := shuffled;
      answered := false;
      ids := QuestionIds(qs, qn);
      deck := shuffled;
      served := [];
      recorded := 0;
    }

    /**
     * One render of the current question (`render_questao`): the first
     * time the radio holds a value, its judgement is saved to `log`;
     * afterwards the flag keeps it from being saved again.
     */
    method Render(log: AnswerLog, qn: nat, qs: seq<Question>, choice: Option<string>) returns (judged: Option<bool>)
      requires Valid() && pool != [] && pool[|pool| - 1] < |qs|
      modifies this, log
      ensures Valid()
      ensures pool == old(pool) && deck == old(deck) && served == old(served) && ids == old(ids)
      ensures judged == (if old(answered) then None else Judge(qs[pool[|pool| - 1]], choice))
      ensures answered == (old(answered) || judged.Some?)
      ensures log.events == old(log.events) + (if judged.Some? then [Answer(qn, pool[|pool| - 1], judged.value)] else [])
    {
      hide Reverse, Judge;
      var id := pool[|pool| - 1];
      if answered {
        judged := None;
      } else {
        judged := Judge(qs[id], choice);
        if judged.Some? {
          log.Save(qn, id, judged.value);
          answered := true;
          recorded := recorded + 1;
        }
      }
    }

    /** "Próxima questão": pop the question on screen and clear its flag. */
    method Next()
      requires Valid() && pool != []
      modifies this
      ensures Valid()
      ensures pool == old(pool)[..|old(pool)| - 1]
      ensures served == old(served) + [old(pool)[|old(pool)| - 1]]
      ensures deck == old(deck) && ids == old(ids) && !answered
    {
      hide Reverse;
      var top := pool[|pool| - 1];
      PopKeepsDeck(deck, pool, served);
      served := served + [top];
      pool := pool[..|pool| - 1];
      answered := false;
    }

    /** "Reiniciar", offered only once the pool is exhausted: reload and reshuffle. */
    method Restart(qs: seq<Question>, qn: nat, shuffled: seq<nat>)
      requires Valid() && pool == []
      requires multiset(shuffled) == multiset(QuestionIds(qs, qn))
      modifies this
      ensures Valid()
      ensures pool == shuffled && deck == shuffled && served == [] && !answered
      ensures ids == QuestionIds(qs, qn)
    {
      hide Reverse, QuestionIds;
      pool := shuffled;
      answered := false;
      ids := QuestionIds(qs, qn);
      deck := shuffled;
      served := [];
      recorded := 0;
    }
  }

  // ---------------------------------------------------------------------
  // Exam

  /** `simulado_idx`, `simulado_acertos` and the flags of the question on screen. */
  datatype ExamState = ExamState(idx: nat, hits: nat, answered: bool, result: bool)

  const ExamStart: ExamState := ExamState(0, 0, false, false)

  /**
   * One run of `page_run_simulado` over a pool of `n` questions AS WRITTEN:
   * `judged` is the judgement of the radio's value, `next` whether the run
   * ends with "Próxima". The score is set to the value read at the top plus
   * one on every run in which the flags say "answered right".
   */
  function ExamRerunAsWritten(s: ExamState, n: nat, judged: Option<bool>, next: bool): (t: ExamState)
    ensures s.idx < n ==> t.hits >= s.hits
  {
    if s.idx >= n then s
    else
      var answered := s.answered || judged.Some?;
      var result := if !s.answered && judged.Some? then judged.value else s.result;
      var hits := if answered && result then s.hits + 1 else s.hits;
      if next then ExamState(s.idx + 1, hits, false, false) else ExamState(s.idx, hits, answered, result)
  }

  /**
   * One question answered right, then "Próxima": the exam ends with two
   * hits out of one question, 200 percent.
   */
  lemma ExamDoubleCount()
    ensures var s1 := ExamRerunAsWritten(ExamStart, 1, Some(true), false);
            var s2 := ExamRerunAsWritten(s1, 1, Some(true), true);
            s2.idx >= 1 && s2.hits == 2 && Percentage(s2.hits, 1) == 200.0
  {
  }

  /**
   * One run of the exam page with the score raised once per question, when
   * its answer is first recorded right.
   */
  function ExamRerun(s: ExamState, n: nat, judged: Option<bool>, next: bool): (t: ExamState)
    ensures s.idx < n ==> t.idx == (if next then s.idx + 1 else s.idx)
    ensures s.idx >= n ==> t == s
  {
    if s.idx >= n then s
    else
      var first := !s.answered && judged.Some?;
      var answered := s.answered || judged.Some?;
      var result := if first then judged.value else s.result;
      var hits := if first && judged.value then s.hits + 1 else s.hits;
      if next then ExamState(s.idx + 1, hits, false, false) else ExamState(s.idx, hits, answered, result)
  }

  /**
   * The exam invariant: the cursor stays within the pool, flags only stand
   * for a question on screen, and the score counts at most one hit per
   * question passed plus the one on screen if it was answered right.
   */
  predicate ExamOk(s: ExamState, n: nat) {
    && s.idx <= n
    && (s.answered ==> s.idx < n)
    && (!s.answered ==> !s.result)
    && s.hits <= s.idx + (if s.result then 1 else 0)
  }

  /** Every run keeps the invariant and moves the cursor forward by at most one. */
  lemma ExamRerunKeeps(s: ExamState, n: nat, judged: Option<bool>, next: bool)
    requires ExamOk(s, n)
    ensures ExamOk(ExamRerun(s, n, judged, next), n)
    ensures s.idx <= ExamRerun(s, n, judged, next).idx <= s.idx + 1
    ensures s.hits <= ExamRerun(s, n, judged, next).hits <= s.hits + 1
  {
  }

  /** A finished exam scores at most the pool size, so its percentage lies in [0, 100]. */
  lemma FinishedExamBounded(s: ExamState, n: nat)
    requires ExamOk(s, n) && s.idx >= n
    ensures s.hits <= n
    ensures 0.0 <= Percentage(s.hits, n) <= 100.0
  {
  }

  /**
   * What the exam relies on from `get_random_questoes(qids, n)`: every row
   * of `sample` is a question of the chosen questionnaires, and there are at
   * most `n` of them. Distinctness and the random order are not stated.
   */
  predicate IsSample(qs: seq<Question>, qids: set<nat>, n: nat, sample: seq<Question>) {
    && (forall k :: 0 <= k < |sample| ==> sample[k] in qs && sample[k].questionnaireId in qids)
    && |sample| <= n
  }

  /** The exam in progress. */
  class ExamSession {
    var pool: seq<Question>
    var idx: nat
    var hits: nat
    var answered: bool
    var result: bool

    function State(): ExamState
      reads this
    {
      ExamState(idx, hits, answered, result)
    }

    ghost predicate Valid()
      reads this
    {
      ExamOk(State(), |pool|)
    }

    /** "Iniciar Simulado": the sample, cursor and score at zero. */
    constructor (qs: seq<Question>, qids: set<nat>, n: nat, sample: seq<Question>)
      requires n >= 1 && IsSample(qs, qids, n, sample)
      ensures Valid()
      ensures pool == sample && State() == ExamStart
    {
      pool := sample;
      idx := 0;
      hits := 0;
      answered := false;
      result := false;
    }

    /** The end screen is shown iff `idx >= len(pool)`. */
    function Finished(): (f: bool)
      reads this
      ensures f <==> idx >= |pool|
    {
      idx >= |pool|
    }

    /** One run of the page with the radio holding `choice`, ending with "Próxima" iff `next`. */
    method Rerun(choice: Option<string>, next: bool)
      requires Valid()
      modifies this
      ensures Valid()
      ensures pool == old(pool)
      ensures State() == ExamRerun(old(State()), |pool|,
        if old(idx) < |pool| then Judge(pool[old(idx)], choice) else None, next)
      ensures old(idx) <= idx <= old(idx) + 1
    {
      if idx < |pool| {
        var judged := Judge(pool[idx], choice);
        ExamRerunKeeps(State(), |pool|, judged, next);
        var first := !answered && judged.Some?;
        if first {
          answered := true;
          result := judged.value;
          if judged.value {
            hits := hits + 1;
          }
        }
        if next {
          idx := idx + 1;
          answered := false;
          result := false;
        }
      }
    }

    /** The end screen's numbers: hits, total and percentage. */
    function Score(): (r: (nat, nat, real))
      reads this
      requires Valid() && Finished()
      ensures r.0 <= r.1 == |pool|
      ensures 0.0 <= r.2 <= 100.0
    {
      FinishedExamBounded(State(), |pool|);
      (hits, |pool|, Percentage(hits, |pool|))
    }
  }
}
