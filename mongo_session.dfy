/**
 * Practice in the MongoDB front end (`page_praticar`): the questionnaire's
 * documents reversed into a stack popped from its end, and the two
 * self-reported counters the three buttons move.
 */
module MongoSession {
  import opened Seqs
  import opened MongoImport

  /** The three buttons under a question. */
  datatype Button = Skip | Missed | Got

  /**
   * The state of one questionnaire: `pool_{qid}`, `answered_{qid}` and
   * `correct_{qid}`; the ghost fields keep the list as loaded and how many
   * documents were popped.
   */
  class Practice {
    var pool: seq<MQuestion>
    var answered: nat
    var correct: nat
    ghost var questions: seq<MQuestion>
    ghost var shown: nat

    /** The pool is the unseen tail of the list, reversed; `correct ≤ answered ≤` the documents seen. */
    ghost predicate Valid()
      reads this
    {
      && shown <= |questions|
      && pool == Reverse(questions[shown..])
      && correct <= answered <= shown
    }

    /** The first visit, or a "Recomeçar": the list reversed, counters at zero. */
    constructor (questions: seq<MQuestion>)
      ensures Valid()
      ensures pool == Reverse(questions) && answered == 0 && correct == 0
      ensures this.questions == questions && shown == 0
    {
      pool := Reverse(questions);
      answered := 0;
      correct := 0;
      this.questions := questions;
      shown := 0;
      assert questions[0..] == questions;
    }

    /** `pool[-1]`: documents come out in list order. */
    function Current(): (q: MQuestion)
      reads this
      requires Valid() && pool != []
      ensures shown < |questions| && q == questions[shown]
    {
      pool[|pool| - 1]
    }

    /** One button: each pops the current document; "Errei" counts an answer, "Acertei" a right one too. */
    method Press(b: Button)
      requires Valid() && pool != []
      modifies this
      ensures Valid()
      ensures pool == old(pool)[..|old(pool)| - 1] && shown == old(shown) + 1
      ensures answered == old(answered) + (if b == Skip then 0 else 1)
      ensures correct == old(correct) + (if b == Got then 1 else 0)
      ensures questions == old(questions)
    {
      PopTail(questions, shown);
      pool := pool[..|pool| - 1];
      shown := shown + 1;
      if b != Skip {
        answered := answered + 1;
      }
      if b == Got {
        correct := correct + 1;
      }
    }

    /** The end screen: every document was shown once, and neither counter exceeds the list. */
    lemma Exhausted()
      requires Valid() && pool == []
      ensures shown == |questions|
      ensures correct <= answered <= |questions|
    {
    }
  }

  /** Popping the reversed tail leaves the reversed tail one further on. */
  lemma PopTail(qs: seq<MQuestion>, k: nat)
    requires k < |qs|
    ensures Reverse(qs[k..])[..|qs| - k - 1] == Reverse(qs[k + 1..])
    ensures Reverse(qs[k..])[|qs| - k - 1] == qs[k]
  {
    assert qs[k..] == [qs[k]] + qs[k + 1..];
  }
}
