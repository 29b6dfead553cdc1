/**
 * Judging an answer in the MongoDB front end (`render_questao`, on
 * "Confirmar"): a true/false document compares the radio's `V`/`F` with the
 * truth of its key; any other document compares the chosen 1-based option
 * with an integer key, or the stripped option text with the stripped key.
 */
module MongoEval {
  import opened Wrappers
  import opened Text
  import opened MongoImport

  /** Python truth of a stored key. */
  predicate KeyTruthy(k: Key) {
    match k
    case KBool(b) => b
    case KInt(i) => i != 0
    case KText(s) => s != ""
    case KNone => false
  }

  /** `"V" if q_row["gabarito"] else "F"`. */
  function VfExpected(k: Key): (r: string)
    ensures r == "V" || r == "F"
    ensures r == "V" <==> KeyTruthy(k)
  {
    if KeyTruthy(k) then "V" else "F"
  }

  /** The true/false radio starts with nothing selected; only the expected letter is right. */
  function EvalVf(k: Key, sel: Option<string>): (r: bool)
    ensures sel.None? ==> !r
    ensures sel == Some("V") ==> (r <==> KeyTruthy(k))
    ensures sel == Some("F") ==> (r <==> !KeyTruthy(k))
  {
    sel == Some(VfExpected(k))
  }

  /** Exactly one of the two entries is right, and no selection never is. */
  lemma VfOneRight(k: Key)
    ensures EvalVf(k, Some("V")) != EvalVf(k, Some("F"))
    ensures !EvalVf(k, None)
  {
  }

  /** An imported true/false question is right on `V` exactly when its key cell read as true. */
  lemma VfAgainstImport(g: string)
    ensures EvalVf(KBool(VfKey(g)), Some("V")) <==> VfKey(g)
    ensures EvalVf(KBool(VfKey(g)), Some("F")) <==> !VfKey(g)
  {
  }

  /** What "Confirmar" shows: right, wrong, or the page fails (no option chosen under a text key). */
  datatype Verdict = Right | Wrong | Fails

  /** `str(gab)` of a key that is neither an int nor a bool. */
  function KeyText(k: Key): string {
    match k
    case KText(s) => s
    case KNone => "None"
    case _ => ""
  }

  /**
   * The multiple-choice radio over options numbered from 1, starting with
   * nothing selected. A bool key counts as an int (`isinstance(True, int)`).
   */
  function EvalMc(alts: seq<string>, k: Key, idx: Option<nat>): (v: Verdict)
    requires idx.Some? ==> 1 <= idx.value <= |alts|
    ensures v == Fails <==> idx.None? && !k.KInt? && !k.KBool?
  {
    match k
    case KInt(i) => if idx.Some? && idx.value == i then Right else Wrong
    case KBool(b) => if idx == Some(if b then 1 else 0) then Right else Wrong
    case _ =>
      if idx.None? then Fails
      else if Strip(alts[idx.value - 1]) == Strip(KeyText(k)) then Right else Wrong
  }

  /** With an integer key, exactly the option at that 1-based position is right. */
  lemma McIndexKey(alts: seq<string>, i: int, idx: nat)
    requires 1 <= idx <= |alts|
    ensures EvalMc(alts, KInt(i), Some(idx)) == Right <==> idx == i
  {
  }

  /**
   * An imported multiple-choice question (stripped options, stripped text
   * key) is right exactly on the options equal to its key; with no option
   * equal to the key, no choice is right.
   */
  lemma McTextKey(alts: seq<string>, g: string, idx: nat)
    requires 1 <= idx <= |alts| && IsStripped(g) && IsStripped(alts[idx - 1])
    ensures EvalMc(alts, KText(g), Some(idx)) == Right <==> alts[idx - 1] == g
  {
    StripStripped(g);
    StripStripped(alts[idx - 1]);
  }

  /**
   * A numeric key read from a CSV file is text, so it names an option by
   * its text and not by its position: key `2` over options `a`, `b` makes
   * the second option wrong.
   */
  lemma NumericCsvKeyIsText()
    ensures EvalMc(["a", "b"], KText("2"), Some(2)) == Wrong
  {
    StripStripped("b");
    StripStripped("2");
  }

  /** What "Confirmar" does for a document: the radio used depends on its type only. */
  function Confirm(q: MQuestion, sel: Option<string>, idx: Option<nat>): (v: Verdict)
    requires idx.Some? ==> 1 <= idx.value <= |q.options|
    ensures q.tipo == "VF" ==> v != Fails && (v == Right <==> sel == Some(VfExpected(q.key)))
  {
    if q.tipo == "VF" then (if EvalVf(q.key, sel) then Right else Wrong)
    else EvalMc(q.options, q.key, idx)
  }

  /** Every imported document is judged without a failure once an option is chosen, and only by text when it is not true/false. */
  lemma ImportedJudgedByText(q: MQuestion, idx: nat)
    requires Imported(q) && q.tipo != "VF" && 1 <= idx <= |q.options|
    ensures Confirm(q, None, Some(idx)) == Right <==> q.options[idx - 1] == q.key.s
  {
    McTextKey(q.options, q.key.s, idx);
  }
}
