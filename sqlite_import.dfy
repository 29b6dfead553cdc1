/**
 * CSV ingestion of the SQLite front end: `normalize_bool`,
 * `parse_alternativas`, `ensure_questionario`, the answer-key resolution of
 * `add_questao_mc`, and the row loop of `import_csv_to_db`.
 */
module SqliteImport {
  import opened Wrappers
  import opened Text
  import opened CsvRow
  import opened Store

  /** The Python values `normalize_bool` is called with. */
  datatype Value = Bool(b: bool) | Int(i: int) | Str(s: string) | NoneValue

  /** Lower-case tokens that `normalize_bool` reads as true. */
  const TruthyTokens: set<string> := {"v", "true", "t", "1", "sim", "s", "verdadeiro"}

  /** The option letters, in option order. */
  const Letters: string := "ABCDE"

  /** Name given to a questionnaire whose name is blank. */
  const Untitled: string := "Sem Título"

  /**
   * `normalize_bool`: booleans and integers by their Python truth, anything
   * else through `str(val).strip().lower()` (so `None` reads as `"none"`).
   */
  function NormalizeBool(v: Value): (r: bool)
    ensures v.Bool? ==> r == v.b
    ensures v.Int? ==> r == (v.i != 0)
    ensures v.NoneValue? ==> !r
  {
    match v
    case Bool(b) => b
    case Int(i) => i != 0
    case Str(s) => Lower(Strip(s)) in TruthyTokens
    case NoneValue =>
      NoneIsNotTrue();
      Lower(Strip("None")) in TruthyTokens
  }

  /** `str(None)` is not a true token. */
  lemma NoneIsNotTrue()
    ensures Lower(Strip("None")) !in TruthyTokens
  {
    StripStripped("None");
    assert Lower("None") == "none";
  }

  /** Booleans and integers are read by their Python truth value; `None` is false. */
  lemma NormalizeBoolNonText(v: Value)
    requires !v.Str?
    ensures NormalizeBool(v) == (v == Bool(true) || (v.Int? && v.i != 0))
  {
  }

  /**
   * A text is true exactly when, apart from surrounding whitespace, it is
   * one of the tokens written in any letter case.
   */
  lemma NormalizeBoolText(s: string)
    ensures NormalizeBool(Str(s)) <==>
      exists a, w, b :: s == a + w + b && AllSpace(a) && AllSpace(b) && Lower(w) in TruthyTokens
  {
    var a, b := StripSplits(s);
    var w := Strip(s);
    if NormalizeBool(Str(s)) {
      assert Lower(w) in TruthyTokens;
    }
    if exists a', w', b' :: s == a' + w' + b' && AllSpace(a') && AllSpace(b') && Lower(w') in TruthyTokens {
      var a', w', b' :| s == a' + w' + b' && AllSpace(a') && AllSpace(b') && Lower(w') in TruthyTokens;
      TokenIsStripped(w');
      StripPadding(a', w', b');
    }
  }

  /** No token has whitespace at either end, in any letter case. */
  lemma TokenIsStripped(w: string)
    requires Lower(w) in TruthyTokens
    ensures IsStripped(w)
  {
    var l := Lower(w);
    assert l != [] && !IsSpace(l[0]) && !IsSpace(l[|l| - 1]);
  }

  /** The `'V'`/`'F'` key a true/false question stores reads back as the same truth value. */
  lemma NormalizeBoolStoredKey(b: bool)
    ensures NormalizeBool(Str(if b then "V" else "F")) == b
  {
    var k := if b then "V" else "F";
    assert Strip(k) == k;
    assert Lower(k) == (if b then "v" else "f");
  }

  /** `[p.strip() for p in pieces if p.strip()]`. */
  function NonBlank(pieces: seq<string>): (r: seq<string>)
    ensures |r| <= |pieces|
    ensures forall i :: 0 <= i < |r| ==> r[i] != "" && IsStripped(r[i])
  {
    if pieces == [] then []
    else
      var p := Strip(pieces[0]);
      if p != "" then [p] + NonBlank(pieces[1..]) else NonBlank(pieces[1..])
  }

  /** A single piece is kept, stripped, exactly when it is not blank. */
  lemma NonBlankSingle(p: string)
    ensures NonBlank([p]) == if Strip(p) == "" then [] else [Strip(p)]
  {
    assert [p][1..] == [];
  }

  /** Filtering a concatenation filters each half, in order. */
  lemma {:induction false} NonBlankAppend(xs: seq<string>, ys: seq<string>)
    ensures NonBlank(xs + ys) == NonBlank(xs) + NonBlank(ys)
    decreases |xs|
  {
    if xs == [] {
      assert xs + ys == ys;
    } else {
      NonBlankAppend(xs[1..], ys);
      assert (xs + ys)[0] == xs[0];
      assert (xs + ys)[1..] == xs[1..] + ys;
    }
  }

  /** Pieces that strip to the same texts, one by one, leave the same non-blank pieces. */
  lemma {:induction false} NonBlankSameStrips(xs: seq<string>, ys: seq<string>)
    requires |xs| == |ys|
    requires forall k :: 0 <= k < |xs| ==> Strip(xs[k]) == Strip(ys[k])
    ensures NonBlank(xs) == NonBlank(ys)
    decreases |xs|
  {
    if xs != [] {
      NonBlankSameStrips(xs[1..], ys[1..]);
    }
  }

  /** The separator `parse_alternativas` picks for an already stripped text. */
  function OptionSeparator(s: string): (c: char)
    ensures c == ';' || c == '|'
    ensures c == ';' <==> ';' in s
  {
    if ';' in s then ';' else '|'
  }

  /** `parse_alternativas`: at most five stripped, non-blank options. */
  function ParseOptions(val: Option<string>): (r: seq<string>)
    ensures val.None? ==> r == []
    ensures |r| <= 5
    ensures forall i :: 0 <= i < |r| ==> r[i] != "" && IsStripped(r[i])
  {
    match val
    case None => []
    case Some(v) =>
      var s := Strip(v);
      FirstFive(NonBlank(SplitChars(s, {OptionSeparator(s)})))
  }

  lemma NonBlankKeepsClean(pieces: seq<string>)
    requires forall i :: 0 <= i < |pieces| ==> pieces[i] != "" && IsStripped(pieces[i])
    ensures NonBlank(pieces) == pieces
  {
    if pieces != [] {
      StripStripped(pieces[0]);
      NonBlankKeepsClean(pieces[1..]);
    }
  }

  lemma JoinCharContains(parts: seq<string>, c: char)
    requires |parts| >= 2
    ensures c in JoinChar(parts, c)
  {
    var j := JoinChar(parts, c);
    assert j[|parts[0]|] == c;
  }

  lemma JoinCharAvoids(parts: seq<string>, c: char, x: char)
    requires |parts| >= 1 && x != c
    requires forall i :: 0 <= i < |parts| ==> x !in parts[i]
    ensures x !in JoinChar(parts, c)
    decreases |parts|
  {
    if |parts| > 1 {
      JoinCharAvoids(parts[1..], c, x);
    }
  }

  /**
   * Options written in the template's form, joined by `;` (at least two of
   * them) or by `|`, come back as the first five of them, in order.
   */
  lemma ParseOptionsRoundTrip(opts: seq<string>, sep: char)
    requires sep == ';' || sep == '|'
    requires |opts| >= 1 && (sep == ';' ==> |opts| >= 2)
    requires forall i :: 0 <= i < |opts| ==> opts[i] != "" && IsStripped(opts[i])
    requires forall i :: 0 <= i < |opts| ==> ';' !in opts[i] && sep !in opts[i]
    ensures ParseOptions(Some(JoinChar(opts, sep))) == FirstFive(opts)
  {
    var j := JoinChar(opts, sep);
    JoinedOptionsText(opts, sep);
    SplitJoinChar(opts, sep, {sep});
    NonBlankKeepsClean(opts);
    assert NonBlank(SplitChars(Strip(j), {OptionSeparator(Strip(j))})) == opts;
  }

  /** The joined text is already stripped and its separator is the one `parse_alternativas` picks. */
  lemma JoinedOptionsText(opts: seq<string>, sep: char)
    requires sep == ';' || sep == '|'
    requires |opts| >= 1 && (sep == ';' ==> |opts| >= 2)
    requires forall i :: 0 <= i < |opts| ==> opts[i] != "" && IsStripped(opts[i])
    requires forall i :: 0 <= i < |opts| ==> ';' !in opts[i]
    ensures Strip(JoinChar(opts, sep)) == JoinChar(opts, sep)
    ensures OptionSeparator(JoinChar(opts, sep)) == sep
  {
    var j := JoinChar(opts, sep);
    JoinCharStripped(opts, sep);
    StripStripped(j);
    if sep == ';' {
      JoinCharContains(opts, sep);
    } else {
      JoinCharAvoids(opts, sep, ';');
    }
  }

  /** At most the first five of a list. */
  function FirstFive(xs: seq<string>): (r: seq<string>)
    ensures |r| == if |xs| > 5 then 5 else |xs|
    ensures r <= xs
  {
    if |xs| > 5 then xs[..5] else xs
  }

  /**
   * Stripping the text before splitting it changes nothing: the options are
   * the first five non-blank pieces of the raw text cut at `;` when it has
   * one and at `|` otherwise.
   */
  lemma ParseOptionsUnstripped(v: string)
    ensures ParseOptions(Some(v)) == FirstFive(NonBlank(SplitChars(v, {OptionSeparator(v)})))
  {
    var t := Strip(v);
    assert ParseOptions(Some(v)) == FirstFive(NonBlank(SplitChars(t, {OptionSeparator(t)})));
    hide *;
    SeparatorNotSpace(';');
    StripKeepsChar(v, ';');
    assert OptionSeparator(t) == OptionSeparator(v);
    var sep := OptionSeparator(v);
    SeparatorNotSpace(sep);
    StripBeforeSplit(v, {sep});
    NonBlankSameStrips(SplitChars(t, {sep}), SplitChars(v, {sep}));
  }

  lemma SeparatorNotSpace(sep: char)
    requires sep == ';' || sep == '|'
    ensures !IsSpace(sep)
  {
  }

  /**
   * Any pieces free of the separator, padded or blank, joined by `;` (at
   * least two of them) or by `|` (and free of `;`), come back as the first
   * five non-blank pieces, stripped, in order.
   */
  lemma ParseOptionsJoined(ps: seq<string>, sep: char)
    requires sep == ';' || sep == '|'
    requires |ps| >= 1 && (sep == ';' ==> |ps| >= 2)
    requires forall i :: 0 <= i < |ps| ==> ';' !in ps[i] && sep !in ps[i]
    ensures ParseOptions(Some(JoinChar(ps, sep))) == FirstFive(NonBlank(ps))
  {
    var j := JoinChar(ps, sep);
    if sep == ';' {
      JoinCharContains(ps, sep);
    } else {
      JoinCharAvoids(ps, sep, ';');
    }
    assert OptionSeparator(j) == sep;
    SplitJoinChar(ps, sep, {sep});
    ParseOptionsUnstripped(j);
  }

  /** Options written with a space after each `;`, as in `"Paris; Londres; Roma"`. */
  lemma ParseOptionsSpaced(x: string, y: string, z: string)
    requires x != "" && IsStripped(x) && y != "" && IsStripped(y) && z != "" && IsStripped(z)
    requires ';' !in x && ';' !in y && ';' !in z
    ensures ParseOptions(Some(x + "; " + y + "; " + z)) == [x, y, z]
  {
    var py, pz := " " + y, " " + z;
    SpacedJoin(x, y, z);
    SpacedPieces(x, y, z);
    hide *;
    ParseOptionsJoined([x, py, pz], ';');
  }

  lemma SpacedJoin(x: string, y: string, z: string)
    ensures x + "; " + y + "; " + z == JoinChar([x, " " + y, " " + z], ';')
  {
    JoinCharThree(x, " " + y, " " + z, ';');
    assert x + "; " + y + "; " + z == x + [';'] + (" " + y) + [';'] + (" " + z);
  }

  lemma SpacedPieces(x: string, y: string, z: string)
    requires x != "" && IsStripped(x) && y != "" && IsStripped(y) && z != "" && IsStripped(z)
    requires ';' !in x && ';' !in y && ';' !in z
    ensures ';' !in " " + y && ';' !in " " + z
    ensures NonBlank([x, " " + y, " " + z]) == [x, y, z]
  {
    assert forall c :: c in " " + y ==> c == ' ' || c in y;
    assert forall c :: c in " " + z ==> c == ' ' || c in z;
    StripPadding(" ", y, "");
    StripPadding(" ", z, "");
    assert " " + y + "" == " " + y && " " + z + "" == " " + z;
    StripStripped(x);
    hide *;
    NonBlankAllKept(x, " " + y, " " + z);
  }

  /** Three pieces none of which is blank are all kept, stripped. */
  lemma NonBlankAllKept(p: string, q: string, r: string)
    requires Strip(p) != "" && Strip(q) != "" && Strip(r) != ""
    ensures NonBlank([p, q, r]) == [Strip(p), Strip(q), Strip(r)]
  {
    hide *;
    NonBlankThree(p, q, r);
    NonBlankSingle(p);
    NonBlankSingle(q);
    NonBlankSingle(r);
  }

  /** An empty slot between two `;`, as in `"a;;b"`, is dropped. */
  lemma ParseOptionsEmptySlot(x: string, y: string)
    requires x != "" && IsStripped(x) && y != "" && IsStripped(y)
    requires ';' !in x && ';' !in y
    ensures ParseOptions(Some(x + ";;" + y)) == [x, y]
  {
    var qs := [x, "", y];
    JoinCharThree(x, "", y, ';');
    assert x + ";;" + y == x + [';'] + "" + [';'] + y;
    ParseOptionsJoined(qs, ';');
    StripStripped(x);
    StripStripped(y);
    StripStripped("");
    NonBlankThree(x, "", y);
    NonBlankSingle(x);
    NonBlankSingle("");
    NonBlankSingle(y);
  }

  lemma NonBlankThree(x: string, y: string, z: string)
    ensures NonBlank([x, y, z]) == NonBlank([x]) + NonBlank([y]) + NonBlank([z])
  {
    assert [x, y, z] == [x] + ([y] + [z]);
    NonBlankAppend([x], [y] + [z]);
    NonBlankAppend([y], [z]);
  }

  lemma JoinCharThree(x: string, y: string, z: string, c: char)
    ensures JoinChar([x, y, z], c) == x + [c] + y + [c] + z
  {
    var ps := [x, y, z];
    assert ps[1..] == [y, z] && ps[1..][1..] == [z];
    assert JoinChar([z], c) == z;
    assert JoinChar([y, z], c) == y + [c] + z;
  }

  /** `str(nome).strip() or "Sem Título"`, as `ensure_questionario` normalises names. */
  function NormalizeName(name: string): (r: string)
    ensures r != "" && IsStripped(r)
  {
    var s := Strip(name);
    if s != "" then s else Untitled
  }

  lemma NormalizeNameIdempotent(name: string)
    ensures NormalizeName(NormalizeName(name)) == NormalizeName(name)
  {
    StripStripped(NormalizeName(name));
  }

  /** The options as the key search compares them: stripped and lower-cased. */
  function OptionKeys(alts: seq<string>): (ks: seq<string>)
    ensures |ks| == |alts|
    ensures forall i :: 0 <= i < |alts| ==> ks[i] == Lower(Strip(alts[i]))
  {
    seq(|alts|, i requires 0 <= i < |alts| => Lower(Strip(alts[i])))
  }

  /** Index of the first element of `xs` equal to `x`. */
  function FirstIndex(xs: seq<string>, x: string): (r: Option<nat>)
    ensures r.Some? ==> r.value < |xs| && xs[r.value] == x
    ensures r.Some? ==> forall j :: 0 <= j < r.value ==> xs[j] != x
    ensures r.None? ==> forall j :: 0 <= j < |xs| ==> xs[j] != x
  {
    if xs == [] then None
    else if xs[0] == x then Some(0)
    else match FirstIndex(xs[1..], x)
      case None => None
      case Some(i) => Some(i + 1)
  }

  /** An index holding `x` with no `x` before it is the first index of `x`. */
  lemma FirstIndexAt(xs: seq<string>, x: string, k: nat)
    requires k < |xs| && xs[k] == x
    requires forall j :: 0 <= j < k ==> xs[j] != x
    ensures FirstIndex(xs, x) == Some(k)
  {
  }

  /** Why a data row was rejected. */
  datatype Reason =
    | MissingValue   // a short row: `.strip()` on a missing cell
    | EmptyText      // "Texto da questão vazio."
    | BadType        // "tipo deve ser 'VF' ou 'MC'."
    | TooFewOptions  // "Questão MC requer ao menos 2 alternativas."
    | BadAnswerKey   // "Resposta correta inválida para questão MC."

  /**
   * The answer-key resolution of `add_questao_mc`: an in-range letter is
   * kept, else the letter of the first option equal to the key ignoring
   * case and surrounding whitespace, else an error.
   */
  function AnswerKeyOf(alts: seq<string>, raw: string): (r: Result<char, Reason>)
    requires |alts| <= 5
    ensures r.Ok? ==> r.value in Letters[..|alts|]
    ensures r.Err? ==> r.error == BadAnswerKey
  {
    var key := Strip(Upper(raw));
    if |key| == 1 && key[0] in Letters[..|alts|] then Ok(key[0])
    else match FirstIndex(OptionKeys(alts), Lower(Strip(key)))
      case Some(i) => Ok(Letters[i])
      case None => Err(BadAnswerKey)
  }

  /** The search loop of `add_questao_mc`, with its early `break`. */
  method FindOption(alts: seq<string>, target: string) returns (found: Option<nat>)
    ensures found == FirstIndex(OptionKeys(alts), target)
  {
    ghost var keys := OptionKeys(alts);
    found := None;
    var i := 0;
    while i < |alts|
      invariant 0 <= i <= |alts|
      invariant forall j :: 0 <= j < i ==> keys[j] != target
    {
      if Lower(Strip(alts[i])) == target {
        found := Some(i);
        FirstIndexAt(keys, target, i);
        return;
      }
      i := i + 1;
    }
  }

  /** The key resolution of `add_questao_mc`. */
  method ResolveAnswerKey(alts: seq<string>, raw: string) returns (r: Result<char, Reason>)
    requires |alts| <= 5
    ensures r == AnswerKeyOf(alts, raw)
  {
    var key := Strip(Upper(raw));
    if |key| == 1 && key[0] in Letters[..|alts|] {
      return Ok(key[0]);
    }
    var found := FindOption(alts, Lower(Strip(key)));
    match found
    case Some(k) =>
      r := Ok(Letters[k]);
    case None =>
      r := Err(BadAnswerKey);
  }

  /** A key that is an in-range letter, in any case and padding, wins over option texts. */
  lemma AnswerKeyLetterWins(alts: seq<string>, a: string, c: char, b: string, k: nat)
    requires |alts| <= 5 && k < |alts| && AllSpace(a) && AllSpace(b)
    requires UpperChar(c) == Letters[k]
    ensures AnswerKeyOf(alts, a + [c] + b) == Ok(Letters[k])
  {
    assert Upper([c]) == [Letters[k]];
    StripUpperPadded(a, [c], b);
  }

  /**
   * A key that is not an in-range letter resolves to the letter of the
   * first option with the same text up to case and padding.
   */
  lemma AnswerKeyByText(alts: seq<string>, raw: string, k: nat)
    requires |alts| <= 5 && k < |alts|
    requires var key := Strip(Upper(raw)); !(|key| == 1 && key[0] in Letters[..|alts|])
    requires Lower(Strip(alts[k])) == Lower(Strip(raw))
    requires forall j :: 0 <= j < k ==> Lower(Strip(alts[j])) != Lower(Strip(raw))
    ensures AnswerKeyOf(alts, raw) == Ok(Letters[k])
  {
    StripOfUpper(raw);
    StripIdempotent(Upper(raw));
    FirstIndexAt(OptionKeys(alts), Lower(Strip(raw)), k);
  }

  /** Upper-casing and stripping commute, up to the final lower-casing. */
  lemma StripOfUpper(s: string)
    ensures Lower(Strip(Upper(s))) == Lower(Strip(s))
  {
    var a, b := StripSplits(s);
    var w := Strip(s);
    UpperKeepsSpaces(w);
    StripUpperPadded(a, w, b);
    LowerOfUpper(w);
  }

  /** A key matching neither a letter nor any option text is an error. */
  lemma AnswerKeyUnresolved(alts: seq<string>, raw: string)
    requires |alts| <= 5
    requires var key := Strip(Upper(raw)); !(|key| == 1 && key[0] in Letters[..|alts|])
    requires forall j :: 0 <= j < |alts| ==> Lower(Strip(alts[j])) != Lower(Strip(raw))
    ensures AnswerKeyOf(alts, raw) == Err(BadAnswerKey)
  {
    StripOfUpper(raw);
    StripIdempotent(Upper(raw));
  }

  datatype Kind = VF | MC

  /** A row of the `questoes` table. `options` are the five columns `op_a` .. `op_e`. */
  datatype Question = Question(
    questionnaireId: nat, kind: Kind, text: string, explanation: string,
    key: string, options: seq<Option<string>>)

  /** `alternativas + [None] * (5 - len(alternativas))`. */
  function PadOptions(alts: seq<string>): (r: seq<Option<string>>)
    requires |alts| <= 5
    ensures |r| == 5
    ensures forall i :: 0 <= i < |alts| ==> r[i] == Some(alts[i])
    ensures forall i :: |alts| <= i < 5 ==> r[i] == None
  {
    seq(|alts|, i requires 0 <= i < |alts| => Some(alts[i])) + seq(5 - |alts|, _ => None)
  }

  /** The record `add_questao_vf` inserts. */
  function VfQuestion(qid: nat, text: string, correct: Value, explanation: string): (q: Question)
    ensures WellFormed(q)
    ensures NormalizeBool(Str(q.key)) == NormalizeBool(correct)
  {
    NormalizeBoolStoredKey(NormalizeBool(correct));
    Question(qid, VF, text, explanation, if NormalizeBool(correct) then "V" else "F", seq(5, _ => None))
  }

  /** The record `add_questao_mc` inserts once the key is resolved to `letter`. */
  function McQuestion(qid: nat, text: string, alts: seq<string>, letter: char, explanation: string): Question
    requires |alts| <= 5
  {
    Question(qid, MC, text, explanation, [letter], PadOptions(alts))
  }

  /**
   * What the import stores is well formed: a true/false key is `V` or `F`
   * with no options; a multiple-choice question has its options first and
   * blanks after, at least two of them, and a key naming a present option.
   */
  ghost predicate WellFormed(q: Question) {
    && |q.options| == 5
    && match q.kind
       case VF => (q.key == "V" || q.key == "F") && forall i :: 0 <= i < 5 ==> q.options[i].None?
       case MC =>
         && q.options[0].Some? && q.options[1].Some?
         && (forall i, j :: 0 <= i < j < 5 && q.options[i].None? ==> q.options[j].None?)
         && (forall i :: 0 <= i < 5 && q.options[i].Some? ==> q.options[i].value != "")
         && |q.key| == 1
         && exists i :: 0 <= i < 5 && q.options[i].Some? && q.key[0] == Letters[i]
  }

  /** What a validated row asks to insert. */
  datatype Draft =
    | VfDraft(text: string, truth: bool, explanation: string)
    | McDraft(text: string, options: seq<string>, letter: char, explanation: string)

  /** The decision `import_csv_to_db` takes for one row, before touching the store. */
  datatype Plan =
    | Reject(reason: Reason)                            // before `ensure_questionario`
    | RejectAfterEnsure(name: string, reason: Reason)   // after it: the questionnaire exists
    | Accept(name: string, draft: Draft)

  /** What every plan of a row satisfies; the store effect relies on it. */
  predicate PlanOk(p: Plan) {
    && (!p.Reject? ==> p.name != "" && IsStripped(p.name))
    && (p.Accept? && p.draft.McDraft? ==>
          && 2 <= |p.draft.options| <= 5
          && p.draft.letter in Letters[..|p.draft.options|]
          && forall i :: 0 <= i < |p.draft.options| ==> p.draft.options[i] != "")
  }

  /** The cells of one row after the `.strip()` calls at the top of the loop body. */
  datatype Fields = Fields(
    tipo: string, name: string, text: string, correct: string,
    explanation: string, options: Option<string>)

  /**
   * The reads at the top of the loop body. `tipo` goes through `str()` and
   * cannot fail; `.strip()` on a missing cell of the three other required
   * columns rejects the row.
   */
  function ReadFields(row: Row): (r: Result<Fields, Reason>)
    ensures r.Err? <==>
      GetOr(row, "questionario", "").None? || GetOr(row, "texto", "").None? || GetOr(row, "correta", "").None?
    ensures r.Err? ==> r.error == MissingValue
    ensures r.Ok? ==> r.value.name != "" && IsStripped(r.value.name)
    ensures r.Ok? ==> IsStripped(r.value.text) && IsStripped(r.value.correct)
  {
    var tipo := Upper(Strip(StrOf(GetOr(row, "tipo", ""))));
    match GetOr(row, "questionario", "")
    case None => Err(MissingValue)
    case Some(q) =>
      match GetOr(row, "texto", "")
      case None => Err(MissingValue)
      case Some(t) =>
        match GetOr(row, "correta", "")
        case None => Err(MissingValue)
        case Some(c) =>
          var expl := match GetOr(row, "explicacao", "") case Some(e) => e case None => "";
          Ok(Fields(tipo, NormalizeName(q), Strip(t), Strip(c), expl, GetOr(row, "alternativas", "")))
  }

  /** The checks on a row's cells, in the order the loop body makes them. */
  function Classify(f: Fields): (p: Plan)
    requires f.name != "" && IsStripped(f.name)
    ensures PlanOk(p)
    ensures p.Reject? <==> f.text == ""
    ensures p.Accept? ==> p.name == f.name && p.draft.text == f.text && p.draft.explanation == f.explanation
    ensures f.text != "" && f.tipo == "VF" ==>
      p.Accept? && p.draft.VfDraft? && p.draft.truth == NormalizeBool(Str(f.correct))
    ensures f.text != "" && f.tipo == "MC" ==>
      var alts := ParseOptions(f.options);
      && (p.Accept? <==> |alts| >= 2 && AnswerKeyOf(alts, f.correct).Ok?)
      && (p.Accept? ==> p.draft == McDraft(f.text, alts, AnswerKeyOf(alts, f.correct).value, f.explanation))
      && (!p.Accept? ==> p.reason == if |alts| < 2 then TooFewOptions else BadAnswerKey)
    ensures f.text != "" && f.tipo != "VF" && f.tipo != "MC" ==> p == RejectAfterEnsure(f.name, BadType)
  {
    if f.text == "" then Reject(EmptyText)
    else if f.tipo == "VF" then Accept(f.name, VfDraft(f.text, NormalizeBool(Str(f.correct)), f.explanation))
    else if f.tipo == "MC" then
      var alts := ParseOptions(f.options);
      if |alts| < 2 then RejectAfterEnsure(f.name, TooFewOptions)
      else match AnswerKeyOf(alts, f.correct)
        case Err(e) => RejectAfterEnsure(f.name, e)
        case Ok(letter) => Accept(f.name, McDraft(f.text, alts, letter, f.explanation))
    else RejectAfterEnsure(f.name, BadType)
  }

  /** The body of the row loop, up to its effect on the store. */
  function PlanRow(row: Row): (p: Plan)
    ensures PlanOk(p)
  {
    match ReadFields(row)
    case Err(e) => Reject(e)
    case Ok(f) => Classify(f)
  }

  /** The record a draft becomes under questionnaire `qid`. */
  function ToQuestion(qid: nat, d: Draft): Question
    requires d.McDraft? ==> |d.options| <= 5
  {
    match d
    case VfDraft(text, truth, expl) => VfQuestion(qid, text, Bool(truth), expl)
    case McDraft(text, alts, letter, expl) => McQuestion(qid, text, alts, letter, expl)
  }

  /** The store effect of a plan: `ensure_questionario` once reached, then the insert. */
  function ApplyPlan(db: Db<Question>, p: Plan): Db<Question>
    requires PlanOk(p)
  {
    match p
    case Reject(_) => db
    case RejectAfterEnsure(name, _) => Ensure(db, NormalizeName(name)).0
    case Accept(name, d) =>
      var (db1, qid) := Ensure(db, NormalizeName(name));
      Insert(db1, ToQuestion(qid, d))
  }

  /**
   * A rejected-early row leaves the store alone; any other row makes sure
   * its questionnaire exists, keeping every other id; only an accepted row
   * appends a question.
   */
  lemma ApplyPlanEffect(db: Db<Question>, p: Plan)
    requires PlanOk(p)
    ensures var r := ApplyPlan(db, p);
      && (p.Reject? ==> r == db)
      && (!p.Reject? ==> p.name in r.names && r.names.Keys == db.names.Keys + {p.name})
      && (forall n :: n in db.names ==> n in r.names && r.names[n] == db.names[n])
      && |r.questions| == |db.questions| + (if p.Accept? then 1 else 0)
      && r.questions[..|db.questions|] == db.questions
      && (ValidDb(db) ==> ValidDb(r))
  {
    if !p.Reject? {
      StripStripped(p.name);
    }
  }

  /** A rejected row is reported as `Linha <line>: <reason>`. */
  datatype RowError = RowError(line: nat, reason: Reason)

  datatype Outcome = Outcome(db: Db<Question>, ok: nat, errors: seq<RowError>)

  /** The plans of all data rows, in file order. */
  function PlanRows(rows: seq<Row>): (ps: seq<Plan>)
    ensures |ps| == |rows|
    ensures forall i :: 0 <= i < |rows| ==> ps[i] == PlanRow(rows[i])
    ensures forall i :: 0 <= i < |ps| ==> PlanOk(ps[i])
  {
    seq(|rows|, i requires 0 <= i < |rows| => PlanRow(rows[i]))
  }

  /** Positions of the accepted plans. */
  function Accepted(plans: seq<Plan>): set<nat> {
    set i: nat | i < |plans| && plans[i].Accept?
  }

  lemma AcceptedSnoc(plans: seq<Plan>, p: Plan)
    ensures Accepted(plans + [p]) == Accepted(plans) + (if p.Accept? then {|plans|} else {})
  {
    var ps := plans + [p];
    assert forall i :: 0 <= i < |plans| ==> ps[i] == plans[i];
  }

  /** The store after the row loop has applied every plan in turn. */
  function ApplyPlans(db: Db<Question>, plans: seq<Plan>): Db<Question>
    requires forall i :: 0 <= i < |plans| ==> PlanOk(plans[i])
    decreases |plans|
  {
    if plans == [] then db
    else ApplyPlan(ApplyPlans(db, plans[..|plans| - 1]), plans[|plans| - 1])
  }

  /** The `erros` list: one entry per rejected plan, data rows numbered from 2 (the header is line 1). */
  function Errors(plans: seq<Plan>): seq<RowError>
    decreases |plans|
  {
    if plans == [] then []
    else
      var p := plans[|plans| - 1];
      Errors(plans[..|plans| - 1]) + if p.Accept? then [] else [RowError(|plans| + 1, p.reason)]
  }

  /** What the row loop returns and leaves in the store: `ok` counts the accepted rows. */
  function ImportPlans(db: Db<Question>, plans: seq<Plan>): Outcome
    requires forall i :: 0 <= i < |plans| ==> PlanOk(plans[i])
  {
    Outcome(ApplyPlans(db, plans), |Accepted(plans)|, Errors(plans))
  }

  /** One data row on line `line`: its plan applied to the store, and one more in `ok` or in the errors. */
  function Step(o: Outcome, line: nat, p: Plan): Outcome
    requires PlanOk(p)
  {
    if p.Accept? then Outcome(ApplyPlan(o.db, p), o.ok + 1, o.errors)
    else Outcome(ApplyPlan(o.db, p), o.ok, o.errors + [RowError(line, p.reason)])
  }

  lemma PlansSnoc(db: Db<Question>, plans: seq<Plan>, p: Plan)
    requires forall i :: 0 <= i < |plans| ==> PlanOk(plans[i])
    requires PlanOk(p)
    ensures ImportPlans(db, plans + [p]) == Step(ImportPlans(db, plans), |plans| + 2, p)
  {
    var ps := plans + [p];
    assert ps[..|plans|] == plans;
    AcceptedSnoc(plans, p);
  }

  /** The row loop of `import_csv_to_db` over its data rows. */
  function ImportRows(db: Db<Question>, rows: seq<Row>): Outcome {
    ImportPlans(db, PlanRows(rows))
  }

  /** Each data row either counts as imported or yields exactly one error. */
  lemma {:induction false} ImportCounts(plans: seq<Plan>)
    ensures |Accepted(plans)| + |Errors(plans)| == |plans|
    decreases |plans|
  {
    if plans != [] {
      var n := |plans| - 1;
      ImportCounts(plans[..n]);
      assert plans == plans[..n] + [plans[n]];
      AcceptedSnoc(plans[..n], plans[n]);
    }
  }

  /** `e` reports the rejected plan on its line, with that plan's reason. */
  predicate ReportsRejection(plans: seq<Plan>, e: RowError) {
    && 2 <= e.line <= |plans| + 1
    && !plans[e.line - 2].Accept?
    && e.reason == plans[e.line - 2].reason
  }

  /** Every error reports a rejected row, on that row's line and with its reason. */
  lemma {:induction false} ErrorsReportRejections(plans: seq<Plan>)
    ensures forall k :: 0 <= k < |Errors(plans)| ==> ReportsRejection(plans, Errors(plans)[k])
    decreases |plans|
  {
    if plans != [] {
      var init := plans[..|plans| - 1];
      ErrorsReportRejections(init);
      var errs, prev := Errors(plans), Errors(init);
      forall k | 0 <= k < |errs|
        ensures ReportsRejection(plans, errs[k])
      {
        if k < |prev| {
          assert errs[k] == prev[k] && ReportsRejection(init, prev[k]);
          assert init[prev[k].line - 2] == plans[prev[k].line - 2];
        }
      }
    }
  }

  /** Errors come in row order, so no line is reported twice. */
  lemma {:induction false} ErrorLinesAscend(plans: seq<Plan>)
    ensures forall k, l :: 0 <= k < l < |Errors(plans)| ==> Errors(plans)[k].line < Errors(plans)[l].line
    decreases |plans|
  {
    if plans != [] {
      var init := plans[..|plans| - 1];
      ErrorLinesAscend(init);
      ErrorsReportRejections(init);
      var prev := Errors(init);
      assert forall k :: 0 <= k < |prev| ==> ReportsRejection(init, prev[k]);
    }
  }

  /** Some error is reported on `line`. */
  predicate HasErrorOn(errs: seq<RowError>, line: nat) {
    exists k :: 0 <= k < |errs| && errs[k].line == line
  }

  /** Every rejected row has an error on its line. */
  lemma {:induction false} RejectionsReported(plans: seq<Plan>)
    ensures forall i :: 0 <= i < |plans| && !plans[i].Accept? ==> HasErrorOn(Errors(plans), i + 2)
    decreases |plans|
  {
    if plans != [] {
      var init := plans[..|plans| - 1];
      RejectionsReported(init);
      var errs, prev := Errors(plans), Errors(init);
      assert prev <= errs;
      forall i | 0 <= i < |plans| && !plans[i].Accept?
        ensures HasErrorOn(errs, i + 2)
      {
        if i < |init| {
          assert init[i] == plans[i];
          assert HasErrorOn(prev, i + 2);
          var k :| 0 <= k < |prev| && prev[k].line == i + 2;
          assert errs[k] == prev[k];
        } else {
          assert errs[|errs| - 1].line == i + 2;
        }
      }
    }
  }

  /** Names of the questionnaires the plans reach `ensure_questionario` with. */
  function EnsuredNames(plans: seq<Plan>): set<string> {
    set i | 0 <= i < |plans| && !plans[i].Reject? :: plans[i].name
  }

  lemma EnsuredNamesSnoc(plans: seq<Plan>, p: Plan)
    ensures EnsuredNames(plans + [p]) == EnsuredNames(plans) + (if p.Reject? then {} else {p.name})
  {
    var ps := plans + [p];
    assert forall i :: 0 <= i < |plans| ==> ps[i] == plans[i];
    assert ps[|plans|] == p;
  }

  /**
   * Questionnaires are found or created by name: the import leaves every
   * existing id alone and adds exactly the names its rows reached, so two
   * rows naming the same questionnaire create at most one.
   */
  lemma {:induction false} ImportQuestionnaires(db: Db<Question>, plans: seq<Plan>)
    requires forall i :: 0 <= i < |plans| ==> PlanOk(plans[i])
    requires ValidDb(db)
    ensures var out := ApplyPlans(db, plans);
      && ValidDb(out)
      && out.names.Keys == db.names.Keys + EnsuredNames(plans)
      && forall n :: n in db.names ==> out.names[n] == db.names[n]
    decreases |plans|
  {
    hide ApplyPlan, Ensure, Insert;
    if plans != [] {
      var init := plans[..|plans| - 1];
      ImportQuestionnaires(db, init);
      var last := plans[|plans| - 1];
      ApplyPlanEffect(ApplyPlans(db, init), last);
      assert plans == init + [last];
      EnsuredNamesSnoc(init, last);
    }
  }

  /**
   * Imported questions are appended after the existing ones, one per
   * accepted row, and every one of them is well formed.
   */
  lemma {:induction false} ImportQuestions(db: Db<Question>, plans: seq<Plan>)
    requires forall i :: 0 <= i < |plans| ==> PlanOk(plans[i])
    ensures var out := ApplyPlans(db, plans);
      && |out.questions| == |db.questions| + |Accepted(plans)|
      && out.questions[..|db.questions|] == db.questions
      && forall k :: |db.questions| <= k < |out.questions| ==> WellFormed(out.questions[k])
    decreases |plans|
  {
    if plans != [] {
      var n := |plans| - 1;
      var init := plans[..n];
      ImportQuestions(db, init);
      assert plans == init + [plans[n]];
      AcceptedSnoc(init, plans[n]);
      var prev := ApplyPlans(db, init);
      var p := plans[n];
      ApplyPlanEffect(prev, p);
      if p.Accept? {
        var (db1, qid) := Ensure(prev, NormalizeName(p.name));
        DraftWellFormed(qid, p.draft);
        var out := ApplyPlans(db, plans);
        assert out.questions == prev.questions + [ToQuestion(qid, p.draft)];
      }
    }
  }

  lemma DraftWellFormed(qid: nat, d: Draft)
    requires d.McDraft? ==> 2 <= |d.options| <= 5 && d.letter in Letters[..|d.options|]
    requires d.McDraft? ==> forall i :: 0 <= i < |d.options| ==> d.options[i] != ""
    ensures WellFormed(ToQuestion(qid, d))
  {
    if d.McDraft? {
      var q := ToQuestion(qid, d);
      var n := |d.options|;
      var i :| 0 <= i < n && Letters[i] == d.letter;
      assert q.options[i].Some? && q.key[0] == Letters[i];
    }
  }

  /** A row with a blank text is rejected without creating a questionnaire. */
  lemma BlankTextCreatesNothing(row: Row)
    requires "texto" in row && row["texto"].Some? && Strip(row["texto"].value) == ""
    requires "questionario" !in row || row["questionario"].Some?
    requires "correta" !in row || row["correta"].Some?
    ensures PlanRow(row) == Reject(EmptyText)
  {
  }

  /**
   * Rows are not atomic: a row with text but an unknown type is rejected
   * after its questionnaire was found or created, and inserts nothing.
   */
  lemma UnknownTypeStillEnsures(db: Db<Question>, f: Fields)
    requires f.name != "" && IsStripped(f.name)
    requires f.text != "" && f.tipo != "VF" && f.tipo != "MC"
    ensures ApplyPlan(db, Classify(f)) == Ensure(db, f.name).0
    ensures f.name in ApplyPlan(db, Classify(f)).names
  {
    StripStripped(f.name);
  }

  /** A blank questionnaire name files the row under "Sem Título". */
  lemma BlankNameIsUntitled(row: Row)
    requires "questionario" in row && row["questionario"].Some?
    requires Strip(row["questionario"].value) == ""
    ensures !PlanRow(row).Reject? ==> PlanRow(row).name == Untitled
  {
  }

  /** The columns a header must have. */
  const Required: set<string> := {"tipo", "questionario", "texto", "correta"}

  datatype ImportError =
    | NoHeader                            // empty input: no field names at all
    | MissingColumns(missing: set<string>)

  /** `import_csv_to_db` after the text was split into a header and rows. */
  function ImportCsv(db: Db<Question>, header: Option<seq<string>>, rows: seq<Row>): (r: Result<Outcome, ImportError>)
    ensures header.None? ==> r == Err(NoHeader)
    ensures r.Ok? ==> header.Some? && forall c :: c in Required ==> c in header.value
    ensures r.Err? && header.Some? ==>
      && r.error.MissingColumns? && r.error.missing != {}
      && forall c :: c in r.error.missing <==> c in Required && c !in header.value
    ensures r.Ok? ==> r.value == ImportRows(db, rows)
  {
    match header
    case None => Err(NoHeader)
    case Some(names) =>
      var missing := set c | c in Required && c !in names;
      if missing != {} then Err(MissingColumns(missing))
      else
        assert forall c :: c in Required ==> c in missing || c in names;
        Ok(ImportRows(db, rows))
  }

  /** `ensure_questionario` of the SQLite front end. */
  method EnsureQuestionnaire(store: RecordStore<Question>, name: string) returns (id: nat)
    requires store.Valid()
    modifies store
    ensures store.Valid()
    ensures (store.State(), id) == Ensure(old(store.State()), NormalizeName(name))
  {
    id := store.EnsureQuestionnaire(NormalizeName(name));
  }

  /** `add_questao_vf`. */
  method AddQuestionVf(store: RecordStore<Question>, qid: nat, text: string, correct: Value, explanation: string)
    requires store.Valid()
    modifies store
    ensures store.Valid()
    ensures store.State() == Insert(old(store.State()), VfQuestion(qid, text, correct, explanation))
  {
    store.AddQuestion(VfQuestion(qid, text, correct, explanation));
  }

  /** `add_questao_mc`: resolve the key, then insert; an unresolved key inserts nothing. */
  method AddQuestionMc(store: RecordStore<Question>, qid: nat, text: string, alts: seq<string>, correct: string, explanation: string)
    returns (r: Result<char, Reason>)
    requires store.Valid() && |alts| <= 5
    modifies store
    ensures store.Valid()
    ensures r == AnswerKeyOf(alts, correct)
    ensures store.State() == if r.Ok? then Insert(old(store.State()), McQuestion(qid, text, alts, r.value, explanation))
                             else old(store.State())
  {
    r := ResolveAnswerKey(alts, correct);
    if r.Ok? {
      store.AddQuestion(McQuestion(qid, text, alts, r.value, explanation));
    }
  }

  /** The loop body once the cells are read: the checks, `ensure_questionario`, the insert. */
  method ImportFields(store: RecordStore<Question>, f: Fields) returns (err: Option<Reason>)
    requires store.Valid()
    requires f.name != "" && IsStripped(f.name)
    modifies store
    ensures store.Valid()
    ensures store.State() == ApplyPlan(old(store.State()), Classify(f))
    ensures err == if Classify(f).Accept? then None else Some(Classify(f).reason)
  {
    if f.text == "" { return Some(EmptyText); }
    var qid := EnsureQuestionnaire(store, f.name);
    if f.tipo == "VF" {
      var val := NormalizeBool(Str(f.correct));
      AddQuestionVf(store, qid, f.text, Bool(val), f.explanation);
      err := None;
    } else if f.tipo == "MC" {
      var alts := ParseOptions(f.options);
      if |alts| < 2 { return Some(TooFewOptions); }
      var r := AddQuestionMc(store, qid, f.text, alts, f.correct, f.explanation);
      err := if r.Ok? then None else Some(r.error);
    } else {
      err := Some(BadType);
    }
  }

  /** One pass of the row loop body on the store. */
  method ImportRow(store: RecordStore<Question>, row: Row) returns (err: Option<Reason>)
    requires store.Valid()
    modifies store
    ensures store.Valid()
    ensures store.State() == ApplyPlan(old(store.State()), PlanRow(row))
    ensures err == if PlanRow(row).Accept? then None else Some(PlanRow(row).reason)
  {
    var read := ReadFields(row);
    if read.Err? { return Some(read.error); }
    err := ImportFields(store, read.value);
  }

  /** The loop body on the row on line `line`, counters included. */
  method ImportStep(store: RecordStore<Question>, row: Row, line: nat, ok: nat, errors: seq<RowError>)
    returns (ok1: nat, errors1: seq<RowError>)
    requires store.Valid()
    modifies store
    ensures store.Valid()
    ensures PlanOk(PlanRow(row))
    ensures Outcome(store.State(), ok1, errors1) == Step(Outcome(old(store.State()), ok, errors), line, PlanRow(row))
  {
    hide PlanRow, ApplyPlan;
    var err := ImportRow(store, row);
    if err.None? {
      ok1, errors1 := ok + 1, errors;
    } else {
      ok1, errors1 := ok, errors + [RowError(line, err.value)];
    }
  }

  /** The row loop of `import_csv_to_db`. */
  method ImportAll(store: RecordStore<Question>, rows: seq<Row>) returns (ok: nat, errors: seq<RowError>)
    requires store.Valid()
    modifies store
    ensures store.Valid()
    ensures ImportRows(old(store.State()), rows) == Outcome(store.State(), ok, errors)
  {
    hide PlanRow;
    ghost var db0 := store.State();
    ghost var plans := PlanRows(rows);
    ok, errors := 0, [];
    var i := 0;
    while i < |rows|
      invariant 0 <= i <= |rows|
      invariant store.Valid()
      invariant ImportPlans(db0, plans[..i]) == Outcome(store.State(), ok, errors)
    {
      ghost var before := plans[..i];
      assert plans[..i + 1] == before + [plans[i]];
      PlansSnoc(db0, before, plans[i]);
      ok, errors := ImportStep(store, rows[i], i + 2, ok, errors);
      i := i + 1;
    }
    assert plans[..|rows|] == plans;
  }

  /** `import_csv_to_db`: the header check, then every row in turn. */
  method ImportCsvToDb(store: RecordStore<Question>, header: Option<seq<string>>, rows: seq<Row>)
    returns (r: Result<(nat, seq<RowError>), ImportError>)
    requires store.Valid()
    modifies store
    ensures store.Valid()
    ensures match ImportCsv(old(store.State()), header, rows)
      case Err(e) => r == Err(e) && store.State() == old(store.State())
      case Ok(out) => r == Ok((out.ok, out.errors)) && store.State() == out.db
  {
    match header {
      case None =>
        return Err(NoHeader);
      case Some(names) =>
        var missing := set c | c in Required && c !in names;
        if missing != {} {
          return Err(MissingColumns(missing));
        }
    }
    var ok, errors := ImportAll(store, rows);
    r := Ok((ok, errors));
  }
}
