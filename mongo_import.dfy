/**
 * The CSV importer of the MongoDB front end (`import_csv_to_db`): each row
 * is read through two spellings of every column, checked for a name and a
 * text, and inserted as one question document; the loop reports `ok`, the
 * errors and a per-questionnaire tally (`impacto`).
 */
module MongoImport {
  import opened Wrappers
  import opened Text
  import opened CsvRow
  import opened Store
  import SqliteImport

  /** A stored `gabarito`: the kinds of Python value the front end tells apart. */
  datatype Key = KBool(b: bool) | KInt(i: int) | KText(s: string) | KNone

  /** A document of the `questoes` collection. */
  datatype MQuestion = MQuestion(
    questionnaireId: nat, tipo: string, text: string, options: seq<string>,
    key: Key, explanation: string, tags: seq<string>)

  /** The spellings of a true key, compared after stripping and upper-casing. */
  const VfTokens: set<string> := {"V", "VERDADEIRO", "TRUE", "T", "1"}

  const OptionSeparator: string := "||"
  const TagSeparators: set<char> := {';', ','}

  /** Every piece, stripped. */
  function StripAll(pieces: seq<string>): (r: seq<string>)
    ensures |r| == |pieces|
    ensures forall i :: 0 <= i < |r| ==> r[i] == Strip(pieces[i]) && IsStripped(r[i])
  {
    seq(|pieces|, i requires 0 <= i < |pieces| => Strip(pieces[i]))
  }

  /** `[a.strip() for a in raw.split("||")] if raw else []`: empty pieces are kept. */
  function ParseOptions(raw: string): (r: seq<string>)
    ensures raw == "" <==> r == []
    ensures forall i :: 0 <= i < |r| ==> IsStripped(r[i])
  {
    if raw == "" then [] else StripAll(SplitStr(raw, OptionSeparator))
  }

  /**
   * Options written as stripped texts free of `|` and joined by `||` come
   * back exactly, blank ones included.
   */
  lemma OptionsRoundTrip(opts: seq<string>)
    requires |opts| >= 1 && JoinStr(opts, OptionSeparator) != ""
    requires forall i :: 0 <= i < |opts| ==> IsStripped(opts[i]) && '|' !in opts[i]
    ensures ParseOptions(JoinStr(opts, OptionSeparator)) == opts
  {
    SplitJoinStr(opts, OptionSeparator);
    forall i | 0 <= i < |opts| ensures Strip(opts[i]) == opts[i] {
      StripStripped(opts[i]);
    }
  }

  /**
   * Any pieces free of `|`, padded or blank, joined by `||` come back
   * stripped, one per piece, unless the joined text is empty.
   */
  lemma OptionsJoined(ps: seq<string>)
    requires |ps| >= 1
    requires forall i :: 0 <= i < |ps| ==> '|' !in ps[i]
    ensures var j := JoinStr(ps, OptionSeparator);
      ParseOptions(j) == if j == "" then [] else StripAll(ps)
  {
    SplitJoinStr(ps, OptionSeparator);
  }

  /**
   * A run of three bars is cut at its first two: `"a|||b"` gives `a` and
   * `|b`, the leftmost `||` winning as in `str.split`.
   */
  lemma OptionsTripleBar(x: string, y: string)
    requires '|' !in x && '|' !in y
    ensures ParseOptions(x + "|||" + y) == [Strip(x), Strip("|" + y)]
  {
    var rest := "|" + y;
    assert x + "|||" + y == x + OptionSeparator + rest;
    SplitStrPrefix(x, OptionSeparator, rest);
    if |y| >= 1 {
      assert rest[..2] != OptionSeparator by { assert rest[1] == y[0] && y[0] in y; }
      assert rest[1..] == y;
      SplitStrNoSeparator(y, OptionSeparator);
      assert [rest[0]] + y == rest;
    }
    assert SplitStr(rest, OptionSeparator) == [rest];
  }

  /** `[t.strip() for t in re.split(r"[;,]", raw.strip())] if raw.strip() else []`. */
  function ParseTags(raw: string): (r: seq<string>)
    ensures Strip(raw) == "" <==> r == []
    ensures forall i :: 0 <= i < |r| ==> IsStripped(r[i])
  {
    var t := Strip(raw);
    if t == "" then [] else StripAll(SplitChars(t, TagSeparators))
  }

  /** Non-empty stripped tags free of `;` and `,`, joined by either, come back exactly. */
  lemma TagsRoundTrip(tags: seq<string>, c: char)
    requires c in TagSeparators && |tags| >= 1
    requires forall i :: 0 <= i < |tags| ==> tags[i] != "" && IsStripped(tags[i])
    requires forall i, x :: 0 <= i < |tags| && x in TagSeparators ==> x !in tags[i]
    ensures ParseTags(JoinChar(tags, c)) == tags
  {
    var j := JoinChar(tags, c);
    JoinCharStripped(tags, c);
    StripStripped(j);
    SplitJoinChar(tags, c, TagSeparators);
    forall i | 0 <= i < |tags| ensures Strip(tags[i]) == tags[i] {
      StripStripped(tags[i]);
    }
  }

  /**
   * Any pieces free of `;` and `,`, padded or blank, joined by any mix of
   * the two, come back stripped, one per piece, unless the joined text is
   * blank.
   */
  lemma TagsJoined(tags: seq<string>, cs: seq<char>)
    requires |tags| >= 1 && |cs| == |tags| - 1
    requires forall i :: 0 <= i < |cs| ==> cs[i] in TagSeparators
    requires forall i, x :: 0 <= i < |tags| && x in TagSeparators ==> x !in tags[i]
    ensures var j := JoinSeps(tags, cs);
      ParseTags(j) == if Strip(j) == "" then [] else StripAll(tags)
  {
    var j := JoinSeps(tags, cs);
    var t := Strip(j);
    if t != "" {
      var p := SplitChars(t, TagSeparators);
      assert ParseTags(j) == StripAll(p);
      SplitJoinSeps(tags, cs, TagSeparators);
      TagSeparatorsNotSpace();
      StripBeforeSplit(j, TagSeparators);
      hide *;
      assert |p| == |tags|;
      forall k | 0 <= k < |tags| ensures StripAll(p)[k] == StripAll(tags)[k] {
      }
    }
  }

  lemma TagSeparatorsNotSpace()
    ensures forall x :: x in TagSeparators ==> !IsSpace(x)
  {
  }

  /** Tags cut at a `;` and at a `,`, as in `"x; y,z"`. */
  lemma TagsMixedSeparators(x: string, y: string, z: string)
    requires forall c :: c in TagSeparators ==> c !in x && c !in y && c !in z
    ensures ParseTags(x + "; " + y + "," + z) == [Strip(x), Strip(y), Strip(z)]
  {
    var tags := [x, " " + y, z];
    var j := x + "; " + y + "," + z;
    JoinSepsThree(x, " " + y, z, ';', ',');
    assert j == x + [';'] + (" " + y) + [','] + z;
    TagsJoined(tags, [';', ',']);
    assert j == x + [';'] + (" " + y + "," + z);
    SeparatorInside(x, ';', " " + y + "," + z);
    StripKeepsChar(j, ';');
    StripAround(" ", y, "");
    assert " " + y + "" == " " + y;
    StripAllThree(x, " " + y, z);
  }

  /** An empty slot between two separators, as in `"x;;y"`, is kept as an empty tag. */
  lemma TagsEmptySlot(x: string, y: string)
    requires forall c :: c in TagSeparators ==> c !in x && c !in y
    ensures ParseTags(x + ";;" + y) == [Strip(x), "", Strip(y)]
  {
    var tags := [x, "", y];
    var j := x + ";;" + y;
    JoinSepsThree(x, "", y, ';', ';');
    assert j == x + [';'] + "" + [';'] + y;
    TagsJoined(tags, [';', ';']);
    assert j == x + [';'] + (";" + y);
    SeparatorInside(x, ';', ";" + y);
    StripKeepsChar(j, ';');
    StripStripped("");
    StripAllThree(x, "", y);
  }

  lemma StripAllThree(x: string, y: string, z: string)
    ensures StripAll([x, y, z]) == [Strip(x), Strip(y), Strip(z)]
  {
  }

  lemma JoinSepsThree(x: string, y: string, z: string, c: char, d: char)
    ensures JoinSeps([x, y, z], [c, d]) == x + [c] + y + [d] + z
  {
    var ps, cs := [x, y, z], [c, d];
    assert ps[1..] == [y, z] && ps[1..][1..] == [z];
    assert cs[1..] == [d];
    assert JoinSeps([z], []) == z;
    assert JoinSeps([y, z], [d]) == y + [d] + z;
  }

  lemma SeparatorInside(a: string, c: char, b: string)
    ensures c in a + [c] + b
  {
    assert (a + [c] + b)[|a|] == c;
  }

  /** `str(gabarito).strip().upper() in {...}`. */
  predicate VfKey(g: string) {
    Upper(Strip(g)) in VfTokens
  }

  /** Every key the MongoDB importer reads as true, the SQLite importer reads as true too. */
  lemma VfKeyAgreesWithSqlite(g: string)
    requires VfKey(g)
    ensures SqliteImport.NormalizeBool(SqliteImport.Str(g))
  {
    var w := Strip(g);
    LowerOfUpper(w);
    var u := Upper(w);
    assert u == "V" || u == "VERDADEIRO" || u == "TRUE" || u == "T" || u == "1";
    if u == "V" {
      assert Lower(u) == "v";
    } else if u == "VERDADEIRO" {
      assert Lower(u) == "verdadeiro";
    } else if u == "TRUE" {
      assert Lower(u) == "true";
    } else if u == "T" {
      assert Lower(u) == "t";
    } else {
      assert Lower(u) == "1";
    }
  }

  /** The converse fails: `sim` is true to the SQLite importer only. */
  lemma SimIsSqliteOnly()
    ensures SqliteImport.NormalizeBool(SqliteImport.Str("sim"))
    ensures !VfKey("sim")
  {
    StripStripped("sim");
    assert Lower("sim") == "sim";
    assert Upper("sim") == "SIM";
  }

  /** The cells of one row, each read through its lower- and capitalised column name. */
  datatype MFields = MFields(
    name: string, tipo: string, text: string, optionsRaw: string,
    key: string, explanation: string, tagsRaw: string)

  function ReadRow(row: Row): (f: MFields)
    ensures IsStripped(f.name) && IsStripped(f.text) && IsStripped(f.key) && IsStripped(f.explanation) && IsStripped(f.tagsRaw)
    ensures f.optionsRaw == FirstOf(row, ["alternativas", "Alternativas"], "")
  {
    MFields(
      Strip(FirstOf(row, ["questionario", "Questionario"], "")),
      Upper(Strip(FirstOf(row, ["tipo", "Tipo"], "VF"))),
      Strip(FirstOf(row, ["texto", "Texto"], "")),
      FirstOf(row, ["alternativas", "Alternativas"], ""),
      Strip(FirstOf(row, ["gabarito", "Gabarito"], "")),
      Strip(FirstOf(row, ["explicacao", "Explicacao"], "")),
      Strip(FirstOf(row, ["tags", "Tags"], "")))
  }

  /** A row with no type cell is a true/false question; any other type is upper-cased and kept. */
  lemma TipoDefaultsToVf(row: Row)
    requires !Truthy(Get(row, "tipo")) && !Truthy(Get(row, "Tipo"))
    ensures ReadRow(row).tipo == "VF"
  {
    StripStripped("VF");
    assert Upper("VF") == "VF";
  }

  /** What an accepted row inserts, once its questionnaire has an id. */
  datatype MDraft = MDraft(
    tipo: string, text: string, options: seq<string>, key: Key,
    explanation: string, tags: seq<string>)

  /** The decision the loop body takes for one row. */
  datatype MPlan = MReject | MAccept(name: string, draft: MDraft)

  /**
   * A row without a questionnaire name or a text is rejected before any
   * write; otherwise a true/false key becomes a boolean and every other key
   * is kept as text, whatever the type says.
   */
  function Classify(f: MFields): (p: MPlan)
    ensures p.MReject? <==> f.name == "" || f.text == ""
    ensures p.MAccept? ==> p.name == f.name && p.draft.tipo == f.tipo && p.draft.text == f.text
    ensures p.MAccept? ==> p.draft.options == ParseOptions(f.optionsRaw) && p.draft.tags == ParseTags(f.tagsRaw)
    ensures p.MAccept? ==> (p.draft.key.KBool? <==> f.tipo == "VF")
    ensures p.MAccept? && f.tipo == "VF" ==> p.draft.key == KBool(VfKey(f.key))
    ensures p.MAccept? && f.tipo != "VF" ==> p.draft.key == KText(f.key)
  {
    if f.name == "" || f.text == "" then MReject
    else
      var key := if f.tipo == "VF" then KBool(VfKey(f.key)) else KText(f.key);
      MAccept(f.name, MDraft(f.tipo, f.text, ParseOptions(f.optionsRaw), key, f.explanation, ParseTags(f.tagsRaw)))
  }

  function PlanRow(row: Row): (p: MPlan)
    ensures PlanOk(p)
  {
    Classify(ReadRow(row))
  }

  function ToQuestion(id: nat, d: MDraft): MQuestion {
    MQuestion(id, d.tipo, d.text, d.options, d.key, d.explanation, d.tags)
  }

  /** `ensure_questionario`, then `add_questao`; a rejected row leaves the store as it was. */
  function ApplyPlan(db: Db<MQuestion>, p: MPlan): Db<MQuestion> {
    match p
    case MReject => db
    case MAccept(name, d) =>
      var (db1, id) := Ensure(db, name);
      Insert(db1, ToQuestion(id, d))
  }

  /** What every imported document satisfies. */
  predicate Imported(q: MQuestion) {
    && q.text != "" && IsStripped(q.text) && IsStripped(q.explanation)
    && (q.key.KBool? <==> q.tipo == "VF")
    && (!q.key.KBool? ==> q.key.KText? && IsStripped(q.key.s))
    && (forall i :: 0 <= i < |q.options| ==> IsStripped(q.options[i]))
    && (forall i :: 0 <= i < |q.tags| ==> IsStripped(q.tags[i]))
  }

  /** An accepted plan inserts a document of the imported form, whatever id its questionnaire gets. */
  predicate PlanOk(p: MPlan) {
    p.MAccept? ==> Imported(ToQuestion(0, p.draft))
  }

  /** The store effect of one row: nothing on rejection, else one questionnaire found or made and one document. */
  lemma ApplyPlanEffect(db: Db<MQuestion>, p: MPlan)
    ensures p.MReject? ==> ApplyPlan(db, p) == db
    ensures p.MAccept? ==> ApplyPlan(db, p).questions == db.questions + [ToQuestion(Ensure(db, p.name).1, p.draft)]
    ensures p.MAccept? ==> ApplyPlan(db, p).names == Ensure(db, p.name).0.names
    ensures ValidDb(db) ==> ValidDb(ApplyPlan(db, p))
  {
  }

  // ---------------------------------------------------------------------
  // The row loop

  function PlanRows(rows: seq<Row>): (ps: seq<MPlan>)
    ensures |ps| == |rows|
    ensures forall i :: 0 <= i < |rows| ==> ps[i] == PlanRow(rows[i])
  {
    seq(|rows|, i requires 0 <= i < |rows| => PlanRow(rows[i]))
  }

  function ApplyPlans(db: Db<MQuestion>, plans: seq<MPlan>): Db<MQuestion>
    decreases |plans|
  {
    if plans == [] then db else ApplyPlan(ApplyPlans(db, plans[..|plans| - 1]), plans[|plans| - 1])
  }

  /** `ok`: the accepted rows. */
  function OkCount(plans: seq<MPlan>): (n: nat)
    ensures n <= |plans|
    decreases |plans|
  {
    if plans == [] then 0
    else OkCount(plans[..|plans| - 1]) + (if plans[|plans| - 1].MAccept? then 1 else 0)
  }

  /** The lines of the `"Linha i: ..."` errors; data rows are numbered from 2. */
  function ErrorLines(plans: seq<MPlan>): seq<nat>
    decreases |plans|
  {
    if plans == [] then []
    else ErrorLines(plans[..|plans| - 1]) + (if plans[|plans| - 1].MReject? then [|plans| + 1] else [])
  }

  /** `impacto`: one more for the name of every accepted row. */
  function Impact(plans: seq<MPlan>): map<string, nat>
    decreases |plans|
  {
    if plans == [] then map[]
    else
      var m := Impact(plans[..|plans| - 1]);
      match plans[|plans| - 1]
      case MReject => m
      case MAccept(name, _) => m[name := (if name in m then m[name] else 0) + 1]
  }

  datatype MOutcome = MOutcome(db: Db<MQuestion>, ok: nat, errors: seq<nat>, impact: map<string, nat>)

  function ImportPlans(db: Db<MQuestion>, plans: seq<MPlan>): MOutcome {
    MOutcome(ApplyPlans(db, plans), OkCount(plans), ErrorLines(plans), Impact(plans))
  }

  /** The row loop of `import_csv_to_db` over its data rows. */
  function ImportRows(db: Db<MQuestion>, rows: seq<Row>): MOutcome {
    ImportPlans(db, PlanRows(rows))
  }

  /** One data row on line `line`: its plan applied to the store, `ok`, the errors and the tally. */
  function Step(o: MOutcome, line: nat, p: MPlan): MOutcome {
    match p
    case MReject => MOutcome(o.db, o.ok, o.errors + [line], o.impact)
    case MAccept(name, _) =>
      MOutcome(ApplyPlan(o.db, p), o.ok + 1, o.errors, o.impact[name := (if name in o.impact then o.impact[name] else 0) + 1])
  }

  lemma PlansSnoc(db: Db<MQuestion>, plans: seq<MPlan>, p: MPlan)
    ensures ImportPlans(db, plans + [p]) == Step(ImportPlans(db, plans), |plans| + 2, p)
  {
    assert (plans + [p])[..|plans|] == plans;
  }

  /** Each data row either counts in `ok` or yields exactly one error. */
  lemma {:induction false} ImportCounts(plans: seq<MPlan>)
    ensures OkCount(plans) + |ErrorLines(plans)| == |plans|
    decreases |plans|
  {
    if plans != [] {
      ImportCounts(plans[..|plans| - 1]);
    }
  }

  /** A line is reported exactly when its row was rejected. */
  lemma {:induction false} ErrorLinesExact(plans: seq<MPlan>, line: nat)
    ensures line in ErrorLines(plans) <==> 2 <= line <= |plans| + 1 && plans[line - 2].MReject?
    decreases |plans|
  {
    if plans != [] {
      var init := plans[..|plans| - 1];
      ErrorLinesExact(init, line);
      if 2 <= line <= |plans| {
        assert plans[line - 2] == init[line - 2];
      }
    }
  }

  /** Errors come in row order. */
  lemma {:induction false} ErrorLinesAscend(plans: seq<MPlan>)
    ensures forall k, l :: 0 <= k < l < |ErrorLines(plans)| ==> ErrorLines(plans)[k] < ErrorLines(plans)[l]
    ensures forall k :: 0 <= k < |ErrorLines(plans)| ==> ErrorLines(plans)[k] <= |plans| + 1
    decreases |plans|
  {
    if plans != [] {
      ErrorLinesAscend(plans[..|plans| - 1]);
    }
  }

  /** The accepted rows naming `name`. */
  function Count(plans: seq<MPlan>, name: string): nat
    decreases |plans|
  {
    if plans == [] then 0
    else
      var p := plans[|plans| - 1];
      Count(plans[..|plans| - 1], name) + (if p.MAccept? && p.name == name then 1 else 0)
  }

  /** `impacto[name]` counts the accepted rows naming it, and only named questionnaires appear. */
  lemma {:induction false} ImpactCounts(plans: seq<MPlan>, name: string)
    ensures name in Impact(plans) <==> Count(plans, name) > 0
    ensures name in Impact(plans) ==> Impact(plans)[name] == Count(plans, name)
    decreases |plans|
  {
    if plans != [] {
      ImpactCounts(plans[..|plans| - 1], name);
    }
  }

  /** The sum of the values of a tally. */
  ghost function MapSum(m: map<string, nat>): nat
    decreases |m.Keys|
  {
    if m == map[] then 0
    else
      var k :| k in m;
      m[k] + MapSum(m - {k})
  }

  /** The sum does not depend on which key is taken out first. */
  lemma {:induction false} MapSumRemove(m: map<string, nat>, k: string)
    requires k in m
    ensures MapSum(m) == m[k] + MapSum(m - {k})
    decreases |m.Keys|
  {
    var j :| j in m && MapSum(m) == m[j] + MapSum(m - {j});
    if j != k {
      assert (m - {j}).Keys == m.Keys - {j};
      assert (m - {k}).Keys == m.Keys - {k};
      MapSumRemove(m - {j}, k);
      MapSumRemove(m - {k}, j);
      assert m - {j} - {k} == m - {k} - {j};
    }
  }

  /** Adding one to a key's count, or adding it with count one, adds one to the sum. */
  lemma MapSumIncrement(m: map<string, nat>, k: string)
    ensures MapSum(m[k := (if k in m then m[k] else 0) + 1]) == MapSum(m) + 1
  {
    var m1 := m[k := (if k in m then m[k] else 0) + 1];
    MapSumRemove(m1, k);
    if k in m {
      MapSumRemove(m, k);
      assert m1 - {k} == m - {k};
    } else {
      assert m1 - {k} == m;
    }
  }

  /** `ok == sum(impacto.values())`. */
  lemma {:induction false} ImpactSum(plans: seq<MPlan>)
    ensures MapSum(Impact(plans)) == OkCount(plans)
    decreases |plans|
  {
    if plans != [] {
      var init := plans[..|plans| - 1];
      ImpactSum(init);
      if plans[|plans| - 1].MAccept? {
        MapSumIncrement(Impact(init), plans[|plans| - 1].name);
      }
    }
  }

  /** Names of the accepted rows. */
  function AcceptedNames(plans: seq<MPlan>): set<string> {
    set i | 0 <= i < |plans| && plans[i].MAccept? :: plans[i].name
  }

  lemma AcceptedNamesSnoc(plans: seq<MPlan>, p: MPlan)
    ensures AcceptedNames(plans + [p]) == AcceptedNames(plans) + (if p.MAccept? then {p.name} else {})
  {
    var ps := plans + [p];
    assert forall i :: 0 <= i < |plans| ==> ps[i] == plans[i];
    assert ps[|plans|] == p;
  }

  /**
   * Only accepted rows reach `ensure_questionario`: the questionnaires are
   * exactly the old ones and the accepted names, and existing ids stay.
   */
  lemma {:induction false} ImportQuestionnaires(db: Db<MQuestion>, plans: seq<MPlan>)
    requires ValidDb(db)
    ensures var out := ApplyPlans(db, plans);
      && ValidDb(out)
      && out.names.Keys == db.names.Keys + AcceptedNames(plans)
      && forall n :: n in db.names ==> out.names[n] == db.names[n]
    decreases |plans|
  {
    hide ApplyPlan, Ensure, Insert;
    if plans != [] {
      var init := plans[..|plans| - 1];
      ImportQuestionnaires(db, init);
      var last := plans[|plans| - 1];
      ApplyPlanEffect(ApplyPlans(db, init), last);
      assert plans == init + [last];
      AcceptedNamesSnoc(init, last);
    }
  }

  /** One document per accepted row is appended after the existing ones, each of the imported form. */
  lemma {:induction false} ImportQuestions(db: Db<MQuestion>, plans: seq<MPlan>)
    requires forall i :: 0 <= i < |plans| ==> PlanOk(plans[i])
    ensures var out := ApplyPlans(db, plans);
      && |out.questions| == |db.questions| + OkCount(plans)
      && out.questions[..|db.questions|] == db.questions
      && forall k :: |db.questions| <= k < |out.questions| ==> Imported(out.questions[k])
    decreases |plans|
  {
    hide ApplyPlan, Ensure, Insert;
    if plans != [] {
      var init := plans[..|plans| - 1];
      ImportQuestions(db, init);
      var prev := ApplyPlans(db, init);
      var p := plans[|plans| - 1];
      ApplyPlanEffect(prev, p);
      if p.MAccept? {
        assert PlanOk(p);
        assert Imported(ToQuestion(Ensure(prev, p.name).1, p.draft));
      }
    }
  }

  /**
   * The report of the row loop: every data row counts once in `ok` or in
   * the errors, an error is reported on line `l` exactly when row `l` lacks
   * a questionnaire name or a text, and the tally adds up to `ok`, name by name.
   */
  lemma ImportReport(db: Db<MQuestion>, rows: seq<Row>)
    ensures var out := ImportRows(db, rows);
      && out.ok + |out.errors| == |rows|
      && (forall l: nat :: l in out.errors <==> 2 <= l <= |rows| + 1 && (ReadRow(rows[l - 2]).name == "" || ReadRow(rows[l - 2]).text == ""))
      && MapSum(out.impact) == out.ok
      && (forall n :: n in out.impact ==> out.impact[n] == Count(PlanRows(rows), n))
  {
    var plans := PlanRows(rows);
    var out := ImportRows(db, rows);
    assert out.ok == OkCount(plans) && out.errors == ErrorLines(plans) && out.impact == Impact(plans);
    hide *;
    ImportCounts(plans);
    ImpactSum(plans);
    RowErrors(rows, plans);
    forall n ensures n in out.impact ==> out.impact[n] == Count(plans, n) {
      ImpactCounts(plans, n);
    }
  }

  /** The error lines of the row plans are the lines of the rows lacking a name or a text. */
  lemma RowErrors(rows: seq<Row>, plans: seq<MPlan>)
    requires plans == PlanRows(rows)
    ensures forall l: nat :: l in ErrorLines(plans) <==> 2 <= l <= |rows| + 1 && (ReadRow(rows[l - 2]).name == "" || ReadRow(rows[l - 2]).text == "")
  {
    hide *;
    forall l: nat ensures l in ErrorLines(plans) <==> 2 <= l <= |rows| + 1 && (ReadRow(rows[l - 2]).name == "" || ReadRow(rows[l - 2]).text == "") {
      ErrorLinesExact(plans, l);
      if 2 <= l <= |rows| + 1 {
        PlanRowRejects(rows[l - 2]);
      }
    }
  }

  /** A row is rejected exactly when its name or its text is blank. */
  lemma PlanRowRejects(row: Row)
    ensures PlanRow(row).MReject? <==> ReadRow(row).name == "" || ReadRow(row).text == ""
  {
  }

  // ---------------------------------------------------------------------
  // The same loop on a store updated in place

  /** `ensure_questionario` of the MongoDB front end: the stripped name, as is. */
  method EnsureQuestionnaire(store: RecordStore<MQuestion>, name: string) returns (id: nat)
    requires store.Valid()
    modifies store
    ensures store.Valid()
    ensures (store.State(), id) == Ensure(old(store.State()), name)
  {
    id := store.EnsureQuestionnaire(name);
  }

  /** The store side of the loop body: the checks, `ensure_questionario`, `add_questao`. */
  method StoreRow(store: RecordStore<MQuestion>, row: Row) returns (accepted: bool, name: string)
    requires store.Valid()
    modifies store
    ensures store.Valid()
    ensures store.State() == ApplyPlan(old(store.State()), PlanRow(row))
    ensures accepted == PlanRow(row).MAccept?
    ensures accepted ==> name == PlanRow(row).name
    ensures !accepted ==> store.State() == old(store.State())
  {
    var f := ReadRow(row);
    if f.name == "" || f.text == "" {
      return false, "";
    }
    var id := EnsureQuestionnaire(store, f.name);
    var key := if f.tipo == "VF" then KBool(VfKey(f.key)) else KText(f.key);
    store.AddQuestion(MQuestion(id, f.tipo, f.text, ParseOptions(f.optionsRaw), key, f.explanation, ParseTags(f.tagsRaw)));
    accepted, name := true, f.name;
  }

  /** The loop body on the row on line `line`, counters included. */
  method ImportRow(store: RecordStore<MQuestion>, row: Row, line: nat, ok: nat, errors: seq<nat>, impact: map<string, nat>)
    returns (ok1: nat, errors1: seq<nat>, impact1: map<string, nat>)
    requires store.Valid()
    modifies store
    ensures store.Valid()
    ensures MOutcome(store.State(), ok1, errors1, impact1)
      == Step(MOutcome(old(store.State()), ok, errors, impact), line, PlanRow(row))
  {
    hide PlanRow, ApplyPlan;
    var accepted, name := StoreRow(store, row);
    if accepted {
      ok1, errors1 := ok + 1, errors;
      impact1 := impact[name := (if name in impact then impact[name] else 0) + 1];
    } else {
      ok1, errors1, impact1 := ok, errors + [line], impact;
    }
  }

  /** The row loop of `import_csv_to_db`, with `ok`, `erros` and `impacto`. */
  method ImportAll(store: RecordStore<MQuestion>, rows: seq<Row>)
    returns (ok: nat, errors: seq<nat>, impact: map<string, nat>)
    requires store.Valid()
    modifies store
    ensures store.Valid()
    ensures ImportRows(old(store.State()), rows) == MOutcome(store.State(), ok, errors, impact)
  {
    hide PlanRow;
    ghost var db0 := store.State();
    ghost var plans := PlanRows(rows);
    ok, errors, impact := 0, [], map[];
    var i := 0;
    while i < |rows|
      invariant 0 <= i <= |rows|
      invariant store.Valid()
      invariant ImportPlans(db0, plans[..i]) == MOutcome(store.State(), ok, errors, impact)
    {
      ghost var before := plans[..i];
      assert plans[..i + 1] == before + [plans[i]];
      PlansSnoc(db0, before, plans[i]);
      ok, errors, impact := ImportRow(store, rows[i], i + 2, ok, errors, impact);
      i := i + 1;
    }
    assert plans[..|rows|] == plans;
  }
}
