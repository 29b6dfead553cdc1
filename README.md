# Quiz ingestion and scoring, in Dafny

This project models the core of a study/quiz tool that has two Streamlit
front ends over different stores:

- `streamlit_app.py` keeps questionnaires, questions and answer events in
  SQLite.
- `streamlit_app_mongo.py` keeps questionnaires and questions in MongoDB.

The model covers three pieces of each front end:

1. **CSV row ingestion.** The per-row normalisation covers true/false
   tokens, option lists, the multiple-choice answer key, tags and the
   questionnaire name. The row-isolated import loop either adds one question
   and counts it, or reports `Linha i: …` with data rows numbered from 2.
   The MongoDB loop also keeps the per-questionnaire `impacto` tally.
2. **Answer evaluation.**
   - The SQLite front end compares `Verdadeiro`/`Falso` with the stored
     `V`/`F`, and compares the letter before `)` with the stored letter.
   - The MongoDB front end compares `V`/`F` with the truth of a stored
     boolean, and an option with an integer (1-based) or text key.
   - The SQLite answer log and the `desempenho_questionario` summary and
     percentage are modelled too.
3. **Session progression.**
   - The SQLite practice pool is a shuffled stack of question ids, popped
     on "Próxima questão", with one recorded answer per view.
   - The SQLite exam ("simulado") has a cursor, a score and a percentage.
   - The MongoDB practice pool is the reversed question list. Its three
     buttons move the `answered`/`correct` counters.

The module layout:

| Module | Contents |
|---|---|
| `Text` | The Python string operations the code relies on: `strip`, `lower`/`upper` (ASCII), and `split`/`join` on one character, a character set or a string. Each comes with its round-trip lemmas. |
| `CsvRow` | A `csv.DictReader` row as a map from column to cell. A short row's missing cells are `None`. |
| `Store` | The record store shared by both front ends: a map from questionnaire name to id, the next id, and the inserted questions. It exists as a value (`Db`) and as a class whose methods update it in place (`RecordStore`). |
| `SqliteImport`, `SqliteEval`, `SqliteSession` | The SQLite front end. |
| `MongoImport`, `MongoEval`, `MongoSession` | The MongoDB front end. |
| `Seqs` | Sequence reversal. |
| `Wrappers` | `Option` and `Result`. |

The model follows a common pattern for the import loops and the stateful
pages:

- **Import loops.** Each import loop is a `method` over a `RecordStore`. It
  is proved equal to a fold function (`ImportRows`). The lemmas about that
  fold state the loop's counting invariants.
- **Stateful pages.** The practice and exam pages are classes whose fields
  are the session-state entries the page reads and writes.

Two behaviours of the code are worth knowing when reading the model:

- **Rows are not atomic.** A SQLite row creates its questionnaire before
  its type, option and key checks run (`streamlit_app.py:277` vs 285-290).
  A rejected row can therefore still leave a new questionnaire behind
  (`SqliteImport.UnknownTypeStillEnsures`).
- **All answer events count.** Performance counts every answer event, not
  only the latest per question (`streamlit_app.py:164-169`).
  `SqliteEval.RepeatedAnswerCountsTwice` shows the effect.

## Model

| member | source | states |
|---|---|---|
| Text.Strip | streamlit_app.py:223 | `str.strip()`: the result has no leading or trailing whitespace and is no longer than the input |
| Text.StripSplits | streamlit_app.py:223 | the input is whitespace + `Strip(s)` + whitespace |
| Text.StripStripped | streamlit_app.py:229 | stripping a stripped string changes nothing |
| Text.StripIdempotent | streamlit_app.py:237 | `strip` is idempotent |
| Text.StripPadding | streamlit_app.py:231 | stripping whitespace-padded stripped text gives the text back |
| Text.Lower | streamlit_app.py:223 | ASCII `lower()`: maps each character on its own (A-Z to a-z, all else kept) and keeps the length |
| Text.Upper | streamlit_app.py:114 | ASCII `upper()`: maps each character on its own (a-z to A-Z, all else kept) and keeps the length |
| Text.LowerOfUpper | streamlit_app.py:120 | under the ASCII mapping, lowercasing an uppercased string equals lowercasing the original |
| Text.StripUpperPadded | streamlit_app.py:114 | `upper().strip()` of a padded token is the uppercased token |
| Text.SplitChars | streamlit_app_mongo.py:204 | splitting on a set of separator characters yields at least one part, none holding a separator |
| Text.JoinSplitChar | streamlit_app.py:231 | joining the parts of `s.split(c)` with `c` gives `s` back |
| Text.SplitJoinChar | streamlit_app.py:231 | splitting a join of separator-free parts gives the parts back |
| Text.SplitJoinSeps | streamlit_app_mongo.py:204 | splitting on a character set a join of separator-free parts, each joined by any separator of the set, gives the parts back |
| Text.SplitCharsPrepend | streamlit_app.py:231 | separator-free text in front of a split lengthens its first part only |
| Text.SplitCharsAppend | streamlit_app.py:231 | separator-free text after a split lengthens its last part only |
| Text.StripAround | streamlit_app.py:231 | whitespace around any text is removed with the text's own padding |
| Text.StripBeforeSplit | streamlit_app.py:229-231 | stripping a text before splitting it on non-whitespace separators gives the same number of parts, each equal to the original part once stripped |
| Text.StripKeepsChar | streamlit_app.py:230 | a non-whitespace character is in the stripped text exactly when it is in the text |
| Text.SplitStr | streamlit_app_mongo.py:200 | `s.split(sep)` for a non-empty string separator: at least one part, the first part is a prefix of `s` with no occurrence of `sep` starting inside it (the leftmost cut), and no part contains `sep` |
| Text.SplitStrCuts | streamlit_app_mongo.py:200 | `s.split(sep)` cuts at the leftmost occurrence: one part means the part is `s` itself; otherwise `sep` occurs right after the first part and the other parts are the split of the text after that occurrence |
| Text.SplitStrAtSeparator | streamlit_app_mongo.py:200 | text starting with `sep` splits into an empty first part followed by the split of the rest |
| Text.JoinSplitStr | streamlit_app_mongo.py:200 | joining the parts of `s.split(sep)` with `sep` gives `s` back |
| Text.SplitJoinStr | streamlit_app_mongo.py:200 | splitting a `sep`-join of parts free of `sep[0]` gives the parts back |
| CsvRow.GetOr | streamlit_app.py:268-272 | `row.get(col, default)`: a missing column reads as the default |
| CsvRow.Get | streamlit_app_mongo.py:196-204 | `row.get(col)`, no contract of its own: `None` for an absent column; characterised through `FirstOf` |
| CsvRow.Truthy | streamlit_app_mongo.py:196-204 | Python truthiness of a cell (`None` and `""` are false), no contract of its own; the `or` chains it drives are characterised by `FirstOf` |
| CsvRow.StrOf | streamlit_app.py:268 | `str(v)` of a cell (`None` reads `None`), no contract of its own; it is the `str(row.get("tipo",""))` inside `ReadFields`, whose contract and `Classify`'s decide what the type does |
| CsvRow.FirstOf | streamlit_app_mongo.py:196-204 | `row.get(a) or row.get(b) or default`: the default when no spelling holds a non-empty cell, and otherwise the cell of the first spelling that holds one |
| Seqs.Reverse | streamlit_app_mongo.py:343 | `reversed(qs)` keeps the length and mirrors the indices |
| Seqs.ReverseReverse | streamlit_app_mongo.py:343 | reversing twice is the identity |
| Seqs.ReverseMultiset | streamlit_app_mongo.py:343 | reversal keeps the same elements |
| Store.EmptyDb | streamlit_app.py:29-76 | the tables `init_db` creates, before its seed: a valid store with no questionnaire and no question |
| Store.InitDb | streamlit_app.py:29-76 | after `init_db` (seed at lines 72-74) the store is valid, holds no question and exactly one questionnaire, `Favoritos`; the import lemmas hold for any valid start store, this one included |
| Store.Ensure | streamlit_app.py:236-242 | `ensure_questionario`: the name is then present with the returned id, existing ids are kept, an existing name leaves the store unchanged, and a new name gets an id no other questionnaire has |
| Store.Insert | streamlit_app.py:102-110 | an insert appends exactly the one question and changes nothing else |
| Store.EnsureIdempotent | streamlit_app_mongo.py:137-144 | ensuring a name twice is the same as ensuring it once |
| Store.EnsureDistinct | streamlit_app_mongo.py:137-144 | two different names get two different ids |
| Store.RecordStore.constructor | streamlit_app.py:29-76 | a new store is valid and holds the empty store of `init_db` before its seed; the `Favoritos` seed is one `EnsureQuestionnaire` call on it |
| Store.RecordStore.EnsureQuestionnaire | streamlit_app_mongo.py:137-144 | the in-place store update matches `Ensure` |
| Store.RecordStore.AddQuestion | streamlit_app_mongo.py:146-160 | the in-place store update matches `Insert` |
| SqliteImport.NormalizeBool | streamlit_app.py:220-224 | `normalize_bool`: a bool is itself, an int is true iff non-zero, `None` is false; text is characterised by `NormalizeBoolText` |
| SqliteImport.NoneIsNotTrue | streamlit_app.py:223-224 | `str(None)` stripped and lowercased, `none`, is not a true token |
| SqliteImport.NormalizeBoolNonText | streamlit_app.py:220-222 | a bool or an int becomes `bool(val)` |
| SqliteImport.NormalizeBoolText | streamlit_app.py:223-224 | any other value is true iff its stripped lowercase text is one of `v, true, t, 1, sim, s, verdadeiro` |
| SqliteImport.TokenIsStripped | streamlit_app.py:223-224 | every token that lowercases into the true set is already stripped |
| SqliteImport.NormalizeBoolStoredKey | streamlit_app.py:103-109 | the stored `V`/`F` normalises back to the truth it was stored from |
| SqliteImport.NonBlank | streamlit_app.py:231 | the comprehension yields only stripped, non-empty parts, no more than it was given |
| SqliteImport.NonBlankSingle | streamlit_app.py:231 | one piece is kept, stripped, exactly when it is not blank |
| SqliteImport.NonBlankAppend | streamlit_app.py:231 | filtering a concatenation filters each half, in order; with `NonBlankSingle` this says every non-blank piece is kept, stripped, in order, and nothing else |
| SqliteImport.NonBlankSameStrips | streamlit_app.py:231 | pieces that strip to the same texts one by one give the same result |
| SqliteImport.OptionSeparator | streamlit_app.py:230 | the separator is `;` or the vertical bar, and `;` exactly when the text holds a `;` |
| SqliteImport.SeparatorNotSpace | streamlit_app.py:230 | neither separator is whitespace, so stripping cannot remove one |
| SqliteImport.ParseOptions | streamlit_app.py:226-234 | `parse_alternativas`: `None` gives `[]`, and otherwise at most 5 stripped, non-empty options |
| SqliteImport.NonBlankKeepsClean | streamlit_app.py:231 | parts that are already stripped and non-empty are all kept |
| SqliteImport.FirstFive | streamlit_app.py:232-233 | `[:5]`: the first five elements, or all when there are fewer |
| SqliteImport.ParseOptionsUnstripped | streamlit_app.py:226-234 | for any text, the options are the first five non-blank stripped pieces of the unstripped text cut at `;` when it holds one and at the vertical bar otherwise |
| SqliteImport.ParseOptionsJoined | streamlit_app.py:226-234 | any pieces, padded or blank, joined by `;` (two or more) or by a vertical bar (and free of `;`) parse to the first five non-blank pieces, stripped, in order |
| SqliteImport.ParseOptionsSpaced | streamlit_app.py:226-234 | options written with a space after each `;`, as in `Paris; Londres; Roma`, come back without the spaces |
| SqliteImport.SpacedJoin | streamlit_app.py:230-231 | `x; y; z` is the `;`-join of `x`, ` y` and ` z` |
| SqliteImport.SpacedPieces | streamlit_app.py:231 | of the pieces `x`, ` y`, ` z` of clean options none is blank and each strips to its option |
| SqliteImport.NonBlankAllKept | streamlit_app.py:231 | three pieces none of which is blank are all kept, stripped, in order |
| SqliteImport.ParseOptionsEmptySlot | streamlit_app.py:226-234 | an empty slot between two `;`, as in `a;;b`, is dropped |
| SqliteImport.ParseOptionsRoundTrip | streamlit_app.py:226-234 | parsing options joined by `;` (or by a vertical bar when no option holds `;`) gives them back, cut to the first 5 |
| SqliteImport.JoinedOptionsText | streamlit_app.py:229-230 | joined clean options are already stripped, and the separator test picks the separator used |
| SqliteImport.NormalizeName | streamlit_app.py:237 | the questionnaire name is stripped and never empty (`Sem Título` for a blank one) |
| SqliteImport.NormalizeNameIdempotent | streamlit_app.py:237 | normalising a normalised name changes nothing |
| SqliteImport.OptionKeys | streamlit_app.py:120 | each option's comparison key is its stripped lowercase text |
| SqliteImport.FirstIndex | streamlit_app.py:117-122 | the found index holds the target and no earlier one does; none means no entry matches |
| SqliteImport.FirstIndexAt | streamlit_app.py:117-122 | the first match is at `k` when `k` matches and nothing before it does |
| SqliteImport.AnswerKeyOf | streamlit_app.py:114-125 | the resolved key is always a letter among the first `len(alternativas)` of `ABCDE`, and the only error is the invalid-key one |
| SqliteImport.FindOption | streamlit_app.py:116-122 | the search loop with `break` finds the first option whose stripped lowercase text equals the key |
| SqliteImport.ResolveAnswerKey | streamlit_app.py:114-125 | the imperative key resolution agrees with `AnswerKeyOf` |
| SqliteImport.AnswerKeyLetterWins | streamlit_app.py:114-115 | a padded in-range letter, in either case, is kept as the key |
| SqliteImport.AnswerKeyByText | streamlit_app.py:116-125 | otherwise the key is the letter of the first option equal to it, ignoring ASCII case and surrounding whitespace |
| SqliteImport.StripOfUpper | streamlit_app.py:114-120 | under the ASCII case mapping, comparing after `upper().strip()` then `strip().lower()` is comparing `strip().lower()` of the original |
| SqliteImport.AnswerKeyUnresolved | streamlit_app.py:123-124 | with no in-range letter and no matching option, resolution fails |
| SqliteImport.PadOptions | streamlit_app.py:113 | options are padded with `None` to exactly 5 slots, in order |
| SqliteImport.VfQuestion | streamlit_app.py:102-110 | the record `add_questao_vf` inserts is well formed, and its stored `V`/`F` normalises back to `normalize_bool(correta)` |
| SqliteImport.McQuestion | streamlit_app.py:112-134 | the record `add_questao_mc` inserts for a resolved letter, no contract of its own; characterised by `AddQuestionMc` and `DraftWellFormed` |
| SqliteImport.ReadFields | streamlit_app.py:268-272 | a missing `questionario`, `texto` or `correta` cell rejects the row; otherwise the name is normalised and the text and key are stripped |
| SqliteImport.Classify | streamlit_app.py:274-290 | blank text rejects; `VF` accepts with the normalised truth; `MC` accepts iff it has at least 2 options and a resolvable key, else rejects for the first failing check; any other type rejects after the questionnaire was ensured |
| SqliteImport.PlanRow | streamlit_app.py:266-292 | every row's plan is consistent (options within 5 slots, key a valid letter) |
| SqliteImport.ApplyPlanEffect | streamlit_app.py:277-290 | an early rejection leaves the store alone; any other row ensures its questionnaire and keeps existing ids; only an accepted row appends one question |
| SqliteImport.ApplyPlan | streamlit_app.py:277-290 | the store effect of one row's plan, no contract of its own; characterised by `ApplyPlanEffect` |
| SqliteImport.Errors | streamlit_app.py:292 | the `erros` list, no contract of its own; characterised by `ErrorsReportRejections`, `RejectionsReported`, `ErrorLinesAscend` and `ImportCounts` |
| SqliteImport.ImportPlans | streamlit_app.py:265-294 | store, `ok` and `erros` after the row loop over given plans, no contract of its own; characterised by `ImportCounts`, `ImportQuestionnaires` and `ImportQuestions` |
| SqliteImport.Step | streamlit_app.py:266-292 | one loop iteration on store, `ok` and `erros`, no contract of its own; `PlansSnoc` proves the loop is these steps in row order |
| SqliteImport.ImportRows | streamlit_app.py:265-294 | the row loop of `import_csv_to_db` as a fold, no contract of its own; `ImportAll` and `ImportCsv` are proved equal to it, and `ImportCounts`, `ErrorsReportRejections`, `RejectionsReported` characterise it |
| SqliteImport.PlanRows | streamlit_app.py:266 | one plan per data row, in order |
| SqliteImport.PlansSnoc | streamlit_app.py:266-292 | importing one more row is one loop step on the outcome so far, numbered `Linha |rows|+2` |
| SqliteImport.ImportCounts | streamlit_app.py:265-294 | accepted rows plus reported errors equal the number of data rows |
| SqliteImport.ErrorsReportRejections | streamlit_app.py:291-292 | every error names a rejected row, with its own reason, at line index + 2 |
| SqliteImport.ErrorLinesAscend | streamlit_app.py:266-292 | error lines are strictly ascending |
| SqliteImport.RejectionsReported | streamlit_app.py:289-292 | every rejected row has an error on its line |
| SqliteImport.ImportQuestionnaires | streamlit_app.py:277 | after an import, the questionnaires are the old ones plus the name of every row that reached `ensure_questionario`, with old ids unchanged |
| SqliteImport.ImportQuestions | streamlit_app.py:279-288 | the import appends one well-formed question per accepted row after the old ones |
| SqliteImport.DraftWellFormed | streamlit_app.py:112-133 | a stored question has 5 option slots, a `V`/`F` key for true/false and an in-range letter over non-empty options for multiple choice |
| SqliteImport.BlankTextCreatesNothing | streamlit_app.py:274-275 | a blank text rejects the row before anything is stored |
| SqliteImport.UnknownTypeStillEnsures | streamlit_app.py:277-290 | a row of unknown type is rejected but still creates its questionnaire |
| SqliteImport.BlankNameIsUntitled | streamlit_app.py:269 | a blank questionnaire name becomes `Sem Título` |
| SqliteImport.ImportCsv | streamlit_app.py:259-263 | no header, or a header missing any of `tipo, questionario, texto, correta`, fails the whole import, naming exactly the missing columns, before any row; otherwise the rows are folded |
| SqliteImport.EnsureQuestionnaire | streamlit_app.py:236-242 | the store update and the returned id are those of `Ensure` on the normalised name |
| SqliteImport.AddQuestionVf | streamlit_app.py:102-110 | appends a true/false question storing `V` iff `normalize_bool(correta)` |
| SqliteImport.AddQuestionMc | streamlit_app.py:112-134 | appends the padded question with the resolved letter, or leaves the store unchanged and reports the invalid key |
| SqliteImport.ImportFields | streamlit_app.py:268-290 | the store update and error of one row's checks match `Classify` |
| SqliteImport.ImportRow | streamlit_app.py:266-292 | one row's store update and error match its plan |
| SqliteImport.ImportStep | streamlit_app.py:266-292 | one iteration updates store, `ok` and `erros` as one fold step |
| SqliteImport.ImportAll | streamlit_app.py:265-294 | the row loop ends with the store, `ok` and `erros` of the fold over all rows |
| SqliteImport.ImportCsvToDb | streamlit_app.py:244-294 | `import_csv_to_db`: a bad header changes nothing; otherwise the result is the fold's |
| SqliteEval.OfferedFrom | streamlit_app.py:369-371 | the offered choices are the non-empty option slots, each with its own index, in ascending order |
| SqliteEval.OfferedFromComplete | streamlit_app.py:371 | every non-empty option slot is offered |
| SqliteEval.Offered | streamlit_app.py:369-371 | `opts`: the non-empty slots of `op_a`…`op_e`, each with its own index and text, in ascending index order, and every non-empty slot among them |
| SqliteEval.OfferedAll | streamlit_app.py:371 | every non-empty slot of the five is offered |
| SqliteEval.Label | streamlit_app.py:372 | `f"{letra}) {alt}"`: the slot's letter, `) `, then the option text, three characters longer than the text |
| SqliteEval.Labels | streamlit_app.py:372 | one label per offered option, the `k`-th being `Label` of the `k`-th offered option, so `X) text` |
| SqliteEval.ChosenLetter | streamlit_app.py:376 | `escolha.split(")")[0]`: the part before the first `)` holds no `)`, and a label whose second character is its first `)` gives its first character |
| SqliteEval.LabelLetter | streamlit_app.py:371-376 | the letter read back from a label is the letter of its slot |
| SqliteEval.EvalVf | streamlit_app.py:362-364 | choosing `Verdadeiro` is right iff the stored key is `V`; choosing `Falso` is right iff it is not |
| SqliteEval.EvalMc | streamlit_app.py:375-379 | a right label has no `)` in the stored key; a label whose second character is its first `)` is right iff the key is its first character |
| SqliteEval.Judge | streamlit_app.py:357-382 | a judgement is made exactly when the radio holds a non-empty value |
| SqliteEval.VfJudgedAgainstImport | streamlit_app.py:362-364 | a true/false answer is right iff choosing `Verdadeiro` agrees with the imported truth |
| SqliteEval.McJudgedByKey | streamlit_app.py:376-379 | a multiple-choice label is right iff its slot's letter is the stored key |
| SqliteEval.McSomeRight | streamlit_app.py:369-379 | a well-formed question offers a label that is judged right |
| SqliteEval.McRightUnique | streamlit_app.py:369-379 | no two offered labels are both judged right |
| SqliteEval.McExactlyOneRight | streamlit_app.py:369-379 | exactly one offered label is judged right |
| SqliteEval.Total | streamlit_app.py:164-171 | the number of the questionnaire's answer events never exceeds the log |
| SqliteEval.Hits | streamlit_app.py:165-172 | the right answers never exceed the answers |
| SqliteEval.Percentage | streamlit_app.py:173 | `0.0` with no answers, else `hits/total*100` exactly, and within [0, 100] when hits ≤ total |
| SqliteEval.Performance | streamlit_app.py:161-174 | the summary has hits ≤ total and a percentage in [0, 100] |
| SqliteEval.SaveCounts | streamlit_app.py:154-158 | saving an answer adds one to its questionnaire's total, and one hit when it is right |
| SqliteEval.RepeatedAnswerCountsTwice | streamlit_app.py:164-169 | the same answer saved twice counts twice |
| SqliteEval.AnswerLog.constructor | streamlit_app.py:154-159 | the log starts empty |
| SqliteEval.AnswerLog.Save | streamlit_app.py:154-159 | `save_resposta` appends the event, adding one to the total and one hit when right |
| SqliteEval.AnswerLog.Summary | streamlit_app.py:161-174 | hits ≤ total ≤ events, percentage in [0, 100] |
| SqliteSession.QuestionIds | streamlit_app.py:136-140 | `get_questoes` lists exactly the questionnaire's question ids, in ascending id order |
| SqliteSession.ServedFromTheEnd | streamlit_app.py:441-456 | the served ids are the deck's tail reversed, and pool plus served is the deck |
| SqliteSession.PopKeepsDeck | streamlit_app.py:454-456 | popping the pool's last id onto the served ids keeps the deck |
| SqliteSession.ExhaustedServesAll | streamlit_app.py:428 | an empty pool means every id of the deck was served, each once |
| SqliteSession.PracticePool.constructor | streamlit_app.py:422-425 | the pool starts as a shuffle of the questionnaire's ids, nothing served |
| SqliteSession.PracticePool.Current | streamlit_app.py:441 | the current question is `pool[-1]`; none iff the pool is empty |
| SqliteSession.PracticePool.Render | streamlit_app.py:349-382 | the first judged view records one answer event for `pool[-1]`; later views of the same question record nothing; the pool is untouched |
| SqliteSession.PracticePool.Next | streamlit_app.py:454-460 | "Próxima questão" pops exactly `pool[-1]` onto the served ids and clears the answered flag |
| SqliteSession.PracticePool.Restart | streamlit_app.py:428-437 | "Reiniciar" on an empty pool deals a fresh shuffle of the questionnaire's ids |
| SqliteSession.ExamRerunAsWritten | streamlit_app.py:560-621 | the exam page as written: the score never decreases while the exam runs |
| SqliteSession.ExamDoubleCount | streamlit_app.py:606-609 | as written, one right answer followed by "Próxima" ends a one-question exam at 2 hits, 200 percent |
| SqliteSession.ExamRerun | streamlit_app.py:606-617 | corrected exam step: "Próxima" moves the cursor by one, and a finished exam is left unchanged |
| SqliteSession.ExamRerunKeeps | streamlit_app.py:560-621 | each run keeps the exam invariant, with cursor and score each monotone and rising by at most one |
| SqliteSession.FinishedExamBounded | streamlit_app.py:566-569 | a finished exam has at most one hit per question and a percentage in [0, 100] |
| SqliteSession.IsSample | streamlit_app.py:142-152 | a predicate with no contract of its own: what `get_random_questoes` returns, at most `n` questions of the chosen questionnaires; the exam constructor requires it of the sample it is given |
| SqliteSession.ExamSession.constructor | streamlit_app.py:551-555 | the exam starts on a sample of the chosen questionnaires with cursor and score at 0 |
| SqliteSession.ExamSession.Finished | streamlit_app.py:566 | the exam is finished iff `idx >= len(pool)` |
| SqliteSession.ExamSession.Rerun | streamlit_app.py:576-621 | one run judges `pool[idx]` and advances the state as `ExamRerun`, keeping the invariant |
| SqliteSession.ExamSession.Score | streamlit_app.py:566-569 | the end screen shows hits ≤ `len(pool)` and a percentage in [0, 100] |
| MongoImport.StripAll | streamlit_app_mongo.py:200 | each part is stripped, one per piece |
| MongoImport.ParseOptions | streamlit_app_mongo.py:199-200 | an empty cell gives `[]`, and otherwise the parts between double vertical bars, stripped, with empty parts kept |
| MongoImport.OptionsRoundTrip | streamlit_app_mongo.py:199-200 | options joined with double vertical bars parse back to themselves |
| MongoImport.OptionsJoined | streamlit_app_mongo.py:199-200 | any pieces free of vertical bars, padded or blank, joined with double vertical bars, parse to the pieces stripped one by one, and to `[]` when the joined text is empty |
| MongoImport.OptionsTripleBar | streamlit_app_mongo.py:199-200 | a run of three vertical bars is cut at its first two, the third staying at the front of the next option |
| MongoImport.ParseTags | streamlit_app_mongo.py:203-204 | a blank cell gives `[]`, and otherwise the stripped `;`/`,`-separated tags |
| MongoImport.TagsRoundTrip | streamlit_app_mongo.py:203-204 | tags joined with `;` or `,` parse back to themselves |
| MongoImport.TagsJoined | streamlit_app_mongo.py:203-204 | any pieces free of `;` and `,`, padded or blank, joined by any mix of the two, parse to the pieces stripped one by one, and to `[]` when the joined text is blank |
| MongoImport.TagsMixedSeparators | streamlit_app_mongo.py:203-204 | `x; y,z` gives the three tags, stripped |
| MongoImport.TagsEmptySlot | streamlit_app_mongo.py:203-204 | `x;;y` keeps an empty tag between the two |
| MongoImport.VfKey | streamlit_app_mongo.py:211-212 | a predicate with no contract of its own (`strip().upper()` in the five tokens); characterised by `VfKeyAgreesWithSqlite`, `SimIsSqliteOnly` and `MongoEval.VfAgainstImport` |
| MongoImport.PlanRowRejects | streamlit_app_mongo.py:206-207 | a row is rejected iff its name or its text is blank |
| MongoImport.RowErrors | streamlit_app_mongo.py:206-220 | the error lines are exactly the data lines whose row lacks a name or a text |
| MongoImport.VfKeyAgreesWithSqlite | streamlit_app_mongo.py:211-212 | every key that the MongoDB importer reads as true, the SQLite importer reads as true too |
| MongoImport.SimIsSqliteOnly | streamlit_app_mongo.py:212 | the converse fails: `sim` is true for the SQLite importer only |
| MongoImport.ReadRow | streamlit_app_mongo.py:196-204 | name, text, key, explanation and tags cell come out stripped; the options cell is kept as read, the first non-empty of `alternativas` and `Alternativas` (else empty) |
| MongoImport.TipoDefaultsToVf | streamlit_app_mongo.py:197 | a row without a type cell is a true/false row |
| MongoImport.Classify | streamlit_app_mongo.py:206-214 | a row is rejected iff its name or text is blank; a `VF` row stores the boolean from the token set, and any other type stores its key text unchanged |
| MongoImport.PlanRow | streamlit_app_mongo.py:195-214 | every row's plan is consistent with what the store keeps |
| MongoImport.ApplyPlanEffect | streamlit_app_mongo.py:206-216 | a rejected row leaves the store alone; an accepted row ensures its questionnaire and appends one question under that id |
| MongoImport.ApplyPlan | streamlit_app_mongo.py:209-216 | the store effect of one row's plan, no contract of its own; characterised by `ApplyPlanEffect` |
| MongoImport.PlanRows | streamlit_app_mongo.py:194 | one plan per data row, in order |
| MongoImport.OkCount | streamlit_app_mongo.py:217 | `ok` never exceeds the number of rows |
| MongoImport.PlansSnoc | streamlit_app_mongo.py:194-220 | importing one more row is one loop step on the outcome so far |
| MongoImport.Step | streamlit_app_mongo.py:195-220 | one loop iteration on store, `ok`, `erros` and `impacto`, no contract of its own; `PlansSnoc` proves the loop is these steps in row order |
| MongoImport.ErrorLines | streamlit_app_mongo.py:220 | the line numbers of `erros`, no contract of its own; characterised by `ErrorLinesExact` and `ErrorLinesAscend` |
| MongoImport.Impact | streamlit_app_mongo.py:218 | the `impacto` tally, no contract of its own; characterised by `ImpactCounts` and `ImpactSum` |
| MongoImport.ImportRows | streamlit_app_mongo.py:190-222 | the row loop of `import_csv_to_db` as a fold, no contract of its own; `ImportAll` is proved equal to it, and `ImportReport` and `ImportCounts` characterise it |
| MongoImport.ImportCounts | streamlit_app_mongo.py:190-222 | `ok + len(erros)` equals the number of data rows |
| MongoImport.ErrorLinesExact | streamlit_app_mongo.py:206-220 | line `i` is reported iff it is a data line (from 2) whose row was rejected |
| MongoImport.ErrorLinesAscend | streamlit_app_mongo.py:194-220 | error lines are strictly ascending and within the file |
| MongoImport.ImpactCounts | streamlit_app_mongo.py:218 | `impacto[name]` is present iff some row for that name was stored, and then counts those rows |
| MongoImport.MapSumRemove | streamlit_app_mongo.py:218 | the sum of a tally is one entry plus the sum of the rest |
| MongoImport.MapSumIncrement | streamlit_app_mongo.py:218 | `impacto[q] = impacto.get(q, 0) + 1` raises the tally's sum by one |
| MongoImport.ImpactSum | streamlit_app_mongo.py:217-218 | `ok == sum(impacto.values())` |
| MongoImport.ImportQuestionnaires | streamlit_app_mongo.py:209 | after an import, the questionnaires are the old ones plus the name of every accepted row, with old ids kept |
| MongoImport.ImportQuestions | streamlit_app_mongo.py:216 | the import appends exactly one imported question per accepted row after the old ones |
| MongoImport.ImportReport | streamlit_app_mongo.py:167-222 | `import_csv_to_db` reports `ok + len(erros)` = rows, an error on exactly the lines with a blank name or text, `sum(impacto) == ok`, and `impacto[n]` = the rows stored for `n` |
| MongoImport.EnsureQuestionnaire | streamlit_app_mongo.py:137-144 | the store update and returned id are those of `Ensure` |
| MongoImport.StoreRow | streamlit_app_mongo.py:196-216 | one row's store update is its plan's; a rejected row changes nothing |
| MongoImport.ImportRow | streamlit_app_mongo.py:195-220 | one iteration updates the store, `ok`, `erros` and `impacto` as one fold step |
| MongoImport.ImportAll | streamlit_app_mongo.py:190-222 | the row loop ends with the store, `ok`, `erros` and `impacto` of the fold over all rows |
| MongoEval.KeyTruthy | streamlit_app_mongo.py:235 | a predicate with no contract of its own (Python truthiness of the stored key); characterised by `VfExpected` and `VfOneRight` |
| MongoEval.EvalVf | streamlit_app_mongo.py:233-237 | no selection is never right; `V` is right iff the stored key is truthy, `F` iff it is not |
| MongoEval.VfExpected | streamlit_app_mongo.py:235 | the expected letter is `V` iff the stored key is truthy, else `F` |
| MongoEval.VfOneRight | streamlit_app_mongo.py:234-237 | exactly one of `V`/`F` is right, and no selection is never right |
| MongoEval.VfAgainstImport | streamlit_app_mongo.py:211-212 | an imported true/false question is right on `V` iff its key token reads as true |
| MongoEval.EvalMc | streamlit_app_mongo.py:241-251 | "Confirmar" fails exactly when no option is chosen under a key that is neither an int nor a bool |
| MongoEval.McIndexKey | streamlit_app_mongo.py:248-249 | with an int key, the option at exactly that 1-based position is right |
| MongoEval.McTextKey | streamlit_app_mongo.py:250-251 | with a text key, an option is right iff its stripped text equals the stripped key |
| MongoEval.KeyText | streamlit_app_mongo.py:251 | `str(gab)` of a key that is neither an int nor a bool, no contract of its own; characterised by `McTextKey` and `NumericCsvKeyIsText` |
| MongoEval.NumericCsvKeyIsText | streamlit_app_mongo.py:201 | a numeric key read from a CSV is text: key `2` over options `a`, `b` makes the second option wrong |
| MongoEval.Confirm | streamlit_app_mongo.py:233-251 | a true/false question never fails and is right iff the selection is the expected letter |
| MongoEval.ImportedJudgedByText | streamlit_app_mongo.py:245-251 | an imported multiple-choice question is right iff the chosen option's text equals its key |
| MongoSession.Practice.constructor | streamlit_app_mongo.py:340-345 | the pool starts as the reversed question list, with both counters at 0 |
| MongoSession.Practice.Current | streamlit_app_mongo.py:361 | `pool[-1]` is the next question in list order |
| MongoSession.Practice.Press | streamlit_app_mongo.py:365-380 | every button pops exactly one question; "Pular" moves no counter, "Errei" adds 1 to answered, "Acertei" adds 1 to both; `correct ≤ answered ≤` questions shown |
| MongoSession.Practice.Exhausted | streamlit_app_mongo.py:347-353 | at the end screen every question was shown once and `correct ≤ answered ≤` the list size |
| MongoSession.PopTail | streamlit_app_mongo.py:368 | popping the reversed unseen tail leaves the reversed tail one further on and yields the next question |

## Left out

- Streamlit itself is not modelled: rendering, widgets and `st.session_state`
  key bookkeeping. A rerun is a method call, and the session-state entries
  a page uses are class fields.
  - The radio's value is a parameter.
  - In the SQLite pages the radio's default (the first entry) is whatever
    the caller passes.
- The SQLite and MongoDB drivers are not modelled. `get_conn`, `init_db`,
  `get_client`, connection status, and the SQL and Mongo queries are
  replaced by the `Store` value and class.
  - Questionnaire ids come from a counter, not from SQLite row ids or
    Mongo ObjectIds.
  - Ids are compared as they are. Mongo's `str(ObjectId)` round trip is not
    modelled.
- CSV decoding is not modelled. The models take rows that are already split
  into cells. Left out are:
  - `csv.Sniffer` delimiter detection, `DictReader` quoting, and UTF-8/Latin-1
    decoding;
  - the `except Exception` fallback delimiter;
  - the MongoDB version's `errors="ignore"` decoding.
  - The SQLite header check takes the header as an option (`None` for an
    empty file).
- Randomness is not modelled. `random.shuffle` is a caller-supplied
  permutation of the ids (the constructor and `Restart` require equal
  multisets). `ORDER BY RANDOM() LIMIT n` is a caller-supplied list of at most
  `n` rows of the chosen questionnaires (`IsSample`). That the rows are
  distinct is not stated.
- Caching is not modelled: `st.cache_data`, `st.cache_resource` and
  `_invalidate_lists`.
- Timestamps (`created_at`) and the one-decimal formatting of percentages
  are not modelled. Percentages are exact reals, and the error text
  `Linha i: <message>` is the line number with a reason constructor.
- The MongoDB importer can also fail on a database error. Only the blank
  name/text rejection is modelled, since the store operations are total.
- The SQLite `ValueError` raised for missing columns is modelled as
  `Err(MissingColumns(missing))`. The order of the column list in its
  message is not modelled.
- Pages and operations outside the core are not modelled:
  - the dashboard and management pages;
  - questionnaire deletion;
  - "Favoritos" duplication;
  - the MongoDB "Salvar explicação" editor;
  - the `numero_q`/`Q{id}` headings;
  - the exam's "Voltar aos simulados" button;
  - the MongoDB end screen's recomputed `len(get_questoes(qid))` total (the
    model uses the list the pool was built from);
  - the MongoDB page's clearing of other questionnaires' keys on a switch.
- SqliteSession.PracticePool.Render: the per-view flag follows
  `answered_{qid}` for the question on screen only. Flags of other
  questions, which the page keeps until "Próxima questão" or "Reiniciar"
  removes them, are not modelled.
- SqliteSession.IsSample: the exam's `n` is taken as given. The
  `number_input` bounds on it are widget behaviour.

- Text.Lower, Text.Upper: case mapping covers ASCII letters only. Python's
  `lower()`/`upper()` also map other letters (`"É".lower() == "é"`) and
  can change the length (`"ß".upper() == "SS"`). The model leaves every
  non-ASCII character as it is.
- Text.LowerOfUpper: proved for the ASCII mapping only. It fails for
  Python's full mapping: `"ß".upper().lower() == "ss"` and
  `"ı".upper().lower() == "i"`.
- SqliteImport.StripOfUpper: rests on `Text.LowerOfUpper`, so it is stated
  for the ASCII mapping only.
- SqliteImport.AnswerKeyByText: option texts are matched ignoring ASCII
  case only. Letters outside ASCII compare case-sensitively, so options
  `["PORTUGUÊS", "Inglês"]` with key `"português"` are rejected as
  `BadAnswerKey`, where the code resolves `"A"`.
- MongoImport.VfKey: the key is upper-cased with the ASCII mapping. Python
  upper-cases `"ı"` to `"I"`, so `"verdadeıro"` is a true key to the code
  and not to the model.
- MongoImport.VfKeyAgreesWithSqlite: holds for the ASCII mapping only. With
  Python's mapping, `"verdadeıro"` is true to the MongoDB importer and false
  to the SQLite one.

## Findings

| source | as written | input that shows it | evidently intended | confidence | as-written member | corrected member |
|---|---|---|---|---|---|---|
| streamlit_app.py:606-609 | every run of `page_run_simulado` sets `simulado_acertos` to the value read at the top plus one while the flags of the question on screen say "answered right", including the run in which "Próxima" is pressed and any other rerun | an exam of one question answered right, then "Próxima": the end screen shows 2/1 (200.0%) | one hit per question answered right, so the score is at most the pool size and the percentage within [0, 100] | not executed | SqliteSession.ExamRerunAsWritten, SqliteSession.ExamDoubleCount | SqliteSession.ExamRerun, SqliteSession.ExamRerunKeeps, SqliteSession.FinishedExamBounded, SqliteSession.ExamSession.Rerun |
