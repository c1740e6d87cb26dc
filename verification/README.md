# ModellingAssistant questionnaire core, modelled in Dafny

ModellingAssistant guides a researcher through a questionnaire about a model they
plan to build: objective, data, methods, outputs. A FastAPI backend decides which
questions to show and renders the template's outputs. A React frontend shows three
live previews of the answers:
- the generated coding prompt;
- a technical-specification document;
- a flow diagram.

This project models the logic behind those pieces as pure Dafny functions over
immutable data:

- **Answers.** An answer is `null`, a string, or a list. A list holds option ids,
  free strings, or records, one record per row of a repeatable question. Objects
  and dicts are insertion-ordered association lists (`Json.Obj`). Key order decides
  the order in which placeholders are substituted.
- **Backend flow.** Condition evaluation, visibility, the next question, the visible
  list and progress (`engine.dfy`).
- **Backend rendering.** `{% if %}` blocks, `{{key}}` substitution, the dataset
  inventory table and `generate_outputs` (`engine_render.dfy`, `inventory.dfy`).
- **Prompt preview.** Defaults, the resolved answers, display forms, the condition
  language and its renderer. The source's regular expressions are written out as
  scanners that accept exactly what the patterns match, in the order backtracking
  tries them (`prompt_preview.dfy`, `prompt_condition.dfy`, `prompt_render.dfy`,
  `prompt_output.dfy`).
- **Document preview.** Answer formatting, the "TBD" fallback and the dataset table
  with "-" cells (`document_preview.dfy`).
- **Diagram.** Value normalisation, grouping into Data, Model, Outputs and Other,
  boxes, truncation and the vertical layout (`diagram_view.dfy`).
- **Editing.** The question card's option toggling and record editing, and the
  questionnaire's answer merge and finish check (`question_card.dfy`,
  `questionnaire.dfy`).
- **Tutorial.** Stepping and the typing animation (`tutorial.dfy`).

`text.dfy` holds the string helpers shared by all modules: scanning, trimming,
joining, splitting, replacing and filtering.

## Model

| member | source | states |
|---|---|---|
| Json.PyTruthyImpliesJsTruthy | backend/engine.py:181 | A value true in Python is true in JavaScript. The two disagree only on the empty list, which JavaScript treats as true. |
| Json.Set | frontend/src/components/Questionnaire.jsx:70 | Writing a key makes it read back the new value. Every other key reads as before. An existing key keeps its place, and a new key is appended last. |
| Labels.ChoiceLabels | frontend/src/components/PromptPreview.jsx:15-17 | The map's keys are exactly the option ids. Each id maps to the label of its last occurrence. |
| Labels.OptionLabels | frontend/src/components/PromptPreview.jsx:8-22 | The index has an entry exactly for the questions that declare options. A later question with the same id replaces an earlier one's label map. |
| Labels.OptionLabelsDistinct | frontend/src/components/PromptPreview.jsx:12-19 | With distinct question ids, a question's option id maps to that option's label. |
| Labels.DisplayCode | frontend/src/components/PromptPreview.jsx:122 | A code with a non-empty label shows the label. A code unknown to the question shows itself. The result is empty only for an empty code. |
| Inventory.Cell | frontend/src/components/PromptPreview.jsx:72-79 | A known source-type or privacy code shows its label. Any other non-empty field shows as written. A missing or empty field shows the empty marker. |
| Inventory.CellEmptyMarker | frontend/src/components/DocumentPreview.jsx:112-119 | Changing the empty marker changes exactly the cells that would be empty. No label is empty, so a labelled cell never takes the marker. |
| Inventory.RowCells | frontend/src/components/PromptPreview.jsx:71-80 | A row has one cell per header. Each cell is that column's cell for the entry. |
| Inventory.JsTable | frontend/src/components/PromptPreview.jsx:37-84 | The prompt preview's table is empty text exactly when there are no entries. |
| Inventory.PyTable | backend/engine.py:118-167 | No entries give empty text. The backend fails exactly when a non-empty list holds a non-record element. A table it builds is empty only for no entries. |
| Inventory.PyTableAgreesWithJs | backend/engine.py:118-167 | The backend's table fails exactly when a non-empty list holds a non-record element. Otherwise it equals the prompt preview's table. |
| Inventory.JsTableLines | frontend/src/components/PromptPreview.jsx:66-83 | When no cell holds a line break, the table splits into 2 + n lines: the header, the `---` separator, then one line per entry with that entry's eight cells. |
| Inventory.SurveyMicroLabel | frontend/src/components/PromptPreview.jsx:50 | The `survey_micro` code shows as its label. |
| PromptCondition.ScanForm | frontend/src/components/PromptPreview.jsx:138 | A match captures a non-empty identifier of word characters and a non-empty text free of the closing delimiter. |
| PromptCondition.StripQuotes | frontend/src/components/PromptPreview.jsx:167 | Removes one leading and one trailing quote. A quoted literal gives its inside, and the text never grows. |
| PromptCondition.ListItems | frontend/src/components/PromptPreview.jsx:167 | There is one literal per comma-separated piece. |
| PromptCondition.Eval | frontend/src/components/PromptPreview.jsx:139-175 | `contains` means list membership or substring. `not_contains` is its negation on lists and strings and holds on anything else. A bare key means JavaScript truthiness of its value. |
| PromptCondition.Parse | frontend/src/components/PromptPreview.jsx:135-175 | The forms are tried in the source's order. A `contains` or `not_contains` reading has a word-character name and a non-empty literal without a quote. An `in` reading has a word-character name and at least one literal. Anything else tests the truthiness of the trimmed text as a key. |
| PromptCondition.ParseIgnoresPadding | frontend/src/components/PromptPreview.jsx:136 | Blanks around a condition do not change how it is read. |
| PromptCondition.EvaluateCondition | frontend/src/components/PromptPreview.jsx:135-176 | A bare key is true exactly when the trimmed key's value is truthy in JavaScript. A `contains` condition holds exactly when the literal is in the list or string value, and fails on an absent, null or other value. |
| PromptCondition.EvaluateShown | frontend/src/components/PromptPreview.jsx:135-176 | The canonical text of any well-formed predicate evaluates as the predicate itself. |
| PromptCondition.NotContainsNegates | frontend/src/components/PromptPreview.jsx:151-162 | On a list or string value, `not_contains` is exactly the negation of `contains`. On an absent, null or other value, `not_contains` holds and `contains` fails. |
| PromptCondition.InListMeaning | frontend/src/components/PromptPreview.jsx:164-173 | A string value must equal a listed literal. A list value must share one with the literals. An absent or null value fails. |
| PromptCondition.ParseShow | frontend/src/components/PromptPreview.jsx:135-176 | Parsing the canonical text of any predicate the grammar can express gives the predicate back. This holds for all four forms. |
| PromptCondition.ScanFormCanonical | frontend/src/components/PromptPreview.jsx:138 | The anchored pattern reads `n kw <open>body<close>` back as `n` and `body`. |
| PromptCondition.ListItemsCanonical | frontend/src/components/PromptPreview.jsx:167 | Splitting, trimming and unquoting a list of quoted literals joined by commas gives the literals back. |
| PromptCondition.ScanHeadAllWord | frontend/src/components/PromptPreview.jsx:175 | A bare identifier matches none of the three forms, so it is a truthiness test. |
| PromptCondition.ExamplesEval | frontend/src/components/PromptPreview.jsx:139-173 | `tags contains 'x'` holds for `[x, y]` and fails for `"abc"`. `domain in ['a','b']` holds for `"b"` and fails for `"c"`. |
| PromptCondition.InExampleParse | frontend/src/components/PromptPreview.jsx:164-167 | `domain in ['a','b']` reads as the list `a`, `b`. |
| PromptPreview.DefaultAnswers | frontend/src/components/PromptPreview.jsx:24-35 | The keys are exactly the ids of questions with a default that is neither null nor ''. Each maps to its last question's default, and no stored default is null or ''. |
| PromptPreview.Merge | frontend/src/components/PromptPreview.jsx:87-101 | Every key reads as the meaningful answer when there is one, else as before. Nothing else is added. |
| PromptPreview.ResolvedAnswers | frontend/src/components/PromptPreview.jsx:86-108 | Without answers, the defaults are used unchanged. Otherwise each key resolves to its meaningful answer or else its default. The inventory table is set exactly when the resolved inventory is a list. |
| PromptPreview.DisplayItems | frontend/src/components/PromptPreview.jsx:122 | Each element shows its option label, or itself when it has none. |
| PromptPreview.FormatValue | frontend/src/components/PromptPreview.jsx:116-133 | Blank shows as ''. A non-empty string never shows as ''. A list shows its elements' display forms joined by ", ". A question without options shows a string as itself. |
| PromptRender.FindEndif | frontend/src/components/PromptPreview.jsx:185 | The lazy body stops at the first closing tag at or after its start. No closing tag found means there is none. |
| PromptRender.MatchIf | frontend/src/components/PromptPreview.jsx:185 | A match is non-empty and lies within the text. Text not starting with `{%` never matches. |
| PromptRender.Expand | frontend/src/components/PromptPreview.jsx:184-188 | The conditional replace never lengthens the text. Text without `{%` passes through unchanged. |
| PromptRender.ExpandPrefix | frontend/src/components/PromptPreview.jsx:186-188 | A prefix that opens no tag is copied, and the replace continues after it. |
| PromptRender.MatchBlock | frontend/src/components/PromptPreview.jsx:185 | A block `{% if c %}body{% endif %}` with a one-line condition and a body without `{%` is matched as condition `c` and body `body`. |
| PromptRender.ExpandBlock | frontend/src/components/PromptPreview.jsx:185-188 | Such a block becomes its body when the condition holds and '' otherwise, and the replace continues after it. |
| PromptRender.ShownBlock | frontend/src/components/PromptPreview.jsx:185-188 | The canonical block of a well-formed predicate becomes its body when the predicate holds and '' otherwise. The text after it is expanded on its own. |
| PromptRender.FalsyBlockDropped | frontend/src/components/PromptPreview.jsx:175-188 | A block on a bare key whose value is falsy in JavaScript disappears, and the text after it is expanded on its own. |
| PromptRender.PrefixedBlock | frontend/src/components/PromptPreview.jsx:185-188 | Text without tags before a canonical block is kept, followed by the body when the predicate holds and by nothing otherwise. |
| PromptRender.ShowContainsCanonical | frontend/src/components/PromptPreview.jsx:185 | The canonical text of a well-formed `contains` predicate can stand as a block condition when its literal has no `%` and no line break. |
| PromptOutput.Substitute | frontend/src/components/PromptPreview.jsx:191-194 | Text without `{{` is unchanged by the substitution. The lemmas below say what it does to a placeholder. |
| PromptOutput.SubstituteKnown | frontend/src/components/PromptPreview.jsx:191-194 | Between pieces free of `{{`, the placeholder of a context key becomes that value's display form, whatever the key's position in the context. |
| PromptOutput.SubstituteUnknown | frontend/src/components/PromptPreview.jsx:191-194 | Between pieces free of `{{`, the placeholder of a key missing from the context is left as it is. |
| PromptOutput.OwnPlaceholderReplaced | frontend/src/components/PromptPreview.jsx:193 | Replacing the placeholder of `k` puts the replacement where the placeholder stood. |
| PromptOutput.OtherPlaceholderKept | frontend/src/components/PromptPreview.jsx:193 | Replacing the placeholder of another key leaves the text as it is. |
| PromptOutput.PlaceholderAtIff | frontend/src/components/PromptPreview.jsx:197 | `{{word}}` at the start of a text is matched with its word. A match of that length is that placeholder unless the word differs. |
| PromptOutput.CleanupNoPlaceholder | frontend/src/components/PromptPreview.jsx:197 | After cleanup no `{{word}}` remains, including none formed by the brackets that cleanup inserts. |
| PromptOutput.Cleanup | frontend/src/components/PromptPreview.jsx:197 | Cleanup never lengthens the text, and leaves text without `{{` unchanged. |
| PromptOutput.CleanupSplit | frontend/src/components/PromptPreview.jsx:197 | Each `{{word}}` becomes `[word]`, and the text on either side of it is cleaned on its own. |
| PromptOutput.RenderText | frontend/src/components/PromptPreview.jsx:182-199 | The rendered text holds no `{{word}}` and neither starts nor ends with a blank. |
| PromptOutput.RendersKnown | frontend/src/components/PromptPreview.jsx:182-199 | Text around the placeholder of a context key, with no tags and no `{{`, renders as the text with the value's display form in place of the placeholder, trimmed. |
| PromptOutput.RendersUnknown | frontend/src/components/PromptPreview.jsx:182-199 | In the same setting, the placeholder of a key missing from the context renders as `[k]`, and the whole is trimmed. |
| PromptOutput.RendersKnownUntrimmed | frontend/src/components/PromptPreview.jsx:182-199 | When that result has no blank ends, it is exactly the text with the display form in place of the placeholder. |
| PromptOutput.RendersUnknownUntrimmed | frontend/src/components/PromptPreview.jsx:182-199 | When the text has no blank ends, the missing key's placeholder shows as `[k]` and nothing else changes. |
| PromptOutput.RendersExpansion | frontend/src/components/PromptPreview.jsx:182-199 | A text whose expanded blocks hold no `{{` and have no blank ends renders as that expansion. |
| PromptOutput.RendersLikeExpansion | frontend/src/components/PromptPreview.jsx:182-199 | Two texts with the same expansion render alike. |
| PromptOutput.RenderTextPlain | frontend/src/components/PromptPreview.jsx:182-199 | Text with no tag, no placeholder and no surrounding blanks renders as itself under any context. |
| PromptOutput.FirstPrompt | frontend/src/components/PromptPreview.jsx:111-114 | The position of the first output of type prompt. None when there is none. |
| PromptOutput.PromptTemplate | frontend/src/components/PromptPreview.jsx:111-114 | The text of the first prompt output, and '' when the template has none. |
| PromptOutput.RenderedPrompt | frontend/src/components/PromptPreview.jsx:179-200 | '' without a prompt output. Otherwise the first prompt output's text rendered against the resolved answers with the template's option labels. The result holds no placeholder and neither starts nor ends with a blank. |
| PromptExamples.UnknownShownInBrackets | frontend/src/components/PromptPreview.jsx:190-199 | `Hello {{name}}` with nothing answered renders as `Hello [name]`. |
| PromptExamples.AbsentFlagDropsBlock | frontend/src/components/PromptPreview.jsx:184-199 | `{% if flag %}X{% endif %}Y` with `flag` unanswered renders as `Y`. |
| PromptExamples.PlaceholderThenShownBlock | frontend/src/components/PromptPreview.jsx:184-188 | A placeholder, a line break and a block whose predicate holds expand to the placeholder, the line break and the body. |
| PromptExamples.ExpandsToKnown | frontend/src/components/PromptPreview.jsx:182-199 | A text that expands to a known placeholder between tag-free pieces renders as the value's display form between those pieces. |
| PromptExamples.ProjectSummary | frontend/src/components/PromptPreview.jsx:135-199 | `Project: {{project_name}}`, a line break and a block on `languages contains 'python'` render as `Project: Demo` and `Uses Python.` for a project named Demo whose languages include python. |
| Engine.EvaluateCondition | backend/engine.py:15-47 | An absent or null answer fails every condition. An unknown operator fails. |
| Engine.OperatorsComplement | backend/engine.py:34-45 | For a present answer, `not_equals` negates `equals` and `not_contains` negates `contains`. `contains` is membership for a list answer and equality otherwise. |
| Engine.ShouldShowQuestion | backend/engine.py:50-58 | The loop shows a question exactly when every one of its conditions holds. A question without conditions is always shown. |
| Engine.FirstPending | backend/engine.py:61-79 | The position of a visible unanswered question with none before it. None exactly when no question is pending. |
| Engine.GetNextQuestion | backend/engine.py:61-79 | The loop returns the first visible, unanswered question in template order, or None when there is none. |
| Engine.FirstPendingUnique | backend/engine.py:61-79 | A pending position with nothing pending before it is the one returned. |
| Engine.AnswerOf | backend/engine.py:91 | The stored answer, or null when the key is absent. |
| Engine.VisibleIndices | backend/engine.py:82-92 | Strictly increasing positions of questions that are shown, and every shown question is included. |
| Engine.VisibleQuestions | backend/engine.py:82-92 | One entry per visible question in template order, with its answered flag (the key is present) and its answer or null. |
| Engine.VisibleQuestionsExact | backend/engine.py:82-92 | Every listed question is shown, and every shown question is listed. |
| Engine.CountAnswered | backend/engine.py:98 | The count is the number of positions marked answered. It never exceeds the list length and equals it exactly when all are answered. |
| Engine.RoundedPercentage | backend/engine.py:104 | 0 for an empty list, and never above 100. |
| Engine.RoundedPercentageNearest | backend/engine.py:104 | Within one half of the exact percentage, and even on a tie, as Python's `round` does. |
| Engine.PercentageEnds | backend/engine.py:104 | No answers give 0 and all answers give 100. |
| Engine.CalculateProgress | backend/engine.py:95-105 | answered is the number of answered visible questions and total the number of visible questions, so answered <= total. The percentage lies in 0..100, is 0 with nothing answered or nothing visible, and is 100 with everything answered. |
| Engine.NextNoneIffComplete | backend/engine.py:61-92 | There is no next question exactly when every visible question is answered. |
| EngineRender.PyMatchIf | backend/engine.py:176 | The pattern captures a non-empty identifier of word characters. Text not starting with `{%` never matches. |
| EngineRender.PyOpenTag | backend/engine.py:176 | The opening tag, when it matches, starts with `{%` and encloses a non-empty identifier of word characters. |
| EngineRender.PyExpand | backend/engine.py:185 | `re.sub` never lengthens the text. Text without `{%` is unchanged. |
| EngineRender.PyExpandBlock | backend/engine.py:176-185 | A block around an identifier becomes its body when the value is true in Python and '' otherwise, and the replace continues after it. |
| EngineRender.JsExpandWordBlock | frontend/src/components/PromptPreview.jsx:175-188 | In the prompt preview such a block depends on JavaScript truthiness of the value. |
| EngineRender.BlockRenderersDiffer | backend/engine.py:181 | The backend and the preview expand such a block alike, except for an empty list: the preview keeps the body and the backend drops it. |
| EngineRender.PyDisplay | backend/engine.py:188-194 | null shows as '' and a string as itself. A list of strings is joined by ", ". |
| EngineRender.PySubstitute | backend/engine.py:188-194 | Text without `{{` is unchanged. The lemmas below say what happens to a placeholder. |
| EngineRender.PySubstituteKnown | backend/engine.py:188-194 | Between pieces free of `{{`, the placeholder of an answered key becomes the answer's text, whatever the key's position in the answers. |
| EngineRender.PySubstituteUnknown | backend/engine.py:188-194 | Between pieces free of `{{`, the placeholder of a key nobody answered stays as it is. |
| EngineRender.ExpandedAnswers | backend/engine.py:169-171 | Fails exactly when `data_inventory` is a list with a non-record element. Otherwise it keeps every other key and sets the table exactly when the inventory is a list. |
| EngineRender.PyRenderText | backend/engine.py:173-196 | The result neither starts nor ends with Python whitespace. Text with no tag and no `{{` comes out stripped and otherwise unchanged. |
| EngineRender.RenderOutput | backend/engine.py:108-196 | Fails exactly when building the table fails. Otherwise it is the template text rendered against the answers with the table, and neither starts nor ends with Python whitespace. |
| EngineRender.PyRendersPlain | backend/engine.py:173-196 | A text with no tag and no placeholder renders as itself, stripped. |
| EngineRender.PyRendersKnown | backend/engine.py:173-196 | Text around the placeholder of an answered key, with no tags and no `{{`, renders as the text with the answer's text in place of the placeholder, stripped. |
| EngineRender.PyRendersUnknown | backend/engine.py:173-196 | In the same setting, the placeholder of an unanswered key stays `{{k}}` in the stripped text. |
| EngineRender.GenerateOutputs | backend/engine.py:199-211 | One result per output definition, in order, with its type and its name (the type when unnamed) and its rendered text. The whole call fails exactly when rendering fails. |
| DocumentPreview.FormatAnswer | frontend/src/components/DocumentPreview.jsx:20-41 | Nothing exactly for an absent, null or '' answer. Otherwise the same display form the prompt preview computes. |
| DocumentPreview.SummaryField | frontend/src/components/DocumentPreview.jsx:86-88 | Never empty. "TBD" for a blank answer or one whose display form is empty, otherwise the display form. |
| DocumentPreview.DatasetRows | frontend/src/components/DocumentPreview.jsx:51-121 | One row of eight cells per inventory entry. No rows when the inventory is not a list. |
| DocumentPreview.DatasetCell | frontend/src/components/DocumentPreview.jsx:112-119 | Every cell shows something: the prompt preview's cell for the same entry and column, with "-" where that cell is empty. |
| DiagramView.NormalizeValues | frontend/src/components/DiagramView.jsx:18-32 | A blank answer gives no values. No value is empty. A string gives its one display form. A list gives display forms of its elements, keeping every non-empty one. |
| DiagramView.NormalizeAgreesWithFormat | frontend/src/components/DiagramView.jsx:21-24 | With no empty element, the values joined by ", " are exactly the prompt preview's display of the list. |
| DiagramView.Truncate | frontend/src/components/DiagramView.jsx:49-51 | Text of at most 60 characters is kept. Longer text keeps its first 59 characters followed by the suffix, so no result is longer than 59 plus the suffix. |
| DiagramView.ItemOf | frontend/src/components/DiagramView.jsx:56-64 | An item's values are its answer's normalised values, none empty. |
| DiagramView.AllItems | frontend/src/components/DiagramView.jsx:53-67 | The item of every question with values, and only such items. Each holds its answer's normalised values. |
| DiagramView.AllItemsFromQuestions | frontend/src/components/DiagramView.jsx:53-67 | Each item comes from one of the questions. |
| DiagramView.AllItemsSnoc | frontend/src/components/DiagramView.jsx:53-67 | A question added at the end adds its item at the end when it has values, and changes nothing before it. |
| DiagramView.AllItemsInOrder | frontend/src/components/DiagramView.jsx:53-67 | Items appear in the order of their questions. |
| DiagramView.SectionMatchIgnoresCase | frontend/src/components/DiagramView.jsx:69-72 | A declared section that holds the group word in any ASCII letter case matches that word. |
| DiagramView.GroupItems | frontend/src/components/DiagramView.jsx:78-80 | Exactly the items in the group, each drawn from the list. |
| DiagramView.GroupItemsSnoc | frontend/src/components/DiagramView.jsx:78-80 | An item added at the end joins the end of every group it belongs to and changes nothing before it. |
| DiagramView.GroupItemsInOrder | frontend/src/components/DiagramView.jsx:78-80 | Two items of a group appear in it in their order in the list. |
| DiagramView.OtherItems | frontend/src/components/DiagramView.jsx:82-87 | A selection of the items, never longer than the list. |
| DiagramView.OtherItemsInOrder | frontend/src/components/DiagramView.jsx:82-87 | Two items of the Other section appear in it in their order in the list. |
| DiagramView.GroupIdsExact | frontend/src/components/DiagramView.jsx:74-80 | An id is listed for a group exactly when an item with that id is in the group. |
| DiagramView.GroupedIdsExact | frontend/src/components/DiagramView.jsx:82-86 | An id is grouped exactly when an item with that id is in some group. |
| DiagramView.OtherItemsExact | frontend/src/components/DiagramView.jsx:82-87 | With distinct ids, Other holds exactly the items in no group. Every item is therefore drawn in some section. |
| DiagramView.BoxLabel | frontend/src/components/DiagramView.jsx:96 | A question with a short caption is labelled by it. Any other question is labelled by its text or its id. An item with an id always has a non-empty label. |
| DiagramView.BoxesOf | frontend/src/components/DiagramView.jsx:95-100 | One box per value of each item. When all values are non-empty, so are all box values. |
| DiagramView.BuildBoxes | frontend/src/components/DiagramView.jsx:89-102 | No items give the single box "Awaiting …". Otherwise there is one box per value. |
| DiagramView.ValueCountPositive | frontend/src/components/DiagramView.jsx:95-100 | Items that each have values give at least one box per item. |
| DiagramView.SectionBoxes | frontend/src/components/DiagramView.jsx:89-112 | A section always has a box. Its first box has a value exactly when the section has items, which is when it is drawn as filled. |
| DiagramView.BoxHeightFor | frontend/src/components/DiagramView.jsx:141-143 | At least the minimum height and at least the height of the content. Always equal to one of the two. |
| DiagramView.BoxHeightMonotone | frontend/src/components/DiagramView.jsx:141-143 | More boxes never make a section shorter. |
| DiagramView.BoxInsideSection | frontend/src/components/DiagramView.jsx:158-160 | Every counted box lies below its node and inside its section's height, so it ends before the next section starts. |
| DiagramView.LayoutFor | frontend/src/components/DiagramView.jsx:145-156 | Sections stack from the top margin, each followed by the gap, with a bottom margin. They are strictly ordered. |
| DiagramView.RenderedBoxes | frontend/src/components/DiagramView.jsx:158-184 | At most eight texts: the first min(n, 8) boxes, each shortened. |
| DiagramView.SectionOf | frontend/src/components/DiagramView.jsx:104-112 | A section has the boxes of its items, is as tall as its box count needs, and is filled exactly when its first box has a value. |
| DiagramView.SectionItems | frontend/src/components/DiagramView.jsx:53-87 | The four sections' items each hold only non-empty values. |
| DiagramView.Stacked | frontend/src/components/DiagramView.jsx:145-156 | Four drawn sections stacked from the top margin, each starting the gap below the previous one. |
| DiagramView.Diagram | frontend/src/components/DiagramView.jsx:122-156 | Nothing exactly when the template has no questions. Otherwise four well-stacked sections. |
| QuestionCard.Toggle | frontend/src/components/QuestionCard.jsx:67-74 | After toggling, the option is selected exactly when it was not. Adding appends it. Removing shortens the list. |
| QuestionCard.ToggleKeepsOthers | frontend/src/components/QuestionCard.jsx:69-73 | Every other selection is kept or left out as before. |
| QuestionCard.ToggleTwice | frontend/src/components/QuestionCard.jsx:67-74 | Toggling an unselected option twice restores the selection. |
| QuestionCard.ToggleOption | frontend/src/components/QuestionCard.jsx:65-74 | No change exactly when disabled. Otherwise a list whose membership of the option is flipped. A non-list answer counts as no selection. |
| QuestionCard.UpdateEntry | frontend/src/components/QuestionCard.jsx:109-115 | Same length and every other entry unchanged. The edited entry has the field set and all other fields kept. |
| QuestionCard.UpdateTwice | frontend/src/components/QuestionCard.jsx:109-115 | Editing the same field twice keeps only the second value. |
| QuestionCard.EmptyEntry | frontend/src/components/QuestionCard.jsx:118-121 | A record with exactly the question's field ids, all ''. |
| QuestionCard.AddEntry | frontend/src/components/QuestionCard.jsx:117-123 | The entries stay in place, with one empty record after them. |
| QuestionCard.RemoveEntry | frontend/src/components/QuestionCard.jsx:125-127 | In range, exactly that entry is dropped and the order is kept. Out of range, nothing changes. |
| QuestionCard.AddRemoveRoundTrip | frontend/src/components/QuestionCard.jsx:117-127 | Round trip of the two list handlers: removing the entry just added gives the entries back. |
| Questionnaire.AnswerChanged | frontend/src/components/Questionnaire.jsx:68-70 | The question reads its new answer, every other key reads as before, and the key set gains the question. |
| Questionnaire.CanFinish | frontend/src/components/Questionnaire.jsx:89-102 | false without a question list. Otherwise true exactly when every required question has an answer: a non-empty list for multi-choice, anything but null, absent or '' for the rest. |
| Questionnaire.AnswerKeepsFinish | frontend/src/components/Questionnaire.jsx:68-102 | Recording an answer that satisfies the questions with its id keeps the finish check true. |
| Tutorial.Next | frontend/src/components/InteractiveTutorial.jsx:78-84 | Finishes exactly on the last step. Otherwise it moves to min(step + 1, last), one step on from any valid step. |
| Tutorial.Back | frontend/src/components/InteractiveTutorial.jsx:86-88 | One step back, stopping at the first, and always a valid step. |
| Tutorial.TypeOut | frontend/src/components/InteractiveTutorial.jsx:57-73 | One frame per tick, with at least one tick. Each frame is the prefix of length min(k + 1, n). The last frame is the whole text. |

## Left out

- The HTTP API and session storage (`backend/main.py`) and template loading (`load_template`) are not modelled; templates and answers are parameters.
- Timers (the 500 ms save debounce, the 18 ms typing interval), `fetch`, the clipboard, React state and effects, markdown rendering, SVG drawing and CSS classes are left out. `Tutorial.TypeOut` lists the frames the interval would show.
- Only the answer shapes the questionnaire produces are modelled: null, strings, lists of strings and lists of string-valued records. Numbers, booleans and nested objects are not.
- A JavaScript object key that looks like an array index is ordered before other keys; `Json.Obj` keeps plain insertion order.
- Placeholders are built from keys with `new RegExp`; the model treats each key literally, and `$` patterns in a replacement value are not interpreted.
- Lengths are counted in characters, not UTF-16 code units; `\w` is the ASCII word class, and `toLowerCase` is ASCII lower-casing.
- Python's `repr` of a list holding records is a parameter of `EngineRender.PyDisplay` and the functions that use it.
- The Python `AttributeError` raised for a non-record inventory element is modelled as `None`; other exceptions are not modelled.
- A lookup of an inherited property name such as `constructor` is not modelled, neither in a label dictionary nor in the resolved answers that a condition reads. In the preview, `{% if constructor %}` holds because `resolvedAnswers.constructor` is a function. In the model, `Json.Get` sees only own keys, so that condition fails.
- PromptOutput.SubstituteKnown, PromptOutput.SubstituteUnknown and the `Renders…` lemmas built on them are stated for contexts whose keys are identifiers, for pieces free of `{{`, and, for a known key, for a result free of `{{`. Beyond that, a key with pattern characters or a value holding `{{` could let a later key's replacement reach into it.
- EngineRender.PySubstituteKnown, EngineRender.PySubstituteUnknown, EngineRender.PyRendersKnown and EngineRender.PyRendersUnknown carry the same restrictions. `PyRendersKnown` and `PyRendersUnknown` also exclude the table key itself.
- The document preview's fixed prose and its fallbacks other than "TBD" are not modelled; `DocumentPreview.SummaryField` stands for every `formatAnswer(..) || 'TBD'` line.
- Engine.RoundedPercentage: rounds the exact quotient, not the floating-point product `answered / total * 100`; the two can differ on a tie.
- QuestionCard.UpdateEntry: a non-empty string entry, which the source spreads into index keys, is treated as a record with no fields.
- DiagramView.BoxHeightFor: sizes a section from all its boxes, as the source does, although only the first eight are drawn; the model does not claim the drawing fills the height.
- DiagramView.Diagram: returns the sections' boxes and positions; the node widths, arrows and x coordinates are not modelled.
- DiagramView.HasSectionMatch: lower-cases only ASCII letters. The only non-ASCII letters that lower-case to ASCII letters map to `i` and `k`, which none of the words "data", "model" and "output" contains.
- The lemmas `DiagramView.TruncateSeesPrefix`, `Tutorial.NextBackInverse`, `Questionnaire.ClearingBlocks` and `Questionnaire.BlanksCount` document facts that follow directly from the definitions; they carry no table row.
- The icons, step titles and captions of the tutorial are not modelled; only the typed text of each step is.

## Where the code and its description differ

- The prompt preview treats a bare-key condition by JavaScript truthiness, so an empty list keeps its block, while the backend drops it (`EngineRender.BlockRenderersDiffer`).
- The prompt preview and backend tables leave an empty cell as '', while the document preview shows "-" (`DocumentPreview.DatasetCell`).
- The box text shortening suffix is the three characters `â€¦` that the component's source holds, not a single ellipsis character.
