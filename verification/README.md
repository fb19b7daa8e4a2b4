# treelstm-code-generation: the deterministic core in Dafny

This project models the pure, sequential logic of a tree-to-code generation
system, and proves properties of that model:

- **Linearizer** (`Dataset.load_output`). It turns a code tree's production
  list into actions: `APPLY_RULE`, `GEN_TOKEN`, `COPY_TOKEN` and
  `GEN_COPY_TOKEN`. Each action carries a back-pointer, `parent_t`, to the
  `APPLY_RULE` of its parent production. Literal values are split into
  sub-tokens. Each sub-token is classified by a copy/generate rule that
  looks at its first position in the query and at the `max_query_length`
  window. Each value run ends with an `<eos>` token.
- **Matrix encoder** (`Dataset.init_data_matrices`) and sentence padding
  (`Dataset.fill_pad`).
- **CCG derivation flattening** (`CCGParse`). A derivation becomes a
  parent-pointer array and a category array with the same layout, written
  one line per sentence.
- **Preprocessing helpers.** Moving number-like tokens out of the known
  vocabulary, building and saving a vocabulary, and picking out the
  variables of a line.
- **Plot labels.** The node-label loop of the derivation plot.

Modules follow the source files:

| module | file | models |
|---|---|---|
| `Results` | results.dfy | `Option` (Python `None` or a value) and `Result` (a call that returns or raises) |
| `Text` | text.dfy | `str.split(sep)`, `str.split()`, `sep.join`, ASCII `lower()`, Java's decimal `int` rendering and its inverse |
| `Linearize` | linearize.dfy | datasets/dataset.py `load_output` |
| `Matrices` | matrices.dfy | datasets/dataset.py `init_data_matrices`, `fill_pad` |
| `CcgParse` | ccg_parse.dfy | lib/CCGParse.java `getSize`, `constTreeParents`/`parseParents`, `constTreeCategories`/`parseCategories`, `printParents`/`printCategories` |
| `Preprocess` | preprocess.dfy | scripts/preprocess_utils.py `move_numbers_from_known`, `build_vocab`, `save_vocab`, `parse_for_variables` |
| `GraphLabels` | graph_labels.dfy | stats/graph.py, the label loop |

Several collaborators are not shown in the source, so they enter as plain
data or functions:

- The grammar is a map `ruleToId`, a map `nodeTypeId` and a set of value
  node types.
- The terminal vocabulary is a map plus the `UNK` id. A token the map lacks
  looks up as `UNK`.
- The sub-token splitter (`get_terminal_tokens`) is a function parameter.
- The tree's production list (`get_productions`) is the input.
- `PAD` is a parameter.

Files enter as their lines, and outputs are returned as strings or
sequences.

Errors follow the code:

- **Linearizer.** The `assert`s and the `KeyError` of `rule_pos_map` are not
  caught anywhere. Nothing catches these errors around the loop body, so one
  bad tree aborts the whole load, which `LoadOutput` models as a `Failure`.
- **Encoder.** The model is the encoder the method evidently intends. As
  written, `init_data_matrices` never reaches its loop, because
  `self.data_matrix` is never assigned (see "## Left out"). In the intended
  encoder, `assert len(exg_action_seq) > 0` and `assert t == 0` become
  `EncodeError`s. The first of these also fires for every example when
  `max_example_action_num` is 0.
- **CCG printers.** Java's printers index `size - 1`, so they fail on an
  empty array. `PrintParents` and `PrintCategories` return `None` in that
  case.

## Model

| member | source | states |
|---|---|---|
| Linearize.FirstIndex | datasets/dataset.py:148-152 | -1 exactly when the token is absent from the query; otherwise an in-range position holding the token, with no earlier occurrence |
| Linearize.WindowFirstIndex | datasets/dataset.py:158 | a token lies in the first `max_query_length` query positions exactly when its first index is in `[0, max_query_length)` |
| Linearize.Classify | datasets/dataset.py:146-170 | never `APPLY_RULE`; `GEN_TOKEN` iff the token is not in the copy window; `GEN_COPY_TOKEN` iff in the window and its vocabulary id is not UNK; `COPY_TOKEN` iff in the window and the id is UNK; `source_idx` is the first occurrence and lies inside the window; literal, rule, parent rule and `parent_t` carried over |
| Linearize.ClassifyWindowBoundary | datasets/dataset.py:158-159 | a token first found exactly at position `max_query_length` is only generated (the window bound is exclusive) |
| Linearize.ValueRunKnownToken | datasets/dataset.py:164-175 | an example: `x`, known and first found at position 2 of `create list x` with window 5, gives `GEN_COPY_TOKEN` from 2, then the `<eos>` `GEN_TOKEN` |
| Linearize.ValueRunOutOfWindow | datasets/dataset.py:156-175 | an example: with window 5, `foo` absent from an 11-token query and `bar` found only at position 10 both give `GEN_TOKEN`; the run ends with `<eos>` |
| Linearize.ValueRun | datasets/dataset.py:146-175 | a value node with k sub-tokens yields exactly k+1 actions, none `APPLY_RULE`, all sharing the rule, parent rule and `parent_t`, with literals in sub-token order and `<eos>` `GEN_TOKEN` last; a sub-token outside the copy window is exactly a `GEN_TOKEN`; one inside is `GEN_COPY_TOKEN` when the vocabulary knows it and `COPY_TOKEN` otherwise, with its first query position as `source_idx` |
| Linearize.Step | datasets/dataset.py:121-175 | fails exactly on a structural rule with a value, a value rule that is not a leaf, or a parent rule missing from `rule_pos_map` (including no parent for a value rule); a structural rule appends one `APPLY_RULE` whose `parent_t` is 0 without a parent rule and the recorded position otherwise, and sets its own map entry to its index, keeping the other entries; a value rule appends exactly the `ValueRun` of its sub-tokens (each one classified as generate, copy or both by its first position in the copy window, then `<eos>`) and leaves the map alone; earlier actions are kept |
| Linearize.StepWellFormed | datasets/dataset.py:124-140 | one iteration keeps the invariant: the map sends each applied rule to its latest `APPLY_RULE`, and every action points back to the latest earlier `APPLY_RULE` of its parent rule (a repeated rule overwrites) |
| Linearize.AppliedRulesStep | datasets/dataset.py:130-135 | an iteration adds the rule to the applied rules exactly when it is structural |
| Linearize.Run | datasets/dataset.py:118-175 | a successful loop keeps the invariant, yields one action per structural rule plus sub-tokens+1 per value rule, and applies the structural rules in production order |
| Linearize.Linearize | datasets/dataset.py:116-175 | an action list is empty exactly when the production list is; every action's `parent_t` is an earlier `APPLY_RULE` of its parent rule, or 0 for the root |
| Linearize.Collect | datasets/dataset.py:115-181 | the first failing tree aborts with its error; otherwise empty lists are dropped, every non-empty one is kept, nothing else is, and the count is the number of non-empty lists |
| Linearize.CollectKeepsOrder | datasets/dataset.py:177-181 | when no tree fails, the kept lists are exactly the non-empty ones, in the input order, each as often as it occurs |
| Linearize.NonEmptyCountsAgree | datasets/dataset.py:177-181 | when every tree linearizes, the number of non-empty action lists equals the number of non-empty production lists |
| Linearize.LoadOutput | datasets/dataset.py:115-181 | succeeds iff every zipped pair linearizes; the returned size is the number of non-empty production lists; every kept sequence is non-empty; a sequence is kept iff it is the non-empty linearization of some pair |
| Linearize.LoadOutputKeepsOrder | datasets/dataset.py:115-181 | when the load succeeds, its sequences are the non-empty linearizations of the zipped pairs, in file order and with repeats kept |
| Matrices.ActivationDecodes | datasets/dataset.py:202-223 | `APPLY_RULE` activates slot 0 only, `GEN_TOKEN` slot 1 only, `COPY_TOKEN` slot 2 only, `GEN_COPY_TOKEN` slots 1 and 2; the flags decode back to the action kind and are never all zero |
| Matrices.Truncated | datasets/dataset.py:197 | the encoded length is at most both the sequence length and `max_example_action_num`, and equals one of them |
| Matrices.RowError | datasets/dataset.py:196-235 | an example passes the encoder's assertions iff its truncated length is positive and only timestep 0 lacks a parent rule |
| Matrices.InitDataMatrices | datasets/dataset.py:183-239 | succeeds iff every example passes the assertions; all arrays have shape `[size][max]` or `[size][max][3]`; timesteps at or beyond the truncated length are zero in every array; within it the slots and flags follow the action kind, the node type is the rule's parent type id, `parent_t` is copied, and the parent rule is its id or -1, the latter only at timestep 0 |
| Matrices.ActiveExactlyWithinLength | datasets/dataset.py:190-223 | a timestep has an active slot iff it lies within the truncated length, and there the flags decode to the action's kind |
| Matrices.FillPad | datasets/dataset.py:61-67 | the length is `max(len(sentence), tree_size)`; the sentence is a prefix; every added position is `PAD` |
| Matrices.FillPadIdempotent | datasets/dataset.py:61-67 | padding an already padded sentence to the same size changes nothing |
| CcgParse.SizeSplits | lib/CCGParse.java:97-107 | `getSize` (1 per node) equals the number of words plus the number of internal nodes |
| CcgParse.Size | lib/CCGParse.java:97-107 | every node counts at least one, so an internal node's size exceeds its number of children |
| CcgParse.ParseParents | lib/CCGParse.java:57-69 | writes the parent id at slot `currentId-1`; returns the largest id used, `currentId-1+#internal`; internal ids are consecutive; internal slots point to a smaller id inside the subtree, word slots to an id of the subtree; no other slot changes |
| CcgParse.ParseChildren | lib/CCGParse.java:60-67 | the loop numbers the children's internal nodes consecutively from `nextId`, each pointing to a number between the current id and its own; every child word's slot holds a number between the current id and the last one used; no other slot changes |
| CcgParse.WordChildPointsToCurrent | lib/CCGParse.java:61-62 | with distinct head indices, after the loop a word child's head-index slot holds the current id |
| CcgParse.InternalChildPointsToCurrent | lib/CCGParse.java:57-66 | with distinct head indices, after the loop an internal child's own slot, right after the internal nodes of the children before it, holds the current id |
| CcgParse.ParseChildrenFollowsLayout | lib/CCGParse.java:60-67 | the array the loop writes is the pre-order placement of the children's nodes |
| CcgParse.ParseCategories | lib/CCGParse.java:83-95 | the same walk writes the node's own category at slot `currentId-1` and fills every internal and word slot of the subtree |
| CcgParse.ParseCategoriesChildren | lib/CCGParse.java:86-93 | the children's loop returns `nextId` plus the children's internal nodes, writes a category into every internal slot it numbers and every child word's slot, and changes no other slot |
| CcgParse.ConstTreeParents | lib/CCGParse.java:45-55 | the array has `getSize` slots; a word root gives the single untouched 0; otherwise slot `#leaves` holds 0, internal slots point to a smaller id above `#leaves`, word slots to an internal id |
| CcgParse.ConstTreeCategories | lib/CCGParse.java:71-81 | `getSize` slots; a word root gives a single null; slot `#leaves` holds the root category; with word heads exactly `0..#leaves-1` no slot stays null |
| CcgParse.ConstTreeParentsWellFormed | lib/CCGParse.java:45-69 | with word heads exactly `0..#leaves-1`, every slot is written: the root slot holds 0, every other slot holds an internal id, and internal ids point to smaller ones |
| CcgParse.ReachesRoot | lib/CCGParse.java:45-69 | in a well-formed array, following parent pointers from any slot reaches the root slot (no cycles) |
| CcgParse.ParseParentsFollowsLayout | lib/CCGParse.java:57-69 | the array `parseParents` writes is the pre-order placement of the subtree's nodes, each node writing its enclosing id at its slot |
| CcgParse.ParseCategoriesFollowsLayout | lib/CCGParse.java:83-95 | `parseCategories` writes the same placement, with categories instead of parent ids |
| CcgParse.LayoutShape | lib/CCGParse.java:57-69 | the placement puts internal nodes at consecutive slots `currentId-1 ..` and words at their head indices, one node per slot |
| CcgParse.CategoriesAlignWithParents | lib/CCGParse.java:45-95 | with word heads exactly `0..#leaves-1`, slot i of the categories array labels the very node whose parent id is in slot i of the parents array |
| CcgParse.LayoutOccupiesAll | lib/CCGParse.java:45-69 | with word heads exactly `0..#leaves-1`, the placement of the whole tree fills every slot of the `getSize` array exactly once |
| CcgParse.PrintParents | lib/CCGParse.java:109-119 | no line for an empty array; otherwise a line ending in a newline |
| CcgParse.ParentsRoundTrip | lib/CCGParse.java:109-119 | splitting the printed line (minus its newline) on single spaces and parsing each field gives the array back, so there is no trailing space and one field per element |
| CcgParse.PrintCategories | lib/CCGParse.java:121-131 | no line for an empty array; otherwise a line ending in a newline |
| CcgParse.CategoriesRoundTrip | lib/CCGParse.java:121-131 | the printed category line reads back field by field (null as `null`) when no category holds a space or is spelled `null` |
| Text.ParseIntToString | lib/CCGParse.java:113-116 | every integer printed in decimal parses back to itself |
| Text.IntToString | lib/CCGParse.java:113-116 | the decimal rendering of an int is non-empty and holds no space or newline, so it is one field of a printed line |
| Text.SplitWhitespace | scripts/preprocess_utils.py:28 | pieces are non-empty and whitespace-free, and a line starting with a non-whitespace character starts its first piece with it |
| Text.SplitWhitespaceSqueeze | scripts/preprocess_utils.py:28 | together the pieces hold exactly the line's non-whitespace characters, in order |
| Text.SplitWhitespaceFrom | scripts/preprocess_utils.py:28 | every character of every piece is a character of the line |
| Text.SplitWhitespaceEmpty | scripts/preprocess_utils.py:28 | an empty line splits into no pieces |
| Text.SplitWhitespaceRun | scripts/preprocess_utils.py:28 | a non-empty run without whitespace is a single piece, the whole run |
| Text.SplitWhitespaceAtSpace | scripts/preprocess_utils.py:28 | splitting at any whitespace character gives the pieces of the part before it followed by those of the part after it, so pieces are maximal runs |
| Text.Lower | scripts/preprocess_utils.py:27 | same length; every character is lower-cased pointwise |
| Text.JoinSplitOn | scripts/preprocess_utils.py:67 | joining the pieces of `split(sep)` with `sep` gives the string back |
| Text.SplitOn | scripts/preprocess_utils.py:67 | `split(sep)` gives at least one piece, one more than the separator's occurrences, none containing the separator |
| Text.JoinEnds | scripts/preprocess_utils.py:69 | a joined line starts with its first element, has the separator right after it when more follow, and ends with its last element |
| Text.SplitOnJoin | scripts/preprocess_utils.py:67-69 | splitting a join of separator-free pieces gives the pieces back |
| Preprocess.MatchNumber | scripts/preprocess_utils.py:39-42 | `re.match` of the number pattern succeeds exactly on tokens that start with a digit, or with `+`/`-` followed by a digit; the match is a non-empty prefix |
| Preprocess.MoveNumbersFromKnown | scripts/preprocess_utils.py:38-46 | the union of the two sets is preserved; no number-like token stays known; every non-number-like known token stays; every number-like known token moves; the unknown set gains only number-like known tokens |
| Preprocess.LineWords | scripts/preprocess_utils.py:27-28 | a line's words are non-empty, whitespace-free and free of upper-case ASCII letters |
| Preprocess.FileVocab | scripts/preprocess_utils.py:25-28 | a word is in a file's vocabulary iff it is a word of one of its lines |
| Preprocess.BuildVocab | scripts/preprocess_utils.py:22-29 | a word is in the vocabulary iff it is a word of some file; all words are non-empty, whitespace-free and lower-case |
| Preprocess.SortedWords | scripts/preprocess_utils.py:34 | `sorted(vocab)` lists every word of the set exactly once, in strictly increasing code-point order |
| Preprocess.SortedListingUnique | scripts/preprocess_utils.py:34 | two strictly sorted listings of the same words are equal |
| Preprocess.LexLessTotal | scripts/preprocess_utils.py:34 | any two distinct strings are ordered one way or the other |
| Preprocess.LexLessTransitive | scripts/preprocess_utils.py:34 | string order is transitive |
| Preprocess.VocabFileRoundTrip | scripts/preprocess_utils.py:34-35 | reading the written file line by line gives back the word listing when no word contains a newline |
| Preprocess.VocabFile | scripts/preprocess_utils.py:34-35 | the file is empty exactly when there are no words; otherwise its first line is the first word and it ends with a newline |
| Preprocess.SaveVocab | scripts/preprocess_utils.py:32-35 | the file's lines are the words of the set, each once, in sorted order (words without newlines) |
| Preprocess.LineVariablesAsWritten | scripts/preprocess_utils.py:66-68 | a line's variables as written are unknown words and contain no space |
| Preprocess.LineVariablesAsWrittenOfWords | scripts/preprocess_utils.py:66-68 | split as written, a line built from words yields exactly its unknown words before the last, plus the last word with its newline attached when that is unknown |
| Preprocess.LastWordMissed | scripts/preprocess_utils.py:66-68 | as written, the last word of a newline-terminated line is found only if it also occurs earlier in the line |
| Preprocess.LastWordMissedExample | scripts/preprocess_utils.py:66-68 | as written, `x = 5` with `5` unknown yields no variables |
| Preprocess.LineVariables | scripts/preprocess_utils.py:66-68 | variables are unknown words and contain no space |
| Preprocess.LineVariablesOfWords | scripts/preprocess_utils.py:66-68 | with the newline stripped, a line's variables are exactly its unknown words, the last one included, with or without a final newline |
| Preprocess.VariablesLine | scripts/preprocess_utils.py:69 | the output line ends with a newline, is just the newline for no variables, and otherwise its space-separated fields are exactly the variables, each written once |
| Preprocess.ParseForVariablesAsWritten | scripts/preprocess_utils.py:59-70 | as the code stands: one output line per input line, each naming exactly once each unknown piece of the line split on single spaces with its newline still attached |
| Preprocess.ParseForVariables | scripts/preprocess_utils.py:66-70 | the corrected loop (see "## Findings"): one output line per input line, each naming exactly once each of the line's variables, with the newline stripped first |
| GraphLabels.BuildLabels | stats/graph.py:21-26 | one label per category; the label is `category - token` when the position has a token different from the category, and the category alone otherwise |
| GraphLabels.LabelsExtendCategories | stats/graph.py:21-26 | every label starts with its category; it is longer exactly when a differing token exists, and then the token follows the separator |

## Left out

- File and network I/O, `torch`/`numpy` tensor types, `tqdm` progress bars and logging. Inputs and outputs are sequences and strings.
- `read_query_tree` (datasets/dataset.py:74-103). It cannot run as written: it calls `append` on the `torch.utils.data` module, and `d = [root]` is always `[None]`.
- `load_input`, which sets `query_tokens` (called at datasets/dataset.py:30), is not part of this model. So the query tokens of each example come in as a parameter of `LoadOutput`.
- The dead `can_fully_reconstructed` flag (datasets/dataset.py:160-163). Nothing reads it.
- The grammar, vocabulary and tree classes, `get_terminal_tokens` and `get_productions`. They are not part of this model; they are parameters, as described above.
- A tree reconstructor that replays actions into a tree. No such code exists in the source.
- Skipping a single failing tree: the code never does this; `LoadOutput` fails as a whole.
- Matrices.InitDataMatrices: models the intended pure encoder. As written, datasets/dataset.py:190 raises `AttributeError`, because `self.data_matrix` is assigned nowhere: not in `__init__` (lines 22-32) and not by `torch.utils.data.Dataset`. So the code never reaches the asserts or the array writes that the model describes.
- `CCGParse.main`, the EasyCCG parser, stream handling and timing.
- Java's 32-bit `int` and numpy's `int32`. All ids and positions are unbounded integers. The values involved are array indices and vocabulary ids, far below 2^31.
- Text.Lower: lower-cases ASCII letters only, not the full Unicode case mapping of Python's `str.lower`.
- Preprocess.MoveNumbersFromKnown: scripts/preprocess_utils.py:43-44 update the caller's `vocab` and `vocab_unk` in place (`-=`, `|=`) and also return them. The model returns the two new sets instead, which is what a caller sees through either route.
- Preprocess.MatchNumber: `\d` is taken as ASCII `0-9`. Python 3 also accepts other Unicode decimal digits.
- Preprocess.VariablesLine: the variables are written in some order, as Python's set iteration gives them. The contract fixes which fields appear and how many, not their order.
- CcgParse.ConstTreeParents: requires every word's head index to be below the word count. Java only fails when an index falls outside the array, and a larger in-range index would silently overwrite an internal node's slot.
- CcgParse.ConstTreeCategories: requires word head indices below the word count, for the same reason as ConstTreeParents.
- Python's `str(rule.value)` for non-string values. Values are strings, and `None` prints as `None`.

## Findings

| source | as written | input that shows it | evidently intended | confidence | as-written member | corrected member |
|---|---|---|---|---|---|---|
| scripts/preprocess_utils.py:66-68 | each line is split on `" "` with its trailing newline still attached, so the last piece is `word\n` and never equals a vocabulary word | the line `x = 5\n` with `5` an unknown word yields no variables (Preprocess.LastWordMissedExample; in general Preprocess.LastWordMissed and Preprocess.LineVariablesAsWrittenOfWords) | the line's newline is removed before splitting, so every unknown word of the line is a variable, the last one included (Preprocess.LineVariablesOfWords) | medium, not executed | Preprocess.LineVariablesAsWritten | Preprocess.LineVariables |
