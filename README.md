# Strum-pattern notation compiler, modelled in Dafny

`strum-pattern` turns a compact strum notation, one string per measure, into LilyPond notes with
bow markers and a time signature. A measure such as `D-DU-_U-DU` is a dash-separated list of groups
(beats). Each character of a group is one stroke: `D` down, `U` up, `R` rest, `_` an extension of
the previous note. The length of a group fixes the rhythmic level of all its notes:

| length | level |
|---|---|
| 1 | quarter |
| 2 | eighth |
| 3 | triplet |
| 4 | sixteenth |
| 6 | sextuplet |

The compiler in `libexec/strum-evaluate.rb` works in four stages.

1. **Lexing** (`lex_measure`) splits the measure string at dashes. It rejects any character that is
   not a dash or one of `DdUuRr_`, and reports the 1-based position of that character.
2. **Parsing** (`parse_measure`, `parse_note`) classifies each group by its length and builds one
   untied `Strum` per character. It rejects a bad length and any character other than `D`, `U`, `R`
   and `_`. Lower-case letters get past the lexer but are rejected here.
3. **Merging** (the loops of `strum_parse`) walks every note. A note absorbs the extension that
   follows it when `Strum#+` has a rule for the pair of levels. That extension is the next note of
   the same group, or the first note of the next group when that whole group is extensions. An
   absorbing note is re-examined, so it can absorb a run of extensions. A note is tied when the
   extension that follows it cannot be absorbed.
4. **Output**:
   - `strum_evaluate` writes one LilyPond token per note. A group whose first or last note is a
     triplet level gets a tuplet bracket opening or closing.
   - `time_signature` sums the weights of the first measure's notes and rounds up to `n/4`.

The model is split into these modules:

- `Outcome`: the `Option` and `Result` values and the three error kinds. The error kinds are the
  lexer's unknown character, the parser's invalid group and the parser's unknown note.
- `Notes`: `Strum` as a value, with level, direction and tie. Also `Strum#+` as `Combine`, and a
  length for each level in twelfths of a quarter note. That length is what the merge conserves.
- `Strings`: `Join`, the inverse of splitting at a separator.
- `Lexer`: `lex_measure`, as a specification function and as the `while` loop of the source.
- `Parser`: `parse_note` and `parse_measure`, as functions and as loops.
- `Merge`: the merge loop.
  - `Step` is one pass of the innermost loop body.
  - `MergeFrom` runs the loops from a cursor on to the end.
  - `StrumStep` is the imperative loop body, proved equal to `Step`; `MergeMeasureLoops` holds the
    loops over groups and notes, and `MergePiece` the loop over measures, proved equal to `MergeAll`.
  - The properties of the merge are stated on the notes of a measure in reading order (`Flatten`).
- `Evaluator`: `strum_evaluate`, as the nested loops and as a rendering function built from tokens.
- `Meter`: `time_signature`, with exact real weights: its loop over groups, its loop over notes
  (`AddGroup`) and its `if` chain (`AddNote`).
- `Pipeline`: the part of `libexec/strum-pattern.rb` that joins the stages. It calls `strum_parse`,
  then `strum_evaluate`, then `time_signature` on the merged piece.
- `Traces`: whole-pipeline results for concrete measure strings. These include the usage example
  `D-D-D-_` and the error paths.

The promotion table of `Strum#+`:

| first | second | result |
|---|---|---|
| dotted half | quarter | whole |
| half | half | whole |
| half | quarter | dotted half |
| dotted quarter | eighth | half |
| quarter | quarter | half |
| quarter | eighth | dotted quarter |
| eighth | eighth | quarter |
| eighth | sixteenth | dotted eighth |
| sixteenth | sixteenth | eighth |
| two-triplet | triplet | quarter |
| triplet | triplet | two-triplet |

Sextuplets take part in no rule. The model gives the levels these lengths, in twelfths of a quarter
note:

| level | length |
|---|---|
| whole | 48 |
| dotted half | 36 |
| half | 24 |
| dotted quarter | 18 |
| quarter | 12 |
| dotted eighth | 9 |
| eighth | 6 |
| sixteenth | 3 |
| two-triplet | 8 |
| triplet | 4 |
| sextuplet | 2 |

Every rule of the table adds lengths exactly.

In these places the code's behaviour may look unintended; the model follows the code:

- A sextuplet is accepted. It gets no duration code and weighs nothing in the time signature. It is
  not rejected with an error of its own.
- Tuplet brackets are decided per token. A group opens a bracket when its first note has a triplet
  level, and closes one when its last note has. So `DDD-___` renders an opening bracket that is
  never closed, because the last note of its first group has become a quarter note
  (`Traces.TupletExample`).
- The merge keeps the source's cursor-and-`next` control flow. After a note is tied, the cursor moves onto
  the extension that was not absorbed, and that extension is then examined as a note of its own.

## Model

| member | source | states |
|---|---|---|
| Notes.NewNote | libexec/strum-evaluate.rb:5-9 | a new strum has the given level and direction and is not tied |
| Notes.Promote | libexec/strum-evaluate.rb:18-56 | a level pair is promoted exactly when it is one of the eleven pairs of the table, and the promoted level's length is the sum of both lengths |
| Notes.Duration | libexec/strum-evaluate.rb:18-56 | every level has a positive length of at most a whole note (48 twelfths); with `DurationInjective`, distinct levels have distinct lengths |
| Notes.Combine | libexec/strum-evaluate.rb:11-59 | `a + b` is defined only when `b` is an extension; the result has `a`'s direction, is untied, and its length is the sum of both lengths |
| Notes.CombineDefinedIff | libexec/strum-evaluate.rb:11-59 | `a + b` is defined exactly when `b` is an extension and the pair of levels is one of the eleven listed in the table |
| Notes.SextupletNeverCombines | libexec/strum-evaluate.rb:18-56 | a sextuplet on either side makes `a + b` nil |
| Notes.CombineLevelByDuration | libexec/strum-evaluate.rb:18-56 | the promoted level is the one level whose length is the sum of the two lengths |
| Notes.CombineIgnoresTies | libexec/strum-evaluate.rb:11-59 | the tie flags of the operands do not affect `a + b` |
| Lexer.Lex | libexec/strum-evaluate.rb:73-97 | on success there is one group more than the measure has dashes |
| Lexer.LexRoundTrip | libexec/strum-evaluate.rb:73-97 | joining the lexed groups with `-` gives back the measure, and every group holds only note characters |
| Lexer.LexOfJoin | libexec/strum-evaluate.rb:73-97 | lexing the dash-join of a non-empty list of groups made of note characters gives back exactly that list |
| Lexer.LexExtend | libexec/strum-evaluate.rb:84-85 | note characters appended to a lexable measure extend its last group |
| Lexer.LexSnoc | libexec/strum-evaluate.rb:80-91 | one more character after a lexable prefix: a dash starts a new empty group, a note character extends the last group, and any other character fails at its 1-based position |
| Lexer.LexDash | libexec/strum-evaluate.rb:80-83 | a dash after a lexable prefix starts a new, empty group |
| Lexer.LexOkIff | libexec/strum-evaluate.rb:78-91 | lexing succeeds exactly when every character is a dash or one of `DdUuRr_` |
| Lexer.LexErrorIsFirstForeign | libexec/strum-evaluate.rb:84-88 | a lex error reports the 1-based position and the character of the first character that is neither a dash nor a note character |
| Lexer.LexPrefixError | libexec/strum-evaluate.rb:86-88 | once a prefix of the measure fails, the whole measure fails with that prefix's error |
| Lexer.LexMeasure | libexec/strum-evaluate.rb:73-97 | the `while` loop computes `Lex` |
| Parser.LevelOf | libexec/strum-evaluate.rb:124-136 | a group length has a level exactly when it is 1, 2, 3, 4 or 6 |
| Parser.DirectionOf | libexec/strum-evaluate.rb:103-113 | a character has a direction exactly when it is `D`, `U`, `R` or `_` |
| Parser.NotesOf | libexec/strum-evaluate.rb:99-117 | on success, one untied note per character, all at the given level; a failure is an unknown note naming a character of the group that is not `D`, `U`, `R` or `_` |
| Parser.GroupOf | libexec/strum-evaluate.rb:120-139 | a group fails as an invalid group, naming itself, exactly when its length is not 1, 2, 3, 4 or 6; otherwise it fails only as an unknown note; on success it has one untied note per character at the level of its length |
| Parser.MeasureOf | libexec/strum-evaluate.rb:120-142 | on success one note list per group string; a failure is an invalid group or an unknown note, never a lexer error |
| Parser.NotesOfOk | libexec/strum-evaluate.rb:99-117 | a parsed group has one note per character, in order, each with that character's direction, the group's level and no tie |
| Parser.NotesOfErrIff | libexec/strum-evaluate.rb:102-114 | `parse_note` fails exactly when some character is not `D`, `U`, `R` or `_`, and it names the first such character |
| Parser.NotesOfPrefixError | libexec/strum-evaluate.rb:111-113 | once a prefix of a group fails, the whole group fails with that prefix's error |
| Parser.GroupOfBadLength | libexec/strum-evaluate.rb:134-136 | a group whose length is not 1, 2, 3, 4 or 6 fails as an invalid group naming itself, before its characters are looked at |
| Parser.GroupOfLevels | libexec/strum-evaluate.rb:123-139 | every note of a parsed group has the level of the group's length and is untied |
| Parser.GroupOfValid | libexec/strum-evaluate.rb:120-142 | a group parses exactly when its length is valid and all its characters are `DUR_`; then it is exactly the list of untied notes of that level and those directions |
| Parser.MeasureOfOk | libexec/strum-evaluate.rb:123-139 | group `j` of a parsed measure is the parse of group string `j` |
| Parser.MeasureOfErr | libexec/strum-evaluate.rb:123-139 | `parse_measure` fails exactly when some group fails, with the first failing group's error |
| Parser.MeasureOfValid | libexec/strum-evaluate.rb:120-142 | a list of valid groups always parses, group by group |
| Parser.MeasureOfPrefixError | libexec/strum-evaluate.rb:123-139 | once a prefix of the groups fails, the whole measure fails with that prefix's error |
| Parser.ParseNote | libexec/strum-evaluate.rb:99-117 | the `each_char` loop computes `NotesOf` |
| Parser.ParseMeasure | libexec/strum-evaluate.rb:120-142 | the `each` loop computes `MeasureOf` |
| Merge.Step | libexec/strum-evaluate.rb:157-184 | one pass of the loop body: `k` stays or moves on by one; the groups before `j` are untouched, no group is added, the cursor note keeps its direction, and a pass that moves `k` on deletes no note |
| Merge.MergeFrom | libexec/strum-evaluate.rb:153-188 | running the loops from cursor `(j, k)` adds no group and leaves the groups before `j` untouched; `MergeFromKeeps` gives what it keeps |
| Merge.MergeMeasure | libexec/strum-evaluate.rb:151-191 | merging a measure adds no group and never empties a non-empty measure; `MergeMeasureKeeps` gives what it keeps |
| Merge.StepFlat | libexec/strum-evaluate.rb:156-184 | one pass of the body changes nothing before the cursor. Either the cursor note absorbs the extension that follows it in reading order and `k` stays, or `k` moves on by one, and the strum left behind at most gains a tie, and only when an extension follows it |
| Merge.StepAbsorbsIff | libexec/strum-evaluate.rb:157-184 | the look-ahead: the cursor stays exactly when the next note of the group combines with the cursor note, or, at the last note of a group, when the next group is all extensions and its first note combines |
| Merge.StepTies | libexec/strum-evaluate.rb:158-181 | a pass that moves on from a note followed by an extension leaves that note tied |
| Merge.StepNonEmpty | libexec/strum-evaluate.rb:172-176 | a pass leaves no group empty: a group emptied by the deletion is itself deleted |
| Merge.MergeFromKeeps | libexec/strum-evaluate.rb:153-188 | from any cursor, the rest of the loop keeps the notes before the cursor, the non-extension directions, the total length and non-empty groups; it ends with each note tied exactly when an extension follows it |
| Merge.MergeMeasureKeeps | libexec/strum-evaluate.rb:151-191 | merging a freshly parsed measure deletes only extensions and keeps the other notes' directions in order. It also keeps the total length and the first note's direction, adds no note and leaves no empty group; a note ends up tied exactly when the next note of the measure is an extension |
| Merge.MergeAll | libexec/strum-evaluate.rb:151-193 | the merge keeps the number of measures |
| Merge.StrumStep | libexec/strum-evaluate.rb:157-184 | one pass of the innermost loop body, with `next` keeping `k`, computes `Step` |
| Merge.MergeMeasureLoops | libexec/strum-evaluate.rb:154-188 | the `while` loops over `j` and `k` of one measure compute `MergeMeasure` |
| Merge.MergePiece | libexec/strum-evaluate.rb:151-193 | the `while` loop over the measures computes `MergeAll` |
| Merge.MeasureFrom | libexec/strum-evaluate.rb:148 | `parse_measure(lex_measure(measure))`: on success one group per dash plus one; it fails with a lexer error exactly when lexing fails |
| Merge.StrumParseOf | libexec/strum-evaluate.rb:144-194 | `strum_parse` succeeds exactly when every measure string lexes and parses, and then yields one merged measure per string |
| Merge.Parsed | libexec/strum-evaluate.rb:147-149 | there is one lex-and-parse result per measure string |
| Merge.Collect | libexec/strum-evaluate.rb:147-149 | collecting the results in order yields, on success, one measure per result |
| Merge.CollectOk | libexec/strum-evaluate.rb:147-149 | on success, measure `i` is the value of result `i` |
| Merge.CollectErr | libexec/strum-evaluate.rb:147-149 | collecting fails exactly when some result is an error, and then with the first error |
| Merge.CollectPrefixError | libexec/strum-evaluate.rb:147-149 | once a prefix of the results fails, collecting all of them fails with that prefix's error |
| Merge.CollectOne | libexec/strum-evaluate.rb:147-149 | a single result is passed on: its measure alone, or its error |
| Merge.PieceFrom | libexec/strum-evaluate.rb:145-149 | a parsed piece has one measure per measure string |
| Merge.PieceFromOk | libexec/strum-evaluate.rb:147-149 | measure `i` of the parsed piece is the lex and parse of measure string `i` |
| Merge.PieceFromErr | libexec/strum-evaluate.rb:147-149 | parsing the piece fails exactly when some measure string fails to lex or parse, with the first failing one's error |
| Merge.PieceFromOne | libexec/strum-evaluate.rb:147-149 | a single measure string yields its measure alone, or its error |
| Merge.ParseOne | libexec/strum-evaluate.rb:148 | `parse_measure(lex_measure(measure))` computes `MeasureFrom`, the lexer's error passed on unchanged |
| Merge.MeasureFromFresh | libexec/strum-evaluate.rb:120-142 | a parsed measure has at least one group, no empty group and no tied note |
| Merge.StrumParseKeeps | libexec/strum-evaluate.rb:144-194 | `strum_parse` keeps the number of measures, and each measure of the result is the merge of its parse, with every property of `MergeMeasureKeeps` |
| Merge.StrumParse | libexec/strum-evaluate.rb:144-194 | the parse loop followed by the merge loops computes `StrumParseOf` |
| Evaluator.StrumEvaluate | libexec/strum-evaluate.rb:196-257 | the nested loops compute `Render`: the measures' texts separated by single spaces |
| Evaluator.EvaluateMeasure | libexec/strum-evaluate.rb:200-251 | the loop over groups appends the measure's group texts, separated by single spaces |
| Evaluator.EvaluateGroup | libexec/strum-evaluate.rb:201-248 | the loop over notes appends the group's tokens, separated by single spaces |
| Evaluator.EvaluateNote | libexec/strum-evaluate.rb:202-247 | the appends for note `k`, in the source's order (opening bracket, rest or note, code, tie, bows, space, closing bracket), give the note's token followed by its separator |
| Evaluator.ChunkIsToken | libexec/strum-evaluate.rb:241-247 | appending the space of a non-last note before the closing bracket is the same as appending the token, then the separator |
| Evaluator.LevelCode | libexec/strum-evaluate.rb:214-234 | the duration code is empty exactly for a sextuplet and is otherwise made of the characters `1`, `2`, `4`, `6`, `8` and `.` |
| Evaluator.NoteText | libexec/strum-evaluate.rb:208-239 | a note's text is never empty and starts with `r` exactly for a rest and with `c` otherwise |
| Evaluator.Token | libexec/strum-evaluate.rb:202-247 | a token is never empty and ends with `}` exactly when it is the last note of its group and has a triplet level |
| Evaluator.GroupText | libexec/strum-evaluate.rb:201-248 | a group's tokens separated by single spaces; no contract of its own: `GroupOpensIff` and `GroupClosesIff` state how it begins and ends |
| Evaluator.MeasureText | libexec/strum-evaluate.rb:200-251 | a measure's group texts separated by single spaces; no contract of its own: `MeasureTextIsTokens` states it is the measure's tokens in reading order, separated by single spaces |
| Evaluator.Render | libexec/strum-evaluate.rb:196-257 | the measure texts separated by single spaces; no contract of its own: `RenderIsTokens` states it is every note's token in reading order, separated by single spaces, and `StrumEvaluate` that the loops compute it |
| Evaluator.LevelCodeEmptyIff | libexec/strum-evaluate.rb:214-234 | only a sextuplet has no duration code |
| Evaluator.NoteTextRest | libexec/strum-evaluate.rb:208-212 | a note's text starts with `r` exactly for a rest and with `c` otherwise |
| Evaluator.NoteTextTie | libexec/strum-evaluate.rb:236 | a note's text contains `~` exactly when the note is tied |
| Evaluator.NoteTextBow | libexec/strum-evaluate.rb:238-239 | a note's text ends in `\downbow` exactly for a downward stroke and in `\upbow` exactly for an upward one |
| Evaluator.NoteTextLast | libexec/strum-evaluate.rb:208-239 | a note's text never ends in `}`, and ends in `w` exactly when it carries a bow marker |
| Evaluator.TokenOpensIff | libexec/strum-evaluate.rb:202-206 | a token starts with `\tuplet 3/1 { ` exactly when it is the first note of its group and has a triplet level |
| Evaluator.TokenClosesIff | libexec/strum-evaluate.rb:243-247 | a token ends with ` }` exactly when it is the last note of its group and has a triplet level |
| Evaluator.TokenFirst | libexec/strum-evaluate.rb:202-212 | the first character of a token that opens no bracket is its note's `r` or `c` |
| Evaluator.TokenLast | libexec/strum-evaluate.rb:236-247 | a token that closes no bracket does not end in `}` |
| Evaluator.GroupOpensIff | libexec/strum-evaluate.rb:201-248 | a group's text opens a tuplet exactly when its first note has a triplet level |
| Evaluator.GroupClosesIff | libexec/strum-evaluate.rb:201-248 | a group's text closes a tuplet exactly when its last note has a triplet level |
| Evaluator.GroupTokens | libexec/strum-evaluate.rb:201 | a group yields one token per note |
| Evaluator.MeasureTokens | libexec/strum-evaluate.rb:200-201 | a measure yields one token per note in reading order |
| Evaluator.PieceTokens | libexec/strum-evaluate.rb:199-201 | a piece yields one token per note |
| Evaluator.MeasureTextIsTokens | libexec/strum-evaluate.rb:200-251 | without empty groups, a measure's text is its tokens separated by single spaces |
| Evaluator.RenderIsTokens | libexec/strum-evaluate.rb:196-257 | without empty measures or groups, the output is every note's token in reading order, separated by single spaces |
| Meter.Weight | libexec/strum-evaluate.rb:263-283 | a level weighs between 0 and 4 quarter notes, and weighs nothing exactly when it is a sextuplet |
| Meter.NotesWeight | libexec/strum-evaluate.rb:260-285 | the summed weight of notes is never negative and at most 4 for each note |
| Meter.Ceil | libexec/strum-evaluate.rb:288 | `t.ceil` is the least integer not below `t` |
| Meter.Digits | libexec/strum-evaluate.rb:288 | `to_s` of a count is a non-empty string of decimal digits |
| Meter.DigitsRoundTrip | libexec/strum-evaluate.rb:288 | the digits read back as the number, and only zero starts with `0` |
| Meter.FormatInjective | libexec/strum-evaluate.rb:288 | distinct beat counts give distinct signatures |
| Meter.Format | libexec/strum-evaluate.rb:288 | a signature is a non-empty run of decimal digits followed by `/4` |
| Meter.Signature | libexec/strum-evaluate.rb:259-289 | the signature is the format of the count `n` with `n - 1 < t <= n`, where `t` is the summed weight of the first measure's notes |
| Meter.Beats | libexec/strum-evaluate.rb:259-288 | the beat count is the ceiling of the summed weights of the measure's notes |
| Meter.TimeSignature | libexec/strum-evaluate.rb:259-289 | the loops over the first measure compute `Signature`: the ceiling of the summed weights, followed by `/4` |
| Meter.AddGroup | libexec/strum-evaluate.rb:262-284 | the loop over a group's notes adds their summed weight to `t` |
| Meter.AddNote | libexec/strum-evaluate.rb:263-283 | the `if` chain adds the weight of the note's level; a sextuplet adds nothing |
| Meter.WeightByDuration | libexec/strum-evaluate.rb:263-283 | every level outside the tuplets weighs its length in quarter notes; triplet, two-triplet and sextuplet weigh less |
| Meter.NotesWeightByDuration | libexec/strum-evaluate.rb:260-285 | the summed weight never exceeds the length in quarter notes, and equals it when no note has a tuplet level |
| Meter.PlainBeats | libexec/strum-evaluate.rb:259-288 | for a first measure without tuplets, the signature counts its length in quarter notes, rounded up |
| Pipeline.Compile | libexec/strum-pattern.rb:113-139 | the command succeeds exactly when every measure string lexes and parses |
| Pipeline.CompileSpec | libexec/strum-pattern.rb:113-119 | the command fails exactly when some measure string fails to lex or parse, with the first failing one's error; otherwise the notes are one token per merged note, separated by single spaces |
| Traces.QuartersExample | libexec/strum-pattern.rb:52 | `D-D-D-_` becomes two quarter notes and a half note, all down-bowed, in `4/4` |
| Traces.FourExample | libexec/strum-evaluate.rb:259-289 | `D-D-D-D` becomes four down-bowed quarter notes in `4/4` |
| Traces.InsideExample | libexec/strum-evaluate.rb:157-163 | `D_U` merges inside the group to a two-triplet and a triplet, bracketed once, in `1/4` |
| Traces.TieExample | libexec/strum-evaluate.rb:157-181 | in `D-___` the quarter cannot absorb the triplet extension of the next group, so it is tied; the three triplet extensions then merge into one quarter extension, rendered `c4`, and the signature is `2/4` |
| Traces.TupletExample | libexec/strum-evaluate.rb:168-181 | `DDD-___` absorbs two triplet extensions across the group boundary into a tied quarter. The opening bracket of the first group is never closed, the leftover extension is bracketed on its own, and the signature is `2/4` |
| Traces.LowerCaseExample | libexec/strum-evaluate.rb:111-113 | `d` passes the lexer and fails in the parser as an unknown note `d` |
| Traces.TrailingDashExample | libexec/strum-evaluate.rb:134-136 | `D-` lexes to a trailing empty group, which fails as an invalid group |
| Traces.ForeignCharExample | libexec/strum-evaluate.rb:86-88 | `Dx` fails in the lexer at position 2 with `x` |

## Left out

- Command-line handling in `libexec/strum-pattern.rb` is left out: options, usage text, the LilyPond
  templates, temporary files, running `lilypond` and copying its output. The model keeps only the
  guard that at least one measure is given, as a precondition of `Pipeline.Compile`. It also keeps
  the order of `strum_parse`, `strum_evaluate` and `time_signature`.
- `Strum#to_s` (`libexec/strum-evaluate.rb:61-69`) is left out; it is only a debugging aid.
- Exception messages are left out. An error is a value naming its kind and payload: the 1-based
  position and the character for the lexer, the group for an invalid group, and the character for an
  unknown note. The message text and Ruby's exception mechanism are not modelled.
- Meter.TimeSignature: weights are exact real numbers, not Ruby Floats. `0.66` and `0.33` have no
  exact binary form, so a long enough run of triplets could round differently there. Integer-only
  sums (Ruby keeps `t` an Integer) are modelled by the same exact reals.
- In-place mutation of the nested Ruby arrays is modelled by value sequences that the loops reassign.
  No strum or group is shared between two places of the piece, so no aliasing is lost.
- Notes.Duration: the lengths in twelfths of a quarter note exist only in the model. The length of a
  sextuplet, 2, is a modelling choice; a sextuplet never combines, so the value only enters the total
  length.
- The traces state the rendered notes as a list of tokens joined by single spaces.
  `Evaluator.RenderIsTokens` relates that list to the concatenated output for every piece.
- `Pipeline.Compile` yields the two strings the templates use. The templates' surrounding text is
  not modelled.
