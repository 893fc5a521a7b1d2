/** The command: measure strings in, the time signature and the note stream of the LilyPond score out. */
module Pipeline {
  import opened Outcome
  import opened Notes
  import Strings
  import Lexer
  import Parser
  import Merge
  import Evaluator
  import Meter

  /** The two texts the command writes into its score template. */
  datatype Score = Score(time: string, notes: string)

  /** `strum_parse`, then `strum_evaluate`, then `time_signature` on the merged piece. */
  function Compile(measures: seq<string>): (r: Result<Score>)
    requires |measures| >= 1
    ensures r.Ok? <==> forall i :: 0 <= i < |measures| ==> Merge.MeasureFrom(measures[i]).Ok?
  {
    match Merge.StrumParseOf(measures)
    case Err(e) => Err(e)
    case Ok(piece) =>
      Merge.StrumParseKeeps(measures);
      Ok(Score(Meter.Signature(piece), Evaluator.Render(piece)))
  }

  /** The command fails exactly when some measure string fails to lex or parse, with the first one's error;
      otherwise the notes are one token per merged note, separated by single spaces. */
  lemma CompileSpec(measures: seq<string>)
    requires |measures| >= 1
    ensures Compile(measures).Err? <==> exists i :: 0 <= i < |measures| && Merge.MeasureFrom(measures[i]).Err?
    ensures Compile(measures).Err? ==>
      exists i :: 0 <= i < |measures| && Merge.MeasureFrom(measures[i]) == Err(Compile(measures).error) &&
        forall i' :: 0 <= i' < i ==> Merge.MeasureFrom(measures[i']).Ok?
    ensures Compile(measures).Ok? ==>
      var piece := Merge.StrumParseOf(measures).value;
      Compile(measures).value.notes == Strings.Join(Evaluator.PieceTokens(piece), " ") &&
      |Evaluator.PieceTokens(piece)| == |Evaluator.PieceNotes(piece)|
  {
    Merge.PieceFromErr(measures);
    if Merge.StrumParseOf(measures).Ok? {
      var piece := Merge.StrumParseOf(measures).value;
      Merge.StrumParseKeeps(measures);
      assert Evaluator.Populated(piece) by {
        forall i | 0 <= i < |piece| ensures |piece[i]| > 0 && Merge.AllNonEmpty(piece[i]) {
          assert i < |measures|;
        }
      }
      Evaluator.RenderIsTokens(piece);
    }
  }
}
