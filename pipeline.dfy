/**
 * The whole request: encode the selected symptoms, let the classifier pick a
 * class index, decode it to a disease name and look up the recommendations
 * for that name; an empty selection gets a warning instead.
 */
module Pipeline {
  import opened Tables
  import opened Vocabulary
  import opened Labels
  import opened Encoder
  import opened Recommendations

  /** What the application builds once at startup and only reads afterwards. */
  datatype Context = Context(
    vocabulary: map<string, nat>,   // symptoms_dict
    diseases: map<int, string>,     // diseases_list
    references: ReferenceTables)

  /** The context can serve requests: the vocabulary addresses the vector one
      to one and the reference tables have the columns the lookup reads. */
  predicate Ready(ctx: Context) {
    IsVocabulary(ctx.vocabulary) && Valid(ctx.references)
  }

  /** The startup computations: the vocabulary from the training table's
      header and the label table from its `prognosis` column. */
  function Load(training: Table, references: ReferenceTables): (ctx: Context)
    requires WellFormed(training) && LabelColumn in training.header
    requires Valid(references)
    ensures Ready(ctx)
    ensures |ctx.vocabulary| == |training.header| - 1
    ensures forall name :: name in ctx.vocabulary <==> name in training.header && name != LabelColumn
    ensures forall i :: i in ctx.diseases <==> 0 <= i < |SortedDistinct(Column(training, LabelColumn))|
    ensures forall i :: 0 <= i < |SortedDistinct(Column(training, LabelColumn))| ==>
              ctx.diseases[i] == SortedDistinct(Column(training, LabelColumn))[i]
    ensures forall y :: y in ctx.diseases.Values <==> y in Column(training, LabelColumn)
    ensures ctx.references == references
  {
    VocabularyFromTraining(training);
    LabelTableOfTraining(Column(training, LabelColumn));
    Context(
      BuildVocabulary(training.header),
      LabelTable(SortedDistinct(Column(training, LabelColumn))),
      references)
  }

  /** The disease `predict_disease` answers for a selection. */
  function Prediction(ctx: Context, classify: seq<int> -> int, symptoms: seq<string>): string {
    Decode(ctx.diseases, classify(Encoding(ctx.vocabulary, symptoms)))
  }

  /** `predict_disease`: encode, classify, decode; the classifier is the parameter `classify`. */
  method PredictDisease(ctx: Context, classify: seq<int> -> int, symptoms: seq<string>) returns (disease: string)
    requires IsVocabulary(ctx.vocabulary)
    ensures disease == Prediction(ctx, classify, symptoms)
    ensures disease == UnknownDisease || disease in ctx.diseases.Values
  {
    var features := Encode(ctx.vocabulary, symptoms);
    var predicted := classify(features);
    disease := Decode(ctx.diseases, predicted);
  }

  const EmptySelectionWarning := "\U{26A0}\U{FE0F} Please select at least one symptom."

  /** What pressing the predict button produces. */
  datatype Outcome =
    | Warning(message: string)
    | Shown(disease: string, recommendations: Bundle)

  /** The button handler: an empty selection is refused with a warning and
      runs nothing; otherwise the prediction and its recommendations. */
  method Submit(ctx: Context, classify: seq<int> -> int, selected: seq<string>) returns (outcome: Outcome)
    requires Ready(ctx)
    ensures selected == [] <==> outcome.Warning?
    ensures selected == [] ==> outcome == Warning(EmptySelectionWarning)
    ensures selected != [] ==>
              outcome == Shown(Prediction(ctx, classify, selected),
                               GetRecommendations(ctx.references, Prediction(ctx, classify, selected)))
  {
    if selected == [] {
      outcome := Warning(EmptySelectionWarning);
    } else {
      var disease := PredictDisease(ctx, classify, selected);
      outcome := Shown(disease, GetRecommendations(ctx.references, disease));
    }
  }

  /** With the tables loaded at startup, the classifier always receives a
      vector with one 0/1 entry per symptom column, and the answer is a
      training label or the sentinel. */
  lemma PredictionFromTraining(training: Table, references: ReferenceTables,
                               classify: seq<int> -> int, symptoms: seq<string>)
    requires WellFormed(training) && LabelColumn in training.header
    requires Valid(references)
    ensures |Encoding(Load(training, references).vocabulary, symptoms)| == |training.header| - 1
    ensures Prediction(Load(training, references), classify, symptoms) in Column(training, LabelColumn) ||
            Prediction(Load(training, references), classify, symptoms) == UnknownDisease
  {
    var ctx := Load(training, references);
    var d := Prediction(ctx, classify, symptoms);
    if d != UnknownDisease {
      assert d in ctx.diseases.Values;
    }
  }

  /** Two selections with the same recognised names get the same answer:
      unknown names, repetitions and the order of selection do not matter,
      and asking twice gives the same result. */
  lemma SameRecognisedSameOutcome(ctx: Context, classify: seq<int> -> int, a: seq<string>, b: seq<string>)
    requires Ready(ctx)
    requires Recognised(ctx.vocabulary, a) == Recognised(ctx.vocabulary, b)
    ensures Prediction(ctx, classify, a) == Prediction(ctx, classify, b)
    ensures GetRecommendations(ctx.references, Prediction(ctx, classify, a)) ==
            GetRecommendations(ctx.references, Prediction(ctx, classify, b))
  {
    EncodingDependsOnRecognised(ctx.vocabulary, a, b);
  }
}
