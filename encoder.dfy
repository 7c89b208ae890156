/**
 * The symptom encoder: a zero vector with one entry per vocabulary name,
 * and every selected name that the vocabulary knows switches its entry to 1.
 * Names the vocabulary does not know are skipped without an error.
 */
module Encoder {
  import opened Vocabulary

  /** The selected names that the vocabulary knows. */
  function Recognised(vocabulary: map<string, nat>, symptoms: seq<string>): set<string> {
    set s | s in symptoms && s in vocabulary
  }

  /** The vector positions of the recognised selected names. */
  function Hits(vocabulary: map<string, nat>, symptoms: seq<string>): set<nat> {
    set s | s in symptoms && s in vocabulary :: vocabulary[s]
  }

  /** The feature vector of a selection. */
  function Encoding(vocabulary: map<string, nat>, symptoms: seq<string>): (features: seq<int>)
    ensures |features| == |vocabulary|
    ensures forall i :: 0 <= i < |features| ==> features[i] == 0 || features[i] == 1
    ensures forall i :: 0 <= i < |features| ==>
              (features[i] == 1 <==> exists s :: s in symptoms && s in vocabulary && vocabulary[s] == i)
  {
    seq(|vocabulary|, i => if i in Hits(vocabulary, symptoms) then 1 else 0)
  }

  /** The encoding loop of `predict_disease`: allocate a zero vector of
      length `|vocabulary|`, then set the entry of each recognised name to 1. */
  method Encode(vocabulary: map<string, nat>, symptoms: seq<string>) returns (features: seq<int>)
    requires IsVocabulary(vocabulary)
    ensures features == Encoding(vocabulary, symptoms)
  {
    var vector := new int[|vocabulary|](_ => 0);
    assert symptoms[..0] == [];
    for k := 0 to |symptoms|
      invariant vector[..] == Encoding(vocabulary, symptoms[..k])
    {
      var symptom := symptoms[k];
      assert symptoms[..k + 1] == symptoms[..k] + [symptom];
      if symptom in vocabulary {
        vector[vocabulary[symptom]] := 1;
        assert Hits(vocabulary, symptoms[..k + 1]) == Hits(vocabulary, symptoms[..k]) + {vocabulary[symptom]};
      } else {
        assert Hits(vocabulary, symptoms[..k + 1]) == Hits(vocabulary, symptoms[..k]);
      }
    }
    assert symptoms[..|symptoms|] == symptoms;
    features := vector[..];
  }

  /** The number of entries equal to 1. */
  function CountOnes(features: seq<int>): nat {
    if features == [] then 0
    else CountOnes(features[..|features| - 1]) + (if features[|features| - 1] == 1 then 1 else 0)
  }

  /** A 0/1 vector of length `n` with ones at the positions in `hits` has as
      many ones as `hits` has positions below `n`. */
  lemma {:induction false} IndicatorCount(n: nat, hits: set<nat>)
    ensures CountOnes(seq(n, i => if i in hits then 1 else 0)) == |set i | i in hits && i < n|
  {
    if n > 0 {
      var v := seq(n, i => if i in hits then 1 else 0);
      IndicatorCount(n - 1, hits);
      assert v[..n - 1] == seq(n - 1, i => if i in hits then 1 else 0);
      var below := set i | i in hits && i < n - 1;
      if n - 1 in hits {
        assert (set i | i in hits && i < n) == below + {n - 1};
      } else {
        assert (set i | i in hits && i < n) == below;
      }
    }
  }

  /** One-to-one indices: distinct names give distinct positions, so the set
      of positions of `names` is as large as `names`. */
  lemma {:induction false} ImageCardinality(vocabulary: map<string, nat>, names: set<string>)
    requires IsVocabulary(vocabulary) && names <= vocabulary.Keys
    ensures |set s | s in names :: vocabulary[s]| == |names|
  {
    if names != {} {
      var x :| x in names;
      var rest := names - {x};
      ImageCardinality(vocabulary, rest);
      var image := set s | s in names :: vocabulary[s];
      var restImage := set s | s in rest :: vocabulary[s];
      assert image == restImage + {vocabulary[x]};
      assert vocabulary[x] !in restImage;
    }
  }

  /** The vector has exactly as many ones as there are distinct recognised
      selected names. */
  lemma OnesCount(vocabulary: map<string, nat>, symptoms: seq<string>)
    requires IsVocabulary(vocabulary)
    ensures CountOnes(Encoding(vocabulary, symptoms)) == |Recognised(vocabulary, symptoms)|
  {
    var hits := Hits(vocabulary, symptoms);
    IndicatorCount(|vocabulary|, hits);
    assert (set i | i in hits && i < |vocabulary|) == hits;
    var names := Recognised(vocabulary, symptoms);
    ImageCardinality(vocabulary, names);
    assert hits == set s | s in names :: vocabulary[s];
  }

  /** An empty selection gives the all-zero vector of length `|vocabulary|`. */
  lemma EmptySelection(vocabulary: map<string, nat>)
    ensures Encoding(vocabulary, []) == seq(|vocabulary|, _ => 0)
    ensures CountOnes(Encoding(vocabulary, [])) == 0
  {
    ZerosCount(|vocabulary|);
  }

  /** The all-zero vector has no ones. */
  lemma {:induction false} ZerosCount(n: nat)
    ensures CountOnes(seq(n, _ => 0)) == 0
  {
    if n > 0 {
      ZerosCount(n - 1);
      assert seq(n, _ => 0)[..n - 1] == seq(n - 1, _ => 0);
    }
  }

  /** The vector depends only on which recognised names are selected: names
      the vocabulary does not know, repetitions and the order of the
      selection change nothing. */
  lemma EncodingDependsOnRecognised(vocabulary: map<string, nat>, a: seq<string>, b: seq<string>)
    requires Recognised(vocabulary, a) == Recognised(vocabulary, b)
    ensures Encoding(vocabulary, a) == Encoding(vocabulary, b)
  {
    assert Hits(vocabulary, a) == Hits(vocabulary, b) by {
      forall i | i in Hits(vocabulary, a) ensures i in Hits(vocabulary, b) {
        var s :| s in a && s in vocabulary && vocabulary[s] == i;
        assert s in Recognised(vocabulary, a);
      }
      forall i | i in Hits(vocabulary, b) ensures i in Hits(vocabulary, a) {
        var s :| s in b && s in vocabulary && vocabulary[s] == i;
        assert s in Recognised(vocabulary, b);
      }
    }
  }

  /** Appending a name the vocabulary does not know leaves the vector as it is. */
  lemma UnknownNameIgnored(vocabulary: map<string, nat>, symptoms: seq<string>, unknown: string)
    requires unknown !in vocabulary
    ensures Encoding(vocabulary, symptoms + [unknown]) == Encoding(vocabulary, symptoms)
  {
    assert Recognised(vocabulary, symptoms + [unknown]) == Recognised(vocabulary, symptoms);
    EncodingDependsOnRecognised(vocabulary, symptoms + [unknown], symptoms);
  }
}
