/**
 * The symptom vocabulary: every column of the training table except the
 * label column `prognosis` is a symptom, and the symptom's position among
 * those columns is its index in the feature vector.
 */
module Vocabulary {
  import opened Tables

  /** The column of the training table that holds the disease label. */
  const LabelColumn := "prognosis"

  /** The header with the label column dropped, the other names in order. */
  function SymptomColumns(header: seq<string>): (cols: seq<string>)
    ensures forall c :: c in cols <==> c in header && c != LabelColumn
  {
    if header == [] then []
    else (if header[0] == LabelColumn then [] else [header[0]]) + SymptomColumns(header[1..])
  }

  /** Each name numbered by its position, a later position overwriting an
      earlier one: each name maps to a position that holds it. */
  function Enumerate(cols: seq<string>): (v: map<string, nat>)
    ensures forall name :: name in v <==> name in cols
    ensures forall name :: name in v ==> v[name] < |cols| && cols[v[name]] == name
  {
    if cols == [] then map[]
    else
      var n := |cols| - 1;
      assert forall i :: 0 <= i < n ==> cols[..n][i] == cols[i];
      assert forall name :: name in cols <==> name in cols[..n] || name == cols[n] by {
        assert cols == cols[..n] + [cols[n]];
      }
      Enumerate(cols[..n])[cols[n] := n]
  }

  /** A name that occurs twice keeps its last position, as a dict keeps the
      last value written for a key. */
  lemma {:induction false} EnumerateKeepsLast(cols: seq<string>, name: string, j: nat)
    requires name in Enumerate(cols) && Enumerate(cols)[name] < j < |cols|
    ensures cols[j] != name
  {
    var n := |cols| - 1;
    if name != cols[n] && j < n {
      assert Enumerate(cols)[name] == Enumerate(cols[..n])[name];
      EnumerateKeepsLast(cols[..n], name, j);
      assert cols[..n][j] == cols[j];
    }
  }

  /** `symptoms_dict`, built from the training table's header. */
  function BuildVocabulary(header: seq<string>): map<string, nat> {
    Enumerate(SymptomColumns(header))
  }

  /** A usable vocabulary: indices are distinct and lie in `[0, |vocabulary|)`,
      so they address a vector of `|vocabulary|` entries one-to-one. */
  predicate IsVocabulary(vocabulary: map<string, nat>) {
    && (forall name :: name in vocabulary ==> vocabulary[name] < |vocabulary|)
    && (forall a, b :: a in vocabulary && b in vocabulary && a != b ==> vocabulary[a] != vocabulary[b])
  }

  /** A sequence without repetitions has as many elements as its set. */
  lemma {:induction false} DistinctCardinality(cols: seq<string>)
    requires Distinct(cols)
    ensures |set c | c in cols| == |cols|
  {
    if cols != [] {
      var tail := cols[1..];
      assert Distinct(tail) by {
        forall i, j | 0 <= i < j < |tail| ensures tail[i] != tail[j] {
          assert tail[i] == cols[i + 1] && tail[j] == cols[j + 1];
        }
      }
      DistinctCardinality(tail);
      assert (set c | c in cols) == (set c | c in tail) + {cols[0]} by {
        assert cols == [cols[0]] + tail;
      }
      assert cols[0] !in tail by {
        forall i | 0 <= i < |tail| ensures tail[i] != cols[0] {
          assert tail[i] == cols[i + 1];
        }
      }
    }
  }

  /** Dropping the label column from a header with unique names removes
      exactly that one column and keeps the others in their order. */
  lemma {:induction false} SymptomColumnsDropLabel(header: seq<string>)
    requires Distinct(header) && LabelColumn in header
    ensures SymptomColumns(header) ==
      header[..ColumnIndex(header, LabelColumn)] + header[ColumnIndex(header, LabelColumn) + 1..]
  {
    var p := ColumnIndex(header, LabelColumn);
    if p == 0 {
      assert LabelColumn !in header[1..] by {
        forall i | 0 <= i < |header| - 1 ensures header[1..][i] != LabelColumn {
          assert header[1..][i] == header[i + 1];
        }
      }
      NoLabelUnchanged(header[1..]);
    } else {
      var tail := header[1..];
      assert Distinct(tail) by {
        forall i, j | 0 <= i < j < |tail| ensures tail[i] != tail[j] {
          assert tail[i] == header[i + 1] && tail[j] == header[j + 1];
        }
      }
      assert tail[p - 1] == LabelColumn;
      assert ColumnIndex(tail, LabelColumn) == p - 1;
      SymptomColumnsDropLabel(tail);
      assert header[..p] == [header[0]] + tail[..p - 1];
      assert header[p + 1..] == tail[p..];
    }
  }

  /** Without a label column, the header is left as it is. */
  lemma {:induction false} NoLabelUnchanged(header: seq<string>)
    requires LabelColumn !in header
    ensures SymptomColumns(header) == header
  {
    if header != [] {
      assert LabelColumn !in header[1..];
      NoLabelUnchanged(header[1..]);
    }
  }

  /** Enumerating names without repetitions gives each its own position,
      and the result is a usable vocabulary of `|cols|` names. */
  lemma EnumerateDistinct(cols: seq<string>)
    requires Distinct(cols)
    ensures |Enumerate(cols)| == |cols|
    ensures forall i :: 0 <= i < |cols| ==> cols[i] in Enumerate(cols) && Enumerate(cols)[cols[i]] == i
    ensures IsVocabulary(Enumerate(cols))
  {
    var v := Enumerate(cols);
    DistinctCardinality(cols);
    assert v.Keys == set c | c in cols;
    forall i | 0 <= i < |cols| ensures cols[i] in v && v[cols[i]] == i {
      assert cols[i] in v.Keys;
    }
  }

  /** Removing one position from a sequence without repetitions leaves a
      shorter sequence without repetitions. */
  lemma RemoveAtDistinct(s: seq<string>, p: nat)
    requires Distinct(s) && p < |s|
    ensures |s[..p] + s[p + 1..]| == |s| - 1
    ensures Distinct(s[..p] + s[p + 1..])
  {
    var r := s[..p] + s[p + 1..];
    forall i, j | 0 <= i < j < |r| ensures r[i] != r[j] {
      var i' := if i < p then i else i + 1;
      var j' := if j < p then j else j + 1;
      assert r[i] == s[i'] && r[j] == s[j'];
    }
  }

  /** The vocabulary built from a training table that has the label column:
      its names are exactly the symptom columns, the i-th of them maps to i,
      and it has one entry fewer than the header has columns. */
  lemma {:induction false} VocabularyFromTraining(training: Table)
    requires WellFormed(training) && LabelColumn in training.header
    ensures IsVocabulary(BuildVocabulary(training.header))
    ensures |BuildVocabulary(training.header)| == |training.header| - 1
    ensures forall name :: name in BuildVocabulary(training.header) <==>
              name in training.header && name != LabelColumn
    ensures forall i :: 0 <= i < |SymptomColumns(training.header)| ==>
              BuildVocabulary(training.header)[SymptomColumns(training.header)[i]] == i
  {
    var header := training.header;
    var p := ColumnIndex(header, LabelColumn);
    var cols := SymptomColumns(header);
    SymptomColumnsDropLabel(header);
    RemoveAtDistinct(header, p);
    EnumerateDistinct(cols);
  }
}
