/**
 * The label table: the distinct values of the training table's `prognosis`
 * column in sorted order (what a label encoder's `classes_` holds), numbered
 * 0..K-1, and the decoder that turns a predicted class index back into a
 * disease name, falling back to a fixed sentinel for an index it does not know.
 */
module Labels {

  /** What the decoder answers for an index that is not in the table. */
  const UnknownDisease := "Unknown disease"

  /** Lexicographic order on strings by character code, as strings compare
      when the labels are sorted. */
  predicate Before(a: string, b: string) {
    if a == [] then b != []
    else if b == [] then false
    else if a[0] != b[0] then a[0] < b[0]
    else Before(a[1..], b[1..])
  }

  lemma {:induction false} BeforeIrreflexive(a: string)
    ensures !Before(a, a)
  {
    if a != [] { BeforeIrreflexive(a[1..]); }
  }

  lemma {:induction false} BeforeTransitive(a: string, b: string, c: string)
    requires Before(a, b) && Before(b, c)
    ensures Before(a, c)
  {
    if a != [] && a[0] == b[0] && b[0] == c[0] {
      BeforeTransitive(a[1..], b[1..], c[1..]);
    }
  }

  lemma {:induction false} BeforeTotal(a: string, b: string)
    requires a != b
    ensures Before(a, b) || Before(b, a)
  {
    if a != [] && b != [] && a[0] == b[0] {
      assert a == [a[0]] + a[1..] && b == [b[0]] + b[1..];
      BeforeTotal(a[1..], b[1..]);
    }
  }

  lemma BeforeAsymmetric(a: string, b: string)
    requires Before(a, b)
    ensures !Before(b, a)
  {
    if Before(b, a) {
      BeforeTransitive(a, b, a);
      BeforeIrreflexive(a);
    }
  }

  /** Every element comes before every later one: sorted and without repetitions. */
  predicate StrictlySorted(s: seq<string>) {
    forall i, j :: 0 <= i < j < |s| ==> Before(s[i], s[j])
  }

  /** `x` put into the sorted sequence `s` at its place, unless it is there already. */
  function Insert(s: seq<string>, x: string): (r: seq<string>)
    requires StrictlySorted(s)
    ensures StrictlySorted(r)
    ensures forall y :: y in r <==> y in s || y == x
  {
    if s == [] then [x]
    else if x == s[0] then s
    else if Before(x, s[0]) then
      assert forall j :: 0 <= j < |s| ==> Before(x, s[j]) by {
        forall j | 0 < j < |s| ensures Before(x, s[j]) {
          BeforeTransitive(x, s[0], s[j]);
        }
      }
      [x] + s
    else
      BeforeTotal(x, s[0]);
      var rest := Insert(s[1..], x);
      assert forall y :: y in s[1..] ==> Before(s[0], y) by {
        forall y | y in s[1..] ensures Before(s[0], y) {
          var j :| 0 <= j < |s[1..]| && s[1..][j] == y;
          assert s[j + 1] == y;
        }
      }
      assert forall y :: y in s <==> y == s[0] || y in s[1..] by {
        assert s == [s[0]] + s[1..];
      }
      assert forall j :: 0 <= j < |rest| ==> rest[j] in rest;
      [s[0]] + rest
  }

  /** The distinct labels in sorted order (`classes_` of a label encoder fitted
      on `labels`). */
  function SortedDistinct(labels: seq<string>): (classes: seq<string>)
    ensures StrictlySorted(classes)
    ensures forall y :: y in classes <==> y in labels
  {
    if labels == [] then []
    else
      var n := |labels| - 1;
      assert forall y :: y in labels <==> y in labels[..n] || y == labels[n] by {
        assert labels == labels[..n] + [labels[n]];
      }
      Insert(SortedDistinct(labels[..n]), labels[n])
  }

  /** Two strictly sorted sequences with the same elements are the same
      sequence: the label table does not depend on how it is computed, only
      on the set of labels. */
  lemma {:induction false} StrictlySortedUnique(a: seq<string>, b: seq<string>)
    requires StrictlySorted(a) && StrictlySorted(b)
    requires forall y :: y in a <==> y in b
    ensures a == b
  {
    assert a != [] ==> a[0] in b;
    assert b != [] ==> b[0] in a;
    if a != [] && b != [] {
      assert a[0] == b[0] by {
        if a[0] != b[0] {
          assert b[0] in b && a[0] in a;
          var i :| 0 <= i < |a| && a[i] == b[0];
          var j :| 0 <= j < |b| && b[j] == a[0];
          assert Before(a[0], b[0]);
          assert Before(b[0], a[0]);
          BeforeAsymmetric(a[0], b[0]);
        }
      }
      assert a == [a[0]] + a[1..] && b == [b[0]] + b[1..];
      forall y ensures y in a[1..] ==> y in b[1..] {
        if y in a[1..] {
          var i :| 0 <= i < |a[1..]| && a[1..][i] == y;
          assert Before(a[0], a[i + 1]);
          BeforeIrreflexive(y);
          assert y in b;
        }
      }
      forall y ensures y in b[1..] ==> y in a[1..] {
        if y in b[1..] {
          var j :| 0 <= j < |b[1..]| && b[1..][j] == y;
          assert Before(b[0], b[j + 1]);
          BeforeIrreflexive(y);
          assert y in a;
        }
      }
      StrictlySortedUnique(a[1..], b[1..]);
    }
  }

  /** `diseases_list`: each class numbered by its position among the classes. */
  function LabelTable(classes: seq<string>): (table: map<int, string>)
    ensures forall i :: i in table <==> 0 <= i < |classes|
    ensures forall i :: 0 <= i < |classes| ==> table[i] == classes[i]
    ensures StrictlySorted(classes) ==>
              forall i, j :: i in table && j in table && i != j ==> table[i] != table[j]
  {
    assert forall i :: 0 <= i < |classes| ==> !Before(classes[i], classes[i]) by {
      forall i | 0 <= i < |classes| { BeforeIrreflexive(classes[i]); }
    }
    map i | 0 <= i < |classes| :: classes[i]
  }

  /** The disease name for a class index, or the sentinel when the table has no such key. */
  function Decode(table: map<int, string>, index: int): string {
    if index in table then table[index] else UnknownDisease
  }

  /** The label table built from the training labels has the keys 0..K-1,
      where K is the number of distinct labels; key i holds the i-th label in
      sorted order; and the table holds every training label. */
  lemma LabelTableOfTraining(labels: seq<string>)
    ensures forall i :: i in LabelTable(SortedDistinct(labels)) <==> 0 <= i < |SortedDistinct(labels)|
    ensures forall i, j :: 0 <= i < j < |SortedDistinct(labels)| ==>
              Before(LabelTable(SortedDistinct(labels))[i], LabelTable(SortedDistinct(labels))[j])
    ensures forall y :: y in LabelTable(SortedDistinct(labels)).Values <==> y in labels
  {
    var classes := SortedDistinct(labels);
    var table := LabelTable(classes);
    forall y ensures y in table.Values <==> y in labels {
      if y in labels {
        var i :| 0 <= i < |classes| && classes[i] == y;
        assert table[i] == y;
      }
    }
  }

  /** Decoding through the label table of the training labels: an index in
      0..K-1 gives the label at that position of the sorted distinct labels,
      any other index gives the sentinel. */
  lemma DecodeTraining(labels: seq<string>, index: int)
    ensures 0 <= index < |SortedDistinct(labels)| ==>
              Decode(LabelTable(SortedDistinct(labels)), index) == SortedDistinct(labels)[index]
    ensures !(0 <= index < |SortedDistinct(labels)|) ==>
              Decode(LabelTable(SortedDistinct(labels)), index) == UnknownDisease
  {
  }

  /** Whatever the index, the decoder answers a training label or the
      sentinel; when no training label is the sentinel text, it answers the
      sentinel exactly for the indices outside 0..K-1. */
  lemma DecodeLabelOrSentinel(labels: seq<string>, index: int)
    ensures Decode(LabelTable(SortedDistinct(labels)), index) in labels ||
            Decode(LabelTable(SortedDistinct(labels)), index) == UnknownDisease
    ensures UnknownDisease !in labels ==>
              (Decode(LabelTable(SortedDistinct(labels)), index) == UnknownDisease <==>
               !(0 <= index < |SortedDistinct(labels)|))
  {
    var classes := SortedDistinct(labels);
    if 0 <= index < |classes| {
      assert classes[index] in classes;
    }
  }
}
