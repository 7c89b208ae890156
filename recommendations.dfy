/**
 * The recommendation lookup (`get_recommendations`): five independent
 * equality filters on the disease name, one per reference table, each with
 * its own placeholder when the filter yields nothing.
 */
module Recommendations {
  import opened Tables

  const NoDescription := "No description available"
  const NoPrecautions := "No precautions available"
  const NoMedication := "No medication available"
  const NoDiet := "No diet plan available"
  const NoWorkout := "No workout plan available"

  /** The five reference tables, as loaded at startup. */
  datatype ReferenceTables = ReferenceTables(
    description: Table,  // columns Disease, Description
    precautions: Table,  // column Disease, then the precaution columns
    medications: Table,  // columns Disease, Medication
    diets: Table,        // columns Disease, Diet
    workouts: Table)     // columns disease, workout (lower case in this file)

  /** The tables have the columns the lookup reads by name. */
  predicate Valid(r: ReferenceTables) {
    && WellFormed(r.description) && "Disease" in r.description.header && "Description" in r.description.header
    && WellFormed(r.precautions) && "Disease" in r.precautions.header
    && WellFormed(r.medications) && "Disease" in r.medications.header && "Medication" in r.medications.header
    && WellFormed(r.diets) && "Disease" in r.diets.header && "Diet" in r.diets.header
    && WellFormed(r.workouts) && "disease" in r.workouts.header && "workout" in r.workouts.header
  }

  /** The result of a lookup: one entry per field of the returned dictionary. */
  datatype Bundle = Bundle(
    description: string,
    precautions: seq<string>,
    medications: seq<string>,
    diet: seq<string>,
    workout: seq<string>)

  /** The values found, or a one-element list of the placeholder when none were found. */
  function OrPlaceholder(values: seq<string>, placeholder: string): seq<string> {
    if |values| > 0 then values else [placeholder]
  }

  /** The first description found for the disease, or the description placeholder. */
  function Description(t: Table, disease: string): string
    requires WellFormed(t) && "Disease" in t.header && "Description" in t.header
  {
    var values := Select(t, "Disease", disease, "Description");
    if |values| > 0 then values[0] else NoDescription
  }

  /** Every column from position 1 on of the matching rows, row after row. */
  function Precautions(t: Table, disease: string): seq<string>
    requires WellFormed(t) && "Disease" in t.header
  {
    OrPlaceholder(SelectFlat(t, "Disease", disease, 1), NoPrecautions)
  }

  /** The number of columns after the first: the cells one row contributes. */
  function PrecautionColumns(t: Table): nat
    requires |t.header| > 0
  {
    |t.header| - 1
  }

  /** One column of the matching rows, with a placeholder when there are none:
      the shape shared by Medications, Diet and Workout. */
  function ListField(t: Table, keyColumn: string, valueColumn: string, disease: string, placeholder: string): seq<string>
    requires WellFormed(t) && keyColumn in t.header && valueColumn in t.header
  {
    OrPlaceholder(Select(t, keyColumn, disease, valueColumn), placeholder)
  }

  /** `get_recommendations`: the five lookups for one disease name. */
  function GetRecommendations(tables: ReferenceTables, disease: string): Bundle
    requires Valid(tables)
  {
    Bundle(
      Description(tables.description, disease),
      Precautions(tables.precautions, disease),
      ListField(tables.medications, "Disease", "Medication", disease, NoMedication),
      ListField(tables.diets, "Disease", "Diet", disease, NoDiet),
      ListField(tables.workouts, "disease", "workout", disease, NoWorkout))
  }

  /** The description is that of the first row for the disease; with no such
      row it is the description placeholder. */
  lemma DescriptionIsFirstMatch(t: Table, disease: string)
    requires WellFormed(t) && "Disease" in t.header && "Description" in t.header
    ensures (forall i :: 0 <= i < |t.rows| ==> !RowHas(t, i, "Disease", disease)) ==>
              Description(t, disease) == NoDescription
    ensures forall i :: 0 <= i < |t.rows| && RowHas(t, i, "Disease", disease) &&
                        (forall j :: 0 <= j < i ==> !RowHas(t, j, "Disease", disease)) ==>
              Description(t, disease) == Cell(t, i, "Description")
  {
    var k := ColumnIndex(t.header, "Disease");
    var idx := MatchIndices(t.rows, k, disease);
    if idx != [] {
      assert RowHas(t, idx[0], "Disease", disease);
      forall i | 0 <= i < |t.rows| && RowHas(t, i, "Disease", disease) &&
                 (forall j :: 0 <= j < i ==> !RowHas(t, j, "Disease", disease))
        ensures idx[0] == i
      {
        var j :| 0 <= j < |idx| && idx[j] == i;
        assert idx[0] <= idx[j];
      }
    }
  }

  /** Medications, Diet and Workout: for any listing `idx` of the matching rows
      in table order, the field holds the value cell of each listed row, in
      that order, none dropped; with no matching row it is the one-element
      placeholder list. It is never empty. */
  lemma {:induction false} ListFieldInTableOrder(t: Table, keyColumn: string, valueColumn: string,
                                                 disease: string, placeholder: string, idx: seq<nat>)
    requires WellFormed(t) && keyColumn in t.header && valueColumn in t.header
    requires Enumerates(t.rows, ColumnIndex(t.header, keyColumn), disease, idx)
    ensures ListField(t, keyColumn, valueColumn, disease, placeholder) != []
    ensures idx == [] ==> ListField(t, keyColumn, valueColumn, disease, placeholder) == [placeholder]
    ensures idx != [] ==>
              |ListField(t, keyColumn, valueColumn, disease, placeholder)| == |idx| &&
              forall j :: 0 <= j < |idx| ==>
                ListField(t, keyColumn, valueColumn, disease, placeholder)[j] == Cell(t, idx[j], valueColumn)
  {
    EnumerationUnique(t.rows, ColumnIndex(t.header, keyColumn), disease, idx);
  }

  /** Precautions: for any listing `idx` of the matching rows in table order,
      in a table of `width` columns, the field holds the cells from column 1
      on of the listed rows, row-major: (matching rows) * (width - 1) entries,
      with cell `1 + m` of the `j`-th listed row at `RowMajorIndex(j, m, width - 1)`,
      that is at `j * (width - 1) + m`.
      No cell is filtered out. With no matching row, or with no column after
      the first, it is the one-element placeholder list. */
  lemma {:induction false} PrecautionsRowMajor(t: Table, disease: string, idx: seq<nat>)
    requires WellFormed(t) && "Disease" in t.header
    requires Enumerates(t.rows, ColumnIndex(t.header, "Disease"), disease, idx)
    ensures Precautions(t, disease) != []
    ensures idx == [] || |t.header| == 1 ==> Precautions(t, disease) == [NoPrecautions]
    ensures idx != [] && |t.header| > 1 ==>
              |Precautions(t, disease)| == |idx| * PrecautionColumns(t) &&
              forall j, m :: 0 <= j < |idx| && 0 <= m < PrecautionColumns(t) ==>
                RowMajorIndex(j, m, PrecautionColumns(t)) < |Precautions(t, disease)| &&
                Precautions(t, disease)[RowMajorIndex(j, m, PrecautionColumns(t))] == t.rows[idx[j]][1 + m]
  {
    var w := PrecautionColumns(t);
    EnumerationUnique(t.rows, ColumnIndex(t.header, "Disease"), disease, idx);
    assert forall j :: 0 <= j < |idx| ==> t.rows[idx[j]] in t.rows;
    var flat := FlattenFrom(t.rows, idx, 1);
    assert Precautions(t, disease) == OrPlaceholder(flat, NoPrecautions);
    FlattenFromRowMajor(t.rows, idx, 1, w);
    if idx != [] && w > 0 {
      FlattenFromAt(t.rows, idx, 1, w, 0, 0);
    }
  }

  /** A disease with no row in a table gets that table's placeholder, and a
      list field is never empty, whatever the disease. */
  lemma {:induction false} Placeholders(tables: ReferenceTables, disease: string)
    requires Valid(tables)
    ensures GetRecommendations(tables, disease).precautions != []
    ensures GetRecommendations(tables, disease).medications != []
    ensures GetRecommendations(tables, disease).diet != []
    ensures GetRecommendations(tables, disease).workout != []
    ensures (forall i :: 0 <= i < |tables.description.rows| ==> !RowHas(tables.description, i, "Disease", disease)) ==>
              GetRecommendations(tables, disease).description == NoDescription
    ensures (forall i :: 0 <= i < |tables.precautions.rows| ==> !RowHas(tables.precautions, i, "Disease", disease)) ==>
              GetRecommendations(tables, disease).precautions == [NoPrecautions]
    ensures (forall i :: 0 <= i < |tables.medications.rows| ==> !RowHas(tables.medications, i, "Disease", disease)) ==>
              GetRecommendations(tables, disease).medications == [NoMedication]
    ensures (forall i :: 0 <= i < |tables.diets.rows| ==> !RowHas(tables.diets, i, "Disease", disease)) ==>
              GetRecommendations(tables, disease).diet == [NoDiet]
    ensures (forall i :: 0 <= i < |tables.workouts.rows| ==> !RowHas(tables.workouts, i, "disease", disease)) ==>
              GetRecommendations(tables, disease).workout == [NoWorkout]
  {
    DescriptionIsFirstMatch(tables.description, disease);
    PrecautionsNoRow(tables.precautions, disease);
    ListFieldNoRow(tables.medications, "Disease", "Medication", disease, NoMedication);
    ListFieldNoRow(tables.diets, "Disease", "Diet", disease, NoDiet);
    ListFieldNoRow(tables.workouts, "disease", "workout", disease, NoWorkout);
  }

  /** Precautions are never empty, and are the placeholder list for a disease
      with no row. */
  lemma PrecautionsNoRow(t: Table, disease: string)
    requires WellFormed(t) && "Disease" in t.header
    ensures Precautions(t, disease) != []
    ensures (forall i :: 0 <= i < |t.rows| ==> !RowHas(t, i, "Disease", disease)) ==>
              Precautions(t, disease) == [NoPrecautions]
  {
    var idx := MatchIndices(t.rows, ColumnIndex(t.header, "Disease"), disease);
    PrecautionsRowMajor(t, disease, idx);
    if forall i :: 0 <= i < |t.rows| ==> !RowHas(t, i, "Disease", disease) {
      NoRowNoMatch(t, "Disease", disease);
    }
  }

  /** A list field is never empty, and is the placeholder list for a disease
      with no row. */
  lemma ListFieldNoRow(t: Table, keyColumn: string, valueColumn: string, disease: string, placeholder: string)
    requires WellFormed(t) && keyColumn in t.header && valueColumn in t.header
    ensures ListField(t, keyColumn, valueColumn, disease, placeholder) != []
    ensures (forall i :: 0 <= i < |t.rows| ==> !RowHas(t, i, keyColumn, disease)) ==>
              ListField(t, keyColumn, valueColumn, disease, placeholder) == [placeholder]
  {
    var idx := MatchIndices(t.rows, ColumnIndex(t.header, keyColumn), disease);
    ListFieldInTableOrder(t, keyColumn, valueColumn, disease, placeholder, idx);
    if forall i :: 0 <= i < |t.rows| ==> !RowHas(t, i, keyColumn, disease) {
      NoRowNoMatch(t, keyColumn, disease);
    }
  }

  /** With no row for the key, the filter lists no position. */
  lemma NoRowNoMatch(t: Table, column: string, key: string)
    requires column in t.header
    requires forall i :: 0 <= i < |t.rows| ==> !RowHas(t, i, column, key)
    ensures MatchIndices(t.rows, ColumnIndex(t.header, column), key) == []
  {
    var idx := MatchIndices(t.rows, ColumnIndex(t.header, column), key);
    if idx != [] {
      assert RowHas(t, idx[0], column, key);
    }
  }
}
