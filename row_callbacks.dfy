/**
 The two row callbacks the overrides install. The export layer calls the
 installed callback on each row just before it serialises it; a callback
 overwrites column values of the row in place and hands the same row back.
 */
module RowCallbacks {
  import opened Schema
  import PillarUrl

  // ---------------------------------------------------------------------
  // rhnerrata: reset every `severity_id` column to its initial value

  /** The row with every `severity_id` value replaced by the column's
      initial value. */
  function SeverityReset(row: seq<RowData>): (r: seq<RowData>)
    ensures |r| == |row|
  {
    seq(|row|, i requires 0 <= i < |row| =>
      if row[i].ColumnName == "severity_id" then row[i].(Value := row[i].InitialValue) else row[i])
  }

  /** The `rhnerrata` callback: overwrites the value of every `severity_id`
      column of the row with that column's initial value. */
  method ResetSeverity(value: array<RowData>)
    modifies value
    ensures value[..] == SeverityReset(old(value[..]))
  {
    for i := 0 to value.Length
      invariant forall j :: 0 <= j < i ==> value[j] == SeverityReset(old(value[..]))[j]
      invariant forall j :: i <= j < value.Length ==> value[j] == old(value[j])
    {
      if value[i].ColumnName == "severity_id" {
        value[i] := value[i].(Value := value[i].InitialValue);
      }
    }
  }

  /** The reset keeps the row's columns and their order, gives every
      `severity_id` column its initial value and leaves every other column
      as it was. */
  lemma SeverityResetColumns(row: seq<RowData>)
    ensures var r := SeverityReset(row);
            && |r| == |row|
            && (forall i :: 0 <= i < |row| ==>
                  r[i].ColumnName == row[i].ColumnName && r[i].InitialValue == row[i].InitialValue)
            && (forall i :: 0 <= i < |row| && row[i].ColumnName == "severity_id" ==> r[i].Value == row[i].InitialValue)
            && (forall i :: 0 <= i < |row| && row[i].ColumnName != "severity_id" ==> r[i] == row[i])
  {
  }

  /** The reset discards the source's severity: rows that differ only in
      the values of their `severity_id` columns come out equal. */
  lemma SeverityResetForgetsSeverity(row: seq<RowData>, other: seq<RowData>)
    requires |row| == |other|
    requires forall i :: 0 <= i < |row| ==>
               && row[i].ColumnName == other[i].ColumnName
               && row[i].InitialValue == other[i].InitialValue
               && (row[i].ColumnName != "severity_id" ==> row[i].Value == other[i].Value)
    ensures SeverityReset(row) == SeverityReset(other)
  {
    var r, o := SeverityReset(row), SeverityReset(other);
    forall i | 0 <= i < |row| ensures r[i] == o[i] {
      if row[i].ColumnName != "severity_id" {
        assert row[i] == other[i];
      }
    }
  }

  /** Resetting twice is resetting once. */
  lemma SeverityResetIdempotent(row: seq<RowData>)
    ensures SeverityReset(SeverityReset(row)) == SeverityReset(row)
  {
  }

  // ---------------------------------------------------------------------
  // susesaltpillar: rewrite the image URLs in the pillar of an image pillar

  /** A `category` column whose text starts with "Image". */
  predicate IsImageCategory(c: RowData)
  {
    c.ColumnName == "category" && c.Value.Text? && "Image" <= c.Value.s
  }

  /** Some `category` column of the row marks it as an image pillar. */
  predicate IsImagePillar(row: seq<RowData>)
  {
    exists i :: 0 <= i < |row| && IsImageCategory(row[i])
  }

  /** The index of the last `pillar` column of the row, or 0 when there is
      none. */
  function PillarColumn(row: seq<RowData>): (p: nat)
    ensures row != [] ==> p < |row|
    ensures row == [] ==> p == 0
    ensures (exists i :: 0 <= i < |row| && row[i].ColumnName == "pillar") ==>
              && row[p].ColumnName == "pillar"
              && forall j :: p < j < |row| ==> row[j].ColumnName != "pillar"
    ensures (forall i :: 0 <= i < |row| ==> row[i].ColumnName != "pillar") ==> p == 0
  {
    if row == [] then 0
    else if row[|row| - 1].ColumnName == "pillar" then |row| - 1
    else
      var p := PillarColumn(row[..|row| - 1]);
      assert forall i :: 0 <= i < |row| - 1 ==> row[..|row| - 1][i] == row[i];
      p
  }

  /** The source's type assertions hold: every `category` column holds text,
      and when the row is an image pillar, the column it rewrites holds bytes. */
  predicate PillarRowWellTyped(row: seq<RowData>)
  {
    && (forall i :: 0 <= i < |row| && row[i].ColumnName == "category" ==> row[i].Value.Text?)
    && (IsImagePillar(row) ==> row[PillarColumn(row)].Value.Bytes?)
  }

  /** The `susesaltpillar` callback: when some `category` column starts with
      "Image", rewrites the image URLs in the last `pillar` column (column 0
      when there is none) to the placeholder host; otherwise leaves the row
      alone. */
  method RewriteImagePillar(value: array<RowData>)
    requires PillarRowWellTyped(value[..])
    modifies value
    ensures !IsImagePillar(old(value[..])) ==> value[..] == old(value[..])
    ensures IsImagePillar(old(value[..])) ==>
              var p := PillarColumn(old(value[..]));
              && value[..] == old(value[..])[p := old(value[p]).(Value := Bytes(PillarUrl.Rewrite(old(value[p]).Value.b)))]
              && PillarUrl.OnlyPlaceholderUrls(value[p].Value.b)
  {
    var isImagePillar := false;
    var pillarColumn := 0;
    var i := 0;
    while i < value.Length
      invariant 0 <= i <= value.Length
      invariant isImagePillar == IsImagePillar(value[..i])
      invariant pillarColumn == PillarColumn(value[..i])
    {
      var column := value[i];
      assert value[..i + 1] == value[..i] + [column];
      if column.ColumnName == "category" && "Image" <= column.Value.s {
        isImagePillar := true;
      } else if column.ColumnName == "pillar" {
        pillarColumn := i;
      }
      i := i + 1;
    }
    assert value[..i] == value[..];
    if isImagePillar {
      var rewritten := PillarUrl.Rewrite(value[pillarColumn].Value.b);
      PillarUrl.OnlyPlaceholderUrlsRemain(value[pillarColumn].Value.b);
      value[pillarColumn] := value[pillarColumn].(Value := Bytes(rewritten));
    }
  }
}
