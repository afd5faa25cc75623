/** The fixed column layout of the BOM table: the pixel widths of the column
    kinds, the five supplier-rate columns, and the nine BOM columns in display
    order. */
module TableConstants {

  import Seqs

  const ItemCodeWidth: nat := 150
  const MaterialWidth: nat := 200
  const QuantityWidth: nat := 100
  const EstimatedRateWidth: nat := 150
  const SupplierWidth: nat := 180
  /** Declared beside the others; no width computation reads it. */
  const DefaultWidth: nat := 150

  const SupplierColumns: seq<string> := [
    "Supplier 1 (Rate)",
    "Supplier 2 (Rate)",
    "Supplier 3 (Rate)",
    "Supplier 4 (Rate)",
    "Supplier 5 (Rate)"
  ]

  /** The four descriptive columns that precede the supplier rates. */
  const FixedColumns: seq<string> := ["Item Code", "Material", "Quantity", "Estimated Rate"]

  const BomColumns: seq<string> := FixedColumns + SupplierColumns

  /** The shape of the layout: five suppliers, nine columns, the suppliers
      as the suffix, every column named once, every width positive. */
  lemma LayoutFacts()
    ensures |SupplierColumns| == 5
    ensures |BomColumns| == 9
    ensures BomColumns[4..] == SupplierColumns
    ensures BomColumns[..4] == FixedColumns
    ensures Seqs.Distinct(BomColumns)
    ensures ItemCodeWidth > 0 && MaterialWidth > 0 && QuantityWidth > 0
    ensures EstimatedRateWidth > 0 && SupplierWidth > 0 && DefaultWidth > 0
  {
    var b := BomColumns;
    assert b[0] == "Item Code" && b[1] == "Material" && b[2] == "Quantity" && b[3] == "Estimated Rate";
    assert b[4] == "Supplier 1 (Rate)" && b[5] == "Supplier 2 (Rate)" && b[6] == "Supplier 3 (Rate)";
    assert b[7] == "Supplier 4 (Rate)" && b[8] == "Supplier 5 (Rate)";
    forall i, j | 0 <= i < j < |b|
      ensures b[i] != b[j]
    {
      DistinctNine(b, i, j);
    }
  }

  /** Any two of the nine column names differ in a character (the letters
      `I`, `M`, `Q`, `E`, `S` at the front or the digit in the supplier names). */
  lemma DistinctNine(b: seq<string>, i: int, j: int)
    requires b == BomColumns
    requires 0 <= i < j < 9
    ensures b[i] != b[j]
  {
    assert b[0][0] == 'I' && b[1][0] == 'M' && b[2][0] == 'Q' && b[3][0] == 'E';
    assert forall k :: 4 <= k < 9 ==> b[k][0] == 'S';
    assert b[4][9] == '1' && b[5][9] == '2' && b[6][9] == '3' && b[7][9] == '4' && b[8][9] == '5';
  }

  /** In the column layout, `indexOf` and indexing are inverse: a column's
      position is the one `indexOf` reports. */
  lemma BomIndexOf(i: int)
    requires 0 <= i < |BomColumns|
    ensures Seqs.IndexOf(BomColumns, BomColumns[i]) == i
  {
    LayoutFacts();
    Seqs.IndexOfDistinct(BomColumns, i);
  }
}
