/**
 * The rows of an object layout table: a field placed by the layouter, or a
 * synthesized gap (object header, padding between fields, or the loss due to
 * the alignment of the next object), together with the raw class layout the
 * layouter hands over and a few measures over sequences of rows.
 */
module Layout {

  /** The three kinds of region that have no backing field. */
  datatype GapKind = ObjectHeader | AlignmentPadding | NextObjectAlignment
  {
    /** The text shown in the layout table for a gap of this kind. */
    function Label(): string {
      match this
      case ObjectHeader => "(object header)"
      case AlignmentPadding => "(alignment/padding gap)"
      case NextObjectAlignment => "(loss due to the next object alignment)"
    }
  }

  /**
   * One physical region of an instance. `Field` is a field layout computed by
   * the layouter; `Gap` is the plugin's synthesized row. Both carry a byte
   * offset and a byte size.
   */
  datatype FieldLayout =
    | Field(hostClass: string, name: string, typeClass: string, offset: int, size: int)
    | Gap(offset: int, size: int, kind: GapKind)
  {
    /** First byte after this region. */
    function End(): int { offset + size }

    predicate IsPadding() { Gap? && kind == AlignmentPadding }
  }

  /** The layouter only ever reports real fields. */
  type ClassField = f: FieldLayout | f.Field? witness Field("", "", "", 0, 0)

  /** What the layouter computes for a class: header size, fields in layout order, instance size. */
  datatype ClassLayout = ClassLayout(headerSize: int, fields: seq<ClassField>, instanceSize: int)

  function Last(rows: seq<FieldLayout>): FieldLayout
    requires |rows| > 0
  {
    rows[|rows| - 1]
  }

  /** The field rows of a table, in table order (the gap rows dropped). */
  function FieldRows(rows: seq<FieldLayout>): (r: seq<FieldLayout>)
    ensures |r| <= |rows|
    ensures forall i :: 0 <= i < |r| ==> r[i].Field?
  {
    if rows == [] then []
    else (if rows[0].Field? then [rows[0]] else []) + FieldRows(rows[1..])
  }

  /** Sum of the sizes of all rows. */
  function SumSizes(rows: seq<FieldLayout>): int
  {
    if rows == [] then 0 else rows[0].size + SumSizes(rows[1..])
  }

  /** Sum of the sizes of the "(alignment/padding gap)" rows. */
  function PaddingLoss(rows: seq<FieldLayout>): int
  {
    if rows == [] then 0
    else (if rows[0].IsPadding() then rows[0].size else 0) + PaddingLoss(rows[1..])
  }

  /** Every row starts exactly where the row before it ends. */
  ghost predicate Contiguous(rows: seq<FieldLayout>)
  {
    forall i :: 0 <= i < |rows| - 1 ==> rows[i].End() == rows[i + 1].offset
  }

  lemma {:induction false} FieldRowsAppend(a: seq<FieldLayout>, b: seq<FieldLayout>)
    ensures FieldRows(a + b) == FieldRows(a) + FieldRows(b)
  {
    if a == [] {
      assert a + b == b;
    } else {
      assert (a + b)[1..] == a[1..] + b;
      FieldRowsAppend(a[1..], b);
    }
  }

  lemma {:induction false} SumSizesAppend(a: seq<FieldLayout>, b: seq<FieldLayout>)
    ensures SumSizes(a + b) == SumSizes(a) + SumSizes(b)
  {
    if a == [] {
      assert a + b == b;
    } else {
      assert (a + b)[1..] == a[1..] + b;
      SumSizesAppend(a[1..], b);
    }
  }

  lemma {:induction false} PaddingLossAppend(a: seq<FieldLayout>, b: seq<FieldLayout>)
    ensures PaddingLoss(a + b) == PaddingLoss(a) + PaddingLoss(b)
  {
    if a == [] {
      assert a + b == b;
    } else {
      assert (a + b)[1..] == a[1..] + b;
      PaddingLossAppend(a[1..], b);
    }
  }

  /** Appending a row keeps a table contiguous exactly when the row starts where the table ends. */
  lemma ContiguousAppend(rows: seq<FieldLayout>, row: FieldLayout)
    requires |rows| > 0
    ensures Contiguous(rows + [row]) <==> Contiguous(rows) && Last(rows).End() == row.offset
  {
    var r := rows + [row];
    if Contiguous(r) {
      assert r[|rows| - 1].End() == r[|rows|].offset;
      forall i | 0 <= i < |rows| - 1 ensures rows[i].End() == rows[i + 1].offset {
        assert r[i] == rows[i] && r[i + 1] == rows[i + 1];
      }
    }
  }

  /** In a contiguous table the sizes add up to the span from the first row's offset to the last row's end. */
  lemma {:induction false} ContiguousSumSizes(rows: seq<FieldLayout>)
    requires |rows| > 0 && Contiguous(rows)
    ensures SumSizes(rows) == Last(rows).End() - rows[0].offset
  {
    if |rows| > 1 {
      var tail := rows[1..];
      assert rows[0].End() == rows[1].offset;
      assert Contiguous(tail) by {
        forall i | 0 <= i < |tail| - 1 ensures tail[i].End() == tail[i + 1].offset {
          assert tail[i] == rows[i + 1] && tail[i + 1] == rows[i + 2];
        }
      }
      ContiguousSumSizes(tail);
      assert Last(tail) == Last(rows);
    } else {
      assert rows[1..] == [];
    }
  }
}
