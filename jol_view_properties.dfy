/**
 * What the layout table and the loss figures promise: the header comes first,
 * the fields come through unchanged and in order, a padding row appears exactly
 * where a field starts beyond the next free byte, the losses add up, and, when
 * no field overlaps its predecessor, the rows follow each other without holes
 * and their sizes add up to the instance size.
 */
module JolViewProperties {
  import opened Layout
  import opened JolView

  /** No field starts before the end of the header or of the field before it. */
  ghost predicate NoOverlap(headerSize: int, fields: seq<ClassField>)
  {
    forall k :: 0 <= k < |fields| ==> fields[k].offset >= FreeBefore(headerSize, fields, k)
  }

  /** Every field starts exactly at the end of the header or of the field before it. */
  ghost predicate Packed(headerSize: int, fields: seq<ClassField>)
  {
    forall k :: 0 <= k < |fields| ==> fields[k].offset == FreeBefore(headerSize, fields, k)
  }

  ghost predicate FieldsDoNotOverlap(layout: ClassLayout)
  {
    NoOverlap(layout.headerSize, layout.fields)
  }

  /** Fields packed from the header on, and the instance ending where the last field ends. */
  ghost predicate TightlyPacked(layout: ClassLayout)
  {
    Packed(layout.headerSize, layout.fields)
    && layout.instanceSize == NextFreeAfter(layout.headerSize, layout.fields)
  }

  /** Each padding row is followed by a field row. */
  ghost predicate PaddingPrecedesField(rows: seq<FieldLayout>)
  {
    forall i :: 0 <= i < |rows| && rows[i].IsPadding() ==> i + 1 < |rows| && rows[i + 1].Field?
  }

  /**
   * In front of the field row at index i there is a padding row exactly when the
   * field starts beyond the end of the row before that; the padding then covers
   * exactly those bytes.
   */
  ghost predicate PaddingRuleAt(rows: seq<FieldLayout>, i: int)
    requires 1 <= i < |rows|
  {
    rows[i].Field? ==>
      if rows[i - 1].IsPadding() then
        && 2 <= i
        && !rows[i - 2].IsPadding()
        && rows[i].offset > rows[i - 2].End()
        && rows[i - 1] == Gap(rows[i - 2].End(), rows[i].offset - rows[i - 2].End(), AlignmentPadding)
      else
        rows[i].offset <= rows[i - 1].End()
  }

  ghost predicate PaddingExactlyWhenNeeded(rows: seq<FieldLayout>)
  {
    forall i :: 1 <= i < |rows| ==> PaddingRuleAt(rows, i)
  }

  /** The rule at a row depends only on the rows up to it. */
  lemma PaddingRuleAtAppend(rows: seq<FieldLayout>, more: seq<FieldLayout>, i: int)
    requires 1 <= i < |rows|
    ensures PaddingRuleAt(rows + more, i) == PaddingRuleAt(rows, i)
  {
  }

  // ---------------------------------------------------------------------------
  // Prefixes of the field list

  lemma NoOverlapPrefix(headerSize: int, fields: seq<ClassField>)
    requires |fields| > 0
    ensures NoOverlap(headerSize, fields) <==>
      NoOverlap(headerSize, fields[..|fields| - 1])
      && fields[|fields| - 1].offset >= FreeBefore(headerSize, fields, |fields| - 1)
  {
  }

  lemma PackedPrefix(headerSize: int, fields: seq<ClassField>)
    requires |fields| > 0
    ensures Packed(headerSize, fields) <==>
      Packed(headerSize, fields[..|fields| - 1])
      && fields[|fields| - 1].offset == FreeBefore(headerSize, fields, |fields| - 1)
  {
  }

  // ---------------------------------------------------------------------------
  // The loop state after a prefix of the fields

  /** The loop starts from the header row; apart from it, the only gaps the loop emits are padding rows. */
  lemma {:induction false} VisitedBasics(headerSize: int, fields: seq<ClassField>)
    ensures var s := Visited(headerSize, fields);
      && |s.objectLines| >= 1
      && s.objectLines[0] == HeaderRow(headerSize)
      && (forall i :: 0 < i < |s.objectLines| && s.objectLines[i].Gap? ==> s.objectLines[i].IsPadding())
    decreases |fields|
  {
    if fields != [] {
      VisitedBasics(headerSize, fields[..|fields| - 1]);
    }
  }

  /** The last row is the last field (or the header), it ends at `nextFree`, and it is no padding row. */
  lemma VisitedLastRow(headerSize: int, fields: seq<ClassField>)
    ensures var s := Visited(headerSize, fields);
      && |s.objectLines| >= 1
      && Last(s.objectLines).End() == s.nextFree
      && !Last(s.objectLines).IsPadding()
      && (fields != [] ==> Last(s.objectLines) == fields[|fields| - 1])
      && (fields == [] ==> s.objectLines == [HeaderRow(headerSize)])
  {
  }

  /** After the loop `nextFree` is the end of the last field, or the header size when there are none. */
  lemma VisitedNextFree(headerSize: int, fields: seq<ClassField>)
    ensures Visited(headerSize, fields).nextFree == NextFreeAfter(headerSize, fields)
  {
  }

  lemma {:induction false} VisitedFieldRows(headerSize: int, fields: seq<ClassField>)
    ensures FieldRows(Visited(headerSize, fields).objectLines) == fields
    decreases |fields|
  {
    if fields == [] {
      assert FieldRows([HeaderRow(headerSize)]) == [] + FieldRows([]);
    } else {
      var prefix := fields[..|fields| - 1];
      var f := fields[|fields| - 1];
      var s := Visited(headerSize, prefix);
      VisitedFieldRows(headerSize, prefix);
      assert FieldRows([f]) == [f] + FieldRows([]);
      if f.offset > s.nextFree {
        var pad := Gap(s.nextFree, f.offset - s.nextFree, AlignmentPadding);
        assert FieldRows([pad]) == [] + FieldRows([]);
        FieldRowsAppend(s.objectLines, [pad]);
        FieldRowsAppend(s.objectLines + [pad], [f]);
      } else {
        FieldRowsAppend(s.objectLines, [f]);
      }
      assert prefix + [f] == fields;
    }
  }

  lemma {:induction false} VisitedInterLoss(headerSize: int, fields: seq<ClassField>)
    ensures var s := Visited(headerSize, fields);
      s.interLoss == PaddingLoss(s.objectLines) && s.interLoss >= 0
    decreases |fields|
  {
    if fields == [] {
      assert PaddingLoss([HeaderRow(headerSize)]) == 0 + PaddingLoss([]);
    } else {
      var prefix := fields[..|fields| - 1];
      var f := fields[|fields| - 1];
      var s := Visited(headerSize, prefix);
      VisitedInterLoss(headerSize, prefix);
      assert PaddingLoss([f]) == 0 + PaddingLoss([]);
      if f.offset > s.nextFree {
        var pad := Gap(s.nextFree, f.offset - s.nextFree, AlignmentPadding);
        assert PaddingLoss([pad]) == pad.size + PaddingLoss([]);
        PaddingLossAppend(s.objectLines, [pad]);
        PaddingLossAppend(s.objectLines + [pad], [f]);
      } else {
        PaddingLossAppend(s.objectLines, [f]);
      }
    }
  }

  lemma {:induction false} VisitedPaddingPlacement(headerSize: int, fields: seq<ClassField>)
    ensures PaddingPrecedesField(Visited(headerSize, fields).objectLines)
    ensures PaddingExactlyWhenNeeded(Visited(headerSize, fields).objectLines)
    decreases |fields|
  {
    if fields != [] {
      var prefix := fields[..|fields| - 1];
      var f := fields[|fields| - 1];
      var s := Visited(headerSize, prefix);
      var rows := Visited(headerSize, fields).objectLines;
      VisitedPaddingPlacement(headerSize, prefix);
      VisitedLastRow(headerSize, prefix);
      var n := |s.objectLines|;
      var more := rows[n..];
      assert rows == s.objectLines + more;
      forall i | 1 <= i < |rows| ensures PaddingRuleAt(rows, i) {
        if i < n {
          PaddingRuleAtAppend(s.objectLines, more, i);
        }
      }
      if f.offset > s.nextFree {
        assert rows[n].IsPadding() && rows[n + 1] == f && |rows| == n + 2;
      } else {
        assert rows[n] == f && |rows| == n + 1;
      }
    }
  }

  lemma {:induction false} VisitedContiguous(headerSize: int, fields: seq<ClassField>)
    ensures Contiguous(Visited(headerSize, fields).objectLines) <==> NoOverlap(headerSize, fields)
    decreases |fields|
  {
    if fields != [] {
      var prefix := fields[..|fields| - 1];
      var f := fields[|fields| - 1];
      var s := Visited(headerSize, prefix);
      VisitedContiguous(headerSize, prefix);
      VisitedLastRow(headerSize, prefix);
      VisitedNextFree(headerSize, prefix);
      NoOverlapPrefix(headerSize, fields);
      if f.offset > s.nextFree {
        var pad := Gap(s.nextFree, f.offset - s.nextFree, AlignmentPadding);
        ContiguousAppend(s.objectLines, pad);
        ContiguousAppend(s.objectLines + [pad], f);
      } else {
        ContiguousAppend(s.objectLines, f);
      }
    }
  }

  /** Without overlaps the next free byte is the header, the field sizes and the padding added up. */
  lemma {:induction false} VisitedAccounting(headerSize: int, fields: seq<ClassField>)
    requires NoOverlap(headerSize, fields)
    ensures var s := Visited(headerSize, fields);
      s.nextFree == headerSize + SumSizes(fields) + s.interLoss
    decreases |fields|
  {
    if fields != [] {
      var prefix := fields[..|fields| - 1];
      var f := fields[|fields| - 1];
      var s := Visited(headerSize, prefix);
      NoOverlapPrefix(headerSize, fields);
      VisitedAccounting(headerSize, prefix);
      VisitedNextFree(headerSize, prefix);
      VisitedNextFree(headerSize, fields);
      assert s.nextFree == FreeBefore(headerSize, fields, |fields| - 1) by {
        assert |fields| >= 2 ==> prefix[|fields| - 2] == fields[|fields| - 2];
      }
      VisitedInterLossStep(headerSize, fields);
      assert prefix + [f] == fields;
      SumSizesAppend(prefix, [f]);
      assert SumSizes([f]) == f.size + SumSizes([]);
    }
  }

  /** A field that does not overlap its predecessor adds the bytes between the next free byte and its offset to the internal loss. */
  lemma VisitedInterLossStep(headerSize: int, fields: seq<ClassField>)
    requires fields != []
    requires fields[|fields| - 1].offset >= Visited(headerSize, fields[..|fields| - 1]).nextFree
    ensures var s := Visited(headerSize, fields[..|fields| - 1]);
      Visited(headerSize, fields).interLoss == s.interLoss + (fields[|fields| - 1].offset - s.nextFree)
  {
  }

  /** Without overlaps the loop finds no padding exactly when the fields are packed. */
  lemma {:induction false} VisitedNoPadding(headerSize: int, fields: seq<ClassField>)
    requires NoOverlap(headerSize, fields)
    ensures Visited(headerSize, fields).interLoss == 0 <==> Packed(headerSize, fields)
    decreases |fields|
  {
    if fields != [] {
      var prefix := fields[..|fields| - 1];
      var f := fields[|fields| - 1];
      var s := Visited(headerSize, prefix);
      assert s.nextFree == FreeBefore(headerSize, fields, |fields| - 1) by {
        VisitedNextFree(headerSize, prefix);
        assert |fields| >= 2 ==> prefix[|fields| - 2] == fields[|fields| - 2];
      }
      assert NoOverlap(headerSize, prefix) && f.offset >= s.nextFree by {
        NoOverlapPrefix(headerSize, fields);
      }
      ghost var packedPrefix := Packed(headerSize, prefix);
      assert Packed(headerSize, fields) <==> packedPrefix && f.offset == s.nextFree by {
        PackedPrefix(headerSize, fields);
      }
      assert s.interLoss == 0 <==> packedPrefix by {
        VisitedNoPadding(headerSize, prefix);
      }
      assert s.interLoss >= 0 by {
        VisitedInterLoss(headerSize, prefix);
      }
      VisitedInterLossStep(headerSize, fields);
    }
  }

  /** A field that starts exactly at the next free byte is appended with no padding. */
  lemma VisitedWithoutPadding(headerSize: int, fields: seq<ClassField>)
    requires fields != []
    requires fields[|fields| - 1].offset == Visited(headerSize, fields[..|fields| - 1]).nextFree
    ensures var s := Visited(headerSize, fields[..|fields| - 1]);
      Visited(headerSize, fields) == LoopState(s.objectLines + [fields[|fields| - 1]], fields[|fields| - 1].End(), s.interLoss)
  {
  }

  lemma {:induction false} VisitedPacked(headerSize: int, fields: seq<ClassField>)
    requires Packed(headerSize, fields)
    ensures Visited(headerSize, fields).objectLines == [HeaderRow(headerSize)] + fields
    ensures Visited(headerSize, fields).interLoss == 0
    decreases |fields|
  {
    if fields != [] {
      var n := |fields|;
      var prefix := fields[..n - 1];
      PackedPrefix(headerSize, fields);
      VisitedPacked(headerSize, prefix);
      assert fields[n - 1].offset == Visited(headerSize, prefix).nextFree by {
        VisitedNextFree(headerSize, prefix);
        assert n >= 2 ==> prefix[n - 2] == fields[n - 2];
      }
      VisitedWithoutPadding(headerSize, fields);
      assert prefix + [fields[n - 1]] == fields;
    }
  }

  // ---------------------------------------------------------------------------
  // The complete table and the loss figures

  /** The first row is the object header at offset 0 with the header's size. */
  lemma HeaderRowFirst(layout: ClassLayout)
    ensures |ObjectLines(layout)| >= 1
    ensures ObjectLines(layout)[0] == Gap(0, layout.headerSize, ObjectHeader)
    ensures ObjectLines(layout)[0].kind.Label() == "(object header)"
  {
    VisitedBasics(layout.headerSize, layout.fields);
  }

  /** The field rows of the table, read in order, are exactly the layouter's fields. */
  lemma FieldsPassedThrough(layout: ClassLayout)
    ensures FieldRows(ObjectLines(layout)) == layout.fields
  {
    var s := Visited(layout.headerSize, layout.fields);
    VisitedFieldRows(layout.headerSize, layout.fields);
    if layout.instanceSize != s.nextFree {
      var tail := Gap(s.nextFree, layout.instanceSize - s.nextFree, NextObjectAlignment);
      FieldRowsAppend(s.objectLines, [tail]);
      assert FieldRows([tail]) == [] + FieldRows([]);
    }
  }

  /**
   * Row by row: the header is at index 0, the trailing gap can only be the last
   * row, and every other gap is a padding row of positive size that ends where
   * the next row, a field, starts; a padding row stands exactly in front of the
   * fields that start beyond the end of the row before.
   */
  lemma RowShape(layout: ClassLayout)
    ensures var rows := ObjectLines(layout);
      && (forall i :: 0 < i < |rows| && rows[i].Gap? ==>
            rows[i].kind == AlignmentPadding || (i == |rows| - 1 && rows[i].kind == NextObjectAlignment))
      && PaddingPrecedesField(rows)
      && PaddingExactlyWhenNeeded(rows)
      && (forall i :: 0 <= i < |rows| && rows[i].IsPadding() ==>
            rows[i].size > 0 && rows[i].End() == rows[i + 1].offset)
  {
    var s := Visited(layout.headerSize, layout.fields);
    var rows := ObjectLines(layout);
    VisitedBasics(layout.headerSize, layout.fields);
    VisitedPaddingPlacement(layout.headerSize, layout.fields);
    assert forall i :: 0 <= i < |s.objectLines| ==> rows[i] == s.objectLines[i];
    forall i | 1 <= i < |rows| ensures PaddingRuleAt(rows, i) {
      if i < |s.objectLines| {
        PaddingRuleAtAppend(s.objectLines, rows[|s.objectLines|..], i);
        assert rows == s.objectLines + rows[|s.objectLines|..];
      }
    }
    forall i | 0 <= i < |rows| && rows[i].IsPadding()
      ensures rows[i].size > 0 && rows[i].End() == rows[i + 1].offset
    {
      assert rows[i + 1].Field? && PaddingRuleAt(rows, i + 1);
    }
  }

  /** The trailing "(loss due to the next object alignment)" row exists exactly when the instance does not end at the next free byte. */
  lemma TrailingRow(layout: ClassLayout)
    ensures |ObjectLines(layout)| >= 1
    ensures var rows := ObjectLines(layout);
      var nextFree := NextFreeAfter(layout.headerSize, layout.fields);
      && ((Last(rows).Gap? && Last(rows).kind == NextObjectAlignment) <==> layout.instanceSize != nextFree)
      && (layout.instanceSize != nextFree ==>
            Last(rows) == Gap(nextFree, layout.instanceSize - nextFree, NextObjectAlignment)
            && Summary(layout).exterLoss == layout.instanceSize - nextFree)
      && (layout.instanceSize == nextFree ==>
            rows == Visited(layout.headerSize, layout.fields).objectLines && Summary(layout).exterLoss == 0)
  {
  }

  /** Internal loss is the sum of the padding rows; external loss is what the instance extends past the next free byte. */
  lemma LossFigures(layout: ClassLayout)
    ensures Summary(layout).interLoss == PaddingLoss(ObjectLines(layout))
    ensures Summary(layout).interLoss >= 0
    ensures Summary(layout).exterLoss == layout.instanceSize - NextFreeAfter(layout.headerSize, layout.fields)
    ensures Summary(layout).totalLoss == Summary(layout).interLoss + Summary(layout).exterLoss
    ensures Summary(layout).exterLoss >= 0 <==> layout.instanceSize >= NextFreeAfter(layout.headerSize, layout.fields)
  {
    var s := Visited(layout.headerSize, layout.fields);
    VisitedLastRow(layout.headerSize, layout.fields);
    VisitedNextFree(layout.headerSize, layout.fields);
    VisitedInterLoss(layout.headerSize, layout.fields);
    if layout.instanceSize != s.nextFree {
      var tail := Gap(s.nextFree, layout.instanceSize - s.nextFree, NextObjectAlignment);
      PaddingLossAppend(s.objectLines, [tail]);
      assert PaddingLoss([tail]) == 0 + PaddingLoss([]);
    }
  }

  /** The last row ends exactly at the instance size. */
  lemma LastRowEndsAtInstanceSize(layout: ClassLayout)
    ensures |ObjectLines(layout)| >= 1
    ensures Last(ObjectLines(layout)).End() == layout.instanceSize
  {
  }

  /** The table is contiguous exactly when no field overlaps the header or the field before it. */
  lemma ContiguousIffNoOverlap(layout: ClassLayout)
    ensures Contiguous(ObjectLines(layout)) <==> FieldsDoNotOverlap(layout)
  {
    var s := Visited(layout.headerSize, layout.fields);
    VisitedLastRow(layout.headerSize, layout.fields);
    VisitedNextFree(layout.headerSize, layout.fields);
    VisitedContiguous(layout.headerSize, layout.fields);
    if layout.instanceSize != s.nextFree {
      ContiguousAppend(s.objectLines, Gap(s.nextFree, layout.instanceSize - s.nextFree, NextObjectAlignment));
    }
  }

  /** Without overlaps the row sizes add up to the instance size. */
  lemma RowSizesAddUp(layout: ClassLayout)
    requires FieldsDoNotOverlap(layout)
    ensures SumSizes(ObjectLines(layout)) == layout.instanceSize
  {
    ContiguousIffNoOverlap(layout);
    HeaderRowFirst(layout);
    LastRowEndsAtInstanceSize(layout);
    ContiguousSumSizes(ObjectLines(layout));
  }

  /** Without overlaps every byte is header, field or loss. */
  lemma ByteAccounting(layout: ClassLayout)
    requires FieldsDoNotOverlap(layout)
    ensures layout.instanceSize == layout.headerSize + SumSizes(layout.fields) + Summary(layout).totalLoss
  {
    VisitedAccounting(layout.headerSize, layout.fields);
    VisitedLastRow(layout.headerSize, layout.fields);
    VisitedNextFree(layout.headerSize, layout.fields);
  }

  /** With no overlaps and an instance that covers the fields, nothing is lost exactly when the layout is tightly packed. */
  lemma NoLossIffTightlyPacked(layout: ClassLayout)
    requires FieldsDoNotOverlap(layout)
    requires layout.instanceSize >= NextFreeAfter(layout.headerSize, layout.fields)
    ensures Summary(layout).totalLoss == 0 <==> TightlyPacked(layout)
  {
    VisitedNoPadding(layout.headerSize, layout.fields);
    VisitedInterLoss(layout.headerSize, layout.fields);
    VisitedLastRow(layout.headerSize, layout.fields);
    VisitedNextFree(layout.headerSize, layout.fields);
  }

  /** A tightly packed layout yields the header row followed by the fields, with no gaps and no losses. */
  lemma TightlyPackedHasNoGaps(layout: ClassLayout)
    requires TightlyPacked(layout)
    ensures ObjectLines(layout) == [HeaderRow(layout.headerSize)] + layout.fields
    ensures Summary(layout) == LossSummary(0, 0, layout.instanceSize, 0)
  {
    VisitedPacked(layout.headerSize, layout.fields);
    VisitedLastRow(layout.headerSize, layout.fields);
    VisitedNextFree(layout.headerSize, layout.fields);
  }

  // ---------------------------------------------------------------------------
  // Cache-line classification

  /** An instance is flagged exactly when it cannot fit in one cache line. */
  lemma OversizedIffSpansSeveralLines(sizeOf: nat)
    ensures ClassifyInstanceSize(sizeOf) == Oversized <==> CacheLinesSpanned(sizeOf) > 1
  {
  }

  lemma CacheLineBoundary()
    ensures ClassifyInstanceSize(0) == Normal
    ensures ClassifyInstanceSize(64) == Normal
    ensures ClassifyInstanceSize(65) == Oversized
  {
  }

  // ---------------------------------------------------------------------------
  // Worked examples

  /** One int field right after a 16-byte header, in a 24-byte instance: 4 bytes of external loss. */
  lemma ExampleExternalLoss(f: ClassField)
    requires f.offset == 16 && f.size == 4
    ensures ObjectLines(ClassLayout(16, [f], 24)) == [HeaderRow(16), f, Gap(20, 4, NextObjectAlignment)]
    ensures Summary(ClassLayout(16, [f], 24)) == LossSummary(0, 4, 24, 4)
  {
    assert [f][..0] == [];
    assert Visited(16, [f]) == LoopState([HeaderRow(16), f], 20, 0);
  }

  /** A 12-byte header and a field at offset 16: 4 bytes of padding, no external loss. */
  lemma ExampleInternalLoss(f: ClassField)
    requires f.offset == 16 && f.size == 4
    ensures ObjectLines(ClassLayout(12, [f], 20)) == [HeaderRow(12), Gap(12, 4, AlignmentPadding), f]
    ensures Summary(ClassLayout(12, [f], 20)) == LossSummary(4, 0, 20, 4)
  {
    assert [f][..0] == [];
    assert Visited(12, [f]) == LoopState([HeaderRow(12), Gap(12, 4, AlignmentPadding), f], 20, 4);
  }

  /** No fields and an instance as large as the header: the header row alone. */
  lemma ExampleNoFields()
    ensures ObjectLines(ClassLayout(16, [], 16)) == [HeaderRow(16)]
    ensures Summary(ClassLayout(16, [], 16)) == LossSummary(0, 0, 16, 0)
  {
  }

  /** Two packed int fields filling a 24-byte instance: no gaps at all. */
  lemma ExamplePacked(f: ClassField, g: ClassField)
    requires f.offset == 16 && f.size == 4 && g.offset == 20 && g.size == 4
    ensures ObjectLines(ClassLayout(16, [f, g], 24)) == [HeaderRow(16), f, g]
    ensures Summary(ClassLayout(16, [f, g], 24)).totalLoss == 0
  {
    assert [f, g][..1] == [f];
    assert [f][..0] == [];
    assert Visited(16, [f]) == LoopState([HeaderRow(16), f], 20, 0);
    assert Visited(16, [f, g]) == LoopState([HeaderRow(16), f, g], 24, 0);
  }
}
