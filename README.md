# IdeaJol object layout: gap reconstruction

IdeaJol is an IntelliJ plugin that shows the memory layout of a Java class as
computed by JOL (Java Object Layout). A layouter gives the class layout: the
object header size, the fields with their byte offsets and sizes, and the
instance size. The tool window turns this into table rows:

- the object header at offset 0;
- a "(alignment/padding gap)" row before each field that starts beyond the next free byte;
- the field rows, unchanged;
- a trailing "(loss due to the next object alignment)" row when the instance does not end at the next free byte.

It also computes internal, external and total loss. The instance size is flagged
when it exceeds a 64-byte cache line.

The model has three modules:

- `Layout` (`layout.dfy`): the row datatype `FieldLayout`. Its `Field` variant is
  JOL's field layout and its `Gap` variant is the plugin's `FieldLayoutGap`, whose
  label is given by `GapKind`. The module also holds the class layout handed over
  by the layouter, and measures over rows: field rows, sum of sizes, padding loss
  and contiguity.
- `JolView` (`jol_view.dfy`): `CollectObjectLayouts`, the loop of the source as a
  method with a `for` loop over a growing sequence. Its invariant ties the loop
  variables (`objectLines`, `nextFree`, `interLoss`) to `Visited`, the loop state
  after a prefix of the fields. `ObjectLines` and `Summary` specify the whole
  result. The module also holds the cache-line rule `ClassifyInstanceSize`.
- `JolViewProperties` (`jol_view_properties.dfy`): the lemmas, first about the
  loop state and then about the complete table and the loss figures.

The method has no precondition, like the source. Java's `collectObjectLayouts`
rejects no input. A field that starts before the next free byte gets no gap row,
and `nextFree` is then reset to that field's end. An instance size below
`nextFree` gives a trailing row of negative size. The model does the same.
Properties that need well-ordered input take it as a lemma precondition:
`FieldsDoNotOverlap` says no field starts before the end of the header or of the
field before it.

## Model

| member | source | states |
|---|---|---|
| `JolView.CollectObjectLayouts` | src/main/java/com/github/stokito/IdeaJol/toolwindow/JolView.java:106-130 | The loop and trailing step produce exactly `ObjectLines(layout)` and `Summary(layout)`; the summary carries the instance size, and total loss is internal plus external loss. |
| `JolViewProperties.VisitedBasics` | src/main/java/com/github/stokito/IdeaJol/toolwindow/JolView.java:107-120 | The loop's rows start with the header row `Gap(0, headerSize)`, and after it the only gaps the loop adds are padding rows. |
| `JolViewProperties.VisitedLastRow` | src/main/java/com/github/stokito/IdeaJol/toolwindow/JolView.java:108-119 | After each field, the last row is that field (the header row before any field); it ends at `nextFree` and is never a padding row. |
| `JolViewProperties.VisitedNextFree` | src/main/java/com/github/stokito/IdeaJol/toolwindow/JolView.java:109-119 | `nextFree` is the header size before any field, and after the loop it is the end of the last field. |
| `JolViewProperties.VisitedFieldRows` | src/main/java/com/github/stokito/IdeaJol/toolwindow/JolView.java:112-120 | After the loop, the field rows read in order are exactly the visited fields. |
| `JolViewProperties.VisitedInterLoss` | src/main/java/com/github/stokito/IdeaJol/toolwindow/JolView.java:110-117 | The running `interLoss` equals the summed size of the padding rows emitted so far, and is never negative. |
| `JolViewProperties.VisitedPaddingPlacement` | src/main/java/com/github/stokito/IdeaJol/toolwindow/JolView.java:113-118 | Every padding row is followed by a field. A padding row stands before a field exactly when the field starts beyond the previous row's end, and it then covers exactly those bytes. |
| `JolViewProperties.VisitedContiguous` | src/main/java/com/github/stokito/IdeaJol/toolwindow/JolView.java:112-120 | The rows built so far are contiguous if and only if no visited field overlaps the header or its predecessor. |
| `JolViewProperties.VisitedAccounting` | src/main/java/com/github/stokito/IdeaJol/toolwindow/JolView.java:109-120 | Without overlaps, `nextFree` equals the header size plus the field sizes plus `interLoss`. |
| `JolViewProperties.VisitedNoPadding` | src/main/java/com/github/stokito/IdeaJol/toolwindow/JolView.java:112-120 | Without overlaps, `interLoss` is 0 if and only if every field starts exactly where the header or the previous field ends. |
| `JolViewProperties.VisitedPacked` | src/main/java/com/github/stokito/IdeaJol/toolwindow/JolView.java:112-120 | For packed fields the loop emits the header row followed by the fields, and no padding. |
| `JolViewProperties.HeaderRowFirst` | src/main/java/com/github/stokito/IdeaJol/toolwindow/JolView.java:108-109 | The first row is `Gap(0, headerSize)` labelled "(object header)". |
| `JolViewProperties.FieldsPassedThrough` | src/main/java/com/github/stokito/IdeaJol/toolwindow/JolView.java:112-125 | The non-gap rows of the finished table are exactly the input fields, unchanged and in input order. |
| `JolViewProperties.RowShape` | src/main/java/com/github/stokito/IdeaJol/toolwindow/JolView.java:108-125 | After index 0, every gap is a padding row, or else the last row and of the trailing kind. Each padding row has positive size and ends where the next row, a field, starts. It is present exactly when that field starts beyond the previous row's end. |
| `JolViewProperties.TrailingRow` | src/main/java/com/github/stokito/IdeaJol/toolwindow/JolView.java:121-125 | The last row is a trailing gap if and only if `instanceSize != nextFree`. If so, it is `Gap(nextFree, instanceSize - nextFree)` and external loss is that size. Otherwise external loss is 0 and no row is added. |
| `JolViewProperties.LossFigures` | src/main/java/com/github/stokito/IdeaJol/toolwindow/JolView.java:110-126 | Internal loss is the sum of the padding rows' sizes and is non-negative. External loss is `instanceSize - nextFree`, which is non-negative exactly when the instance covers the fields. Total loss is internal plus external loss. |
| `JolViewProperties.LastRowEndsAtInstanceSize` | src/main/java/com/github/stokito/IdeaJol/toolwindow/JolView.java:119-125 | The last row ends exactly at the instance size, for every input. |
| `JolViewProperties.ContiguousIffNoOverlap` | src/main/java/com/github/stokito/IdeaJol/toolwindow/JolView.java:108-125 | Each row starts where the previous one ends if and only if no field overlaps the header or the field before it. |
| `JolViewProperties.RowSizesAddUp` | src/main/java/com/github/stokito/IdeaJol/toolwindow/JolView.java:106-130 | Without overlaps, the row sizes sum to the instance size. |
| `JolViewProperties.ByteAccounting` | src/main/java/com/github/stokito/IdeaJol/toolwindow/JolView.java:108-126 | Without overlaps, instance size equals header size plus field sizes plus total loss. |
| `JolViewProperties.NoLossIffTightlyPacked` | src/main/java/com/github/stokito/IdeaJol/toolwindow/JolView.java:108-126 | Assume no overlaps and an instance that covers the fields. Then total loss is 0 if and only if the fields are packed from the header on and the last one ends at the instance size. |
| `JolViewProperties.TightlyPackedHasNoGaps` | src/main/java/com/github/stokito/IdeaJol/toolwindow/JolView.java:108-126 | A tightly packed layout yields exactly the header row followed by the fields, with all three losses 0. |
| `JolViewProperties.OversizedIffSpansSeveralLines` | src/main/java/com/github/stokito/IdeaJol/toolwindow/JolView.java:140-142 | An instance size is flagged (greater than 64) exactly when the instance, laid from a line boundary, occupies more than one 64-byte cache line. |
| `JolViewProperties.CacheLineBoundary` | src/main/java/com/github/stokito/IdeaJol/toolwindow/JolView.java:140-142 | Sizes 0 and 64 are normal and 65 is oversized. |
| `JolViewProperties.ExampleExternalLoss` | src/main/java/com/github/stokito/IdeaJol/toolwindow/JolView.java:106-130 | Header 16, one 4-byte field at 16, instance 24: rows are header, field, and `Gap(20, 4)` trailing; losses 0/4/4. |
| `JolViewProperties.ExampleInternalLoss` | src/main/java/com/github/stokito/IdeaJol/toolwindow/JolView.java:106-130 | Header 12, one 4-byte field at 16, instance 20: rows are header, `Gap(12, 4)` padding, field; losses 4/0/4. |
| `JolViewProperties.ExampleNoFields` | src/main/java/com/github/stokito/IdeaJol/toolwindow/JolView.java:106-130 | Header 16, no fields, instance 16: only the header row; all losses 0. |
| `JolViewProperties.ExamplePacked` | src/main/java/com/github/stokito/IdeaJol/toolwindow/JolView.java:106-130 | Header 16, 4-byte fields at 16 and 20, instance 24: header and the two fields, no loss. |

## Left out

- Java `long` arithmetic is modelled with unbounded integers, so 64-bit overflow of `nextFree`, the gap sizes and the losses is not modelled. Header, offsets and sizes of a real layout are far below 2^63.
- `CollectObjectLayouts`: the source passes the loss figures to `showTotalInstanceSize`, which writes them into labels. The model returns them as a `LossSummary` instead. The `ArrayList` capacity hint has no modelled effect.
- `ClassifyInstanceSize` only returns normal or oversized. The red colour, the tooltip text and copying the default label colour are presentation (JolView.java:143-148).
- A field layout carries its host class, name and type class, plus offset and size. JOL's other field metadata is not part of this model. Neither is the ordering of JOL's field set: the model takes the fields in iteration order and assumes no sortedness.
- Swing and IntelliJ UI are not modelled: table model, column widths, labels, fonts, strike-through, selection handling.
- Navigation to classes and fields, the field lookup in the class hierarchy and the smart-pointer handling of deleted classes are calls into the IDE's code model, which is not part of this model.
- Clipboard export (`ClassLayout.toPrintable`) is a foreign library call plus I/O.
- The layout itself (`Layouter.layout`, `LAYOUTERS`, `PsiClassAdapter.createClassDataFromPsiClass`) is computed by JOL and the adapter. Its result is the model's input.
- Service lookup, construction and `dispose` are lifecycle plumbing.
