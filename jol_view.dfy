/**
 * The computational part of the JOL tool window: turning a class layout into
 * the rows of the layout table and the loss figures shown under it, and the
 * cache-line rule that flags a large instance size.
 */
module JolView {
  import opened Layout

  /** The figures handed to the summary labels: internal, external and total loss, and the instance size. */
  datatype LossSummary = LossSummary(interLoss: int, exterLoss: int, sizeOf: int, totalLoss: int)

  /** The variables of the row-building loop after it has visited a prefix of the fields. */
  datatype LoopState = LoopState(objectLines: seq<FieldLayout>, nextFree: int, interLoss: int)

  function HeaderRow(headerSize: int): FieldLayout
  {
    Gap(0, headerSize, ObjectHeader)
  }

  /** The first byte not covered by the header or by the k-th field's predecessor. */
  function FreeBefore(headerSize: int, fields: seq<ClassField>, k: nat): int
    requires k <= |fields|
  {
    if k == 0 then headerSize else fields[k - 1].End()
  }

  /** The first byte after the last field (or after the header when there are no fields). */
  function NextFreeAfter(headerSize: int, fields: seq<ClassField>): int
  {
    FreeBefore(headerSize, fields, |fields|)
  }

  /** One iteration of the loop: a padding row when the field starts beyond the next free byte, then the field. */
  function Visit(state: LoopState, fieldLayout: ClassField): LoopState
  {
    if fieldLayout.offset > state.nextFree then
      var gapSize := fieldLayout.offset - state.nextFree;
      LoopState(state.objectLines + [Gap(state.nextFree, gapSize, AlignmentPadding)] + [fieldLayout],
                fieldLayout.End(), state.interLoss + gapSize)
    else
      LoopState(state.objectLines + [fieldLayout], fieldLayout.End(), state.interLoss)
  }

  /** The loop state after visiting all of `fields`, starting from the header row. */
  function Visited(headerSize: int, fields: seq<ClassField>): LoopState
    decreases |fields|
  {
    if fields == [] then LoopState([HeaderRow(headerSize)], headerSize, 0)
    else Visit(Visited(headerSize, fields[..|fields| - 1]), fields[|fields| - 1])
  }

  /** The complete table: the visited rows and, if the instance does not end at the next free byte, a trailing gap. */
  function ObjectLines(layout: ClassLayout): seq<FieldLayout>
  {
    var state := Visited(layout.headerSize, layout.fields);
    if layout.instanceSize != state.nextFree then
      state.objectLines + [Gap(state.nextFree, layout.instanceSize - state.nextFree, NextObjectAlignment)]
    else
      state.objectLines
  }

  /** The loss figures of a layout. */
  function Summary(layout: ClassLayout): LossSummary
  {
    var state := Visited(layout.headerSize, layout.fields);
    var exterLoss := if layout.instanceSize != state.nextFree then layout.instanceSize - state.nextFree else 0;
    LossSummary(state.interLoss, exterLoss, layout.instanceSize, state.interLoss + exterLoss)
  }

  /** Converts a class layout into table rows and computes the losses, in one pass over the fields. */
  method CollectObjectLayouts(classLayout: ClassLayout) returns (objectLines: seq<FieldLayout>, losses: LossSummary)
    ensures objectLines == ObjectLines(classLayout)
    ensures losses == Summary(classLayout)
    ensures losses.sizeOf == classLayout.instanceSize
    ensures losses.totalLoss == losses.interLoss + losses.exterLoss
  {
    var fields := classLayout.fields;
    objectLines := [Gap(0, classLayout.headerSize, ObjectHeader)];
    var nextFree := classLayout.headerSize;
    var interLoss := 0;
    var exterLoss := 0;
    for i := 0 to |fields|
      invariant LoopState(objectLines, nextFree, interLoss) == Visited(classLayout.headerSize, fields[..i])
    {
      var fieldLayout := fields[i];
      assert fields[..i + 1][..i] == fields[..i];
      if fieldLayout.offset > nextFree {
        var fieldLayoutSize := fieldLayout.offset - nextFree;
        objectLines := objectLines + [Gap(nextFree, fieldLayoutSize, AlignmentPadding)];
        interLoss := interLoss + fieldLayoutSize;
      }
      objectLines := objectLines + [fieldLayout];
      nextFree := fieldLayout.offset + fieldLayout.size;
    }
    assert fields[..|fields|] == fields;
    var sizeOf := classLayout.instanceSize;
    if sizeOf != nextFree {
      exterLoss := sizeOf - nextFree;
      objectLines := objectLines + [Gap(nextFree, exterLoss, NextObjectAlignment)];
    }
    var totalLoss := interLoss + exterLoss;
    losses := LossSummary(interLoss, exterLoss, sizeOf, totalLoss);
  }

  /** A processor cache line is taken to be 64 bytes. */
  const CacheLineSize: int := 64

  /** How the instance-size label is shown. */
  datatype InstanceSizeClass = Normal | Oversized

  function ClassifyInstanceSize(sizeOf: int): InstanceSizeClass
  {
    if sizeOf > CacheLineSize then Oversized else Normal
  }

  /** Number of cache lines an instance of `sizeOf` bytes occupies when it starts on a line boundary. */
  function CacheLinesSpanned(sizeOf: nat): nat
  {
    (sizeOf + CacheLineSize - 1) / CacheLineSize
  }
}
