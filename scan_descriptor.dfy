/** The PrairieView XML scan descriptor, reduced to the records the loader reads: sequences
    (acquisition cycles) holding frames, frames holding file records and the Z-axis sub-values of
    their `positionCurrent` state. Each path query of the loader is a function here. */
module ScanDescriptor {
  import opened Common

  /** A Z position as written in the descriptor; compared for equality only. */
  type ZToken = string

  /** A `File` element: its `filename`, and its `channel` and `page` attributes when present. */
  datatype FileRec = FileRec(filename: string, channel: Option<int>, page: Option<int>)

  /** A `SubindexedValue` under the `ZAxis` sub-indexed values of `positionCurrent`. */
  datatype ZSubValue = ZSubValue(subindex: int, value: ZToken)

  /** A `Frame` element: its `index`, its files, and its `ZAxis` sub-values (None when the frame
      has no `ZAxis` element under `positionCurrent`). */
  datatype FrameRec = FrameRec(index: int, files: seq<FileRec>, zAxis: Option<seq<ZSubValue>>)

  /** A `Sequence` element: its `cycle`, whether `bidirectionalZ` is "True", and its frames. */
  datatype SequenceRec = SequenceRec(cycle: int, bidirectionalZ: bool, frames: seq<FrameRec>)

  /** The descriptor. `firstZ` is the first `positionCurrent` Z-axis sub-value anywhere in the
      document; `settingsPresent` says whether every scalar setting the extractor dereferences
      (frame period, line period, date, pixels per line, microns per pixel, scan centre) is
      present and parses; `lastRelativeTimeZero` says whether the last frame's `relativeTime`, the scan
      duration, is zero. */
  datatype Descriptor = Descriptor(
    sequences: seq<SequenceRec>,
    firstZ: Option<ZToken>,
    settingsPresent: bool,
    lastRelativeTimeZero: bool)

  /** `.//Sequence/Frame` (cycle None) or `.//Sequence[@cycle='c']/Frame` (cycle Some(c)), in
      document order. */
  function Frames(ss: seq<SequenceRec>, cycle: Option<int>): (r: seq<FrameRec>)
    ensures forall fr :: fr in r <==>
      exists i :: 0 <= i < |ss| && (cycle.None? || ss[i].cycle == cycle.value) && fr in ss[i].frames
  {
    if ss == [] then []
    else
      var last := ss[|ss| - 1];
      Frames(ss[..|ss| - 1], cycle) + (if cycle.None? || last.cycle == cycle.value then last.frames else [])
  }

  function AllFrames(d: Descriptor): seq<FrameRec> { Frames(d.sequences, None) }

  function CycleFrames(d: Descriptor, cycle: int): seq<FrameRec> { Frames(d.sequences, Some(cycle)) }

  /** `.//Sequence[@cycle='c']` finds something. */
  predicate HasCycle(d: Descriptor, cycle: int) {
    exists i :: 0 <= i < |d.sequences| && d.sequences[i].cycle == cycle
  }

  /** The frames whose `index` attribute is `index`. */
  function WithIndex(frames: seq<FrameRec>, index: int): (r: seq<FrameRec>)
    ensures forall fr :: fr in r <==> fr in frames && fr.index == index
  {
    if frames == [] then []
    else
      var last := frames[|frames| - 1];
      WithIndex(frames[..|frames| - 1], index) + (if last.index == index then [last] else [])
  }

  /** The `File` records of the given frames, in document order. */
  function FilesOf(frames: seq<FrameRec>): (r: seq<FileRec>)
    ensures forall f :: f in r <==> exists i :: 0 <= i < |frames| && f in frames[i].files
  {
    if frames == [] then []
    else FilesOf(frames[..|frames| - 1]) + frames[|frames| - 1].files
  }

  function AllFiles(d: Descriptor): seq<FileRec> { FilesOf(AllFrames(d)) }

  /** The `channel` attributes of the files that carry one. */
  function ChannelList(files: seq<FileRec>): (r: seq<int>)
    ensures forall c :: c in r <==> exists i :: 0 <= i < |files| && files[i].channel == Some(c)
  {
    if files == [] then []
    else
      var last := files[|files| - 1];
      ChannelList(files[..|files| - 1]) + (if last.channel.Some? then [last.channel.value] else [])
  }

  /** `.//Sequence/Frame/File[@page]` finds something. */
  predicate HasPage(files: seq<FileRec>) {
    exists i :: 0 <= i < |files| && files[i].page.Some?
  }

  /** The `filename` of every file whose channel is `channel`, in document order. */
  function NamesForChannel(files: seq<FileRec>, channel: int): (r: seq<string>)
    ensures forall n :: n in r <==> exists i :: 0 <= i < |files| && files[i].channel == Some(channel) && files[i].filename == n
  {
    if files == [] then []
    else
      var last := files[|files| - 1];
      NamesForChannel(files[..|files| - 1], channel) + (if last.channel == Some(channel) then [last.filename] else [])
  }

  /** The `index` attributes of the given frames. */
  function FrameIndices(frames: seq<FrameRec>): (r: seq<int>)
    ensures |r| == |frames| && forall i :: 0 <= i < |frames| ==> r[i] == frames[i].index
  {
    if frames == [] then [] else FrameIndices(frames[..|frames| - 1]) + [frames[|frames| - 1].index]
  }

  /** Some frame has a `ZAxis` element under `positionCurrent`. */
  predicate HasZAxis(frames: seq<FrameRec>) {
    exists i :: 0 <= i < |frames| && frames[i].zAxis.Some?
  }

  /** The Z-axis sub-values of the given frames, in document order. */
  function ZEntries(frames: seq<FrameRec>): seq<ZSubValue> {
    if frames == [] then []
    else
      var last := frames[|frames| - 1];
      ZEntries(frames[..|frames| - 1]) + (if last.zAxis.Some? then last.zAxis.value else [])
  }

  /** The values of the Z-axis sub-values with subindex `sub`, in document order. */
  function ValuesAt(entries: seq<ZSubValue>, sub: int): (r: seq<ZToken>)
    ensures |r| <= |entries|
    ensures forall z :: z in r <==> exists i :: 0 <= i < |entries| && entries[i].subindex == sub && entries[i].value == z
  {
    if entries == [] then []
    else
      var last := entries[|entries| - 1];
      ValuesAt(entries[..|entries| - 1], sub) + (if last.subindex == sub then [last.value] else [])
  }

  /** The values of all Z-axis sub-values, in document order. */
  function AllValues(entries: seq<ZSubValue>): (r: seq<ZToken>)
    ensures |r| == |entries| && forall i :: 0 <= i < |entries| ==> r[i] == entries[i].value
  {
    if entries == [] then [] else AllValues(entries[..|entries| - 1]) + [entries[|entries| - 1].value]
  }
}
