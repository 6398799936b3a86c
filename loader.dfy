/** The `PrairieViewMeta` loader: the lazily filled metadata cache with its frame-count
    adjustment, the resolution of a plane and a channel to source file names, and
    `write_single_bigtiff`, which returns existing outputs or clears them and runs one of the
    two write paths into the output directory. */
module Loader {
  import opened Common
  import opened Ordering
  import opened ScanDescriptor
  import opened Extraction
  import opened PageIndex
  import opened Reassembly

  // ---------------------------------------------------------------- metadata cache

  /** The cache after one access of `meta`, and what the access yields. A filled cache is
      returned as it is. Otherwise the extracted record is cached first; then `num_frames` is
      taken out, divided by `num_planes` (rounding down) and put back, and the frame rate is
      derived from the scan duration. A zero divisor raises after the cache was set. */
  function Access(cache: Option<Metadata>, d: Descriptor): (Option<Metadata>, Result<Metadata>) {
    if cache.Some? then (cache, Success(cache.value))
    else
      match Extract(d)
      case Failure(e) => (None, Failure(e))
      case Success(m) => Adjust(m, d.lastRelativeTimeZero)
  }

  /** The frame adjustment of a freshly extracted record `m`, which is cached before it runs:
      the cache and the outcome. `pop` raises when `num_frames` is absent. */
  function Adjust(m: Metadata, durationZero: bool): (Option<Metadata>, Result<Metadata>) {
    if m.numFrames.None? then (Some(m), Failure(MissingKey("num_frames")))
    else
      var pages := m.numFrames.value;
      if m.numPlanes == 0 then (Some(m.(numFrames := None)), Failure(DivisionByZero))
      else
        var adjusted := m.(numFrames := Some(pages / m.numPlanes));
        if durationZero then (Some(adjusted), Failure(DivisionByZero))
        else (Some(adjusted.(hasFrameRate := true)), Success(adjusted.(hasFrameRate := true)))
  }

  /** A successful access caches exactly what it yields, and once the cache is filled every
      later access yields the cached record and leaves the cache as it is. */
  lemma MetaCached(cache: Option<Metadata>, d: Descriptor)
    ensures var (c1, r1) := Access(cache, d);
      && (r1.Success? ==> c1 == Some(r1.value))
      && (c1.Some? ==> Access(c1, d) == (c1, Success(c1.value)))
  {
  }

  /** A first access succeeds exactly when extraction succeeds, finds at least one plane and
      the scan duration is non-zero. It then yields the extracted record with the frame rate
      set and `num_frames` replaced by the page count divided by the plane count, rounded
      down. A failed extraction leaves the cache empty. */
  lemma FirstAccess(d: Descriptor)
    ensures var (c1, r1) := Access(None, d);
      && (r1.Success? <==> Extract(d).Success? && Extract(d).value.numPlanes > 0 && !d.lastRelativeTimeZero)
      && (Extract(d).Failure? ==> c1 == None && r1 == Failure(Extract(d).error))
      && (r1.Success? ==>
            var m := Extract(d).value;
            && r1.value.numFrames.Some?
            && r1.value == m.(numFrames := r1.value.numFrames, hasFrameRate := true)
            && r1.value.numFrames.value * m.numPlanes <= |AllFrames(d)|
            && |AllFrames(d)| < (r1.value.numFrames.value + 1) * m.numPlanes)
  {
    if Extract(d).Success? {
      ExtractFrames(d);
      var m := Extract(d).value;
      assert Access(None, d) == Adjust(m, d.lastRelativeTimeZero);
      if m.numPlanes > 0 {
        FloorDivBounds(|AllFrames(d)|, m.numPlanes);
        if !d.lastRelativeTimeZero {
          assert Access(None, d).1.value.numFrames == Some(|AllFrames(d)| / m.numPlanes);
        }
      }
    }
  }

  /** Rounding down: `a / b` whole `b`s fit into `a`, one more does not. */
  lemma FloorDivBounds(a: nat, b: nat)
    requires b > 0
    ensures (a / b) * b <= a < (a / b + 1) * b
  {
    var q := a / b;
    assert a == q * b + a % b;
    assert (q + 1) * b == q * b + b;
  }

  /** A first access whose adjustment divides by zero still leaves a record in the cache, so
      the next access yields it without error: without `num_frames` when there are no planes,
      and always without a frame rate. */
  lemma MetaPoisoned(d: Descriptor)
    requires Extract(d).Success? && (Extract(d).value.numPlanes == 0 || d.lastRelativeTimeZero)
    ensures var (c1, r1) := Access(None, d);
      && r1 == Failure(DivisionByZero)
      && c1.Some?
      && Access(c1, d).1 == Success(c1.value)
      && (Extract(d).value.numPlanes == 0 ==> c1.value.numFrames.None?)
      && !c1.value.hasFrameRate
  {
  }

  /** `meta` with the cache set only once the adjustment has succeeded. */
  function AccessCorrected(cache: Option<Metadata>, d: Descriptor): (Option<Metadata>, Result<Metadata>) {
    if cache.Some? then (cache, Success(cache.value))
    else
      var (c1, r1) := Access(None, d);
      if r1.Success? then (c1, r1) else (None, r1)
  }

  /** With the corrected cache, a cached record always carries `num_frames` and the frame rate;
      a first access yields what the code's first access yields. */
  lemma CorrectedCacheComplete(cache: Option<Metadata>, d: Descriptor)
    requires cache.Some? ==> cache.value.numFrames.Some? && cache.value.hasFrameRate
    ensures var (c1, r1) := AccessCorrected(cache, d);
      && (c1.Some? ==> c1.value.numFrames.Some? && c1.value.hasFrameRate)
      && (r1.Success? ==> r1.value.numFrames.Some? && r1.value.hasFrameRate)
      && (cache.None? ==> r1 == Access(None, d).1)
  {
    if cache.None? {
      FirstAccess(d);
    }
  }

  // ---------------------------------------------------------------- file resolution

  /** The plane is acceptable: omitted while at most one plane exists and the plane list is not
      empty, or supplied and one of the plane indices. */
  predicate PlaneAccepted(m: Metadata, planeIdx: Option<int>) {
    if planeIdx.None? then m.numPlanes <= 1 && |m.planeIndices| > 0 else planeIdx.value in m.planeIndices
  }

  /** The channel is acceptable, by the same rule over the channel list. */
  predicate ChannelAccepted(m: Metadata, channel: Option<int>) {
    if channel.None? then m.numChannels <= 1 && |m.channels| > 0 else channel.value in m.channels
  }

  /** The plane the selection works on. */
  function SelectPlane(m: Metadata, planeIdx: Option<int>): Result<int> {
    if planeIdx.None? then
      if m.numPlanes > 1 then Failure(AmbiguousPlane)
      else if m.planeIndices == [] then Failure(NoPlaneIndices)
      else Success(m.planeIndices[0])
    else if planeIdx.value in m.planeIndices then Success(planeIdx.value)
    else Failure(InvalidPlane)
  }

  /** The channel the selection works on. */
  function SelectChannel(m: Metadata, channel: Option<int>): Result<int> {
    if channel.None? then
      if m.numChannels > 1 then Failure(AmbiguousChannel)
      else if m.channels == [] then Failure(NoChannels)
      else Success(m.channels[0])
    else if channel.value in m.channels then Success(channel.value)
    else Failure(InvalidChannel)
  }

  /** `.//Sequence/Frame[@index=plane]/File[@channel=chan]`, the plane filter applied only when
      several planes exist, passed through `np.unique`. */
  function MatchingFiles(d: Descriptor, numPlanes: nat, plane: int, chan: int): seq<string> {
    UniqueNames(NamesForChannel(FilesOf(PlaneFrames(d, numPlanes, plane)), chan))
  }

  /** The frames searched for a plane: those with that index when several planes exist, every
      frame otherwise. */
  function PlaneFrames(d: Descriptor, numPlanes: nat, plane: int): (r: seq<FrameRec>)
    ensures forall fr :: fr in r <==> fr in AllFrames(d) && (numPlanes > 1 ==> fr.index == plane)
  {
    if numPlanes > 1 then WithIndex(AllFrames(d), plane) else AllFrames(d)
  }

  /** `get_prairieview_filenames` on a metadata record: the file names, plane and channel. */
  function Resolve(m: Metadata, d: Descriptor, planeIdx: Option<int>, channel: Option<int>)
    : Result<(seq<string>, int, int)>
  {
    var plane :- SelectPlane(m, planeIdx);
    var chan :- SelectChannel(m, channel);
    Success((MatchingFiles(d, m.numPlanes, plane, chan), plane, chan))
  }

  /** Selection succeeds exactly when both the plane and the channel are acceptable; an omitted
      value then defaults to element 0 of its list and a supplied one is kept. The plane is
      checked first: an omitted plane among several raises, an empty plane list raises, a plane
      outside the list is rejected, and only then is the channel checked the same way. */
  lemma ResolveSelection(m: Metadata, d: Descriptor, planeIdx: Option<int>, channel: Option<int>)
    ensures var r := Resolve(m, d, planeIdx, channel);
      && (r.Success? <==> PlaneAccepted(m, planeIdx) && ChannelAccepted(m, channel))
      && (r.Success? ==>
            && r.value.1 == (if planeIdx.None? then m.planeIndices[0] else planeIdx.value)
            && r.value.2 == (if channel.None? then m.channels[0] else channel.value)
            && r.value.1 in m.planeIndices && r.value.2 in m.channels)
      && (planeIdx.None? && m.numPlanes > 1 ==> r == Failure(AmbiguousPlane))
      && (planeIdx.None? && m.numPlanes <= 1 && m.planeIndices == [] ==> r == Failure(NoPlaneIndices))
      && (planeIdx.Some? && planeIdx.value !in m.planeIndices ==> r == Failure(InvalidPlane))
      && (PlaneAccepted(m, planeIdx) ==>
            && (channel.None? && m.numChannels > 1 ==> r == Failure(AmbiguousChannel))
            && (channel.None? && m.numChannels <= 1 && m.channels == [] ==> r == Failure(NoChannels))
            && (channel.Some? && channel.value !in m.channels ==> r == Failure(InvalidChannel)))
  {
  }

  /** The resolved names have no duplicates and ascend; they are exactly the file names of the
      `File` records with the chosen channel, under frames with the chosen index when several
      planes exist and under every frame otherwise. */
  lemma ResolveNames(m: Metadata, d: Descriptor, planeIdx: Option<int>, channel: Option<int>)
    requires Resolve(m, d, planeIdx, channel).Success?
    ensures var (names, plane, chan) := Resolve(m, d, planeIdx, channel).value;
      && StrictlySorted(names, LexLess) && NoDuplicates(names)
      && forall n :: n in names <==>
           exists fr, f :: fr in AllFrames(d) && (m.numPlanes > 1 ==> fr.index == plane)
                        && f in fr.files && f.channel == Some(chan) && f.filename == n
  {
    var (names, plane, chan) := Resolve(m, d, planeIdx, channel).value;
    var frames := PlaneFrames(d, m.numPlanes, plane);
    var found := NamesForChannel(FilesOf(frames), chan);
    UniqueNamesCorrect(found);
    assert names == UniqueNames(found);
    forall n ensures n in names <==> exists fr, f :: fr in frames && f in fr.files && f.channel == Some(chan) && f.filename == n {
      assert n in names <==> n in Elems(names);
      assert n in found <==> n in Elems(found);
      NamedInFrames(frames, chan, n);
    }
  }

  /** A name is found for a channel in some frames exactly when one of their files has that
      channel and name. */
  lemma NamedInFrames(frames: seq<FrameRec>, chan: int, n: string)
    ensures n in NamesForChannel(FilesOf(frames), chan) <==>
      exists fr, f :: fr in frames && f in fr.files && f.channel == Some(chan) && f.filename == n
  {
    var files := FilesOf(frames);
    if n in NamesForChannel(files, chan) {
      var i :| 0 <= i < |files| && files[i].channel == Some(chan) && files[i].filename == n;
      assert files[i] in files;
      var k :| 0 <= k < |frames| && files[i] in frames[k].files;
      assert frames[k] in frames;
    }
    if fr, f :| fr in frames && f in fr.files && f.channel == Some(chan) && f.filename == n {
      var k :| 0 <= k < |frames| && frames[k] == fr;
      assert f in files;
      var i :| 0 <= i < |files| && files[i] == f;
    }
  }

  // ---------------------------------------------------------------- outputs

  /** The stem `{prefix}_pln{plane}_chn{channel}` of an output name. */
  datatype Stem = Stem(prefix: string, plane: int, channel: int)

  /** The output `{stem}_{part:04}.tif`. */
  datatype OutputName = OutputName(stem: Stem, part: nat)

  /** What an output file holds: the whole timepoint buffer (multi-page layout) or the pages of
      one part (legacy layout). */
  datatype Content = Movie(slots: seq<Slot>) | PageStack(pages: seq<Page>)

  /** What `write_single_bigtiff` returns: one path, or a list of paths. */
  datatype Returned = One(path: OutputName) | Several(paths: seq<OutputName>)

  /** A directory entry: an output name and the content of that file. */
  type Entry = (OutputName, Content)

  /** The output directory, as a listing in the order the file system reports it. */
  class OutputDirectory {
    var entries: seq<Entry>

    constructor(listing: seq<Entry>)
      ensures entries == listing
    {
      entries := listing;
    }
  }

  /** `glob("{stem}*.tif")`: the names in the listing with the given stem, in listing order. */
  function Matching(entries: seq<Entry>, stem: Stem): (r: seq<OutputName>)
    ensures forall n :: n in r <==> n.stem == stem && exists i :: 0 <= i < |entries| && entries[i].0 == n
  {
    if entries == [] then []
    else
      var last := entries[|entries| - 1];
      Matching(entries[..|entries| - 1], stem) + (if last.0.stem == stem then [last.0] else [])
  }

  /** The listing once every output with the given stem has been unlinked. */
  function Without(entries: seq<Entry>, stem: Stem): (r: seq<Entry>)
    ensures forall e :: e in r <==> e in entries && e.0.stem != stem
  {
    if entries == [] then []
    else
      var last := entries[|entries| - 1];
      Without(entries[..|entries| - 1], stem) + (if last.0.stem != stem then [last] else [])
  }

  /** The outputs `{stem}_0000.tif`, `{stem}_0001.tif`, ... holding the given contents. */
  function Numbered(stem: Stem, contents: seq<Content>): seq<Entry> {
    seq(|contents|, k requires 0 <= k < |contents| => (OutputName(stem, k), contents[k]))
  }

  /** The part names `{stem}_0000.tif` up to part `n - 1`. */
  function PartNames(stem: Stem, n: nat): seq<OutputName> {
    seq(n, k requires 0 <= k < n => OutputName(stem, k))
  }

  function Movies(bufs: seq<seq<Slot>>): seq<Content> {
    seq(|bufs|, k requires 0 <= k < |bufs| => Movie(bufs[k]))
  }

  function PageStacks(parts: seq<seq<Page>>): seq<Content> {
    seq(|parts|, k requires 0 <= k < |parts| => PageStack(parts[k]))
  }

  /** `output_tiff_list[0] if len(output_tiff_list) == 1 else output_tiff_list`. */
  function Report(names: seq<OutputName>): Returned {
    if |names| == 1 then One(names[0]) else Several(names)
  }

  /** `list.index`: the position of the first occurrence of `x`, or |s| when it is absent. */
  function IndexOf(s: seq<int>, x: int): (i: nat)
    ensures i <= |s| && (i < |s| <==> x in s) && (i < |s| ==> s[i] == x)
    ensures forall k :: 0 <= k < i ==> s[k] != x
  {
    if s == [] then 0 else if s[0] == x then 0 else IndexOf(s[1..], x) + 1
  }

  /** The target pages of the chosen plane and channel in a multi-page acquisition. */
  function TargetPages(m: Metadata, numFrames: nat, plane: int, chan: int): seq<nat> {
    PageIndices(numFrames, m.numChannels, m.numPlanes, IndexOf(m.planeIndices, plane), IndexOf(m.channels, chan))
  }

  /** The contents the chosen write path puts into the directory, in output order, and the
      error it raises, if any. The multi-page path needs `num_frames` before it starts and
      ignores `gb_per_file`. */
  function WritePath(m: Metadata, names: seq<string>, sources: map<string, seq<Page>>, plane: int, chan: int,
                     gbPerFile: Option<nat>): (seq<Content>, Option<Error>)
  {
    if m.isMultipage then
      if m.numFrames.None? then ([], Some(MissingKey("num_frames")))
      else
        var pageIndices := TargetPages(m, m.numFrames.value, plane, chan);
        var run := MultipageRun(names, sources, pageIndices, m.hasFrameRate, Blank(pageIndices), 0);
        (Movies(run.0), run.1)
    else
      var run := Legacy(names, sources, m.hasFrameRate, SplitLimit(gbPerFile));
      (PageStacks(run.0), run.1)
  }

  /** `write_single_bigtiff`: the cache, the output listing and the result after one call. */
  function Write(cache: Option<Metadata>, d: Descriptor, entries: seq<Entry>, sources: map<string, seq<Page>>,
                 planeIdx: Option<int>, channel: Option<int>, prefix: string, overwrite: bool, gbPerFile: Option<nat>)
    : (Option<Metadata>, seq<Entry>, Result<Returned>)
  {
    var (c1, meta) := Access(cache, d);
    if meta.Failure? then (c1, entries, Failure(meta.error))
    else
      var selected := Resolve(meta.value, d, planeIdx, channel);
      if selected.Failure? then (c1, entries, Failure(selected.error))
      else
        var (names, plane, chan) := selected.value;
        var (after, r) := WriteOutputs(meta.value, entries, sources, names, Stem(prefix, plane, chan), overwrite, gbPerFile);
        (c1, after, r)
  }

  /** The existing-output check and the write, once the metadata `m`, the source names and the
      output stem are known: the new listing and the result. */
  function WriteOutputs(m: Metadata, entries: seq<Entry>, sources: map<string, seq<Page>>, names: seq<string>,
                        stem: Stem, overwrite: bool, gbPerFile: Option<nat>): (seq<Entry>, Result<Returned>)
  {
    var existing := Matching(entries, stem);
    if |existing| > 0 && !overwrite then
      (entries, Success(if gbPerFile.None? then One(existing[0]) else Several(existing)))
    else
      var (contents, err) := WritePath(m, names, sources, stem.plane, stem.channel, gbPerFile);
      var written := Numbered(stem, contents);
      (Without(entries, stem) + written,
       if err.Some? then Failure(err.value) else Success(Report(PartNames(stem, |written|))))
  }

  lemma {:induction false} MatchingAppend(a: seq<Entry>, b: seq<Entry>, stem: Stem)
    ensures Matching(a + b, stem) == Matching(a, stem) + Matching(b, stem)
    decreases |b|
  {
    if b == [] {
      assert a + b == a;
    } else {
      var b' := b[..|b| - 1];
      assert (a + b)[..|a + b| - 1] == a + b';
      MatchingAppend(a, b', stem);
    }
  }

  lemma {:induction false} MatchingWithout(entries: seq<Entry>, stem: Stem)
    ensures Matching(Without(entries, stem), stem) == []
  {
    if entries != [] {
      var pre, last := entries[..|entries| - 1], entries[|entries| - 1];
      MatchingWithout(pre, stem);
      var tail: seq<Entry> := if last.0.stem != stem then [last] else [];
      MatchingAppend(Without(pre, stem), tail, stem);
      assert Matching(tail, stem) == [] by {
        if tail != [] { assert tail[..0] == []; }
      }
    }
  }

  lemma {:induction false} MatchingNumbered(stem: Stem, contents: seq<Content>)
    ensures Matching(Numbered(stem, contents), stem) == PartNames(stem, |contents|)
  {
    if contents != [] {
      var n := |contents|;
      var all := Numbered(stem, contents);
      assert all[..n - 1] == Numbered(stem, contents[..n - 1]);
      MatchingNumbered(stem, contents[..n - 1]);
      assert all[n - 1].0 == OutputName(stem, n - 1);
      assert Matching(all, stem) == PartNames(stem, n - 1) + [OutputName(stem, n - 1)];
      assert PartNames(stem, n) == PartNames(stem, n - 1) + [OutputName(stem, n - 1)];
    }
  }

  /** The existing-output check. When an output with the stem exists and `overwrite` is off,
      the listing is left as it is and the first match is returned, or every match when
      `gb_per_file` is given. Otherwise every output of another stem is kept, nothing else of
      another stem appears, and the outputs with the stem are afterwards exactly the parts
      numbered from 0 that this call wrote, which a successful call returns. */
  lemma ExistingOutputCheck(m: Metadata, entries: seq<Entry>, sources: map<string, seq<Page>>, names: seq<string>,
                            stem: Stem, overwrite: bool, gbPerFile: Option<nat>)
    ensures var (after, r) := WriteOutputs(m, entries, sources, names, stem, overwrite, gbPerFile);
      var existing := Matching(entries, stem);
      && (|existing| > 0 && !overwrite ==>
            && after == entries
            && r == Success(if gbPerFile.None? then One(existing[0]) else Several(existing)))
      && (|existing| == 0 || overwrite ==>
            && (forall e :: e in entries && e.0.stem != stem ==> e in after)
            && (forall e :: e in after && e.0.stem != stem ==> e in entries)
            && Matching(after, stem) == PartNames(stem, |WritePath(m, names, sources, stem.plane, stem.channel, gbPerFile).0|)
            && (r.Success? ==> r == Success(Report(Matching(after, stem)))))
  {
    var existing := Matching(entries, stem);
    if |existing| == 0 || overwrite {
      var contents := WritePath(m, names, sources, stem.plane, stem.channel, gbPerFile).0;
      var kept := Without(entries, stem);
      var written := Numbered(stem, contents);
      MatchingAppend(kept, written, stem);
      MatchingWithout(entries, stem);
      MatchingNumbered(stem, contents);
      assert [] + PartNames(stem, |contents|) == PartNames(stem, |contents|);
      assert forall k :: 0 <= k < |written| ==> written[k].0.stem == stem;
    }
  }

  /** The multi-page path ignores `gb_per_file`. With the frame rate known it writes, for each
      readable source file before the first unreadable one, the buffer after that file, and
      fails naming that file. When every file is readable, the last output is the complete
      combined buffer (see `CombinedStackComplete`). */
  lemma MultipageWrite(m: Metadata, names: seq<string>, sources: map<string, seq<Page>>, plane: int, chan: int,
                       gbPerFile: Option<nat>)
    requires m.isMultipage && m.numFrames.Some? && m.hasFrameRate
    requires m.numPlanes == |m.planeIndices| && m.numChannels == |m.channels|
    requires plane in m.planeIndices && chan in m.channels
    ensures WritePath(m, names, sources, plane, chan, gbPerFile) == WritePath(m, names, sources, plane, chan, None)
    ensures var pageIndices := TargetPages(m, m.numFrames.value, plane, chan);
      var n := FirstUnreadable(names, sources);
      var files := FilePages(names, sources, n);
      var (contents, err) := WritePath(m, names, sources, plane, chan, gbPerFile);
      && contents == Movies(Snapshots(files, pageIndices))
      && err == (if n < |names| then Some(UnreadableSource(names[n])) else None)
      && (n == |names| > 0 ==>
            && |contents| == |names|
            && contents[|names| - 1] == Movie(CombinedStack(files, pageIndices)))
  {
    var pageIndices := TargetPages(m, m.numFrames.value, plane, chan);
    var n := FirstUnreadable(names, sources);
    var files := FilePages(names, sources, n);
    MultipageOutputs(names, sources, pageIndices, true);
    if n == |names| > 0 {
      SnapshotsAreRunningBuffers(files, pageIndices);
      assert files[..|names|] == files;
    }
  }

  /** Without a split limit, a legacy write whose every source file can be copied, from at
      least one file, and which finds no earlier output or may overwrite it, produces exactly
      one output, part 0, holding the single pages of the source files in order, and returns
      its name. */
  lemma UnsplitLegacyWrite(m: Metadata, entries: seq<Entry>, sources: map<string, seq<Page>>, names: seq<string>,
                           stem: Stem, overwrite: bool, gbPerFile: Option<nat>)
    requires !m.isMultipage && (|Matching(entries, stem)| == 0 || overwrite)
    requires gbPerFile.None? || gbPerFile == Some(0)
    requires names != [] && FirstUncopyable(names, sources, m.hasFrameRate) == |names|
    ensures var (after, r) := WriteOutputs(m, entries, sources, names, stem, overwrite, gbPerFile);
      && r == Success(One(OutputName(stem, 0)))
      && after == Without(entries, stem) + [(OutputName(stem, 0), PageStack(SinglePages(names, sources, |names|)))]
  {
    LegacyOutputs(names, sources, m.hasFrameRate, gbPerFile);
    var parts := Legacy(names, sources, m.hasFrameRate, SplitLimit(gbPerFile)).0;
    assert |parts| == 1;
    assert Flatten(parts) == parts[0] by { assert parts[..0] == []; }
    assert Numbered(stem, PageStacks(parts)) == [(OutputName(stem, 0), PageStack(parts[0]))];
    assert PartNames(stem, 1) == [OutputName(stem, 0)];
  }

  // ---------------------------------------------------------------- the loader object

  /** A PrairieView dataset: its scan descriptor and the metadata cache `_meta`. */
  class PrairieViewMeta {
    const descriptor: Descriptor
    var cache: Option<Metadata>

    constructor(d: Descriptor)
      ensures descriptor == d && cache == None
    {
      descriptor := d;
      cache := None;
    }

    /** The `meta` property. */
    method Meta() returns (r: Result<Metadata>)
      modifies this
      ensures (cache, r) == Access(old(cache), descriptor)
    {
      if cache.Some? {
        return Success(cache.value);
      }
      var extracted := ExtractMetadata(descriptor);
      if extracted.Failure? {
        return Failure(extracted.error);
      }
      var m := extracted.value;
      assert Access(None, descriptor) == Adjust(m, descriptor.lastRelativeTimeZero);
      cache := Some(m);
      if m.numFrames.None? {
        return Failure(MissingKey("num_frames"));
      }
      var pages := m.numFrames.value;
      cache := Some(m.(numFrames := None));
      if m.numPlanes == 0 {
        return Failure(DivisionByZero);
      }
      var numFrames := pages / m.numPlanes;
      cache := Some(cache.value.(numFrames := Some(numFrames)));
      if descriptor.lastRelativeTimeZero {
        return Failure(DivisionByZero);
      }
      cache := Some(cache.value.(hasFrameRate := true));
      r := Success(cache.value);
    }

    /** `get_prairieview_filenames(plane_idx, channel, return_pln_chn=True)`. */
    method GetFilenames(planeIdx: Option<int>, channel: Option<int>) returns (r: Result<(seq<string>, int, int)>)
      modifies this
      ensures cache == Access(old(cache), descriptor).0
      ensures var meta := Access(old(cache), descriptor).1;
        r == if meta.Failure? then Failure(meta.error) else Resolve(meta.value, descriptor, planeIdx, channel)
    {
      var m :- Meta();
      r := Resolve(m, descriptor, planeIdx, channel);
    }

    /** `write_single_bigtiff` into `dir`, reading source files from `sources`; `prefix` is the
        output prefix. */
    method WriteSingleBigtiff(dir: OutputDirectory, sources: map<string, seq<Page>>, planeIdx: Option<int>,
                              channel: Option<int>, prefix: string, overwrite: bool, gbPerFile: Option<nat>)
      returns (r: Result<Returned>)
      modifies this, dir
      ensures (cache, dir.entries, r) ==
        Write(old(cache), descriptor, old(dir.entries), sources, planeIdx, channel, prefix, overwrite, gbPerFile)
    {
      ghost var cache0 := cache;
      var selected := GetFilenames(planeIdx, channel);
      if selected.Failure? {
        return Failure(selected.error);
      }
      var (names, plane, chan) := selected.value;
      MetaCached(cache0, descriptor);
      var meta := Meta();
      var m := meta.value;
      var stem := Stem(prefix, plane, chan);
      ghost var entries0 := dir.entries;
      assert Write(cache0, descriptor, entries0, sources, planeIdx, channel, prefix, overwrite, gbPerFile) ==
        (cache, WriteOutputs(m, entries0, sources, names, stem, overwrite, gbPerFile).0,
         WriteOutputs(m, entries0, sources, names, stem, overwrite, gbPerFile).1);
      var existing := Matching(dir.entries, stem);
      if |existing| > 0 && !overwrite {
        if gbPerFile.None? {
          return Success(One(existing[0]));
        }
        return Success(Several(existing));
      }
      dir.entries := Without(dir.entries, stem);
      var contents: seq<Content>;
      var err: Option<Error>;
      if m.isMultipage {
        if m.numFrames.None? {
          assert Numbered(stem, []) == [] && dir.entries + [] == dir.entries;
          return Failure(MissingKey("num_frames"));
        }
        var pageIndices := TargetPages(m, m.numFrames.value, plane, chan);
        var bufs;
        bufs, err := AssembleMultipage(names, sources, pageIndices, m.hasFrameRate);
        contents := Movies(bufs);
        assert WritePath(m, names, sources, plane, chan, gbPerFile) == (contents, err);
      } else {
        var parts;
        parts, err := StreamLegacy(names, sources, gbPerFile, m.hasFrameRate);
        contents := PageStacks(parts);
        assert WritePath(m, names, sources, plane, chan, gbPerFile) == (contents, err);
      }
      var written := Numbered(stem, contents);
      dir.entries := dir.entries + written;
      if err.Some? {
        return Failure(err.value);
      }
      r := Success(Report(PartNames(stem, |written|)));
    }
  }
}
