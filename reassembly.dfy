/** The two write paths of `write_single_bigtiff`: the multi-page layout, where a running
    `start_page` walks the source files and the wanted pages are copied into a buffer of one
    slot per timepoint, and the legacy single-page layout, where source files are streamed one
    page at a time into output parts that are split by size. */
module Reassembly {
  import opened Common
  import opened PageIndex

  /** A decoded image page: its 16-bit pixel values, row after row. */
  type Page = seq<int>

  /** One slot of the output buffer: a copied page, or never written (`np.empty` leaves such a
      slot uninitialised). */
  datatype Slot = Unset | Filled(page: Page)

  lemma FlattenSnoc(parts: seq<seq<Page>>, part: seq<Page>)
    ensures Flatten(parts + [part]) == Flatten(parts) + part
  {
    assert (parts + [part])[..|parts|] == parts;
  }

  // ---------------------------------------------------------------- multi-page layout

  /** The index of the first source file that cannot be opened, or |names|. */
  function FirstUnreadable(names: seq<string>, sources: map<string, seq<Page>>): (n: nat)
    ensures n <= |names|
    ensures forall k :: 0 <= k < n ==> names[k] in sources
    ensures n < |names| ==> names[n] !in sources
  {
    if names == [] then 0
    else if names[0] !in sources then 0
    else FirstUnreadable(names[1..], sources) + 1
  }

  /** The page lists of the first `n` source files, all of which can be opened. */
  function FilePages(names: seq<string>, sources: map<string, seq<Page>>, n: nat): (r: seq<seq<Page>>)
    requires n <= |names| && forall k :: 0 <= k < n ==> names[k] in sources
    ensures |r| == n
  {
    if n == 0 then [] else [sources[names[0]]] + FilePages(names[1..], sources, n - 1)
  }

  /** The buffer before any file is walked: every slot unset. */
  function Blank(pageIndices: seq<nat>): (r: seq<Slot>)
    ensures |r| == |pageIndices| && forall j :: 0 <= j < |r| ==> r[j] == Unset
  {
    seq(|pageIndices|, _ => Unset)
  }

  /** The buffer once the given files have been walked: every slot starts unset, and each file's
      pages are overlaid at the running offset `start_page`. */
  function Stack(files: seq<seq<Page>>, pageIndices: seq<nat>): (r: seq<Slot>)
    ensures |r| == |pageIndices|
  {
    if files == [] then Blank(pageIndices)
    else
      var pre := files[..|files| - 1];
      Overlay(Stack(pre, pageIndices), pageIndices, files[|files| - 1], |Flatten(pre)|)
  }

  /** What the walk computes: slot `j` holds global page `pageIndices[j]` of the concatenated
      files when that page exists, and is unset otherwise. */
  lemma {:induction false} StackContents(files: seq<seq<Page>>, pageIndices: seq<nat>)
    ensures forall j :: 0 <= j < |pageIndices| ==>
      Stack(files, pageIndices)[j] ==
        if pageIndices[j] < |Flatten(files)| then Filled(Flatten(files)[pageIndices[j]]) else Unset
  {
    if files != [] {
      var pre := files[..|files| - 1];
      StackContents(pre, pageIndices);
    }
  }

  /** The buffers written after each file of `more`, walking on from the files `done`. */
  function SnapshotsAfter(done: seq<seq<Page>>, more: seq<seq<Page>>, pageIndices: seq<nat>): (r: seq<seq<Slot>>)
    ensures |r| == |more|
    decreases |more|
  {
    if more == [] then []
    else [Stack(done + [more[0]], pageIndices)] + SnapshotsAfter(done + [more[0]], more[1..], pageIndices)
  }

  /** The outputs as the code writes them: one after each source file. */
  function Snapshots(files: seq<seq<Page>>, pageIndices: seq<nat>): seq<seq<Slot>> {
    SnapshotsAfter([], files, pageIndices)
  }

  /** The `k`-th output is the buffer after the first `k + 1` files only. */
  lemma {:induction false} SnapshotsAfterRunning(done: seq<seq<Page>>, more: seq<seq<Page>>, pageIndices: seq<nat>)
    ensures forall k :: 0 <= k < |more| ==> SnapshotsAfter(done, more, pageIndices)[k] == Stack(done + more[..k + 1], pageIndices)
    decreases |more|
  {
    if more != [] {
      var next := done + [more[0]];
      SnapshotsAfterRunning(next, more[1..], pageIndices);
      forall k | 0 < k < |more| ensures next + more[1..][..k] == done + more[..k + 1] {
        assert more[..k + 1] == [more[0]] + more[1..][..k];
      }
      assert more[..1] == [more[0]];
    }
  }

  /** The `k`-th output of the code is the buffer after the first `k + 1` source files. */
  lemma SnapshotsAreRunningBuffers(files: seq<seq<Page>>, pageIndices: seq<nat>)
    ensures |Snapshots(files, pageIndices)| == |files|
    ensures forall k :: 0 <= k < |files| ==> Snapshots(files, pageIndices)[k] == Stack(files[..k + 1], pageIndices)
  {
    SnapshotsAfterRunning([], files, pageIndices);
    forall k | 0 <= k < |files| ensures Snapshots(files, pageIndices)[k] == Stack(files[..k + 1], pageIndices) {
      assert [] + files[..k + 1] == files[..k + 1];
    }
  }

  /** The single output the layout is meant to produce: the buffer once every file is walked. */
  function CombinedStack(files: seq<seq<Page>>, pageIndices: seq<nat>): seq<Slot> {
    Stack(files, pageIndices)
  }

  /** `global_indices` as positions: the output slots whose target page lies in
      [lo, hi), in ascending order. */
  function SlotsInFile(pageIndices: seq<nat>, lo: nat, hi: nat): (r: seq<nat>)
    ensures forall m :: 0 <= m < |r| ==> r[m] < |pageIndices| && lo <= pageIndices[r[m]] < hi
    ensures forall m, m' :: 0 <= m < m' < |r| ==> r[m] < r[m']
  {
    if pageIndices == [] then []
    else
      var n := |pageIndices| - 1;
      SlotsInFile(pageIndices[..n], lo, hi) + (if lo <= pageIndices[n] < hi then [n] else [])
  }

  /** Every slot whose target page lies in [lo, hi) is selected. */
  lemma {:induction false} SlotSelected(pageIndices: seq<nat>, lo: nat, hi: nat, j: nat) returns (m: nat)
    requires j < |pageIndices| && lo <= pageIndices[j] < hi
    ensures m < |SlotsInFile(pageIndices, lo, hi)| && SlotsInFile(pageIndices, lo, hi)[m] == j
  {
    var n := |pageIndices| - 1;
    if j == n {
      m := |SlotsInFile(pageIndices[..n], lo, hi)|;
    } else {
      m := SlotSelected(pageIndices[..n], lo, hi, j);
    }
  }

  /** `pages_in_file`: the target pages that lie in [lo, hi), in `page_indices` order. */
  function PagesInFile(pageIndices: seq<nat>, lo: nat, hi: nat): seq<nat> {
    if pageIndices == [] then []
    else
      var n := |pageIndices| - 1;
      PagesInFile(pageIndices[..n], lo, hi) + (if lo <= pageIndices[n] < hi then [pageIndices[n]] else [])
  }

  /** `file_indices`: `pages_in_file` shifted to in-file positions. */
  function FileIndices(pageIndices: seq<nat>, lo: nat, hi: nat): seq<int> {
    var pages := PagesInFile(pageIndices, lo, hi);
    seq(|pages|, m requires 0 <= m < |pages| => pages[m] - lo)
  }

  /** The `m`-th in-file index is the target page of the `m`-th selected slot, shifted by `lo`:
      each target page in the file is read into its own slot, in `page_indices` order. */
  lemma FileIndicesAligned(pageIndices: seq<nat>, lo: nat, hi: nat)
    ensures var slots := SlotsInFile(pageIndices, lo, hi);
      FileIndices(pageIndices, lo, hi) == seq(|slots|, m requires 0 <= m < |slots| => pageIndices[slots[m]] - lo)
  {
    PagesAligned(pageIndices, lo, hi);
  }

  /** The pages in the file are the target pages of the selected slots, one for one. */
  lemma {:induction false} PagesAligned(pageIndices: seq<nat>, lo: nat, hi: nat)
    ensures var slots, pages := SlotsInFile(pageIndices, lo, hi), PagesInFile(pageIndices, lo, hi);
      |pages| == |slots| && forall m :: 0 <= m < |slots| ==> pages[m] == pageIndices[slots[m]]
  {
    if pageIndices != [] {
      var n := |pageIndices| - 1;
      var pre := pageIndices[..n];
      PagesAligned(pre, lo, hi);
      var slots, pages := SlotsInFile(pageIndices, lo, hi), PagesInFile(pageIndices, lo, hi);
      var slots', pages' := SlotsInFile(pre, lo, hi), PagesInFile(pre, lo, hi);
      forall m | 0 <= m < |slots| ensures pages[m] == pageIndices[slots[m]] {
        if m < |slots'| {
          assert pages[m] == pages'[m] && slots[m] == slots'[m];
        }
      }
    }
  }

  /** The buffer `before` with the pages of one file, which starts at global page `start`,
      copied into the slots that target them. */
  function Overlay(before: seq<Slot>, pageIndices: seq<nat>, pages: seq<Page>, start: nat): (r: seq<Slot>)
    requires |before| == |pageIndices|
    ensures |r| == |pageIndices|
  {
    seq(|pageIndices|, j requires 0 <= j < |pageIndices| =>
      if start <= pageIndices[j] < start + |pages| then Filled(pages[pageIndices[j] - start]) else before[j])
  }

  /** A buffer whose selected slots hold their pages and whose other slots are unchanged is the
      overlay. */
  lemma OverlayBySlots(before: seq<Slot>, after: seq<Slot>, pageIndices: seq<nat>, pages: seq<Page>, start: nat)
    requires |before| == |after| == |pageIndices|
    requires var slots := SlotsInFile(pageIndices, start, start + |pages|);
      forall m :: 0 <= m < |slots| ==> after[slots[m]] == Filled(pages[pageIndices[slots[m]] - start])
    requires forall j :: 0 <= j < |after| && !(start <= pageIndices[j] < start + |pages|) ==> after[j] == before[j]
    ensures after == Overlay(before, pageIndices, pages, start)
  {
    var slots := SlotsInFile(pageIndices, start, start + |pages|);
    var ov := Overlay(before, pageIndices, pages, start);
    forall j | 0 <= j < |after| ensures after[j] == ov[j] {
      if start <= pageIndices[j] < start + |pages| {
        var m := SlotSelected(pageIndices, start, start + |pages|, j);
        assert slots[m] == j;
        assert after[j] == Filled(pages[pageIndices[j] - start]);
      } else {
        assert after[j] == before[j];
      }
    }
    assert |ov| == |after|;
  }

  /** Copies the in-file pages into their slots, as `combined_data[global_indices] = ...` does. */
  method CopyPages(buf: array<Slot>, pageIndices: seq<nat>, pages: seq<Page>, start: nat)
    requires buf.Length == |pageIndices|
    modifies buf
    ensures buf[..] == Overlay(old(buf[..]), pageIndices, pages, start)
  {
    ghost var before := buf[..];
    var slots := SlotsInFile(pageIndices, start, start + |pages|);
    var fileIdx := FileIndices(pageIndices, start, start + |pages|);
    FileIndicesAligned(pageIndices, start, start + |pages|);
    if |fileIdx| > 0 {
      for m := 0 to |slots|
        invariant forall m' :: 0 <= m' < m ==> buf[slots[m']] == Filled(pages[pageIndices[slots[m']] - start])
        invariant forall j :: 0 <= j < buf.Length && !(start <= pageIndices[j] < start + |pages|) ==> buf[j] == before[j]
      {
        assert fileIdx[m] == pageIndices[slots[m]] - start;
        buf[slots[m]] := Filled(pages[fileIdx[m]]);
      }
    }
    OverlayBySlots(before, buf[..], pageIndices, pages, start);
  }

  /** Walking one more file overlays its pages on the buffer. */
  lemma StackExtend(files: seq<seq<Page>>, pages: seq<Page>, pageIndices: seq<nat>)
    ensures Stack(files + [pages], pageIndices) == Overlay(Stack(files, pageIndices), pageIndices, pages, |Flatten(files)|)
  {
    assert (files + [pages])[..|files|] == files;
  }

  /** `start_page`: the `k`-th file is overlaid at the sum of the page counts of the files
      before it. */
  lemma StartPageIsPageTotal(files: seq<seq<Page>>, pageIndices: seq<nat>, k: nat)
    requires k < |files|
    ensures Stack(files[..k + 1], pageIndices) ==
      Overlay(Stack(files[..k], pageIndices), pageIndices, files[k], TotalLength(files[..k]))
  {
    assert files[..k + 1] == files[..k] + [files[k]];
    StackExtend(files[..k], files[k], pageIndices);
    FlattenLength(files[..k]);
  }

  /** What the multi-page loop writes from here on, given the remaining source files, the buffer
      so far and the global index `start` of the next file's first page. */
  function MultipageRun(names: seq<string>, sources: map<string, seq<Page>>, pageIndices: seq<nat>,
                        hasFrameRate: bool, buf: seq<Slot>, start: nat): (seq<seq<Slot>>, Option<Error>)
    requires |buf| == |pageIndices|
  {
    if names == [] then ([], None)
    else if names[0] !in sources then ([], Some(UnreadableSource(names[0])))
    else
      var pages := sources[names[0]];
      var next := Overlay(buf, pageIndices, pages, start);
      if !hasFrameRate then ([], Some(MissingKey("frame_rate")))
      else
        var rest := MultipageRun(names[1..], sources, pageIndices, hasFrameRate, next, start + |pages|);
        ([next] + rest.0, rest.1)
  }

  /** The multi-page branch as written: walk the source files in order with a running
      `start_page`; copy the wanted pages of each file into the buffer; after each file, write the
      whole buffer as the next numbered output. */
  method AssembleMultipage(names: seq<string>, sources: map<string, seq<Page>>,
                           pageIndices: seq<nat>, hasFrameRate: bool)
    returns (outputs: seq<seq<Slot>>, err: Option<Error>)
    ensures (outputs, err) == MultipageRun(names, sources, pageIndices, hasFrameRate, Blank(pageIndices), 0)
  {
    var buf := new Slot[|pageIndices|](_ => Unset);
    var startPage: nat := 0;
    outputs, err := [], None;
    assert buf[..] == Blank(pageIndices);
    ghost var whole := MultipageRun(names, sources, pageIndices, hasFrameRate, buf[..], 0);
    var k := 0;
    assert names[k..] == names && whole.0 == outputs + whole.0;
    while k < |names|
      invariant k <= |names|
      invariant var rest := MultipageRun(names[k..], sources, pageIndices, hasFrameRate, buf[..], startPage);
        whole == (outputs + rest.0, rest.1)
    {
      var name := names[k];
      assert names[k..][0] == name && names[k..][1..] == names[k + 1..];
      if name !in sources {
        err := Some(UnreadableSource(name));
        assert outputs + [] == outputs;
        return;
      }
      var pages := sources[name];
      CopyPages(buf, pageIndices, pages, startPage);
      startPage := startPage + |pages|;
      if !hasFrameRate {
        err := Some(MissingKey("frame_rate"));
        assert outputs + [] == outputs;
        return;
      }
      ghost var rest := MultipageRun(names[k + 1..], sources, pageIndices, hasFrameRate, buf[..], startPage);
      assert outputs + ([buf[..]] + rest.0) == (outputs + [buf[..]]) + rest.0;
      outputs := outputs + [buf[..]];
      k := k + 1;
    }
    assert names[k..] == [] && outputs + [] == outputs;
  }

  /** From the files `done` on, the walk writes the running buffers of the readable files and
      stops at the first unreadable one. */
  lemma {:induction false} MultipageRunFrom(names: seq<string>, sources: map<string, seq<Page>>,
                                            pageIndices: seq<nat>, done: seq<seq<Page>>)
    ensures var n := FirstUnreadable(names, sources);
      MultipageRun(names, sources, pageIndices, true, Stack(done, pageIndices), |Flatten(done)|) ==
        (SnapshotsAfter(done, FilePages(names, sources, n), pageIndices),
         if n < |names| then Some(UnreadableSource(names[n])) else None)
  {
    if names != [] && names[0] in sources {
      var pages := sources[names[0]];
      StackExtend(done, pages, pageIndices);
      FlattenSnoc(done, pages);
      MultipageRunFrom(names[1..], sources, pageIndices, done + [pages]);
      var more := FilePages(names, sources, FirstUnreadable(names, sources));
      assert more[0] == pages && more[1..] == FilePages(names[1..], sources, FirstUnreadable(names[1..], sources));
    }
  }

  /** The multi-page outputs: with the frame rate known, one output per readable source file
      before the first unreadable one, the `k`-th being the buffer after the first `k + 1` files,
      and an error naming that file; without it, nothing is written and the first write fails
      (unless the first file cannot be opened, or there is no file). */
  lemma MultipageOutputs(names: seq<string>, sources: map<string, seq<Page>>, pageIndices: seq<nat>, hasFrameRate: bool)
    ensures var n := FirstUnreadable(names, sources);
      var r := MultipageRun(names, sources, pageIndices, hasFrameRate, Blank(pageIndices), 0);
      && (hasFrameRate ==>
            && r.0 == Snapshots(FilePages(names, sources, n), pageIndices)
            && r.1 == if n < |names| then Some(UnreadableSource(names[n])) else None)
      && (!hasFrameRate ==>
            && r.0 == []
            && r.1 == if names == [] then None
                      else if n == 0 then Some(UnreadableSource(names[0]))
                      else Some(MissingKey("frame_rate")))
  {
    if hasFrameRate {
      MultipageRunFrom(names, sources, pageIndices, []);
      assert Stack([], pageIndices) == Blank(pageIndices) && |Flatten<Page>([])| == 0;
      var n := FirstUnreadable(names, sources);
      assert MultipageRun(names, sources, pageIndices, hasFrameRate, Blank(pageIndices), 0).0
        == SnapshotsAfter([], FilePages(names, sources, n), pageIndices);
    }
  }

  /** Two single-page source files: the code's first output keeps the second timepoint unset,
      while the intended single output is complete. */
  lemma PerFileWritesLeavePartialOutputs(a: Page, b: Page)
    ensures Snapshots([[a], [b]], [0, 1]) == [[Filled(a), Unset], [Filled(a), Filled(b)]]
    ensures CombinedStack([[a], [b]], [0, 1]) == [Filled(a), Filled(b)]
  {
    var files := [[a], [b]];
    var pi: seq<nat> := [0, 1];
    SnapshotsAreRunningBuffers(files, pi);
    StackContents(files[..1], pi);
    StackContents(files, pi);
    assert Flatten(files[..1]) == [a] by { assert files[..1][..0] == []; }
    assert Flatten(files) == [a, b] by { assert files[..1] == [[a]]; }
    assert files[..2] == files;
    var first, second := Stack(files[..1], pi), Stack(files, pi);
    assert first[0] == Filled(a) && first[1] == Unset;
    assert second[0] == Filled(a) && second[1] == Filled(b);
    assert first == [Filled(a), Unset];
    assert second == [Filled(a), Filled(b)];
    var s := Snapshots(files, pi);
    assert |s| == 2 && s[0] == first && s[1] == second;
  }

  /** When the source files hold every page of a `C`-channel, `P`-plane scan of `N` timepoints,
      the combined output for plane position `p` and channel position `c` has one filled slot
      per timepoint, holding the global page that `PageIndices` assigns to it. */
  lemma CombinedStackComplete(files: seq<seq<Page>>, numFrames: nat, numChannels: nat, numPlanes: nat, p: nat, c: nat)
    requires p < numPlanes && c < numChannels
    requires |Flatten(files)| >= numFrames * numChannels * numPlanes
    ensures var pi := PageIndices(numFrames, numChannels, numPlanes, p, c);
      var r := CombinedStack(files, pi);
      && |r| == numFrames
      && forall t :: 0 <= t < numFrames ==> pi[t] < |Flatten(files)| && r[t] == Filled(Flatten(files)[pi[t]])
  {
    PageIndicesSpec(numFrames, numChannels, numPlanes, p, c);
    StackContents(files, PageIndices(numFrames, numChannels, numPlanes, p, c));
  }

  /** A single-plane, single-channel acquisition comes out page for page as stored. */
  lemma SinglePlaneRoundTrip(files: seq<seq<Page>>, numFrames: nat)
    requires |Flatten(files)| >= numFrames
    ensures CombinedStack(files, PageIndices(numFrames, 1, 1, 0, 0)) ==
      seq(numFrames, t requires 0 <= t < numFrames => Filled(Flatten(files)[t]))
  {
    CombinedStackComplete(files, numFrames, 1, 1, 0, 0);
  }

  // ---------------------------------------------------------------- legacy layout

  /** The byte size at which a part is closed: `gb_per_file` GiB, or none when `gb_per_file` is
      unset or zero. */
  function SplitLimit(gbPerFile: Option<nat>): Option<nat> {
    if gbPerFile.Some? && gbPerFile.value > 0 then Some(gbPerFile.value * 1024 * 1024 * 1024) else None
  }

  /** A source file the legacy loop can copy: it opens, holds exactly one page, and the frame
      rate needed for the page's tags is known. */
  predicate Copyable(name: string, sources: map<string, seq<Page>>, hasFrameRate: bool) {
    name in sources && |sources[name]| == 1 && hasFrameRate
  }

  /** The error the legacy loop raises on a source it cannot copy. */
  function CopyError(name: string, sources: map<string, seq<Page>>): Error {
    if name !in sources then UnreadableSource(name)
    else if |sources[name]| != 1 then CorruptSourcePage(name)
    else MissingKey("frame_rate")
  }

  /** The index of the first source file the legacy loop cannot copy, or |names|. */
  function FirstUncopyable(names: seq<string>, sources: map<string, seq<Page>>, hasFrameRate: bool): (n: nat)
    ensures n <= |names|
    ensures forall k :: 0 <= k < n ==> Copyable(names[k], sources, hasFrameRate)
    ensures n < |names| ==> !Copyable(names[n], sources, hasFrameRate)
  {
    if names == [] then 0
    else if !Copyable(names[0], sources, hasFrameRate) then 0
    else FirstUncopyable(names[1..], sources, hasFrameRate) + 1
  }

  /** The single pages of the first `n` source files. */
  function SinglePages(names: seq<string>, sources: map<string, seq<Page>>, n: nat): (r: seq<Page>)
    requires n <= |names| && forall k :: 0 <= k < n ==> names[k] in sources && |sources[names[k]]| == 1
    ensures |r| == n
  {
    if n == 0 then [] else [sources[names[0]][0]] + SinglePages(names[1..], sources, n - 1)
  }

  /** The size of an output part on disk: two bytes per 16-bit pixel of its pages. */
  function PartBytes(part: seq<Page>): nat {
    if part == [] then 0 else PartBytes(part[..|part| - 1]) + 2 * |part[|part| - 1]|
  }

  /** The part has reached the limit that closes it. */
  predicate Reached(part: seq<Page>, limit: Option<nat>) {
    limit.Some? && PartBytes(part) >= limit.value
  }

  /** No proper prefix of the part reached the limit: only its last page can have. */
  ghost predicate ReachedOnlyAtEnd(part: seq<Page>, limit: Option<nat>) {
    forall k {:trigger Reached(part[..k], limit)} :: 0 < k < |part| ==> !Reached(part[..k], limit)
  }

  /** The parts follow the size rule: every part holds a page and reached the limit with its
      last page at the earliest; every part but the last reached it. So a new part starts only
      once the current one has reached the limit, and without a limit there is at most one
      part. */
  ghost predicate SplitBySize(parts: seq<seq<Page>>, limit: Option<nat>) {
    && (forall i :: 0 <= i < |parts| ==> |parts[i]| > 0 && ReachedOnlyAtEnd(parts[i], limit))
    && (forall i :: 0 <= i < |parts| - 1 ==> Reached(parts[i], limit))
  }

  /** What the legacy loop writes from here on, given the remaining names. */
  function Legacy(queue: seq<string>, sources: map<string, seq<Page>>, hasFrameRate: bool, limit: Option<nat>)
    : (seq<seq<Page>>, Option<Error>)
    decreases |queue|, 1
  {
    if queue == [] then ([], None) else FillFrom(queue, sources, hasFrameRate, limit, [])
  }

  /** What the legacy loop writes from here on, given the remaining names and the open part. */
  function FillFrom(queue: seq<string>, sources: map<string, seq<Page>>, hasFrameRate: bool, limit: Option<nat>,
                    part: seq<Page>): (seq<seq<Page>>, Option<Error>)
    decreases |queue|, 0
  {
    if queue == [] then ([part], None)
    else if !Copyable(queue[0], sources, hasFrameRate) then ([part], Some(CopyError(queue[0], sources)))
    else
      var grown := part + [sources[queue[0]][0]];
      if Reached(grown, limit) then
        var rest := Legacy(queue[1..], sources, hasFrameRate, limit);
        ([grown] + rest.0, rest.1)
      else FillFrom(queue[1..], sources, hasFrameRate, limit, grown)
  }

  /** The legacy branch: pop source names from the front; copy each one's single page into the
      open part; close the part once its size reaches the limit and open the next. `written` is
      what reached the disk, including the open part when a source fails. */
  method StreamLegacy(names: seq<string>, sources: map<string, seq<Page>>, gbPerFile: Option<nat>, hasFrameRate: bool)
    returns (written: seq<seq<Page>>, err: Option<Error>)
    ensures (written, err) == Legacy(names, sources, hasFrameRate, SplitLimit(gbPerFile))
  {
    var limit := SplitLimit(gbPerFile);
    ghost var whole := Legacy(names, sources, hasFrameRate, limit);
    var queue := names;
    written, err := [], None;
    assert whole.0 == written + whole.0;
    while |queue| > 0
      invariant whole == (written + Legacy(queue, sources, hasFrameRate, limit).0, Legacy(queue, sources, hasFrameRate, limit).1)
      invariant err.None?
    {
      var part: seq<Page> := [];
      while |queue| > 0
        invariant err.None?
        invariant var rest := FillFrom(queue, sources, hasFrameRate, limit, part);
          whole == (written + rest.0, rest.1)
      {
        var name := queue[0];
        queue := queue[1..];
        if name !in sources {
          err := Some(UnreadableSource(name));
          break;
        }
        if |sources[name]| != 1 {
          err := Some(CorruptSourcePage(name));
          break;
        }
        if !hasFrameRate {
          err := Some(MissingKey("frame_rate"));
          break;
        }
        part := part + [sources[name][0]];
        if limit.Some? && PartBytes(part) >= limit.value {
          assert written + [part] + Legacy(queue, sources, hasFrameRate, limit).0
              == written + ([part] + Legacy(queue, sources, hasFrameRate, limit).0);
          break;
        }
      }
      written := written + [part];
      if err.Some? {
        return;
      }
      assert written + Legacy(queue, sources, hasFrameRate, limit).0 == written || queue != [];
    }
    assert written + Legacy(queue, sources, hasFrameRate, limit).0 == written;
  }

  /** The pages the legacy loop writes are the single pages of the sources before the first one
      it cannot copy, in order, and its error names that source. */
  lemma {:induction false} LegacyPages(queue: seq<string>, sources: map<string, seq<Page>>, hasFrameRate: bool, limit: Option<nat>)
    ensures var n := FirstUncopyable(queue, sources, hasFrameRate);
      var r := Legacy(queue, sources, hasFrameRate, limit);
      && Flatten(r.0) == SinglePages(queue, sources, n)
      && r.1 == if n < |queue| then Some(CopyError(queue[n], sources)) else None
    decreases |queue|, 1
  {
    if queue != [] {
      FillFromPages(queue, sources, hasFrameRate, limit, []);
    }
  }

  lemma {:induction false} FillFromPages(queue: seq<string>, sources: map<string, seq<Page>>, hasFrameRate: bool,
                                         limit: Option<nat>, part: seq<Page>)
    ensures var n := FirstUncopyable(queue, sources, hasFrameRate);
      var r := FillFrom(queue, sources, hasFrameRate, limit, part);
      && Flatten(r.0) == part + SinglePages(queue, sources, n)
      && r.1 == if n < |queue| then Some(CopyError(queue[n], sources)) else None
    decreases |queue|, 0
  {
    if queue == [] || !Copyable(queue[0], sources, hasFrameRate) {
      FlattenSnoc([], part);
    } else {
      var grown := part + [sources[queue[0]][0]];
      if Reached(grown, limit) {
        var rest := Legacy(queue[1..], sources, hasFrameRate, limit);
        LegacyPages(queue[1..], sources, hasFrameRate, limit);
        FlattenCons([grown] + rest.0);
        assert ([grown] + rest.0)[1..] == rest.0;
      } else {
        FillFromPages(queue[1..], sources, hasFrameRate, limit, grown);
      }
    }
  }

  /** A part that reached the limit only with its last page, followed by parts that follow the
      size rule, follows it too. */
  lemma SplitBySizeCons(part: seq<Page>, rest: seq<seq<Page>>, limit: Option<nat>)
    requires |part| > 0 && ReachedOnlyAtEnd(part, limit) && Reached(part, limit)
    requires SplitBySize(rest, limit)
    ensures SplitBySize([part] + rest, limit)
  {
    var all := [part] + rest;
    assert forall i :: 0 < i < |all| ==> all[i] == rest[i - 1];
  }

  /** A part that never reached the limit, grown by one page, reached it at most with that page. */
  lemma GrownReachedOnlyAtEnd(part: seq<Page>, page: Page, limit: Option<nat>)
    requires forall k {:trigger Reached(part[..k], limit)} :: 0 < k <= |part| ==> !Reached(part[..k], limit)
    ensures ReachedOnlyAtEnd(part + [page], limit)
  {
    var grown := part + [page];
    assert forall k :: 0 < k < |grown| ==> grown[..k] == part[..k];
  }

  /** When every source can be copied, the legacy parts follow the size rule. */
  lemma {:induction false} LegacySplit(queue: seq<string>, sources: map<string, seq<Page>>, hasFrameRate: bool, limit: Option<nat>)
    requires FirstUncopyable(queue, sources, hasFrameRate) == |queue|
    ensures SplitBySize(Legacy(queue, sources, hasFrameRate, limit).0, limit)
    decreases |queue|, 1
  {
    if queue != [] {
      FillFromSplit(queue, sources, hasFrameRate, limit, []);
    }
  }

  lemma {:induction false} FillFromSplit(queue: seq<string>, sources: map<string, seq<Page>>, hasFrameRate: bool,
                                         limit: Option<nat>, part: seq<Page>)
    requires FirstUncopyable(queue, sources, hasFrameRate) == |queue|
    requires part != [] || queue != []
    requires forall k {:trigger Reached(part[..k], limit)} :: 0 < k <= |part| ==> !Reached(part[..k], limit)
    ensures SplitBySize(FillFrom(queue, sources, hasFrameRate, limit, part).0, limit)
    decreases |queue|, 0
  {
    if queue == [] {
      assert forall k :: 0 < k < |part| ==> !Reached(part[..k], limit);
    } else {
      var grown := part + [sources[queue[0]][0]];
      GrownReachedOnlyAtEnd(part, sources[queue[0]][0], limit);
      if Reached(grown, limit) {
        LegacySplit(queue[1..], sources, hasFrameRate, limit);
        SplitBySizeCons(grown, Legacy(queue[1..], sources, hasFrameRate, limit).0, limit);
      } else {
        assert grown[..|grown|] == grown;
        assert forall k :: 0 < k < |grown| ==> grown[..k] == part[..k];
        FillFromSplit(queue[1..], sources, hasFrameRate, limit, grown);
      }
    }
  }

  /** The legacy outputs: the single pages of the sources before the first one that cannot be
      copied, in order; an error naming that source; and, when every source is copied, parts
      that follow the size rule, a single part when no limit is set. */
  lemma LegacyOutputs(names: seq<string>, sources: map<string, seq<Page>>, hasFrameRate: bool, gbPerFile: Option<nat>)
    ensures var n := FirstUncopyable(names, sources, hasFrameRate);
      var limit := SplitLimit(gbPerFile);
      var r := Legacy(names, sources, hasFrameRate, limit);
      && Flatten(r.0) == SinglePages(names, sources, n)
      && r.1 == (if n < |names| then Some(CopyError(names[n], sources)) else None)
      && (n == |names| ==> SplitBySize(r.0, limit))
      && (n == |names| && names != [] && limit.None? ==> |r.0| == 1)
  {
    var limit := SplitLimit(gbPerFile);
    LegacyPages(names, sources, hasFrameRate, limit);
    if FirstUncopyable(names, sources, hasFrameRate) == |names| {
      LegacySplit(names, sources, hasFrameRate, limit);
    }
  }

  lemma FlattenCons(ss: seq<seq<Page>>)
    requires ss != []
    ensures Flatten(ss) == ss[0] + Flatten(ss[1..])
  {
    FlattenAppend([ss[0]], ss[1..]);
    assert [ss[0]] + ss[1..] == ss;
    assert Flatten([ss[0]]) == ss[0] by { assert [ss[0]][..0] == []; }
  }

  /** A non-empty split has pages. */
  lemma SplitBySizeNonEmpty(p: seq<seq<Page>>, limit: Option<nat>)
    requires SplitBySize(p, limit)
    ensures p != [] ==> |Flatten(p)| >= |p[0]| > 0
  {
    if p != [] { FlattenCons(p); }
  }

  lemma SplitBySizeTail(p: seq<seq<Page>>, limit: Option<nat>)
    requires p != [] && SplitBySize(p, limit)
    ensures SplitBySize(p[1..], limit)
  {
    var t := p[1..];
    assert forall i :: 0 <= i < |t| ==> t[i] == p[i + 1];
  }

  /** Of two splits of the same pages, the first part of one is no shorter than that of the
      other: a shorter first part is a proper prefix of the other's, so it is below the limit,
      so it would have to be the last part and hold every page. */
  lemma FirstPartNotShorter(p: seq<seq<Page>>, q: seq<seq<Page>>, limit: Option<nat>)
    requires SplitBySize(p, limit) && SplitBySize(q, limit)
    requires p != [] && q != [] && Flatten(p) == Flatten(q)
    ensures |p[0]| >= |q[0]|
  {
    var s := Flatten(p);
    FlattenCons(p);
    FlattenCons(q);
    var a, b := p[0], q[0];
    assert s[..|a|] == a;
    assert forall k :: 0 <= k <= |b| ==> s[..k] == b[..k];
    if |p| == 1 {
      assert p[1..] == [];
      assert |a| == |s|;
    } else {
      assert Reached(a, limit);
      assert |a| >= |b|;
    }
  }

  /** The size rule determines the parts: two splits of the same pages are equal. */
  lemma {:induction false} SplitBySizeUnique(p: seq<seq<Page>>, q: seq<seq<Page>>, limit: Option<nat>)
    requires SplitBySize(p, limit) && SplitBySize(q, limit)
    requires Flatten(p) == Flatten(q)
    ensures p == q
    decreases |p|
  {
    SplitBySizeNonEmpty(p, limit);
    SplitBySizeNonEmpty(q, limit);
    if p != [] && q != [] {
      FirstPartNotShorter(p, q, limit);
      FirstPartNotShorter(q, p, limit);
      var a := p[0];
      FlattenCons(p);
      FlattenCons(q);
      assert q[0] == Flatten(p)[..|a|] == a;
      assert Flatten(p[1..]) == Flatten(p)[|a|..] == Flatten(q[1..]);
      SplitBySizeTail(p, limit);
      SplitBySizeTail(q, limit);
      SplitBySizeUnique(p[1..], q[1..], limit);
      assert p == [a] + p[1..] && q == [a] + q[1..];
    }
  }
}
