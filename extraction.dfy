/** `_extract_prairieview_metadata`: the channel and plane sets, the page count, the
    multi-page flag and the Z-position rule, computed from the abstract descriptor. */
module Extraction {
  import opened Common
  import opened Ordering
  import opened ScanDescriptor

  /** `fieldZ`: one scalar when there is no depth scanning, else one value per plane. */
  datatype ZFields = Scalar(z: ZToken) | PerPlane(zs: seq<ZToken>)

  /** The metadata record. `numFrames` is None once a failed frame adjustment has removed the
      entry; `hasFrameRate` says whether the `frame_rate` entry has been set. */
  datatype Metadata = Metadata(
    numChannels: nat,
    channels: seq<int>,
    numPlanes: nat,
    planeIndices: seq<int>,
    numFrames: Option<nat>,
    isMultipage: bool,
    bidirectionalZ: bool,
    zFields: ZFields,
    hasFrameRate: bool)

  /** The Z-axis sub-values of the cycle-2 frames with index 1: one per Z controller. */
  function Controllers(d: Descriptor): seq<ZSubValue> {
    ZEntries(WithIndex(CycleFrames(d, 2), 1))
  }

  /** `z_repeats`: for each controller, its values across all cycle-2 frames. */
  function ControllerValues(d: Descriptor): (r: seq<seq<ZToken>>)
    ensures |r| == |Controllers(d)|
  {
    var controllers := Controllers(d);
    var entries := ZEntries(CycleFrames(d, 2));
    seq(|controllers|, i requires 0 <= i < |controllers| => ValuesAt(entries, controllers[i].subindex))
  }

  /** `not all(z == zs[0] for z in zs)`: the controller changes depth. */
  predicate Varies(zs: seq<ZToken>) {
    exists k :: 0 <= k < |zs| && zs[k] != zs[0]
  }

  /** `sum(controller_assert)`. */
  function CountVarying(reps: seq<seq<ZToken>>): nat {
    if reps == [] then 0 else CountVarying(reps[..|reps| - 1]) + (if Varies(reps[|reps| - 1]) then 1 else 0)
  }

  /** `controller_assert.index(True)`; |reps| when none varies. */
  function FirstVarying(reps: seq<seq<ZToken>>): (k: nat)
    ensures k <= |reps|
  {
    if reps == [] then 0 else if Varies(reps[0]) then 0 else FirstVarying(reps[1..]) + 1
  }

  /** The Z-controller rule: exactly one controller may vary, and its values are the Z list. */
  function SelectController(reps: seq<seq<ZToken>>): Result<seq<ZToken>> {
    if CountVarying(reps) != 1 then Failure(AmbiguousZController)
    else if FirstVarying(reps) < |reps| then Success(reps[FirstVarying(reps)])
    else Failure(AmbiguousZController)
  }

  /** Exactly one entry varies. */
  ghost predicate ExactlyOneVaries(reps: seq<seq<ZToken>>, k: int) {
    0 <= k < |reps| && Varies(reps[k]) && forall j :: 0 <= j < |reps| && j != k ==> !Varies(reps[j])
  }

  lemma {:induction false} CountVaryingZero(reps: seq<seq<ZToken>>)
    ensures CountVarying(reps) == 0 <==> forall j :: 0 <= j < |reps| ==> !Varies(reps[j])
  {
    if reps != [] {
      var pre := reps[..|reps| - 1];
      CountVaryingZero(pre);
      assert forall j :: 0 <= j < |pre| ==> pre[j] == reps[j];
    }
  }

  lemma {:induction false} CountVaryingOne(reps: seq<seq<ZToken>>)
    ensures CountVarying(reps) == 1 <==> exists k :: ExactlyOneVaries(reps, k)
  {
    if reps != [] {
      var pre := reps[..|reps| - 1];
      var n := |reps| - 1;
      CountVaryingOne(pre);
      CountVaryingZero(pre);
      assert forall j :: 0 <= j < |pre| ==> pre[j] == reps[j];
      if Varies(reps[n]) {
        if CountVarying(reps) == 1 { assert ExactlyOneVaries(reps, n); }
        if k :| ExactlyOneVaries(reps, k) {
          assert k == n;
          assert forall j :: 0 <= j < |pre| ==> !Varies(pre[j]);
        }
      } else {
        if CountVarying(reps) == 1 {
          var k :| ExactlyOneVaries(pre, k);
          assert ExactlyOneVaries(reps, k);
        }
        if k :| ExactlyOneVaries(reps, k) {
          assert ExactlyOneVaries(pre, k);
        }
      }
    }
  }

  lemma {:induction false} FirstVaryingFinds(reps: seq<seq<ZToken>>, k: int)
    requires 0 <= k < |reps| && Varies(reps[k])
    ensures FirstVarying(reps) <= k && Varies(reps[FirstVarying(reps)])
  {
    if !Varies(reps[0]) {
      FirstVaryingFinds(reps[1..], k - 1);
    }
  }

  /** Z-controller selection succeeds exactly when one controller varies, and then yields that
      controller's values. */
  lemma SelectControllerSpec(reps: seq<seq<ZToken>>)
    ensures SelectController(reps).Success? <==> exists k :: ExactlyOneVaries(reps, k)
    ensures forall k :: ExactlyOneVaries(reps, k) ==> SelectController(reps) == Success(reps[k])
  {
    CountVaryingOne(reps);
    if k :| ExactlyOneVaries(reps, k) {
      FirstVaryingFinds(reps, k);
      assert FirstVarying(reps) == k;
    }
  }

  /** The plane indices, the Z list and the bidirectional-Z flag. */
  function ZLayout(d: Descriptor): Result<(seq<int>, ZFields, bool)> {
    var cycle2 := CycleFrames(d, 2);
    if !HasZAxis(cycle2) then
      if d.firstZ.None? then Failure(MissingElement)
      else Success(([0], Scalar(d.firstZ.value), false))
    else
      var planes := SetListing(FrameIndices(CycleFrames(d, 1)));
      var bidirectional := |d.sequences| > 0 && d.sequences[0].bidirectionalZ;
      var zs :- if |Controllers(d)| > 1 then SelectController(ControllerValues(d))
                else Success(ValuesAt(ZEntries(cycle2), 0));
      if |zs| != |planes| then Failure(DepthMismatch)
      else Success((planes, PerPlane(zs), bidirectional))
  }

  /** The metadata the extractor returns; `numFrames` is still the page count here. */
  function Extract(d: Descriptor): Result<Metadata> {
    if !HasCycle(d, 1) then Failure(MissingElement)
    else if !d.settingsPresent || |AllFrames(d)| == 0 then Failure(MissingElement)
    else
      var channels := SetListing(ChannelList(AllFiles(d)));
      var layout :- ZLayout(d);
      Success(Metadata(|channels|, channels, |layout.0|, layout.0, Some(|AllFrames(d)|),
                       HasPage(AllFiles(d)), layout.2, layout.1, false))
  }

  /** `channels` is the distinct set of `File` channel attributes (listed in ascending order) and
      `num_channels` its size. */
  lemma ExtractChannels(d: Descriptor)
    requires Extract(d).Success?
    ensures var m := Extract(d).value;
      && Elems(m.channels) == (set i | 0 <= i < |AllFiles(d)| && AllFiles(d)[i].channel.Some? :: AllFiles(d)[i].channel.value)
      && (forall i, j :: 0 <= i < j < |m.channels| ==> m.channels[i] < m.channels[j])
      && m.numChannels == |m.channels|
  {
    var files := AllFiles(d);
    SetListingCorrect(ChannelList(files));
    var m := Extract(d).value;
    assert m.channels == SetListing(ChannelList(files));
    var want := set i | 0 <= i < |files| && files[i].channel.Some? :: files[i].channel.value;
    forall c ensures c in Elems(ChannelList(files)) <==> c in want {
      if c in want {
        var i :| 0 <= i < |files| && files[i].channel.Some? && files[i].channel.value == c;
        assert files[i].channel == Some(c);
      }
    }
  }

  /** `is_multipage` holds exactly when some `File` record carries a `page` attribute. */
  lemma ExtractMultipage(d: Descriptor)
    requires Extract(d).Success?
    ensures Extract(d).value.isMultipage <==>
      exists fr, f :: fr in AllFrames(d) && f in fr.files && f.page.Some?
  {
    var files := AllFiles(d);
    if exists fr, f :: fr in AllFrames(d) && f in fr.files && f.page.Some? {
      var fr, f :| fr in AllFrames(d) && f in fr.files && f.page.Some?;
      var k :| 0 <= k < |AllFrames(d)| && AllFrames(d)[k] == fr;
      assert f in files;
      var i :| 0 <= i < |files| && files[i] == f;
    }
    if HasPage(files) {
      var i :| 0 <= i < |files| && files[i].page.Some?;
      assert files[i] in files;
    }
  }

  /** The page count is the number of `Sequence/Frame` elements; the frame rate is not yet set. */
  lemma ExtractFrames(d: Descriptor)
    requires Extract(d).Success?
    ensures Extract(d).value.numFrames == Some(|AllFrames(d)|) && |AllFrames(d)| > 0
    ensures !Extract(d).value.hasFrameRate
  {
  }

  /** Without cycle-2 Z data there is one plane, index 0, and one scalar Z value; with it, the
      planes are the distinct cycle-1 frame indices and the Z list has one entry per plane. */
  lemma ExtractDepths(d: Descriptor)
    requires Extract(d).Success?
    ensures var m := Extract(d).value;
      && m.numPlanes == |m.planeIndices|
      && (!HasZAxis(CycleFrames(d, 2)) ==> m.planeIndices == [0] && m.zFields == Scalar(d.firstZ.value))
      && (HasZAxis(CycleFrames(d, 2)) ==>
            && Elems(m.planeIndices) == Elems(FrameIndices(CycleFrames(d, 1)))
            && m.numPlanes == |Elems(FrameIndices(CycleFrames(d, 1)))|
            && m.zFields.PerPlane? && |m.zFields.zs| == m.numPlanes)
  {
    SetListingCorrect(FrameIndices(CycleFrames(d, 1)));
  }

  /** With several Z controllers, extraction succeeds only when exactly one of them varies, and
      the Z list is then that controller's values; with zero or several varying it fails. */
  lemma ExtractZController(d: Descriptor)
    requires HasCycle(d, 1) && d.settingsPresent && |AllFrames(d)| > 0
    requires HasZAxis(CycleFrames(d, 2)) && |Controllers(d)| > 1
    ensures (forall k :: !ExactlyOneVaries(ControllerValues(d), k)) ==>
      Extract(d) == Failure(AmbiguousZController)
    ensures forall k :: ExactlyOneVaries(ControllerValues(d), k) ==>
      Extract(d).Success? ==> Extract(d).value.zFields == PerPlane(ControllerValues(d)[k])
    ensures Extract(d).Success? ==> exists k :: ExactlyOneVaries(ControllerValues(d), k)
  {
    SelectControllerSpec(ControllerValues(d));
  }

  /** The Z list must have one entry per plane; otherwise extraction fails. */
  lemma ExtractDepthMismatch(d: Descriptor)
    requires HasCycle(d, 1) && d.settingsPresent && |AllFrames(d)| > 0
    requires HasZAxis(CycleFrames(d, 2)) && |Controllers(d)| <= 1
    requires |ValuesAt(ZEntries(CycleFrames(d, 2)), 0)| != |Elems(FrameIndices(CycleFrames(d, 1)))|
    ensures Extract(d) == Failure(DepthMismatch)
  {
    SetListingCorrect(FrameIndices(CycleFrames(d, 1)));
  }

  /** With at most one controller, a subindex-0 Z list with one entry per plane is accepted,
      and it is the Z list of the result. */
  lemma SingleControllerAccepts(d: Descriptor)
    requires HasCycle(d, 1) && d.settingsPresent && |AllFrames(d)| > 0
    requires HasZAxis(CycleFrames(d, 2)) && |Controllers(d)| <= 1
    requires |ValuesAt(ZEntries(CycleFrames(d, 2)), 0)| == |Elems(FrameIndices(CycleFrames(d, 1)))|
    ensures Extract(d).Success?
    ensures Extract(d).value.zFields == PerPlane(ValuesAt(ZEntries(CycleFrames(d, 2)), 0))
  {
    SetListingCorrect(FrameIndices(CycleFrames(d, 1)));
  }

  /** With several controllers, the one varying controller whose list has one entry per plane
      is accepted, and its values are the Z list of the result. */
  lemma SelectedControllerAccepts(d: Descriptor, k: int)
    requires HasCycle(d, 1) && d.settingsPresent && |AllFrames(d)| > 0
    requires HasZAxis(CycleFrames(d, 2)) && |Controllers(d)| > 1
    requires ExactlyOneVaries(ControllerValues(d), k)
    requires |ControllerValues(d)[k]| == |Elems(FrameIndices(CycleFrames(d, 1)))|
    ensures Extract(d).Success?
    ensures Extract(d).value.zFields == PerPlane(ControllerValues(d)[k])
  {
    SelectControllerSpec(ControllerValues(d));
    SetListingCorrect(FrameIndices(CycleFrames(d, 1)));
  }

  /** `z_repeats`, built one controller at a time as the source's loop does. */
  method CollectControllerValues(d: Descriptor) returns (zRepeats: seq<seq<ZToken>>)
    ensures |zRepeats| == |Controllers(d)|
    ensures forall i :: 0 <= i < |zRepeats| ==>
      zRepeats[i] == ValuesAt(ZEntries(CycleFrames(d, 2)), Controllers(d)[i].subindex)
  {
    var controllers := Controllers(d);
    var entries := ZEntries(CycleFrames(d, 2));
    zRepeats := [];
    for i := 0 to |controllers|
      invariant |zRepeats| == i
      invariant forall j :: 0 <= j < i ==> zRepeats[j] == ValuesAt(entries, controllers[j].subindex)
    {
      zRepeats := zRepeats + [ValuesAt(entries, controllers[i].subindex)];
    }
  }

  /** The extractor as a computation; it agrees with `Extract`. */
  method ExtractMetadata(d: Descriptor) returns (r: Result<Metadata>)
    ensures r == Extract(d)
  {
    if !HasCycle(d, 1) || !d.settingsPresent || |AllFrames(d)| == 0 {
      return Failure(MissingElement);
    }
    var channels := SetListing(ChannelList(AllFiles(d)));
    var isMultipage := HasPage(AllFiles(d));
    var cycle2 := CycleFrames(d, 2);
    var planes: seq<int>;
    var zFields: ZFields;
    var bidirectional: bool;
    if !HasZAxis(cycle2) {
      if d.firstZ.None? {
        return Failure(MissingElement);
      }
      planes, zFields, bidirectional := [0], Scalar(d.firstZ.value), false;
    } else {
      bidirectional := |d.sequences| > 0 && d.sequences[0].bidirectionalZ;
      planes := SetListing(FrameIndices(CycleFrames(d, 1)));
      var zs: seq<ZToken>;
      if |Controllers(d)| > 1 {
        var zRepeats := CollectControllerValues(d);
        assert zRepeats == ControllerValues(d);
        var selected := SelectController(zRepeats);
        if selected.Failure? {
          return Failure(selected.error);
        }
        zs := selected.value;
      } else {
        zs := ValuesAt(ZEntries(cycle2), 0);
      }
      if |zs| != |planes| {
        return Failure(DepthMismatch);
      }
      zFields := PerPlane(zs);
    }
    r := Success(Metadata(|channels|, channels, |planes|, planes, Some(|AllFrames(d)|),
                          isMultipage, bidirectional, zFields, false));
  }
}
