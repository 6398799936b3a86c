/** The page addressing of multi-page acquisitions: pages are stored channel fastest, then
    plane, then time, so timepoint `t` of plane position `p` and channel position `c` is global
    page `t * (C * P) + p * C + c`. */
module PageIndex {

  /** `page_indices` for `num_frames` timepoints, `C` channels and `P` planes. */
  function PageIndices(numFrames: nat, numChannels: nat, numPlanes: nat, sliceIdx: nat, channelIdx: nat): seq<nat> {
    seq(numFrames, t => t * (numChannels * numPlanes) + sliceIdx * numChannels + channelIdx)
  }

  /** Euclidean division is determined by quotient and remainder. */
  lemma DivModUnique(g: int, d: int, q: int, r: int)
    requires d > 0 && 0 <= r < d && g == q * d + r
    ensures g / d == q && g % d == r
  {
    var q', r' := g / d, g % d;
    assert g == q' * d + r';
    if q' < q {
      assert (q - q') * d == r' - r;
      MulAtLeast(q - q', d);
    } else if q' > q {
      assert (q' - q) * d == r - r';
      MulAtLeast(q' - q, d);
    }
  }

  lemma MulAtLeast(a: int, d: int)
    requires a >= 1 && d > 0
    ensures a * d >= d
  {
  }

  /** Splitting a global page back into timepoint, plane position and channel position. */
  lemma {:induction false} DecodePage(t: nat, numChannels: nat, numPlanes: nat, sliceIdx: nat, channelIdx: nat)
    requires sliceIdx < numPlanes && channelIdx < numChannels
    ensures var g := t * (numChannels * numPlanes) + sliceIdx * numChannels + channelIdx;
      && g / (numChannels * numPlanes) == t
      && (g % (numChannels * numPlanes)) / numChannels == sliceIdx
      && g % numChannels == channelIdx
  {
    var step := numChannels * numPlanes;
    var inner := sliceIdx * numChannels + channelIdx;
    InnerBound(numChannels, numPlanes, sliceIdx, channelIdx);
    var g := t * step + inner;
    DivModUnique(g, step, t, inner);
    DivModUnique(inner, numChannels, sliceIdx, channelIdx);
    assert g == (t * numPlanes + sliceIdx) * numChannels + channelIdx;
    DivModUnique(g, numChannels, t * numPlanes + sliceIdx, channelIdx);
  }

  lemma MulMono(a: nat, b: nat, c: nat)
    requires a <= b
    ensures a * c <= b * c
  {
  }

  /** One entry per timepoint, strictly increasing, each below the page count
      `num_frames * C * P`, and each decoding back to its timepoint, plane position and channel
      position. */
  lemma {:induction false} PageIndicesSpec(numFrames: nat, numChannels: nat, numPlanes: nat, sliceIdx: nat, channelIdx: nat)
    requires sliceIdx < numPlanes && channelIdx < numChannels
    ensures var pi := PageIndices(numFrames, numChannels, numPlanes, sliceIdx, channelIdx);
      && |pi| == numFrames
      && (forall i, j :: 0 <= i < j < numFrames ==> pi[i] < pi[j])
      && (forall t :: 0 <= t < numFrames ==> pi[t] < numFrames * numChannels * numPlanes)
      && (forall t :: 0 <= t < numFrames ==>
            && pi[t] / (numChannels * numPlanes) == t
            && (pi[t] % (numChannels * numPlanes)) / numChannels == sliceIdx
            && pi[t] % numChannels == channelIdx)
  {
    var pi := PageIndices(numFrames, numChannels, numPlanes, sliceIdx, channelIdx);
    forall t | 0 <= t < numFrames
      ensures pi[t] < numFrames * numChannels * numPlanes
      ensures && pi[t] / (numChannels * numPlanes) == t
              && (pi[t] % (numChannels * numPlanes)) / numChannels == sliceIdx
              && pi[t] % numChannels == channelIdx
    {
      PageIndexAt(t, numFrames, numChannels, numPlanes, sliceIdx, channelIdx);
    }
    forall i, j | 0 <= i < j < numFrames ensures pi[i] < pi[j] {
      DivMono(pi[i], pi[j], numChannels * numPlanes);
    }
  }

  /** The page of timepoint `t` lies below the page count and decodes back. */
  lemma PageIndexAt(t: nat, numFrames: nat, numChannels: nat, numPlanes: nat, sliceIdx: nat, channelIdx: nat)
    requires t < numFrames && sliceIdx < numPlanes && channelIdx < numChannels
    ensures var g := PageIndices(numFrames, numChannels, numPlanes, sliceIdx, channelIdx)[t];
      && g < numFrames * numChannels * numPlanes
      && g / (numChannels * numPlanes) == t
      && (g % (numChannels * numPlanes)) / numChannels == sliceIdx
      && g % numChannels == channelIdx
  {
    var step := numChannels * numPlanes;
    var inner := sliceIdx * numChannels + channelIdx;
    var g := PageIndices(numFrames, numChannels, numPlanes, sliceIdx, channelIdx)[t];
    assert g == t * step + inner;
    DecodePage(t, numChannels, numPlanes, sliceIdx, channelIdx);
    InnerBound(numChannels, numPlanes, sliceIdx, channelIdx);
    BelowTotal(t, numFrames, step, inner);
    MulAssoc(numFrames, numChannels, numPlanes);
  }

  lemma InnerBound(numChannels: nat, numPlanes: nat, sliceIdx: nat, channelIdx: nat)
    requires sliceIdx < numPlanes && channelIdx < numChannels
    ensures sliceIdx * numChannels + channelIdx < numChannels * numPlanes
  {
    MulMono(sliceIdx, numPlanes - 1, numChannels);
    assert (numPlanes - 1) * numChannels == numChannels * numPlanes - numChannels;
  }

  lemma BelowTotal(t: nat, numFrames: nat, step: nat, inner: nat)
    requires t < numFrames && inner < step
    ensures t * step + inner < numFrames * step
  {
    MulMono(t + 1, numFrames, step);
    assert (t + 1) * step == t * step + step;
  }

  lemma MulAssoc(a: nat, b: nat, c: nat)
    ensures a * (b * c) == a * b * c
  {
  }

  lemma DivMono(a: nat, b: nat, d: nat)
    requires d > 0 && a / d < b / d
    ensures a < b
  {
    var qa, qb := a / d, b / d;
    MulMono(qa + 1, qb, d);
    assert (qa + 1) * d == qa * d + d;
  }

  /** Distinct (plane, channel) positions address disjoint sets of pages. */
  lemma PageIndicesDisjoint(numFrames: nat, numChannels: nat, numPlanes: nat,
                            p1: nat, c1: nat, p2: nat, c2: nat)
    requires p1 < numPlanes && c1 < numChannels && p2 < numPlanes && c2 < numChannels
    requires (p1, c1) != (p2, c2)
    ensures forall i, j :: 0 <= i < numFrames && 0 <= j < numFrames ==>
      PageIndices(numFrames, numChannels, numPlanes, p1, c1)[i] !=
      PageIndices(numFrames, numChannels, numPlanes, p2, c2)[j]
  {
    PageIndicesSpec(numFrames, numChannels, numPlanes, p1, c1);
    PageIndicesSpec(numFrames, numChannels, numPlanes, p2, c2);
  }

  /** Two channels, three planes, ten timepoints: plane position 1, channel position 0 reads
      pages 2, 8, ..., 56. */
  lemma PageIndicesExample()
    ensures PageIndices(10, 2, 3, 1, 0) == [2, 8, 14, 20, 26, 32, 38, 44, 50, 56]
  {
  }
}
