/**
 * The fragment planner as functions: fragments are located strictly in index
 * order, each locate starting from the time anchor the previous one left,
 * and the sizes follow from consecutive offsets.
 */
module FragmentPlanner {
  import opened Wrappers
  import opened Bytes
  import opened PcapHeaders
  import opened BoundaryLocator

  /**
   * The result of locating fragments i, i + 1, ... in order: the offsets
   * found, the tv_sec accepted for each, the anchor left at the end, and the
   * fragment whose locate failed, if one did (later ones are not tried).
   */
  datatype Sweep = Sweep(offsets: seq<nat>, seconds: seq<int>, anchorSec: int, anchorUsec: int, failedAt: Option<nat>)

  /** A boundary locator: the boundary of a fragment given the tv_sec anchor, or None. */
  type Locator = (int, nat) -> Option<Located>

  /** The locator of the tool, for one file and its parameters. */
  function LocatorOf(scan: Scan): Locator
  {
    (anchor: int, fragId: nat) => Locate(scan, anchor, fragId)
  }

  /** Every boundary the locator returns is placed inside its window and within maxgap of the anchor. */
  ghost predicate Sound(scan: Scan, locate: Locator)
  {
    forall anchor: int, fragId: nat :: locate(anchor, fragId).Some? ==> Placed(scan, anchor, fragId, locate(anchor, fragId).value)
  }

  lemma LocatorOfSound(scan: Scan)
    ensures Sound(scan, LocatorOf(scan))
  {
    forall anchor: int, fragId: nat | LocatorOf(scan)(anchor, fragId).Some?
      ensures Placed(scan, anchor, fragId, LocatorOf(scan)(anchor, fragId).value)
    {
      LocateIsAcceptable(scan, anchor, fragId);
    }
  }

  /**
   * Locating fragments i .. n - 1 in order, each from the anchor the previous
   * one left, and stopping at the first that has no boundary.
   */
  function SweepFrom(locate: Locator, anchorSec: int, anchorUsec: int, i: nat, n: nat): (s: Sweep)
    requires i <= n
    decreases n - i
    ensures |s.seconds| == |s.offsets| <= n - i
    ensures s.failedAt.None? <==> |s.offsets| == n - i
    ensures s.failedAt.Some? ==> s.failedAt.value == i + |s.offsets| < n
    ensures s.failedAt.Some? ==> locate(s.anchorSec, s.failedAt.value).None?
    ensures |s.offsets| == 0 ==> s.anchorSec == anchorSec && s.anchorUsec == anchorUsec
    ensures |s.offsets| > 0 ==> s.anchorSec == s.seconds[|s.seconds| - 1]
  {
    if i == n then Sweep([], [], anchorSec, anchorUsec, None)
    else
      match locate(anchorSec, i)
      case None => Sweep([], [], anchorSec, anchorUsec, Some(i))
      case Some(l) =>
        var rest := SweepFrom(locate, l.tvSec, l.tvUsec, i + 1, n);
        Sweep([l.offset] + rest.offsets, [l.tvSec as int] + rest.seconds, rest.anchorSec, rest.anchorUsec, rest.failedAt)
  }

  /**
   * A sweep from fragment 0 that has produced `done` so far and would go on
   * as the sweep from fragment i under the anchor (anchorSec, anchorUsec).
   */
  predicate Continues(locate: Locator, whole: Sweep, done: seq<nat>, anchorSec: int, anchorUsec: int, i: nat, n: nat)
    requires i <= n
  {
    var rest := SweepFrom(locate, anchorSec, anchorUsec, i, n);
    && whole.offsets == done + rest.offsets
    && whole.anchorSec == rest.anchorSec && whole.anchorUsec == rest.anchorUsec
    && whole.failedAt == rest.failedAt
  }

  /** A successful locate of fragment i appends its offset and moves the anchor to its timestamp. */
  lemma ContinuesAfterFound(locate: Locator, whole: Sweep, done: seq<nat>, anchorSec: int, anchorUsec: int, i: nat, n: nat, l: Located)
    requires i < n && Continues(locate, whole, done, anchorSec, anchorUsec, i, n)
    requires locate(anchorSec, i) == Some(l)
    ensures Continues(locate, whole, done + [l.offset], l.tvSec, l.tvUsec, i + 1, n)
  {
    var rest := SweepFrom(locate, l.tvSec, l.tvUsec, i + 1, n);
    assert SweepFrom(locate, anchorSec, anchorUsec, i, n).offsets == [l.offset] + rest.offsets;
    assert done + ([l.offset] + rest.offsets) == (done + [l.offset]) + rest.offsets;
  }

  /** A failed locate of fragment i ends the sweep there. */
  lemma ContinuesAfterMissing(locate: Locator, whole: Sweep, done: seq<nat>, anchorSec: int, anchorUsec: int, i: nat, n: nat)
    requires i < n && Continues(locate, whole, done, anchorSec, anchorUsec, i, n)
    requires locate(anchorSec, i).None?
    ensures whole == Sweep(whole.offsets, whole.seconds, anchorSec, anchorUsec, Some(i)) && whole.offsets == done
  {
    assert done + [] == done;
  }

  /** A sweep that reached fragment n has nothing left to do. */
  lemma ContinuesAtEnd(locate: Locator, whole: Sweep, done: seq<nat>, anchorSec: int, anchorUsec: int, n: nat)
    requires Continues(locate, whole, done, anchorSec, anchorUsec, n, n)
    ensures whole == Sweep(whole.offsets, whole.seconds, anchorSec, anchorUsec, None) && whole.offsets == done
  {
    assert done + [] == done;
  }

  /** Fragment f, the (f - i)-th of a sweep from i, is placed inside its own window with a whole header in the file. */
  lemma {:induction false} SweepInWindow(scan: Scan, locate: Locator, anchorSec: int, anchorUsec: int, i: nat, n: nat, f: nat)
    requires Sound(scan, locate)
    requires i <= n && i <= f < i + |SweepFrom(locate, anchorSec, anchorUsec, i, n).offsets|
    decreases f - i
    ensures var offset := SweepFrom(locate, anchorSec, anchorUsec, i, n).offsets[f - i];
            InWindow(scan, f, offset) && offset + PkthdrLength < |scan.file|
  {
    if f > i {
      SweepTail(locate, anchorSec, anchorUsec, i, n, f);
      var l := locate(anchorSec, i).value;
      SweepInWindow(scan, locate, l.tvSec, l.tvUsec, i + 1, n, f);
    } else {
      SweepHead(scan, locate, anchorSec, anchorUsec, i, n);
    }
  }

  /** The first offset of a sweep is the one located for its first fragment. */
  lemma SweepHead(scan: Scan, locate: Locator, anchorSec: int, anchorUsec: int, i: nat, n: nat)
    requires Sound(scan, locate)
    requires i <= n && 0 < |SweepFrom(locate, anchorSec, anchorUsec, i, n).offsets|
    ensures var offset := SweepFrom(locate, anchorSec, anchorUsec, i, n).offsets[0];
            InWindow(scan, i, offset) && offset + PkthdrLength < |scan.file|
  {
    var l := locate(anchorSec, i).value;
    assert SweepFrom(locate, anchorSec, anchorUsec, i, n).offsets[0] == l.offset;
    assert Placed(scan, anchorSec, i, l);
  }

  /** Past its first fragment, a sweep continues as the sweep from the next fragment under the new anchor. */
  lemma SweepTail(locate: Locator, anchorSec: int, anchorUsec: int, i: nat, n: nat, f: nat)
    requires i <= n && i < f < i + |SweepFrom(locate, anchorSec, anchorUsec, i, n).offsets|
    ensures && i < n && locate(anchorSec, i).Some?
            && var l := locate(anchorSec, i).value;
               var rest := SweepFrom(locate, l.tvSec, l.tvUsec, i + 1, n);
               && f < i + 1 + |rest.offsets|
               && SweepFrom(locate, anchorSec, anchorUsec, i, n).offsets[f - i] == rest.offsets[f - (i + 1)]
  {
    var l := locate(anchorSec, i).value;
    var rest := SweepFrom(locate, l.tvSec, l.tvUsec, i + 1, n);
    assert SweepFrom(locate, anchorSec, anchorUsec, i, n).offsets == [l.offset] + rest.offsets;
  }

  /**
   * The accepted timestamps: the first is within maxgap after the initial
   * anchor, and each later one is within maxgap after the one before.
   */
  lemma {:induction false} SweepSeconds(scan: Scan, locate: Locator, anchorSec: int, anchorUsec: int, i: nat, n: nat)
    requires Sound(scan, locate)
    requires i <= n
    decreases n - i
    ensures var s := SweepFrom(locate, anchorSec, anchorUsec, i, n);
            && (|s.seconds| > 0 ==> anchorSec <= s.seconds[0] <= anchorSec + scan.maxgap)
            && (forall k :: 0 < k < |s.seconds| ==> s.seconds[k - 1] <= s.seconds[k] <= s.seconds[k - 1] + scan.maxgap)
  {
    if i < n && locate(anchorSec, i).Some? {
      var l := locate(anchorSec, i).value;
      SweepSeconds(scan, locate, l.tvSec, l.tvUsec, i + 1, n);
      var s := SweepFrom(locate, anchorSec, anchorUsec, i, n);
      var rest := SweepFrom(locate, l.tvSec, l.tvUsec, i + 1, n);
      assert s.seconds == [l.tvSec as int] + rest.seconds;
      assert Placed(scan, anchorSec, i, l);
      forall k | 0 < k < |s.seconds|
        ensures s.seconds[k - 1] <= s.seconds[k] <= s.seconds[k - 1] + scan.maxgap
      {
        assert s.seconds[k] == rest.seconds[k - 1];
        if k > 1 {
          assert s.seconds[k - 1] == rest.seconds[k - 2];
        }
      }
    }
  }

  /** The anchor never goes back and moves forward by at most maxgap per located fragment. */
  lemma {:induction false} AnchorGrowth(scan: Scan, locate: Locator, anchorSec: int, anchorUsec: int, i: nat, n: nat)
    requires Sound(scan, locate)
    requires i <= n
    decreases n - i
    ensures var s := SweepFrom(locate, anchorSec, anchorUsec, i, n);
            anchorSec <= s.anchorSec <= anchorSec + scan.maxgap * |s.offsets|
  {
    if i < n && locate(anchorSec, i).Some? {
      var l := locate(anchorSec, i).value;
      AnchorGrowth(scan, locate, l.tvSec, l.tvUsec, i + 1, n);
      var rest := SweepFrom(locate, l.tvSec, l.tvUsec, i + 1, n);
      MulStep(scan.maxgap, |rest.offsets|);
    }
  }

  lemma MulStep(m: int, k: nat)
    ensures m * (k + 1) == m * k + m
  {
  }

  /**
   * The sizes appended while locating k fragments onto a list whose first
   * `base` offsets were already there: fragment f > 0 of the run contributes
   * its offset minus entry f - 1 of the whole offset list.
   */
  function AppendedSizes(full: seq<int>, base: nat, k: nat): (r: seq<int>)
    requires base + k <= |full|
    ensures |r| == Max(k - 1, 0)
    ensures forall j {:trigger r[j]} :: 0 <= j < |r| ==> r[j] == full[base + j + 1] - full[j]
  {
    if k <= 1 then [] else AppendedSizes(full, base, k - 1) + [full[base + k - 1] - full[k - 2]]
  }

  /** Appending the offset of the next fragment of the run appends its size, unless it is the run's first. */
  lemma AppendedSizesExtend(full: seq<int>, x: int, base: nat, k: nat)
    requires base + k == |full|
    ensures AppendedSizes(full + [x], base, k + 1)
         == AppendedSizes(full, base, k) + (if k > 0 then [x - full[k - 1]] else [])
  {
    var longer := full + [x];
    if k > 0 {
      var a, b := AppendedSizes(longer, base, k), AppendedSizes(full, base, k);
      forall j | 0 <= j < |a| ensures a[j] == b[j] {
        assert longer[base + j + 1] == full[base + j + 1] && longer[j] == full[j];
      }
      assert a == b;
    }
  }

  /** The planner loop's update of the sizes list, as a step on AppendedSizes. */
  lemma SizesStep(before: seq<int>, sizes: seq<int>, full: seq<int>, x: int, base: nat, k: nat)
    requires base + k == |full|
    requires sizes == before + AppendedSizes(full, base, k)
    ensures (if k > 0 then sizes + [x - full[k - 1]] else sizes) == before + AppendedSizes(full + [x], base, k + 1)
  {
    AppendedSizesExtend(full, x, base, k);
    if k > 0 {
      assert (before + AppendedSizes(full, base, k)) + [x - full[k - 1]]
          == before + (AppendedSizes(full, base, k) + [x - full[k - 1]]);
    }
  }

  /**
   * The planner's state after fragments 0 .. i - 1 were located: the offsets
   * found so far follow the lists it started with, one size was appended per
   * fragment after the first, and the rest of the sweep goes on from i under
   * the current anchor.
   */
  predicate Planning(locate: Locator, whole: Sweep, before: seq<nat>, beforeSizes: seq<int>,
                     offsets: seq<nat>, sizes: seq<int>, anchorSec: int, anchorUsec: int, i: nat, n: nat)
  {
    && i <= n
    && |offsets| == |before| + i && offsets[..|before|] == before
    && sizes == beforeSizes + AppendedSizes(offsets, |before|, i)
    && Continues(locate, whole, offsets[|before|..], anchorSec, anchorUsec, i, n)
  }

  lemma PlanningStarts(locate: Locator, before: seq<nat>, beforeSizes: seq<int>, anchorSec: int, anchorUsec: int, n: nat)
    ensures Planning(locate, SweepFrom(locate, anchorSec, anchorUsec, 0, n), before, beforeSizes,
                     before, beforeSizes, anchorSec, anchorUsec, 0, n)
  {
    assert before[|before|..] == [];
    assert beforeSizes + [] == beforeSizes;
  }

  /** Locating fragment i at l appends l's offset and, unless i is 0, the size the planner appends. */
  lemma PlanningFound(locate: Locator, whole: Sweep, before: seq<nat>, beforeSizes: seq<int>,
                      offsets: seq<nat>, sizes: seq<int>, anchorSec: int, anchorUsec: int, i: nat, n: nat, l: Located)
    requires i < n && Planning(locate, whole, before, beforeSizes, offsets, sizes, anchorSec, anchorUsec, i, n)
    requires locate(anchorSec, i) == Some(l)
    ensures var next := offsets + [l.offset];
            Planning(locate, whole, before, beforeSizes, next,
                     if i > 0 then sizes + [l.offset as int - next[i - 1]] else sizes,
                     l.tvSec, l.tvUsec, i + 1, n)
  {
    var base := |before|;
    var next := offsets + [l.offset];
    ContinuesAfterFound(locate, whole, offsets[base..], anchorSec, anchorUsec, i, n, l);
    assert next[base..] == offsets[base..] + [l.offset];
    assert next[..base] == offsets[..base];
    SizesStep(beforeSizes, sizes, offsets, l.offset, base, i);
    if i > 0 {
      assert next[i - 1] == offsets[i - 1];
    }
  }

  /** A failed locate of fragment i leaves the lists as the sweep's end state describes. */
  lemma PlanningMissing(locate: Locator, whole: Sweep, before: seq<nat>, beforeSizes: seq<int>,
                        offsets: seq<nat>, sizes: seq<int>, anchorSec: int, anchorUsec: int, i: nat, n: nat)
    requires i < n && Planning(locate, whole, before, beforeSizes, offsets, sizes, anchorSec, anchorUsec, i, n)
    requires locate(anchorSec, i).None?
    ensures whole.failedAt == Some(i) && whole.anchorSec == anchorSec && whole.anchorUsec == anchorUsec
    ensures offsets == before + whole.offsets
    ensures sizes == beforeSizes + AppendedSizes(offsets, |before|, |whole.offsets|)
  {
    ContinuesAfterMissing(locate, whole, offsets[|before|..], anchorSec, anchorUsec, i, n);
    assert offsets == offsets[..|before|] + offsets[|before|..];
  }

  /** Once fragment n is reached the sweep is complete. */
  lemma PlanningEnds(locate: Locator, whole: Sweep, before: seq<nat>, beforeSizes: seq<int>,
                     offsets: seq<nat>, sizes: seq<int>, anchorSec: int, anchorUsec: int, n: nat)
    requires Planning(locate, whole, before, beforeSizes, offsets, sizes, anchorSec, anchorUsec, n, n)
    ensures whole.failedAt.None? && whole.anchorSec == anchorSec && whole.anchorUsec == anchorUsec
    ensures offsets == before + whole.offsets
    ensures sizes == beforeSizes + AppendedSizes(offsets, |before|, |whole.offsets|)
  {
    ContinuesAtEnd(locate, whole, offsets[|before|..], anchorSec, anchorUsec, n);
    assert offsets == offsets[..|before|] + offsets[|before|..];
  }

  /** The sizes of a plan made from an empty offset list. */
  function PlanSizes(offsets: seq<int>, size: int): seq<int>
    requires |offsets| > 0
  {
    AppendedSizes(offsets, 0, |offsets|) + [size - offsets[|offsets| - 1]]
  }

  function Sum(s: seq<int>): int
  {
    if s == [] then 0 else Sum(s[..|s| - 1]) + s[|s| - 1]
  }

  lemma {:induction false} AppendedSizesTelescope(offsets: seq<int>, k: nat)
    requires 1 <= k <= |offsets|
    ensures Sum(AppendedSizes(offsets, 0, k)) == offsets[k - 1] - offsets[0]
  {
    if k > 1 {
      AppendedSizesTelescope(offsets, k - 1);
      var r := AppendedSizes(offsets, 0, k);
      assert r[..|r| - 1] == AppendedSizes(offsets, 0, k - 1);
    }
  }

  /**
   * One size per offset; each size but the last is the gap to the next
   * offset, the last runs to the end of the file, and so the sizes add up to
   * the file size minus the first offset.
   */
  lemma PlanShape(offsets: seq<int>, size: int)
    requires |offsets| > 0
    ensures var sizes := PlanSizes(offsets, size);
            && |sizes| == |offsets|
            && (forall i :: 0 <= i < |offsets| - 1 ==> sizes[i] == offsets[i + 1] - offsets[i])
            && sizes[|offsets| - 1] == size - offsets[|offsets| - 1]
            && Sum(sizes) == size - offsets[0]
  {
    var sizes := PlanSizes(offsets, size);
    AppendedSizesTelescope(offsets, |offsets|);
    assert sizes[..|sizes| - 1] == AppendedSizes(offsets, 0, |offsets|);
  }

  /**
   * The located offset of fragment i lies between i * fragSize and
   * i * fragSize + len(window) - 17.
   */
  lemma PlannedOffsetBounds(scan: Scan, locate: Locator, anchorSec: int, anchorUsec: int, n: nat, i: nat)
    requires Sound(scan, locate)
    requires i < |SweepFrom(locate, anchorSec, anchorUsec, 0, n).offsets|
    ensures var offset := SweepFrom(locate, anchorSec, anchorUsec, 0, n).offsets[i];
            i * scan.fragSize <= offset <= i * scan.fragSize + WindowLength(scan, i) - (PkthdrLength + 1)
  {
    SweepInWindow(scan, locate, anchorSec, anchorUsec, 0, n, i);
    GuessIsProduct(scan, i);
  }

  /**
   * When a window (at most snaplen + 1000 bytes) cannot reach the next
   * guessed position, the located offsets strictly increase.
   */
  lemma SweepIncreasing(scan: Scan, locate: Locator, anchorSec: int, anchorUsec: int, n: nat)
    requires Sound(scan, locate)
    requires scan.fragSize >= scan.snaplen + WindowMargin - PkthdrLength
    ensures var s := SweepFrom(locate, anchorSec, anchorUsec, 0, n);
            forall k :: 0 <= k < |s.offsets| - 1 ==> s.offsets[k] < s.offsets[k + 1]
  {
    var s := SweepFrom(locate, anchorSec, anchorUsec, 0, n);
    forall k | 0 <= k < |s.offsets| - 1 ensures s.offsets[k] < s.offsets[k + 1] {
      SweepInWindow(scan, locate, anchorSec, anchorUsec, 0, n, k);
      SweepInWindow(scan, locate, anchorSec, anchorUsec, 0, n, k + 1);
    }
  }

  /**
   * After a complete sweep from an empty list, every fragment ends within
   * the file and the last one spans more than a header.
   */
  lemma PlanWithinFile(scan: Scan, locate: Locator, anchorSec: int, anchorUsec: int, n: nat)
    requires Sound(scan, locate)
    requires n > 0
    requires SweepFrom(locate, anchorSec, anchorUsec, 0, n).failedAt.None?
    ensures var offsets := SweepFrom(locate, anchorSec, anchorUsec, 0, n).offsets;
            var sizes := PlanSizes(offsets, |scan.file|);
            && |offsets| == |sizes| == n
            && (forall i :: 0 <= i < n ==> 0 <= offsets[i] + sizes[i] <= |scan.file|)
            && sizes[n - 1] > PkthdrLength
  {
    var offsets := SweepFrom(locate, anchorSec, anchorUsec, 0, n).offsets;
    var sizes := PlanSizes(offsets, |scan.file|);
    PlanShape(offsets, |scan.file|);
    forall i | 0 <= i < n ensures 0 <= offsets[i] + sizes[i] <= |scan.file| {
      if i < n - 1 {
        SweepInWindow(scan, locate, anchorSec, anchorUsec, 0, n, i + 1);
        assert offsets[i] + sizes[i] == offsets[i + 1];
      } else {
        assert offsets[i] + sizes[i] == |scan.file|;
      }
    }
    SweepInWindow(scan, locate, anchorSec, anchorUsec, 0, n, n - 1);
    assert offsets[n - 1] + PkthdrLength < |scan.file|;
  }

  /** With windows that cannot reach the next guess, every planned size is positive. */
  lemma PlanSizesPositive(scan: Scan, locate: Locator, anchorSec: int, anchorUsec: int, n: nat)
    requires Sound(scan, locate)
    requires n > 0
    requires SweepFrom(locate, anchorSec, anchorUsec, 0, n).failedAt.None?
    requires scan.fragSize >= scan.snaplen + WindowMargin - PkthdrLength
    ensures var offsets := SweepFrom(locate, anchorSec, anchorUsec, 0, n).offsets;
            forall i :: 0 <= i < n ==> PlanSizes(offsets, |scan.file|)[i] > 0
  {
    var offsets := SweepFrom(locate, anchorSec, anchorUsec, 0, n).offsets;
    var sizes := PlanSizes(offsets, |scan.file|);
    PlanShape(offsets, |scan.file|);
    SweepIncreasing(scan, locate, anchorSec, anchorUsec, n);
    SweepInWindow(scan, locate, anchorSec, anchorUsec, 0, n, n - 1);
    forall i | 0 <= i < n ensures sizes[i] > 0 {
      if i < n - 1 {
        assert offsets[i] < offsets[i + 1];
      }
    }
  }

  /**
   * Fragment 0's window starts at byte 0, so when the first record header
   * (at byte 24, whose tv_sec is the initial anchor) passes the caplen check,
   * fragment 0 starts no later than byte 24.
   */
  lemma FirstFragmentAtMostFirstRecord(scan: Scan, anchorUsec: int, n: nat)
    requires n > 0 && scan.maxgap >= 0
    requires |scan.file| > FileHeaderLength + PkthdrLength
    requires RecordAt(scan.file, FileHeaderLength, scan.byteOrder).caplen <= scan.snaplen
    ensures var s := SweepFrom(LocatorOf(scan), RecordAt(scan.file, FileHeaderLength, scan.byteOrder).tvSec, anchorUsec, 0, n);
            |s.offsets| > 0 && s.offsets[0] <= FileHeaderLength
  {
    var anchor := RecordAt(scan.file, FileHeaderLength, scan.byteOrder).tvSec;
    var w := Window(scan, 0);
    assert |w| > FileHeaderLength + PkthdrLength;
    WindowRecordIsFileRecord(scan, 0, FileHeaderLength);
    assert Accepts(w, FileHeaderLength, scan.byteOrder, anchor, scan.maxgap, scan.snaplen);
    FirstAcceptedIsFirst(w, scan.byteOrder, anchor, scan.maxgap, scan.snaplen, 0);
    var first := FirstAccepted(w, scan.byteOrder, anchor, scan.maxgap, scan.snaplen, 0);
    assert first.Some? && first.value <= FileHeaderLength;
  }
}
