/**
 * The boundary locator as a function: read a window of snaplen + 1000 bytes
 * at the guessed position and take the first position, scanning byte by
 * byte, whose 16 bytes read as a record header that is not older than the
 * time anchor, not more than maxgap seconds newer, and whose caplen is
 * within snaplen.
 */
module BoundaryLocator {
  import opened Wrappers
  import opened Bytes
  import opened PcapHeaders

  /** Bytes read past snaplen so that a whole record plus the next header fits. */
  const WindowMargin := 1000

  /** What the locator needs: the file, the global header's byte order and snaplen, the fragment size and maxgap. */
  datatype Scan = Scan(file: seq<Byte>, byteOrder: ByteOrder, snaplen: U32, fragSize: nat, maxgap: int)

  /** A located boundary and the timestamp of the record header found there. */
  datatype Located = Located(offset: nat, tvSec: U32, tvUsec: U32)

  /** The record header read at position d of the window. */
  function RecordAt(window: seq<Byte>, d: nat, order: ByteOrder): (p: Pkthdr)
    requires d + PkthdrLength <= |window|
    ensures UnpackPkthdr(window[d..d + PkthdrLength], order) == Ok(p)
  {
    UnpackPkthdr(window[d..d + PkthdrLength], order).value
  }

  /** The three checks a candidate position must pass. */
  predicate Plausible(p: Pkthdr, anchor: int, maxgap: int, snaplen: int)
  {
    && anchor <= p.tvSec
    && p.tvSec - anchor <= maxgap
    && p.caplen <= snaplen
  }

  /**
   * A candidate position d is one of range(len(window) - 16): the last
   * position at which a full header would still fit is not scanned.
   */
  predicate Candidate(window: seq<Byte>, d: nat)
  {
    d + PkthdrLength < |window|
  }

  predicate Accepts(window: seq<Byte>, d: nat, order: ByteOrder, anchor: int, maxgap: int, snaplen: int)
  {
    Candidate(window, d) && Plausible(RecordAt(window, d, order), anchor, maxgap, snaplen)
  }

  /** The first accepted candidate at or after `from`, or None; see FirstAcceptedIsFirst. */
  function FirstAccepted(window: seq<Byte>, order: ByteOrder, anchor: int, maxgap: int, snaplen: int, from: nat)
    : Option<nat>
    decreases |window| - from
  {
    if !Candidate(window, from) then None
    else if Plausible(RecordAt(window, from, order), anchor, maxgap, snaplen) then Some(from)
    else FirstAccepted(window, order, anchor, maxgap, snaplen, from + 1)
  }

  /** An accepted candidate with none accepted before it is the one FirstAccepted finds. */
  lemma {:induction false} FirstAcceptedAt(window: seq<Byte>, order: ByteOrder, anchor: int, maxgap: int, snaplen: int, from: nat, d: nat)
    requires from <= d && Accepts(window, d, order, anchor, maxgap, snaplen)
    requires forall e :: from <= e < d ==> !Accepts(window, e, order, anchor, maxgap, snaplen)
    decreases d - from
    ensures FirstAccepted(window, order, anchor, maxgap, snaplen, from) == Some(d)
  {
    if from < d {
      assert !Accepts(window, from, order, anchor, maxgap, snaplen);
      FirstAcceptedAt(window, order, anchor, maxgap, snaplen, from + 1, d);
    }
  }

  /** With no accepted candidate from `from` on, FirstAccepted finds none. */
  lemma {:induction false} FirstAcceptedNone(window: seq<Byte>, order: ByteOrder, anchor: int, maxgap: int, snaplen: int, from: nat)
    requires forall e :: from <= e ==> !Accepts(window, e, order, anchor, maxgap, snaplen)
    decreases |window| - from
    ensures FirstAccepted(window, order, anchor, maxgap, snaplen, from) == None
  {
    if Candidate(window, from) {
      assert !Accepts(window, from, order, anchor, maxgap, snaplen);
      FirstAcceptedNone(window, order, anchor, maxgap, snaplen, from + 1);
    }
  }

  /** FirstAccepted finds an accepted candidate and none before it, or there is none at all. */
  lemma FirstAcceptedIsFirst(window: seq<Byte>, order: ByteOrder, anchor: int, maxgap: int, snaplen: int, from: nat)
    ensures var r := FirstAccepted(window, order, anchor, maxgap, snaplen, from);
            && (r.Some? ==> from <= r.value && Accepts(window, r.value, order, anchor, maxgap, snaplen))
            && (r.Some? ==> forall e :: from <= e < r.value ==> !Accepts(window, e, order, anchor, maxgap, snaplen))
            && (r.None? ==> forall e :: from <= e ==> !Accepts(window, e, order, anchor, maxgap, snaplen))
  {
    FirstAcceptedFound(window, order, anchor, maxgap, snaplen, from);
    FirstAcceptedMissing(window, order, anchor, maxgap, snaplen, from);
  }

  lemma {:induction false} FirstAcceptedFound(window: seq<Byte>, order: ByteOrder, anchor: int, maxgap: int, snaplen: int, from: nat)
    decreases |window| - from
    ensures var r := FirstAccepted(window, order, anchor, maxgap, snaplen, from);
            r.Some? ==>
              && from <= r.value && Accepts(window, r.value, order, anchor, maxgap, snaplen)
              && forall e :: from <= e < r.value ==> !Accepts(window, e, order, anchor, maxgap, snaplen)
  {
    if Candidate(window, from) && !Plausible(RecordAt(window, from, order), anchor, maxgap, snaplen) {
      var r := FirstAccepted(window, order, anchor, maxgap, snaplen, from + 1);
      FirstAcceptedFound(window, order, anchor, maxgap, snaplen, from + 1);
      assert FirstAccepted(window, order, anchor, maxgap, snaplen, from) == r;
      assert !Accepts(window, from, order, anchor, maxgap, snaplen);
      if r.Some? {
        forall e | from <= e < r.value ensures !Accepts(window, e, order, anchor, maxgap, snaplen) {
          if e > from {
            assert from + 1 <= e < r.value;
          }
        }
      }
    }
  }

  lemma {:induction false} FirstAcceptedMissing(window: seq<Byte>, order: ByteOrder, anchor: int, maxgap: int, snaplen: int, from: nat)
    decreases |window| - from
    ensures FirstAccepted(window, order, anchor, maxgap, snaplen, from).None? ==>
              forall e :: from <= e ==> !Accepts(window, e, order, anchor, maxgap, snaplen)
  {
    if !Candidate(window, from) {
      forall e | from <= e ensures !Accepts(window, e, order, anchor, maxgap, snaplen) {
        assert !Candidate(window, e);
      }
    } else if !Plausible(RecordAt(window, from, order), anchor, maxgap, snaplen) {
      FirstAcceptedMissing(window, order, anchor, maxgap, snaplen, from + 1);
      assert FirstAccepted(window, order, anchor, maxgap, snaplen, from)
          == FirstAccepted(window, order, anchor, maxgap, snaplen, from + 1);
      assert !Accepts(window, from, order, anchor, maxgap, snaplen);
    }
  }

  /**
   * The guessed position of fragment fragId, fragId * fragSize (see
   * GuessIsProduct). It is built up one fragment at a time so that the
   * proofs about consecutive fragments add fragSize instead of reasoning
   * about a product of two variables.
   */
  function Guess(scan: Scan, fragId: nat): (g: nat)
  {
    if fragId == 0 then 0 else Guess(scan, fragId - 1) + scan.fragSize
  }

  lemma {:induction false} GuessIsProduct(scan: Scan, fragId: nat)
    ensures Guess(scan, fragId) == fragId * scan.fragSize
  {
    if fragId > 0 {
      GuessIsProduct(scan, fragId - 1);
      assert fragId * scan.fragSize == (fragId - 1) * scan.fragSize + scan.fragSize;
    }
  }

  /** How many bytes the read at the guessed position returns. */
  function WindowLength(scan: Scan, fragId: nat): nat
  {
    var g := Guess(scan, fragId);
    if g >= |scan.file| then 0 else Min(scan.snaplen + WindowMargin, |scan.file| - g)
  }

  /** The bytes read at the guessed position. */
  function Window(scan: Scan, fragId: nat): (w: seq<Byte>)
    ensures |w| == WindowLength(scan, fragId) <= scan.snaplen + WindowMargin
    ensures Guess(scan, fragId) + |w| <= |scan.file| || w == []
  {
    ReadAt(scan.file, Guess(scan, fragId), scan.snaplen + WindowMargin)
  }

  /** offset is one of the candidate positions of fragment fragId's window. */
  predicate InWindow(scan: Scan, fragId: nat, offset: int)
  {
    Guess(scan, fragId) <= offset && offset + PkthdrLength < Guess(scan, fragId) + WindowLength(scan, fragId)
  }

  /**
   * Where a boundary of fragment fragId may be placed under the anchor:
   * inside the window, with a whole header in the file, and a timestamp
   * within maxgap seconds after the anchor.
   */
  predicate Placed(scan: Scan, anchor: int, fragId: nat, l: Located)
  {
    && InWindow(scan, fragId, l.offset)
    && l.offset + PkthdrLength < |scan.file|
    && anchor <= l.tvSec && l.tvSec - anchor <= scan.maxgap
  }

  /**
   * l is an acceptable boundary for fragment fragId under the anchor: placed
   * as above, and the record header read there in the file passes the checks
   * and carries l's timestamp.
   */
  predicate Acceptable(scan: Scan, anchor: int, fragId: nat, l: Located)
  {
    && Placed(scan, anchor, fragId, l)
    && var p := RecordAt(scan.file, l.offset, scan.byteOrder);
       Plausible(p, anchor, scan.maxgap, scan.snaplen) && p.tvSec == l.tvSec && p.tvUsec == l.tvUsec
  }

  /** No candidate position of the window passes the checks. */
  predicate NoBoundary(scan: Scan, anchor: int, fragId: nat)
  {
    forall d :: 0 <= d < WindowLength(scan, fragId) ==> !Accepts(Window(scan, fragId), d, scan.byteOrder, anchor, scan.maxgap, scan.snaplen)
  }

  /** The boundary of fragment fragId, given the current anchor; None is the ValueError. */
  function Locate(scan: Scan, anchor: int, fragId: nat): Option<Located>
  {
    var w := Window(scan, fragId);
    match FirstAccepted(w, scan.byteOrder, anchor, scan.maxgap, scan.snaplen, 0)
    case None => None
    case Some(d) =>
      FirstAcceptedIsFirst(w, scan.byteOrder, anchor, scan.maxgap, scan.snaplen, 0);
      var p := RecordAt(w, d, scan.byteOrder);
      Some(Located(Guess(scan, fragId) + d, p.tvSec, p.tvUsec))
  }

  /** A located boundary is acceptable, and nothing is located exactly when the window holds no boundary. */
  lemma LocateIsAcceptable(scan: Scan, anchor: int, fragId: nat)
    ensures var r := Locate(scan, anchor, fragId);
            && (r.Some? ==> Acceptable(scan, anchor, fragId, r.value))
            && (r.None? <==> NoBoundary(scan, anchor, fragId))
  {
    var w := Window(scan, fragId);
    var first := FirstAccepted(w, scan.byteOrder, anchor, scan.maxgap, scan.snaplen, 0);
    FirstAcceptedIsFirst(w, scan.byteOrder, anchor, scan.maxgap, scan.snaplen, 0);
    match first
    case Some(d) =>
      var p := RecordAt(w, d, scan.byteOrder);
      assert Locate(scan, anchor, fragId) == Some(Located(Guess(scan, fragId) + d, p.tvSec, p.tvUsec));
      AcceptedIsAcceptable(scan, anchor, fragId, d);
      assert !NoBoundary(scan, anchor, fragId) by {
        assert d < WindowLength(scan, fragId);
      }
    case None =>
      assert NoBoundary(scan, anchor, fragId);
  }

  /** An accepted position of the window gives an acceptable boundary at that place in the file. */
  lemma AcceptedIsAcceptable(scan: Scan, anchor: int, fragId: nat, d: nat)
    requires Accepts(Window(scan, fragId), d, scan.byteOrder, anchor, scan.maxgap, scan.snaplen)
    ensures var p := RecordAt(Window(scan, fragId), d, scan.byteOrder);
            Acceptable(scan, anchor, fragId, Located(Guess(scan, fragId) + d, p.tvSec, p.tvUsec))
  {
    WindowRecordIsFileRecord(scan, fragId, d);
  }

  /** The first accepted position of the window is the one Locate reports, with its timestamp. */
  lemma LocateAtFirst(scan: Scan, anchor: int, fragId: nat, d: nat)
    requires Accepts(Window(scan, fragId), d, scan.byteOrder, anchor, scan.maxgap, scan.snaplen)
    requires forall e :: 0 <= e < d ==> !Accepts(Window(scan, fragId), e, scan.byteOrder, anchor, scan.maxgap, scan.snaplen)
    ensures Locate(scan, anchor, fragId)
         == Some(Located(Guess(scan, fragId) + d, RecordAt(Window(scan, fragId), d, scan.byteOrder).tvSec,
                         RecordAt(Window(scan, fragId), d, scan.byteOrder).tvUsec))
  {
    var w := Window(scan, fragId);
    FirstAcceptedAt(w, scan.byteOrder, anchor, scan.maxgap, scan.snaplen, 0, d);
    assert FirstAccepted(w, scan.byteOrder, anchor, scan.maxgap, scan.snaplen, 0) == Some(d);
  }

  /** Nothing is located when no position of the window is accepted. */
  lemma LocateNone(scan: Scan, anchor: int, fragId: nat)
    requires forall e :: 0 <= e ==> !Accepts(Window(scan, fragId), e, scan.byteOrder, anchor, scan.maxgap, scan.snaplen)
    ensures Locate(scan, anchor, fragId) == None
  {
    FirstAcceptedNone(Window(scan, fragId), scan.byteOrder, anchor, scan.maxgap, scan.snaplen, 0);
  }

  /** A header read inside the window is the header read at the same place in the file. */
  lemma WindowRecordIsFileRecord(scan: Scan, fragId: nat, d: nat)
    requires d + PkthdrLength <= |Window(scan, fragId)|
    ensures Guess(scan, fragId) + d + PkthdrLength <= |scan.file|
    ensures RecordAt(Window(scan, fragId), d, scan.byteOrder)
         == RecordAt(scan.file, Guess(scan, fragId) + d, scan.byteOrder)
  {
    var w := Window(scan, fragId);
    var g := Guess(scan, fragId);
    assert w[d..d + PkthdrLength] == scan.file[g + d..g + d + PkthdrLength];
  }

  /** The located offset is the first accepted position of the window, counted from the guess. */
  lemma {:induction false} LocateIsFirstMatch(scan: Scan, anchor: int, fragId: nat)
    requires Locate(scan, anchor, fragId).Some?
    ensures var d := Locate(scan, anchor, fragId).value.offset - Guess(scan, fragId);
            && d >= 0
            && Accepts(Window(scan, fragId), d, scan.byteOrder, anchor, scan.maxgap, scan.snaplen)
            && forall e :: 0 <= e < d ==>
                 !Accepts(Window(scan, fragId), e, scan.byteOrder, anchor, scan.maxgap, scan.snaplen)
  {
    var w := Window(scan, fragId);
    FirstAcceptedIsFirst(w, scan.byteOrder, anchor, scan.maxgap, scan.snaplen, 0);
  }

  /** A window of 16 bytes or fewer has no candidate, so nothing is located. */
  lemma ShortWindowFails(scan: Scan, anchor: int, fragId: nat)
    requires |Window(scan, fragId)| <= PkthdrLength
    ensures Locate(scan, anchor, fragId).None?
  {
    var w := Window(scan, fragId);
    assert FirstAccepted(w, scan.byteOrder, anchor, scan.maxgap, scan.snaplen, 0) == None;
  }

  /**
   * Fragment 0 is scanned from byte 0, so when the magic read as a tv_sec
   * passes the time checks and thiszone is 0 (read as caplen), the boundary
   * is placed at offset 0, inside the global header.
   */
  lemma FragmentZeroCanStartAtZero(scan: Scan, anchor: int)
    requires |scan.file| > PkthdrLength
    requires scan.byteOrder == LittleEndian && scan.file[..4] == LittleEndianMagic
    requires scan.file[8..12] == [0, 0, 0, 0]
    requires anchor <= 0xa1b2c3d4 <= anchor + scan.maxgap
    ensures Locate(scan, anchor, 0).Some? && Locate(scan, anchor, 0).value.offset == 0
  {
    var w := Window(scan, 0);
    assert w == scan.file[..|w|] by {
      assert Guess(scan, 0) == 0;
    }
    assert Candidate(w, 0);
    var hdr := w[0..PkthdrLength];
    assert hdr == scan.file[..PkthdrLength];
    assert hdr[0..4] == scan.file[..4];
    assert hdr[8..12] == scan.file[8..12];
    LittleEndianWords();
    FirstAcceptedAt(w, scan.byteOrder, anchor, scan.maxgap, scan.snaplen, 0, 0);
  }

  /** The magic read as a little-endian word, and four zero bytes. */
  lemma LittleEndianWords()
    ensures DecodeU32(LittleEndian, LittleEndianMagic) == 0xa1b2c3d4
    ensures DecodeU32(LittleEndian, [0, 0, 0, 0]) == 0
  {
    assert Reverse(LittleEndianMagic) == [0xa1, 0xb2, 0xc3, 0xd4];
    var zero: seq<Byte> := [0, 0, 0, 0];
    assert Reverse(zero) == zero;
    BeUint4(0xa1, 0xb2, 0xc3, 0xd4);
    BeUint4(0, 0, 0, 0);
  }
}
