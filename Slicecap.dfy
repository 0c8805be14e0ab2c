/**
 * The Slicecap object: the input file and options, the decoded global
 * header, the time anchor that successive boundary searches update, and the
 * offsets and sizes lists that the planner appends to.
 */
module Slicecap {
  import opened Wrappers
  import opened Bytes
  import opened PcapHeaders
  import opened BoundaryLocator
  import opened FragmentPlanner
  import opened Dispatch

  /** The parsed command line: -n, -g and the subcommand tokens (the input file is the `file` of the object). */
  datatype Options = Options(nslice: int, maxgap: int, subcmdargs: seq<string>)

  /** The exceptions the modelled operations raise. */
  datatype SlicecapError =
    | ZeroDivision                  // size // nslice with nslice == 0
    | Header(error: HeaderError)    // decoding the headers at the start of the file
    | BoundaryNotFound(fragId: nat) // the ValueError of the boundary search
    | NoOffsets                     // offsets[-1] on an empty list

  /** What is read when the object is built: the global header and the first record header. */
  datatype Start = Start(header: FileHeader, first: Pkthdr)

  /**
   * Reads 24 bytes and decodes them as the global header, then reads 16 and
   * decodes them as a record header in the header's byte order.
   */
  function ReadStart(file: seq<Byte>): (r: Result<Start, HeaderError>)
    ensures UnpackFileHeader(ReadAt(file, 0, FileHeaderLength)).Err? ==>
              r == Err(UnpackFileHeader(ReadAt(file, 0, FileHeaderLength)).error)
    ensures r.Ok? <==> |file| >= FileHeaderLength + PkthdrLength && UnpackFileHeader(file[..FileHeaderLength]).Ok?
    ensures r.Ok? ==> && r.value.header == UnpackFileHeader(file[..FileHeaderLength]).value
                      && r.value.first == UnpackPkthdr(file[FileHeaderLength..FileHeaderLength + PkthdrLength], r.value.header.byteOrder).value
    ensures r.Err? && UnpackFileHeader(ReadAt(file, 0, FileHeaderLength)).Ok? ==> r == Err(StructError)
  {
    match UnpackFileHeader(ReadAt(file, 0, FileHeaderLength))
    case Err(e) => Err(e)
    case Ok(h) =>
      match UnpackPkthdr(ReadAt(file, FileHeaderLength, PkthdrLength), h.byteOrder)
      case Err(e) => Err(e)
      case Ok(p) => Ok(Start(h, p))
  }

  /** Python's a // b: the quotient rounded towards minus infinity. */
  function FloorDiv(a: int, b: int): (q: int)
    requires b != 0
    ensures b > 0 ==> q * b <= a < q * b + b
    ensures b < 0 ==> q * b >= a > q * b + b
  {
    if b > 0 then a / b else (-a) / (-b)
  }

  /** A negative fragment size is never used (no fragment is searched for then); it is read as 0. */
  function NonNegative(x: int): nat
  {
    if x >= 0 then x else 0
  }

  lemma FloorDivNonNegative(a: int, b: int)
    requires b != 0
    ensures b > 0 && a >= 0 ==> FloorDiv(a, b) >= 0
  {
  }

  class Slicecap {
    const file: seq<Byte>
    const options: Options
    /** os.stat(infile).st_size */
    const size: nat
    const fragSize: int
    const fileHeader: FileHeader
    var tvSecAnchor: int
    var tvUsecAnchor: int
    var offsets: seq<nat>
    var sizes: seq<int>
    /** The boundary search of this object as a locator, agreeing pointwise with Locate. */
    ghost const locate: Locator

    ghost predicate Valid()
    {
      && size == |file|
      && options.nslice != 0
      && fragSize == FloorDiv(size, options.nslice)
      && Linked()
    }

    /** The ghost locator is the boundary search over this object's file and parameters. */
    ghost predicate Linked()
    {
      forall anchor: int, fragId: nat {:trigger Locate(ScanParams(), anchor, fragId)} ::
        locate(anchor, fragId) == Locate(ScanParams(), anchor, fragId)
    }

    /** The object's locator places every boundary it finds inside its window, within maxgap of the anchor. */
    lemma LocatorSound()
      requires Valid()
      ensures Sound(ScanParams(), locate)
    {
      forall anchor: int, fragId: nat | locate(anchor, fragId).Some?
        ensures Placed(ScanParams(), anchor, fragId, locate(anchor, fragId).value)
      {
        assert locate(anchor, fragId) == Locate(ScanParams(), anchor, fragId);
        LocateIsAcceptable(ScanParams(), anchor, fragId);
      }
    }

    /**
     * What the boundary search works with. A negative fragment size (from a
     * negative nslice) is never used, as no fragment is then searched for.
     */
    function ScanParams(): Scan
    {
      Scan(file, fileHeader.byteOrder, fileHeader.snaplen, NonNegative(fragSize), options.maxgap)
    }

    /** The object as built when nslice is not 0 and the headers decode; Open checks both. */
    constructor (file: seq<Byte>, options: Options)
      requires options.nslice != 0 && ReadStart(file).Ok?
      ensures Valid() && this.file == file && this.options == options
      ensures fileHeader == ReadStart(file).value.header
      ensures offsets == [] && sizes == []
      ensures tvSecAnchor == ReadStart(file).value.first.tvSec
      ensures tvUsecAnchor == ReadStart(file).value.first.tvUsec
    {
      this.file := file;
      this.options := options;
      size := |file|;
      fragSize := FloorDiv(|file|, options.nslice);
      var start := ReadStart(file).value;
      fileHeader := start.header;
      tvSecAnchor := start.first.tvSec;
      tvUsecAnchor := start.first.tvUsec;
      offsets := [];
      sizes := [];
      locate := (anchor: int, fragId: nat) =>
        Locate(Scan(file, start.header.byteOrder, start.header.snaplen, NonNegative(FloorDiv(|file|, options.nslice)), options.maxgap), anchor, fragId);
    }

    /**
     * Searches the window at fragId * fragSize for the first position whose
     * record header passes the three checks; on success moves the anchor to
     * that header's timestamp and returns the position in the file.
     */
    method GuessOffsetOfFragId(fragId: nat) returns (r: Option<nat>)
      requires Linked() && fragSize >= 0
      modifies this`tvSecAnchor, this`tvUsecAnchor
      ensures var l := old(locate(tvSecAnchor, fragId));
              && (l.None? ==> r.None? && tvSecAnchor == old(tvSecAnchor) && tvUsecAnchor == old(tvUsecAnchor))
              && (l.Some? ==> r == Some(l.value.offset) && tvSecAnchor == l.value.tvSec && tvUsecAnchor == l.value.tvUsec)
    {
      var scan := ScanParams();
      var order := scan.byteOrder;
      var snaplen := scan.snaplen;
      // fragId * fragSize, as GuessIsProduct shows
      var guess := Guess(scan, fragId);
      var data := ReadAt(file, guess, snaplen + WindowMargin);
      assert data == Window(scan, fragId);
      var anchor := tvSecAnchor;
      ghost var located := locate(anchor, fragId);
      var d := 0;
      while d < |data| - PkthdrLength
        invariant tvSecAnchor == old(tvSecAnchor) && tvUsecAnchor == old(tvUsecAnchor)
        invariant forall e :: 0 <= e < d ==> !Accepts(data, e, order, anchor, scan.maxgap, snaplen)
        decreases |data| - d
      {
        var p := RecordAt(data, d, order);
        if p.tvSec >= anchor && p.tvSec - anchor <= scan.maxgap && p.caplen <= snaplen {
          FoundIsLocated(anchor, fragId, d);
          var offset: nat := guess + d;
          assert located == Some(Located(offset, p.tvSec, p.tvUsec));
          tvSecAnchor := p.tvSec;
          tvUsecAnchor := p.tvUsec;
          return Some(offset);
        }
        d := d + 1;
      }
      NothingLocated(anchor, fragId);
      return None;
    }

    /** The first accepted position of the window is what the ghost locator returns. */
    lemma FoundIsLocated(anchor: int, fragId: nat, d: nat)
      requires Linked()
      requires Accepts(Window(ScanParams(), fragId), d, fileHeader.byteOrder, anchor, options.maxgap, fileHeader.snaplen)
      requires forall e :: 0 <= e < d ==> !Accepts(Window(ScanParams(), fragId), e, fileHeader.byteOrder, anchor, options.maxgap, fileHeader.snaplen)
      ensures locate(anchor, fragId)
           == Some(Located(Guess(ScanParams(), fragId) + d, RecordAt(Window(ScanParams(), fragId), d, fileHeader.byteOrder).tvSec,
                           RecordAt(Window(ScanParams(), fragId), d, fileHeader.byteOrder).tvUsec))
    {
      LocateAtFirst(ScanParams(), anchor, fragId, d);
    }

    /** With no accepted position in the window, the ghost locator returns None. */
    lemma NothingLocated(anchor: int, fragId: nat)
      requires Linked()
      requires forall e :: 0 <= e ==> !Accepts(Window(ScanParams(), fragId), e, fileHeader.byteOrder, anchor, options.maxgap, fileHeader.snaplen)
      ensures locate(anchor, fragId) == None
    {
      LocateNone(ScanParams(), anchor, fragId);
    }

    /**
     * Locates fragments 0 .. nslice - 1 in order, appending each offset and,
     * from the run's second fragment on, the offset minus the list entry at
     * the previous fragment id; then appends the file size minus the last
     * offset. A failed search stops the run.
     */
    method GuessFragOffsetsAndSizes() returns (err: Option<SlicecapError>)
      requires Valid()
      modifies this`tvSecAnchor, this`tvUsecAnchor, this`offsets, this`sizes
      ensures Outcome(offsets, sizes, tvSecAnchor, tvUsecAnchor, err)
           == PlanFrom(locate, old(offsets), old(sizes), old(tvSecAnchor), old(tvUsecAnchor),
                       0, Max(options.nslice, 0), size)
      ensures old(offsets) == [] && old(sizes) == [] && err.None? ==>
                && |offsets| == |sizes| == options.nslice
                && (forall i :: 0 <= i < |offsets| ==> 0 <= offsets[i] + sizes[i] <= size)
                && Sum(sizes) == size - offsets[0]
    {
      var n := Max(options.nslice, 0);
      ghost var outcome := PlanFrom(locate, offsets, sizes, tvSecAnchor, tvUsecAnchor, 0, n, size);
      if offsets == [] && sizes == [] && outcome.err.None? {
        LocatorSound();
        FreshPlanOutcome(ScanParams(), locate, tvSecAnchor, tvUsecAnchor, n, outcome);
      }
      FloorDivNonNegative(size, options.nslice);
      assert n > 0 ==> fragSize >= 0;
      var found, sized := offsets, sizes;
      var fragId := 0;
      while fragId < n
        invariant fragId <= n && fragId <= |found|
        invariant PlanFrom(locate, found, sized, tvSecAnchor, tvUsecAnchor, fragId, n, size) == outcome
      {
        var off := GuessOffsetOfFragId(fragId);
        if off.None? {
          offsets, sizes := found, sized;
          return Some(BoundaryNotFound(fragId));
        }
        found := found + [off.value];
        if fragId > 0 {
          sized := sized + [off.value as int - found[fragId - 1]];
        }
        fragId := fragId + 1;
      }
      offsets := found;
      if |found| == 0 {
        sizes := sized;
        return Some(NoOffsets);
      }
      sizes := sized + [size as int - found[|found| - 1]];
      return None;
    }

    /**
     * The command line and the writes made to the subcommand of fragment
     * fragId: the packed global header, then the fragment's bytes read from
     * the file in chunks.
     */
    method CallSubcommandForFragId(fragId: nat) returns (command: string, writes: seq<seq<Byte>>)
      requires fragId < |offsets| && fragId < |sizes|
      requires sizes[fragId] > 0 ==> offsets[fragId] + sizes[fragId] <= |file|
      ensures command == CommandLine(options.subcmdargs, offsets[fragId], sizes[fragId], fragId)
      ensures writes == [PackHeader(fileHeader)] + Chunked(FragmentData(file, offsets[fragId], sizes[fragId]))
      ensures Flatten(writes) == FragmentStream(fileHeader, file, offsets[fragId], sizes[fragId])
    {
      var offset := offsets[fragId];
      var size := sizes[fragId];
      command := CommandLine(options.subcmdargs, offset, size, fragId);
      var left;
      writes, left := WriteFragment(PackHeader(fileHeader), file, offset, size);
      WritesAreStream(fileHeader, file, offset, size);
    }
  }

  /**
   * Writes the header, then copies size bytes of the file from offset:
   * 8192 bytes at a time while more than that is left, then the rest.
   */
  method WriteFragment(header: seq<Byte>, file: seq<Byte>, offset: nat, size: int)
    returns (writes: seq<seq<Byte>>, dataLeft: int)
    requires size > 0 ==> offset + size <= |file|
    ensures writes == [header] + Chunked(FragmentData(file, offset, size))
    ensures dataLeft == if size > 0 then 0 else size
  {
    ghost var target := [header] + Chunked(FragmentData(file, offset, size));
    writes := [header];
    var pos: nat := offset;
    dataLeft := size;
    while dataLeft > 0
      invariant dataLeft > 0 ==> pos + dataLeft <= |file|
      invariant size > 0 ==> dataLeft >= 0
      invariant size <= 0 ==> dataLeft == size
      invariant writes + Chunked(ReadAt(file, pos, Max(dataLeft, 0))) == target
      decreases dataLeft
    {
      var data;
      if dataLeft > ChunkSize {
        data := ReadAt(file, pos, ChunkSize);
      } else {
        data := ReadAt(file, pos, dataLeft);
      }
      ChunkStep(file, pos, dataLeft, writes, target);
      writes := writes + [data];
      pos := pos + |data|;
      dataLeft := dataLeft - |data|;
    }
    assert ReadAt(file, pos, Max(dataLeft, 0)) == [];
  }

  /**
   * One read of the copy loop takes the next chunk of what is left: after
   * writing it, the writes so far and the chunks of the rest still make up
   * the target.
   */
  lemma ChunkStep(file: seq<Byte>, pos: nat, left: int, writes: seq<seq<Byte>>, target: seq<seq<Byte>>)
    requires 0 < left && pos + left <= |file|
    requires writes + Chunked(ReadAt(file, pos, left)) == target
    ensures var n := if left > ChunkSize then ChunkSize else left;
            && |ReadAt(file, pos, n)| == n
            && (writes + [ReadAt(file, pos, n)]) + Chunked(ReadAt(file, pos + n, Max(left - n, 0))) == target
  {
    var rem := ReadAt(file, pos, left);
    assert rem == file[pos..pos + left];
    var n := if left > ChunkSize then ChunkSize else left;
    if left > ChunkSize {
      assert rem[..ChunkSize] == ReadAt(file, pos, ChunkSize);
      assert rem[ChunkSize..] == ReadAt(file, pos + ChunkSize, left - ChunkSize);
    } else {
      assert ReadAt(file, pos + left, 0) == [];
    }
    assert Chunked(rem) == [ReadAt(file, pos, n)] + Chunked(ReadAt(file, pos + n, Max(left - n, 0)));
    assert (writes + [ReadAt(file, pos, n)]) + Chunked(ReadAt(file, pos + n, Max(left - n, 0)))
        == writes + Chunked(rem);
  }

  /**
   * Builds the object: nslice == 0 raises ZeroDivisionError before the file
   * is read, and a file whose headers do not decode raises while reading them.
   */
  method Open(file: seq<Byte>, options: Options) returns (r: Result<Slicecap, SlicecapError>)
    ensures options.nslice == 0 ==> r.Err? && r.error == ZeroDivision
    ensures options.nslice != 0 && ReadStart(file).Err? ==> r.Err? && r.error == Header(ReadStart(file).error)
    ensures options.nslice != 0 && ReadStart(file).Ok? ==>
              && r.Ok? && fresh(r.value) && r.value.Valid()
              && r.value.file == file && r.value.options == options
              && r.value.fileHeader == ReadStart(file).value.header
              && r.value.offsets == [] && r.value.sizes == []
              && r.value.tvSecAnchor == ReadStart(file).value.first.tvSec
              && r.value.tvUsecAnchor == ReadStart(file).value.first.tvUsec
  {
    if options.nslice == 0 {
      return Err(ZeroDivision);
    }
    match ReadStart(file)
    case Err(e) =>
      return Err(Header(e));
    case Ok(_) =>
      var sc := new Slicecap(file, options);
      return Ok(sc);
  }

  /** The lists, the anchor and the outcome the planner leaves behind. */
  datatype Outcome = Outcome(offsets: seq<nat>, sizes: seq<int>, anchorSec: int, anchorUsec: int, err: Option<SlicecapError>)

  /**
   * What guess_frag_offsets_and_sizes leaves after the sweep s, given the
   * lists it starts from: the sweep's offsets appended to the offsets, the
   * run's sizes appended to the sizes, the anchor the sweep left, and then
   * either the error of the failed search, the IndexError of an empty offset
   * list, or one more size running to the end of the file.
   */
  function Planned(before: seq<nat>, beforeSizes: seq<int>, s: Sweep, size: int): Outcome
  {
    var offsets := before + s.offsets;
    var sizes := beforeSizes + AppendedSizes(offsets, |before|, |s.offsets|);
    if s.failedAt.Some? then Outcome(offsets, sizes, s.anchorSec, s.anchorUsec, Some(BoundaryNotFound(s.failedAt.value)))
    else if |offsets| == 0 then Outcome(offsets, sizes, s.anchorSec, s.anchorUsec, Some(NoOffsets))
    else Outcome(offsets, sizes + [size - offsets[|offsets| - 1]], s.anchorSec, s.anchorUsec, None)
  }

  /** The planner's exit on a failed search. */
  lemma PlannedAfterMissing(locate: Locator, whole: Sweep, before: seq<nat>, beforeSizes: seq<int>, offsets: seq<nat>, sizes: seq<int>,
                            anchorSec: int, anchorUsec: int, i: nat, n: nat, size: int)
    requires i < n
    requires Planning(locate, whole, before, beforeSizes, offsets, sizes, anchorSec, anchorUsec, i, n)
    requires locate(anchorSec, i).None?
    ensures Planned(before, beforeSizes, whole, size) == Outcome(offsets, sizes, anchorSec, anchorUsec, Some(BoundaryNotFound(i)))
  {
    PlanningMissing(locate, whole, before, beforeSizes, offsets, sizes, anchorSec, anchorUsec, i, n);
  }

  /** The planner's exit after the last fragment. */
  lemma PlannedAtEnd(locate: Locator, whole: Sweep, before: seq<nat>, beforeSizes: seq<int>, offsets: seq<nat>, sizes: seq<int>,
                     anchorSec: int, anchorUsec: int, n: nat, size: int)
    requires Planning(locate, whole, before, beforeSizes, offsets, sizes, anchorSec, anchorUsec, n, n)
    ensures Planned(before, beforeSizes, whole, size)
         == if |offsets| == 0 then Outcome(offsets, sizes, anchorSec, anchorUsec, Some(NoOffsets))
            else Outcome(offsets, sizes + [size - offsets[|offsets| - 1]], anchorSec, anchorUsec, None)
  {
    PlanningEnds(locate, whole, before, beforeSizes, offsets, sizes, anchorSec, anchorUsec, n);
  }

  /**
   * What the planner loop goes on to leave once it has the lists `offsets`
   * and `sizes` and the anchor (anchorSec, anchorUsec) and is about to locate
   * fragment i.
   */
  function PlanFrom(locate: Locator, offsets: seq<nat>, sizes: seq<int>, anchorSec: int, anchorUsec: int,
                    i: nat, n: nat, size: int): Outcome
    requires i <= n && i <= |offsets|
    decreases n - i
  {
    if i == n then
      if |offsets| == 0 then Outcome(offsets, sizes, anchorSec, anchorUsec, Some(NoOffsets))
      else Outcome(offsets, sizes + [size - offsets[|offsets| - 1]], anchorSec, anchorUsec, None)
    else
      match locate(anchorSec, i)
      case None => Outcome(offsets, sizes, anchorSec, anchorUsec, Some(BoundaryNotFound(i)))
      case Some(l) =>
        var next := offsets + [l.offset];
        PlanFrom(locate, next, if i > 0 then sizes + [l.offset as int - next[i - 1]] else sizes, l.tvSec, l.tvUsec, i + 1, n, size)
  }

  /** From any state the loop can reach, what it goes on to leave is the planner's outcome. */
  lemma {:induction false} PlanFromReached(locate: Locator, whole: Sweep, before: seq<nat>, beforeSizes: seq<int>,
                                           offsets: seq<nat>, sizes: seq<int>, anchorSec: int, anchorUsec: int, i: nat, n: nat, size: int)
    requires Planning(locate, whole, before, beforeSizes, offsets, sizes, anchorSec, anchorUsec, i, n)
    decreases n - i, 1
    ensures PlanFrom(locate, offsets, sizes, anchorSec, anchorUsec, i, n, size) == Planned(before, beforeSizes, whole, size)
  {
    if i == n {
      PlannedAtEnd(locate, whole, before, beforeSizes, offsets, sizes, anchorSec, anchorUsec, n, size);
    } else {
      match locate(anchorSec, i)
      case None =>
        PlannedAfterMissing(locate, whole, before, beforeSizes, offsets, sizes, anchorSec, anchorUsec, i, n, size);
      case Some(l) =>
        PlanFromFound(locate, whole, before, beforeSizes, offsets, sizes, anchorSec, anchorUsec, i, n, size, l);
    }
  }

  /** The step of PlanFromReached past a located fragment. */
  lemma {:induction false} PlanFromFound(locate: Locator, whole: Sweep, before: seq<nat>, beforeSizes: seq<int>,
                                         offsets: seq<nat>, sizes: seq<int>, anchorSec: int, anchorUsec: int, i: nat, n: nat, size: int,
                                         l: Located)
    requires i < n && Planning(locate, whole, before, beforeSizes, offsets, sizes, anchorSec, anchorUsec, i, n)
    requires locate(anchorSec, i) == Some(l)
    decreases n - i, 0
    ensures PlanFrom(locate, offsets, sizes, anchorSec, anchorUsec, i, n, size) == Planned(before, beforeSizes, whole, size)
  {
    PlanningFound(locate, whole, before, beforeSizes, offsets, sizes, anchorSec, anchorUsec, i, n, l);
    var next := offsets + [l.offset];
    PlanFromReached(locate, whole, before, beforeSizes, next, if i > 0 then sizes + [l.offset as int - next[i - 1]] else sizes,
                    l.tvSec, l.tvUsec, i + 1, n, size);
  }

  /** The loop, run from its start, leaves the planner's outcome. */
  lemma PlanFromIsPlanned(locate: Locator, before: seq<nat>, beforeSizes: seq<int>, anchorSec: int, anchorUsec: int, n: nat, size: int)
    ensures PlanFrom(locate, before, beforeSizes, anchorSec, anchorUsec, 0, n, size) == Planned(before, beforeSizes, SweepFrom(locate, anchorSec, anchorUsec, 0, n), size)
  {
    PlanningStarts(locate, before, beforeSizes, anchorSec, anchorUsec, n);
    PlanFromReached(locate, SweepFrom(locate, anchorSec, anchorUsec, 0, n), before, beforeSizes, before, beforeSizes, anchorSec, anchorUsec, 0, n, size);
  }

  /**
   * On a fresh object, a plan that locates every fragment raises nothing,
   * gives one size per offset, ends every fragment inside the file (so each
   * can be copied), leaves more than a header for the last one, and its
   * sizes add up to the file size minus the first offset.
   */
  lemma FreshPlanShape(scan: Scan, locate: Locator, anchorSec: int, anchorUsec: int, n: nat)
    requires Sound(scan, locate) && n > 0
    requires SweepFrom(locate, anchorSec, anchorUsec, 0, n).failedAt.None?
    ensures var o := Planned([], [], SweepFrom(locate, anchorSec, anchorUsec, 0, n), |scan.file|);
            && o.err.None?
            && |o.sizes| == |o.offsets| == n
            && (forall i :: 0 <= i < n ==> 0 <= o.offsets[i] + o.sizes[i] <= |scan.file|)
            && o.sizes[n - 1] > PkthdrLength
            && Sum(o.sizes) == |scan.file| - o.offsets[0]
  {
    var s := SweepFrom(locate, anchorSec, anchorUsec, 0, n);
    FreshPlanned(s, |scan.file|);
    PlanWithinFile(scan, locate, anchorSec, anchorUsec, n);
    PlanShape(s.offsets, |scan.file|);
  }

  /**
   * A run of the planner on empty lists that ends without an error has one
   * offset and one size per fragment, every fragment ends inside the file,
   * and the sizes cover the file from the first offset on.
   */
  lemma FreshPlanOutcome(scan: Scan, locate: Locator, anchorSec: int, anchorUsec: int, n: nat, o: Outcome)
    requires Sound(scan, locate)
    requires o == PlanFrom(locate, [], [], anchorSec, anchorUsec, 0, n, |scan.file|)
    requires o.err.None?
    ensures n > 0 && |o.offsets| == |o.sizes| == n
    ensures forall i :: 0 <= i < n ==> 0 <= o.offsets[i] + o.sizes[i] <= |scan.file|
    ensures Sum(o.sizes) == |scan.file| - o.offsets[0]
  {
    PlanFromIsPlanned(locate, [], [], anchorSec, anchorUsec, n, |scan.file|);
    var s := SweepFrom(locate, anchorSec, anchorUsec, 0, n);
    assert o == Planned([], [], s, |scan.file|);
    assert s.failedAt.None? && |s.offsets| > 0;
    FreshPlanShape(scan, locate, anchorSec, anchorUsec, n);
  }

  /** From empty lists, a complete sweep plans its offsets and the sizes PlanSizes gives. */
  lemma FreshPlanned(s: Sweep, size: int)
    requires s.failedAt.None? && |s.offsets| > 0
    ensures Planned([], [], s, size) == Outcome(s.offsets, PlanSizes(s.offsets, size), s.anchorSec, s.anchorUsec, None)
  {
    var empty: seq<nat> := [];
    var noSizes: seq<int> := [];
    assert empty + s.offsets == s.offsets;
    assert noSizes + AppendedSizes(s.offsets, 0, |s.offsets|) == AppendedSizes(s.offsets, 0, |s.offsets|);
  }
}
