/** Several files laid end to end, read and written as one run of bytes. */
module Storage {
  import opened Basics

  /** A file and the half-open stretch of global positions it holds. */
  datatype Range = Range(begin: nat, end: nat, file: string)

  /** A stretch of one file, as _intervals returns it. The end may lie before the
      beginning: that happens exactly when the caller starts past the last byte. */
  datatype Interval = Interval(file: string, begin: nat, end: int)

  /** One byte of the layout: present in its file, or beyond that file's current end. */
  datatype Cell = Missing | Data(value: byte)

  type Disk = map<string, seq<byte>>

  datatype Position = Position(file: string, offset: nat)

  // ---- the layout ----

  /** The ranges follow one another without a gap from 0 to total, and none is empty. */
  ghost predicate Runs(ranges: seq<Range>, total: nat) {
    && (forall i :: 0 <= i < |ranges| ==> ranges[i].begin < ranges[i].end <= total)
    && (forall i :: 0 < i < |ranges| ==> Linked(ranges, i))
    && (|ranges| > 0 ==> ranges[0].begin == 0 && ranges[|ranges| - 1].end == total)
    && (|ranges| == 0 ==> total == 0)
  }

  ghost predicate Contiguous(ranges: seq<Range>, total: nat) {
    && Runs(ranges, total)
    && (forall i, j :: 0 <= i < j < |ranges| ==> ranges[i].file != ranges[j].file)
  }

  ghost predicate Linked(ranges: seq<Range>, i: nat)
    requires 0 < i < |ranges|
  {
    ranges[i].begin == ranges[i - 1].end
  }

  /** bisect_right: how many leading entries of an ascending sequence are at most pos. */
  function BisectRight(begins: seq<nat>, pos: int): (n: nat)
    ensures n <= |begins|
    ensures n > 0 ==> begins[n - 1] <= pos
    ensures n < |begins| && (forall i, j :: 0 <= i < j < |begins| ==> begins[i] < begins[j]) ==> pos < begins[n]
  {
    if begins == [] then 0
    else if begins[|begins| - 1] <= pos then |begins|
    else BisectRight(begins[..|begins| - 1], pos)
  }

  lemma {:induction false} Ordered(ranges: seq<Range>, total: nat, i: nat, j: nat)
    requires Contiguous(ranges, total) && i < j < |ranges|
    ensures ranges[i].end <= ranges[j].begin
    decreases j - i
  {
    if i + 1 < j { Ordered(ranges, total, i + 1, j); }
    assert Linked(ranges, i + 1);
  }

  ghost predicate Holds(r: Range, k: nat) { r.begin <= k < r.end }

  lemma {:induction false} SomeRangeHolds(ranges: seq<Range>, total: nat, k: nat) returns (p: nat)
    requires Contiguous(ranges, total) && k < total
    ensures p < |ranges| && Holds(ranges[p], k)
  {
    p := |ranges| - 1;
    while k < ranges[p].begin
      invariant 0 <= p < |ranges| && k < ranges[p].end
      decreases p
    {
      assert Linked(ranges, p);
      p := p - 1;
    }
  }

  /** The range that holds global position k. */
  ghost function RangeOf(ranges: seq<Range>, total: nat, k: nat): (p: nat)
    requires Contiguous(ranges, total) && k < total
    ensures p < |ranges| && Holds(ranges[p], k)
  {
    assert exists p :: 0 <= p < |ranges| && Holds(ranges[p], k) by {
      var p := SomeRangeHolds(ranges, total, k);
    }
    var p :| 0 <= p < |ranges| && Holds(ranges[p], k);
    p
  }

  /** The file and offset where global position k lives. */
  ghost function Locate(ranges: seq<Range>, total: nat, k: nat): (at: Position)
    requires Contiguous(ranges, total) && k < total
  {
    var r := ranges[RangeOf(ranges, total, k)];
    Position(r.file, k - r.begin)
  }

  lemma RangeOfUnique(ranges: seq<Range>, total: nat, p: nat, k: nat)
    requires Contiguous(ranges, total) && p < |ranges| && Holds(ranges[p], k)
    ensures RangeOf(ranges, total, k) == p
  {
    var q := RangeOf(ranges, total, k);
    if q < p { Ordered(ranges, total, q, p); }
    if p < q { Ordered(ranges, total, p, q); }
  }

  /** No two global positions share a byte of a file. */
  lemma LocateInjective(ranges: seq<Range>, total: nat, j: nat, k: nat)
    requires Contiguous(ranges, total) && j < total && k < total
    requires Locate(ranges, total, j) == Locate(ranges, total, k)
    ensures j == k
  {
    assert RangeOf(ranges, total, j) == RangeOf(ranges, total, k);
  }

  /** Files are laid end to end in the order given; empty ones take no room. */
  function Layout(files: seq<(string, nat)>): seq<Range> {
    if files == [] then []
    else
      var (file, length) := files[|files| - 1];
      var r := Layout(files[..|files| - 1]);
      if length == 0 then r else r + [Range(Total(files) - length, Total(files), file)]
  }

  function Total(files: seq<(string, nat)>): nat {
    if files == [] then 0 else Total(files[..|files| - 1]) + files[|files| - 1].1
  }

  ghost predicate DistinctNames(files: seq<(string, nat)>) {
    forall i, j :: 0 <= i < j < |files| ==> files[i].0 != files[j].0
  }

  /** Range r is where the j-th file lies: it is not empty and starts where the earlier files end. */
  ghost predicate Places(r: Range, files: seq<(string, nat)>, j: nat) {
    && j < |files| && files[j].1 > 0 && r.begin == Total(files[..j])
    && r.end == r.begin + files[j].1 && r.file == files[j].0
  }

  lemma {:induction false} LayoutPlaces(files: seq<(string, nat)>, i: nat) returns (j: nat)
    requires i < |Layout(files)|
    ensures Places(Layout(files)[i], files, j)
  {
    var n := |files| - 1;
    if i < |Layout(files[..n])| {
      j := LayoutPlaces(files[..n], i);
      assert files[..n][..j] == files[..j];
    } else {
      j := n;
    }
  }

  /** However the files are named, their stretches follow one another without a gap. */
  lemma {:induction false} LayoutRuns(files: seq<(string, nat)>)
    ensures Runs(Layout(files), Total(files))
  {
    if files != [] {
      var r := Layout(files[..|files| - 1]);
      LayoutRuns(files[..|files| - 1]);
      forall i | 0 < i < |Layout(files)| ensures Linked(Layout(files), i) {
        if i < |r| { assert Linked(r, i); }
      }
    }
  }

  lemma {:induction false} LayoutContiguous(files: seq<(string, nat)>)
    requires DistinctNames(files)
    ensures Contiguous(Layout(files), Total(files))
  {
    LayoutRuns(files);
    if files != [] {
      var n := |files| - 1;
      var r := Layout(files[..n]);
      LayoutContiguous(files[..n]);
      forall i | 0 <= i < |r| ensures r[i].file != files[n].0 {
        var j := LayoutPlaces(files[..n], i);
      }
    }
  }

  /** What one listed file holds once the constructor has truncated or created it. */
  function OpenedContent(entry: (string, nat), existing: Disk): seq<byte> {
    if entry.0 in existing then Slice(existing[entry.0], 0, entry.1) else []
  }

  /** Exactly the listed files are touched, each as OpenedContent says. */
  ghost predicate Opened(files: seq<(string, nat)>, existing: Disk, disk: Disk) {
    && (forall j :: 0 <= j < |files| ==> files[j].0 in disk && disk[files[j].0] == OpenedContent(files[j], existing))
    && (forall f :: f in existing && !Listed(files, f) ==> f in disk && disk[f] == existing[f])
  }

  ghost predicate Listed(files: seq<(string, nat)>, f: string) {
    exists j :: 0 <= j < |files| && files[j].0 == f
  }

  // ---- cells ----

  function CellAt(disk: Disk, at: Position): Cell {
    if at.file in disk && at.offset < |disk[at.file]| then Data(disk[at.file][at.offset]) else Missing
  }

  /** Seeking to a byte and writing: a gap past the old end of the file reads as zeros. */
  function Overwrite(content: seq<byte>, begin: nat, data: seq<byte>): seq<byte> {
    if data == [] then content
    else
      seq(Max(|content|, begin + |data|), k requires k >= 0 =>
        if begin <= k < begin + |data| then data[k - begin]
        else if k < |content| then content[k] else 0)
  }

  ghost function Flatten(ranges: seq<Range>, total: nat, disk: Disk): (cells: seq<Cell>)
    requires Contiguous(ranges, total)
    ensures |cells| == total
  {
    seq(total, k requires 0 <= k < total => CellAt(disk, Locate(ranges, total, k)))
  }

  lemma FlattenAt(ranges: seq<Range>, total: nat, disk: Disk, p: nat, k: nat)
    requires Contiguous(ranges, total) && p < |ranges| && Holds(ranges[p], k)
    ensures Flatten(ranges, total, disk)[k] == CellAt(disk, Position(ranges[p].file, k - ranges[p].begin))
  {
    RangeOfUnique(ranges, total, p, k);
  }

  ghost predicate AllData(cells: seq<Cell>, lo: nat, hi: int) {
    forall k :: lo <= k < hi && k < |cells| ==> cells[k].Data?
  }

  /** Writing data at pos sets exactly those cells. Bytes elsewhere stay, and so does everything after the
      data; a cell before it, beyond the old end of a file, may turn into a zero byte when the file grows. */
  ghost predicate Wrote(before: seq<Cell>, after: seq<Cell>, pos: nat, data: seq<byte>) {
    && |after| == |before|
    && (forall k :: pos <= k < pos + |data| && k < |after| ==> after[k] == Data(data[k - pos]))
    && (forall k :: 0 <= k < |after| && !(pos <= k < pos + |data|) ==>
          after[k] == before[k] || (k < pos && before[k].Missing? && after[k] == Data(0)))
  }

  /** read at a file position: stops at the end of the file. */
  function Slice(content: seq<byte>, begin: nat, end: nat): seq<byte>
    requires begin <= end
  {
    content[Min(begin, |content|)..Min(end, |content|)]
  }

  lemma SliceCells(ranges: seq<Range>, total: nat, disk: Disk, p: nat, v: Interval, lo: nat, hi: nat)
    requires Contiguous(ranges, total) && p < |ranges| && Supplies(ranges[p], v, lo, hi) && v.file in disk
    ensures var cells, got := Flatten(ranges, total, disk), Slice(disk[v.file], v.begin, v.end);
            && |got| <= hi - lo
            && (|got| == hi - lo <==> AllData(cells, lo, hi))
            && forall k :: lo <= k < lo + |got| ==> cells[k] == Data(got[k - lo])
  {
    forall k | lo <= k < hi
      ensures Flatten(ranges, total, disk)[k] == CellAt(disk, Position(v.file, k - ranges[p].begin))
    {
      FlattenAt(ranges, total, disk, p, k);
    }
    var got := Slice(disk[v.file], v.begin, v.end);
    if |got| < hi - lo {
      assert CellAt(disk, Position(v.file, hi - 1 - ranges[p].begin)) == Missing;
      assert !Flatten(ranges, total, disk)[hi - 1].Data?;
    }
  }

  lemma OverwriteCells(ranges: seq<Range>, total: nat, disk: Disk, p: nat, v: Interval, lo: nat, hi: nat, data: seq<byte>)
    requires Contiguous(ranges, total) && p < |ranges| && Supplies(ranges[p], v, lo, hi) && v.file in disk
    requires |data| == hi - lo
    ensures Wrote(Flatten(ranges, total, disk),
                  Flatten(ranges, total, disk[v.file := Overwrite(disk[v.file], v.begin, data)]), lo, data)
  {
    var disk' := disk[v.file := Overwrite(disk[v.file], v.begin, data)];
    var before, after := Flatten(ranges, total, disk), Flatten(ranges, total, disk');
    forall k | lo <= k < hi
      ensures after[k] == Data(data[k - lo])
    {
      FlattenAt(ranges, total, disk', p, k);
    }
    forall k | 0 <= k < total && !(lo <= k < hi)
      ensures after[k] == before[k] || (k < lo && before[k].Missing? && after[k] == Data(0))
    {
      var q := RangeOf(ranges, total, k);
      FlattenAt(ranges, total, disk, q, k);
      FlattenAt(ranges, total, disk', q, k);
      if q != p { assert ranges[q].file != ranges[p].file; }
    }
  }

  lemma WroteMore(a: seq<Cell>, b: seq<Cell>, c: seq<Cell>, pos: nat, data: seq<byte>, more: seq<byte>)
    requires Wrote(a, b, pos, data) && Wrote(b, c, pos + |data|, more)
    ensures Wrote(a, c, pos, data + more)
  {
  }

  lemma WroteNothing(a: seq<Cell>, pos: nat)
    ensures Wrote(a, a, pos, [])
  {
  }

  /** What lies past the end makes no difference. */
  lemma WroteAll(a: seq<Cell>, b: seq<Cell>, pos: nat, data: seq<byte>, n: nat)
    requires n <= |data| && Wrote(a, b, pos, data[..n]) && (n == |data| || pos + n == |a|)
    ensures Wrote(a, b, pos, data)
  {
  }

  /** Range p supplies the interval v for the global positions from lo up to hi. */
  ghost predicate Supplies(p: Range, v: Interval, lo: nat, hi: nat) {
    p.begin <= lo <= hi <= p.end && v == Interval(p.file, lo - p.begin, hi - p.begin)
  }

  /** The intervals cover the positions cuts[0], ..., cuts[|r|] - 1 in order, each exactly once. */
  ghost predicate Tiles(ranges: seq<Range>, r: seq<Interval>, start: nat, cuts: seq<nat>) {
    && start + |r| <= |ranges| && |cuts| == |r| + 1
    && forall i :: 0 <= i < |r| ==> Supplies(ranges[start + i], r[i], cuts[i], cuts[i + 1])
  }

  lemma {:induction false} CutsAscend(ranges: seq<Range>, r: seq<Interval>, start: nat, cuts: seq<nat>, i: nat, j: nat)
    requires Tiles(ranges, r, start, cuts) && i <= j <= |r|
    ensures cuts[i] <= cuts[j]
    decreases j - i
  {
    if i < j {
      assert Supplies(ranges[start + i], r[i], cuts[i], cuts[i + 1]);
      CutsAscend(ranges, r, start, cuts, i + 1, j);
    }
  }

  lemma TilesCuts(ranges: seq<Range>, r: seq<Interval>, start: nat, cuts: seq<nat>)
    requires Tiles(ranges, r, start, cuts)
    ensures |cuts| == |r| + 1 && start + |r| <= |ranges| && cuts[0] <= cuts[|r|]
  {
    CutsAscend(ranges, r, start, cuts, 0, |r|);
  }

  lemma TilesAt(ranges: seq<Range>, r: seq<Interval>, start: nat, cuts: seq<nat>, i: nat)
    requires Tiles(ranges, r, start, cuts) && i < |r|
    ensures |cuts| == |r| + 1 && start + i < |ranges| && Supplies(ranges[start + i], r[i], cuts[i], cuts[i + 1])
    ensures r[i].end - r[i].begin == cuts[i + 1] - cuts[i] && cuts[i] <= cuts[i + 1] <= cuts[|r|]
  {
    assert Supplies(ranges[start + i], r[i], cuts[i], cuts[i + 1]);
    CutsAscend(ranges, r, start, cuts, i + 1, |r|);
  }

  class Storage {
    const ranges: seq<Range>
    const begins: seq<nat>
    const totalLength: nat
    const tops: map<string, nat>
    var disk: Disk

    ghost predicate Valid()
      reads this
    {
      Inv()
    }

    ghost predicate Inv()
      reads this
    {
      && Contiguous(ranges, totalLength)
      && begins == seq(|ranges|, i requires 0 <= i < |ranges| => ranges[i].begin)
      && (forall i :: 0 <= i < |ranges| ==>
            ranges[i].file in disk && |disk[ranges[i].file]| <= ranges[i].end - ranges[i].begin)
      && (forall k :: 0 <= k < totalLength && WasBacked(k) ==> Flatten(ranges, totalLength, disk)[k].Data?)
    }

    /** Position k lies within what its file already held at start-up. */
    ghost predicate WasBacked(k: nat) {
      Contiguous(ranges, totalLength) && k < totalLength &&
      var at := Locate(ranges, totalLength, k);
      at.file in tops && at.offset < tops[at.file]
    }

    /** The whole layout as one flat array. */
    ghost function Cells(): (cells: seq<Cell>)
      requires Valid()
      reads this
      ensures |cells| == totalLength
    {
      Flatten(ranges, totalLength, disk)
    }

    /** The first loop of the constructor: lays the files out and creates missing empty ones. */
    static method LayOut(files: seq<(string, nat)>, existing: Disk)
      returns (layout: seq<Range>, starts: seq<nat>, total: nat, now: Disk)
      ensures layout == Layout(files) && total == Total(files)
      ensures starts == seq(|layout|, i requires 0 <= i < |layout| => layout[i].begin)
      ensures forall f :: f in existing ==> f in now && now[f] == existing[f]
      ensures forall f :: f in now && f !in existing ==> now[f] == [] && Listed(files, f)
    {
      layout, starts, total, now := [], [], 0, existing;
      for i := 0 to |files|
        invariant layout == Layout(files[..i]) && total == Total(files[..i])
        invariant |starts| == |layout| && forall j :: 0 <= j < |starts| ==> starts[j] == layout[j].begin
        invariant forall f :: f in existing ==> f in now && now[f] == existing[f]
        invariant forall f :: f in now && f !in existing ==> now[f] == [] && Listed(files, f)
      {
        var (file, length) := files[i];
        assert files[..i + 1][..i] == files[..i];
        if length != 0 {
          layout, starts := layout + [Range(total, total + length, file)], starts + [total];
          total := total + length;
        } else if file !in now {
          now := now[file := []];
        }
      }
      assert files[..|files|] == files;
    }

    /** The second loop: truncates files that are too long, creates the missing ones and
        records the size each file had. */
    static method OpenAll(files: seq<(string, nat)>, found: Disk) returns (now: Disk, sizes: map<string, nat>)
      requires DistinctNames(files)
      ensures Opened(files, found, now)
      ensures forall f :: f in sizes <==> f in found && Listed(files, f)
      ensures forall f :: f in sizes ==> sizes[f] == |found[f]|
    {
      now, sizes := found, map[];
      for i := 0 to |files|
        invariant forall j :: 0 <= j < i ==> files[j].0 in now && now[files[j].0] == OpenedContent(files[j], found)
        invariant forall f :: !Listed(files[..i], f) ==> (f in now <==> f in found) && (f in now ==> now[f] == found[f])
        invariant forall f :: f in sizes <==> f in found && Listed(files[..i], f)
        invariant forall f :: f in sizes ==> sizes[f] == |found[f]|
      {
        var (file, length) := files[i];
        assert !Listed(files[..i], file);
        assert forall f :: Listed(files[..i + 1], f) <==> Listed(files[..i], f) || f == file by {
          ListedOneMore(files, i);
        }
        if file in now {
          var l := |now[file]|;
          if l > length {
            now := now[file := now[file][..length]];
          }
          sizes := sizes[file := l];
        } else {
          now := now[file := []];
        }
      }
      assert files[..|files|] == files;
    }

    static lemma ListedOneMore(files: seq<(string, nat)>, i: nat)
      requires i < |files|
      ensures forall f :: Listed(files[..i + 1], f) <==> Listed(files[..i], f) || f == files[i].0
    {
      forall f ensures Listed(files[..i + 1], f) <==> Listed(files[..i], f) || f == files[i].0 {
        if Listed(files[..i], f) {
          var j :| 0 <= j < i && files[..i][j].0 == f;
          assert files[..i + 1][j].0 == f;
        }
        if f == files[i].0 {
          assert files[..i + 1][i].0 == f;
        }
        if Listed(files[..i + 1], f) && f != files[i].0 {
          var j :| 0 <= j < i + 1 && files[..i + 1][j].0 == f;
          assert files[..i][j].0 == f;
        }
      }
    }

    /** Lays the files out and opens them. Every byte that was on disk within a file's length
        is kept, and those are exactly the bytes that count as preallocated. */
    constructor (files: seq<(string, nat)>, existing: Disk)
      requires DistinctNames(files)
      ensures Valid()
      ensures ranges == Layout(files) && totalLength == Total(files)
      ensures forall k :: 0 <= k < totalLength ==> Cells()[k] == CellAt(existing, Locate(ranges, totalLength, k))
      ensures forall k :: 0 <= k < totalLength ==> (WasBacked(k) <==> Cells()[k].Data?)
    {
      var layout, starts, total, found := LayOut(files, existing);
      var now, sizes := OpenAll(files, found);
      ranges, begins, totalLength, tops, disk := layout, starts, total, sizes, now;
      new;
      LayoutContiguous(files);
      RangesOpened(files, existing, found);
      StartCells(existing);
    }

    lemma RangesOpened(files: seq<(string, nat)>, existing: Disk, found: Disk)
      requires DistinctNames(files) && ranges == Layout(files) && Opened(files, found, disk)
      requires forall f :: f in existing ==> f in found && found[f] == existing[f]
      requires forall f :: f in found && f !in existing ==> found[f] == []
      requires forall f :: f in tops <==> f in found && Listed(files, f)
      requires forall f :: f in tops ==> tops[f] == |found[f]|
      ensures forall i :: 0 <= i < |ranges| ==> ranges[i].begin <= ranges[i].end && OpenedRange(i, existing)
    {
      forall i | 0 <= i < |ranges| ensures ranges[i].begin <= ranges[i].end && OpenedRange(i, existing) {
        RangeOpened(files, existing, found, i);
      }
    }

    lemma RangeOpened(files: seq<(string, nat)>, existing: Disk, found: Disk, i: nat)
      requires i < |ranges| && ranges == Layout(files) && Opened(files, found, disk)
      requires forall f :: f in existing ==> f in found && found[f] == existing[f]
      requires forall f :: f in found && f !in existing ==> found[f] == []
      requires forall f :: f in tops <==> f in found && Listed(files, f)
      requires forall f :: f in tops ==> tops[f] == |found[f]|
      ensures ranges[i].begin <= ranges[i].end && OpenedRange(i, existing)
    {
      var j := LayoutPlaces(files, i);
      hide Layout, Total;
      assert Listed(files, files[j].0);
      assert disk[files[j].0] == OpenedContent(files[j], found);
    }

    lemma StartCells(existing: Disk)
      requires Contiguous(ranges, totalLength)
      requires begins == seq(|ranges|, i requires 0 <= i < |ranges| => ranges[i].begin)
      requires forall i :: 0 <= i < |ranges| ==> OpenedRange(i, existing)
      ensures Valid()
      ensures forall k :: 0 <= k < totalLength ==> Cells()[k] == CellAt(existing, Locate(ranges, totalLength, k))
      ensures forall k :: 0 <= k < totalLength ==> (WasBacked(k) <==> Cells()[k].Data?)
    {
      forall i | 0 <= i < |ranges|
        ensures ranges[i].file in disk && |disk[ranges[i].file]| <= ranges[i].end - ranges[i].begin
      {
        assert OpenedRange(i, existing);
      }
      forall k | 0 <= k < totalLength
        ensures Flatten(ranges, totalLength, disk)[k] == CellAt(existing, Locate(ranges, totalLength, k))
        ensures WasBacked(k) <==> Flatten(ranges, totalLength, disk)[k].Data?
      {
        assert OpenedRange(RangeOf(ranges, totalLength, k), existing);
      }
    }

    ghost predicate OpenedRange(i: nat, existing: Disk)
      requires i < |ranges| && ranges[i].begin <= ranges[i].end
      reads this
    {
      var Range(begin, end, file) := ranges[i];
      && file in disk && disk[file] == OpenedContent((file, end - begin), existing)
      && (file in existing ==> file in tops && tops[file] == |existing[file]|)
      && (file !in existing && file in tops ==> tops[file] == 0)
    }

    /** _intervals starts at the range that holds pos, or at the last one when pos is past the end. */
    lemma StartRange(pos: nat) returns (start: nat)
      requires Valid() && ranges != []
      ensures start == BisectRight(begins, pos) - 1 && start < |ranges| && ranges[start].begin <= pos
      ensures start + 1 < |ranges| ==> pos < ranges[start].end
      ensures Contiguous(ranges, totalLength)
      ensures pos > totalLength ==> start + 1 == |ranges| && ranges[start].begin < ranges[start].end <= totalLength
    {
      forall i, j | 0 <= i < j < |begins| ensures begins[i] < begins[j] {
        Ordered(ranges, totalLength, i, j);
      }
      start := BisectRight(begins, pos) - 1;
      assert start + 1 < |ranges| ==> Linked(ranges, start + 1);
    }

    /** What _intervals has built once it has gone through the ranges from start up to p. */
    ghost predicate Covered(r: seq<Interval>, start: nat, cuts: seq<nat>, pos: nat, stop: nat) {
      && Tiles(ranges, r, start, cuts)
      && cuts[0] == pos && (r != [] ==> cuts[|r|] == Min(ranges[start + |r| - 1].end, stop))
      && (pos < totalLength && pos < stop ==> forall i :: 0 <= i < |r| ==> r[i].begin < r[i].end)
    }

    lemma CoverStart(start: nat, pos: nat, stop: nat)
      requires start <= |ranges|
      ensures Covered([], start, [pos], pos, stop)
    {
    }

    lemma CoverNext(r: seq<Interval>, start: nat, cuts: seq<nat>, pos: nat, stop: nat, next: Interval, cut: nat)
      requires Contiguous(ranges, totalLength) && Covered(r, start, cuts, pos, stop) && pos <= totalLength
      requires start + |r| < |ranges| && ranges[start + |r|].begin < stop && ranges[start].begin <= pos <= stop
      requires start + 1 < |ranges| ==> pos < ranges[start].end
      requires var Range(begin, end, file) := ranges[start + |r|];
               next == Interval(file, Max(pos, begin) - begin, Min(end, stop) - begin) && cut == Min(end, stop)
      ensures Covered(r + [next], start, cuts + [cut], pos, stop)
    {
      var p := start + |r|;
      if r != [] {
        assert Linked(ranges, p);
        Ordered(ranges, totalLength, start, p);
      }
    }

    lemma CoverEnd(r: seq<Interval>, start: nat, cuts: seq<nat>, pos: nat, stop: nat)
      requires Contiguous(ranges, totalLength) && Covered(r, start, cuts, pos, stop) && pos <= totalLength
      requires start + |r| < |ranges| ==> stop <= ranges[start + |r|].begin
      requires start < |ranges| && ranges[start].begin <= pos <= stop
      ensures Tiles(ranges, r, start, cuts) && cuts[0] == pos && cuts[|r|] == Min(stop, totalLength)
    {
      var p := start + |r|;
      if r != [] && p < |ranges| { assert Linked(ranges, p); }
    }

    /** The pieces of files that make up a stretch of the layout. */
    method Intervals(pos: nat, amount: nat) returns (r: seq<Interval>, ghost start: nat, ghost cuts: seq<nat>)
      requires Valid() && ranges != []
      ensures pos <= totalLength ==> Tiles(ranges, r, start, cuts)
      ensures pos <= totalLength ==> cuts[0] == pos && cuts[|r|] == Min(pos + amount, totalLength)
      ensures pos > totalLength ==> |r| == 1 && r[0].end < r[0].begin
      ensures pos < totalLength && amount > 0 ==> forall i :: 0 <= i < |r| ==> r[i].begin < r[i].end
    {
      hide Inv, Contiguous, Tiles, BisectRight;
      r := [];
      cuts := [pos];
      var stop := pos + amount;
      var p := BisectRight(begins, pos) - 1;
      start := StartRange(pos);
      assert pos <= totalLength ==> Covered([], start, [pos], pos, stop) by { CoverStart(start, pos, stop); }
      while p < |ranges| && ranges[p].begin < stop
        invariant p == start + |r| <= |ranges|
        invariant pos <= totalLength ==> Covered(r, start, cuts, pos, stop)
        invariant pos > totalLength && p > start ==> |r| == 1 && r[0].end < r[0].begin
      {
        var Range(begin, end, file) := ranges[p];
        var next := Interval(file, Max(pos, begin) - begin, Min(end, stop) - begin);
        if pos <= totalLength { CoverNext(r, start, cuts, pos, stop, next, Min(end, stop)); }
        r := r + [next];
        cuts := cuts + [Min(end, stop)];
        p := p + 1;
      }
      if pos <= totalLength { CoverEnd(r, start, cuts, pos, stop); }
    }

    method GetTotalLength() returns (n: nat)
      ensures n == totalLength
    {
      n := totalLength;
    }

    /** Reads a stretch. The result is the flat array's bytes there, and falls short of the
        requested length exactly when one of the files does not yet reach that far. */
    method Read(pos: nat, amount: nat) returns (data: seq<byte>)
      requires Valid() && ranges != [] && pos <= totalLength
      ensures var hi := Min(pos + amount, totalLength);
              && |data| <= hi - pos
              && (|data| == hi - pos <==> AllData(Cells(), pos, hi))
              && (AllData(Cells(), pos, hi) ==> forall k :: pos <= k < hi ==> Cells()[k] == Data(data[k - pos]))
    {
      data := [];
      var r, start, cuts := Intervals(pos, amount);
      var i := 0;
      while i < |r|
        invariant 0 <= i <= |r| && pos <= cuts[i] <= totalLength
        invariant |data| <= cuts[i] - pos
        invariant |data| == cuts[i] - pos <==> AllData(Cells(), pos, cuts[i])
        invariant AllData(Cells(), pos, cuts[i]) ==> forall k :: pos <= k < cuts[i] ==> Cells()[k] == Data(data[k - pos])
      {
        var Interval(file, begin, end) := r[i];
        assert Supplies(ranges[start + i], r[i], cuts[i], cuts[i + 1]);
        SliceCells(ranges, totalLength, disk, start + i, r[i], cuts[i], cuts[i + 1]);
        data := data + Slice(disk[file], begin, end);
        i := i + 1;
      }
    }

    /** One round of the loop in write: a seek and a write in a single file. */
    method WriteOne(v: Interval, chunk: seq<byte>, ghost p: nat, ghost lo: nat, ghost hi: nat)
      requires Valid() && p < |ranges| && Supplies(ranges[p], v, lo, hi) && |chunk| == hi - lo
      modifies this
      ensures Valid()
      ensures Wrote(old(Cells()), Cells(), lo, chunk)
    {
      OverwriteCells(ranges, totalLength, disk, p, v, lo, hi, chunk);
      disk := disk[v.file := Overwrite(disk[v.file], v.begin, chunk)];
    }

    static lemma TakeMore(s: seq<byte>, i: nat, j: nat)
      requires i <= j <= |s|
      ensures s[..i] + s[i..j] == s[..j]
    {
    }

    static lemma WroteChunk(a: seq<Cell>, b: seq<Cell>, c: seq<Cell>, pos: nat, s: seq<byte>, i: nat, j: nat)
      requires i <= j <= |s| && Wrote(a, b, pos, s[..i]) && Wrote(b, c, pos + i, s[i..j])
      ensures Wrote(a, c, pos, s[..j])
    {
      WroteMore(a, b, c, pos, s[..i], s[i..j]);
      TakeMore(s, i, j);
    }

    /** Writes a stretch; what would fall past the last byte is dropped. */
    method Write(pos: nat, s: seq<byte>)
      requires Valid() && ranges != [] && pos <= totalLength
      modifies this
      ensures Valid()
      ensures Wrote(old(Cells()), Cells(), pos, s)
    {
      hide Inv, Tiles, Supplies, Wrote;
      var r, start, cuts := Intervals(pos, |s|);
      TilesCuts(ranges, r, start, cuts);
      WroteNothing(Cells(), pos);
      var total, i := 0, 0;
      while i < |r|
        invariant Valid()
        invariant 0 <= i <= |r| && 0 <= total && pos + total == cuts[i] <= Min(pos + |s|, totalLength)
        invariant Wrote(old(Cells()), Cells(), pos, s[..total])
      {
        var Interval(_, begin, end) := r[i];
        TilesAt(ranges, r, start, cuts, i);
        var chunk := s[total..total + (end - begin)];
        ghost var was := Cells();
        WriteOne(r[i], chunk, start + i, cuts[i], cuts[i + 1]);
        WroteChunk(old(Cells()), was, Cells(), pos, s, total, total + (end - begin));
        total := total + (end - begin);
        i := i + 1;
      }
      WroteAll(old(Cells()), Cells(), pos, s, total);
    }

    /** Whether the files held the whole stretch at start-up. */
    method WasPreallocated(pos: nat, length: nat) returns (b: bool)
      requires Valid() && ranges != []
      ensures length > 0 && pos < totalLength ==>
                (b <==> forall k :: pos <= k < Min(pos + length, totalLength) ==> WasBacked(k))
    {
      var r, start, cuts := Intervals(pos, length);
      var i := 0;
      while i < |r|
        invariant 0 <= i <= |r|
        invariant length > 0 && pos < totalLength ==> pos <= cuts[i] <= Min(pos + length, totalLength)
        invariant length > 0 && pos < totalLength ==> forall k :: pos <= k < cuts[i] ==> WasBacked(k)
      {
        var Interval(file, _, end) := r[i];
        if length > 0 && pos < totalLength {
          assert Supplies(ranges[start + i], r[i], cuts[i], cuts[i + 1]);
          CutsAscend(ranges, r, start, cuts, i + 1, |r|);
          forall k | cuts[i] <= k < cuts[i + 1]
            ensures WasBacked(k) <==> file in tops && k - ranges[start + i].begin < tops[file]
          {
            RangeOfUnique(ranges, totalLength, start + i, k);
          }
        }
        if (if file in tops then tops[file] else 0) < end {
          assert length > 0 && pos < totalLength ==> !WasBacked(cuts[i + 1] - 1);
          return false;
        }
        i := i + 1;
      }
      return true;
    }
  }
}
