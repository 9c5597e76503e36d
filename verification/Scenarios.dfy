/** Concrete runs in which the code does less than one would hope. */
module Scenarios {
  import opened Basics
  import opened Blocks
  import opened Placement
  import Scan
  import S = Storage
  import W = StorageWrapper
  import P = PiecePicker
  import D = Downloader

  /** Two pieces of one or two bytes each, requested byte by byte, with hashes that no data has. */
  ghost predicate Unfinishable(w: W.StorageWrapper) {
    && w.g == Geometry(2, w.g.pieceSize, 2 * w.g.pieceSize) && 1 <= w.g.pieceSize <= 2 && w.requestSize == 1
    && w.hashes == [[1], [1]] && forall s :: w.sha(s) == []
  }

  lemma NothingHad(w: W.StorageWrapper)
    requires w.Valid() && Unfinishable(w)
    ensures w.Sizes() && forall i :: 0 <= i < 2 ==> !w.have[i]
  {
    hide W.StorageWrapper.Inv;
    w.HadHash(0);
    w.HadHash(1);
  }

  lemma OneTile(w: W.StorageWrapper)
    requires Unfinishable(w) && w.g.pieceSize == 1
    ensures w.g.PieceLen(0) == w.g.PieceLen(1) == 1 && Tiling(1, 1, 0) == [(0, 1)]
  {
  }

  lemma TwoTiles(w: W.StorageWrapper)
    requires Unfinishable(w) && w.g.pieceSize == 2
    ensures w.g.PieceLen(0) == w.g.PieceLen(1) == 2 && Tiling(2, 1, 0) == [(0, 1), (1, 1)]
  {
  }

  method TwoPieces(size: nat) returns (w: W.StorageWrapper)
    requires 1 <= size <= 2
    ensures fresh(w) && fresh(w.storage) && w.Valid() && Unfinishable(w) && w.g.pieceSize == size && w.Sizes() && !w.endgame
    ensures forall i :: 0 <= i < 2 ==> !w.have[i] && w.inactiveRequests[i] == Untouched && w.issued[i] == {} && w.arrived[i] == map[]
  {
    hide W.StorageWrapper.Inv, S.Storage.Inv, W.StorageWrapper.Thorough;
    assert S.Layout([("file", 2 * size)][..0]) == [] && S.Total([("file", 2 * size)][..0]) == 0;
    var disk := new S.Storage([("file", 2 * size)], map[]);
    var r := W.StorageWrapper.Create(disk, 1, [[1], [1]], size, _ => []);
    w := r.value;
    NothingHad(w);
    assert w.Unstarted(0) && w.Unstarted(1);
  }

  lemma AllOpen(dl: D.Downloader, i: nat)
    requires Unfinishable(dl.storage) && i < 2 == |dl.storage.inactiveRequests| && dl.storage.inactiveRequests[i] == Untouched
    ensures dl.OpenCount(i) == dl.storage.g.pieceSize
  {
    if dl.storage.g.pieceSize == 1 {
      OneTile(dl.storage);
      assert dl.storage.Open(i) == {(0, 1)};
    } else {
      TwoTiles(dl.storage);
      assert dl.storage.Open(i) == {(0, 1), (1, 1)};
    }
  }

  /** What has come in of the two pieces. */
  ghost predicate CameIn(dl: D.Downloader, a: Arrived)
    reads dl.storage`arrived
  {
    dl.storage.arrived == [a, map[]]
  }

  method Start(size: nat) returns (dl: D.Downloader)
    requires 1 <= size <= 2
    ensures fresh(dl) && fresh(dl.storage) && fresh(dl.storage.storage) && fresh(dl.picker)
    ensures dl.Valid() && dl.downloads == [] && dl.backlog == 1 && Unfinishable(dl.storage) && dl.storage.g.pieceSize == size
    ensures !dl.storage.endgame && dl.OpenCount(0) == dl.OpenCount(1) == size && CameIn(dl, map[])
  {
    hide W.StorageWrapper.Inv, P.PiecePicker.Inv, D.Downloader.Inv, Tiling, D.Downloader.OpenCount;
    var w := TwoPieces(size);
    var picker := new P.PiecePicker(2, 0, [0, 1]);
    dl := new D.Downloader(w, picker, 1);
    AllOpen(dl, 0);
    AllOpen(dl, 1);
  }

  /** The download goes on: nothing is had, and piece 1 can be handed out. */
  ghost predicate Going(dl: D.Downloader)
    reads dl, dl.downloads, dl.storage, dl.storage.storage, dl.picker
  {
    && dl.Valid() && dl.backlog == 1 && Unfinishable(dl.storage) && !dl.storage.endgame && dl.AllBusy()
    && dl.OpenCount(1) > 0 && |dl.downloads| <= 2
  }

  lemma Goes(dl: D.Downloader)
    requires dl.Valid() && Unfinishable(dl.storage)
    ensures !dl.Complete() && (forall i :: dl.Requestable(i) <==> dl.OpenCount(i) > 0)
    ensures |dl.storage.have| == 2 && !dl.storage.have[0] && !dl.storage.have[1]
    ensures dl.OpenCount(1) > 0 ==> !dl.storage.endgame
  {
    hide D.Downloader.Inv, D.Downloader.PartsOk, D.Downloader.PeersOk, D.Downloader.Mode, W.StorageWrapper.Inv;
    dl.Unpack();
    dl.StorageValid();
    NothingHad(dl.storage);
    assert |dl.storage.have| == 2 && !dl.storage.have[0];
    forall i: nat ensures dl.Requestable(i) <==> dl.OpenCount(i) > 0 { dl.OpenCounts(i); }
    if dl.storage.endgame { dl.InEndgame(); }
  }

  /** A new peer that has nothing yet, but may be asked for blocks. */
  method Join(dl: D.Downloader) returns (d: D.SingleDownload)
    requires Going(dl) && |dl.downloads| < 2
    modifies dl, dl.downloads, dl.storage, dl.picker
    ensures Going(dl) && fresh(d) && dl.downloads == old(dl.downloads) + [d]
    ensures !d.choked && d.gotAnything && d.activeRequests == [] && d.have == [false, false]
    ensures dl.storage.arrived == old(dl.storage.arrived) && dl.OpenCount(0) == old(dl.OpenCount(0))
    ensures forall e :: e in old(dl.downloads) ==>
              e.activeRequests == old(e.activeRequests) && e.have == old(e.have) && e.choked == old(e.choked)
              && e.gotAnything == old(e.gotAnything)
  {
    hide D.Downloader.Valid, D.Downloader.AllBusy, D.Downloader.OpenCount;
    d := dl.MakeDownload();
    dl.Heard(d);
    dl.GotUnchoke(d);
    Goes(dl);
  }

  /** The one block of piece 0. */
  const FIRST := D.Block(0, 0, 1)

  /** A peer that has only piece 0 and is asked for one block is asked for that one. */
  lemma AskedFirst(dl: D.Downloader, d: D.SingleDownload)
    requires Going(dl) && dl.storage.g.pieceSize == 1 && d in dl.downloads && d.have == [true, false] && |d.activeRequests| == 1
    ensures d.activeRequests == [FIRST]
  {
    hide D.Downloader.PartsOk, D.Downloader.AllBusy, W.StorageWrapper.Inv, Tiling;
    var b := d.activeRequests[0];
    dl.Unpack();
    dl.StorageValid();
    dl.PeerFacts(d);
    assert b in d.activeRequests;
    dl.OutsideEndgame();
    assert d in dl.downloads && dl.Asked(d, b);
    assert dl.Outstanding(b);
    dl.storage.IssuedIsTile(b.index, (b.begin, b.length));
    OneTile(dl.storage);
  }

  /** A peer announces piece 0; if it is still open, the peer is asked for its block. */
  method Announce(dl: D.Downloader, d: D.SingleDownload, i: nat)
    requires Going(dl) && d in dl.downloads && !d.choked && d.gotAnything && i < 2 && |d.have| == 2 && !d.have[i]
    requires i == 1 ==> |d.activeRequests| == 1
    modifies dl, dl.downloads, dl.storage, dl.picker
    ensures Going(dl) && dl.downloads == old(dl.downloads) && d.have == old(d.have)[i := true]
    ensures dl.storage.arrived == old(dl.storage.arrived)
    ensures i == 0 ==> dl.OpenCount(0) == Max(old(dl.OpenCount(0) + |d.activeRequests|) - 1, 0)
    ensures i == 1 ==> (dl.OpenCount(0) == 0 <==> old(dl.OpenCount(0)) == 0) && |d.activeRequests| == 1
    ensures |d.activeRequests| == old(|d.activeRequests| + dl.OpenCount(i)) - dl.OpenCount(i)
    ensures old(d.activeRequests) <= d.activeRequests
    ensures forall e :: e in dl.downloads && e != d ==> e.activeRequests == old(e.activeRequests)
    ensures forall e :: e in dl.downloads ==>
              e.choked == old(e.choked) && e.gotAnything == old(e.gotAnything) && (e != d ==> e.have == old(e.have))
  {
    hide D.Downloader.Valid, D.Downloader.AllBusy, D.Downloader.OpenCount;
    Goes(dl);
    dl.GotHave(d, i);
    Goes(dl);
  }

  lemma Started(dl: D.Downloader)
    requires dl.downloads == []
    ensures dl.AllBusy()
  {
  }

  /** Peer d has both pieces, and brings the block of piece 0 that it was asked for. It is bad, and peer
      e, which has only that piece, is the first to be asked for it again. Then d has nothing to do and
      is told that we are not interested, though it has a piece that can be handed out. */
  method SenderLeftOut() returns (dl: D.Downloader, d: D.SingleDownload)
    ensures dl.Valid() && d in dl.downloads && !d.choked && d.activeRequests == []
    ensures !d.interested && !dl.OnlyWants(d, []) && !dl.AllBusy()
  {
    hide Going, D.Downloader.OpenCount, D.Downloader.AllBusy, D.Downloader.OnlyWants, D.Downloader.Valid;
    dl, d := OneAsked();
    var e := Join(dl);
    Announce(dl, e, 0);
    BringBad(dl, d, e);
  }

  method OneAsked() returns (dl: D.Downloader, d: D.SingleDownload)
    ensures fresh(dl) && fresh(dl.storage) && fresh(dl.storage.storage) && fresh(dl.picker) && fresh(d)
    ensures Going(dl) && dl.storage.g.pieceSize == 1 && dl.downloads == [d] && !d.choked && d.have == [true, true]
    ensures d.activeRequests == [FIRST]
    ensures dl.OpenCount(0) == 0
  {
    hide Going, D.Downloader.OpenCount, D.Downloader.AllBusy, D.Downloader.Valid;
    dl := Start(1);
    Started(dl);
    GoingIs(dl);
    d := Join(dl);
    Announce(dl, d, 0);
    AskedFirst(dl, d);
    Announce(dl, d, 1);
  }

  method BringBad(dl: D.Downloader, d: D.SingleDownload, e: D.SingleDownload)
    requires Going(dl) && dl.downloads == [d, e] && d != e && !d.choked && !e.choked
    requires d.have == [true, true] && e.have == [true, false] && d.activeRequests == [FIRST] && e.activeRequests == []
    requires dl.storage.g.pieceSize == 1 && dl.OpenCount(0) == 0
    modifies dl, dl.downloads, dl.storage, dl.storage.storage, dl.picker
    ensures dl.Valid() && dl.downloads == [d, e] && !d.choked && d.activeRequests == []
    ensures !d.interested && !dl.OnlyWants(d, []) && !dl.AllBusy()
  {
    hide D.Downloader.Valid, D.Downloader.AllBusy, D.Downloader.OpenCount, D.Downloader.OnlyWants, D.Downloader.Wants;
    Goes(dl);
    FirstIsLast(dl);
    Bypassing(dl, d, e);
    var whole := dl.GotPiece(d, 0, 0, [7], [e, d]);
    Goes(dl);
    Idle(dl, d);
  }

  lemma Idle(dl: D.Downloader, d: D.SingleDownload)
    requires dl.Valid() && d in dl.downloads && !d.interested
    ensures d.activeRequests == []
  {
    dl.Unpack();
    dl.PeerFacts(d);
  }

  lemma FirstIsLast(dl: D.Downloader)
    requires Going(dl) && dl.storage.g.pieceSize == 1 && dl.OpenCount(0) == 0
    ensures dl.LastBlock(FIRST)
  {
    hide D.Downloader.PartsOk, D.Downloader.AllBusy, D.Downloader.PeersOk, D.Downloader.Mode, W.StorageWrapper.Inv, Tiling;
    Goes(dl);
    dl.Unpack();
    dl.StorageValid();
    OneTile(dl.storage);
    forall x | dl.Outstanding(x) && x.index == 0 ensures x == FIRST {
      dl.storage.IssuedIsTile(x.index, (x.begin, x.length));
    }
  }

  lemma Bypassing(dl: D.Downloader, d: D.SingleDownload, e: D.SingleDownload)
    requires Going(dl) && dl.storage.g.pieceSize == 1 && dl.downloads == [d, e] && d != e && !d.choked && !e.choked
    requires d.have == [true, true] && e.have == [true, false] && d.activeRequests == [FIRST] && e.activeRequests == []
    ensures dl.IsOrder([e, d]) && dl.Bypassed([e, d], d, 0) && !dl.OnlyWants(d, [])
  {
    Goes(dl);
    OneTile(dl.storage);
    assert dl.Wants(d, 1);
    assert dl.Ahead([e, d], d) == [e];
    assert dl.Spares([e], 0) == [1] && dl.Requests(0) == 1;
  }

  lemma GoingIs(dl: D.Downloader)
    requires dl.Valid() && dl.backlog == 1 && Unfinishable(dl.storage) && !dl.storage.endgame && dl.AllBusy()
    requires dl.OpenCount(1) > 0 && |dl.downloads| <= 2
    ensures Going(dl)
  {
  }

  // ---- scans that overlook pieces ----

  /** Three pieces of two, two and one bytes. The last two have the same hash, which is that of the bytes
      2, 2; hashes are the data themselves. */
  ghost predicate SameHash(w: W.StorageWrapper) {
    && w.g == Geometry(3, 2, 5) && w.hashes == [[1], [2, 2], [2, 2]] && forall s :: w.sha(s) == s
  }

  /** Slot 0 was on disk and holds piece 1, nothing else was on disk; yet piece 1 is not had after the scan. */
  method Overlooked() returns (w: W.StorageWrapper)
    ensures w.Valid() && SameHash(w) && w.Pre(0) && !w.Pre(1) && !w.Pre(2)
    ensures w.sha(BytesAt(w.storage.Cells(), w.g.Home(0), w.g.PieceLen(0))) == w.hashes[1]
    ensures w.g.PieceLen(0) == w.g.PieceLen(1) && |w.have| == 3 && !w.have[1]
  {
    hide W.StorageWrapper.Inv;
    assert S.Layout([("file", 5)][..0]) == [];
    var disk := new S.Storage([("file", 5)], map["file" := [2, 2]]);
    var r := W.StorageWrapper.Create(disk, 1, [[1], [2, 2], [2, 2]], 2, s => s);
    w := r.value;
    HalfThere(w.storage);
    OnlyFirst(w);
    Overlooks(w);
  }

  /** Two pieces of one byte each that lie complete in each other's slot: neither is had after the scan,
      and no list is blocked. */
  method Swapped() returns (w: W.StorageWrapper)
    ensures w.Valid() && w.g == Geometry(2, 1, 2) && w.hashes == [[1], [2]] && w.Pre(0) && w.Pre(1)
    ensures w.sha(BytesAt(w.storage.Cells(), w.g.Home(0), w.g.PieceLen(0))) == w.hashes[1]
    ensures w.sha(BytesAt(w.storage.Cells(), w.g.Home(1), w.g.PieceLen(1))) == w.hashes[0]
    ensures |w.have| == 2 && !w.have[0] && !w.have[1] && forall h :: !Scan.Blocked(w.g, w.PreSlots(), w.hashes, h)
  {
    hide W.StorageWrapper.Inv, W.StorageWrapper.Thorough, W.StorageWrapper.Unstarted;
    assert S.Layout([("file", 2)][..0]) == [];
    var disk := new S.Storage([("file", 2)], map["file" := [2, 1]]);
    var r := W.StorageWrapper.Create(disk, 1, [[1], [2]], 1, s => s);
    w := r.value;
    BothThere(w.storage);
    assert w.Judged(0) && w.Judged(1);
    NeitherHad(w);
  }

  lemma NeitherHad(w: W.StorageWrapper)
    requires w.DiskOk() && w.g == Geometry(2, 1, 2) && w.hashes == [[1], [2]] && forall s :: w.sha(s) == s
    requires w.storage.Cells() == [S.Data(2), S.Data(1)] && forall k :: 0 <= k < 2 ==> w.storage.WasBacked(k)
    requires |w.have| == 2 && w.Judged(0) && w.Judged(1)
    ensures w.Pre(0) && w.Pre(1) && !w.have[0] && !w.have[1]
    ensures BytesAt(w.storage.Cells(), w.g.Home(0), w.g.PieceLen(0)) == [2]
    ensures BytesAt(w.storage.Cells(), w.g.Home(1), w.g.PieceLen(1)) == [1]
  {
    assert BytesAt(w.storage.Cells(), 0, 1) == [2] && BytesAt(w.storage.Cells(), 1, 1) == [1];
  }

  lemma BothThere(s: S.Storage)
    requires s.Valid() && s.ranges == [S.Range(0, 2, "file")] && s.totalLength == 2
    requires forall k :: 0 <= k < 2 ==> s.Cells()[k] == S.CellAt(map["file" := [2, 1]], S.Locate(s.ranges, 2, k))
    ensures s.Cells() == [S.Data(2), S.Data(1)]
  {
    forall k | 0 <= k < 2 ensures S.Locate(s.ranges, 2, k) == S.Position("file", k) {
      S.RangeOfUnique(s.ranges, 2, 0, k);
    }
  }

  lemma HalfThere(s: S.Storage)
    requires s.Valid() && s.ranges == [S.Range(0, 5, "file")] && s.totalLength == 5
    requires forall k :: 0 <= k < 5 ==> s.Cells()[k] == S.CellAt(map["file" := [2, 2]], S.Locate(s.ranges, 5, k))
    ensures s.Cells()[0] == s.Cells()[1] == S.Data(2) && forall k :: 2 <= k < 5 ==> s.Cells()[k] == S.Missing
  {
    forall k | 0 <= k < 5 ensures S.Locate(s.ranges, 5, k) == S.Position("file", k) {
      S.RangeOfUnique(s.ranges, 5, 0, k);
    }
  }

  lemma OnlyFirst(w: W.StorageWrapper)
    requires w.DiskOk() && SameHash(w)
    requires forall k :: 0 <= k < 5 ==> (w.storage.WasBacked(k) <==> k < 2)
    requires w.storage.Cells()[0] == w.storage.Cells()[1] == S.Data(2)
    ensures w.Pre(0) && !w.Pre(1) && !w.Pre(2) && w.g.PieceLen(0) == w.g.PieceLen(1) == 2
    ensures BytesAt(w.storage.Cells(), w.g.Home(0), w.g.PieceLen(0)) == [2, 2]
  {
    assert !w.storage.WasBacked(2) && !w.storage.WasBacked(4);
  }

  lemma Overlooks(w: W.StorageWrapper)
    requires w.DiskOk() && w.Sizes() && w.Thorough() && SameHash(w) && !w.Pre(1) && !w.Pre(2)
    ensures !w.have[1]
  {
    var h: seq<byte> := [2, 2];
    assert Scan.Blocked(w.g, w.PreSlots(), w.hashes, h);
    assert Scan.AllFound(w.g, w.PreSlots(), w.hashes, w.Found(), w.have, h);
    assert 1 in Scan.Absent(w.g, w.PreSlots(), w.hashes, h);
    assert w.have[1] <==> 1 in Scan.Got(w.g, w.PreSlots(), w.hashes, w.have, h);
  }

  // ---- a choking peer that is left untold ----

  /** A new peer that chokes us. */
  method JoinChoking(dl: D.Downloader) returns (e: D.SingleDownload)
    requires Going(dl) && |dl.downloads| < 2
    modifies dl, dl.downloads, dl.storage, dl.picker
    ensures Going(dl) && fresh(e) && dl.downloads == old(dl.downloads) + [e]
    ensures e.choked && !e.interested && e.gotAnything && e.activeRequests == [] && e.have == [false, false]
    ensures dl.storage.arrived == old(dl.storage.arrived) && dl.OpenCount(0) == old(dl.OpenCount(0))
    ensures forall f :: f in old(dl.downloads) ==>
              f.activeRequests == old(f.activeRequests) && f.have == old(f.have) && f.choked == old(f.choked)
  {
    hide D.Downloader.Valid, D.Downloader.AllBusy, D.Downloader.OpenCount;
    e := dl.MakeDownload();
    dl.Heard(e);
    Goes(dl);
  }

  /** It announces piece 0, of which nothing can be handed out: there is no reason to be interested. */
  method AnnounceChoking(dl: D.Downloader, e: D.SingleDownload)
    requires Going(dl) && e in dl.downloads && e.choked && !e.interested && e.gotAnything && e.have == [false, false]
    requires e.activeRequests == [] && dl.OpenCount(0) == 0
    modifies dl, dl.downloads, dl.storage, dl.picker
    ensures Going(dl) && dl.downloads == old(dl.downloads) && dl.OpenCount(0) == 0
    ensures e.have == [true, false] && e.choked && !e.interested && e.activeRequests == []
    ensures dl.storage.arrived == old(dl.storage.arrived)
    ensures forall f :: f in dl.downloads && f != e ==>
              f.activeRequests == old(f.activeRequests) && f.have == old(f.have) && f.choked == old(f.choked)
  {
    hide D.Downloader.Valid, D.Downloader.AllBusy, D.Downloader.OpenCount;
    Goes(dl);
    dl.GotHave(e, 0);
    Goes(dl);
  }

  /** Only piece 0 has been asked for, of the one peer d, and a byte of it has come in: then either the
      other byte is what d is asked for, or it can be handed out. */
  lemma OtherByte(dl: D.Downloader, d: D.SingleDownload, t: Tile)
    requires dl.Valid() && dl.backlog == 1 && Unfinishable(dl.storage) && !dl.storage.endgame && dl.storage.g.pieceSize == 2
    requires dl.downloads == [d] && d.have == [true, false] && CameIn(dl, map[t := [7]])
    ensures if d.activeRequests == [] then dl.OpenCount(0) > 0
            else |d.activeRequests| == 1 && d.activeRequests[0].index == 0 && dl.OpenCount(0) == 0
  {
    hide D.Downloader.PartsOk, D.Downloader.AllBusy, W.StorageWrapper.Inv, Tiling;
    dl.Unpack();
    dl.StorageValid();
    dl.PeerFacts(d);
    dl.OutsideEndgame();
    Goes(dl);
    TwoTiles(dl.storage);
    dl.storage.BlocksAccounted(0);
    assert t in dl.storage.arrived[0] && dl.storage.IsTile(0, t);
    var u: Tile := if t == (0, 1) then (1, 1) else (0, 1);
    assert dl.storage.IsTile(0, u) && forall x :: dl.storage.IsTile(0, x) <==> x == t || x == u;
    if d.activeRequests == [] {
      assert !dl.Outstanding(D.Block(0, u.0, u.1));
      assert u in dl.storage.Open(0);
    } else {
      var b := d.activeRequests[0];
      assert b in d.activeRequests && dl.Asked(d, b);
      assert dl.Outstanding(b);
      assert (b.begin, b.length) == u;
      assert dl.storage.Open(0) == {};
    }
  }

  lemma FirstByte(dl: D.Downloader, d: D.SingleDownload)
    requires Going(dl) && dl.storage.g.pieceSize == 2 && dl.downloads == [d] && d.have == [true, false]
    requires |d.activeRequests| == 1 && dl.OpenCount(0) > 0
    ensures var b := d.activeRequests[0]; b == D.Block(0, b.begin, 1) && !dl.LastBlock(b)
  {
    hide D.Downloader.PartsOk, D.Downloader.AllBusy, W.StorageWrapper.Inv, Tiling;
    var b := d.activeRequests[0];
    dl.Unpack();
    dl.StorageValid();
    dl.PeerFacts(d);
    assert b in d.activeRequests;
    dl.OutsideEndgame();
    assert dl.Asked(d, b);
    assert dl.Outstanding(b);
    dl.storage.IssuedIsTile(b.index, (b.begin, b.length));
    TwoTiles(dl.storage);
    Goes(dl);
  }

  lemma Idles(dl: D.Downloader, d: D.SingleDownload)
    requires dl.AllBusy() && d in dl.downloads && !d.choked && d.activeRequests == [] && d.have == [true, false] && dl.backlog == 1
    ensures !dl.Requestable(0)
  {
    dl.EachBusy();
    assert dl.WorkingBut(d, []);
    assert dl.Wants(d, 0) <==> dl.Requestable(0);
  }

  /** Peer d brings the byte of piece 0 that it was asked for, and is asked for the other. */
  method BringGood(dl: D.Downloader, d: D.SingleDownload)
    requires Going(dl) && dl.storage.g.pieceSize == 2 && dl.downloads == [d] && !d.choked && d.have == [true, false]
    requires |d.activeRequests| == 1 && dl.OpenCount(0) > 0 && CameIn(dl, map[])
    modifies dl, dl.downloads, dl.storage, dl.storage.storage, dl.picker
    ensures Going(dl) && dl.downloads == [d] && dl.OpenCount(0) == 0
    ensures |d.activeRequests| == 1 && d.have == [true, false] && !d.choked
    ensures exists t :: CameIn(dl, map[t := [7]])
  {
    hide D.Downloader.Valid, D.Downloader.AllBusy, D.Downloader.OpenCount, D.Downloader.LastBlock, D.Downloader.Wrote, D.Downloader.Disk;
    var b := d.activeRequests[0];
    FirstByte(dl, d);
    Goes(dl);
    assert dl.IsOrder([d]);
    var whole := dl.GotPiece(d, 0, b.begin, [7], [d]);
    Goes(dl);
    ghost var t: Tile := (b.begin, 1);
    assert CameIn(dl, map[t := [7]]);
    OtherByte(dl, d, t);
    if d.activeRequests == [] { Idles(dl, d); }
  }

  /** The other byte is the last of piece 0, which has two; d has no room for both, and e is not told. */
  lemma NoRoom(dl: D.Downloader, d: D.SingleDownload, e: D.SingleDownload)
    requires Going(dl) && dl.storage.g.pieceSize == 2 && dl.downloads == [d, e] && d != e && !d.choked && e.choked && !e.interested
    requires d.have == [true, false] && e.have == [true, false] && dl.OpenCount(0) == 0
    requires |d.activeRequests| == 1 && e.activeRequests == [] && exists t :: CameIn(dl, map[t := [7]])
    ensures var b := d.activeRequests[0]; b == D.Block(0, b.begin, 1) && dl.LastBlock(b)
    ensures dl.IsOrder([d]) && !dl.Recovers([d], d, 0) && !dl.Bypassed([d], d, 0)
  {
    hide D.Downloader.PartsOk, D.Downloader.AllBusy, W.StorageWrapper.Inv, Tiling;
    var b := d.activeRequests[0];
    dl.Unpack();
    dl.StorageValid();
    dl.PeerFacts(d);
    assert b in d.activeRequests;
    dl.OutsideEndgame();
    assert dl.Asked(d, b);
    assert dl.Outstanding(b);
    dl.storage.IssuedIsTile(b.index, (b.begin, b.length));
    TwoTiles(dl.storage);
    Goes(dl);
    forall x | dl.Outstanding(x) && x.index == 0 ensures x == b {
      var f :| f in dl.downloads && dl.Asked(f, x);
    }
    assert dl.Ahead([d], d) == [] && dl.Spares([], 0) == [] && dl.Spares([d], 0) == [0] && dl.Requests(0) == 2;
  }

  /** Peer d brings the two bytes of piece 0 one after the other. In between, e, which chokes us, announces
      that piece, and is not told of any interest, since nothing of it can be handed out. The piece is bad; d
      is asked for one byte of it again, and nobody for the other, nor is e told that it is wanted. */
  method UntoldLeft() returns (dl: D.Downloader, d: D.SingleDownload, e: D.SingleDownload)
    ensures dl.Valid() && dl.downloads == [d, e] && e.choked && e.have == [true, false] && !dl.AllBusy()
    ensures d.interested || dl.OnlyWants(d, [])
  {
    hide Going, D.Downloader.OpenCount, D.Downloader.AllBusy, D.Downloader.OnlyWants, D.Downloader.Valid;
    dl, d := Halfway();
    e := JoinChoking(dl);
    AnnounceChoking(dl, e);
    BringBadByte(dl, d, e);
  }

  method Halfway() returns (dl: D.Downloader, d: D.SingleDownload)
    ensures fresh(dl) && fresh(dl.storage) && fresh(dl.storage.storage) && fresh(dl.picker) && fresh(d)
    ensures Going(dl) && dl.storage.g.pieceSize == 2 && dl.downloads == [d] && dl.OpenCount(0) == 0
    ensures |d.activeRequests| == 1 && d.have == [true, false] && !d.choked
    ensures exists t :: CameIn(dl, map[t := [7]])
  {
    hide Going, D.Downloader.OpenCount, D.Downloader.AllBusy, D.Downloader.Valid;
    dl := Start(2);
    Started(dl);
    GoingIs(dl);
    d := Join(dl);
    Announce(dl, d, 0);
    BringGood(dl, d);
  }

  method BringBadByte(dl: D.Downloader, d: D.SingleDownload, e: D.SingleDownload)
    requires Going(dl) && dl.storage.g.pieceSize == 2 && dl.downloads == [d, e] && d != e && !d.choked && e.choked && !e.interested
    requires d.have == [true, false] && e.have == [true, false] && dl.OpenCount(0) == 0
    requires |d.activeRequests| == 1 && e.activeRequests == [] && exists t :: CameIn(dl, map[t := [7]])
    modifies dl, dl.downloads, dl.storage, dl.storage.storage, dl.picker
    ensures dl.Valid() && dl.downloads == [d, e] && e.choked && e.have == [true, false] && !dl.AllBusy()
    ensures d.interested || dl.OnlyWants(d, [])
  {
    hide D.Downloader.Valid, D.Downloader.AllBusy, D.Downloader.OpenCount, D.Downloader.OnlyWants, D.Downloader.LastBlock;
    hide D.Downloader.Recovers, D.Downloader.Bypassed, D.Downloader.Wrote, D.Downloader.Disk;
    var b := d.activeRequests[0];
    Goes(dl);
    NoRoom(dl, d, e);
    var whole := dl.GotPiece(d, 0, b.begin, [7], [d]);
    Goes(dl);
  }
}
