/** Downloading into scattered slots: pieces are stored wherever there is room, moved so that
    the finished download is in order, and checked against their hashes. */
module StorageWrapper {
  import opened Basics
  import opened Storage
  import opened Placement
  import opened Blocks
  import opened Scan

  class StorageWrapper {
    const storage: Storage
    const sha: seq<byte> -> Hash
    const requestSize: nat
    const hashes: seq<Hash>
    const g: Geometry

    var numactive: seq<int>
    var inactiveRequests: seq<Inactive>
    var amountInactive: int
    var amountLeft: int
    var endgame: bool
    var have: seq<bool>
    var waschecked: seq<bool>
    var places: Places
    var holes: seq<nat>
    /** How often finished() was called, and how many bytes data_flunked() was told of. */
    var finishedCalls: nat
    var flunkedBytes: nat

    /** Per piece: the requests handed out and not yet answered, and the data that has come in
        since the piece was last started. */
    ghost var issued: seq<set<Tile>>
    ghost var arrived: seq<Arrived>

    ghost predicate Valid()
      reads this, storage
    {
      Inv()
    }

    ghost predicate Inv()
      reads this, storage
    {
      DiskOk() && PlacesOk() && RecordsOk() && FinishedOk()
    }

    /** finished() has been called once if the download is complete, and never otherwise. */
    ghost predicate FinishedOk()
      reads this`finishedCalls, this`amountLeft
    {
      finishedCalls == if amountLeft == 0 then 1 else 0
    }

    ghost predicate RecordsOk()
      requires DiskOk()
      reads this, storage
    {
      Sizes() && BooksOk() && HashesOk() && SumsOk()
    }

    /** The storage underneath suits the geometry. */
    ghost predicate DiskOk()
      reads storage
    {
      g.Sized() && storage.Valid() && storage.totalLength == g.total && storage.ranges != []
    }

    ghost predicate Sizes()
      reads this`numactive, this`inactiveRequests, this`have, this`waschecked, this`issued, this`arrived
    {
      && requestSize > 0 && |hashes| == g.count
      && |numactive| == |inactiveRequests| == |have| == |waschecked| == |issued| == |arrived| == g.count
    }

    ghost predicate PlacesOk()
      requires DiskOk()
      reads this`places, this`holes, storage
    {
      Placed(g, places, holes) && Backed(g, storage.Cells(), places)
    }

    ghost predicate BooksOk()
      requires Sizes()
      reads this`numactive, this`inactiveRequests, this`have, this`waschecked, this`issued, this`arrived
    {
      && (forall i :: 0 <= i < g.count ==> PieceBooks(i))
      && (forall i :: 0 <= i < g.count ==> (have[i] <==> inactiveRequests[i].Had?))
    }

    ghost predicate PieceBooks(i: nat)
      requires Sizes() && i < g.count
      reads this`numactive, this`inactiveRequests, this`have, this`waschecked, this`issued, this`arrived
    {
      Books(g.PieceLen(i), requestSize, inactiveRequests[i], issued[i], arrived[i], numactive[i])
    }

    /** Every piece marked as had is right, and every arrived block is in place. */
    ghost predicate HashesOk()
      requires DiskOk()
      reads this`places, this`have, this`waschecked, this`arrived, storage
    {
      HashesAt(storage.Cells(), places)
    }

    ghost predicate HashesAt(cells: seq<Cell>, places: Places)
      reads this`have, this`waschecked, this`arrived
    {
      && |waschecked| == |arrived| == |have| == |hashes| == g.count
      && (forall i :: 0 <= i < g.count && have[i] ==> RightPiece(cells, places, i) && waschecked[i])
      && (forall i :: 0 <= i < g.count && arrived[i] != map[] ==> InPlace(cells, places, i, arrived[i]))
    }

    ghost predicate RightPiece(cells: seq<Cell>, places: Places, i: nat)
      requires i < |hashes|
    {
      i in places && sha(Content(g, cells, places, i)) == hashes[i]
    }

    /** The given data is where it belongs in piece i. */
    ghost predicate InPlace(cells: seq<Cell>, places: Places, i: nat, a: Arrived) {
      i in places && Agrees(Content(g, cells, places, i), a)
    }

    /** Every piece marked as had still has its bytes. */
    ghost predicate HadRight()
      requires DiskOk()
      reads this`places, this`have, storage
    {
      && |have| == |hashes| == g.count
      && forall i :: 0 <= i < g.count && have[i] ==> RightPiece(storage.Cells(), places, i)
    }

    ghost predicate SumsOk()
      reads this`amountInactive, this`amountLeft, this`inactiveRequests, this`have
    {
      amountInactive == Sum(InactiveAmounts(inactiveRequests)) && amountLeft == Sum(LeftAmounts(have))
    }

    ghost function InactiveAmounts(inactive: seq<Inactive>): seq<int> {
      seq(|inactive|, i requires 0 <= i < |inactive| => inactive[i].Amount(g.PieceLen(i)))
    }

    ghost function LeftAmounts(have: seq<bool>): seq<int> {
      seq(|have|, i requires 0 <= i < |have| => if have[i] then 0 else g.PieceLen(i))
    }

    // ---- start-up ----

    /** The whole of slot i was on disk before the download started. */
    ghost predicate Pre(i: nat) {
      forall k :: g.Home(i) <= k < g.Home(i) + g.PieceLen(i) ==> storage.WasBacked(k)
    }

    ghost function PreSlots(): set<nat> {
      set i: nat | i < g.count && Pre(i)
    }

    /** Raises ValueError for a total length that does not suit the number of hashes. */
    static method Create(storage: Storage, requestSize: nat, hashes: seq<Hash>, pieceSize: nat, sha: seq<byte> -> Hash)
      returns (r: Result<StorageWrapper, string>)
      requires storage.Valid() && storage.ranges != [] && requestSize > 0 && pieceSize > 0 && |hashes| > 0
      ensures r.Ok? <==> Geometry(|hashes|, pieceSize, storage.totalLength).Sized()
      ensures r.Ok? ==> fresh(r.value) && r.value.Valid() && r.value.storage == storage && r.value.Started()
      ensures r.Ok? ==> r.value.hashes == hashes && r.value.sha == sha && r.value.requestSize == requestSize
      ensures r.Ok? ==> r.value.g == Geometry(|hashes|, pieceSize, storage.totalLength)
    {
      var total := storage.GetTotalLength();
      if total <= pieceSize * (|hashes| - 1) { return Err("bad data from tracker - total too small"); }
      if total > pieceSize * |hashes| { return Err("bad data from tracker - total too big"); }
      var w := new StorageWrapper(storage, requestSize, hashes, pieceSize, sha);
      return Ok(w);
    }

    /** What the scan of an existing download leaves behind: the slots in use are those that were on
        disk, nothing is outstanding, a piece whose own slot was on disk has been judged by that slot
        alone, and the others have been looked for in the slots there were. */
    ghost predicate Started()
      reads this, storage
    {
      && DiskOk() && Sizes()
      && (forall s: nat :: s < g.count ==> (s in places.Values <==> Pre(s)))
      && (forall i :: 0 <= i < g.count ==> Unstarted(i) && Judged(i))
      && (forall i :: 0 <= i < g.count && i in places && !have[i] ==> places[i] == i)
      && Thorough() && !endgame && flunkedBytes == 0 && finishedCalls == if amountLeft == 0 then 1 else 0
    }

    /** The hash of the whole of each slot. */
    ghost function Found(): seq<Hash>
      requires DiskOk()
      reads storage
    {
      var cells := storage.Cells();
      seq(g.count, s requires 0 <= s < g.count => sha(BytesAt(cells, g.Home(s), g.PieceLen(s))))
    }

    /** The hash of as much of each slot as the last piece would fill. */
    ghost function Heads(): seq<Hash>
      requires DiskOk()
      reads storage
    {
      var cells := storage.Cells();
      seq(g.count, s requires 0 <= s < g.count => sha(BytesAt(cells, g.Home(s), g.PieceLen(g.count - 1))))
    }

    /** A piece whose own slot was on disk is had exactly if that is where it lies: it is not looked for
        anywhere else. */
    ghost predicate Judged(i: nat)
      requires DiskOk() && i < |have| && i < |hashes|
      reads this`have, this`places, storage
    {
      Pre(i) ==>
        && (have[i] <==> sha(BytesAt(storage.Cells(), g.Home(i), g.PieceLen(i))) == hashes[i])
        && (have[i] ==> i in places && places[i] == i)
    }

    /** The pieces whose own slots were not on disk have been found in others, as many as there were slots
        to find them in; and no slot was left unrecognised that one of them was still wanted from. */
    ghost predicate Thorough()
      requires DiskOk() && |have| == |hashes| == g.count
      reads this`have, this`places, storage
    {
      && (forall h :: AllFound(g, PreSlots(), hashes, Found(), have, h))
      && NothingLost(g, PreSlots(), hashes, Found(), Heads(), have, places, g.count)
    }

    /** How far the scan has got in finding pieces, after the slots below i. */
    ghost predicate Finds(targets: Targets, i: nat)
      requires DiskOk()
      reads this`have, this`places, storage
    {
      && |have| == |hashes| == g.count && i <= g.count
      && Searched(g, PreSlots(), hashes, Found(), Heads(), have, places, targets, i)
    }

    ghost predicate Unstarted(i: nat)
      requires Sizes() && i < g.count
      reads this`numactive, this`inactiveRequests, this`have, this`waschecked, this`issued, this`arrived
    {
      && issued[i] == {} && arrived[i] == map[] && numactive[i] == 0
      && inactiveRequests[i] == (if have[i] then Had else Untouched) && waschecked[i]
    }

    /** A slot whose bytes have their own piece's hash is taken to be that piece. */
    ghost predicate Recognised(i: nat)
      requires DiskOk() && i < |have| && i < |hashes|
      reads this`have, this`places, storage
    {
      Pre(i) && sha(BytesAt(storage.Cells(), g.Home(i), g.PieceLen(i))) == hashes[i] ==>
        have[i] && i in places && places[i] == i
    }

    constructor (storage: Storage, requestSize: nat, hashes: seq<Hash>, pieceSize: nat, sha: seq<byte> -> Hash)
      requires storage.Valid() && storage.ranges != [] && requestSize > 0
      requires Geometry(|hashes|, pieceSize, storage.totalLength).Sized()
      ensures Valid() && Started()
      ensures this.storage == storage && this.requestSize == requestSize && this.hashes == hashes && this.sha == sha
      ensures g == Geometry(|hashes|, pieceSize, storage.totalLength)
    {
      var n := |hashes|;
      this.storage, this.requestSize, this.hashes, this.sha := storage, requestSize, hashes, sha;
      g := Geometry(n, pieceSize, storage.totalLength);
      numactive := seq(n, _ => 0);
      inactiveRequests := seq(n, _ => Untouched);
      amountInactive, amountLeft, endgame := storage.totalLength, storage.totalLength, false;
      have, waschecked := seq(n, _ => false), seq(n, _ => true);
      places, holes := map[], [];
      finishedCalls, flunkedBytes := 0, 0;
      issued, arrived := seq(n, _ => {}), seq(n, _ => map[]);
      new;
      NothingHad();
      ScanStart(g, PreSlots(), have);
      CheckExisting();
    }

    /** The body of the constructor's scan. */
    method CheckExisting()
      requires ScanCore(0) && places == map[] && finishedCalls == 0 && !endgame && flunkedBytes == 0
      modifies this
      ensures Valid() && Started()
    {
      hide Wants, Finds, ScanCore, Started, Inv, DiskOk, Searched;
      var targets := FindTargets();
      for i := 0 to g.count
        invariant ScanCore(i) && Wants(targets) && DiskOk() && Finds(targets, i)
        invariant finishedCalls == 0 && !endgame && flunkedBytes == 0
      {
        targets := ScanSlot(i, targets);
      }
      if amountLeft == 0 {
        finishedCalls := finishedCalls + 1;
      }
      ScanFound(targets);
      ScanDone();
    }

    lemma ScanFound(targets: Targets)
      requires DiskOk() && Wants(targets) && Finds(targets, g.count)
      ensures |have| == |hashes| == g.count && Thorough()
    {
      SearchOver(g, PreSlots(), hashes, Found(), Heads(), have, places, targets);
    }

    /** All piece lengths together make the total. */
    lemma NothingHad()
      requires g.Sized()
      requires |have| == |inactiveRequests| == g.count
      requires forall i :: 0 <= i < g.count ==> !have[i] && inactiveRequests[i] == Untouched
      ensures Sum(LeftAmounts(have)) == g.total && Sum(InactiveAmounts(inactiveRequests)) == g.total
    {
      LengthsSum(g.count);
      assert LeftAmounts(have) == Lengths(g.count);
      assert InactiveAmounts(inactiveRequests) == Lengths(g.count);
    }

    ghost function Lengths(n: nat): seq<int> {
      seq(n, i requires 0 <= i < n => g.PieceLen(i))
    }

    lemma {:induction false} LengthsSum(n: nat)
      requires g.Sized() && n <= g.count
      ensures Sum(Lengths(n)) == if n == g.count then g.total else g.pieceSize * n
    {
      if n > 0 {
        LengthsSum(n - 1);
        OneTimesMore(g.pieceSize, n);
        hide Sum;
        assert Lengths(n) == Lengths(n - 1) + [g.PieceLen(n - 1)];
        SumAppend(Lengths(n - 1), [g.PieceLen(n - 1)]);
      }
    }

    static lemma OneTimesMore(a: int, n: int)
      ensures a * n == a * (n - 1) + a
    {
    }

    /** The pieces not on disk in their own slot, by hash. */
    method FindTargets() returns (targets: Targets)
      requires ScanCore(0) && places == map[]
      ensures Wants(targets) && DiskOk() && Finds(targets, 0)
      ensures Listing(g, PreSlots(), hashes, targets, g.count)
    {
      hide Listing, ScanCore, DiskOk, Pre, Wants, Finds;
      Opened();
      targets := map[];
      assert Listing(g, PreSlots(), hashes, targets, 0) by { ListingStart(g, PreSlots(), hashes); }
      for i := 0 to g.count
        invariant Listing(g, PreSlots(), hashes, targets, i)
      {
        var pre := WasPre(i);
        if pre {
          ListingSkip(g, PreSlots(), hashes, targets, i);
        } else {
          ListingMore(g, PreSlots(), hashes, targets, i);
          var h := hashes[i];
          targets := targets[h := (if h in targets then targets[h] else []) + [i]];
        }
      }
      FindsStart(targets);
    }

    lemma Opened()
      requires ScanCore(0)
      ensures DiskOk() && g.count > 0 && |hashes| == |have| == g.count
    {
    }

    lemma FindsStart(targets: Targets)
      requires ScanCore(0) && places == map[] && DiskOk() && |hashes| == g.count && Listing(g, PreSlots(), hashes, targets, g.count)
      ensures Wants(targets) && Finds(targets, 0)
    {
      assert forall p :: 0 <= p < g.count && have[p] ==> p in places;
      SearchStart(g, PreSlots(), hashes, Found(), Heads(), have, targets);
    }

    /** Where the scan stands once it has looked at the slots below i. */
    ghost predicate ScanCore(i: nat)
      reads this`numactive, this`inactiveRequests, this`have, this`waschecked, this`issued, this`arrived
      reads this`places, this`holes, this`amountInactive, this`amountLeft, storage
    {
      && DiskOk() && Sizes() && i <= g.count
      && Scanned(g, PreSlots(), have, places, holes, i)
      && SumsOk() && HadRight() && Backed(g, storage.Cells(), places) && AllUnstarted() && RecognisedBelow(i)
    }

    ghost predicate AllUnstarted()
      requires Sizes()
      reads this`numactive, this`inactiveRequests, this`have, this`waschecked, this`issued, this`arrived
    {
      forall p :: 0 <= p < g.count ==> Unstarted(p)
    }

    ghost predicate RecognisedBelow(i: nat)
      requires DiskOk() && |have| == |hashes| == g.count && i <= g.count
      reads this`have, this`places, storage
    {
      forall s :: 0 <= s < i ==> Recognised(s)
    }

    ghost predicate Wants(targets: Targets)
      reads this`places
    {
      && g.count > 0 && |hashes| == g.count
      && Wanted(g, PreSlots(), hashes, places, targets) && LastWanted(g, PreSlots(), hashes, places, targets)
    }

    lemma ScanDone()
      requires ScanCore(g.count) && DiskOk() && |have| == |hashes| == g.count && Thorough()
      requires !endgame && flunkedBytes == 0 && finishedCalls == if amountLeft == 0 then 1 else 0
      ensures Valid() && Started()
    {
      ScanPlaced();
      UnstartedBooks();
      forall i | 0 <= i < g.count ensures Judged(i) {
        assert Recognised(i);
        JudgedBy(i);
      }
      hide Judged, DiskOk, Sizes, Placed, BooksOk, HashesOk, SumsOk, PieceBooks, Unstarted, Recognised, AllFound, NothingLost, Pre, Geometry.Sized, Scanned;
      Pack();
      assert AllUnstarted() && RecognisedBelow(g.count);
    }

    lemma ScanPlaced()
      requires ScanCore(g.count)
      ensures PlacesOk() && g.Sized()
      ensures forall s: nat :: s < g.count ==> (s in places.Values <==> Pre(s))
      ensures forall i :: 0 <= i < g.count && i in places && !have[i] ==> places[i] == i
      ensures forall i :: 0 <= i < g.count && have[i] && Pre(i) ==> i in places && places[i] == i
    {
      ScanEnd(g, PreSlots(), have, places, holes);
    }

    lemma JudgedBy(i: nat)
      requires DiskOk() && HadRight() && i < g.count && Recognised(i)
      requires have[i] && Pre(i) ==> i in places && places[i] == i
      ensures Judged(i)
    {
      assert have[i] ==> RightPiece(storage.Cells(), places, i);
    }

    lemma UnstartedBooks()
      requires DiskOk() && Sizes() && AllUnstarted() && HadRight()
      ensures BooksOk() && HashesOk()
    {
      forall i | 0 <= i < g.count
        ensures PieceBooks(i) && (have[i] <==> inactiveRequests[i].Had?) && waschecked[i] && arrived[i] == map[]
      {
        assert Unstarted(i);
        g.SlotBounds(i);
      }
    }

    /** markgot: piece, found at slot pos, is had. */
    method MarkGot(piece: nat, pos: nat)
      requires DiskOk() && Sizes() && SumsOk() && HadRight() && Backed(g, storage.Cells(), places) && AllUnstarted()
      requires piece < g.count && pos < g.count && piece !in places && !have[piece]
      requires SlotBacked(g, storage.Cells(), pos)
      requires sha(BytesAt(storage.Cells(), g.Home(pos), g.PieceLen(piece))) == hashes[piece]
      modifies this`places, this`have, this`amountLeft, this`amountInactive, this`inactiveRequests, this`waschecked
      ensures Sizes() && SumsOk() && HadRight() && Backed(g, storage.Cells(), places) && AllUnstarted()
      ensures places == old(places)[piece := pos] && have == old(have)[piece := true]
    {
      hide Storage.Inv, Geometry.Home, Geometry.PieceLen, Geometry.Sized, SlotBacked, BytesAt;
      HadSums(piece);
      assert Unstarted(piece);
      places := places[piece := pos];
      have := have[piece := true];
      amountLeft := amountLeft - g.PieceLen(piece);
      amountInactive := amountInactive - g.PieceLen(piece);
      inactiveRequests := inactiveRequests[piece := Had];
      waschecked := waschecked[piece := true];
      forall i | 0 <= i < g.count ensures Unstarted(i) {
        assert old(Unstarted(i));
      }
      assert forall i :: 0 <= i < g.count && have[i] && i != piece ==> RightPiece(storage.Cells(), old(places), i);
    }

    lemma HadSums(piece: nat)
      requires Sizes() && piece < g.count
      ensures Sum(LeftAmounts(have[piece := true])) == Sum(LeftAmounts(have)) - LeftAmounts(have)[piece]
      ensures Sum(InactiveAmounts(inactiveRequests[piece := Had]))
           == Sum(InactiveAmounts(inactiveRequests)) - InactiveAmounts(inactiveRequests)[piece]
    {
      SumUpdate(LeftAmounts(have), piece, 0);
      SumUpdate(InactiveAmounts(inactiveRequests), piece, 0);
      assert LeftAmounts(have[piece := true]) == LeftAmounts(have)[piece := 0];
      assert InactiveAmounts(inactiveRequests[piece := Had]) == InactiveAmounts(inactiveRequests)[piece := 0];
    }

    /** markgot within the scan: slot i holds piece p. */
    method GiveSlot(p: nat, i: nat)
      requires ScanCore(i) && i < g.count && i in PreSlots() && SlotBacked(g, storage.Cells(), i)
      requires p < g.count && Fits(g, p, i) && (p == i || (p !in PreSlots() && p !in places))
      requires sha(BytesAt(storage.Cells(), g.Home(i), g.PieceLen(p))) == hashes[p]
      requires p != i ==> sha(BytesAt(storage.Cells(), g.Home(i), g.PieceLen(i))) != hashes[i]
      modifies this`places, this`have, this`amountLeft, this`amountInactive, this`inactiveRequests, this`waschecked
      ensures ScanCore(i + 1) && places == old(places)[p := i] && have == old(have)[p := true]
    {
      hide Storage.Inv, Geometry.Home, Geometry.PieceLen, Geometry.Sized, SlotBacked, BytesAt, Scanned, Fits;
      ScanGive(g, PreSlots(), have, have[p := true], places, holes, i, p);
      MarkGot(p, i);
      forall s | 0 <= s < i + 1 ensures Recognised(s) {
        assert s < i ==> old(Recognised(s));
      }
    }

    /** The last branch of the scan: nothing is recognised in slot i. */
    method KeepUnknown(i: nat)
      requires ScanCore(i) && i < g.count && i in PreSlots() && SlotBacked(g, storage.Cells(), i)
      requires sha(BytesAt(storage.Cells(), g.Home(i), g.PieceLen(i))) != hashes[i]
      modifies this`places
      ensures ScanCore(i + 1) && places == old(places)[i := i]
    {
      hide Storage.Inv, Geometry.Home, Geometry.PieceLen, Geometry.Sized, SlotBacked, BytesAt, Scanned;
      ScanGive(g, PreSlots(), have, have, places, holes, i, i);
      places := places[i := i];
      assert forall q :: 0 <= q < g.count && have[q] ==> RightPiece(storage.Cells(), old(places), q);
      forall s | 0 <= s < i + 1 ensures Recognised(s) {
        assert s < i ==> old(Recognised(s));
      }
    }

    /** Reads a stretch all of which is there. */
    method ReadBytes(pos: nat, amount: nat) returns (data: seq<byte>)
      requires DiskOk() && pos + amount <= g.total && AllData(storage.Cells(), pos, pos + amount)
      ensures data == BytesAt(storage.Cells(), pos, amount)
    {
      hide Storage.Inv;
      data := storage.Read(pos, amount);
    }

    static lemma BytesJoin(cells: seq<Cell>, lo: nat, m: nat, n: nat)
      requires m <= n
      ensures BytesAt(cells, lo, m) + BytesAt(cells, lo + m, n - m) == BytesAt(cells, lo, n)
    {
    }

    lemma SlotParts(i: nat)
      requires DiskOk() && i < g.count && SlotBacked(g, storage.Cells(), i)
      ensures 0 < g.PieceLen(g.count - 1) <= g.PieceLen(i) && g.Home(i) + g.PieceLen(i) <= g.total
      ensures AllData(storage.Cells(), g.Home(i), g.Home(i) + g.PieceLen(g.count - 1))
      ensures AllData(storage.Cells(), g.Home(i) + g.PieceLen(g.count - 1), g.Home(i) + g.PieceLen(i))
    {
      g.SlotBounds(i);
      g.SlotBounds(g.count - 1);
    }

    /** sp and s of the scan: the hash of as much of slot i as a last piece would fill, and of all of it. */
    method HashSlot(i: nat) returns (sp: Hash, s: Hash)
      requires DiskOk() && i < g.count && SlotBacked(g, storage.Cells(), i)
      ensures sp == sha(BytesAt(storage.Cells(), g.Home(i), g.PieceLen(g.count - 1)))
      ensures s == sha(BytesAt(storage.Cells(), g.Home(i), g.PieceLen(i)))
    {
      SlotParts(i);
      hide DiskOk, Geometry.Home, Geometry.PieceLen, Geometry.Sized, SlotBacked, AllData, BytesAt;
      var lastlen := g.PieceLen(g.count - 1);
      var head := ReadBytes(g.Home(i), lastlen);
      var tail := ReadBytes(g.Home(i) + lastlen, g.PieceLen(i) - lastlen);
      BytesJoin(storage.Cells(), g.Home(i), lastlen, g.PieceLen(i));
      sp, s := sha(head), sha(head + tail);
    }

    /** One round of the scan: decides what slot i holds. */
    method ScanSlot(i: nat, targets: Targets) returns (left: Targets)
      requires ScanCore(i) && Wants(targets) && i < g.count && Finds(targets, i)
      modifies this`places, this`holes, this`have, this`amountLeft, this`amountInactive
      modifies this`inactiveRequests, this`waschecked
      ensures ScanCore(i + 1) && Wants(left) && Finds(left, i + 1)
    {
      hide Storage.Inv, Geometry.Home, Geometry.Sized, Scanned, SlotBacked, Wanted, LastWanted, Recognised, HadRight, SumsOk, BytesAt,
        Searched, Entry, Rest;
      var pre := WasPre(i);
      if !pre {
        left := targets;
        SearchHole(g, PreSlots(), hashes, Found(), Heads(), have, places, targets, i);
        ScanHole(g, PreSlots(), have, places, holes, i);
        holes := holes + [i];
        assert Recognised(i) by { UnknownSlot(i); }
      } else {
        left := ScanPre(i, targets);
      }
    }

    /** The same for a slot that was on disk: its own piece, else the last one on the list under its hash,
        else a short last piece, else an unknown one. */
    method ScanPre(i: nat, targets: Targets) returns (left: Targets)
      requires ScanCore(i) && Wants(targets) && i < g.count && Finds(targets, i)
      requires i in PreSlots() && SlotBacked(g, storage.Cells(), i)
      modifies this`places, this`have, this`amountLeft, this`amountInactive, this`inactiveRequests, this`waschecked
      ensures ScanCore(i + 1) && Wants(left) && Finds(left, i + 1)
    {
      hide Storage.Inv, Geometry.Home, Geometry.Sized, Scanned, SlotBacked, Wanted, LastWanted, Recognised, HadRight, SumsOk, BytesAt,
        Searched, Entry, Rest, ScanCore, Wants, Finds, DiskOk, Geometry.PieceLen;
      Unpacked(i, targets);
      left := targets;
      var last := g.count - 1;
      var sp, s := HashSlot(i);
      var lastPre := WasPre(last);
      FoundAt(i);
      if s == hashes[i] {
        ScanOwn(i, targets);
      } else if s in targets && targets[s] != [] && g.PieceLen(i) == g.PieceLen(targets[s][|targets[s]| - 1]) {
        left := ScanMoved(i, targets, s);
      } else if !have[last] && sp == hashes[last] && (i == last || !lastPre) {
        ScanLast(i, targets, s);
      } else {
        ScanUnknown(i, targets, s);
      }
    }

    lemma Unpacked(i: nat, targets: Targets)
      requires ScanCore(i) && Wants(targets)
      ensures DiskOk() && g.count > 0 && |have| == |hashes| == g.count
      ensures forall h, k :: h in targets && 0 <= k < |targets[h]| ==> targets[h][k] < g.count
    {
      forall h, k | h in targets && 0 <= k < |targets[h]| ensures targets[h][k] < g.count {
        assert targets[h][k] in targets[h];
        assert Entry(g, PreSlots(), hashes, places, h, targets[h][k]);
      }
    }

    lemma FoundAt(i: nat)
      requires DiskOk() && i < g.count
      ensures Found()[i] == sha(BytesAt(storage.Cells(), g.Home(i), g.PieceLen(i)))
      ensures Heads()[i] == sha(BytesAt(storage.Cells(), g.Home(i), g.PieceLen(g.count - 1)))
    {
    }

    /** The slot holds its own piece. */
    method ScanOwn(i: nat, targets: Targets)
      requires ScanCore(i) && Wants(targets) && i < g.count && Finds(targets, i)
      requires i in PreSlots() && SlotBacked(g, storage.Cells(), i)
      requires Found()[i] == hashes[i]
      modifies this`places, this`have, this`amountLeft, this`amountInactive, this`inactiveRequests, this`waschecked
      ensures ScanCore(i + 1) && Wants(targets) && Finds(targets, i + 1)
    {
      hide Storage.Inv, Geometry.Home, Geometry.Sized, Scanned, SlotBacked, Wanted, LastWanted, Recognised, HadRight, SumsOk, BytesAt,
        Searched, Entry, Rest;
      FoundAt(i);
      SearchOwn(g, PreSlots(), hashes, Found(), Heads(), have, places, targets, i);
      GiveSlot(i, i);
      WantedAfter(g, PreSlots(), hashes, old(places), targets, i, i);
    }

    /** The slot holds a piece that was missing, the last one listed under hash s. */
    method ScanMoved(i: nat, targets: Targets, s: Hash) returns (left: Targets)
      requires ScanCore(i) && Wants(targets) && i < g.count && Finds(targets, i)
      requires i in PreSlots() && SlotBacked(g, storage.Cells(), i)
      requires s == Found()[i] != hashes[i] && s in targets && targets[s] != []
      requires targets[s][|targets[s]| - 1] < g.count && g.PieceLen(i) == g.PieceLen(targets[s][|targets[s]| - 1])
      modifies this`places, this`have, this`amountLeft, this`amountInactive, this`inactiveRequests, this`waschecked
      ensures ScanCore(i + 1) && Wants(left) && Finds(left, i + 1)
    {
      hide Storage.Inv, Geometry.Home, Geometry.Sized, Scanned, SlotBacked, Wanted, LastWanted, Recognised, HadRight, SumsOk, BytesAt,
        Searched, Entry, Rest;
      NotYet(g, PreSlots(), have, places, holes, i);
      FoundAt(i);
      RestIs(targets, s);
      var t := targets[s][|targets[s]| - 1];
      TakenFits(targets, s, i);
      WantedPop(g, PreSlots(), hashes, places, targets, s, i);
      SearchPop(g, PreSlots(), hashes, Found(), Heads(), have, places, targets, i);
      left := targets[s := targets[s][..|targets[s]| - 1]];
      GiveSlot(t, i);
    }

    /** The slot begins with the short last piece, which was missing. */
    method ScanLast(i: nat, targets: Targets, s: Hash)
      requires ScanCore(i) && Wants(targets) && i < g.count && Finds(targets, i)
      requires i in PreSlots() && SlotBacked(g, storage.Cells(), i)
      requires s == Found()[i] != hashes[i] && Heads()[i] == hashes[g.count - 1]
      requires !have[g.count - 1] && (i == g.count - 1 || g.count - 1 !in PreSlots())
      requires s in targets && targets[s] != [] ==>
        targets[s][|targets[s]| - 1] < g.count && g.PieceLen(i) != g.PieceLen(targets[s][|targets[s]| - 1])
      modifies this`places, this`have, this`amountLeft, this`amountInactive, this`inactiveRequests, this`waschecked
      ensures ScanCore(i + 1) && Wants(targets) && Finds(targets, i + 1)
    {
      hide Storage.Inv, Geometry.Home, Geometry.Sized, Scanned, SlotBacked, Wanted, LastWanted, Recognised, HadRight, SumsOk, BytesAt,
        Searched, Entry, Rest;
      NotYet(g, PreSlots(), have, places, holes, i);
      FoundAt(i);
      var last := g.count - 1;
      RestIs(targets, s);
      LastUnplaced(g, PreSlots(), have, places, holes, i);
      LastIsShort(i, targets, s);
      SearchPrefix(g, PreSlots(), hashes, Found(), Heads(), have, places, targets, i);
      GiveSlot(last, i);
      WantedAfter(g, PreSlots(), hashes, old(places), targets, last, i);
    }

    /** Nothing is recognised in the slot. */
    method ScanUnknown(i: nat, targets: Targets, s: Hash)
      requires ScanCore(i) && Wants(targets) && i < g.count && Finds(targets, i)
      requires i in PreSlots() && SlotBacked(g, storage.Cells(), i)
      requires s == Found()[i] != hashes[i]
      requires Heads()[i] == hashes[g.count - 1] && (i == g.count - 1 || g.count - 1 !in PreSlots()) ==> have[g.count - 1]
      requires s in targets && targets[s] != [] ==>
        targets[s][|targets[s]| - 1] < g.count && g.PieceLen(i) != g.PieceLen(targets[s][|targets[s]| - 1])
      modifies this`places
      ensures ScanCore(i + 1) && Wants(targets) && Finds(targets, i + 1)
    {
      hide Storage.Inv, Geometry.Home, Geometry.Sized, Scanned, SlotBacked, Wanted, LastWanted, Recognised, HadRight, SumsOk, BytesAt,
        Searched, Entry, Rest;
      FoundAt(i);
      RestIs(targets, s);
      SearchUnknown(g, PreSlots(), hashes, Found(), Heads(), have, places, targets, i);
      KeepUnknown(i);
      WantedAfter(g, PreSlots(), hashes, old(places), targets, i, i);
    }

    lemma TakenFits(targets: Targets, s: Hash, i: nat)
      requires DiskOk() && Wants(targets) && i < g.count && s in targets && targets[s] != []
      requires targets[s][|targets[s]| - 1] < g.count && g.PieceLen(i) == g.PieceLen(targets[s][|targets[s]| - 1])
      ensures var t := targets[s][|targets[s]| - 1];
              t !in PreSlots() && hashes[t] == s && Fits(g, t, i) && (t in places ==> t == g.count - 1 && g.ShortLast())
    {
      var t := targets[s][|targets[s]| - 1];
      assert t in targets[s];
      assert Entry(g, PreSlots(), hashes, places, s, t);
    }

    /** The third branch of the scan is only reached for a last piece that is short. */
    lemma LastIsShort(i: nat, targets: Targets, s: Hash)
      requires DiskOk() && |hashes| == g.count && i < g.count && Wants(targets)
      requires g.count - 1 !in places && (i == g.count - 1 || g.count - 1 !in PreSlots())
      requires s == sha(BytesAt(storage.Cells(), g.Home(i), g.PieceLen(i))) != hashes[i]
      requires hashes[g.count - 1] == sha(BytesAt(storage.Cells(), g.Home(i), g.PieceLen(g.count - 1)))
      requires !(s in targets && targets[s] != [] && g.PieceLen(i) == g.PieceLen(targets[s][|targets[s]| - 1]))
      ensures i != g.count - 1 && g.ShortLast()
    {
      g.SlotBounds(i);
      g.SlotBounds(g.count - 1);
    }

    lemma UnknownSlot(i: nat)
      requires DiskOk() && i < |have| && i < |hashes| && !Pre(i)
      ensures Recognised(i)
    {
    }

    // ---- queries ----

    method WasPre(piece: nat) returns (b: bool)
      requires DiskOk() && piece < g.count
      ensures b <==> Pre(piece)
      ensures b ==> SlotBacked(g, storage.Cells(), piece)
    {
      g.SlotBounds(piece);
      hide Geometry.Home, Geometry.PieceLen;
      b := storage.WasPreallocated(g.Home(piece), g.PieceLen(piece));
    }

    /** The search of places for whoever sits in a slot; it always finds the one occupant. */
    method Occupant(slot: nat) returns (p: nat)
      requires exists q :: q in places && places[q] == slot
      ensures p in places && places[p] == slot
    {
      var rest := places.Keys;
      ghost var q :| q in places && places[q] == slot;
      assert q in rest;
      p :| p in rest;
      while places[p] != slot
        invariant rest <= places.Keys && p in rest
        invariant q in rest
        decreases rest
      {
        rest := rest - {p};
        assert q in rest;
        p :| p in rest;
      }
    }

    // ---- making room for a new piece ----

    /** Reads from the beginning of a slot that is in use. */
    method ReadSlot(slot: nat, amount: int) returns (data: seq<byte>)
      requires DiskOk() && slot < g.count && SlotBacked(g, storage.Cells(), slot) && 0 <= amount <= g.PieceLen(slot)
      ensures |data| == amount && data == BytesAt(storage.Cells(), g.Home(slot), amount)
    {
      g.SlotBounds(slot);
      hide Storage.Inv, Geometry.Home, Geometry.PieceLen;
      data := ReadBytes(g.Home(slot), amount);
    }

    /** Fills the free slot b. */
    method WriteSlot(b: nat, data: seq<byte>)
      requires DiskOk() && Backed(g, storage.Cells(), places) && Seated(g, places)
      requires b < g.count && b !in places.Values && |data| == g.PieceLen(b)
      modifies storage
      ensures DiskOk() && Wrote(old(storage.Cells()), storage.Cells(), g.Home(b), data)
      ensures Backed(g, storage.Cells(), places) && SlotBacked(g, storage.Cells(), b)
      ensures Kept(g, old(storage.Cells()), places, storage.Cells(), places)
    {
      g.SlotBounds(b);
      hide Storage.Inv, Geometry.Home, Geometry.PieceLen, Wrote, Backed, Seated, SlotBacked, Kept;
      storage.Write(g.Home(b), data);
      FillKeeps(g, old(storage.Cells()), storage.Cells(), places, b, data);
    }

    /** Writes what was read from piece p's slot to the free slot b and records the move. */
    method MoveTo(p: nat, b: nat, data: seq<byte>)
      requires DiskOk() && Backed(g, storage.Cells(), places) && Seated(g, places)
      requires p in places && b < g.count && b !in places.Values && Fits(g, p, b)
      requires |data| == g.PieceLen(b) && data == BytesAt(storage.Cells(), g.Home(places[p]), |data|)
      modifies this`places, storage
      ensures DiskOk() && places == old(places)[p := b]
      ensures Backed(g, storage.Cells(), places) && SlotBacked(g, storage.Cells(), old(places[p]))
      ensures Kept(g, old(storage.Cells()), old(places), storage.Cells(), places)
    {
      hide Storage.Inv, Geometry.Home, Geometry.PieceLen, Wrote, Backed, Seated, SlotBacked, Kept, Fits;
      WriteSlot(b, data);
      MoveKeeps(g, old(storage.Cells()), storage.Cells(), places, p, b, data);
      places := places[p := b];
    }

    /** The new piece has gone to its own slot, and whoever sat there to the vacant one. */
    ghost predicate Evicted(before: Places, after: Places, index: nat, vacant: nat) {
      exists p :: p in before && before[p] == index && after == before[p := vacant][index := index]
    }

    /** The new piece has gone to the vacant slot if its own is that one or a hole; otherwise to its own,
        from which the occupant has been sent to the vacant one. */
    ghost predicate MadeRoomFor(before: Places, after: Places, holes: seq<nat>, index: nat, vacant: nat) {
      if index == vacant || index in holes then after == before[index := vacant] else Evicted(before, after, index, vacant)
    }

    /** The first hole belongs to a piece that is stored elsewhere: bring it home, and give the
        slot it leaves to the new piece, or to whoever sits in the new piece's home. */
    method MakeRoomByMoving(index: nat, n: nat, oldpos: nat)
      requires DiskOk() && Backed(g, storage.Cells(), places) && Seated(g, places) && HadRight()
      requires n in places && places[n] == oldpos && n !in places.Values
      requires Seated(g, places[n := n]) && Vacated(g, places[n := n], holes, oldpos)
      requires g.ShortLast() ==> oldpos != g.count - 1
      requires index < g.count && index !in places
      modifies this`places, storage
      ensures DiskOk() && PlacesOk()
      ensures MadeRoomFor(old(places)[n := n], places, holes, index, oldpos)
      ensures places.Keys == old(places.Keys) + {index}
      ensures Kept(g, old(storage.Cells()), old(places), storage.Cells(), places)
    {
      hide Storage.Inv, Geometry.Home, Geometry.PieceLen, Geometry.Sized;
      hide Vacated, Placed, Backed, Seated, SlotBacked, Kept, Fits, MadeRoomFor;
      MoveHome(n, oldpos);
      ghost var mid: Places, midCells := places, storage.Cells();
      SettleNew(index, oldpos);
      KeptTwice(g, old(storage.Cells()), old(places), midCells, mid, storage.Cells(), places);
    }

    /** Piece n is brought home. */
    method MoveHome(n: nat, oldpos: nat)
      requires DiskOk() && Backed(g, storage.Cells(), places) && Seated(g, places) && HadRight()
      requires n in places && places[n] == oldpos && n !in places.Values && (g.ShortLast() ==> oldpos != g.count - 1)
      modifies this`places, storage
      ensures DiskOk() && places == old(places)[n := n]
      ensures Backed(g, storage.Cells(), places) && SlotBacked(g, storage.Cells(), oldpos)
      ensures Kept(g, old(storage.Cells()), old(places), storage.Cells(), places)
    {
      VacantBounds(n, oldpos);
      hide Storage.Inv, Geometry.Home, Geometry.PieceLen, Geometry.Sized;
      hide Vacated, Placed, Backed, Seated, SlotBacked, Kept, Fits;
      var data := ReadSlot(oldpos, g.PieceLen(n));
      if have[n] && sha(data) != hashes[n] {
        // failed('data corrupted on disk'): cannot happen while the disk is only written from here
        assert false;
      }
      MoveTo(n, n, data);
    }

    /** The slot oldpos has just been vacated: it goes to the new piece if its own slot is free,
        and otherwise to whoever sits there. */
    method SettleNew(index: nat, oldpos: nat)
      requires DiskOk() && Backed(g, storage.Cells(), places) && Seated(g, places) && SlotBacked(g, storage.Cells(), oldpos)
      requires Vacated(g, places, holes, oldpos) && (g.ShortLast() ==> oldpos != g.count - 1)
      requires index < g.count && index !in places
      modifies this`places, storage
      ensures DiskOk() && PlacesOk()
      ensures MadeRoomFor(old(places), places, holes, index, oldpos)
      ensures places.Keys == old(places.Keys) + {index}
      ensures Kept(g, old(storage.Cells()), old(places), storage.Cells(), places)
    {
      assert Fits(g, index, oldpos);
      g.SlotBounds(oldpos);
      hide Storage.Inv, Geometry.Home, Geometry.PieceLen, Geometry.Sized;
      hide Vacated, Placed, Backed, Seated, SlotBacked, Kept, Fits, Evicted;
      if index == oldpos || index in holes {
        SettleInVacant(g, places, holes, oldpos, index);
        KeptSame(g, storage.Cells(), places);
        KeptNewcomer(g, old(storage.Cells()), old(places), storage.Cells(), places, index, oldpos);
        places := places[index := oldpos];
      } else {
        Evict(index, oldpos, g.pieceSize);
      }
    }

    lemma VacantBounds(n: nat, oldpos: nat)
      requires DiskOk() && Backed(g, storage.Cells(), places) && Seated(g, places)
      requires n in places && places[n] == oldpos
      requires g.ShortLast() ==> oldpos != g.count - 1
      ensures oldpos < g.count && n < g.count && 0 < g.PieceLen(n) <= g.PieceLen(oldpos) == g.pieceSize
      ensures SlotBacked(g, storage.Cells(), oldpos) && Fits(g, n, n)
    {
      g.SlotBounds(n);
      g.SlotBounds(oldpos);
    }

    ghost predicate AllOnes(fill: seq<byte>, n: int) {
      |fill| == n && forall k :: 0 <= k < n ==> fill[k] == 0xFF
    }

    /** The slot holds nothing but bytes 0xFF. */
    ghost predicate Filled(slot: nat)
      requires DiskOk()
      reads storage
    {
      forall k :: g.Home(slot) <= k < g.Home(slot) + g.PieceLen(slot) ==> k < g.total && storage.Cells()[k] == Data(0xFF)
    }

    lemma FilledBy(cells: seq<Cell>, slot: nat, fill: seq<byte>)
      requires DiskOk() && slot < g.count && AllOnes(fill, g.PieceLen(slot))
      requires Wrote(cells, storage.Cells(), g.Home(slot), fill)
      ensures Filled(slot)
    {
      g.SlotBounds(slot);
      hide Geometry.Home, Geometry.PieceLen, Storage.Inv;
    }

    /** The new piece's own slot is the first hole, or a later one: it goes into the first. */
    method MakeRoomInHole(index: nat, n: nat)
      requires DiskOk() && Backed(g, storage.Cells(), places) && Seated(g, places) && Vacated(g, places, holes, n)
      requires index < g.count && index !in places && (index == n || index in holes)
      requires index != n && g.ShortLast() ==> n != g.count - 1
      modifies this`places, storage
      ensures DiskOk() && PlacesOk()
      ensures places == old(places)[index := n]
      ensures places.Keys == old(places.Keys) + {index}
      ensures if Pre(n) then storage.Cells() == old(storage.Cells()) else Filled(n)
      ensures Kept(g, old(storage.Cells()), old(places), storage.Cells(), places)
    {
      assert n < g.count && n !in places.Values && Fits(g, index, n);
      hide Storage.Inv, Geometry.Home, Geometry.PieceLen, Geometry.Sized;
      hide Vacated, Placed, Backed, Seated, SlotBacked, Kept, Fits, Filled, AllOnes, Wrote;
      KeptSame(g, storage.Cells(), places);
      var pre := WasPre(n);
      if !pre {
        var fill := seq(g.PieceLen(n), _ => 0xFF);
        assert AllOnes(fill, g.PieceLen(n));
        WriteSlot(n, fill);
        FilledBy(old(storage.Cells()), n, fill);
      }
      SettleInVacant(g, places, holes, n, index);
      KeptNewcomer(g, old(storage.Cells()), old(places), storage.Cells(), places, index, n);
      places := places[index := n];
    }

    /** Someone else sits in the new piece's slot: send them to the vacant one. */
    method Evict(index: nat, vacant: nat, amount: int)
      requires DiskOk() && Backed(g, storage.Cells(), places) && Seated(g, places) && Vacated(g, places, holes, vacant)
      requires index < g.count && index !in places && index != vacant && index !in holes
      requires (g.ShortLast() ==> vacant != g.count - 1) && amount == g.PieceLen(vacant)
      modifies this`places, storage
      ensures DiskOk() && PlacesOk()
      ensures Evicted(old(places), places, index, vacant)
      ensures places.Keys == old(places.Keys) + {index}
      ensures Kept(g, old(storage.Cells()), old(places), storage.Cells(), places)
    {
      hide Storage.Inv, Geometry.Home, Geometry.PieceLen, Geometry.Sized;
      hide Vacated, Placed, Backed, Seated, SlotBacked, Kept, Fits;
      ghost var q := SomeoneAt(g, places, holes, vacant, index);
      var p := Occupant(index);
      EvictFits(g, places, holes, vacant, index, p);
      SettleAtHome(g, places, holes, vacant, index, p);
      BackedAt(g, storage.Cells(), places, p);
      var data := ReadSlot(index, amount);
      MoveTo(p, vacant, data);
      KeptNewcomer(g, old(storage.Cells()), old(places), storage.Cells(), places, index, index);
      places := places[index := index];
      assert places == old(places)[index := index][p := vacant] == old(places)[p := vacant][index := index];
    }

    /** Finds a slot for a piece that has none, moving up to two others out of the way. */
    method MakeRoom(index: nat)
      requires DiskOk() && PlacesOk() && HadRight() && index < g.count && index !in places
      modifies this`places, this`holes, storage
      ensures DiskOk() && PlacesOk()
      ensures old(holes) != [] && holes == old(holes)[1..]
      ensures var n := old(holes)[0];
              if n in old(places) then MadeRoomFor(old(places)[n := n], places, holes, index, old(places)[n])
              else MadeRoomFor(old(places), places, holes, index, n)
      ensures places.Keys == old(places.Keys) + {index}
      ensures Kept(g, old(storage.Cells()), old(places), storage.Cells(), places)
    {
      hide Storage.Inv, Geometry.Home, Geometry.PieceLen, Geometry.Sized;
      hide Vacated, Placed, Backed, Seated, Kept, Evicted;
      HoleForNew(g, places, holes, index);
      var n := holes[0];
      if n in places {
        var oldpos := places[n];
        BringHome(g, places, holes);
        holes := holes[1..];
        MakeRoomByMoving(index, n, oldpos);
      } else {
        TakeHole(g, places, holes, index);
        holes := holes[1..];
        if index in holes || index == n {
          MakeRoomInHole(index, n);
        } else {
          Evict(index, n, g.PieceLen(n));
        }
      }
    }

    // ---- requests ----

    /** Gives up the books' summary: amount_inactive is zero exactly when nothing is open. */
    lemma NothingOpen()
      requires g.Sized() && Sizes() && BooksOk() && SumsOk()
      ensures amountInactive >= 0
      ensures amountInactive == 0 <==> Exhausted()
    {
      forall i | 0 <= i < g.count
        ensures InactiveAmounts(inactiveRequests)[i] >= 0
        ensures InactiveAmounts(inactiveRequests)[i] == 0 <==> !inactiveRequests[i].Truthy()
      {
        assert PieceBooks(i);
        OpenNothing(g.PieceLen(i), requestSize, inactiveRequests[i], issued[i], arrived[i], numactive[i]);
      }
      SumNonNegative(InactiveAmounts(inactiveRequests));
    }

    /** No request is left to hand out. */
    ghost predicate Exhausted()
      reads this`inactiveRequests
    {
      forall i :: 0 <= i < |inactiveRequests| ==> !inactiveRequests[i].Truthy()
    }

    lemma AmountsUpdate(index: nat, x: Inactive)
      requires index < |inactiveRequests|
      ensures Sum(InactiveAmounts(inactiveRequests[index := x])) == Sum(InactiveAmounts(inactiveRequests))
              - inactiveRequests[index].Amount(g.PieceLen(index)) + x.Amount(g.PieceLen(index))
    {
      SumUpdate(InactiveAmounts(inactiveRequests), index, x.Amount(g.PieceLen(index)));
      assert InactiveAmounts(inactiveRequests[index := x])
          == InactiveAmounts(inactiveRequests)[index := x.Amount(g.PieceLen(index))];
    }

    /** The requests of a piece that could be handed out. */
    ghost function Open(i: nat): set<Tile>
      requires i < |inactiveRequests|
      reads this`inactiveRequests
    {
      inactiveRequests[i].Open(g.PieceLen(i), requestSize)
    }

    /** Cuts an untouched piece into requests. */
    method MakeInactive(index: nat) returns (l: seq<Tile>)
      requires g.Sized() && requestSize > 0 && index < g.count
      ensures g.PieceLen(index) > 0 && l == Tiling(g.PieceLen(index), requestSize, 0)
      ensures l != [] && CutEvery(Min(g.pieceSize, g.total - index * g.pieceSize), requestSize, l)
    {
      g.SlotBounds(index);
      var length := Min(g.pieceSize, g.total - g.pieceSize * index);
      assert length == g.PieceLen(index) == Min(g.pieceSize, g.total - index * g.pieceSize);
      TilingCuts(length, requestSize);
      hide CutEvery, Geometry.PieceLen, Geometry.Sized, Min;
      l := [];
      var x := 0;
      while x + requestSize < length
        invariant 0 <= x < length
        invariant l + Tiling(length, requestSize, x) == Tiling(length, requestSize, 0)
        decreases length - x
      {
        assert Tiling(length, requestSize, x) == [(x, requestSize)] + Tiling(length, requestSize, x + requestSize);
        l := l + [(x, requestSize)];
        x := x + requestSize;
      }
      l := l + [(x, length - x)];
    }

    lemma Unpack()
      requires Valid()
      ensures DiskOk() && Sizes() && PlacesOk() && BooksOk() && HashesOk() && SumsOk() && g.Sized() && FinishedOk()
    {
    }

    /** Every tile of an untouched piece is open. */
    lemma OpenTile(index: nat, t: Tile)
      requires index < |inactiveRequests| && inactiveRequests[index] == Untouched && IsTile(index, t)
      ensures t in Open(index)
    {
    }

    lemma OpenNothingLeft(index: nat)
      requires Valid() && index < |inactiveRequests|
      ensures Open(index) == {} <==> !inactiveRequests[index].Truthy()
    {
      assert PieceBooks(index);
      Blocks.OpenNothing(g.PieceLen(index), requestSize, inactiveRequests[index], issued[index], arrived[index], numactive[index]);
    }

    lemma IssuedIsTile(index: nat, t: Tile)
      requires Valid() && IsIssued(index, t)
      ensures IsTile(index, t)
    {
      assert PieceBooks(index);
    }

    /** A piece that is had has the right hash. */
    lemma HadHash(i: nat)
      requires Valid() && i < g.count
      ensures DiskOk() && Sizes() && (have[i] ==> Right(i))
    {
      if have[i] { RightMeans(i); }
    }

    /** A piece with outstanding requests has been cut into requests. */
    lemma IssuedListed(i: nat, t: Tile)
      requires Valid() && IsIssued(i, t)
      ensures i < |inactiveRequests| && inactiveRequests[i].Listed?
      ensures inactiveRequests[i] == Listed([]) <==> !inactiveRequests[i].Truthy()
    {
      assert PieceBooks(i);
    }

    /** numactive counts the outstanding requests of each piece. */
    lemma ActiveCounts(i: nat)
      requires Valid() && i < g.count
      ensures i < |issued| && i < |numactive| && numactive[i] == |issued[i]|
    {
      Facts();
      assert PieceBooks(i);
    }

    lemma DiskFact()
      requires Valid()
      ensures DiskOk()
    {
    }

    /** What other components rely on. */
    lemma Facts()
      requires Valid()
      ensures Sizes() && g.count > 0
      ensures forall i :: 0 <= i < g.count && have[i] ==> !inactiveRequests[i].Truthy() && issued[i] == {}
    {
      forall i | 0 <= i < g.count && have[i] ensures !inactiveRequests[i].Truthy() && issued[i] == {} {
        assert PieceBooks(i);
      }
    }

    lemma Pack()
      requires DiskOk() && Sizes() && PlacesOk() && BooksOk() && HashesOk() && SumsOk() && FinishedOk()
      ensures Valid()
    {
    }

    /** Makes sure that a piece's entry is a list. */
    method EnsureListed(index: nat)
      requires g.Sized() && Sizes() && BooksOk() && SumsOk() && index < g.count && inactiveRequests[index].Truthy()
      modifies this`inactiveRequests
      ensures Sizes() && BooksOk() && SumsOk()
      ensures inactiveRequests[index].Listed? && inactiveRequests[index].tiles != []
      ensures Open(index) == old(Open(index))
      ensures inactiveRequests == old(inactiveRequests)[index := inactiveRequests[index]]
    {
      assert PieceBooks(index);
      if inactiveRequests[index] == Untouched {
        var l := MakeInactive(index);
        hide Geometry.PieceLen;
        TilingDistinct(g.PieceLen(index), requestSize);
        TilingBounds(g.PieceLen(index), requestSize, 0);
        AmountsUpdate(index, Listed(l));
        inactiveRequests := inactiveRequests[index := Listed(l)];
        assert PieceBooks(index);
        OthersBooks(index);
      }
    }

    /** The books of other pieces do not notice a change to one piece's entries. */
    twostate lemma OthersBooks(index: nat)
      requires old(Sizes()) && old(BooksOk()) && Sizes() && index < g.count
      requires inactiveRequests == old(inactiveRequests)[index := inactiveRequests[index]]
      requires numactive == old(numactive)[index := numactive[index]] && have == old(have)[index := have[index]]
      requires issued == old(issued)[index := issued[index]] && arrived == old(arrived)[index := arrived[index]]
      requires PieceBooks(index) && (have[index] <==> inactiveRequests[index].Had?)
      ensures BooksOk()
    {
      forall i | 0 <= i < g.count ensures PieceBooks(i) && (have[i] <==> inactiveRequests[i].Had?) {
        assert i != index ==> old(PieceBooks(i));
      }
    }

    ghost predicate IsTile(index: nat, r: Tile) {
      g.PieceLen(index) > 0 && requestSize > 0 && r in Tiling(g.PieceLen(index), requestSize, 0)
    }

    /** Python's new_request: hands out the first open request of a piece. */
    method NewRequest(index: nat) returns (r: Tile)
      requires Valid() && index < g.count && inactiveRequests[index].Truthy()
      modifies this`inactiveRequests, this`numactive, this`amountInactive, this`endgame, this`issued
      ensures Valid()
      ensures r in old(Open(index)) && forall t :: t in old(Open(index)) ==> r.0 <= t.0
      ensures Open(index) == old(Open(index)) - {r}
      ensures r !in old(issued[index]) && issued == old(issued)[index := old(issued[index]) + {r}] && IsTile(index, r)
      ensures inactiveRequests == old(inactiveRequests)[index := inactiveRequests[index]]
      ensures endgame == (old(endgame) || Exhausted())
    {
      hide Inv, DiskOk, PlacesOk, HashesOk, BooksOk, SumsOk, Geometry.PieceLen, Geometry.Sized, IsTile, Exhausted;
      Unpack();
      EnsureListed(index);
      r := TakeRequest(index);
      NothingOpen();
      if amountInactive == 0 {
        endgame := true;
      }
      Pack();
    }

    method TakeRequest(index: nat) returns (r: Tile)
      requires g.Sized() && Sizes() && BooksOk() && SumsOk() && index < g.count
      requires inactiveRequests[index].Listed? && inactiveRequests[index].tiles != []
      modifies this`inactiveRequests, this`numactive, this`amountInactive, this`issued
      ensures Sizes() && BooksOk() && SumsOk()
      ensures r in old(Open(index)) && forall t :: t in old(Open(index)) ==> r.0 <= t.0
      ensures Open(index) == old(Open(index)) - {r}
      ensures r !in old(issued[index]) && issued == old(issued)[index := old(issued[index]) + {r}] && IsTile(index, r)
      ensures inactiveRequests == old(inactiveRequests)[index := inactiveRequests[index]]
    {
      assert PieceBooks(index);
      g.SlotBounds(index);
      hide Books, Geometry.PieceLen, Geometry.Sized, BooksOk, SumsOk, Tiling, TotalLength;
      var rs := inactiveRequests[index].tiles;
      var k := Least(rs);
      r := rs[k];
      IssueBooks(g.PieceLen(index), requestSize, rs, k, issued[index], arrived[index], numactive[index]);
      var length: int := r.1;
      SetRequests(index, Without(rs, k), numactive[index] + 1, -length, issued[index] + {r});
    }

    /** Enters new requests of a piece in all the books. */
    method SetRequests(index: nat, l: seq<Tile>, active: int, amount: int, ghost now: set<Tile>)
      requires Sizes() && BooksOk() && SumsOk() && index < g.count && inactiveRequests[index].Listed?
      requires Books(g.PieceLen(index), requestSize, Listed(l), now, arrived[index], active)
      requires TotalLength(l) == TotalLength(inactiveRequests[index].tiles) + amount
      modifies this`inactiveRequests, this`numactive, this`amountInactive, this`issued
      ensures Sizes() && BooksOk() && SumsOk()
      ensures inactiveRequests == old(inactiveRequests)[index := Listed(l)] && issued == old(issued)[index := now]
    {
      hide Books, BooksOk, Geometry.PieceLen, InactiveAmounts, LeftAmounts, Sum, TotalLength;
      HadNothingListed(index);
      AmountsUpdate(index, Listed(l));
      numactive := numactive[index := active];
      inactiveRequests := inactiveRequests[index := Listed(l)];
      amountInactive := amountInactive + amount;
      issued := issued[index := now];
      OthersBooks(index);
    }

    lemma HadNothingListed(index: nat)
      requires Sizes() && BooksOk() && index < g.count && inactiveRequests[index].Listed?
      ensures !have[index]
    {
    }

    /** A request that was handed out will not be answered: it can be handed out again. */
    method RequestLost(index: nat, begin: nat, length: nat)
      requires Valid() && index < g.count && (begin, length) in issued[index]
      modifies this`inactiveRequests, this`numactive, this`amountInactive, this`issued
      ensures Valid()
      ensures Open(index) == old(Open(index)) + {(begin, length)}
      ensures issued == old(issued)[index := old(issued[index]) - {(begin, length)}]
      ensures inactiveRequests == old(inactiveRequests)[index := inactiveRequests[index]]
      ensures inactiveRequests[index].Truthy()
    {
      hide Inv, DiskOk, PlacesOk, HashesOk, BooksOk, SumsOk, Geometry.PieceLen, Geometry.Sized;
      Unpack();
      GiveBack(index, begin, length);
      Pack();
    }

    method GiveBack(index: nat, begin: nat, length: nat)
      requires Sizes() && BooksOk() && SumsOk() && index < g.count && (begin, length) in issued[index]
      modifies this`inactiveRequests, this`numactive, this`amountInactive, this`issued
      ensures Sizes() && BooksOk() && SumsOk()
      ensures Open(index) == old(Open(index)) + {(begin, length)}
      ensures issued == old(issued)[index := old(issued[index]) - {(begin, length)}]
      ensures inactiveRequests == old(inactiveRequests)[index := inactiveRequests[index]]
      ensures inactiveRequests[index].Truthy()
    {
      assert PieceBooks(index);
      assert inactiveRequests[index].Listed?;
      hide BooksOk, Books, SumsOk, Geometry.PieceLen, Geometry.Sized, Tiling, TotalLength;
      var l := inactiveRequests[index].tiles;
      ghost var t := (begin, length);
      LoseBooks(g.PieceLen(index), requestSize, l, t, issued[index], arrived[index], numactive[index]);
      SetRequests(index, l + [(begin, length)], numactive[index] - 1, length, issued[index] - {t});
    }

    // ---- a block arrives ----

    /** Finds room for the piece if it has none, and writes the block. */
    method StoreBlock(index: nat, begin: nat, data: seq<byte>)
      requires DiskOk() && PlacesOk() && HadRight() && index < g.count && begin + |data| <= g.PieceLen(index)
      modifies this`places, this`holes, storage
      ensures DiskOk() && PlacesOk()
      ensures Stored(g, old(storage.Cells()), old(places), storage.Cells(), places, index, begin, data)
      ensures Written(index, begin, data)
    {
      hide Storage.Inv, Geometry.Home, Geometry.PieceLen, Geometry.Sized, Backed, Content, Placed, Written;
      if index !in places {
        MakeRoom(index);
      } else {
        KeptSame(g, storage.Cells(), places);
      }
      label placed:
      WriteBlock(index, begin, data);
      HoldsPart(index, begin, data);
    }

    method WriteBlock(index: nat, begin: nat, data: seq<byte>)
      requires DiskOk() && PlacesOk() && index in places && begin + |data| <= g.PieceLen(index)
      modifies storage
      ensures DiskOk() && PlacesOk()
      ensures forall p :: p in places && p != index ==>
                Content(g, storage.Cells(), places, p) == old(Content(g, storage.Cells(), places, p))
      ensures begin + |data| <= |old(Content(g, storage.Cells(), places, index))|
      ensures Content(g, storage.Cells(), places, index) == Splice(old(Content(g, storage.Cells(), places, index)), begin, data)
    {
      PlacedSeated(g, places, holes);
      g.SlotBounds(places[index]);
      g.SlotBounds(index);
      hide Storage.Inv, Geometry.Home, Geometry.PieceLen, Geometry.Sized, Backed, Content, Placed, Wrote;
      storage.Write(g.Home(places[index]) + begin, data);
      WriteInPlace(g, old(storage.Cells()), storage.Cells(), places, index, begin, data);
    }

    /** After a block of an unfinished piece is stored, everything verified so far still is. */
    lemma HashesKept(cells: seq<Cell>, was: Places, index: nat, begin: nat, data: seq<byte>)
      requires DiskOk() && HashesAt(cells, was)
      requires Stored(g, cells, was, storage.Cells(), places, index, begin, data)
      requires index < g.count && !have[index] && Awaited(index, (begin, |data|))
      ensures HadRight() && InPlace(storage.Cells(), places, index, arrived[index][(begin, |data|) := data])
      ensures OthersIn(index)
    {
      forall i | 0 <= i < g.count && have[i] ensures RightPiece(storage.Cells(), places, i) {
        assert RightPiece(cells, was, i);
      }
      forall i | 0 <= i < g.count && i != index && arrived[i] != map[]
        ensures InPlace(storage.Cells(), places, i, arrived[i])
      {
        assert InPlace(cells, was, i, arrived[i]);
      }
      if arrived[index] != map[] {
        g.SlotBounds(index);
        assert InPlace(cells, was, index, arrived[index]);
        AgreesMore(g.PieceLen(index), requestSize, Content(g, cells, was, index), arrived[index], (begin, |data|), data);
      }
    }

    lemma HashesFacts()
      requires DiskOk() && HashesOk()
      ensures HadRight() && HashesAt(storage.Cells(), places)
      ensures AllChecked()
    {
    }

    ghost predicate AllChecked()
      reads this`have, this`waschecked
    {
      |waschecked| == |have| && forall i :: 0 <= i < |have| && have[i] ==> waschecked[i]
    }

    lemma HashesAgain(index: nat)
      requires DiskOk() && Sizes() && HadRight() && AllChecked() && OthersIn(index)
      requires index < g.count && InPlace(storage.Cells(), places, index, arrived[index])
      ensures HashesOk()
    {
    }

    /** What has arrived for other pieces is in place. */
    ghost predicate OthersIn(index: nat)
      requires DiskOk()
      reads this`places, this`arrived, storage
    {
      forall i :: 0 <= i < |arrived| && i != index && arrived[i] != map[] ==>
        InPlace(storage.Cells(), places, i, arrived[i])
    }

    /** The arrival of a block in the books. */
    method RecordBlock(index: nat, begin: nat, data: seq<byte>)
      requires g.Sized() && Sizes() && BooksOk() && SumsOk() && index < g.count && (begin, |data|) in issued[index]
      modifies this`numactive, this`issued, this`arrived
      ensures Sizes() && BooksOk() && SumsOk()
      ensures issued == old(issued)[index := old(issued[index]) - {(begin, |data|)}]
      ensures arrived == old(arrived)[index := old(arrived[index])[(begin, |data|) := data]]
      ensures inactiveRequests[index].Listed? && numactive[index] == |issued[index]|
      ensures forall i :: 0 <= i < g.count && i != index ==> arrived[i] == old(arrived[i])
    {
      assert PieceBooks(index);
      assert inactiveRequests[index].Listed?;
      hide BooksOk, Geometry.PieceLen, Geometry.Sized, Tiling, Partition;
      ArriveBooks(g.PieceLen(index), requestSize, inactiveRequests[index].tiles, (begin, |data|), data,
                  issued[index], arrived[index], numactive[index]);
      numactive := numactive[index := numactive[index] - 1];
      issued := issued[index := issued[index] - {(begin, |data|)}];
      arrived := arrived[index := arrived[index][(begin, |data|) := data]];
      OthersBooks(index);
    }

    /** A tile of the piece that has not arrived, like all that have. */
    ghost predicate Awaited(index: nat, t: Tile)
      requires index < |arrived|
      reads this`arrived
    {
      IsTile(index, t) && t !in arrived[index] && forall u :: u in arrived[index] ==> IsTile(index, u)
    }

    lemma IssuedFacts(index: nat, t: Tile)
      requires g.Sized() && Sizes() && BooksOk() && index < g.count && t in issued[index]
      ensures Awaited(index, t) && t.0 + t.1 <= g.PieceLen(index) && !have[index]
    {
      assert PieceBooks(index);
      TileFits(g.PieceLen(index), requestSize, t);
    }

    /** Every request of the piece has been answered. */
    ghost predicate AllIn(index: nat)
      requires index < |arrived|
      reads this`arrived
    {
      && g.PieceLen(index) > 0 && requestSize > 0
      && forall t :: t in Tiling(g.PieceLen(index), requestSize, 0) ==> t in arrived[index]
    }

    /** All of the data that has come in for a piece, in order. */
    ghost function Whole(index: nat): seq<byte>
      requires index < |arrived| && AllIn(index)
      reads this`arrived
    {
      Assemble(Tiling(g.PieceLen(index), requestSize, 0), arrived[index])
    }

    lemma NothingOut(index: nat)
      requires Sizes() && BooksOk() && index < g.count && inactiveRequests[index] == Listed([]) && numactive[index] == 0
      ensures issued[index] == {} && AllIn(index)
    {
      assert PieceBooks(index);
    }

    /** With nothing open and nothing outstanding, the stored piece is exactly what came in. */
    lemma PieceWhole(index: nat)
      requires DiskOk() && Sizes() && PlacesOk() && BooksOk() && HashesOk() && index < g.count
      requires inactiveRequests[index] == Listed([]) && numactive[index] == 0
      ensures issued[index] == {} && index in places && AllIn(index)
      ensures Content(g, storage.Cells(), places, index) == Whole(index)
      ensures SlotBacked(g, storage.Cells(), places[index]) && g.PieceLen(index) <= g.PieceLen(places[index])
      ensures places[index] < g.count
    {
      NothingOut(index);
      hide BooksOk, Geometry.PieceLen, Geometry.Home, Storage.Inv;
      g.SlotBounds(index);
      assert Tiling(g.PieceLen(index), requestSize, 0)[0] in arrived[index];
      g.SlotBounds(places[index]);
      AssembleWhole(g.PieceLen(index), requestSize, Content(g, storage.Cells(), places, index), arrived[index]);
    }

    /** The stored piece, as the check reads it. */
    method ReadWhole(index: nat) returns (bytes: seq<byte>)
      requires DiskOk() && Sizes() && PlacesOk() && BooksOk() && HashesOk() && index < g.count
      requires inactiveRequests[index] == Listed([]) && numactive[index] == 0
      ensures issued[index] == {} && AllIn(index) && bytes == Whole(index)
      ensures sha(bytes) == hashes[index] ==> RightPiece(storage.Cells(), places, index)
      ensures index < |hashes| && (sha(bytes) == hashes[index] <==> Right(index))
    {
      PieceWhole(index);
      RightMeans(index);
      hide Right, DiskOk, PlacesOk, HashesOk, BooksOk, AllIn, Whole, Geometry.PieceLen, Geometry.Sized, Geometry.Home;
      bytes := ReadSlot(places[index], g.PieceLen(index));
    }

    lemma PieceLong(index: nat)
      requires DiskOk() && index < g.count
      ensures g.PieceLen(index) > 0
    {
      g.SlotBounds(index);
    }

    method AcceptPiece(index: nat)
      requires DiskOk() && Sizes() && BooksOk() && HashesOk() && SumsOk() && index < g.count
      requires RightPiece(storage.Cells(), places, index)
      requires inactiveRequests[index] == Listed([]) && numactive[index] == 0 && issued[index] == {}
      modifies this`have, this`inactiveRequests, this`waschecked, this`amountLeft, this`arrived
      ensures Sizes() && BooksOk() && HashesOk() && SumsOk()
      ensures arrived == old(arrived)[index := map[]] && amountLeft == old(amountLeft) - g.PieceLen(index)
      ensures have == old(have)[index := true] && inactiveRequests == old(inactiveRequests)[index := Had]
    {
      hide DiskOk, BooksOk, Geometry.PieceLen, Content, Tiling, Agrees, Sum;
      PieceLong(index);
      HadNothingListed(index);
      HadSums(index);
      have := have[index := true];
      inactiveRequests := inactiveRequests[index := Had];
      waschecked := waschecked[index := true];
      amountLeft := amountLeft - g.PieceLen(index);
      arrived := arrived[index := map[]];
      OthersBooks(index);
    }

    /** A piece that fails its check starts over. */
    method RejectPiece(index: nat)
      requires DiskOk() && Sizes() && BooksOk() && HashesOk() && SumsOk() && index < g.count
      requires inactiveRequests[index] == Listed([]) && numactive[index] == 0 && issued[index] == {}
      modifies this`inactiveRequests, this`amountInactive, this`flunkedBytes, this`arrived
      ensures Sizes() && BooksOk() && HashesOk() && SumsOk()
      ensures arrived == old(arrived)[index := map[]] && flunkedBytes == old(flunkedBytes) + g.PieceLen(index)
      ensures inactiveRequests == old(inactiveRequests)[index := Untouched]
    {
      hide DiskOk, BooksOk, HadRight, Geometry.PieceLen, Content, Tiling, Agrees, InactiveAmounts, LeftAmounts, Sum;
      PieceLong(index);
      HadNothingListed(index);
      AmountsUpdate(index, Untouched);
      flunkedBytes := flunkedBytes + g.PieceLen(index);
      inactiveRequests := inactiveRequests[index := Untouched];
      amountInactive := amountInactive + g.PieceLen(index);
      arrived := arrived[index := map[]];
      OthersBooks(index);
    }

    /** The check made when the last block of a piece is in: the piece is had if all that came in
        has the right hash, and starts over otherwise. */
    method CheckPiece(index: nat) returns (ok: bool)
      requires DiskOk() && PlacesOk() && RecordsOk() && index < g.count
      requires inactiveRequests[index] == Listed([]) && numactive[index] == 0
      modifies this`have, this`inactiveRequests, this`waschecked, this`amountLeft, this`amountInactive
      modifies this`finishedCalls, this`flunkedBytes, this`arrived
      ensures RecordsOk()
      ensures old(AllIn(index)) && (ok <==> sha(old(Whole(index))) == hashes[index])
      ensures index < |hashes| && (ok <==> Right(index))
      ensures arrived == old(arrived)[index := map[]]
      ensures ok ==> have == old(have)[index := true] && inactiveRequests == old(inactiveRequests)[index := Had]
      ensures !ok ==> have == old(have) && inactiveRequests == old(inactiveRequests)[index := Untouched]
      ensures flunkedBytes == old(flunkedBytes) + if ok then 0 else g.PieceLen(index)
      ensures amountLeft == old(amountLeft) - if ok then g.PieceLen(index) else 0
      ensures finishedCalls == old(finishedCalls) + if ok && amountLeft == 0 then 1 else 0
    {
      hide DiskOk, PlacesOk, HashesOk, SumsOk, BooksOk, AllIn, Whole, Right, RightPiece, Geometry.PieceLen;
      var bytes := ReadWhole(index);
      if sha(bytes) == hashes[index] {
        AcceptPiece(index);
        if amountLeft == 0 {
          finishedCalls := finishedCalls + 1;
        }
        ok := true;
      } else {
        RejectPiece(index);
        ok := false;
      }
    }

    /** The outcome of checking a piece: all its requests are answered, and it is right or not. */
    ghost predicate Completes(index: nat, a: Arrived, ok: bool) {
      && index < |hashes| && g.PieceLen(index) > 0 && requestSize > 0
      && (forall t :: t in Tiling(g.PieceLen(index), requestSize, 0) ==> t in a)
      && (ok <==> sha(Assemble(Tiling(g.PieceLen(index), requestSize, 0), a)) == hashes[index])
    }

    ghost predicate IsIssued(index: nat, t: Tile)
      reads this`issued
    {
      index < |issued| && t in issued[index]
    }

    ghost function ArrivedWith(index: nat, t: Tile, data: seq<byte>): Arrived
      reads this`arrived
    {
      if index < |arrived| then arrived[index][t := data] else map[]
    }

    /** Nothing of the piece was open and nothing is outstanding any more. */
    twostate predicate Last(index: nat)
      reads this`issued
    {
      && index < |old(inactiveRequests)| && index < |issued|
      && old(inactiveRequests)[index] == Listed([]) && issued[index] == {}
    }

    /** A block arrived that was not the last of its piece. */
    twostate predicate Continues(index: nat, new a: Arrived)
      reads this`have, this`inactiveRequests, this`arrived, this`amountLeft, this`flunkedBytes, this`finishedCalls
    {
      && have == old(have) && inactiveRequests == old(inactiveRequests)
      && index < |old(arrived)| && arrived == old(arrived)[index := a]
      && amountLeft == old(amountLeft) && flunkedBytes == old(flunkedBytes) && finishedCalls == old(finishedCalls)
    }

    /** The last block of a piece arrived, and its check turned out ok or not. */
    twostate predicate Ends(index: nat, ok: bool)
      reads this`have, this`inactiveRequests, this`arrived, this`amountLeft, this`flunkedBytes, this`finishedCalls
    {
      && index < |old(arrived)| && index < |old(have)| && index < |old(inactiveRequests)|
      && have == (if ok then old(have)[index := true] else old(have))
      && inactiveRequests == old(inactiveRequests)[index := if ok then Had else Untouched]
      && arrived == old(arrived)[index := map[]]
      && amountLeft == old(amountLeft) - (if ok then g.PieceLen(index) else 0)
      && flunkedBytes == old(flunkedBytes) + (if ok then 0 else g.PieceLen(index))
      && finishedCalls == old(finishedCalls) + (if ok && amountLeft == 0 then 1 else 0)
    }

    /** One request of one piece is no longer outstanding. */
    twostate predicate Answered(index: nat, t: Tile)
      reads this`issued
    {
      index < |old(issued)| && issued == old(issued)[index := old(issued)[index] - {t}]
    }

    /** The bytes are those of piece i where it lies at present. */
    ghost predicate Holds(i: nat, bytes: seq<byte>)
      requires DiskOk()
      reads this`places, storage
    {
      && i in places && |bytes| == Min(g.pieceSize, g.total - i * g.pieceSize)
      && forall k :: 0 <= k < |bytes| ==> CellIs(places[i] * g.pieceSize + k, bytes[k])
    }

    /** The byte on disk at a position of the download. */
    ghost predicate CellIs(pos: int, b: byte)
      requires DiskOk()
      reads storage
    {
      0 <= pos < g.total && storage.Cells()[pos] == Data(b)
    }

    /** What lies in the slot of a piece is its content. */
    lemma HoldsContent(i: nat)
      requires DiskOk() && PlacesOk() && i in places
      ensures |Content(g, storage.Cells(), places, i)| == g.PieceLen(i) && Holds(i, Content(g, storage.Cells(), places, i))
    {
      PlacedSeated(g, places, holes);
      BackedAt(g, storage.Cells(), places, i);
      hide Backed, Placed, Storage.Inv;
      SlotReach(i, places[i]);
      var bytes := Content(g, storage.Cells(), places, i);
      hide Geometry.Home, Geometry.PieceLen, Geometry.Sized, Fits;
      forall k | 0 <= k < |bytes| ensures CellIs(places[i] * g.pieceSize + k, bytes[k]) {
      }
    }

    lemma SlotReach(i: nat, s: nat)
      requires g.Sized() && i < g.count && s < g.count && Fits(g, i, s)
      ensures 0 < g.PieceLen(i) == Min(g.pieceSize, g.total - i * g.pieceSize)
      ensures g.Home(s) == s * g.pieceSize && g.Home(s) + g.PieceLen(i) <= g.Home(s) + g.PieceLen(s) <= g.total
    {
      g.SlotBounds(i);
      g.SlotBounds(s);
    }

    lemma HoldsPart(i: nat, begin: nat, data: seq<byte>)
      requires DiskOk() && PlacesOk() && i in places
      requires begin + |data| <= |Content(g, storage.Cells(), places, i)|
      requires data == Content(g, storage.Cells(), places, i)[begin..begin + |data|]
      ensures Written(i, begin, data)
    {
      HoldsContent(i);
      var bytes := Content(g, storage.Cells(), places, i);
      hide PlacesOk, Content, Storage.Inv, CellIs;
      forall k | 0 <= k < |data| ensures CellIs(places[i] * g.pieceSize + begin + k, data[k]) {
        assert CellIs(places[i] * g.pieceSize + (begin + k), bytes[begin + k]);
      }
    }

    /** The data is on disk from position begin of piece i on, wherever the piece lies. */
    ghost predicate Written(i: nat, begin: nat, data: seq<byte>)
      requires DiskOk()
      reads this`places, storage
    {
      i in places && forall k :: 0 <= k < |data| ==> CellIs(places[i] * g.pieceSize + begin + k, data[k])
    }

    /** The bytes of piece i, where it lies at present, have the expected hash. */
    ghost predicate Right(i: nat)
      requires DiskOk() && i < |hashes|
      reads this`places, storage
    {
      exists bytes :: Holds(i, bytes) && sha(bytes) == hashes[i]
    }

    lemma HoldsOne(i: nat, a: seq<byte>, b: seq<byte>)
      requires DiskOk() && Holds(i, a) && Holds(i, b)
      ensures a == b
    {
      hide Storage.Inv;
      forall k | 0 <= k < |a| ensures a[k] == b[k] {
        assert CellIs(places[i] * g.pieceSize + k, a[k]) && CellIs(places[i] * g.pieceSize + k, b[k]);
      }
    }

    lemma RightMeans(i: nat)
      requires DiskOk() && PlacesOk() && i in places && i < |hashes|
      ensures Right(i) <==> RightPiece(storage.Cells(), places, i)
    {
      HoldsContent(i);
      hide PlacesOk, Holds, Storage.Inv;
      if Right(i) {
        var bytes :| Holds(i, bytes) && sha(bytes) == hashes[i];
        HoldsOne(i, bytes, Content(g, storage.Cells(), places, i));
      }
    }

    /** Python's piece_came_in: stores a block that was asked for, and checks the piece when that
        was the last one. */
    method PieceCameIn(index: nat, begin: nat, data: seq<byte>) returns (ok: bool)
      requires Valid() && IsIssued(index, (begin, |data|))
      modifies this, storage
      ensures Valid() && Answered(index, (begin, |data|)) && endgame == old(endgame)
      ensures Stored(g, old(storage.Cells()), old(places), storage.Cells(), places, index, begin, data)
      ensures DiskOk() && Written(index, begin, data) && index < |hashes| && (Last(index) ==> (ok <==> Right(index)))
      ensures Last(index) ==> Completes(index, old(ArrivedWith(index, (begin, |data|), data)), ok) && Ends(index, ok)
      ensures !Last(index) ==> ok && Continues(index, old(ArrivedWith(index, (begin, |data|), data)))
    {
      hide Inv, DiskOk, PlacesOk, RecordsOk, BooksOk, HashesOk, SumsOk, Stored, Completes, Geometry.Sized, Geometry.PieceLen;
      hide Content, Splice, Books, Partition, Written, Right;
      UnpackRecords();
      TakeIn(index, begin, data);
      ok := CheckIfLast(index);
      LeftAfter(index);
      PackRecords();
    }

    /** amount_left never falls below zero, and is zero exactly when every piece is had. */
    lemma LeftAfter(index: nat)
      requires DiskOk() && RecordsOk() && index < g.count
      ensures HadRight() && 0 < g.PieceLen(index) && 0 <= amountLeft && (amountLeft == 0 <==> forall i :: 0 <= i < g.count ==> have[i])
    {
      forall i | 0 <= i < g.count
        ensures LeftAmounts(have)[i] >= 0 && g.PieceLen(i) > 0
      {
        g.SlotBounds(i);
      }
      SumNonNegative(LeftAmounts(have));
      if forall i :: 0 <= i < g.count ==> have[i] {
        assert forall i :: 0 <= i < g.count ==> LeftAmounts(have)[i] == 0;
      }
      if i :| 0 <= i < g.count && !have[i] {
        assert LeftAmounts(have)[i] == g.PieceLen(i) > 0;
      }
    }

    /** Piece i lies in its own slot, complete and with the right hash. */
    ghost predicate AtHome(i: nat)
      requires DiskOk() && i < |hashes|
      reads this`places, storage
    {
      && i in places && places[i] == i
      && SlotBacked(g, storage.Cells(), i) && sha(BytesAt(storage.Cells(), g.Home(i), g.PieceLen(i))) == hashes[i]
    }

    /** The finished download: nothing is missing, every piece lies in its own slot, and what lies
        there has the right hash. It is reached exactly when finished() has been called. */
    lemma Complete()
      requires Valid()
      ensures DiskOk() && Sizes() && finishedCalls <= 1 && (finishedCalls == 1 <==> amountLeft == 0)
      ensures amountLeft == 0 <==> forall i :: 0 <= i < g.count ==> have[i]
      ensures amountLeft == 0 ==> holes == [] && forall i :: 0 <= i < g.count ==> AtHome(i)
      ensures amountLeft == 0 ==> forall i: nat :: i < g.count ==> i in places && places[i] == i && Right(i)
    {
      hide Right, Inv, PlacesOk, RecordsOk, Storage.Inv, Geometry.PieceLen, Geometry.Home;
      UnpackRecords();
      LeftAfter(0);
      if amountLeft == 0 {
        EveryoneHome();
        forall i: nat | i < g.count ensures i in places && places[i] == i && Right(i) {
          assert AtHome(i);
          HadHash(i);
        }
      }
    }

    /** Where pieces may lie: each in its own slot or in one it fits, no two in the same; the slots not
        in use are the holes; and a piece away from its own slot has that slot free. */
    lemma PlacementHolds()
      requires Valid()
      ensures g.count > 0
      ensures forall p, q :: p in places && q in places && p != q ==> places[p] != places[q]
      ensures forall s: nat :: s < g.count ==> (s in places.Values <==> s !in holes)
      ensures forall p :: p in places ==> p < g.count && places[p] < g.count && g.PieceLen(p) <= g.PieceLen(places[p])
      ensures forall p :: p in places && places[p] != p ==> p in holes
      ensures forall i, j :: 0 <= i < j < |holes| ==> holes[i] < holes[j]
    {
      hide RecordsOk, Backed, Storage.Inv;
      forall p | p in places ensures p < g.count && places[p] < g.count && g.PieceLen(p) <= g.PieceLen(places[p]) {
        g.SlotBounds(p);
      }
    }

    /** Of a piece not yet had, every block is either still to be requested, or requested, or has
        arrived; of one that is had, none is. The two byte counts are the sums that they stand for. */
    lemma BlocksAccounted(i: nat)
      requires Valid() && i < g.count
      ensures Sizes()
      ensures have[i] ==> Open(i) == {} && issued[i] == {} && arrived[i] == map[]
      ensures !have[i] ==> forall t :: IsTile(i, t) <==> t in Open(i) || t in issued[i] || t in arrived[i]
      ensures Open(i) !! issued[i] && Open(i) !! arrived[i].Keys && issued[i] !! arrived[i].Keys
      ensures numactive[i] == |issued[i]|
      ensures amountInactive == Sum(InactiveAmounts(inactiveRequests)) && amountLeft == Sum(LeftAmounts(have))
    {
      hide PlacesOk, HashesOk, Storage.Inv, Geometry.PieceLen, Tiling;
      assert PieceBooks(i);
    }

    lemma EveryoneHome()
      requires DiskOk() && PlacesOk() && HadRight() && forall i :: 0 <= i < g.count ==> have[i]
      ensures holes == [] && forall i :: 0 <= i < g.count ==> AtHome(i)
    {
      hide Storage.Inv, Geometry.PieceLen, Geometry.Home, Placed, Backed, SlotBacked, BytesAt;
      forall i: nat | i < g.count ensures i in places {
        assert have[i] && RightPiece(storage.Cells(), places, i);
      }
      AllPlaced(g, places, holes);
      forall i | 0 <= i < g.count ensures AtHome(i) {
        assert have[i] && RightPiece(storage.Cells(), places, i);
        BackedAt(g, storage.Cells(), places, i);
      }
    }

    /** Python's get_piece: serves part of a piece that is had, wherever it is stored. */
    method GetPiece(index: nat, begin: nat, length: nat) returns (r: Option<seq<byte>>)
      requires Valid() && index < |have|
      ensures r.Some? <==> have[index] && begin + length <= g.PieceLen(index)
      ensures DiskOk() && |have| == |hashes| && (r.Some? ==> |r.value| == length && Serves(index, begin, r.value))
      ensures r.Some? ==> Right(index) && Written(index, begin, r.value)
    {
      hide Inv, PlacesOk, RecordsOk, Storage.Inv, Geometry.PieceLen, Geometry.Home, Geometry.Sized, CellIs;
      UnpackRecords();
      if !have[index] { return None; }
      if begin + length > g.PieceLen(index) { return None; }
      HadPlaced(index);
      var data := ReadPart(places[index], begin, length);
      PartOf(g, storage.Cells(), places, index, begin, length);
      HoldsPart(index, begin, data);
      RightMeans(index);
      return Some(data);
    }

    /** The data is the stretch at begin of the piece with the expected hash. */
    ghost predicate Serves(index: nat, begin: nat, data: seq<byte>)
      requires DiskOk() && index < |hashes|
      reads this`places, storage
    {
      && RightPiece(storage.Cells(), places, index)
      && begin + |data| <= |Content(g, storage.Cells(), places, index)|
      && data == Content(g, storage.Cells(), places, index)[begin..begin + |data|]
    }

    lemma HadPlaced(index: nat)
      requires DiskOk() && PlacesOk() && RecordsOk() && index < g.count && have[index]
      ensures RightPiece(storage.Cells(), places, index) && places[index] < g.count
      ensures SlotBacked(g, storage.Cells(), places[index]) && g.PieceLen(index) <= g.PieceLen(places[index])
    {
      assert RightPiece(storage.Cells(), places, index);
      PlacedSeated(g, places, holes);
      g.SlotBounds(index);
      g.SlotBounds(places[index]);
    }

    method ReadPart(slot: nat, begin: nat, length: nat) returns (data: seq<byte>)
      requires DiskOk() && slot < g.count && SlotBacked(g, storage.Cells(), slot) && begin + length <= g.PieceLen(slot)
      ensures |data| == length && data == BytesAt(storage.Cells(), g.Home(slot) + begin, length)
    {
      g.SlotBounds(slot);
      hide Storage.Inv, Geometry.Home, Geometry.PieceLen;
      data := storage.Read(g.Home(slot) + begin, length);
    }

    /** The second half of _piece_came_in. */
    method CheckIfLast(index: nat) returns (ok: bool)
      requires DiskOk() && PlacesOk() && RecordsOk() && Sizes() && index < g.count
      requires inactiveRequests[index].Listed? && numactive[index] == |issued[index]|
      modifies this`have, this`inactiveRequests, this`waschecked, this`amountLeft, this`amountInactive
      modifies this`finishedCalls, this`flunkedBytes, this`arrived
      ensures RecordsOk()
      ensures Last(index) ==> Completes(index, old(arrived[index]), ok) && Ends(index, ok)
      ensures index < |hashes| && (Last(index) ==> (ok <==> Right(index)))
      ensures !Last(index) ==> ok && Continues(index, old(arrived[index]))
    {
      hide DiskOk, PlacesOk, RecordsOk, Tiling, Geometry.PieceLen, Right;
      if !inactiveRequests[index].Truthy() && numactive[index] == 0 {
        ok := CheckPiece(index);
      } else {
        ok := true;
      }
    }

    lemma UnpackRecords()
      requires Valid()
      ensures DiskOk() && PlacesOk() && RecordsOk() && Sizes() && FinishedOk()
    {
    }

    lemma PackRecords()
      requires DiskOk() && PlacesOk() && RecordsOk() && FinishedOk()
      ensures Valid()
    {
    }

    /** The first half of _piece_came_in. */
    method TakeIn(index: nat, begin: nat, data: seq<byte>)
      requires DiskOk() && PlacesOk() && RecordsOk() && IsIssued(index, (begin, |data|))
      modifies this`places, this`holes, this`numactive, this`issued, this`arrived, storage
      ensures DiskOk() && PlacesOk() && RecordsOk()
      ensures Stored(g, old(storage.Cells()), old(places), storage.Cells(), places, index, begin, data)
      ensures Written(index, begin, data)
      ensures Sizes() && index < g.count && inactiveRequests[index].Listed? && numactive[index] == |issued[index]|
      ensures issued == old(issued)[index := old(issued[index]) - {(begin, |data|)}]
      ensures arrived == old(arrived)[index := old(arrived[index])[(begin, |data|) := data]]
    {
      IssuedFacts(index, (begin, |data|));
      HashesFacts();
      hide DiskOk, PlacesOk, SumsOk, HashesOk, HashesAt, HadRight, BooksOk, Awaited, Stored, InPlace, Written;
      StoreBlock(index, begin, data);
      HashesKept(old(storage.Cells()), old(places), index, begin, data);
      RecordBlock(index, begin, data);
      HashesAgain(index);
    }
  }
}
