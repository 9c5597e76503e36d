/** Which slot of the download each piece sits in, and what moving pieces about preserves. */
module Placement {
  import opened Basics
  import opened Storage

  datatype Geometry = Geometry(count: nat, pieceSize: nat, total: nat) {
    /** The sizes the constructor of StorageWrapper accepts. */
    ghost predicate Sized() {
      count > 0 && pieceSize > 0 && pieceSize * (count - 1) < total <= pieceSize * count
    }

    /** Where slot s begins; it is the home of piece s. */
    function Home(s: nat): nat {
      pieceSize * s
    }

    /** The length of piece p, and also of slot p. */
    function PieceLen(p: nat): int {
      if p < count - 1 then pieceSize else total - p * pieceSize
    }

    ghost predicate ShortLast()
      requires count > 0
    {
      PieceLen(count - 1) < pieceSize
    }

    lemma SlotBounds(s: nat)
      requires Sized() && s < count
      ensures 0 < PieceLen(s) <= pieceSize
      ensures Home(s) + PieceLen(s) <= total
      ensures s < count - 1 ==> PieceLen(s) == pieceSize
      ensures s == count - 1 ==> Home(s) + PieceLen(s) == total
    {
      if s < count - 1 {
        Spread(s, count - 1);
      } else {
        assert pieceSize * count == pieceSize * (count - 1) + pieceSize;
      }
    }

    lemma {:induction false} Spread(s: nat, t: nat)
      requires s < t
      ensures Home(s) + pieceSize <= Home(t)
    {
      assert pieceSize * t == pieceSize * (t - 1) + pieceSize;
      if s < t - 1 { Spread(s, t - 1); }
    }

    /** Different slots do not overlap. */
    lemma SlotsApart(s: nat, t: nat)
      requires Sized() && s < count && t < count && s != t
      ensures Home(s) + PieceLen(s) <= Home(t) || Home(t) + PieceLen(t) <= Home(s)
    {
      SlotBounds(s);
      SlotBounds(t);
      if s < t { Spread(s, t); } else { Spread(t, s); }
    }
  }

  type Places = map<nat, nat>

  // ---- who sits where ----

  /** A short last slot holds no piece but its own. */
  ghost predicate Fits(g: Geometry, p: nat, slot: nat)
    requires g.count > 0
  {
    slot == g.count - 1 && p != slot ==> !g.ShortLast()
  }

  ghost predicate Ascending(s: seq<nat>) {
    forall i, j :: 0 <= i < j < |s| ==> s[i] < s[j]
  }

  ghost predicate Injective(places: Places) {
    forall p, q :: p in places && q in places && places[p] == places[q] ==> p == q
  }

  /** The unused slots are the holes, together with the vacant one when there is one. */
  ghost predicate SlotsSplit(g: Geometry, places: Places, holes: seq<nat>, vacant: Option<nat>) {
    && (forall p :: p in places ==> p < g.count && places[p] < g.count)
    && (forall s :: s in holes ==> s < g.count && s !in places.Values && vacant != Some(s))
    && (vacant.Some? ==> vacant.value < g.count && vacant.value !in places.Values)
    && (forall s: nat :: s < g.count ==> s in places.Values || s in holes || vacant == Some(s))
  }

  ghost predicate Settled(g: Geometry, places: Places, holes: seq<nat>)
    requires g.count > 0
  {
    && Injective(places)
    && Ascending(holes)
    && (forall p :: p in places && places[p] != p ==> p in holes)
    && (forall p :: p in places ==> Fits(g, p, places[p]))
  }

  /** Distinct pieces in distinct slots that fit them: what moving bytes about relies on. */
  ghost predicate Seated(g: Geometry, places: Places)
    requires g.count > 0
  {
    && Injective(places)
    && forall p :: p in places ==> p < g.count && places[p] < g.count && Fits(g, p, places[p])
  }

  /** The placement invariant. */
  ghost predicate Placed(g: Geometry, places: Places, holes: seq<nat>)
    requires g.count > 0
  {
    SlotsSplit(g, places, holes, None) && Settled(g, places, holes)
  }

  /** In the middle of placing a new piece one slot is neither a hole nor in use. */
  ghost predicate Vacated(g: Geometry, places: Places, holes: seq<nat>, vacant: nat)
    requires g.count > 0
  {
    SlotsSplit(g, places, holes, Some(vacant)) && Settled(g, places, holes)
  }

  /** The numbers below n. */
  ghost function Below(n: nat): (s: set<nat>)
    ensures |s| == n
    ensures forall x: nat :: x in s <==> x < n
  {
    if n == 0 then {} else Below(n - 1) + {n - 1}
  }

  lemma {:induction false} ValuesOfInjective(places: Places)
    requires Injective(places)
    ensures |places.Values| == |places|
  {
    if places.Keys != {} {
      var p :| p in places;
      var rest := places - {p};
      assert Injective(rest);
      ValuesOfInjective(rest);
      assert forall q :: q in rest ==> places[q] == rest[q];
      assert places.Values == rest.Values + {places[p]} by {
        forall s | s in places.Values ensures s in rest.Values || s == places[p] {
          var q :| q in places && places[q] == s;
          if q != p { assert rest[q] == s; }
        }
      }
      assert places[p] !in rest.Values;
    } else {
      assert places.Values == {};
    }
  }

  ghost function Elements(s: seq<nat>): set<nat> { set x | x in s }

  lemma {:induction false} AscendingCount(s: seq<nat>)
    requires Ascending(s)
    ensures |Elements(s)| == |s|
  {
    if s != [] {
      var front, last := s[..|s| - 1], s[|s| - 1];
      AscendingCount(front);
      assert s == front + [last];
      assert Elements(s) == Elements(front) + {last};
      assert last !in Elements(front);
    }
  }

  /** Pieces placed and holes left together number the slots. */
  lemma PlacedCount(g: Geometry, places: Places, holes: seq<nat>)
    requires g.count > 0 && Placed(g, places, holes)
    ensures |places| + |holes| == g.count
  {
    ValuesOfInjective(places);
    AscendingCount(holes);
    var used, free := places.Values, Elements(holes);
    assert used !! free;
    assert used + free == Below(g.count) by { SlotsCovered(g, places, holes); }
  }

  lemma SlotsCovered(g: Geometry, places: Places, holes: seq<nat>)
    requires SlotsSplit(g, places, holes, None)
    ensures places.Values + Elements(holes) == Below(g.count)
  {
    forall s | s in places.Values ensures s < g.count {
      var p :| p in places && places[p] == s;
    }
  }

  /** There is a hole for a piece that has no place yet. */
  lemma HoleForNew(g: Geometry, places: Places, holes: seq<nat>, index: nat)
    requires g.count > 0 && Placed(g, places, holes) && index < g.count && index !in places
    ensures holes != []
  {
    PlacedCount(g, places, holes);
    if |places| == g.count {
      Pigeonhole(places.Keys, g.count);
      assert false;
    }
  }

  lemma LastHoleOnly(holes: seq<nat>, count: nat)
    requires Ascending(holes) && holes != [] && holes[0] == count - 1
    requires forall s :: s in holes ==> s < count
    ensures |holes| == 1
  {
    assert holes[|holes| - 1] in holes;
  }

  /** If the last slot is the first hole, the last piece is the only one that can be missing. */
  lemma LastHole(g: Geometry, places: Places, holes: seq<nat>, index: nat)
    requires g.count > 0 && Placed(g, places, holes) && index < g.count && index !in places
    requires holes != [] && holes[0] == g.count - 1
    ensures g.count - 1 in places || index == g.count - 1
  {
    assert |holes| == 1 by { LastHoleOnly(holes, g.count); }
    PlacedCount(g, places, holes);
    Pigeonhole(places.Keys + {index}, g.count);
  }

  /** With nobody missing there are no holes and everybody is at home. */
  lemma AllPlaced(g: Geometry, places: Places, holes: seq<nat>)
    requires g.count > 0 && Placed(g, places, holes)
    requires forall p: nat :: p < g.count ==> p in places
    ensures holes == [] && forall p: nat :: p < g.count ==> places[p] == p
  {
    PlacedCount(g, places, holes);
    assert places.Keys == Below(g.count);
  }

  /** Taking the first hole when its own piece is not about: the hole is the vacant slot. */
  lemma TakeHole(g: Geometry, places: Places, holes: seq<nat>, index: nat)
    requires g.count > 0 && Placed(g, places, holes) && holes != [] && holes[0] !in places
    requires index < g.count && index !in places
    ensures Vacated(g, places, holes[1..], holes[0]) && Seated(g, places)
    ensures index != holes[0] && g.ShortLast() ==> holes[0] != g.count - 1
  {
    if holes[0] == g.count - 1 {
      LastHole(g, places, holes, index);
    }
    assert holes[0] in holes && holes[0] !in holes[1..];
    assert forall s :: s in holes <==> s == holes[0] || s in holes[1..];
  }

  /** Taking the first hole by bringing its own piece home: where that piece was is now vacant. */
  lemma BringHome(g: Geometry, places: Places, holes: seq<nat>)
    requires g.count > 0 && Placed(g, places, holes) && holes != [] && holes[0] in places
    ensures places[holes[0]] != holes[0] && holes[0] !in places.Values && Seated(g, places)
    ensures Seated(g, places[holes[0] := holes[0]])
    ensures Vacated(g, places[holes[0] := holes[0]], holes[1..], places[holes[0]])
    ensures g.ShortLast() ==> places[holes[0]] != g.count - 1
  {
    var n := holes[0];
    FirstHole(holes);
    assert Fits(g, n, places[n]);
    assert places[n] in places.Values;
    ValuesMove(places, n, n);
    hide Ascending;
  }

  lemma FirstHole(holes: seq<nat>)
    requires Ascending(holes) && holes != []
    ensures Ascending(holes[1..]) && holes[0] in holes && holes[0] !in holes[1..]
    ensures forall s :: s in holes <==> s == holes[0] || s in holes[1..]
  {
  }

  /** The slots in use after piece p has moved to slot b. */
  lemma ValuesMove(places: Places, p: nat, b: nat)
    requires Injective(places) && p in places && b !in places.Values
    ensures forall s :: s in places[p := b].Values <==> s == b || (s in places.Values && s != places[p])
  {
    var places' := places[p := b];
    assert places'[p] == b;
    forall s | s in places.Values && s != places[p] ensures s in places'.Values {
      var q :| q in places && places[q] == s;
      assert places'[q] == s;
    }
    forall s | s in places'.Values ensures s == b || (s in places.Values && s != places[p]) {
      var q :| q in places' && places'[q] == s;
      if q != p { assert places[q] == s && places[p] != s; }
    }
  }

  /** Putting the new piece into the vacant slot. */
  lemma SettleInVacant(g: Geometry, places: Places, holes: seq<nat>, vacant: nat, index: nat)
    requires g.count > 0 && Vacated(g, places, holes, vacant)
    requires index < g.count && index !in places && Fits(g, index, vacant)
    requires index == vacant || index in holes
    ensures Placed(g, places[index := vacant], holes)
  {
    var places' := places[index := vacant];
    assert places'[index] == vacant && vacant in places'.Values;
    forall s | s in places.Values ensures s in places'.Values {
      var p :| p in places && places[p] == s;
      assert places'[p] == s;
    }
    forall s | s in places'.Values ensures s == vacant || s in places.Values {
      var p :| p in places' && places'[p] == s;
      if p != index { assert places[p] == s; }
    }
  }

  /** Evicting whoever sits in the new piece's home into the vacant slot. */
  lemma SettleAtHome(g: Geometry, places: Places, holes: seq<nat>, vacant: nat, index: nat, p: nat)
    requires g.count > 0 && Vacated(g, places, holes, vacant)
    requires index < g.count && index !in places && index != vacant && index !in holes
    requires p in places && places[p] == index && Fits(g, p, vacant)
    ensures Placed(g, places[index := index][p := vacant], holes)
  {
    var places' := places[index := index][p := vacant];
    assert places'[index] == index && index in places'.Values;
    assert places'[p] == vacant && vacant in places'.Values;
    forall s | s in places.Values ensures s in places'.Values {
      var q :| q in places && places[q] == s;
      assert q != p ==> places'[q] == s;
    }
    forall s | s in places'.Values ensures s == vacant || s in places.Values {
      var q :| q in places' && places'[q] == s;
      if q == index { assert places[p] == s; }
      else if q != p { assert places[q] == s; }
    }
    assert index in places.Values;
  }

  lemma EvictFits(g: Geometry, places: Places, holes: seq<nat>, vacant: nat, index: nat, p: nat)
    requires g.Sized() && Vacated(g, places, holes, vacant)
    requires index < g.count && index !in places && p in places && places[p] == index
    requires g.ShortLast() ==> vacant != g.count - 1
    ensures p < g.count && vacant < g.count && Fits(g, p, vacant) && vacant !in places.Values
    ensures 0 < g.PieceLen(index) == g.pieceSize == g.PieceLen(vacant)
  {
    assert Fits(g, p, index);
    g.SlotBounds(index);
    g.SlotBounds(vacant);
  }

  lemma PlacedSeated(g: Geometry, places: Places, holes: seq<nat>)
    requires g.count > 0 && Placed(g, places, holes)
    ensures Seated(g, places)
  {
  }

  lemma PartOf(g: Geometry, cells: seq<Cell>, places: Places, p: nat, begin: nat, length: nat)
    requires p in places && begin + length <= g.PieceLen(p)
    ensures begin + length <= |Content(g, cells, places, p)|
    ensures Content(g, cells, places, p)[begin..begin + length] == BytesAt(cells, g.Home(places[p]) + begin, length)
  {
    hide Geometry.PieceLen, Geometry.Home;
  }

  /** A slot that is neither a hole nor vacant has an occupant. */
  lemma SomeoneAt(g: Geometry, places: Places, holes: seq<nat>, vacant: nat, slot: nat) returns (p: nat)
    requires g.count > 0 && Vacated(g, places, holes, vacant) && slot < g.count && slot != vacant && slot !in holes
    ensures p in places && places[p] == slot
  {
    assert slot in places.Values;
    p :| p in places && places[p] == slot;
  }

  // ---- what the slots hold ----

  function BytesAt(cells: seq<Cell>, lo: nat, n: int): seq<byte> {
    if n <= 0 then []
    else seq(n, k requires 0 <= k < n =>
           if lo + k < |cells| && cells[lo + k].Data? then cells[lo + k].value else 0)
  }

  /** The bytes of a placed piece, wherever it currently sits. */
  ghost function Content(g: Geometry, cells: seq<Cell>, places: Places, p: nat): seq<byte>
    requires p in places
  {
    BytesAt(cells, g.Home(places[p]), g.PieceLen(p))
  }

  ghost predicate SlotBacked(g: Geometry, cells: seq<Cell>, slot: nat) {
    AllData(cells, g.Home(slot), g.Home(slot) + g.PieceLen(slot))
  }

  /** Every slot in use lies within what its file holds, so that reading it never falls short. */
  ghost predicate Backed(g: Geometry, cells: seq<Cell>, places: Places) {
    forall p :: p in places ==> SlotBacked(g, cells, places[p])
  }

  /** Every piece of old is still placed and reads back the same bytes. */
  ghost predicate Kept(g: Geometry, cells: seq<Cell>, places: Places, cells': seq<Cell>, places': Places) {
    forall p :: p in places ==> p in places' && Content(g, cells', places', p) == Content(g, cells, places, p)
  }

  lemma BackedAt(g: Geometry, cells: seq<Cell>, places: Places, p: nat)
    requires Backed(g, cells, places) && p in places
    ensures SlotBacked(g, cells, places[p])
  {
  }

  lemma KeptSame(g: Geometry, a: seq<Cell>, pa: Places)
    ensures Kept(g, a, pa, a, pa)
  {
  }

  lemma KeptTwice(g: Geometry, a: seq<Cell>, pa: Places, b: seq<Cell>, pb: Places, c: seq<Cell>, pc: Places)
    requires Kept(g, a, pa, b, pb) && Kept(g, b, pb, c, pc)
    ensures Kept(g, a, pa, c, pc)
  {
  }

  lemma KeptNewcomer(g: Geometry, a: seq<Cell>, pa: Places, b: seq<Cell>, pb: Places, index: nat, slot: nat)
    requires Kept(g, a, pa, b, pb) && Backed(g, b, pb)
    requires index !in pb && SlotBacked(g, b, slot)
    ensures Kept(g, a, pa, b, pb[index := slot]) && Backed(g, b, pb[index := slot])
  {
  }

  /** Filling a free slot leaves every placed piece alone. */
  lemma FillKeeps(g: Geometry, before: seq<Cell>, after: seq<Cell>, places: Places, b: nat, data: seq<byte>)
    requires g.Sized() && |before| == g.total && Backed(g, before, places) && Seated(g, places)
    requires b < g.count && b !in places.Values
    requires |data| == g.PieceLen(b) && Wrote(before, after, g.Home(b), data)
    ensures Backed(g, after, places) && SlotBacked(g, after, b) && Kept(g, before, places, after, places)
  {
    g.SlotBounds(b);
    forall q | q in places
      ensures SlotBacked(g, after, places[q])
      ensures Content(g, after, places, q) == Content(g, before, places, q)
    {
      g.SlotBounds(q);
      g.SlotBounds(places[q]);
      OtherSlot(g, before, after, b, 0, data, places[q], g.PieceLen(q));
    }
  }

  /** Writing within one slot leaves the bytes and backing of every other slot alone. */
  lemma OtherSlot(g: Geometry, before: seq<Cell>, after: seq<Cell>, slot: nat, offset: nat, data: seq<byte>, other: nat, n: int)
    requires g.Sized() && |before| == g.total && slot < g.count && other < g.count && slot != other
    requires offset + |data| <= g.PieceLen(slot) && n <= g.PieceLen(other)
    requires Wrote(before, after, g.Home(slot) + offset, data) && SlotBacked(g, before, other)
    ensures BytesAt(after, g.Home(other), n) == BytesAt(before, g.Home(other), n)
    ensures SlotBacked(g, after, other)
  {
    g.SlotsApart(slot, other);
    g.SlotBounds(other);
  }

  /** Copying piece p into the free slot b, and recording it there, keeps every piece's bytes. */
  lemma MoveKeeps(g: Geometry, before: seq<Cell>, after: seq<Cell>, places: Places, p: nat, b: nat, data: seq<byte>)
    requires g.Sized() && |before| == g.total && Backed(g, before, places) && Seated(g, places)
    requires p in places && b < g.count && b !in places.Values && Fits(g, p, b)
    requires |data| == g.PieceLen(b) && data == BytesAt(before, g.Home(places[p]), |data|)
    requires Wrote(before, after, g.Home(b), data)
    ensures Backed(g, after, places[p := b]) && SlotBacked(g, after, places[p])
    ensures Kept(g, before, places, after, places[p := b])
  {
    var places' := places[p := b];
    g.SlotBounds(b);
    g.SlotBounds(p);
    FillKeeps(g, before, after, places, b, data);
    assert Content(g, after, places', p) == Content(g, before, places, p);
  }

  /** Writing part of a placed piece changes that part of it and nothing else. */
  lemma WriteInPlace(g: Geometry, before: seq<Cell>, after: seq<Cell>, places: Places, index: nat, begin: nat, data: seq<byte>)
    requires g.Sized() && |before| == g.total && Backed(g, before, places) && Seated(g, places)
    requires index in places && begin + |data| <= g.PieceLen(index)
    requires Wrote(before, after, g.Home(places[index]) + begin, data)
    ensures Backed(g, after, places)
    ensures forall p :: p in places && p != index ==> Content(g, after, places, p) == Content(g, before, places, p)
    ensures |Content(g, before, places, index)| == g.PieceLen(index)
    ensures Content(g, after, places, index) ==
            Content(g, before, places, index)[..begin] + data + Content(g, before, places, index)[begin + |data|..]
  {
    var slot := places[index];
    g.SlotBounds(slot);
    g.SlotBounds(index);
    forall q | q in places && q != index
      ensures SlotBacked(g, after, places[q])
      ensures Content(g, after, places, q) == Content(g, before, places, q)
    {
      g.SlotBounds(q);
      g.SlotBounds(places[q]);
      OtherSlot(g, before, after, slot, begin, data, places[q], g.PieceLen(q));
    }
    assert SlotBacked(g, before, slot);
  }

  /** What storing a block does to the pieces: the block's own piece changes exactly there, and
      every other placed piece reads back as before, wherever it now sits. */
  ghost predicate Stored(g: Geometry, before: seq<Cell>, places: Places, after: seq<Cell>, places': Places,
                         index: nat, begin: nat, data: seq<byte>)
  {
    && places'.Keys == places.Keys + {index}
    && (forall p :: p in places && p != index ==> Content(g, after, places', p) == Content(g, before, places, p))
    && begin + |data| <= |Content(g, after, places', index)|
    && Content(g, after, places', index)[begin..begin + |data|] == data
    && (index in places && begin + |data| <= |Content(g, before, places, index)| ==>
          var was := Content(g, before, places, index);
          Content(g, after, places', index) == was[..begin] + data + was[begin + |data|..])
  }
}
