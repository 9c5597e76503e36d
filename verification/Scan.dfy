/** The start-up scan of an existing download, seen as placing one slot's content after another. */
module Scan {
  import opened Basics
  import opened Placement

  /** Where the scan stands once it has looked at the slots below i. The slots in pre were on disk
      in full; the others become holes. */
  ghost predicate Scanned(g: Geometry, pre: set<nat>, have: seq<bool>, places: Places, holes: seq<nat>, i: nat)
    requires g.count > 0 && |have| == g.count
  {
    && Seated(g, places) && Ascending(holes)
    && (forall p :: p in places ==> places[p] < i)
    && (forall p :: p in places && places[p] != p ==> p !in pre)
    && (forall p :: p in places && !have[p] ==> places[p] == p)
    && (forall p :: 0 <= p < g.count && have[p] ==> p in places)
    && (forall s :: s in holes ==> s < i && s !in pre)
    && (forall s: nat :: s < i && s !in pre ==> s in holes)
    && (forall s: nat :: s in places.Values <==> s < i && s in pre)
  }

  lemma ScanStart(g: Geometry, pre: set<nat>, have: seq<bool>)
    requires g.count > 0 && |have| == g.count && forall p :: 0 <= p < g.count ==> !have[p]
    ensures Scanned(g, pre, have, map[], [], 0)
  {
  }

  /** A slot that was not on disk becomes a hole. */
  lemma ScanHole(g: Geometry, pre: set<nat>, have: seq<bool>, places: Places, holes: seq<nat>, i: nat)
    requires g.count > 0 && |have| == g.count && Scanned(g, pre, have, places, holes, i)
    requires i !in pre
    ensures Scanned(g, pre, have, places, holes + [i], i + 1)
  {
    assert forall s :: s in holes + [i] <==> s in holes || s == i;
    assert forall k :: 0 <= k < |holes| ==> holes[k] in holes;
  }

  lemma ValuesUpdate(places: Places, p: nat, s: nat)
    requires p !in places
    ensures forall v :: v in places[p := s].Values <==> v in places.Values || v == s
  {
    var places' := places[p := s];
    assert places'[p] == s;
    forall v | v in places.Values ensures v in places'.Values {
      var q :| q in places && places[q] == v;
      assert places'[q] == v;
    }
    forall v | v in places'.Values ensures v in places.Values || v == s {
      var q :| q in places' && places'[q] == v;
      if q != p { assert places[q] == v; }
    }
  }

  /** Slot i is given to piece p: its own, or one that was not on disk in its own slot. */
  lemma ScanGive(g: Geometry, pre: set<nat>, have: seq<bool>, have': seq<bool>, places: Places, holes: seq<nat>, i: nat, p: nat)
    requires g.count > 0 && |have| == g.count && Scanned(g, pre, have, places, holes, i)
    requires i in pre && i < g.count && p < g.count && Fits(g, p, i)
    requires p == i || (p !in pre && p !in places)
    requires have' == have[p := true] || (have' == have && p == i)
    ensures p !in places && !have[p]
    ensures Scanned(g, pre, have', places[p := i], holes, i + 1)
  {
    assert p !in places;
    ValuesUpdate(places, p, i);
    assert i !in places.Values;
  }

  /** At the end the placement invariant holds, whatever was on disk. */
  lemma ScanEnd(g: Geometry, pre: set<nat>, have: seq<bool>, places: Places, holes: seq<nat>)
    requires g.count > 0 && |have| == g.count && Scanned(g, pre, have, places, holes, g.count)
    ensures Placed(g, places, holes)
    ensures forall s: nat :: s < g.count ==> (s in places.Values <==> s in pre)
  {
    assert forall p :: p in places ==> places[p] in places.Values;
  }

  // ---- pieces wanted elsewhere ----

  type Hash = seq<byte>

  type Targets = map<Hash, seq<nat>>

  function Rest(targets: Targets, h: Hash): seq<nat> {
    if h in targets then targets[h] else []
  }

  /** The pieces not on disk in their own slot, listed by hash. Only a short last piece can be
      listed although it has been found already. */
  ghost predicate Wanted(g: Geometry, pre: set<nat>, hashes: seq<Hash>, places: Places, targets: Targets)
    requires g.count > 0 && |hashes| == g.count
  {
    && (forall h :: h in targets ==> Ascending(targets[h]))
    && (forall h, t :: h in targets && t in targets[h] ==> Entry(g, pre, hashes, places, h, t))
  }

  ghost predicate Entry(g: Geometry, pre: set<nat>, hashes: seq<Hash>, places: Places, h: Hash, t: nat)
    requires g.count > 0 && |hashes| == g.count
  {
    t < g.count && t !in pre && hashes[t] == h && (t in places ==> t == g.count - 1 && g.ShortLast())
  }

  /** The last piece, when it is not on disk, is the last entry under its hash until it is found. */
  ghost predicate LastWanted(g: Geometry, pre: set<nat>, hashes: seq<Hash>, places: Places, targets: Targets)
    requires g.count > 0 && |hashes| == g.count
  {
    var last := g.count - 1;
    last !in pre && last !in places ==>
      var h := hashes[last];
      h in targets && targets[h] != [] && targets[h][|targets[h]| - 1] == last
  }

  /** The pieces below i that are not on disk have been listed, each under its hash, and no others. */
  ghost predicate Listing(g: Geometry, pre: set<nat>, hashes: seq<Hash>, targets: Targets, i: nat)
    requires g.count > 0 && |hashes| == g.count && i <= g.count
  {
    && Wanted(g, pre, hashes, map[], targets)
    && (forall h, t :: h in targets && t in targets[h] ==> t < i)
    && (forall t: nat :: t < i && t !in pre ==> t in Rest(targets, hashes[t]))
    && (i == g.count ==> LastWanted(g, pre, hashes, map[], targets))
  }

  lemma ListingStart(g: Geometry, pre: set<nat>, hashes: seq<Hash>)
    requires g.count > 0 && |hashes| == g.count
    ensures Listing(g, pre, hashes, map[], 0)
  {
  }

  lemma ListingSkip(g: Geometry, pre: set<nat>, hashes: seq<Hash>, targets: Targets, i: nat)
    requires g.count > 0 && |hashes| == g.count && i < g.count && i in pre && Listing(g, pre, hashes, targets, i)
    ensures Listing(g, pre, hashes, targets, i + 1)
  {
  }

  /** The first loop of the scan lists piece i under its hash. */
  lemma ListingMore(g: Geometry, pre: set<nat>, hashes: seq<Hash>, targets: Targets, i: nat)
    requires g.count > 0 && |hashes| == g.count && i < g.count && i !in pre && Listing(g, pre, hashes, targets, i)
    ensures Listing(g, pre, hashes, targets[hashes[i] := Rest(targets, hashes[i]) + [i]], i + 1)
  {
    var targets' := targets[hashes[i] := Rest(targets, hashes[i]) + [i]];
    WantedMore(g, pre, hashes, map[], targets, i);
    hide Wanted, Entry, Ascending;
    forall t: nat | t < i + 1 && t !in pre ensures t in Rest(targets', hashes[t]) {
      assert t < i ==> t in Rest(targets, hashes[t]);
    }
    forall h, t | h in targets' && t in targets'[h] ensures t < i + 1 {
      if !(h == hashes[i] && t == i) { assert h in targets && t in targets[h]; }
    }
  }

  lemma AscendingMore(l: seq<nat>, i: nat)
    requires Ascending(l) && forall t :: t in l ==> t < i
    ensures Ascending(l + [i]) && forall t :: t in l + [i] <==> t in l || t == i
  {
    assert forall k :: 0 <= k < |l| ==> l[k] in l;
  }

  lemma WantedMore(g: Geometry, pre: set<nat>, hashes: seq<Hash>, places: Places, targets: Targets, i: nat)
    requires g.count > 0 && |hashes| == g.count && i < g.count && i !in pre && i !in places
    requires Wanted(g, pre, hashes, places, targets)
    requires forall h, t :: h in targets && t in targets[h] ==> t < i
    ensures var h := hashes[i];
            Wanted(g, pre, hashes, places, targets[h := (if h in targets then targets[h] else []) + [i]])
  {
    var h := hashes[i];
    var l := if h in targets then targets[h] else [];
    var targets' := targets[h := l + [i]];
    AscendingMore(l, i);
    forall k | k in targets' ensures Ascending(targets'[k]) {
      assert k != h ==> targets'[k] == targets[k];
    }
    forall k, t | k in targets' && t in targets'[k]
      ensures Entry(g, pre, hashes, places, k, t)
    {
      if !(k == h && t == i) { assert k in targets && t in targets[k]; }
    }
  }

  lemma WantedAfter(g: Geometry, pre: set<nat>, hashes: seq<Hash>, places: Places, targets: Targets, p: nat, i: nat)
    requires g.count > 0 && |hashes| == g.count && p < g.count
    requires Wanted(g, pre, hashes, places, targets) && LastWanted(g, pre, hashes, places, targets)
    requires p in pre || (p == g.count - 1 && g.ShortLast())
    ensures Wanted(g, pre, hashes, places[p := i], targets) && LastWanted(g, pre, hashes, places[p := i], targets)
  {
  }

  lemma ValuesHold(places: Places)
    ensures forall p :: p in places ==> places[p] in places.Values
  {
  }

  /** A last piece that is wanted but not short would have been taken from the list. */
  lemma LastUnplaced(g: Geometry, pre: set<nat>, have: seq<bool>, places: Places, holes: seq<nat>, i: nat)
    requires g.count > 0 && |have| == g.count && Scanned(g, pre, have, places, holes, i)
    requires !have[g.count - 1] && (g.count - 1 !in pre || i == g.count - 1)
    ensures g.count - 1 !in places
  {
    ValuesHold(places);
  }

  /** Taking the last entry under hash s. */
  lemma WantedPop(g: Geometry, pre: set<nat>, hashes: seq<Hash>, places: Places, targets: Targets, s: Hash, i: nat)
    requires g.count > 0 && |hashes| == g.count
    requires Wanted(g, pre, hashes, places, targets) && LastWanted(g, pre, hashes, places, targets)
    requires s in targets && targets[s] != []
    ensures var n := |targets[s]| - 1; var t := targets[s][n];
            && Entry(g, pre, hashes, places, s, t)
            && Wanted(g, pre, hashes, places[t := i], targets[s := targets[s][..n]])
            && LastWanted(g, pre, hashes, places[t := i], targets[s := targets[s][..n]])
  {
    var n := |targets[s]| - 1;
    var t := targets[s][n];
    assert t in targets[s];
    assert forall u :: u in targets[s][..n] ==> u in targets[s] && u != t;
    assert Entry(g, pre, hashes, places, s, t);
    forall h, u | h in targets && u in targets[h] && (h == s ==> u in targets[s][..n])
      ensures Entry(g, pre, hashes, places[t := i], h, u)
    {
      assert Entry(g, pre, hashes, places, h, u);
    }
    var last := g.count - 1;
    if last !in pre && last !in places && hashes[last] == s {
      assert t == last;
    }
  }

  // ---- what is found ----

  /** The pieces with hash h whose own slots were not on disk, whatever lies in other slots. */
  ghost function Absent(g: Geometry, pre: set<nat>, hashes: seq<Hash>, h: Hash): set<nat>
    requires |hashes| == g.count
  {
    set t: nat | t < g.count && t !in pre && hashes[t] == h
  }

  /** A short last piece that is not on disk and has hash h: being last on the list, it keeps pieces of
      full length with the same hash from being found. */
  ghost predicate Blocked(g: Geometry, pre: set<nat>, hashes: seq<Hash>, h: Hash)
    requires g.count > 0 && |hashes| == g.count
  {
    g.ShortLast() && g.count - 1 !in pre && hashes[g.count - 1] == h
  }

  /** Slot s is on disk with content that has hash h and is not its own piece's; a short last slot
      does not count. */
  ghost predicate Stray(g: Geometry, pre: set<nat>, hashes: seq<Hash>, found: seq<Hash>, h: Hash, s: nat)
    requires g.count > 0 && |hashes| == |found| == g.count && s < g.count
  {
    s in pre && found[s] == h && hashes[s] != h && !(g.ShortLast() && s == g.count - 1)
  }

  ghost function Strays(g: Geometry, pre: set<nat>, hashes: seq<Hash>, found: seq<Hash>, h: Hash, i: nat): nat
    requires g.count > 0 && |hashes| == |found| == g.count && i <= g.count
  {
    if i == 0 then 0
    else Strays(g, pre, hashes, found, h, i - 1) + if Stray(g, pre, hashes, found, h, i - 1) then 1 else 0
  }

  /** The lists hold exactly the absent pieces that have not been found, and a short last one always. */
  ghost predicate Lists(g: Geometry, pre: set<nat>, hashes: seq<Hash>, have: seq<bool>, targets: Targets)
    requires g.count > 0 && |hashes| == |have| == g.count
  {
    forall t: nat :: t < g.count && t !in pre ==>
      (t in Rest(targets, hashes[t]) <==> !have[t] || (t == g.count - 1 && g.ShortLast()))
  }

  /** Each stray slot below i has taken one piece from its list, as long as there were any. */
  ghost predicate Sifted(g: Geometry, pre: set<nat>, hashes: seq<Hash>, found: seq<Hash>, targets: Targets, i: nat)
    requires g.count > 0 && |hashes| == |found| == g.count && i <= g.count
  {
    forall h ::
      |Rest(targets, h)| == if Blocked(g, pre, hashes, h) then |Absent(g, pre, hashes, h)|
                            else Max(|Absent(g, pre, hashes, h)| - Strays(g, pre, hashes, found, h, i), 0)
  }

  /** Slot s is on disk, but nothing was recognised in it. */
  ghost predicate Unknown(pre: set<nat>, have: seq<bool>, places: Places, s: nat) {
    s in pre && s in places && places[s] == s && s < |have| && !have[s]
  }

  /** An unknown slot is no loss: the absent pieces with its hash have all been found, unless that is
      blocked, and so has the short last piece if the slot begins with it. */
  ghost predicate NoLoss(g: Geometry, pre: set<nat>, hashes: seq<Hash>, found: seq<Hash>, heads: seq<Hash>,
                         have: seq<bool>, s: nat)
    requires g.count > 0 && |hashes| == |found| == |heads| == |have| == g.count && s < g.count
  {
    && (Blocked(g, pre, hashes, found[s]) || (g.ShortLast() && s == g.count - 1)
        || forall t :: t in Absent(g, pre, hashes, found[s]) ==> have[t])
    && ((g.count - 1 !in pre || s == g.count - 1) && heads[s] == hashes[g.count - 1] ==> have[g.count - 1])
  }

  ghost predicate NothingLost(g: Geometry, pre: set<nat>, hashes: seq<Hash>, found: seq<Hash>, heads: seq<Hash>,
                              have: seq<bool>, places: Places, i: nat)
    requires g.count > 0 && |hashes| == |found| == |heads| == |have| == g.count && i <= g.count
  {
    forall s: nat :: s < i && Unknown(pre, have, places, s) ==> NoLoss(g, pre, hashes, found, heads, have, s)
  }

  /** How far the scan has got in finding pieces, after the slots below i. */
  ghost predicate Searched(g: Geometry, pre: set<nat>, hashes: seq<Hash>, found: seq<Hash>, heads: seq<Hash>,
                           have: seq<bool>, places: Places, targets: Targets, i: nat)
    requires g.count > 0 && |hashes| == |found| == |heads| == |have| == g.count && i <= g.count
  {
    && Lists(g, pre, hashes, have, targets) && Sifted(g, pre, hashes, found, targets, i)
    && NothingLost(g, pre, hashes, found, heads, have, places, i)
  }

  /** No piece is in slot i yet. */
  lemma NotYet(g: Geometry, pre: set<nat>, have: seq<bool>, places: Places, holes: seq<nat>, i: nat)
    requires g.count > 0 && |have| == g.count && Scanned(g, pre, have, places, holes, i)
    ensures !(i in places && places[i] == i)
  {
  }

  lemma RestIs(targets: Targets, h: Hash)
    ensures Rest(targets, h) == if h in targets then targets[h] else []
  {
  }

  /** Before the first slot. */
  lemma SearchStart(g: Geometry, pre: set<nat>, hashes: seq<Hash>, found: seq<Hash>, heads: seq<Hash>,
                    have: seq<bool>, targets: Targets)
    requires g.count > 0 && |hashes| == |found| == |heads| == |have| == g.count
    requires Listing(g, pre, hashes, targets, g.count) && forall p :: 0 <= p < g.count ==> !have[p]
    ensures Searched(g, pre, hashes, found, heads, have, map[], targets, 0)
  {
    forall h: Hash ensures |Rest(targets, h)| == |Absent(g, pre, hashes, h)| {
      var l := Rest(targets, h);
      assert forall t :: t in l ==> Entry(g, pre, hashes, map[], h, t);
      assert forall t :: t in Absent(g, pre, hashes, h) <==> t in l;
      MembersCount(l, Absent(g, pre, hashes, h));
    }
  }

  /** A slot that was not on disk. */
  lemma SearchHole(g: Geometry, pre: set<nat>, hashes: seq<Hash>, found: seq<Hash>, heads: seq<Hash>,
                   have: seq<bool>, places: Places, targets: Targets, i: nat)
    requires g.count > 0 && |hashes| == |found| == |heads| == |have| == g.count && i < g.count && i !in pre
    requires Searched(g, pre, hashes, found, heads, have, places, targets, i)
    ensures Searched(g, pre, hashes, found, heads, have, places, targets, i + 1)
  {
  }

  /** A slot that holds its own piece. */
  lemma SearchOwn(g: Geometry, pre: set<nat>, hashes: seq<Hash>, found: seq<Hash>, heads: seq<Hash>,
                  have: seq<bool>, places: Places, targets: Targets, i: nat)
    requires g.count > 0 && |hashes| == |found| == |heads| == |have| == g.count && i < g.count && i in pre
    requires Searched(g, pre, hashes, found, heads, have, places, targets, i) && found[i] == hashes[i]
    ensures Searched(g, pre, hashes, found, heads, have[i := true], places[i := i], targets, i + 1)
  {
    var have', places' := have[i := true], places[i := i];
    forall s: nat | s < i + 1 ensures Unknown(pre, have', places', s) ==> NoLoss(g, pre, hashes, found, heads, have', s) {
      assert Unknown(pre, have', places', s) ==> Unknown(pre, have, places, s);
    }
  }

  /** A stray slot takes the last piece of the list under its hash. */
  lemma SearchPop(g: Geometry, pre: set<nat>, hashes: seq<Hash>, found: seq<Hash>, heads: seq<Hash>,
                  have: seq<bool>, places: Places, targets: Targets, i: nat)
    requires g.Sized() && |hashes| == |found| == |heads| == |have| == g.count && i < g.count && i in pre
    requires Searched(g, pre, hashes, found, heads, have, places, targets, i)
    requires Wanted(g, pre, hashes, places, targets) && found[i] != hashes[i] && !(i in places && places[i] == i)
    requires var l := Rest(targets, found[i]); l != [] && l[|l| - 1] < g.count && g.PieceLen(i) == g.PieceLen(l[|l| - 1])
    ensures var l := Rest(targets, found[i]); var t := l[|l| - 1];
            Searched(g, pre, hashes, found, heads, have[t := true], places[t := i], targets[found[i] := l[..|l| - 1]], i + 1)
  {
    var h := found[i];
    var l := targets[h];
    var t := l[|l| - 1];
    PopOk(g, pre, hashes, places, have, targets, h, i);
    ListsPop(g, pre, hashes, have, targets, h);
    SiftPop(g, pre, hashes, found, targets, i);
    LossPop(g, pre, hashes, found, heads, have, places, i, t);
  }

  /** The piece on offer is absent and not a short last one, and its list is not blocked. */
  lemma PopOk(g: Geometry, pre: set<nat>, hashes: seq<Hash>, places: Places, have: seq<bool>, targets: Targets, h: Hash, i: nat)
    requires g.Sized() && |hashes| == |have| == g.count && i < g.count && i in pre
    requires Wanted(g, pre, hashes, places, targets) && Lists(g, pre, hashes, have, targets)
    requires var l := Rest(targets, h); l != [] && l[|l| - 1] < g.count && g.PieceLen(i) == g.PieceLen(l[|l| - 1])
    ensures var l := Rest(targets, h); var t := l[|l| - 1];
            t !in pre && hashes[t] == h && t !in l[..|l| - 1] && !(t == g.count - 1 && g.ShortLast())
    ensures !Blocked(g, pre, hashes, h) && !(g.ShortLast() && i == g.count - 1)
  {
    var l := targets[h];
    var t := l[|l| - 1];
    assert t in l && Entry(g, pre, hashes, places, h, t);
    if g.ShortLast() { LengthTells(g, i, t); }
    if Blocked(g, pre, hashes, h) { NotBlocked(g, pre, hashes, places, have, targets, h); }
  }

  lemma ListsPop(g: Geometry, pre: set<nat>, hashes: seq<Hash>, have: seq<bool>, targets: Targets, h: Hash)
    requires g.count > 0 && |hashes| == |have| == g.count && Lists(g, pre, hashes, have, targets)
    requires var l := Rest(targets, h);
             l != [] && l[|l| - 1] < g.count && l[|l| - 1] !in l[..|l| - 1] && hashes[l[|l| - 1]] == h
             && !(l[|l| - 1] == g.count - 1 && g.ShortLast())
    ensures var l := Rest(targets, h);
            Lists(g, pre, hashes, have[l[|l| - 1] := true], targets[h := l[..|l| - 1]])
  {
    var l := targets[h];
    assert l == l[..|l| - 1] + [l[|l| - 1]];
  }

  lemma SiftPop(g: Geometry, pre: set<nat>, hashes: seq<Hash>, found: seq<Hash>, targets: Targets, i: nat)
    requires g.count > 0 && |hashes| == |found| == g.count && i < g.count && i in pre && found[i] != hashes[i]
    requires Sifted(g, pre, hashes, found, targets, i) && Rest(targets, found[i]) != []
    requires !Blocked(g, pre, hashes, found[i]) && !(g.ShortLast() && i == g.count - 1)
    ensures var l := Rest(targets, found[i]); Sifted(g, pre, hashes, found, targets[found[i] := l[..|l| - 1]], i + 1)
  {
    var l := Rest(targets, found[i]);
    var targets' := targets[found[i] := l[..|l| - 1]];
    hide Absent, Blocked;
    forall h: Hash
      ensures |Rest(targets', h)| == if Blocked(g, pre, hashes, h) then |Absent(g, pre, hashes, h)|
                                     else Max(|Absent(g, pre, hashes, h)| - Strays(g, pre, hashes, found, h, i + 1), 0)
    {
      assert h != found[i] ==> Rest(targets', h) == Rest(targets, h);
    }
  }

  /** Finding a piece t, which then lies in slot i, loses nothing. */
  lemma LossPop(g: Geometry, pre: set<nat>, hashes: seq<Hash>, found: seq<Hash>, heads: seq<Hash>,
                have: seq<bool>, places: Places, i: nat, t: nat)
    requires g.count > 0 && |hashes| == |found| == |heads| == |have| == g.count && i < g.count && t < g.count
    requires NothingLost(g, pre, hashes, found, heads, have, places, i) && (t !in pre || t == i)
    requires !(i in places && places[i] == i)
    ensures NothingLost(g, pre, hashes, found, heads, have[t := true], places[t := i], i + 1)
  {
    var have', places' := have[t := true], places[t := i];
    hide Blocked, Absent;
    forall s: nat | s < i + 1 ensures Unknown(pre, have', places', s) ==> NoLoss(g, pre, hashes, found, heads, have', s) {
      assert Unknown(pre, have', places', s) ==> s < i && Unknown(pre, have, places, s);
      assert NoLoss(g, pre, hashes, found, heads, have, s) ==> NoLoss(g, pre, hashes, found, heads, have', s);
    }
  }

  /** Only the last slot can be as long as a short last piece. */
  lemma LengthTells(g: Geometry, i: nat, t: nat)
    requires g.Sized() && i < g.count && t < g.count && g.PieceLen(i) == g.PieceLen(t) && g.ShortLast()
    ensures i == g.count - 1 <==> t == g.count - 1
  {
    g.SlotBounds(i);
    g.SlotBounds(t);
  }

  /** On a list that is blocked the short last piece is the last entry. */
  lemma NotBlocked(g: Geometry, pre: set<nat>, hashes: seq<Hash>, places: Places, have: seq<bool>, targets: Targets, h: Hash)
    requires g.count > 0 && |hashes| == |have| == g.count
    requires Wanted(g, pre, hashes, places, targets) && Lists(g, pre, hashes, have, targets) && Blocked(g, pre, hashes, h)
    ensures var l := Rest(targets, h); l != [] && l[|l| - 1] == g.count - 1
  {
    var l := Rest(targets, h);
    assert g.count - 1 in l;
    var k :| 0 <= k < |l| && l[k] == g.count - 1;
    assert l[|l| - 1] in l;
    assert Entry(g, pre, hashes, places, h, l[|l| - 1]);
  }

  /** A stray slot with nothing on its list, or a blocked one, in which the short last piece is found. */
  lemma SearchPrefix(g: Geometry, pre: set<nat>, hashes: seq<Hash>, found: seq<Hash>, heads: seq<Hash>,
                     have: seq<bool>, places: Places, targets: Targets, i: nat)
    requires g.Sized() && |hashes| == |found| == |heads| == |have| == g.count && i < g.count && i in pre
    requires Searched(g, pre, hashes, found, heads, have, places, targets, i)
    requires Wanted(g, pre, hashes, places, targets) && found[i] != hashes[i]
    requires var l := Rest(targets, found[i]); l != [] ==> l[|l| - 1] < g.count && g.PieceLen(i) != g.PieceLen(l[|l| - 1])
    requires g.ShortLast() && i != g.count - 1 && g.count - 1 !in pre && !(i in places && places[i] == i)
    ensures Searched(g, pre, hashes, found, heads, have[g.count - 1 := true], places[g.count - 1 := i], targets, i + 1)
  {
    EmptyOrBlocked(g, pre, hashes, places, have, targets, found[i], i);
    SiftStray(g, pre, hashes, found, have, targets, i);
    LossPop(g, pre, hashes, found, heads, have, places, i, g.count - 1);
  }

  /** Such a slot in which nothing is found. */
  lemma SearchUnknown(g: Geometry, pre: set<nat>, hashes: seq<Hash>, found: seq<Hash>, heads: seq<Hash>,
                      have: seq<bool>, places: Places, targets: Targets, i: nat)
    requires g.Sized() && |hashes| == |found| == |heads| == |have| == g.count && i < g.count && i in pre
    requires Searched(g, pre, hashes, found, heads, have, places, targets, i)
    requires Wanted(g, pre, hashes, places, targets) && found[i] != hashes[i]
    requires var l := Rest(targets, found[i]); l != [] ==> l[|l| - 1] < g.count && g.PieceLen(i) != g.PieceLen(l[|l| - 1])
    requires (g.count - 1 !in pre || i == g.count - 1) && heads[i] == hashes[g.count - 1] ==> have[g.count - 1]
    ensures Searched(g, pre, hashes, found, heads, have, places[i := i], targets, i + 1)
  {
    EmptyOrBlocked(g, pre, hashes, places, have, targets, found[i], i);
    SiftStray(g, pre, hashes, found, have, targets, i);
    assert NoLoss(g, pre, hashes, found, heads, have, i);
    hide Sifted, Blocked, Absent, NoLoss, Lists;
    forall s: nat | s < i + 1 ensures Unknown(pre, have, places[i := i], s) ==> NoLoss(g, pre, hashes, found, heads, have, s) {
      assert s < i ==> (Unknown(pre, have, places[i := i], s) ==> Unknown(pre, have, places, s));
    }
  }

  lemma SiftStray(g: Geometry, pre: set<nat>, hashes: seq<Hash>, found: seq<Hash>, have: seq<bool>, targets: Targets, i: nat)
    requires g.count > 0 && |hashes| == |found| == |have| == g.count && i < g.count && i in pre && found[i] != hashes[i]
    requires Sifted(g, pre, hashes, found, targets, i) && NoLossHere(g, pre, hashes, have, targets, found[i], i)
    ensures Sifted(g, pre, hashes, found, targets, i + 1)
  {
    hide Absent, Blocked;
  }

  ghost predicate NoLossHere(g: Geometry, pre: set<nat>, hashes: seq<Hash>, have: seq<bool>, targets: Targets, h: Hash, i: nat)
    requires g.count > 0 && |hashes| == |have| == g.count
  {
    || Blocked(g, pre, hashes, h) || (g.ShortLast() && i == g.count - 1)
    || (Rest(targets, h) == [] && forall t :: t in Absent(g, pre, hashes, h) ==> have[t])
  }

  lemma EmptyOrBlocked(g: Geometry, pre: set<nat>, hashes: seq<Hash>, places: Places, have: seq<bool>, targets: Targets,
                       h: Hash, i: nat)
    requires g.Sized() && |hashes| == |have| == g.count && i < g.count
    requires Wanted(g, pre, hashes, places, targets) && Lists(g, pre, hashes, have, targets)
    requires var l := Rest(targets, h); l != [] ==> l[|l| - 1] < g.count && g.PieceLen(i) != g.PieceLen(l[|l| - 1])
    ensures NoLossHere(g, pre, hashes, have, targets, h, i)
  {
    var l := Rest(targets, h);
    if l != [] {
      var t := l[|l| - 1];
      assert t in l && Entry(g, pre, hashes, places, h, t);
      g.SlotBounds(i);
      g.SlotBounds(t);
    }
  }

  // ---- the outcome ----

  ghost function Got(g: Geometry, pre: set<nat>, hashes: seq<Hash>, have: seq<bool>, h: Hash): set<nat>
    requires |hashes| == |have| == g.count
  {
    set t: nat | t in Absent(g, pre, hashes, h) && have[t]
  }

  /** Of the absent pieces with hash h as many have been found as there are stray slots for them, or all;
      if the list is blocked, none but the short last piece. */
  ghost predicate AllFound(g: Geometry, pre: set<nat>, hashes: seq<Hash>, found: seq<Hash>, have: seq<bool>, h: Hash)
    requires g.count > 0 && |hashes| == |found| == |have| == g.count
  {
    if Blocked(g, pre, hashes, h) then Got(g, pre, hashes, have, h) == if have[g.count - 1] then {g.count - 1} else {}
    else |Got(g, pre, hashes, have, h)| == Min(Strays(g, pre, hashes, found, h, g.count), |Absent(g, pre, hashes, h)|)
  }

  lemma SearchEnd(g: Geometry, pre: set<nat>, hashes: seq<Hash>, found: seq<Hash>, heads: seq<Hash>,
                  have: seq<bool>, places: Places, targets: Targets, h: Hash)
    requires g.count > 0 && |hashes| == |found| == |heads| == |have| == g.count
    requires Searched(g, pre, hashes, found, heads, have, places, targets, g.count)
    requires Wanted(g, pre, hashes, places, targets)
    ensures AllFound(g, pre, hashes, found, have, h)
  {
    var l := Rest(targets, h);
    var m := Absent(g, pre, hashes, h);
    var open := set t: nat | t in m && t in l;
    assert forall t :: t in l ==> Entry(g, pre, hashes, places, h, t);
    MembersCount(l, open);
    if Blocked(g, pre, hashes, h) {
      SubsetAll(open, m);
    } else {
      assert Got(g, pre, hashes, have, h) == m - open;
    }
  }

  lemma SearchOver(g: Geometry, pre: set<nat>, hashes: seq<Hash>, found: seq<Hash>, heads: seq<Hash>,
                   have: seq<bool>, places: Places, targets: Targets)
    requires g.count > 0 && |hashes| == |found| == |heads| == |have| == g.count
    requires Searched(g, pre, hashes, found, heads, have, places, targets, g.count)
    requires Wanted(g, pre, hashes, places, targets)
    ensures forall h :: AllFound(g, pre, hashes, found, have, h)
    ensures NothingLost(g, pre, hashes, found, heads, have, places, g.count)
  {
    forall h: Hash ensures AllFound(g, pre, hashes, found, have, h) {
      SearchEnd(g, pre, hashes, found, heads, have, places, targets, h);
    }
  }

  lemma SubsetAll(a: set<nat>, b: set<nat>)
    requires a <= b && |a| == |b|
    ensures a == b
  {
    assert b == a + (b - a);
  }
}
