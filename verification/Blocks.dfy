/** How a piece is cut into requests, and the books kept on them. */
module Blocks {
  import opened Basics

  /** Where a request begins within its piece, and its length. */
  type Tile = (nat, nat)

  /** An entry of inactive_requests: None, the number 1, or a list. */
  datatype Inactive = Had | Untouched | Listed(tiles: seq<Tile>) {
    /** Python's truth value of the entry. */
    predicate Truthy() {
      Untouched? || (Listed? && tiles != [])
    }

    /** The bytes that could still be requested from a piece of the given length. */
    function Amount(length: int): int {
      match this
      case Had => 0
      case Untouched => length
      case Listed(l) => TotalLength(l)
    }

    /** The tiles that could still be requested. */
    ghost function Open(length: int, size: nat): set<Tile> {
      match this
      case Had => {}
      case Untouched => if length > 0 && size > 0 then set t | t in Tiling(length, size, 0) else {}
      case Listed(l) => set t | t in l
    }
  }

  function TotalLength(l: seq<Tile>): int {
    if l == [] then 0 else l[0].1 + TotalLength(l[1..])
  }

  lemma {:induction false} TotalLengthAppend(l: seq<Tile>, m: seq<Tile>)
    ensures TotalLength(l + m) == TotalLength(l) + TotalLength(m)
  {
    if l == [] {
      assert l + m == m;
    } else {
      assert (l + m)[1..] == l[1..] + m;
      TotalLengthAppend(l[1..], m);
    }
  }

  lemma {:induction false} TotalLengthZero(l: seq<Tile>)
    requires forall k :: 0 <= k < |l| ==> l[k].1 > 0
    ensures TotalLength(l) >= 0 && (TotalLength(l) == 0 <==> l == [])
  {
    if l != [] { TotalLengthZero(l[1..]); }
  }

  /** The requests a piece is cut into, from position x on. */
  function Tiling(length: int, size: nat, x: nat): seq<Tile>
    requires x < length && size > 0
    decreases length - x
  {
    if x + size < length then [(x, size)] + Tiling(length, size, x + size) else [(x, length - x)]
  }

  lemma {:induction false} TilingBounds(length: int, size: nat, x: nat)
    requires x < length && size > 0
    ensures var t := Tiling(length, size, x);
            forall k :: 0 <= k < |t| ==> x <= t[k].0 && 0 < t[k].1 <= size && t[k].0 + t[k].1 <= length
    ensures TotalLength(Tiling(length, size, x)) == length - x
    decreases length - x
  {
    if x + size < length {
      TilingBounds(length, size, x + size);
      assert Tiling(length, size, x)[1..] == Tiling(length, size, x + size);
    }
  }

  /** The tiles follow one another without gap or overlap from x to length. */
  lemma {:induction false} TilingExact(length: int, size: nat, x: nat)
    requires x < length && size > 0
    ensures var t := Tiling(length, size, x); t[0].0 == x && t[|t| - 1].0 + t[|t| - 1].1 == length
    ensures var t := Tiling(length, size, x);
            forall j, k :: 0 <= j < k < |t| ==>
              t[j].0 + t[j].1 <= t[k].0 && (k == j + 1 ==> t[j].0 + t[j].1 == t[k].0)
    decreases length - x
  {
    if x + size < length {
      TilingExact(length, size, x + size);
      TilingBounds(length, size, x + size);
      assert Tiling(length, size, x)[1..] == Tiling(length, size, x + size);
    }
  }

  /** Tile by tile: each is size long and begins at a multiple of it, and the last ends with the piece. */
  lemma {:induction false} TilingAt(length: int, size: nat, x: nat, k: nat)
    requires x < length && size > 0 && k < |Tiling(length, size, x)|
    ensures Tiling(length, size, x)[k] == (x + k * size, Min(size, length - (x + k * size)))
    ensures k + 1 < |Tiling(length, size, x)| <==> x + (k + 1) * size < length
    decreases k
  {
    assert (k + 1) * size == k * size + size;
    if k > 0 {
      TilingAt(length, size, x + size, k - 1);
    }
  }

  /** The list cuts a piece of the given length every size bytes. */
  ghost predicate CutEvery(length: int, size: nat, l: seq<Tile>) {
    forall k: nat :: k < |l| ==>
      l[k] == (k * size, Min(size, length - k * size)) && (k + 1 < |l| <==> (k + 1) * size < length)
  }

  lemma TilingCuts(length: int, size: nat)
    requires length > 0 && size > 0
    ensures CutEvery(length, size, Tiling(length, size, 0)) && Tiling(length, size, 0) != []
  {
    forall k: nat | k < |Tiling(length, size, 0)|
      ensures Tiling(length, size, 0)[k] == (k * size, Min(size, length - k * size))
      ensures k + 1 < |Tiling(length, size, 0)| <==> (k + 1) * size < length
    {
      TilingAt(length, size, 0, k);
    }
  }

  lemma TileFits(length: int, size: nat, a: Tile)
    requires length > 0 && size > 0 && a in Tiling(length, size, 0)
    ensures 0 < a.1 <= size && a.0 + a.1 <= length
  {
    TilingBounds(length, size, 0);
  }

  lemma TilesApart(length: int, size: nat, a: Tile, b: Tile)
    requires length > 0 && size > 0 && a != b
    requires a in Tiling(length, size, 0) && b in Tiling(length, size, 0)
    ensures a.0 + a.1 <= b.0 || b.0 + b.1 <= a.0
  {
    TilingExact(length, size, 0);
    var t := Tiling(length, size, 0);
    var j :| 0 <= j < |t| && t[j] == a;
    var k :| 0 <= k < |t| && t[k] == b;
    assert j < k || k < j;
  }

  lemma TilingDistinct(length: int, size: nat)
    requires length > 0 && size > 0
    ensures NoRepeats(Tiling(length, size, 0))
  {
    TilingBounds(length, size, 0);
    TilingExact(length, size, 0);
  }

  // ---- one piece's books ----

  type Arrived = map<Tile, seq<byte>>

  /** Each tile of the piece is either open, or issued, or arrived, and nothing else is. */
  ghost predicate Partition(length: int, size: nat, open: seq<Tile>, issued: set<Tile>, arrived: set<Tile>)
    requires length > 0 && size > 0
  {
    && NoRepeats(open)
    && (forall t :: t in open ==> t in Tiling(length, size, 0) && t !in issued && t !in arrived)
    && (forall t :: t in issued ==> t in Tiling(length, size, 0) && t !in arrived)
    && (forall t :: t in arrived ==> t in Tiling(length, size, 0))
    && (forall t :: t in Tiling(length, size, 0) ==> t in open || t in issued || t in arrived)
  }

  ghost predicate Books(length: int, size: nat, open: Inactive, issued: set<Tile>, arrived: Arrived, active: int) {
    && length > 0 && size > 0
    && active == |issued|
    && (!open.Listed? ==> issued == {} && arrived == map[])
    && (open.Listed? ==> Partition(length, size, open.tiles, issued, arrived.Keys))
    && (forall t :: t in arrived ==> |arrived[t]| == t.1)
  }

  /** The least tile of a list, as min finds it. */
  method Least(l: seq<Tile>) returns (k: nat)
    requires l != []
    ensures k < |l| && forall j :: 0 <= j < |l| ==> l[k].0 <= l[j].0
  {
    k := 0;
    for i := 1 to |l|
      invariant k < i && forall j :: 0 <= j < i ==> l[k].0 <= l[j].0
    {
      if l[i].0 < l[k].0 || (l[i].0 == l[k].0 && l[i].1 < l[k].1) {
        k := i;
      }
    }
  }

  lemma OpenNothing(length: int, size: nat, open: Inactive, issued: set<Tile>, arrived: Arrived, active: int)
    requires Books(length, size, open, issued, arrived, active)
    ensures open.Amount(length) >= 0
    ensures open.Amount(length) == 0 <==> !open.Truthy()
    ensures !open.Truthy() <==> open.Open(length, size) == {}
  {
    match open
    case Had =>
    case Untouched => assert Tiling(length, size, 0)[0] in open.Open(length, size);
    case Listed(l) =>
      forall k | 0 <= k < |l| ensures l[k].1 > 0 { TileFits(length, size, l[k]); }
      TotalLengthZero(l);
      if l != [] { assert l[0] in open.Open(length, size); }
  }

  lemma TotalLengthOne(t: Tile)
    ensures TotalLength([t]) == t.1
  {
  }

  lemma WithoutLength(l: seq<Tile>, k: nat)
    requires k < |l|
    ensures TotalLength(Without(l, k)) == TotalLength(l) - l[k].1
  {
    hide TotalLength;
    assert l == l[..k] + ([l[k]] + l[k + 1..]);
    TotalLengthMiddle(l[..k], l[k], l[k + 1..]);
  }

  lemma TotalLengthMiddle(l: seq<Tile>, t: Tile, m: seq<Tile>)
    ensures TotalLength(l + ([t] + m)) == TotalLength(l + m) + t.1
  {
    TotalLengthOne(t);
    hide TotalLength;
    TotalLengthAppend(l, [t] + m);
    TotalLengthAppend([t], m);
    TotalLengthAppend(l, m);
  }

  /** What issuing the tile at position k of the open list does to the books. */
  lemma IssueBooks(length: int, size: nat, l: seq<Tile>, k: nat, issued: set<Tile>, arrived: Arrived, active: int)
    requires length > 0 && size > 0 && k < |l|
    requires Books(length, size, Listed(l), issued, arrived, active)
    ensures Books(length, size, Listed(Without(l, k)), issued + {l[k]}, arrived, active + 1)
    ensures TotalLength(Without(l, k)) == TotalLength(l) - l[k].1
    ensures l[k] !in issued && l[k] in Tiling(length, size, 0)
    ensures Listed(Without(l, k)).Open(length, size) == Listed(l).Open(length, size) - {l[k]}
  {
    WithoutLength(l, k);
    WithoutOne(l, k);
    hide TotalLength, Tiling;
    assert Partition(length, size, Without(l, k), issued + {l[k]}, arrived.Keys);
  }

  /** What giving a tile back does to the books. */
  lemma LoseBooks(length: int, size: nat, l: seq<Tile>, t: Tile, issued: set<Tile>, arrived: Arrived, active: int)
    requires length > 0 && size > 0 && t in issued
    requires Books(length, size, Listed(l), issued, arrived, active)
    ensures Books(length, size, Listed(l + [t]), issued - {t}, arrived, active - 1)
    ensures TotalLength(l + [t]) == TotalLength(l) + t.1
    ensures Listed(l + [t]).Open(length, size) == Listed(l).Open(length, size) + {t}
  {
    TotalLengthAppend(l, [t]);
  }

  lemma ArriveBooks(length: int, size: nat, l: seq<Tile>, t: Tile, data: seq<byte>, issued: set<Tile>, arrived: Arrived, active: int)
    requires length > 0 && size > 0 && t in issued && |data| == t.1
    requires Books(length, size, Listed(l), issued, arrived, active)
    ensures Books(length, size, Listed(l), issued - {t}, arrived[t := data], active - 1)
  {
  }

  // ---- putting arrived tiles together ----

  ghost function Assemble(tiles: seq<Tile>, arrived: Arrived): seq<byte>
    requires forall t :: t in tiles ==> t in arrived
  {
    if tiles == [] then [] else arrived[tiles[0]] + Assemble(tiles[1..], arrived)
  }

  /** The arrived tiles agree with the bytes of a piece. */
  ghost predicate Agrees(content: seq<byte>, arrived: Arrived) {
    forall t :: t in arrived ==> t.0 + t.1 <= |content| && content[t.0..t.0 + t.1] == arrived[t]
  }

  lemma SplitAt(s: seq<byte>, i: nat, j: nat)
    requires i <= j <= |s|
    ensures s[i..j] + s[j..] == s[i..]
  {
  }

  lemma AgreesAt(content: seq<byte>, arrived: Arrived, t: Tile)
    requires Agrees(content, arrived) && t in arrived
    ensures t.0 + t.1 <= |content| && content[t.0..t.0 + t.1] == arrived[t]
  {
  }

  lemma {:induction false} AssembleFrom(length: int, size: nat, x: nat, content: seq<byte>, arrived: Arrived)
    requires x < length == |content| && size > 0 && Agrees(content, arrived)
    requires forall t :: t in Tiling(length, size, x) ==> t in arrived
    ensures Assemble(Tiling(length, size, x), arrived) == content[x..]
    decreases length - x
  {
    TilingNext(length, size, x);
    hide Agrees, Tiling, Assemble;
    if x + size < length {
      var rest := Tiling(length, size, x + size);
      assert forall u :: u in rest ==> u in [(x, size)] + rest;
      AssembleFrom(length, size, x + size, content, arrived);
      AssembleStep((x, size), rest, content, arrived);
    } else {
      AssembleNone(arrived);
      AssembleStep((x, length - x), [], content, arrived);
    }
  }

  lemma AssembleStep(t: Tile, rest: seq<Tile>, content: seq<byte>, arrived: Arrived)
    requires Agrees(content, arrived) && forall u :: u in [t] + rest ==> u in arrived
    requires t.0 + t.1 <= |content| && (forall u :: u in rest ==> u in arrived) && Assemble(rest, arrived) == content[t.0 + t.1..]
    ensures Assemble([t] + rest, arrived) == content[t.0..]
  {
    hide Agrees, Assemble;
    assert t in [t] + rest;
    AgreesAt(content, arrived, t);
    SplitAt(content, t.0, t.0 + t.1);
    AssembleNext(t, rest, arrived);
  }

  lemma TilingNext(length: int, size: nat, x: nat)
    requires x < length && size > 0
    ensures Tiling(length, size, x) == [(x, if x + size < length then size else length - x)]
                                       + if x + size < length then Tiling(length, size, x + size) else []
  {
  }

  lemma AssembleNone(arrived: Arrived)
    ensures Assemble([], arrived) == []
  {
  }

  lemma AssembleNext(t: Tile, rest: seq<Tile>, arrived: Arrived)
    requires t in arrived && forall u :: u in rest ==> u in arrived
    ensures Assemble([t] + rest, arrived) == arrived[t] + Assemble(rest, arrived)
  {
    assert ([t] + rest)[1..] == rest;
  }

  function Splice(s: seq<byte>, at: nat, data: seq<byte>): seq<byte>
    requires at + |data| <= |s|
  {
    s[..at] + data + s[at + |data|..]
  }

  /** One more tile written into its place. */
  lemma AgreesMore(length: int, size: nat, content: seq<byte>, arrived: Arrived, t: Tile, data: seq<byte>)
    requires 0 < length == |content| && size > 0 && Agrees(content, arrived)
    requires t in Tiling(length, size, 0) && t !in arrived && |data| == t.1
    requires forall u :: u in arrived ==> u in Tiling(length, size, 0)
    ensures t.0 + t.1 <= length && Agrees(Splice(content, t.0, data), arrived[t := data])
  {
    TileFits(length, size, t);
    var after := Splice(content, t.0, data);
    forall u | u in arrived
      ensures u.0 + u.1 <= |after| && after[u.0..u.0 + u.1] == arrived[u]
    {
      TilesApart(length, size, t, u);
      assert content[u.0..u.0 + u.1] == arrived[u];
    }
  }

  /** Once every tile has arrived, the piece is exactly the arrived data in order. */
  lemma AssembleWhole(length: int, size: nat, content: seq<byte>, arrived: Arrived)
    requires 0 < length == |content| && size > 0 && Agrees(content, arrived)
    requires forall t :: t in Tiling(length, size, 0) ==> t in arrived
    ensures Assemble(Tiling(length, size, 0), arrived) == content
  {
    AssembleFrom(length, size, 0, content, arrived);
    assert content[0..] == content;
  }
}
