/** Choosing which piece to ask for next: rarest first, with pieces bucketed by how many peers have them. */
module PiecePicker {
  import opened Basics

  type Buckets = seq<seq<nat>>

  /** A piece's bucket; None once the piece is complete. */
  type Counts = seq<Option<nat>>

  // ---- the index ----

  /** Piece p is in its bucket, at its recorded position. */
  ghost predicate Indexed(b: Buckets, pos: seq<nat>, nums: Counts, p: nat)
    requires p < |nums| == |pos|
  {
    nums[p].Some? ==> nums[p].value < |b| && pos[p] < |b[nums[p].value]| && b[nums[p].value][pos[p]] == p
  }

  /** Entry j of bucket k is a piece that belongs there. */
  ghost predicate Belongs(b: Buckets, pos: seq<nat>, nums: Counts, k: nat, j: nat)
    requires |nums| == |pos| && k < |b| && j < |b[k]|
  {
    var p := b[k][j];
    p < |nums| && nums[p] == Some(k) && pos[p] == j
  }

  /** Buckets, positions and counts agree: every incomplete piece is in exactly one bucket, the one
      its count names, once, at its recorded position; complete pieces are in none. */
  ghost predicate IndexOk(b: Buckets, pos: seq<nat>, nums: Counts) {
    && |nums| == |pos|
    && (forall p :: 0 <= p < |nums| ==> Indexed(b, pos, nums, p))
    && (forall k, j :: 0 <= k < |b| && 0 <= j < |b[k]| ==> Belongs(b, pos, nums, k, j))
  }

  /** Each incomplete piece occurs exactly once in all the buckets together. */
  lemma OncePerPiece(b: Buckets, pos: seq<nat>, nums: Counts, k1: nat, j1: nat, k2: nat, j2: nat)
    requires IndexOk(b, pos, nums)
    requires k1 < |b| && j1 < |b[k1]| && k2 < |b| && j2 < |b[k2]| && b[k1][j1] == b[k2][j2]
    ensures k1 == k2 && j1 == j2
  {
    assert Belongs(b, pos, nums, k1, j1) && Belongs(b, pos, nums, k2, j2);
  }

  /** l[p] = l[-1]; del l[-1] */
  function SwapDelete(l: seq<nat>, p: nat): seq<nat>
    requires p < |l|
  {
    l[p := l[|l| - 1]][..|l| - 1]
  }

  lemma RemoveKeeps(b: Buckets, pos: seq<nat>, nums: Counts, piece: nat)
    requires IndexOk(b, pos, nums) && piece < |nums| && nums[piece].Some?
    ensures nums[piece].value < |b| && pos[piece] < |b[nums[piece].value]|
    ensures b[nums[piece].value][|b[nums[piece].value]| - 1] < |pos|
    ensures var k, at := nums[piece].value, pos[piece];
            IndexOk(b[k := SwapDelete(b[k], at)], pos[b[k][|b[k]| - 1] := at], nums[piece := None])
  {
    assert Indexed(b, pos, nums, piece);
    var k, at := nums[piece].value, pos[piece];
    var l := b[k];
    var last := l[|l| - 1];
    assert Belongs(b, pos, nums, k, |l| - 1);
    var b', pos', nums' := b[k := SwapDelete(l, at)], pos[last := at], nums[piece := None];
    forall p | 0 <= p < |nums| ensures Indexed(b', pos', nums', p) {
      assert Indexed(b, pos, nums, p);
    }
    forall m, j | 0 <= m < |b'| && 0 <= j < |b'[m]| ensures Belongs(b', pos', nums', m, j) {
      assert Belongs(b, pos, nums, m, if m == k && j == at then |l| - 1 else j);
    }
  }

  /** The two ways of inserting a piece at a random position of a bucket. */
  function InsertAt(l: seq<nat>, newp: nat, piece: nat): seq<nat>
    requires newp <= |l|
  {
    if newp == |l| then l + [piece] else (l + [l[newp]])[newp := piece]
  }

  lemma InsertKeeps(b: Buckets, pos: seq<nat>, nums: Counts, piece: nat, to: nat, newp: nat)
    requires IndexOk(b, pos, nums) && piece < |nums| && nums[piece] == None && to < |b| && newp <= |b[to]|
    ensures newp < |b[to]| ==> b[to][newp] < |pos|
    ensures var pos1 := if newp < |b[to]| then pos[b[to][newp] := |b[to]|] else pos;
            IndexOk(b[to := InsertAt(b[to], newp, piece)], pos1[piece := newp], nums[piece := Some(to)])
  {
    var l := b[to];
    if newp < |l| { assert Belongs(b, pos, nums, to, newp); }
    var pos1 := if newp < |l| then pos[l[newp] := |l|] else pos;
    var b', pos', nums' := b[to := InsertAt(l, newp, piece)], pos1[piece := newp], nums[piece := Some(to)];
    forall p | 0 <= p < |nums| ensures Indexed(b', pos', nums', p) {
      assert Indexed(b, pos, nums, p);
    }
    forall m, j | 0 <= m < |b'| && 0 <= j < |b'[m]| ensures Belongs(b', pos', nums', m, j) {
      if m != to || (j != newp && j < |l|) {
        assert Belongs(b, pos, nums, m, j);
      }
    }
  }

  lemma AppendBucketKeeps(b: Buckets, pos: seq<nat>, nums: Counts)
    requires IndexOk(b, pos, nums)
    ensures IndexOk(b + [[]], pos, nums)
  {
    forall p | 0 <= p < |nums| ensures Indexed(b + [[]], pos, nums, p) {
      assert Indexed(b, pos, nums, p);
    }
    forall k, j | 0 <= k < |b + [[]]| && 0 <= j < |(b + [[]])[k]| ensures Belongs(b + [[]], pos, nums, k, j) {
      assert Belongs(b, pos, nums, k, j);
    }
  }

  function CountNone(nums: Counts): nat {
    if nums == [] then 0 else (if nums[0].None? then 1 else 0) + CountNone(nums[1..])
  }

  lemma {:induction false} CountNoneUpdate(nums: Counts, p: nat, v: Option<nat>)
    requires p < |nums|
    ensures CountNone(nums[p := v]) ==
            CountNone(nums) - (if nums[p].None? then 1 else 0) + (if v.None? then 1 else 0)
  {
    if p == 0 {
      assert nums[0 := v][1..] == nums[1..];
    } else {
      assert nums[p := v][1..] == nums[1..][p - 1 := v];
      CountNoneUpdate(nums[1..], p - 1, v);
    }
  }

  lemma {:induction false} CountNoneAll(nums: Counts)
    ensures CountNone(nums) <= |nums|
    ensures CountNone(nums) == |nums| <==> forall p :: 0 <= p < |nums| ==> nums[p].None?
  {
    if nums != [] {
      CountNoneAll(nums[1..]);
      assert forall p :: 0 < p < |nums| ==> nums[p] == nums[1..][p - 1];
    }
  }

  /** Moving a piece to the end of its bucket keeps the bucket free of repetitions. */
  lemma BumpedEntries(b: Buckets, pos: seq<nat>, nums: Counts, piece: nat)
    requires IndexOk(b, pos, nums) && piece < |nums| && nums[piece].Some?
    ensures nums[piece].value < |b| && pos[piece] < |b[nums[piece].value]|
    ensures var old_, at := b[nums[piece].value], pos[piece];
            var l := old_[..at] + old_[at + 1..] + [piece];
            NoRepeats(l) && forall j :: 0 <= j < |l| ==> l[j] < |nums|
  {
    assert Indexed(b, pos, nums, piece);
    var k, at := nums[piece].value, pos[piece];
    var l := b[k][..at] + b[k][at + 1..] + [piece];
    forall j | 0 <= j < |l| ensures l[j] < |nums| && pos[l[j]] == (if j < at then j else if j < |l| - 1 then j + 1 else at) {
      assert Belongs(b, pos, nums, k, if j < at then j else if j < |l| - 1 then j + 1 else at);
    }
  }

  lemma BumpKeeps(b: Buckets, pos: seq<nat>, nums: Counts, piece: nat, pos': seq<nat>)
    requires IndexOk(b, pos, nums) && piece < |nums| == |pos'| && nums[piece].Some?
    requires nums[piece].value < |b| && pos[piece] < |b[nums[piece].value]|
    requires var k, at := nums[piece].value, pos[piece];
             var l := b[k][..at] + b[k][at + 1..] + [piece];
             && (forall j :: at <= j < |l| ==> l[j] < |nums| && pos'[l[j]] == j)
             && (forall q :: 0 <= q < |nums| && (forall j :: at <= j < |l| ==> l[j] != q) ==> pos'[q] == pos[q])
    ensures var k, at := nums[piece].value, pos[piece];
            IndexOk(b[k := b[k][..at] + b[k][at + 1..] + [piece]], pos', nums)
  {
    assert Indexed(b, pos, nums, piece);
    var k, at := nums[piece].value, pos[piece];
    var l := b[k][..at] + b[k][at + 1..] + [piece];
    var b' := b[k := l];
    forall m, j | 0 <= m < |b'| && 0 <= j < |b'[m]| ensures Belongs(b', pos', nums, m, j) {
      if m != k || j < at {
        assert Belongs(b, pos, nums, m, j);
        forall i | at <= i < |l| ensures l[i] != b[m][j] {
          assert Belongs(b, pos, nums, k, if i < |l| - 1 then i + 1 else at);
        }
      } else {
        assert Belongs(b, pos, nums, k, if j < |l| - 1 then j + 1 else at);
      }
    }
    forall p | 0 <= p < |nums| ensures Indexed(b', pos', nums, p) {
      assert Indexed(b, pos, nums, p);
      if nums[p] == Some(k) && pos[p] > at { assert l[pos[p] - 1] == p; }
      if nums[p] == Some(k) && pos[p] == at { assert p == b[k][at] == piece == l[|l| - 1]; }
      if nums[p].Some? && (nums[p] != Some(k) || pos[p] < at) {
        assert Belongs(b', pos', nums, nums[p].value, pos[p]);
      }
    }
  }

  const UNBOUNDED := 0x4000_0000

  class PiecePicker {
    const numpieces: nat
    const rarestFirstCutoff: int
    const scrambled: seq<nat>
    var interests: Buckets
    var posInInterests: seq<nat>
    var numinterests: Counts
    var started: seq<nat>
    var seedstarted: seq<nat>
    var numgot: nat

    /** How many connected peers have each piece, counted directly. */
    ghost var avail: seq<nat>

    ghost predicate Valid()
      reads this
    {
      Inv()
    }

    ghost predicate Inv()
      reads this
    {
      IndexInv() && StartedInv() && numgot == CountNone(numinterests) && ScrambledOk()
    }

    ghost predicate IndexInv()
      reads this`interests, this`posInInterests, this`numinterests, this`avail
    {
      && |numinterests| == |posInInterests| == |avail| == numpieces && interests != []
      && IndexOk(interests, posInInterests, numinterests)
      && (forall p :: 0 <= p < numpieces && numinterests[p].Some? ==> numinterests[p] == Some(avail[p]))
    }

    /** started lists incomplete pieces without repetition, and seedstarted some of those. */
    ghost predicate StartedInv()
      reads this`started, this`seedstarted, this`numinterests
    {
      && NoRepeats(started) && NoRepeats(seedstarted)
      && (forall p :: p in started ==> p < |numinterests| && numinterests[p].Some?)
      && (forall p :: p in seedstarted ==> p in started)
    }

    ghost predicate ScrambledOk() {
      (forall p: nat :: p < numpieces ==> p in scrambled) && (forall p :: p in scrambled ==> p < numpieces)
    }

    /** The started pieces next looks at first. */
    ghost function Pool(seed: bool): seq<nat>
      reads this`started, this`seedstarted
    {
      if seed then seedstarted else started
    }

    ghost predicate StartedWanted(wanted: seq<bool>, seed: bool)
      reads this`started, this`seedstarted
    {
      exists p :: p in Pool(seed) && p < |wanted| && wanted[p]
    }

    /** p is incomplete and at most as widely available as q. */
    ghost predicate Rarer(p: nat, q: nat)
      reads this`numinterests, this`avail
    {
      p < |avail| && q < |avail| && p < |numinterests| && numinterests[p].Some? && avail[p] <= avail[q]
    }

    /** p is incomplete and some peer has it. */
    ghost predicate Positive(p: nat)
      reads this`numinterests, this`avail
    {
      p < |numinterests| && p < |avail| && numinterests[p].Some? && avail[p] > 0
    }

    /** The shuffled order of the pieces is given. */
    constructor (numpieces: nat, cutoff: int, shuffled: seq<nat>)
      requires (forall p: nat :: p < numpieces ==> p in shuffled) && (forall p :: p in shuffled ==> p < numpieces)
      ensures Valid() && this.numpieces == numpieces && rarestFirstCutoff == cutoff
      ensures numinterests == seq(numpieces, _ => Some(0)) && started == [] && seedstarted == []
      ensures avail == seq(numpieces, _ => 0)
    {
      this.numpieces, rarestFirstCutoff, scrambled := numpieces, cutoff, shuffled;
      interests := [seq(numpieces, i requires 0 <= i < numpieces => i)];
      posInInterests := seq(numpieces, i requires 0 <= i < numpieces => i);
      numinterests := seq(numpieces, _ => Some(0));
      started, seedstarted, numgot := [], [], 0;
      avail := seq(numpieces, _ => 0);
      new;
      NoneYet(numinterests);
    }

    static lemma {:induction false} NoneYet(nums: Counts)
      requires forall p :: 0 <= p < |nums| ==> nums[p].Some?
      ensures CountNone(nums) == 0
    {
      if nums != [] { NoneYet(nums[1..]); }
    }

    /** Moves a piece from one bucket to a random position of another. */
    method ShiftOver(piece: nat, from: nat, to: nat)
      requires |numinterests| == |posInInterests| && piece < |numinterests|
      requires from != to && to < |interests|
      requires IndexOk(interests, posInInterests, numinterests[piece := Some(from)])
      modifies this`interests, this`posInInterests
      ensures |posInInterests| == |numinterests| && |interests| == |old(interests)|
      ensures IndexOk(interests, posInInterests, numinterests[piece := Some(to)])
    {
      ghost var before := numinterests[piece := Some(from)];
      RemoveKeeps(interests, posInInterests, before, piece);
      var l1 := interests[from];
      var p := posInInterests[piece];
      posInInterests := posInInterests[l1[|l1| - 1] := p];
      interests := interests[from := SwapDelete(l1, p)];
      var l2 := interests[to];
      var newp :| 0 <= newp <= |l2|;
      assert before[piece := None][piece := Some(to)] == numinterests[piece := Some(to)];
      InsertKeeps(interests, posInInterests, before[piece := None], piece, to, newp);
      if newp < |l2| {
        posInInterests := posInInterests[l2[newp] := |l2|];
      }
      interests := interests[to := InsertAt(l2, newp, piece)];
      posInInterests := posInInterests[piece := newp];
    }

    /** Another peer has the piece. */
    method GotHave(piece: nat)
      requires Valid() && piece < numpieces
      modifies this`interests, this`posInInterests, this`numinterests, this`avail
      ensures Valid() && avail == old(avail)[piece := old(avail[piece]) + 1]
      ensures numinterests == old(numinterests)[piece := if old(numinterests[piece]).None? then None else Some(avail[piece])]
    {
      avail := avail[piece := avail[piece] + 1];
      if numinterests[piece].None? { return; }
      var numint := numinterests[piece].value;
      assert Indexed(interests, posInInterests, numinterests, piece);
      if numint == |interests| - 1 {
        AppendBucketKeeps(interests, posInInterests, numinterests);
        interests := interests + [[]];
      }
      CountNoneUpdate(numinterests, piece, Some(numint + 1));
      assert numinterests[piece := Some(numint + 1)][piece := Some(numint)] == numinterests;
      numinterests := numinterests[piece := Some(numint + 1)];
      ShiftOver(piece, numint, numint + 1);
      assert numinterests[piece := Some(numint + 1)] == numinterests;
    }

    /** A peer that had the piece is gone. */
    method LostHave(piece: nat)
      requires Valid() && piece < numpieces && avail[piece] > 0
      modifies this`interests, this`posInInterests, this`numinterests, this`avail
      ensures Valid() && avail == old(avail)[piece := old(avail[piece]) - 1]
      ensures numinterests == old(numinterests)[piece := if old(numinterests[piece]).None? then None else Some(avail[piece])]
    {
      avail := avail[piece := avail[piece] - 1];
      if numinterests[piece].None? { return; }
      var numint := numinterests[piece].value;
      assert Indexed(interests, posInInterests, numinterests, piece);
      CountNoneUpdate(numinterests, piece, Some(numint - 1));
      assert numinterests[piece := Some(numint - 1)][piece := Some(numint)] == numinterests;
      numinterests := numinterests[piece := Some(numint - 1)];
      ShiftOver(piece, numint, numint - 1);
      assert numinterests[piece := Some(numint - 1)] == numinterests;
    }

    method Requested(piece: nat, seed: bool)
      requires Valid() && piece < numpieces && numinterests[piece].Some?
      modifies this`started, this`seedstarted
      ensures Valid()
      ensures started == if piece in old(started) then old(started) else old(started) + [piece]
      ensures seedstarted == if !seed || piece in old(seedstarted) then old(seedstarted) else old(seedstarted) + [piece]
    {
      if piece !in started {
        started := started + [piece];
      }
      if seed && piece !in seedstarted {
        seedstarted := seedstarted + [piece];
      }
    }

    /** The piece is complete: it leaves the index and the lists of started pieces. */
    method Complete(piece: nat)
      requires Valid() && piece < numpieces && numinterests[piece].Some?
      modifies this`interests, this`posInInterests, this`numinterests, this`started, this`seedstarted, this`numgot
      ensures Valid() && numgot == old(numgot) + 1
      ensures numinterests == old(numinterests)[piece := None]
      ensures piece !in started && piece !in seedstarted
      ensures forall q :: q != piece ==> (q in started <==> q in old(started)) && (q in seedstarted <==> q in old(seedstarted))
    {
      numgot := numgot + 1;
      RemoveKeeps(interests, posInInterests, numinterests, piece);
      CountNoneUpdate(numinterests, piece, None);
      var k := numinterests[piece].value;
      var l := interests[k];
      var p := posInInterests[piece];
      interests := interests[k := SwapDelete(l, p)];
      posInInterests := posInInterests[l[|l| - 1] := p];
      numinterests := numinterests[piece := None];
      RemoveFirstMembers(started, piece);
      RemoveFirstMembers(seedstarted, piece);
      if piece in started {
        RemoveFirstDistinct(started, piece);
        started := RemoveFirst(started, piece).value;
        if piece in seedstarted {
          RemoveFirstDistinct(seedstarted, piece);
          seedstarted := RemoveFirst(seedstarted, piece).value;
        }
      }
    }

    method AmIComplete() returns (b: bool)
      requires Valid()
      ensures b <==> forall p :: 0 <= p < numpieces ==> numinterests[p].None?
    {
      CountNoneAll(numinterests);
      b := numgot == numpieces;
    }

    /** Moves a piece to the end of its bucket. */
    method Bump(piece: nat)
      requires Valid() && piece < numpieces && numinterests[piece].Some?
      modifies this`interests, this`posInInterests
      ensures Valid()
      ensures piece < |old(numinterests)| && piece < |old(posInInterests)|
      ensures var k := old(numinterests[piece]).value; var at := old(posInInterests[piece]);
              && k < |old(interests)| && at < |old(interests)[k]| && old(interests)[k][at] == piece
              && interests == old(interests)[k := old(interests)[k][..at] + old(interests)[k][at + 1..] + [piece]]
    {
      assert Indexed(interests, posInInterests, numinterests, piece);
      var k := numinterests[piece].value;
      var at := posInInterests[piece];
      var l := interests[k][..at] + interests[k][at + 1..] + [piece];
      BumpedEntries(interests, posInInterests, numinterests, piece);
      assert forall j :: 0 <= j < |l| ==> l[j] < numpieces;
      interests := interests[k := l];
      for i := at to |l|
        invariant |posInInterests| == numpieces && interests == old(interests)[k := l]
        invariant forall j :: at <= j < i ==> posInInterests[l[j]] == j
        invariant forall q :: 0 <= q < numpieces && (forall j :: at <= j < i ==> l[j] != q) ==>
                    posInInterests[q] == old(posInInterests)[q]
      {
        posInInterests := posInInterests[l[i] := i];
      }
      BumpKeeps(old(interests), old(posInInterests), numinterests, piece, posInInterests);
    }

    /** Python's next: a piece to ask for, among those wanted. */
    method Next(wanted: seq<bool>, seed: bool) returns (r: Option<nat>)
      requires Valid() && |wanted| == numpieces
      requires forall p :: 0 <= p < numpieces && numinterests[p].Some? ==> numinterests[p].value < UNBOUNDED
      ensures r.Some? ==> r.value < numpieces && wanted[r.value]
      ensures StartedWanted(wanted, seed) ==>
                r.Some? && r.value in Pool(seed) && forall p :: p in Pool(seed) && wanted[p] ==> Rarer(r.value, p)
      ensures !StartedWanted(wanted, seed) && numgot >= rarestFirstCutoff ==>
                && (r.Some? ==> Positive(r.value) && forall p :: 0 <= p < numpieces && wanted[p] && Positive(p) ==> Rarer(r.value, p))
                && (r.None? ==> forall p :: 0 <= p < numpieces && wanted[p] ==> !Positive(p))
      ensures !StartedWanted(wanted, seed) && numgot < rarestFirstCutoff ==>
                (r.None? <==> forall p :: 0 <= p < numpieces ==> !wanted[p])
                && (r.Some? ==> exists k :: 0 <= k < |scrambled| && scrambled[k] == r.value
                                            && forall j :: 0 <= j < k ==> scrambled[j] < numpieces && !wanted[scrambled[j]])
    {
      var bests, bestnum := BestStarted(wanted, if seed then seedstarted else started);
      if bests != [] {
        var k :| 0 <= k < |bests|;
        assert bests[k] in bests;
        return Some(bests[k]);
      }
      if numgot < rarestFirstCutoff {
        r := FirstScrambled(wanted);
      } else {
        r := FirstByRarity(wanted, bestnum);
      }
    }

    /** The first loop of next: the least available of the wanted pieces among those started. */
    method BestStarted(wanted: seq<bool>, s: seq<nat>) returns (bests: seq<nat>, bestnum: nat)
      requires Valid() && |wanted| == numpieces && forall p :: p in s ==> p in started
      requires forall p :: 0 <= p < numpieces && numinterests[p].Some? ==> numinterests[p].value < UNBOUNDED
      ensures forall p :: p in bests ==> p in s && p < numpieces && wanted[p] && numinterests[p] == Some(bestnum)
      ensures forall p :: p in s && wanted[p] ==> numinterests[p].Some? && bestnum <= numinterests[p].value
      ensures forall p :: p in s && wanted[p] && numinterests[p] == Some(bestnum) ==> p in bests
      ensures bests == [] ==> bestnum == UNBOUNDED && forall p :: p in s ==> !wanted[p]
    {
      bests, bestnum := [], UNBOUNDED;
      forall j | 0 <= j < |s| ensures s[j] < numpieces && numinterests[s[j]].Some? {
        assert s[j] in s && s[j] in started;
      }
      for i := 0 to |s|
        invariant bests == [] ==> bestnum == UNBOUNDED && forall j :: 0 <= j < i ==> !wanted[s[j]]
        invariant forall p :: p in bests ==> p in s && p < numpieces && wanted[p] && numinterests[p] == Some(bestnum)
        invariant forall j :: 0 <= j < i && wanted[s[j]] ==> bestnum <= numinterests[s[j]].value
        invariant forall j :: 0 <= j < i && wanted[s[j]] && numinterests[s[j]].value == bestnum ==> s[j] in bests
      {
        if wanted[s[i]] {
          if numinterests[s[i]].value < bestnum {
            bests, bestnum := [s[i]], numinterests[s[i]].value;
          } else if numinterests[s[i]].value == bestnum {
            bests := bests + [s[i]];
          }
        }
      }
    }

    /** Before the cutoff: any wanted piece, in shuffled order. */
    method FirstScrambled(wanted: seq<bool>) returns (r: Option<nat>)
      requires ScrambledOk() && |wanted| == numpieces
      ensures r.Some? ==> r.value < numpieces && wanted[r.value]
      ensures r.None? <==> forall p :: 0 <= p < numpieces ==> !wanted[p]
      ensures r.Some? ==> exists k :: 0 <= k < |scrambled| && scrambled[k] == r.value
                                      && forall j :: 0 <= j < k ==> scrambled[j] < numpieces && !wanted[scrambled[j]]
    {
      forall j | 0 <= j < |scrambled| ensures scrambled[j] < numpieces { assert scrambled[j] in scrambled; }
      for i := 0 to |scrambled|
        invariant forall j :: 0 <= j < i ==> !wanted[scrambled[j]]
      {
        if wanted[scrambled[i]] { return Some(scrambled[i]); }
      }
      forall p: nat | p < numpieces ensures !wanted[p] { assert p in scrambled; }
      return None;
    }

    /** From the cutoff on: the first wanted piece of the lowest bucket above zero that has one. */
    method FirstByRarity(wanted: seq<bool>, bestnum: nat) returns (r: Option<nat>)
      requires Valid() && |wanted| == numpieces && bestnum == UNBOUNDED
      requires forall p :: 0 <= p < numpieces && numinterests[p].Some? ==> numinterests[p].value < UNBOUNDED
      ensures r.Some? ==> r.value < numpieces && wanted[r.value] && Positive(r.value)
      ensures r.Some? ==> forall p :: 0 <= p < numpieces && wanted[p] && Positive(p) ==> Rarer(r.value, p)
      ensures r.None? ==> forall p :: 0 <= p < numpieces && wanted[p] ==> !Positive(p)
    {
      forall k, j | 0 <= k < |interests| && 0 <= j < |interests[k]|
        ensures interests[k][j] < numpieces && numinterests[interests[k][j]] == Some(k)
      {
        assert Belongs(interests, posInInterests, numinterests, k, j);
      }
      for i := 1 to Max(1, Min(bestnum, |interests|))
        invariant forall k, j :: 1 <= k < i && k < |interests| && 0 <= j < |interests[k]| ==> !wanted[interests[k][j]]
      {
        for m := 0 to |interests[i]|
          invariant forall j :: 0 <= j < m ==> !wanted[interests[i][j]]
        {
          if wanted[interests[i][m]] {
            BelowUnwanted(wanted, i);
            return Some(interests[i][m]);
          }
        }
      }
      BelowUnwanted(wanted, Max(1, Min(bestnum, |interests|)));
      return None;
    }

    /** With nothing wanted in the buckets from 1 up to n, every wanted piece has n or more peers, or none. */
    lemma BelowUnwanted(wanted: seq<bool>, n: nat)
      requires Valid() && |wanted| == numpieces
      requires forall k, j :: 1 <= k < n && k < |interests| && 0 <= j < |interests[k]| ==>
                 interests[k][j] < numpieces && !wanted[interests[k][j]]
      ensures forall p :: 0 <= p < numpieces && wanted[p] && Positive(p) ==> n <= avail[p] < |interests|
    {
      forall p | 0 <= p < numpieces && wanted[p] && Positive(p)
        ensures n <= avail[p] < |interests|
      {
        assert Indexed(interests, posInInterests, numinterests, p);
      }
    }
  }
}
