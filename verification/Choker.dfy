/** Which peers may download from us: the fastest ones, and others in turn. */
module Choker {
  import opened Basics

  /** The uploading side of one connection. */
  class Peer {
    var choked: bool
    var interested: bool

    constructor ()
      ensures choked && !interested
    {
      choked, interested := true, false;
    }
  }

  /** The connections in order, those interested in us, and those preferred for their rates. */
  datatype State = State(order: seq<Peer>, interested: set<Peer>, preferred: seq<Peer>, minUploads: int, count: nat)

  // ---- counting ----

  /** How many entries of l are in s. */
  function In(l: seq<Peer>, s: set<Peer>): nat {
    if l == [] then 0 else In(l[..|l| - 1], s) + if l[|l| - 1] in s then 1 else 0
  }

  lemma {:induction false} InSum(l: seq<Peer>, s: set<Peer>, t: set<Peer>)
    requires s !! t
    ensures In(l, s + t) == In(l, s) + In(l, t)
  {
    if l != [] { InSum(l[..|l| - 1], s, t); }
  }

  lemma {:induction false} InSame(l: seq<Peer>, s: set<Peer>, t: set<Peer>)
    requires forall x :: x in l ==> (x in s <==> x in t)
    ensures In(l, s) == In(l, t)
  {
    if l != [] { InSame(l[..|l| - 1], s, t); }
  }

  lemma {:induction false} InJoin(l: seq<Peer>, m: seq<Peer>, s: set<Peer>)
    ensures In(l + m, s) == In(l, s) + In(m, s)
  {
    if m == [] {
      assert l + m == l;
    } else {
      assert (l + m)[..|l + m| - 1] == l + m[..|m| - 1];
      InJoin(l, m[..|m| - 1], s);
    }
  }

  lemma {:induction false} InOne(l: seq<Peer>, x: Peer)
    requires NoRepeats(l)
    ensures In(l, {x}) == if x in l then 1 else 0
  {
    if l != [] {
      InOne(l[..|l| - 1], x);
      assert l == l[..|l| - 1] + [l[|l| - 1]];
      assert forall i :: 0 <= i < |l| - 1 ==> l[i] != l[|l| - 1];
    }
  }

  ghost function Members(l: seq<Peer>): set<Peer> {
    set x | x in l
  }

  /** Each of the peers in p occurs once in l. */
  lemma {:induction false} InMembers(l: seq<Peer>, p: seq<Peer>)
    requires NoRepeats(l) && NoRepeats(p) && forall x :: x in p ==> x in l
    ensures In(l, Members(p)) == |p|
  {
    if p == [] {
      InSame(l, Members(p), {});
      InNone(l);
    } else {
      var x, rest := p[|p| - 1], p[..|p| - 1];
      assert forall i :: 0 <= i < |rest| ==> p[i] != x;
      assert Members(p) == Members(rest) + {x};
      InMembers(l, rest);
      InSum(l, Members(rest), {x});
      InOne(l, x);
    }
  }

  lemma {:induction false} InNone(l: seq<Peer>)
    ensures In(l, {}) == 0
  {
    if l != [] { InNone(l[..|l| - 1]); }
  }

  // ---- who is choked ----

  /** How many interested peers before position i are not preferred. */
  ghost function Others(s: State, i: nat): nat
    requires i <= |s.order|
  {
    In(s.order[..i], s.interested - Members(s.preferred))
  }

  /** How many interested peers are unchoked besides the preferred ones, if there are as many. */
  ghost function Quota(s: State): int {
    Max(s.minUploads - |s.preferred|, 1)
  }

  /** The peer at position i is neither preferred nor early enough. */
  ghost predicate Denied(s: State, i: nat)
    requires i < |s.order|
  {
    s.order[i] !in s.preferred && Others(s, i) >= Quota(s)
  }

  ghost predicate Good(s: State) {
    && NoRepeats(s.order) && NoRepeats(s.preferred)
    && (forall c :: c in s.preferred ==> c in s.order && c in s.interested)
  }

  lemma OthersGrow(s: State, i: nat, j: nat)
    requires i <= j <= |s.order|
    ensures Others(s, i) <= Others(s, j)
  {
    assert s.order[..j] == s.order[..i] + s.order[i..j];
    InJoin(s.order[..i], s.order[i..j], s.interested - Members(s.preferred));
  }

  lemma OthersNext(s: State, i: nat)
    requires i < |s.order|
    ensures Others(s, i + 1) == Others(s, i) + if s.order[i] in s.interested && s.order[i] !in s.preferred then 1 else 0
  {
    assert s.order[..i + 1][..i] == s.order[..i];
  }

  /** The first connection is never choked. */
  lemma FrontUnchoked(s: State)
    requires s.order != []
    ensures !Denied(s, 0)
  {
  }

  /** Among those not preferred, the unchoked ones come first. */
  lemma UnchokedFirst(s: State, i: nat, j: nat)
    requires i <= j < |s.order| && !Denied(s, j) && s.order[j] !in s.preferred
    ensures !Denied(s, i)
  {
    OthersGrow(s, i, j);
  }

  /** The interested peers at positions before n that are not choked. */
  ghost function Served(s: State, n: nat): nat
    requires n <= |s.order|
  {
    if n == 0 then 0 else Served(s, n - 1) + if s.order[n - 1] in s.interested && !Denied(s, n - 1) then 1 else 0
  }

  lemma {:induction false} ServedUpTo(s: State, n: nat)
    requires Good(s) && n <= |s.order|
    ensures Served(s, n) == In(s.order[..n], Members(s.preferred)) + Min(Others(s, n), Quota(s))
  {
    if n > 0 {
      ServedUpTo(s, n - 1);
      assert s.order[..n][..n - 1] == s.order[..n - 1];
    }
  }

  /** The number of interested peers that are unchoked: at least the minimum and one more than are
      preferred, or all there are. */
  lemma QuotaExact(s: State)
    requires Good(s)
    ensures Served(s, |s.order|) == Min(In(s.order, s.interested), Max(s.minUploads, |s.preferred| + 1))
  {
    var p := Members(s.preferred);
    assert s.order[..|s.order|] == s.order;
    ServedUpTo(s, |s.order|);
    InMembers(s.order, s.preferred);
    InSum(s.order, p, s.interested - p);
    assert p + (s.interested - p) == s.interested;
  }

  // ---- changes that need no new choice ----

  /** Whether a choked peer wants something makes no difference to who is choked. */
  lemma InterestOfChoked(s: State, t: State, k: nat)
    requires Good(s) && k < |s.order| && Denied(s, k)
    requires t == s.(interested := s.interested + {s.order[k]}) || t == s.(interested := s.interested - {s.order[k]})
    ensures Good(t) && forall i :: 0 <= i < |s.order| ==> (Denied(t, i) <==> Denied(s, i))
  {
    var c := s.order[k];
    forall i | 0 <= i < |s.order| ensures Denied(t, i) <==> Denied(s, i) {
      if i <= k {
        assert c !in s.order[..i];
        InSame(s.order[..i], s.interested - Members(s.preferred), t.interested - Members(t.preferred));
      } else {
        OthersAround(s, k, i);
        OthersAround(t, k, i);
        assert c !in s.order[..k] && c !in s.order[k + 1..i];
        InSame(s.order[..k], s.interested - Members(s.preferred), t.interested - Members(t.preferred));
        InSame(s.order[k + 1..i], s.interested - Members(s.preferred), t.interested - Members(t.preferred));
      }
    }
  }

  lemma OthersAround(s: State, k: nat, i: nat)
    requires k < i <= |s.order|
    ensures Others(s, i) == Others(s, k) + In(s.order[k + 1..i], s.interested - Members(s.preferred))
                            + if s.order[k] in s.interested && s.order[k] !in s.preferred then 1 else 0
  {
    OthersNext(s, k);
    assert s.order[..i] == s.order[..k + 1] + s.order[k + 1..i];
    InJoin(s.order[..k + 1], s.order[k + 1..i], s.interested - Members(s.preferred));
  }

  /** Nor does it when a peer leaves that is choked or wants nothing. */
  lemma LeavingUnnoticed(s: State, t: State, k: nat)
    requires Good(s) && k < |s.order| && (Denied(s, k) || s.order[k] !in s.interested)
    requires t == s.(order := Without(s.order, k), interested := s.interested - {s.order[k]})
    ensures Good(t) && forall i :: 0 <= i < |t.order| ==> (Denied(t, i) <==> Denied(s, if i < k then i else i + 1))
  {
    var c := s.order[k];
    WithoutOne(s.order, k);
    var f, g := s.interested - Members(s.preferred), t.interested - Members(t.preferred);
    forall i | 0 <= i < |t.order| ensures Denied(t, i) <==> Denied(s, if i < k then i else i + 1) {
      if i <= k {
        assert t.order[..i] == s.order[..i] && c !in s.order[..i];
        InSame(s.order[..i], f, g);
        if i == k { OthersNext(s, k); }
      } else {
        OthersBehind(s, t, k, i);
        OthersNext(s, k);
        OthersGrow(s, k + 1, i + 1);
        assert t.order[i] == s.order[i + 1];
      }
    }
  }

  /** How many others there are before a position behind the one that is left out. */
  lemma OthersBehind(s: State, t: State, k: nat, i: nat)
    requires NoRepeats(s.order) && k < i < |s.order| - 1
    requires t == s.(order := Without(s.order, k), interested := s.interested - {s.order[k]})
    ensures Others(s, i + 1) == Others(t, i) + if s.order[k] in s.interested && s.order[k] !in s.preferred then 1 else 0
  {
    var c := s.order[k];
    var f, g := s.interested - Members(s.preferred), t.interested - Members(t.preferred);
    OthersAround(s, k, i + 1);
    assert t.order[..i] == s.order[..k] + s.order[k + 1..i + 1];
    InJoin(s.order[..k], s.order[k + 1..i + 1], g);
    assert c !in s.order[..k] && c !in s.order[k + 1..i + 1];
    InSame(s.order[..k], f, g);
    InSame(s.order[k + 1..i + 1], f, g);
  }

  // ---- whole runs ----

  /** The clock has no say in who is choked or which peer is to move. */
  lemma ClockAside(s: State, n: nat)
    ensures Good(s.(count := n)) == Good(s)
    ensures forall i :: 0 <= i < |s.order| ==> Denied(s.(count := n), i) == Denied(s, i)
  {
  }

  lemma RotatedAside(s: State, n: nat, order: seq<Peer>)
    requires Rotated(s.(count := n), order)
    ensures Rotated(s, order)
  {
    var t := s.(count := n);
    assert forall i :: 0 <= i < |s.order| ==> Waiting(t, i) == Waiting(s, i);
    if exists i :: 0 <= i < |s.order| && Waiting(s, i) {
      var i: nat :| FirstWaiting(t, i) && order == t.order[i..] + t.order[..i];
      assert FirstWaiting(s, i);
    }
  }

  /** An interested peer at position i that is choked. */
  ghost predicate Waiting(s: State, i: nat)
    requires i < |s.order|
  {
    s.order[i] in s.interested && Denied(s, i)
  }

  /** The order after a rotation: the first waiting peer moves to the front. */
  ghost predicate Rotated(s: State, order: seq<Peer>) {
    if forall i :: 0 <= i < |s.order| ==> !Waiting(s, i) then order == s.order
    else exists i: nat :: FirstWaiting(s, i) && order == s.order[i..] + s.order[..i]
  }

  ghost predicate FirstWaiting(s: State, i: nat) {
    i < |s.order| && Waiting(s, i) && forall j :: 0 <= j < i ==> !Waiting(s, j)
  }

  /** One tick of the clock; every third one rotates. */
  ghost predicate Turn(s: State, t: State) {
    Turned(s, t) && Good(t)
  }

  ghost predicate Turned(s: State, t: State) {
    && t.count == s.count + 1 && t.interested == s.interested
    && if t.count % 3 == 0 then Rotated(s, t.order) else t.order == s.order
  }

  /** Anything else that leaves the connections be: interests, rates and limits may change. */
  ghost predicate Shift(s: State, t: State) {
    t.order == s.order && t.count == s.count && Good(t)
  }

  ghost predicate StepAt(run: seq<State>, i: nat)
    requires i + 1 < |run|
  {
    Turn(run[i], run[i + 1]) || Shift(run[i], run[i + 1])
  }

  ghost predicate IsRun(run: seq<State>) {
    run != [] && Good(run[0]) && forall i :: 0 <= i < |run| - 1 ==> StepAt(run, i)
  }

  /** The peer wants something, and is choked. */
  ghost predicate Waits(s: State, c: Peer) {
    exists i: nat :: i < |s.order| && s.order[i] == c && Waiting(s, i)
  }

  /** A rotation moves a waiting peer ahead. */
  lemma RotationMovesAhead(s: State, order: seq<Peer>, k: nat)
    requires Rotated(s, order) && k < |s.order| && Waiting(s, k)
    ensures exists j: nat :: j < k && j < |order| && order[j] == s.order[k]
  {
    var i: nat :| FirstWaiting(s, i) && order == s.order[i..] + s.order[..i];
    FrontUnchoked(s);
    assert 0 < i <= k && order[k - i] == s.order[k];
  }

  /** The position of a peer that has waited from the start, after m steps. */
  lemma {:induction false} MovesUp(run: seq<State>, c: Peer, k: nat, m: nat) returns (j: nat)
    requires IsRun(run) && m < |run| && k < |run[0].order| && run[0].order[k] == c
    requires forall i :: 0 <= i <= m ==> Waits(run[i], c)
    ensures Good(run[m]) && j < |run[m].order| && run[m].order[j] == c
    ensures j + run[m].count / 3 <= k + run[0].count / 3
  {
    if m == 0 { return k; }
    j := MovesUp(run, c, k, m - 1);
    var s, t := run[m - 1], run[m];
    assert StepAt(run, m - 1);
    if Turn(s, t) && t.count % 3 == 0 {
      var i: nat :| i < |s.order| && s.order[i] == c && Waiting(s, i);
      assert i == j;
      RotationMovesAhead(s, t.order, j);
      j :| j < i && j < |t.order| && t.order[j] == c;
    }
  }

  /** A peer at position k does not wait for 3k ticks on end, whatever the rates, limits and other
      peers do, while no connection is made or lost. */
  lemma BoundedWait(run: seq<State>, c: Peer, k: nat)
    requires IsRun(run) && k < |run[0].order| && run[0].order[k] == c
    requires run[|run| - 1].count >= run[0].count + 3 * k
    ensures exists i :: 0 <= i < |run| && !Waits(run[i], c)
  {
    if forall i :: 0 <= i < |run| ==> Waits(run[i], c) {
      var t := run[|run| - 1];
      var j := MovesUp(run, c, k, |run| - 1);
      var i: nat :| i < |t.order| && t.order[i] == c && Waiting(t, i);
      assert i == j == 0;
      FrontUnchoked(t);
    }
  }

  // ---- the choker ----

  /** How many of n eligible peers are left after del preferred[max_uploads - 1:]. */
  function Kept(maxUploads: int, n: nat): (k: nat)
    ensures k <= n && (maxUploads >= 1 ==> k == Min(maxUploads - 1, n))
    ensures maxUploads < 1 ==> n - k == Min(1 - maxUploads, n)
  {
    if maxUploads >= 1 then Min(maxUploads - 1, n) else Max(n + maxUploads - 1, 0)
  }

  lemma {:induction false} BestExists(l: seq<Peer>, rate: Peer -> real)
    requires l != []
    ensures exists k :: 0 <= k < |l| && forall j :: 0 <= j < |l| ==> rate(l[j]) <= rate(l[k])
  {
    if |l| == 1 {
      assert forall j :: 0 <= j < |l| ==> rate(l[j]) <= rate(l[0]);
    } else {
      var m := l[..|l| - 1];
      BestExists(m, rate);
      var k :| 0 <= k < |m| && forall j :: 0 <= j < |m| ==> rate(m[j]) <= rate(m[k]);
      var b := if rate(l[|l| - 1]) > rate(m[k]) then |l| - 1 else k;
      assert forall j :: 0 <= j < |l| ==> rate(l[j]) <= rate(l[b]) by {
        assert forall j :: 0 <= j < |m| ==> m[j] == l[j];
      }
    }
  }

  class Choker {
    var connections: seq<Peer>
    var maxUploads: int
    var minUploads: int
    var count: nat

    /** Those preferred when connections were last chosen. */
    ghost var preferred: seq<Peer>

    ghost function View(): State
      reads this`connections, this`preferred, this`minUploads, this`count, connections`interested
    {
      State(connections, (set c | c in connections && c.interested), preferred, minUploads, count)
    }

    /** Peers are choked as the last choice of preferred ones has it. */
    ghost predicate Valid()
      reads this, connections
    {
      Good(View()) && forall i :: 0 <= i < |connections| ==> (connections[i].choked <==> Denied(View(), i))
    }

    constructor (maxUploads: int, minUploads: Option<int>)
      ensures Valid() && connections == [] && count == 0 && this.maxUploads == maxUploads
      ensures this.minUploads == if minUploads.Some? then minUploads.value else maxUploads
    {
      this.maxUploads := maxUploads;
      this.minUploads := if minUploads.Some? then minUploads.value else maxUploads;
      connections, count, preferred := [], 0, [];
    }

    ghost function Eligible(snubbed: Peer -> bool): set<Peer>
      reads this`connections, connections`interested
    {
      set c | c in connections && c.interested && !snubbed(c)
    }

    /** The preferred peers are eligible, as many as allowed, and none of the others has a better rate. */
    ghost predicate Chosen(rate: Peer -> real, snubbed: Peer -> bool)
      reads this, connections`interested
    {
      && |preferred| == Kept(maxUploads, In(connections, Eligible(snubbed)))
      && (forall c :: c in preferred ==> c in Eligible(snubbed))
      && (forall c, e :: c in preferred && e in Eligible(snubbed) && e !in preferred ==> rate(c) >= rate(e))
    }

    /** The interested peers that are not snubbed. */
    method Candidates(snubbed: Peer -> bool) returns (l: seq<Peer>)
      requires NoRepeats(connections)
      ensures NoRepeats(l) && |l| == In(connections, Eligible(snubbed)) && forall c :: c in l <==> c in Eligible(snubbed)
    {
      l := [];
      for i := 0 to |connections|
        invariant NoRepeats(l) && |l| == In(connections[..i], Eligible(snubbed))
        invariant forall c :: c in l <==> c in connections[..i] && c.interested && !snubbed(c)
      {
        var c := connections[i];
        assert c !in connections[..i];
        assert connections[..i + 1] == connections[..i] + [c];
        assert connections[..i + 1][..i] == connections[..i];
        if !snubbed(c) && c.interested {
          JoinDistinct(l, [c]);
          l := l + [c];
        }
      }
      assert connections[..|connections|] == connections;
    }

    /** Fastest first; those of the same rate in any order. */
    method SortByRate(l: seq<Peer>, rate: Peer -> real) returns (t: seq<Peer>)
      requires NoRepeats(l)
      ensures NoRepeats(t) && |t| == |l| && (forall c :: c in t <==> c in l)
      ensures forall i, j :: 0 <= i < j < |t| ==> rate(t[i]) >= rate(t[j])
    {
      hide NoRepeats, Without;
      t := [];
      var rest := l;
      assert NoRepeats(t) by { NoneRepeat(); }
      while rest != []
        invariant NoRepeats(t) && NoRepeats(rest) && |t| + |rest| == |l|
        invariant forall c :: c in l <==> c in t || c in rest
        invariant forall c :: c in t ==> c !in rest
        invariant forall c, e :: c in t && e in rest ==> rate(c) >= rate(e)
        invariant forall i, j :: 0 <= i < j < |t| ==> rate(t[i]) >= rate(t[j])
        decreases |rest|
      {
        BestExists(rest, rate);
        var k :| 0 <= k < |rest| && forall j :: 0 <= j < |rest| ==> rate(rest[j]) <= rate(rest[k]);
        SortMore(t, rest, k, rate);
        t := t + [rest[k]];
        rest := Without(rest, k);
      }
    }

    static lemma NoneRepeat()
      ensures NoRepeats<Peer>([])
    {
    }

    static lemma SortMore(t: seq<Peer>, rest: seq<Peer>, k: nat, rate: Peer -> real)
      requires NoRepeats(t) && NoRepeats(rest) && k < |rest| && forall j :: 0 <= j < |rest| ==> rate(rest[j]) <= rate(rest[k])
      requires forall c :: c in t ==> c !in rest
      requires forall c, e :: c in t && e in rest ==> rate(c) >= rate(e)
      requires forall i, j :: 0 <= i < j < |t| ==> rate(t[i]) >= rate(t[j])
      ensures NoRepeats(t + [rest[k]]) && NoRepeats(Without(rest, k)) && |Without(rest, k)| == |rest| - 1
      ensures forall c :: c in t || c in rest <==> c in t + [rest[k]] || c in Without(rest, k)
      ensures forall c :: c in t + [rest[k]] ==> c !in Without(rest, k)
      ensures forall c, e :: c in t + [rest[k]] && e in Without(rest, k) ==> rate(c) >= rate(e)
      ensures forall i, j :: 0 <= i < j < |t| + 1 ==> rate((t + [rest[k]])[i]) >= rate((t + [rest[k]])[j])
    {
      WithoutOne(rest, k);
      JoinDistinct(t, [rest[k]]);
      hide NoRepeats, Without;
      assert rest[k] in rest;
      forall i | 0 <= i < |t| ensures rate(t[i]) >= rate(rest[k]) { assert t[i] in t; }
    }

    /** Python's _rechoke, with any rates and snub flags. */
    method Rechoke(rate: Peer -> real, snubbed: Peer -> bool)
      requires NoRepeats(connections)
      modifies this`preferred, connections`choked
      ensures Valid() && Chosen(rate, snubbed)
    {
      hide In, Denied;
      var l := Candidates(snubbed);
      l := SortByRate(l, rate);
      var p := l[..Kept(maxUploads, |l|)];
      FirstOnes(l, |p|, rate);
      hide NoRepeats;
      preferred := p;
      Apply(p);
    }

    static lemma FirstOnes(l: seq<Peer>, k: nat, rate: Peer -> real)
      requires NoRepeats(l) && k <= |l| && forall i, j :: 0 <= i < j < |l| ==> rate(l[i]) >= rate(l[j])
      ensures NoRepeats(l[..k]) && forall c :: c in l[..k] ==> c in l
      ensures forall c, e :: c in l[..k] && e in l && e !in l[..k] ==> rate(c) >= rate(e)
    {
      forall c, e | c in l[..k] && e in l && e !in l[..k] ensures rate(c) >= rate(e) {
        var i :| 0 <= i < k && l[..k][i] == c;
        assert l == l[..k] + l[k..];
        var j :| 0 <= j < |l| - k && l[k..][j] == e;
        assert l[k + j] == e;
      }
    }

    /** Unchokes the preferred peers, and the others until enough of those interested are unchoked. */
    method Apply(p: seq<Peer>)
      requires preferred == p && Good(View())
      modifies connections`choked
      ensures Valid()
    {
      hide Good, In;
      GoodView();
      var n, hit := |p|, false;
      for i := 0 to |connections|
        invariant n == |p| + Min(Others(View(), i), Quota(View())) && (hit <==> Others(View(), i) > 0)
        invariant forall j :: 0 <= j < i ==> (connections[j].choked <==> Denied(View(), j))
      {
        var c := connections[i];
        OthersNext(View(), i);
        if c in p {
          c.choked := false;
        } else if n < minUploads || !hit {
          c.choked := false;
          if c.interested { n, hit := n + 1, true; }
        } else {
          c.choked := true;
        }
      }
    }

    /** The first choked peer that wants something, if there is one. */
    ghost predicate Foremost(i: nat)
      reads this`connections, connections`choked, connections`interested
    {
      && i <= |connections|
      && (i < |connections| ==> connections[i].choked && connections[i].interested)
      && forall j :: 0 <= j < i ==> !(connections[j].choked && connections[j].interested)
    }

    lemma GoodView()
      requires Good(View())
      ensures NoRepeats(connections) && Others(View(), 0) == 0
    {
    }

    /** The first choked peer that wants something moves to the front. */
    method Rotate()
      requires Valid()
      modifies this`connections
      ensures NoRepeats(connections) && Rotated(old(View()), connections) && forall c :: c in connections <==> c in old(connections)
      ensures forall i: nat :: old(Foremost(i)) ==> connections == old(connections)[i..] + old(connections)[..i]
    {
      GoodView();
      for i := 0 to |connections|
        invariant forall j :: 0 <= j < i ==> !(connections[j].choked && connections[j].interested)
        invariant forall j :: 0 <= j < i ==> !Waiting(View(), j)
        invariant connections == old(connections)
      {
        if connections[i].choked && connections[i].interested {
          assert FirstWaiting(View(), i);
          RotatedMembers(connections, i);
          connections := connections[i..] + connections[..i];
          return;
        }
      }
    }

    static lemma RotatedMembers(l: seq<Peer>, i: nat)
      requires NoRepeats(l) && i <= |l|
      ensures NoRepeats(l[i..] + l[..i]) && forall c :: c in l[i..] + l[..i] <==> c in l
    {
      assert l == l[..i] + l[i..];
      JoinDistinct(l[i..], l[..i]);
    }

    /** The clock moves on, and every third time the order is rotated. */
    method Advance()
      requires Valid()
      modifies this`count, this`connections
      ensures NoRepeats(connections) && Turned(old(View()), View()) && forall c :: c in connections ==> c in old(connections)
      ensures count == old(count) + 1 && (count % 3 != 0 ==> connections == old(connections))
      ensures forall i: nat :: count % 3 == 0 && old(Foremost(i)) ==> connections == old(connections)[i..] + old(connections)[..i]
    {
      hide Rotated, Foremost, In, Good, Denied;
      ghost var s := View();
      count := count + 1;
      ClockAside(s, count);
      assert View() == s.(count := count);
      GoodView();
      if count % 3 == 0 {
        Rotate();
        RotatedAside(s, count, connections);
      }
    }

    /** The clock's tick, every ten seconds. */
    method RoundRobin(rate: Peer -> real, snubbed: Peer -> bool)
      requires Valid()
      modifies this`count, this`connections, this`preferred, connections`choked
      ensures Valid() && Chosen(rate, snubbed) && Turn(old(View()), View())
      ensures count == old(count) + 1 && (count % 3 != 0 ==> connections == old(connections))
      ensures forall i: nat :: count % 3 == 0 && old(Foremost(i)) ==> connections == old(connections)[i..] + old(connections)[..i]
    {
      hide Rotated, Foremost, In, Good, Denied, Chosen;
      Advance();
      assert forall j :: 0 <= j < |connections| ==> connections[j] in old(connections);
      Rechoke(rate, snubbed);
      GoodNow();
    }

    lemma GoodNow()
      requires Valid()
      ensures Good(View())
    {
    }

    /** A new connection goes to a random place, more often the front than any other. */
    method ConnectionMade(c: Peer, p: int, rate: Peer -> real, snubbed: Peer -> bool)
      requires Valid() && c !in connections && -2 <= p <= |connections|
      modifies this`connections, this`preferred, connections`choked, c`choked
      ensures Valid() && Chosen(rate, snubbed)
      ensures connections == old(connections)[..Max(p, 0)] + [c] + old(connections)[Max(p, 0)..]
    {
      GoodView();
      Inserted(connections, Max(p, 0), c);
      connections := connections[..Max(p, 0)] + [c] + connections[Max(p, 0)..];
      Rechoke(rate, snubbed);
    }

    static lemma Inserted(l: seq<Peer>, i: nat, c: Peer)
      requires NoRepeats(l) && i <= |l| && c !in l
      ensures NoRepeats(l[..i] + [c] + l[i..]) && forall x :: x in l[..i] + [c] + l[i..] <==> x in l || x == c
    {
      assert l == l[..i] + l[i..];
      var m := l[..i] + [c] + l[i..];
      forall j | 0 <= j < |m| && j != i ensures m[j] == l[if j < i then j else j - 1] {}
    }

    method ConnectionLost(c: Peer, rate: Peer -> real, snubbed: Peer -> bool)
      requires Valid() && c in connections
      modifies this`connections, this`preferred, connections`choked
      ensures Valid()
      ensures exists k :: 0 <= k < |old(connections)| && old(connections)[k] == c && connections == Without(old(connections), k)
      ensures old(c.interested && !c.choked) ==> Chosen(rate, snubbed)
      ensures !old(c.interested && !c.choked) ==> preferred == old(preferred) && c.choked == old(c.choked)
    {
      hide Good, Denied, NoRepeats, In, Chosen;
      ghost var s := View();
      GoodView();
      ghost var k := Remove(c);
      if c.interested && !c.choked {
        Rechoke(rate, snubbed);
      } else {
        LeavingUnnoticed(s, View(), k);
        forall i | 0 <= i < |connections| ensures connections[i].choked <==> Denied(View(), i) {
          assert connections[i] == old(connections)[if i < k then i else i + 1];
        }
      }
    }

    /** self.connections.remove */
    method Remove(c: Peer) returns (k: nat)
      requires NoRepeats(connections) && c in connections
      modifies this`connections
      ensures k < |old(connections)| && old(connections)[k] == c && connections == Without(old(connections), k)
      ensures NoRepeats(connections) && forall j :: 0 <= j < |connections| ==> connections[j] in old(connections)
      ensures View() == old(View()).(order := connections, interested := old(View()).interested - {c})
    {
      k :| 0 <= k < |connections| && connections[k] == c;
      WithoutOne(connections, k);
      hide NoRepeats;
      connections := Without(connections, k);
      assert View().interested == old(View()).interested - {c};
    }

    /** The peer has come to want something, and its upload tells us. */
    method GotInterested(c: Peer, rate: Peer -> real, snubbed: Peer -> bool)
      requires Valid() && c in connections
      modifies c`interested, this`preferred, connections`choked
      ensures Valid() && Shift(old(View()), View()) && View().interested == old(View()).interested + {c}
      ensures old(!c.interested && !c.choked) ==> Chosen(rate, snubbed)
    {
      ghost var s := View();
      var k :| 0 <= k < |connections| && connections[k] == c;
      if !c.interested {
        c.interested := true;
        assert View().interested == s.interested + {c};
        if !c.choked {
          Rechoke(rate, snubbed);
        } else {
          InterestOfChoked(s, View(), k);
        }
      }
    }

    method GotNotInterested(c: Peer, rate: Peer -> real, snubbed: Peer -> bool)
      requires Valid() && c in connections
      modifies c`interested, this`preferred, connections`choked
      ensures Valid() && Shift(old(View()), View()) && View().interested == old(View()).interested - {c}
      ensures old(c.interested && !c.choked) ==> Chosen(rate, snubbed)
    {
      ghost var s := View();
      var k :| 0 <= k < |connections| && connections[k] == c;
      if c.interested {
        c.interested := false;
        assert View().interested == s.interested - {c};
        if !c.choked {
          Rechoke(rate, snubbed);
        } else {
          InterestOfChoked(s, View(), k);
        }
      }
    }

    method ChangeMaxUploads(newval: int, rate: Peer -> real, snubbed: Peer -> bool)
      requires Valid()
      modifies this`maxUploads, this`preferred, connections`choked
      ensures Valid() && Shift(old(View()), View()) && maxUploads == newval && Chosen(rate, snubbed)
    {
      GoodView();
      maxUploads := newval;
      Rechoke(rate, snubbed);
    }
  }
}
