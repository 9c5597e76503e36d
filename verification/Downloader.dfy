/** Asking peers for blocks: who has been asked for what, and the endgame in which the last
    blocks are asked of everyone. */
module Downloader {
  import opened Basics
  import opened Blocks
  import opened Placement
  import opened Storage
  import opened StorageWrapper
  import opened PiecePicker

  datatype Block = Block(index: nat, begin: nat, length: nat)

  /** What is sent to a peer. */
  datatype Message = Interested | NotInterested | Request(block: Block) | Cancel(block: Block) | Have(index: nat)

  /** What a peer can conclude about our interest from the messages it was sent. */
  function Told(sent: seq<Message>): bool {
    if sent == [] then false
    else match sent[|sent| - 1]
      case Interested => true
      case NotInterested => false
      case _ => Told(sent[..|sent| - 1])
  }

  /** The last word on a block was that the peer is asked for it. */
  function OnRequest(sent: seq<Message>, b: Block): bool {
    if sent == [] then false
    else match sent[|sent| - 1]
      case Request(x) => x == b || OnRequest(sent[..|sent| - 1], b)
      case Cancel(x) => x != b && OnRequest(sent[..|sent| - 1], b)
      case _ => OnRequest(sent[..|sent| - 1], b)
  }

  /** One request for each block. */
  function Asks(bs: seq<Block>): seq<Message> {
    seq(|bs|, i requires 0 <= i < |bs| => Request(bs[i]))
  }

  /** What is sent when our interest changes from was to now, and the blocks bs are asked for. */
  function News(was: bool, now: bool, bs: seq<Block>): seq<Message> {
    (if was == now then [] else [if now then Interested else NotInterested]) + Asks(bs)
  }

  predicate AllTrue(have: seq<bool>) {
    forall i :: 0 <= i < |have| ==> have[i]
  }

  /** One peer, seen from the downloading side. */
  class SingleDownload {
    var choked: bool
    var interested: bool
    var activeRequests: seq<Block>
    var have: seq<bool>
    var exampleInterest: Option<nat>
    /** The Connecter's flag: some message has come in from this peer. */
    var gotAnything: bool
    var sent: seq<Message>

    constructor (numpieces: nat)
      ensures choked && !interested && activeRequests == [] && have == seq(numpieces, _ => false)
      ensures exampleInterest == None && !gotAnything && sent == []
    {
      choked, interested, activeRequests := true, false, [];
      have := seq(numpieces, _ => false);
      exampleInterest, gotAnything, sent := None, false, [];
    }

    method SetInterested(b: bool)
      modifies this`interested, this`sent
      ensures interested == b && Told(sent) == b && sent == old(sent) + [if b then Interested else NotInterested]
      ensures forall x :: OnRequest(sent, x) == OnRequest(old(sent), x)
    {
      interested := b;
      sent := sent + [if b then Interested else NotInterested];
      assert sent[..|sent| - 1] == old(sent);
    }

    method SendRequest(b: Block)
      modifies this`sent
      ensures sent == old(sent) + [Request(b)] && Told(sent) == Told(old(sent))
      ensures forall x :: OnRequest(sent, x) == (x == b || OnRequest(old(sent), x))
    {
      sent := sent + [Request(b)];
      assert sent[..|sent| - 1] == old(sent);
    }

    method SendCancel(b: Block)
      modifies this`sent
      ensures sent == old(sent) + [Cancel(b)] && Told(sent) == Told(old(sent))
      ensures forall x :: OnRequest(sent, x) == (x != b && OnRequest(old(sent), x))
    {
      sent := sent + [Cancel(b)];
      assert sent[..|sent| - 1] == old(sent);
    }

    method SendHave(index: nat)
      modifies this`sent
      ensures sent == old(sent) + [Have(index)] && Told(sent) == Told(old(sent))
      ensures forall x :: OnRequest(sent, x) == OnRequest(old(sent), x)
    {
      sent := sent + [Have(index)];
      assert sent[..|sent| - 1] == old(sent);
    }
  }

  /** How many of the given have-lists contain piece i. */
  function Count(haves: seq<seq<bool>>, i: nat): nat {
    if haves == [] then 0
    else (if i < |haves[0]| && haves[0][i] then 1 else 0) + Count(haves[1..], i)
  }

  function One(have: seq<bool>, i: nat): nat {
    if i < |have| && have[i] then 1 else 0
  }

  lemma {:induction false} CountUpdate(haves: seq<seq<bool>>, k: nat, have: seq<bool>, i: nat)
    requires k < |haves|
    ensures Count(haves[k := have], i) == Count(haves, i) - One(haves[k], i) + One(have, i)
  {
    if k == 0 {
      assert haves[0 := have][1..] == haves[1..];
    } else {
      assert haves[k := have][1..] == haves[1..][k - 1 := have];
      CountUpdate(haves[1..], k - 1, have, i);
    }
  }

  lemma {:induction false} CountWithout(haves: seq<seq<bool>>, k: nat, i: nat)
    requires k < |haves|
    ensures Count(haves[..k] + haves[k + 1..], i) == Count(haves, i) - One(haves[k], i)
  {
    if k == 0 {
      assert haves[..0] + haves[1..] == haves[1..];
    } else {
      assert (haves[..k] + haves[k + 1..])[1..] == haves[1..][..k - 1] + haves[1..][k..];
      CountWithout(haves[1..], k - 1, i);
    }
  }

  lemma {:induction false} CountAppend(haves: seq<seq<bool>>, have: seq<bool>, i: nat)
    ensures Count(haves + [have], i) == Count(haves, i) + One(have, i)
  {
    if haves == [] {
      assert (haves + [have])[1..] == [];
    } else {
      assert (haves + [have])[1..] == haves[1..] + [have];
      CountAppend(haves[1..], have, i);
    }
  }

  lemma {:induction false} CountBounds(haves: seq<seq<bool>>, i: nat)
    ensures Count(haves, i) <= |haves|
    ensures forall k :: 0 <= k < |haves| ==> One(haves[k], i) <= Count(haves, i)
  {
    if haves != [] {
      CountBounds(haves[1..], i);
      assert forall k :: 0 < k < |haves| ==> haves[k] == haves[1..][k - 1];
    }
  }

  ghost function HavesOf(ds: seq<SingleDownload>): (haves: seq<seq<bool>>)
    reads ds`have
    ensures |haves| == |ds| && forall k :: 0 <= k < |ds| ==> haves[k] == ds[k].have
  {
    if ds == [] then [] else [ds[0].have] + HavesOf(ds[1..])
  }

  /** The peers that have a piece. */
  ghost function Holders(ds: seq<SingleDownload>, i: nat): set<SingleDownload>
    reads ds`have
  {
    set d | d in ds && i < |d.have| && d.have[i]
  }

  lemma {:induction false} CountHolders(ds: seq<SingleDownload>, i: nat)
    requires NoRepeats(ds)
    ensures Count(HavesOf(ds), i) == |Holders(ds, i)|
  {
    if ds != [] {
      CountHolders(ds[1..], i);
      HavesNext(ds);
      HoldersNext(ds, i);
      hide HavesOf, Holders;
    }
  }

  lemma HavesNext(ds: seq<SingleDownload>)
    requires ds != []
    ensures HavesOf(ds) != [] && HavesOf(ds)[0] == ds[0].have && HavesOf(ds)[1..] == HavesOf(ds[1..])
  {
  }

  lemma HoldersNext(ds: seq<SingleDownload>, i: nat)
    requires ds != [] && NoRepeats(ds)
    ensures |Holders(ds, i)| == |Holders(ds[1..], i)| + One(ds[0].have, i)
  {
    TailSplit(ds, 0);
    assert ds[0..] == ds;
    assert Holders(ds, i) == Holders(ds[1..], i) + if One(ds[0].have, i) == 1 then {ds[0]} else {};
  }

  /** What is remembered while a piece is offered to peers. */
  datatype Offer = Offer(open: nat, others: iset<nat>, lens: seq<nat>, spares: seq<int>, untold: set<SingleDownload>)

  class Downloader {
    const storage: StorageWrapper
    const picker: PiecePicker
    const backlog: nat
    var downloads: seq<SingleDownload>
    var allRequests: seq<Block>

    /** Outside endgame: which peer each outstanding block was asked of. */
    ghost var owner: map<Block, SingleDownload>

    // ---- what is always true of one peer ----

    ghost predicate PeerOk(d: SingleDownload)
      reads d
    {
      && |d.have| == storage.g.count
      && |d.activeRequests| <= backlog && NoRepeats(d.activeRequests)
      && (d.activeRequests != [] ==> d.interested && !d.choked)
      && (forall b :: b in d.activeRequests ==> b.index < |d.have| && d.have[b.index])
      && (forall b :: b in d.activeRequests ==> OnRequest(d.sent, b))
      && d.interested == Told(d.sent)
      && (d.exampleInterest.Some? ==> d.exampleInterest.value < |d.have| && d.have[d.exampleInterest.value])
      && (!d.gotAnything ==> d.choked && !d.interested && forall i :: 0 <= i < |d.have| ==> !d.have[i])
    }

    ghost predicate PeersOk()
      reads this`downloads, downloads
    {
      && NoRepeats(downloads) && |downloads| < UNBOUNDED
      && forall d :: d in downloads ==> PeerOk(d)
    }

    ghost predicate AllOk(ds: set<SingleDownload>)
      reads ds
    {
      forall e :: e in ds ==> PeerOk(e)
    }

    ghost predicate Listed()
      reads this`downloads
    {
      NoRepeats(downloads) && |downloads| < UNBOUNDED
    }

    /** Sets one peer apart from the others. */
    lemma SplitPeers(d: SingleDownload) returns (rest: set<SingleDownload>)
      requires PeersOk()
      ensures Listed() && AllOk(rest) && (d in downloads ==> PeerOk(d))
      ensures forall e :: e in rest <==> e in downloads && e != d
    {
      rest := set e | e in downloads && e != d;
    }

    lemma PeerFacts(d: SingleDownload)
      requires PeersOk() && d in downloads
      ensures PeerOk(d) && |downloads| < UNBOUNDED
    {
    }

    lemma JoinPeers(d: SingleDownload, rest: set<SingleDownload>)
      requires Listed() && AllOk(rest) && (d in downloads ==> PeerOk(d))
      requires forall e :: e in downloads && e != d ==> e in rest
      ensures PeersOk()
    {
    }

    // ---- the parts fit together ----

    ghost function Haves(): seq<seq<bool>>
      reads this`downloads, downloads`have
    {
      HavesOf(downloads)
    }

    ghost predicate PartsOk()
      reads this`downloads, downloads`have, storage, storage.storage, picker
    {
      Linked() && Counted() && Begun()
    }

    /** Piece i has been cut into requests, and is not had. */
    ghost predicate Cut(i: nat)
      reads storage`inactiveRequests
    {
      i < |storage.inactiveRequests| && storage.inactiveRequests[i].Listed?
    }

    /** The picker lists every piece that has been cut into requests as started. */
    ghost predicate Begun()
      reads storage`inactiveRequests, picker`started
    {
      forall i :: Cut(i) ==> i in picker.started
    }

    ghost predicate BegunBut(index: nat)
      reads storage`inactiveRequests, picker`started
    {
      forall i :: Cut(i) && i != index ==> i in picker.started
    }

    /** The picker takes a piece to be complete exactly when the storage has it. */
    ghost predicate Linked()
      reads storage, storage.storage, picker
    {
      && storage.Valid() && picker.Valid() && picker.numpieces == storage.g.count && backlog > 0
      && |storage.have| == |picker.numinterests| == |picker.avail| == storage.g.count
      && (forall i :: 0 <= i < storage.g.count ==> (picker.numinterests[i].None? <==> storage.have[i]))
    }

    /** The picker counts how many connected peers have each piece. */
    ghost predicate Counted()
      reads this`downloads, downloads`have, picker`avail
    {
      CountedFor(downloads)
    }

    ghost predicate CountedFor(ds: seq<SingleDownload>)
      reads ds`have, picker`avail
    {
      CountedBy(HavesOf(ds))
    }

    ghost predicate CountedBy(haves: seq<seq<bool>>)
      reads picker`avail
    {
      forall i :: 0 <= i < |picker.avail| ==> picker.avail[i] == Count(haves, i)
    }

    lemma BacklogPositive()
      requires PartsOk()
      ensures backlog > 0
    {
    }

    ghost predicate Outstanding(b: Block)
      reads storage`issued
    {
      storage.IsIssued(b.index, (b.begin, b.length))
    }

    predicate Requestable(i: nat)
      reads storage`inactiveRequests
    {
      i < |storage.inactiveRequests| && storage.inactiveRequests[i].Truthy()
    }

    // ---- outside endgame ----

    /** The peers' requests are exactly the outstanding blocks, and each is held by one peer. */
    ghost predicate Owned()
      reads this`downloads, this`owner, downloads`activeRequests, storage`issued
    {
      && (forall b :: b in owner <==> Outstanding(b))
      && (forall b :: b in owner ==> owner[b] in downloads && b in owner[b].activeRequests)
      && (forall d, b :: d in downloads && b in d.activeRequests ==> b in owner && owner[b] == d)
    }

    // ---- in endgame ----

    /** all_requests lists the outstanding blocks, and nothing is left to hand out. */
    ghost predicate AllListed()
      reads this`allRequests, storage`issued, storage`inactiveRequests
    {
      && storage.Exhausted() && NoRepeats(allRequests)
      && (forall b :: b in allRequests <==> Outstanding(b))
    }

    ghost predicate Has(d: SingleDownload, b: Block)
      reads d`have
    {
      b.index < |d.have| && d.have[b.index]
    }

    /** One peer in endgame: it is asked only for outstanding blocks, for all it has as far as the
        backlog allows, and is told of our interest exactly when it has an outstanding block. */
    ghost predicate EndPeer(d: SingleDownload)
      reads this`allRequests, d
    {
      && (forall b :: b in d.activeRequests ==> b in allRequests)
      && (!d.choked && |d.activeRequests| < backlog ==> forall b :: b in allRequests && Has(d, b) ==> b in d.activeRequests)
      && (d.interested <==> exists b :: b in allRequests && Has(d, b))
    }

    ghost predicate EndPeers()
      reads this`allRequests, this`downloads, downloads
    {
      forall d :: d in downloads ==> EndPeer(d)
    }

    /** A peer that is told of our interest is asked for something, or has something that can be handed out. */
    ghost predicate Candid(d: SingleDownload)
      reads d`interested, d`activeRequests, d`have, storage`inactiveRequests
    {
      d.interested && d.activeRequests == [] ==> !OnlyWants(d, [])
    }

    ghost predicate AllCandid()
      reads this`downloads, downloads`interested, downloads`activeRequests, downloads`have, storage`inactiveRequests
    {
      forall e :: e in downloads ==> Candid(e)
    }

    ghost predicate CandidBut(d: SingleDownload)
      reads this`downloads, downloads`interested, downloads`activeRequests, downloads`have, storage`inactiveRequests
    {
      forall e :: e in downloads && e != d ==> Candid(e)
    }

    ghost predicate Mode()
      reads this`allRequests, this`downloads, this`owner, downloads, storage`issued, storage`inactiveRequests, storage`endgame
    {
      if storage.endgame then AllListed() && EndPeers() else Owned() && AllCandid()
    }

    ghost predicate Valid()
      reads this, downloads, storage, storage.storage, picker
    {
      Inv()
    }

    ghost predicate Inv()
      reads this, downloads, storage, storage.storage, picker
    {
      PeersOk() && PartsOk() && Mode()
    }

    /** The storage has been scanned and the picker told of the pieces it holds. */
    constructor (storage: StorageWrapper, picker: PiecePicker, backlog: nat)
      requires storage.Valid() && picker.Valid() && picker.numpieces == storage.g.count && backlog > 0
      requires |storage.have| == |picker.numinterests| == |picker.avail| == storage.g.count
      requires forall i :: 0 <= i < storage.g.count ==> (picker.numinterests[i].None? <==> storage.have[i])
      requires forall i :: 0 <= i < storage.g.count ==> picker.avail[i] == 0
      requires !storage.endgame && forall i :: 0 <= i < |storage.issued| ==> storage.issued[i] == {}
      requires forall i :: 0 <= i < |storage.inactiveRequests| ==> !storage.inactiveRequests[i].Listed?
      ensures Valid() && downloads == [] && this.storage == storage && this.picker == picker && this.backlog == backlog
    {
      this.storage, this.picker, this.backlog := storage, picker, backlog;
      downloads, allRequests, owner := [], [], map[];
      new;
      hide StorageWrapper.Inv, PiecePicker.Inv;
    }

    // ---- fix_download_endgame ----

    /** Any rearrangement of a list. */
    method Shuffle<T>(s: seq<T>) returns (t: seq<T>)
      ensures |t| == |s| && (forall x :: x in t <==> x in s) && (NoRepeats(s) ==> NoRepeats(t))
    {
      t := [];
      var rest := s;
      while rest != []
        invariant |t| + |rest| == |s|
        invariant forall x :: x in s <==> x in t || x in rest
        invariant NoRepeats(s) ==> NoRepeats(t) && NoRepeats(rest) && forall x :: x in t ==> x !in rest
        decreases |rest|
      {
        var k :| 0 <= k < |rest|;
        if NoRepeats(s) { WithoutOne(rest, k); }
        assert forall x :: x in rest <==> x == rest[k] || x in Without(rest, k);
        t := t + [rest[k]];
        rest := Without(rest, k);
      }
    }

    /** The blocks of all_requests that the peer has and has not been asked for. */
    method Want(d: SingleDownload) returns (want: seq<Block>)
      ensures forall b :: b in want <==> b in allRequests && Has(d, b) && b !in d.activeRequests
      ensures NoRepeats(allRequests) ==> NoRepeats(want)
    {
      want := [];
      for i := 0 to |allRequests|
        invariant forall b :: b in want <==> b in allRequests[..i] && Has(d, b) && b !in d.activeRequests
        invariant NoRepeats(allRequests) ==> NoRepeats(want)
      {
        var a := allRequests[i];
        if a.index < |d.have| && d.have[a.index] && a !in d.activeRequests {
          want := want + [a];
        }
      }
      assert allRequests[..|allRequests|] == allRequests;
    }

    method FixDownloadEndgame(d: SingleDownload)
      requires PeerOk(d) && NoRepeats(allRequests) && backlog > 0
      requires forall b :: b in d.activeRequests ==> b in allRequests
      modifies d`interested, d`activeRequests, d`sent
      ensures PeerOk(d) && EndPeer(d) && old(d.activeRequests) <= d.activeRequests
      ensures d.sent == old(d.sent) + News(old(d.interested), d.interested, d.activeRequests[|old(d.activeRequests)|..])
      ensures forall b :: OnRequest(d.sent, b) <==> OnRequest(old(d.sent), b) || b in d.activeRequests
    {
      hide OnRequest, Told;
      var want := Want(d);
      assert want != [] ==> want[0] in allRequests && Has(d, want[0]);
      assert d.activeRequests != [] ==> d.activeRequests[0] in allRequests && Has(d, d.activeRequests[0]);
      if d.interested && d.activeRequests == [] && want == [] {
        d.SetInterested(false);
        return;
      }
      if !d.interested && want != [] {
        d.SetInterested(true);
      }
      if d.choked { return; }
      AskSome(d, want);
      assert [Interested] + Asks(d.activeRequests[|old(d.activeRequests)|..])
          == News(false, true, d.activeRequests[|old(d.activeRequests)|..]);
    }

    /** Asks for the given blocks in any order, as far as the backlog allows. */
    method AskSome(d: SingleDownload, given: seq<Block>)
      requires PeerOk(d) && !d.choked && (given != [] ==> d.interested) && NoRepeats(given)
      requires forall b :: b in given ==> Has(d, b) && b !in d.activeRequests
      modifies d`activeRequests, d`sent
      ensures PeerOk(d) && old(d.activeRequests) <= d.activeRequests
      ensures forall b :: b in d.activeRequests <==> b in old(d.activeRequests) || b in d.activeRequests[|old(d.activeRequests)|..]
      ensures forall b :: b in d.activeRequests[|old(d.activeRequests)|..] ==> b in given
      ensures |d.activeRequests| == backlog || forall b :: b in given ==> b in d.activeRequests
      ensures d.sent == old(d.sent) + Asks(d.activeRequests[|old(d.activeRequests)|..])
      ensures forall b :: OnRequest(d.sent, b) <==> OnRequest(old(d.sent), b) || b in d.activeRequests
    {
      hide OnRequest, Told;
      var want := Shuffle(given);
      want := want[..Min(|want|, backlog - |d.activeRequests|)];
      JoinDistinct(d.activeRequests, want);
      d.activeRequests := d.activeRequests + want;
      SendRequests(d, want);
      assert want == d.activeRequests[|old(d.activeRequests)|..];
    }

    method SendRequests(d: SingleDownload, bs: seq<Block>)
      modifies d`sent
      ensures d.sent == old(d.sent) + Asks(bs) && Told(d.sent) == Told(old(d.sent))
      ensures forall b :: OnRequest(d.sent, b) <==> OnRequest(old(d.sent), b) || b in bs
    {
      hide OnRequest, Told;
      for i := 0 to |bs|
        invariant d.sent == old(d.sent) + Asks(bs[..i]) && Told(d.sent) == Told(old(d.sent))
        invariant forall b :: OnRequest(d.sent, b) <==> OnRequest(old(d.sent), b) || b in bs[..i]
      {
        d.SendRequest(bs[i]);
        assert bs[..i + 1] == bs[..i] + [bs[i]];
        assert Asks(bs[..i + 1]) == Asks(bs[..i]) + [Request(bs[i])];
      }
      assert bs[..|bs|] == bs;
    }

    /** for d in self.downloads: d.fix_download_endgame() */
    method FixAll()
      requires PeersOk() && NoRepeats(allRequests) && backlog > 0
      requires forall d, b :: d in downloads && b in d.activeRequests ==> b in allRequests
      modifies downloads`interested, downloads`activeRequests, downloads`sent
      ensures PeersOk() && EndPeers()
    {
      for k := 0 to |downloads|
        invariant PeersOk()
        invariant forall j :: 0 <= j < k ==> EndPeer(downloads[j])
        invariant forall d, b :: d in downloads && b in d.activeRequests ==> b in allRequests
      {
        FixDownloadEndgame(downloads[k]);
      }
    }

    // ---- _request_more ----

    /** The peer has the piece, and blocks of it can still be handed out. */
    ghost predicate Wants(d: SingleDownload, i: nat)
      reads d`have, storage`inactiveRequests
    {
      i < |d.have| && d.have[i] && Requestable(i)
    }

    lemma PeerAt(d: SingleDownload) returns (k: nat)
      requires d in downloads
      ensures k < |downloads| && downloads[k] == d
    {
      k :| 0 <= k < |downloads| && downloads[k] == d;
    }

    /** What picker.next needs to know about the pieces a peer wants. */
    lemma WantsPositive(d: SingleDownload)
      requires PartsOk() && |downloads| < UNBOUNDED && d in downloads
      ensures forall p :: 0 <= p < storage.g.count && picker.numinterests[p].Some? ==>
                picker.numinterests[p].value < UNBOUNDED
      ensures forall p :: 0 <= p < storage.g.count && Wants(d, p) ==> picker.Positive(p)
    {
      storage.Facts();
      var k := PeerAt(d);
      forall p | 0 <= p < storage.g.count
        ensures picker.numinterests[p].Some? ==> picker.numinterests[p].value < UNBOUNDED
        ensures Wants(d, p) ==> picker.Positive(p)
      {
        CountBounds(Haves(), p);
        assert One(Haves()[k], p) <= Count(Haves(), p);
      }
    }

    /** The picker's choice for peer d: a started piece it wants of least availability, or else, from the
        cutoff on, a piece it wants of least positive availability. */
    ghost predicate BestPick(d: SingleDownload, p: nat)
      reads d`have, storage`inactiveRequests, picker
    {
      && Wants(d, p)
      && if exists q :: q in picker.Pool(AllTrue(d.have)) && Wants(d, q) then
           p in picker.Pool(AllTrue(d.have)) && forall q :: q in picker.Pool(AllTrue(d.have)) && Wants(d, q) ==> picker.Rarer(p, q)
         else
           (picker.numgot >= picker.rarestFirstCutoff ==>
             picker.Positive(p) && forall q: nat :: q < picker.numpieces && Wants(d, q) && picker.Positive(q) ==> picker.Rarer(p, q))
           && (picker.numgot < picker.rarestFirstCutoff ==>
                 exists k :: 0 <= k < |picker.scrambled| && picker.scrambled[k] == p
                             && forall j :: 0 <= j < k ==> !Wants(d, picker.scrambled[j]))
    }

    /** The first of the given pieces that the peer wants. */
    ghost predicate FirstOf(d: SingleDownload, l: seq<nat>, p: nat)
      reads d`have, storage`inactiveRequests
    {
      exists k :: 0 <= k < |l| && l[k] == p && Wants(d, p) && forall j :: 0 <= j < k ==> !Wants(d, l[j])
    }

    /** The piece to ask d for next, among the given ones if there are any. */
    ghost predicate Pick(d: SingleDownload, indices: Option<seq<nat>>, p: nat)
      reads d`have, storage`inactiveRequests, picker
    {
      match indices case None => BestPick(d, p) case Some(l) => FirstOf(d, l, p)
    }

    lemma PickWanted(d: SingleDownload, indices: Option<seq<nat>>, p: nat)
      requires Pick(d, indices, p)
      ensures Wants(d, p) && forall q :: Single(indices, q) ==> q == p
    {
    }

    /** The next piece to ask a peer for: the picker's choice, or the first of the given ones. */
    method PickNext(d: SingleDownload, indices: Option<seq<nat>>) returns (r: Option<nat>)
      requires PartsOk() && |downloads| < UNBOUNDED && d in downloads && |d.have| == storage.g.count
      ensures r.Some? ==> r.value < storage.g.count && Wants(d, r.value) && Pick(d, indices, r.value)
      ensures r.None? && indices.None? ==> forall i :: 0 <= i < storage.g.count ==> !Wants(d, i)
      ensures r.None? && indices.Some? ==> forall i :: i in indices.value ==> !Wants(d, i)
      ensures r.None? ==> Served(d, indices)
      ensures r.None? ==> forall p :: Single(indices, p) ==> !Wants(d, p) && NoneToGive(d, p)
    {
      hide StorageWrapper.Inv, PiecePicker.Inv, OpenCount;
      storage.Facts();
      match indices
      case None =>
        var wanted := seq(|d.have|, i requires 0 <= i < |d.have| reads d, storage => d.have[i] && Requestable(i));
        WantsPositive(d);
        r := picker.Next(wanted, AllTrue(d.have));
        assert forall i :: 0 <= i < |wanted| ==> (wanted[i] <==> Wants(d, i));
        if r.Some? {
          NextBest(d, wanted, r.value);
        }
      case Some(l) =>
        for k := 0 to |l|
          invariant forall j :: 0 <= j < k ==> !Wants(d, l[j])
        {
          var b := l[k] < |d.have| && d.have[l[k]] && Requestable(l[k]);
          if b {
            assert FirstOf(d, l, l[k]);
            return Some(l[k]);
          }
        }
        r := None;
        if |l| == 1 { NotWanted(d, l[0]); }
    }

    /** The peer does not have the piece, or nothing of it is open. */
    ghost predicate NoneToGive(d: SingleDownload, p: nat)
      reads d`have, storage`inactiveRequests
    {
      OpenCount(p) == 0 || p >= |d.have| || !d.have[p]
    }

    lemma NextBest(d: SingleDownload, wanted: seq<bool>, r: nat)
      requires Linked() && |wanted| == |d.have| == storage.g.count && forall i :: 0 <= i < |wanted| ==> (wanted[i] <==> Wants(d, i))
      requires r < |wanted| && wanted[r]
      requires picker.StartedWanted(wanted, AllTrue(d.have)) ==>
                 r in picker.Pool(AllTrue(d.have)) && forall p :: p in picker.Pool(AllTrue(d.have)) && wanted[p] ==> picker.Rarer(r, p)
      requires !picker.StartedWanted(wanted, AllTrue(d.have)) && picker.numgot >= picker.rarestFirstCutoff ==>
                 picker.Positive(r) && forall p :: 0 <= p < picker.numpieces && wanted[p] && picker.Positive(p) ==> picker.Rarer(r, p)
      requires !picker.StartedWanted(wanted, AllTrue(d.have)) && picker.numgot < picker.rarestFirstCutoff ==>
                 exists k :: 0 <= k < |picker.scrambled| && picker.scrambled[k] == r
                             && forall j :: 0 <= j < k ==> picker.scrambled[j] < picker.numpieces && !wanted[picker.scrambled[j]]
      ensures BestPick(d, r)
    {
    }

    /** Takes one open request of a wanted piece from the storage. */
    method TakeBlock(interest: nat) returns (b: Block)
      requires PartsOk() && Requestable(interest) && interest < storage.g.count && (storage.endgame ==> storage.Exhausted())
      modifies storage`inactiveRequests, storage`numactive, storage`amountInactive, storage`endgame, storage`issued
      ensures Linked() && Counted() && BegunBut(interest) && (storage.endgame ==> storage.Exhausted()) && !storage.have[interest]
      ensures b.index == interest && !old(Outstanding(b)) && OneMore(b)
      ensures old(LeastOpen(b)) && OpenCount(interest) == old(OpenCount(interest)) - 1
      ensures forall i :: i != interest ==> (Requestable(i) <==> old(Requestable(i)))
      ensures forall i :: Requestable(i) ==> old(Requestable(i))
    {
      assert !storage.endgame;
      hide PartsOk, StorageWrapper.Exhausted, StorageWrapper.Open;
      var r := NextTile(interest);
      b := Block(interest, r.0, r.1);
    }

    /** How many requests of piece i can still be handed out. */
    ghost function OpenCount(i: nat): nat
      reads storage`inactiveRequests
    {
      if i < |storage.inactiveRequests| then |storage.Open(i)| else 0
    }

    /** No open request of the piece begins before this one. */
    ghost predicate LeastOpen(b: Block)
      reads storage`inactiveRequests
    {
      && b.index < |storage.inactiveRequests| && (b.begin, b.length) in storage.Open(b.index)
      && forall t :: t in storage.Open(b.index) ==> b.begin <= t.0
    }

    lemma NoneOpen()
      requires PartsOk() && storage.Exhausted()
      ensures forall i :: OpenCount(i) == 0
    {
      forall i: nat ensures OpenCount(i) == 0 { OpenCounts(i); }
    }

    lemma OpenCounts(i: nat)
      requires PartsOk()
      ensures Requestable(i) <==> OpenCount(i) > 0
    {
      if i < |storage.inactiveRequests| { storage.OpenNothingLeft(i); }
    }

    /** storage.new_request */
    method NextTile(index: nat) returns (r: Tile)
      requires PartsOk() && Requestable(index) && index < storage.g.count
      modifies storage`inactiveRequests, storage`numactive, storage`amountInactive, storage`endgame, storage`issued
      ensures Linked() && Counted() && BegunBut(index) && (index in picker.started ==> PartsOk())
      ensures storage.endgame == (old(storage.endgame) || storage.Exhausted()) && SizesOk()
              && !storage.have[index]
      ensures !old(Outstanding(Block(index, r.0, r.1))) && OneMore(Block(index, r.0, r.1))
      ensures index < |old(storage.inactiveRequests)| && r in old(storage.Open(index))
              && storage.Open(index) == old(storage.Open(index)) - {r}
      ensures forall t :: t in old(storage.Open(index)) ==> r.0 <= t.0
      ensures forall i :: i != index ==> (Requestable(i) <==> old(Requestable(i)))
      ensures forall i :: Requestable(i) ==> old(Requestable(i))
    {
      hide StorageWrapper.Inv, Geometry.PieceLen, Geometry.Sized, Tiling, Counted, Linked, PickerOk;
      hide StorageWrapper.Exhausted, StorageWrapper.IsTile, StorageWrapper.Open;
      PickerAgrees();
      storage.Facts();
      r := storage.NewRequest(index);
      Relink();
    }

    ghost predicate SizesOk()
      reads storage`inactiveRequests, storage`have
    {
      |storage.inactiveRequests| == |storage.have| == storage.g.count
    }

    /** Piece p is listed as started, for complete peers too if d is one, and what was listed before still is. */
    ghost predicate Started(started: seq<nat>, seedstarted: seq<nat>, d: SingleDownload, p: nat)
      reads picker`started, picker`seedstarted, d`have
    {
      && p in picker.started && (AllTrue(d.have) ==> p in picker.seedstarted)
      && (forall q :: q in started ==> q in picker.started) && (forall q :: q in seedstarted ==> q in picker.seedstarted)
    }

    /** picker.requested */
    method MarkRequested(d: SingleDownload, interest: nat)
      requires Linked() && Counted() && BegunBut(interest) && interest < storage.g.count && !storage.have[interest]
      modifies picker`started, picker`seedstarted
      ensures PartsOk() && Started(old(picker.started), old(picker.seedstarted), d, interest)
    {
      hide StorageWrapper.Inv, PiecePicker.Inv, Geometry.PieceLen, Geometry.Sized, Counted;
      picker.Requested(interest, AllTrue(d.have));
    }

    /** Exactly one more block is outstanding. */
    twostate predicate OneMore(b: Block)
      reads storage`issued
    {
      forall x :: Outstanding(x) <==> old(Outstanding(x)) || x == b
    }

    /** A newly issued block is asked of peer d. */
    method Give(d: SingleDownload, b: Block)
      requires PeersOk() && d in downloads && !d.choked && d.interested && |d.activeRequests| < backlog && Has(d, b)
      requires OwnedBut(b) && Outstanding(b)
      modifies d`activeRequests, d`sent, this`owner
      ensures PeersOk() && Owned() && d.activeRequests == old(d.activeRequests) + [b]
    {
      hide PeersOk;
      Push(d, b);
      owner := owner[b := d];
    }

    method Push(d: SingleDownload, b: Block)
      requires PeersOk() && d in downloads && !d.choked && d.interested && |d.activeRequests| < backlog && Has(d, b)
      requires b !in d.activeRequests
      modifies d`activeRequests, d`sent
      ensures PeersOk() && d.activeRequests == old(d.activeRequests) + [b]
    {
      hide PeersOk, AllOk;
      ghost var rest := SplitPeers(d);
      JoinDistinct(d.activeRequests, [b]);
      d.activeRequests := d.activeRequests + [b];
      d.SendRequest(b);
      JoinPeers(d, rest);
    }

    /** Everything outstanding but block b is held by one peer. */
    ghost predicate OwnedBut(b: Block)
      reads this`downloads, this`owner, downloads`activeRequests, storage`issued
    {
      && (forall x :: x in owner <==> Outstanding(x) && x != b)
      && (forall x :: x in owner ==> owner[x] in downloads && x in owner[x].activeRequests)
      && (forall e, x :: e in downloads && x in e.activeRequests ==> x in owner && owner[x] == e)
    }

    method TakeInterest(d: SingleDownload, interest: nat)
      requires PeersOk() && d in downloads && !d.choked && interest < |d.have| && d.have[interest]
      modifies d`interested, d`sent, d`exampleInterest
      ensures PeersOk() && d.interested && d.exampleInterest == Some(interest)
    {
      hide PeersOk, AllOk;
      ghost var rest := SplitPeers(d);
      if !d.interested {
        d.SetInterested(true);
      }
      d.exampleInterest := Some(interest);
      JoinPeers(d, rest);
    }

    /** Hands one block of piece interest to an unchoked peer with room in its backlog. */
    method AskFor(d: SingleDownload, interest: nat)
      requires PeersOk() && PartsOk() && Owned() && d in downloads && !d.choked && |d.activeRequests| < backlog
      requires Wants(d, interest) && (storage.endgame ==> storage.Exhausted())
      modifies d`interested, d`activeRequests, d`sent, d`exampleInterest, this`owner
      modifies storage`inactiveRequests, storage`numactive, storage`amountInactive, storage`endgame, storage`issued
      modifies picker`started, picker`seedstarted
      ensures PeersOk() && PartsOk() && Owned() && (storage.endgame ==> storage.Exhausted())
      ensures |d.activeRequests| == |old(d.activeRequests)| + 1 && old(d.activeRequests) <= d.activeRequests
      ensures var b := Newest(d); b.index == interest && old(LeastOpen(b))
      ensures Started(old(picker.started), old(picker.seedstarted), d, interest) && d.exampleInterest == Some(interest)
      ensures OpenCount(interest) == old(OpenCount(interest)) - 1
      ensures forall i :: i != interest ==> (Requestable(i) <==> old(Requestable(i)))
      ensures forall i :: Requestable(i) ==> old(Requestable(i))
    {
      hide PartsOk, Linked, Counted, BegunBut, Started, PeersOk, StorageWrapper.Exhausted, Requestable, LeastOpen, OpenCount;
      PeerFacts(d);
      TakeInterest(d, interest);
      var b := TakeBlock(interest);
      MarkRequested(d, interest);
      assert b !in d.activeRequests;
      Give(d, b);
    }

    /** The block that the peer was asked for last. */
    ghost function Newest(d: SingleDownload): Block
      requires d.activeRequests != []
      reads d`activeRequests
    {
      d.activeRequests[|d.activeRequests| - 1]
    }

    /** Nothing the peer has can be handed out, except pieces in l. */
    ghost predicate OnlyWants(d: SingleDownload, l: seq<nat>)
      reads d`have, storage`inactiveRequests
    {
      forall i :: 0 <= i < |d.have| && Wants(d, i) ==> i in l
    }

    /** How many blocks of piece p the peer could still be asked for, as far as its backlog goes. */
    ghost function SpareOf(d: SingleDownload, p: nat): nat
      reads d`have, d`activeRequests
    {
      if p < |d.have| && d.have[p] && |d.activeRequests| <= backlog then backlog - |d.activeRequests| else 0
    }

    /** As many open requests of piece p are gone as peer d had room for, and no others. */
    twostate predicate Gave(d: SingleDownload, p: nat)
      reads storage`inactiveRequests
    {
      && OpenCount(p) == Max(old(OpenCount(p)) - old(SpareOf(d, p)), 0)
      && forall i :: i != p ==> (Requestable(i) <==> old(Requestable(i)))
    }

    /** They have gone to peer d. */
    twostate predicate Took(d: SingleDownload, p: nat)
      reads d`activeRequests, storage`inactiveRequests
    {
      |d.activeRequests| == old(|d.activeRequests| + OpenCount(p)) - OpenCount(p)
    }

    /** No other peer has been asked for anything, or told of interest that it did not know of. */
    twostate predicate OthersStill(d: SingleDownload)
      reads this`downloads, downloads`activeRequests, downloads`interested
    {
      forall e :: e in downloads && e in old(downloads) && e != d ==>
        e.activeRequests == old(e.activeRequests) && (!old(e.interested) ==> !e.interested)
    }

    /** Blocks have been handed out only of pieces that peer d has. */
    twostate predicate OnlyHad(d: SingleDownload)
      reads d`have, storage`inactiveRequests
    {
      forall i: nat :: i >= |d.have| || !d.have[i] ==> (Requestable(i) <==> old(Requestable(i)))
    }

    /** Whether just one piece is on offer. */
    ghost predicate Single(indices: Option<seq<nat>>, p: nat) {
      indices == Some([p])
    }

    /** Peer d is asked for as much as it can be, or has nothing left of what was on offer. */
    ghost predicate Served(d: SingleDownload, indices: Option<seq<nat>>)
      reads d`activeRequests, d`have, storage`inactiveRequests
    {
      |d.activeRequests| == backlog ||
      match indices
      case None => OnlyWants(d, [])
      case Some(l) => forall i :: i in l ==> !Wants(d, i)
    }

    lemma ExhaustedServed(d: SingleDownload, indices: Option<seq<nat>>)
      requires storage.Exhausted()
      ensures Served(d, indices)
    {
    }

    /** The pieces of the blocks that d is asked for from position k on are listed as started. */
    ghost predicate Noted(d: SingleDownload, k: nat)
      reads d`activeRequests, d`have, picker`started, picker`seedstarted
    {
      AllNoted(d.activeRequests, k, AllTrue(d.have), picker.started, picker.seedstarted)
    }

    static ghost predicate AllNoted(l: seq<Block>, k: nat, seed: bool, started: seq<nat>, seedstarted: seq<nat>) {
      forall j :: k <= j < |l| ==> l[j].index in started && (seed ==> l[j].index in seedstarted)
    }

    static lemma NoneNoted(l: seq<Block>, seed: bool, started: seq<nat>, seedstarted: seq<nat>)
      ensures AllNoted(l, |l|, seed, started, seedstarted)
    {
    }

    lemma NotedMore(d: SingleDownload, k: nat, before: seq<Block>, started: seq<nat>, seedstarted: seq<nat>)
      requires |d.activeRequests| == |before| + 1 && before <= d.activeRequests
      requires Started(started, seedstarted, d, Newest(d).index) && AllNoted(before, k, AllTrue(d.have), started, seedstarted)
      ensures Noted(d, k)
    {
    }

    /** The loop of _request_more: asks until the backlog is full or nothing more is wanted. */
    method FillUp(d: SingleDownload, indices: Option<seq<nat>>) returns (lostInterests: seq<nat>)
      requires PeersOk() && PartsOk() && Owned() && d in downloads && !d.choked && !storage.endgame
      modifies d`interested, d`activeRequests, d`sent, d`exampleInterest, this`owner
      modifies storage`inactiveRequests, storage`numactive, storage`amountInactive, storage`endgame, storage`issued
      modifies picker`started, picker`seedstarted
      ensures PeersOk() && PartsOk() && Owned() && (storage.endgame ==> storage.Exhausted())
      ensures forall i :: Requestable(i) ==> old(Requestable(i))
      ensures Served(d, indices)
      ensures indices.Some? && old(|d.activeRequests| < backlog ==> OnlyWants(d, indices.value)) ==>
                |d.activeRequests| == backlog || OnlyWants(d, [])
      ensures forall p: nat :: Single(indices, p) ==> Gave(d, p) && Took(d, p)
      ensures old(d.activeRequests) <= d.activeRequests
      ensures |d.activeRequests| > |old(d.activeRequests)| ==>
                var b := d.activeRequests[|old(d.activeRequests)|]; old(Pick(d, indices, b.index) && LeastOpen(b))
      ensures forall i :: old(Requestable(i)) && !Requestable(i) ==> i in lostInterests
      ensures forall i :: i in lostInterests ==> !Requestable(i)
      ensures OnlyHad(d) && Noted(d, |old(d.activeRequests)|)
    {
      hide PartsOk, PeersOk, Owned, Requestable, StorageWrapper.Exhausted, Pick, OpenCount, LeastOpen, Single, Noted;
      PeerFacts(d);
      lostInterests := FillLoop(d, indices);
    }

    /** One round of the loop: a block of the next piece, if there is one. */
    method AskNext(d: SingleDownload, indices: Option<seq<nat>>, ghost k: nat) returns (interest: Option<nat>)
      requires PeersOk() && PartsOk() && Owned() && d in downloads && !d.choked && |d.activeRequests| < backlog
      requires (storage.endgame ==> storage.Exhausted()) && k <= |d.activeRequests| && Noted(d, k)
      modifies d`interested, d`activeRequests, d`sent, d`exampleInterest, this`owner
      modifies storage`inactiveRequests, storage`numactive, storage`amountInactive, storage`endgame, storage`issued
      modifies picker`started, picker`seedstarted
      ensures PeersOk() && PartsOk() && Owned() && (storage.endgame ==> storage.Exhausted()) && Noted(d, k)
      ensures interest.None? ==>
                && Served(d, indices) && (forall p :: Single(indices, p) ==> NoneToGive(d, p))
                && d.activeRequests == old(d.activeRequests) && unchanged(storage, picker)
      ensures interest.Some? ==>
                && |d.activeRequests| == |old(d.activeRequests)| + 1 && old(d.activeRequests) <= d.activeRequests
                && interest.value < |d.have| && d.have[interest.value] && (forall p :: Single(indices, p) ==> p == interest.value)
                && (var b := Newest(d); b.index == interest.value && old(Pick(d, indices, b.index) && LeastOpen(b)))
                && OpenCount(interest.value) == old(OpenCount(interest.value)) - 1
                && forall i :: i != interest.value ==> (Requestable(i) <==> old(Requestable(i)))
      ensures forall i :: Requestable(i) ==> old(Requestable(i))
    {
      hide PartsOk, PeersOk, Owned, Requestable, StorageWrapper.Exhausted, Pick, OpenCount, LeastOpen, Single, AllNoted, Started, AllTrue;
      hide Served, NoneToGive, OnlyWants, Wants;
      PeerFacts(d);
      interest := PickNext(d, indices);
      if interest.Some? {
        PickWanted(d, indices, interest.value);
        WantsHas(d, interest.value);
        ghost var before, started, seedstarted := d.activeRequests, picker.started, picker.seedstarted;
        AskFor(d, interest.value);
        NotedMore(d, k, before, started, seedstarted);
      }
    }

    /** The loop itself: what has been counted off each piece, and what is left. */
    method FillLoop(d: SingleDownload, indices: Option<seq<nat>>) returns (lostInterests: seq<nat>)
      requires PeersOk() && PartsOk() && Owned() && d in downloads && !d.choked && !storage.endgame
      modifies d`interested, d`activeRequests, d`sent, d`exampleInterest, this`owner
      modifies storage`inactiveRequests, storage`numactive, storage`amountInactive, storage`endgame, storage`issued
      modifies picker`started, picker`seedstarted
      ensures PeersOk() && PartsOk() && Owned() && (storage.endgame ==> storage.Exhausted())
      ensures |d.activeRequests| <= backlog && Noted(d, |old(d.activeRequests)|) && Served(d, indices)
      ensures forall i :: Requestable(i) ==> old(Requestable(i))
      ensures forall i :: old(Requestable(i)) && !Requestable(i) ==> i in lostInterests
      ensures forall i :: i in lostInterests ==> !Requestable(i) && i < |d.have| && d.have[i]
      ensures old(d.activeRequests) <= d.activeRequests
      ensures |d.activeRequests| > |old(d.activeRequests)| ==>
                var b := d.activeRequests[|old(d.activeRequests)|]; old(Pick(d, indices, b.index) && LeastOpen(b))
      ensures forall p: nat :: Single(indices, p) ==>
                && |d.activeRequests| + OpenCount(p) == old(|d.activeRequests| + OpenCount(p))
                && (forall i :: i != p ==> (Requestable(i) <==> old(Requestable(i))))
                && (|d.activeRequests| == |old(d.activeRequests)| || (p < |d.have| && d.have[p]))
                && (|d.activeRequests| == backlog || NoneToGive(d, p))
    {
      hide PartsOk, PeersOk, Owned, Requestable, StorageWrapper.Exhausted, Pick, OpenCount, LeastOpen, Single, AllNoted, Started, AllTrue;
      hide Served, NoneToGive, OnlyWants, Wants;
      lostInterests := [];
      NoneNoted(d.activeRequests, AllTrue(d.have), picker.started, picker.seedstarted);
      PeerFacts(d);
      while |d.activeRequests| < backlog
        invariant PeersOk() && PartsOk() && Owned() && (storage.endgame ==> storage.Exhausted())
        invariant !d.choked && |d.activeRequests| <= backlog && Noted(d, |old(d.activeRequests)|)
        invariant forall i :: Requestable(i) ==> old(Requestable(i))
        invariant forall i :: old(Requestable(i)) && !Requestable(i) ==> i in lostInterests
        invariant forall i :: i in lostInterests ==> !Requestable(i)
        invariant forall i :: i in lostInterests ==> i < |d.have| && d.have[i]
        invariant old(d.activeRequests) <= d.activeRequests
        invariant d.activeRequests == old(d.activeRequests) ==> unchanged(storage, picker)
        invariant |d.activeRequests| > |old(d.activeRequests)| ==>
                    var b := d.activeRequests[|old(d.activeRequests)|]; old(Pick(d, indices, b.index) && LeastOpen(b))
        invariant forall p: nat :: Single(indices, p) ==>
                    && |d.activeRequests| + OpenCount(p) == old(|d.activeRequests| + OpenCount(p))
                    && (forall i :: i != p ==> (Requestable(i) <==> old(Requestable(i))))
                    && (|d.activeRequests| == |old(d.activeRequests)| || (p < |d.have| && d.have[p]))
        decreases backlog - |d.activeRequests|
      {
        var interest := AskNext(d, indices, |old(d.activeRequests)|);
        if interest.None? {
          break;
        }
        if !Requestable(interest.value) {
          lostInterests := lostInterests + [interest.value];
        }
      }
      if |d.activeRequests| == backlog { ServedFull(d, indices); }
    }

    lemma ServedFull(d: SingleDownload, indices: Option<seq<nat>>)
      requires |d.activeRequests| == backlog
      ensures Served(d, indices)
    {
    }

    lemma WantsHas(d: SingleDownload, i: nat)
      requires Wants(d, i)
      ensures i < |d.have| && d.have[i]
    {
    }

    lemma NotWanted(d: SingleDownload, p: nat)
      requires PartsOk()
      ensures Wants(d, p) || NoneToGive(d, p)
    {
      OpenCounts(p);
    }

    /** The peer could be asked for more, or does not know that we are interested. */
    ghost predicate Slack(d: SingleDownload)
      reads d`choked, d`activeRequests, d`interested
    {
      (!d.choked && |d.activeRequests| < backlog) || !d.interested
    }

    /** No peer with slack has anything that can be handed out, except pieces in l. */
    ghost predicate WorkingBut(d: SingleDownload, l: seq<nat>)
      reads d`choked, d`activeRequests, d`interested, d`have, storage`inactiveRequests
    {
      Slack(d) ==> OnlyWants(d, l)
    }

    ghost predicate Busy(ds: set<SingleDownload>, l: seq<nat>)
      reads ds`choked, ds`activeRequests, ds`interested, ds`have, storage`inactiveRequests
    {
      forall e :: e in ds ==> WorkingBut(e, l)
    }

    /** The first part of _request_more: the loop, and the peer is told if it ends up with nothing. */
    method FillAndTell(d: SingleDownload, indices: Option<seq<nat>>, ghost known: bool,
                       ghost busy: set<SingleDownload>, ghost nearly: set<SingleDownload>, ghost l: seq<nat>)
      returns (lost: seq<nat>)
      requires PeersOk() && PartsOk() && Owned() && d in downloads && !d.choked && !storage.endgame && CandidBut(d)
      requires Busy(busy, []) && Busy(nearly, l) && d !in busy && d !in nearly
      requires known && indices.Some? ==> WorkingBut(d, indices.value)
      modifies d`interested, d`activeRequests, d`sent, d`exampleInterest, this`owner
      modifies storage`inactiveRequests, storage`numactive, storage`amountInactive, storage`endgame, storage`issued
      modifies picker`started, picker`seedstarted
      ensures PeersOk() && PartsOk() && Owned() && (storage.endgame ==> storage.Exhausted())
      ensures Busy(busy, []) && Busy(nearly, l) && (known ==> WorkingBut(d, []))
      ensures forall p: nat :: Single(indices, p) ==> Gave(d, p) && Took(d, p)
      ensures old(d.activeRequests) <= d.activeRequests && (d.activeRequests == [] ==> !d.interested)
      ensures forall i :: old(Requestable(i)) && !Requestable(i) ==> i in lost
      ensures OnlyHad(d) && Doubtful(lost) && Served(d, indices) && Noted(d, |old(d.activeRequests)|)
    {
      hide PartsOk, PeersOk, AllOk, Owned, Requestable, OpenCount, Pick, LeastOpen, Noted, StorageWrapper.Exhausted;
      BacklogPositive();
      lost := FillUp(d, indices);
      PeerFacts(d);
      if d.activeRequests == [] && d.interested {
        ghost var rest := SplitPeers(d);
        d.SetInterested(false);
        JoinPeers(d, rest);
      }
    }

    /** The same as Candid, for a peer that may not have been told yet that one of the pieces in lost is gone. */
    ghost predicate CandidOr(d: SingleDownload, lost: seq<nat>)
      reads d`interested, d`activeRequests, d`have, storage`inactiveRequests
    {
      d.interested && d.activeRequests == [] ==> !OnlyWants(d, []) || HasSome(d, lost)
    }

    ghost predicate HasSome(d: SingleDownload, l: seq<nat>)
      reads d`have
    {
      exists i :: i in l && i < |d.have| && d.have[i]
    }

    ghost predicate Doubtful(lost: seq<nat>)
      reads this`downloads, downloads`interested, downloads`activeRequests, downloads`have, storage`inactiveRequests
    {
      forall e :: e in downloads ==> CandidOr(e, lost)
    }

    lemma NoDoubt()
      requires Doubtful([])
      ensures AllCandid()
    {
      assert forall e :: e in downloads ==> CandidOr(e, []);
    }

    /** The idle peers that had one of the lost pieces are told if nothing else of theirs is wanted:
        afterwards each peer that is told of our interest has something for us, or is asked for something. */
    method Reconsider(lost: seq<nat>, ghost busy: set<SingleDownload>, ghost nearly: set<SingleDownload>, ghost l: seq<nat>)
      requires PeersOk() && PartsOk() && Busy(busy, []) && Busy(nearly, l) && Doubtful(lost)
      modifies downloads`interested, downloads`sent, downloads`exampleInterest
      ensures PeersOk() && Busy(busy, []) && Busy(nearly, l) && AllCandid()
      ensures forall e :: e in downloads && !old(e.interested) ==> !e.interested
      ensures forall e :: e in downloads && old(e.interested) && !e.interested ==> OnlyWants(e, [])
    {
      hide PartsOk, Requestable, HasSome;
      for k := 0 to |downloads|
        invariant PeersOk() && Busy(busy, []) && Busy(nearly, l) && Doubtful(lost)
        invariant forall j :: 0 <= j < k ==> Candid(downloads[j])
        invariant forall e :: e in downloads && !old(e.interested) ==> !e.interested
        invariant forall e :: e in downloads && old(e.interested) && !e.interested ==> OnlyWants(e, [])
      {
        var d := downloads[k];
        PeerFacts(d);
        assert CandidOr(d, lost);
        if d.activeRequests == [] && d.interested {
          ReconsiderOne(d, lost);
        }
      }
    }

    method ReconsiderOne(d: SingleDownload, lost: seq<nat>)
      requires PeersOk() && PartsOk() && d in downloads && d.activeRequests == [] && d.interested && CandidOr(d, lost)
      modifies d`interested, d`sent, d`exampleInterest
      ensures PeersOk() && Candid(d) && (!d.interested ==> OnlyWants(d, []))
    {
      hide PartsOk, PeersOk, AllOk;
      PeerFacts(d);
      ghost var rest := SplitPeers(d);
      if d.exampleInterest.Some? && Requestable(d.exampleInterest.value) {
        assert Wants(d, d.exampleInterest.value);
        return;
      }
      if forall k :: 0 <= k < |lost| ==> !(lost[k] < |d.have| && d.have[lost[k]]) { return; }
      var interest := PickNext(d, None);
      if interest.None? {
        d.SetInterested(false);
      } else {
        assert Wants(d, interest.value);
        d.exampleInterest := interest;
      }
      JoinPeers(d, rest);
    }

    /** Collects all outstanding requests and spreads them over the peers. */
    method StartEndgame()
      requires PeersOk() && Owned() && storage.Exhausted() && backlog > 0
      modifies this`allRequests, downloads`interested, downloads`activeRequests, downloads`sent
      ensures PeersOk() && AllListed() && EndPeers()
    {
      hide StorageWrapper.Exhausted;
      CollectRequests();
      FixAll();
    }

    /** all_requests gets every peer's requests, one after the other. */
    method CollectRequests()
      requires PeersOk() && Owned()
      modifies this`allRequests
      ensures NoRepeats(allRequests) && forall b :: b in allRequests <==> Outstanding(b)
    {
      allRequests := [];
      for k := 0 to |downloads|
        invariant NoRepeats(allRequests)
        invariant forall b :: b in allRequests ==> b in owner && owner[b] in downloads[..k]
        invariant forall j, b :: 0 <= j < k && b in downloads[j].activeRequests ==> b in allRequests
      {
        assert downloads[k] !in downloads[..k];
        assert PeerOk(downloads[k]);
        JoinDistinct(allRequests, downloads[k].activeRequests);
        allRequests := allRequests + downloads[k].activeRequests;
        assert forall e :: e in downloads[..k + 1] <==> e in downloads[..k] || e == downloads[k];
      }
      forall b | Outstanding(b) ensures b in allRequests {
        var k := PeerAt(owner[b]);
      }
    }

    /** Only peer d, which is unchoked, may lack requests in endgame. */
    ghost predicate ModeBut(d: SingleDownload)
      reads this`allRequests, this`downloads, this`owner, downloads, storage`issued, storage`inactiveRequests, storage`endgame
    {
      if storage.endgame then
        && AllListed() && (forall e :: e in downloads && e != d ==> EndPeer(e))
        && (d in downloads ==> forall b :: b in d.activeRequests ==> b in allRequests)
        && (d in downloads && |d.activeRequests| == backlog ==> EndPeer(d))
      else Owned() && CandidBut(d)
    }

    lemma ExhaustedWorking(ds: set<SingleDownload>, l: seq<nat>)
      requires storage.Exhausted()
      ensures Busy(ds, l)
    {
    }

    /** Python's _request_more. The peers in busy, and those in nearly but for pieces in l, are as
        busy as they can be. They still are, and if that is known of d it is fully busy now. */
    method RequestMore(d: SingleDownload, indices: Option<seq<nat>>, ghost known: bool,
                       ghost busy: set<SingleDownload>, ghost nearly: set<SingleDownload>, ghost l: seq<nat>)
      requires PeersOk() && PartsOk() && ModeBut(d) && d in downloads && !d.choked
      requires Busy(busy, []) && Busy(nearly, l) && d !in busy && d !in nearly
      requires known && indices.Some? ==> WorkingBut(d, indices.value)
      modifies downloads`interested, downloads`activeRequests, downloads`sent, downloads`exampleInterest
      modifies this`owner, this`allRequests
      modifies storage`inactiveRequests, storage`numactive, storage`amountInactive, storage`endgame, storage`issued
      modifies picker`started, picker`seedstarted
      ensures PeersOk() && PartsOk() && Mode() && (old(storage.endgame) ==> storage.endgame)
      ensures old(storage.endgame) ==> forall e :: e in downloads && e != d ==> e.sent == old(e.sent)
      ensures Busy(busy, []) && Busy(nearly, l) && (known ==> Busy({d}, []))
      ensures forall p: nat :: Single(indices, p) ==> Gave(d, p) && (storage.endgame || Took(d, p))
      ensures OnlyHad(d) && Served(d, indices)
      ensures storage.endgame ||
              (OthersStill(d) && Noted(d, |old(d.activeRequests)|) && old(d.activeRequests) <= d.activeRequests
               && (d.activeRequests == [] ==> !d.interested))
    {
      hide PartsOk, PeersOk, AllOk, Owned, Requestable, OpenCount, StorageWrapper.Exhausted;
      PeerFacts(d);
      BacklogPositive();
      if |d.activeRequests| == backlog { return; }
      if storage.endgame {
        NoneOpen();
        FixOne(d);
        ExhaustedWorking(busy, []);
        ExhaustedWorking(nearly, l);
        ExhaustedWorking({d}, []);
        ExhaustedServed(d, indices);
      } else {
        RequestOutsideEndgame(d, indices, known, busy, nearly, l);
      }
    }

    /** In endgame: brings one peer up to date. */
    method FixOne(d: SingleDownload)
      requires PeersOk() && storage.endgame && AllListed() && d in downloads && backlog > 0
      requires forall e :: e in downloads && e != d ==> EndPeer(e)
      requires forall b :: b in d.activeRequests ==> b in allRequests
      modifies d`interested, d`activeRequests, d`sent
      ensures PeersOk() && Mode()
    {
      hide PeersOk, AllOk;
      ghost var rest := SplitPeers(d);
      FixDownloadEndgame(d);
      JoinPeers(d, rest);
    }

    method RequestOutsideEndgame(d: SingleDownload, indices: Option<seq<nat>>, ghost known: bool,
                                 ghost busy: set<SingleDownload>, ghost nearly: set<SingleDownload>, ghost l: seq<nat>)
      requires PeersOk() && PartsOk() && Owned() && d in downloads && !d.choked && !storage.endgame && CandidBut(d)
      requires Busy(busy, []) && Busy(nearly, l) && d !in busy && d !in nearly
      requires known && indices.Some? ==> WorkingBut(d, indices.value)
      modifies downloads`interested, downloads`activeRequests, downloads`sent, downloads`exampleInterest
      modifies this`owner, this`allRequests
      modifies storage`inactiveRequests, storage`numactive, storage`amountInactive, storage`endgame, storage`issued
      modifies picker`started, picker`seedstarted
      ensures PeersOk() && PartsOk() && Mode()
      ensures Busy(busy, []) && Busy(nearly, l) && (known ==> Busy({d}, []))
      ensures forall p: nat :: Single(indices, p) ==> Gave(d, p) && (storage.endgame || Took(d, p))
      ensures OnlyHad(d) && Served(d, indices)
      ensures storage.endgame ||
              (OthersStill(d) && Noted(d, |old(d.activeRequests)|) && old(d.activeRequests) <= d.activeRequests
               && (d.activeRequests == [] ==> !d.interested))
    {
      hide PartsOk, PeersOk, Owned, AllCandid, CandidBut, Busy, AllListed, EndPeers, OpenCount, Requestable, StorageWrapper.Exhausted;
      hide Served, Single, Noted;
      BacklogPositive();
      FillAndTellAll(d, indices, known, busy, nearly, l);
      if storage.endgame {
        StartEndgame();
        ExhaustedWorking(busy, []);
        ExhaustedWorking({d}, []);
        ExhaustedWorking(nearly, l);
        ExhaustedServed(d, indices);
      }
    }

    /** All of _request_more but for the start of the endgame. */
    method FillAndTellAll(d: SingleDownload, indices: Option<seq<nat>>, ghost known: bool,
                          ghost busy: set<SingleDownload>, ghost nearly: set<SingleDownload>, ghost l: seq<nat>)
      requires PeersOk() && PartsOk() && Owned() && d in downloads && !d.choked && !storage.endgame && CandidBut(d)
      requires Busy(busy, []) && Busy(nearly, l) && d !in busy && d !in nearly
      requires known && indices.Some? ==> WorkingBut(d, indices.value)
      modifies downloads`interested, downloads`activeRequests, downloads`sent, downloads`exampleInterest
      modifies this`owner
      modifies storage`inactiveRequests, storage`numactive, storage`amountInactive, storage`endgame, storage`issued
      modifies picker`started, picker`seedstarted
      ensures PeersOk() && PartsOk() && Owned() && AllCandid() && (storage.endgame ==> storage.Exhausted())
      ensures Busy(busy, []) && Busy(nearly, l) && (known ==> Busy({d}, []))
      ensures forall p: nat :: Single(indices, p) ==> Gave(d, p) && Took(d, p)
      ensures OnlyHad(d) && Served(d, indices) && Noted(d, |old(d.activeRequests)|)
      ensures OthersStill(d) && old(d.activeRequests) <= d.activeRequests && (d.activeRequests == [] ==> !d.interested)
    {
      hide PartsOk, PeersOk, Owned, Busy, WorkingBut, OpenCount, Requestable, StorageWrapper.Exhausted;
      hide AllCandid, CandidBut, Doubtful, Served, OnlyWants, Single, Noted;
      var lost := FillAndTell(d, indices, known, busy, nearly, l);
      ghost var all := busy + if known then {d} else {};
      JoinBusy(busy, d, known);
      if lost != [] {
        Reconsider(lost, all, nearly, l);
      } else {
        NoDoubt();
      }
      SplitBusy(busy, d, known);
    }

    lemma JoinBusy(busy: set<SingleDownload>, d: SingleDownload, known: bool)
      requires Busy(busy, []) && (known ==> WorkingBut(d, []))
      ensures Busy(busy + if known then {d} else {}, [])
    {
    }

    lemma SplitBusy(busy: set<SingleDownload>, d: SingleDownload, known: bool)
      requires Busy(busy + if known then {d} else {}, [])
      ensures Busy(busy, []) && (known ==> Busy({d}, []))
    {
    }

    // ---- _letgo ----

    /** [d for d in self.downloads if not d.choked] */
    method Unchoked() returns (ds: seq<SingleDownload>)
      requires NoRepeats(downloads)
      ensures NoRepeats(ds) && forall e :: e in ds <==> e in downloads && !e.choked
    {
      ds := [];
      for k := 0 to |downloads|
        invariant NoRepeats(ds) && forall e :: e in ds <==> e in downloads[..k] && !e.choked
      {
        assert downloads[k] !in downloads[..k];
        if !downloads[k].choked {
          JoinDistinct(ds, [downloads[k]]);
          ds := ds + [downloads[k]];
        }
        assert forall e :: e in downloads[..k + 1] <==> e in downloads[..k] || e == downloads[k];
      }
      assert downloads[..|downloads|] == downloads;
    }

    ghost function Among(s: set<SingleDownload>, ds: seq<SingleDownload>): set<SingleDownload> {
      set e | e in s && e in ds
    }

    lemma AmongNobody(calm: set<SingleDownload>, nearly: set<SingleDownload>)
      ensures calm + Among(nearly, []) == calm && nearly - Among(nearly, []) == nearly
    {
    }

    lemma AmongNext(calm: set<SingleDownload>, nearly: set<SingleDownload>, ds: seq<SingleDownload>, k: nat)
      requires NoRepeats(ds) && k < |ds|
      ensures ds[k] in ds && ds[k] !in Among(nearly, ds[..k])
      ensures Among(nearly, ds[..k]) <= nearly
      ensures calm + Among(nearly, ds[..k + 1]) == calm + Among(nearly, ds[..k]) + if ds[k] in nearly then {ds[k]} else {}
      ensures nearly - Among(nearly, ds[..k + 1]) == nearly - Among(nearly, ds[..k]) - {ds[k]}
    {
      assert ds[..k + 1] == ds[..k] + [ds[k]];
    }

    /** Offers the pieces in l to all unchoked peers, in any order. */
    method RequestFromUnchoked(l: seq<nat>, ghost calm: set<SingleDownload>, ghost nearly: set<SingleDownload>)
      returns (ghost asked: seq<SingleDownload>)
      requires PeersOk() && PartsOk() && Mode() && Busy(calm, []) && Busy(nearly, l) && forall e :: e in calm ==> e.choked
      modifies downloads`interested, downloads`activeRequests, downloads`sent, downloads`exampleInterest
      modifies this`owner, this`allRequests
      modifies storage`inactiveRequests, storage`numactive, storage`amountInactive, storage`endgame, storage`issued
      modifies picker`started, picker`seedstarted
      ensures PeersOk() && PartsOk() && Mode()
      ensures forall e :: e in asked <==> e in downloads && !e.choked
      ensures Busy(calm + Among(nearly, asked), []) && Busy(nearly - Among(nearly, asked), l)
    {
      hide PartsOk, PeersOk, AllOk, Mode, Busy, Among, NoRepeats, StorageWrapper.Exhausted;
      ListedPeers();
      AmongNobody(calm, nearly);
      var ds := Unchoked();
      ds := Shuffle(ds);
      asked := ds;
      for k := 0 to |ds|
        invariant PeersOk() && PartsOk() && Mode()
        invariant Busy(calm + Among(nearly, ds[..k]), []) && Busy(nearly - Among(nearly, ds[..k]), l)
      {
        var d := ds[k];
        ghost var done := Among(nearly, ds[..k]);
        AmongNext(calm, nearly, ds, k);
        BusyFewer(nearly - done, nearly - done - {d}, d, l);
        ModeFor(d);
        RequestMore(d, Some(l), d in nearly, calm + done, nearly - done - {d}, l);
        BusyMore(calm + done, d, d in nearly);
      }
      assert ds[..|ds|] == ds;
    }

    lemma ListedPeers()
      requires PeersOk()
      ensures Listed()
    {
    }

    lemma BusyFewer(ds: set<SingleDownload>, fewer: set<SingleDownload>, d: SingleDownload, l: seq<nat>)
      requires Busy(ds, l) && fewer <= ds
      ensures Busy(fewer, l) && (d in ds ==> WorkingBut(d, l))
    {
    }

    lemma BusyMore(ds: set<SingleDownload>, d: SingleDownload, known: bool)
      requires Busy(ds, []) && (known ==> Busy({d}, []))
      ensures Busy(ds + if known then {d} else {}, [])
    {
    }

    lemma ModeFor(d: SingleDownload)
      requires Mode()
      ensures ModeBut(d)
    {
    }

    /** PeerOk, but for a peer that has just choked us or gone while still having requests. */
    ghost predicate Leaving(d: SingleDownload)
      reads d
    {
      && |d.have| == storage.g.count
      && |d.activeRequests| <= backlog && NoRepeats(d.activeRequests)
      && (d.activeRequests != [] ==> d.interested)
      && (forall b :: b in d.activeRequests ==> b.index < |d.have| && d.have[b.index])
      && d.interested == Told(d.sent)
      && (d.exampleInterest.Some? ==> d.exampleInterest.value < |d.have| && d.have[d.exampleInterest.value])
      && (!d.gotAnything ==> d.choked && !d.interested && forall i :: 0 <= i < |d.have| ==> !d.have[i])
    }

    /** Owned, when peer d may be leaving and its first k requests have been given up. */
    ghost predicate OwnedFrom(d: SingleDownload, k: nat)
      reads this`downloads, this`owner, downloads`activeRequests, d`activeRequests, storage`issued
    {
      && k <= |d.activeRequests|
      && (forall b :: b in owner <==> Outstanding(b))
      && (forall b :: b in owner ==> if owner[b] == d then b in d.activeRequests[k..]
                                     else owner[b] in downloads && b in owner[b].activeRequests)
      && (forall e, b :: e in downloads && e != d && b in e.activeRequests ==> b in owner && owner[b] == e)
      && (forall b :: b in d.activeRequests[k..] ==> b in owner && owner[b] == d)
    }

    /** Every request of a leaving peer goes back to the storage. */
    method Drop(d: SingleDownload) returns (lost: seq<nat>)
      requires PartsOk() && !storage.endgame && OwnedFrom(d, 0) && NoRepeats(d.activeRequests)
      modifies d`activeRequests, this`owner
      modifies storage`inactiveRequests, storage`numactive, storage`amountInactive, storage`issued
      ensures PartsOk() && Owned() && d.activeRequests == []
      ensures forall i :: Requestable(i) <==> old(Requestable(i)) || i in lost
      ensures forall i :: i in lost <==> exists b :: b in old(d.activeRequests) && b.index == i
    {
      hide PartsOk;
      lost := [];
      for k := 0 to |d.activeRequests|
        invariant PartsOk() && OwnedFrom(d, k) && d.activeRequests == old(d.activeRequests)
        invariant forall i :: Requestable(i) <==> old(Requestable(i)) || i in lost
        invariant forall i :: i in lost <==> exists j :: 0 <= j < k && d.activeRequests[j].index == i
      {
        var b := d.activeRequests[k];
        LoseOne(d, k);
        if b.index !in lost {
          lost := lost + [b.index];
        }
      }
      d.activeRequests := [];
    }

    method LoseOne(d: SingleDownload, k: nat)
      requires PartsOk() && OwnedFrom(d, k) && NoRepeats(d.activeRequests) && k < |d.activeRequests|
      modifies this`owner, storage`inactiveRequests, storage`numactive, storage`amountInactive, storage`issued
      ensures PartsOk() && OwnedFrom(d, k + 1)
      ensures forall i :: Requestable(i) <==> old(Requestable(i)) || i == d.activeRequests[k].index
    {
      hide PartsOk, Requestable, NoRepeats;
      var b := d.activeRequests[k];
      TailSplit(d.activeRequests, k);
      LoseRequest(b);
      owner := owner - {b};
    }

    /** storage.request_lost */
    method LoseRequest(b: Block)
      requires PartsOk() && Outstanding(b)
      modifies storage`inactiveRequests, storage`numactive, storage`amountInactive, storage`issued
      ensures PartsOk() && OneLess(b)
      ensures forall i :: Requestable(i) <==> old(Requestable(i)) || i == b.index
    {
      hide StorageWrapper.Inv, PiecePicker.Inv, Geometry.PieceLen, Geometry.Sized, Tiling, Counted;
      storage.Facts();
      storage.IssuedListed(b.index, (b.begin, b.length));
      storage.RequestLost(b.index, b.begin, b.length);
    }

    twostate predicate OneLess(b: Block)
      reads storage`issued
    {
      forall x :: Outstanding(x) <==> old(Outstanding(x)) && x != b
    }

    /** The peers that choke us and think we want nothing are told when one of the lost pieces is theirs. */
    method Remind(lost: seq<nat>, ghost busy: set<SingleDownload>, ghost nearly: set<SingleDownload>)
      requires PeersOk() && Mode() && Busy(busy, []) && Busy(nearly, lost)
      modifies downloads`interested, downloads`sent
      ensures PeersOk() && Mode() && Busy(busy, []) && forall e :: e in nearly && e in downloads && e.choked ==>
                WorkingBut(e, [])
    {
      hide PeersOk, Mode, Busy, WorkingBut, StorageWrapper.Exhausted;
      for k := 0 to |downloads|
        invariant PeersOk() && Mode() && Busy(busy, []) && Busy(nearly, lost)
        invariant forall j :: 0 <= j < k && downloads[j] in nearly && downloads[j].choked ==> WorkingBut(downloads[j], [])
      {
        var d := downloads[k];
        BusyFewer(nearly, {}, d, lost);
        ListedPeers();
        if d.choked && !d.interested {
          RemindOne(d, lost, busy, nearly);
        } else if d.choked {
          ToldAlready(d);
        }
      }
    }

    lemma ToldAlready(d: SingleDownload)
      requires d.choked && d.interested
      ensures WorkingBut(d, [])
    {
    }

    method RemindOne(d: SingleDownload, lost: seq<nat>, ghost busy: set<SingleDownload>, ghost nearly: set<SingleDownload>)
      requires PeersOk() && Mode() && Busy(busy, []) && Busy(nearly, lost) && d in downloads && d.choked && !d.interested
      modifies d`interested, d`sent
      ensures PeersOk() && Mode() && Busy(busy, []) && Busy(nearly, lost) && (d in nearly ==> WorkingBut(d, []))
    {
      hide PeersOk, AllOk;
      ghost var rest := SplitPeers(d);
      for k := 0 to |lost|
        invariant forall j :: 0 <= j < k ==> !Wants(d, lost[j])
        invariant !d.interested && d.sent == old(d.sent)
      {
        var b := lost[k] < |d.have| && d.have[lost[k]] && Requestable(lost[k]);
        if b {
          assert !storage.endgame && Wants(d, lost[k]);
          d.SetInterested(true);
          JoinPeers(d, rest);
          return;
        }
      }
      JoinPeers(d, rest);
    }

    ghost predicate Others(d: SingleDownload, busy: set<SingleDownload>)
      reads this`downloads
    {
      forall e :: e in downloads && e != d ==> e in busy
    }

    ghost function Everyone(): set<SingleDownload>
      reads this`downloads
    {
      set d | d in downloads
    }

    /** Every peer is asked for as much as it can be, and knows whether we are interested. */
    ghost predicate AllBusy()
      reads this`downloads, downloads`choked, downloads`activeRequests, downloads`interested, downloads`have
      reads storage`inactiveRequests
    {
      Busy(Everyone(), [])
    }

    ghost predicate ModeLeaving(d: SingleDownload)
      reads this`allRequests, this`downloads, this`owner, downloads, d`activeRequests
      reads storage`issued, storage`inactiveRequests, storage`endgame
    {
      if storage.endgame then AllListed() && EndPeers() else OwnedFrom(d, 0) && AllCandid()
    }

    /** Python's _letgo, for a peer that has choked us or gone: what it was asked for is offered to
        the others, except in endgame, where they have been asked already. */
    method Letgo(d: SingleDownload, ghost rest: set<SingleDownload>)
      requires Listed() && AllOk(rest) && Leaving(d) && PartsOk() && ModeLeaving(d)
      requires (forall e :: e in downloads && e != d ==> e in rest) && d !in rest && (d in downloads ==> d.choked)
      modifies d`activeRequests, downloads`interested, downloads`activeRequests, downloads`sent, downloads`exampleInterest
      modifies this`owner, this`allRequests
      modifies storage`inactiveRequests, storage`numactive, storage`amountInactive, storage`endgame, storage`issued
      modifies picker`started, picker`seedstarted
      ensures PeersOk() && PartsOk() && Mode() && d.activeRequests == []
      ensures old(AllBusy()) ==> AllBusy()
    {
      hide PartsOk, AllOk, StorageWrapper.Exhausted, Requestable, Busy;
      if d.activeRequests == [] {
        JoinPeers(d, rest);
        return;
      }
      if storage.endgame {
        d.activeRequests := [];
        JoinPeers(d, rest);
        ExhaustedWorking(Everyone(), []);
        return;
      }
      LetgoOutsideEndgame(d, rest);
    }

    method LetgoOutsideEndgame(d: SingleDownload, ghost rest: set<SingleDownload>)
      requires Listed() && AllOk(rest) && Leaving(d) && PartsOk() && OwnedFrom(d, 0) && !storage.endgame
      requires (forall e :: e in downloads && e != d ==> e in rest) && d !in rest && (d in downloads ==> d.choked)
      requires d.activeRequests != [] && AllCandid()
      modifies d`activeRequests, downloads`interested, downloads`activeRequests, downloads`sent, downloads`exampleInterest
      modifies this`owner, this`allRequests
      modifies storage`inactiveRequests, storage`numactive, storage`amountInactive, storage`endgame, storage`issued
      modifies picker`started, picker`seedstarted
      ensures PeersOk() && PartsOk() && Mode() && d.activeRequests == []
      ensures old(AllBusy()) ==> AllBusy()
    {
      hide PartsOk, PeersOk, AllOk, Owned, OwnedFrom, StorageWrapper.Exhausted, Mode;
      ghost var nearly := if AllBusy() then Everyone() else {};
      var lost := DropAll(d, rest, nearly);
      ghost var asked := RequestFromUnchoked(lost, {}, nearly);
      Remind(lost, {} + Among(nearly, asked), nearly - Among(nearly, asked));
      if d in downloads { PeerFacts(d); }
    }

    method DropAll(d: SingleDownload, ghost rest: set<SingleDownload>, ghost nearly: set<SingleDownload>) returns (lost: seq<nat>)
      requires Listed() && AllOk(rest) && Leaving(d) && PartsOk() && OwnedFrom(d, 0) && !storage.endgame
      requires (forall e :: e in downloads && e != d ==> e in rest) && d !in rest && (d in downloads ==> d.choked)
      requires d.activeRequests != [] && Busy(nearly, []) && nearly <= Everyone() && AllCandid()
      modifies d`activeRequests, this`owner
      modifies storage`inactiveRequests, storage`numactive, storage`amountInactive, storage`issued
      ensures PeersOk() && PartsOk() && Mode() && d.activeRequests == [] && Busy(nearly, lost)
    {
      hide PartsOk, PeersOk, AllOk, OwnedFrom, Requestable;
      lost := Drop(d);
      JoinPeers(d, rest);
      forall e | e in downloads ensures Candid(e) {
        if e == d {
          assert old(d.activeRequests[0]) in old(d.activeRequests);
          assert old(d.activeRequests[0]).index in lost && Wants(d, old(d.activeRequests[0]).index);
        } else {
          assert old(Candid(e)) && forall i :: old(Wants(e, i)) ==> Wants(e, i);
        }
      }
      forall e | e in nearly ensures WorkingBut(e, lost) {
        assert old(WorkingBut(e, [])) && (Slack(e) ==> old(Slack(e)));
        forall i | 0 <= i < |e.have| && Wants(e, i) && Slack(e) ensures i in lost {
          assert old(Wants(e, i)) <==> old(Requestable(i));
        }
      }
    }

    // ---- events ----

    lemma Unpack()
      requires Valid()
      ensures PeersOk() && PartsOk() && Mode()
    {
    }

    lemma Pack()
      requires PeersOk() && PartsOk() && Mode()
      ensures Valid()
    {
    }

    method GotChoke(d: SingleDownload)
      requires Valid() && d in downloads
      modifies d`choked, downloads`interested, downloads`activeRequests, downloads`sent, downloads`exampleInterest
      modifies this`owner, this`allRequests
      modifies storage`inactiveRequests, storage`numactive, storage`amountInactive, storage`endgame, storage`issued
      modifies picker`started, picker`seedstarted
      ensures Valid() && d.choked && d.activeRequests == []
      ensures old(AllBusy()) ==> AllBusy()
    {
      hide Inv, PartsOk, PeersOk, AllOk, Mode, Busy;
      Unpack();
      PeerFacts(d);
      if d.choked {
        Pack();
        return;
      }
      ghost var rest := SplitPeers(d);
      BecomeChoked(d, rest);
      Letgo(d, rest);
      Pack();
    }

    method BecomeChoked(d: SingleDownload, ghost rest: set<SingleDownload>)
      requires PeerOk(d) && AllOk(rest) && d !in rest && d in downloads && Mode() && !d.choked
      modifies d`choked
      ensures d.choked && Leaving(d) && AllOk(rest) && ModeLeaving(d)
      ensures old(AllBusy()) ==> AllBusy()
    {
      hide AllOk;
      d.choked := true;
      if old(AllBusy()) {
        forall e | e in downloads ensures WorkingBut(e, []) {
          assert old(WorkingBut(e, []));
        }
      }
    }

    method GotUnchoke(d: SingleDownload)
      requires Valid() && d in downloads && d.gotAnything
      modifies d`choked, downloads`interested, downloads`activeRequests, downloads`sent, downloads`exampleInterest
      modifies this`owner, this`allRequests
      modifies storage`inactiveRequests, storage`numactive, storage`amountInactive, storage`endgame, storage`issued
      modifies picker`started, picker`seedstarted
      ensures Valid() && !d.choked
      ensures old(!d.choked || !d.interested) ==>
                unchanged(storage) && forall e :: e in downloads ==> e.activeRequests == old(e.activeRequests)
      ensures old(d.choked && d.interested) ==> WorkingBut(d, [])
      ensures old(AllBusy()) ==> AllBusy()
    {
      hide Inv, PartsOk, PeersOk, AllOk, Mode, ModeBut, Busy, WorkingBut;
      Unpack();
      BacklogPositive();
      ghost var was := AllBusy();
      if d.choked {
        ghost var busy := BecomeUnchoked(d);
        if d.interested {
          RequestMore(d, None, true, busy, {}, []);
          BusyEach({d});
        }
        if was { BusyAgain(d, busy); }
      }
      Pack();
    }

    method BecomeUnchoked(d: SingleDownload) returns (ghost busy: set<SingleDownload>)
      requires PeersOk() && Mode() && d in downloads && d.gotAnything && d.choked && backlog > 0
      modifies d`choked
      ensures !d.choked && PeersOk() && ModeBut(d) && (!d.interested ==> Mode())
      ensures Busy(busy, []) && Busy({}, []) && d !in busy
      ensures old(AllBusy()) ==> Others(d, busy) && (!d.interested ==> Busy({d}, []))
    {
      ghost var rest := SplitPeers(d);
      hide PeersOk, AllOk;
      busy := if AllBusy() then Everyone() - {d} else {};
      d.choked := false;
      JoinPeers(d, rest);
      forall e | e in busy ensures WorkingBut(e, []) {
        assert old(WorkingBut(e, []));
      }
      if old(AllBusy()) && !d.interested {
        assert old(WorkingBut(d, []));
      }
    }

    lemma BusyAgain(d: SingleDownload, busy: set<SingleDownload>)
      requires Busy(busy, []) && Busy({d}, []) && Others(d, busy)
      ensures AllBusy()
    {
    }

    /** A new connection. */
    method MakeDownload() returns (d: SingleDownload)
      requires Valid() && |downloads| + 1 < UNBOUNDED
      modifies this`downloads
      ensures Valid() && fresh(d) && downloads == old(downloads) + [d] && Stranger(d)
      ensures old(AllBusy()) ==> AllBusy()
    {
      hide Inv, PartsOk, Linked, PeersOk, Mode, Counted, CountedFor, AllBusy;
      Unpack();
      LinkedParts();
      SizesAgree();
      d := new SingleDownload(|storage.have|);
      AddPeer(d);
      JoinParts();
      Pack();
    }

    /** A peer we know nothing about, that knows nothing about us. */
    ghost predicate Stranger(d: SingleDownload)
      reads d
    {
      && d.choked && !d.interested && d.activeRequests == [] && d.sent == [] && !d.gotAnything && d.exampleInterest == None
      && d.have == seq(storage.g.count, _ => false)
    }

    method AddPeer(d: SingleDownload)
      requires PeersOk() && Mode() && Counted() && Stranger(d) && d !in downloads && |downloads| + 1 < UNBOUNDED
      modifies this`downloads
      ensures PeersOk() && Mode() && Counted() && downloads == old(downloads) + [d]
      ensures old(AllBusy()) ==> AllBusy()
    {
      hide CountedFor, PeerOk, EndPeer;
      CountedWith(d);
      StrangerOk(d);
      JoinDistinct(downloads, [d]);
      downloads := downloads + [d];
      if old(AllBusy()) {
        forall e | e in downloads ensures WorkingBut(e, []) {
          assert e != d ==> old(WorkingBut(e, []));
        }
      }
    }

    lemma CountedWith(d: SingleDownload)
      requires CountedFor(downloads) && Stranger(d)
      ensures CountedFor(downloads + [d])
    {
      HavesAppend(downloads, d);
      forall i | 0 <= i < |picker.avail| ensures picker.avail[i] == Count(HavesOf(downloads + [d]), i) {
        CountAppend(Haves(), d.have, i);
      }
    }

    lemma StrangerOk(d: SingleDownload)
      requires Stranger(d)
      ensures PeerOk(d) && EndPeer(d)
    {
    }

    lemma HavesAppend(ds: seq<SingleDownload>, d: SingleDownload)
      ensures HavesOf(ds + [d]) == HavesOf(ds) + [d.have]
    {
      var a, b := HavesOf(ds + [d]), HavesOf(ds) + [d.have];
      assert forall k :: 0 <= k < |a| ==> a[k] == b[k];
    }

    lemma LinkedParts()
      requires PartsOk()
      ensures Linked() && Counted() && Begun()
    {
    }

    lemma JoinParts()
      requires Linked() && Counted() && Begun()
      ensures PartsOk()
    {
    }

    lemma SizesAgree()
      requires Linked()
      ensures |storage.have| == |picker.avail| == storage.g.count && backlog > 0
    {
    }

    /** connection.close(), or the connection being lost: the peer leaves the list, what it had is
        no longer counted, and what it was asked for is offered to the others. */
    method Disconnected(d: SingleDownload)
      requires Valid() && d in downloads
      modifies this`downloads, d`activeRequests
      modifies downloads`interested, downloads`activeRequests, downloads`sent, downloads`exampleInterest
      modifies this`owner, this`allRequests
      modifies storage`inactiveRequests, storage`numactive, storage`amountInactive, storage`endgame, storage`issued
      modifies picker`interests, picker`posInInterests, picker`numinterests, picker`avail, picker`started, picker`seedstarted
      ensures Valid() && d.activeRequests == [] && Removed(old(downloads), downloads, d)
      ensures forall e :: e in downloads <==> e in old(downloads) && e != d
      ensures old(AllBusy()) ==> AllBusy()
    {
      hide Inv, PartsOk, PeersOk, AllOk, Mode, Busy, Counted, Linked;
      Unpack();
      PeerFacts(d);
      LinkedParts();
      ghost var rest := SplitPeers(d);
      RemovePeer(d, rest);
      JoinParts();
      Letgo(d, rest);
      Pack();
    }

    /** ds without its one occurrence of d. */
    ghost predicate Removed(before: seq<SingleDownload>, after: seq<SingleDownload>, d: SingleDownload) {
      exists k :: 0 <= k < |before| && before[k] == d && after == Without(before, k)
    }

    /** Just d's connection was closed if neither side needs anything from the other, otherwise none. */
    twostate predicate ClosedSeed(d: SingleDownload)
      reads this`downloads, storage`have, d`have
    {
      if Complete() && AllTrue(d.have) then Removed(old(downloads), downloads, d) else downloads == old(downloads)
    }

    /** downloads.remove(self), and lost_have for everything the peer had. */
    method RemovePeer(d: SingleDownload, ghost rest: set<SingleDownload>)
      requires Linked() && Counted() && Listed() && AllOk(rest) && PeerOk(d) && d in downloads && Mode()
      requires (forall e :: e in downloads && e != d ==> e in rest) && d !in rest
      modifies this`downloads, picker`interests, picker`posInInterests, picker`numinterests, picker`avail
      ensures Linked() && Counted() && Listed() && AllOk(rest) && Leaving(d) && ModeLeaving(d)
      ensures d !in downloads && (forall e :: e in downloads ==> e in rest) && Removed(old(downloads), downloads, d)
      ensures forall e :: e in downloads <==> e in old(downloads) && e != d
      ensures old(AllBusy()) ==> AllBusy()
    {
      hide Linked, AllOk, CountedFor;
      ghost var before := downloads;
      TakeOut(d);
      LoseHaves(d, before);
    }

    method TakeOut(d: SingleDownload)
      requires Listed() && d in downloads && Mode()
      modifies this`downloads
      ensures Listed() && ModeLeaving(d) && Removed(old(downloads), downloads, d)
      ensures forall e :: e in downloads <==> e in old(downloads) && e != d
      ensures old(AllBusy()) ==> AllBusy()
    {
      hide Busy, EndPeer, StorageWrapper.Exhausted;
      ghost var others := Everyone() - {d};
      if AllBusy() { BusyFewer(Everyone(), others, d, []); }
      var k :| 0 <= k < |downloads| && downloads[k] == d;
      WithoutOne(downloads, k);
      hide NoRepeats;
      downloads := Without(downloads, k);
      assert Everyone() == others;
    }

    /** How many of the peers in after have piece i, when d was the one removed from before. */
    lemma CountRemoved(before: seq<SingleDownload>, after: seq<SingleDownload>, d: SingleDownload, i: nat)
      requires Removed(before, after, d)
      ensures Count(HavesOf(after), i) == Count(HavesOf(before), i) - One(d.have, i)
    {
      var k :| 0 <= k < |before| && before[k] == d && after == Without(before, k);
      hide NoRepeats, Count;
      CountWithout(HavesOf(before), k, i);
      HavesWithout(before, k);
    }

    lemma HavesWithout(ds: seq<SingleDownload>, k: nat)
      requires k < |ds|
      ensures HavesOf(Without(ds, k)) == HavesOf(ds)[..k] + HavesOf(ds)[k + 1..]
    {
      hide HavesOf;
      var a, b := HavesOf(Without(ds, k)), HavesOf(ds)[..k] + HavesOf(ds)[k + 1..];
      forall j | 0 <= j < |a| ensures a[j] == b[j] {
        assert Without(ds, k)[j] == ds[if j < k then j else j + 1];
      }
    }

    method LoseHaves(d: SingleDownload, ghost before: seq<SingleDownload>)
      requires Linked() && CountedFor(before) && Removed(before, downloads, d) && |d.have| == storage.g.count
      modifies picker`interests, picker`posInInterests, picker`numinterests, picker`avail
      ensures Linked() && CountedFor(downloads)
    {
      hide StorageWrapper.Inv, PiecePicker.Inv, Count, HavesOf;
      for i := 0 to |d.have|
        invariant Linked()
        invariant forall j :: 0 <= j < |picker.avail| ==>
                    picker.avail[j] == if j < i then Count(HavesOf(downloads), j) else Count(HavesOf(before), j)
      {
        CountRemoved(before, downloads, d, i);
        if d.have[i] {
          picker.LostHave(i);
        }
      }
    }

    /** The mode, when peer d has just announced more and is not yet up to date. */
    ghost predicate ModeStale(d: SingleDownload)
      reads this`allRequests, this`downloads, this`owner, downloads, storage`issued, storage`inactiveRequests, storage`endgame
    {
      if storage.endgame then
        && AllListed() && (forall e :: e in downloads && e != d ==> EndPeer(e))
        && (d in downloads ==> forall b :: b in d.activeRequests ==> b in allRequests)
        && (d in downloads && allRequests == [] ==> !d.interested)
      else Owned() && AllCandid()
    }

    /** self.have[index] = True and picker.got_have */
    method AddHave(d: SingleDownload, index: nat) returns (ghost busy: set<SingleDownload>)
      requires PeersOk() && PartsOk() && Mode() && d in downloads && d.gotAnything && index < |d.have| && !d.have[index]
      modifies d`have, picker`interests, picker`posInInterests, picker`numinterests, picker`avail
      ensures PeersOk() && PartsOk() && ModeStale(d) && d.have == old(d.have)[index := true]
      ensures Busy(busy, []) && Busy({}, []) && d !in busy
      ensures old(AllBusy()) ==> Others(d, busy) && WorkingBut(d, [index])
    {
      hide PeersOk, PartsOk, AllOk, CountedBy, Linked, Mode, ModeStale, Busy;
      PeerFacts(d);
      LinkedParts();
      SizesAgree();
      ListedPeers();
      ghost var haves := HavesOf(downloads);
      assert CountedBy(haves);
      busy := MarkHave(d, index);
      PickerHave(d, index, haves);
      JoinParts();
    }

    method MarkHave(d: SingleDownload, index: nat) returns (ghost busy: set<SingleDownload>)
      requires PeersOk() && Mode() && d in downloads && d.gotAnything && index < |d.have| && !d.have[index]
      modifies d`have
      ensures PeersOk() && ModeStale(d) && d.have == old(d.have)[index := true]
      ensures Busy(busy, []) && Busy({}, []) && d !in busy
      ensures old(AllBusy()) ==> Others(d, busy) && WorkingBut(d, [index])
    {
      hide PeersOk, AllOk;
      ghost var rest := SplitPeers(d);
      busy := if AllBusy() then Everyone() - {d} else {};
      d.have := d.have[index := true];
      JoinPeers(d, rest);
      forall e | e in busy ensures WorkingBut(e, []) {
        assert old(WorkingBut(e, []));
      }
      if old(AllBusy()) {
        assert old(WorkingBut(d, []));
      }
    }

    /** picker.got_have, with the have-lists as they were before. */
    method PickerHave(d: SingleDownload, index: nat, ghost haves: seq<seq<bool>>)
      requires Linked() && Listed() && d in downloads && index < storage.g.count && |d.have| == storage.g.count
      requires |haves| == |downloads| && CountedBy(haves)
      requires forall k :: 0 <= k < |downloads| ==>
                 haves[k] == if downloads[k] == d then d.have[index := false] else downloads[k].have
      requires d.have[index]
      modifies picker`interests, picker`posInInterests, picker`numinterests, picker`avail
      ensures Linked() && Counted()
    {
      hide StorageWrapper.Inv, PiecePicker.Inv, Count, HavesOf, NoRepeats;
      OneMoreHas(d, index, haves);
      picker.GotHave(index);
    }

    lemma OneMoreHas(d: SingleDownload, index: nat, haves: seq<seq<bool>>)
      requires Listed() && d in downloads && index < |d.have| && d.have[index] && |haves| == |downloads|
      requires forall k :: 0 <= k < |downloads| ==>
                 haves[k] == if downloads[k] == d then d.have[index := false] else downloads[k].have
      ensures forall i :: Count(HavesOf(downloads), i) == Count(haves, i) + if i == index then 1 else 0
    {
      var k := PeerAt(d);
      hide HavesOf, Count;
      assert forall j :: 0 <= j < |downloads| && j != k ==> downloads[j] != d;
      hide NoRepeats;
      assert HavesOf(downloads) == haves[k := d.have];
      forall i: nat ensures Count(HavesOf(downloads), i) == Count(haves, i) + if i == index then 1 else 0 {
        CountUpdate(haves, k, d.have, i);
      }
    }

    method GotHave(d: SingleDownload, index: nat)
      requires Valid() && d in downloads && d.gotAnything && index < storage.g.count
      modifies this`downloads, d`have, d`activeRequests
      modifies downloads`interested, downloads`activeRequests, downloads`sent, downloads`exampleInterest
      modifies this`owner, this`allRequests
      modifies storage`inactiveRequests, storage`numactive, storage`amountInactive, storage`endgame, storage`issued
      modifies picker`interests, picker`posInInterests, picker`numinterests, picker`avail, picker`started, picker`seedstarted
      ensures Valid() && index < |d.have| == |old(d.have)| && d.have == old(d.have)[index := true]
      ensures if old(d.have[index]) then downloads == old(downloads) else ClosedSeed(d)
      ensures downloads == old(downloads) && !old(d.have[index]) ==> Announced(d, index) && (storage.endgame || OthersStill(d))
      ensures old(AllBusy()) ==> AllBusy()
    {
      hide Inv, PartsOk, PeersOk, AllOk, Mode, ModeStale, Busy, Counted, Linked, WorkingBut, OpenCount, Requestable;
      Unpack();
      PeerFacts(d);
      if d.have[index] {
        assert d.have == d.have[index := true];
        Pack();
        return;
      }
      ghost var was := AllBusy();
      ghost var busy := AddHave(d, index);
      NewHave(d, index, busy, was);
    }

    /** What a new piece of a peer leads to: an unchoked peer is asked for blocks of it as far as its
        backlog goes, and a choking one is told of our interest if there are any. */
    twostate predicate Announced(d: SingleDownload, index: nat)
      reads d`choked, d`interested, d`activeRequests, storage`inactiveRequests, storage`endgame
    {
      && OpenCount(index) == Max(old(OpenCount(index)) - (if d.choked then 0 else backlog - old(|d.activeRequests|)), 0)
      && (forall i :: i != index ==> (Requestable(i) <==> old(Requestable(i))))
      && (storage.endgame ||
            (|d.activeRequests| == old(|d.activeRequests| + OpenCount(index)) - OpenCount(index)
             && old(d.activeRequests) <= d.activeRequests))
      && (d.choked && Requestable(index) ==> d.interested)
      && (!storage.endgame && d.choked && !Requestable(index) ==> d.interested == old(d.interested))
    }

    /** The rest of got_have, once the announcement is recorded. */
    method NewHave(d: SingleDownload, index: nat, ghost busy: set<SingleDownload>, ghost was: bool)
      requires PeersOk() && PartsOk() && ModeStale(d) && d in downloads && d.gotAnything && index < |d.have| && d.have[index]
      requires Busy(busy, []) && Busy({}, []) && d !in busy
      requires was ==> Others(d, busy) && WorkingBut(d, [index])
      modifies this`downloads, d`activeRequests
      modifies downloads`interested, downloads`activeRequests, downloads`sent, downloads`exampleInterest
      modifies this`owner, this`allRequests
      modifies storage`inactiveRequests, storage`numactive, storage`amountInactive, storage`endgame, storage`issued
      modifies picker`interests, picker`posInInterests, picker`numinterests, picker`avail, picker`started, picker`seedstarted
      ensures Valid() && (was ==> AllBusy()) && ClosedSeed(d)
      ensures downloads == old(downloads) ==> Announced(d, index) && (storage.endgame || OthersStill(d))
    {
      hide Inv, PartsOk, PeersOk, AllOk, Mode, ModeStale, Busy, Counted, Linked, WorkingBut, Removed, OpenCount, Requestable;
      LinkedParts();
      PeerFacts(d);
      ListedPeers();
      SizesAgree();
      var done := IsComplete();
      if done && AllTrue(d.have) {
        NothingLeft(d, busy, was);
        Pack();
        Disconnected(d);
        assert d !in downloads;
        return;
      }
      UseHave(d, index, busy, was);
      Pack();
    }

    /** picker.am_I_complete */
    method IsComplete() returns (b: bool)
      requires Linked()
      ensures b <==> Complete()
    {
      hide StorageWrapper.Inv, PiecePicker.Inv;
      b := picker.AmIComplete();
    }

    ghost predicate Complete()
      reads storage`have
    {
      forall i :: 0 <= i < |storage.have| ==> storage.have[i]
    }

    /** With every piece had, nothing is outstanding and nothing can be handed out. */
    lemma NothingLeft(d: SingleDownload, busy: set<SingleDownload>, was: bool)
      requires Linked() && Complete() && ModeStale(d) && PeerOk(d)
      requires Busy(busy, []) && (was ==> Others(d, busy))
      ensures Mode() && (was ==> AllBusy())
    {
      hide StorageWrapper.Inv, PiecePicker.Inv;
      storage.Facts();
      if storage.endgame {
        assert forall b :: b in allRequests ==> !Outstanding(b);
        NoMembers(allRequests);
        NoMembers(d.activeRequests);
      }
      assert OnlyWants(d, []);
    }

    static lemma NoMembers<T>(l: seq<T>)
      ensures l == [] || l[0] in l
    {
    }

    method UseHave(d: SingleDownload, index: nat, ghost busy: set<SingleDownload>, ghost was: bool)
      requires PeersOk() && PartsOk() && ModeStale(d) && d in downloads && index < |d.have| && d.have[index] && d.gotAnything
      requires Busy(busy, []) && Busy({}, []) && d !in busy
      requires was ==> Others(d, busy) && WorkingBut(d, [index])
      modifies downloads`interested, downloads`activeRequests, downloads`sent, downloads`exampleInterest
      modifies this`owner, this`allRequests
      modifies storage`inactiveRequests, storage`numactive, storage`amountInactive, storage`endgame, storage`issued
      modifies picker`started, picker`seedstarted
      ensures PeersOk() && PartsOk() && Mode() && (was ==> AllBusy()) && Announced(d, index)
      ensures storage.endgame || OthersStill(d)
    {
      hide PartsOk, PeersOk, AllOk, Busy, OpenCount, StorageWrapper.Exhausted;
      PeerFacts(d);
      BacklogPositive();
      OpenCounts(index);
      assert Single(Some([index]), index);
      if storage.endgame {
        NoneOpen();
        FixOne(d);
        ExhaustedWorking(Everyone(), []);
      } else if Requestable(index) {
        if !d.choked {
          RequestMore(d, Some([index]), was, busy, {}, []);
          if was { BusyAgain(d, busy); }
        } else {
          assert Wants(d, index);
          if !d.interested {
            ghost var rest := SplitPeers(d);
            d.SetInterested(true);
            JoinPeers(d, rest);
          }
          ToldAlready(d);
          if was { BusyOne(d); BusyAgain(d, busy); }
        }
      } else if was {
        BusyOne(d);
        BusyAgain(d, busy);
      }
    }

    lemma BusyOne(d: SingleDownload)
      requires WorkingBut(d, [])
      ensures Busy({d}, [])
    {
    }

    /** A bitfield, which only counts as the first message of a connection. */
    method GotHaveBitfield(d: SingleDownload, have: seq<bool>)
      requires Valid() && d in downloads && d.gotAnything && |have| == storage.g.count
      requires d.choked && !d.interested && forall i :: 0 <= i < |d.have| ==> !d.have[i]
      modifies this`downloads, d`have, d`activeRequests
      modifies downloads`interested, downloads`activeRequests, downloads`sent, downloads`exampleInterest
      modifies this`owner, this`allRequests
      modifies storage`inactiveRequests, storage`numactive, storage`amountInactive, storage`endgame, storage`issued
      modifies picker`interests, picker`posInInterests, picker`numinterests, picker`avail, picker`started, picker`seedstarted
      ensures Valid() && d.have == have && ClosedSeed(d) && (downloads == old(downloads) ==> InterestRight(d))
      ensures old(AllBusy()) ==> AllBusy()
    {
      hide Inv, PartsOk, PeersOk, AllOk, Mode, ModeStale, Busy, Counted, Linked, WorkingBut;
      Unpack();
      PeerFacts(d);
      ListedPeers();
      ghost var was := AllBusy();
      LinkedParts();
      ghost var busy := TakeBitfield(d, have);
      NewBitfield(d, busy, was);
    }

    /** The rest of got_have_bitfield, once the pieces are counted. */
    method NewBitfield(d: SingleDownload, ghost busy: set<SingleDownload>, ghost was: bool)
      requires PeersOk() && Linked() && Counted() && Begun() && ModeStale(d) && d in downloads && d.gotAnything
      requires d.choked && !d.interested
      requires Busy(busy, []) && d !in busy && (was ==> Others(d, busy))
      modifies this`downloads, d`activeRequests
      modifies downloads`interested, downloads`activeRequests, downloads`sent, downloads`exampleInterest
      modifies this`owner, this`allRequests
      modifies storage`inactiveRequests, storage`numactive, storage`amountInactive, storage`endgame, storage`issued
      modifies picker`interests, picker`posInInterests, picker`numinterests, picker`avail, picker`started, picker`seedstarted
      ensures Valid() && (was ==> AllBusy()) && ClosedSeed(d) && (downloads == old(downloads) ==> InterestRight(d))
    {
      hide Inv, PartsOk, PeersOk, AllOk, Mode, ModeStale, Busy, Counted, Linked, WorkingBut, Removed, InterestRight;
      PeerFacts(d);
      var done := IsComplete();
      JoinParts();
      if done && AllTrue(d.have) {
        NothingLeft(d, busy, was);
        Pack();
        Disconnected(d);
        assert d !in downloads;
      } else {
        BitfieldInterest(d, busy, was);
        Pack();
      }
    }

    method TakeBitfield(d: SingleDownload, have: seq<bool>) returns (ghost busy: set<SingleDownload>)
      requires PeersOk() && Linked() && Counted() && Mode() && d in downloads && d.gotAnything && |have| == storage.g.count
      requires d.choked && !d.interested && forall i :: 0 <= i < |d.have| ==> !d.have[i]
      modifies d`have, picker`interests, picker`posInInterests, picker`numinterests, picker`avail
      ensures PeersOk() && Linked() && Counted() && ModeStale(d) && d.have == have
      ensures Busy(busy, []) && d !in busy && (old(AllBusy()) ==> Others(d, busy))
    {
      hide PeersOk, AllOk, CountedBy, Linked, Busy;
      PeerFacts(d);
      ListedPeers();
      ghost var haves := HavesOf(downloads);
      assert CountedBy(haves);
      busy := ReplaceHave(d, have);
      CountBitfield(d, haves);
    }

    method ReplaceHave(d: SingleDownload, have: seq<bool>) returns (ghost busy: set<SingleDownload>)
      requires PeersOk() && Mode() && d in downloads && d.gotAnything && |have| == storage.g.count
      requires d.choked && !d.interested && forall i :: 0 <= i < |d.have| ==> !d.have[i]
      modifies d`have
      ensures PeersOk() && ModeStale(d) && d.have == have
      ensures Busy(busy, []) && d !in busy && (old(AllBusy()) ==> Others(d, busy))
    {
      hide PeersOk, AllOk;
      ghost var rest := SplitPeers(d);
      busy := if AllBusy() then Everyone() - {d} else {};
      NoMembers(d.activeRequests);
      d.have := have;
      JoinPeers(d, rest);
      forall e | e in busy ensures WorkingBut(e, []) {
        assert old(WorkingBut(e, []));
      }
    }

    /** picker.got_have for every piece of a first bitfield. */
    method CountBitfield(d: SingleDownload, ghost haves: seq<seq<bool>>)
      requires Linked() && Listed() && d in downloads && |d.have| == storage.g.count
      requires |haves| == |downloads| && CountedBy(haves)
      requires forall k :: 0 <= k < |downloads| && downloads[k] != d ==> haves[k] == downloads[k].have
      requires forall k, i :: 0 <= k < |downloads| && downloads[k] == d ==> One(haves[k], i) == 0
      modifies picker`interests, picker`posInInterests, picker`numinterests, picker`avail
      ensures Linked() && Counted()
    {
      hide StorageWrapper.Inv, PiecePicker.Inv, Count, HavesOf, NoRepeats;
      ManyMoreHas(d, haves);
      for i := 0 to |d.have|
        invariant Linked()
        invariant forall j :: 0 <= j < |picker.avail| ==>
                    picker.avail[j] == if j < i then Count(HavesOf(downloads), j) else Count(haves, j)
      {
        if d.have[i] {
          picker.GotHave(i);
        }
      }
    }

    lemma ManyMoreHas(d: SingleDownload, haves: seq<seq<bool>>)
      requires Listed() && d in downloads && |haves| == |downloads|
      requires forall k :: 0 <= k < |downloads| && downloads[k] != d ==> haves[k] == downloads[k].have
      requires forall k, i :: 0 <= k < |downloads| && downloads[k] == d ==> One(haves[k], i) == 0
      ensures forall i :: Count(HavesOf(downloads), i) == Count(haves, i) + One(d.have, i)
    {
      var k := PeerAt(d);
      hide HavesOf, Count;
      assert HavesOf(downloads) == haves[k := d.have];
      forall i: nat ensures Count(HavesOf(downloads), i) == Count(haves, i) + One(d.have, i) {
        CountUpdate(haves, k, d.have, i);
      }
    }

    /** Whether the peer has something for us: an outstanding block in endgame, or a piece of which
        blocks can be handed out. */
    method BitfieldInterest(d: SingleDownload, ghost busy: set<SingleDownload>, ghost was: bool)
      requires PeersOk() && ModeStale(d) && d in downloads && d.gotAnything && d.choked && !d.interested
      requires Busy(busy, []) && (was ==> Others(d, busy))
      modifies d`interested, d`sent
      ensures PeersOk() && Mode() && (was ==> AllBusy()) && InterestRight(d)
    {
      hide PeersOk, AllOk;
      PeerFacts(d);
      NoMembers(d.activeRequests);
      ghost var rest := SplitPeers(d);
      var b := BitfieldWanted(d);
      if b {
        d.SetInterested(true);
      }
      JoinPeers(d, rest);
    }

    /** The peer knows of our interest exactly if it has something for us: an outstanding block in
        endgame, or a piece of which blocks can be handed out. */
    ghost predicate InterestRight(d: SingleDownload)
      reads d`interested, d`have, this`allRequests, storage`inactiveRequests, storage`endgame
    {
      d.interested <==> if storage.endgame then exists x :: x in allRequests && Has(d, x) else !OnlyWants(d, [])
    }

    method BitfieldWanted(d: SingleDownload) returns (b: bool)
      requires storage.endgame ==> storage.Exhausted()
      ensures storage.endgame ==> (b <==> exists x :: x in allRequests && Has(d, x))
      ensures !storage.endgame ==> (b <==> !OnlyWants(d, []))
    {
      if storage.endgame {
        for k := 0 to |allRequests|
          invariant forall j :: 0 <= j < k ==> !Has(d, allRequests[j])
        {
          if allRequests[k].index < |d.have| && d.have[allRequests[k].index] {
            assert Has(d, allRequests[k]);
            return true;
          }
        }
      }
      for i := 0 to |d.have|
        invariant forall j :: 0 <= j < i ==> !Wants(d, j)
        invariant storage.endgame ==> forall x :: x in allRequests ==> !Has(d, x)
      {
        var r := d.have[i] && Requestable(i);
        if r {
          assert Wants(d, i);
          return true;
        }
      }
      return false;
    }

    // ---- a block arrives ----

    /** storage.piece_came_in, seen from here: the block is no longer outstanding. If the piece fails
        its check, all of it can be handed out again. */
    method StorePiece(b: Block, data: seq<byte>) returns (ok: bool)
      requires Linked() && Outstanding(b) && |data| == b.length
      modifies storage, storage.storage
      ensures storage.Valid() && |storage.have| == storage.g.count && b.index < storage.g.count
      ensures OneLess(b) && storage.endgame == old(storage.endgame) && !old(storage.have[b.index])
      ensures ok ==> storage.have == old(storage.have) || storage.have == old(storage.have)[b.index := true]
      ensures ok ==> forall i :: Requestable(i) <==> old(Requestable(i))
      ensures !ok ==> storage.have == old(storage.have) && Reopened(b) && !old(Requestable(b.index))
      ensures storage.have[b.index] || !ok <==> old(LastBlock(b))
      ensures old(Cut(b.index)) && (storage.have[b.index] ==> !Cut(b.index)) && forall i: nat :: Cut(i) ==> old(Cut(i))
      ensures !old(LastBlock(b)) ==> TakenIn(b, data)
      ensures !ok ==> forall i :: Requestable(i) <==> old(Requestable(i)) || i == b.index
      ensures Wrote(old(Disk()), old(storage.places), b, data, old(LastBlock(b))) && (ok <==> storage.flunkedBytes == old(storage.flunkedBytes))
    {
      hide StorageWrapper.Inv, PiecePicker.Inv, Geometry.PieceLen, Geometry.Sized, Tiling;
      hide StorageWrapper.Completes, StorageWrapper.DiskOk, StorageWrapper.Written, StorageWrapper.Right, Stored;
      storage.Facts();
      storage.IssuedIsTile(b.index, (b.begin, b.length));
      storage.IssuedListed(b.index, (b.begin, b.length));
      storage.DiskFact();
      OthersOut(b);
      ok := storage.PieceCameIn(b.index, b.begin, data);
      storage.DiskFact();
    }

    /** The block's data has been added to what has come in of its piece. */
    twostate predicate TakenIn(b: Block, data: seq<byte>)
      reads storage`arrived
    {
      && b.index < |old(storage.arrived)|
      && storage.arrived == old(storage.arrived)[b.index := old(storage.arrived)[b.index][(b.begin, b.length) := data]]
    }

    /** Nothing else of the block's piece is outstanding or can be handed out. */
    ghost predicate LastBlock(b: Block)
      reads storage`issued, storage`inactiveRequests
    {
      !Requestable(b.index) && forall x :: Outstanding(x) && x.index == b.index ==> x == b
    }

    lemma OthersOut(b: Block)
      requires Outstanding(b)
      ensures (forall x :: Outstanding(x) && x.index == b.index ==> x == b)
         <==> storage.issued[b.index] - {(b.begin, b.length)} == {}
    {
      var rest := storage.issued[b.index] - {(b.begin, b.length)};
      if rest == {} {
        forall x | Outstanding(x) && x.index == b.index ensures x == b {
          assert (x.begin, x.length) !in rest;
        }
      } else {
        var t :| t in rest;
        assert Outstanding(Block(b.index, t.0, t.1));
      }
    }

    ghost function Disk(): seq<Cell>
      reads storage.storage
    {
      if storage.DiskOk() then storage.storage.Cells() else []
    }

    /** The block's bytes went to their place, and all other pieces keep theirs. If it was the last of its
        piece, the piece is had exactly if what then lies there has the right hash. */
    ghost predicate Wrote(was: seq<Cell>, places: Places, b: Block, data: seq<byte>, last: bool)
      reads storage`places, storage`have, storage.storage
    {
      && storage.DiskOk() && Stored(storage.g, was, places, Disk(), storage.places, b.index, b.begin, data)
      && storage.Written(b.index, b.begin, data)
      && (last ==> b.index < |storage.have| && b.index < |storage.hashes| && (storage.have[b.index] <==> storage.Right(b.index)))
    }

    /** Every request of the block's piece can be handed out again. */
    ghost predicate Reopened(b: Block)
      reads storage`inactiveRequests
    {
      && b.index < |storage.inactiveRequests| && storage.inactiveRequests[b.index] == Untouched
      && storage.IsTile(b.index, (b.begin, b.length))
    }

    /** Stores a block, and tells the picker when that completes its piece. */
    method TakePiece(b: Block, data: seq<byte>) returns (ok: bool)
      requires PartsOk() && Outstanding(b) && |data| == b.length
      modifies storage, storage.storage
      modifies picker`interests, picker`posInInterests, picker`numinterests, picker`started
      modifies picker`seedstarted, picker`numgot
      ensures PartsOk() && (!ok ==> b.index in picker.started && unchanged(picker)) && OneLess(b) && storage.endgame == old(storage.endgame)
      ensures ok ==> forall i :: Requestable(i) <==> old(Requestable(i))
      ensures !ok ==> Reopened(b) && !old(Requestable(b.index))
      ensures !ok ==> forall i :: Requestable(i) <==> old(Requestable(i)) || i == b.index
      ensures b.index < |storage.have| == |old(storage.have)| && !old(storage.have[b.index])
      ensures storage.have[b.index] || !ok <==> old(LastBlock(b))
      ensures storage.have == old(storage.have) || (ok && storage.have == old(storage.have)[b.index := true])
      ensures Wrote(old(Disk()), old(storage.places), b, data, old(LastBlock(b))) && (ok <==> storage.flunkedBytes == old(storage.flunkedBytes))
      ensures !old(LastBlock(b)) ==> TakenIn(b, data)
    {
      hide StorageWrapper.Inv, PiecePicker.Inv, Counted, PickerOk;
      hide Wrote, Linked, Reopened, Outstanding;
      SizesAgree();
      PickerAgrees();
      ok := StorePiece(b, data);
      if ok && storage.have[b.index] {
        assert storage.have[b.index := false] == old(storage.have);
        TellComplete(b.index);
      } else {
        Relink();
      }
    }

    /** The picker's side of Linked. */
    ghost predicate PickerOk(haves: seq<bool>)
      reads picker
    {
      && picker.Valid() && picker.numpieces == storage.g.count && |haves| == |picker.numinterests| == |picker.avail| == storage.g.count
      && forall i :: 0 <= i < storage.g.count ==> (picker.numinterests[i].None? <==> haves[i])
    }

    lemma PickerAgrees()
      requires Linked()
      ensures PickerOk(storage.have) && storage.Valid() && backlog > 0
    {
    }

    lemma Relink()
      requires storage.Valid() && backlog > 0 && PickerOk(storage.have)
      ensures Linked()
    {
    }

    /** picker.complete */
    method TellComplete(index: nat)
      requires storage.Valid() && backlog > 0 && index < |storage.have| && storage.have[index]
      requires PickerOk(storage.have[index := false])
      modifies picker`interests, picker`posInInterests, picker`numinterests, picker`started
      modifies picker`seedstarted, picker`numgot
      ensures Linked() && forall q :: q in old(picker.started) && q != index ==> q in picker.started
    {
      hide StorageWrapper.Inv, PiecePicker.Inv;
      picker.Complete(index);
    }

    /** EndPeer, while block b still counts as outstanding. */
    ghost predicate EndPeerWith(d: SingleDownload, b: Block)
      reads this`allRequests, d
    {
      && (forall x :: x in d.activeRequests ==> x in allRequests || x == b)
      && (!d.choked && |d.activeRequests| < backlog ==>
            forall x :: (x in allRequests || x == b) && Has(d, x) ==> x in d.activeRequests)
      && (d.interested <==> exists x :: (x in allRequests || x == b) && Has(d, x))
    }

    /** The mode, when block b has come in from peer d and the storage has yet to be told. */
    ghost predicate ModeAwaiting(d: SingleDownload, b: Block)
      reads this`allRequests, this`downloads, this`owner, downloads, storage`issued, storage`inactiveRequests, storage`endgame
    {
      if storage.endgame then
        && storage.Exhausted() && NoRepeats(allRequests)
        && (forall x :: x in allRequests <==> Outstanding(x) && x != b)
        && (forall e :: e in downloads && e != d ==> EndPeerWith(e, b))
        && (d in downloads ==> forall x :: x in d.activeRequests ==> x in allRequests)
      else OwnedBut(b) && CandidBut(d)
    }

    /** A block the peer was asked for leaves its list, and in endgame the common list; both contain it. */
    method Release(d: SingleDownload, b: Block) returns (ghost busy: set<SingleDownload>)
      requires PeersOk() && Mode() && d in downloads && b in d.activeRequests
      modifies d`activeRequests, this`allRequests, this`owner
      ensures PeersOk() && ModeAwaiting(d, b) && Outstanding(b) && |d.activeRequests| < backlog && !d.choked
      ensures |d.activeRequests| == |old(d.activeRequests)| - 1
      ensures Busy(busy, []) && d !in busy && (old(AllBusy()) ==> Others(d, busy))
      ensures old(AllBusy() && |d.activeRequests| < backlog) ==> OnlyWants(d, [])
    {
      hide PeersOk, EndPeer, Busy, AllBusy, Others, OnlyWants, ModeAwaiting, AllListed;
      PeerFacts(d);
      AskedListed(d);
      if storage.endgame {
        IsListed(b);
        busy := Unask(d, b);
        Unlist(d, b);
      } else {
        busy := Unask(d, b);
        Disown(d, b);
      }
    }

    lemma IsListed(b: Block)
      requires AllListed() && b in allRequests
      ensures Outstanding(b)
    {
    }

    /** Owned, when block b has left the list of peer d. */
    ghost predicate OwnedLess(d: SingleDownload, b: Block)
      reads this`downloads, this`owner, downloads`activeRequests, storage`issued
    {
      && (forall x :: x in owner <==> Outstanding(x))
      && (forall x :: x in owner ==> owner[x] in downloads && (x != b ==> x in owner[x].activeRequests))
      && (forall e, x :: e in downloads && x in e.activeRequests ==> x in owner && owner[x] == e && x != b)
    }

    method Disown(d: SingleDownload, b: Block)
      requires !storage.endgame && OwnedLess(d, b) && CandidBut(d)
      modifies this`owner
      ensures ModeAwaiting(d, b)
    {
      owner := owner - {b};
    }

    lemma AskedListed(d: SingleDownload)
      requires Mode() && d in downloads
      ensures storage.endgame ==> forall x :: x in d.activeRequests ==> x in allRequests
    {
    }

    /** self.active_requests.remove */
    method Unask(d: SingleDownload, b: Block) returns (ghost busy: set<SingleDownload>)
      requires PeersOk() && d in downloads && b in d.activeRequests
      modifies d`activeRequests
      ensures PeersOk() && |d.activeRequests| == |old(d.activeRequests)| - 1
      ensures forall x :: x in d.activeRequests <==> x in old(d.activeRequests) && x != b
      ensures Busy(busy, []) && d !in busy && (old(AllBusy()) ==> Others(d, busy))
      ensures old(AllBusy() && |d.activeRequests| < backlog) ==> OnlyWants(d, [])
    {
      hide PeersOk, AllOk;
      PeerFacts(d);
      assert AllBusy() && |d.activeRequests| < backlog ==> WorkingBut(d, []) && OnlyWants(d, []);
      ghost var rest := SplitPeers(d);
      busy := if AllBusy() then Everyone() - {d} else {};
      RemoveFirstDistinct(d.activeRequests, b);
      RemoveFirstMembers(d.activeRequests, b);
      d.activeRequests := RemoveFirst(d.activeRequests, b).value;
      JoinPeers(d, rest);
      forall e | e in busy ensures WorkingBut(e, []) {
        assert old(WorkingBut(e, []));
      }
    }

    /** self.downloader.all_requests.remove, which always finds the block. */
    method Unlist(d: SingleDownload, b: Block)
      requires storage.endgame && AllListed() && b in allRequests && b !in d.activeRequests
      requires forall e :: e in downloads && e != d ==> EndPeer(e)
      requires forall x :: x in d.activeRequests ==> x in allRequests
      modifies this`allRequests
      ensures ModeAwaiting(d, b)
    {
      RemoveFirstDistinct(allRequests, b);
      RemoveFirstMembers(allRequests, b);
      hide NoRepeats, StorageWrapper.Exhausted, StorageWrapper.IsIssued;
      allRequests := RemoveFirst(allRequests, b).value;
      forall e | e in downloads && e != d ensures EndPeerWith(e, b) {
        assert old(EndPeer(e));
      }
    }

    /** In endgame, the block that came in is no longer asked of a peer, which is told so and gets
        others to do instead. */
    method CancelOne(d: SingleDownload, b: Block)
      requires PeerOk(d) && EndPeerWith(d, b) && NoRepeats(allRequests) && b !in allRequests && backlog > 0
      modifies d`interested, d`activeRequests, d`sent
      ensures PeerOk(d) && EndPeer(d) && (old(b in d.activeRequests) ==> !OnRequest(d.sent, b))
    {
      hide OnRequest, Told;
      if d.interested {
        if d.choked {
          NoMembers(d.activeRequests);
          FixDownloadEndgame(d);
        } else {
          RemoveFirstMembers(d.activeRequests, b);
          if b in d.activeRequests {
            RemoveFirstDistinct(d.activeRequests, b);
            d.activeRequests := RemoveFirst(d.activeRequests, b).value;
            d.SendCancel(b);
            FixDownloadEndgame(d);
          } else {
            NoMembers(d.activeRequests);
          }
        }
      }
    }

    /** The loop over the other peers after a block has come in during endgame. */
    method CancelOthers(d: SingleDownload, b: Block)
      requires PeersOk() && NoRepeats(allRequests) && b !in allRequests && backlog > 0 && d in downloads
      requires forall e :: e in downloads && e != d ==> EndPeerWith(e, b)
      modifies downloads`interested, downloads`activeRequests, downloads`sent
      ensures PeersOk() && d.activeRequests == old(d.activeRequests)
      ensures forall e :: e in downloads && e != d ==> EndPeer(e)
      ensures forall e :: e in downloads && e != d && old(b in e.activeRequests) ==> !OnRequest(e.sent, b)
    {
      hide EndPeer, EndPeerWith, OnRequest;
      for k := 0 to |downloads|
        invariant PeersOk() && d.activeRequests == old(d.activeRequests)
        invariant forall j :: 0 <= j < k && downloads[j] != d ==> EndPeer(downloads[j])
        invariant forall j :: k <= j < |downloads| && downloads[j] != d ==> EndPeerWith(downloads[j], b)
        invariant forall j :: k <= j < |downloads| ==> downloads[j].activeRequests == old(downloads[j].activeRequests)
        invariant forall j :: 0 <= j < k && downloads[j] != d && old(b in downloads[j].activeRequests) ==>
                  !OnRequest(downloads[j].sent, b)
      {
        if downloads[k] != d {
          CancelOne(downloads[k], b);
        }
      }
    }

    /** all_requests while piece index is being handed out again. */
    ghost predicate Reissuing(index: nat)
      reads this`allRequests, storage`issued, storage`inactiveRequests
    {
      && NoRepeats(allRequests) && (forall x :: x in allRequests <==> Outstanding(x))
      && forall i :: Requestable(i) ==> i == index
    }

    /** In endgame, a piece that failed its check is handed out again at once, in full. */
    method Reissue(b: Block)
      requires PartsOk() && b.index in picker.started && Reopened(b) && Reissuing(b.index) && b.index < storage.g.count && storage.endgame
      modifies this`allRequests
      modifies storage`inactiveRequests, storage`numactive, storage`amountInactive, storage`endgame, storage`issued
      ensures PartsOk() && AllListed() && storage.endgame && b in allRequests
      ensures forall x :: x in old(allRequests) ==> x in allRequests
    {
      hide PartsOk, StorageWrapper.IsTile, StorageWrapper.Open, AllListed;
      storage.OpenTile(b.index, (b.begin, b.length));
      Sized();
      while Requestable(b.index)
        invariant PartsOk() && Reissuing(b.index) && storage.endgame && b.index < |storage.inactiveRequests|
        invariant b in allRequests || (b.begin, b.length) in storage.Open(b.index)
        invariant forall x :: x in old(allRequests) ==> x in allRequests
        decreases |storage.Open(b.index)|
      {
        ReissueOne(b);
      }
      OpenNothing(b.index);
      AllReissued(b.index);
    }

    lemma OpenNothing(index: nat)
      requires PartsOk() && index < |storage.inactiveRequests| && !Requestable(index)
      ensures storage.Open(index) == {}
    {
      storage.OpenNothingLeft(index);
    }

    lemma AllReissued(index: nat)
      requires Reissuing(index) && !Requestable(index)
      ensures AllListed()
    {
      forall i | 0 <= i < |storage.inactiveRequests| ensures !storage.inactiveRequests[i].Truthy() {
        assert !Requestable(i);
      }
    }

    lemma Sized()
      requires PartsOk()
      ensures |storage.inactiveRequests| == |storage.have| == storage.g.count
    {
      storage.Facts();
    }

    method ReissueOne(b: Block)
      requires PartsOk() && b.index in picker.started && Reissuing(b.index) && storage.endgame && Requestable(b.index) && b.index < storage.g.count
      requires b in allRequests || (b.begin, b.length) in storage.Open(b.index)
      modifies this`allRequests
      modifies storage`inactiveRequests, storage`numactive, storage`amountInactive, storage`endgame, storage`issued
      ensures PartsOk() && Reissuing(b.index) && storage.endgame && b.index < |storage.inactiveRequests|
      ensures b in allRequests || (b.begin, b.length) in storage.Open(b.index)
      ensures forall x :: x in old(allRequests) ==> x in allRequests
      ensures |storage.Open(b.index)| < old(|storage.Open(b.index)|)
    {
      hide PartsOk, Linked, Counted, Begun, StorageWrapper.IsTile, StorageWrapper.Open, StorageWrapper.Inv;
      var r := NextTile(b.index);
      var x := Block(b.index, r.0, r.1);
      JoinDistinct(allRequests, [x]);
      allRequests := allRequests + [x];
    }

    // ---- got_piece ----

    /** Block b has come in from peer d, and is stored. */
    method Arrive(d: SingleDownload, b: Block, data: seq<byte>, ghost busy: set<SingleDownload>) returns (ok: bool)
      requires PeersOk() && PartsOk() && ModeAwaiting(d, b) && Outstanding(b) && |data| == b.length && d in downloads
      requires Busy(busy, []) && Has(d, b)
      modifies storage, storage.storage
      modifies picker`interests, picker`posInInterests, picker`numinterests, picker`started
      modifies picker`seedstarted, picker`numgot
      ensures PeersOk() && PartsOk() && storage.endgame == old(storage.endgame)
      ensures b.index < |storage.have| == |old(storage.have)| && !old(storage.have[b.index])
      ensures storage.have[b.index] || !ok <==> old(LastBlock(b))
      ensures !old(LastBlock(b)) ==> TakenIn(b, data)
      ensures storage.have == old(storage.have) || (ok && storage.have == old(storage.have)[b.index := true])
      ensures Wrote(old(Disk()), old(storage.places), b, data, old(LastBlock(b))) && (ok <==> storage.flunkedBytes == old(storage.flunkedBytes))
      ensures ok ==> ModeArrived(d, b) && Busy(busy, [])
      ensures ok ==> forall i :: Requestable(i) <==> old(Requestable(i))
      ensures !ok ==> b.index in picker.started && unchanged(picker)
      ensures !ok && storage.endgame ==> Reopened(b) && Reissuing(b.index) && AskedOrWas(b)
      ensures !ok && !storage.endgame ==> Owned() && AllCandid() && Busy(busy, [b.index])
      ensures !ok ==> (OnlyWants(d, [b.index]) <==> old(OnlyWants(d, []))) && OpenCount(b.index) == Requests(b.index)
    {
      hide PeersOk, PartsOk, Reopened, NoRepeats, Wrote, EndPeerWith, ModeAwaiting, ModeArrived, Reissuing, AskedOrWas, Owned;
      Awaited(d, b);
      ok := TakePiece(b, data);
      Arrived(d, b, ok);
      if !ok {
        ReopenedCount(b);
        assert forall i :: Wants(d, i) && i != b.index <==> old(Wants(d, i));
        WantsBesides(d, b.index);
      }
      forall e | e in busy ensures WorkingBut(e, if ok then [] else [b.index]) {
        assert old(WorkingBut(e, []));
      }
    }

    /** How many requests a piece is cut into. */
    ghost function Requests(i: nat): nat {
      if 0 < storage.g.PieceLen(i) && 0 < storage.requestSize
      then |Tiling(storage.g.PieceLen(i), storage.requestSize, 0)| else 0
    }

    lemma ReopenedCount(b: Block)
      requires Reopened(b)
      ensures OpenCount(b.index) == Requests(b.index)
    {
      TilingDistinct(storage.g.PieceLen(b.index), storage.requestSize);
      hide Tiling;
      MembersCount(Tiling(storage.g.PieceLen(b.index), storage.requestSize, 0), storage.Open(b.index));
    }

    lemma WantsBesides(d: SingleDownload, i: nat)
      ensures OnlyWants(d, [i]) <==> forall j :: Wants(d, j) ==> j == i
    {
    }

    /** ModeAwaiting, but for what it says of the storage. */
    ghost predicate Between(d: SingleDownload, b: Block, endgame: bool)
      reads this`allRequests, this`downloads, this`owner, downloads
    {
      if endgame then
        && NoRepeats(allRequests)
        && (forall e :: e in downloads && e != d ==> EndPeerWith(e, b))
        && (d in downloads ==> forall x :: x in d.activeRequests ==> x in allRequests)
      else
        && (forall x :: x in owner ==> owner[x] in downloads && x in owner[x].activeRequests)
        && (forall e, x :: e in downloads && x in e.activeRequests ==> x in owner && owner[x] == e)
    }

    lemma Awaited(d: SingleDownload, b: Block)
      requires ModeAwaiting(d, b)
      ensures Between(d, b, storage.endgame)
      ensures storage.endgame ==> (forall x :: x in allRequests <==> Outstanding(x) && x != b) && forall i :: !Requestable(i)
      ensures !storage.endgame ==> (forall x :: x in owner <==> Outstanding(x) && x != b) && CandidBut(d)
    {
    }

    lemma Arrived(d: SingleDownload, b: Block, ok: bool)
      requires Between(d, b, storage.endgame) && !Outstanding(b)
      requires storage.endgame ==> (forall x :: x in allRequests <==> Outstanding(x)) && forall i :: Requestable(i) ==> !ok && i == b.index
      requires !storage.endgame ==> (forall x :: x in owner <==> Outstanding(x)) && CandidBut(d) && (!ok ==> Wants(d, b.index))
      ensures ok ==> ModeArrived(d, b)
      ensures !ok && storage.endgame ==> Reissuing(b.index) && AskedOrWas(b)
      ensures !ok && !storage.endgame ==> Owned() && AllCandid()
    {
      hide EndPeer, NoRepeats;
      if ok && storage.endgame {
        NothingRequestable();
      }
    }

    ghost predicate AskedOrWas(b: Block)
      reads this`allRequests, this`downloads, downloads`activeRequests
    {
      forall e, x :: e in downloads && x in e.activeRequests ==> x in allRequests || x == b
    }

    lemma NothingRequestable()
      requires forall i :: !Requestable(i)
      ensures storage.Exhausted()
    {
      forall i | 0 <= i < |storage.inactiveRequests| ensures !storage.inactiveRequests[i].Truthy() {
        assert !Requestable(i);
      }
    }

    /** The mode, when block b has come in from peer d, and the other peers have yet to be told. */
    ghost predicate ModeArrived(d: SingleDownload, b: Block)
      reads this`allRequests, this`downloads, this`owner, downloads, storage`issued, storage`inactiveRequests, storage`endgame
    {
      if storage.endgame then
        && AllListed() && b !in allRequests
        && (forall e :: e in downloads && e != d ==> EndPeerWith(e, b))
        && (d in downloads ==> forall x :: x in d.activeRequests ==> x in allRequests)
      else Owned() && CandidBut(d)
    }

    /** In endgame, a failed piece is handed out again and every peer is brought up to date. */
    method RetryInEndgame(b: Block)
      requires PeersOk() && PartsOk() && b.index in picker.started && Reopened(b) && Reissuing(b.index) && AskedOrWas(b) && storage.endgame
      requires b.index < storage.g.count
      modifies this`allRequests, downloads`interested, downloads`activeRequests, downloads`sent
      modifies storage`inactiveRequests, storage`numactive, storage`amountInactive, storage`endgame, storage`issued
      ensures PeersOk() && PartsOk() && Mode() && AllBusy() && storage.endgame
    {
      hide PeersOk, PartsOk, Reopened, Reissuing, Busy, StorageWrapper.Exhausted;
      BacklogPositive();
      Reissue(b);
      FixAll();
      ExhaustedWorking(Everyone(), []);
    }

    /** The piece has gone to the end of its bucket, the others staying in their order. */
    twostate predicate Bumped(index: nat)
      reads picker`interests
    {
      && index < |old(picker.numinterests)| && index < |old(picker.posInInterests)| && old(picker.numinterests)[index].Some?
      && var k, at, l := old(picker.numinterests)[index].value, old(picker.posInInterests)[index], old(picker.interests);
         k < |l| && at < |l[k]| && l[k][at] == index && picker.interests == l[k := l[k][..at] + l[k][at + 1..] + [index]]
    }

    /** picker.bump */
    method MoveBack(index: nat)
      requires PartsOk() && index < |storage.have| && !storage.have[index]
      modifies picker`interests, picker`posInInterests
      ensures PartsOk() && Bumped(index)
    {
      hide StorageWrapper.Inv, PiecePicker.Inv, Counted;
      picker.Bump(index);
    }

    /** No peer that chokes us and thinks we want nothing has the piece. */
    ghost predicate NobodyUntold(index: nat)
      reads this`downloads, downloads`choked, downloads`interested, downloads`have
    {
      forall e :: e in downloads && e.choked && !e.interested ==> index >= |e.have| || !e.have[index]
    }

    /** How many blocks of piece p each of these peers could still be asked for. */
    ghost function Spares(ds: seq<SingleDownload>, p: nat): (s: seq<int>)
      reads ds`have, ds`activeRequests
      ensures |s| == |ds| && forall k :: 0 <= k < |s| ==> s[k] == SpareOf(ds[k], p)
    {
      if ds == [] then [] else [SpareOf(ds[0], p)] + Spares(ds[1..], p)
    }

    /** How many they could be asked for together. */
    ghost function Spare(ds: seq<SingleDownload>, p: nat): int
      reads ds`have, ds`activeRequests
    {
      Sum(Spares(ds, p))
    }

    static lemma SumPrefix(s: seq<int>, k: nat)
      requires k < |s|
      ensures Sum(s[..k + 1]) == Sum(s[..k]) + s[k]
    {
      assert s[..k + 1] == s[..k] + [s[k]];
      SumAppend(s[..k], [s[k]]);
    }

    /** Some order of the unchoked peers. */
    ghost predicate IsOrder(order: seq<SingleDownload>)
      reads this`downloads, downloads`choked, order`choked
    {
      && NoRepeats(order) && (forall e :: e in order ==> e in downloads && !e.choked)
      && forall e :: e in downloads && !e.choked ==> e in order
    }

    /** How things were when a piece began to be offered: what is open of it, which other pieces can be
        handed out, how long the peers' lists are and what room they have, and which choking peers do
        not know of our interest. */
    ghost function Before(order: seq<SingleDownload>, p: nat): Offer
      reads this`downloads, downloads`choked, downloads`interested, order`have, order`activeRequests
      reads storage`inactiveRequests
    {
      Offer(OpenCount(p), (iset i: nat | i != p && Requestable(i)), Lens(order), Spares(order, p),
            (set e | e in downloads && e.choked && !e.interested))
    }

    ghost function Lens(ds: seq<SingleDownload>): (s: seq<nat>)
      reads ds`activeRequests
      ensures |s| == |ds| && forall k :: 0 <= k < |s| ==> s[k] == |ds[k].activeRequests|
    {
      if ds == [] then [] else [|ds[0].activeRequests|] + Lens(ds[1..])
    }

    /** What is open after piece p has been offered to the first k peers. */
    ghost predicate OpenAfter(o: Offer, p: nat, k: nat)
      requires k <= |o.spares|
      reads storage`inactiveRequests
    {
      OpenCount(p) == Max(o.open - Sum(o.spares[..k]), 0) && forall i: nat :: i != p ==> (Requestable(i) <==> i in o.others)
    }

    /** The peers after that, unless endgame has begun. */
    ghost predicate PeersAfter(o: Offer, order: seq<SingleDownload>, k: nat)
      requires |o.lens| == |o.spares| == |order| && k <= |order|
      reads order`activeRequests, order`interested, o.untold`choked, o.untold`interested
    {
      && (forall j :: k <= j < |order| ==> |order[j].activeRequests| == o.lens[j])
      && (forall j :: 0 <= j < k ==> |order[j].activeRequests| == o.lens[j] + Min(o.spares[j], Max(o.open - Sum(o.spares[..j]), 0)))
      && (forall j :: 0 <= j < k && order[j].activeRequests == [] ==> !order[j].interested)
      && (forall e :: e in o.untold ==> e.choked && !e.interested)
    }

    /** The room that was recorded is that of peers with lists as long as recorded. */
    ghost predicate Measured(o: Offer, order: seq<SingleDownload>, p: nat)
      reads order`have, this`downloads
    {
      && |o.lens| == |o.spares| == |order| && (forall e :: e in o.untold ==> e in downloads) && p !in o.others
      && forall k :: 0 <= k < |order| ==>
           o.spares[k] == if p < |order[k].have| && order[k].have[p] && o.lens[k] <= backlog then backlog - o.lens[k] else 0
    }

    /** Offers a piece to the unchoked peers in the given order. */
    method OfferAgain(order: seq<SingleDownload>, index: nat, ghost calm: set<SingleDownload>, ghost nearly: set<SingleDownload>,
                      ghost o: Offer)
      requires PeersOk() && PartsOk() && Mode() && IsOrder(order) && !storage.endgame && o == Before(order, index)
      requires Busy(calm, []) && Busy(nearly, [index]) && forall e :: e in calm ==> e.choked
      modifies downloads`interested, downloads`activeRequests, downloads`sent, downloads`exampleInterest
      modifies this`owner, this`allRequests
      modifies storage`inactiveRequests, storage`numactive, storage`amountInactive, storage`endgame, storage`issued
      modifies picker`started, picker`seedstarted
      ensures PeersOk() && PartsOk() && Mode() && Measured(o, order, index)
      ensures Busy(calm + Among(nearly, order), []) && Busy(nearly - Among(nearly, order), [index])
      ensures OpenAfter(o, index, |order|) && (storage.endgame || PeersAfter(o, order, |order|))
    {
      hide PartsOk, PeersOk, AllOk, Mode, Busy, Among, NoRepeats, OpenCount, Requestable;
      AmongNobody(calm, nearly);
      assert order[..0] == [] && o.spares[..0] == [];
      for k := 0 to |order|
        invariant PeersOk() && PartsOk() && Mode() && IsOrder(order) && Measured(o, order, index)
        invariant Busy(calm + Among(nearly, order[..k]), []) && Busy(nearly - Among(nearly, order[..k]), [index])
        invariant OpenAfter(o, index, k) && (storage.endgame || PeersAfter(o, order, k))
      {
        OfferOne(order, k, index, calm, nearly, o);
      }
      assert order[..|order|] == order;
    }

    /** Offers it to the next peer. */
    method OfferOne(order: seq<SingleDownload>, k: nat, index: nat, ghost calm: set<SingleDownload>,
                    ghost nearly: set<SingleDownload>, ghost o: Offer)
      requires PeersOk() && PartsOk() && Mode() && IsOrder(order) && Measured(o, order, index) && k < |order|
      requires Busy(calm + Among(nearly, order[..k]), []) && Busy(nearly - Among(nearly, order[..k]), [index])
      requires (forall e :: e in calm ==> e.choked) && OpenAfter(o, index, k) && (storage.endgame || PeersAfter(o, order, k))
      modifies downloads`interested, downloads`activeRequests, downloads`sent, downloads`exampleInterest
      modifies this`owner, this`allRequests
      modifies storage`inactiveRequests, storage`numactive, storage`amountInactive, storage`endgame, storage`issued
      modifies picker`started, picker`seedstarted
      ensures PeersOk() && PartsOk() && Mode() && IsOrder(order) && Measured(o, order, index)
      ensures Busy(calm + Among(nearly, order[..k + 1]), []) && Busy(nearly - Among(nearly, order[..k + 1]), [index])
      ensures OpenAfter(o, index, k + 1) && (storage.endgame || PeersAfter(o, order, k + 1))
    {
      hide PartsOk, PeersOk, AllOk, Mode, Busy, Among, OpenAfter, PeersAfter, Measured, IsOrder;
      var d := order[k];
      ghost var done := Among(nearly, order[..k]);
      OrderOnce(order);
      OrderIn(order, k);
      AmongNext(calm, nearly, order, k);
      hide NoRepeats;
      BusyFewer(nearly - done, nearly - done - {d}, d, [index]);
      OfferTo(order, k, index, d in nearly, calm + done, nearly - done - {d}, o);
      BusyMore(calm + done, d, d in nearly);
    }

    lemma OrderOnce(order: seq<SingleDownload>)
      requires IsOrder(order)
      ensures NoRepeats(order)
    {
    }

    /** What that does to the peers and the piece. */
    method OfferTo(order: seq<SingleDownload>, k: nat, index: nat, ghost known: bool, ghost busy: set<SingleDownload>,
                   ghost nearly: set<SingleDownload>, ghost o: Offer)
      requires PeersOk() && PartsOk() && Mode() && IsOrder(order) && Measured(o, order, index) && k < |order|
      requires Busy(busy, []) && Busy(nearly, [index]) && order[k] !in busy && order[k] !in nearly
      requires known ==> WorkingBut(order[k], [index])
      requires OpenAfter(o, index, k) && (storage.endgame || PeersAfter(o, order, k))
      modifies downloads`interested, downloads`activeRequests, downloads`sent, downloads`exampleInterest
      modifies this`owner, this`allRequests
      modifies storage`inactiveRequests, storage`numactive, storage`amountInactive, storage`endgame, storage`issued
      modifies picker`started, picker`seedstarted
      ensures PeersOk() && PartsOk() && Mode() && IsOrder(order) && Measured(o, order, index)
      ensures Busy(busy, []) && Busy(nearly, [index]) && (known ==> Busy({order[k]}, []))
      ensures OpenAfter(o, index, k + 1) && (storage.endgame || PeersAfter(o, order, k + 1))
    {
      hide PartsOk, PeersOk, Mode, ModeBut, Busy, NoRepeats, OpenCount, Requestable, Sum, WorkingBut;
      var d := order[k];
      OrderOnce(order);
      AllDifferent(order, k);
      SpareAt(o, order, k, index);
      ModeFor(d);
      if storage.endgame {
        ModeExhausted();
        NoneOpen();
      }
      assert Single(Some([index]), index);
      assert !storage.endgame ==> SpareOf(d, index) == o.spares[k];
      ghost var now := OpenCount(index);
      RequestMore(d, Some([index]), known, busy, nearly, [index]);
      assert Gave(d, index);
      assert OpenCount(index) == Max(now - o.spares[k], 0);
    }

    lemma SpareAt(o: Offer, order: seq<SingleDownload>, k: nat, index: nat)
      requires Measured(o, order, index) && k < |order|
      ensures o.spares[k] >= 0 && Sum(o.spares[..k + 1]) == Sum(o.spares[..k]) + o.spares[k]
    {
      SumPrefix(o.spares, k);
    }

    static lemma AllDifferent(order: seq<SingleDownload>, k: nat)
      requires NoRepeats(order) && k < |order|
      ensures forall j :: 0 <= j < |order| && j != k ==> order[j] != order[k]
    {
    }

    /** Outside endgame, a failed piece is moved back in the picker and offered to the unchoked peers.
        Everybody stays busy exactly if the peers have room for the whole piece, or nobody is left
        untold; and the sender gets some of it, or has nothing else to give. */
    method Retry(order: seq<SingleDownload>, ghost m: nat, index: nat, ghost busy: set<SingleDownload>, ghost was: bool)
      requires PeersOk() && PartsOk() && Owned() && AllCandid() && !storage.endgame && IsOrder(order) && m < |order|
      requires index < |storage.have| && !storage.have[index] && Busy(busy, [index]) && order[m] !in busy
      requires index < |order[m].have| && order[m].have[index] && |order[m].activeRequests| < backlog
      requires was ==> Others(order[m], busy) && (OnlyWants(order[m], [index]) || |order[m].activeRequests| + 1 == backlog)
      modifies downloads`interested, downloads`activeRequests, downloads`sent, downloads`exampleInterest
      modifies this`owner, this`allRequests
      modifies storage`inactiveRequests, storage`numactive, storage`amountInactive, storage`endgame, storage`issued
      modifies picker`interests, picker`posInInterests, picker`started, picker`seedstarted
      ensures PeersOk() && PartsOk() && Mode() && Bumped(index)
      ensures forall e :: e in busy && e in downloads && !e.choked ==> WorkingBut(e, [])
      ensures was ==> (AllBusy() <==> old(StaysBusy(order, m, index)))
      ensures !order[m].interested && !OnlyWants(order[m], []) <==> old(LeftOut(order, m, index) && order[m].activeRequests == [])
    {
      hide PeersOk, PartsOk, Owned, Mode, Busy, WorkingBut, OpenCount, Requestable, IsOrder, Others;
      hide StaysBusy, LeftOut, NobodyUntold, Before, OpenAfter, PeersAfter, OnlyWants, Calm, Measured, NoOther, NoneUntold;
      hide Sum, Spares, Lens, Among, Cover;
      MoveBack(index);
      OwnedMode();
      ghost var d := order[m];
      ghost var o := Before(order, index);
      ghost var only := OnlyWants(d, [index]);
      ghost var told := NobodyUntold(index);
      ghost var known := busy + if only then {d} else {};
      ghost var calm := Calm(busy, index);
      BusyWith(busy, d, index);
      CalmBusy(busy, index);
      CalmTold(busy, index);
      BusyFewer(known, known - calm, d, [index]);
      BeforeMeans(order, m, index);
      assert told == NoneUntold(o, index);
      OfferAgain(order, index, calm, known - calm, o);
      ghost var full := calm + Among(known - calm, order);
      ghost var part := known - calm - Among(known - calm, order);
      Covered(order, m, busy, calm, told, only);
      BusyEach(full);
      RetryDone(o, order, m, index, full, part, was, only, told);
    }

    lemma OwnedMode()
      requires Owned() && AllCandid() && !storage.endgame
      ensures Mode()
    {
    }

    lemma Covered(order: seq<SingleDownload>, m: nat, busy: set<SingleDownload>, calm: set<SingleDownload>, told: bool, only: bool)
      requires IsOrder(order) && m < |order| && calm <= busy && order[m] !in busy && forall e :: e in calm ==> e.choked
      requires told ==> forall e :: e in busy && e in downloads && e.choked ==> e in calm
      ensures var known := busy + if only then {order[m]} else {};
              var full, part := calm + Among(known - calm, order), known - calm - Among(known - calm, order);
              && (only ==> order[m] in full) && (forall e :: e in busy && e in downloads && !e.choked ==> e in full)
              && (Others(order[m], busy) ==> Cover(order[m], full, part, told))
    {
    }

    lemma SparesPrefix(ds: seq<SingleDownload>, m: nat, p: nat)
      requires m <= |ds|
      ensures Spares(ds[..m], p) == Spares(ds, p)[..m]
    {
    }

    /** What was remembered, in terms of the peers. */
    lemma BeforeMeans(order: seq<SingleDownload>, m: nat, index: nat)
      requires m < |order|
      ensures var o := Before(order, index);
              && |o.lens| == |o.spares| == |order|
              && (OnlyWants(order[m], [index]) <==> NoOther(o, order[m]))
              && (NobodyUntold(index) <==> NoneUntold(o, index))
              && (StaysBusy(order, m, index) <==>
                    (Sum(o.spares) >= o.open || NoneUntold(o, index)) && (Sum(o.spares[..m]) < o.open || NoOther(o, order[m])))
              && (LeftOut(order, m, index) <==> Sum(o.spares[..m]) >= o.open && !NoOther(o, order[m]))
              && o.lens[m] == |order[m].activeRequests|
    {
      SparesPrefix(order, m, index);
      hide Spares, Sum;
      var o := Before(order, index);
      var d := order[m];
      assert forall i: nat :: i in o.others <==> i != index && Requestable(i);
      if OnlyWants(d, [index]) {
        forall i | 0 <= i < |d.have| && d.have[i] ensures i !in o.others {
          assert Requestable(i) ==> Wants(d, i) && i in [index];
        }
      }
      if NoOther(o, d) {
        forall i | 0 <= i < |d.have| && Wants(d, i) ensures i in [index] {
          assert i !in o.others;
        }
      }
    }

    /** The peer has none of the other pieces that could be handed out. */
    ghost predicate NoOther(o: Offer, d: SingleDownload)
      reads d`have
    {
      forall i :: 0 <= i < |d.have| && d.have[i] ==> i !in o.others
    }

    /** None of the untold peers has the piece. */
    ghost predicate NoneUntold(o: Offer, index: nat)
      reads o.untold`have
    {
      forall e :: e in o.untold ==> index >= |e.have| || !e.have[index]
    }

    /** Whether everybody stays busy after a failed piece has been offered again. */
    ghost predicate StaysBusy(order: seq<SingleDownload>, m: nat, index: nat)
      requires m < |order|
      reads this`downloads, downloads`choked, downloads`interested, downloads`have
      reads order`have, order`activeRequests, storage`inactiveRequests
    {
      (Spare(order, index) >= OpenCount(index) || NobodyUntold(index)) && !LeftOut(order, m, index)
    }

    /** The peer at position m has other pieces to give, but no block of this one is left at its turn. */
    ghost predicate LeftOut(order: seq<SingleDownload>, m: nat, index: nat)
      requires m < |order|
      reads order`have, order`activeRequests, storage`inactiveRequests
    {
      Spare(order[..m], index) >= OpenCount(index) && !OnlyWants(order[m], [index])
    }

    /** When a failed piece has been offered to everybody: the peers in full are as busy as they can be,
        those in part are but for this piece. */
    lemma RetryDone(o: Offer, order: seq<SingleDownload>, m: nat, index: nat, full: set<SingleDownload>,
                    part: set<SingleDownload>, was: bool, only: bool, told: bool)
      requires PeersOk() && PartsOk() && Mode() && IsOrder(order) && Measured(o, order, index) && m < |order|
      requires OpenAfter(o, index, |order|) && (storage.endgame || PeersAfter(o, order, |order|))
      requires only == NoOther(o, order[m]) && told == NoneUntold(o, index)
      requires index < |order[m].have| && order[m].have[index] && o.lens[m] < backlog
      requires was ==> only || o.lens[m] + 1 == backlog
      requires Busy(full, []) && Busy(part, [index]) && (only ==> order[m] in full)
      requires was ==> Cover(order[m], full, part, told)
      ensures was ==> (AllBusy() <==>
                         (Sum(o.spares) >= o.open || told) && (Sum(o.spares[..m]) < o.open || only))
      ensures !order[m].interested && !OnlyWants(order[m], []) <==>
                Sum(o.spares[..m]) >= o.open && !only && o.lens[m] == 0
    {
      hide PeersOk, PartsOk, Mode, Busy, AllBusy, WorkingBut, StorageWrapper.Exhausted, Sum, OpenCount, Requestable, OnlyWants;
      hide Measured, PeersAfter, NoneUntold, Cover;
      var d := order[m];
      OrderIn(order, m);
      PeerFacts(d);
      BacklogPositive();
      SparesAt(o, order, m, index);
      OpenCounts(index);
      NotOpen(o, d, index);
      if storage.endgame {
        ModeExhausted();
        ExhaustedWorking(Everyone(), []);
        NothingWanted(d);
        AllBusyIs();
      } else {
        AfterAt(o, order, m, index);
        BusyEach(full);
        if Sum(o.spares[..m]) < o.open {
          assert d.activeRequests != [];
        }
        if Sum(o.spares) < o.open {
          FullBusy(d);
          if !told {
            SomeUntold(o, index);
          } else if was {
            BusyNobody();
            CoverAll(d, full, part, told, {});
          }
        } else {
          BusyWithout(part, index);
          if !only && Sum(o.spares[..m]) >= o.open {
            SomeOther(o, d, index);
          } else if was {
            if !only { FullBusy(d); }
            CoverAll(d, full, part, told, part);
          }
        }
      }
    }

    lemma BusyNobody()
      ensures Busy({}, [])
    {
    }

    /** Everybody but d is in one of the sets, and in the first one if nobody was left untold. */
    ghost predicate Cover(d: SingleDownload, full: set<SingleDownload>, part: set<SingleDownload>, told: bool)
      reads this`downloads
    {
      && (forall e :: e in downloads && e != d ==> e in full || e in part)
      && (told ==> forall e :: e in downloads && e != d ==> e in full)
    }

    lemma CoverAll(d: SingleDownload, full: set<SingleDownload>, part: set<SingleDownload>, told: bool, rest: set<SingleDownload>)
      requires Cover(d, full, part, told) && (told || rest == part)
      requires Busy(full, []) && WorkingBut(d, []) && Busy(rest, [])
      ensures AllBusy()
    {
    }

    lemma SparesAt(o: Offer, order: seq<SingleDownload>, m: nat, index: nat)
      requires Measured(o, order, index) && m < |order| && index < |order[m].have| && order[m].have[index] && o.lens[m] < backlog
      ensures |o.lens| == |o.spares| == |order| && o.spares[m] == backlog - o.lens[m] > 0 && o.spares[..|order|] == o.spares
      ensures forall e :: e in o.untold ==> e in downloads
      ensures Sum(o.spares[..m]) + o.spares[m] <= Sum(o.spares) && index !in o.others
    {
      SumUpTo(o.spares, m);
    }

    lemma AfterAt(o: Offer, order: seq<SingleDownload>, m: nat, index: nat)
      requires |o.lens| == |o.spares| == |order| && PeersAfter(o, order, |order|) && m < |order|
      ensures |order[m].activeRequests| == o.lens[m] + Min(o.spares[m], Max(o.open - Sum(o.spares[..m]), 0))
      ensures order[m].activeRequests == [] ==> !order[m].interested
      ensures forall e :: e in o.untold ==> e.choked && !e.interested
    {
    }

    lemma NotOpen(o: Offer, d: SingleDownload, index: nat)
      requires (forall i: nat :: i != index ==> (Requestable(i) <==> i in o.others)) && index !in o.others
      ensures NoOther(o, d) && !Requestable(index) ==> OnlyWants(d, [])
    {
    }

    lemma SomeUntold(o: Offer, index: nat)
      requires !NoneUntold(o, index) && Requestable(index)
      requires forall e :: e in o.untold ==> e in downloads && e.choked && !e.interested
      ensures !AllBusy()
    {
      var e :| e in o.untold && index < |e.have| && e.have[index];
      NotAllBusy(e, index);
    }

    lemma SomeOther(o: Offer, d: SingleDownload, index: nat)
      requires !NoOther(o, d) && forall i: nat :: i in o.others ==> Requestable(i)
      requires d in downloads && !d.choked && |d.activeRequests| < backlog
      ensures !AllBusy() && !OnlyWants(d, [])
    {
      var i :| 0 <= i < |d.have| && d.have[i] && i in o.others;
      IdleNotBusy(d, i);
    }

    /** What the peers before one have room for and what it has itself is no more than all together. */
    static lemma SumUpTo(s: seq<int>, m: nat)
      requires m < |s| && forall k :: 0 <= k < |s| ==> s[k] >= 0
      ensures Sum(s[..m]) + s[m] <= Sum(s)
    {
      SumPrefix(s, m);
      assert s == s[..m + 1] + s[m + 1..];
      SumAppend(s[..m + 1], s[m + 1..]);
      SumNonNegative(s[m + 1..]);
    }

    lemma NothingWanted(d: SingleDownload)
      requires storage.Exhausted()
      ensures OnlyWants(d, []) && forall i :: !Requestable(i)
    {
    }

    lemma AllBusyIs()
      ensures AllBusy() <==> Busy(Everyone(), [])
    {
    }

    lemma FullBusy(d: SingleDownload)
      requires !d.choked && |d.activeRequests| == backlog && d.interested
      ensures WorkingBut(d, []) && Busy({d}, [])
    {
    }

    lemma IdleNotBusy(d: SingleDownload, i: nat)
      requires d in downloads && !d.choked && |d.activeRequests| < backlog && Wants(d, i)
      ensures !AllBusy() && !OnlyWants(d, [])
    {
      assert !WorkingBut(d, []);
    }

    lemma ModeExhausted()
      requires Mode() && storage.endgame
      ensures storage.Exhausted()
    {
    }

    lemma NotAllBusy(e: SingleDownload, index: nat)
      requires e in downloads && !e.interested && Wants(e, index)
      ensures !AllBusy()
    {
      assert !WorkingBut(e, []);
    }

    lemma BusyWithout(ds: set<SingleDownload>, index: nat)
      requires Busy(ds, [index]) && !Requestable(index)
      ensures Busy(ds, [])
    {
      forall e | e in ds ensures WorkingBut(e, []) {
        assert WorkingBut(e, [index]);
      }
    }

    lemma CompleteHas(index: nat)
      requires index < |storage.have|
      ensures Complete() ==> storage.have[index]
    {
    }

    lemma EachBusy()
      requires AllBusy()
      ensures forall e :: e in downloads ==> WorkingBut(e, [])
    {
    }

    lemma BusyEach(ds: set<SingleDownload>)
      requires Busy(ds, [])
      ensures forall e :: e in ds ==> WorkingBut(e, [])
    {
    }

    lemma BusyWith(busy: set<SingleDownload>, d: SingleDownload, index: nat)
      requires Busy(busy, [index])
      ensures Busy(busy + if OnlyWants(d, [index]) then {d} else {}, [index])
    {
    }

    /** The choking peers that know of our interest, or have no use for the piece. */
    ghost function Calm(busy: set<SingleDownload>, index: nat): (calm: set<SingleDownload>)
      reads busy
    {
      set e | e in busy && e.choked && (e.interested || index >= |e.have| || !e.have[index])
    }

    lemma CalmTold(busy: set<SingleDownload>, index: nat)
      ensures Calm(busy, index) <= busy
      ensures NobodyUntold(index) ==> forall e :: e in busy && e in downloads && e.choked ==> e in Calm(busy, index)
      ensures forall e :: e in Calm(busy, index) ==> e.choked
    {
    }

    lemma CalmBusy(busy: set<SingleDownload>, index: nat)
      requires Busy(busy, [index])
      ensures Busy(Calm(busy, index), [])
    {
    }

    /** The block was good, or its piece is not whole yet: the others are told, and d gets more to do. */
    method Continue(d: SingleDownload, b: Block, ghost busy: set<SingleDownload>, ghost was: bool)
      requires PeersOk() && PartsOk() && ModeArrived(d, b) && d in downloads && !d.choked && |d.activeRequests| < backlog
      requires Busy(busy, []) && d !in busy && (was ==> Others(d, busy))
      modifies downloads`interested, downloads`activeRequests, downloads`sent, downloads`exampleInterest
      modifies this`owner, this`allRequests
      modifies storage`inactiveRequests, storage`numactive, storage`amountInactive, storage`endgame, storage`issued
      modifies picker`started, picker`seedstarted
      ensures PeersOk() && PartsOk() && Mode() && (was ==> AllBusy())
      ensures old(storage.endgame) || OnlyHad(d)
      ensures old(storage.endgame) ==> forall e :: e in downloads && e != d && old(b in e.activeRequests) ==> !OnRequest(e.sent, b)
    {
      hide PeersOk, PartsOk, Busy, EndPeer, EndPeerWith, OnRequest, StorageWrapper.Exhausted;
      BacklogPositive();
      if storage.endgame {
        CancelOthers(d, b);
        ExhaustedWorking(busy, []);
        ExhaustedWorking({}, []);
      } else {
        BusyFewer(busy, {}, d, []);
      }
      RequestMore(d, None, was, busy, {}, []);
      if was { BusyAgain(d, busy); }
    }

    /** Once the download is complete, connections to peers that have everything too are closed. */
    method CloseSeeds()
      requires Valid()
      modifies this`downloads
      modifies downloads`interested, downloads`activeRequests, downloads`sent, downloads`exampleInterest
      modifies this`owner, this`allRequests
      modifies storage`inactiveRequests, storage`numactive, storage`amountInactive, storage`endgame, storage`issued
      modifies picker`interests, picker`posInInterests, picker`numinterests, picker`avail, picker`started, picker`seedstarted
      ensures Valid() && (old(AllBusy()) ==> AllBusy())
      ensures forall e :: e in downloads <==> e in old(downloads) && !AllTrue(e.have)
    {
      hide Inv, AllBusy, Removed, AllTrue, NoRepeats, Mode, PartsOk, PeersOk;
      Unpack();
      ListedPeers();
      var seeds := Seeds();
      for k := 0 to |seeds|
        invariant Valid() && (old(AllBusy()) ==> AllBusy())
        invariant forall e :: e in downloads <==> e in old(downloads) && e !in seeds[..k]
      {
        var d := seeds[k];
        NextSeed(seeds, k);
        assert d in downloads && d in old(downloads);
        assert forall j :: 0 <= j < |downloads| ==> downloads[j] in old(downloads);
        Disconnected(d);
      }
      assert seeds[..|seeds|] == seeds;
    }

    static lemma NextSeed(seeds: seq<SingleDownload>, k: nat)
      requires NoRepeats(seeds) && k < |seeds|
      ensures seeds[k] in seeds && seeds[k] !in seeds[..k]
      ensures forall e :: e in seeds[..k + 1] <==> e in seeds[..k] || e == seeds[k]
    {
    }

    /** [i for i in self.downloader.downloads if i.have.numfalse == 0] */
    method Seeds() returns (ds: seq<SingleDownload>)
      requires NoRepeats(downloads)
      ensures NoRepeats(ds) && forall e :: e in ds <==> e in downloads && AllTrue(e.have)
    {
      ds := [];
      for k := 0 to |downloads|
        invariant NoRepeats(ds) && forall e :: e in ds <==> e in downloads[..k] && AllTrue(e.have)
      {
        assert downloads[k] !in downloads[..k];
        if AllTrue(downloads[k].have) {
          JoinDistinct(ds, [downloads[k]]);
          ds := ds + [downloads[k]];
        }
        assert forall e :: e in downloads[..k + 1] <==> e in downloads[..k] || e == downloads[k];
      }
      assert downloads[..|downloads|] == downloads;
    }

    /** Any message but the first counts as one that came later. */
    method Heard(d: SingleDownload)
      requires Valid() && d in downloads
      modifies d`gotAnything
      ensures Valid() && d.gotAnything
      ensures old(AllBusy()) ==> AllBusy()
      ensures !old(d.gotAnything) ==> d.choked && !d.interested && forall i :: 0 <= i < |d.have| ==> !d.have[i]
    {
      hide PartsOk, PeersOk, AllOk;
      PeerFacts(d);
      ghost var rest := SplitPeers(d);
      d.gotAnything := true;
      JoinPeers(d, rest);
      SameMode();
    }

    twostate lemma SameMode()
      requires old(Mode()) && downloads == old(downloads)
      requires unchanged(this, storage) && forall d :: d in downloads ==>
                unchanged(d`choked, d`interested, d`activeRequests, d`have)
      ensures Mode()
    {
    }

    /** co.send_have for every connection. */
    method Announce(index: nat)
      requires Valid()
      modifies downloads`sent
      ensures Valid() && (old(AllBusy()) ==> AllBusy())
      ensures forall d :: d in downloads ==> d.sent == old(d.sent) + [Have(index)]
    {
      hide Inv, PartsOk, AllOk, PeerOk;
      Unpack();
      for k := 0 to |downloads|
        invariant PeersOk()
        invariant forall j :: 0 <= j < |downloads| ==>
                    downloads[j].sent == old(downloads[j].sent) + if j < k then [Have(index)] else []
      {
        var d := downloads[k];
        ghost var rest := SplitPeers(d);
        TellHave(d, index);
        JoinPeers(d, rest);
      }
      SameMode();
      Pack();
    }

    method TellHave(d: SingleDownload, index: nat)
      requires PeerOk(d)
      modifies d`sent
      ensures PeerOk(d) && d.sent == old(d.sent) + [Have(index)]
    {
      d.SendHave(index);
    }

    /** The unchoked peers, shuffled. */
    method AnyOrder() returns (order: seq<SingleDownload>)
      requires Valid()
      ensures IsOrder(order)
    {
      hide PartsOk, Mode;
      order := Unchoked();
      order := Shuffle(order);
    }

    /** A block has come in from peer d. If d was asked for it, it is stored, and the answer says whether
        its piece is now complete. If the piece is bad, it is offered to the unchoked peers in the given
        order. Peers stay as busy as they were; but after a failed check outside endgame they do exactly
        if Recovers held before, and the sender ends up told that we are not interested, in spite of what
        it has, exactly if it was bypassed and had nothing else to do. */
    method GotPiece(d: SingleDownload, index: nat, begin: nat, data: seq<byte>, order: seq<SingleDownload>) returns (whole: bool)
      requires Valid() && d in downloads && IsOrder(order)
      modifies this`downloads, downloads`interested, downloads`activeRequests, downloads`sent, downloads`exampleInterest
      modifies this`owner, this`allRequests, storage, storage.storage
      modifies picker`interests, picker`posInInterests, picker`numinterests, picker`avail, picker`started
      modifies picker`seedstarted, picker`numgot
      ensures Valid()
      ensures Block(index, begin, |data|) !in old(d.activeRequests) ==>
                !whole && unchanged(this, storage, storage.storage, picker) && forall e :: e in downloads ==> unchanged(e)
      ensures Block(index, begin, |data|) in old(d.activeRequests) ==>
                && Wrote(old(Disk()), old(storage.places), Block(index, begin, |data|), data,
                         old(LastBlock(Block(index, begin, |data|))))
                && index < |storage.have| && (whole <==> storage.have[index])
                && storage.have == old(storage.have)[index := whole]
      ensures if whole && Complete() then forall e :: e in downloads <==> e in old(downloads) && !AllTrue(e.have)
              else downloads == old(downloads)
      ensures old(AllBusy()) && storage.flunkedBytes == old(storage.flunkedBytes) ==> AllBusy()
      ensures old(AllBusy()) && old(storage.endgame) ==> AllBusy()
      ensures Block(index, begin, |data|) in old(d.activeRequests) ==>
                (whole || storage.flunkedBytes != old(storage.flunkedBytes) <==> old(LastBlock(Block(index, begin, |data|))))
      ensures Block(index, begin, |data|) in old(d.activeRequests) && !old(LastBlock(Block(index, begin, |data|))) ==>
                TakenIn(Block(index, begin, |data|), data) && (old(storage.endgame) || OnlyHad(d))
      ensures storage.flunkedBytes != old(storage.flunkedBytes) && !old(storage.endgame) ==> Bumped(index)
      ensures storage.flunkedBytes != old(storage.flunkedBytes) && !old(storage.endgame) ==>
                && (old(AllBusy()) ==> (AllBusy() <==> old(Recovers(order, d, index))))
                && (!d.interested && !OnlyWants(d, []) <==> old(Bypassed(order, d, index) && |d.activeRequests| == 1))
                && (old(AllBusy()) ==> (!d.interested && !OnlyWants(d, []) <==> backlog == 1 && old(Bypassed(order, d, index))))
      ensures old(AllBusy()) ==> forall e :: e in downloads && e != d && !e.choked ==> WorkingBut(e, [])
    {
      hide Inv, AllBusy, Wrote, AllTrue, NobodyUntold, Disk, Complete, WorkingBut, Requestable;
      hide IsOrder, Recovers, Bypassed, OnlyWants, LastBlock;
      var b := Block(index, begin, |data|);
      if b !in d.activeRequests {
        if AllBusy() { EachBusy(); }
        return false;
      }
      whole := GotAsked(d, b, data, order);
    }

    /** The same, for a block that d was asked for. */
    method GotAsked(d: SingleDownload, b: Block, data: seq<byte>, order: seq<SingleDownload>) returns (whole: bool)
      requires Valid() && d in downloads && b in d.activeRequests && |data| == b.length && IsOrder(order)
      modifies this`downloads, downloads`interested, downloads`activeRequests, downloads`sent, downloads`exampleInterest
      modifies this`owner, this`allRequests, storage, storage.storage
      modifies picker`interests, picker`posInInterests, picker`numinterests, picker`avail, picker`started
      modifies picker`seedstarted, picker`numgot
      ensures Valid() && Wrote(old(Disk()), old(storage.places), b, data, old(LastBlock(b)))
      ensures b.index < |storage.have| && (whole <==> storage.have[b.index])
      ensures storage.have == old(storage.have)[b.index := whole]
      ensures if whole && Complete() then forall e :: e in downloads <==> e in old(downloads) && !AllTrue(e.have)
              else downloads == old(downloads)
      ensures old(AllBusy()) && storage.flunkedBytes == old(storage.flunkedBytes) ==> AllBusy()
      ensures old(AllBusy()) && old(storage.endgame) ==> AllBusy()
      ensures whole || storage.flunkedBytes != old(storage.flunkedBytes) <==> old(LastBlock(b))
      ensures !old(LastBlock(b)) ==> TakenIn(b, data)
      ensures !old(LastBlock(b)) && !old(storage.endgame) ==> OnlyHad(d)
      ensures storage.flunkedBytes != old(storage.flunkedBytes) && !old(storage.endgame) ==> Bumped(b.index)
      ensures storage.flunkedBytes != old(storage.flunkedBytes) && !old(storage.endgame) ==>
                && (old(AllBusy()) ==> (AllBusy() <==> old(Recovers(order, d, b.index))))
                && (!d.interested && !OnlyWants(d, []) <==> old(Bypassed(order, d, b.index) && |d.activeRequests| == 1))
                && (old(AllBusy()) ==> (!d.interested && !OnlyWants(d, []) <==> backlog == 1 && old(Bypassed(order, d, b.index))))
      ensures old(AllBusy()) ==> forall e :: e in downloads && e != d && !e.choked ==> WorkingBut(e, [])
    {
      hide Inv, PeersOk, PartsOk, Mode, Busy, Wrote, AllTrue, ModeArrived, NobodyUntold, Others, Failed, OnlyWants, Disk;
      hide AllBusy, Complete, WorkingBut, Requestable, IsOrder, Recovers, Bypassed, OpenCount, Requests, Sum, Spares, Roomier;
      hide LastBlock;
      Unpack();
      ghost var was := AllBusy();
      ghost var m := Turn(order, d);
      RecoversIs(order, m, b.index);
      ghost var spares := Spares(order, b.index);
      ghost var only, told := OnlyWants(d, []), NobodyUntold(b.index);
      BypassedFull(order, m, b.index);
      var ok;
      ghost var busy;
      ok, busy := ComesIn(order, m, d, b, data, spares);
      if ok {
        whole := Good(d, b, busy, was);
      } else {
        Flunk(order, m, b, busy, was, spares, only, told);
        whole := false;
      }
    }

    /** The block is no longer asked of d, and is stored. */
    method ComesIn(order: seq<SingleDownload>, ghost m: nat, d: SingleDownload, b: Block, data: seq<byte>, ghost spares: seq<int>)
      returns (ok: bool, ghost busy: set<SingleDownload>)
      requires PeersOk() && PartsOk() && Mode() && IsOrder(order) && m < |order| && order[m] == d && d in downloads
      requires b in d.activeRequests && |data| == b.length && spares == Spares(order, b.index)
      modifies d`activeRequests, this`owner, this`allRequests, storage, storage.storage
      modifies picker`interests, picker`posInInterests, picker`numinterests, picker`started
      modifies picker`seedstarted, picker`numgot
      ensures PeersOk() && PartsOk() && IsOrder(order) && |d.activeRequests| == |old(d.activeRequests)| - 1 < backlog && !d.choked
      ensures d !in busy && (old(AllBusy()) ==> Others(d, busy)) && storage.endgame == old(storage.endgame)
      ensures if ok then ModeArrived(d, b) && Busy(busy, []) else Failed(b, busy)
      ensures b.index < |storage.have| && storage.have == old(storage.have)[b.index := storage.have[b.index]]
      ensures b.index < |d.have| && d.have[b.index] && (!ok ==> !storage.have[b.index])
      ensures storage.have[b.index] || !ok <==> old(LastBlock(b))
      ensures !old(LastBlock(b)) ==> TakenIn(b, data)
      ensures Wrote(old(Disk()), old(storage.places), b, data, old(LastBlock(b))) && (ok <==> storage.flunkedBytes == old(storage.flunkedBytes))
      ensures ok ==> forall i :: Requestable(i) <==> old(Requestable(i))
      ensures !ok ==>
                && unchanged(picker) && Roomier(order, m, b.index, spares) && OpenCount(b.index) == Requests(b.index)
                && OnlyWants(d, [b.index]) == old(OnlyWants(d, [])) && NobodyUntold(b.index) == old(NobodyUntold(b.index))
                && (old(AllBusy()) ==> old(OnlyWants(d, [])) || |d.activeRequests| + 1 == backlog)
    {
      hide PeersOk, PartsOk, Mode, Busy, Wrote, Owned, Reopened, Reissuing, AskedOrWas, ModeArrived, NobodyUntold, Others;
      hide Failed, OnlyWants, Disk, AllBusy, Requestable, IsOrder, OpenCount, Requests, Sum, Spares, Roomier, Outstanding;
      hide ModeAwaiting, LastBlock;
      Asking(d, b);
      busy := ReleaseIn(order, m, d, b, spares);
      ok := Arrive(d, b, data, busy);
      Fails(b, busy);
    }

    /** The same as Bad, in terms of how things were before the block came in. */
    method Flunk(order: seq<SingleDownload>, ghost m: nat, b: Block, ghost busy: set<SingleDownload>, ghost was: bool,
                 ghost spares: seq<int>, ghost only: bool, ghost told: bool)
      requires PeersOk() && PartsOk() && IsOrder(order) && m < |order| == |spares| && order[m] !in busy
      requires b.index < |storage.have| && !storage.have[b.index] && Failed(b, busy)
      requires b.index < |order[m].have| && order[m].have[b.index] && |order[m].activeRequests| < backlog
      requires Roomier(order, m, b.index, spares) && OpenCount(b.index) == Requests(b.index)
      requires OnlyWants(order[m], [b.index]) == only && NobodyUntold(b.index) == told
      requires was ==> Others(order[m], busy) && (only || |order[m].activeRequests| + 1 == backlog)
      modifies downloads`interested, downloads`activeRequests, downloads`sent, downloads`exampleInterest
      modifies this`owner, this`allRequests
      modifies storage`inactiveRequests, storage`numactive, storage`amountInactive, storage`endgame, storage`issued
      modifies picker`interests, picker`posInInterests, picker`started, picker`seedstarted
      ensures Valid() && (old(storage.endgame) ==> AllBusy()) && (old(storage.endgame) || Bumped(b.index))
      ensures was ==> forall e :: e in downloads && e != order[m] && !e.choked ==> WorkingBut(e, [])
      ensures was && !old(storage.endgame) ==>
                (AllBusy() <==>
                   (Sum(spares) + 1 >= Requests(b.index) || told) && (Sum(spares[..m]) < Requests(b.index) || only))
      ensures !old(storage.endgame) ==>
                (!order[m].interested && !OnlyWants(order[m], []) <==>
                   Sum(spares[..m]) >= Requests(b.index) && !only && old(order[m].activeRequests == []))
    {
      hide Inv, PeersOk, PartsOk, Mode, Busy, AllBusy, Failed, NobodyUntold, WorkingBut, StaysBusy, LeftOut, OnlyWants, IsOrder;
      hide Others, Sum, Spares, SpareOf, OpenCount, Requests;
      SparesMore(order, m, b.index, spares);
      StaysBusyIs(order, m, b.index, spares, only, told);
      Bad(order, m, b, busy, was);
    }

    /** When it is the peer's turn. */
    lemma Turn(order: seq<SingleDownload>, d: SingleDownload) returns (m: nat)
      requires PeersOk() && IsOrder(order) && d in downloads && d.activeRequests != []
      ensures m < |order| && order[m] == d
    {
      PeerFacts(d);
      assert d in order;
      m :| 0 <= m < |order| && order[m] == d;
    }

    /** A busy peer that has other pieces to give has a full backlog. */
    lemma BypassedFull(order: seq<SingleDownload>, m: nat, index: nat)
      requires IsOrder(order) && m < |order|
      ensures AllBusy() && Bypassed(order, order[m], index) ==> |order[m].activeRequests| >= backlog
    {
      hide AllBusy, Spare, Ahead;
      if AllBusy() {
        EachBusy();
        assert order[m] in downloads && WorkingBut(order[m], []);
      }
    }

    lemma Asking(d: SingleDownload, b: Block)
      requires PeersOk() && d in downloads && b in d.activeRequests
      ensures b.index < |d.have| && d.have[b.index] && 0 < |d.activeRequests| <= backlog
    {
    }

    /** The peers before d. */
    ghost function Ahead(order: seq<SingleDownload>, d: SingleDownload): (r: seq<SingleDownload>)
      ensures forall k :: 0 <= k < |r| ==> r[k] in order
    {
      if order == [] || order[0] == d then [] else [order[0]] + Ahead(order[1..], d)
    }

    lemma {:induction false} AheadIs(order: seq<SingleDownload>, m: nat)
      requires NoRepeats(order) && m < |order|
      ensures Ahead(order, order[m]) == order[..m]
    {
      if m > 0 {
        AheadIs(order[1..], m - 1);
        assert order[1..][..m - 1] == order[1..m];
      }
    }

    /** Whether everybody stays busy when the piece turns out to be bad, d having brought its last block:
        the unchoked peers, d with one block fewer, have room for all of it, or no choking peer has it
        that does not know of our interest; and d is not bypassed. */
    ghost predicate Recovers(order: seq<SingleDownload>, d: SingleDownload, index: nat)
      reads this`downloads, downloads`choked, downloads`interested, downloads`have
      reads order`have, order`activeRequests, d`have, storage`inactiveRequests
    {
      (Spare(order, index) + 1 >= Requests(index) || NobodyUntold(index)) && !Bypassed(order, d, index)
    }

    /** The peers before d have room for the whole piece, and d has others that can be handed out. */
    ghost predicate Bypassed(order: seq<SingleDownload>, d: SingleDownload, index: nat)
      reads order`have, order`activeRequests, d`have, storage`inactiveRequests
    {
      Spare(Ahead(order, d), index) >= Requests(index) && !OnlyWants(d, [])
    }

    lemma RecoversIs(order: seq<SingleDownload>, m: nat, index: nat)
      requires IsOrder(order) && m < |order|
      ensures Bypassed(order, order[m], index) <==>
                Sum(Spares(order, index)[..m]) >= Requests(index) && !OnlyWants(order[m], [])
      ensures Recovers(order, order[m], index) <==>
                && (Sum(Spares(order, index)) + 1 >= Requests(index) || NobodyUntold(index))
                && !Bypassed(order, order[m], index)
    {
      AheadIs(order, m);
      SparesPrefix(order, m, index);
    }

    /** The peer at position m has room for one block more than it had. */
    ghost predicate Roomier(order: seq<SingleDownload>, m: nat, index: nat, spares: seq<int>)
      requires m < |order| == |spares|
      reads order`have, order`activeRequests
    {
      forall j :: 0 <= j < |order| ==> SpareOf(order[j], index) == spares[j] + if j == m then 1 else 0
    }

    /** Release, and the room it makes. */
    method ReleaseIn(order: seq<SingleDownload>, ghost m: nat, d: SingleDownload, b: Block, ghost spares: seq<int>)
      returns (ghost busy: set<SingleDownload>)
      requires PeersOk() && Mode() && IsOrder(order) && m < |order| && order[m] == d && d in downloads && b in d.activeRequests
      requires spares == Spares(order, b.index)
      modifies d`activeRequests, this`allRequests, this`owner
      ensures PeersOk() && ModeAwaiting(d, b) && Outstanding(b) && |d.activeRequests| < backlog && !d.choked
      ensures |d.activeRequests| == |old(d.activeRequests)| - 1 && Roomier(order, m, b.index, spares)
      ensures Busy(busy, []) && d !in busy && (old(AllBusy()) ==> Others(d, busy))
      ensures old(AllBusy() && |d.activeRequests| < backlog) ==> OnlyWants(d, [])
      ensures b.index < |d.have| && d.have[b.index] && IsOrder(order)
    {
      hide PeersOk, Mode, ModeAwaiting, Busy, AllBusy, Others, OnlyWants, Outstanding;
      Asking(d, b);
      AllDifferent(order, m);
      busy := Release(d, b);
    }

    lemma SparesMore(order: seq<SingleDownload>, m: nat, index: nat, spares: seq<int>)
      requires m < |order| == |spares| && Roomier(order, m, index, spares)
      ensures Spares(order, index) == spares[m := spares[m] + 1]
    {
    }

    lemma StaysBusyIs(order: seq<SingleDownload>, m: nat, index: nat, spares: seq<int>, only: bool, told: bool)
      requires m < |order| == |spares| && Spares(order, index) == spares[m := spares[m] + 1]
      requires OpenCount(index) == Requests(index) && OnlyWants(order[m], [index]) == only && NobodyUntold(index) == told
      ensures StaysBusy(order, m, index) <==>
                (Sum(spares) + 1 >= Requests(index) || told) && (Sum(spares[..m]) < Requests(index) || only)
      ensures LeftOut(order, m, index) <==> Sum(spares[..m]) >= Requests(index) && !only
    {
      SparesPrefix(order, m, index);
      SumUpdate(spares, m, spares[m] + 1);
      assert spares[m := spares[m] + 1][..m] == spares[..m];
    }

    /** The mode, when the piece of block b has failed its check. */
    ghost predicate Failed(b: Block, busy: set<SingleDownload>)
      reads picker`started
      reads this`allRequests, this`downloads, this`owner, downloads, busy, storage`issued, storage`inactiveRequests, storage`endgame
    {
      if storage.endgame then b.index in picker.started && Reopened(b) && Reissuing(b.index) && AskedOrWas(b)
      else Owned() && AllCandid() && Busy(busy, [b.index])
    }

    lemma Fails(b: Block, busy: set<SingleDownload>)
      ensures storage.endgame && b.index in picker.started && Reopened(b) && Reissuing(b.index) && AskedOrWas(b) ==> Failed(b, busy)
      ensures !storage.endgame && Owned() && AllCandid() && Busy(busy, [b.index]) ==> Failed(b, busy)
    {
    }

    method Bad(order: seq<SingleDownload>, ghost m: nat, b: Block, ghost busy: set<SingleDownload>, ghost was: bool)
      requires PeersOk() && PartsOk() && IsOrder(order) && m < |order| && order[m] !in busy
      requires b.index < |storage.have| && !storage.have[b.index] && Failed(b, busy)
      requires b.index < |order[m].have| && order[m].have[b.index] && |order[m].activeRequests| < backlog
      requires was ==> Others(order[m], busy)
      requires was && !storage.endgame ==> OnlyWants(order[m], [b.index]) || |order[m].activeRequests| + 1 == backlog
      modifies downloads`interested, downloads`activeRequests, downloads`sent, downloads`exampleInterest
      modifies this`owner, this`allRequests
      modifies storage`inactiveRequests, storage`numactive, storage`amountInactive, storage`endgame, storage`issued
      modifies picker`interests, picker`posInInterests, picker`started, picker`seedstarted
      ensures Valid() && (old(storage.endgame) ==> AllBusy()) && (old(storage.endgame) || Bumped(b.index))
      ensures was ==> forall e :: e in downloads && e != order[m] && !e.choked ==> WorkingBut(e, [])
      ensures was && !old(storage.endgame) ==> (AllBusy() <==> old(StaysBusy(order, m, b.index)))
      ensures !old(storage.endgame) ==>
                (!order[m].interested && !OnlyWants(order[m], []) <==>
                   old(LeftOut(order, m, b.index) && order[m].activeRequests == []))
    {
      hide Inv, PeersOk, PartsOk, Mode, Busy, Owned, Reopened, Reissuing, AskedOrWas, NobodyUntold, WorkingBut;
      hide StaysBusy, LeftOut, OnlyWants, IsOrder;
      Sized();
      OrderIn(order, m);
      if storage.endgame {
        RetryInEndgame(b);
        EachBusy();
      } else {
        Retry(order, m, b.index, busy, was);
      }
      Pack();
    }

    lemma OrderIn(order: seq<SingleDownload>, m: nat)
      requires IsOrder(order) && m < |order|
      ensures order[m] in downloads && !order[m].choked
    {
    }

    method Good(d: SingleDownload, b: Block, ghost busy: set<SingleDownload>, ghost was: bool) returns (whole: bool)
      requires PeersOk() && PartsOk() && ModeArrived(d, b) && d in downloads && !d.choked && |d.activeRequests| < backlog
      requires Busy(busy, []) && d !in busy && (was ==> Others(d, busy))
      requires b.index < |storage.have|
      modifies this`downloads, downloads`interested, downloads`activeRequests, downloads`sent, downloads`exampleInterest
      modifies this`owner, this`allRequests
      modifies storage`inactiveRequests, storage`numactive, storage`amountInactive, storage`endgame, storage`issued
      modifies picker`interests, picker`posInInterests, picker`numinterests, picker`avail, picker`started, picker`seedstarted
      ensures Valid() && (was ==> AllBusy() && forall e :: e in downloads ==> WorkingBut(e, []))
      ensures whole == storage.have[b.index] && (Complete() ==> whole)
      ensures old(storage.endgame) || whole || OnlyHad(d)
      ensures if Complete() then forall e :: e in downloads <==> e in old(downloads) && !AllTrue(e.have)
              else downloads == old(downloads)
    {
      hide Inv, PeersOk, PartsOk, Mode, Busy, Linked, AllTrue, ModeArrived, WorkingBut, Counted, Complete;
      Continue(d, b, busy, was);
      LinkedParts();
      Pack();
      var done := IsComplete();
      if done {
        CloseSeeds();
      }
      whole := storage.have[b.index];
      CompleteHas(b.index);
      if was { EachBusy(); }
    }

    // ---- what holds between events ----

    ghost predicate Asked(d: SingleDownload, b: Block)
      reads this`downloads, d`activeRequests
    {
      d in downloads && b in d.activeRequests
    }

    /** Outside endgame, the blocks asked of peers are exactly those the storage has handed out and
        not got back or received, each asked of one peer, and numactive counts them. */
    lemma OutsideEndgame()
      requires Valid() && !storage.endgame
      ensures forall b :: Outstanding(b) <==> exists d :: d in downloads && Asked(d, b)
      ensures forall d, e, b :: d in downloads && e in downloads && Asked(d, b) && Asked(e, b) ==> d == e
      ensures |storage.issued| == |storage.numactive| == storage.g.count
      ensures forall i :: 0 <= i < storage.g.count ==> storage.numactive[i] == |storage.issued[i]|
      ensures forall d :: d in downloads ==> NoRepeats(d.activeRequests) && |d.activeRequests| <= backlog
    {
      hide PartsOk;
      forall b | Outstanding(b) ensures exists d :: d in downloads && Asked(d, b) {
        assert owner[b] in downloads && Asked(owner[b], b);
      }
      forall d, e, b | d in downloads && e in downloads && Asked(d, b) && Asked(e, b) ensures d == e {
        assert owner[b] == d && owner[b] == e;
      }
      assert forall d :: d in downloads ==> PeerOk(d);
      NumactiveCounts();
    }

    /** Outside endgame a peer that is told of our interest is asked for something, or has something that
        can be handed out; and as long as everybody is busy, those are exactly the peers that are told. */
    lemma InterestMeans()
      requires Valid() && !storage.endgame
      ensures forall d :: d in downloads && d.interested ==> d.activeRequests != [] || !OnlyWants(d, [])
      ensures AllBusy() ==> forall d :: d in downloads ==> (d.interested <==> d.activeRequests != [] || !OnlyWants(d, []))
    {
      hide PartsOk, OnlyWants;
      assert forall d :: d in downloads ==> Candid(d) && PeerOk(d);
      if AllBusy() { EachBusy(); }
    }

    /** A piece that has been cut into requests comes before any that has not: if the peer has such a piece of
        which blocks can be handed out (for a complete peer, one listed as started by complete peers), what is
        picked is listed as started too, and no less rare. */
    lemma StartedFirst(d: SingleDownload, p: nat, q: nat)
      requires Valid() && Pick(d, None, p) && Wants(d, q) && Cut(q) && (AllTrue(d.have) ==> q in picker.seedstarted)
      ensures p in picker.Pool(AllTrue(d.have)) && picker.Rarer(p, q)
    {
      hide Linked, Counted;
      assert q in picker.started;
    }

    lemma NumactiveCounts()
      requires PartsOk()
      ensures |storage.issued| == |storage.numactive| == storage.g.count
      ensures forall i :: 0 <= i < storage.g.count ==> storage.numactive[i] == |storage.issued[i]|
    {
      hide StorageWrapper.Inv;
      storage.Facts();
      forall i | 0 <= i < storage.g.count ensures storage.numactive[i] == |storage.issued[i]| {
        storage.ActiveCounts(i);
      }
    }

    /** In endgame nothing is left to hand out, all_requests lists the outstanding blocks, and a
        peer is asked only for those, for all of them that it has as far as its backlog goes. */
    lemma InEndgame()
      requires Valid() && storage.endgame
      ensures forall i :: !Requestable(i)
      ensures NoRepeats(allRequests) && forall b :: b in allRequests <==> Outstanding(b)
      ensures forall d :: d in downloads ==> NoRepeats(d.activeRequests) && |d.activeRequests| <= backlog
      ensures forall d, b :: d in downloads && Asked(d, b) ==> b in allRequests
      ensures forall d, b :: d in downloads && !d.choked && b in allRequests && Has(d, b) ==>
                Asked(d, b) || |d.activeRequests| == backlog
    {
      hide PartsOk;
      forall d | d in downloads
        ensures NoRepeats(d.activeRequests) && |d.activeRequests| <= backlog
        ensures forall b :: Asked(d, b) ==> b in allRequests
        ensures forall b :: !d.choked && b in allRequests && Has(d, b) ==> Asked(d, b) || |d.activeRequests| == backlog
      {
        assert PeerOk(d) && EndPeer(d);
      }
    }

    lemma StorageValid()
      requires PartsOk()
      ensures storage.Valid()
    {
    }

    /** The bucket of every piece still wanted is the number of connected peers that have it. */
    lemma BucketIsCount(i: nat)
      requires Valid() && i < storage.g.count
      ensures i < |picker.numinterests| && i < |storage.have|
      ensures picker.numinterests[i] == if storage.have[i] then None else Some(|Holders(downloads, i)|)
      ensures i < |picker.avail| && picker.avail[i] == |Holders(downloads, i)|
    {
      hide StorageWrapper.Inv;
      LinkedParts();
      SizesAgree();
      CountHolders(downloads, i);
    }

    lemma HolderCounts(d: SingleDownload, p: nat)
      requires d in downloads && p < |d.have| && d.have[p]
      ensures |Holders(downloads, p)| > 0
    {
      assert d in Holders(downloads, p);
    }

    /** What is picked for a peer is no less rare, in connected peers that have it, than any other piece that
        could have been: among the started ones if the peer wants one of those, and otherwise, from the cutoff
        on, among all. */
    lemma RarestFirst(d: SingleDownload, p: nat, q: nat)
      requires Valid() && d in downloads && Pick(d, None, p) && Wants(d, q)
      requires if exists s :: s in picker.Pool(AllTrue(d.have)) && Wants(d, s) then q in picker.Pool(AllTrue(d.have))
               else picker.numgot >= picker.rarestFirstCutoff
      ensures |Holders(downloads, p)| <= |Holders(downloads, q)|
    {
      HolderCounts(d, q);
      WantedKnown(p);
      WantedKnown(q);
      hide PartsOk, Holders;
    }

    lemma WantedKnown(p: nat)
      requires Valid() && Requestable(p)
      ensures p < storage.g.count == picker.numpieces
      ensures p < |picker.numinterests| && picker.numinterests[p].Some?
      ensures p < |picker.avail| && picker.avail[p] == |Holders(downloads, p)|
      ensures |Holders(downloads, p)| > 0 ==> picker.Positive(p)
    {
      hide StorageWrapper.Inv, Holders;
      LinkedParts();
      SizesAgree();
      storage.Facts();
      BucketIsCount(p);
    }
  }
}
