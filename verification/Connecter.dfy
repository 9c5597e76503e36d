/** What a message from a peer means, and what it does to the downloading side. */
module Connecter {
  import opened Basics
  import opened Bitfield
  import opened D = Downloader

  const CHOKE := 0
  const UNCHOKE := 1
  const INTERESTED := 2
  const NOT_INTERESTED := 3
  const HAVE := 4
  const BITFIELD := 5
  const REQUEST := 6
  const PIECE := 7
  const CANCEL := 8

  /** What a peer can say. */
  datatype Wire = Choke | Unchoke | Interested | NotInterested | Have(index: nat) | Bits(flags: seq<bool>)
                | Request(index: nat, begin: nat, length: nat) | Piece(index: nat, begin: nat, data: Bytes)
                | Cancel(index: nat, begin: nat, length: nat)

  // ---- how it is said ----

  /** Its numbers fit into four bytes. */
  predicate Fits(w: Wire) {
    match w
    case Have(i) => i < 0x1_0000_0000
    case Request(i, b, l) => i < 0x1_0000_0000 && b < 0x1_0000_0000 && l < 0x1_0000_0000
    case Piece(i, b, _) => i < 0x1_0000_0000 && b < 0x1_0000_0000
    case Cancel(i, b, l) => i < 0x1_0000_0000 && b < 0x1_0000_0000 && l < 0x1_0000_0000
    case _ => true
  }

  /** It has to do with pieces that there are, no block is empty, and a bitfield comes before everything else. */
  predicate Proper(w: Wire, gotAnything: bool, numpieces: nat) {
    && Fits(w) && (w.Have? || w.Request? || w.Piece? || w.Cancel? ==> w.index < numpieces)
    && (w.Bits? ==> !gotAnything && |w.flags| == numpieces) && (w.Piece? ==> w.data != [])
  }

  /** What the other side sends to say it. */
  function Sent(w: Wire): (m: Bytes)
    requires Fits(w)
    ensures m != []
  {
    match w
    case Choke => [0]
    case Unchoke => [1]
    case Interested => [2]
    case NotInterested => [3]
    case Have(i) => [4] + ToBinary(i)
    case Bits(flags) => [5] + ToString(flags)
    case Request(i, b, l) => [6] + ToBinary(i) + ToBinary(b) + ToBinary(l)
    case Piece(i, b, data) => [7] + ToBinary(i) + ToBinary(b) + data
    case Cancel(i, b, l) => [8] + ToBinary(i) + ToBinary(b) + ToBinary(l)
  }

  /** How a message is read; None for a wrong length, a piece number out of range, a bitfield that is not
      the first message, and an unknown kind. */
  function Parse(message: Bytes, gotAnything: bool, numpieces: nat): Option<Wire>
    requires message != []
  {
    var t := message[0];
    if t < HAVE then
      if |message| != 1 then None
      else Some(if t == CHOKE then Choke else if t == UNCHOKE then Unchoke
                else if t == INTERESTED then Wire.Interested else Wire.NotInterested)
    else if t == HAVE then
      if |message| != 5 || ToInt(message[1..]) >= numpieces then None else Some(Wire.Have(ToInt(message[1..])))
    else if t == BITFIELD then
      if gotAnything then None
      else match Bitfield.Bits(numpieces, message[1..]) case None => None case Some(flags) => Some(Wire.Bits(flags))
    else if t == REQUEST || t == CANCEL then
      if |message| != 13 || ToInt(message[1..5]) >= numpieces then None
      else
        var i, b, l := ToInt(message[1..5]), ToInt(message[5..9]), ToInt(message[9..]);
        Some(if t == REQUEST then Wire.Request(i, b, l) else Wire.Cancel(i, b, l))
    else if t == PIECE then
      if |message| <= 9 || ToInt(message[1..5]) >= numpieces then None
      else Some(Piece(ToInt(message[1..5]), ToInt(message[5..9]), message[9..]))
    else None
  }

  /** A message is read as what was said, and one that nobody would send is not accepted. */
  lemma Understood(message: Bytes, gotAnything: bool, numpieces: nat, w: Wire)
    requires message != []
    ensures Parse(message, gotAnything, numpieces) == Some(w) <==> Proper(w, gotAnything, numpieces) && message == Sent(w)
  {
    hide ToInt, ToBinary, Bitfield.Bits, ToString;
    if Proper(w, gotAnything, numpieces) && message == Sent(w) {
      ReadBack(message, gotAnything, numpieces, w);
    }
    if Parse(message, gotAnything, numpieces) == Some(w) {
      SaidBack(message, gotAnything, numpieces, w);
    }
  }

  lemma ReadBack(message: Bytes, gotAnything: bool, numpieces: nat, w: Wire)
    requires Proper(w, gotAnything, numpieces) && message == Sent(w)
    ensures Parse(message, gotAnything, numpieces) == Some(w)
  {
    hide ToInt, ToBinary, Bitfield.Bits, ToString;
    match w
    case Have(i) =>
      ToIntBack(i);
      assert message[1..] == ToBinary(i);
    case Bits(flags) =>
      FlagsBack(numpieces, ToString(flags), flags);
      assert message[1..] == ToString(flags);
    case Request(i, b, l) =>
      ToIntBack(i);
      ToIntBack(b);
      ToIntBack(l);
      assert message[1..5] == ToBinary(i) && message[5..9] == ToBinary(b) && message[9..] == ToBinary(l);
    case Piece(i, b, data) =>
      ToIntBack(i);
      ToIntBack(b);
      assert message[1..5] == ToBinary(i) && message[5..9] == ToBinary(b) && message[9..] == data;
    case Cancel(i, b, l) =>
      ToIntBack(i);
      ToIntBack(b);
      ToIntBack(l);
      assert message[1..5] == ToBinary(i) && message[5..9] == ToBinary(b) && message[9..] == ToBinary(l);
    case _ =>
  }

  lemma SaidBack(message: Bytes, gotAnything: bool, numpieces: nat, w: Wire)
    requires message != [] && Parse(message, gotAnything, numpieces) == Some(w)
    ensures Proper(w, gotAnything, numpieces) && message == Sent(w)
  {
    hide ToInt, ToBinary, Bitfield.Bits, ToString;
    assert message == [message[0]] + message[1..];
    if w.Have? { ToBinaryBack(message[1..]); }
    if w.Bits? { FlagsBack(numpieces, message[1..], w.flags); }
    if w.Request? || w.Piece? || w.Cancel? {
      ToBinaryBack(message[1..5]);
      ToBinaryBack(message[5..9]);
      assert message == [message[0]] + message[1..5] + message[5..9] + message[9..];
      if !w.Piece? { ToBinaryBack(message[9..]); }
    }
    assert Proper(w, gotAnything, numpieces);
  }

  // ---- what is done about it ----

  class Connecter {
    const downloader: Downloader
    const numpieces: nat

    constructor (downloader: Downloader, numpieces: nat)
      ensures this.downloader == downloader && this.numpieces == numpieces
    {
      this.downloader, this.numpieces := downloader, numpieces;
    }

    /** Python's got_message, but for what it does to the uploading side: uploadCloses says whether that
        closes the connection when it is asked for a block. A message that cannot be read closes the
        connection and does nothing else; Heeded says what any other does. */
    method GotMessage(d: SingleDownload, message: seq<byte>, uploadCloses: bool)
      requires downloader.Valid() && d in downloader.downloads && numpieces == downloader.storage.g.count && message != []
      modifies downloader, downloader.downloads, downloader.storage, downloader.storage.storage, downloader.picker
      ensures downloader.Valid()
      ensures old(Parse(message, d.gotAnything, numpieces)).None? ==> Closed(d)
      ensures old(Parse(message, d.gotAnything, numpieces)).Some? ==>
                d.gotAnything && Heeded(old(downloader.downloads), d, old(Parse(message, d.gotAnything, numpieces)).value, uploadCloses)
      ensures old(downloader.AllBusy()) && message[0] != PIECE ==> downloader.AllBusy()
    {
      hide D.Downloader.Inv, D.Downloader.Removed, D.Downloader.AllBusy, D.Downloader.Complete, AllTrue, D.Downloader.WorkingBut;
      hide D.Downloader.Wrote, D.Downloader.Disk, ToInt, Bitfield.Bits, SeedsLeave;
      var t := message[0];
      if t == BITFIELD && d.gotAnything {
        downloader.Disconnected(d);
        return;
      }
      downloader.Heard(d);
      if t < HAVE && |message| != 1 {
        downloader.Disconnected(d);
      } else if t == CHOKE {
        downloader.GotChoke(d);
      } else if t == UNCHOKE {
        downloader.GotUnchoke(d);
      } else if t == HAVE {
        if |message| != 5 || ToInt(message[1..]) >= numpieces {
          downloader.Disconnected(d);
        } else {
          downloader.GotHave(d, ToInt(message[1..]));
        }
      } else if t == BITFIELD {
        var b := Bitfield.Bits(numpieces, message[1..]);
        if b.None? {
          downloader.Disconnected(d);
        } else {
          downloader.GotHaveBitfield(d, b.value);
        }
      } else if t == REQUEST {
        if |message| != 13 || ToInt(message[1..5]) >= numpieces || uploadCloses {
          downloader.Disconnected(d);
        }
      } else if t == CANCEL {
        if |message| != 13 || ToInt(message[1..5]) >= numpieces {
          downloader.Disconnected(d);
        }
      } else if t == PIECE {
        if |message| <= 9 || ToInt(message[1..5]) >= numpieces {
          downloader.Disconnected(d);
        } else {
          var _ := GotBlock(d, ToInt(message[1..5]), ToInt(message[5..9]), message[9..]);
        }
      } else if t > CANCEL {
        downloader.Disconnected(d);
      }
    }

    /** A completed piece is announced to every peer. */
    method GotBlock(d: SingleDownload, index: nat, begin: nat, data: seq<byte>) returns (whole: bool)
      requires downloader.Valid() && d in downloader.downloads
      modifies downloader, downloader.downloads, downloader.storage, downloader.storage.storage, downloader.picker
      ensures downloader.Valid() && d.gotAnything == old(d.gotAnything)
      ensures SeedsLeave(old(downloader.downloads), whole)
      ensures Block(index, begin, |data|) !in old(d.activeRequests) ==> !whole && Untouched(d)
      ensures Block(index, begin, |data|) in old(d.activeRequests) ==>
                && downloader.Wrote(old(downloader.Disk()), old(downloader.storage.places), Block(index, begin, |data|), data,
                                    old(downloader.LastBlock(Block(index, begin, |data|))))
                && index < |downloader.storage.have| && whole == downloader.storage.have[index]
      ensures whole ==> index < |downloader.storage.have| && downloader.storage.have[index]
                        && forall e :: e in downloader.downloads ==> e.sent != [] && e.sent[|e.sent| - 1] == D.Have(index)
    {
      hide D.Downloader.Inv, D.Downloader.Complete, AllTrue, Told;
      hide D.Downloader.Wrote, D.Downloader.AllBusy, D.Downloader.WorkingBut, D.Downloader.NobodyUntold, D.Downloader.Disk;
      var order := downloader.AnyOrder();
      whole := downloader.GotPiece(d, index, begin, data, order);
      if whole {
        assert forall j :: 0 <= j < |downloader.downloads| ==> downloader.downloads[j] in old(downloader.downloads);
        downloader.Announce(index);
      }
    }

    /** Just d's connection is gone. */
    twostate predicate Closed(d: SingleDownload)
      reads downloader`downloads
    {
      downloader.Removed(old(downloader.downloads), downloader.downloads, d)
    }

    /** If a piece was completed and nothing is missing any more, just the connections of the complete
        peers are closed, otherwise none. */
    ghost predicate SeedsLeave(before: seq<SingleDownload>, whole: bool)
      reads downloader`downloads, downloader.storage`have, before
    {
      if whole && downloader.Complete() then
        (forall e :: e in downloader.downloads ==> e in before)
        && forall e :: e in before ==> (e in downloader.downloads <==> !AllTrue(e.have))
      else downloader.downloads == before
    }

    /** Nothing has changed on the downloading side, but that something has been heard of d. */
    twostate predicate Untouched(d: SingleDownload)
      reads downloader, downloader.storage, downloader.storage.storage, downloader.picker, downloader.downloads, d
    {
      && unchanged(downloader) && unchanged(downloader.storage) && unchanged(downloader.storage.storage) && unchanged(downloader.picker)
      && (forall e :: e in downloader.downloads && e in old(downloader.downloads) && e != d ==> unchanged(e))
      && unchanged(d`choked, d`interested, d`activeRequests, d`have, d`exampleInterest, d`sent)
    }

    /** What comes of it when peer d says w, before being the connections there were. A connection is closed when
        a request is refused, and those of complete peers are once there is nothing left to download. */
    twostate predicate Heeded(before: seq<SingleDownload>, d: SingleDownload, w: Wire, uploadCloses: bool)
      reads downloader, downloader.storage, downloader.storage.storage, downloader.picker, downloader.downloads, before, d
    {
      var now := downloader.downloads;
      match w
      case Choke => now == before && d.choked && d.activeRequests == [] && d.have == old(d.have)
      case Unchoke =>
        && now == before && !d.choked && d.have == old(d.have)
        && (old(d.choked && d.interested) ==> downloader.WorkingBut(d, []))
      case Have(i) =>
        && i < |old(d.have)| && d.have == old(d.have)[i := true] && d.choked == old(d.choked)
        && if old(d.have)[i] then now == before else downloader.ClosedSeed(d)
      case Bits(flags) => d.have == flags && d.choked && downloader.ClosedSeed(d)
      case Request(_, _, _) => if uploadCloses then Closed(d) else Untouched(d)
      case Piece(i, b, data) =>
        if Block(i, b, |data|) in old(d.activeRequests) then
          && downloader.Wrote(old(downloader.Disk()), old(downloader.storage.places), Block(i, b, |data|), data,
                              old(downloader.LastBlock(Block(i, b, |data|))))
          && i < |downloader.storage.have| && SeedsLeave(before, downloader.storage.have[i])
        else Untouched(d)
      case _ => Untouched(d)
    }
  }
}
