/** One connection on the wire: the handshake, the framing of messages, and the table of connections. */
module Encrypter {
  import opened Basics

  /** "BitTorrent protocol" */
  const PROTOCOL: Bytes := [66, 105, 116, 84, 111, 114, 114, 101, 110, 116, 32, 112, 114, 111, 116, 111, 99, 111, 108]

  /** What is read next. */
  datatype Reader = HeaderLen | Header | Reserved | DownloadId | PeerId | Len | Message | Dead

  /** What the connecter is told about a connection. */
  datatype Call = Made | Got(message: Bytes) | Lost

  /** What the connecter does about it: it may close the connection, and it may raise an exception. */
  datatype Verdict = Verdict(closes: bool, raises: bool)

  /** What a connection depends on: our ids, the ids of the other connections, and the connecter's
      reaction to what it has been told so far. */
  datatype Env = Env(myId: Bytes, downloadId: Bytes, maxLen: nat, others: set<Bytes>, react: seq<Call> -> Verdict)

  datatype Conn = Conn(local: bool, id: Option<Bytes>, reader: Reader, nextLen: nat, buffer: Bytes,
                       complete: bool, closed: bool, written: seq<Bytes>, calls: seq<Call>)

  // ---- the readers ----

  function HandshakeStart(downloadId: Bytes): Bytes {
    [19] + PROTOCOL + [0, 0, 0, 0, 0, 0, 0, 0] + downloadId
  }

  function Close(c: Conn): Conn {
    if c.closed then c else c.(closed := true, calls := if c.complete then c.calls + [Lost] else c.calls)
  }

  /** Known ids are not empty. */
  predicate Known(id: Option<Bytes>) {
    id.Some? && id.value != []
  }

  /** The answer of a reader: what to read next, or nothing, or an exception. */
  datatype Outcome = Next(c: Conn, length: nat, reader: Reader) | Refused(c: Conn) | Raised(c: Conn)

  /** Tells the connecter, which reacts at once. */
  function Notified(env: Env, c: Conn, call: Call): (Conn, bool) {
    var told := c.(calls := c.calls + [call]);
    var v := env.react(told.calls);
    (if v.closes then Close(told) else told, v.raises)
  }

  function NotifiedThenLen(env: Env, c: Conn, call: Call): Outcome {
    var (d, raised) := Notified(env, c, call);
    if raised then Raised(d) else Next(d, 4, Len)
  }

  function Read(env: Env, c: Conn, m: Bytes): Outcome {
    match c.reader
    case HeaderLen => if m != [19] then Refused(c) else Next(c, 19, Header)
    case Header => if m != PROTOCOL then Refused(c) else Next(c, 8, Reserved)
    case Reserved => Next(c, 20, DownloadId)
    case DownloadId =>
      if m != env.downloadId then Refused(c)
      else if c.local then Next(c, 20, PeerId)
      else Next(c.(written := c.written + [HandshakeStart(env.downloadId) + env.myId]), 20, PeerId)
    case PeerId =>
      if Known(c.id) then
        if m != c.id.value then Refused(c) else NotifiedThenLen(env, c.(complete := true), Made)
      else if m == env.myId || m in env.others then Refused(c)
      else
        var d := if c.local then c.(id := Some(m), written := c.written + [env.myId]) else c.(id := Some(m));
        NotifiedThenLen(env, d.(complete := true), Made)
    case Len => if ToInt(m) > env.maxLen then Refused(c) else Next(c, ToInt(m), Message)
    case Message => if m == [] then Next(c, 4, Len) else NotifiedThenLen(env, c, Got(m))
    case Dead => Refused(c)
  }

  function Step(env: Env, c: Conn, m: Bytes): Conn {
    match Read(env, c, m)
    case Next(d, n, r) => d.(nextLen := n, reader := r)
    case Refused(d) => Close(d)
    case Raised(d) => d.(nextLen := 1, reader := Dead)
  }

  // ---- a stream of bytes ----

  /** How much each reader wants; only a message may be empty. */
  predicate Wants(reader: Reader, n: nat) {
    match reader
    case HeaderLen => n == 1
    case Header => n == 19
    case Reserved => n == 8
    case DownloadId => n == 20
    case PeerId => n == 20
    case Len => n == 4
    case Message => true
    case Dead => n == 1
  }

  predicate Early(reader: Reader) {
    reader in {HeaderLen, Header, Reserved, DownloadId, PeerId}
  }

  predicate Fed(c: Conn) {
    && Wants(c.reader, c.nextLen) && (|c.buffer| < c.nextLen || c.nextLen == |c.buffer| == 0)
    && (Early(c.reader) ==> !c.complete) && (c.reader in {Len, Message} ==> c.complete)
  }

  /** Whether the next reader has nothing to wait for. */
  function Eager(c: Conn): nat {
    if c.nextLen == 0 then 1 else 0
  }

  lemma StepFed(env: Env, c: Conn, m: Bytes)
    requires Fed(c) && c.buffer == [] && |m| == c.nextLen
    ensures Fed(Step(env, c, m)) && Step(env, c, m).buffer == [] && (c.nextLen == 0 ==> Step(env, c, m).nextLen > 0)
    ensures c.reader == Dead ==> Step(env, c, m) == Close(c)
  {
  }

  /** Bytes coming in: each reader gets as many as it asked for, until they run out, the connection
      is closed, or a reader raises an exception, in which case the rest of the bytes is dropped. */
  function Feed(env: Env, c: Conn, s: Bytes): Conn
    requires Fed(c)
    decreases |s|, Eager(c)
  {
    if c.closed then c
    else
      var i := c.nextLen - |c.buffer|;
      if i > |s| then c.(buffer := c.buffer + s)
      else
        var d := Step(env, c.(buffer := []), c.buffer + s[..i]);
        StepFed(env, c.(buffer := []), c.buffer + s[..i]);
        if d.closed || d.reader == Dead then d else Feed(env, d, s[i..])
  }

  lemma {:induction false} FeedFed(env: Env, c: Conn, s: Bytes)
    requires Fed(c)
    ensures Fed(Feed(env, c, s)) && (Feed(env, c, s).closed || |Feed(env, c, s).buffer| < Feed(env, c, s).nextLen)
    decreases |s|, Eager(c)
  {
    hide Step;
    if !c.closed {
      var i := c.nextLen - |c.buffer|;
      if i <= |s| {
        StepFed(env, c.(buffer := []), c.buffer + s[..i]);
        var d := Step(env, c.(buffer := []), c.buffer + s[..i]);
        if !d.closed && d.reader != Dead { FeedFed(env, d, s[i..]); }
      }
    }
  }

  lemma FeedNext(env: Env, c: Conn, s: Bytes)
    requires Fed(c) && !c.closed
    ensures var i := c.nextLen - |c.buffer|;
            && i >= 0 && Fed(c.(buffer := []))
            && if i > |s| then Feed(env, c, s) == c.(buffer := c.buffer + s)
               else
                 var d := Step(env, c.(buffer := []), c.buffer + s[..i]);
                 && Fed(d) && Feed(env, c, s) == (if d.closed || d.reader == Dead then d else Feed(env, d, s[i..]))
                 && (i == 0 ==> Eager(d) < Eager(c))
  {
    var i := c.nextLen - |c.buffer|;
    if i <= |s| { StepFed(env, c.(buffer := []), c.buffer + s[..i]); }
    hide Step;
  }

  lemma ClosedStays(env: Env, c: Conn, s: Bytes)
    requires Fed(c) && c.closed
    ensures Feed(env, c, s) == c
  {
  }

  /** No reader goes on to be dead. */
  lemma NeverToDead(env: Env, c: Conn, m: Bytes)
    ensures Read(env, c, m).Next? ==> Read(env, c, m).reader != Dead
  {
  }

  /** The connecter raises an exception while these bytes are read, and the connection stays open. */
  predicate Raises(env: Env, c: Conn, s: Bytes)
    requires Fed(c)
  {
    var d := Feed(env, c, s);
    c.reader != Dead && d.reader == Dead && !d.closed
  }

  lemma AfterException(env: Env, d: Conn, b: Bytes)
    requires Fed(d) && d.reader == Dead && !d.closed && d.buffer == []
    ensures if b == [] then Feed(env, d, b) == d else Feed(env, d, b).closed
  {
    if b == [] {
      assert d.(buffer := d.buffer + b) == d;
    } else {
      StepFed(env, d.(buffer := []), d.buffer + b[..1]);
    }
  }

  /** Splitting the bytes makes no difference, except that an exception drops what comes in with the
      bytes that caused it, while the next bytes after it close the connection. */
  lemma {:induction false} ChunksAlike(env: Env, c: Conn, a: Bytes, b: Bytes)
    requires Fed(c)
    ensures Fed(Feed(env, c, a))
    ensures Feed(env, Feed(env, c, a), b) == Feed(env, c, a + b) <==> !(Raises(env, c, a) && b != [])
    decreases |a|, Eager(c)
  {
    hide Step, Feed, Fed, Eager;
    FeedFed(env, c, a);
    if c.closed {
      ClosedStays(env, c, a);
      ClosedStays(env, c, b);
      ClosedStays(env, c, a + b);
    } else {
      FeedNext(env, c, a);
      FeedNext(env, c, a + b);
      var i := c.nextLen - |c.buffer|;
      if i > |a| {
        FeedNext(env, Feed(env, c, a), b);
        var j := i - |a|;
        if j <= |b| {
          assert c.buffer + (a + b)[..i] == c.buffer + a + b[..j] && (a + b)[i..] == b[j..];
        } else {
          assert c.buffer + (a + b) == c.buffer + a + b;
        }
      } else {
        assert (a + b)[..i] == a[..i] && (a + b)[i..] == a[i..] + b;
        StepFed(env, c.(buffer := []), c.buffer + a[..i]);
        var d := Step(env, c.(buffer := []), c.buffer + a[..i]);
        if d.closed {
          ClosedStays(env, d, b);
        } else if d.reader != Dead {
          ChunksAlike(env, d, a[i..], b);
        } else {
          AfterException(env, d, b);
        }
      }
    }
  }

  // ---- when the connecter raises ----

  /** The same with a connecter that only listens. */
  function Undisturbed(env: Env): Env {
    env.(react := _ => Verdict(false, false))
  }

  /** Of the calls to come, after those of told, one makes the connecter raise an exception and leave the
      connection open, before any that makes it close the connection. */
  predicate RaisesAt(env: Env, told: seq<Call>, toCome: seq<Call>)
    decreases |toCome|
  {
    toCome != [] && toCome[0] != Lost
    && var now := told + [toCome[0]];
       var v := env.react(now);
       !v.closes && (v.raises || RaisesAt(env, now, toCome[1..]))
  }

  /** One round of reading, beside the same with a connecter that only listens: nobody is told anything
      but that a connection is lost, or the connecter is told something. */
  lemma StepBeside(env: Env, c: Conn, m: Bytes) returns (call: Option<Call>)
    requires !c.closed && c.reader != Dead
    ensures var d, q := Step(env, c, m), Step(Undisturbed(env), c, m);
            && (!q.closed ==> q.reader != Dead)
            && (call.None? ==> d == q && if q.closed && c.complete then q.calls == c.calls + [Lost] else q.calls == c.calls)
            && (call.Some? ==>
                  && call.value != Lost && !q.closed && q.calls == c.calls + [call.value]
                  && var v := env.react(q.calls);
                     if v.closes then d.closed else if v.raises then d.reader == Dead && !d.closed else d == q)
  {
    if c.reader == PeerId && (if Known(c.id) then m == c.id.value else m != env.myId && m !in env.others) {
      call := Some(Made);
    } else if c.reader == Message && m != [] {
      call := Some(Got(m));
    } else {
      call := None;
    }
  }

  lemma {:induction false} CallsGrow(env: Env, c: Conn, s: Bytes)
    requires Fed(c) && (!c.closed ==> c.reader != Dead)
    ensures c.calls <= Feed(Undisturbed(env), c, s).calls
    decreases |s|, Eager(c)
  {
    if !c.closed {
      FeedNext(Undisturbed(env), c, s);
      var i := c.nextLen - |c.buffer|;
      if i <= |s| {
        var q := Step(Undisturbed(env), c.(buffer := []), c.buffer + s[..i]);
        var call := StepBeside(env, c.(buffer := []), c.buffer + s[..i]);
        hide Step, Feed, Fed;
        assert c.calls <= q.calls;
        if !q.closed && q.reader != Dead { CallsGrow(env, q, s[i..]); }
      }
    }
  }

  /** Bytes raise an exception exactly if the connecter raises one on what it would be told of them. */
  lemma {:induction false} RaisesWhen(env: Env, c: Conn, s: Bytes)
    requires Fed(c) && !c.closed && c.reader != Dead
    ensures c.calls <= Feed(Undisturbed(env), c, s).calls
    ensures Raises(env, c, s) <==> RaisesAt(env, c.calls, Feed(Undisturbed(env), c, s).calls[|c.calls|..])
    decreases |s|, Eager(c)
  {
    hide Step, Feed, Fed, Undisturbed, RaisesAt, Eager;
    var u := Undisturbed(env);
    CallsGrow(env, c, s);
    FeedNext(env, c, s);
    FeedNext(u, c, s);
    var i := c.nextLen - |c.buffer|;
    if i <= |s| {
      var call := StepBeside(env, c.(buffer := []), c.buffer + s[..i]);
      var d, q := Step(env, c.(buffer := []), c.buffer + s[..i]), Step(u, c.(buffer := []), c.buffer + s[..i]);
      if call.None? {
        RaisesNext(env, c.calls, Lost, []);
        assert c.calls[|c.calls|..] == [] && (c.calls + [Lost])[|c.calls|..] == [Lost] + [];
        if !q.closed { RaisesWhen(env, q, s[i..]); }
      } else {
        CallsGrow(env, q, s[i..]);
        var all := Feed(u, c, s).calls;
        OneMore(c.calls, q.calls, all);
        RaisesNext(env, c.calls, call.value, all[|q.calls|..]);
        if d == q { RaisesWhen(env, q, s[i..]); }
      }
    } else {
      RaisesNext(env, c.calls, Lost, []);
      assert c.calls[|c.calls|..] == [];
    }
  }

  lemma RaisesNext(env: Env, told: seq<Call>, call: Call, toCome: seq<Call>)
    ensures !RaisesAt(env, told, [])
    ensures RaisesAt(env, told, [call] + toCome) <==>
              call != Lost && var v := env.react(told + [call]); !v.closes && (v.raises || RaisesAt(env, told + [call], toCome))
  {
    assert ([call] + toCome)[1..] == toCome;
  }

  lemma OneMore(told: seq<Call>, now: seq<Call>, all: seq<Call>)
    requires told <= now <= all && |now| == |told| + 1
    ensures all[|told|..] == [now[|told|]] + all[|now|..] && now == told + [now[|told|]]
  {
  }

  /** A message of one byte is read, and the connecter, which cannot stand it, raises an exception. A
      second byte that comes along is dropped; coming later, it closes the connection. */
  lemma CutMatters() returns (env: Env, c: Conn)
    ensures Fed(c) && c.reader == Message && !c.closed && Raises(env, c, [0])
    ensures Fed(Feed(env, c, [0])) && Feed(env, c, [0, 0]) == Feed(env, c, [0]) != Feed(env, Feed(env, c, [0]), [0])
    ensures !Feed(env, c, [0, 0]).closed && Feed(env, Feed(env, c, [0]), [0]).closed
  {
    env := Env([1], [], 1, {}, _ => Verdict(false, true));
    c := Conn(true, Some([2]), Message, 1, [], true, false, [], [Made]);
    var d := Step(env, c, [0]);
    assert d == c.(nextLen := 1, reader := Dead, calls := [Made, Got([0])]);
    FeedOne(env, c, [0], []);
    FeedOne(env, c, [0], [0]);
    assert [0] + [0] == [0, 0] && [0] + [] == [0];
    AfterException(env, d, [0]);
  }

  /** One call of data_came_in for each chunk. */
  function FeedAll(env: Env, c: Conn, chunks: seq<Bytes>): (d: Conn)
    requires Fed(c)
    decreases |chunks|
  {
    if chunks == [] then c
    else
      FeedFed(env, c, chunks[0]);
      FeedAll(env, Feed(env, c, chunks[0]), chunks[1..])
  }

  lemma {:induction false} NobodyRaises(env: Env, c: Conn, s: Bytes)
    requires Fed(c) && forall l :: !env.react(l).raises
    ensures !Raises(env, c, s)
    decreases |s|, Eager(c)
  {
    if !c.closed {
      var i := c.nextLen - |c.buffer|;
      if i <= |s| {
        StepFed(env, c.(buffer := []), c.buffer + s[..i]);
        var d := Step(env, c.(buffer := []), c.buffer + s[..i]);
        StepRaises(env, c.(buffer := []), c.buffer + s[..i]);
        hide Step;
        if !d.closed && d.reader != Dead { NobodyRaises(env, d, s[i..]); }
      }
    }
  }

  lemma StepRaises(env: Env, c: Conn, m: Bytes)
    requires forall l :: !env.react(l).raises
    ensures Step(env, c, m).reader == Dead ==> c.reader == Dead
  {
  }

  /** Any way of cutting a stream into chunks gives the same connection, with the same calls. */
  lemma {:induction false} AnyChunks(env: Env, c: Conn, chunks: seq<Bytes>)
    requires Fed(c) && (c.closed || |c.buffer| < c.nextLen) && forall l :: !env.react(l).raises
    ensures FeedAll(env, c, chunks) == Feed(env, c, Joined(chunks))
    decreases |chunks|
  {
    hide Fed, Raises;
    if chunks == [] {
      FeedNothing(env, c);
    } else {
      FeedFed(env, c, chunks[0]);
      NobodyRaises(env, c, chunks[0]);
      ChunksAlike(env, c, chunks[0], Joined(chunks[1..]));
      AnyChunks(env, Feed(env, c, chunks[0]), chunks[1..]);
    }
  }

  lemma FeedNothing(env: Env, c: Conn)
    requires Fed(c) && (c.closed || |c.buffer| < c.nextLen)
    ensures Feed(env, c, []) == c
  {
    assert c.buffer + [] == c.buffer;
  }

  // ---- framing ----

  /** What send_message writes. */
  function Frame(m: Bytes): Bytes
    requires |m| < 0x1_0000_0000
  {
    ToBinary(|m|) + m
  }

  predicate Sendable(msgs: seq<Bytes>, maxLen: nat) {
    forall i :: 0 <= i < |msgs| ==> |msgs[i]| <= maxLen && |msgs[i]| < 0x1_0000_0000
  }

  function Frames(msgs: seq<Bytes>, maxLen: nat): Bytes
    requires Sendable(msgs, maxLen)
  {
    if msgs == [] then [] else Frame(msgs[0]) + Frames(msgs[1..], maxLen)
  }

  /** The connecter gets the messages, except empty ones. */
  function Delivered(msgs: seq<Bytes>): seq<Call> {
    if msgs == [] then []
    else (if msgs[0] == [] then [] else [Got(msgs[0])]) + Delivered(msgs[1..])
  }

  /** Bytes that are just what the next reader wants. */
  lemma FeedOne(env: Env, c: Conn, m: Bytes, rest: Bytes)
    requires Fed(c) && !c.closed && c.buffer == [] && |m| == c.nextLen
    ensures Fed(Step(env, c, m)) && Step(env, c, m).buffer == []
    ensures var d := Step(env, c, m);
            Feed(env, c, m + rest) == if d.closed || d.reader == Dead then d else Feed(env, d, rest)
  {
    StepFed(env, c, m);
    assert c.(buffer := []) == c && c.buffer + (m + rest)[..|m|] == m && (m + rest)[|m|..] == rest;
    hide Step;
  }

  ghost predicate Quiet(env: Env) {
    forall l :: env.react(l) == Verdict(false, false)
  }

  /** What was sent comes out as the same messages in the same order. */
  lemma {:induction false} FramesDelivered(env: Env, c: Conn, msgs: seq<Bytes>)
    requires Fed(c) && c.reader == Len && c.buffer == [] && !c.closed && Quiet(env) && Sendable(msgs, env.maxLen)
    ensures Feed(env, c, Frames(msgs, env.maxLen)) == c.(calls := c.calls + Delivered(msgs))
    decreases |msgs|
  {
    if msgs == [] {
      FeedNothing(env, c);
      assert c.calls + [] == c.calls;
    } else {
      hide Feed, Step, Frame, Delivered, Quiet, Fed;
      var m, rest := msgs[0], Frames(msgs[1..], env.maxLen);
      FrameDelivered(env, c, m, rest);
      FramesDelivered(env, c.(calls := c.calls + if m == [] then [] else [Got(m)]), msgs[1..]);
      DeliveredNext(c.calls, msgs);
    }
  }

  lemma FrameDelivered(env: Env, c: Conn, m: Bytes, rest: Bytes)
    requires Fed(c) && c.reader == Len && c.buffer == [] && !c.closed && Quiet(env) && |m| <= env.maxLen
            && |m| < 0x1_0000_0000
    ensures var e := c.(calls := c.calls + if m == [] then [] else [Got(m)]);
            Fed(e) && Feed(env, c, Frame(m) + rest) == Feed(env, e, rest)
  {
    hide Feed, Step, ToBinary, Quiet;
    FeedOne(env, c, ToBinary(|m|), m + rest);
    StepLen(env, c, |m|);
    var d := c.(nextLen := |m|, reader := Message);
    FeedOne(env, d, m, rest);
    StepMessage(env, d, m);
    assert Frame(m) + rest == ToBinary(|m|) + (m + rest);
  }

  lemma DeliveredNext(calls: seq<Call>, msgs: seq<Bytes>)
    requires msgs != []
    ensures calls + Delivered(msgs) == calls + (if msgs[0] == [] then [] else [Got(msgs[0])]) + Delivered(msgs[1..])
  {
    var x := if msgs[0] == [] then [] else [Got(msgs[0])];
    var rest := Delivered(msgs[1..]);
    assert Delivered(msgs) == x + rest;
    hide Delivered;
    Associative(calls, x, rest);
  }

  lemma Associative<T>(a: seq<T>, b: seq<T>, c: seq<T>)
    ensures a + (b + c) == a + b + c
  {
  }

  lemma StepLen(env: Env, c: Conn, n: nat)
    requires c.reader == Len && n <= env.maxLen && n < 0x1_0000_0000
    ensures Step(env, c, ToBinary(n)) == c.(nextLen := n, reader := Message)
  {
    ToIntBack(n);
  }

  lemma StepMessage(env: Env, c: Conn, m: Bytes)
    requires c.reader == Message && Quiet(env)
    ensures Step(env, c, m) == c.(nextLen := 4, reader := Len, calls := c.calls + if m == [] then [] else [Got(m)])
  {
    assert c.calls + [] == c.calls;
  }

  // ---- lengths ----

  /** A message that is too long is refused as soon as its length has come in; for any other the
      connection stays open, and what follows is read as the message. */
  lemma LengthChecked(env: Env, c: Conn, n: nat, rest: Bytes)
    requires Fed(c) && c.reader == Len && c.buffer == [] && !c.closed && n < 0x1_0000_0000
    ensures n > env.maxLen ==> Feed(env, c, ToBinary(n) + rest) == Close(c)
    ensures n <= env.maxLen ==>
              var d := c.(nextLen := n, reader := Message);
              Fed(d) && !d.closed && Feed(env, c, ToBinary(n) + rest) == Feed(env, d, rest)
    ensures Feed(env, c, ToBinary(n)).closed <==> n > env.maxLen
  {
    ToIntBack(n);
    hide Feed, ToBinary, ToInt;
    FeedOne(env, c, ToBinary(n), rest);
    FeedOne(env, c, ToBinary(n), []);
    assert ToBinary(n) + [] == ToBinary(n);
    if n <= env.maxLen { LengthOnly(env, c, n); }
  }

  lemma LengthOnly(env: Env, c: Conn, n: nat)
    requires Fed(c) && c.reader == Len && c.buffer == [] && !c.closed && n <= env.maxLen
    ensures var d := c.(nextLen := n, reader := Message); Fed(d) && !Feed(env, d, []).closed
  {
    var d := c.(nextLen := n, reader := Message);
    FeedNext(env, d, []);
    if n == 0 {
      var e := d.(nextLen := 4, reader := Len);
      var none: Bytes := [];
      assert d.(buffer := []) == d && none[..0] == none[0..] == none && Step(env, d, none) == e;
      FeedNext(env, e, []);
    }
  }

  // ---- the handshake ----

  /** The name of the protocol, in ASCII. */
  lemma ProtocolName()
    ensures |PROTOCOL| == 19 && forall i :: 0 <= i < 19 ==> PROTOCOL[i] == "BitTorrent protocol"[i] as int
  {
  }

  /** What is sent at the start: the length of the name, the name, eight zeros and the id of the download. */
  lemma HandshakeForm(downloadId: Bytes)
    ensures var h := HandshakeStart(downloadId);
            |h| == 28 + |downloadId| && h[0] == 19 && h[1..20] == PROTOCOL && h[28..] == downloadId
            && forall i :: 20 <= i < 28 ==> h[i] == 0
  {
  }

  /** Two programs that download the same thing accept each other's handshakes, if the ids suit. */
  lemma HandshakeAccepted(env: Env, id: Option<Bytes>, peer: Env)
    requires |peer.downloadId| == |peer.myId| == 20
    ensures var s := HandshakeStart(peer.downloadId) + peer.myId;
            |s| == 68 && (ProperHandshake(env, id, s) <==> peer.downloadId == env.downloadId && Welcome(env, id, peer.myId))
  {
    var h := HandshakeStart(peer.downloadId);
    HandshakeForm(peer.downloadId);
    hide HandshakeStart, Welcome;
    var s := h + peer.myId;
    assert s[..48] == h && s[48..] == peer.myId && s[28..48] == h[28..] && s[1..20] == h[1..20];
  }

  /** A connection before anything has come in. */
  predicate Fresh(c: Conn) {
    && c.reader == HeaderLen && c.nextLen == 1 && c.buffer == [] && !c.complete && !c.closed && c.calls == []
  }

  /** The peer is who it should be, or nobody we know. */
  predicate Welcome(env: Env, id: Option<Bytes>, peer: Bytes) {
    if Known(id) then peer == id.value else peer != env.myId && peer !in env.others
  }

  predicate ProperHandshake(env: Env, id: Option<Bytes>, s: Bytes)
    requires |s| == 68
  {
    s[0] == 19 && s[1..20] == PROTOCOL && s[28..48] == env.downloadId && Welcome(env, id, s[48..])
  }

  /** What is written during the handshake, after what was written at once. */
  function Answered(env: Env, local: bool, id: Option<Bytes>): seq<Bytes> {
    if !local then [HandshakeStart(env.downloadId) + env.myId] else if Known(id) then [] else [env.myId]
  }

  /** What a connection writes before anything has come in. */
  function Opening(local: bool, id: Option<Bytes>, myId: Bytes, downloadId: Bytes): seq<Bytes> {
    (if local then [HandshakeStart(downloadId)] else []) + if local && id.Some? then [myId] else []
  }

  /** In a handshake that succeeds each side sends its header and its id once, but for one case: a local
      connection that was given an empty id sends its own id twice. */
  lemma OwnIdSent(env: Env, c: Conn, s: Bytes)
    requires Fresh(c) && c.written == Opening(c.local, c.id, env.myId, env.downloadId)
    requires |s| == 68 && Quiet(env) && ProperHandshake(env, c.id, s)
    ensures Joined(Feed(env, c, s).written) ==
            HandshakeStart(env.downloadId) + env.myId + if c.local && c.id == Some([]) then env.myId else []
  {
    HandshakeSettled(env, c, s);
    var w := Feed(env, c, s).written;
    var h := HandshakeStart(env.downloadId);
    hide Feed, Quiet, ProperHandshake, HandshakeStart;
    JoinedFew(h, env.myId, env.myId);
    JoinedFew(h + env.myId, [], []);
    if c.local {
      assert w == if c.id == Some([]) then [h, env.myId, env.myId] else [h, env.myId];
    } else {
      assert w == [h + env.myId];
    }
  }

  lemma JoinedFew(a: Bytes, b: Bytes, c: Bytes)
    ensures Joined([a]) == a && Joined([a, b]) == a + b && Joined([a, b, c]) == a + b + c
  {
    assert Joined([c]) == c && Joined([b]) == b && Joined([a]) == a;
    assert [b, c][1..] == [c] && [a, b][1..] == [b] && [a, b, c][1..] == [b, c];
    assert Joined([b, c]) == b + c;
    assert a + (b + c) == a + b + c;
  }

  /** 68 bytes settle the handshake: it is made exactly when they are proper, and otherwise closed
      without the connecter having heard of it. */
  lemma HandshakeSettled(env: Env, c: Conn, s: Bytes)
    requires Fresh(c) && |s| == 68 && Quiet(env)
    ensures var d := Feed(env, c, s);
            if ProperHandshake(env, c.id, s) then
              d.complete && !d.closed && d.reader == Len && d.buffer == [] && d.id == Some(s[48..]) && d.calls == [Made]
              && d.written == c.written + Answered(env, c.local, c.id)
            else
              d.closed && !d.complete && d.calls == []
  {
    hide Feed, Step;
    assert s == s[..1] + s[1..] && s[..1] == [s[0]];
    FeedOne(env, c, s[..1], s[1..]);
    StepHeaderLen(env, c, s[..1]);
    if s[0] == 19 {
      var c1 := c.(nextLen := 19, reader := Header);
      assert s[1..] == s[1..20] + s[20..];
      FeedOne(env, c1, s[1..20], s[20..]);
      StepHeader(env, c1, s[1..20]);
      if s[1..20] == PROTOCOL {
        HandshakeRest(env, c1.(nextLen := 8, reader := Reserved), s, c.id);
      }
    }
  }

  lemma StepHeaderLen(env: Env, c: Conn, m: Bytes)
    requires Fresh(c)
    ensures Step(env, c, m) == if m == [19] then c.(nextLen := 19, reader := Header) else c.(closed := true)
  {
  }

  lemma StepHeader(env: Env, c: Conn, m: Bytes)
    requires c.reader == Header && !c.complete && !c.closed
    ensures Step(env, c, m) == if m == PROTOCOL then c.(nextLen := 8, reader := Reserved) else c.(closed := true)
  {
  }

  lemma HandshakeRest(env: Env, c: Conn, s: Bytes, id: Option<Bytes>)
    requires c.reader == Reserved && c.nextLen == 8 && c.buffer == [] && !c.complete && !c.closed
            && c.calls == [] && c.id == id
    requires |s| == 68 && Quiet(env)
    ensures var d := Feed(env, c, s[20..]);
            if s[28..48] == env.downloadId && Welcome(env, id, s[48..]) then
              d.complete && !d.closed && d.reader == Len && d.buffer == [] && d.id == Some(s[48..]) && d.calls == [Made]
              && d.written == c.written + Answered(env, c.local, c.id)
            else
              d.closed && !d.complete && d.calls == []
  {
    hide Feed;
    assert s[20..] == s[20..28] + s[28..] && s[28..] == s[28..48] + s[48..] && s[48..] == s[48..] + [];
    FeedOne(env, c, s[20..28], s[28..]);
    var c1 := c.(nextLen := 20, reader := DownloadId);
    FeedOne(env, c1, s[28..48], s[48..]);
    var c2 := Step(env, c1, s[28..48]);
    if !c2.closed {
      FeedOne(env, c2, s[48..], []);
      var c3 := Step(env, c2, s[48..]);
      if !c3.closed { FeedNothing(env, c3); }
    }
  }

  // ---- the table of connections ----

  /** What the connecter has been told: nothing before the handshake is over; then that the
      connection is made, messages that are not empty, and at last that it is lost. */
  predicate Life(complete: bool, closed: bool, calls: seq<Call>) {
    if !complete then calls == []
    else
      && |calls| >= (if closed then 2 else 1) && calls[0] == Made
      && forall k :: 0 < k < |calls| ==>
           if closed && k == |calls| - 1 then calls[k] == Lost else calls[k].Got? && calls[k].message != []
  }

  /** It is told at most once that the connection is made, before everything else, and at most once
      that it is lost, after everything else, when it is closed and had been made. */
  lemma MadeOnceLostLast(complete: bool, closed: bool, calls: seq<Call>, i: nat)
    requires Life(complete, closed, calls) && i < |calls|
    ensures calls[i] == Made <==> i == 0
    ensures calls[i] == Lost <==> closed && i == |calls| - 1
    ensures complete
  {
    if closed && complete { assert calls[|calls| - 1] == Lost; }
  }

  lemma LifeGoesOn(complete: bool, calls: seq<Call>, call: Call)
    requires Life(complete, false, calls)
    ensures complete && call.Got? && call.message != [] ==> Life(true, false, calls + [call])
    ensures !complete && call == Made ==> Life(true, false, calls + [call])
    ensures Life(complete, true, if complete then calls + [Lost] else calls)
  {
  }

  lemma FreshFacts(c: Conn)
    requires Fresh(c)
    ensures Life(c.complete, c.closed, c.calls) && Fed(c) && !c.closed && |c.buffer| < c.nextLen
  {
  }

  /** What the connecter does: it may raise an exception, and it may close connections. */
  datatype Reaction = Reaction(raises: bool, closes: set<Connection>)

  datatype Answer = Go(length: nat, reader: Reader) | No | Exception

  /** A connection, with its socket. */
  class Connection {
    const local: bool
    var id: Option<Bytes>
    var reader: Reader
    var nextLen: nat
    var buffer: Bytes
    var complete: bool
    var closed: bool
    var written: seq<Bytes>
    /** What the connecter has been told about this connection. */
    var calls: seq<Call>

    function Value(): Conn
      reads this
    {
      Conn(local, id, reader, nextLen, buffer, complete, closed, written, calls)
    }

    constructor (local: bool, id: Option<Bytes>, myId: Bytes, downloadId: Bytes)
      ensures Fresh(Value()) && this.local == local && this.id == id
      ensures written == Opening(local, id, myId, downloadId)
    {
      this.local, this.id := local, id;
      reader, nextLen, buffer, complete, closed, calls := HeaderLen, 1, [], false, false, [];
      written := (if local then [HandshakeStart(downloadId)] else []) + if local && id.Some? then [myId] else [];
    }

    method SendMessage(m: Bytes)
      requires |m| < 0x1_0000_0000
      modifies this`written
      ensures Value() == old(Value()).(written := old(written) + [Frame(m)])
    {
      written := written + [ToBinary(|m|) + m];
    }
  }

  type Dns = nat

  class Encoder {
    const myId: Bytes
    const downloadId: Bytes
    const maxLen: nat
    const maxInitiate: nat
    /** The open connections; the program keys them by their sockets. */
    var connections: set<Connection>
    var spares: seq<Dns>
    var everinc: bool

    /** All connections there have ever been. */
    ghost var everyone: set<Connection>

    /** No two open connections have the same known id, and none has ours. */
    ghost predicate IdsOk()
      reads this`connections, connections`id
    {
      && (forall c :: c in connections && Known(c.id) ==> c.id.value != myId)
      && (forall c, d :: c in connections && d in connections && c != d && Known(c.id) ==> c.id != d.id)
    }

    ghost predicate LivesOk()
      reads this`connections, this`everyone, everyone`complete, everyone`closed, everyone`calls
    {
      && connections <= everyone
      && forall c :: c in everyone ==> Life(c.complete, c.closed, c.calls) && (c in connections <==> !c.closed)
    }

    /** A connection that waits for more bytes. */
    ghost predicate Idle(c: Connection)
      reads c
    {
      Fed(c.Value()) && |c.buffer| < c.nextLen
    }

    ghost predicate Valid()
      reads this`connections, this`everyone, everyone, connections
    {
      LivesOk() && IdsOk() && forall c :: c in connections ==> Idle(c)
    }

    constructor (myId: Bytes, downloadId: Bytes, maxLen: nat, maxInitiate: nat)
      ensures Valid() && connections == {} && everyone == {} && spares == [] && !everinc
      ensures this.myId == myId && this.downloadId == downloadId && this.maxLen == maxLen && this.maxInitiate == maxInitiate
    {
      this.myId, this.downloadId, this.maxLen, this.maxInitiate := myId, downloadId, maxLen, maxInitiate;
      connections, spares, everinc, everyone := {}, [], false, {};
    }

    lemma TableFacts()
      requires LivesOk()
      ensures connections <= everyone && forall c :: c in connections ==> !c.closed && Life(c.complete, c.closed, c.calls)
    {
    }

    // ---- opening and closing ----

    method Add(local: bool, id: Option<Bytes>) returns (c: Connection)
      requires Valid()
      requires Known(id) ==> id.value != myId && forall v :: v in connections ==> v.id != id
      modifies this`connections, this`everyone
      ensures Valid() && fresh(c) && connections == old(connections) + {c} && everyone == old(everyone) + {c}
      ensures Fresh(c.Value()) && c.local == local && c.id == id
    {
      hide Life, Fed, Fresh;
      c := new Connection(local, id, myId, downloadId);
      FreshFacts(c.Value());
      connections, everyone := connections + {c}, everyone + {c};
    }

    /** An id that is ours, or that of an open connection. */
    ghost predicate Refuses(id: Option<Bytes>)
      reads this`connections, connections`id
    {
      Known(id) && (id.value == myId || exists v :: v in connections && v.id == id)
    }

    /** A connection to a peer whose id may be known. Nothing happens when the id is ours or that of
        an open connection; when there are enough connections, the address is kept for later. */
    method StartConnection(dns: Dns, id: Option<Bytes>, reachable: bool)
      requires Valid()
      modifies this`connections, this`everyone, this`spares
      ensures Valid() && old(connections) <= connections
      ensures connections != old(connections) <==> !old(Refuses(id)) && |old(connections)| < maxInitiate && reachable
      ensures connections != old(connections) ==>
                exists c :: c in connections && connections == old(connections) + {c} && fresh(c) && Fresh(c.Value()) && c.local && c.id == id
      ensures everyone == old(everyone) + connections
      ensures spares == if old(Refuses(id)) || |old(connections)| < maxInitiate || |old(spares)| >= maxInitiate || dns in old(spares)
                        then old(spares) else old(spares) + [dns]
    {
      if Known(id) {
        if id.value == myId { return; }
        if exists v :: v in connections && v.id == id { return; }
      }
      if |connections| >= maxInitiate {
        if |spares| < maxInitiate && dns !in spares {
          spares := spares + [dns];
        }
        return;
      }
      if reachable {
        var c := Add(true, id);
        assert c in connections;
      }
    }

    method ExternalConnectionMade() returns (c: Connection)
      requires Valid()
      modifies this`connections, this`everyone
      ensures Valid() && fresh(c) && connections == old(connections) + {c} && everyone == old(everyone) + {c}
      ensures Fresh(c.Value()) && !c.local && c.id == None
    {
      c := Add(false, None);
    }

    /** Closing a connection, from our side or the other: it leaves the table, and the connecter is
        told if it had been told of it before. */
    method Sever(c: Connection)
      requires LivesOk() && IdsOk() && c in connections
      modifies this`connections, c`closed, c`calls
      ensures LivesOk() && IdsOk() && c.Value() == Close(old(c.Value())) && connections == old(connections) - {c}
    {
      LifeGoesOn(c.complete, c.calls, Lost);
      c.closed := true;
      connections := connections - {c};
      if c.complete {
        c.calls := c.calls + [Lost];
      }
    }

    /** How many of these addresses can be reached. */
    static ghost function Reached(l: seq<Dns>, reachable: Dns -> bool): nat {
      if l == [] then 0 else Reached(l[1..], reachable) + if reachable(l[0]) then 1 else 0
    }

    /** Spare addresses have been tried from the last one on, no more than were needed and as many as there
        were, and each that could be reached has given one connection more than there were before. */
    ghost predicate Tried(before: seq<Dns>, n: nat, reachable: Dns -> bool)
      reads this`connections, this`spares
    {
      && Trying(before, n, spares, |connections|, reachable)
      && (|connections| >= maxInitiate || spares == [])
    }

    /** The same, when left is what remains to be tried and now there are k connections. */
    ghost predicate Trying(before: seq<Dns>, n: nat, left: seq<Dns>, k: nat, reachable: Dns -> bool) {
      && left <= before && k == n + Reached(before[|left|..], reachable)
      && (|left| < |before| ==> n + Reached(before[|left| + 1..], reachable) < maxInitiate)
    }

    lemma TryingOne(before: seq<Dns>, n: nat, left: seq<Dns>, k: nat, reachable: Dns -> bool)
      requires Trying(before, n, left, k, reachable) && left != [] && k < maxInitiate
      ensures var m := |left| - 1;
              Trying(before, n, left[..m], k + (if reachable(left[m]) then 1 else 0), reachable)
    {
      var m := |left| - 1;
      assert before[m..][1..] == before[|left|..] && before[m] == left[m];
    }

    /** A new connection made from this side, to a peer whose id is not known. */
    ghost predicate Outgoing(c: Connection)
      reads c
    {
      Fresh(c.Value()) && c.local && c.id == None
    }

    /** A connection that the other side has ended; then spare addresses are tried. */
    method ConnectionLost(c: Connection, reachable: Dns -> bool)
      requires Valid() && c in connections
      modifies this`connections, this`everyone, this`spares, c`closed, c`calls
      ensures Valid() && c !in connections && c.Value() == Close(old(c.Value()))
      ensures old(connections) - {c} <= connections && everyone == old(everyone) + connections
      ensures Tried(old(spares), |old(connections) - {c}|, reachable)
      ensures forall o :: o in connections ==> o in old(connections) || (fresh(o) && Outgoing(o))
    {
      TableFacts();
      hide LivesOk, IdsOk, Idle, Fresh, Close, Tried;
      Sever(c);
      TrySpares(reachable);
    }

    method TrySpares(reachable: Dns -> bool)
      requires Valid()
      modifies this`connections, this`everyone, this`spares
      ensures Valid() && old(connections) <= connections && everyone == old(everyone) + connections
      ensures forall c :: c in connections ==> c in old(connections) || (fresh(c) && Outgoing(c))
      ensures Tried(old(spares), |old(connections)|, reachable)
    {
      TableFacts();
      assert spares[|spares|..] == [] && Trying(spares, |connections|, spares, |connections|, reachable);
      while |connections| < maxInitiate && spares != []
        invariant Valid() && old(connections) <= connections && everyone == old(everyone) + connections
        invariant forall c :: c in connections ==> c in old(connections) || (fresh(c) && Outgoing(c))
        invariant Trying(old(spares), |old(connections)|, spares, |connections|, reachable)
        decreases |spares|
      {
        TryingOne(old(spares), |old(connections)|, spares, |connections|, reachable);
        ghost var was := connections;
        TrySpare(reachable);
        UnionMore(old(everyone), was, connections);
      }
      Gone(old(spares), |old(connections)|, reachable);
    }

    static lemma UnionMore(s: set<Connection>, t: set<Connection>, u: set<Connection>)
      requires t <= u
      ensures s + t + u == s + u
    {
    }

    lemma Gone(before: seq<Dns>, n: nat, reachable: Dns -> bool)
      requires Trying(before, n, spares, |connections|, reachable) && (|connections| >= maxInitiate || spares == [])
      ensures Tried(before, n, reachable)
    {
    }

    /** The last spare address is tried. */
    method TrySpare(reachable: Dns -> bool)
      requires Valid() && spares != [] && |connections| < maxInitiate
      modifies this`connections, this`everyone, this`spares
      ensures Valid() && old(connections) <= connections && everyone == old(everyone) + connections
      ensures forall c :: c in connections ==> c in old(connections) || (fresh(c) && Outgoing(c))
      ensures spares == old(spares)[..|old(spares)| - 1]
      ensures |connections| == |old(connections)| + if reachable(old(spares)[|old(spares)| - 1]) then 1 else 0
    {
      var dns := spares[|spares| - 1];
      spares := spares[..|spares| - 1];
      StartConnection(dns, None, reachable(dns));
    }

    // ---- bytes coming in ----

    ghost function OtherIds(c: Connection): set<Bytes>
      reads this`connections, connections`id
    {
      set o | o in connections && o != c && o.id.Some? :: o.id.value
    }

    /** What connection c depends on, given the reactions of the connecter. */
    ghost function EnvOf(c: Connection, react: seq<Call> -> Reaction): Env
      reads this`connections, connections`id
    {
      Env(myId, downloadId, maxLen, OtherIds(c), l => Verdict(c in react(l).closes, react(l).raises))
    }

    /** The same, once the ids of the others are known. */
    ghost predicate Suits(env: Env, c: Connection, react: seq<Call> -> Reaction) {
      && env.myId == myId && env.downloadId == downloadId && env.maxLen == maxLen
      && forall l :: env.react(l) == Verdict(c in react(l).closes, react(l).raises)
    }

    /** What has become of a connection when the connecter may have closed it. */
    ghost predicate Aside(was: Conn, now: Conn) {
      now == was || now == Close(was)
    }

    /** Closes those of the given connections that are open. */
    method CloseAll(closes: set<Connection>)
      requires LivesOk() && IdsOk()
      modifies this`connections, connections`closed, connections`calls
      ensures LivesOk() && IdsOk() && connections == old(connections) - closes
      ensures forall o :: o in old(connections) ==>
                o.Value() == if o in closes then Close(old(o.Value())) else old(o.Value())
      decreases closes
    {
      hide LivesOk, IdsOk, Close;
      var todo := closes * connections;
      if todo == {} {
        assert forall o :: o in connections && o in closes ==> o in todo;
        assert connections == connections - closes;
      } else {
        var o :| o in todo;
        Sever(o);
        assert connections - (closes - {o}) == old(connections) - closes;
        CloseAll(closes - {o});
      }
    }

    /** Tells the connecter about c, and does as it reacts. */
    method Notify(c: Connection, call: Call, react: seq<Call> -> Reaction, ghost env: Env) returns (raised: bool)
      requires LivesOk() && IdsOk() && c in connections && Suits(env, c, react)
      requires if c.complete then call.Got? && call.message != [] else call == Made
      modifies this`connections, connections`closed, connections`calls, c`complete
      ensures LivesOk() && IdsOk() && connections <= old(connections)
      ensures (c.Value(), raised) == Notified(env, old(c.Value()).(complete := true), call)
      ensures forall o :: o in old(connections) && o != c ==> Aside(old(o.Value()), o.Value())
    {
      hide Life, Close, Aside, IdsOk;
      Tell(c, call);
      var r := react(c.calls);
      CloseAll(r.closes);
      AsideIs();
      return r.raises;
    }

    lemma AsideIs()
      ensures forall v :: Aside(v, v) && Aside(v, Close(v))
    {
    }

    lemma AsideThen(was: Conn, mid: Conn, now: Conn)
      requires Aside(was, mid) && Aside(mid, now)
      ensures Aside(was, now)
    {
    }

    method Tell(c: Connection, call: Call)
      requires LivesOk() && IdsOk() && c in connections
      requires if c.complete then call.Got? && call.message != [] else call == Made
      modifies c`complete, c`calls
      ensures LivesOk() && IdsOk() && c.complete && c.calls == old(c.calls) + [call]
    {
      hide Life, IdsOk;
      LifeGoesOn(c.complete, c.calls, call);
      c.complete := true;
      c.calls := c.calls + [call];
    }

    /** everinc is set once an incoming connection has been identified, which happens at most once. */
    twostate predicate IncomingSeen(c: Connection)
      reads this`everinc, c`id
    {
      && everinc == (old(everinc) || (!c.local && c.id != old(c.id)))
      && (c.id == old(c.id) || (!Known(old(c.id)) && Known(c.id)))
    }

    /** Whether the peer's id is refused: it is ours, or an open connection's. */
    method Taken(c: Connection, m: Bytes) returns (b: bool)
      requires c in connections && !Known(c.id) && m != []
      ensures b <==> m == myId || m in OtherIds(c)
    {
      b := m == myId || exists v :: v in connections && v.id == Some(m);
    }

    method Identify(c: Connection, m: Bytes)
      requires LivesOk() && IdsOk() && c in connections && m != [] && m != myId && m !in OtherIds(c)
      modifies c`id, c`written, this`everinc
      ensures LivesOk() && IdsOk() && c.id == Some(m)
              && c.written == if c.local then old(c.written) + [myId] else old(c.written)
      ensures everinc == (old(everinc) || !c.local)
    {
      hide Life;
      c.id := Some(m);
      if c.local {
        c.written := c.written + [myId];
      } else {
        everinc := true;
      }
    }

    /** The reader's answer, and whether it is about to be told that there is an exception. */
    method NotifyThenLen(c: Connection, call: Call, react: seq<Call> -> Reaction, ghost env: Env) returns (a: Answer)
      requires LivesOk() && IdsOk() && c in connections && Suits(env, c, react)
      requires if c.complete then call.Got? && call.message != [] else call == Made
      modifies this`connections, connections`closed, connections`calls, c`complete
      ensures LivesOk() && IdsOk() && connections <= old(connections)
      ensures a == Exception || a == Go(4, Len)
      ensures NotifiedThenLen(env, old(c.Value()).(complete := true), call)
           == if a == Exception then Raised(c.Value()) else Next(c.Value(), 4, Len)
      ensures forall o :: o in old(connections) && o != c ==> Aside(old(o.Value()), o.Value())
    {
      hide LivesOk, IdsOk, Aside, Notified, Suits;
      var raised := Notify(c, call, react, env);
      return if raised then Exception else Go(4, Len);
    }

    /** What the reader of c makes of the bytes it asked for. */
    method ReadNext(c: Connection, m: Bytes, react: seq<Call> -> Reaction, ghost env: Env) returns (a: Answer)
      requires LivesOk() && IdsOk() && c in connections && Suits(env, c, react)
      requires Fed(c.Value()) && c.buffer == [] && |m| == c.nextLen && (Early(c.reader) ==> OtherIds(c) == env.others)
      modifies this`connections, this`everinc, connections`closed, connections`calls, c`complete, c`id, c`written
      ensures LivesOk() && IdsOk() && connections <= old(connections)
      ensures match a
              case Go(n, r) => Read(env, old(c.Value()), m) == Next(c.Value(), n, r) && (Early(r) ==> OtherIds(c) == env.others)
              case No => Read(env, old(c.Value()), m) == Refused(c.Value()) && c.closed == old(c.closed)
              case Exception => Read(env, old(c.Value()), m) == Raised(c.Value())
      ensures IncomingSeen(c)
      ensures forall o :: o in old(connections) && o != c ==> Aside(old(o.Value()), o.Value())
    {
      hide LivesOk, IdsOk, NotifiedThenLen, Close;
      match c.reader
      case HeaderLen => a := if m != [19] then No else Go(19, Header);
      case Header => a := if m != PROTOCOL then No else Go(8, Reserved);
      case Reserved => a := Go(20, DownloadId);
      case DownloadId =>
        if m != downloadId { return No; }
        if !c.local {
          c.written := c.written + [HandshakeStart(downloadId) + myId];
        }
        a := Go(20, PeerId);
      case PeerId => a := ReadPeerId(c, m, react, env);
      case Len => a := if ToInt(m) > maxLen then No else Go(ToInt(m), Message);
      case Message =>
        if m == [] { return Go(4, Len); }
        a := NotifyThenLen(c, Got(m), react, env);
      case Dead => a := No;
    }

    method ReadPeerId(c: Connection, m: Bytes, react: seq<Call> -> Reaction, ghost env: Env) returns (a: Answer)
      requires LivesOk() && IdsOk() && c in connections && Suits(env, c, react)
      requires c.reader == PeerId && !c.complete && m != [] && OtherIds(c) == env.others
      modifies this`connections, this`everinc, connections`closed, connections`calls, c`complete, c`id, c`written
      ensures LivesOk() && IdsOk() && connections <= old(connections)
      ensures match a
              case Go(n, r) => Read(env, old(c.Value()), m) == Next(c.Value(), n, r) && r == Len
              case No => Read(env, old(c.Value()), m) == Refused(c.Value()) && c.closed == old(c.closed)
              case Exception => Read(env, old(c.Value()), m) == Raised(c.Value())
      ensures IncomingSeen(c)
      ensures forall o :: o in old(connections) && o != c ==> Aside(old(o.Value()), o.Value())
    {
      hide LivesOk, IdsOk, NotifiedThenLen, Aside, OtherIds;
      AsideIs();
      if Known(c.id) {
        if m != c.id.value { return No; }
      } else {
        var taken := Taken(c, m);
        if taken { return No; }
        Identify(c, m);
      }
      a := NotifyThenLen(c, Made, react, env);
    }

    /** Reads one item, and does what its reader says. */
    method ReadOne(c: Connection, m: Bytes, react: seq<Call> -> Reaction, ghost env: Env) returns (raised: bool)
      requires LivesOk() && IdsOk() && c in connections && Suits(env, c, react)
      requires Fed(c.Value()) && c.buffer == [] && |m| == c.nextLen && (Early(c.reader) ==> OtherIds(c) == env.others)
      modifies this`connections, this`everinc, connections
      ensures LivesOk() && IdsOk() && connections <= old(connections) && (c.closed || c in connections)
      ensures c.Value() == Step(env, old(c.Value()), m)
      ensures if raised then c.reader == Dead else c.closed || c.reader != Dead
      ensures c.closed || !Early(c.reader) || OtherIds(c) == env.others
      ensures IncomingSeen(c)
      ensures forall o :: o in old(connections) && o != c ==> Aside(old(o.Value()), o.Value())
    {
      TableFacts();
      NeverToDead(env, c.Value(), m);
      hide IdsOk, Life, Fed, Read, Close, Aside, OtherIds;
      var a := ReadNext(c, m, react, env);
      match a
      case Go(n, r) =>
        c.nextLen, c.reader := n, r;
        return false;
      case No =>
        Sever(c);
        return false;
      case Exception =>
        c.nextLen, c.reader := 1, Dead;
        return true;
    }

    /** Bytes from the other side. The connection does with them as Feed says; others change only if
        the connecter closes them. An exception in the connecter goes on to the caller. */
    method DataCameIn(c: Connection, data: Bytes, react: seq<Call> -> Reaction) returns (raised: bool)
      requires Valid() && c in connections
      modifies this`connections, this`everinc, connections
      ensures Valid() && connections <= old(connections)
      ensures c.Value() == Feed(old(EnvOf(c, react)), old(c.Value()), data) && (raised ==> c.reader == Dead)
      ensures IncomingSeen(c)
      ensures forall o :: o in old(connections) && o != c ==> Aside(old(o.Value()), o.Value())
    {
      ghost var env := EnvOf(c, react);
      ghost var c0 := c.Value();
      TableFacts();
      FeedFed(env, c0, data);
      raised := ReadAll(c, data, react, env);
      forall o | o in connections ensures Idle(o) {
        if o != c {
          assert Aside(old(o.Value()), o.Value()) && !o.closed;
          assert old(Idle(o));
        }
      }
    }

    method ReadAll(c: Connection, data: Bytes, react: seq<Call> -> Reaction, ghost env: Env) returns (raised: bool)
      requires LivesOk() && IdsOk() && c in connections && Suits(env, c, react)
      requires Fed(c.Value()) && (Early(c.reader) ==> OtherIds(c) == env.others)
      modifies this`connections, this`everinc, connections
      ensures LivesOk() && IdsOk() && connections <= old(connections)
      ensures c.Value() == Feed(env, old(c.Value()), data) && (raised ==> c.reader == Dead)
      ensures IncomingSeen(c)
      ensures forall o :: o in old(connections) && o != c ==> Aside(old(o.Value()), o.Value())
    {
      ghost var c0 := c.Value();
      TableFacts();
      AsideIs();
      hide LivesOk, IdsOk, Feed, Fed, Step, Close, Suits, OtherIds, Aside, Early;
      var s := data;
      while !c.closed
        invariant LivesOk() && IdsOk() && connections <= old(connections) && (c.closed || c in connections)
        invariant forall o :: o in old(connections) && o != c ==> Aside(old(o.Value()), o.Value())
        invariant c.closed || !Early(c.reader) || OtherIds(c) == env.others
        invariant IncomingSeen(c)
        invariant Fed(c0) && Fed(c.Value()) && Feed(env, c0, data) == Feed(env, c.Value(), s)
        decreases |s|, Eager(c.Value())
      {
        FeedNext(env, c.Value(), s);
        if c.nextLen - |c.buffer| > |s| {
          c.buffer := c.buffer + s;
          return false;
        }
        ghost var mid := map o | o in old(connections) :: o.Value();
        s, raised := TakeOne(c, s, react, env);
        forall o | o in old(connections) && o != c ensures Aside(old(o.Value()), o.Value()) {
          AsideThen(old(o.Value()), mid[o], o.Value());
        }
        if raised { return true; }
      }
      ClosedStays(env, c.Value(), s);
      return false;
    }

    /** Takes what the next reader asked for from the bytes at hand. */
    method TakeOne(c: Connection, s: Bytes, react: seq<Call> -> Reaction, ghost env: Env) returns (rest: Bytes, raised: bool)
      requires LivesOk() && IdsOk() && c in connections && Suits(env, c, react) && !c.closed
      requires Fed(c.Value()) && c.nextLen - |c.buffer| <= |s| && (Early(c.reader) ==> OtherIds(c) == env.others)
      modifies this`connections, this`everinc, connections
      ensures LivesOk() && IdsOk() && connections <= old(connections) && (c.closed || c in connections)
      ensures Fed(c.Value()) && |rest| <= |s| && (|rest| < |s| || Eager(c.Value()) < Eager(old(c.Value())))
      ensures Feed(env, old(c.Value()), s) == if raised then c.Value() else Feed(env, c.Value(), rest)
      ensures raised ==> c.reader == Dead
      ensures c.closed || !Early(c.reader) || OtherIds(c) == env.others
      ensures IncomingSeen(c)
      ensures forall o :: o in old(connections) && o != c ==> Aside(old(o.Value()), o.Value())
    {
      TableFacts();
      hide LivesOk, IdsOk, Feed, Step, Close, Suits, OtherIds, Aside, Early, Fed, Eager;
      FeedNext(env, c.Value(), s);
      var i := c.nextLen - |c.buffer|;
      var m := c.buffer + s[..i];
      rest := s[i..];
      c.buffer := [];
      assert c.Value() == old(c.Value()).(buffer := []);
      raised := ReadOne(c, m, react, env);
      if c.closed { ClosedStays(env, c.Value(), rest); }
    }
  }
}
