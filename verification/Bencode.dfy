/** Bencoding and its decoder. */
module Bencode {
  import opened Basics
  import opened Decimal

  datatype Value = Int(n: int) | Str(s: Bytes) | List(l: seq<Value>) | Dict(d: map<Bytes, Value>)

  const MINUS: byte := 45
  const COLON: byte := 58
  const D: byte := 100
  const E: byte := 101
  const I: byte := 105
  const L: byte := 108

  // ---- the order of keys ----

  /** Lexicographic order of byte strings. */
  predicate Less(a: Bytes, b: Bytes) {
    b != [] && (a == [] || a[0] < b[0] || (a[0] == b[0] && Less(a[1..], b[1..])))
  }

  lemma {:induction false} LessTrichotomy(a: Bytes, b: Bytes)
    ensures !(Less(a, b) && Less(b, a)) && (a == b ==> !Less(a, b)) && (a != b ==> Less(a, b) || Less(b, a))
  {
    if a != [] && b != [] && a[0] == b[0] {
      assert a == [a[0]] + a[1..] && b == [b[0]] + b[1..];
      LessTrichotomy(a[1..], b[1..]);
    }
  }

  /** The first k bytes agree; then a ends before b does, or has the lesser byte. */
  ghost predicate LessAt(a: Bytes, b: Bytes, k: nat) {
    k <= |a| && k < |b| && a[..k] == b[..k] && (k == |a| || a[k] < b[k])
  }

  ghost predicate Precedes(a: Bytes, b: Bytes) {
    exists k: nat :: LessAt(a, b, k)
  }

  lemma AgreeFirst(a: Bytes, b: Bytes, k: nat)
    requires LessAt(a, b, k) && k > 0
    ensures a != [] && b != [] && a[0] == b[0]
  {
    assert a[..k][0] == b[..k][0];
  }

  /** The order of keys is that of words in a dictionary. */
  lemma {:induction false} LessMeans(a: Bytes, b: Bytes)
    ensures Less(a, b) <==> Precedes(a, b)
  {
    if a == [] || b == [] || a[0] != b[0] {
      if Less(a, b) { assert LessAt(a, b, 0); }
      if k: nat :| LessAt(a, b, k) {
        if k > 0 { AgreeFirst(a, b, k); }
      }
    } else {
      LessMeans(a[1..], b[1..]);
      if k: nat :| LessAt(a[1..], b[1..], k) {
        assert a[..k + 1] == [a[0]] + a[1..][..k] && b[..k + 1] == [b[0]] + b[1..][..k];
        assert LessAt(a, b, k + 1);
      }
      if k: nat :| LessAt(a, b, k) {
        assert k > 0;
        assert a[..k][1..] == a[1..][..k - 1] && b[..k][1..] == b[1..][..k - 1];
        assert LessAt(a[1..], b[1..], k - 1);
      }
    }
  }

  lemma {:induction false} LessTransitive(a: Bytes, b: Bytes, c: Bytes)
    requires Less(a, b) && Less(b, c)
    ensures Less(a, c)
  {
    if a != [] && a[0] == b[0] == c[0] {
      LessTransitive(a[1..], b[1..], c[1..]);
    }
  }

  /** m is the first of the keys. */
  predicate First(m: Bytes, ks: set<Bytes>) {
    m in ks && forall k :: k in ks && k != m ==> Less(m, k)
  }

  lemma {:induction false} FirstExists(ks: set<Bytes>)
    requires ks != {}
    ensures exists m :: First(m, ks)
  {
    var k :| k in ks;
    if ks == {k} {
      assert First(k, ks);
    } else {
      FirstExists(ks - {k});
      var m :| First(m, ks - {k});
      LessTrichotomy(k, m);
      if Less(m, k) {
        assert First(m, ks);
      } else {
        forall x | x in ks && x != k ensures Less(k, x) {
          if x != m { LessTransitive(k, m, x); }
        }
        assert First(k, ks);
      }
    }
  }

  ghost function FirstKey(ks: set<Bytes>): (m: Bytes)
    requires ks != {}
    ensures First(m, ks)
  {
    FirstExists(ks);
    var m :| First(m, ks);
    m
  }

  lemma FirstIs(m: Bytes, ks: set<Bytes>)
    requires First(m, ks)
    ensures m in ks && FirstKey(ks) == m
  {
    LessTrichotomy(m, FirstKey(ks));
  }

  // ---- the encoding ----

  /** Python's str of an int. */
  function IntText(n: int): Bytes {
    if n < 0 then [MINUS] + Digits(-n) else Digits(n)
  }

  function EncodedInt(n: int): Bytes {
    [I] + IntText(n) + [E]
  }

  function EncodedStr(s: Bytes): Bytes {
    Digits(|s|) + [COLON] + s
  }

  ghost function Encoded(v: Value): Bytes
    decreases v
  {
    match v
    case Int(n) => EncodedInt(n)
    case Str(s) => EncodedStr(s)
    case List(l) => [L] + EncodedList(l) + [E]
    case Dict(d) => [D] + EncodedDict(v, d.Keys) + [E]
  }

  ghost function EncodedList(l: seq<Value>): Bytes
    decreases l
  {
    if l == [] then [] else Encoded(l[0]) + EncodedList(l[1..])
  }

  /** The entries of a dictionary with keys in ks, in the order of keys. */
  ghost function EncodedDict(v: Value, ks: set<Bytes>): Bytes
    requires v.Dict? && ks <= v.d.Keys
    decreases v, ks
  {
    if ks == {} then []
    else
      var k := FirstKey(ks);
      EncodedStr(k) + Encoded(v.d[k]) + EncodedDict(v, ks - {k})
  }

  // ---- the decoder, as a function ----

  /** x.index(c, f) */
  function Index(x: Bytes, c: byte, f: nat): (r: Option<nat>)
    ensures r.Some? ==> f <= r.value < |x| && x[r.value] == c && forall i :: f <= i < r.value ==> x[i] != c
    ensures r.None? ==> forall i :: f <= i < |x| ==> x[i] != c
    decreases |x| - f
  {
    if f >= |x| then None else if x[f] == c then Some(f) else Index(x, c, f + 1)
  }

  /** Python's int, on plain decimals only. */
  function ParseNat(s: Bytes): Option<int> {
    if s == [] || !AllDigits(s) then None else Some(Decimal.Value(s))
  }

  function ParseInt(s: Bytes): Option<int> {
    if s != [] && s[0] == MINUS then
      match ParseNat(s[1..]) case None => None case Some(n) => Some(-n)
    else ParseNat(s)
  }

  function DecodeInt(x: Bytes, f: nat): (r: Option<(int, nat)>)
    requires f < |x|
    ensures r.Some? ==> f < r.value.1 <= |x|
  {
    match Index(x, E, f + 1)
    case None => None
    case Some(newf) =>
      var s := x[f + 1..newf];
      match ParseInt(s)
      case None => None
      case Some(n) =>
        if s[0] == MINUS then if s[1] == ZERO then None else Some((n, newf + 1))
        else if s[0] == ZERO && |s| != 1 then None
        else Some((n, newf + 1))
  }

  /** The string is cut short where the input ends; the offset after it then lies beyond the end. */
  function DecodeStr(x: Bytes, f: nat): (r: Option<(Bytes, nat)>)
    ensures r.Some? ==> f < r.value.1
  {
    match Index(x, COLON, f)
    case None => None
    case Some(colon) =>
      match ParseNat(x[f..colon])
      case None => None
      case Some(n) =>
        DigitsOfValue(x[f..colon]);
        if x[f] == ZERO && colon != f + 1 then None
        else Some((x[colon + 1..Min(|x|, colon + 1 + n)], colon + 1 + n))
  }

  function Left(x: Bytes, f: nat): nat {
    if f < |x| then |x| - f else 0
  }

  /** decode_func[x[f]](x, f) */
  function Decoded(x: Bytes, f: nat): (r: Option<(Value, nat)>)
    ensures r.Some? ==> f < r.value.1
    decreases Left(x, f), 0
  {
    if f >= |x| then None
    else if x[f] == L then
      match DecodedList(x, f + 1) case None => None case Some((l, e)) => Some((List(l), e))
    else if x[f] == D then
      match DecodedDict(x, f + 1, None) case None => None case Some((d, e)) => Some((Dict(d), e))
    else if x[f] == I then
      match DecodeInt(x, f) case None => None case Some((n, e)) => Some((Int(n), e))
    else if IsDigit(x[f]) then
      match DecodeStr(x, f) case None => None case Some((s, e)) => Some((Str(s), e))
    else None
  }

  /** The items from f up to the closing e. */
  function DecodedList(x: Bytes, f: nat): (r: Option<(seq<Value>, nat)>)
    ensures r.Some? ==> f < r.value.1
    decreases Left(x, f), 1
  {
    if f >= |x| then None
    else if x[f] == E then Some(([], f + 1))
    else
      match Decoded(x, f)
      case None => None
      case Some((v, g)) =>
        match DecodedList(x, g) case None => None case Some((l, e)) => Some(([v] + l, e))
  }

  predicate After(k: Bytes, lastkey: Option<Bytes>) {
    lastkey.None? || Less(lastkey.value, k)
  }

  /** The entries from f up to the closing e, with keys in order after lastkey. */
  function DecodedDict(x: Bytes, f: nat, lastkey: Option<Bytes>): (r: Option<(map<Bytes, Value>, nat)>)
    ensures r.Some? ==> f < r.value.1
    decreases Left(x, f), 1
  {
    if f >= |x| then None
    else if x[f] == E then Some((map[], f + 1))
    else
      match DecodeStr(x, f)
      case None => None
      case Some((k, g)) =>
        if !After(k, lastkey) then None
        else
          match Decoded(x, g)
          case None => None
          case Some((v, h)) =>
            match DecodedDict(x, h, Some(k)) case None => None case Some((d, e)) => Some((d[k := v], e))
  }

  // ---- encodings inside a longer input ----

  /** s stands in x at offset f. */
  predicate Stands(x: Bytes, f: nat, s: Bytes) {
    f + |s| <= |x| && x[f..f + |s|] == s
  }

  lemma StandsSplit(x: Bytes, f: nat, s: Bytes, t: Bytes)
    ensures Stands(x, f, s + t) <==> Stands(x, f, s) && Stands(x, f + |s|, t)
  {
    if f + |s| + |t| <= |x| {
      var u := x[f..f + |s| + |t|];
      assert u[..|s|] == x[f..f + |s|] && u[|s|..] == x[f + |s|..f + |s| + |t|];
      assert (s + t)[..|s|] == s && (s + t)[|s|..] == t && u == u[..|s|] + u[|s|..];
      assert |s + t| == |s| + |t| && f + |s + t| == f + |s| + |t|;
    }
  }

  lemma StandsAt(x: Bytes, f: nat, s: Bytes, i: nat)
    requires Stands(x, f, s) && i < |s|
    ensures f + |s| <= |x| && x[f + i] == s[i]
  {
    assert x[f..f + |s|][i] == x[f + i];
  }

  lemma StandsIs(x: Bytes, f: nat, s: Bytes)
    requires Stands(x, f, s)
    ensures f + |s| <= |x| && x[f..f + |s|] == s
  {
  }

  lemma {:induction false} IndexIs(x: Bytes, c: byte, f: nat, i: nat)
    requires f <= i < |x| && x[i] == c && forall j :: f <= j < i ==> x[j] != c
    ensures Index(x, c, f) == Some(i)
    decreases i - f
  {
    if f < i { IndexIs(x, c, f + 1, i); }
  }

  // ---- decoding gives back what was encoded ----

  /** The text of an int passes the decoder's tests. */
  lemma IntTextParses(n: int)
    ensures var s := IntText(n);
            && ParseInt(s) == Some(n) && s != [] && E !in s
            && (s[0] == MINUS ==> |s| > 1 && s[1] != ZERO) && (s[0] == ZERO ==> |s| == 1)
  {
    hide Digits, Decimal.Value;
    var s := IntText(n);
    if n < 0 {
      assert s[1..] == Digits(-n);
      ValueOfDigits(-n);
    } else {
      ValueOfDigits(n);
      DigitsOfValue(s);
    }
  }

  lemma IntBack(x: Bytes, f: nat, n: int)
    requires Stands(x, f, EncodedInt(n))
    ensures f < |x| && x[f] == I && DecodeInt(x, f) == Some((n, f + |EncodedInt(n)|))
  {
    hide Stands, Index, IntText, ParseInt;
    var s := IntText(n);
    IntTextParses(n);
    StandsSplit(x, f, [I] + s, [E]);
    StandsSplit(x, f, [I], s);
    StandsAt(x, f, [I], 0);
    StandsAt(x, f + 1 + |s|, [E], 0);
    StandsIs(x, f + 1, s);
    forall j | f + 1 <= j < f + 1 + |s| ensures x[j] != E {
      StandsAt(x, f + 1, s, j - f - 1);
    }
    IndexIs(x, E, f + 1, f + 1 + |s|);
  }

  lemma StrBack(x: Bytes, f: nat, s: Bytes)
    requires Stands(x, f, EncodedStr(s))
    ensures f < |x| && IsDigit(x[f]) && DecodeStr(x, f) == Some((s, f + |EncodedStr(s)|))
  {
    hide Digits, Decimal.Value;
    var n := Digits(|s|);
    StandsSplit(x, f, n + [COLON], s);
    StandsSplit(x, f, n, [COLON]);
    StandsAt(x, f, n, 0);
    StandsAt(x, f + |n|, [COLON], 0);
    forall j | f <= j < f + |n| ensures x[j] != COLON {
      StandsAt(x, f, n, j - f);
    }
    IndexIs(x, COLON, f, f + |n|);
    ValueOfDigits(|s|);
    DigitsOfValue(n);
  }

  lemma EncodedStarts(v: Value)
    ensures Encoded(v) != [] && Encoded(v)[0] != E
  {
  }

  /** Wherever the encoding of a value stands, decoding there gives the value and the offset after it. */
  lemma {:induction false} DecodesBack(x: Bytes, f: nat, v: Value)
    requires Stands(x, f, Encoded(v))
    ensures Decoded(x, f) == Some((v, f + |Encoded(v)|))
    decreases v
  {
    hide Stands, DecodeInt, DecodeStr, EncodedInt, EncodedStr;
    match v
    case Int(n) => IntBack(x, f, n);
    case Str(s) => StrBack(x, f, s);
    case List(l) =>
      assert Encoded(v) == [L] + (EncodedList(l) + [E]);
      StandsSplit(x, f, [L], EncodedList(l) + [E]);
      StandsAt(x, f, [L], 0);
      ListBack(x, f + 1, l);
    case Dict(d) =>
      assert Encoded(v) == [D] + (EncodedDict(v, d.Keys) + [E]);
      StandsSplit(x, f, [D], EncodedDict(v, d.Keys) + [E]);
      StandsAt(x, f, [D], 0);
      DictBack(x, f + 1, v, d.Keys, None);
      assert (map k | k in d.Keys :: d[k]) == d;
  }

  lemma {:induction false} ListBack(x: Bytes, f: nat, l: seq<Value>)
    requires Stands(x, f, EncodedList(l) + [E])
    ensures DecodedList(x, f) == Some((l, f + |EncodedList(l)| + 1))
    decreases l
  {
    hide Stands, Decoded, Encoded;
    StandsSplit(x, f, EncodedList(l), [E]);
    StandsAt(x, f + |EncodedList(l)|, [E], 0);
    if l != [] {
      EncodedStarts(l[0]);
      StandsSplit(x, f, Encoded(l[0]), EncodedList(l[1..]));
      StandsAt(x, f, Encoded(l[0]), 0);
      DecodesBack(x, f, l[0]);
      StandsSplit(x, f + |Encoded(l[0])|, EncodedList(l[1..]), [E]);
      ListBack(x, f + |Encoded(l[0])|, l[1..]);
      assert l == [l[0]] + l[1..];
    }
  }

  lemma {:induction false} DictBack(x: Bytes, f: nat, v: Value, ks: set<Bytes>, lastkey: Option<Bytes>)
    requires v.Dict? && ks <= v.d.Keys && Stands(x, f, EncodedDict(v, ks) + [E])
    requires forall k :: k in ks ==> After(k, lastkey)
    ensures DecodedDict(x, f, lastkey) == Some((map k | k in ks :: v.d[k], f + |EncodedDict(v, ks)| + 1))
    decreases v, ks
  {
    hide Stands, Decoded, Encoded, EncodedStr, DecodeStr;
    StandsSplit(x, f, EncodedDict(v, ks), [E]);
    StandsAt(x, f + |EncodedDict(v, ks)|, [E], 0);
    if ks != {} {
      var k := FirstKey(ks);
      var rest := EncodedDict(v, ks - {k});
      StandsSplit(x, f, EncodedStr(k) + Encoded(v.d[k]), rest);
      StandsSplit(x, f, EncodedStr(k), Encoded(v.d[k]));
      StrBack(x, f, k);
      DecodesBack(x, f + |EncodedStr(k)|, v.d[k]);
      var g := f + |EncodedStr(k)| + |Encoded(v.d[k])|;
      StandsSplit(x, g, rest, [E]);
      DictBack(x, g, v, ks - {k}, Some(k));
      assert (map m | m in ks - {k} :: v.d[m])[k := v.d[k]] == map m | m in ks :: v.d[m];
    }
  }

  // ---- what is accepted is what would be encoded ----

  /** The decoder's tests leave only the text of an int. */
  lemma IntTextAgain(s: Bytes)
    requires ParseInt(s).Some?
    requires s[0] == MINUS ==> s[1] != ZERO
    requires s[0] == ZERO ==> |s| == 1
    ensures IntText(ParseInt(s).value) == s
  {
    if s[0] == MINUS {
      DigitsOfValue(s[1..]);
      ValueOfDigits(0);
    } else {
      DigitsOfValue(s);
    }
  }

  lemma IntAgain(x: Bytes, f: nat)
    requires f < |x| && x[f] == I && DecodeInt(x, f).Some?
    ensures var (n, e) := DecodeInt(x, f).value; e == f + |EncodedInt(n)| && Stands(x, f, EncodedInt(n))
  {
    var (n, e) := DecodeInt(x, f).value;
    var s := x[f + 1..e - 1];
    IntTextAgain(s);
    hide ParseInt, IntText;
    assert x[f..e] == [I] + s + [E];
  }

  lemma StrAgain(x: Bytes, f: nat)
    requires DecodeStr(x, f).Some? && DecodeStr(x, f).value.1 <= |x|
    ensures var (s, e) := DecodeStr(x, f).value; e == f + |EncodedStr(s)| && Stands(x, f, EncodedStr(s))
  {
    var (s, e) := DecodeStr(x, f).value;
    var colon := Index(x, COLON, f).value;
    DigitsOfValue(x[f..colon]);
    assert x[f..e] == x[f..colon] + [COLON] + s;
  }

  /** An accepted input is the encoding of what it decodes to. */
  lemma {:induction false} EncodesAgain(x: Bytes, f: nat)
    requires Decoded(x, f).Some? && Decoded(x, f).value.1 <= |x|
    ensures var (v, e) := Decoded(x, f).value; e == f + |Encoded(v)| && Stands(x, f, Encoded(v))
    decreases Left(x, f), 0
  {
    hide DecodeInt, DecodeStr, EncodedInt, EncodedStr;
    var (v, e) := Decoded(x, f).value;
    StandsFirst(x, f);
    match v
    case Int(n) => IntAgain(x, f);
    case Str(s) => StrAgain(x, f);
    case List(l) =>
      ListAgain(x, f + 1);
      StandsSplit(x, f, [L], EncodedList(l) + [E]);
      assert Encoded(v) == [L] + (EncodedList(l) + [E]);
    case Dict(d) =>
      DictAgain(x, f + 1, None);
      StandsSplit(x, f, [D], EncodedDict(v, d.Keys) + [E]);
      assert Encoded(v) == [D] + (EncodedDict(v, d.Keys) + [E]);
  }

  lemma StandsFirst(x: Bytes, f: nat)
    requires f < |x|
    ensures Stands(x, f, [x[f]])
  {
  }

  lemma {:induction false} ListAgain(x: Bytes, f: nat)
    requires DecodedList(x, f).Some? && DecodedList(x, f).value.1 <= |x|
    ensures var (l, e) := DecodedList(x, f).value; e == f + |EncodedList(l)| + 1 && Stands(x, f, EncodedList(l) + [E])
    decreases Left(x, f), 1
  {
    hide Stands, Decoded, Encoded;
    var (l, e) := DecodedList(x, f).value;
    StandsFirst(x, f);
    if l != [] {
      var (v, g) := Decoded(x, f).value;
      assert DecodedList(x, g).Some?;
      assert l == [v] + DecodedList(x, g).value.0;
      EncodesAgain(x, f);
      ListAgain(x, g);
      StandsSplit(x, f, Encoded(v), EncodedList(l[1..]) + [E]);
      assert EncodedList(l) + [E] == Encoded(v) + (EncodedList(l[1..]) + [E]);
    } else {
      assert EncodedList(l) + [E] == [E];
    }
  }

  /** Entries that agree are encoded alike. */
  lemma {:induction false} EncodedDictAgree(v: Value, w: Value, ks: set<Bytes>)
    requires v.Dict? && w.Dict? && ks <= v.d.Keys && ks <= w.d.Keys && forall k :: k in ks ==> v.d[k] == w.d[k]
    ensures EncodedDict(v, ks) == EncodedDict(w, ks)
    decreases ks
  {
    if ks != {} {
      EncodedDictAgree(v, w, ks - {FirstKey(ks)});
    }
  }

  lemma {:induction false} KeysAfter(x: Bytes, f: nat, lastkey: Option<Bytes>)
    requires DecodedDict(x, f, lastkey).Some?
    ensures forall k :: k in DecodedDict(x, f, lastkey).value.0 ==> After(k, lastkey)
    decreases Left(x, f)
  {
    hide Decoded, DecodeStr, Less;
    if x[f] != E {
      var (k, g) := DecodeStr(x, f).value;
      var h := Decoded(x, g).value.1;
      KeysAfter(x, h, Some(k));
      forall m | m in DecodedDict(x, h, Some(k)).value.0 ensures After(m, lastkey) {
        if lastkey.Some? { LessTransitive(lastkey.value, k, m); }
      }
    }
  }

  lemma {:induction false} DictAgain(x: Bytes, f: nat, lastkey: Option<Bytes>)
    requires DecodedDict(x, f, lastkey).Some? && DecodedDict(x, f, lastkey).value.1 <= |x|
    ensures var (d, e) := DecodedDict(x, f, lastkey).value;
            e == f + |EncodedDict(Dict(d), d.Keys)| + 1 && Stands(x, f, EncodedDict(Dict(d), d.Keys) + [E])
    decreases Left(x, f), 1
  {
    hide Stands, Decoded, Encoded, EncodedStr, DecodeStr, EncodedDict;
    var (d, e) := DecodedDict(x, f, lastkey).value;
    StandsFirst(x, f);
    if x[f] != E {
      var (k, g) := DecodeStr(x, f).value;
      var (v, h) := Decoded(x, g).value;
      var (rest, e') := DecodedDict(x, h, Some(k)).value;
      assert d == rest[k := v];
      StrAgain(x, f);
      EncodesAgain(x, g);
      DictAgain(x, h, Some(k));
      KeysAfter(x, h, Some(k));
      FirstEntry(d, k, v, rest);
      var t := EncodedDict(Dict(rest), rest.Keys) + [E];
      StandsSplit(x, f, EncodedStr(k) + Encoded(v), t);
      StandsSplit(x, f, EncodedStr(k), Encoded(v));
      assert EncodedDict(Dict(d), d.Keys) + [E] == EncodedStr(k) + Encoded(v) + t;
    } else {
      NoEntries(d);
      assert EncodedDict(Dict(d), d.Keys) + [E] == [E];
    }
  }

  lemma NoEntries(d: map<Bytes, Value>)
    requires d == map[]
    ensures EncodedDict(Dict(d), d.Keys) == []
  {
  }

  lemma FirstEntry(d: map<Bytes, Value>, k: Bytes, v: Value, rest: map<Bytes, Value>)
    requires d == rest[k := v] && forall m :: m in rest ==> Less(k, m)
    ensures EncodedDict(Dict(d), d.Keys) == EncodedStr(k) + Encoded(v) + EncodedDict(Dict(rest), rest.Keys)
  {
    LessTrichotomy(k, k);
    assert d.Keys == rest.Keys + {k} && d.Keys - {k} == rest.Keys;
    FirstIs(k, d.Keys);
    EncodedDictAgree(Dict(d), Dict(rest), rest.Keys);
  }

  // ---- whole inputs ----

  function BDecoded(x: Bytes): Option<Value> {
    match Decoded(x, 0)
    case None => None
    case Some((v, e)) => if e == |x| then Some(v) else None
  }

  /** Decoding undoes encoding, and accepts nothing but encodings. */
  lemma RoundTrip(v: Value, x: Bytes)
    ensures BDecoded(x) == Some(v) <==> x == Encoded(v)
  {
    if x == Encoded(v) {
      assert x[0..|x|] == x;
      DecodesBack(x, 0, v);
    }
    if BDecoded(x) == Some(v) {
      EncodesAgain(x, 0);
      assert x[0..|x|] == x;
    }
  }

  // ---- the decoder, as the program has it ----

  /** l, and then the rest, if there is any. */
  function Prepend(r: seq<Value>, o: Option<(seq<Value>, nat)>): Option<(seq<Value>, nat)> {
    match o case None => None case Some((l, e)) => Some((r + l, e))
  }

  method Decode(x: Bytes, f: nat) returns (r: Option<(Value, nat)>)
    ensures r == Decoded(x, f)
    decreases Left(x, f), 0
  {
    if f >= |x| { return None; }
    if x[f] == L {
      var l := DecodeList(x, f);
      r := match l case None => None case Some((l, e)) => Some((List(l), e));
    } else if x[f] == D {
      var d := DecodeDict(x, f);
      r := match d case None => None case Some((d, e)) => Some((Dict(d), e));
    } else if x[f] == I {
      var n := DecodeInt(x, f);
      r := match n case None => None case Some((n, e)) => Some((Int(n), e));
    } else if IsDigit(x[f]) {
      var s := DecodeStr(x, f);
      r := match s case None => None case Some((s, e)) => Some((Str(s), e));
    } else {
      r := None;
    }
  }

  method DecodeList(x: Bytes, f: nat) returns (r: Option<(seq<Value>, nat)>)
    requires f < |x|
    ensures r == DecodedList(x, f + 1)
    decreases Left(x, f + 1), 1
  {
    var l: seq<Value>, g := [], f + 1;
    PrependNothing(DecodedList(x, g));
    while g < |x| && x[g] != E
      invariant f < g && DecodedList(x, f + 1) == Prepend(l, DecodedList(x, g))
      decreases Left(x, g)
    {
      var v := Decode(x, g);
      if v.None? { return None; }
      Prepended(l, v.value.0, DecodedList(x, v.value.1));
      l, g := l + [v.value.0], v.value.1;
    }
    if g >= |x| { return None; }
    return Some((l, g + 1));
  }

  lemma PrependNothing(o: Option<(seq<Value>, nat)>)
    ensures Prepend([], o) == o && forall l, e: nat :: Prepend(l, Some(([], e))) == Some((l, e))
  {
    assert forall l: seq<Value> :: l + [] == l;
    if o.Some? { assert [] + o.value.0 == o.value.0; }
  }

  lemma Prepended(l: seq<Value>, v: Value, o: Option<(seq<Value>, nat)>)
    ensures Prepend(l, match o case None => None case Some((m, e)) => Some(([v] + m, e))) == Prepend(l + [v], o)
  {
    if o.Some? {
      assert l + ([v] + o.value.0) == l + [v] + o.value.0;
    }
  }

  /** d, with the later entries. */
  function Extend(d: map<Bytes, Value>, o: Option<(map<Bytes, Value>, nat)>): Option<(map<Bytes, Value>, nat)> {
    match o case None => None case Some((m, e)) => Some((m + d, e))
  }

  method DecodeDict(x: Bytes, f: nat) returns (r: Option<(map<Bytes, Value>, nat)>)
    requires f < |x|
    ensures r == DecodedDict(x, f + 1, None)
    decreases Left(x, f + 1), 1
  {
    hide Decoded, DecodeStr, Extend, Less;
    var d: map<Bytes, Value>, g := map[], f + 1;
    var lastkey: Option<Bytes> := None;
    ExtendNothing(DecodedDict(x, g, lastkey));
    while g < |x| && x[g] != E
      invariant f < g && DecodedDict(x, f + 1, None) == Extend(d, DecodedDict(x, g, lastkey))
      invariant forall k :: k in d ==> lastkey.Some? && (k == lastkey.value || Less(k, lastkey.value))
      decreases Left(x, g)
    {
      ExtendNone(d);
      var key := DecodeStr(x, g);
      if key.None? { return None; }
      var (k, h) := key.value;
      if !After(k, lastkey) { return None; }
      var v := Decode(x, h);
      if v.None? { return None; }
      forall m | m in d ensures Less(m, k) {
        if m != lastkey.value { LessTransitive(m, lastkey.value, k); }
      }
      LessTrichotomy(k, k);
      ghost var later := DecodedDict(x, v.value.1, Some(k));
      if later.Some? { KeysAfter(x, v.value.1, Some(k)); }
      Extended(d, k, v.value.0, DecodedDict(x, v.value.1, Some(k)));
      lastkey := Some(k);
      d, g := d[k := v.value.0], v.value.1;
    }
    ExtendNone(d);
    if g >= |x| { return None; }
    return Some((d, g + 1));
  }

  lemma ExtendNothing(o: Option<(map<Bytes, Value>, nat)>)
    ensures Extend(map[], o) == o && forall d, e: nat :: Extend(d, Some((map[], e))) == Some((d, e))
  {
    assert forall d: map<Bytes, Value> :: map[] + d == d;
    if o.Some? { assert o.value.0 + map[] == o.value.0; }
  }

  lemma ExtendNone(d: map<Bytes, Value>)
    ensures Extend(d, None) == None
  {
  }

  lemma Extended(d: map<Bytes, Value>, k: Bytes, v: Value, o: Option<(map<Bytes, Value>, nat)>)
    requires k !in d && (o.Some? ==> k !in o.value.0)
    ensures Extend(d, match o case None => None case Some((m, e)) => Some((m[k := v], e))) == Extend(d[k := v], o)
  {
    if o.Some? {
      assert o.value.0[k := v] + d == o.value.0 + d[k := v];
    }
  }

  method BDecode(x: Bytes) returns (r: Option<Value>)
    ensures forall v :: r == Some(v) <==> x == Encoded(v)
  {
    var d := Decode(x, 0);
    forall v ensures BDecoded(x) == Some(v) <==> x == Encoded(v) { RoundTrip(v, x); }
    match d
    case None => return None;
    case Some((v, e)) => return if e == |x| then Some(v) else None;
  }

  // ---- the encoder, as the program has it ----

  /** The keys in order. */
  ghost predicate InOrder(l: seq<Bytes>, ks: set<Bytes>) {
    if l == [] then ks == {} else First(l[0], ks) && InOrder(l[1..], ks - {l[0]})
  }

  /** Each key precedes the later ones, byte by byte. */
  ghost predicate Rising(l: seq<Bytes>) {
    forall i, j :: 0 <= i < j < |l| ==> Precedes(l[i], l[j])
  }

  lemma {:induction false} OrderRises(l: seq<Bytes>, ks: set<Bytes>)
    requires InOrder(l, ks)
    ensures Rising(l) && NoRepeats(l) && forall k :: k in l <==> k in ks
  {
    if l != [] {
      OrderRises(l[1..], ks - {l[0]});
      hide Less, Precedes;
      assert l == [l[0]] + l[1..];
      assert forall i :: 0 < i < |l| ==> l[i] == l[1..][i - 1] && l[i] in l[1..];
      forall i, j | 0 <= i < j < |l| ensures Precedes(l[i], l[j]) && l[i] != l[j] {
        if i == 0 {
          LessMeans(l[0], l[j]);
        } else {
          assert Precedes(l[1..][i - 1], l[1..][j - 1]);
        }
      }
    }
  }

  /** x.items() sorted. */
  method SortedKeys(ks: set<Bytes>) returns (l: seq<Bytes>)
    ensures InOrder(l, ks) && Rising(l)
    decreases ks
  {
    if ks == {} { return []; }
    FirstExists(ks);
    var k :| First(k, ks);
    l := SortedKeys(ks - {k});
    l := [k] + l;
    OrderRises(l, ks);
  }

  lemma NextEntry(v: Value, l: seq<Bytes>, ks: set<Bytes>)
    requires v.Dict? && ks <= v.d.Keys && InOrder(l, ks)
    ensures l == [] ==> EncodedDict(v, ks) == []
    ensures l != [] ==> l[0] in ks && InOrder(l[1..], ks - {l[0]})
                        && EncodedDict(v, ks) == EncodedStr(l[0]) + Encoded(v.d[l[0]]) + EncodedDict(v, ks - {l[0]})
  {
    if l != [] { FirstIs(l[0], ks); }
  }

  // ---- the format ----

  ghost function Entries(d: map<Bytes, Value>, l: seq<Bytes>): Bytes
    requires forall k :: k in l ==> k in d
  {
    if l == [] then []
    else Digits(|l[0]|) + [58] + l[0] + Encoded(d[l[0]]) + Entries(d, l[1..])
  }

  lemma {:induction false} EntriesInOrder(v: Value, l: seq<Bytes>, ks: set<Bytes>)
    requires v.Dict? && ks <= v.d.Keys && InOrder(l, ks)
    ensures (forall k :: k in l ==> k in v.d) && EncodedDict(v, ks) == Entries(v.d, l)
  {
    NextEntry(v, l, ks);
    OrderRises(l, ks);
    if l != [] {
      hide Encoded, EncodedDict, InOrder, Rising, NoRepeats;
      EntriesInOrder(v, l[1..], ks - {l[0]});
      assert forall k :: k in l[1..] ==> k in l;
    }
  }

  lemma {:induction false} OrderExists(ks: set<Bytes>) returns (l: seq<Bytes>)
    ensures InOrder(l, ks)
  {
    if ks == {} { return []; }
    var k := FirstKey(ks);
    l := OrderExists(ks - {k});
    l := [k] + l;
  }

  /** The format in literal terms: i, an int in decimal and e; the length of a string in decimal, a colon and
      its bytes; l, the items and e; d, the entries with their keys rising, and e. */
  lemma Format(v: Value) returns (keys: seq<Bytes>)
    ensures v.Int? ==> Encoded(v) == [105] + (if v.n < 0 then [45] + Digits(-v.n) else Digits(v.n)) + [101]
    ensures v.Str? ==> Encoded(v) == Digits(|v.s|) + [58] + v.s
    ensures v.List? ==> Encoded(v) == [108] + Joined(seq(|v.l|, i requires 0 <= i < |v.l| => Encoded(v.l[i]))) + [101]
    ensures v.Dict? ==> Rising(keys) && NoRepeats(keys) && (forall k :: k in keys <==> k in v.d)
                        && Encoded(v) == [100] + Entries(v.d, keys) + [101]
  {
    keys := [];
    if v.List? { ItemsJoined(v.l); }
    if v.Dict? {
      keys := OrderExists(v.d.Keys);
      OrderRises(keys, v.d.Keys);
      EntriesInOrder(v, keys, v.d.Keys);
    }
  }

  lemma {:induction false} ItemsJoined(l: seq<Value>)
    ensures EncodedList(l) == Joined(seq(|l|, i requires 0 <= i < |l| => Encoded(l[i])))
  {
    if l != [] {
      ItemsJoined(l[1..]);
      var all, rest := seq(|l|, i requires 0 <= i < |l| => Encoded(l[i])), seq(|l[1..]|, i requires 0 <= i < |l[1..]| => Encoded(l[1..][i]));
      assert all[1..] == rest;
    }
  }

  lemma {:induction false} DictEnds(x: Bytes, f: nat, lastkey: Option<Bytes>)
    requires DecodedDict(x, f, lastkey).Some?
    ensures DecodedDict(x, f, lastkey).value.1 <= |x|
    decreases Left(x, f)
  {
    hide Decoded, DecodeStr, After;
    if x[f] != E {
      var (k, g) := DecodeStr(x, f).value;
      DictEnds(x, Decoded(x, g).value.1, Some(k));
    }
  }

  /** The keys of a dictionary are accepted in rising order. */
  lemma KeysRead(x: Bytes, f: nat) returns (keys: seq<Bytes>)
    requires DecodedDict(x, f, None).Some?
    ensures var (d, e) := DecodedDict(x, f, None).value;
            && Rising(keys) && NoRepeats(keys) && (forall k :: k in keys <==> k in d)
            && e <= |x| && x[f..e] == Entries(d, keys) + [101]
  {
    var (d, e) := DecodedDict(x, f, None).value;
    DictEnds(x, f, None);
    DictAgain(x, f, None);
    keys := OrderExists(d.Keys);
    OrderRises(keys, d.Keys);
    EntriesInOrder(Dict(d), keys, d.Keys);
    hide Entries, EncodedDict, DecodedDict;
    StandsIs(x, f, EncodedDict(Dict(d), d.Keys) + [E]);
  }

  /** The list of parts that the encoders append to. */
  class Output {
    var r: seq<Bytes>

    constructor ()
      ensures r == []
    {
      r := [];
    }

    ghost function Text(): Bytes
      reads this
    {
      Joined(r)
    }

    method Append(s: Bytes)
      modifies this
      ensures Text() == old(Text()) + s
    {
      JoinedMore(r, s);
      r := r + [s];
    }

    method EncodeInt(n: int)
      modifies this
      ensures Text() == old(Text()) + EncodedInt(n)
    {
      hide Joined, IntText;
      Append([I]);
      Append(IntText(n));
      Append([E]);
    }

    method EncodeStr(s: Bytes)
      modifies this
      ensures Text() == old(Text()) + EncodedStr(s)
    {
      Append(Digits(|s|));
      Append([COLON]);
      Append(s);
    }

    method Encode(v: Value)
      modifies this
      ensures Text() == old(Text()) + Encoded(v)
      decreases v
    {
      hide Joined, EncodedInt, EncodedStr, EncodedList, EncodedDict;
      match v
      case Int(n) => EncodeInt(n);
      case Str(s) => EncodeStr(s);
      case List(l) =>
        Append([L]);
        EncodeList(v);
        Append([E]);
      case Dict(d) =>
        Append([D]);
        EncodeDict(v);
        Append([E]);
    }

    method EncodeList(v: Value)
      requires v.List?
      modifies this
      ensures Text() == old(Text()) + EncodedList(v.l)
      decreases v, 0
    {
      hide Joined, Encoded;
      ghost var done: Bytes := [];
      for i := 0 to |v.l|
        invariant EncodedList(v.l) == done + EncodedList(v.l[i..]) && Text() == old(Text()) + done
      {
        assert v.l[i..][1..] == v.l[i + 1..];
        Encode(v.l[i]);
        done := done + Encoded(v.l[i]);
      }
    }

    method EncodeDict(v: Value)
      requires v.Dict?
      modifies this
      ensures Text() == old(Text()) + EncodedDict(v, v.d.Keys)
      decreases v, 0
    {
      hide Joined, Encoded, EncodedStr, First, InOrder, EncodedDict, Rising, Precedes;
      var keys := SortedKeys(v.d.Keys);
      ghost var ks, done: Bytes := v.d.Keys, [];
      for i := 0 to |keys|
        invariant ks <= v.d.Keys && InOrder(keys[i..], ks)
        invariant EncodedDict(v, v.d.Keys) == done + EncodedDict(v, ks) && Text() == old(Text()) + done
      {
        var k := keys[i];
        assert keys[i..][1..] == keys[i + 1..] && keys[i..][0] == k;
        NextEntry(v, keys[i..], ks);
        EncodeStr(k);
        Encode(v.d[k]);
        done := done + (EncodedStr(k) + Encoded(v.d[k]));
        ks := ks - {k};
      }
      NextEntry(v, keys[|keys|..], ks);
    }
  }

  method BEncode(v: Value) returns (x: Bytes)
    ensures x == Encoded(v) && BDecoded(x) == Some(v)
  {
    var o := new Output();
    o.Encode(v);
    x := Joined(o.r);
    RoundTrip(v, x);
  }
}
