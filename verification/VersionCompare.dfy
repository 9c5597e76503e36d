/** Debian version order: the pointer loop of verrevcmp against comparison of keys. */
module VersionCompare {
  import opened Basics
  import opened Decimal

  /** An ASCII character other than the terminator. */
  type Ascii = c: int | 0 < c < 128 witness 1

  type Text = seq<Ascii>

  const TILDE: int := 126

  predicate IsAlpha(c: int) { 65 <= c <= 90 || 97 <= c <= 122 }

  /** What dereferencing a pointer into s gives: it may point at the terminator, but not past it. */
  function At(s: Text, i: nat): int
    requires i <= |s|
  {
    if i < |s| then s[i] else 0
  }

  /** Letters come before other characters, and a tilde before everything, even the end. */
  function Order(c: int): (r: int)
    requires 0 <= c < 128
    ensures -1 <= r < 384 && (r == 0 <==> c == 0 || IsDigit(c))
  {
    if c == TILDE then -1
    else if IsDigit(c) then 0
    else if c == 0 then 0
    else if IsAlpha(c) then c
    else c + 256
  }

  // ---- keys ----

  /** How many digits s starts with. */
  function DigitsIn(s: Text): (n: nat)
    ensures n <= |s| && (n < |s| ==> !IsDigit(s[n])) && forall i :: 0 <= i < n ==> IsDigit(s[i])
  {
    if s == [] || !IsDigit(s[0]) then 0 else 1 + DigitsIn(s[1..])
  }

  /** The key of what is left of a version in the middle of a run of non-digits: the orders of the
      run, closed by 0, and the number after it; then the same again for the rest. */
  function TextKey(s: Text): seq<int>
    decreases |s|, 1
  {
    if s != [] && !IsDigit(s[0]) then [Order(s[0])] + TextKey(s[1..]) else [0] + NumberKey(s)
  }

  /** The same, from where a run of digits may start. */
  function NumberKey(s: Text): seq<int>
    decreases |s|, if s != [] && !IsDigit(s[0]) then 2 else 0
  {
    var rest := s[DigitsIn(s)..];
    [Value(s[..DigitsIn(s)])] + if rest == [] then [] else TextKey(rest)
  }

  function Key(s: Text): seq<int> {
    if s == [] then [] else TextKey(s)
  }

  // ---- comparison of keys, as if both went on with zeros ----

  function Pad(a: seq<int>, i: nat): int {
    if i < |a| then a[i] else 0
  }

  function Tail(a: seq<int>): seq<int> {
    if a == [] then [] else a[1..]
  }

  function Sign(r: int): int {
    if r < 0 then -1 else if r > 0 then 1 else 0
  }

  function Cmp(a: seq<int>, b: seq<int>): (r: int)
    decreases |a| + |b|
  {
    if a == [] && b == [] then 0
    else if Pad(a, 0) != Pad(b, 0) then Sign(Pad(a, 0) - Pad(b, 0))
    else Cmp(Tail(a), Tail(b))
  }

  /** a and b agree before position k, where they differ. */
  ghost predicate DifferAt(a: seq<int>, b: seq<int>, k: nat) {
    Pad(a, k) != Pad(b, k) && forall i :: 0 <= i < k ==> Pad(a, i) == Pad(b, i)
  }

  /** Cmp is lexicographic comparison of the keys continued with zeros. */
  lemma {:induction false} CmpMeaning(a: seq<int>, b: seq<int>)
    ensures Cmp(a, b) == 0 <==> forall i: nat :: Pad(a, i) == Pad(b, i)
    ensures Cmp(a, b) != 0 ==> exists k: nat :: DifferAt(a, b, k) && Cmp(a, b) == Sign(Pad(a, k) - Pad(b, k))
    decreases |a| + |b|
  {
    if a == [] && b == [] {
    } else if Pad(a, 0) != Pad(b, 0) {
      assert DifferAt(a, b, 0);
    } else {
      CmpMeaning(Tail(a), Tail(b));
      assert forall i: nat :: i > 0 ==> Pad(a, i) == Pad(Tail(a), i - 1) && Pad(b, i) == Pad(Tail(b), i - 1);
      assert forall i: nat :: Pad(Tail(a), i) == Pad(a, i + 1) && Pad(Tail(b), i) == Pad(b, i + 1);
      if Cmp(a, b) != 0 {
        var k: nat :| DifferAt(Tail(a), Tail(b), k) && Cmp(Tail(a), Tail(b)) == Sign(Pad(Tail(a), k) - Pad(Tail(b), k));
        assert DifferAt(a, b, k + 1);
      }
    }
  }

  lemma {:induction false} CmpAntisymmetric(a: seq<int>, b: seq<int>)
    ensures Cmp(b, a) == -Cmp(a, b)
    decreases |a| + |b|
  {
    if a != [] || b != [] {
      CmpAntisymmetric(Tail(a), Tail(b));
    }
  }

  lemma {:induction false} CmpTransitive(a: seq<int>, b: seq<int>, c: seq<int>)
    requires Cmp(a, b) <= 0 && Cmp(b, c) <= 0
    ensures Cmp(a, c) <= 0 && (Cmp(a, b) < 0 || Cmp(b, c) < 0 ==> Cmp(a, c) < 0)
    decreases |a| + |b| + |c|
  {
    if a != [] || b != [] || c != [] {
      CmpHead(a, b);
      CmpHead(b, c);
      CmpHead(a, c);
      if Pad(a, 0) == Pad(b, 0) == Pad(c, 0) {
        CmpTransitive(Tail(a), Tail(b), Tail(c));
      }
    }
  }

  lemma CmpHead(a: seq<int>, b: seq<int>)
    ensures Cmp(a, b) == if Pad(a, 0) != Pad(b, 0) then Sign(Pad(a, 0) - Pad(b, 0)) else Cmp(Tail(a), Tail(b))
  {
  }

  // ---- what the loop relies on ----

  lemma TextStep(s: Text, i: nat)
    requires i <= |s|
    ensures Pad(TextKey(s[i..]), 0) == Order(At(s, i)) && TextKey(s[i..]) != []
    ensures At(s, i) != 0 && !IsDigit(At(s, i)) ==> Tail(TextKey(s[i..])) == TextKey(s[i + 1..])
    ensures At(s, i) == 0 || IsDigit(At(s, i)) ==> Tail(TextKey(s[i..])) == NumberKey(s[i..])
  {
    if i < |s| {
      assert s[i..][1..] == s[i + 1..];
    }
  }

  lemma ZeroPadded(s: Text, t: Text)
    ensures Cmp(Key(s), Key(t)) == Cmp(TextKey(s), TextKey(t))
  {
    assert TextKey([]) == [0, 0];
    CmpZeros(Key(t));
    CmpZeros(Key(s));
    CmpAntisymmetric(Key(s), Key(t));
    CmpAntisymmetric(TextKey(s), TextKey(t));
    CmpZeros([0, 0]);
  }

  lemma CmpZeros(b: seq<int>)
    ensures Cmp([0, 0], b) == Cmp([], b) && Cmp(b, [0, 0]) == Cmp(b, [])
  {
    CmpHead([0, 0], b);
    CmpHead([], b);
    CmpHead([0], Tail(b));
    CmpHead([], Tail(b));
    CmpAntisymmetric([0, 0], b);
    CmpAntisymmetric([], b);
  }

  // ---- runs of digits ----

  /** A leading zero does not count. */
  lemma SkipZero(s: Text, i: nat)
    requires i < |s| && s[i] == ZERO
    ensures NumberKey(s[i..]) == NumberKey(s[i + 1..])
  {
    var u, v := s[i..], s[i + 1..];
    assert u[1..] == v && DigitsIn(u) == DigitsIn(v) + 1;
    assert u[..DigitsIn(u)][1..] == v[..DigitsIn(v)];
    assert u[DigitsIn(u)..] == v[DigitsIn(v)..];
    LeadingZero(u[..DigitsIn(u)]);
  }

  lemma DigitsAre(s: Text, n: nat)
    requires n <= |s| && AllDigits(s[..n]) && (n < |s| ==> !IsDigit(s[n]))
    ensures DigitsIn(s) == n
  {
    assert forall k :: 0 <= k < n ==> s[k] == s[..n][k];
  }

  /** The number that starts at i0 ends before i. */
  lemma NumberEnds(s: Text, i0: nat, i: nat)
    requires i0 <= i <= |s| && AllDigits(s[i0..i]) && !IsDigit(At(s, i))
    ensures Pad(NumberKey(s[i0..]), 0) == Value(s[i0..i]) && Tail(NumberKey(s[i0..])) == Key(s[i..])
  {
    assert s[i0..][..i - i0] == s[i0..i] && s[i0..][i - i0..] == s[i..];
    DigitsAre(s[i0..], i - i0);
  }

  /** The number that starts at i0 goes on at i, so it is greater than any that has ended by then. */
  lemma NumberGoesOn(s: Text, i0: nat, i: nat, t: Text)
    requires i0 <= i < |s| && AllDigits(s[i0..i]) && IsDigit(s[i]) && s[i0] != ZERO && AllDigits(t) && |t| == i - i0
    ensures Pad(NumberKey(s[i0..]), 0) > Value(t)
  {
    var u := s[i0..];
    assert u[..i - i0] == s[i0..i];
    assert u[i - i0] == s[i] && forall k :: 0 <= k < i - i0 ==> u[k] == s[i0..i][k];
    assert DigitsIn(u) > i - i0;
    LongerIsGreater(u[..DigitsIn(u)], t);
  }

  lemma NoDigits()
    ensures AllDigits([]) && Value([]) == 0 && Cmp(Key([]), Key([])) == 0
  {
  }

  lemma NextDigit(s: Text, i0: nat, i: nat)
    requires i0 <= i < |s| && AllDigits(s[i0..i]) && IsDigit(s[i])
    ensures AllDigits(s[i0..i + 1]) && Value(s[i0..i + 1]) == 10 * Value(s[i0..i]) + s[i] - ZERO
  {
    assert s[i0..i + 1][..i - i0] == s[i0..i];
  }

  // ---- the loop ----

  /** C's verrevcmp. It never moves past a terminator (At requires so) and its sign is that of the
      comparison of the keys. */
  method VerRevCmp(val: Text, ref: Text) returns (r: int)
    ensures Sign(r) == Cmp(Key(val), Key(ref))
    ensures -512 < r < 512
  {
    hide Cmp, Key, TextKey, NumberKey, Value, DigitsIn, AllDigits, Pad, Tail;
    NoDigits();
    var i, j := 0, 0;
    while At(val, i) != 0 || At(ref, j) != 0
      invariant i <= |val| && j <= |ref|
      invariant Cmp(Key(val), Key(ref)) == Cmp(Key(val[i..]), Key(ref[j..]))
      decreases |val| - i + |ref| - j
    {
      ghost var left := |val| - i + |ref| - j;
      var firstDiff := 0;
      ZeroPadded(val[i..], ref[j..]);

      while (At(val, i) != 0 && !IsDigit(At(val, i))) || (At(ref, j) != 0 && !IsDigit(At(ref, j)))
        invariant i <= |val| && j <= |ref| && |val| - i + |ref| - j <= left
        invariant Cmp(Key(val), Key(ref)) == Cmp(TextKey(val[i..]), TextKey(ref[j..]))
        decreases |val| - i
      {
        TextStep(val, i);
        TextStep(ref, j);
        CmpHead(TextKey(val[i..]), TextKey(ref[j..]));
        var vc, rc := Order(At(val, i)), Order(At(ref, j));
        if vc != rc { return vc - rc; }
        i, j := i + 1, j + 1;
      }
      TextStep(val, i);
      TextStep(ref, j);
      CmpHead(TextKey(val[i..]), TextKey(ref[j..]));

      while At(val, i) == ZERO
        invariant i <= |val| && |val| - i + |ref| - j <= left
        invariant Cmp(Key(val), Key(ref)) == Cmp(NumberKey(val[i..]), NumberKey(ref[j..]))
        decreases |val| - i
      {
        SkipZero(val, i);
        i := i + 1;
      }
      while At(ref, j) == ZERO
        invariant j <= |ref| && |val| - i + |ref| - j <= left
        invariant Cmp(Key(val), Key(ref)) == Cmp(NumberKey(val[i..]), NumberKey(ref[j..]))
        decreases |ref| - j
      {
        SkipZero(ref, j);
        j := j + 1;
      }
      ghost var i0, j0 := i, j;
      assert val[i..i] == [] && ref[j..j] == [];
      while IsDigit(At(val, i)) && IsDigit(At(ref, j))
        invariant i0 <= i <= |val| && j0 <= j <= |ref| && i - i0 == j - j0
        invariant AllDigits(val[i0..i]) && AllDigits(ref[j0..j])
        invariant -10 < firstDiff < 10 && Sign(firstDiff) == Sign(Value(val[i0..i]) - Value(ref[j0..j]))
        decreases |val| - i
      {
        if firstDiff == 0 { firstDiff := At(val, i) - At(ref, j); }
        NextDigit(val, i0, i);
        NextDigit(ref, j0, j);
        i, j := i + 1, j + 1;
      }
      CmpHead(NumberKey(val[i0..]), NumberKey(ref[j0..]));
      if IsDigit(At(val, i)) {
        NumberGoesOn(val, i0, i, ref[j0..j]);
        NumberEnds(ref, j0, j);
        return 1;
      }
      NumberEnds(val, i0, i);
      if IsDigit(At(ref, j)) {
        NumberGoesOn(ref, j0, j, val[i0..i]);
        return -1;
      }
      NumberEnds(ref, j0, j);
      if firstDiff != 0 { return firstDiff; }
    }
    assert val[i..] == [] && ref[j..] == [];
    return 0;
  }

  // ---- what the order is ----

  /** What two versions have in common at their start decides nothing, provided that it does not end
      within a number. */
  lemma {:induction false} CommonStart(s: Text, p: Text, q: Text)
    requires (Soft(p) && Soft(q)) || !EndsInDigit(s)
    ensures Cmp(TextKey(s + p), TextKey(s + q)) == Cmp(TextKey(p), TextKey(q))
    decreases |s|
  {
    hide Cmp, Key, TextKey, NumberKey, Value, Pad, Tail;
    if s == [] {
      assert s + p == p && s + q == q;
    } else {
      assert (s + p)[0..] == s + p && (s + q)[0..] == s + q;
      TextStep(s + p, 0);
      TextStep(s + q, 0);
      CmpHead(TextKey(s + p), TextKey(s + q));
      if !IsDigit(s[0]) {
        assert (s + p)[1..] == s[1..] + p && (s + q)[1..] == s[1..] + q;
        CommonStart(s[1..], p, q);
      } else {
        CommonNumber(s, p, q);
        CommonStart(s[DigitsIn(s)..], p, q);
      }
    }
  }

  predicate Soft(s: Text) { s == [] || !IsDigit(s[0]) }

  predicate EndsInDigit(s: Text) { s != [] && IsDigit(s[|s| - 1]) }

  lemma CommonNumber(s: Text, p: Text, q: Text)
    requires s != [] && IsDigit(s[0]) && ((Soft(p) && Soft(q)) || !EndsInDigit(s))
    ensures var rest := s[DigitsIn(s)..];
            && |rest| < |s| && (EndsInDigit(rest) ==> EndsInDigit(s))
            && Cmp(NumberKey(s + p), NumberKey(s + q)) == Cmp(TextKey(rest + p), TextKey(rest + q))
  {
    hide Cmp, Key, TextKey, NumberKey, Value, Pad, Tail;
    var n := DigitsIn(s);
    NumberOf(s, p, n);
    NumberOf(s, q, n);
    CmpHead(NumberKey(s + p), NumberKey(s + q));
    ZeroPadded(s[n..] + p, s[n..] + q);
  }

  lemma NumberOf(s: Text, p: Text, n: nat)
    requires n <= |s| && n == DigitsIn(s) && (n < |s| || Soft(p))
    ensures Pad(NumberKey(s + p), 0) == Value(s[..n]) && Tail(NumberKey(s + p)) == Key(s[n..] + p)
  {
    assert (s + p)[0..n] == s[..n] && (s + p)[n..] == s[n..] + p && (s + p)[0..] == s + p;
    NumberEnds(s + p, 0, n);
  }

  /** A letter, in literal terms. */
  ghost predicate Letter(c: int) {
    c in {65, 66, 67, 68, 69, 70, 71, 72, 73, 74, 75, 76, 77, 78, 79, 80, 81, 82, 83, 84, 85, 86, 87, 88, 89, 90,
          97, 98, 99, 100, 101, 102, 103, 104, 105, 106, 107, 108, 109, 110, 111, 112, 113, 114, 115, 116, 117, 118, 119, 120, 121, 122}
  }

  /** Of two characters that are no digits, the earlier: a tilde before all others, letters before the rest,
      and otherwise in the order of ASCII. */
  ghost predicate Earlier(x: int, y: int) {
    x != y && y != 126 && (x == 126 || if Letter(x) == Letter(y) then x < y else Letter(x))
  }

  /** Versions that differ first in two characters that are no digits are in the order of these,
      whatever comes after them. */
  lemma TextDecides(s: Text, x: Ascii, y: Ascii, t: Text, u: Text)
    requires x != y && !(48 <= x <= 57) && !(48 <= y <= 57)
    ensures Cmp(Key(s + [x] + t), Key(s + [y] + u)) == if Earlier(x, y) then -1 else 1
  {
    OrderEarlier(x, y);
    hide Order, Earlier, Letter, Cmp, Key;
    assert s + [x] + t == s + ([x] + t) && s + [y] + u == s + ([y] + u);
    FirstDecides(s, [x] + t, [y] + u);
  }

  lemma OrderEarlier(x: Ascii, y: Ascii)
    requires x != y && !(48 <= x <= 57) && !(48 <= y <= 57)
    ensures Order(x) != Order(y) && (Order(x) < Order(y) <==> Earlier(x, y))
  {
    assert IsAlpha(x) == Letter(x) && IsAlpha(y) == Letter(y);
  }

  /** A version goes before its continuations, unless these go on with a tilde. */
  lemma EndDecides(s: Text, x: Ascii, t: Text)
    requires !(48 <= x <= 57)
    ensures Cmp(Key(s), Key(s + [x] + t)) == if x == 126 then 1 else -1
  {
    assert s + [x] + t == s + ([x] + t) && s + [] == s;
    FirstDecides(s, [], [x] + t);
  }

  /** A tilde, with anything after it, makes a version sort earlier. */
  lemma TildeFirst(s: Text, t: Text)
    ensures Cmp(Key(s + [TILDE] + t), Key(s)) < 0
  {
    EndDecides(s, TILDE, t);
    CmpAntisymmetric(Key(s), Key(s + [TILDE] + t));
  }

  /** Where one version goes on with a digit after something else than a digit, the other with something
      else, the one with the digit goes first, unless the other goes on with a tilde. */
  lemma DigitDecides(s: Text, d: Ascii, x: Ascii, t: Text, u: Text)
    requires !EndsInDigit(s) && 48 <= d <= 57 && !(48 <= x <= 57)
    ensures Cmp(Key(s + [d] + t), Key(s + [x] + u)) == if x == 126 then 1 else -1
  {
    assert s + [d] + t == s + ([d] + t) && s + [x] + u == s + ([x] + u);
    FirstDecides(s, [d] + t, [x] + u);
  }

  lemma FirstDecides(s: Text, p: Text, q: Text)
    requires (Soft(p) && Soft(q)) || !EndsInDigit(s)
    requires Order(At(p, 0)) != Order(At(q, 0))
    ensures Cmp(Key(s + p), Key(s + q)) == Sign(Order(At(p, 0)) - Order(At(q, 0)))
  {
    hide Cmp, Key, TextKey, NumberKey, Pad, Tail, Order;
    ZeroPadded(s + p, s + q);
    CommonStart(s, p, q);
    assert p[0..] == p && q[0..] == q;
    TextStep(p, 0);
    TextStep(q, 0);
    CmpHead(TextKey(p), TextKey(q));
  }

  /** Where both go on with numbers these decide; if they are equal, what comes after them does. */
  lemma NumbersDecide(s: Text, a: Text, b: Text, t: Text, u: Text)
    requires !EndsInDigit(s) && a != [] && b != [] && AllDigits(a) && AllDigits(b) && Soft(t) && Soft(u)
    ensures Cmp(Key(s + a + t), Key(s + b + u)) ==
            if Value(a) != Value(b) then Sign(Value(a) - Value(b)) else Cmp(Key(t), Key(u))
  {
    hide Cmp, Key, TextKey, NumberKey, Value, Pad, Tail;
    assert s + a + t == s + (a + t) && s + b + u == s + (b + u);
    ZeroPadded(s + (a + t), s + (b + u));
    CommonStart(s, a + t, b + u);
    assert (a + t)[0..] == a + t && (b + u)[0..] == b + u && a[..|a|] == a && b[..|b|] == b;
    assert a[|a|..] + t == t && b[|b|..] + u == u;
    DigitsAre(a, |a|);
    DigitsAre(b, |b|);
    TextStep(a + t, 0);
    TextStep(b + u, 0);
    CmpHead(TextKey(a + t), TextKey(b + u));
    NumberOf(a, t, |a|);
    NumberOf(b, u, |b|);
    CmpHead(NumberKey(a + t), NumberKey(b + u));
  }

  // ---- versions ----

  datatype Version = Version(epoch: nat, version: Text, revision: Text)

  /** The order of versions: by epoch, then version, then revision. */
  function Compare(a: Version, b: Version): int {
    if a.epoch != b.epoch then Sign(a.epoch - b.epoch)
    else if Cmp(Key(a.version), Key(b.version)) != 0 then Cmp(Key(a.version), Key(b.version))
    else Cmp(Key(a.revision), Key(b.revision))
  }

  method VersionCompare(version: Version, refversion: Version) returns (r: int)
    ensures Sign(r) == Compare(version, refversion)
    ensures version.epoch != refversion.epoch ==> (r < 0 <==> version.epoch < refversion.epoch) && r != 0
    ensures version.epoch == refversion.epoch && Cmp(Key(version.version), Key(refversion.version)) != 0 ==>
              Sign(r) == Cmp(Key(version.version), Key(refversion.version))
    ensures version.epoch == refversion.epoch && Cmp(Key(version.version), Key(refversion.version)) == 0 ==>
              Sign(r) == Cmp(Key(version.revision), Key(refversion.revision))
  {
    if version.epoch > refversion.epoch { return 1; }
    if version.epoch < refversion.epoch { return -1; }
    r := VerRevCmp(version.version, refversion.version);
    if r != 0 { return r; }
    r := VerRevCmp(version.revision, refversion.revision);
  }

  /** Swapping the versions turns the answer round; in particular a version equals itself. */
  lemma CompareAntisymmetric(a: Version, b: Version)
    ensures Compare(b, a) == -Compare(a, b) && Compare(a, a) == 0
  {
    CmpAntisymmetric(Key(a.version), Key(b.version));
    CmpAntisymmetric(Key(a.revision), Key(b.revision));
    CmpAntisymmetric(Key(a.version), Key(a.version));
    CmpAntisymmetric(Key(a.revision), Key(a.revision));
  }

  lemma CompareTransitive(a: Version, b: Version, c: Version)
    requires Compare(a, b) <= 0 && Compare(b, c) <= 0
    ensures Compare(a, c) <= 0 && (Compare(a, b) < 0 || Compare(b, c) < 0 ==> Compare(a, c) < 0)
  {
    if a.epoch == b.epoch == c.epoch {
      CmpTransitive(Key(a.version), Key(b.version), Key(c.version));
      CmpAntisymmetric(Key(a.version), Key(b.version));
      CmpAntisymmetric(Key(b.version), Key(c.version));
      CmpAntisymmetric(Key(a.version), Key(c.version));
      if Cmp(Key(a.version), Key(b.version)) == 0 && Cmp(Key(b.version), Key(c.version)) == 0 {
        CmpTransitive(Key(c.version), Key(b.version), Key(a.version));
        CmpTransitive(Key(a.revision), Key(b.revision), Key(c.revision));
      }
    }
  }

  /** C's versionsatisfied3; None where it exits, the operator being unknown. */
  method VersionSatisfied(it: Version, ref: Version, op: string) returns (b: Option<bool>)
    ensures b.Some? <==> op in {"<", "<=", "<<", "=", ">=", ">", ">>"}
    ensures op in {"<", "<="} ==> b == Some(Compare(it, ref) <= 0)
    ensures op in {">", ">="} ==> b == Some(Compare(ref, it) <= 0)
    ensures op == "<<" ==> b == Some(!(Compare(ref, it) <= 0))
    ensures op == ">>" ==> b == Some(!(Compare(it, ref) <= 0))
    ensures op == "=" ==> b == Some(Compare(it, ref) <= 0 && Compare(ref, it) <= 0)
  {
    CompareAntisymmetric(it, ref);
    var r := VersionCompare(it, ref);
    if op == "<=" || op == "<" { return Some(r <= 0); }
    if op == ">=" || op == ">" { return Some(r >= 0); }
    if op == "<<" { return Some(r < 0); }
    if op == ">>" { return Some(r > 0); }
    if op == "=" { return Some(r == 0); }
    return None;
  }
}
