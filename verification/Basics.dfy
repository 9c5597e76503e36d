/** Small vocabulary shared by the other modules. */
module Basics {

  type byte = x: int | 0 <= x < 256

  type Bytes = seq<byte>

  datatype Option<+T> = None | Some(value: T)

  datatype Result<+T, +E> = Ok(value: T) | Err(error: E)

  function Min(a: int, b: int): int { if a < b then a else b }

  function Max(a: int, b: int): int { if a < b then b else a }

  /** Most significant byte first. */
  function ToInt(s: seq<byte>): nat {
    if s == [] then 0 else ToInt(s[..|s| - 1]) * 256 + s[|s| - 1]
  }

  function Sum(s: seq<int>): int {
    if s == [] then 0 else s[0] + Sum(s[1..])
  }

  lemma {:induction false} SumAppend(s: seq<int>, t: seq<int>)
    ensures Sum(s + t) == Sum(s) + Sum(t)
  {
    if s == [] {
      assert s + t == t;
    } else {
      assert (s + t)[1..] == s[1..] + t;
      SumAppend(s[1..], t);
    }
  }

  lemma {:induction false} SumUpdate(s: seq<int>, i: nat, v: int)
    requires i < |s|
    ensures Sum(s[i := v]) == Sum(s) - s[i] + v
  {
    if i == 0 {
      assert s[0 := v][1..] == s[1..];
    } else {
      assert s[i := v][1..] == s[1..][i - 1 := v];
      SumUpdate(s[1..], i - 1, v);
    }
  }

  lemma {:induction false} SumNonNegative(s: seq<int>)
    requires forall k :: 0 <= k < |s| ==> s[k] >= 0
    ensures Sum(s) >= 0
    ensures Sum(s) == 0 <==> forall k :: 0 <= k < |s| ==> s[k] == 0
  {
    if s != [] {
      SumNonNegative(s[1..]);
      assert forall k :: 0 < k < |s| ==> s[k] == s[1..][k - 1];
    }
  }

  /** A set of numbers below n has at most n members, and exactly n only when it has them all. */
  lemma {:induction false} Pigeonhole(s: set<nat>, n: nat)
    requires forall x :: x in s ==> x < n
    ensures |s| <= n
    ensures |s| == n ==> forall x: nat :: x < n ==> x in s
  {
    if n > 0 {
      var t := s - {n - 1};
      Pigeonhole(t, n - 1);
      if n - 1 in s {
        assert |t| == |s| - 1;
      } else {
        assert t == s;
      }
    } else {
      if x :| x in s { assert false; }
    }
  }

  ghost predicate NoRepeats<T>(l: seq<T>) {
    forall i, j :: 0 <= i < j < |l| ==> l[i] != l[j]
  }

  /** Python's list.remove: drops the first occurrence, or fails. */
  function RemoveFirst<T(==)>(l: seq<T>, x: T): Option<seq<T>> {
    if l == [] then None
    else if l[0] == x then Some(l[1..])
    else match RemoveFirst(l[1..], x)
      case None => None
      case Some(rest) => Some([l[0]] + rest)
  }

  lemma {:induction false} RemoveFirstMembers<T>(l: seq<T>, x: T)
    ensures RemoveFirst(l, x).None? <==> x !in l
    ensures x in l ==> var r := RemoveFirst(l, x).value;
            |r| == |l| - 1 && (forall y :: y in r ==> y in l) && (forall y :: y in l && y != x ==> y in r)
  {
    if l != [] {
      RemoveFirstMembers(l[1..], x);
      assert forall y :: y in l <==> y == l[0] || y in l[1..];
    }
  }

  lemma {:induction false} RemoveFirstDistinct<T>(l: seq<T>, x: T)
    requires NoRepeats(l) && x in l
    ensures RemoveFirst(l, x).Some? && NoRepeats(RemoveFirst(l, x).value) && x !in RemoveFirst(l, x).value
  {
    if l[0] == x {
      assert forall j :: 0 < j < |l| ==> l[j] != x;
    } else {
      RemoveFirstDistinct(l[1..], x);
      RemoveFirstMembers(l[1..], x);
      var rest := RemoveFirst(l[1..], x).value;
      forall j | 0 <= j < |rest| ensures rest[j] != l[0] {
        assert rest[j] in l[1..];
      }
    }
  }

  function Without<T>(l: seq<T>, k: nat): seq<T>
    requires k < |l|
  {
    l[..k] + l[k + 1..]
  }

  lemma WithoutOne<T>(l: seq<T>, k: nat)
    requires k < |l| && NoRepeats(l)
    ensures NoRepeats(Without(l, k)) && l[k] !in Without(l, k)
    ensures forall t :: t in l <==> t in Without(l, k) || t == l[k]
  {
    var rest := Without(l, k);
    forall j | 0 <= j < |rest| ensures rest[j] == l[if j < k then j else j + 1] {}
    assert l == l[..k] + [l[k]] + l[k + 1..];
  }

  lemma JoinDistinct<T>(l: seq<T>, m: seq<T>)
    requires NoRepeats(l) && NoRepeats(m) && forall x :: x in l ==> x !in m
    ensures NoRepeats(l + m)
  {
    forall i, j | 0 <= i < j < |l + m| ensures (l + m)[i] != (l + m)[j] {
      if i < |l| <= j { assert l[i] in l && m[j - |l|] in m; }
    }
  }

  lemma TailSplit<T>(l: seq<T>, k: nat)
    requires NoRepeats(l) && k < |l|
    ensures l[k] !in l[k + 1..] && forall x :: x in l[k..] <==> x == l[k] || x in l[k + 1..]
  {
    assert l[k..] == [l[k]] + l[k + 1..];
  }

  /** A list without repetitions has as many entries as members. */
  lemma {:induction false} MembersCount<T>(l: seq<T>, s: set<T>)
    requires NoRepeats(l) && forall x :: x in s <==> x in l
    ensures |s| == |l|
  {
    if l == [] {
      assert s == {};
    } else {
      var last, rest := l[|l| - 1], l[..|l| - 1];
      assert l == rest + [last];
      assert forall i :: 0 <= i < |rest| ==> l[i] != last;
      MembersCount(rest, s - {last});
    }
  }

  function Joined(l: seq<Bytes>): Bytes {
    if l == [] then [] else l[0] + Joined(l[1..])
  }

  lemma {:induction false} JoinedMore(l: seq<Bytes>, s: Bytes)
    ensures Joined(l + [s]) == Joined(l) + s
  {
    if l == [] {
      assert [s][1..] == [];
    } else {
      assert (l + [s])[1..] == l[1..] + [s];
      JoinedMore(l[1..], s);
      assert l[0] + (Joined(l[1..]) + s) == l[0] + Joined(l[1..]) + s;
    }
  }

  function ToBinary(i: nat): (s: Bytes)
    requires i < 0x1_0000_0000
    ensures |s| == 4
  {
    [i / 0x100_0000, i / 0x1_0000 % 0x100, i / 0x100 % 0x100, i % 0x100]
  }

  lemma ToIntBack(i: nat)
    requires i < 0x1_0000_0000
    ensures ToInt(ToBinary(i)) == i
  {
    var s := ToBinary(i);
    assert s == [s[0]] + [s[1]] + [s[2]] + [s[3]];
    ToIntNext([], s[0]);
    ToIntNext([s[0]], s[1]);
    ToIntNext([s[0]] + [s[1]], s[2]);
    ToIntNext([s[0]] + [s[1]] + [s[2]], s[3]);
    DivDiv(i);
    hide ToInt;
  }

  lemma DivDiv(i: nat)
    ensures i / 0x1_0000 == i / 0x100 / 0x100 && i / 0x100_0000 == i / 0x1_0000 / 0x100
  {
  }

  lemma ToIntNext(s: Bytes, b: byte)
    ensures ToInt(s + [b]) == ToInt(s) * 0x100 + b
  {
    assert (s + [b])[..|s|] == s;
  }

  /** Four bytes, most significant first. */
  lemma FourBytes(a: byte, b: byte, c: byte, d: byte)
    ensures ToInt([a, b, c, d]) == 16777216 * a + 65536 * b + 256 * c + d
  {
    assert [a, b, c, d] == [] + [a] + [b] + [c] + [d];
    ToIntNext([], a);
    ToIntNext([] + [a], b);
    ToIntNext([] + [a] + [b], c);
    ToIntNext([] + [a] + [b] + [c], d);
    hide ToInt;
  }

  lemma BinaryOf(a: byte, b: byte, c: byte, d: byte)
    ensures var n := 256 * (256 * (256 * a + b) + c) + d; n < 0x1_0000_0000 && ToBinary(n) == [a, b, c, d]
  {
    var n3 := 256 * (256 * a + b) + c;
    var n := 256 * n3 + d;
    DivDiv(n);
    assert n / 0x100 == n3 && n % 0x100 == d;
    assert n3 / 0x100 == 256 * a + b && n3 % 0x100 == c;
    assert (256 * a + b) / 0x100 == a && (256 * a + b) % 0x100 == b;
  }

  lemma ToBinaryBack(s: Bytes)
    requires |s| == 4
    ensures ToInt(s) < 0x1_0000_0000 && ToBinary(ToInt(s)) == s
  {
    assert s == [s[0], s[1], s[2], s[3]];
    FourBytes(s[0], s[1], s[2], s[3]);
    BinaryOf(s[0], s[1], s[2], s[3]);
    hide ToInt, ToBinary;
  }
}
