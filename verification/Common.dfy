/** Shared between the modules that work on bytes and optional values. */
module Common {
  datatype Option<+T> = None | Some(value: T)

  ghost predicate Distinct<T>(xs: seq<T>) { forall i, j | 0 <= i < j < |xs| :: xs[i] != xs[j] }

  type Byte = x: int | 0 <= x < 256

  const NL: Byte := 10  // \n
  const CR: Byte := 13  // \r

  /** The texts one after the other. */
  function Flatten(xs: seq<seq<Byte>>): seq<Byte> { if xs == [] then [] else xs[0] + Flatten(xs[1..]) }

  lemma {:induction false} FlattenSnoc(xs: seq<seq<Byte>>, x: seq<Byte>)
    ensures Flatten(xs + [x]) == Flatten(xs) + x
    decreases xs
  {
    if xs == [] {
      assert xs + [x] == [x];
    } else {
      assert (xs + [x])[1..] == xs[1..] + [x];
      FlattenSnoc(xs[1..], x);
    }
  }

  /** Position of the first c in s, or -1: bytes.IndexByte and strings.IndexByte. */
  function IndexByte(s: seq<Byte>, c: Byte): (i: int)
    ensures -1 <= i < |s|
  {
    if s == [] then -1
    else if s[0] == c then 0
    else var i := IndexByte(s[1..], c); if i < 0 then -1 else i + 1
  }

  lemma {:induction false} IndexByteSpec(s: seq<Byte>, c: Byte)
    ensures var i := IndexByte(s, c);
      && (i < 0 ==> c !in s)
      && (i >= 0 ==> s[i] == c && c !in s[..i])
    decreases |s|
  {
    if s != [] && s[0] != c {
      IndexByteSpec(s[1..], c);
      var i := IndexByte(s[1..], c);
      if i >= 0 { assert s[..i + 1] == [s[0]] + s[1..][..i]; }
    }
  }

  lemma {:induction false} IndexByteUnique(s: seq<Byte>, c: Byte, i: nat)
    requires i < |s| && s[i] == c && c !in s[..i]
    ensures IndexByte(s, c) == i
    decreases i
  {
    if i > 0 {
      assert s[..i][0] == s[0] && s[1..][..i - 1] == s[..i][1..];
      IndexByteUnique(s[1..], c, i - 1);
    }
  }

  /** copy(b[at:], data), where it fits. */
  method CopyInto(b: array<Byte>, at: nat, data: seq<Byte>)
    requires at + |data| <= b.Length
    modifies b
    ensures b[..] == old(b[..at]) + data + old(b[at + |data|..])
  {
    forall k | 0 <= k < |data| {
      b[at + k] := data[k];
    }
  }

  lemma Assoc(a: seq<Byte>, b: seq<Byte>, c: seq<Byte>)
    ensures (a + b) + c == a + (b + c)
  {
  }

  lemma SameRest(a: seq<Byte>, b: seq<Byte>, c: seq<Byte>)
    requires a + b == a + c
    ensures b == c
  {
    assert b == (a + b)[|a|..] && c == (a + c)[|a|..];
  }

  lemma TakeOfSlice(s: seq<Byte>, from: nat, to: nat, n: nat)
    requires from + n <= to <= |s|
    ensures s[from..to][..n] == s[from..from + n]
  {
  }

  /** copy(b, b[from:to]) */
  method CopyWithin(b: array<Byte>, from: nat, to: nat)
    requires from <= to <= b.Length
    modifies b
    ensures b[..to - from] == old(b[from..to])
  {
    forall k | 0 <= k < to - from {
      b[k] := b[from + k];
    }
  }
}
