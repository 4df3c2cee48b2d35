/** Strings in the order of their bytes, and sorted lists of them without duplicates. */
module Order {
  import opened Common

  type Text = seq<Byte>

  /** Order of strings, byte by byte. */
  predicate Less(a: Text, b: Text) {
    b != [] && (a == [] || a[0] < b[0] || (a[0] == b[0] && Less(a[1..], b[1..])))
  }

  lemma {:induction false} LessTotal(a: Text, b: Text)
    ensures a == b || Less(a, b) || Less(b, a)
    ensures !(Less(a, b) && Less(b, a)) && (a == b ==> !Less(a, b))
    decreases a
  {
    if a != [] && b != [] {
      LessTotal(a[1..], b[1..]);
      if a[0] == b[0] && a[1..] == b[1..] { assert a == [a[0]] + a[1..] == b; }
    }
  }

  lemma {:induction false} LessTransitive(a: Text, b: Text, c: Text)
    requires Less(a, b) && Less(b, c)
    ensures Less(a, c)
    decreases a
  {
    if a != [] && a[0] == b[0] && b[0] == c[0] { LessTransitive(a[1..], b[1..], c[1..]); }
  }

  ghost predicate Ascending(s: seq<Text>) { forall i, j | 0 <= i < j < |s| :: Less(s[i], s[j]) }

  function Inserted(x: Text, s: seq<Text>): (r: seq<Text>)
    ensures forall y :: y in r <==> y == x || y in s
  {
    if s == [] then [x]
    else if Less(x, s[0]) then [x] + s
    else
      var r := [s[0]] + Inserted(x, s[1..]);
      assert s == [s[0]] + s[1..];
      r
  }

  lemma {:induction false} InsertedAscending(x: Text, s: seq<Text>)
    requires Ascending(s) && x !in s
    ensures Ascending(Inserted(x, s))
    decreases s
  {
    if s != [] {
      LessTotal(x, s[0]);
      var r := Inserted(x, s);
      if Less(x, s[0]) {
        forall j | 0 < j < |r| ensures Less(r[0], r[j]) {
          if j > 1 { LessTransitive(x, s[0], s[j - 1]); }
        }
      } else {
        InsertedAscending(x, s[1..]);
        forall j | 0 < j < |r| ensures Less(r[0], r[j]) {
          assert r[j] in Inserted(x, s[1..]);
          if r[j] != x {
            var k :| 0 <= k < |s[1..]| && s[1..][k] == r[j];
            assert s[k + 1] == r[j];
          }
        }
      }
    }
  }

  /** There is only one ascending enumeration of a set of names. */
  lemma {:induction false} AscendingUnique(a: seq<Text>, b: seq<Text>)
    requires Ascending(a) && Ascending(b) && forall x :: x in a <==> x in b
    ensures a == b
    decreases a
  {
    if a == [] {
      FirstMember(b);
    } else {
      assert a[0] in b;
      assert b != [] && b[0] in a;
      SameHead(a, b);
      forall x
        ensures x in a[1..] <==> x in b[1..]
      {
        TailMembers(a, x);
        TailMembers(b, x);
      }
      AscendingUnique(a[1..], b[1..]);
      assert a == [a[0]] + a[1..] && b == [b[0]] + b[1..];
    }
  }

  lemma FirstMember(s: seq<Text>)
    ensures s == [] || s[0] in s
  {
  }

  lemma SameHead(a: seq<Text>, b: seq<Text>)
    requires Ascending(a) && Ascending(b) && a != [] && b != [] && a[0] in b && b[0] in a
    ensures a[0] == b[0]
  {
    var i :| 0 <= i < |b| && b[i] == a[0];
    var j :| 0 <= j < |a| && a[j] == b[0];
    LessTotal(a[0], b[0]);
  }

  lemma TailMembers(s: seq<Text>, x: Text)
    requires s != [] && Ascending(s)
    ensures x in s[1..] <==> x in s && x != s[0]
  {
    if x in s[1..] {
      var k :| 0 <= k < |s[1..]| && s[1..][k] == x;
      LessTotal(s[0], s[k + 1]);
    }
  }

  // ----- sort.SearchStrings -----

  /** The smallest index at which x can be inserted. */
  function SearchStrings(s: seq<Text>, x: Text): (i: nat)
    ensures i <= |s|
  {
    if s == [] || !Less(s[0], x) then 0 else 1 + SearchStrings(s[1..], x)
  }

  /** In a sorted list x is at that index, or nowhere; and inserting it there keeps the
      list sorted. */
  lemma {:induction false} SearchFinds(s: seq<Text>, x: Text)
    requires Ascending(s)
    ensures var i := SearchStrings(s, x);
      && (x in s <==> i < |s| && s[i] == x)
      && (x !in s ==> s[..i] + [x] + s[i..] == Inserted(x, s))
    decreases s
  {
    if s != [] {
      LessTotal(s[0], x);
      TailMembers(s, x);
      if Less(s[0], x) {
        SearchFinds(s[1..], x);
        SearchTail(s, x);
      } else if x in s {
        SmallestFirst(s, x);
      } else {
        assert s[..0] + [x] + s[0..] == [x] + s;
      }
    }
  }

  lemma SearchTail(s: seq<Text>, x: Text)
    requires s != [] && Less(s[0], x) && !Less(x, s[0])
    ensures var i, k := SearchStrings(s, x), SearchStrings(s[1..], x);
      && i == k + 1 && (i < |s| ==> s[i] == s[1..][k])
      && s[..i] + [x] + s[i..] == [s[0]] + (s[1..][..k] + [x] + s[1..][k..])
      && Inserted(x, s) == [s[0]] + Inserted(x, s[1..])
  {
    hide Less, Inserted;
    var i, k := SearchStrings(s, x), SearchStrings(s[1..], x);
    assert s[..i] == [s[0]] + s[1..][..k] && s[i..] == s[1..][k..];
    InsertedTail(s, x);
  }

  lemma InsertedTail(s: seq<Text>, x: Text)
    requires s != [] && !Less(x, s[0])
    ensures Inserted(x, s) == [s[0]] + Inserted(x, s[1..])
  {
  }

  lemma SmallestFirst(s: seq<Text>, x: Text)
    requires Ascending(s) && x in s
    ensures s[0] == x || Less(s[0], x)
  {
  }

  /** Removing an element keeps the list sorted. */
  lemma RemovedAscending(s: seq<Text>, i: nat)
    requires Ascending(s) && i < |s|
    ensures var r := s[..i] + s[i + 1..];
      Ascending(r) && forall y :: y in r <==> y in s && y != s[i]
  {
    var r := s[..i] + s[i + 1..];
    forall y
      ensures y in r <==> y in s && y != s[i]
    {
      if y in s {
        var k :| 0 <= k < |s| && s[k] == y;
        LessTotal(s[k], s[i]);
        if k < i { assert r[k] == y; } else if k > i { assert r[k - 1] == y; }
      }
      if y in r {
        var k :| 0 <= k < |r| && r[k] == y;
        var m := if k < i then k else k + 1;
        assert s[m] == y;
        LessTotal(s[m], s[i]);
      }
    }
  }

  lemma PrefixFirst(a: Text, b: Text)
    requires a != [] && b != []
    ensures a <= b ==> a[0] == b[0]
  {
  }

  /** The order is that of the first bytes that differ, a text coming before its extensions. */
  lemma {:induction false} LessIff(a: Text, b: Text)
    ensures Less(a, b) <==> (a <= b && a != b) || exists k :: Differ(a, b, k)
    decreases a
  {
    if a == [] || b == [] {
      assert [] <= b;
    } else if a[0] == b[0] {
      LessIff(a[1..], b[1..]);
      SameFirst(a, b);
      assert a == [a[0]] + a[1..] && b == [b[0]] + b[1..];
      hide Differ;
    } else {
      PrefixFirst(a, b);
      if a[0] < b[0] {
        assert Differ(a, b, 0);
      } else {
        forall k
          ensures !Differ(a, b, k)
        {
          GreaterFirst(a, b, k);
        }
      }
    }
  }

  /** Up to k the texts agree, and a is less there. */
  predicate Differ(a: Text, b: Text, k: int) { 0 <= k < |a| && k < |b| && a[..k] == b[..k] && a[k] < b[k] }

  lemma GreaterFirst(a: Text, b: Text, k: int)
    requires a != [] && b != [] && a[0] > b[0]
    ensures !Differ(a, b, k)
  {
    if 0 < k <= |a| && k <= |b| { assert a[..k][0] == a[0] && b[..k][0] == b[0]; }
  }

  lemma SameFirst(a: Text, b: Text)
    requires a != [] && b != [] && a[0] == b[0]
    ensures (exists k :: Differ(a[1..], b[1..], k)) <==> exists k :: Differ(a, b, k)
  {
    if k :| Differ(a[1..], b[1..], k) {
      assert a[..k + 1] == [a[0]] + a[1..][..k] && b[..k + 1] == [b[0]] + b[1..][..k];
      assert Differ(a, b, k + 1);
    }
    if k :| Differ(a, b, k) {
      assert a[1..][..k - 1] == a[..k][1..] && b[1..][..k - 1] == b[..k][1..];
      assert Differ(a[1..], b[1..], k - 1);
    }
  }
}
