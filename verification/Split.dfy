/** Count, Split, Join and Replace of package bytes. */
module Split {
  import opened Common
  import opened Utf8
  import opened Search

  // ----- counting -----

  function RuneCount(s: Text): nat
    decreases |s|
  {
    if s == [] then 0 else 1 + RuneCount(s[RuneLen(s)..])
  }

  /** Non-overlapping occurrences of sep, from the left. */
  function Occurrences(s: Text, sep: Text): nat
    requires sep != []
    decreases |s|
  {
    var i := FirstIndex(s, sep);
    if i < 0 then 0 else 1 + Occurrences(s[i + |sep|..], sep)
  }

  lemma OccurrencesStep(s: Text, sep: Text)
    requires sep != []
    ensures var i := FirstIndex(s, sep);
      if i < 0 then Occurrences(s, sep) == 0 else i + |sep| <= |s| && Occurrences(s, sep) == 1 + Occurrences(s[i + |sep|..], sep)
  {
    hide FirstIndex;
  }

  /** What Count returns. */
  function Counted(s: Text, sep: Text): nat { if sep == [] then RuneCount(s) + 1 else Occurrences(s, sep) }

  /** Line 63: Count. The assembly for a single byte is taken for the same function. */
  method Count(p: Platform, s0: Text, sep: Text) returns (n: nat)
    ensures n == Counted(s0, sep)
  {
    hide RuneCount, Occurrences, FirstIndex, IsFirst, At;
    if sep == [] {
      return RuneCount(s0) + 1;
    }
    if |sep| == 1 {
      return Occurrences(s0, sep);
    }
    var s := s0;
    n := 0;
    while true
      invariant n + Occurrences(s, sep) == Occurrences(s0, sep)
      decreases |s|
    {
      OccurrencesStep(s, sep);
      var i := Index(p, s, sep);
      if i == -1 {
        return;
      }
      n := n + 1;
      s := s[i + |sep|..];
    }
  }

  // ----- splitting -----

  /** At most n pieces: the text before each of the first n - 1 separators, with sepSave
      bytes of it, and the rest. */
  function Pieces(s: Text, sep: Text, sepSave: nat, n: nat): (xs: seq<Text>)
    requires sep != [] && sepSave <= |sep| && n > 0
    ensures xs != []
    decreases n
  {
    var m := FirstIndex(s, sep);
    if n == 1 || m < 0 then [s] else [s[..m + sepSave]] + Pieces(s[m + |sep|..], sep, sepSave, n - 1)
  }

  lemma PiecesStep(s: Text, sep: Text, sepSave: nat, n: nat)
    requires sep != [] && sepSave <= |sep| && n > 0
    ensures var m := FirstIndex(s, sep);
      && (n == 1 || m < 0 ==> Pieces(s, sep, sepSave, n) == [s])
      && (n > 1 && m >= 0 ==> (
        && m + |sep| <= |s|
        && Pieces(s, sep, sepSave, n) == [s[..m + sepSave]] + Pieces(s[m + |sep|..], sep, sepSave, n - 1)))
  {
  }

  /** One piece for every character, the rest in the n-th. */
  function Exploded(s: Text, n: nat): seq<Text>
    requires n > 0
    decreases |s|
  {
    if s == [] then []
    else if n == 1 then [s]
    else [s[..RuneLen(s)]] + Exploded(s[RuneLen(s)..], n - 1)
  }

  lemma ExplodedStep(s: Text, n: nat)
    requires n > 0
    ensures Exploded([], n) == []
    ensures s != [] ==> Exploded(s, n) == if n == 1 then [s] else [s[..RuneLen(s)]] + Exploded(s[RuneLen(s)..], n - 1)
  {
  }

  lemma Reassociate(a: seq<Text>, b: seq<Text>, c: seq<Text>)
    ensures (a + b) + c == a + (b + c) && a + [] == a
  {
  }

  /** Line 39: explode, called with n not 0. */
  method Explode(s0: Text, n0: int) returns (a: seq<Text>)
    ensures a == if n0 > 0 then Exploded(s0, n0) else if s0 == [] then [] else Exploded(s0, |s0|)
  {
    hide Exploded, RuneLen;
    var n := n0;
    if n <= 0 {
      n := |s0|;
    }
    if s0 == [] {
      if n0 > 0 { ExplodedStep(s0, n0); }
      return [];
    }
    var s := s0;
    a := [];
    while |s| > 0
      invariant s != [] ==> |a| < n
      invariant Exploded(s0, n) == if s == [] then a else a + Exploded(s, n - |a|)
      decreases |s|
    {
      ExplodedStep(s, n - |a|);
      if |a| + 1 >= n {
        a := a + [s];
        break;
      }
      var size := RuneLen(s);
      Reassociate(a, [s[..size]], Exploded(s[size..], n - |a| - 1));
      ExplodedStep(s[size..], n - |a| - 1);
      a := a + [s[..size]];
      s := s[size..];
    }
  }

  /** What genSplit returns, None for nil. */
  function SplitUp(s: Text, sep: Text, sepSave: nat, n: int): Option<seq<Text>>
    requires sepSave <= |sep|
  {
    if n == 0 then None
    else if sep == [] then Some(if n > 0 then Exploded(s, n) else if s == [] then [] else Exploded(s, |s|))
    else Some(Pieces(s, sep, sepSave, if n < 0 then Occurrences(s, sep) + 1 else n))
  }

  /** Line 368: genSplit */
  method GenSplit(p: Platform, s0: Text, sep: Text, sepSave: nat, n0: int) returns (r: Option<seq<Text>>)
    requires sepSave <= |sep|
    ensures r == SplitUp(s0, sep, sepSave, n0)
  {
    if n0 == 0 {
      return None;
    }
    if sep == [] {
      var pieces := Explode(s0, n0);
      return Some(pieces);
    }
    var n := n0;
    if n < 0 {
      var count := Count(p, s0, sep);
      n := count + 1;
    }
    var a := SplitAt(p, s0, sep, sepSave, n);
    return Some(a);
  }

  /** Lines 379-392 */
  method SplitAt(p: Platform, s0: Text, sep: Text, sepSave: nat, n0: nat) returns (a: seq<Text>)
    requires sep != [] && sepSave <= |sep| && n0 > 0
    ensures a == Pieces(s0, sep, sepSave, n0)
  {
    hide Pieces, FirstIndex, IsFirst;
    var s, n := s0, n0 - 1;
    a := [];
    ghost var whole := Pieces(s0, sep, sepSave, n0);
    while |a| < n
      invariant |a| <= n && whole == a + Pieces(s, sep, sepSave, n + 1 - |a|)
      decreases n - |a|
    {
      PiecesStep(s, sep, sepSave, n + 1 - |a|);
      var m := Index(p, s, sep);
      if m < 0 {
        break;
      }
      Reassociate(a, [s[..m + sepSave]], Pieces(s[m + |sep|..], sep, sepSave, n - |a|));
      a := a + [s[..m + sepSave]];
      s := s[m + |sep|..];
    }
    PiecesStep(s, sep, sepSave, n + 1 - |a|);
    a := a + [s];
  }

  /** Splitting everywhere leaves no separator in any piece. */
  lemma {:induction false} NoSeparatorLeft(s: Text, sep: Text)
    requires sep != []
    ensures forall x, i | x in Pieces(s, sep, 0, Occurrences(s, sep) + 1) :: !At(x, sep, i)
    decreases |s|
  {
    var m := FirstIndex(s, sep);
    FirstIndexIs(s, sep);
    if m >= 0 {
      NoSeparatorLeft(s[m + |sep|..], sep);
      forall i
        ensures !At(s[..m], sep, i)
      {
        if At(s[..m], sep, i) { assert s[..m][i..i + |sep|] == s[i..i + |sep|]; assert At(s, sep, i); }
      }
    }
  }

  // ----- joining -----

  function Joined(xs: seq<Text>, sep: Text): Text {
    if xs == [] then [] else if |xs| == 1 then xs[0] else xs[0] + sep + Joined(xs[1..], sep)
  }

  function TotalLen(xs: seq<Text>): nat { if xs == [] then 0 else |xs[0]| + TotalLen(xs[1..]) }

  lemma {:induction false} JoinedLen(xs: seq<Text>, sep: Text)
    requires xs != []
    ensures |Joined(xs, sep)| == |sep| * (|xs| - 1) + TotalLen(xs)
    decreases xs
  {
    if |xs| > 1 {
      JoinedLen(xs[1..], sep);
      OneMore(|sep|, |xs| - 2);
    }
  }

  lemma OneMore(a: nat, k: nat)
    ensures a * (k + 1) == a * k + a
  {
  }

  /** Pieces of a list that follow its first element, each with sep before it. */
  function Tail(xs: seq<Text>, sep: Text): Text { if xs == [] then [] else sep + xs[0] + Tail(xs[1..], sep) }

  lemma {:induction false} JoinedTail(xs: seq<Text>, sep: Text)
    requires xs != []
    ensures Joined(xs, sep) == xs[0] + Tail(xs[1..], sep)
    decreases xs
  {
    if |xs| > 1 { JoinedTail(xs[1..], sep); }
  }

  lemma {:induction false} TotalLenSnoc(xs: seq<Text>, i: nat)
    requires i < |xs|
    ensures TotalLen(xs[..i + 1]) == TotalLen(xs[..i]) + |xs[i]|
    decreases i
  {
    if i > 0 {
      assert xs[..i + 1][1..] == xs[1..][..i] && xs[..i][1..] == xs[1..][..i - 1];
      TotalLenSnoc(xs[1..], i - 1);
    } else {
      assert xs[..1][1..] == [];
    }
  }

  /** Puts text behind the first w bytes of b. */
  method Emit(b: array<Byte>, w: nat, text: Text) returns (w': nat)
    requires w + |text| <= b.Length
    modifies b
    ensures w' == w + |text| && b[..w'] == old(b[..w]) + text
  {
    ghost var was := b[..];
    CopyInto(b, w, text);
    w' := w + |text|;
    assert b[..w'] == b[..][..w'];
    assert was[..w] == old(b[..w]);
  }

  /** Line 574: Join fills its slice exactly. */
  method Join(xs: seq<Text>, sep: Text) returns (r: Text)
    ensures r == Joined(xs, sep)
  {
    if |xs| == 0 {
      return [];
    }
    if |xs| == 1 {
      return xs[0];
    }
    var n := |sep| * (|xs| - 1);
    for i := 0 to |xs|
      invariant n == |sep| * (|xs| - 1) + TotalLen(xs[..i])
    {
      TotalLenSnoc(xs, i);
      n := n + |xs[i]|;
    }
    assert xs[..|xs|] == xs;
    JoinedLen(xs, sep);
    JoinedTail(xs, sep);
    r := FillJoined(xs, sep, n);
  }

  /** Lines 587-592 */
  method FillJoined(xs: seq<Text>, sep: Text, n: nat) returns (r: Text)
    requires |xs| > 1 && n == |Joined(xs, sep)| && Joined(xs, sep) == xs[0] + Tail(xs[1..], sep)
    ensures r == Joined(xs, sep)
  {
    hide Joined, Tail;
    ghost var whole := Joined(xs, sep);
    var b := new Byte[n];
    var bp := Emit(b, 0, xs[0]);
    assert b[..bp] == xs[0];
    for i := 1 to |xs|
      invariant 0 <= bp <= b.Length == |whole|
      invariant b[..bp] + Tail(xs[i..], sep) == whole
    {
      TailStep(xs, i, sep);
      ghost var done, rest := b[..bp], Tail(xs[i + 1..], sep);
      Regroup(done, sep, xs[i], rest);
      bp := Emit(b, bp, sep);
      bp := Emit(b, bp, xs[i]);
    }
    TailStep(xs, |xs|, sep);
    assert b[..bp] + [] == b[..bp];
    return b[..bp];
  }

  lemma TailStep(xs: seq<Text>, i: nat, sep: Text)
    requires i <= |xs|
    ensures i == |xs| ==> Tail(xs[i..], sep) == []
    ensures i < |xs| ==> Tail(xs[i..], sep) == sep + xs[i] + Tail(xs[i + 1..], sep)
  {
    if i < |xs| { assert xs[i..][1..] == xs[i + 1..]; }
  }

  lemma Regroup(a: Text, b: Text, c: Text, d: Text)
    ensures a + (b + c + d) == ((a + b) + c) + d && |a + (b + c + d)| == |a| + |b| + |c| + |d|
  {
  }

  lemma {:induction false} JoinOfPieces(s: Text, sep: Text, n: nat)
    requires sep != [] && n > 0
    ensures Joined(Pieces(s, sep, 0, n), sep) == s
    decreases n
  {
    var m := FirstIndex(s, sep);
    if n > 1 && m >= 0 {
      FirstIndexIs(s, sep);
      var rest := Pieces(s[m + |sep|..], sep, 0, n - 1);
      JoinOfPieces(s[m + |sep|..], sep, n - 1);
      assert ([s[..m]] + rest)[1..] == rest;
      assert s == s[..m] + sep + s[m + |sep|..];
    }
  }

  lemma {:induction false} KeptPieces(s: Text, sep: Text, n: nat)
    requires sep != [] && n > 0
    ensures Joined(Pieces(s, sep, |sep|, n), []) == s
    decreases n
  {
    var m := FirstIndex(s, sep);
    if n > 1 && m >= 0 {
      FirstIndexIs(s, sep);
      var rest := Pieces(s[m + |sep|..], sep, |sep|, n - 1);
      KeptPieces(s[m + |sep|..], sep, n - 1);
      assert ([s[..m + |sep|]] + rest)[1..] == rest;
      assert s == s[..m + |sep|] + [] + s[m + |sep|..];
    }
  }

  lemma {:induction false} JoinOfExploded(s: Text, n: nat)
    requires n > 0
    ensures Joined(Exploded(s, n), []) == s
    decreases |s|
  {
    if s != [] && n > 1 {
      var k := RuneLen(s);
      var rest := Exploded(s[k..], n - 1);
      JoinOfExploded(s[k..], n - 1);
      assert s == s[..k] + [] + s[k..];
      assert ([s[..k]] + rest)[1..] == rest;
      hide Exploded, RuneLen;
      if rest == [] { assert s[k..] == []; }
    }
  }

  /** Joining what was split gives the text back, whatever the separator, the empty one
      included, and the number of pieces; only for none there is nothing to join. */
  lemma JoinOfSplit(s: Text, sep: Text, n: int)
    ensures var r := SplitUp(s, sep, 0, n);
      (r.None? <==> n == 0) && (r.Some? ==> Joined(r.value, sep) == s)
  {
    hide Exploded, Pieces, Occurrences;
    if sep == [] {
      if n > 0 { JoinOfExploded(s, n); } else if s != [] { JoinOfExploded(s, |s|); }
    } else {
      JoinOfPieces(s, sep, if n > 0 then n else Occurrences(s, sep) + 1);
    }
  }

  /** Pieces that keep their separators add up to the text. */
  lemma SplitAfterKeepsAll(s: Text, sep: Text, n: int)
    ensures var r := SplitUp(s, sep, |sep|, n);
      (r.None? <==> n == 0) && (r.Some? ==> Joined(r.value, []) == s)
  {
    hide Exploded, Pieces, Occurrences;
    if sep == [] {
      JoinOfSplit(s, sep, n);
    } else {
      KeptPieces(s, sep, if n > 0 then n else Occurrences(s, sep) + 1);
    }
  }

  // ----- replacing -----

  /** Places where something is replaced. An empty old matches before every character and
      at the end. */
  function Places(s: Text, old_: Text, first: bool): nat {
    if old_ == [] then RuneCount(s) + (if first then 1 else 0) else Occurrences(s, old_)
  }

  function Place(s: Text, old_: Text, first: bool): (j: nat)
    requires Places(s, old_, first) > 0
    ensures j + |old_| <= |s|
  {
    if old_ == [] then (if first then 0 else RuneLen(s)) else FirstIndex(s, old_)
  }

  lemma PlacesLeft(s: Text, old_: Text, first: bool)
    requires Places(s, old_, first) > 0
    ensures Places(s[Place(s, old_, first) + |old_|..], old_, false) == Places(s, old_, first) - 1
  {
    if old_ == [] && first { assert s[0..] == s; }
  }

  /** The first n places replaced. */
  function Replaced(s: Text, old_: Text, new_: Text, n: nat, first: bool): Text
    requires n <= Places(s, old_, first)
    decreases n
  {
    if n == 0 then s
    else
      var j := Place(s, old_, first);
      PlacesLeft(s, old_, first);
      s[..j] + new_ + Replaced(s[j + |old_|..], old_, new_, n - 1, false)
  }

  /** The slice is allocated with exactly the size that is needed. */
  lemma {:induction false} ReplacedLen(s: Text, old_: Text, new_: Text, n: nat, first: bool)
    requires n <= Places(s, old_, first)
    ensures |Replaced(s, old_, new_, n, first)| == |s| + n * (|new_| - |old_|)
    decreases n
  {
    if n > 0 {
      var j := Place(s, old_, first);
      PlacesLeft(s, old_, first);
      ReplacedLen(s[j + |old_|..], old_, new_, n - 1, false);
      LastOne(n, |new_| - |old_|);
    }
  }

  lemma LastOne(n: nat, d: int)
    requires n > 0
    ensures n * d == (n - 1) * d + d
  {
  }

  /** How many places Replace replaces. */
  function Limit(s: Text, old_: Text, n: int): nat {
    if n < 0 || Places(s, old_, true) < n then Places(s, old_, true) else n
  }

  /** Line 1100: Replace */
  method Replace(p: Platform, s: Text, old_: Text, new_: Text, n0: int) returns (r: Text)
    ensures r == Replaced(s, old_, new_, Limit(s, old_, n0), true)
  {
    var m := 0;
    if n0 != 0 {
      m := Count(p, s, old_);
    }
    if m == 0 {
      return s;
    }
    var n := n0;
    if n < 0 || m < n {
      n := m;
    }
    ReplacedLen(s, old_, new_, n, true);
    r := FillReplaced(p, s, old_, new_, n);
  }

  /** Lines 1117-1135 */
  method FillReplaced(p: Platform, s: Text, old_: Text, new_: Text, n: nat) returns (r: Text)
    requires n <= Places(s, old_, true) && |Replaced(s, old_, new_, n, true)| == |s| + n * (|new_| - |old_|)
    ensures r == Replaced(s, old_, new_, n, true)
  {
    hide Replaced, Places, FirstIndex, IsFirst, RuneLen;
    ghost var whole := Replaced(s, old_, new_, n, true);
    var t := new Byte[|s| + n * (|new_| - |old_|)];
    var w, start := 0, 0;
    assert s[0..] == s && t[..0] + whole == whole;
    for i := 0 to n
      invariant 0 <= w <= t.Length == |whole| && 0 <= start <= |s|
      invariant n - i <= Places(s[start..], old_, i == 0)
      invariant t[..w] + Replaced(s[start..], old_, new_, n - i, i == 0) == whole
    {
      ReplacedStep(s, start, old_, new_, n - i, i == 0);
      var j := start;
      if |old_| == 0 {
        if i > 0 {
          j := j + RuneLen(s[start..]);
        }
      } else {
        var k := Index(p, s[start..], old_);
        j := j + k;
      }
      ghost var done, next := t[..w], Replaced(s[j + |old_|..], old_, new_, n - i - 1, false);
      Regroup(done, s[start..j], new_, next);
      w := Emit(t, w, s[start..j]);
      w := Emit(t, w, new_);
      start := j + |old_|;
    }
    ReplacedNone(s[start..], old_, new_, n == 0);
    assert |t[..w] + s[start..]| == |whole|;
    w := Emit(t, w, s[start..]);
    return t[..w];
  }

  lemma ReplacedNone(s: Text, old_: Text, new_: Text, first: bool)
    ensures Replaced(s, old_, new_, 0, first) == s
  {
  }

  lemma PlaceIs(s: Text, old_: Text, first: bool)
    requires Places(s, old_, first) > 0
    ensures old_ == [] && !first ==> s != []
    ensures Place(s, old_, first) == if old_ == [] then (if first || s == [] then 0 else RuneLen(s)) else FirstIndex(s, old_)
  {
  }

  lemma ReplacedStep(s: Text, start: nat, old_: Text, new_: Text, n: nat, first: bool)
    requires start <= |s| && 0 < n <= Places(s[start..], old_, first)
    ensures var rest := s[start..];
      var j := start + if old_ == [] then (if first || rest == [] then 0 else RuneLen(rest)) else FirstIndex(rest, old_);
      && start <= j && j + |old_| <= |s| && (old_ == [] && !first ==> rest != [])
      && n - 1 <= Places(s[j + |old_|..], old_, false)
      && Replaced(rest, old_, new_, n, first) == s[start..j] + new_ + Replaced(s[j + |old_|..], old_, new_, n - 1, false)
  {
    hide Replaced, Place, Places, FirstIndex, RuneLen;
    var rest := s[start..];
    PlacesLeft(rest, old_, first);
    PlaceIs(rest, old_, first);
    ReplacedUnfold(rest, old_, new_, n, first);
    SliceOfRest(s, start, Place(rest, old_, first), |old_|);
  }

  lemma ReplacedUnfold(s: Text, old_: Text, new_: Text, n: nat, first: bool)
    requires 0 < n <= Places(s, old_, first) && Places(s[Place(s, old_, first) + |old_|..], old_, false) == Places(s, old_, first) - 1
    ensures var j := Place(s, old_, first);
      Replaced(s, old_, new_, n, first) == s[..j] + new_ + Replaced(s[j + |old_|..], old_, new_, n - 1, false)
  {
    hide Place, Places, FirstIndex;
  }

  lemma SliceOfRest(s: Text, start: nat, k: nat, n: nat)
    requires start + k + n <= |s|
    ensures s[start..][..k] == s[start..start + k] && s[start..][k + n..] == s[start + k + n..]
  {
  }

  lemma PlacesOf(s: Text, old_: Text)
    requires old_ != []
    ensures Places(s, old_, true) == Places(s, old_, false) == Occurrences(s, old_)
  {
  }

  lemma ReplacedOnce(s: Text, old_: Text, new_: Text, n: nat, first: bool)
    requires old_ != [] && 0 < n <= Occurrences(s, old_)
    ensures var m := FirstIndex(s, old_);
      && m >= 0 && n - 1 <= Occurrences(s[m + |old_|..], old_)
      && Replaced(s, old_, new_, n, first) == Three(s[..m], new_, Replaced(s[m + |old_|..], old_, new_, n - 1, false))
  {
    PlacesLeft(s, old_, first);
  }

  function Three(a: Text, b: Text, c: Text): Text { a + b + c }

  lemma JoinedOne(x: Text, sep: Text)
    ensures Joined([x], sep) == x
  {
  }

  lemma JoinedCons(x: Text, xs: seq<Text>, sep: Text)
    requires xs != []
    ensures Joined([x] + xs, sep) == x + sep + Joined(xs, sep)
  {
    assert ([x] + xs)[1..] == xs;
  }

  lemma FirstDoesNotMatter(s: Text, old_: Text, new_: Text, n: nat)
    requires old_ != [] && n <= Occurrences(s, old_)
    ensures Replaced(s, old_, new_, n, false) == Replaced(s, old_, new_, n, true)
  {
    if n > 0 {
      ReplacedOnce(s, old_, new_, n, true);
      ReplacedOnce(s, old_, new_, n, false);
      hide Replaced, FirstIndex, Occurrences;
    }
  }

  lemma JoinedPieces(s: Text, old_: Text, new_: Text, n: nat)
    requires old_ != [] && 0 < n <= Occurrences(s, old_)
    ensures var m := FirstIndex(s, old_);
      && m >= 0 && m + |old_| <= |s|
      && Joined(Pieces(s, old_, 0, n + 1), new_) == Three(s[..m], new_, Joined(Pieces(s[m + |old_|..], old_, 0, n), new_))
  {
    OccurrencesStep(s, old_);
    PiecesStep(s, old_, 0, n + 1);
    hide Joined, Pieces, FirstIndex, Occurrences;
    var m := FirstIndex(s, old_);
    JoinedCons(s[..m], Pieces(s[m + |old_|..], old_, 0, n), new_);
  }

  /** Replacing is splitting and joining with the new separator. */
  lemma {:induction false} ReplaceIsJoinOfSplit(s: Text, old_: Text, new_: Text, n: nat)
    requires old_ != [] && n <= Occurrences(s, old_)
    ensures Replaced(s, old_, new_, n, true) == Joined(Pieces(s, old_, 0, n + 1), new_)
    decreases n
  {
    hide Replaced, Pieces, Joined, FirstIndex, Occurrences, Places, Three;
    PlacesOf(s, old_);
    if n == 0 {
      PiecesStep(s, old_, 0, 1);
      JoinedOne(s, new_);
      ReplacedNone(s, old_, new_, true);
    } else {
      JoinedPieces(s, old_, new_, n);
      ReplacedOnce(s, old_, new_, n, true);
      var m := FirstIndex(s, old_);
      var rest := s[m + |old_|..];
      var tail := Joined(Pieces(rest, old_, 0, n), new_);
      assert Replaced(rest, old_, new_, n - 1, false) == tail by {
        PlacesOf(rest, old_);
        FirstDoesNotMatter(rest, old_, new_, n - 1);
        ReplaceIsJoinOfSplit(rest, old_, new_, n - 1);
      }
    }
  }

  /** Replacing something by itself changes nothing. */
  lemma ReplaceByItself(s: Text, old_: Text, n: nat)
    requires old_ != [] && n <= Occurrences(s, old_)
    ensures Replaced(s, old_, old_, n, true) == s
  {
    ReplaceIsJoinOfSplit(s, old_, old_, n);
    JoinOfPieces(s, old_, n + 1);
  }

  // ----- what the pieces are -----

  /** In x followed by sep, sep does not begin before the end of x. */
  ghost predicate CutFirst(x: Text, sep: Text) { forall j | 0 <= j < |x| :: !At(x + sep, sep, j) }

  ghost predicate Without(x: Text, sep: Text) { forall j :: !At(x, sep, j) }

  /** xs are the texts before the first separators, from the left, and what is left over. */
  ghost predicate SplitAtFirst(xs: seq<Text>, sep: Text) { xs != [] && forall k | 0 <= k < |xs| - 1 :: CutFirst(xs[k], sep) }

  lemma FirstCut(s: Text, sep: Text)
    requires sep != [] && FirstIndex(s, sep) >= 0
    ensures var m := FirstIndex(s, sep); CutFirst(s[..m], sep) && s == s[..m] + sep + s[m + |sep|..]
  {
    hide FirstIndex;
    var m := FirstIndex(s, sep);
    FirstIndexIs(s, sep);
    var front := s[..m] + sep;
    assert front == s[..m + |sep|];
    forall j | 0 <= j < m
      ensures !At(front, sep, j)
    {
      AtFront(s, sep, m + |sep|, j);
    }
  }

  lemma AtFront(s: Text, sep: Text, n: nat, j: int)
    requires n <= |s|
    ensures At(s[..n], sep, j) ==> At(s, sep, j)
  {
    if At(s[..n], sep, j) { assert s[..n][j..j + |sep|] == s[j..j + |sep|]; }
  }

  lemma {:induction false} PiecesAre(s: Text, sep: Text, n: nat)
    requires sep != [] && n > 0
    ensures var xs := Pieces(s, sep, 0, n);
      SplitAtFirst(xs, sep) && |xs| <= n && (|xs| < n ==> Without(xs[|xs| - 1], sep))
    decreases n
  {
    hide FirstIndex, At;
    PiecesStep(s, sep, 0, n);
    var m := FirstIndex(s, sep);
    if n > 1 && m >= 0 {
      FirstCut(s, sep);
      PiecesAre(s[m + |sep|..], sep, n - 1);
      var rest := Pieces(s[m + |sep|..], sep, 0, n - 1);
      var xs := [s[..m]] + rest;
      assert s[..m + 0] == s[..m];
      assert forall k | 0 < k < |xs| :: xs[k] == rest[k - 1];
    } else if n > 1 {
      FirstIndexIs(s, sep);
    }
  }

  /** What SplitAfter adds: to every piece but the last, its separator. */
  lemma {:induction false} PiecesKept(s: Text, sep: Text, sepSave: nat, n: nat)
    requires sep != [] && sepSave <= |sep| && n > 0
    ensures var xs, ys := Pieces(s, sep, 0, n), Pieces(s, sep, sepSave, n);
      && |ys| == |xs| && ys[|ys| - 1] == xs[|xs| - 1]
      && forall k | 0 <= k < |xs| - 1 :: ys[k] == xs[k] + sep[..sepSave]
    decreases n
  {
    hide FirstIndex;
    PiecesStep(s, sep, 0, n);
    PiecesStep(s, sep, sepSave, n);
    var m := FirstIndex(s, sep);
    if n > 1 && m >= 0 {
      FirstCut(s, sep);
      var tail := s[m + |sep|..];
      PiecesKept(tail, sep, sepSave, n - 1);
      var xs, ys := Pieces(tail, sep, 0, n - 1), Pieces(tail, sep, sepSave, n - 1);
      assert s[..m + 0] == s[..m];
      assert s[..m + sepSave] == s[..m] + sep[..sepSave] by { KeptFront(s, sep, m, sepSave); }
      assert forall k | 0 < k < |xs| + 1 :: ([s[..m]] + xs)[k] == xs[k - 1] && ([s[..m + sepSave]] + ys)[k] == ys[k - 1];
    }
  }

  lemma KeptFront(s: Text, sep: Text, m: nat, sepSave: nat)
    requires m + |sep| <= |s| && s == s[..m] + sep + s[m + |sep|..] && sepSave <= |sep|
    ensures s[..m + sepSave] == s[..m] + sep[..sepSave]
  {
    assert s[m..m + |sep|] == sep;
  }

  /** More pieces than there are make no difference. */
  lemma {:induction false} EnoughPieces(s: Text, sep: Text, n: nat)
    requires sep != [] && n > Occurrences(s, sep)
    ensures Pieces(s, sep, 0, n) == Pieces(s, sep, 0, Occurrences(s, sep) + 1)
    ensures |Pieces(s, sep, 0, n)| == Occurrences(s, sep) + 1
    decreases n
  {
    hide FirstIndex;
    OccurrencesStep(s, sep);
    var o := Occurrences(s, sep);
    PiecesStep(s, sep, 0, n);
    PiecesStep(s, sep, 0, o + 1);
    var m := FirstIndex(s, sep);
    if m >= 0 { EnoughPieces(s[m + |sep|..], sep, n - 1); }
  }

  /** Split by a separator, all n: the text is cut from the left at the first places where the
      separator is, at all of them if n < 0, else into at most n pieces; only a last piece that
      is the n-th may have it inside. Count counts the cuts. */
  lemma SplitIs(s: Text, sep: Text, n: int) returns (xs: seq<Text>)
    requires sep != [] && n != 0
    ensures SplitUp(s, sep, 0, n) == Some(xs)
    ensures SplitAtFirst(xs, sep) && Joined(xs, sep) == s
    ensures (n > 0 ==> |xs| <= n) && (n < 0 || |xs| < n ==> Without(xs[|xs| - 1], sep))
    ensures n < 0 ==> |xs| == Counted(s, sep) + 1
  {
    hide Pieces, Occurrences, FirstIndex, Joined, At;
    JoinOfSplit(s, sep, n);
    xs := SplitUp(s, sep, 0, n).value;
    var o := Occurrences(s, sep);
    if n > 0 {
      PiecesAre(s, sep, n);
    } else {
      PiecesAre(s, sep, o + 2);
      EnoughPieces(s, sep, o + 2);
      EnoughPieces(s, sep, o + 1);
    }
  }

  /** There is only one way to cut like that. */
  lemma {:induction false} SplitUnique(xs: seq<Text>, ys: seq<Text>, sep: Text)
    requires sep != [] && SplitAtFirst(xs, sep) && SplitAtFirst(ys, sep) && |xs| == |ys| && Joined(xs, sep) == Joined(ys, sep)
    ensures xs == ys
    decreases |xs|
  {
    hide At;
    if |xs| > 1 {
      var a, b := Joined(xs[1..], sep), Joined(ys[1..], sep);
      assert CutFirst(xs[0], sep) && CutFirst(ys[0], sep);
      SameCut(xs[0], a, ys[0], b, sep);
      forall k | 0 <= k < |xs| - 2
        ensures CutFirst(xs[1..][k], sep) && CutFirst(ys[1..][k], sep)
      {
        assert xs[1..][k] == xs[k + 1] && ys[1..][k] == ys[k + 1];
      }
      SplitUnique(xs[1..], ys[1..], sep);
      assert xs == [xs[0]] + xs[1..] && ys == [ys[0]] + ys[1..];
    }
  }

  lemma SameCut(x: Text, a: Text, y: Text, b: Text, sep: Text)
    requires sep != [] && x + sep + a == y + sep + b && CutFirst(x, sep) && CutFirst(y, sep)
    ensures x == y && a == b
  {
    if |x| < |y| { LaterCut(x, a, y, b, sep); }
    if |y| < |x| { LaterCut(y, b, x, a, sep); }
    var s := x + sep + a;
    assert s[..|x|] == x && s[|x| + |sep|..] == a;
    assert (y + sep + b)[..|y|] == y && (y + sep + b)[|y| + |sep|..] == b;
  }

  lemma LaterCut(x: Text, a: Text, y: Text, b: Text, sep: Text)
    requires x + sep + a == y + sep + b && |x| < |y|
    ensures !CutFirst(y, sep)
  {
    var s := x + sep + a;
    assert s[|x|..|x| + |sep|] == sep;
    assert (y + sep)[|x|..|x| + |sep|] == (y + sep + b)[|x|..|x| + |sep|];
    assert At(y + sep, sep, |x|);
  }

  /** The empty separator: one piece for every character, with the rest in the n-th. */
  lemma {:induction false} ExplodedAre(s: Text, n: nat, k: nat)
    requires n > 0 && k < |Exploded(s, n)|
    ensures |Exploded(s, n)| <= n && Exploded(s, n)[k] != []
    ensures var o := TotalLen(Exploded(s, n)[..k]);
      o < |s| && Exploded(s, n)[k] == if k < n - 1 then s[o..][..RuneLen(s[o..])] else s[o..]
    decreases n
  {
    hide RuneLen;
    ExplodedStep(s, n);
    ExplodedCount(s, n);
    var xs := Exploded(s, n);
    if n == 1 || k == 0 {
      assert xs[..0] == [] && s[0..] == s && k == 0;
    } else {
      var m := RuneLen(s);
      var rest := Exploded(s[m..], n - 1);
      ExplodedAre(s[m..], n - 1, k - 1);
      assert xs[..k] == [s[..m]] + rest[..k - 1];
      assert ([s[..m]] + rest[..k - 1])[1..] == rest[..k - 1];
      var o := TotalLen(rest[..k - 1]);
      assert s[m..][o..] == s[m + o..];
    }
  }

  lemma {:induction false} ExplodedCount(s: Text, n: nat)
    requires n > 0
    ensures |Exploded(s, n)| <= n && (n > 1 ==> |Exploded(s, n)| == if RuneCount(s) < n then RuneCount(s) else n)
    ensures s != [] ==> Exploded(s, n) != []
    decreases n
  {
    hide RuneLen;
    if s != [] && n > 1 {
      ExplodedCount(s[RuneLen(s)..], n - 1);
      ExplodedStep(s[RuneLen(s)..], n - 1);
    }
  }

  // ----- what Replace does -----

  /** Replace by splitting and joining, for every n. */
  lemma ReplaceIs(s: Text, old_: Text, new_: Text, n: int) returns (xs: seq<Text>)
    requires old_ != []
    ensures SplitUp(s, old_, 0, if n < 0 then -1 else n + 1) == Some(xs)
    ensures Replaced(s, old_, new_, Limit(s, old_, n), true) == Joined(xs, new_)
  {
    hide Replaced, Pieces, Joined, Occurrences, FirstIndex;
    PlacesOf(s, old_);
    xs := SplitUp(s, old_, 0, if n < 0 then -1 else n + 1).value;
    var k := Limit(s, old_, n);
    ReplaceIsJoinOfSplit(s, old_, new_, k);
    if n >= 0 && n > k { EnoughPieces(s, old_, n + 1); }
  }

  /** The characters of s with t before each of the first n of them, and at the end if there are
      fewer. */
  function Interleaved(cs: seq<Text>, t: Text, n: nat): Text {
    Flatten(seq(|cs|, k requires 0 <= k < |cs| => if k < n then t + cs[k] else cs[k])) + (if |cs| < n then t else [])
  }

  lemma InterleavedCons(c: Text, cs: seq<Text>, t: Text, n: nat)
    ensures Interleaved([c] + cs, t, n) == (if n > 0 then t + c else c) + Interleaved(cs, t, if n > 0 then n - 1 else 0)
  {
    var all, m := [c] + cs, if n > 0 then n - 1 else 0;
    var xs := seq(|all|, k requires 0 <= k < |all| => if k < n then t + all[k] else all[k]);
    var ys := seq(|cs|, k requires 0 <= k < |cs| => if k < m then t + cs[k] else cs[k]);
    assert xs[1..] == ys;
    Assoc(xs[0], Flatten(ys), if |cs| < m then t else []);
  }

  function Characters(s: Text): seq<Text>
    decreases |s|
  {
    if s == [] then [] else [s[..RuneLen(s)]] + Characters(s[RuneLen(s)..])
  }

  /** The characters are what splitting by nothing gives. */
  lemma {:induction false} CharactersAre(s: Text, n: nat)
    requires n > 0 && n >= |s|
    ensures Exploded(s, n) == Characters(s) && |Characters(s)| == RuneCount(s)
    decreases |s|
  {
    hide RuneLen;
    ExplodedStep(s, n);
    if s != [] {
      var m := RuneLen(s);
      if n > 1 {
        ExplodedStep(s[m..], n - 1);
        CharactersAre(s[m..], n - 1);
      } else {
        assert s[..m] == s && s[m..] == [];
        assert [s] + [] == [s];
      }
    }
  }

  /** An empty old text is found before every character and at the end. */
  lemma {:induction false} ReplaceNothing(s: Text, new_: Text, n: nat)
    requires n <= Places(s, [], true)
    ensures Replaced(s, [], new_, n, true) == Interleaved(Characters(s), new_, n)
  {
    hide RuneLen, Replaced;
    if n == 0 {
      ReplacedNone(s, [], new_, true);
      NoneInterleaved(s, new_);
    } else {
      PlaceIs(s, [], true);
      PlacesLeft(s, [], true);
      ReplacedUnfold(s, [], new_, n, true);
      assert s[..0] + new_ == new_ && s[0..] == s;
      ReplaceLater(s, new_, n - 1);
      CharactersAre(s, |s| + 1);
      InterleavedFirst(Characters(s), new_, n);
    }
  }

  lemma {:induction false} NoneInterleaved(s: Text, t: Text)
    ensures Interleaved(Characters(s), t, 0) == s
    decreases |s|
  {
    hide RuneLen, Interleaved;
    if s == [] {
      NoCharacters(t, 0);
    } else {
      var m := RuneLen(s);
      NoneInterleaved(s[m..], t);
      InterleavedCons(s[..m], Characters(s[m..]), t, 0);
      assert s[..m] + s[m..] == s;
    }
  }

  lemma NoCharacters(t: Text, n: nat)
    ensures Interleaved([], t, n) == if n > 0 then t else []
  {
  }

  /** The first of the n texts, and the others behind one character each. */
  function Behind(cs: seq<Text>, t: Text, n: nat): Text {
    if cs == [] then [] else cs[0] + (if n > 0 then t else []) + Behind(cs[1..], t, if n > 0 then n - 1 else 0)
  }

  lemma {:induction false} InterleavedFirst(cs: seq<Text>, t: Text, n: nat)
    requires 0 < n <= |cs| + 1
    ensures Interleaved(cs, t, n) == t + Behind(cs, t, n - 1)
    decreases cs
  {
    hide Interleaved;
    if cs == [] {
      NoCharacters(t, n);
      assert t + [] == t;
    } else {
      assert cs == [cs[0]] + cs[1..];
      InterleavedCons(cs[0], cs[1..], t, n);
      if n > 1 {
        InterleavedFirst(cs[1..], t, n - 1);
        assert t + cs[0] + (t + Behind(cs[1..], t, n - 2)) == t + (cs[0] + t + Behind(cs[1..], t, n - 2));
      } else {
        InterleavedNone(cs[1..], t);
        assert t + cs[0] + Behind(cs[1..], t, 0) == t + (cs[0] + [] + Behind(cs[1..], t, 0));
      }
    }
  }

  lemma {:induction false} InterleavedNone(cs: seq<Text>, t: Text)
    ensures Interleaved(cs, t, 0) == Behind(cs, t, 0)
    decreases cs
  {
    hide Interleaved;
    if cs == [] {
      NoCharacters(t, 0);
    } else {
      assert cs == [cs[0]] + cs[1..] && cs[0] + [] == cs[0];
      InterleavedCons(cs[0], cs[1..], t, 0);
      InterleavedNone(cs[1..], t);
    }
  }

  lemma {:induction false} ReplaceLater(s: Text, new_: Text, n: nat)
    requires n <= Places(s, [], false)
    ensures Replaced(s, [], new_, n, false) == Behind(Characters(s), new_, n)
    decreases n
  {
    hide RuneLen, Replaced;
    if n == 0 {
      ReplacedNone(s, [], new_, false);
      NoneInterleaved(s, new_);
      InterleavedNone(Characters(s), new_);
    } else {
      PlaceIs(s, [], false);
      PlacesLeft(s, [], false);
      ReplacedUnfold(s, [], new_, n, false);
      ReplaceLater(s[RuneLen(s)..], new_, n - 1);
    }
  }
}
