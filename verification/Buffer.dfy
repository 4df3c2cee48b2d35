/** bytes.Buffer: a queue of bytes in a slice that is reused, slid down or replaced by a
    larger one. */
module Buffer {
  import opened Common
  import opened Utf8

  const SMALL_BUFFER_SIZE: nat := 64
  const UTF_MAX: nat := 4
  const MAX_INT: nat := 0x7FFF_FFFF_FFFF_FFFF

  // lastRead
  const OP_READ: int := -1
  const OP_INVALID: int := 0

  function Max(a: nat, b: nat): nat { if a < b then b else a }

  /** Copying is linear: what has been moved is paid for by what has been read and by the
      capacity, which in turn is bounded by what was needed at once. */
  ghost predicate Linear(off: nat, consumed: nat, moved: nat, capacity: nat, base: nat, peak: nat) {
    && off <= consumed
    && moved <= (consumed - off) + capacity
    && capacity <= Max(base, 5 * peak)
    && base >= SMALL_BUFFER_SIZE
  }

  /** Line 167: sliding m bytes down is paid for, because more than m bytes have been read
      since the last time. */
  lemma SlidePays(off: nat, len: nat, n: nat, consumed: nat, moved: nat, c: nat, base: nat, peak: nat)
    requires Linear(off, consumed, moved, c, base, peak) && off <= len <= c
    requires n > c - len && n <= c / 2 - (len - off)
    ensures off > len - off
    ensures Linear(0, consumed, moved + (len - off), c, base, peak)
  {
  }

  lemma EmptyPays(off: nat, consumed: nat, moved: nat, c: nat, base: nat, peak: nat, peak': nat)
    requires Linear(off, consumed, moved, c, base, peak) && peak <= peak'
    ensures Linear(off, consumed, moved, c, base, peak') && Linear(0, consumed, moved, c, base, peak')
  {
  }

  lemma ReadingPays(off: nat, consumed: nat, moved: nat, c: nat, base: nat, peak: nat, n: nat)
    requires Linear(off, consumed, moved, c, base, peak)
    ensures Linear(off + n, consumed + n, moved, c, base, peak)
  {
  }

  /** Line 162: the first allocation. */
  lemma FirstPays(consumed: nat, moved: nat, base: nat, peak: nat)
    requires Linear(0, consumed, moved, 0, base, peak)
    ensures Linear(0, consumed, moved, SMALL_BUFFER_SIZE, base, peak)
  {
  }

  /** Line 179: moving to a larger slice is paid for by its capacity, at least twice as
      large, and that is at most five times what is needed. */
  lemma LargerPays(off: nat, len: nat, n: nat, consumed: nat, moved: nat, c: nat, base: nat, peak: nat)
    requires Linear(off, consumed, moved, c, base, peak) && off <= len <= c && peak >= len - off + n
    requires n > c - len && n > c / 2 - (len - off)
    ensures Linear(0, consumed, moved + (len - off), 2 * c + n, base, peak)
  {
  }

  /** What undoing a read should come to: the bytes due in front of those before, or an
      error if none are due. */
  ghost predicate Undone(due: seq<Byte>, ok: bool, before: seq<Byte>, after: seq<Byte>) {
    if due != [] then ok && after == due + before else !ok && after == before
  }

  lemma UndoneIff(due: seq<Byte>, back: seq<Byte>, ok: bool, before: seq<Byte>, after: seq<Byte>)
    requires after == back + before && (!ok ==> back == []) && (due != [] && back != [] ==> back == due)
    ensures Undone(due, ok, before, after) <==> if due != [] then ok && back != [] else !ok
    ensures back == [] ==> after == before
  {
  }

  lemma FrontOfSlice(d: seq<Byte>, off: nat, len: nat, n: nat)
    requires off + n <= len <= |d|
    ensures d[off..len][..n] == d[off..off + n] && d[off..len][n..] == d[off + n..len]
    ensures |d[off..off + n]| == n
  {
  }

  class Buffer {
    // buf is data[..len]; its capacity is data.Length
    var data: array<Byte>
    var len: nat
    var isNil: bool
    var off: nat
    var lastRead: int

    /** What the most recent operation returned, whether it failed, and whether it was a
        successful ReadRune; nothing unless it was a read. Grow does not count. */
    ghost var last: seq<Byte>
    ghost var failed: bool
    ghost var wasRune: bool
    /** Bytes read and not unread, bytes that growing has copied, the most bytes that ever
        had to fit at once, and the capacity to start with. */
    ghost var consumed: nat
    ghost var moved: nat
    ghost var peak: nat
    ghost const base: nat

    ghost predicate Valid()
      reads this, data
    {
      && off <= len <= data.Length
      && (isNil ==> data.Length == 0)
      && OP_READ <= lastRead <= 4
      && (lastRead > 0 ==> |last| == lastRead && wasRune)
      && (wasRune ==> 0 < |last| <= 4 && !failed && (lastRead == OP_INVALID || lastRead == |last|))
      && (lastRead != OP_INVALID && off > 0 ==> |last| <= off && data[off - |last|..off] == last)
      && Linear(off, consumed, moved, data.Length, base, peak)
    }

    /** The unread bytes, in order. */
    ghost function Contents(): seq<Byte>
      reads this, data
      requires off <= len <= data.Length
    {
      data[off..len]
    }

    /** new(Buffer) */
    constructor ()
      ensures Valid() && Contents() == [] && fresh(data) && lastRead == OP_INVALID
      ensures consumed == moved == peak == 0 && base == SMALL_BUFFER_SIZE
    {
      data := new Byte[0];
      len, off, isNil, lastRead := 0, 0, true, OP_INVALID;
      last, failed, wasRune := [], false, false;
      consumed, moved, peak, base := 0, 0, 0, SMALL_BUFFER_SIZE;
    }

    /** NewBuffer: takes over a slice of n bytes and all of its capacity. */
    constructor From(buf: array<Byte>, n: nat)
      requires n <= buf.Length
      ensures Valid() && Contents() == buf[..n] && data == buf && lastRead == OP_INVALID
      ensures consumed == moved == peak == 0
    {
      data := buf;
      len, off, isNil, lastRead := n, 0, false, OP_INVALID;
      last, failed, wasRune := [], false, false;
      consumed, moved, peak, base := 0, 0, 0, Max(SMALL_BUFFER_SIZE, buf.Length);
    }

    /** Line 81: Len */
    function Len(): (n: nat)
      reads this, data
      requires Valid()
      ensures n == |Contents()|
    {
      len - off
    }

    /** The operation is no read. */
    ghost method Forget()
      modifies this`last, this`failed, this`wasRune
      ensures last == [] && !failed && !wasRune
    {
      last, failed, wasRune := [], false, false;
    }

    /** Line 110: Reset */
    method Reset()
      requires Valid()
      modifies this
      ensures Valid() && data == old(data) && Contents() == [] && len == off == 0
      ensures lastRead == OP_INVALID && last == [] && !failed && !wasRune
      ensures consumed == old(consumed) && moved == old(moved) && peak == old(peak)
    {
      Empty();
      Forget();
    }

    /** Lines 111-113 */
    method Empty()
      requires Valid()
      modifies this`len, this`off, this`lastRead
      ensures Valid() && Contents() == [] && len == off == 0 && lastRead == OP_INVALID
    {
      len := 0;
      off := 0;
      lastRead := OP_INVALID;
    }

    /** Line 94: Truncate; false for the panic. */
    method Truncate(n: int) returns (ok: bool)
      requires Valid()
      modifies this
      ensures Valid() && data == old(data) && moved == old(moved) && peak == old(peak) && consumed == old(consumed)
      ensures ok == (0 <= n <= |old(Contents())|)
      ensures Contents() == if ok then old(Contents())[..n] else old(Contents())
      ensures lastRead == OP_INVALID && last == []
    {
      if n == 0 {
        Reset();
        return true;
      }
      lastRead := OP_INVALID;
      Forget();
      if n < 0 || n > Len() {
        return false;
      }
      TakeOfSlice(data[..], off, len, n);
      len := off + n;
      return true;
    }

    /** Line 122: tryGrowByReslice */
    method TryGrowByReslice(n: nat) returns (i: nat, ok: bool)
      requires Valid()
      modifies this`len
      ensures Valid()
      ensures ok == (n <= data.Length - old(len))
      ensures ok ==> i == old(len) && len == i + n
      ensures !ok ==> len == old(len)
    {
      var l := len;
      if n <= data.Length - l {
        len := l + n;
        return l, true;
      }
      return 0, false;
    }

    /** Line 148: grow. Room for n more bytes after the unread ones, whose position may
        change; false for the panic ErrTooLarge. */
    method MakeRoom(n: nat) returns (m: nat, ok: bool)
      requires Valid()
      modifies this, data
      ensures Valid() && (data == old(data) || fresh(data))
      ensures !ok ==> Contents() == old(Contents()) && data == old(data) && 2 * data.Length + n > MAX_INT
      ensures ok ==> off <= m && m + n == len && data[off..m] == old(Contents())
      ensures consumed == old(consumed) && peak == Max(old(peak), |old(Contents())| + n)
      ensures off == old(off) || off == 0
      ensures moved == old(moved) || moved == old(moved) + |old(Contents())|
      ensures lastRead == old(lastRead) || lastRead == OP_INVALID
      ensures last == old(last) && failed == old(failed) && wasRune == old(wasRune)
      ensures ok && old(Contents()) != [] ==>
        lastRead == old(lastRead) && if n <= old(data.Length - len) then off == old(off) else off == 0
      ensures ok && old(Contents()) == [] && old(off) > 0 ==> lastRead == OP_INVALID
    {
      hide Linear;
      ghost var was := Contents();
      Collapse(n);
      var i: nat;
      i, ok := TryGrowByReslice(n);
      if ok {
        assert data[off..i] == was;
        return i, true;
      }
      m, ok := Relocate(n);
    }

    /** Lines 149-153: an empty buffer starts again at the front. */
    method Collapse(ghost n: nat)
      requires Valid()
      modifies this`len, this`off, this`lastRead, this`peak
      ensures Valid() && Contents() == old(Contents()) && (len == off ==> off == 0)
      ensures peak == Max(old(peak), |old(Contents())| + n) && peak >= |Contents()| + n
      ensures if old(len == off && off != 0) then lastRead == OP_INVALID && off == 0
        else lastRead == old(lastRead) && off == old(off) && len == old(len)
    {
      EmptyPays(off, consumed, moved, data.Length, base, peak, Max(peak, len - off + n));
      hide Linear;
      peak := Max(peak, len - off + n);
      if Len() == 0 && off != 0 {
        Empty();
      }
    }

    /** Lines 161-186: a first allocation, sliding down, or a larger slice. */
    method Relocate(n: nat) returns (m: nat, ok: bool)
      requires Valid() && n > data.Length - len && (len == off ==> off == 0)
      requires peak >= len - off + n
      modifies this, data
      ensures Valid() && (data == old(data) || fresh(data))
      ensures !ok ==> Contents() == old(Contents()) && off == old(off) && data == old(data) && 2 * data.Length + n > MAX_INT
      ensures ok ==> off == 0 && m + n == len && data[..m] == old(Contents())
      ensures consumed == old(consumed) && peak == old(peak) && lastRead == old(lastRead) && last == old(last)
      ensures failed == old(failed) && wasRune == old(wasRune)
      ensures moved == old(moved) || moved == old(moved) + |old(Contents())|
    {
      hide Linear, Max;
      m := Len();
      ghost var was := Contents();
      if isNil && n <= SMALL_BUFFER_SIZE {
        FirstPays(consumed, moved, base, peak);
        data := new Byte[SMALL_BUFFER_SIZE];
        isNil := false;
        len := n;
        return 0, true;
      }
      var c := data.Length;
      if n <= c / 2 - m {
        SlidePays(off, len, n, consumed, moved, c, base, peak);
        CopyWithin(data, off, len);
      } else if c > MAX_INT - c - n {
        return 0, false;
      } else {
        LargerPays(off, len, n, consumed, moved, c, base, peak);
        data := Larger(2 * c + n);
        isNil := false;
      }
      Restart(m, n);
      ok := true;
    }

    /** Lines 183-185: the m unread bytes are at the front now. */
    method Restart(m: nat, n: nat)
      requires m + n <= data.Length && !isNil && OP_READ <= lastRead <= 4 && (lastRead > 0 ==> |last| == lastRead && wasRune)
      requires wasRune ==> 0 < |last| <= 4 && !failed && (lastRead == OP_INVALID || lastRead == |last|)
      requires Linear(0, consumed, moved + m, data.Length, base, peak)
      modifies this`off, this`len, this`moved
      ensures Valid() && off == 0 && len == m + n && moved == old(moved) + m
    {
      moved := moved + m;
      off := 0;
      len := m + n;
    }

    /** Lines 179-180: a larger slice with the unread bytes at its front. */
    method Larger(capacity: nat) returns (buf: array<Byte>)
      requires off <= len <= data.Length && len - off <= capacity
      ensures fresh(buf) && buf.Length == capacity && buf[..len - off] == Contents()
    {
      buf := new Byte[capacity];
      CopyInto(buf, 0, data[off..len]);
      assert buf[..][..len - off] == data[off..len];
    }

    /** Line 195: Grow; false for a panic. */
    method Grow(n: int) returns (ok: bool)
      requires Valid()
      modifies this, data
      ensures Valid() && (data == old(data) || fresh(data))
      ensures Contents() == old(Contents())
      ensures ok ==> n >= 0 && data.Length - len >= n
      ensures consumed == old(consumed) && (n >= 0 ==> peak == Max(old(peak), |old(Contents())| + n))
      ensures !ok ==> n < 0 || (data == old(data) && 2 * data.Length + n > MAX_INT)
      ensures last == old(last) && failed == old(failed) && wasRune == old(wasRune)
      ensures ok && old(Contents()) != [] ==>
        lastRead == old(lastRead) && if n <= old(data.Length - len) then off == old(off) else off == 0
      ensures ok && old(Contents()) == [] && old(off) > 0 ==> lastRead == OP_INVALID
    {
      if n < 0 {
        return false;
      }
      var m: nat;
      m, ok := MakeRoom(n);
      if ok {
        len := m;
      }
    }

    /** The start of every write: room for n bytes behind the unread ones. */
    method Append(n: nat) returns (m: nat, ok: bool)
      requires Valid()
      modifies this, data
      ensures Valid() && (data == old(data) || fresh(data)) && lastRead == OP_INVALID && last == []
      ensures !ok ==> Contents() == old(Contents()) && data == old(data) && 2 * data.Length + n > MAX_INT
      ensures ok ==> off <= m && m + n == len && data[off..m] == old(Contents())
      ensures consumed == old(consumed) && peak <= Max(old(peak), |old(Contents())| + n)
    {
      lastRead := OP_INVALID;
      Forget();
      m, ok := TryGrowByReslice(n);
      if !ok {
        m, ok := MakeRoom(n);
      }
    }

    /** Line 208: Write, and line 227: WriteString; false for the panic. */
    method Write(p: seq<Byte>) returns (ok: bool)
      requires Valid()
      modifies this, data
      ensures Valid() && (data == old(data) || fresh(data)) && lastRead == OP_INVALID && last == []
      ensures Contents() == if ok then old(Contents()) + p else old(Contents())
      ensures !ok ==> 2 * data.Length + |p| > MAX_INT
      ensures consumed == old(consumed) && peak <= Max(old(peak), |old(Contents())| + |p|)
    {
      var m: nat;
      m, ok := Append(|p|);
      if ok {
        Place(m, p);
      }
    }

    /** copy(b.buf[m:], p), with the length cut to what was copied. */
    method Place(m: nat, p: seq<Byte>)
      requires Valid() && off <= m && m + |p| <= len && lastRead == OP_INVALID
      modifies this`len, data
      ensures Valid() && len == m + |p| && Contents() == old(data[off..m]) + p
    {
      hide Linear;
      ghost var was := data[..];
      CopyInto(data, m, p);
      len := m + |p|;
      assert data[off..len] == data[..][off..len];
      assert was[..m][off..] == old(data[off..m]);
    }

    /** Line 314: WriteByte */
    method WriteByte(c: Byte) returns (ok: bool)
      requires Valid()
      modifies this, data
      ensures Valid() && (data == old(data) || fresh(data)) && lastRead == OP_INVALID && last == []
      ensures Contents() == if ok then old(Contents()) + [c] else old(Contents())
      ensures consumed == old(consumed) && peak <= Max(old(peak), |old(Contents())| + 1)
    {
      var m: nat;
      m, ok := Append(1);
      if ok {
        data[m] := c;
      }
    }

    /** Line 331: WriteRune */
    method WriteRune(r: int) returns (n: nat, ok: bool)
      requires Valid()
      modifies this, data
      ensures Valid() && (data == old(data) || fresh(data)) && lastRead == OP_INVALID && last == []
      ensures Contents() == if ok then old(Contents()) + EncodeRune(r) else old(Contents())
      ensures ok ==> n == |EncodeRune(r)|
      ensures consumed == old(consumed) && peak <= Max(old(peak), |old(Contents())| + UTF_MAX)
    {
      assert 0 <= r < 0x80 ==> EncodeRune(r) == [r];
      hide Linear, EncodeRune, Max;
      if 0 <= r < 0x80 {
        ok := WriteByte(r);
        return 1, ok;
      }
      var m: nat;
      m, ok := Append(UTF_MAX);
      n := 0;
      if ok {
        n := |EncodeRune(r)|;
        Place(m, EncodeRune(r));
      }
    }

    /** Takes n bytes off the front. */
    method Consume(n: nat, op: int, ghost eof: bool) returns (p: seq<Byte>)
      requires Valid() && n <= |Contents()| && (op == OP_READ || (op == n && 0 < n <= 4 && !eof))
      modifies this`off, this`lastRead, this`last, this`failed, this`wasRune, this`consumed
      ensures Valid() && failed == eof && wasRune == (op != OP_READ)
      ensures p == old(Contents())[..n] && Contents() == old(Contents())[n..]
      ensures lastRead == op && last == p && consumed == old(consumed) + n
      ensures off == old(off) + n
    {
      hide Linear;
      ReadingPays(off, consumed, moved, data.Length, base, peak, n);
      FrontOfSlice(data[..], off, len, n);
      p := data[off..off + n];
      off := off + n;
      lastRead := op;
      last, failed, wasRune := p, eof, op != OP_READ;
      consumed := consumed + n;
    }

    /** Line 353: Read into a slice of the given size; eof for io.EOF. */
    method Read(size: nat) returns (p: seq<Byte>, eof: bool)
      requires Valid()
      modifies this
      ensures Valid() && data == old(data) && moved == old(moved) && peak == old(peak) && consumed == old(consumed) + |p|
      ensures |p| == if size < |old(Contents())| then size else |old(Contents())|
      ensures old(Contents()) == p + Contents()
      ensures eof == (old(Contents()) == [] && size > 0)
      ensures last == p && failed == eof && len == (if old(Contents()) == [] then 0 else old(len))
      ensures if p == [] then lastRead == OP_INVALID else lastRead == OP_READ && off > 0
    {
      hide Linear;
      lastRead := OP_INVALID;
      Forget();
      if len <= off {
        Reset();
        failed := size > 0;
        return [], size > 0;
      }
      var n := if size < len - off then size else len - off;
      eof := false;
      if n > 0 {
        p := Consume(n, OP_READ, false);
      } else {
        p := [];
      }
    }

    /** Line 378: Next */
    method Next(n0: nat) returns (p: seq<Byte>)
      requires Valid()
      modifies this
      ensures Valid() && data == old(data) && moved == old(moved) && peak == old(peak) && consumed == old(consumed) + |p|
      ensures |p| == if n0 < |old(Contents())| then n0 else |old(Contents())|
      ensures old(Contents()) == p + Contents()
      ensures last == p && !failed && len == old(len)
      ensures if p == [] then lastRead == OP_INVALID else lastRead == OP_READ && off > 0
    {
      hide Linear;
      lastRead := OP_INVALID;
      Forget();
      var m := Len();
      var n := if n0 > m then m else n0;
      if n > 0 {
        p := Consume(n, OP_READ, false);
      } else {
        p := [];
      }
    }

    /** Line 395: ReadByte, None for io.EOF. */
    method ReadByte() returns (c: Option<Byte>)
      requires Valid()
      modifies this
      ensures Valid() && data == old(data) && moved == old(moved) && peak == old(peak)
      ensures consumed == old(consumed) + if c.Some? then 1 else 0
      ensures c.None? <==> old(Contents()) == []
      ensures c.Some? ==> old(Contents()) == [c.value] + Contents() && lastRead == OP_READ && last == [c.value] && off == old(off) + 1
      ensures c.None? ==> Contents() == [] && lastRead == OP_INVALID && last == []
      ensures failed == c.None? && (c.Some? ==> len == old(len))
    {
      if len <= off {
        Reset();
        failed := true;
        return None;
      }
      var p := Consume(1, OP_READ, false);
      return Some(p[0]);
    }

    /** Line 416: ReadRune, the bytes of the rune, None for io.EOF. */
    method ReadRune() returns (p: Option<seq<Byte>>)
      requires Valid()
      modifies this
      ensures Valid() && data == old(data) && moved == old(moved) && peak == old(peak)
      ensures consumed == old(consumed) + if p.Some? then |p.value| else 0
      ensures p.None? <==> old(Contents()) == []
      ensures p.Some? ==> old(Contents()) == p.value + Contents() && |p.value| == RuneLen(old(Contents()))
      ensures p.Some? ==> lastRead == |p.value| && last == p.value && off > 0
      ensures p.None? ==> Contents() == [] && lastRead == OP_INVALID && last == []
      ensures failed == p.None? && wasRune == p.Some? && (p.Some? ==> len == old(len))
    {
      if len <= off {
        Reset();
        failed := true;
        return None;
      }
      ghost var was := Contents();
      var n := 1;
      if data[off] >= 0x80 {
        n := RuneLen(data[off..len]);
      }
      assert was[0] == data[off];
      var q := Consume(n, n, false);
      return Some(q);
    }

    /** Line 479: ReadBytes, and line 511: ReadString; eof for io.EOF. */
    method ReadBytes(delim: Byte) returns (line: seq<Byte>, eof: bool)
      requires Valid()
      modifies this
      ensures Valid() && data == old(data) && moved == old(moved) && peak == old(peak) && consumed == old(consumed) + |line|
      ensures old(Contents()) == line + Contents()
      ensures eof <==> delim !in old(Contents())
      ensures eof ==> line == old(Contents())
      ensures !eof ==> line != [] && line[|line| - 1] == delim && delim !in line[..|line| - 1]
      ensures lastRead == OP_READ && last == line && failed == eof && off == old(off) + |line| && len == old(len)
    {
      ghost var was := Contents();
      var i := IndexByte(data[off..len], delim);
      IndexByteSpec(was, delim);
      var end := off + i + 1;
      eof := false;
      if i < 0 {
        end := len;
        eof := true;
      }
      line := Consume(end - off, OP_READ, eof);
      assert i >= 0 ==> line[..|line| - 1] == was[..i] && line[|line| - 1] == was[i];
    }

    /** Lines 456-459: what UnreadByte promises: the last byte of a read that was successful
        and gave one is put back; anything else is an error. */
    twostate predicate ByteAsDocumented(ok: bool)
      reads this, data
      requires old(off <= len <= data.Length) && off <= len <= data.Length
    {
      Undone(if old(last != [] && !failed) then [old(last[|last| - 1])] else [], ok, old(Contents()), Contents())
    }

    /** Line 462: UnreadByte; false for its error. The promise is kept if and only if, where
        a byte is due, the read is still remembered and still in front of the unread bytes,
        and where none is due, no read is remembered. */
    method UnreadByte() returns (ok: bool)
      requires Valid()
      modifies this
      ensures Valid() && data == old(data) && moved == old(moved) && peak == old(peak)
      ensures consumed - off == old(consumed - off)
      ensures ok == (old(lastRead) != OP_INVALID)
      ensures Contents() == if ok && old(off) > 0 then [old(data[off - 1])] + old(Contents()) else old(Contents())
      ensures ByteAsDocumented(ok) <==>
        if old(last != [] && !failed) then old(lastRead) != OP_INVALID && old(off) > 0 else old(lastRead) == OP_INVALID
      ensures ok && old(off) > 0 && old(last) != [] ==> old(data[off - 1]) == old(last)[|old(last)| - 1]
      ensures lastRead == OP_INVALID && last == []
    {
      hide Undone, Linear;
      ghost var due := if last != [] && !failed then [last[|last| - 1]] else [];
      ghost var back := if lastRead != OP_INVALID && off > 0 then [data[off - 1]] else [];
      if lastRead != OP_INVALID && off > 0 { LastIsBefore(); }
      ok := StepBack();
      UndoneIff(due, back, ok, old(Contents()), Contents());
    }

    /** Lines 463-470 */
    method StepBack() returns (ok: bool)
      requires Valid()
      modifies this
      ensures Valid() && data == old(data) && moved == old(moved) && peak == old(peak)
      ensures consumed - off == old(consumed - off) && ok == (old(lastRead) != OP_INVALID)
      ensures Contents() == (if ok && old(off) > 0 then [old(data[off - 1])] else []) + old(Contents())
      ensures lastRead == OP_INVALID && last == []
    {
      hide Linear;
      if lastRead == OP_INVALID {
        Forget();
        return false;
      }
      lastRead := OP_INVALID;
      if off > 0 {
        PutBack(1);
      }
      Forget();
      return true;
    }

    /** Lines 435-439: what UnreadRune promises. */
    twostate predicate RuneAsDocumented(ok: bool)
      reads this, data
      requires old(off <= len <= data.Length) && off <= len <= data.Length
    {
      Undone(if old(wasRune) then old(last) else [], ok, old(Contents()), Contents())
    }

    /** Line 443: UnreadRune; false for its error. The promise is kept if and only if, where
        a rune is due, it is still remembered and in front of the unread bytes. */
    method UnreadRune() returns (ok: bool)
      requires Valid()
      modifies this
      ensures Valid() && data == old(data) && moved == old(moved) && peak == old(peak)
      ensures consumed - off == old(consumed - off)
      ensures ok == (old(lastRead) > 0)
      ensures Contents() == if ok && old(off) > 0 then old(last) + old(Contents()) else old(Contents())
      ensures RuneAsDocumented(ok) <==> (old(wasRune) ==> old(lastRead) > 0 && old(off) > 0)
      ensures last == [] && lastRead <= OP_INVALID
    {
      hide Undone, Linear;
      ghost var due := if wasRune then last else [];
      ghost var back := if lastRead > 0 && off > 0 then last else [];
      if lastRead != OP_INVALID && off > 0 { LastIsBefore(); }
      UndoneIff(due, back, lastRead > 0, Contents(), back + Contents());
      if lastRead <= OP_INVALID {
        Forget();
        return false;
      }
      var n: nat := lastRead;
      lastRead := OP_INVALID;
      if off >= n {
        PutBack(n);
      }
      Forget();
      return true;
    }

    /** The last n bytes read are unread again. */
    method PutBack(n: nat)
      requires Valid() && n <= off && lastRead == OP_INVALID
      modifies this`off, this`consumed
      ensures Valid() && off == old(off) - n && consumed == old(consumed) - n
      ensures Contents() == old(data[off - n..off]) + old(Contents())
      ensures n == 1 ==> Contents() == [old(data[off - 1])] + old(Contents())
    {
      assert data[off - n..len] == data[off - n..off] + data[off..len];
      assert n == 1 ==> data[off - 1..off] == [data[off - 1]];
      off := off - n;
      consumed := consumed - n;
    }

    lemma LastIsBefore()
      requires Valid() && lastRead != OP_INVALID && off > 0
      ensures data[off - |last|..off] == last
      ensures last != [] ==> data[off - 1] == last[|last| - 1]
    {
      if last != [] { assert data[off - 1] == data[off - |last|..off][|last| - 1]; }
    }
  }

  // ----- reads that are undone, and reads that are not -----

  /** The reads; the result says whether there was an error. */
  datatype ReadCall = ReadUpTo(size: nat) | NextUpTo(n: nat) | OneByte | OneRune | Until(delim: Byte)

  method PerformRead(b: Buffer, call: ReadCall) returns (p: seq<Byte>, e: bool)
    requires b.Valid()
    modifies b
    ensures b.Valid() && b.data == old(b.data) && old(b.Contents()) == p + b.Contents()
    ensures b.last == p && b.failed == e && (e && p != [] ==> call.Until?)
    ensures b.consumed == old(b.consumed) + |p| && b.moved == old(b.moved) && b.peak == old(b.peak)
    ensures p != [] ==> b.lastRead != OP_INVALID && b.off > 0 && b.len == old(b.len)
    ensures p == [] && !call.Until? ==> b.lastRead == OP_INVALID
    ensures call.Until? ==> b.lastRead == OP_READ && (e ==> b.Contents() == []) && (p == [] ==> e)
  {
    match call
    case ReadUpTo(size) => p, e := b.Read(size);
    case NextUpTo(n) =>
      p := b.Next(n);
      e := false;
    case OneByte =>
      var c := b.ReadByte();
      p, e := if c.Some? then [c.value] else [], c.None?;
    case OneRune =>
      var r := b.ReadRune();
      p, e := if r.Some? then r.value else [], r.None?;
    case Until(delim) => p, e := b.ReadBytes(delim);
  }

  /** UnreadByte straight after a read does what its documentation says if and only if the
      read was not one up to a delimiter that ended in an error. */
  method ReadThenUnread(b: Buffer, call: ReadCall) returns (p: seq<Byte>, e: bool, ok: bool)
    requires b.Valid()
    modifies b
    ensures b.Valid() && p <= old(b.Contents())
    ensures var due := p != [] && !e; var rest := old(b.Contents())[|p|..];
      (ok == due && b.Contents() == if due then [p[|p| - 1]] + rest else rest) <==> !(call.Until? && e)
  {
    p, e := PerformRead(b, call);
    assert b.Contents() == old(b.Contents())[|p|..];
    ok := b.UnreadByte();
  }

  /** With a Grow in between the byte comes back if and only if there was one, something is
      left to be read, and the n bytes fit behind it as it is. */
  method ReadGrowUnread(b: Buffer, call: ReadCall, n: int) returns (p: seq<Byte>, e: bool, grown: bool, ok: bool)
    requires b.Valid()
    modifies b, b.data
    ensures b.Valid() && |p| <= |old(b.Contents())|
    ensures var rest := old(b.Contents())[|p|..];
      grown && p != [] ==>
        ((ok && b.Contents() == [p[|p| - 1]] + rest) <==> rest != [] && n <= old(b.data.Length - b.len))
  {
    hide Undone, Linear, Max;
    p, e := PerformRead(b, call);
    ghost var rest := b.Contents();
    assert rest == old(b.Contents())[|p|..];
    grown := b.Grow(n);
    if !grown {
      return p, e, false, false;
    }
    ghost var due := if p == [] then [] else [p[|p| - 1]];
    ghost var back := if b.lastRead != OP_INVALID && b.off > 0 then [b.data[b.off - 1]] else [];
    ok := b.UnreadByte();
    if p != [] {
      UndoneIff(due, back, ok, rest, b.Contents());
      RestoredIff(due, ok, rest, b.Contents());
    }
  }

  lemma RestoredIff(due: seq<Byte>, ok: bool, before: seq<Byte>, after: seq<Byte>)
    requires due != []
    ensures Undone(due, ok, before, after) <==> ok && after == due + before
  {
  }

  /** The same for ReadRune and UnreadRune. */
  method RuneGrowUnread(b: Buffer, n: int) returns (p: Option<seq<Byte>>, grown: bool, ok: bool)
    requires b.Valid()
    modifies b, b.data
    ensures b.Valid() && (p.Some? ==> |p.value| <= |old(b.Contents())|)
    ensures grown && p.Some? ==>
      var rest := old(b.Contents())[|p.value|..];
      (ok && b.Contents() == p.value + rest) <==> rest != [] && n <= old(b.data.Length - b.len)
  {
    hide Undone, Linear, Max;
    p := b.ReadRune();
    ghost var rest := b.Contents();
    assert p.Some? ==> rest == old(b.Contents())[|p.value|..];
    grown := b.Grow(n);
    if !grown {
      return p, false, false;
    }
    ghost var back := if b.lastRead > 0 && b.off > 0 then b.last else [];
    ok := b.UnreadRune();
    if p.Some? {
      UndoneIff(p.value, back, ok, rest, b.Contents());
      RestoredIff(p.value, ok, rest, b.Contents());
    }
  }

  /** UnreadRune straight after ReadRune restores the queue. */
  method ReadUnreadRune(b: Buffer)
    requires b.Valid()
    modifies b
    ensures b.Valid() && b.Contents() == old(b.Contents())
  {
    var p := b.ReadRune();
    if p.Some? {
      var ok := b.UnreadRune();
    }
  }

  /** With a Grow in between the byte may be gone although UnreadByte reports success. */
  method UnreadAfterGrow() returns (b: Buffer, ok: bool)
    ensures fresh(b) && b.Valid() && ok && b.Contents() == [2]
  {
    var slice := new Byte[2](i => i + 1);
    assert slice[..2] == [1, 2];
    b := new Buffer.From(slice, 2);
    var c := b.ReadByte();
    ok := b.Grow(64);
    ok := b.UnreadByte();
  }

  /** After a ReadBytes that ended in io.EOF, UnreadByte reports success. */
  method UnreadAfterError() returns (b: Buffer, line: seq<Byte>, eof: bool, ok: bool)
    ensures fresh(b) && b.Valid() && line == [1] && eof && ok && b.Contents() == [1]
  {
    var slice := new Byte[1](_ => 1);
    assert slice[..1] == [1];
    b := new Buffer.From(slice, 1);
    line, eof := b.ReadBytes(10);
    ok := b.UnreadByte();
  }

  /** After one that found nothing, it puts back a byte of an earlier read. */
  method UnreadAfterEmpty() returns (b: Buffer, eof: bool, ok: bool)
    ensures fresh(b) && b.Valid() && eof && ok && b.Contents() == [1]
  {
    var slice := new Byte[1](_ => 1);
    assert slice[..1] == [1];
    b := new Buffer.From(slice, 1);
    var c := b.ReadByte();
    var line: seq<Byte>;
    line, eof := b.ReadBytes(10);
    ok := b.UnreadByte();
  }

  // ----- runs -----

  datatype Call = Put(p: seq<Byte>) | PutByte(c: Byte) | PutRune(r: int) | Take(read: ReadCall) | GrowBy(n: int)

  /** Room that is asked for without being filled. */
  function Spare(call: Call): nat {
    match call
    case GrowBy(n) => if n >= 0 then n else 0
    case _ => UTF_MAX
  }

  function MostSpare(calls: seq<Call>): nat {
    if calls == [] then 0 else Max(Spare(calls[0]), MostSpare(calls[1..]))
  }

  lemma {:induction false} SpareAt(calls: seq<Call>, i: nat)
    requires i < |calls|
    ensures Spare(calls[i]) <= MostSpare(calls)
    decreases i
  {
    if i > 0 { SpareAt(calls[1..], i - 1); }
  }

  method PerformOne(b: Buffer, call: Call) returns (written: seq<Byte>, taken: seq<Byte>, ok: bool)
    requires b.Valid()
    modifies b, b.data
    ensures b.Valid() && (b.data == old(b.data) || fresh(b.data))
    ensures old(b.Contents()) + written == taken + b.Contents()
    ensures b.consumed == old(b.consumed) + |taken|
    ensures ok ==> b.peak <= Max(old(b.peak), |old(b.Contents())| + |written| + Spare(call))
  {
    written, taken, ok := [], [], true;
    match call
    case Put(p) =>
      ok := b.Write(p);
      written := if ok then p else [];
    case PutByte(c) =>
      ok := b.WriteByte(c);
      written := if ok then [c] else [];
    case PutRune(r) =>
      var n;
      n, ok := b.WriteRune(r);
      written := if ok then EncodeRune(r) else [];
    case Take(read) =>
      var e;
      taken, e := PerformRead(b, read);
    case GrowBy(n) =>
      ok := b.Grow(n);
  }

  /** Any sequence of writes, reads and Grow, up to the first panic: what was in the buffer
      and what was written comes out in order or is still there; and the bytes growing has
      moved are at most those read plus five times the most that had to fit at once. */
  method Perform(b: Buffer, calls: seq<Call>) returns (written: seq<Byte>, taken: seq<Byte>, ok: bool)
    requires b.Valid()
    modifies b, b.data
    ensures b.Valid() && old(b.Contents()) + written == taken + b.Contents()
    ensures b.consumed == old(b.consumed) + |taken| && b.moved <= b.consumed + Max(b.base, 5 * b.peak)
    ensures ok ==> b.peak <= Max(old(b.peak), |old(b.Contents())| + |written| + MostSpare(calls))
  {
    hide Spare, MostSpare, Linear, Max, Flow;
    written, taken, ok := [], [], true;
    var i := 0;
    ghost var u := b.Contents();
    NoFlow(u);
    PeakStart(b.peak, |u| + MostSpare(calls));
    while i < |calls| && ok
      invariant 0 <= i <= |calls| && b.Valid() && (b.data == old(b.data) || fresh(b.data))
      invariant Flow(u, written, taken, b.Contents()) && b.consumed == old(b.consumed) + |taken|
      invariant ok ==> b.peak <= Max(old(b.peak), |u| + |written| + MostSpare(calls))
      decreases |calls| - i
    {
      SpareAt(calls, i);
      ghost var before := b.Contents();
      ghost var peak := b.peak;
      var w, t;
      w, t, ok := PerformOne(b, calls[i]);
      Queue(u, written, taken, before, w, t, b.Contents());
      if ok { PeakStep(old(b.peak), |u|, written, w, |before|, peak, b.peak, Spare(calls[i]), MostSpare(calls)); }
      written, taken := written + w, taken + t;
      i := i + 1;
    }
    MovedBound(b.off, b.consumed, b.moved, b.data.Length, b.base, b.peak);
    assert u + written == taken + b.Contents() by { FlowIs(u, written, taken, b.Contents()); }
  }

  /** What was there and what was written is what was taken and what is there. */
  ghost predicate Flow(u: seq<Byte>, written: seq<Byte>, taken: seq<Byte>, now: seq<Byte>) {
    u + written == taken + now
  }

  lemma NoFlow(u: seq<Byte>)
    ensures Flow(u, [], [], u)
  {
  }

  lemma FlowIs(u: seq<Byte>, written: seq<Byte>, taken: seq<Byte>, now: seq<Byte>)
    requires Flow(u, written, taken, now)
    ensures u + written == taken + now
  {
  }

  lemma PeakStart(start: nat, room: nat)
    ensures start <= Max(start, room)
  {
  }

  lemma MovedBound(off: nat, consumed: nat, moved: nat, c: nat, base: nat, peak: nat)
    requires Linear(off, consumed, moved, c, base, peak)
    ensures moved <= consumed + Max(base, 5 * peak)
  {
  }

  lemma PeakStep(start: nat, u: nat, written: seq<Byte>, w: seq<Byte>, before: nat, peak: nat, peak': nat, spare: nat, most: nat)
    requires peak <= Max(start, u + |written| + most) && before <= u + |written| && spare <= most
    requires peak' <= Max(peak, before + |w| + spare)
    ensures peak' <= Max(start, u + |written + w| + most)
  {
  }

  lemma Queue(u: seq<Byte>, written: seq<Byte>, taken: seq<Byte>, before: seq<Byte>, w: seq<Byte>, t: seq<Byte>, after: seq<Byte>)
    requires Flow(u, written, taken, before) && before + w == t + after
    ensures Flow(u, written + w, taken + t, after) && |before| <= |u| + |written|
  {
    Assoc(u, written, w);
    Assoc(taken, before, w);
    Assoc(taken, t, after);
    assert |u + written| == |taken + before|;
  }
}
