// ws::base::Buffer as the object it is: indices and a block updated in place. Every method
// is proved against the function of the same name in BufferState. `ok` is false where an
// assertion of the source stops the program, or a copy would leave the block.
module Buffers {
  import opened Bytes
  import B = BufferState

  class Buffer {
    const form: B.Form
    var readPos: nat
    var writePos: nat
    var store: array<byte>
    var size: nat

    ghost function S(): B.State
      reads this, store
    {
      B.State(store[..], size, readPos, writePos)
    }

    ghost predicate Valid()
      reads this, store
    {
      S().Valid()
    }

    /** The constructor reserves the default size, whatever size it is asked for. */
    constructor (form: B.Form, block: array<byte>)
      requires block.Length >= B.PREPEND + B.INITIAL
      ensures this.form == form && store == block
      ensures S() == B.Init(block[..]) && Valid()
    {
      this.form := form;
      readPos, writePos := B.PREPEND, B.PREPEND;
      store, size := block, 0;
    }

    method ReadableBytes() returns (n: nat)
      requires Valid()
      ensures n == |S().Window()|
    {
      n := writePos - readPos;
    }

    /** The first n unread bytes, left where they are. */
    method Peek(n: nat) returns (data: seq<byte>)
      requires Valid() && n <= |S().Window()|
      ensures data == S().Window()[..n]
    {
      data := store[readPos..readPos + n];
      SliceOfSlice(store[..], readPos, writePos, n);
    }

    /** resize(n) past the capacity: the reallocation saves the first `size` elements only. */
    method Resize(n: nat, junk: seq<byte>)
      requires size <= store.Length < n
      modifies this`store, this`size
      ensures fresh(store)
      ensures store[..] == B.Resize(old(store[..]), old(size), n, junk) && size == n
    {
      store := Reallocated(store, size, n, junk);
      size := n;
    }

    /** The growing branch of newSpace: save the window, resize, lay it out again at the reserve. */
    method Grow(len: nat, junk: seq<byte>) returns (ok: bool)
      requires Valid() && S().Writeable() < len && !B.Compacts(S(), len)
      modifies this`store, this`size, this`readPos, this`writePos, store
      ensures store == old(store) || fresh(store)
      ensures var r := B.NewSpace(form, old(S()), len, junk);
              ok == r.Some? && (ok ==> S() == r.value)
    {
      hide B.Resize;
      B.GrowthReallocates(form, S(), len);
      var readLen := writePos - readPos;
      var writepos := writePos;
      var data := store[readPos..writePos];
      readPos, writePos := B.PREPEND, B.PREPEND;
      Resize(if form.AsWritten? then writepos + len else B.PREPEND + readLen + len, junk);
      ok := B.PREPEND + readLen <= store.Length;
      if ok {
        CopyIn(store, B.PREPEND, data);
        writePos := readPos + readLen;
      }
    }

    /** The other branch: move the window down to the reserve. */
    method Compact(len: nat, ghost junk: seq<byte>)
      requires Valid() && S().Writeable() < len && B.Compacts(S(), len)
      modifies this`readPos, this`writePos, store
      ensures var r := B.NewSpace(form, old(S()), len, junk);
              r.Some? && S() == r.value
    {
      var readLen := writePos - readPos;
      MoveLeft(store, readPos, writePos, B.PREPEND);
      readPos := if form.AsWritten? then 0 else B.PREPEND;
      writePos := readPos + readLen;
    }

    /** newSpace, entered through the guard of its callers. */
    method NewSpace(len: nat, junk: seq<byte>) returns (ok: bool)
      requires Valid() && S().Writeable() < len
      modifies this`store, this`size, this`readPos, this`writePos, store
      ensures store == old(store) || fresh(store)
      ensures var r := B.NewSpace(form, old(S()), len, junk);
              ok == r.Some? && (ok ==> S() == r.value)
    {
      if store.Length - writePos + readPos < len + B.PREPEND {
        ok := Grow(len, junk);
      } else {
        Compact(len, junk);
        ok := true;
      }
    }

    method EnsureWritableBytes(len: nat, junk: seq<byte>) returns (ok: bool)
      requires Valid()
      modifies this`store, this`size, this`readPos, this`writePos, store
      ensures store == old(store) || fresh(store)
      ensures var r := B.Ensure(form, old(S()), len, junk);
              ok == r.Some? && (ok ==> S() == r.value)
    {
      ok := true;
      if store.Length - writePos < len {
        ok := NewSpace(len, junk);
      }
    }

    /** Bytes put at the write pointer and accounted for by hasWritten. */
    method Fill(data: seq<byte>) returns (ok: bool)
      requires Valid()
      modifies this`writePos, store
      ensures var r := B.Fill(old(S()), data);
              ok == r.Some? && S() == if ok then r.value else old(S())
    {
      if |data| > store.Length - writePos {
        return false;
      }
      CopyIn(store, writePos, data);
      writePos := writePos + |data|;
      ok := true;
    }

    method Write(data: seq<byte>, junk: seq<byte>) returns (ok: bool)
      requires Valid()
      modifies this`store, this`size, this`readPos, this`writePos, store
      ensures store == old(store) || fresh(store)
      ensures var r := B.Write(form, old(S()), data, junk);
              ok == r.Some? && (ok ==> S() == r.value)
    {
      ok := EnsureWritableBytes(|data|, junk);
      if ok {
        ok := Fill(data);
      }
    }

    method Prepend(data: seq<byte>) returns (ok: bool)
      requires Valid()
      modifies this`readPos, store
      ensures var r := B.Prepend(old(S()), data);
              ok == r.Some? && S() == if ok then r.value else old(S())
    {
      if |data| > readPos {
        return false;
      }
      readPos := readPos - |data|;
      CopyIn(store, readPos, data);
      ok := true;
    }

    method Retrieve(len: nat) returns (ok: bool)
      requires Valid()
      modifies this`readPos, this`writePos
      ensures var r := B.Retrieve(old(S()), len);
              ok == r.Some? && S() == if ok then r.value else old(S())
    {
      if len > writePos - readPos {
        return false;
      }
      if len < writePos - readPos {
        readPos := readPos + len;
      } else {
        readPos, writePos := B.PREPEND, B.PREPEND;
      }
      ok := true;
    }

    method Read(len: nat) returns (ok: bool, data: seq<byte>)
      requires Valid()
      modifies this`readPos, this`writePos
      ensures var r := B.Retrieve(old(S()), len);
              ok == r.Some? && S() == if ok then r.value else old(S())
      ensures ok ==> data == old(S().Window())[..len]
    {
      data := [];
      ok := len <= writePos - readPos;
      if ok {
        data := Peek(len);
        ok := Retrieve(len);
      }
    }

    method ReadAll() returns (data: seq<byte>)
      requires Valid()
      modifies this`readPos, this`writePos
      ensures Valid() && data == old(S().Window()) && S().Window() == []
      ensures S() == old(S()).(readPos := B.PREPEND, writePos := B.PREPEND)
    {
      var n := ReadableBytes();
      var ok;
      ok, data := Read(n);
    }

    method Reset()
      requires Valid()
      modifies this`readPos, this`writePos, this`size
      ensures S() == B.Reset(old(S())) && Valid()
    {
      readPos, writePos := B.PREPEND, B.PREPEND;
      size := 0;
    }

    /** readfd: what fits goes straight into the block, what does not follows through write. */
    method ReadFd(data: seq<byte>, junk: seq<byte>) returns (ok: bool)
      requires Valid() && |data| <= B.Offer(S())
      modifies this`store, this`size, this`readPos, this`writePos, store
      ensures store == old(store) || fresh(store)
      ensures var r := B.ReadFd(form, old(S()), data, junk);
              ok == r.Some? && (ok ==> S() == r.value)
    {
      var room := store.Length - writePos;
      if |data| <= room {
        ok := Fill(data);
      } else {
        ok := Fill(data[..room]);
        ok := Write(data[room..], junk);
      }
    }
  }

  lemma SliceOfSlice(s: seq<byte>, a: nat, b: nat, n: nat)
    requires a + n <= b <= |s|
    ensures s[a..b][..n] == s[a..a + n]
  {
  }

  /** A new block: what was saved of the old one, zeros up to n, and the spare capacity. */
  method Reallocated(a: array<byte>, size: nat, n: nat, junk: seq<byte>) returns (b: array<byte>)
    requires size <= a.Length < n
    ensures fresh(b) && b[..] == a[..size] + seq(n - size, _ => 0) + junk
  {
    b := new byte[n + |junk|];
    var zeros := seq(n - size, _ => 0);
    CopyIn(b, 0, a[..size]);
    CopyIn(b, size, zeros);
    CopyIn(b, n, junk);
    assert b[..size] == a[..size] && b[size..n] == zeros && b[n..] == junk;
    assert b[..] == b[..size] + b[size..n] + b[n..];
  }

  /** std::copy from a string into a block. */
  method CopyIn(a: array<byte>, at: nat, data: seq<byte>)
    requires at + |data| <= a.Length
    modifies a
    ensures a[..] == Splice(old(a[..]), at, data)
  {
    var i := 0;
    while i < |data|
      invariant 0 <= i <= |data|
      invariant a[..] == Splice(old(a[..]), at, data[..i])
    {
      a[at + i] := data[i];
      i := i + 1;
    }
    assert data[..i] == data;
  }

  /** std::copy within one block, byte by byte towards lower indices: overlap does no harm. */
  method MoveLeft(a: array<byte>, from: nat, to: nat, at: nat)
    requires at <= from <= to <= a.Length
    modifies a
    ensures a[..] == Splice(old(a[..]), at, old(a[from..to]))
  {
    ghost var was := a[..];
    var i := 0;
    while i < to - from
      invariant 0 <= i <= to - from
      invariant forall k :: at <= k < at + i ==> a[k] == was[from + k - at]
      invariant forall k :: 0 <= k < at || at + i <= k < a.Length ==> a[k] == was[k]
    {
      a[at + i] := a[from + i];
      i := i + 1;
    }
    ghost var moved := Splice(was, at, was[from..to]);
    forall k | 0 <= k < a.Length ensures a[k] == moved[k] {
      if at <= k < at + (to - from) {
        assert moved[at..at + (to - from)][k - at] == was[from..to][k - at];
      }
    }
  }
}
