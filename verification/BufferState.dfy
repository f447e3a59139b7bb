// The states of ws::base::Buffer as values, and what each operation does to one.
//
// `mem` is the vector's whole block: live bytes sit beyond `size` (the constructor
// only reserves), so the block and not the vector's elements is what is modelled.
// When the vector reallocates, the allocator's choices come in as `junk`: the bytes
// past the requested size, whose number is the extra capacity. The empty `junk` is a
// vector that allocates exactly what was asked for.
module BufferState {
  import opened Bytes

  const PREPEND: nat := 8
  const INITIAL: nat := 4096
  const READFD_EXTRA: nat := 65536

  // The code as it stands, and the code with the two repairs to newSpace: compaction sets
  // the read index to PREPEND, and growth asks for PREPEND + readable + len bytes.
  datatype Form = AsWritten | Repaired

  datatype State = State(mem: seq<byte>, size: nat, readPos: nat, writePos: nat) {

    /** The indices are in order, and an empty window sits at the reserve. */
    predicate Valid() {
      && PREPEND + INITIAL <= |mem|
      && size <= |mem|
      && readPos <= writePos <= |mem|
      && (readPos == writePos ==> readPos == PREPEND)
    }

    function Writeable(): int {
      |mem| - writePos
    }

    function Window(): seq<byte>
      requires readPos <= writePos <= |mem|
    {
      mem[readPos..writePos]
    }
  }

  function Init(block: seq<byte>): State {
    State(block, 0, PREPEND, PREPEND)
  }

  /**
   * A vector's resize(n) past its capacity: the first `size` bytes survive the reallocation, new
   * elements are zero, and spare capacity holds anything.
   */
  function Resize(mem: seq<byte>, size: nat, n: nat, junk: seq<byte>): (r: seq<byte>)
    requires size <= |mem| < n
    ensures |r| == n + |junk|
  {
    mem[..size] + seq(n - size, _ => 0) + junk
  }

  /** Would newSpace(len) move the data within the block instead of growing it? */
  predicate Compacts(s: State, len: nat) {
    s.Writeable() + s.readPos >= len + PREPEND
  }

  function GrowthRequest(form: Form, s: State, len: nat): nat
    requires s.readPos <= s.writePos
  {
    if form.AsWritten? then s.writePos + len else PREPEND + (s.writePos - s.readPos) + len
  }

  /** Entered through the guard, growth always asks for more than the vector has. */
  lemma GrowthReallocates(form: Form, s: State, len: nat)
    requires s.Valid() && s.Writeable() < len && !Compacts(s, len)
    ensures GrowthRequest(form, s, len) > |s.mem|
  {
  }

  /** newSpace(len), entered through its guard; None when the copy would leave the block. */
  function NewSpace(form: Form, s: State, len: nat, junk: seq<byte>): (r: Option<State>)
    requires s.Valid() && s.Writeable() < len
    ensures r.Some? ==> r.value.Valid()
  {
    var w := s.Window();
    if !Compacts(s, len) then
      var mem := Resize(s.mem, s.size, GrowthRequest(form, s, len), junk);
      if PREPEND + |w| > |mem| then None
      else Some(State(Splice(mem, PREPEND, w), GrowthRequest(form, s, len), PREPEND, PREPEND + |w|))
    else
      var start := if form.AsWritten? then 0 else PREPEND;
      Some(State(Splice(s.mem, PREPEND, w), s.size, start, start + |w|))
  }

  function Ensure(form: Form, s: State, len: nat, junk: seq<byte>): (r: Option<State>)
    requires s.Valid()
    ensures r.Some? ==> r.value.Valid()
  {
    if s.Writeable() < len then NewSpace(form, s, len, junk) else Some(s)
  }

  /** Bytes put at the write pointer, then hasWritten. */
  function Fill(s: State, data: seq<byte>): (r: Option<State>)
    requires s.Valid()
    ensures r.Some? ==> r.value.Valid() && r.value.Window() == s.Window() + data && r.value.readPos == s.readPos
  {
    if |data| <= s.Writeable()
    then Some(s.(mem := Splice(s.mem, s.writePos, data), writePos := s.writePos + |data|))
    else None
  }

  function Write(form: Form, s: State, data: seq<byte>, junk: seq<byte>): (r: Option<State>)
    requires s.Valid()
    ensures r.Some? ==> r.value.Valid()
  {
    var t := Ensure(form, s, |data|, junk);
    if t.None? then None else Fill(t.value, data)
  }

  function Prepend(s: State, data: seq<byte>): (r: Option<State>)
    requires s.Valid()
    ensures r.Some? ==> r.value.Valid() && r.value.Window() == data + s.Window()
  {
    if |data| <= s.readPos
    then Some(s.(mem := Splice(s.mem, s.readPos - |data|, data), readPos := s.readPos - |data|))
    else None
  }

  function Retrieve(s: State, n: nat): (r: Option<State>)
    requires s.Valid()
    ensures r.Some? ==> n <= |s.Window()| && r.value.Valid() && r.value.Window() == s.Window()[n..]
  {
    if n > s.writePos - s.readPos then None
    else if n < s.writePos - s.readPos then Some(s.(readPos := s.readPos + n))
    else Some(s.(readPos := PREPEND, writePos := PREPEND))
  }

  function Reset(s: State): State {
    s.(size := 0, readPos := PREPEND, writePos := PREPEND)
  }

  /** The most bytes one readfd can take from its socket. */
  function Offer(s: State): nat
    requires s.Valid()
  {
    if s.Writeable() < READFD_EXTRA then s.Writeable() + READFD_EXTRA else s.Writeable()
  }

  /** readfd when the socket hands over `data`: what fits goes straight in, the rest through write. */
  function ReadFd(form: Form, s: State, data: seq<byte>, junk: seq<byte>): (r: Option<State>)
    requires s.Valid()
    ensures r.Some? ==> r.value.Valid()
  {
    var room := s.Writeable();
    if |data| > Offer(s) then None
    else if |data| <= room then Fill(s, data)
    else
      var t := Fill(s, data[..room]);
      if t.None? then None else Write(form, t.value, data[room..], junk)
  }

  // ---------------------------------------------------------------------------------
  // newSpace, branch by branch
  // ---------------------------------------------------------------------------------

  /** Reaching the compaction branch through the guard forces the read index past the reserve. */
  lemma CompactionMovesLeft(s: State, len: nat)
    requires s.Valid() && s.Writeable() < len && Compacts(s, len)
    ensures s.readPos > PREPEND && |s.Window()| > 0
    ensures PREPEND + |s.Window()| + len <= |s.mem|
  {
  }

  /** Repaired newSpace keeps the window, makes the room asked for and restores the reserve. */
  lemma NewSpaceRepaired(s: State, len: nat, junk: seq<byte>)
    requires s.Valid() && s.Writeable() < len
    ensures NewSpace(Repaired, s, len, junk).Some?
    ensures var t := NewSpace(Repaired, s, len, junk).value;
            && t.Valid() && t.Window() == s.Window()
            && t.readPos == PREPEND && t.Writeable() >= len
            && |t.mem| == if Compacts(s, len) then |s.mem| else PREPEND + |s.Window()| + len + |junk|
  {
  }

  /** Growth as written: whether the copy stays inside the block, and the room it leaves, exactly. */
  lemma GrowthAsWritten(s: State, len: nat, junk: seq<byte>)
    requires s.Valid() && s.Writeable() < len && !Compacts(s, len)
    ensures var r := NewSpace(AsWritten, s, len, junk);
            && (r.Some? <==> s.readPos + len + |junk| >= PREPEND)
            && (r.Some? ==> r.value.Valid() && r.value.Window() == s.Window() && r.value.readPos == PREPEND
                            && r.value.Writeable() == len + |junk| + s.readPos - PREPEND)
  {
  }

  /** With the read index below the reserve and an exact vector, growth leaves too little for the write. */
  lemma GrowthStops(s: State, data: seq<byte>)
    requires s.Valid() && s.Writeable() < |data| && !Compacts(s, |data|) && s.readPos < PREPEND
    ensures Write(AsWritten, s, data, []).None?
  {
    GrowthAsWritten(s, |data|, []);
  }

  /**
   * Growth, either form, byte by byte: the window at the reserve; around it what the vector's elements
   * were, zeros for the elements resize adds, and beyond the requested size whatever the memory held.
   */
  lemma GrowthBlock(form: Form, s: State, len: nat, junk: seq<byte>, i: nat)
    requires s.Valid() && s.Writeable() < len && !Compacts(s, len) && NewSpace(form, s, len, junk).Some?
    requires i < GrowthRequest(form, s, len) + |junk|
    ensures var t, n := NewSpace(form, s, len, junk).value, GrowthRequest(form, s, len);
            && t.size == n && t.readPos == 8 && t.writePos == 8 + |s.Window()| && |t.mem| == n + |junk|
            && t.mem[i] == if 8 <= i < t.writePos then s.Window()[i - 8]
                           else if i < s.size then s.mem[i]
                           else if i < n then 0
                           else junk[i - n]
  {
    var t := NewSpace(form, s, len, junk).value;
    if 8 <= i < t.writePos {
      assert t.mem[8..8 + |s.Window()|] == s.Window();
      assert t.mem[i] == t.mem[8..8 + |s.Window()|][i - 8];
    }
  }

  /** reset empties the vector too: the first write that has to grow it finds a reserve of zeros. */
  lemma ResetForgets(form: Form, s: State, data: seq<byte>)
    requires s.Valid() && |data| > |s.mem| - 8
    ensures Write(form, Reset(s), data, []) == Some(State([0, 0, 0, 0, 0, 0, 0, 0] + data, 8 + |data|, 8, 8 + |data|))
  {
    hide NewSpace, Fill;
    var t := Reset(s);
    GrownEmpty(form, t, |data|);
    FilledAtReserve(NewSpace(form, t, |data|, []).value, data);
  }

  lemma GrownEmpty(form: Form, s: State, len: nat)
    requires s.Valid() && s.size == 0 && s.readPos == s.writePos && len > s.Writeable()
    ensures var r := NewSpace(form, s, len, []);
            r.Some? && |r.value.mem| == 8 + len && r.value == State(r.value.mem, 8 + len, 8, 8)
            && forall i :: 0 <= i < 8 + len ==> r.value.mem[i] == 0
  {
    hide NewSpace, GrowthRequest;
    FreshRequest(form, s, len);
    if form.AsWritten? {
      GrowthAsWritten(s, len, []);
    } else {
      NewSpaceRepaired(s, len, []);
    }
    var u := NewSpace(form, s, len, []).value;
    GrowthBlock(form, s, len, [], 0);
    forall i | 0 <= i < 8 + len ensures u.mem[i] == 0 {
      GrowthBlock(form, s, len, [], i);
    }
  }

  lemma FilledAtReserve(s: State, data: seq<byte>)
    requires s.Valid() && |s.mem| == 8 + |data| && s.readPos == s.writePos
    requires forall i :: 0 <= i < 8 ==> s.mem[i] == 0
    ensures Fill(s, data) == Some(State([0, 0, 0, 0, 0, 0, 0, 0] + data, s.size, 8, 8 + |data|))
  {
    assert s.mem[..8] == [0, 0, 0, 0, 0, 0, 0, 0];
    assert s.mem[8 + |data|..] == [];
    assert Splice(s.mem, 8, data) == s.mem[..8] + data + s.mem[8 + |data|..] == s.mem[..8] + data;
  }

  lemma FreshRequest(form: Form, s: State, len: nat)
    requires s.readPos == s.writePos == PREPEND
    ensures GrowthRequest(form, s, len) == PREPEND + len
  {
  }

  /** Compaction as written: the window slides onto the eight reserve bytes and loses its tail. */
  lemma CompactionAsWritten(s: State, len: nat, junk: seq<byte>)
    requires s.Valid() && s.Writeable() < len && Compacts(s, len)
    ensures var r := NewSpace(AsWritten, s, len, junk);
            && r.Some? && r.value.Valid() && r.value.readPos == 0 && r.value.Writeable() >= len + PREPEND
            && r.value.Window() == (s.mem[..PREPEND] + s.Window())[..|s.Window()|]
  {
    CompactionMovesLeft(s, len);
    var t := NewSpace(AsWritten, s, len, junk).value;
    var n := |s.Window()|;
    assert t.mem[PREPEND..PREPEND + n] == s.Window();
    forall i | 0 <= i < n ensures t.Window()[i] == (s.mem[..PREPEND] + s.Window())[i] {
      if i >= PREPEND {
        assert t.mem[i] == t.mem[PREPEND..PREPEND + n][i - PREPEND];
      }
    }
  }

  /** A call to write does its job: it succeeds and the window gains exactly `data` at its end. */
  predicate WriteAppends(form: Form, s: State, data: seq<byte>, junk: seq<byte>)
    requires s.Valid()
  {
    var r := Write(form, s, data, junk);
    r.Some? && r.value.Window() == s.Window() + data
  }

  lemma WriteRepaired(s: State, data: seq<byte>, junk: seq<byte>)
    requires s.Valid()
    ensures WriteAppends(Repaired, s, data, junk)
  {
    if s.Writeable() < |data| {
      NewSpaceRepaired(s, |data|, junk);
    }
  }

  /** The indices alone decide whether write, as written, can be trusted. */
  predicate WriteIsSafe(s: State, len: nat, extra: nat) {
    || len <= s.Writeable()
    || (!Compacts(s, len) && s.readPos + extra >= PREPEND)
  }

  lemma WriteAsWrittenSafe(s: State, data: seq<byte>, junk: seq<byte>)
    requires s.Valid() && WriteIsSafe(s, |data|, |junk|)
    ensures WriteAppends(AsWritten, s, data, junk)
  {
    if s.Writeable() < |data| {
      GrowthAsWritten(s, |data|, junk);
    }
  }

  lemma EnsureRepaired(s: State, len: nat, junk: seq<byte>)
    requires s.Valid()
    ensures var r := Ensure(Repaired, s, len, junk);
            r.Some? && r.value.Window() == s.Window()
  {
    hide NewSpace;
    if s.Writeable() < len {
      NewSpaceRepaired(s, len, junk);
    }
  }

  /** The same for newSpace alone, which has no room to check. */
  predicate EnsureIsSafe(s: State, len: nat, extra: nat) {
    || len <= s.Writeable()
    || (!Compacts(s, len) && s.readPos + len + extra >= PREPEND)
  }

  lemma EnsureAsWrittenSafe(s: State, len: nat, junk: seq<byte>)
    requires s.Valid() && EnsureIsSafe(s, len, |junk|)
    ensures var r := Ensure(AsWritten, s, len, junk);
            r.Some? && r.value.Window() == s.Window()
  {
    hide NewSpace;
    if s.Writeable() < len {
      GrowthAsWritten(s, len, junk);
    }
  }

  /**
   * ensureWritableBytes, branch by branch, and the room it leaves. Repaired that is always as much as
   * was asked for; as written, growth leaves what the read index is short of the reserve too little.
   */
  lemma EnsureRoom(form: Form, s: State, len: nat, junk: seq<byte>)
    requires s.Valid() && Ensure(form, s, len, junk).Some?
    ensures var t := Ensure(form, s, len, junk).value;
            && t.Writeable() ==
                 (if len <= s.Writeable() then s.Writeable()
                  else if Compacts(s, len) then s.Writeable() + s.readPos - (if form.AsWritten? then 0 else 8)
                  else len + |junk| + if form.AsWritten? then s.readPos - 8 else 0)
            && (t.Writeable() >= len <==>
                 form.Repaired? || len <= s.Writeable() || Compacts(s, len) || s.readPos + |junk| >= 8)
  {
    hide NewSpace;
    if s.Writeable() < len {
      if form.Repaired? {
        RepairedRoom(s, len, junk);
      } else if Compacts(s, len) {
        CompactedRoom(s, len, junk);
      } else {
        GrowthAsWritten(s, len, junk);
      }
    }
  }

  lemma RepairedRoom(s: State, len: nat, junk: seq<byte>)
    requires s.Valid() && s.Writeable() < len
    ensures NewSpace(Repaired, s, len, junk).value.Writeable()
         == if Compacts(s, len) then s.Writeable() + s.readPos - PREPEND else len + |junk|
  {
    NewSpaceRepaired(s, len, junk);
  }

  lemma CompactedRoom(s: State, len: nat, junk: seq<byte>)
    requires s.Valid() && s.Writeable() < len && Compacts(s, len)
    ensures NewSpace(AsWritten, s, len, junk).value.Writeable() == s.Writeable() + s.readPos
  {
    CompactionAsWritten(s, len, junk);
  }

  /** The block with a first reserve byte that differs from the first unread one. */
  function Telling(s: State): (t: State)
    requires s.Valid() && PREPEND < s.readPos < s.writePos
    ensures t.Valid() && |t.mem| == |s.mem| && t == s.(mem := t.mem)
    ensures t.mem[0] == 0 && t.Window()[0] == 1
  {
    s.(mem := s.mem[0 := 0][s.readPos := 1])
  }

  /** Compaction as written brings the first reserve byte to the front. */
  lemma CompactionShows(s: State, len: nat, junk: seq<byte>)
    requires s.Valid() && s.Writeable() < len && Compacts(s, len)
    ensures var r := NewSpace(AsWritten, s, len, junk);
            r.Some? && |r.value.Window()| == |s.Window()| > 0 && r.value.Window()[0] == s.mem[0]
  {
    CompactionMovesLeft(s, len);
    CompactionAsWritten(s, len, junk);
  }

  lemma EnsureAsWrittenUnsafe(s: State, len: nat, junk: seq<byte>) returns (t: State)
    requires s.Valid() && !EnsureIsSafe(s, len, |junk|)
    ensures t.Valid() && |t.mem| == |s.mem| && t == s.(mem := t.mem)
    ensures var r := Ensure(AsWritten, t, len, junk);
            r.Some? ==> r.value.Window() != t.Window()
  {
    hide NewSpace;
    t := s;
    if !Compacts(s, len) {
      GrowthAsWritten(s, len, junk);
    } else {
      CompactionMovesLeft(s, len);
      t := Telling(s);
      CompactionShows(t, len, junk);
    }
  }

  /** readfd takes what the socket offers and appends it, whatever part of it fits at first. */
  lemma ReadFdRepaired(s: State, data: seq<byte>, junk: seq<byte>)
    requires s.Valid()
    ensures var r := ReadFd(Repaired, s, data, junk);
            && (r.Some? <==> |data| <= s.Writeable() + if s.Writeable() < 65536 then 65536 else 0)
            && (r.Some? ==> r.value.Window() == s.Window() + data)
  {
    hide Write, Fill;
    var room := s.Writeable();
    FillFits(s, data);
    if room < |data| {
      FillFits(s, data[..room]);
      WriteRepaired(Fill(s, data[..room]).value, data[room..], junk);
      assert s.Window() + data[..room] + data[room..] == s.Window() + data;
    }
  }

  predicate ReadFdIsSafe(s: State, data: seq<byte>, extra: nat)
    requires s.Valid()
  {
    || |data| <= s.Writeable()
    || WriteIsSafe(Fill(s, data[..s.Writeable()]).value, |data| - s.Writeable(), extra)
  }

  lemma ReadFdAsWrittenSafe(s: State, data: seq<byte>, junk: seq<byte>)
    requires s.Valid() && |data| <= Offer(s) && ReadFdIsSafe(s, data, |junk|)
    ensures var r := ReadFd(AsWritten, s, data, junk);
            r.Some? && r.value.Window() == s.Window() + data
  {
    hide Write, Fill;
    var room := s.Writeable();
    FillFits(s, data);
    if room < |data| {
      FillFits(s, data[..room]);
      WriteAsWrittenSafe(Fill(s, data[..room]).value, data[room..], junk);
      assert s.Window() + data[..room] + data[room..] == s.Window() + data;
    }
  }

  lemma ReadFdAsWrittenUnsafe(s: State, data: seq<byte>, junk: seq<byte>) returns (t: State)
    requires s.Valid() && |data| <= Offer(s) && !ReadFdIsSafe(s, data, |junk|)
    ensures t.Valid() && |t.mem| == |s.mem| && t == s.(mem := t.mem)
    ensures var r := ReadFd(AsWritten, t, data, junk);
            r.Some? ==> r.value.Window() != t.Window() + data
  {
    hide Write, NewSpace;
    var room := s.Writeable();
    var rest := data[room..];
    t := s;
    var u := Fill(s, data[..room]).value;
    if !Compacts(u, |rest|) {
      WriteFailsUnsafe(u, rest, junk);
    } else {
      CompactionMovesLeft(u, |rest|);
      t := Telling(s);
      u := Fill(t, data[..room]).value;
      assert u.mem[0] == 0 && u.Window()[0] == t.Window()[0];
      WriteAfterCompaction(u, rest, junk);
      assert (t.Window() + data)[0] == 1;
    }
  }

  lemma WriteFailsUnsafe(s: State, data: seq<byte>, junk: seq<byte>)
    requires s.Valid() && !WriteIsSafe(s, |data|, |junk|) && !Compacts(s, |data|)
    ensures Write(AsWritten, s, data, junk).None?
  {
    GrowthAsWritten(s, |data|, junk);
  }

  lemma WriteAfterCompaction(s: State, data: seq<byte>, junk: seq<byte>)
    requires s.Valid() && s.Writeable() < |data| && Compacts(s, |data|)
    ensures var r := Write(AsWritten, s, data, junk);
            r.Some? ==> |r.value.Window()| > 0 && r.value.Window()[0] == s.mem[0]
  {
    hide NewSpace;
    CompactionShows(s, |data|, junk);
  }

  lemma FillFits(s: State, data: seq<byte>)
    requires s.Valid()
    ensures Fill(s, data).Some? <==> |data| <= s.Writeable()
  {
  }

  /** Unsafe growth never succeeds; unsafe compaction fails for some contents of the block. */
  lemma WriteAsWrittenUnsafe(s: State, data: seq<byte>, junk: seq<byte>) returns (mem: seq<byte>)
    requires s.Valid() && !WriteIsSafe(s, |data|, |junk|)
    ensures |mem| == |s.mem| && !WriteAppends(AsWritten, s.(mem := mem), data, junk)
  {
    mem := s.mem;
    if !Compacts(s, |data|) {
      GrowthAsWritten(s, |data|, junk);
    } else {
      CompactionMovesLeft(s, |data|);
      mem := s.mem[0 := 0][s.readPos := 1];
      var s' := s.(mem := mem);
      CompactionAsWritten(s', |data|, junk);
      var t := NewSpace(AsWritten, s', |data|, junk).value;
      var u := Fill(t, data).value;
      assert u.Window()[0] == t.Window()[0] == 0;
      assert (s'.Window() + data)[0] == 1;
    }
  }

  /**
   * write, as written, exactly: for given indices and lengths it appends whatever the bytes are
   * if and only if nothing has to move, or the block grows while the read index together
   * with the vector's extra capacity covers the reserve.
   */
  lemma WriteAsWrittenExact(s: State, data: seq<byte>, junk: seq<byte>)
    requires s.Valid()
    ensures (forall mem: seq<byte> :: |mem| == |s.mem| ==> WriteAppends(AsWritten, s.(mem := mem), data, junk))
       <==> WriteIsSafe(s, |data|, |junk|)
  {
    if WriteIsSafe(s, |data|, |junk|) {
      forall mem: seq<byte> | |mem| == |s.mem|
        ensures WriteAppends(AsWritten, s.(mem := mem), data, junk)
      {
        WriteAsWrittenSafe(s.(mem := mem), data, junk);
      }
    } else {
      var mem := WriteAsWrittenUnsafe(s, data, junk);
      assert |mem| == |s.mem|;
    }
  }
}
