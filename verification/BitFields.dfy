// getbit and setbit of Utility.cpp, and what any sequence of field updates leaves in a byte.
module BitFields {
  import opened Bytes
  import opened Bits

  // ---------------------------------------------------------------------------------
  // The two loops
  // ---------------------------------------------------------------------------------

  /** The field getbit reads, as a value: bits [pos, pos + count) of src at the low end. */
  function Extracted(src: byte, pos: nat, count: nat): (r: byte)
    requires pos + count <= 8
    ensures forall i :: 0 <= i < 8 ==> Bit(r, i) == (i < count && Bit(src, pos + i))
  {
    if count == 0 then
      assert forall i :: 0 <= i < 8 ==> !Bit(0, i) by {
        forall i | 0 <= i < 8 ensures !Bit(0, i) { ZeroBits(i); }
      }
      0
    else
      hide Bit, WithBit;
      WithBit(Extracted(src, pos, count - 1), count - 1, Bit(src, pos + count - 1))
  }

  /** getbit: the loop over the field's bits, lowest first. */
  method GetBit(src: byte, pos: int, count: int) returns (res: byte)
    requires pos + count <= 8 && (count > 0 ==> pos >= 0)
    ensures res == if count > 0 then Extracted(src, pos, count) else 0
  {
    hide Bit, Extracted;
    res := 0;
    var at, left, bitpos := pos, count, 0;
    forall j | 0 <= j < 8 ensures !Bit(res, j) { ZeroBits(j); }
    while left > 0
      invariant 0 <= bitpos && at == pos + bitpos && left == count - bitpos
      invariant count > 0 ==> left >= 0
      invariant count <= 0 ==> res == 0
      invariant count > 0 ==> forall i :: 0 <= i < 8 ==> Bit(res, i) == (i < bitpos && Bit(src, pos + i))
    {
      var bit := TestBit(src, at);
      res := OrShifted(res, bitpos, bit);
      left, at, bitpos := left - 1, at + 1, bitpos + 1;
    }
    if count > 0 {
      SameBits(res, Extracted(src, pos, count));
    }
  }

  method TestBit(src: byte, i: nat) returns (isSet: bool)
    requires i < 8
    ensures isSet == Bit(src, i)
  {
    isSet := src & MASK[7 - i] > 0;
  }

  lemma ShiftIsMask(i: nat)
    requires i < 8
    ensures (1 as byte) << i == MASK[7 - i]
  {
    if
    case i == 0 => case i == 1 => case i == 2 => case i == 3 =>
    case i == 4 => case i == 5 => case i == 6 => case i == 7 =>
  }

  /** res |= 1 << i, or res |= 0 << i. */
  method OrShifted(b: byte, i: nat, isSet: bool) returns (c: byte)
    requires i < 8
    ensures forall j :: 0 <= j < 8 ==> Bit(c, j) == (Bit(b, j) || (isSet && j == i))
  {
    ShiftIsMask(i);
    if isSet {
      c := b | ((1 as byte) << i);
      forall j | 0 <= j < 8 ensures Bit(c, j) == (Bit(b, j) || j == i) { OrBit(b, i, j); }
    } else {
      c := b | ((0 as byte) << i);
      ShiftedZero(b, i);
    }
  }

  lemma ShiftedZero(b: byte, i: nat)
    requires i < 8
    ensures b | ((0 as byte) << i) == b
  {
    if
    case i == 0 => case i == 1 => case i == 2 => case i == 3 =>
    case i == 4 => case i == 5 => case i == 6 => case i == 7 =>
  }

  /** setbit: the low `count` bits of value written over bits [pos, pos + count) of src. */
  method SetBit(src: byte, pos: int, count: int, value: byte) returns (res: byte)
    requires pos + count <= 8 && (count > 0 ==> pos >= 0)
    ensures count > 0 ==> res == Written(src, pos, count, value)
    ensures count <= 0 ==> res == src
  {
    hide Bit, WithBit;
    res := src;
    var at := pos;
    for i := 0 to if count > 0 then count else 0
      invariant at == pos + i
      invariant count > 0 ==> res == Written(src, pos, i, value)
      invariant count <= 0 ==> res == src
    {
      res := Store(res, at, value, i);
      at := at + 1;
    }
  }

  /** One turn of the loop: bit `at` of b becomes bit i of value. */
  method Store(b: byte, at: nat, value: byte, i: nat) returns (c: byte)
    requires at < 8 && i < 8
    ensures c == WithBit(b, at, Bit(value, i))
  {
    if value & MASK[7 - i] > 0 {
      c := b | MASK[7 - at];
    } else {
      c := b & !MASK[7 - at];
    }
  }

  /** The byte setbit leaves, as a value. */
  function Written(src: byte, pos: nat, count: nat, value: byte): (r: byte)
    requires pos + count <= 8
    ensures forall j :: 0 <= j < 8 ==>
      Bit(r, j) == if pos <= j < pos + count then Bit(value, j - pos) else Bit(src, j)
  {
    hide Bit, WithBit;
    if count == 0 then src
    else WithBit(Written(src, pos, count - 1, value), pos + count - 1, Bit(value, count - 1))
  }

  // ---------------------------------------------------------------------------------
  // Sequences of updates
  // ---------------------------------------------------------------------------------

  datatype Update = Update(pos: nat, count: nat, value: byte) {
    predicate InRange() {
      pos + count <= 8
    }

    predicate Covers(j: nat) {
      pos <= j < pos + count
    }
  }

  function WriteAll(b: byte, us: seq<Update>): byte
    requires forall u :: u in us ==> u.InRange()
  {
    if us == [] then b
    else
      var before := WriteAll(b, us[..|us| - 1]);
      var u := us[|us| - 1];
      assert u.InRange();
      Written(before, u.pos, u.count, u.value)
  }

  /** The call that has the last word on bit j: its index, or -1. */
  function LastWriter(us: seq<Update>, j: nat): (k: int)
    ensures -1 <= k < |us|
    ensures k >= 0 ==> us[k].Covers(j)
    ensures forall i :: 0 <= i < |us| && us[i].Covers(j) ==> i <= k
  {
    if us == [] then -1
    else if us[|us| - 1].Covers(j) then |us| - 1
    else LastWriter(us[..|us| - 1], j)
  }

  /** After any updates a bit holds what the latest call covering it wrote, or its first value. */
  lemma {:induction false} LastWriterWins(b: byte, us: seq<Update>, j: nat)
    requires j < 8 && forall u :: u in us ==> u.InRange()
    ensures var k := LastWriter(us, j);
            Bit(WriteAll(b, us), j) == if k < 0 then Bit(b, j) else Bit(us[k].value, j - us[k].pos)
  {
    hide Bit, Written;
    if us != [] {
      LastWriterWins(b, us[..|us| - 1], j);
    }
  }

  /** So getbit of any field, after any updates, is made of the latest value written to each bit. */
  lemma FieldAfterUpdates(b: byte, us: seq<Update>, pos: nat, count: nat, i: nat)
    requires pos + count <= 8 && i < 8 && forall u :: u in us ==> u.InRange()
    ensures var k := LastWriter(us, pos + i);
            var field := Extracted(WriteAll(b, us), pos, count);
            Bit(field, i) == (i < count && if k < 0 then Bit(b, pos + i) else Bit(us[k].value, pos + i - us[k].pos))
  {
    hide Bit, WriteAll, Extracted;
    if i < count {
      LastWriterWins(b, us, pos + i);
    }
  }

  /** A field reads back what was written to it, and any other disjoint field what it held. */
  lemma ReadBack(b: byte, u: Update, pos: nat, count: nat)
    requires u.InRange() && pos + count <= 8
    ensures (pos, count) == (u.pos, u.count) ==>
      Extracted(Written(b, u.pos, u.count, u.value), pos, count) == Extracted(u.value, 0, count)
    ensures (pos + count <= u.pos || u.pos + u.count <= pos) ==>
      Extracted(Written(b, u.pos, u.count, u.value), pos, count) == Extracted(b, pos, count)
  {
    hide Bit, Written, Extracted;
    var r := Extracted(Written(b, u.pos, u.count, u.value), pos, count);
    if (pos, count) == (u.pos, u.count) {
      SameBits(r, Extracted(u.value, 0, count));
    }
    if pos + count <= u.pos || u.pos + u.count <= pos {
      SameBits(r, Extracted(b, pos, count));
    }
  }

  /** Updates of disjoint fields commute. */
  lemma DisjointCommute(b: byte, u: Update, v: Update)
    requires u.InRange() && v.InRange()
    requires forall j :: 0 <= j < 8 ==> !(u.Covers(j) && v.Covers(j))
    ensures Written(Written(b, u.pos, u.count, u.value), v.pos, v.count, v.value)
         == Written(Written(b, v.pos, v.count, v.value), u.pos, u.count, u.value)
  {
    hide Bit, Written;
    var uv := Written(Written(b, u.pos, u.count, u.value), v.pos, v.count, v.value);
    var vu := Written(Written(b, v.pos, v.count, v.value), u.pos, u.count, u.value);
    forall j | 0 <= j < 8 ensures Bit(uv, j) == Bit(vu, j) {
      assert !(u.Covers(j) && v.Covers(j));
    }
    SameBits(uv, vu);
  }
}
