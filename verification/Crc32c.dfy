/** CRC-32C (Castagnoli polynomial, section 12.1 of RFC 3720, bit-reflected): the table-driven code
    against the bitwise definition, and the error patterns it always detects. */
module Crc32c {
  import Bytes

  const POLYNOMIAL: bv32 := 0x82f63b78
  const ALL_ONES: bv32 := 0xffff_ffff

  // ---------------------------------------------------------------------
  // Bitwise definition
  // ---------------------------------------------------------------------

  function Xor(x: bv32, y: bv32): bv32 { x ^ y }

  function Half(x: bv32): bv32 { x >> 1 }

  predicate Odd(x: bv32) { x & 1 != 0 }

  function Wide(b: bv8): bv32 { b as bv32 }

  function BitStep(crc: bv32): bv32 {
    if Odd(crc) then Xor(Half(crc), POLYNOMIAL) else Half(crc)
  }

  function Bits(crc: bv32, k: nat): bv32
    decreases k
  {
    if k == 0 then crc else Bits(BitStep(crc), k - 1)
  }

  /** One message byte, bit by bit. */
  function ByteStep(crc: bv32, b: bv8): bv32 {
    Bits(Xor(crc, Wide(b)), 8)
  }

  function Fold(crc: bv32, bytes: seq<bv8>): bv32 {
    if bytes == [] then crc else ByteStep(Fold(crc, bytes[..|bytes| - 1]), bytes[|bytes| - 1])
  }

  function CrcOf(bytes: seq<bv8>): bv32 {
    Xor(Fold(ALL_ONES, bytes), ALL_ONES)
  }

  // ---------------------------------------------------------------------
  // Algebra of the bit step
  // ---------------------------------------------------------------------

  lemma XorHalf(x: bv32, y: bv32)
    ensures Half(Xor(x, y)) == Xor(Half(x), Half(y))
  {
  }

  lemma XorOdd(x: bv32, y: bv32)
    ensures Odd(Xor(x, y)) <==> (Odd(x) != Odd(y))
  {
  }

  lemma XorAssociates(a: bv32, b: bv32, p: bv32)
    ensures Xor(a, Xor(b, p)) == Xor(Xor(a, b), p)
  {
  }

  lemma XorCommutes(a: bv32, b: bv32)
    ensures Xor(a, b) == Xor(b, a)
  {
  }

  lemma XorTwice(a: bv32, p: bv32)
    ensures Xor(Xor(a, p), p) == a
  {
  }

  lemma XorSwap(a: bv32, b: bv32, p: bv32)
    ensures Xor(Xor(a, p), b) == Xor(Xor(a, b), p)
  {
    hide Xor;
    XorAssociates(a, p, b);
    XorAssociates(a, b, p);
    XorCommutes(p, b);
  }

  lemma XorBoth(a: bv32, b: bv32, p: bv32)
    ensures Xor(Xor(a, p), Xor(b, p)) == Xor(a, b)
  {
    hide Xor;
    XorAssociates(Xor(a, p), b, p);
    XorSwap(a, b, p);
    XorTwice(Xor(a, b), p);
  }

  lemma XorCancel(a: bv32, b: bv32, p: bv32)
    requires Xor(a, p) == Xor(b, p) || Xor(p, a) == Xor(p, b)
    ensures a == b
  {
  }

  /** The bit step distributes over exclusive or. */
  lemma BitStepLinear(x: bv32, y: bv32)
    ensures BitStep(Xor(x, y)) == Xor(BitStep(x), BitStep(y))
  {
    hide Xor, Half, Odd;
    XorHalf(x, y);
    XorOdd(x, y);
    XorBoth(Half(x), Half(y), POLYNOMIAL);
    XorSwap(Half(x), Half(y), POLYNOMIAL);
    XorAssociates(Half(x), Half(y), POLYNOMIAL);
  }

  /** No two registers step to the same one: the polynomial has its top bit set. */
  lemma BitStepInjective(x: bv32, y: bv32)
    requires BitStep(x) == BitStep(y)
    ensures x == y
  {
  }

  lemma {:induction false} BitsLinear(x: bv32, y: bv32, k: nat)
    ensures Bits(Xor(x, y), k) == Xor(Bits(x, k), Bits(y, k))
    decreases k
  {
    hide Xor, BitStep;
    if k != 0 {
      BitStepLinear(x, y);
      BitsLinear(BitStep(x), BitStep(y), k - 1);
    }
  }

  lemma {:induction false} BitsInjective(x: bv32, y: bv32, k: nat)
    requires Bits(x, k) == Bits(y, k)
    ensures x == y
    decreases k
  {
    hide BitStep;
    if k != 0 {
      BitsInjective(BitStep(x), BitStep(y), k - 1);
      BitStepInjective(x, y);
    }
  }

  lemma {:induction false} BitsCompose(x: bv32, j: nat, k: nat)
    ensures Bits(Bits(x, j), k) == Bits(x, j + k)
    decreases j
  {
    hide BitStep;
    if j != 0 { BitsCompose(BitStep(x), j - 1, k); }
  }

  lemma EvenSteps(x: bv32)
    requires x & 0xff == 0
    ensures BitStep(x) == x >> 1 && BitStep(x >> 1) == x >> 2
    ensures BitStep(x >> 2) == x >> 3 && BitStep(x >> 3) == x >> 4
    ensures BitStep(x >> 4) == x >> 5 && BitStep(x >> 5) == x >> 6
    ensures BitStep(x >> 6) == x >> 7 && BitStep(x >> 7) == x >> 8
  {
  }

  /** With eight zero bits at the bottom, eight steps only shift. */
  lemma EightStepsShift(x: bv32)
    requires x & 0xff == 0
    ensures Bits(x, 8) == x >> 8
  {
    EvenSteps(x);
    hide BitStep;
    assert Bits(x >> 7, 1) == x >> 8;
    assert Bits(x >> 6, 2) == x >> 8;
    assert Bits(x >> 5, 3) == x >> 8;
    assert Bits(x >> 4, 4) == x >> 8;
    assert Bits(x >> 3, 5) == x >> 8;
    assert Bits(x >> 2, 6) == x >> 8;
    assert Bits(x >> 1, 7) == x >> 8;
  }

  // ---------------------------------------------------------------------
  // The table
  // ---------------------------------------------------------------------

  function LowByte(x: bv32): bv8 { (x & 0xff) as bv8 }

  function HighBytes(x: bv32): bv32 { x & 0xffff_ff00 }

  function Shift8(x: bv32): bv32 { x >> 8 }

  lemma HighThenLow(x: bv32)
    ensures x == Xor(HighBytes(x), Wide(LowByte(x))) && HighBytes(x) & 0xff == 0
  {
  }

  lemma HighUnchanged(crc: bv32, b: bv8)
    ensures Shift8(HighBytes(Xor(crc, Wide(b)))) == Shift8(crc)
  {
  }

  lemma EightSteps(x: bv32)
    requires x & 0xff == 0
    ensures Bits(x, 8) == Shift8(x)
  {
    hide Bits;
    EightStepsShift(x);
  }

  /** Why one table lookup replaces eight bit steps. */
  lemma TableStep(crc: bv32, b: bv8)
    ensures Xor(Shift8(crc), Bits(Wide(LowByte(Xor(crc, Wide(b)))), 8)) == ByteStep(crc, b)
  {
    hide Xor, Wide, Bits, LowByte, HighBytes, Shift8;
    var x := Xor(crc, Wide(b));
    HighThenLow(x);
    HighUnchanged(crc, b);
    BitsLinear(HighBytes(x), Wide(LowByte(x)), 8);
    EightSteps(HighBytes(x));
  }

  function FromIndex(i: nat): bv32
    requires i < 256
  {
    Wide(Bytes.ToByte(i))
  }

  /** Entry `v` of the table is the register after eight steps from `v`. */
  ghost predicate Entry(table: seq<bv32>, v: nat)
    requires v < |table| && v < 256
  {
    table[v] == Bits(FromIndex(v), 8)
  }

  ghost predicate IsTable(table: seq<bv32>) {
    |table| == 256 && forall v: nat :: v < 256 ==> Entry(table, v)
  }

  method MakeTable() returns (table: array<bv32>)
    ensures fresh(table) && IsTable(table[..])
  {
    hide Bits, BitStep;
    table := new bv32[256](_ => 0);
    for i := 0 to 256
      invariant table.Length == 256 && forall v: nat :: v < i ==> table[v] == Bits(FromIndex(v), 8)
    {
      var crc := MakeEntry(i);
      table[i] := crc;
    }
  }

  method MakeEntry(i: nat) returns (crc: bv32)
    requires i < 256
    ensures crc == Bits(FromIndex(i), 8)
  {
    hide Odd, Half, Xor;
    var start := FromIndex(i);
    crc := start;
    for bit := 0 to 8
      invariant Bits(crc, 8 - bit) == Bits(start, 8)
    {
      crc := if Odd(crc) then Xor(Half(crc), POLYNOMIAL) else Half(crc);
    }
  }

  // ---------------------------------------------------------------------
  // The code
  // ---------------------------------------------------------------------

  /** Streaming register over a fixed table. */
  class Register {
    const table: array<bv32>
    var state: bv32

    ghost predicate Valid()
      reads this, table
    {
      IsTable(table[..])
    }

    constructor ()
      ensures Valid() && fresh(table) && state == ALL_ONES
    {
      var entries := MakeTable();
      table := entries;
      state := ALL_ONES;
    }

    method Update(bytes: seq<bv8>)
      requires Valid()
      modifies `state
      ensures Valid() && state == Fold(old(state), bytes)
    {
      hide Xor, Wide, LowByte, Shift8, Bits;
      var crc := state;
      for i := 0 to |bytes|
        invariant crc == Fold(old(state), bytes[..i])
      {
        var index := LowByte(Xor(crc, Wide(bytes[i])));
        Lookup(table[..], index);
        TableStep(crc, bytes[i]);
        FoldNext(old(state), bytes, i);
        crc := Xor(Shift8(crc), table[Bytes.FromByte(index)]);
      }
      assert bytes[..|bytes|] == bytes;
      state := crc;
    }

    method Value() returns (crc: bv32)
      ensures crc == Xor(state, ALL_ONES)
    {
      crc := Xor(state, ALL_ONES);
    }
  }

  lemma Widen(b: bv8)
    ensures FromIndex(Bytes.FromByte(b)) == Wide(b)
  {
    hide Wide;
    Bytes.ToFrom(b);
  }

  lemma TableEntry(table: seq<bv32>, v: nat)
    requires IsTable(table) && v < 256
    ensures |table| == 256 && table[v] == Bits(FromIndex(v), 8)
  {
    hide Bits;
    assert Entry(table, v);
  }

  lemma Lookup(table: seq<bv32>, index: bv8)
    requires IsTable(table)
    ensures |table| == 256 && table[Bytes.FromByte(index)] == Bits(Wide(index), 8)
  {
    hide Bits, IsTable;
    TableEntry(table, Bytes.FromByte(index));
    Widen(index);
  }

  lemma FoldNext(crc: bv32, bytes: seq<bv8>, i: nat)
    requires i < |bytes|
    ensures Fold(crc, bytes[..i + 1]) == ByteStep(Fold(crc, bytes[..i]), bytes[i])
  {
    hide ByteStep;
    assert bytes[..i + 1][..i] == bytes[..i];
  }

  /** One-shot checksum: the table-driven code computes the bitwise definition. */
  method Compute(bytes: seq<bv8>) returns (crc: bv32)
    ensures crc == CrcOf(bytes)
  {
    hide Xor, Fold;
    var register := new Register();
    register.Update(bytes);
    crc := register.Value();
  }

  // ---------------------------------------------------------------------
  // Detection
  // ---------------------------------------------------------------------

  /** Feeding a message in pieces is feeding it whole. */
  lemma {:induction false} FoldAppend(crc: bv32, a: seq<bv8>, b: seq<bv8>)
    ensures Fold(crc, a + b) == Fold(Fold(crc, a), b)
  {
    hide ByteStep;
    if b == [] {
      assert a + b == a;
    } else {
      var n := |b| - 1;
      FoldAppend(crc, a, b[..n]);
      assert (a + b)[..|a + b| - 1] == a + b[..n] && (a + b)[|a + b| - 1] == b[n];
    }
  }

  lemma ByteStepInjective(x: bv32, y: bv32, b: bv8)
    requires ByteStep(x, b) == ByteStep(y, b)
    ensures x == y
  {
    hide Xor, Wide, Bits;
    BitsInjective(Xor(x, Wide(b)), Xor(y, Wide(b)), 8);
    XorCancel(x, y, Wide(b));
  }

  /** Registers that differ keep differing over the same bytes. */
  lemma {:induction false} FoldInjective(x: bv32, y: bv32, bytes: seq<bv8>)
    requires Fold(x, bytes) == Fold(y, bytes)
    ensures x == y
  {
    hide ByteStep;
    if bytes != [] {
      var n := |bytes| - 1;
      ByteStepInjective(Fold(x, bytes[..n]), Fold(y, bytes[..n]), bytes[n]);
      FoldInjective(x, y, bytes[..n]);
    }
  }

  /** Byte `j` of a word moved to its place. */
  function Placed(b: bv8, j: nat): bv32
    requires j < 4
  {
    if j == 0 then Wide(b) else if j == 1 then Wide(b) << 8
    else if j == 2 then Wide(b) << 16 else Wide(b) << 24
  }

  /** Up to four bytes as one little-endian word. */
  function Word(w: seq<bv8>): bv32
    requires |w| <= 4
  {
    if w == [] then 0 else Xor(Word(w[..|w| - 1]), Placed(w[|w| - 1], |w| - 1))
  }

  lemma PlacedShifts(b: bv8, j: nat)
    requires 0 < j < 4
    ensures Placed(b, j) & 0xff == 0 && Shift8(Placed(b, j)) == Placed(b, j - 1)
  {
    if j == 1 {
    } else if j == 2 {
    } else {
    }
  }

  /** A byte moved up `j` places comes back down after `8 * j` steps. */
  lemma {:induction false} PlacedReturns(b: bv8, j: nat)
    requires j < 4
    ensures Bits(Placed(b, j), 8 * j) == Wide(b)
  {
    if j > 0 {
      PlacedShifts(b, j);
      EightSteps(Placed(b, j));
      PlacedReturns(b, j - 1);
      hide Bits, Placed, Shift8;
      BitsCompose(Placed(b, j), 8, 8 * (j - 1));
    }
  }

  lemma WordNext(w: seq<bv8>)
    requires 0 < |w| <= 4
    ensures Word(w) == Xor(Word(w[..|w| - 1]), Placed(w[|w| - 1], |w| - 1))
  {
  }

  lemma FoldLast(crc: bv32, w: seq<bv8>)
    requires |w| > 0
    ensures Fold(crc, w) == Bits(Xor(Fold(crc, w[..|w| - 1]), Wide(w[|w| - 1])), 8)
  {
    hide Xor, Wide, Bits;
  }

  lemma Empty(crc: bv32)
    ensures Word([]) == 0 && Fold(crc, []) == crc && Bits(Xor(crc, 0), 0) == crc
  {
  }

  /** Folding at most four bytes is running their word through the bit steps at once. */
  lemma {:induction false} FoldWord(crc: bv32, w: seq<bv8>)
    requires |w| <= 4
    ensures Fold(crc, w) == Bits(Xor(crc, Word(w)), 8 * |w|)
  {
    hide Xor, Wide, Bits, Placed, Word, Fold;
    if w == [] {
      Empty(crc);
    } else {
      var n := |w| - 1;
      FoldWord(crc, w[..n]);
      PlacedReturns(w[n], n);
      var y, shifted := Xor(crc, Word(w[..n])), Placed(w[n], n);
      BitsLinear(y, shifted, 8 * n);
      BitsCompose(Xor(y, shifted), 8 * n, 8);
      XorAssociates(crc, Word(w[..n]), shifted);
      WordNext(w);
      FoldLast(crc, w);
    }
  }

  function ByteAt(x: bv32, j: nat): bv8
    requires j < 4
  {
    if j == 0 then (x & 0xff) as bv8 else if j == 1 then ((x >> 8) & 0xff) as bv8
    else if j == 2 then ((x >> 16) & 0xff) as bv8 else ((x >> 24) & 0xff) as bv8
  }

  lemma XorAt(x: bv32, y: bv32, i: nat)
    requires i < 4
    ensures ByteAt(Xor(x, y), i) == ByteAt(x, i) ^ ByteAt(y, i)
  {
    if i == 0 {
    } else if i == 1 {
    } else if i == 2 {
    } else {
    }
  }

  lemma FirstAt(b: bv8)
    ensures ByteAt(Placed(b, 0), 0) == b && ByteAt(Placed(b, 0), 1) == 0
    ensures ByteAt(Placed(b, 0), 2) == 0 && ByteAt(Placed(b, 0), 3) == 0
  {
  }

  lemma SecondAt(b: bv8)
    ensures ByteAt(Placed(b, 1), 0) == 0 && ByteAt(Placed(b, 1), 1) == b
    ensures ByteAt(Placed(b, 1), 2) == 0 && ByteAt(Placed(b, 1), 3) == 0
  {
  }

  lemma ThirdAt(b: bv8)
    ensures ByteAt(Placed(b, 2), 0) == 0 && ByteAt(Placed(b, 2), 1) == 0
    ensures ByteAt(Placed(b, 2), 2) == b && ByteAt(Placed(b, 2), 3) == 0
  {
  }

  lemma FourthAt(b: bv8)
    ensures ByteAt(Placed(b, 3), 0) == 0 && ByteAt(Placed(b, 3), 1) == 0
    ensures ByteAt(Placed(b, 3), 2) == 0 && ByteAt(Placed(b, 3), 3) == b
  {
  }

  lemma XorZero(b: bv8)
    ensures b ^ 0 == b && 0 ^ b == b
  {
  }

  /** Placing a byte writes its own position and leaves the others alone. */
  lemma PlacedAt(x: bv32, b: bv8, j: nat, i: nat)
    requires i < 4 && j < 4
    ensures ByteAt(Xor(x, Placed(b, j)), i) == if i == j then ByteAt(x, i) ^ b else ByteAt(x, i)
  {
    hide Xor, Placed, ByteAt;
    FirstAt(b);
    SecondAt(b);
    ThirdAt(b);
    FourthAt(b);
    XorAt(x, Placed(b, j), i);
    assert ByteAt(Placed(b, j), i) == if i == j then b else 0;
    XorZero(ByteAt(x, i));
  }

  lemma {:induction false} WordAt(w: seq<bv8>, i: nat)
    requires |w| <= 4 && i < 4
    ensures ByteAt(Word(w), i) == if i < |w| then w[i] else 0
  {
    if |w| > 0 {
      hide Xor, Placed, ByteAt;
      var n := |w| - 1;
      WordAt(w[..n], i);
      PlacedAt(Word(w[..n]), w[n], n, i);
    }
  }

  lemma WordInjective(v: seq<bv8>, w: seq<bv8>)
    requires |v| == |w| <= 4 && Word(v) == Word(w)
    ensures v == w
  {
    hide Word, ByteAt;
    forall i | 0 <= i < |v| ensures v[i] == w[i] {
      WordAt(v, i);
      WordAt(w, i);
    }
  }

  lemma WindowsDiffer(crc: bv32, v: seq<bv8>, w: seq<bv8>)
    requires |v| == |w| <= 4 && Fold(crc, v) == Fold(crc, w)
    ensures v == w
  {
    hide Xor, Bits, Word, Fold;
    FoldWord(crc, v);
    FoldWord(crc, w);
    BitsInjective(Xor(crc, Word(v)), Xor(crc, Word(w)), 8 * |v|);
    XorCancel(Word(v), Word(w), crc);
    WordInjective(v, w);
  }

  /** Every byte outside the window of four that starts at `k` is the same. */
  ghost predicate DifferWithin(a: seq<bv8>, b: seq<bv8>, k: nat) {
    |a| == |b| && forall i :: 0 <= i < |a| && (i < k || k + 4 <= i) ==> a[i] == b[i]
  }

  /** Two messages of equal length that differ only inside four consecutive bytes never collide. */
  lemma BurstDetected(a: seq<bv8>, b: seq<bv8>, k: nat)
    requires DifferWithin(a, b, k) && k <= |a|
    ensures CrcOf(a) == CrcOf(b) ==> a == b
  {
    hide Xor, Fold;
    var m := if k + 4 <= |a| then k + 4 else |a|;
    var before, after, v, w := a[..k], a[m..], a[k..m], b[k..m];
    assert a == before + v + after && b == before + w + after;
    FoldAppend(ALL_ONES, before + v, after);
    FoldAppend(ALL_ONES, before + w, after);
    FoldAppend(ALL_ONES, before, v);
    FoldAppend(ALL_ONES, before, w);
    if CrcOf(a) == CrcOf(b) {
      XorCancel(Fold(ALL_ONES, a), Fold(ALL_ONES, b), ALL_ONES);
      FoldInjective(Fold(ALL_ONES, before + v), Fold(ALL_ONES, before + w), after);
      WindowsDiffer(Fold(ALL_ONES, before), v, w);
    }
  }

  // ---------------------------------------------------------------------
  // Stored form
  // ---------------------------------------------------------------------

  /** A checksum as four bytes. */
  function PutCrc(crc: bv32): (bytes: seq<bv8>)
    ensures |bytes| == 4
  {
    [ByteAt(crc, 0), ByteAt(crc, 1), ByteAt(crc, 2), ByteAt(crc, 3)]
  }

  lemma PutWord(w: seq<bv8>)
    requires |w| == 4
    ensures PutCrc(Word(w)) == w
  {
    hide Word, ByteAt;
    WordAt(w, 0);
    WordAt(w, 1);
    WordAt(w, 2);
    WordAt(w, 3);
  }

  lemma ByteAtInjective(x: bv32, y: bv32)
    requires ByteAt(x, 0) == ByteAt(y, 0) && ByteAt(x, 1) == ByteAt(y, 1)
    requires ByteAt(x, 2) == ByteAt(y, 2) && ByteAt(x, 3) == ByteAt(y, 3)
    ensures x == y
  {
  }

  lemma WordPut(crc: bv32)
    ensures Word(PutCrc(crc)) == crc
  {
    hide Word, ByteAt;
    var w := PutCrc(crc);
    PutWord(w);
    ByteAtInjective(Word(w), crc);
  }

  lemma XorSelf(s: bv32, p: bv32)
    ensures Xor(s, Xor(s, p)) == p
  {
  }

  /** A message followed by its own checksum leaves the same register whatever the message is. */
  lemma Residue(bytes: seq<bv8>)
    ensures Fold(ALL_ONES, bytes + PutCrc(CrcOf(bytes))) == Bits(ALL_ONES, 32)
  {
    hide Xor, Bits, Word, Fold, PutCrc;
    var s, w := Fold(ALL_ONES, bytes), PutCrc(CrcOf(bytes));
    FoldAppend(ALL_ONES, bytes, w);
    FoldWord(s, w);
    WordPut(CrcOf(bytes));
    XorSelf(s, ALL_ONES);
  }

  /** Two messages, each followed by its own checksum, that differ inside four consecutive bytes are the same. */
  lemma SealedDiffer(a: seq<bv8>, b: seq<bv8>, k: nat)
    requires DifferWithin(a + PutCrc(CrcOf(a)), b + PutCrc(CrcOf(b)), k) && k <= |a| + 4
    ensures a == b
  {
    hide Xor, Bits, Word, Fold, PutCrc, DifferWithin, CrcOf;
    var x, y := a + PutCrc(CrcOf(a)), b + PutCrc(CrcOf(b));
    Residue(a);
    Residue(b);
    SameFold(x, y);
    BurstDetected(x, y, k);
    assert |x| == |y| by { DifferLengths(x, y, k); }
    assert a == x[..|a|] && b == y[..|b|];
  }

  lemma SameFold(a: seq<bv8>, b: seq<bv8>)
    requires Fold(ALL_ONES, a) == Fold(ALL_ONES, b)
    ensures CrcOf(a) == CrcOf(b)
  {
  }

  lemma DifferLengths(a: seq<bv8>, b: seq<bv8>, k: nat)
    requires DifferWithin(a, b, k)
    ensures |a| == |b|
  {
  }
}
