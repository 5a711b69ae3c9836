/** Copies between buffers and the Ethernet slots, word by word (lwip_port/ethernetif.c,
    sram_copy_to64, sram_copy_to, sram_copy_from, pbuf_to_sram). */
module WordCopy {
  import opened Basics
  import opened Bits

  // ---------- merging words

  function Shl(v: bv64): bv64 {
    v << 8
  }

  /** v >> 8k. */
  function Drop(v: bv64, k: nat): bv64 {
    if k == 0 then v else Drop(Shr(v), k - 1)
  }

  /** v << 8k. */
  function Lift(v: bv64, k: nat): bv64 {
    if k == 0 then v else Shl(Lift(v, k - 1))
  }

  lemma DropIsShift(v: bv64)
    ensures Drop(v, 1) == v >> 8 && Drop(v, 2) == v >> 16 && Drop(v, 3) == v >> 24 && Drop(v, 4) == v >> 32
    ensures Drop(v, 5) == v >> 40 && Drop(v, 6) == v >> 48 && Drop(v, 7) == v >> 56
  {
    hide Shr;
    Shifted(v);
    DropTwo(v);
    DropTwo(Shr(Shr(v)));
    DropTwo(Shr(Shr(Shr(Shr(v)))));
    DropTwo(Shr(Shr(Shr(Shr(Shr(Shr(v)))))));
  }

  lemma DropTwo(v: bv64)
    ensures Drop(v, 1) == Shr(v) && forall k :: k >= 2 ==> Drop(v, k) == Drop(Shr(Shr(v)), k - 2)
    ensures Drop(v, 0) == v
  {
    hide Shr;
  }

  lemma Raised(v: bv64)
    ensures Shl(v) == v << 8 && Shl(Shl(v)) == v << 16 && Shl(Shl(Shl(v))) == v << 24
    ensures Shl(Shl(Shl(Shl(v)))) == v << 32 && Shl(Shl(Shl(Shl(Shl(v))))) == v << 40
    ensures Shl(Shl(Shl(Shl(Shl(Shl(v)))))) == v << 48 && Shl(Shl(Shl(Shl(Shl(Shl(Shl(v))))))) == v << 56
  {
  }

  lemma LiftIsShift(v: bv64)
    ensures Lift(v, 1) == v << 8 && Lift(v, 2) == v << 16 && Lift(v, 3) == v << 24 && Lift(v, 4) == v << 32
    ensures Lift(v, 5) == v << 40 && Lift(v, 6) == v << 48 && Lift(v, 7) == v << 56
  {
    hide Lift, Shl;
    Raised(v);
    LiftNext(v, 0);
    LiftNext(v, 1);
    LiftNext(v, 2);
    LiftNext(v, 3);
    LiftNext(v, 4);
    LiftNext(v, 5);
    LiftNext(v, 6);
  }

  lemma LiftNext(v: bv64, k: nat)
    ensures Lift(v, 0) == v && Lift(v, k + 1) == Shl(Lift(v, k))
  {
  }

  function Or64(a: bv64, b: bv64): bv64 {
    a | b
  }

  lemma OrShift(a: bv64, b: bv64)
    ensures Low8(Or64(a, b)) == Low8(a) | Low8(b)
    ensures Shr(Or64(a, b)) == Or64(Shr(a), Shr(b))
  {
  }

  lemma {:induction false} OrByte(a: bv64, b: bv64, i: nat)
    ensures ByteAt(Or64(a, b), i) == ByteAt(a, i) | ByteAt(b, i)
    decreases i
  {
    hide Low8, Shr, Or64;
    OrShift(a, b);
    if i > 0 {
      OrByte(Shr(a), Shr(b), i - 1);
    }
  }

  lemma {:induction false} DropByte(v: bv64, k: nat, i: nat)
    ensures ByteAt(Drop(v, k), i) == ByteAt(v, i + k)
    decreases k
  {
    hide Low8, Shr;
    if k > 0 {
      DropByte(Shr(v), k - 1, i);
    }
  }

  /** There is nothing above byte 7. */
  lemma HighByte(v: bv64, i: nat)
    requires i >= 8
    ensures ByteAt(v, i) == 0
  {
    hide Low8, Shr;
    var w := Drop(v, 8);
    DropByte(v, 8, i - 8);
    AllDropped(v);
    ZeroByte(i - 8);
  }

  lemma AllDropped(v: bv64)
    ensures Drop(v, 8) == 0
  {
    hide Drop;
    DropIsShift(Shr(v));
    DropStep(v);
  }

  lemma DropStep(v: bv64)
    ensures Drop(v, 8) == Drop(Shr(v), 7)
  {
  }

  lemma {:induction false} ZeroByte(i: nat)
    ensures ByteAt(0, i) == 0
    decreases i
  {
    if i > 0 {
      assert Shr(0) == 0;
      ZeroByte(i - 1);
    }
  }

  /** The low seven bytes. */
  function Trim(v: bv64): bv64 {
    v & 0x00FF_FFFF_FFFF_FFFF
  }

  lemma TrimByte(v: bv64, i: nat)
    requires i < 7
    ensures ByteAt(Trim(v), i) == ByteAt(v, i)
  {
    hide ByteAt;
    EightBytes(v);
    EightBytes(Trim(v));
  }

  lemma ShlShr(v: bv64)
    ensures Low8(Shl(v)) == 0 && Shr(Shl(v)) == Trim(v)
  {
  }

  lemma {:induction false} LiftByte(v: bv64, k: nat, i: nat)
    requires i < 8
    ensures ByteAt(Lift(v, k), i) == if i < k then 0 else ByteAt(v, i - k)
    decreases k
  {
    hide Low8, Shr, Shl, Trim;
    if k > 0 {
      var u := Lift(v, k - 1);
      ShlShr(u);
      if i > 0 {
        TrimByte(u, i - 1);
        LiftByte(v, k - 1, i - 1);
      }
    }
  }

  /** The word at byte k of two words in a row. */
  function Merge(lo: bv64, hi: bv64, k: nat): bv64
    requires 1 <= k <= 7
  {
    Or64(Drop(lo, k), Lift(hi, 8 - k))
  }

  /** Merging is the expression of the source at shift 8k, for each k. */
  lemma MergeIsShift(lo: bv64, hi: bv64)
    ensures Merge(lo, hi, 1) == Or64(lo >> 8, hi << 56) && Merge(lo, hi, 2) == Or64(lo >> 16, hi << 48)
    ensures Merge(lo, hi, 3) == Or64(lo >> 24, hi << 40) && Merge(lo, hi, 4) == Or64(lo >> 32, hi << 32)
    ensures Merge(lo, hi, 5) == Or64(lo >> 40, hi << 24) && Merge(lo, hi, 6) == Or64(lo >> 48, hi << 16)
    ensures Merge(lo, hi, 7) == Or64(lo >> 56, hi << 8)
  {
    hide Drop, Lift, Or64;
    DropIsShift(lo);
    LiftIsShift(hi);
  }

  lemma MergeBytes(a: Bytes, b: Bytes, k: nat)
    requires |a| == |b| == 8 && 1 <= k <= 7
    ensures St64(Merge(Ld64(a), Ld64(b), k)) == (a + b)[k..k + 8]
  {
    hide ByteAt, Ld64, Merge;
    StLd(a);
    StLd(b);
    var lo, hi := Ld64(a), Ld64(b);
    var m := St64(Merge(lo, hi, k));
    assert St64(lo) == a && St64(hi) == b;
    forall i | 0 <= i < 8 ensures m[i] == (a + b)[k + i] {
      MergeByte(lo, hi, k, i);
    }
  }

  lemma MergeByte(lo: bv64, hi: bv64, k: nat, i: nat)
    requires 1 <= k <= 7 && i < 8
    ensures ByteAt(Merge(lo, hi, k), i) == if i + k < 8 then ByteAt(lo, i + k) else ByteAt(hi, i + k - 8)
  {
    hide ByteAt, Or64, Drop, Lift;
    OrByte(Drop(lo, k), Lift(hi, 8 - k), i);
    DropByte(lo, k, i);
    LiftByte(hi, 8 - k, i);
    OrZero(ByteAt(lo, i + k));
    if i + k >= 8 {
      HighByte(lo, i + k);
      OrZero(ByteAt(hi, i + k - 8));
    }
  }

  lemma OrZero(x: bv8)
    ensures x | 0 == x && 0 | x == x
  {
  }

  // ---------- memory

  /** The addresses of a word. */
  ghost function WordAt(a: nat): set<nat> {
    {a, a + 1, a + 2, a + 3, a + 4, a + 5, a + 6, a + 7}
  }

  /** RAM that keeps account of the addresses read; address 0 is word-aligned. */
  class Ram {
    const bytes: array<bv8>
    ghost var touched: set<nat>

    constructor (bytes: array<bv8>)
      ensures this.bytes == bytes && touched == {}
    {
      this.bytes, touched := bytes, {};
    }

    /** Starts a new account. */
    ghost method Forget()
      modifies this`touched
      ensures touched == {}
    {
      touched := {};
    }

    method LoadByte(a: nat) returns (b: bv8)
      requires a < bytes.Length
      modifies this`touched
      ensures b == bytes[a] && touched == old(touched) + {a}
    {
      b := bytes[a];
      touched := touched + {a};
    }

    /** An aligned 64-bit load. */
    method LoadWord(a: nat) returns (w: bv64)
      requires a % 8 == 0 && a + 8 <= bytes.Length
      modifies this`touched
      ensures w == Ld64(bytes[a..a + 8]) && touched == old(touched) + WordAt(a)
    {
      w := Ld64(bytes[a..a + 8]);
      touched := touched + WordAt(a);
    }
  }

  lemma PutPut(o: Bytes, d: nat, x: Bytes, y: Bytes)
    requires d + |x| + |y| <= |o|
    ensures Put(Put(o, d, x), d + |x|, y) == Put(o, d, x + y)
    ensures Put(o, d, []) == o
  {
    assert o[..d] + o[d..] == o;
  }

  /** Address a is in an aligned word that holds a byte of s..s + n. */
  predicate Near(a: nat, s: nat, n: nat) {
    n > 0 && s / 8 <= a / 8 <= (s + n - 1) / 8
  }

  ghost predicate AllNear(touched: set<nat>, s: nat, n: nat) {
    forall a :: a in touched ==> Near(a, s, n)
  }

  /** Byte by byte. */
  method CopyBytes(slot: array<bv8>, d: nat, ram: Ram, s: nat, n: nat, ghost s0: nat, ghost n0: nat)
    requires slot != ram.bytes && d + n <= slot.Length && s + n <= ram.bytes.Length
    requires s0 <= s && s + n <= s0 + n0 && AllNear(ram.touched, s0, n0)
    modifies slot, ram`touched
    ensures slot[..] == Put(old(slot[..]), d, ram.bytes[s..s + n])
    ensures AllNear(ram.touched, s0, n0)
  {
    hide Put, Near;
    ghost var o := slot[..];
    PutPut(o, d, [], []);
    assert ram.bytes[s..s] == [];
    for i := 0 to n
      invariant slot[..] == Put(o, d, ram.bytes[s..s + i]) && AllNear(ram.touched, s0, n0)
    {
      var b := ram.LoadByte(s + i);
      OwnNear(s + i, s0, n0);
      PutPut(o, d, ram.bytes[s..s + i], [b]);
      assert ram.bytes[s..s + i] + [b] == ram.bytes[s..s + i + 1];
      StoreByte(slot, d + i, b);
    }
  }

  lemma OwnNear(a: nat, s: nat, n: nat)
    requires s <= a < s + n
    ensures Near(a, s, n)
  {
  }

  method StoreByte(slot: array<bv8>, d: nat, b: bv8)
    requires d < slot.Length
    modifies slot
    ensures slot[..] == Put(old(slot[..]), d, [b])
  {
    slot[d] := b;
  }

  /** An aligned 64-bit store. */
  method StoreWord(slot: array<bv8>, d: nat, w: bv64)
    requires d % 8 == 0 && d + 8 <= slot.Length
    modifies slot
    ensures slot[..] == Put(old(slot[..]), d, St64(w))
  {
    hide St64;
    var b := St64(w);
    forall i | 0 <= i < 8 { slot[d + i] := b[i]; }
  }

  /** An aligned word that holds one byte of the source is near it. */
  lemma WordNear(a: nat, x: nat, s: nat, n: nat)
    requires a % 8 == 0 && a <= x < a + 8 && s <= x < s + n
    ensures forall y :: a <= y < a + 8 ==> Near(y, s, n)
  {
    forall y | a <= y < a + 8 ensures Near(y, s, n) {
      assert y / 8 == a / 8 == x / 8;
    }
  }

  /** The words of an aligned source. */
  method CopyWords(slot: array<bv8>, d: nat, ram: Ram, s: nat, w: nat, ghost s0: nat, ghost n0: nat)
    requires slot != ram.bytes && (w > 0 ==>
      d % 8 == 0) && s % 8 == 0 && d + 8 * w <= slot.Length && s + 8 * w <= ram.bytes.Length
    requires s0 <= s && s + 8 * w <= s0 + n0 && AllNear(ram.touched, s0, n0)
    modifies slot, ram`touched
    ensures slot[..] == Put(old(slot[..]), d, ram.bytes[s..s + 8 * w])
    ensures AllNear(ram.touched, s0, n0)
  {
    hide Put, Near, Ld64, St64;
    ghost var o := slot[..];
    PutPut(o, d, [], []);
    assert ram.bytes[s..s] == [];
    for i := 0 to w
      invariant slot[..] == Put(o, d, ram.bytes[s..s + 8 * i]) && AllNear(ram.touched, s0, n0)
    {
      WordNear(s + 8 * i, s + 8 * i, s0, n0);
      var v := ram.LoadWord(s + 8 * i);
      StLd(ram.bytes[s + 8 * i..s + 8 * i + 8]);
      PutPut(o, d, ram.bytes[s..s + 8 * i], St64(v));
      assert ram.bytes[s..s + 8 * i] + St64(v) == ram.bytes[s..s + 8 * (i + 1)];
      StoreWord(slot, d + 8 * i, v);
    }
  }

  /** The words of a source that is k bytes past an aligned word, merged from two words each. */
  method CopyMerged(slot: array<bv8>, d: nat, ram: Ram, s: nat, w: nat, k: nat, ghost s0: nat, ghost n0: nat)
    requires slot != ram.bytes && (w > 0 ==> d % 8 == 0) && s % 8 == k && 1 <= k <= 7
    requires d + 8 * w <= slot.Length && s + 8 * w <= ram.bytes.Length && ram.bytes.Length % 8 == 0
    requires s0 <= s && s + 8 * w <= s0 + n0 && AllNear(ram.touched, s0, n0)
    requires s <= ram.bytes.Length
    modifies slot, ram`touched
    ensures slot[..] == Put(old(slot[..]), d, ram.bytes[s..s + 8 * w])
    ensures if n0 > 0 then AllNear(ram.touched, s0, n0) else s - k in ram.touched
  {
    hide Put, Near, Ld64;
    FirstFits(s, k, ram.bytes.Length);
    var lo := ram.LoadWord(s - k);
    if n0 > 0 { WordNear(s - k, if s < s0 + n0 then s else s - 1, s0, n0); }
    MergeLoop(slot, d, ram, s, w, k, lo, s0, n0);
  }

  lemma FirstFits(s: nat, k: nat, len: nat)
    requires s % 8 == k && 1 <= k <= 7 && s <= len && len % 8 == 0
    ensures s - k >= 0 && (s - k) % 8 == 0 && s - k + 8 <= len
  {
  }

  /** The next word of a copy from src at s to o at d. */
  method StoreNext(slot: array<bv8>, d: nat, v: bv64, n: nat, ghost o: Bytes, ghost src: array<bv8>, ghost s: nat)
    requires slot != src && d % 8 == 0 && n % 8 == 0 && s + n + 8 <= src.Length && d + n + 8 <= slot.Length == |o|
    requires slot[..] == Put(o, d, src[s..s + n]) && St64(v) == src[s + n..s + n + 8]
    modifies slot
    ensures slot[..] == Put(o, d, src[s..s + (n + 8)])
  {
    hide Put, St64;
    PutPut(o, d, src[s..s + n], src[s + n..s + n + 8]);
    SliceMore(src, s, n, 8);
    StoreWord(slot, d + n, v);
  }

  lemma SliceMore(src: array<bv8>, s: nat, n: nat, m: nat)
    requires s + n + m <= src.Length
    ensures src[s..s + n] + src[s + n..s + n + m] == src[s..s + (n + m)]
  {
  }

  method MergeLoop(slot: array<bv8>, d: nat, ram: Ram, s: nat, w: nat, k: nat, first: bv64, ghost s0: nat,
                   ghost n0: nat)
    requires slot != ram.bytes && (w > 0 ==> d % 8 == 0) && s % 8 == k && 1 <= k <= 7 && k <= s
    requires d + 8 * w <= slot.Length && s + 8 * w <= ram.bytes.Length && ram.bytes.Length % 8 == 0
    requires s0 <= s && s + 8 * w <= s0 + n0 && (n0 > 0 ==> AllNear(ram.touched, s0, n0))
    requires s - k + 8 <= ram.bytes.Length && first == Ld64(ram.bytes[s - k..s - k + 8])
    modifies slot, ram`touched
    ensures slot[..] == Put(old(slot[..]), d, ram.bytes[s..s + 8 * w])
    ensures if n0 > 0 then AllNear(ram.touched, s0, n0) else ram.touched == old(ram.touched)
  {
    hide Put, AllNear, Ld64, St64;
    ghost var o := slot[..];
    PutPut(o, d, [], []);
    assert ram.bytes[s..s] == [];
    var lo, sw := first, s - k + 8;
    for i := 0 to w
      invariant sw == s - k + 8 * (i + 1) <= ram.bytes.Length && lo == Ld64(ram.bytes[sw - 8..sw])
      invariant slot[..] == Put(o, d, ram.bytes[s..s + 8 * i])
      invariant if n0 > 0 then AllNear(ram.touched, s0, n0) else ram.touched == old(ram.touched)
    {
      lo := MergeStep(slot, d, ram, lo, sw, k, s, i, w, o, s0, n0);
      sw := sw + 8;
    }
  }

  /** One round of the loop. */
  method MergeStep(slot: array<bv8>, d: nat, ram: Ram, lo: bv64, sw: nat, k: nat, ghost s: nat, i: nat, ghost w: nat,
                   ghost o: Bytes, ghost s0: nat, ghost n0: nat)
    returns (hi: bv64)
    requires slot != ram.bytes && d % 8 == 0 && s % 8 == k && 1 <= k <= 7 && i < w && sw == s - k + 8 * (i + 1)
    requires d + 8 * w <= slot.Length == |o| && s + 8 * w <= ram.bytes.Length && ram.bytes.Length % 8 == 0
    requires s0 <= s && s + 8 * w <= s0 + n0 && AllNear(ram.touched, s0, n0)
    requires lo == Ld64(ram.bytes[sw - 8..sw]) && slot[..] == Put(o, d, ram.bytes[s..s + 8 * i])
    modifies slot, ram`touched
    ensures sw + 8 <= ram.bytes.Length && hi == Ld64(ram.bytes[sw..sw + 8])
    ensures slot[..] == Put(o, d, ram.bytes[s..s + 8 * (i + 1)]) && AllNear(ram.touched, s0, n0)
  {
    hide Put, AllNear, Ld64, St64;
    var v;
    hi, v := NextWord(ram, lo, sw, k, s, i, w, s0, n0);
    StoreNext(slot, d, v, 8 * i, o, ram.bytes, s);
  }

  lemma TwoWords(b: Bytes, at: nat, k: nat)
    requires at + 16 <= |b| && k <= 8
    ensures (b[at..at + 8] + b[at + 8..at + 16])[k..k + 8] == b[at + k..at + k + 8]
  {
    var two := b[at..at + 8] + b[at + 8..at + 16];
    var x, y := two[k..k + 8], b[at + k..at + k + 8];
    forall i | 0 <= i < 8 ensures x[i] == y[i] {
      assert two[k + i] == b[at + k + i];
    }
  }

  lemma NextFits(s: nat, k: nat, i: nat, w: nat, len: nat)
    requires s % 8 == k && 1 <= k && i < w && s + 8 * w <= len && len % 8 == 0
    ensures var sw := s - k + 8 * (i + 1); sw % 8 == 0 && 8 <= sw && sw + 8 <= len
  {
  }

  /** Loads the next word and merges it with the one before. */
  method NextWord(ram: Ram, lo: bv64, sw: nat, k: nat, ghost s: nat, ghost i: nat, ghost w: nat, ghost s0: nat,
                  ghost n0: nat)
    returns (hi: bv64, v: bv64)
    requires s % 8 == k && 1 <= k <= 7 && i < w && sw == s - k + 8 * (i + 1)
    requires s + 8 * w <= ram.bytes.Length && ram.bytes.Length % 8 == 0 && lo == Ld64(ram.bytes[sw - 8..sw])
    requires s0 <= s && s + 8 * w <= s0 + n0 && AllNear(ram.touched, s0, n0)
    modifies ram`touched
    ensures sw + 8 <= ram.bytes.Length && hi == Ld64(ram.bytes[sw..sw + 8])
    ensures St64(v) == ram.bytes[s + 8 * i..s + 8 * i + 8]
    ensures AllNear(ram.touched, s0, n0)
  {
    hide Near, Ld64, St64, Merge;
    NextFits(s, k, i, w, ram.bytes.Length);
    WordNear(sw, s + 8 * i + 7, s0, n0);
    hi := ram.LoadWord(sw);
    v := Merge(lo, hi, k);
    MergeBytes(ram.bytes[sw - 8..sw], ram.bytes[sw..sw + 8], k);
    ghost var b := ram.bytes[..];
    TwoWords(b, sw - 8, k);
    assert ram.bytes[sw - 8..sw] == b[sw - 8..sw] && ram.bytes[sw..sw + 8] == b[sw..sw + 8];
    assert sw - 8 + k == s + 8 * i;
    assert ram.bytes[s + 8 * i..s + 8 * i + 8] == b[s + 8 * i..s + 8 * i + 8];
  }

  /** sram_copy_to64: exactly the bytes of the byte-by-byte loop, for every length and alignment. It
      reads only words that hold bytes of the source if and only if the source is not empty or
      starts at a word; otherwise it loads one word for nothing. */
  method CopyTo64(slot: array<bv8>, d: nat, ram: Ram, s: nat, n: nat)
    requires slot != ram.bytes && d + n <= slot.Length && s + n <= ram.bytes.Length && ram.bytes.Length % 8 == 0
    requires ram.touched == {}
    modifies slot, ram`touched
    ensures slot[..] == Put(old(slot[..]), d, ram.bytes[s..s + n])
    ensures AllNear(ram.touched, s, n) <==> n > 0 || s % 8 == 0
    ensures n == 0 && s % 8 != 0 ==> s - s % 8 in ram.touched
  {
    hide Put, Near;
    ghost var o := slot[..];
    var head := CopyHead(slot, d, ram, s, n);
    WordsFit(n - head);
    var w := (n - head) / 8;
    var k := (s + head) % 8;
    CopyMiddle(slot, d + head, ram, s + head, w, k, s, n);
    if n > 0 {
      CopyBytes(slot, d + head + 8 * w, ram, s + head + 8 * w, n - head - 8 * w, s, n);
    }
    ThreeParts(o, d, ram.bytes[s..s + n], head, 8 * w);
    SliceParts(ram.bytes[..], s, n, head, 8 * w);
    assert ram.bytes[..][s..s + n] == ram.bytes[s..s + n];
    NoneNear(s);
  }

  lemma WordsFit(n: nat)
    ensures 0 <= 8 * (n / 8) <= n
  {
  }

  lemma SliceParts(x: Bytes, s: nat, n: nat, i: nat, j: nat)
    requires s + n <= |x| && i + j <= n
    ensures x[s..s + n][..i] == x[s..s + i]
    ensures x[s..s + n][i..i + j] == x[s + i..s + i + j]
    ensures x[s..s + n][i + j..] == x[s + i + j..s + n]
  {
    var y := x[s..s + n];
    assert forall t :: 0 <= t < n ==> y[t] == x[s + t];
  }

  lemma ThreeParts(o: Bytes, d: nat, data: Bytes, i: nat, j: nat)
    requires d + |data| <= |o| && i + j <= |data|
    ensures Put(Put(Put(o, d, data[..i]), d + i, data[i..i + j]), d + i + j, data[i + j..]) == Put(o, d, data)
    ensures Put(o, d, []) == o
  {
    hide Put;
    PutPut(o, d, data[..i], data[i..i + j]);
    PutPut(o, d, data[..i] + data[i..i + j], data[i + j..]);
    assert data[..i] + data[i..i + j] + data[i + j..] == data;
    assert |data[..i] + data[i..i + j]| == i + j;
  }

  lemma NoneNear(s: nat)
    ensures forall a :: !Near(a, s, 0)
  {
  }

  /** The first loop: bytes up to an aligned destination. */
  method CopyHead(slot: array<bv8>, d: nat, ram: Ram, s: nat, n: nat) returns (head: nat)
    requires slot != ram.bytes && d + n <= slot.Length && s + n <= ram.bytes.Length && AllNear(ram.touched, s, n)
    modifies slot, ram`touched
    ensures head <= n && slot[..] == Put(old(slot[..]), d, ram.bytes[s..s + head]) && AllNear(ram.touched, s, n)
    ensures head == n || (d + head) % 8 == 0
    ensures n == 0 ==> ram.touched == old(ram.touched)
  {
    hide Put, Near;
    ghost var o := slot[..];
    PutPut(o, d, [], []);
    assert ram.bytes[s..s] == [];
    head := 0;
    while head < n && (d + head) % 8 != 0
      invariant head <= n && slot[..] == Put(o, d, ram.bytes[s..s + head]) && AllNear(ram.touched, s, n)
      invariant n == 0 ==> ram.touched == old(ram.touched)
    {
      var b := ram.LoadByte(s + head);
      OwnNear(s + head, s, n);
      PutPut(o, d, ram.bytes[s..s + head], [b]);
      assert ram.bytes[s..s + head] + [b] == ram.bytes[s..s + head + 1];
      StoreByte(slot, d + head, b);
      head := head + 1;
    }
  }

  /** An empty copy from address 1 loads the word at 0. */
  method EmptyCopyStrays(slot: array<bv8>, ram: Ram)
    requires slot != ram.bytes && ram.bytes.Length >= 8 && ram.bytes.Length % 8 == 0 && ram.touched == {}
    modifies slot, ram`touched
    ensures slot[..] == old(slot[..]) && 0 in ram.touched && !AllNear(ram.touched, 1, 0)
  {
    CopyTo64(slot, 0, ram, 1, 0);
    assert Put(old(slot[..]), 0, []) == old(slot[..]);
  }

  /** The part of the copy made of words. */
  method CopyMiddle(slot: array<bv8>, d: nat, ram: Ram, s: nat, w: nat, k: nat, ghost s0: nat, ghost n0: nat)
    requires slot != ram.bytes && (w > 0 ==> d % 8 == 0) && s % 8 == k
    requires d + 8 * w <= slot.Length && s + 8 * w <= ram.bytes.Length && ram.bytes.Length % 8 == 0
    requires s0 <= s && s + 8 * w <= s0 + n0 && AllNear(ram.touched, s0, n0)
    modifies slot, ram`touched
    ensures slot[..] == Put(old(slot[..]), d, ram.bytes[s..s + 8 * w])
    ensures if n0 > 0 || k == 0 then AllNear(ram.touched, s0, n0) else s - k in ram.touched
  {
    if k == 0 {
      CopyWords(slot, d, ram, s, w, s0, n0);
    } else {
      CopyMerged(slot, d, ram, s, w, k, s0, n0);
    }
  }

  // ---------- 32-bit copies and frames

  /** sram_copy_to and sram_copy_from: 32 bits at a time when both ends are aligned. */
  method Copy32(dst: array<bv8>, d: nat, src: array<bv8>, s: nat, n: nat)
    requires dst != src && d + n <= dst.Length && s + n <= src.Length
    modifies dst
    ensures dst[..] == Put(old(dst[..]), d, src[s..s + n])
  {
    hide Put;
    ghost var o := dst[..];
    PutPut(o, d, [], []);
    assert src[s..s] == [];
    var i := 0;
    if d % 4 == 0 && s % 4 == 0 {
      var w := n / 4;
      for q := 0 to w
        invariant i == 4 * q && dst[..] == Put(o, d, src[s..s + i])
      {
        PutPut(o, d, src[s..s + i], src[s + i..s + i + 4]);
        SliceMore(src, s, i, 4);
        StoreBytes(dst, d + i, src[s + i..s + i + 4]);
        i := i + 4;
      }
    }
    while i < n
      invariant i <= n && dst[..] == Put(o, d, src[s..s + i])
    {
      PutPut(o, d, src[s..s + i], [src[s + i]]);
      SliceMore(src, s, i, 1);
      assert src[s + i..s + i + 1] == [src[s + i]];
      StoreByte(dst, d + i, src[s + i]);
      i := i + 1;
    }
  }

  method StoreBytes(dst: array<bv8>, d: nat, data: Bytes)
    requires d + |data| <= dst.Length
    modifies dst
    ensures dst[..] == Put(old(dst[..]), d, data)
  {
    forall i | 0 <= i < |data| { dst[d + i] := data[i]; }
  }

  /** A piece of a frame in memory. */
  datatype Pbuf = Pbuf(payload: nat, len: nat)

  predicate InMemory(ps: seq<Pbuf>, size: nat) {
    forall i :: 0 <= i < |ps| ==> ps[i].payload + ps[i].len <= size
  }

  /** The frame: the bytes of its pieces, one after the other. */
  function Frame(ps: seq<Pbuf>, mem: Bytes): Bytes
    requires InMemory(ps, |mem|)
  {
    if ps == [] then []
    else
      var p := ps[|ps| - 1];
      Frame(ps[..|ps| - 1], mem) + mem[p.payload..p.payload + p.len]
  }

  lemma {:induction false} FrameGrows(ps: seq<Pbuf>, mem: Bytes, i: nat)
    requires InMemory(ps, |mem|) && i <= |ps|
    ensures InMemory(ps[..i], |mem|) && |Frame(ps[..i], mem)| <= |Frame(ps, mem)|
    decreases |ps|
  {
    if i < |ps| {
      FrameGrows(ps[..|ps| - 1], mem, i);
      assert ps[..|ps| - 1][..i] == ps[..i];
    } else {
      assert ps[..i] == ps;
    }
  }

  lemma FrameStep(ps: seq<Pbuf>, mem: Bytes, i: nat)
    requires InMemory(ps, |mem|) && i < |ps|
    ensures InMemory(ps[..i], |mem|) && InMemory(ps[..i + 1], |mem|) && ps[i].payload + ps[i].len <= |mem|
    ensures Frame(ps[..i + 1], mem) == Frame(ps[..i], mem) + mem[ps[i].payload..ps[i].payload + ps[i].len]
    ensures |Frame(ps[..i + 1], mem)| <= |Frame(ps, mem)|
  {
    FrameGrows(ps, mem, i + 1);
    assert ps[..i + 1][..i] == ps[..i] && ps[..i + 1][i] == ps[i];
  }

  /** pbuf_to_sram: the slot gets exactly the frame, whatever its pieces and their alignment. */
  method PbufToSram(slot: array<bv8>, dst: nat, ram: Ram, ps: seq<Pbuf>)
    requires slot != ram.bytes && ram.bytes.Length % 8 == 0 && InMemory(ps, ram.bytes.Length)
    requires dst + |Frame(ps, ram.bytes[..])| <= slot.Length
    modifies slot, ram`touched
    ensures slot[..] == Put(old(slot[..]), dst, Frame(ps, ram.bytes[..]))
  {
    hide Put, Frame, InMemory, AllNear;
    ghost var o, mem := slot[..], ram.bytes[..];
    PutPut(o, dst, [], []);
    NoFrame(mem);
    var offset := 0;
    assert ps[..0] == [] && ps[..|ps|] == ps;
    for i := 0 to |ps|
      invariant InMemory(ps[..i], |mem|) && offset == |Frame(ps[..i], mem)|
      invariant dst + offset <= slot.Length && slot[..] == Put(o, dst, Frame(ps[..i], mem))
    {
      var p := ps[i];
      FrameStep(ps, mem, i);
      assert ram.bytes[p.payload..p.payload + p.len] == mem[p.payload..p.payload + p.len];
      PutPut(o, dst, Frame(ps[..i], mem), mem[p.payload..p.payload + p.len]);
      ram.Forget();
      CopyTo64(slot, dst + offset, ram, p.payload, p.len);
      offset := offset + p.len;
    }
  }

  lemma NoFrame(mem: Bytes)
    ensures InMemory([], |mem|) && Frame([], mem) == []
  {
  }
}
