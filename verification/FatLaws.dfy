/** The layout of a FAT volume's tables, said of their bytes (fatfs/ff.c). */
module FatLaws {
  import opened Basics
  import opened FatGeometry
  import opened FatEntries
  import opened FatData
  import opened FatSync

  // ---------- the FAT as one number

  /** Bytes as a number, the least significant first. */
  function Number(b: seq<Byte>): nat {
    if b == [] then 0
    else
      var b0: int := b[0];
      b0 + 256 * Number(b[1..])
  }

  function Pow16(k: nat): (p: nat)
    ensures p > 0
  {
    if k == 0 then 1 else 16 * Pow16(k - 1)
  }

  lemma {:induction false} Pow16Even(k: nat)
    ensures Pow16(2 * k) == Pow256(k)
  {
    if k > 0 {
      Pow16Even(k - 1);
      assert Pow16(2 * k) == 16 * Pow16(2 * k - 1);
      assert Pow16(2 * k - 1) == 16 * Pow16(2 * k - 2);
    }
  }

  lemma DivIs(n: nat, d: nat, q: nat, r: nat)
    requires d > 0 && r < d && n == d * q + r
    ensures n / d == q
  {
    var x := n / d - q;
    assert n % d == r - d * x;
    MulAway(d, x);
  }

  lemma DivTwice(n: nat, a: nat, b: nat)
    requires a > 0 && b > 0
    ensures a * b > 0 && n / (a * b) == n / a / b
  {
    var q, r := n / a, n % a;
    var q2, r2 := q / b, q % b;
    assert n == a * q + r && q == b * q2 + r2;
    assert a * q == a * (b * q2) + a * r2;
    assert a * (b * q2) == (a * b) * q2;
    Products(a, b, r, r2);
    DivIs(n, a * b, q2, a * r2 + r);
  }

  lemma Products(a: nat, b: nat, r: nat, r2: nat)
    requires r < a && r2 < b
    ensures 0 <= a * r2 + r < a * b
  {
    assert a * r2 <= a * (b - 1) by { MulLe(a, r2, b - 1); }
    assert a * (b - 1) == a * b - a;
  }

  lemma MulLe(a: nat, x: nat, y: nat)
    requires x <= y
    ensures 0 <= a * x <= a * y
  {
  }

  lemma {:induction false} NumberDrop(b: seq<Byte>, o: nat)
    requires o <= |b|
    ensures Number(b) / Pow256(o) == Number(b[o..])
    decreases o
  {
    if o == 0 {
      assert b[0..] == b;
    } else {
      NumberDrop(b[1..], o - 1);
      assert b[1..][o - 1..] == b[o..];
      var b0: int := b[0];
      DivIs(Number(b), 256, Number(b[1..]), b0);
      DivTwice(Number(b), 256, Pow256(o - 1));
    }
  }

  lemma FirstTwo(y: seq<Byte>)
    requires |y| >= 2
    ensures Number(y) == Ld16(y[0], y[1]) + 0x1_0000 * Number(y[2..])
  {
    assert y[1..][1..] == y[2..];
    var b0: int, b1: int := y[0], y[1];
    assert Number(y[1..]) == b1 + 256 * Number(y[2..]);
  }

  lemma FirstFour(y: seq<Byte>)
    requires |y| >= 4
    ensures Number(y) == Ld32(y[0], y[1], y[2], y[3]) + 0x1_0000_0000 * Number(y[4..])
  {
    FirstTwo(y);
    FirstTwo(y[2..]);
    assert y[2..][2..] == y[4..];
  }

  function Digits(t: FsType): nat {
    match t
    case FAT12 => 3
    case FAT16 => 4
    case FAT32 => 8
  }

  lemma Powers()
    ensures Pow16(3) == 0x1000 && Pow16(4) == 0x1_0000 && Pow16(7) == 0x1000_0000
  {
    assert Pow16(2) == 0x100;
    assert Pow16(5) == 0x10_0000;
    assert Pow16(6) == 0x100_0000;
  }

  lemma Field12(a: Byte, b: Byte, rest: nat)
    ensures (Ld16(a, b) + 0x1_0000 * rest) % 0x1000 == Ld16(a, b) % 0x1000
    ensures (Ld16(a, b) + 0x1_0000 * rest) / 16 % 0x1000 == Ld16(a, b) / 16
  {
    hide Ld16;
    var n := Ld16(a, b);
    Below16(a, b);
    Mod12Of(n, rest);
    Div16Of(n, rest);
    Mod12(n / 16, rest);
  }

  lemma Below16(a: Byte, b: Byte)
    ensures 0 <= Ld16(a, b) < 0x1_0000
  {
  }

  lemma Mod12Of(n: nat, rest: nat)
    ensures (n + 0x1_0000 * rest) % 0x1000 == n % 0x1000
  {
    var q, r := n / 0x1000, n % 0x1000;
    assert n + 0x1_0000 * rest == 0x1000 * (q + 16 * rest) + r;
  }

  lemma Div16Of(n: nat, rest: nat)
    ensures (n + 0x1_0000 * rest) / 16 == n / 16 + 0x1000 * rest
  {
    var q, r := n / 16, n % 16;
    assert n + 0x1_0000 * rest == 16 * (q + 0x1000 * rest) + r;
  }

  lemma Mod16Of(n: nat, rest: nat)
    requires n < 0x1_0000
    ensures (n + 0x1_0000 * rest) % 0x1_0000 == n
  {
  }

  lemma Field12Is(img: seq<Byte>, c: nat)
    requires c + c / 2 + 2 <= |img|
    ensures Entry(FAT12, img, c) == Number(img) / Pow16(3 * c) % 0x1000
  {
    hide Ld16, Number, Pow16, Pow256;
    var o := c + c / 2;
    var y := img[o..];
    NumberDrop(img, o);
    FirstTwo(y);
    Field12(y[0], y[1], Number(y[2..]));
    Pow16Even(o);
    if c % 2 == 0 {
      assert 2 * o == 3 * c;
    } else {
      assert 2 * o + 1 == 3 * c;
      PowNext(2 * o);
      DivTwice(Number(img), Pow256(o), 16);
    }
  }

  lemma PowNext(k: nat)
    ensures Pow16(k + 1) == Pow16(k) * 16
  {
  }

  lemma Field16Is(img: seq<Byte>, c: nat)
    requires 2 * c + 2 <= |img|
    ensures Entry(FAT16, img, c) == Number(img) / Pow16(4 * c) % 0x1_0000
  {
    hide Ld16, Number, Pow16, Pow256;
    var y := img[2 * c..];
    NumberDrop(img, 2 * c);
    FirstTwo(y);
    Pow16Even(2 * c);
    Below16(y[0], y[1]);
    Mod16Of(Ld16(y[0], y[1]), Number(y[2..]));
  }

  lemma Field32Is(img: seq<Byte>, c: nat)
    requires 4 * c + 4 <= |img|
    ensures Entry(FAT32, img, c) == Number(img) / Pow16(8 * c) % 0x1000_0000
  {
    hide Ld32, Number, Pow16, Pow256;
    var y := img[4 * c..];
    NumberDrop(img, 4 * c);
    FirstFour(y);
    Pow16Even(4 * c);
    assert Entry(FAT32, img, c) == Ld32(y[0], y[1], y[2], y[3]) % 0x1000_0000;
    Mod28Of(Ld32(y[0], y[1], y[2], y[3]), Number(y[4..]));
  }

  lemma Mod28Of(n: nat, rest: nat)
    ensures (n + 0x1_0000_0000 * rest) % 0x1000_0000 == n % 0x1000_0000
  {
    var q, r := n / 0x1000_0000, n % 0x1000_0000;
    assert n + 0x1_0000_0000 * rest == 0x1000_0000 * (q + 16 * rest) + r;
  }

  /** The FAT is one little-endian number, and entry c is its c-th digit to the base 2^12, 2^16 or 2^32;
      of the last the low 28 bits. */
  lemma EntryIsDigit(t: FsType, img: seq<Byte>, c: nat)
    requires Offset(t, c) + Width(t) <= |img|
    ensures Entry(t, img, c) == Number(img) / Pow16(Digits(t) * c) % Pow16(if t == FAT32 then 7 else Digits(t))
  {
    hide Entry, Number, Pow16;
    Powers();
    match t
    case FAT12 => Field12Is(img, c);
    case FAT16 => Field16Is(img, c);
    case FAT32 => Field32Is(img, c);
  }

  // ---------- what f_sync writes

  /** The directory entry: the archive bit, no access date, the fixed date 2026-05-06 at 0:00, the first
      cluster and the size, the low bytes first; and everything else as it was. */
  lemma UpdatedBytes(t: FsType, e: seq<Byte>, sclust: U32, size: U32)
    requires |e| == 32
    ensures var r := Updated(t, e, sclust, size);
      && r[..11] == e[..11] && r[12..18] == e[12..18]
      && r[11] == (if e[11] / 0x20 % 2 == 1 then e[11] else e[11] + 0x20)
      && r[18..20] == [0, 0] && r[22..26] == [0, 0, 0xA6, 0x5C]
      && r[20..22] == (if t == FAT32 then [sclust / 0x1_0000 % 0x100, sclust / 0x100_0000] else e[20..22])
      && r[26..28] == [sclust % 0x100, sclust / 0x100 % 0x100]
      && r[28..32] == [size % 0x100, size / 0x100 % 0x100, size / 0x1_0000 % 0x100, size / 0x100_0000]
  {
    hide Updated, St16, St32, FATTIME;
    UpdatedHead(t, e, sclust, size);
    UpdatedMiddle(t, e, sclust, size);
    UpdatedTail(t, e, sclust, size);
    St16Bytes(0);
    St16Bytes(sclust);
    St16Bytes(sclust / 0x1_0000);
    St32Bytes(size);
    DateBytes();
    HighHalf(sclust);
  }

  lemma St16Bytes(v: U32)
    ensures St16(v) == [v % 0x100, v / 0x100 % 0x100]
  {
  }

  lemma DateBytes()
    ensures St32(FATTIME) == [0, 0, 0xA6, 0x5C]
  {
    hide St32;
    assert FATTIME == 0x5CA6_0000;
    FourBytes(0, 0, 0xA6, 0x5C);
  }

  lemma HighHalf(v: U32)
    ensures v / 0x1_0000 / 0x100 % 0x100 == v / 0x100_0000
  {
    var q := v / 0x100_0000;
    assert v / 0x1_0000 == 0x100 * q + v / 0x1_0000 % 0x100;
  }

  /** The FSInfo sector as mounting checks and reads it: three signatures, the free count and the hint,
      and zeros. */
  lemma FsInfoBytes(free: U32, last: U32)
    ensures var w := FsInfo(free, last);
      && w[..4] == [0x52, 0x52, 0x61, 0x41] && w[484..488] == [0x72, 0x72, 0x41, 0x61]
      && w[488..492] == [free % 0x100, free / 0x100 % 0x100, free / 0x1_0000 % 0x100, free / 0x100_0000]
      && w[492..496] == [last % 0x100, last / 0x100 % 0x100, last / 0x1_0000 % 0x100, last / 0x100_0000]
      && w[508..512] == [0, 0, 0x55, 0xAA]
      && forall i :: 4 <= i < 484 || 496 <= i < 508 ==> w[i] == 0
  {
    Signatures();
    hide St32, Put;
    var w0: seq<Byte> := seq(512, i => 0);
    var w1 := Placed(w0, 0, St32(0x4161_5252));
    var w2 := Placed(w1, 484, St32(0x6141_7272));
    var w3 := Placed(w2, 488, St32(free));
    var w4 := Placed(w3, 492, St32(last));
    var w5 := Placed(w4, 508, St32(0xAA55_0000));
    StillThere(w1, w2, 0, 484);
    StillThere(w2, w3, 0, 488);
    StillThere(w2, w3, 484, 488);
    StillThere(w3, w4, 0, 492);
    StillThere(w3, w4, 484, 492);
    StillThere(w3, w4, 488, 492);
    StillThere(w4, w5, 0, 508);
    StillThere(w4, w5, 484, 508);
    StillThere(w4, w5, 488, 508);
    StillThere(w4, w5, 492, 508);
    St32Bytes(free);
    St32Bytes(last);
  }

  lemma Signatures()
    ensures St32(0x4161_5252) == [0x52, 0x52, 0x61, 0x41] && St32(0x6141_7272) == [0x72, 0x72, 0x41, 0x61]
    ensures St32(0xAA55_0000) == [0, 0, 0x55, 0xAA]
  {
    FourBytes(0x52, 0x52, 0x61, 0x41);
    FourBytes(0x72, 0x72, 0x41, 0x61);
    FourBytes(0, 0, 0x55, 0xAA);
  }

  lemma FourBytes(a: Byte, b: Byte, c: Byte, d: Byte)
    ensures St32(a + 0x100 * b + 0x1_0000 * c + 0x100_0000 * d) == [a, b, c, d]
  {
    var v := a + 0x100 * b + 0x1_0000 * c + 0x100_0000 * d;
    LowDigit(a, b + 0x100 * c + 0x1_0000 * d);
    LowDigit(b, c + 0x100 * d);
    LowDigit(c, d);
    Divs(v);
  }

  lemma LowDigit(a: Byte, x: nat)
    ensures (a + 0x100 * x) % 0x100 == a && (a + 0x100 * x) / 0x100 == x
  {
  }

  lemma St32Bytes(v: U32)
    ensures St32(v) == [v % 0x100, v / 0x100 % 0x100, v / 0x1_0000 % 0x100, v / 0x100_0000]
  {
  }

  lemma Placed(w: seq<Byte>, k: nat, b: seq<Byte>) returns (r: seq<Byte>)
    requires |w| == 512 && |b| == 4 && k + 4 <= 512
    ensures r == Put(w, k, b) && |r| == 512 && r[k..k + 4] == b
    ensures forall i :: 0 <= i < 512 && (i < k || k + 4 <= i) ==> r[i] == w[i]
  {
    r := Put(w, k, b);
  }

  lemma StillThere(w: seq<Byte>, r: seq<Byte>, a: nat, k: nat)
    requires |w| == |r| == 512 && a + 4 <= k && k + 4 <= 512
    requires forall i :: 0 <= i < 512 && (i < k || k + 4 <= i) ==> r[i] == w[i]
    ensures r[a..a + 4] == w[a..a + 4]
  {
  }
}
