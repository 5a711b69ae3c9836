/** The values a mounted FAT volume is described by: bytes, sectors, the disk
    image, and the fields of FATFS that mounting fixes and nothing changes
    afterwards. */
module FatGeometry {

  type Byte = x: int | 0 <= x < 0x100
  type U32 = x: int | 0 <= x < 0x1_0000_0000

  /** One 512-byte sector (FF_MIN_SS == FF_MAX_SS == 512). */
  type Sector = s: seq<Byte> | |s| == 512 witness seq(512, i => 0)
  type Disk = seq<Sector>

  /** 32-bit unsigned subtraction, which wraps. */
  function Sub32(a: U32, b: U32): U32 {
    (a - b) % 0x1_0000_0000
  }

  datatype FsType = FAT12 | FAT16 | FAT32

  datatype Geometry = Geometry(
    fsType: FsType,
    volbase: U32,    // first sector of the volume
    fatbase: U32,    // first sector of the first FAT copy
    fsize: U32,      // sectors in one FAT copy
    nFats: U32,      // one or two copies
    nFatent: U32,    // number of clusters + 2
    csize: U32,      // sectors in a cluster
    database: U32)   // first sector of cluster 2
  {
    /** What mount_volume has checked of the boot record by the time it sets fs_type: the number of
        clusters decides the type. */
    predicate Valid() {
      && volbase < fatbase
      && (nFats == 1 || nFats == 2)
      && fatbase + nFats * fsize <= database
      && MinClusters() + 2 <= nFatent <= MaxClusters() + 2
      && csize in {1, 2, 4, 8, 16, 32, 64, 128}
      && NeededBytes() <= fsize * 512
      && database + csize * (nFatent - 2) < 0x1_0000_0000
    }

    /** MAX_FAT12, MAX_FAT16 and MAX_FAT32. */
    function MaxClusters(): nat {
      match fsType
      case FAT12 => 0xFF5
      case FAT16 => 0xFFF5
      case FAT32 => 0x0FFF_FFF5
    }

    /** One more than the next smaller type can have. */
    function MinClusters(): nat {
      match fsType
      case FAT12 => 1
      case FAT16 => 0xFF6
      case FAT32 => 0xFFF6
    }

    /** Bytes the entries of one FAT copy occupy. */
    function NeededBytes(): nat {
      match fsType
      case FAT12 => nFatent * 3 / 2 + nFatent % 2
      case FAT16 => nFatent * 2
      case FAT32 => nFatent * 4
    }

    /** The disk reaches to the end of the volume, and sector 0xFFFFFFFF does not exist. */
    predicate Fits(d: Disk) {
      database + csize * (nFatent - 2) <= |d| < 0x1_0000_0000
    }

    predicate InFat1(s: int) {
      fatbase <= s < fatbase + fsize
    }

    /** Either copy of the FAT. */
    predicate InFat(s: int) {
      fatbase <= s < fatbase + nFats * fsize
    }
  }

  /** The wrapping comparison sync_window makes. */
  lemma FatTest(g: Geometry, s: U32)
    requires g.Valid()
    ensures Sub32(s, g.fatbase) < g.fsize <==> g.InFat1(s)
  {
  }

  /** The disk after sector s is written with w, a sector of the first FAT copy
      being written to the second copy as well. */
  function Overlay(g: Geometry, d: Disk, s: nat, w: Sector): (r: Disk)
    requires g.Valid() && g.Fits(d) && s < |d|
    ensures |r| == |d| && r[s] == w
    ensures forall t :: 0 <= t < |d| && t != s && !(g.InFat1(s) && g.nFats == 2 && t == s + g.fsize) ==> r[t] == d[t]
  {
    if g.InFat1(s) && g.nFats == 2 then d[s := w][s + g.fsize := w] else d[s := w]
  }

  /** Sector s of the first FAT copy and its counterpart hold the same bytes. */
  ghost predicate Twins(g: Geometry, d: Disk, s: nat)
    requires g.Valid() && g.Fits(d) && g.nFats == 2 && g.InFat1(s)
  {
    d[s] == d[s + g.fsize]
  }

  /** The two FAT copies hold the same sectors. */
  ghost predicate Mirrored(g: Geometry, d: Disk)
    requires g.Valid() && g.Fits(d)
  {
    g.nFats == 2 ==> forall s :: g.InFat1(s) ==> Twins(g, d, s)
  }

  lemma MirrorSame(g: Geometry, d: Disk, d': Disk)
    requires g.Valid() && g.Fits(d) && g.Fits(d') && |d'| == |d|
    requires forall t :: 0 <= t < |d| && g.InFat(t) ==> d'[t] == d[t]
    ensures Mirrored(g, d) ==> Mirrored(g, d')
  {
    if Mirrored(g, d) && g.nFats == 2 {
      forall t | g.InFat1(t) ensures Twins(g, d', t) { assert Twins(g, d, t); }
    }
  }
}
