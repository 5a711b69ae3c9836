/** The one-sector write-back window of a mounted volume (fatfs/ff.c, sync_window
    and move_window). */
module FatWindow {
  import opened FatGeometry

  /** FATFS: the mounted volume, and the medium below it. */
  class FatFs {
    const g: Geometry
    var disk: Disk            // what disk_read and disk_write see
    const win: array<Byte>    // the window
    var wflag: bool           // the window is dirty
    var winsect: U32          // the sector in the window; 0xFFFFFFFF for none
    var freeClst: U32         // number of free clusters; unknown when above nFatent - 2
    var lastClst: U32         // last allocated cluster; a hint
    var fsiFlag: Byte         // bit 7: no FSInfo sector, bit 0: allocation changed

    /** A clean window holds what the disk holds. */
    ghost predicate Valid()
      reads this, win
    {
      && g.Valid() && g.Fits(disk) && win.Length == 512
      && (wflag ==> winsect < |disk|)
      && (!wflag && winsect < |disk| ==> win[..] == disk[winsect])
      && (g.fsType.FAT32? && fsiFlag < 0x80 ==> g.volbase + 1 < g.fatbase)
    }

    /** The disk as the file system means it: the physical sectors overlaid by the dirty window. */
    ghost function Logical(): (d: Disk)
      requires Valid()
      reads this, win
      ensures g.Fits(d) && |d| == |disk|
    {
      if wflag then Overlay(g, disk, winsect, win[..]) else disk
    }

    constructor (g: Geometry, disk: Disk)
      requires g.Valid() && g.Fits(disk)
      ensures Valid() && fresh(win) && this.g == g
      ensures Logical() == this.disk == disk && !wflag && winsect == 0xFFFF_FFFF
      ensures freeClst == lastClst == 0xFFFF_FFFF && fsiFlag == 0x80
    {
      this.g, this.disk := g, disk;
      win := new Byte[512](i => 0);
      wflag, winsect := false, 0xFFFF_FFFF;
      freeClst, lastClst, fsiFlag := 0xFFFF_FFFF, 0xFFFF_FFFF, 0x80;
    }

    method SyncWindow()
      requires Valid()
      modifies this`disk, this`wflag
      ensures Valid() && !wflag
      ensures disk == Logical() == old(Logical())
    {
      hide Sub32;
      FatTest(g, winsect);
      if wflag {
        var data := win[..];
        disk := disk[winsect := data];
        wflag := false;
        if Sub32(winsect, g.fatbase) < g.fsize {
          if g.nFats == 2 {
            disk := disk[winsect + g.fsize := data];
          }
        }
      }
    }

    method MoveWindow(sect: U32)
      requires Valid() && sect < |disk|
      modifies this`disk, this`wflag, this`winsect, win
      ensures Valid() && winsect == sect
      ensures Logical() == old(Logical())
      ensures win[..] == Logical()[sect]
      ensures old(winsect) != sect ==> !wflag && disk == old(Logical())
      ensures old(winsect) == sect ==> disk == old(disk) && wflag == old(wflag)
    {
      if sect != winsect {
        SyncWindow();
        var data := disk[sect];
        forall i | 0 <= i < 512 { win[i] := data[i]; }
        winsect := sect;
        assert win[..] == data;
      }
    }
  }
}
