/**
 * The block device below the reader: 512-byte sectors, any read of which may fail.
 * The fate of every read is fixed by an arbitrary schedule, so a statement about a
 * Media object is a statement about every pattern of failures.
 */
module MediaAccess {
  import opened Words
  import opened FatFormat

  /** A failed transfer may leave anything in the caller's buffer, or leave it alone. */
  datatype Fate = Served | Failed(junk: Option<Sector>)

  class Media {
    const disk: Disk
    const fate: nat -> Fate
    const initFails: bool
    var served: nat
    ghost var faults: nat

    /** Failed reads do not touch the buffer (what a timed-out SD card read does). */
    ghost predicate Quiet() {
      forall n: nat :: fate(n).Failed? ==> fate(n).junk.None?
    }

    /** A medium that never fails. */
    ghost predicate Reliable() {
      forall n: nat :: fate(n).Served?
    }

    /** Faults only accumulate, and a reliable medium has none to add. */
    ghost predicate FaultsSince(before: nat)
      reads `faults
    {
      before <= faults && (Reliable() ==> faults == before)
    }

    constructor (disk: Disk, fate: nat -> Fate, initFails: bool)
      ensures this.disk == disk && this.fate == fate && this.initFails == initFails
      ensures served == 0 && faults == 0
    {
      this.disk, this.fate, this.initFails := disk, fate, initFails;
      served, faults := 0, 0;
    }

    method ReadSector(address: U32, data: array<Byte>) returns (failed: bool)
      requires data.Length == 512
      modifies this, data
      ensures failed == fate(old(served)).Failed? && served == old(served) + 1
      ensures faults == old(faults) + if failed then 1 else 0
      ensures failed ==> !Reliable()
      ensures !failed ==> data[..] == disk(address)
      ensures failed && Quiet() ==> data[..] == old(data[..])
    {
      var f := fate(served);
      served := served + 1;
      failed := f.Failed?;
      if failed {
        faults := faults + 1;
        if f.junk.Some? {
          Fill(data, f.junk.value);
        }
      } else {
        Fill(data, disk(address));
      }
    }

    method Fill(data: array<Byte>, content: Sector)
      requires data.Length == 512
      modifies data
      ensures data[..] == content
    {
      forall i | 0 <= i < 512 {
        data[i] := content[i];
      }
    }
  }
}
