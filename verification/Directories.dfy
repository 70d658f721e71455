/** The data directory. It is changed only by its own methods, and each of them is
    one durable step that the trace records. */
module Directories {
  import opened ByteStrings
  import opened Records
  import opened Crash

  class Directory {
    var manifest: Option<ManifestImage>
    var files: map<nat, seq<Record>>
    var wals: map<nat, Bytes>
    /** Every state of the directory so far. */
    ghost var trace: seq<Disk>

    constructor (disk: Disk)
      ensures View() == disk && trace == [disk] && Valid()
    {
      manifest, files, wals := disk.manifest, disk.files, disk.wals;
      trace := [disk];
    }

    ghost function View(): Disk
      reads this`manifest, this`files, this`wals
    {
      Disk(manifest, files, wals)
    }

    /** No change went unrecorded. */
    ghost predicate Valid()
      reads this
    {
      trace != [] && trace[|trace| - 1] == View()
    }

    method PublishTable(number: nat, rows: seq<Record>)
      modifies this`files, this`trace
      ensures files == old(files)[number := rows]
      ensures trace == old(trace) + [View()]
    {
      files := files[number := rows];
      trace := trace + [View()];
    }

    method RemoveTable(number: nat)
      modifies this`files, this`trace
      ensures files == old(files) - {number}
      ensures trace == old(trace) + [View()]
    {
      files := files - {number};
      trace := trace + [View()];
    }

    method PublishManifest(image: ManifestImage)
      modifies this`manifest, this`trace
      ensures manifest == Some(image)
      ensures trace == old(trace) + [View()]
    {
      manifest := Some(image);
      trace := trace + [View()];
    }

    /** Creates a WAL, appends to it or truncates it. */
    method SetWal(number: nat, content: Bytes)
      modifies this`wals, this`trace
      ensures wals == old(wals)[number := content]
      ensures trace == old(trace) + [View()]
    {
      wals := wals[number := content];
      trace := trace + [View()];
    }

    method RemoveWal(number: nat)
      modifies this`wals, this`trace
      ensures wals == old(wals) - {number}
      ensures trace == old(trace) + [View()]
    {
      wals := wals - {number};
      trace := trace + [View()];
    }
  }
}
