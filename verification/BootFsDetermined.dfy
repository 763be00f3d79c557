/**
 FileImage.to_boot_fs of scripts/tt_boot_fs.py is determined by its specification: what is
 proved of its result holds of one file system only.
 */
module BootFsDetermined {
  import opened BootFs
  import opened BootFsBuild

  // Ascending by address.
  ghost predicate Ascends(a: seq<string>, m: map<string, FsEntry>) {
    && (forall i :: 0 <= i < |a| ==> a[i] in m)
    && (forall i, j :: 0 <= i < j < |a| ==> m[a[i]].spiAddr < m[a[j]].spiAddr)
  }

  lemma SameLast(a: seq<string>, b: seq<string>, m: map<string, FsEntry>)
    requires Ascends(a, m) && Ascends(b, m) && a != [] && b != [] && forall t :: t in a <==> t in b
    ensures a[|a| - 1] == b[|b| - 1]
  {
    var x, y := a[|a| - 1], b[|b| - 1];
    assert x in b && y in a;
    var i :| 0 <= i < |b| && b[i] == x;
    var j :| 0 <= j < |a| && a[j] == y;
  }

  lemma SamePrefix(a: seq<string>, b: seq<string>, m: map<string, FsEntry>, t: string)
    requires Ascends(a, m) && a != [] && b != [] && a[|a| - 1] == b[|b| - 1]
    requires t in a[..|a| - 1] && t in b
    ensures t in b[..|b| - 1]
  {
    var i :| 0 <= i < |b| && b[i] == t;
    if i < |b| - 1 {
      assert b[..|b| - 1][i] == t;
    }
  }

  lemma HasFirst(a: seq<string>)
    ensures a != [] <==> exists t :: t in a
  {
    if a != [] {
      assert a[0] in a;
    }
  }

  /** Two lists of the same tags in address order are equal. */
  lemma {:induction false} AscendingUnique(a: seq<string>, b: seq<string>, m: map<string, FsEntry>)
    requires Ascends(a, m) && Ascends(b, m) && forall t :: t in a <==> t in b
    ensures a == b
    decreases |a|
  {
    HasFirst(a);
    HasFirst(b);
    if a != [] {
      SameLast(a, b, m);
      var c, d := a[..|a| - 1], b[..|b| - 1];
      forall t ensures t in c <==> t in d {
        if t in c {
          SamePrefix(a, b, m, t);
        } else if t in d {
          SamePrefix(b, a, m, t);
        }
      }
      AscendingUnique(c, d, m);
      assert a == c + [a[|a| - 1]] && b == d + [b[|b| - 1]];
    }
  }

  // The specification determines where a failover image without an address goes.
  lemma LowestUnique(images: seq<BootImage>, at: seq<nat>, blockSize: nat, n: nat, a: nat, b: nat)
    requires |at| == |images| && blockSize > 0
    requires LowestClear(images, at, blockSize, n, a) && LowestClear(images, at, blockSize, n, b)
    ensures a == b
  {
  }

  // What ToBootFs promises of its result for a sound specification.
  ghost predicate Built(fs: FileSystem, images: seq<BootImage>, failover: BootImage, blockSize: nat, at: seq<nat>)
    requires blockSize > 0
  {
    && Keyed(fs) && Represents(fs, images) && HoldsFailover(fs, failover)
    && WellPlaced(fs, images, failover, blockSize, at)
  }

  lemma SamePlaces(images: seq<BootImage>, blockSize: nat, at: seq<nat>, bt: seq<nat>)
    requires blockSize > 0 && Placement(images, blockSize, at) && Placement(images, blockSize, bt)
    ensures at == bt
  {
    PlacementUnique(images, blockSize, at, bt, |images|);
  }

  lemma SameEntry(fs: FileSystem, gs: FileSystem, images: seq<BootImage>, at: seq<nat>, t: string)
    requires Keyed(fs) && Represents(fs, images) && EntriesSited(fs, images, at)
    requires Keyed(gs) && Represents(gs, images) && EntriesSited(gs, images, at)
    requires t in fs.order && forall i :: 0 <= i < |images| ==> images[i].tag != FAILOVER
    ensures t in gs.order && t in fs.entries && t in gs.entries && fs.entries[t] == gs.entries[t]
  {
    var i :| 0 <= i < |images| && images[i].tag == t;
    assert Matches(fs.entries[t], images[i]) && Matches(gs.entries[t], images[i]);
  }

  // The part of the order behind the executable tags holds the other tags.
  lemma RestTags(fs: FileSystem, x: seq<string>, t: string)
    requires NoRepeats(fs.order) && x <= fs.order
    ensures t in fs.order[|x|..] <==> t in fs.order && t !in x
  {
    var rest := fs.order[|x|..];
    forall k | 0 <= k < |x| ensures fs.order[k] in x {
      assert fs.order[k] == x[k];
    }
    if t in rest {
      var i :| 0 <= i < |rest| && rest[i] == t;
      assert fs.order[|x| + i] == t;
    }
    if t in fs.order && t !in x {
      var i :| 0 <= i < |fs.order| && fs.order[i] == t;
      assert rest[i - |x|] == t;
    }
  }

  lemma SameOrder(fs: FileSystem, gs: FileSystem, x: seq<string>)
    requires Keyed(fs) && Keyed(gs) && NoRepeats(fs.order) && NoRepeats(gs.order) && x <= fs.order && x <= gs.order
    requires AddressOrdered(fs, |x|) && AddressOrdered(gs, |x|)
    requires forall t :: t in fs.order <==> t in gs.order
    requires forall t :: t in fs.order ==> fs.entries[t] == gs.entries[t]
    ensures fs.order == gs.order
  {
    var a, b := fs.order[|x|..], gs.order[|x|..];
    forall t ensures t in a <==> t in b {
      RestTags(fs, x, t);
      RestTags(gs, x, t);
    }
    forall i | 0 <= i < |b| ensures b[i] in gs.order && b[i] in fs.entries {
      assert b[i] == gs.order[|x| + i];
    }
    AscendingUnique(a, b, fs.entries);
    assert fs.order == x + a && gs.order == x + b;
  }

  /** A sound specification determines the whole file system: order, entries, addresses and
      the failover entry. */
  lemma BuiltUnique(fs: FileSystem, gs: FileSystem, images: seq<BootImage>, failover: BootImage, blockSize: nat,
          at: seq<nat>, bt: seq<nat>)
    requires blockSize > 0 && SoundFailover(images, failover)
    requires Built(fs, images, failover, blockSize, at) && Built(gs, images, failover, blockSize, bt)
    ensures fs == gs
  {
    SamePlaces(images, blockSize, at, bt);
    forall t | t in fs.order ensures t in gs.order && fs.entries[t] == gs.entries[t] {
      SameEntry(fs, gs, images, at, t);
    }
    forall t | t in gs.order ensures t in fs.order {
      SameEntry(gs, fs, images, at, t);
    }
    SameOrder(fs, gs, ExecutableTags(images));
    if failover.spiAddr.None? {
      var a, b := fs.entries[FAILOVER].spiAddr, gs.entries[FAILOVER].spiAddr;
      LowestUnique(images, at, blockSize, |failover.binary|, a, b);
    }
    assert fs.entries == gs.entries;
  }
}
