// Link counts of the image builder (tools/mksfs.c): how many directory entries name a file.
module SfsLinks {
  import opened DiskWords
  import opened SfsImage
  import opened MkSfs
  import opened SfsBuild
  import opened SfsDisk

  /** The data block n is an entry that names the file f: its first word, in little-endian order. */
  predicate Names(data: map<nat, seq<nat>>, n: nat, f: nat) {
    && n in data && |data[n]| >= 4
    && data[n][0] + 0x100 * data[n][1] + 0x1_0000 * data[n][2] + 0x100_0000 * data[n][3] == f
  }

  predicate IsDirectory(img: Image, g: nat) {
    g in img.files && img.files[g].kind == 2 && g in img.contents
  }

  /** The places of all directory entries that name f: a directory and the index of a block of it. */
  function EntriesOf(b: Builder, f: nat): set<(nat, nat)> {
    set g, i: nat | g in b.img.files && IsDirectory(b.img, g) && i < |b.img.contents[g]|
                    && Names(b.data, b.img.contents[g][i], f) :: (g, i)
  }

  /** Every link count is the number of entries that name the file, as a 16-bit number, and every entry names
      a file. */
  ghost predicate LinksRight(b: Builder) {
    && b.img.files.Keys == b.fileAt.Keys
    && (forall f | f in b.img.files :: b.img.files[f].nlinks == |EntriesOf(b, f)| % 0x1_0000)
    && (forall g, i: nat, f: nat | IsDirectory(b.img, g) && i < |b.img.contents[g]|
        && Names(b.data, b.img.contents[g][i], f) ::
          f in b.img.files)
    && (forall g, i: nat | IsDirectory(b.img, g) && i < |b.img.contents[g]| :: b.img.contents[g][i] in b.data)
  }

  lemma EntryNames(ino: nat, buffer: seq<nat>, data: map<nat, seq<nat>>, n: nat, f: nat)
    requires ino < 0x1_0000_0000 && |buffer| == NAME_BYTES && n in data && data[n] == EntryBytes(ino, buffer)
    ensures Names(data, n, f) <==> f == ino
  {
    WordReadsBack([ino], buffer[..NAME_BYTES - 4], 0);
  }

  /** What of an entry being put concerns links: the directory has one more block, the next number, and the
      block holds these bytes. */
  ghost predicate EntryPut(b: Builder, dir: nat, bytes: seq<nat>, b': Builder) {
    && b'.data == b.data[b.img.next := bytes] && b'.fileAt == b.fileAt && b.img.next !in b.data
    && IsDirectory(b.img, dir) && b'.img.contents == b.img.contents[dir := b.img.contents[dir] + [b.img.next]]
    && b'.img.files.Keys == b.img.files.Keys
    && (forall f | f in b.img.files ::
          b'.img.files[f].kind == b.img.files[f].kind && b'.img.files[f].nlinks == b.img.files[f].nlinks)
  }

  lemma PutIsEntryPut(b: Builder, dir: nat, size: nat, bytes: seq<nat>, b': Builder)
    requires IsDirectory(b.img, dir) && b.img.next !in b.data && Put(b, dir, size, bytes, b')
    ensures EntryPut(b, dir, bytes, b')
  {
    hide IsIndex, UsedAs;
    forall f | f in b.img.files
      ensures b'.img.files[f].kind == b.img.files[f].kind && b'.img.files[f].nlinks == b.img.files[f].nlinks
    {
    }
  }

  lemma InEntries(b: Builder, f: nat, g: nat, i: nat)
    ensures (g, i) in EntriesOf(b, f) <==>
            IsDirectory(b.img, g) && i < |b.img.contents[g]| && Names(b.data, b.img.contents[g][i], f)
  {
  }

  /** add_entry adds one place for the file that it names and none for any other. */
  lemma EntryAdds(b: Builder, dir: nat, ino: nat, buffer: seq<nat>, b': Builder, f: nat)
    requires LinksRight(b) && ino < 0x1_0000_0000 && |buffer| == NAME_BYTES
    requires EntryPut(b, dir, EntryBytes(ino, buffer), b')
    ensures EntriesOf(b', f) == EntriesOf(b, f) + (if f == ino then {(dir, |b.img.contents[dir]|)} else {})
    ensures (dir, |b.img.contents[dir]|) !in EntriesOf(b, f)
  {
    hide EntriesOf;
    var k := |b.img.contents[dir]|;
    InEntries(b, f, dir, k);
    var more := if f == ino then {(dir, k)} else {};
    forall x: (nat, nat) ensures x in EntriesOf(b', f) <==> x in EntriesOf(b, f) + more {
      var g, i := x.0, x.1;
      assert x == (g, i);
      InEntries(b, f, g, i);
      InEntries(b', f, g, i);
      OneEntry(b, dir, ino, buffer, b', f, g, i);
    }
  }

  lemma OneEntry(b: Builder, dir: nat, ino: nat, buffer: seq<nat>, b': Builder, f: nat, g: nat, i: nat)
    requires LinksRight(b) && ino < 0x1_0000_0000 && |buffer| == NAME_BYTES
    requires EntryPut(b, dir, EntryBytes(ino, buffer), b')
    ensures IsDirectory(b'.img, g) <==> IsDirectory(b.img, g)
    ensures IsDirectory(b.img, g) ==>
            (i < |b'.img.contents[g]| <==> i < |b.img.contents[g]| || (g == dir && i == |b.img.contents[g]|))
    ensures IsDirectory(b.img, g) && i < |b.img.contents[g]| ==>
              && b'.img.contents[g][i] == b.img.contents[g][i] && b'.img.contents[g][i] in b'.data
              && (Names(b'.data, b'.img.contents[g][i], f) <==> Names(b.data, b.img.contents[g][i], f))
    ensures g == dir && i == |b.img.contents[g]| ==>
              b'.img.contents[g][i] == b.img.next && b.img.next in b'.data
                && (Names(b'.data, b.img.next, f) <==> f == ino)
  {
    hide EntriesOf, EntryBytes;
    EntryNames(ino, buffer, b'.data, b.img.next, f);
    if IsDirectory(b.img, g) && i < |b.img.contents[g]| { assert b.img.contents[g][i] in b.data; }
  }

  lemma OneMoreEntry(a: set<(nat, nat)>, x: (nat, nat))
    requires x !in a
    ensures |a + {x}| == |a| + 1
  {
  }

  lemma OneMoreModulo(n: nat)
    ensures (n % 0x1_0000 + 1) % 0x1_0000 == (n + 1) % 0x1_0000
  {
  }

  /** Link counts stay right when an entry is added. */
  lemma EntryKeepsLinks(b: Builder, dir: nat, ino: nat, buffer: seq<nat>, b2: Builder, b': Builder)
    requires LinksRight(b) && ino < 0x1_0000_0000 && |buffer| == NAME_BYTES
    requires EntryPut(b, dir, EntryBytes(ino, buffer), b2)
    requires ino in b2.img.files && b' == WithFile(b2, ino, OneMoreLink(b2.img.files[ino]))
    ensures LinksRight(b') && IsDirectory(b'.img, dir)
    ensures ino in b.img.files && b'.img.files[ino].nlinks == (b.img.files[ino].nlinks + 1) % 0x1_0000
    ensures b'.img.files[ino].kind == b.img.files[ino].kind
  {
    hide EntriesOf, EntryBytes;
    forall f | f in b'.img.files ensures b'.img.files[f].nlinks == |EntriesOf(b', f)| % 0x1_0000 {
      EntryAdds(b, dir, ino, buffer, b2, f);
      SameEntries(b2, b', f);
      if f == ino {
        OneMoreEntry(EntriesOf(b, f), (dir, |b.img.contents[dir]|));
        OneMoreModulo(|EntriesOf(b, f)|);
      }
    }
    forall g, i: nat, f: nat | IsDirectory(b'.img, g) && i < |b'.img.contents[g]|
      ensures b'.img.contents[g][i] in b'.data && (Names(b'.data, b'.img.contents[g][i], f) ==> f in b'.img.files)
    {
      OneEntry(b, dir, ino, buffer, b2, f, g, i);
    }
  }

  /** Only a link count has changed. */
  lemma SameEntries(b: Builder, b': Builder, f: nat)
    requires b'.data == b.data && b'.img.contents == b.img.contents && b'.img.files.Keys == b.img.files.Keys
    requires forall g | g in b.img.files :: b'.img.files[g].kind == b.img.files[g].kind
    ensures EntriesOf(b', f) == EntriesOf(b, f)
  {
    forall g | g in b.img.files ensures IsDirectory(b'.img, g) <==> IsDirectory(b.img, g) {}
  }

  /** Link counts stay right when add_file looks for its file: a new one has no entry yet. */
  lemma FoundKeepsLinks(b: Builder, host: nat, pieces: seq<seq<nat>>, file: CacheInode, b1: Builder)
    requires LinksRight(b) && FileFound(b, host, pieces, file, b1) && b1.img.files.Keys == b1.fileAt.Keys
    requires forall f | f in b.img.files :: f in b.img.contents
    ensures LinksRight(b1) && forall g | IsDirectory(b.img, g) :: IsDirectory(b1.img, g)
    ensures host !in b.recent ==> b1.img.files[file.ino].nlinks == 0 && b1.img.files[file.ino].kind == 1
  {
    if host !in b.recent {
      forall g ensures IsDirectory(b1.img, g) <==> IsDirectory(b.img, g) {}
      forall g, i: nat | IsDirectory(b.img, g) && i < |b.img.contents[g]|
        ensures b1.img.contents[g] == b.img.contents[g] && b1.img.contents[g][i] in b1.data
        ensures forall f: nat :: Names(b1.data, b1.img.contents[g][i], f) <==> Names(b.data, b.img.contents[g][i], f)
      {
        assert BlockIs(b1.data, b.img.contents[g][i], b.data[b.img.contents[g][i]]);
      }
      forall f: nat ensures EntriesOf(b1, f) == EntriesOf(b, f) {}
      assert EntriesOf(b, file.ino) == {};
    }
  }

  /** Whatever add_file is called for, link counts stay right, and the file has one link more. */
  lemma AddedKeepsLinks(b: Builder, dir: nat, name: seq<nat>, buffer: seq<nat>, host: nat, pieces: seq<seq<nat>>,
                        file: CacheInode, b1: Builder, b2: Builder, b': Builder)
    requires LinksRight(b) && IsDirectory(b.img, dir) && FilesOk(b.img) && |name| < |buffer| == NAME_BYTES
    requires Added(b, dir, name, buffer, host, pieces, file, b1, b2, b') && file.ino < 0x1_0000_0000
    ensures LinksRight(b') && IsDirectory(b'.img, dir) && file.ino in b'.img.files
    ensures host !in b.recent ==> b'.img.files[file.ino].nlinks == 1 && b'.img.files[file.ino].kind == 1
  {
    hide LinksRight, Put, EntryBytes, Copied, FileRep, FileFound, EntryPut, Linked;
    FoundKeepsLinks(b, host, pieces, file, b1);
    NextIsNew(b1);
    PutIsEntryPut(b1, dir, NAME_BYTES, EntryBytes(file.ino, Copied(name, buffer)), b2);
    EntryKeepsLinks(b1, dir, file.ino, Copied(name, buffer), b2, b');
  }

  lemma NextIsNew(b: Builder)
    requires Linked(b)
    ensures b.img.next !in b.data
  {
  }

  /** A new image: the root directory has neither entries nor links. */
  lemma NewImageLinks(b: Builder)
    requires b.img.files.Keys == b.fileAt.Keys == {BLKN_ROOT} && b.img.contents == map[BLKN_ROOT := []]
    requires b.img.files[BLKN_ROOT].nlinks == 0
    ensures LinksRight(b)
  {
    assert EntriesOf(b, BLKN_ROOT) == {};
  }
}
