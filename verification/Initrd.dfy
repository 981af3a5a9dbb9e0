/** Looking up a file of the initial ramdisk by name (src/kernel/initrd.c). */
module Initrd {
  import opened KHash
  import opened KString
  import opened Tar
  import opened Archives

  /** The first file with a hash, or the number of files. */
  function FirstWithHash(files: seq<TarFile>, h: nat): (i: nat)
    ensures i <= |files| && (i < |files| ==> files[i].hash == h)
    ensures forall j :: 0 <= j < i ==> files[j].hash != h
  {
    if files == [] || files[0].hash == h then 0 else 1 + FirstWithHash(files[1..], h)
  }

  /** initrd_get_file_by_name: compares hashes only; the number of slots stands for no file. */
  method GetFileByName(files: array<TarFile>, path: seq<char>) returns (i: nat)
    requires CLength(path) < |path| || FILENAME_MAX <= |path|
    ensures i == FirstWithHash(files[..], HashOf(path[..CopyLength(path, FILENAME_MAX)]))
  {
    hide HashOf;
    var hash := Hash32(path, FILENAME_MAX);
    i := 0;
    while i < files.Length
      invariant i <= files.Length
      invariant forall j :: 0 <= j < i ==> files[..][j].hash != hash
    {
      if files[i].hash == hash {
        FirstIs(files[..], hash, i);
        return;
      }
      i := i + 1;
    }
    FirstIs(files[..], hash, i);
  }

  lemma FirstIs(files: seq<TarFile>, h: nat, i: nat)
    requires i <= |files| && (i < |files| ==> files[i].hash == h)
    requires forall j :: 0 <= j < i ==> files[j].hash != h
    ensures FirstWithHash(files, h) == i
  {
    assert FirstWithHash(files, h) <= |files|;
  }

  /** In the table of an extracted archive, whatever its unused slots hold, a file is found by its
      name exactly if no file before it has a name with the same hash. */
  lemma FoundByName(es: seq<Entry>, address: nat, unused: seq<TarFile>, k: nat)
    requires AllStorable(es) && k < |es|
    ensures FirstWithHash(Listing(es, address, 0) + unused, HashOf(es[k].name)) == k <==>
              forall j :: 0 <= j < k ==> HashOf(es[j].name) != HashOf(es[k].name)
  {
    hide Listing, HashOf;
    var table, h := Listing(es, address, 0) + unused, HashOf(es[k].name);
    forall j | 0 <= j <= k ensures table[j].hash == HashOf(es[j].name) {
      ListingAt(es, address, 0, j);
    }
    if forall j :: 0 <= j < k ==> HashOf(es[j].name) != h {
      FirstIs(table, h, k);
    }
  }

  /** So a file is found by its name if every name before it differs from it in one character. */
  lemma FoundByOneLetter(es: seq<Entry>, address: nat, unused: seq<TarFile>, k: nat)
    requires AllStorable(es) && k < |es|
    requires forall j :: 0 <= j < k ==> exists i: nat :: OneLetterApart(es[j].name, es[k].name, i)
    ensures FirstWithHash(Listing(es, address, 0) + unused, HashOf(es[k].name)) == k
  {
    hide Listing, HashOf, OneLetterApart;
    FoundByName(es, address, unused, k);
    forall j | 0 <= j < k
      ensures HashOf(es[j].name) != HashOf(es[k].name)
    {
      var i: nat :| OneLetterApart(es[j].name, es[k].name, i);
      OneLetterTells(es[j].name, es[k].name, i);
    }
  }
}
