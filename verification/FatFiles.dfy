/** Names and slots together: what `FAT_find_in_dir` finds after `update_dir` stored a file
    under its converted name (core/drv/FS/fat.c). */
module FatFiles {
  import opened CStrings
  import opened FirstFit
  import opened FatDirectory
  import opened FatNames

  lemma PlainIsWhole(f: seq<byte>)
    requires 0 !in f
    ensures UpToNul(f) == f
  {
    assert forall k | 0 <= k < |f| :: f[k] in f;
    assert Span(f, 0, {}) == |f|;
  }

  /** A stored 8.3 name is found again under exactly that name: looking up a name that was not
      there before finds the new slot if and only if base and extension are the stored ones. */
  lemma StoredNameIsFound(dir: seq<DirEntry>, base: seq<byte>, ext: seq<byte>, base': seq<byte>, ext': seq<byte>,
                          attrib: byte, cluster: nat, size: nat)
    requires ShortName(base, ext) && ShortName(base', ext') && 0 !in base + ext && 0 !in base' + ext'
    requires Terminated(dir) && base[0] != DELETED && attrib != 0x3F && attrib != 0x08 && attrib != 0x02
    requires Lookup(dir, Compatible(base + [DOT] + ext)).None? && Lookup(dir, Compatible(base' + [DOT] + ext')).None?
    requires EndFrom(dir, 0) + 1 < |dir| && dir[EndFrom(dir, 0) + 1].name[0] == 0
    ensures var dir' := dir[EndFrom(dir, 0) := Entry(Compatible(base + [DOT] + ext), attrib, cluster, size)];
      && (Lookup(dir', Compatible(base' + [DOT] + ext')) == Some(EndFrom(dir, 0)) <==> base' == base && ext' == ext)
      && (base' != base || ext' != ext ==> Lookup(dir', Compatible(base' + [DOT] + ext')).None?)
  {
    var f, f' := Compatible(base + [DOT] + ext), Compatible(base' + [DOT] + ext');
    ShortNameRoundTrip(base, ext);
    ShortNameRoundTrip(base', ext');
    CompatibleIsPlain(base + [DOT] + ext);
    PlainIsWhole(f);
    StartsWithBase(base, ext);
    InsertThenLookup(dir, Entry(f, attrib, cluster, size), f');
    InsertThenLookup(dir, Entry(f, attrib, cluster, size), f);
  }

  lemma StartsWithBase(base: seq<byte>, ext: seq<byte>)
    requires ShortName(base, ext)
    ensures Compatible(base + [DOT] + ext)[0] == base[0]
  {
    FirstOfPieces(base, DOT, ext, DOTS);
  }
}
