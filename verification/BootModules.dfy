/** Discovery of boot modules in the Multiboot2 tag list (src/boot/boot_module.c). */
module BootModules {
  import opened Alignment

  const TAG_TYPE_END: nat := 0
  const TAG_TYPE_MODULE: nat := 3

  /** The fields of a tag that the walk reads; the bounds matter for module tags only. */
  datatype Tag = Tag(kind: nat, size: nat, moduleStart: nat, moduleEnd: nat)

  /** The tag size rounded up to the 8-byte tag alignment, as `(size + 7) & ~7`. */
  function TagStride(size: nat): nat {
    Bits.And(size + 7, AlignMask(8))
  }

  /** The tag at `addr` starts the list `tags`: each tag but the last is followed, at its padded
      size, by the rest, and the last is the end tag. */
  ghost predicate LaidOut(mem: map<nat, Tag>, addr: nat, tags: seq<Tag>)
    decreases |tags|
  {
    && |tags| > 0
    && addr in mem && mem[addr] == tags[0] && tags[0].size + 7 < WORD_LIMIT
    && (tags[0].kind == TAG_TYPE_END <==> |tags| == 1)
    && (|tags| > 1 ==> LaidOut(mem, addr + TagStride(tags[0].size), tags[1..]))
  }

  ghost predicate IsModule(tag: Tag) {
    tag.kind == TAG_TYPE_MODULE
  }

  class Modules {
    var end: nat

    constructor ()
      ensures end == 0
    {
      end := 0;
    }

    /** Records the highest end address of all modules in the tag list that follows the
        8-byte information header at `mbTags`. */
    method Discover(mem: map<nat, Tag>, mbTags: nat, ghost tags: seq<Tag>)
      requires LaidOut(mem, mbTags + 8, tags)
      modifies this
      ensures end >= old(end)
      ensures forall i :: 0 <= i < |tags| && IsModule(tags[i]) ==> tags[i].moduleEnd <= end
      ensures end == old(end) || exists i :: 0 <= i < |tags| && IsModule(tags[i]) && tags[i].moduleEnd == end
    {
      var addr: nat := mbTags + 8;
      ghost var k := 0;
      while mem[addr].kind != TAG_TYPE_END
        invariant 0 <= k < |tags| && LaidOut(mem, addr, tags[k..])
        invariant end >= old(end)
        invariant forall i :: 0 <= i < k && IsModule(tags[i]) ==> tags[i].moduleEnd <= end
        invariant end == old(end) || exists i :: 0 <= i < k && IsModule(tags[i]) && tags[i].moduleEnd == end
        decreases |tags| - k
      {
        var tag := mem[addr];
        assert tag == tags[k];
        if tag.kind == TAG_TYPE_MODULE {
          if tag.moduleEnd > end {
            end := tag.moduleEnd;
          }
        }
        StrideCoversTag(tag.size);
        assert tags[k..][1..] == tags[k + 1..];
        addr := addr + TagStride(tag.size);
        k := k + 1;
      }
      assert tags[k..] == [tags[k]];
    }
  }

  /** The walk's stride is the least multiple of eight that covers the tag. */
  lemma StrideCoversTag(size: nat)
    requires size + 7 < WORD_LIMIT
    ensures TagStride(size) % 8 == 0 && size <= TagStride(size) < size + 8
  {
    UnitsArePowers();
    MaskedAddress(size + 7, 8);
    RoundDown(size + 7, 8);
  }
}
