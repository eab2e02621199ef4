/** The shape of a READ TOC format 5 blob: a header and packs of 18 bytes. */
module CdTextPack {
  import opened Crc16

  const HEADER := 4
  const PACK := 18

  type RawPack = p: seq<Byte> | |p| == PACK witness seq(PACK, i => 0)

  /** Whole packs behind the header. */
  function PackCount(blob: seq<Byte>): nat
    requires |blob| >= HEADER
  {
    (|blob| - HEADER) / PACK
  }

  function PackOf(blob: seq<Byte>, i: nat): RawPack
    requires |blob| >= HEADER && i < PackCount(blob)
  {
    blob[HEADER + PACK * i..HEADER + PACK * i + PACK]
  }

  lemma PackOfIs(blob: seq<Byte>, i: nat)
    requires |blob| >= HEADER && i < PackCount(blob)
    ensures HEADER + PACK * i + PACK <= |blob|
    ensures PackOf(blob, i) == blob[HEADER + PACK * i..HEADER + PACK * i + PACK]
  {}
}
