/** The 32-bit metadata tags of littlefs: valid bit, 11-bit type, 10-bit id, 10-bit size. */
module Tags {
  import opened Words

  const TYPE_NAME := 0x000
  const TYPE_FROM := 0x100
  const TYPE_USERATTR := 0x300
  const TYPE_SPLICE := 0x400
  const TYPE_CREATE := 0x401
  const TYPE_DELETE := 0x4ff
  const TYPE_CRC := 0x500
  const TYPE_TAIL := 0x600
  const FROM_NOOP := 0x000
  const FROM_MOVE := 0x101
  const FROM_USERATTRS := 0x102

  const NO_SIZE := 0x3ff
  const BLOCK_NULL := 0xffff_ffff

  type TagWord = w: nat | w < WORD_LIMIT

  function MkTag(kind: nat, id: nat, size: nat): (w: TagWord)
    requires kind < 0x800 && id < 0x400 && size < 0x400
  {
    kind * 0x10_0000 + id * 0x400 + size
  }

  predicate IsValid(w: TagWord) { w < TOP_BIT }

  function Type3(w: TagWord): (k: nat)
    ensures k < 0x800
  {
    w / 0x10_0000 % 0x800
  }

  function Type1(w: TagWord): nat { KindType1(Type3(w)) }

  function Chunk(w: TagWord): nat { Type3(w) % 0x100 }

  function Splice(w: TagWord): int { KindSplice(Type3(w)) }

  function Id(w: TagWord): (id: nat)
    ensures id < 0x400
  {
    w / 0x400 % 0x400
  }

  function Size(w: TagWord): (s: nat)
    ensures s < 0x400
  {
    w % 0x400
  }

  predicate IsDelete(w: TagWord) { Size(w) == NO_SIZE }

  /** Bytes a tag occupies on disk: the word and its payload; a delete size stands for no payload. */
  function DSize(w: TagWord): (n: nat)
    ensures 4 <= n
  {
    4 + Size((w + (if IsDelete(w) then 1 else 0)) % WORD_LIMIT)
  }

  function KindType1(kind: nat): nat { kind / 0x100 * 0x100 }

  /** The chunk byte of a splice type read as a signed 8-bit count. */
  function KindSplice(kind: nat): (n: int)
    ensures -0x80 <= n < 0x80 && (n == kind % 0x100 || n == kind % 0x100 - 0x100)
  {
    var c := kind % 0x100;
    if c < 0x80 then c else c - 0x100
  }

  function PayloadLen(size: nat): nat { if size == NO_SIZE then 0 else size }

  /** Packing and unpacking are inverse, whatever the valid bit is. */
  lemma FieldsOfMkTag(kind: nat, id: nat, size: nat, w: TagWord)
    requires kind < 0x800 && id < 0x400 && size < 0x400
    requires w % TOP_BIT == MkTag(kind, id, size)
    ensures Type3(w) == kind && Id(w) == id && Size(w) == size
    ensures DSize(w) == 4 + PayloadLen(size)
  {
    hide Type3, Id, Size, DSize;
    TopAndLow(w);
    FieldsOf(w / TOP_BIT, kind, id, size);
    DSizeOf(w);
  }

  lemma TopAndLow(w: TagWord)
    ensures w == w / TOP_BIT * TOP_BIT + w % TOP_BIT
  {
  }

  /** One division for each field. */
  lemma FieldsOf(top: nat, kind: nat, id: nat, size: nat)
    requires kind < 0x800 && id < 0x400 && size < 0x400 && top * TOP_BIT + MkTag(kind, id, size) < WORD_LIMIT
    ensures var w := top * TOP_BIT + MkTag(kind, id, size); Type3(w) == kind && Id(w) == id && Size(w) == size
  {
    var w, upper := top * TOP_BIT + MkTag(kind, id, size), top * 0x800 + kind;
    ModUnique(w, 0x10_0000, upper, id * 0x400 + size);
    ModUnique(upper, 0x800, top, kind);
    ModUnique(w, 0x400, upper * 0x400 + id, size);
    ModUnique(upper * 0x400 + id, 0x400, upper, id);
  }

  lemma DSizeOf(w: TagWord)
    ensures DSize(w) == 4 + PayloadLen(Size(w))
  {
    if IsDelete(w) {
      var q := w / 0x400 + 1;
      assert w + 1 == q * 0x400;
      ModUnique(w + 1, 0x400, q, 0);
      if w + 1 < WORD_LIMIT {
        ModUnique(w + 1, WORD_LIMIT, 0, w + 1);
      } else {
        ModUnique(w + 1, WORD_LIMIT, 1, 0);
      }
    } else {
      ModUnique(w, WORD_LIMIT, 0, w);
    }
  }

  /** Every word is the packing of its own fields. */
  lemma MkTagOfFields(w: TagWord)
    ensures MkTag(Type3(w), Id(w), Size(w)) == w % TOP_BIT
  {
    var a := w / 0x400;
    var b := a / 0x400;
    assert w / 0x10_0000 == b;
    assert w == a * 0x400 + Size(w);
    assert a == b * 0x400 + Id(w);
    assert b == (b / 0x800) * 0x800 + Type3(w);
    ModUnique(w, TOP_BIT, b / 0x800, MkTag(Type3(w), Id(w), Size(w)));
  }
}
