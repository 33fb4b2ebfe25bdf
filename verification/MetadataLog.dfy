/** A metadata block as a log of tags: what the log means (replay from the front) and how it is laid out on disk. */
module MetadataLog {
  import opened Wrappers
  import opened Words
  import opened Tags
  import opened Sequences

  /** One log entry; `data` is the payload that follows the tag word. */
  datatype Tag = Tag(kind: nat, id: nat, size: nat, data: seq<byte>) {
    predicate Valid() {
      kind < 0x800 && id < 0x400 && size < 0x400 && |data| == PayloadLen(size)
    }

    function Word(): (w: TagWord)
      requires Valid()
      ensures w < TOP_BIT
    {
      MkTag(kind, id, size)
    }

    /** Names, structs and user attributes belong to one directory entry. */
    predicate IsAttr() { kind < 0x400 }

    /** The splices the file system writes are single creations and deletions, without payload. */
    predicate PlainSplice() {
      KindType1(kind) == TYPE_SPLICE ==> (kind == TYPE_CREATE || kind == TYPE_DELETE) && size == 0
    }
  }

  type Log = seq<Tag>

  ghost predicate ValidLog(log: Log) {
    forall i :: 0 <= i < |log| ==> log[i].Valid() && log[i].PlainSplice()
  }

  // ---------------------------------------------------------------- meaning

  datatype Attr = Attr(kind: nat, size: nat, data: seq<byte>)

  /** The attributes written to one directory entry, oldest first. */
  type Entry = seq<Attr>
  type Dir = seq<Entry>

  function At(d: Dir, i: nat): Entry { if i < |d| then d[i] else [] }

  function Pad(d: Dir, n: nat): (p: Dir)
    ensures |p| >= n && |p| >= |d|
    decreases n - |d|
  {
    if |d| >= n then d else Pad(d + [[]], n)
  }

  function Insert(d: Dir, i: nat): Dir {
    var p := Pad(d, i);
    p[..i] + [[]] + p[i..]
  }

  function Remove(d: Dir, i: nat): Dir {
    if i < |d| then d[..i] + d[i + 1..] else d
  }

  function Write(d: Dir, i: nat, a: Attr): Dir {
    var p := Pad(d, i + 1);
    p[i := p[i] + [a]]
  }

  lemma {:induction false} PadAt(d: Dir, n: nat, j: nat)
    ensures At(Pad(d, n), j) == At(d, j)
    decreases n - |d|
  {
    if |d| < n { PadAt(d + [[]], n, j); }
  }

  /** A creation opens an empty entry and moves the ids from there on up by one. */
  lemma InsertAt(d: Dir, i: nat, j: nat)
    ensures At(Insert(d, i), j) == (if j < i then At(d, j) else if j == i then [] else At(d, j - 1))
  {
    PadAt(d, i, j);
    if j > i { PadAt(d, i, j - 1); }
  }

  /** A deletion closes the gap it leaves. */
  lemma RemoveAt(d: Dir, i: nat, j: nat)
    ensures At(Remove(d, i), j) == (if j < i then At(d, j) else At(d, j + 1))
  {
  }

  lemma WriteAt(d: Dir, i: nat, a: Attr, j: nat)
    ensures At(Write(d, i, a), j) == (if j == i then At(d, i) + [a] else At(d, j))
  {
    PadAt(d, i + 1, i);
    PadAt(d, i + 1, j);
  }

  function Apply(d: Dir, t: Tag): Dir {
    if t.kind == TYPE_CREATE then Insert(d, t.id)
    else if t.kind == TYPE_DELETE then Remove(d, t.id)
    else if t.IsAttr() then Write(d, t.id, Attr(t.kind, t.size, t.data))
    else d
  }

  /** Reading the log from its first tag to its last. */
  function Replay(d: Dir, log: Log): Dir {
    if log == [] then d else Apply(Replay(d, Front(log)), Last(log))
  }

  /** A lookup compares types after dividing by `mask`: 0x100 ignores the chunk byte, 1 compares the whole type. */
  predicate SameKind(mask: nat, a: nat, b: nat)
    requires mask > 0
  {
    a / mask == b / mask
  }

  /** The newest attribute of an entry whose type matches. */
  function Newest(e: Entry, mask: nat, kind: nat): (r: Option<Attr>)
    requires mask > 0
    ensures r.Some? ==> SameKind(mask, r.value.kind, kind)
  {
    if e == [] then None
    else if SameKind(mask, Last(e).kind, kind) then Some(Last(e))
    else Newest(Front(e), mask, kind)
  }

  /** What an entry holds for a type: its newest match, unless that one records a deletion. */
  function Held(e: Entry, mask: nat, kind: nat): Option<Attr>
    requires mask > 0
  {
    Live(Newest(e, mask, kind))
  }

  function Live(a: Option<Attr>): Option<Attr> {
    if a.Some? && a.value.size == NO_SIZE then None else a
  }

  // ---------------------------------------------------------------- backward scan

  /** Result of walking back over tags: an answer, or the id the entry had before all of them. */
  datatype Back = Hit(found: Option<Attr>) | Reached(id: nat)

  function BackStep(t: Tag, mask: nat, kind: nat, id: nat): Back
    requires mask > 0
  {
    if t.kind == TYPE_CREATE then
      if t.id == id then Hit(None) else if t.id < id then Reached(id - 1) else Reached(id)
    else if t.kind == TYPE_DELETE then
      if t.id <= id then Reached(id + 1) else Reached(id)
    else if t.IsAttr() && t.id == id && SameKind(mask, t.kind, kind) then
      Hit(Some(Attr(t.kind, t.size, t.data)))
    else Reached(id)
  }

  function BackScan(log: Log, mask: nat, kind: nat, id: nat): Back
    requires mask > 0
    decreases log, 0
  {
    if log == [] then Reached(id)
    else ScanOn(BackStep(Last(log), mask, kind, id), Front(log), mask, kind)
  }

  /** Continue a walk over `log`, unless it already has its answer. */
  function ScanOn(b: Back, log: Log, mask: nat, kind: nat): Back
    requires mask > 0
    decreases log, 1
  {
    match b
    case Hit(a) => b
    case Reached(i) => BackScan(log, mask, kind, i)
  }

  /** The attribute a finished walk stands for, when the tags it did not see left directory `d`. */
  function Answer(b: Back, d: Dir, mask: nat, kind: nat): Option<Attr>
    requires mask > 0
  {
    match b
    case Hit(a) => a
    case Reached(i) => Newest(At(d, i), mask, kind)
  }

  /** The backward walk finds what a full replay from the front leaves in the entry, for every starting directory. */
  lemma {:induction false} BackScanIsReplay(d: Dir, log: Log, mask: nat, kind: nat, id: nat)
    requires mask > 0
    ensures Newest(At(Replay(d, log), id), mask, kind) == Answer(BackScan(log, mask, kind, id), d, mask, kind)
  {
    if log != [] {
      var before, t := Front(log), Last(log);
      var d' := Replay(d, before);
      ApplyStep(d', t, mask, kind, id);
      match BackStep(t, mask, kind, id)
      case Hit(_) =>
      case Reached(i) => BackScanIsReplay(d, before, mask, kind, i);
    }
  }

  lemma ApplyStep(d: Dir, t: Tag, mask: nat, kind: nat, id: nat)
    requires mask > 0
    ensures Newest(At(Apply(d, t), id), mask, kind) == Answer(BackStep(t, mask, kind, id), d, mask, kind)
  {
    hide Insert, Remove, Write;
    if t.kind == TYPE_CREATE {
      InsertAt(d, t.id, id);
    } else if t.kind == TYPE_DELETE {
      RemoveAt(d, t.id, id);
    } else if t.IsAttr() {
      var a := Attr(t.kind, t.size, t.data);
      WriteAt(d, t.id, a, id);
      Snoc(At(d, t.id), a);
    }
  }

  /** Scanning a concatenation: the later part first, then the earlier part from the id reached. */
  lemma {:induction false} BackScanConcat(a: Log, b: Log, mask: nat, kind: nat, id: nat)
    requires mask > 0
    ensures BackScan(a + b, mask, kind, id) == ScanOn(BackScan(b, mask, kind, id), a, mask, kind)
    decreases |b|
  {
    if b == [] {
      Neutral(a);
    } else {
      AppendFront(a, b);
      match BackStep(Last(b), mask, kind, id)
      case Hit(_) =>
      case Reached(i) => BackScanConcat(a, Front(b), mask, kind, i);
    }
  }

  lemma {:induction false} ReplayConcat(d: Dir, a: Log, b: Log)
    ensures Replay(d, a + b) == Replay(Replay(d, a), b)
    decreases |b|
  {
    if b == [] {
      Neutral(a);
    } else {
      AppendFront(a, b);
      ReplayConcat(d, a, Front(b));
    }
  }

  // ---------------------------------------------------------------- directories that ids can name

  /** No directory along the log, replayed from `d`, has more entries than ids can name; the last id stands for none. */
  ghost predicate SmallDirs(d: Dir, log: Log) {
    forall n :: 0 <= n <= |log| ==> |Replay(d, log[..n])| < 0x400
  }

  lemma SmallDirsFrom(d: Dir, a: Log, b: Log)
    requires SmallDirs(d, a + b)
    ensures SmallDirs(Replay(d, a), b)
  {
    hide Replay;
    forall n | 0 <= n <= |b|
      ensures |Replay(Replay(d, a), b[..n])| < 0x400
    {
      ReplayConcat(d, a, b[..n]);
      assert (a + b)[..|a| + n] == a + b[..n];
      assert |Replay(d, (a + b)[..|a| + n])| < 0x400;
    }
  }

  lemma SmallDirsTail(d: Dir, u: Tag, rest: Log)
    requires SmallDirs(d, [u] + rest)
    ensures SmallDirs(Apply(d, u), rest) && |d| < 0x400
  {
    assert ([u] + rest)[..0] == [] && |Replay(d, ([u] + rest)[..0])| < 0x400;
    SmallDirsFrom(d, [u], rest);
    assert Replay(d, [u]) == Apply(d, u) by { Snoc([], u); }
  }

  ghost predicate NoSplices(log: Log) {
    forall i :: 0 <= i < |log| ==> log[i].kind != TYPE_CREATE && log[i].kind != TYPE_DELETE
  }

  /** The tag creates an entry that exists or is the next one, or names one that exists. */
  predicate Names(d: Dir, t: Tag) {
    if t.kind == TYPE_CREATE then t.id <= |d| else t.kind == TYPE_DELETE || t.IsAttr() ==> t.id < |d|
  }

  /** Every tag names an entry that exists, except that entries come in any order until the first splice, as a
      compaction leaves them. */
  ghost predicate Named(log: Log) {
    log == [] || (Named(Front(log)) && (NoSplices(log) || Names(Replay([], Front(log)), Last(log))))
  }

  // ---------------------------------------------------------------- layout

  /** The word the next tag is xored with: after a CRC tag with an odd chunk its top bit is flipped. */
  function NextKey(t: Tag): (w: TagWord)
    requires t.Valid()
    ensures w % TOP_BIT == t.Word()
  {
    if KindType1(t.kind) == TYPE_CRC && t.kind % 2 == 1 then FlipTop(t.Word()) else t.Word()
  }

  function LastKey(key: TagWord, log: Log): TagWord
    requires ValidLog(log)
  {
    if log == [] then key else NextKey(Last(log))
  }

  function EncodeTag(key: TagWord, t: Tag): (s: seq<byte>)
    requires t.Valid()
    ensures |s| == 4 + |t.data|
  {
    Be32(XorWord(t.Word(), key)) + t.data
  }

  function Encode(key: TagWord, log: Log): seq<byte>
    requires ValidLog(log)
  {
    if log == [] then []
    else Encode(key, Front(log)) + EncodeTag(LastKey(key, Front(log)), Last(log))
  }

  function LogSize(log: Log): nat {
    if log == [] then 0 else LogSize(Front(log)) + 4 + |Last(log).data|
  }

  lemma EncodeSnoc(key: TagWord, log: Log, t: Tag)
    requires ValidLog(log) && t.Valid() && t.PlainSplice()
    ensures ValidLog(log + [t])
    ensures Encode(key, log + [t]) == Encode(key, log) + EncodeTag(LastKey(key, log), t)
    ensures LastKey(key, log + [t]) == NextKey(t)
    ensures LogSize(log + [t]) == LogSize(log) + 4 + |t.data|
  {
    Snoc(log, t);
  }

  lemma {:induction false} EncodeSize(key: TagWord, log: Log)
    requires ValidLog(log)
    ensures |Encode(key, log)| == LogSize(log)
  {
    if log != [] { EncodeSize(key, Front(log)); }
  }

  lemma {:induction false} EncodeConcat(key: TagWord, a: Log, b: Log)
    requires ValidLog(a) && ValidLog(b)
    ensures ValidLog(a + b)
    ensures Encode(key, a + b) == Encode(key, a) + Encode(LastKey(key, a), b)
    ensures LastKey(key, a + b) == LastKey(LastKey(key, a), b)
    ensures LogSize(a + b) == LogSize(a) + LogSize(b)
    decreases |b|
  {
    if b == [] {
      Neutral(a);
      Neutral(Encode(key, a));
    } else {
      AppendFront(a, b);
      var b' := Front(b);
      EncodeConcat(key, a, b');
      Assoc(Encode(key, a), Encode(LastKey(key, a), b'), EncodeTag(LastKey(key, a + b'), Last(b)));
    }
  }

  const HEADER_SIZE := 4

  /** `block` holds a revision word and then `log`, ending at `end`. */
  ghost predicate Holds(block: seq<byte>, log: Log, end: nat) {
    ValidLog(log) && end == HEADER_SIZE + LogSize(log) && end <= |block|
    && block[HEADER_SIZE..end] == Encode(BLOCK_NULL, log)
  }

  function TagOffset(log: Log, i: nat): nat
    requires i <= |log|
  {
    HEADER_SIZE + LogSize(log[..i])
  }

  /** Where tag i of a stored log lies, and the bytes stored there. */
  lemma TagBytes(block: seq<byte>, log: Log, end: nat, i: nat)
    requires Holds(block, log, end) && i < |log|
    ensures ValidLog(log[..i])
    ensures TagOffset(log, i + 1) == TagOffset(log, i) + 4 + |log[i].data| <= end
    ensures var o := TagOffset(log, i);
            && block[o..o + 4] == Be32(XorWord(log[i].Word(), LastKey(BLOCK_NULL, log[..i])))
            && block[o + 4..o + 4 + |log[i].data|] == log[i].data
  {
    hide Be32, XorWord, NextKey, LastKey, Encode;
    var a, t, b := log[..i], log[i], log[i + 1..];
    var x, y := Encode(BLOCK_NULL, a), Be32(XorWord(t.Word(), LastKey(BLOCK_NULL, a)));
    SplitAt(log, i);
    EncodeSnoc(BLOCK_NULL, a, t);
    EncodeConcat(BLOCK_NULL, a + [t], b);
    EncodeSize(BLOCK_NULL, a);
    PiecesAt(block, HEADER_SIZE, end, x, y, t.data, Encode(LastKey(BLOCK_NULL, a + [t]), b), TagOffset(log, i), 4);
  }

  /** What is read where tag i of a stored log lies. */
  lemma ReadTag(block: seq<byte>, log: Log, end: nat, i: nat)
    requires Holds(block, log, end) && i < |log|
    ensures ValidLog(log[..i])
    ensures TagOffset(log, i + 1) == TagOffset(log, i) + 4 + |log[i].data| <= end
    ensures var o := TagOffset(log, i);
            && FromBe32(block[o..o + 4]) == XorWord(log[i].Word(), LastKey(BLOCK_NULL, log[..i]))
            && block[o + 4..o + 4 + |log[i].data|] == log[i].data
  {
    TagBytes(block, log, end, i);
    WordRoundTrip(XorWord(log[i].Word(), LastKey(BLOCK_NULL, log[..i])));
  }

  /** The forward reader: xoring with the previous tag, whatever its valid bit, gives the tag back up to that bit. */
  lemma DecodeForward(word: TagWord, key: TagWord, w: TagWord, prev: TagWord)
    requires word == XorWord(w, key)
    requires prev % TOP_BIT == key % TOP_BIT
    ensures XorWord(word, prev) % TOP_BIT == w % TOP_BIT
    ensures prev == key ==> XorWord(word, prev) == w
  {
    WordSizes();
    XorCancel(w, key);
    XorLow(word, prev, 31);
    XorLow(word, key, 31);
  }

  /** The backward reader: xoring with the tag itself gives the key its predecessor left, up to the valid bit. */
  lemma DecodeBackward(word: TagWord, key: TagWord, w: TagWord, tag: TagWord)
    requires word == XorWord(w, key)
    requires tag % TOP_BIT == w % TOP_BIT
    ensures XorWord(word, tag) % TOP_BIT == key % TOP_BIT
  {
    XorComm(w, key);
    DecodeForward(word, w, key, tag);
  }
}
