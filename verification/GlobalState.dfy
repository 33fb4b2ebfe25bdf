/** The global state, kept as the exclusive-or of what all directories store: pending moves and the orphan flag. */
module GlobalState {
  import Words
  import opened Sequences
  import opened Crc32
  import Tags
  import MetadataLog
  import Compaction

  /** The type and id of a move, the part of a tag above its size and below its top bit. */
  type Field = m: nat | m < 0x20_0000

  /** An entry's id, 0x3ff for none. */
  type Id = i: nat | i < 0x400

  /** struct lfs_gstate, its tag word split into the three fields the code masks out: the top bit, set when there are
      orphans, the type and id of a move, and the lower ten bits, the number of orphans. */
  datatype GState = GState(flag: bool, move: Field, count: nat, p0: bv32, p1: bv32)

  const ZERO := GState(false, 0, 0, 0, 0)

  // ---------------------------------------------------------------- the algebra of exclusive-or

  lemma FieldSize()
    ensures Words.Exp2(21) == 0x20_0000
  {
    assert Words.Exp2(10) == 0x400;
    assert Words.Exp2(20) == 0x10_0000;
  }

  function Xor21(a: Field, b: Field): Field {
    FieldSize();
    Words.XorBound(a, b, 21);
    Words.Xor(a, b)
  }

  lemma Assoc21(a: Field, b: Field, c: Field)
    ensures Xor21(Xor21(a, b), c) == Xor21(a, Xor21(b, c))
  {
    hide Words.Xor;
    Words.XorAssoc(a, b, c);
  }

  lemma Comm21(a: Field, b: Field)
    ensures Xor21(a, b) == Xor21(b, a)
  {
    hide Words.Xor;
    Words.XorComm(a, b);
  }

  lemma Zero21(a: Field)
    ensures Xor21(a, 0) == a && Xor21(a, a) == 0
  {
    hide Words.Xor;
    Words.XorZero(a);
    Words.XorCancel(0, a);
    Words.XorComm(0, a);
  }

  /** lfs_gstate_xor */
  function GXor(a: GState, b: GState): GState {
    GState(a.flag != b.flag, Xor21(a.move, b.move), Words.Xor(a.count, b.count), Xor32(a.p0, b.p0), Xor32(a.p1, b.p1))
  }

  lemma GAssoc(a: GState, b: GState, c: GState)
    ensures GXor(GXor(a, b), c) == GXor(a, GXor(b, c))
  {
    hide Xor32, Xor21, Words.Xor;
    Assoc21(a.move, b.move, c.move);
    Words.XorAssoc(a.count, b.count, c.count);
    XorAssoc(a.p0, b.p0, c.p0);
    XorAssoc(a.p1, b.p1, c.p1);
  }

  lemma GComm(a: GState, b: GState)
    ensures GXor(a, b) == GXor(b, a)
  {
    hide Xor32, Xor21, Words.Xor;
    Comm21(a.move, b.move);
    Words.XorComm(a.count, b.count);
    XorComm32(a.p0, b.p0);
    XorComm32(a.p1, b.p1);
  }

  lemma GZero(a: GState)
    ensures GXor(a, ZERO) == a && GXor(a, a) == ZERO
  {
    hide Xor32, Xor21, Words.Xor;
    Zero21(a.move);
    Words.XorZero(a.count);
    Words.XorCancel(0, a.count);
    Words.XorComm(0, a.count);
    XorZero32(a.p0);
    XorZero32(a.p1);
    XorSelf(a.p0);
    XorSelf(a.p1);
  }

  lemma GBack(a: GState, b: GState)
    ensures GXor(GXor(a, b), b) == a
  {
    hide GXor;
    GAssoc(a, b, b);
    GZero(b);
    GZero(a);
  }

  lemma GSwap(a: GState, b: GState, c: GState)
    ensures GXor(GXor(a, b), c) == GXor(GXor(a, c), b)
  {
    hide GXor;
    GAssoc(a, b, c);
    GComm(b, c);
    GAssoc(a, c, b);
  }

  lemma GCancel(a: GState, b: GState)
    ensures GXor(a, b) == a <==> b == ZERO
  {
    hide GXor;
    GZero(a);
    GComm(a, b);
    GBack(b, a);
  }

  /** What all directories store together. */
  function XorAll(disk: seq<GState>): GState {
    if disk == [] then ZERO else GXor(XorAll(Front(disk)), Last(disk))
  }

  lemma {:induction false} XorAllUpdate(disk: seq<GState>, i: nat, x: GState)
    requires i < |disk|
    ensures XorAll(disk[i := x]) == GXor(GXor(XorAll(disk), disk[i]), x)
    decreases |disk|
  {
    hide GXor;
    var disk' := disk[i := x];
    if i == |disk| - 1 {
      assert Front(disk') == Front(disk);
      GBack(XorAll(Front(disk)), disk[i]);
    } else {
      assert Front(disk') == Front(disk)[i := x];
      XorAllUpdate(Front(disk), i, x);
      GSwap(GXor(XorAll(Front(disk)), disk[i]), x, Last(disk));
      GSwap(XorAll(Front(disk)), disk[i], Last(disk));
    }
  }

  function Without(disk: seq<GState>, i: nat): seq<GState>
    requires i < |disk|
  {
    disk[..i] + disk[i + 1..]
  }

  lemma {:induction false} XorAllRemove(disk: seq<GState>, i: nat)
    requires i < |disk|
    ensures XorAll(Without(disk, i)) == GXor(XorAll(disk), disk[i])
    decreases |disk|
  {
    hide GXor;
    if i == |disk| - 1 {
      assert Without(disk, i) == Front(disk);
      GBack(XorAll(Front(disk)), disk[i]);
    } else {
      assert Front(Without(disk, i)) == Without(Front(disk), i);
      XorAllRemove(Front(disk), i);
      GSwap(XorAll(Front(disk)), disk[i], Last(disk));
    }
  }

  // ---------------------------------------------------------------- the operations on states

  /** The state without the orphan count, which is never stored. */
  function Strip(g: GState): GState { g.(count := 0) }

  lemma StripXor(a: GState, b: GState)
    requires b.count == 0
    ensures Strip(GXor(a, b)) == GXor(Strip(a), b)
  {
    hide Xor32, Xor21;
  }

  predicate SamePair(a0: bv32, a1: bv32, b0: bv32, b1: bv32) {
    a0 == b0 || a1 == b1 || a0 == b1 || a1 == b0
  }

  /** The tag word of a state without orphans. */
  function MoveWord(g: GState): (w: Tags.TagWord)
    ensures w < Words.TOP_BIT && w % 0x400 == 0
  {
    g.move * 0x400
  }

  predicate HasMove(g: GState) { Tags.Type1(MoveWord(g)) != 0 }

  predicate HasMoveHere(g: GState, p0: bv32, p1: bv32) { HasMove(g) && SamePair(g.p0, g.p1, p0, p1) }

  /** What is recorded for a move of this id: a deletion tag, or nothing for the id 0x3ff. */
  function MoveTag(id: Id): Field {
    if id == 0x3ff then 0 else Tags.MkTag(Tags.TYPE_DELETE, id, 0) / 0x400
  }

  function MovePart(id: Id, p: bv32): bv32 { if id == 0x3ff then 0 else p }

  /** lfs_gstate_xormove */
  function XorMove(a: GState, b: GState, id: Id, p0: bv32, p1: bv32): GState {
    a.(move := Xor21(a.move, Xor21(b.move, MoveTag(id))),
       p0 := Xor32(a.p0, Xor32(b.p0, MovePart(id, p0))), p1 := Xor32(a.p1, Xor32(b.p1, MovePart(id, p1))))
  }

  /** lfs_gstate_xororphans */
  function XorOrphans(a: GState, b: GState, orphans: bool): GState {
    a.(flag := a.flag != (b.flag != orphans))
  }

  /** The change lfs_gstate_xormove makes does not depend on the state it changes. */
  function MoveDelta(b: GState, id: Id, p0: bv32, p1: bv32): GState {
    GState(false, Xor21(b.move, MoveTag(id)), 0, Xor32(b.p0, MovePart(id, p0)), Xor32(b.p1, MovePart(id, p1)))
  }

  lemma MoveIsDelta(a: GState, b: GState, id: Id, p0: bv32, p1: bv32)
    ensures XorMove(a, b, id, p0, p1) == GXor(a, MoveDelta(b, id, p0, p1))
  {
    hide Xor21, Xor32, Words.Xor, MoveTag, MovePart;
    Words.XorZero(a.count);
  }

  lemma OrphanIsDelta(a: GState, b: GState, orphans: bool)
    ensures XorOrphans(a, b, orphans) == GXor(a, ZERO.(flag := b.flag != orphans))
  {
    hide Xor21, Xor32, Words.Xor;
    Words.XorZero(a.count);
    Zero21(a.move);
    XorZero32(a.p0);
    XorZero32(a.p1);
  }

  /** After lfs_gstate_xormove of a state with itself it records exactly that move, or none. */
  lemma MoveRecorded(g: GState, id: Id, p0: bv32, p1: bv32)
    ensures XorMove(g, g, id, p0, p1) == g.(move := MoveTag(id), p0 := MovePart(id, p0), p1 := MovePart(id, p1))
  {
    hide Xor21, Xor32, MoveTag, MovePart;
    Assoc21(g.move, g.move, MoveTag(id));
    Zero21(g.move);
    Comm21(0, MoveTag(id));
    Zero21(MoveTag(id));
    Undo32(g.p0, MovePart(id, p0));
    Undo32(g.p1, MovePart(id, p1));
  }

  lemma Undo32(a: bv32, b: bv32)
    ensures Xor32(a, Xor32(a, b)) == b
  {
    hide Xor32;
    XorAssoc(a, a, b);
    XorSelf(a);
    XorZero32(b);
  }

  /** A recorded move is a real change. */
  lemma MoveIsSomething(g: GState)
    requires HasMove(g)
    ensures MoveDelta(g, 0x3ff, 0, 0) != ZERO
  {
    hide Xor32, Xor21;
    Zero21(g.move);
  }

  /** What is recorded for an entry is the tag that deletes it: the id can be read back, the type is that of a deletion,
      and it is recognised as a move; for the id 0x3ff nothing is. */
  lemma MoveTagDeletes(g: GState, id: Id)
    requires g.move == MoveTag(id)
    ensures HasMove(g) <==> id != 0x3ff
    ensures id != 0x3ff ==> MoveWord(g) == Tags.MkTag(Tags.TYPE_DELETE, id, 0)
                            && Tags.Id(MoveWord(g)) == id && Tags.Type3(MoveWord(g)) == 0x4ff && Tags.Size(MoveWord(g)) == 0
  {
    if id != 0x3ff {
      hide Tags.Type3, Tags.Id, Tags.Size, Tags.DSize;
      var w := Tags.MkTag(Tags.TYPE_DELETE, id, 0);
      assert w == (0x4ff * 0x400 + id) * 0x400;
      Words.ModUnique(w, 0x400, 0x4ff * 0x400 + id, 0);
      Words.ModUnique(w, Words.TOP_BIT, 0, w);
      Tags.FieldsOfMkTag(Tags.TYPE_DELETE, id, 0, w);
    }
  }

  /** Different entries are recorded differently. */
  lemma MoveTagInjective(id: Id, other: Id)
    requires MoveTag(id) == MoveTag(other)
    ensures id == other
  {
    hide Tags.MkTag, Tags.Id, Tags.Type1, Tags.Type3, Tags.Size, MoveTag, MoveWord;
    var g := ZERO.(move := MoveTag(id));
    MoveTagDeletes(g, id);
    MoveTagDeletes(g, other);
  }

  /** What the directory at this pair is to be read as while the state is in use: with the moved entry deleted. */
  function PendingMove(g: GState, p0: bv32, p1: bv32): (move: MetadataLog.Log) {
    if HasMoveHere(g, p0, p1) then [MetadataLog.Tag(Tags.Type3(MoveWord(g)), Tags.Id(MoveWord(g)), 0, [])] else []
  }

  /** Pairs are the same if they have a block in common. */
  lemma SamePairMeans(a0: bv32, a1: bv32, b0: bv32, b1: bv32)
    ensures SamePair(a0, a1, b0, b1) <==> {a0, a1} * {b0, b1} != {}
  {
    var both := {a0, a1} * {b0, b1};
    if SamePair(a0, a1, b0, b1) {
      var b := if a0 == b0 || a0 == b1 then a0 else a1;
      assert b in both;
    } else {
      assert both == {};
    }
  }

  /** After a move out of a directory has been recorded, that directory, and no other, loses the entry at its next commit:
      this is the deletion a compaction or an in-place commit adds (Compaction.MoveLog). */
  lemma MoveMeansDeletion(g: GState, id: Id, p0: bv32, p1: bv32)
    requires g.move == MoveTag(id) && g.p0 == MovePart(id, p0) && g.p1 == MovePart(id, p1)
    ensures forall q0, q1 :: PendingMove(g, q0, q1) ==
              if id != 0x3ff && {p0, p1} * {q0, q1} != {} then [MetadataLog.Tag(0x4ff, id, 0, [])] else []
    ensures forall q0, q1 :: Compaction.MoveLog(PendingMove(g, q0, q1))
    ensures g.move == if id == 0x3ff then 0 else 0x4ff * 0x400 + id
  {
    hide Tags.Type1, Tags.Type3, Tags.Id, Tags.Size, MoveWord, SamePair;
    MoveTagDeletes(g, id);
    forall q0: bv32, q1: bv32
      ensures SamePair(p0, p1, q0, q1) <==> {p0, p1} * {q0, q1} != {}
    {
      SamePairMeans(p0, p1, q0, q1);
    }
  }

  // ---------------------------------------------------------------- conservation

  /** What a mount would read, with the change that is still only in memory, is the state in use. */
  ghost predicate Conserved(pending: GState, delta: GState, disk: seq<GState>) {
    Strip(pending) == GXor(XorAll(disk), delta)
  }

  /** Changing the state and the unwritten change alike keeps them in step. */
  lemma BothChange(pending: GState, delta: GState, disk: seq<GState>, d: GState)
    requires Conserved(pending, delta, disk) && d.count == 0
    ensures Conserved(GXor(pending, d), GXor(delta, d), disk)
  {
    hide GXor;
    StripXor(pending, d);
    GAssoc(XorAll(disk), delta, d);
  }

  /** Writing the unwritten change on top of what a directory stored puts it on disk. */
  lemma ChangeWritten(pending: GState, delta: GState, disk: seq<GState>, i: nat)
    requires Conserved(pending, delta, disk) && i < |disk|
    ensures Conserved(pending, ZERO, disk[i := GXor(delta, disk[i])])
  {
    hide GXor;
    var x, s := disk[i], XorAll(disk);
    XorAllUpdate(disk, i, GXor(delta, x));
    GComm(delta, x);
    GAssoc(GXor(s, x), x, delta);
    GBack(s, x);
    GZero(GXor(s, delta));
  }

  /** Merging it a second time loses what the directory stored: right only if it stored nothing. */
  lemma ChangeWrittenTwice(pending: GState, delta: GState, disk: seq<GState>, i: nat)
    requires Conserved(pending, delta, disk) && i < |disk|
    ensures Conserved(pending, ZERO, disk[i := GXor(GXor(delta, disk[i]), disk[i])]) <==> disk[i] == ZERO
  {
    hide GXor;
    var x, s := disk[i], XorAll(disk);
    GBack(delta, x);
    XorAllUpdate(disk, i, delta);
    GSwap(s, x, delta);
    GZero(GXor(GXor(s, x), delta));
    GCancel(GXor(s, delta), x);
  }

  /** Then the disk is off by what the directory stored. */
  lemma ShareLost(pending: GState, delta: GState, disk: seq<GState>, i: nat)
    requires Conserved(pending, delta, disk) && i < |disk| && disk[i].count == 0
    ensures Conserved(GXor(pending, disk[i]), ZERO, disk[i := GXor(GXor(delta, disk[i]), disk[i])])
  {
    hide GXor;
    var x, s := disk[i], XorAll(disk);
    GBack(delta, x);
    XorAllUpdate(disk, i, delta);
    GSwap(s, x, delta);
    StripXor(pending, x);
    GZero(GXor(GXor(s, x), delta));
  }

  /** Taking over what a dropped directory stored. */
  lemma DirectoryDropped(pending: GState, delta: GState, disk: seq<GState>, i: nat)
    requires Conserved(pending, delta, disk) && i < |disk|
    ensures Conserved(pending, GXor(delta, disk[i]), Without(disk, i))
  {
    hide GXor;
    var x, s := disk[i], XorAll(disk);
    XorAllRemove(disk, i);
    GComm(delta, x);
    GAssoc(GXor(s, x), x, delta);
    GBack(s, x);
  }

  // ---------------------------------------------------------------- the file system's states

  /** How a commit reaches the disk: appended to the log, by compacting, or by compacting after appending had merged
      the unwritten change with the directory's own and then failed. */
  datatype Way = InPlace | Compact | FallBack

  /** What changes the state. */
  datatype Action =
    | Moves(id: Id, p0: bv32, p1: bv32)
    | Orphans(n: int)
    | Commits(i: nat, p0: bv32, p1: bv32, way: Way)
    | Drops(tail: nat, k: nat, q0: bv32, q1: bv32, way: Way)
    | Empties(i: nat, p0: bv32, p1: bv32, k: nat, q0: bv32, q1: bv32, way: Way)
    | Mounts

  class FileSystem {
    var gstate: GState
    var gpending: GState
    var gdelta: GState
    /** What each directory block pair in the tail list stores, the zero state for nothing. */
    var disk: seq<GState>

    ghost predicate Valid()
      reads this
    {
      Conserved(gpending, gdelta, disk) && Plain() && gpending.count < 0x400 && (gpending.flag <==> gpending.count > 0)
    }

    /** The orphan count is kept in memory only. */
    ghost predicate Plain()
      reads this
    {
      gdelta.count == 0 && forall j :: 0 <= j < |disk| ==> disk[j].count == 0
    }

    /** lfs_fs_prepmove */
    method PrepMove(id: Id, p0: bv32, p1: bv32)
      requires Valid()
      modifies `gdelta, `gpending
      ensures Valid() && gpending == old(gpending).(move := gpending.move, p0 := gpending.p0, p1 := gpending.p1)
      ensures gpending.p0 == (if id == 0x3ff then 0 else p0) && gpending.p1 == (if id == 0x3ff then 0 else p1)
      ensures gpending.move == (if id == 0x3ff then 0 else 0x4ff * 0x400 + id)
      ensures forall q0, q1 :: PendingMove(gpending, q0, q1) ==
                if id != 0x3ff && {p0, p1} * {q0, q1} != {} then [MetadataLog.Tag(0x4ff, id, 0, [])] else []
    {
      hide GXor, XorMove, XorAll, Xor21, Xor32, HasMoveHere, PendingMove;
      ghost var d := MoveDelta(gpending, id, p0, p1);
      MoveIsDelta(gdelta, gpending, id, p0, p1);
      MoveIsDelta(gpending, gpending, id, p0, p1);
      MoveRecorded(gpending, id, p0, p1);
      CountXor(gdelta, d);
      BothChange(gpending, gdelta, disk, d);
      gdelta := XorMove(gdelta, gpending, id, p0, p1);
      gpending := XorMove(gpending, gpending, id, p0, p1);
      MoveMeansDeletion(gpending, id, p0, p1);
    }

    /** lfs_fs_preporphans, for as long as the number of orphans stays in its ten bits. */
    method PrepOrphans(orphans: int)
      requires Valid() && 0 <= gpending.count + orphans < 0x400
      modifies `gdelta, `gpending
      ensures Valid() && gpending.count == old(gpending.count) + orphans
      ensures gpending == old(gpending).(count := gpending.count, flag := gpending.flag)
    {
      hide GXor, XorAll;
      gpending := gpending.(count := gpending.count + orphans);
      ghost var d := ZERO.(flag := gpending.flag != (gpending.count > 0));
      OrphanIsDelta(gdelta, gpending, gpending.count > 0);
      OrphanIsDelta(gpending, gpending, gpending.count > 0);
      BothChange(gpending, gdelta, disk, d);
      gdelta := XorOrphans(gdelta, gpending, gpending.count > 0);
      gpending := XorOrphans(gpending, gpending, gpending.count > 0);
    }

    /** The start of lfs_dir_commit: a pending move out of this directory is about to be fixed. */
    method MarkMove(p0: bv32, p1: bv32)
      modifies `gdelta
      ensures gdelta == GXor(old(gdelta), Fix(p0, p1))
      ensures old(Plain()) ==> Plain()
    {
      hide GXor, MoveDelta, HasMoveHere;
      GZero(gdelta);
      if gdelta.count == 0 { CountXor(gdelta, Fix(p0, p1)); }
      if HasMoveHere(gpending, p0, p1) {
        MoveIsDelta(gdelta, gpending, 0x3ff, 0, 0);
        gdelta := XorMove(gdelta, gpending, 0x3ff, 0, 0);
      }
    }

    /** The end of a successful commit. */
    method Done(p0: bv32, p1: bv32)
      modifies `gdelta, `gpending, `gstate
      ensures gstate == gpending && gdelta == ZERO
      ensures gpending == GXor(old(gpending), old(Fix(p0, p1)))
      ensures gpending == if HasMoveHere(old(gpending), p0, p1) then old(gpending).(move := 0, p0 := 0, p1 := 0) else old(gpending)
    {
      hide GXor, MoveDelta, HasMoveHere;
      GZero(gpending);
      ClearIsDelta(gpending);
      if HasMoveHere(gpending, p0, p1) {
        MoveIsDelta(gpending, gpending, 0x3ff, 0, 0);
        gpending := XorMove(gpending, gpending, 0x3ff, 0, 0);
      }
      gstate := gpending;
      gdelta := ZERO;
    }

    /** Writing the unwritten change into directory i, on any of the ways a commit can take. */
    method Store(i: nat, way: Way)
      requires i < |disk| && Plain()
      modifies `gdelta, `disk
      ensures Plain()
      ensures |disk| == |old(disk)| && forall j :: 0 <= j < |disk| && j != i ==> disk[j] == old(disk)[j]
      ensures disk == old(disk)[i := if way == FallBack && old(gdelta) != ZERO
                                     then GXor(GXor(old(gdelta), old(disk)[i]), old(disk)[i])
                                     else GXor(old(gdelta), old(disk)[i])]
    {
      hide GXor;
      GComm(ZERO, disk[i]);
      GZero(disk[i]);
      CountXor(gdelta, disk[i]);
      CountXor(GXor(gdelta, disk[i]), disk[i]);
      if way == InPlace {
        // nothing is written for a zero change
        if gdelta != ZERO {
          gdelta := GXor(gdelta, disk[i]);
          disk := disk[i := gdelta];
        }
      } else {
        if way == FallBack && gdelta != ZERO {
          gdelta := GXor(gdelta, disk[i]);
        }
        gdelta := GXor(gdelta, disk[i]);
        disk := disk[i := gdelta];
      }
    }

    /** The change that MarkMove and Done make to the state. */
    function Fix(p0: bv32, p1: bv32): (d: GState)
      reads `gpending
      ensures d.count == 0
    {
      if HasMoveHere(gpending, p0, p1) then MoveDelta(gpending, 0x3ff, 0, 0) else ZERO
    }

    /** lfs_dir_commit into directory i, stored at the pair p0, p1. What is conserved stays conserved unless the commit
        fell back to compaction with the change already merged, on a directory that stored something. */
    method Commit(i: nat, p0: bv32, p1: bv32, way: Way)
      requires Valid() && i < |disk|
      modifies this
      ensures Valid() <==> !(way == FallBack && GXor(old(gdelta), old(Fix(p0, p1))) != ZERO && old(disk)[i] != ZERO)
      ensures gdelta == ZERO && gstate == gpending
      ensures gpending == if HasMoveHere(old(gpending), p0, p1) then old(gpending).(move := 0, p0 := 0, p1 := 0) else old(gpending)
      ensures |disk| == |old(disk)| && forall j :: 0 <= j < |disk| && j != i ==> disk[j] == old(disk)[j]
    {
      hide GXor, XorAll, Fix, HasMoveHere, Conserved;
      ghost var d := Fix(p0, p1);
      BothChange(gpending, gdelta, disk, d);
      MarkMove(p0, p1);
      ChangeWritten(GXor(gpending, d), gdelta, disk, i);
      ChangeWrittenTwice(GXor(gpending, d), gdelta, disk, i);
      Store(i, way);
      Done(p0, p1);
    }

    /** lfs_dir_drop: directory `tail` leaves the list, its predecessor k takes over what it stored; what the commit of
        the predecessor loses, the disk is off by. */
    method Drop(tail: nat, k: nat, q0: bv32, q1: bv32, way: Way)
      requires Plain() && tail < |disk| && k < |disk| && k != tail
      modifies this
      ensures Plain() && gdelta == ZERO && gstate == gpending && |disk| == |old(disk)| - 1
      ensures gpending == GXor(old(gpending), old(Fix(q0, q1)))
      ensures gpending.flag == old(gpending.flag) && gpending.count == old(gpending.count)
      ensures forall g :: Conserved(g, old(gdelta), old(disk)) ==>
                            Conserved(GXor(GXor(g, old(Fix(q0, q1))), old(DropLoss(gdelta, tail, k, q0, q1, way))), ZERO, disk)
    {
      hide GXor, XorAll, Fix, HasMoveHere, Conserved, Strip;
      ghost var d, delta0, disk0, loss := Fix(q0, q1), gdelta, disk, DropLoss(gdelta, tail, k, q0, q1, way);
      CountXor(gdelta, disk[tail]);
      gdelta := GXor(gdelta, disk[tail]);
      disk := disk[..tail] + disk[tail + 1..];
      ghost var delta1, disk1 := gdelta, disk;
      MarkMove(q0, q1);
      var at := if k < tail then k else k - 1;
      assert disk1[at] == disk0[k];
      Store(at, way);
      Done(q0, q1);
      forall g | Conserved(g, delta0, disk0)
        ensures Conserved(GXor(GXor(g, d), loss), ZERO, disk)
      {
        DirectoryDropped(g, delta0, disk0, tail);
        BothChange(g, delta1, disk1, d);
        GZero(GXor(g, d));
        if loss == ZERO {
          DropKeeps(GXor(g, d), GXor(delta1, d), disk1, at, way);
        } else {
          ShareLost(GXor(g, d), GXor(delta1, d), disk1, at);
        }
      }
    }

    /** What a commit of directory i loses of the sum when it merges the directory's share twice. */
    function Loss(delta: GState, share: GState, way: Way): GState {
      if way == FallBack && delta != ZERO then share else ZERO
    }

    function DropLoss(delta: GState, tail: nat, k: nat, q0: bv32, q1: bv32, way: Way): GState
      requires tail < |disk| && k < |disk|
      reads this
    {
      Loss(GXor(GXor(delta, disk[tail]), Fix(q0, q1)), disk[k], way)
    }

    /** A commit that loses nothing, because it merges the share once or the share is nothing. */
    lemma DropKeeps(pending: GState, delta: GState, disk1: seq<GState>, at: nat, way: Way)
      requires Conserved(pending, delta, disk1) && at < |disk1| && Loss(delta, disk1[at], way) == ZERO
      ensures Conserved(pending, ZERO, disk1[at := if way == FallBack && delta != ZERO
                                                   then GXor(GXor(delta, disk1[at]), disk1[at]) else GXor(delta, disk1[at])])
    {
      hide GXor, XorAll, Conserved;
      ChangeWritten(pending, delta, disk1, at);
      ChangeWrittenTwice(pending, delta, disk1, at);
    }

    /** lfs_dir_drop as lfs_remove and lfs_rename call it. */
    method DropDirectory(tail: nat, k: nat, q0: bv32, q1: bv32, way: Way)
      requires Valid() && tail < |disk| && k < |disk| && k != tail
      modifies this
      ensures Valid() <==> old(DropLoss(gdelta, tail, k, q0, q1, way)) == ZERO
      ensures gdelta == ZERO && gstate == gpending && |disk| == |old(disk)| - 1
    {
      hide GXor, XorAll, Fix, Conserved;
      ghost var loss := DropLoss(gdelta, tail, k, q0, q1, way);
      Drop(tail, k, q0, q1, way);
      GZero(gpending);
      if loss != ZERO { NotBoth(gpending, loss, disk); }
    }

    /** The path of lfs_dir_commit that drops the directory because its last entry goes. A move pending in it is cleared
        on disk and stays in memory; together with what the predecessor's commit loses, that must come to nothing. */
    method CommitByDropping(i: nat, p0: bv32, p1: bv32, k: nat, q0: bv32, q1: bv32, way: Way)
      requires Valid() && i < |disk| && k < |disk| && k != i
      modifies this
      ensures Valid() <==> old(EmptyingLoss(i, p0, p1, k, q0, q1, way)) == ZERO
      ensures way != FallBack ==> (Valid() <==> !HasMoveHere(old(gpending), p0, p1))
      ensures gdelta == ZERO && gstate == gpending && |disk| == |old(disk)| - 1
    {
      hide GXor, XorAll, Fix, Conserved, HasMoveHere, Loss;
      ghost var d, e, g := Fix(p0, p1), Fix(q0, q1), gpending;
      ghost var loss := DropLoss(GXor(gdelta, d), i, k, q0, q1, way);
      BothChange(gpending, gdelta, disk, d);
      MoveStays(i, p0, p1, k, q0, q1, way);
      MarkMove(p0, p1);
      Drop(i, k, q0, q1, way);
      TwoLosses(g, d, e, loss, disk);
    }

    /** With a predecessor whose commit loses nothing, only a move pending here is lost. */
    lemma MoveStays(i: nat, p0: bv32, p1: bv32, k: nat, q0: bv32, q1: bv32, way: Way)
      requires i < |disk| && k < |disk|
      ensures way != FallBack ==> (EmptyingLoss(i, p0, p1, k, q0, q1, way) == ZERO <==> !HasMoveHere(gpending, p0, p1))
      ensures disk[k].count == 0 ==> DropLoss(GXor(gdelta, Fix(p0, p1)), i, k, q0, q1, way).count == 0
    {
      hide GXor, MoveDelta, HasMoveHere;
      GZero(Fix(p0, p1));
      if HasMoveHere(gpending, p0, p1) { HereIsSomething(gpending, p0, p1); }
    }

    function EmptyingLoss(i: nat, p0: bv32, p1: bv32, k: nat, q0: bv32, q1: bv32, way: Way): GState
      requires i < |disk| && k < |disk|
      reads this
    {
      GXor(Fix(p0, p1), DropLoss(GXor(gdelta, Fix(p0, p1)), i, k, q0, q1, way))
    }

    /** lfs_mount: the state is read back from all directories. */
    method Mount()
      requires Plain()
      modifies `gstate, `gpending, `gdelta
      ensures gstate == gpending && gdelta == ZERO
      ensures Strip(gpending) == XorAll(disk) && gpending.count == (if XorAll(disk).flag then 1 else 0)
      ensures Valid()
    {
      hide GXor, XorAll;
      gpending, gdelta := ZERO, ZERO;
      NothingStored();
      for j := 0 to |disk|
        invariant gpending == XorAll(disk[..j]) && gpending.count == 0 && gdelta == ZERO
      {
        SplitAt(disk, j);
        StoredNext(disk[..j], disk[j]);
        gpending := GXor(gpending, disk[j]);
      }
      assert disk[..|disk|] == disk;
      if gpending.flag {
        gpending := gpending.(count := gpending.count + 1);
      }
      gstate := gpending;
      GZero(XorAll(disk));
    }

    /** The operation can take place. */
    predicate Enabled(a: Action)
      reads this
    {
      match a
      case Moves(_, _, _) => true
      case Orphans(n) => 0 <= gpending.count + n < 0x400
      case Commits(i, _, _, _) => i < |disk|
      case Drops(tail, k, _, _, _) => tail < |disk| && k < |disk| && k != tail
      case Empties(i, _, _, k, _, _, _) => i < |disk| && k < |disk| && k != i
      case Mounts => true
    }

    /** The operation will lose the sum. */
    predicate Loses(a: Action)
      requires Enabled(a)
      reads this
    {
      match a
      case Commits(i, p0, p1, way) => Loss(GXor(gdelta, Fix(p0, p1)), disk[i], way) != ZERO
      case Drops(tail, k, q0, q1, way) => DropLoss(gdelta, tail, k, q0, q1, way) != ZERO
      case Empties(i, p0, p1, k, q0, q1, way) => EmptyingLoss(i, p0, p1, k, q0, q1, way) != ZERO
      case _ => false
    }

    /** One operation: it keeps the sum exactly if it does not lose it in one of these ways. */
    method Step(a: Action)
      requires Valid() && Enabled(a)
      modifies this
      ensures Valid() <==> !old(Loses(a))
    {
      hide Conserved, Plain, GXor, MoveDelta;
      match a
      case Moves(id, p0, p1) => PrepMove(id, p0, p1);
      case Orphans(n) => PrepOrphans(n);
      case Commits(i, p0, p1, way) => Commit(i, p0, p1, way);
      case Drops(tail, k, q0, q1, way) => DropDirectory(tail, k, q0, q1, way);
      case Empties(i, p0, p1, k, q0, q1, way) => CommitByDropping(i, p0, p1, k, q0, q1, way);
      case Mounts => Mount();
    }

    /** Over every run, up to the first operation that loses the sum: the disk and the change still to be written make up
        the state in use, and whenever there is no such change a mount would find that state: its move, and orphans
        exactly if there are any. */
    method Run(actions: seq<Action>) returns (n: nat)
      requires Valid()
      modifies this
      ensures n <= |actions| && (n < |actions| ==> Enabled(actions[n]) && Loses(actions[n]))
      ensures Valid() && Strip(gpending) == GXor(XorAll(disk), gdelta)
      ensures gdelta == ZERO ==> XorAll(disk) == Strip(gpending) && (XorAll(disk).flag <==> gpending.count > 0)
    {
      hide GXor, XorAll, Fix, Loss, DropLoss, EmptyingLoss;
      n := 0;
      while n < |actions| && !(Enabled(actions[n]) && Loses(actions[n]))
        invariant n <= |actions| && Valid()
      {
        if Enabled(actions[n]) { Step(actions[n]); }
        n := n + 1;
      }
      GZero(XorAll(disk));
    }

    /** After a commit a mount finds the state in use again: the same move, and orphans exactly if there are any. */
    lemma MountFindsState(mounted: GState)
      requires Valid() && gdelta == ZERO
      requires Strip(mounted) == XorAll(disk) && mounted.count == (if XorAll(disk).flag then 1 else 0)
      ensures mounted.(count := 0) == gpending.(count := 0) && (mounted.count > 0 <==> gpending.count > 0)
      ensures forall q0, q1 :: PendingMove(mounted, q0, q1) == PendingMove(gpending, q0, q1)
    {
      hide GXor, XorAll;
      GZero(XorAll(disk));
    }
  }

  lemma CountXor(a: GState, b: GState)
    requires a.count == 0 && b.count == 0
    ensures GXor(a, b).count == 0
  {
  }

  lemma NothingStored()
    ensures XorAll([]) == ZERO
  {
  }

  lemma StoredNext(disk: seq<GState>, x: GState)
    requires x.count == 0 && XorAll(disk).count == 0
    ensures XorAll(disk + [x]) == GXor(XorAll(disk), x) && XorAll(disk + [x]).count == 0
  {
    Snoc(disk, x);
    Words.XorZero(0);
  }

  lemma ClearIsDelta(g: GState)
    ensures GXor(g, MoveDelta(g, 0x3ff, 0, 0)) == g.(move := 0, p0 := 0, p1 := 0)
  {
    hide GXor, XorMove;
    MoveIsDelta(g, g, 0x3ff, 0, 0);
    MoveRecorded(g, 0x3ff, 0, 0);
  }

  lemma HereIsSomething(g: GState, p0: bv32, p1: bv32)
    requires HasMoveHere(g, p0, p1)
    ensures MoveDelta(g, 0x3ff, 0, 0) != ZERO
  {
    MoveIsSomething(g);
  }

  /** A state that is off by two changes is right exactly if they cancel. */
  lemma TwoLosses(g: GState, d: GState, e: GState, loss: GState, disk: seq<GState>)
    requires Conserved(GXor(GXor(GXor(g, d), e), loss), ZERO, disk) && d.count == 0 && loss.count == 0
    ensures Conserved(GXor(g, e), ZERO, disk) <==> GXor(d, loss) == ZERO
  {
    hide GXor, Conserved, XorAll;
    GSwap(g, d, e);
    GAssoc(GXor(g, e), d, loss);
    GZero(GXor(g, e));
    CountXor(d, loss);
    if GXor(d, loss) != ZERO { NotBoth(GXor(g, e), GXor(d, loss), disk); }
  }

  /** Two states that differ by a real change cannot both agree with the same disk. */
  lemma NotBoth(g: GState, d: GState, disk: seq<GState>)
    requires Conserved(GXor(g, d), ZERO, disk) && d != ZERO && d.count == 0
    ensures !Conserved(g, ZERO, disk)
  {
    hide GXor, XorAll;
    StripXor(g, d);
    GCancel(Strip(g), d);
  }
}
