/** What a new UUID does to a filesystem's identity, over every history of commands. */
module Identity {
  import opened Prelude
  import opened Bytes
  import opened SuperblockCodec

  type Uuid = u: seq<byte> | |u| == 16 witness [0, 0, 0, 0, 0, 0, 0, 0, 0, 0, 0, 0, 0, 0, 0, 0]

  const NIL_UUID: Uuid := [0, 0, 0, 0, 0, 0, 0, 0, 0, 0, 0, 0, 0, 0, 0, 0]
  const NULL64: nat := TWO_64 - 1

  const IN_META_UUID: nat := 4
  const IN_NEEDSREPAIR: nat := 0x10
  /** ftype, sparse inodes, META_UUID, bigtime, NEEDSREPAIR and nrext64: every bit below this one. */
  const FIRST_UNKNOWN: nat := 0x40

  /** The fields of a superblock that this tool reads or writes. */
  datatype Superblock = Superblock(
    uuid: Uuid,
    metaUuid: Uuid,
    incompat: nat,
    rblocks: nat,
    logstart: nat,
    uquotino: nat,
    gquotino: nat,
    pquotino: nat,
    features2: nat,
    badFeatures2: nat)
  {
    predicate HasMeta() {
      HasBit(incompat, IN_META_UUID)
    }

    /** The UUID every metadata block of the filesystem carries. */
    function Effective(): Uuid {
      if HasMeta() then metaUuid else uuid
    }

    function With(newUuid: Uuid, newMeta: Uuid, newIncompat: nat): Superblock {
      Superblock(newUuid, newMeta, newIncompat, rblocks, logstart, uquotino, gquotino, pquotino,
                 features2, badFeatures2)
    }

    /** One group's superblock given `to`, against the primary's metadata UUID. */
    function Identified(meta: Uuid, to: Uuid): Superblock {
      if !HasMeta() && to != meta then With(to, uuid, incompat + IN_META_UUID)
      else if HasMeta() && to == meta then With(to, NIL_UUID, incompat - IN_META_UUID)
      else With(to, metaUuid, incompat)
    }

    /** Decoded and encoded again: quota inodes of 0 become null, and both feature words agree. */
    function OnDisk(): Superblock {
      Superblock(uuid, metaUuid, incompat, rblocks, logstart,
                 OrNull(uquotino), OrNull(gquotino), OrNull(pquotino), features2, features2)
    }

    /** As it is written back. */
    function Restamped(meta: Uuid, to: Uuid): Superblock {
      Identified(meta, to).OnDisk()
    }
  }

  function OrNull(ino: nat): nat {
    if ino == 0 then NULL64 else ino
  }

  /** Why a filesystem is not opened. */
  function OpenError(primary: Superblock): Option<Error> {
    if HasBit(primary.incompat, IN_NEEDSREPAIR) then Some(NeedsRecovery)
    else if primary.incompat >= FIRST_UNKNOWN then Some(Unsupported)
    else if primary.rblocks != 0 then Some(Unsupported)
    else if primary.logstart == 0 then Some(Unsupported)
    else None
  }

  /** The superblocks once the first `done` of them are rewritten. */
  function RestampedUpTo(sbs: seq<Superblock>, meta: Uuid, to: Uuid, done: nat): (r: seq<Superblock>)
    requires done <= |sbs|
    ensures |r| == |sbs|
    ensures forall i :: 0 <= i < |sbs| ==> r[i] == if i < done then sbs[i].Restamped(meta, to) else sbs[i]
  {
    seq(|sbs|, (i: nat) requires i < |sbs| => if i < done then sbs[i].Restamped(meta, to) else sbs[i])
  }

  // ---------------------------------------------------------------------------------------
  // What restamping keeps.

  /** Every group's metadata carries `meta`. */
  ghost predicate AllEffective(sbs: seq<Superblock>, meta: Uuid) {
    forall i :: 0 <= i < |sbs| ==> sbs[i].Effective() == meta
  }

  /** A feature word by its bits: those from 16 up, 8, the flag, and the lowest two. */
  lemma WordIs(w: nat, high: nat, b8: nat, flag: nat, low: nat)
    requires b8 < 2 && flag < 2 && low < 4 && w == 16 * high + 8 * b8 + 4 * flag + low
    ensures w / 4 == 2 * (2 * high + b8) + flag && w / 8 == 2 * high + b8 && w / 16 == high && w % 4 == low
    ensures HasBit(w, IN_META_UUID) <==> flag == 1
    ensures HasBit(w, IN_NEEDSREPAIR) <==> high % 2 == 1
  {
    DivModUnique(w, 4, 2 * (2 * high + b8) + flag, low);
    DivModUnique(2 * (2 * high + b8) + flag, 2, 2 * high + b8, flag);
    DivModUnique(w, 8, 2 * high + b8, 4 * flag + low);
    DivModUnique(w, 16, high, 8 * b8 + 4 * flag + low);
  }

  /** Setting and clearing the flag changes that bit alone, and not what is refused. */
  lemma FlagBit(w: nat)
    requires !HasBit(w, IN_META_UUID)
    ensures HasBit(w + IN_META_UUID, IN_META_UUID)
    ensures (w + IN_META_UUID) / 8 == w / 8 && (w + IN_META_UUID) % 4 == w % 4
    ensures HasBit(w + IN_META_UUID, IN_NEEDSREPAIR) <==> HasBit(w, IN_NEEDSREPAIR)
    ensures w + IN_META_UUID >= FIRST_UNKNOWN <==> w >= FIRST_UNKNOWN
    ensures w < TWO_32 ==> w + IN_META_UUID < TWO_32
  {
    var high, b8, low := w / 16, w / 8 % 2, w % 4;
    WordSplits(w);
    hide HasBit;
    WordIs(w, high, b8, w / 4 % 2, low);
    WordIs(w + IN_META_UUID, high, b8, 1, low);
  }

  lemma WordSplits(w: nat)
    ensures w == 16 * (w / 16) + 8 * (w / 8 % 2) + 4 * (w / 4 % 2) + w % 4
  {
    var q, h := w / 4, w / 8;
    assert w == 4 * q + w % 4;
    DivModUnique(w, 8, q / 2, 4 * (q % 2) + w % 4);
    DivModUnique(w, 16, h / 2, 8 * (h % 2) + 4 * (q % 2) + w % 4);
  }

  lemma FlagCleared(w: nat)
    requires HasBit(w, IN_META_UUID)
    ensures w >= IN_META_UUID && !HasBit(w - IN_META_UUID, IN_META_UUID)
  {
  }

  /**
   A restamped group keeps the UUID its metadata carries, has the UUID asked for, the flag exactly
   when the two differ, and every other feature bit.
   */
  lemma RestampedKeepsEffective(sb: Superblock, to: Uuid)
    ensures var b := sb.Restamped(sb.Effective(), to);
            && b.Effective() == sb.Effective() && b.uuid == to && (b.HasMeta() <==> to != sb.Effective())
            && b.incompat / 8 == sb.incompat / 8 && b.incompat % 4 == sb.incompat % 4
  {
    hide HasBit;
    if sb.HasMeta() {
      FlagCleared(sb.incompat);
      FlagBit(sb.incompat - IN_META_UUID);
    } else {
      FlagBit(sb.incompat);
    }
  }

  datatype Command =
    | Set(to: Uuid, done: nat)
    | Restore(done: nat)

  /** One command on the superblocks, cut short once `done` groups are rewritten. */
  function Step(sbs: seq<Superblock>, cmd: Command): (r: seq<Superblock>)
    requires sbs != []
    ensures |r| == |sbs|
  {
    if OpenError(sbs[0]).Some? then sbs
    else
      match cmd
      case Set(to, done) => RestampedUpTo(sbs, sbs[0].Effective(), to, Min(done, |sbs|))
      case Restore(done) =>
        if !sbs[0].HasMeta() then sbs
        else RestampedUpTo(sbs, sbs[0].Effective(), sbs[0].Effective(), Min(done, |sbs|))
  }

  function History(sbs: seq<Superblock>, cmds: seq<Command>): (r: seq<Superblock>)
    requires sbs != []
    ensures |r| == |sbs|
  {
    if cmds == [] then sbs else Step(History(sbs, cmds[..|cmds| - 1]), cmds[|cmds| - 1])
  }

  /** Restamping changes neither what is refused nor why. */
  lemma RestampedKeepsOpen(sb: Superblock, meta: Uuid, to: Uuid)
    ensures OpenError(sb.Restamped(meta, to)) == OpenError(sb)
  {
    hide Superblock.Effective, HasBit;
    if sb.HasMeta() {
      FlagCleared(sb.incompat);
      FlagBit(sb.incompat - IN_META_UUID);
    } else {
      FlagBit(sb.incompat);
    }
  }

  lemma StepKeepsOpen(sbs: seq<Superblock>, cmd: Command)
    requires sbs != []
    ensures OpenError(Step(sbs, cmd)[0]) == OpenError(sbs[0])
  {
    hide OpenError, Superblock.Restamped, Superblock.Effective;
    var meta := sbs[0].Effective();
    RestampedKeepsOpen(sbs[0], meta, if cmd.Set? then cmd.to else meta);
  }

  /**
   Over every history of set and restore commands, whether completed or cut short, no group's
   metadata UUID changes, and the filesystem opens exactly as it did at first.
   */
  lemma {:induction false} EffectiveForever(sbs: seq<Superblock>, cmds: seq<Command>, meta: Uuid)
    requires sbs != [] && AllEffective(sbs, meta)
    ensures AllEffective(History(sbs, cmds), meta)
    ensures OpenError(History(sbs, cmds)[0]) == OpenError(sbs[0])
  {
    hide OpenError, Superblock.Restamped, Superblock.Effective;
    if cmds != [] {
      var before := History(sbs, cmds[..|cmds| - 1]);
      EffectiveForever(sbs, cmds[..|cmds| - 1], meta);
      forall i, to | 0 <= i < |sbs|
        ensures before[i].Restamped(meta, to).Effective() == meta
      {
        RestampedKeepsEffective(before[i], to);
      }
      StepKeepsOpen(before, cmds[|cmds| - 1]);
    }
  }

  /**
   After any history, a set that completes leaves every group with the UUID asked for and the
   META_UUID flag exactly when that is not the one the metadata carries.
   */
  lemma CompletedSet(sbs: seq<Superblock>, cmds: seq<Command>, meta: Uuid, to: Uuid, done: nat)
    requires sbs != [] && AllEffective(sbs, meta) && OpenError(sbs[0]).None? && done >= |sbs|
    ensures forall i :: 0 <= i < |sbs| ==>
              var b := History(sbs, cmds + [Set(to, done)])[i];
              b.uuid == to && (b.HasMeta() <==> to != meta)
  {
    EffectiveForever(sbs, cmds, meta);
    var all := cmds + [Set(to, done)];
    assert all[..|all| - 1] == cmds;
    forall i | 0 <= i < |sbs|
      ensures var b := History(sbs, all)[i]; b.uuid == to && (b.HasMeta() <==> to != meta)
    {
      RestampedKeepsEffective(History(sbs, cmds)[i], to);
    }
  }

  predicate IsRestored(sbs: seq<Superblock>, meta: Uuid) {
    forall i :: 0 <= i < |sbs| ==> sbs[i].uuid == meta && !sbs[i].HasMeta()
  }

  /**
   A restore that completes leaves every group restored exactly when it found the primary's flag
   set, or found nothing to do.
   */
  lemma CompletedRestore(sbs: seq<Superblock>, meta: Uuid, done: nat)
    requires sbs != [] && AllEffective(sbs, meta) && OpenError(sbs[0]).None? && done >= |sbs|
    ensures IsRestored(Step(sbs, Restore(done)), meta) <==> sbs[0].HasMeta() || IsRestored(sbs, meta)
  {
    if sbs[0].HasMeta() {
      forall i | 0 <= i < |sbs|
        ensures Step(sbs, Restore(done))[i].uuid == meta && !Step(sbs, Restore(done))[i].HasMeta()
      {
        RestampedKeepsEffective(sbs[i], meta);
      }
    }
  }

  /**
   The case left: a restore cut short after the primary is taken for done by the next one, which
   leaves the other groups under the changed UUID.
   */
  lemma RestoreStopsShort(a: Superblock, meta: Uuid, to: Uuid)
    requires a.uuid == meta != to && !a.HasMeta() && OpenError(a).None?
    ensures var after := History([a, a], [Set(to, 2), Restore(1), Restore(2)]);
            && after[0].uuid == meta && !after[0].HasMeta()
            && after[1].uuid == to && after[1].HasMeta()
  {
    hide OpenError, HasBit;
    FlagBit(a.incompat);
    StepKeepsOpen([a, a], Set(to, 2));
    var s1 := Step([a, a], Set(to, 2));
    StepKeepsOpen(s1, Restore(1));
    var s2 := Step(s1, Restore(1));
    var cmds := [Set(to, 2), Restore(1), Restore(2)];
    assert cmds[..2] == [Set(to, 2), Restore(1)] && cmds[..2][..1] == [Set(to, 2)] && cmds[..2][..1][..0] == [];
    assert History([a, a], cmds[..2][..1]) == s1;
    assert History([a, a], cmds[..2]) == s2;
  }

  /** Completed sets, one after the other. */
  function Sets(tos: seq<Uuid>, groups: nat): (cmds: seq<Command>)
    ensures |cmds| == |tos|
  {
    if tos == [] then [] else Sets(tos[..|tos| - 1], groups) + [Set(tos[|tos| - 1], groups)]
  }
}
