/** Validation of a CD-Text blob before it is burned: structural checks, then per pack accept,
    regenerate a zeroed check field in place, or refuse. */
module CdTextBlob {
  import opened CdTextPack
  import opened Common
  import opened Crc16
  import CdText

  datatype Status = Ok | ErrInval | ErrShort | ErrCrc

  datatype Info = Info(npacks: nat, crcRecomputed: nat, badPack: nat, haveSizeInfo: bool,
                       siFirstTrack: Byte, siLastTrack: Byte)

  const NO_INFO := Info(0, 0, 0, false, 0, 0)

  // ---- specification -----------------------------------------------------------------------------------

  predicate WellShaped(blob: seq<Byte>) {
    && |blob| >= HEADER + PACK
    && (|blob| - HEADER) % PACK == 0
    && HeaderLength(blob) == |blob| - 2
  }

  function HeaderLength(blob: seq<Byte>): int
    requires |blob| >= 2
  {
    (blob[0] as int) * 256 + blob[1] as int
  }

  /** A check field the transport dropped: zero, and not the right value. */
  predicate Zeroed(p: seq<Byte>)
    requires |p| == PACK
  {
    !Accepts(p) && Stored(p) == 0
  }

  predicate Damaged(p: seq<Byte>)
    requires |p| == PACK
  {
    !Accepts(p) && Stored(p) != 0
  }

  /** The payload of a zeroed pack with its check field regenerated; any other pack as it is. */
  function RepairPack(p: seq<Byte>): (r: seq<Byte>)
    requires |p| == PACK
    ensures |r| == PACK
  {
    if Zeroed(p) then
      var want := Not(Crc(p[..16]));
      p[..16] + [HighByte(want), LowByte(want)]
    else p
  }

  /** The blob with its first n packs repaired. */
  function RepairUpTo(blob: seq<Byte>, n: nat): (r: seq<Byte>)
    requires |blob| >= HEADER && n <= PackCount(blob)
    ensures |r| == |blob|
  {
    if n == 0 then blob
    else
      var at := HEADER + PACK * (n - 1);
      RepairUpTo(blob, n - 1)[..at] + RepairPack(PackOf(blob, n - 1)) + blob[at + PACK..]
  }

  ghost function ZeroedCount(blob: seq<Byte>, n: nat): nat
    requires |blob| >= HEADER && n <= PackCount(blob)
  {
    if n == 0 then 0 else ZeroedCount(blob, n - 1) + (if Zeroed(PackOf(blob, n - 1)) then 1 else 0)
  }

  ghost predicate NoDamage(blob: seq<Byte>, n: nat)
    requires |blob| >= HEADER && n <= PackCount(blob)
  {
    forall i: nat {:trigger PackOf(blob, i)} :: i < n ==> !Damaged(PackOf(blob, i))
  }

  predicate SizeInfo(p: seq<Byte>)
    requires |p| == PACK
  {
    p[0] == 0x8f && p[1] & 0x80 == 0 && (p[3] >> 4) & 0x07 == 0
  }

  /** The track range noted is that of the first size-info pack among the first n. */
  ghost predicate NotesFirstSizeInfo(blob: seq<Byte>, n: nat, info: Info)
    requires |blob| >= HEADER && n <= PackCount(blob)
  {
    if info.haveSizeInfo then
      exists i: nat {:trigger PackOf(blob, i)} :: i < n && SizeInfo(PackOf(blob, i))
        && info.siFirstTrack == PackOf(blob, i)[5] && info.siLastTrack == PackOf(blob, i)[6]
        && forall j: nat {:trigger PackOf(blob, j)} :: j < i ==> !SizeInfo(PackOf(blob, j))
    else
      info.siFirstTrack == 0 && info.siLastTrack == 0
      && forall j: nat {:trigger PackOf(blob, j)} :: j < n ==> !SizeInfo(PackOf(blob, j))
  }

  // ---- lemmas about packs --------------------------------------------------------------------------------

  /** A pack is good exactly when its check field equals the complement of its check value. */
  lemma AcceptsByWanted(p: seq<Byte>)
    requires |p| == PACK
    ensures Accepts(p) <==> Stored(p) == Not(Crc(p[..16]))
  {
    hide Not, Stored, Crc;
    NotNot(Stored(p));
    NotNot(Crc(p[..16]));
  }

  /** Repair leaves no pack with a zeroed field, keeps every payload, and touches only that field. */
  lemma RepairedPackIsGood(p: seq<Byte>)
    requires |p| == PACK && !Damaged(p)
    ensures Accepts(RepairPack(p))
    ensures RepairPack(p)[..16] == p[..16]
  {
    hide Not, Crc, Join, HighByte, LowByte;
    if Zeroed(p) {
      var want := Not(Crc(p[..16]));
      JoinSplit(want);
      NotNot(Crc(p[..16]));
      assert RepairPack(p)[..16] == p[..16];
    }
  }

  lemma PackBounds(blob: seq<Byte>, i: nat)
    requires |blob| >= HEADER && i < PackCount(blob)
    ensures HEADER + PACK * i + PACK <= |blob|
  {}

  lemma SamePackCount(a: seq<Byte>, b: seq<Byte>)
    requires |a| == |b| >= HEADER
    ensures PackCount(a) == PackCount(b)
  {}

  /** One more repair: what lies before, at and behind the pack. */
  lemma RepairUpToParts(blob: seq<Byte>, n: nat)
    requires |blob| >= HEADER && n < PackCount(blob)
    ensures
      var at, longer := HEADER + PACK * n, RepairUpTo(blob, n + 1);
      && at + PACK <= |blob|
      && longer[0..at] == RepairUpTo(blob, n)[0..at]
      && longer[at..at + PACK] == RepairPack(PackOf(blob, n))
      && longer[at + PACK..|blob|] == blob[at + PACK..|blob|]
  {
    hide RepairPack, PackOf;
    PackBounds(blob, n);
    var at := HEADER + PACK * n;
    PartsOfThree(RepairUpTo(blob, n)[..at], RepairPack(PackOf(blob, n)), blob[at + PACK..]);
  }

  /** What one more repair does to pack i. */
  lemma RepairOneMore(blob: seq<Byte>, n: nat, i: nat)
    requires |blob| >= HEADER && n < PackCount(blob) && i < PackCount(blob)
    ensures PackOf(RepairUpTo(blob, n + 1), i) ==
      if i < n then PackOf(RepairUpTo(blob, n), i) else if i == n then RepairPack(PackOf(blob, n)) else PackOf(blob, i)
  {
    hide RepairPack, PackCount, PackOf, RepairUpTo;
    var shorter, longer := RepairUpTo(blob, n), RepairUpTo(blob, n + 1);
    SamePackCount(blob, shorter);
    SamePackCount(blob, longer);
    RepairUpToParts(blob, n);
    PackOfIs(blob, i);
    PackOfIs(shorter, i);
    PackOfIs(longer, i);
    var at, from := HEADER + PACK * n, HEADER + PACK * i;
    if i < n {
      SharedSlice(longer, shorter, 0, at, from, from + PACK);
    } else if i > n {
      SharedSlice(longer, blob, at + PACK, |blob|, from, from + PACK);
    }
  }

  /** After n repairs the first n packs are repaired and the rest, and the header, are as they were. */
  lemma {:induction false} RepairUpToPacks(blob: seq<Byte>, n: nat, i: nat)
    requires |blob| >= HEADER && n <= PackCount(blob) && i < PackCount(blob)
    ensures PackOf(RepairUpTo(blob, n), i) == if i < n then RepairPack(PackOf(blob, i)) else PackOf(blob, i)
  {
    hide RepairPack, PackOf, PackCount;
    SamePackCount(blob, RepairUpTo(blob, n));
    if n > 0 {
      hide RepairUpTo;
      RepairUpToPacks(blob, n - 1, i);
      RepairOneMore(blob, n - 1, i);
    }
  }

  lemma {:induction false} RepairUpToTail(blob: seq<Byte>, n: nat)
    requires |blob| >= HEADER && n <= PackCount(blob)
    ensures RepairUpTo(blob, n)[..HEADER] == blob[..HEADER]
    ensures HEADER + PACK * n <= |blob|
    ensures RepairUpTo(blob, n)[HEADER + PACK * n..] == blob[HEADER + PACK * n..]
  {
    hide RepairPack;
    if n > 0 {
      RepairUpToTail(blob, n - 1);
      var at := HEADER + PACK * (n - 1);
      var shorter, longer := RepairUpTo(blob, n - 1), RepairUpTo(blob, n);
      assert longer[..HEADER] == shorter[..at][..HEADER];
    }
  }

  /** Everything one call promises about the blob before and after. */
  ghost predicate Validated(was: seq<Byte>, now: seq<Byte>, rc: Status, info: Info) {
    && |now| == |was|
    && (rc == ErrShort <==> |was| < HEADER + PACK)
    && (rc == ErrInval <==> |was| >= HEADER + PACK && !WellShaped(was))
    && (rc == ErrShort || rc == ErrInval ==> now == was && info == NO_INFO)
    && (rc == Ok ==>
          && info.npacks == PackCount(was) && info.badPack == 0
          && NoDamage(was, info.npacks)
          && now == RepairUpTo(was, info.npacks)
          && info.crcRecomputed == ZeroedCount(was, info.npacks)
          && NotesFirstSizeInfo(was, info.npacks, info))
    && (rc == ErrCrc ==>
          && info.npacks == PackCount(was) && info.badPack < info.npacks
          && NoDamage(was, info.badPack) && Damaged(PackOf(was, info.badPack))
          && now == RepairUpTo(was, info.badPack)
          && info.crcRecomputed == ZeroedCount(was, info.badPack)
          && NotesFirstSizeInfo(was, info.badPack, info))
  }

  /** The blob with the pack at `at` replaced. */
  function Splice(blob: seq<Byte>, at: nat, p: seq<Byte>): (r: seq<Byte>)
    requires |p| == PACK && at + PACK <= |blob|
    ensures |r| == |blob|
  {
    blob[..at] + p + blob[at + PACK..]
  }

  lemma SpliceSame(blob: seq<Byte>, at: nat)
    requires at + PACK <= |blob|
    ensures Splice(blob, at, blob[at..at + PACK]) == blob
  {}

  lemma SpliceCheckField(blob: seq<Byte>, at: nat, high: Byte, low: Byte)
    requires at + PACK <= |blob|
    ensures Splice(blob, at, blob[at..at + PACK][..16] + [high, low]) == blob[at + 16 := high][at + 17 := low]
  {
    SliceOfSlice(blob, at, at + PACK, 0, 16);
    assert blob[..at] + blob[at..at + 16] == blob[..at + 16];
  }

  /** One more pack repaired, in terms of the blob as it stands. */
  lemma RepairNext(was: seq<Byte>, n: nat)
    requires |was| >= HEADER && n < PackCount(was)
    ensures
      var at := HEADER + PACK * n;
      && at + PACK <= |was|
      && RepairUpTo(was, n)[at..at + PACK] == PackOf(was, n)
      && RepairUpTo(was, n + 1) == Splice(RepairUpTo(was, n), at, RepairPack(PackOf(was, n)))
  {
    hide RepairPack;
    PackBounds(was, n);
    RepairUpToTail(was, n);
    var at := HEADER + PACK * n;
    var cur := RepairUpTo(was, n);
    assert cur[at..][..PACK] == was[at..][..PACK];
    assert cur[at..][PACK..] == was[at..][PACK..];
  }

  /** What repair makes of a pack, by how its check field compares. */
  lemma RepairByWanted(p: seq<Byte>)
    requires |p| == PACK
    ensures
      var want := Not(Crc(p[..16]));
      var stored := Stored(p);
      && (Damaged(p) <==> stored != want && stored != 0)
      && (Zeroed(p) <==> stored != want && stored == 0)
      && RepairPack(p) == if stored != want && stored == 0 then p[..16] + [HighByte(want), LowByte(want)] else p
  {
    hide Not, Crc, HighByte, LowByte, Stored, Accepts;
    AcceptsByWanted(p);
  }

  /** One pack of the loop: false when it is damaged. */
  method CheckPack(blob: array<Byte>, ghost was: seq<Byte>, i: nat, info: Info) returns (good: bool, info': Info)
    requires |was| == blob.Length >= HEADER + PACK && i < PackCount(was)
    requires blob[..] == RepairUpTo(was, i)
    requires NotesFirstSizeInfo(was, i, info)
    modifies blob
    ensures good <==> !Damaged(PackOf(was, i))
    ensures !good ==> blob[..] == RepairUpTo(was, i) && info' == info.(badPack := i)
    ensures good ==>
      && blob[..] == RepairUpTo(was, i + 1)
      && info'.npacks == info.npacks && info'.badPack == info.badPack
      && info'.crcRecomputed == info.crcRecomputed + (if Zeroed(PackOf(was, i)) then 1 else 0)
      && NotesFirstSizeInfo(was, i + 1, info')
  {
    hide Not, Join, HighByte, LowByte, Crc, SizeInfo, RepairUpTo, PackCount, NotesFirstSizeInfo, Damaged, Zeroed,
      RepairPack, PackOf, Splice;
    RepairNext(was, i);
    var at := HEADER + PACK * i;
    ghost var before := blob[..];
    var p := blob[at..at + PACK];
    RepairByWanted(p);
    SpliceSame(before, at);
    var stored := Join(p[16], p[17]);
    var crc := Compute(p[..16]);
    var want := Not(crc);
    info' := info;
    if stored != want {
      if stored == 0 {
        SpliceCheckField(before, at, HighByte(want), LowByte(want));
        blob[at + 16] := HighByte(want);
        blob[at + 17] := LowByte(want);
        info' := info'.(crcRecomputed := info'.crcRecomputed + 1);
      } else {
        info' := info'.(badPack := i);
        return false, info';
      }
    }
    if !info'.haveSizeInfo && SizeInfo(p) {
      info' := info'.(haveSizeInfo := true, siFirstTrack := p[5], siLastTrack := p[6]);
    }
    SizeInfoStep(was, i, info, info');
    good := true;
  }

  lemma RepairUpToStep(blob: seq<Byte>, n: nat)
    requires |blob| >= HEADER && n < PackCount(blob)
    ensures HEADER + PACK * n + PACK <= |blob|
    ensures RepairUpTo(blob, n + 1) ==
      RepairUpTo(blob, n)[..HEADER + PACK * n] + RepairPack(PackOf(blob, n)) + blob[HEADER + PACK * n + PACK..]
  {}

  lemma SizeInfoStep(blob: seq<Byte>, n: nat, info: Info, info': Info)
    requires |blob| >= HEADER && n < PackCount(blob)
    requires NotesFirstSizeInfo(blob, n, info)
    requires
      var p := PackOf(blob, n);
      if !info.haveSizeInfo && SizeInfo(p) then
        info'.haveSizeInfo && info'.siFirstTrack == p[5] && info'.siLastTrack == p[6]
      else
        info'.haveSizeInfo == info.haveSizeInfo
        && info'.siFirstTrack == info.siFirstTrack && info'.siLastTrack == info.siLastTrack
    ensures NotesFirstSizeInfo(blob, n + 1, info')
  {
    hide SizeInfo;
  }

  /** The structural checks. */
  method CheckShape(blob: array<Byte>) returns (rc: Status)
    ensures rc == Ok <==> WellShaped(blob[..])
    ensures rc == Ok ==> blob.Length >= HEADER + PACK
    ensures rc != Ok ==> rc == if blob.Length < HEADER + PACK then ErrShort else ErrInval
  {
    if blob.Length < HEADER + PACK {
      return ErrShort;
    }
    if (blob.Length - HEADER) % PACK != 0 {
      return ErrInval;
    }
    if (blob[0] as int) * 256 + blob[1] as int != blob.Length - 2 {
      return ErrInval;
    }
    rc := Ok;
  }

  /** adsc_cdtext_blob_validate. */
  method Validate(blob: array<Byte>) returns (rc: Status, info: Info)
    modifies blob
    ensures Validated(old(blob[..]), blob[..], rc, info)
  {
    hide Damaged, Zeroed, RepairPack, PackOf, PackCount, SizeInfo, NotesFirstSizeInfo, RepairUpTo, ZeroedCount,
      NoDamage, Validated, WellShaped;
    ghost var was := blob[..];
    info := NO_INFO;
    rc := CheckShape(blob);
    if rc != Ok {
      Malformed(was, rc);
      return rc, info;
    }
    var npacks := (blob.Length - HEADER) / PACK;
    PackCountIs(was);
    info := info.(npacks := npacks);
    NothingRepaired(was, info);
    for i := 0 to npacks
      invariant blob[..] == RepairUpTo(was, i)
      invariant NoDamage(was, i)
      invariant info.npacks == npacks && info.badPack == 0 && info.crcRecomputed == ZeroedCount(was, i)
      invariant NotesFirstSizeInfo(was, i, info)
    {
      CountsStep(was, i);
      var good;
      ghost var before := info;
      good, info := CheckPack(blob, was, i, info);
      if !good {
        NotingIgnoresBadPack(was, i, before, info);
        DamageFound(was, blob[..], info);
        return ErrCrc, info;
      }
    }
    rc := Ok;
    NoneFound(was, blob[..], info);
  }

  lemma Malformed(was: seq<Byte>, rc: Status)
    requires rc == if |was| < HEADER + PACK then ErrShort else ErrInval
    requires !WellShaped(was)
    ensures Validated(was, was, rc, NO_INFO)
  {}

  lemma DamageFound(was: seq<Byte>, now: seq<Byte>, info: Info)
    requires WellShaped(was) && info.npacks == PackCount(was) && info.badPack < info.npacks
    requires NoDamage(was, info.badPack) && Damaged(PackOf(was, info.badPack))
    requires now == RepairUpTo(was, info.badPack) && info.crcRecomputed == ZeroedCount(was, info.badPack)
    requires NotesFirstSizeInfo(was, info.badPack, info)
    ensures Validated(was, now, ErrCrc, info)
  {
    hide Damaged, Zeroed, PackOf, NotesFirstSizeInfo, RepairUpTo, ZeroedCount, NoDamage;
  }

  lemma NoneFound(was: seq<Byte>, now: seq<Byte>, info: Info)
    requires WellShaped(was) && info.npacks == PackCount(was) && info.badPack == 0
    requires NoDamage(was, info.npacks)
    requires now == RepairUpTo(was, info.npacks) && info.crcRecomputed == ZeroedCount(was, info.npacks)
    requires NotesFirstSizeInfo(was, info.npacks, info)
    ensures Validated(was, now, Ok, info)
  {
    hide Damaged, Zeroed, PackOf, NotesFirstSizeInfo, RepairUpTo, ZeroedCount, NoDamage;
  }

  lemma NothingRepaired(blob: seq<Byte>, info: Info)
    requires |blob| >= HEADER && info == NO_INFO.(npacks := info.npacks)
    ensures RepairUpTo(blob, 0) == blob && NotesFirstSizeInfo(blob, 0, info)
    ensures NoDamage(blob, 0) && ZeroedCount(blob, 0) == 0
  {}

  lemma PackCountIs(blob: seq<Byte>)
    requires |blob| >= HEADER
    ensures PackCount(blob) == (|blob| - HEADER) / PACK
  {}

  lemma CountsStep(blob: seq<Byte>, n: nat)
    requires |blob| >= HEADER && n < PackCount(blob)
    ensures ZeroedCount(blob, n + 1) == ZeroedCount(blob, n) + (if Zeroed(PackOf(blob, n)) then 1 else 0)
    ensures NoDamage(blob, n) && !Damaged(PackOf(blob, n)) ==> NoDamage(blob, n + 1)
  {
    hide Zeroed, Damaged;
  }

  lemma NotingIgnoresBadPack(blob: seq<Byte>, n: nat, info: Info, info': Info)
    requires |blob| >= HEADER && n <= PackCount(blob) && NotesFirstSizeInfo(blob, n, info)
    requires info' == info.(badPack := info'.badPack)
    ensures NotesFirstSizeInfo(blob, n, info')
  {}

  // ---- in terms of the bytes ----------------------------------------------------------------------------

  lemma JoinIsZeroIff(high: Byte, low: Byte)
    ensures Join(high, low) == 0 <==> high == 0 && low == 0
  {}

  /** Pack k, 18 bytes behind the header of four, neither verifies nor has an empty check field. */
  predicate DamagedAt(blob: seq<Byte>, k: nat)
    requires 4 + 18 * k + 18 <= |blob|
  {
    var p := blob[4 + 18 * k..4 + 18 * k + 18];
    !Accepts(p) && !(p[16] == 0 && p[17] == 0)
  }

  lemma PackExistsIff(blob: seq<Byte>, k: nat)
    requires |blob| >= HEADER
    ensures k < PackCount(blob) <==> 4 + 18 * k + 18 <= |blob|
  {}

  lemma DamagedAtIs(blob: seq<Byte>, k: nat)
    requires |blob| >= HEADER && k < PackCount(blob)
    ensures 4 + 18 * k + 18 <= |blob|
    ensures DamagedAt(blob, k) <==> Damaged(PackOf(blob, k))
  {
    hide Accepts, Join;
    var p := PackOf(blob, k);
    JoinIsZeroIff(p[16], p[17]);
  }

  /** As many bytes as the first two announce, in whole packs. */
  predicate Announced(blob: seq<Byte>) {
    |blob| >= 22 && (|blob| - 4) % 18 == 0 && (blob[0] as nat) * 256 + blob[1] as nat == |blob| - 2
  }

  lemma AnnouncedIff(blob: seq<Byte>)
    ensures Announced(blob) <==> WellShaped(blob)
  {}

  ghost predicate AnyDamaged(blob: seq<Byte>) {
    exists k: nat {:trigger DamagedAt(blob, k)} :: 4 + 18 * k + 18 <= |blob| && DamagedAt(blob, k)
  }

  lemma AnyDamagedIff(blob: seq<Byte>)
    requires |blob| >= HEADER
    ensures AnyDamaged(blob) <==> !NoDamage(blob, PackCount(blob))
  {
    hide DamagedAt, Damaged, PackOf, PackCount;
    if k: nat :| 4 + 18 * k + 18 <= |blob| && DamagedAt(blob, k) {
      PackExistsIff(blob, k);
      DamagedAtIs(blob, k);
    } else {
      forall k: nat | k < PackCount(blob)
        ensures !Damaged(PackOf(blob, k))
      {
        PackExistsIff(blob, k);
        DamagedAtIs(blob, k);
      }
    }
  }

  /** Which blobs are refused, and how: too short, of the wrong length for whole packs or for what the
      first two bytes announce, or with a damaged pack. All others are accepted. */
  lemma StatusIff(was: seq<Byte>, now: seq<Byte>, rc: Status, info: Info)
    requires Validated(was, now, rc, info)
    ensures rc == ErrShort <==> |was| < 22
    ensures rc == ErrInval <==> |was| >= 22 && !Announced(was)
    ensures rc == ErrShort || rc == ErrInval ==> now == was && info == Info(0, 0, 0, false, 0, 0)
    ensures rc == ErrCrc <==> Announced(was) && AnyDamaged(was)
    ensures rc == Ok <==> Announced(was) && !AnyDamaged(was)
  {
    hide Announced, AnyDamaged, Damaged, Zeroed, PackOf, PackCount, NotesFirstSizeInfo, RepairUpTo, ZeroedCount;
    AnnouncedIff(was);
    if |was| >= 4 {
      AnyDamagedIff(was);
    }
  }

  /** A blob of the announced length whose packs all verify is accepted and left as it is. */
  lemma GoodBlobIsAccepted(was: seq<Byte>, now: seq<Byte>, rc: Status, info: Info)
    requires Announced(was) && Validated(was, now, rc, info)
    requires forall k: nat {:trigger PackOf(was, k)} :: k < PackCount(was) ==> Accepts(PackOf(was, k))
    ensures rc == Ok && now == was && info.npacks == (|was| - 4) / 18 && info.crcRecomputed == 0
  {
    hide Accepts, PackOf, PackCount, RepairUpTo, NotesFirstSizeInfo, ZeroedCount, Damaged, Validated, NoDamage;
    AnnouncedIff(was);
    PackCountIs(was);
    GoodPacksNeedNoRepair(was, PackCount(was));
    AllGoodMeansOk(was, now, rc, info);
  }

  /** Which packs give the track range: type 0x8f, no extension, block 0. */
  lemma SizeInfoIff(p: seq<Byte>)
    requires |p| == PACK
    ensures SizeInfo(p) <==> p[0] == 0x8f && p[1] < 0x80 && (p[3] < 0x10 || 0x80 <= p[3] < 0x90)
  {
    CdText.ExtensionBit(p[1]);
    BlockOnly(p[3]);
  }

  lemma BlockOnly(b: Byte)
    ensures (b >> 4) & 0x07 == 0 <==> b < 0x10 || 0x80 <= b < 0x90
  {}

  // ---- what the contract amounts to ---------------------------------------------------------------------

  /** After OK every pack verifies and every byte outside a zeroed check field is what it was. */
  lemma OkMeansEveryPackGood(was: seq<Byte>, now: seq<Byte>, info: Info, i: nat)
    requires Validated(was, now, Ok, info) && i < PackCount(was)
    ensures Accepts(PackOf(now, i))
    ensures PackOf(now, i)[..16] == PackOf(was, i)[..16]
    ensures !Zeroed(PackOf(was, i)) ==> PackOf(now, i) == PackOf(was, i)
    ensures now[..HEADER] == was[..HEADER]
  {
    hide Crc, Not, Join, HighByte, LowByte, RepairUpTo;
    RepairUpToPacks(was, info.npacks, i);
    RepairUpToTail(was, info.npacks);
    RepairedPackIsGood(PackOf(was, i));
  }

  /** A refusal names the least damaged pack; packs before it verify, it and those after are
      untouched. */
  lemma RefusalNamesFirstDamage(was: seq<Byte>, now: seq<Byte>, info: Info, i: nat)
    requires Validated(was, now, ErrCrc, info) && i < PackCount(was)
    ensures i < info.badPack ==> !Damaged(PackOf(was, i)) && Accepts(PackOf(now, i))
    ensures i >= info.badPack ==> PackOf(now, i) == PackOf(was, i)
    ensures Damaged(PackOf(was, info.badPack))
  {
    hide Crc, Not, Join, HighByte, LowByte, RepairUpTo;
    RepairUpToPacks(was, info.badPack, i);
    if i < info.badPack {
      RepairedPackIsGood(PackOf(was, i));
    }
  }

  lemma {:induction false} GoodPacksNeedNoRepair(blob: seq<Byte>, n: nat)
    requires |blob| >= HEADER && n <= PackCount(blob)
    requires forall i: nat {:trigger PackOf(blob, i)} :: i < n ==> Accepts(PackOf(blob, i))
    ensures ZeroedCount(blob, n) == 0 && NoDamage(blob, n) && RepairUpTo(blob, n) == blob
  {
    hide Accepts, Stored, PackOf, PackCount, RepairUpTo;
    RepairNone(blob);
    if n > 0 {
      GoodPacksNeedNoRepair(blob, n - 1);
      RepairUpToStep(blob, n - 1);
      PackOfIs(blob, n - 1);
    }
  }

  lemma RepairNone(blob: seq<Byte>)
    requires |blob| >= HEADER
    ensures RepairUpTo(blob, 0) == blob
  {}

  /** Validating a validated blob succeeds, recomputes nothing and changes nothing. */
  lemma ValidationIsIdempotent(was: seq<Byte>, now: seq<Byte>, info: Info, again: seq<Byte>, rc: Status, info': Info)
    requires Validated(was, now, Ok, info) && Validated(now, again, rc, info')
    ensures rc == Ok && again == now && info'.crcRecomputed == 0 && info'.npacks == info.npacks
  {
    hide PackOf, RepairUpTo, Accepts, NotesFirstSizeInfo, ZeroedCount, NoDamage, Damaged, Validated, WellShaped,
      PackCount;
    OkIsRepair(was, now, info);
    forall i: nat | i < PackCount(now)
      ensures Accepts(PackOf(now, i))
    {
      OkMeansEveryPackGood(was, now, info, i);
    }
    RepairUpToTail(was, info.npacks);
    SameHeaderSameShape(was, now);
    GoodPacksNeedNoRepair(now, PackCount(now));
    AllGoodMeansOk(now, again, rc, info');
  }

  lemma OkIsRepair(was: seq<Byte>, now: seq<Byte>, info: Info)
    requires Validated(was, now, Ok, info)
    ensures WellShaped(was) && |now| == |was| >= HEADER + PACK
    ensures info.npacks == PackCount(was) == PackCount(now) && now == RepairUpTo(was, info.npacks)
  {
    hide RepairUpTo, NotesFirstSizeInfo, ZeroedCount, NoDamage;
  }

  lemma SameHeaderSameShape(a: seq<Byte>, b: seq<Byte>)
    requires WellShaped(a) && |a| == |b| && a[..HEADER] == b[..HEADER]
    ensures WellShaped(b)
  {
    assert a[0] == a[..HEADER][0] && a[1] == a[..HEADER][1];
    assert b[0] == b[..HEADER][0] && b[1] == b[..HEADER][1];
  }

  lemma AllGoodMeansOk(blob: seq<Byte>, now: seq<Byte>, rc: Status, info: Info)
    requires WellShaped(blob) && |blob| >= HEADER + PACK && Validated(blob, now, rc, info)
    requires
      var n := PackCount(blob);
      ZeroedCount(blob, n) == 0 && NoDamage(blob, n) && RepairUpTo(blob, n) == blob
    ensures rc == Ok && now == blob && info.crcRecomputed == 0 && info.npacks == PackCount(blob)
  {
    hide PackOf, RepairUpTo, NotesFirstSizeInfo, ZeroedCount, Damaged, WellShaped, PackCount;
  }

  /** A validated blob loses no pack to the decoder's CRC gate. */
  lemma DecoderSkipsNothingForCrc(was: seq<Byte>, now: seq<Byte>, info: Info, i: nat)
    requires Validated(was, now, Ok, info) && i < |CdText.Packs(now)|
    ensures Accepts(CdText.Packs(now)[i])
  {
    hide Accepts, RepairUpTo;
    OkMeansEveryPackGood(was, now, info, i);
    CdText.PackIs(now, i);
  }
}
