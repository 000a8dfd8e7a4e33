/**
 The firmware update of the boot loader.  Power may be lost in the middle of any erase or write, and even
 a completed one may leave wrong bytes; the checksum decides.
 */
module Boot {
  import opened Basics
  import opened Bytes
  import opened Crc

  const BLOCK: nat := 4096
  const INFO: nat := 0x01b00000
  const LOAD: nat := 0x01b01000
  const RUN: nat := 0x24000
  const MAGIC: nat := 0xa578875a
  const HEADER: nat := 64
  const INFO_SIZE: nat := 16

  /** The fields of a firmware header that matter here; the first four are also the saved firmware information. */
  datatype Header = Header(magic: nat, devid: nat, version: nat, dcrc: nat, size: nat, isize: nat)

  const NO_HEADER := Header(0, 0, 0, 0, 0, 0)

  /** A little-endian word. */
  function Word(s: seq<byte>, at: nat): nat
    requires at + 4 <= |s|
  {
    s[at] as nat + 0x100 * s[at + 1] as nat + 0x10000 * s[at + 2] as nat + 0x1000000 * s[at + 3] as nat
  }

  function HeaderOf(s: seq<byte>): Header
    requires |s| >= HEADER
  {
    Header(Word(s, 0), Word(s, 4), Word(s, 8), Word(s, 12), Word(s, 16), Word(s, 20))
  }

  /** A size in whole blocks. */
  function Blocks(n: nat): nat {
    (n + BLOCK - 1) / BLOCK * BLOCK
  }

  /** `is_fw_need_update`: a firmware was downloaded, and it is not the one that is known to run. */
  ghost predicate NeedUpdate(flash: seq<byte>) {
    && LOAD + INFO_SIZE <= |flash|
    && Word(flash, LOAD) == MAGIC
    && (Word(flash, INFO) == MAGIC ==>
          Word(flash, INFO + 4) == Word(flash, LOAD + 4) && Word(flash, INFO + 12) != Word(flash, LOAD + 12))
  }

  /** A header with the magic number lies at the place of the download. */
  ghost predicate Fetched(flash: seq<byte>) {
    LOAD + INFO_SIZE <= |flash| && Word(flash, LOAD) == MAGIC
  }

  /** Information on the firmware that runs is saved. */
  ghost predicate Recorded(flash: seq<byte>) {
    INFO + INFO_SIZE <= |flash| && Word(flash, INFO) == MAGIC
  }

  ghost predicate Downloaded(flash: seq<byte>, fw: Header) {
    LOAD + HEADER <= |flash| && fw == HeaderOf(flash[LOAD..LOAD + HEADER])
  }

  /** The run region has the checksum of the downloaded image. */
  ghost predicate Matches(flash: seq<byte>, fw: Header) {
    RUN + fw.isize <= |flash| && Checksum(flash[RUN..RUN + fw.isize]) as nat == fw.dcrc
  }

  /** Whatever happened: the next boot updates, or the image that runs is the downloaded one. */
  ghost predicate Safe(flash: seq<byte>) {
    NeedUpdate(flash) || (LOAD + HEADER <= |flash| && Matches(flash, HeaderOf(flash[LOAD..LOAD + HEADER])))
  }

  /** The image, in whole blocks, leaves the saved information and the download alone. */
  ghost predicate Fits(flash: seq<byte>) {
    LOAD + HEADER <= |flash| ==> RUN + Blocks(HeaderOf(flash[LOAD..LOAD + HEADER]).isize) <= INFO
  }

  /** Two flash contents agree from `from` up to `to`. */
  ghost predicate Agree(a: seq<byte>, b: seq<byte>, from: nat, to: nat) {
    |a| == |b| && forall k | from <= k < to && k < |a| :: a[k] == b[k]
  }

  lemma SameWords(a: seq<byte>, b: seq<byte>, from: nat, to: nat, at: nat)
    requires Agree(a, b, from, to) && from <= at && at + 4 <= to && at + 4 <= |a|
    ensures Word(a, at) == Word(b, at)
  {
  }

  /** The decision to update depends on the saved information and the download only. */
  lemma SameNeed(a: seq<byte>, b: seq<byte>)
    requires Agree(a, b, INFO, |a|)
    ensures NeedUpdate(a) == NeedUpdate(b) && Fits(a) == Fits(b)
    ensures forall fw :: Downloaded(a, fw) == Downloaded(b, fw)
  {
    if LOAD + INFO_SIZE <= |a| {
      SameWords(a, b, INFO, |a|, INFO);
      SameWords(a, b, INFO, |a|, INFO + 4);
      SameWords(a, b, INFO, |a|, INFO + 12);
      SameWords(a, b, INFO, |a|, LOAD);
      SameWords(a, b, INFO, |a|, LOAD + 4);
      SameWords(a, b, INFO, |a|, LOAD + 12);
    }
    SameDownload(a, b);
  }

  lemma SameDownload(a: seq<byte>, b: seq<byte>)
    requires Agree(a, b, LOAD, |a|)
    ensures forall fw :: Downloaded(a, fw) == Downloaded(b, fw)
    ensures LOAD + HEADER <= |a| ==> a[LOAD..LOAD + HEADER] == b[LOAD..LOAD + HEADER]
  {
    if LOAD + HEADER <= |a| {
      assert a[LOAD..LOAD + HEADER] == b[LOAD..LOAD + HEADER];
    }
  }

  /** The download, header and image, is on the device and intact. */
  ghost predicate Intact(flash: seq<byte>, fw: Header) {
    && Downloaded(flash, fw) && fw.magic == MAGIC && fw.size <= fw.isize
    && LOAD + HEADER + fw.isize <= |flash| && Checksum(Image(flash, fw)) as nat == fw.dcrc
  }

  ghost function Image(flash: seq<byte>, fw: Header): seq<byte>
    requires LOAD + HEADER + fw.isize <= |flash|
  {
    flash[LOAD + HEADER..LOAD + HEADER + fw.isize]
  }

  /** The device ends before the download does. Its check then reports success, without a header. */
  ghost predicate CutOff(flash: seq<byte>) {
    || |flash| < LOAD + HEADER
    || (var fw := HeaderOf(flash[LOAD..LOAD + HEADER]);
        fw.magic == MAGIC && fw.size <= fw.isize && LOAD + HEADER + fw.isize > |flash|)
  }

  /** A chunk more of a checksum. */
  lemma OneChunk(s: seq<byte>, at: nat, done: nat, n: nat, data: seq<byte>)
    requires at + done + n <= |s| && data == s[at + done..at + done + n]
    ensures Not(Register(Not(Checksum(s[at..at + done])), data)) == Checksum(s[at..at + done + n])
  {
    Chunked(s[at..at + done], data);
    assert s[at..at + done + n] == s[at..at + done] + data;
  }

  /** The block that is erased for a chunk does not reach beyond the image's last block. */
  lemma BlockFits(ofs: nat, isize: nat)
    requires ofs % BLOCK == 0 && ofs < isize
    ensures ofs + BLOCK <= Blocks(isize) && isize <= Blocks(isize)
  {
  }

  lemma ImageChunk(was: seq<byte>, now: seq<byte>, fw: Header, ofs: nat, n: nat)
    requires Agree(was, now, INFO, |was|) && LOAD + HEADER + fw.isize <= |was| && ofs + n <= fw.isize
    ensures now[LOAD + HEADER + ofs..LOAD + HEADER + ofs + n] == Image(was, fw)[ofs..ofs + n]
  {
    var p, q := now[LOAD + HEADER + ofs..LOAD + HEADER + ofs + n], Image(was, fw)[ofs..ofs + n];
    forall k | 0 <= k < n ensures p[k] == q[k] {
      assert now[LOAD + HEADER + ofs + k] == was[LOAD + HEADER + ofs + k];
    }
  }

  lemma OneBlockMore(was: seq<byte>, now: seq<byte>, ofs: nat, data: seq<byte>, image: seq<byte>)
    requires RUN + ofs + |data| <= |now| == |was| && ofs + |data| <= |image|
    requires now[RUN + ofs..RUN + ofs + |data|] == data == image[ofs..ofs + |data|]
    requires was[RUN..RUN + ofs] == image[..ofs] && forall k | RUN <= k < RUN + ofs :: now[k] == was[k]
    ensures now[RUN..RUN + ofs + |data|] == image[..ofs + |data|]
  {
    var r := now[RUN..RUN + ofs + |data|];
    forall k | 0 <= k < |r| ensures r[k] == image[k] {
      if k < ofs {
        assert r[k] == now[RUN + k] == was[RUN..RUN + ofs][k];
      } else {
        assert r[k] == now[RUN + ofs..RUN + ofs + |data|][k - ofs];
      }
    }
  }

  lemma SavedHeader(flash: seq<byte>, raw: seq<byte>)
    requires LOAD + HEADER <= |flash| && raw == flash[LOAD..LOAD + HEADER] && HeaderOf(raw).magic == MAGIC
    requires flash[INFO..INFO + INFO_SIZE] == raw[..INFO_SIZE]
    ensures !NeedUpdate(flash)
  {
    var p, q := flash[INFO..INFO + INFO_SIZE], flash[LOAD..LOAD + INFO_SIZE];
    assert p == q;
    SliceWord(flash, INFO, INFO_SIZE, 0);
    SliceWord(flash, INFO, INFO_SIZE, 12);
    SliceWord(flash, LOAD, INFO_SIZE, 0);
    SliceWord(flash, LOAD, INFO_SIZE, 12);
    SliceWord(flash, LOAD, HEADER, 0);
  }

  lemma StillMatches(a: seq<byte>, b: seq<byte>, fw: Header)
    requires Matches(a, fw) && |a| == |b| && RUN + fw.isize <= INFO && forall k | 0 <= k < |a| && !(INFO <= k < LOAD) :: b[k] == a[k]
    ensures Matches(b, fw)
  {
    assert a[RUN..RUN + fw.isize] == b[RUN..RUN + fw.isize];
  }

  datatype Outcome = Done | Failed | PowerLost

  datatype Verdict = Matched | Mismatch | Skipped

  class Board {
    var flash: seq<byte>
    /** On sound flash an erase leaves all ones and a write leaves the data. */
    const sound: bool

    constructor (flash: seq<byte>, sound: bool)
      ensures this.flash == flash && this.sound == sound
    {
      this.flash, this.sound := flash, sound;
    }

    // ---- the device ----

    /** `disk_device_read` fails outside the device. */
    method Read(at: nat, n: nat) returns (data: seq<byte>, ok: bool)
      ensures ok <==> n == 0 || at + n <= |flash|
      ensures ok ==> |data| == n && (n > 0 ==> data == flash[at..at + n])
    {
      ok := n == 0 || at + n <= |flash|;
      data := if n > 0 && ok then flash[at..at + n] else [];
    }

    /** `disk_device_erase` of whole blocks. Power may be lost meanwhile, with anything left in the range. */
    method Erase(at: nat, n: nat) returns (r: Outcome)
      modifies this
      ensures at + n > |old(flash)| && n > 0 ==> r == Failed && flash == old(flash)
      ensures r == Failed ==> at + n > |old(flash)| && flash == old(flash)
      ensures |flash| == |old(flash)| && forall k | 0 <= k < |flash| && !(at <= k < at + n) :: flash[k] == old(flash)[k]
    {
      if n == 0 {
        return Done;
      }
      if at + n > |flash| {
        return Failed;
      }
      if * {
        var junk: seq<byte> :| |junk| == n by { assert |seq(n, _ => 0 as byte)| == n; }
        flash := Patch(flash, at, junk);
        return PowerLost;
      }
      var left: seq<byte> := seq(n, _ => 0xff);
      if !sound {
        left :| |left| == n by { assert |seq(n, _ => 0 as byte)| == n; }
      }
      flash := Patch(flash, at, left);
      r := Done;
    }

    /** `disk_device_write`, with the same risks. */
    method Write(at: nat, data: seq<byte>) returns (r: Outcome)
      modifies this
      ensures r == Failed ==> at + |data| > |old(flash)| && flash == old(flash)
      ensures |flash| == |old(flash)| && forall k | 0 <= k < |flash| && !(at <= k < at + |data|) :: flash[k] == old(flash)[k]
      ensures r == Done && sound && |data| > 0 ==> at + |data| <= |flash| && flash[at..at + |data|] == data
    {
      var n := |data|;
      if n == 0 {
        return Done;
      }
      if at + n > |flash| {
        return Failed;
      }
      if * {
        var junk: seq<byte> :| |junk| == n by { assert |seq(n, _ => 0 as byte)| == n; }
        flash := Patch(flash, at, junk);
        return PowerLost;
      }
      var left := data;
      if !sound {
        left :| |left| == n by { assert |seq(n, _ => 0 as byte)| == n; }
      }
      flash := Patch(flash, at, left);
      r := Done;
    }

    // ---- reading the download ----

    method NeedsUpdate() returns (r: bool)
      ensures r <==> NeedUpdate(flash)
      ensures r ==> Fetched(flash)
      ensures Fetched(flash) && Recorded(flash) ==>
                (r <==> Word(flash, INFO + 4) == Word(flash, LOAD + 4) && Word(flash, INFO + 12) != Word(flash, LOAD + 12))
      ensures Fetched(flash) && !Recorded(flash) ==> r
    {
      var loader, ok := Read(LOAD, INFO_SIZE);
      if !ok {
        return false;
      }
      SliceWord(flash, LOAD, INFO_SIZE, 0);
      SliceWord(flash, LOAD, INFO_SIZE, 4);
      SliceWord(flash, LOAD, INFO_SIZE, 12);
      if Word(loader, 0) != MAGIC {
        return false;
      }
      var curr;
      curr, ok := Read(INFO, INFO_SIZE);
      if !ok {
        return false;
      }
      SliceWord(flash, INFO, INFO_SIZE, 0);
      SliceWord(flash, INFO, INFO_SIZE, 4);
      SliceWord(flash, INFO, INFO_SIZE, 12);
      if Word(curr, 0) == MAGIC {
        r := Word(curr, 4) == Word(loader, 4) && Word(curr, 12) != Word(loader, 12);
      } else {
        r := true;
      }
    }

    /** The checksum of a range, read chunk by chunk, unless a read fails. */
    method RangeChecksum(at: nat, n: nat) returns (crc: bv32, ok: bool)
      requires at <= |flash|
      ensures ok <==> at + n <= |flash|
      ensures ok ==> crc == Checksum(flash[at..at + n])
    {
      hide Checksum, Register, Not;
      var left, ofs := n, 0;
      crc := 0;
      NoData();
      assert flash[at..at + 0] == [];
      while left > 0
        invariant ofs + left == n && at + ofs <= |flash| && crc == Checksum(flash[at..at + ofs])
      {
        var bytes := Min(left, BLOCK);
        var data;
        data, ok := Read(at + ofs, bytes);
        if !ok {
          return;
        }
        OneChunk(flash, at, ofs, bytes, data);
        crc := Update(crc, data);
        ofs := ofs + bytes;
        left := left - bytes;
      }
      ok := true;
    }

    /** `is_fw_valid`. When a read fails, its error code is taken for success, and no header is filled in. */
    method IsValid() returns (valid: bool, raw: seq<byte>)
      ensures |raw| == HEADER
      ensures valid && HeaderOf(raw).magic == MAGIC ==> Intact(flash, HeaderOf(raw)) && raw == flash[LOAD..LOAD + HEADER]
      ensures valid && HeaderOf(raw).magic != MAGIC ==> HeaderOf(raw) == NO_HEADER && CutOff(flash)
      ensures !valid ==> !CutOff(flash) && forall fw :: !Intact(flash, fw)
    {
      hide Checksum, Word;
      raw := seq(HEADER, _ => 0);
      ZeroHeader(raw);
      var fw, ok := Read(LOAD, HEADER);
      if !ok {
        return true, raw;
      }
      var h := HeaderOf(fw);
      if h.magic != MAGIC || h.size > h.isize {
        return false, raw;
      }
      var crc;
      crc, ok := RangeChecksum(LOAD + HEADER, h.isize);
      if !ok {
        return true, raw;
      }
      if crc as nat != h.dcrc {
        return false, raw;
      }
      return true, fw;
    }

    // ---- the update ----

    /** One turn of the copy loop: a block is read from the download, and its place is erased and written. */
    method CopyBlock(from: nat, ofs: nat, bytes: nat, fw: Header, ghost was: seq<byte>) returns (r: Outcome)
      requires |flash| == |was| && LOAD + HEADER + fw.isize <= |was| && RUN + Blocks(fw.isize) <= INFO && Agree(was, flash, INFO, |flash|)
      requires ofs < fw.isize && ofs % BLOCK == 0 && bytes == Min(fw.isize - ofs, BLOCK) && from == LOAD + HEADER + ofs
      modifies this
      ensures |flash| == |was| && Agree(was, flash, INFO, |flash|) && r != Failed && RUN + ofs + bytes <= INFO
      ensures r == Done && sound && old(flash)[RUN..RUN + ofs] == Image(was, fw)[..ofs] ==>
                flash[RUN..RUN + ofs + bytes] == Image(was, fw)[..ofs + bytes]
    {
      hide Image, Blocks, Patch;
      BlockFits(ofs, fw.isize);
      var data, ok := Read(from, bytes);
      ImageSize(was, fw);
      ImageChunk(was, flash, fw, ofs, bytes);
      ghost var before := flash;
      r := Erase(RUN + ofs, BLOCK);
      if r != Done {
        return;
      }
      r := Write(RUN + ofs, data);
      if r == Done && sound && before[RUN..RUN + ofs] == Image(was, fw)[..ofs] {
        OneBlockMore(before, flash, ofs, data, Image(was, fw));
      }
    }

    lemma ImageSize(flash: seq<byte>, fw: Header)
      requires LOAD + HEADER + fw.isize <= |flash|
      ensures |Image(flash, fw)| == fw.isize
    {
    }

    /** The copy loop of `fw_copy_decomp`. */
    method Copy(fw: Header) returns (r: Outcome)
      requires LOAD + HEADER + fw.isize <= |flash| && RUN + Blocks(fw.isize) <= INFO
      modifies this
      ensures Agree(old(flash), flash, INFO, |flash|) && r != Failed
      ensures fw.isize == 0 ==> r == Done && flash == old(flash)
      ensures r == Done && sound ==> fw.isize <= Blocks(fw.isize) && flash[RUN..RUN + fw.isize] == Image(old(flash), fw)
    {
      var from, left, ofs := LOAD + HEADER, fw.isize, 0;
      ghost var was := flash;
      ghost var image := Image(flash, fw);
      assert |image| == fw.isize;
      hide Image, Blocks;
      assert flash[RUN..RUN + 0] == image[..0];
      while left > 0
        invariant |flash| == |was| && 0 <= left && ofs + left == fw.isize && from == LOAD + HEADER + ofs && (left > 0 ==> ofs % BLOCK == 0)
        invariant Agree(was, flash, INFO, |flash|)
        invariant ofs > 0 ==> RUN + ofs <= INFO
        invariant sound ==> flash[RUN..RUN + ofs] == image[..ofs]
        invariant fw.isize == 0 ==> flash == was
      {
        var bytes := Min(left, BLOCK);
        r := CopyBlock(from, ofs, bytes, fw, was);
        if r != Done {
          return;
        }
        ofs := ofs + bytes;
        from := from + bytes;
        left := left - bytes;
      }
      BlocksHold(fw.isize);
      assert image[..ofs] == image;
      r := Done;
    }

    /** The verification of `fw_copy_decomp`, which has nothing to say about an empty image. */
    method Verify(fw: Header) returns (v: Verdict)
      requires RUN + fw.isize <= |flash|
      ensures v == Skipped <==> fw.isize == 0
      ensures fw.isize > 0 ==> (v == Matched <==> Matches(flash, fw))
    {
      hide Checksum;
      var crc, ok := RangeChecksum(RUN, fw.isize);
      if fw.isize == 0 || !ok {
        return Skipped;
      }
      v := if crc as nat != fw.dcrc then Mismatch else Matched;
    }

    /** `fw_save_header`: the block of the saved information is written anew. */
    method SaveHeader(saved: seq<byte>) returns (r: Outcome)
      requires |saved| == INFO_SIZE
      modifies this
      ensures |flash| == |old(flash)| && forall k | 0 <= k < |flash| && !(INFO <= k < LOAD) :: flash[k] == old(flash)[k]
      ensures r == Failed ==> flash == old(flash) && |flash| < LOAD
      ensures r == Done && sound ==> LOAD <= |flash| && flash[INFO..INFO + INFO_SIZE] == saved
    {
      var block, ok := Read(INFO, BLOCK);
      if !ok {
        return Failed;
      }
      r := Erase(INFO, BLOCK);
      if r != Done {
        return;
      }
      var data := saved + block[INFO_SIZE..];
      r := Write(INFO, data);
      if r == Done && sound {
        assert flash[INFO..INFO + BLOCK] == data;
        assert flash[INFO..INFO + INFO_SIZE] == flash[INFO..INFO + BLOCK][..INFO_SIZE];
      }
    }

    /** `fw_copy_decomp`. */
    method CopyDecomp() returns (r: Outcome)
      requires NeedUpdate(flash) && Fits(flash)
      modifies this
      ensures Agree(old(flash), flash, LOAD, |flash|) && Safe(flash)
      ensures r == Failed ==> NeedUpdate(flash) && (sound ==> forall fw :: !Intact(old(flash), fw))
      ensures sound && r == Done ==> forall fw | Intact(old(flash), fw) :: Updated(old(flash), flash, fw)
      ensures forall fw | Intact(old(flash), fw) && fw.isize == 0 :: r == Done && flash == old(flash)
    {
      hide Checksum, Word, Blocks;
      var valid, raw := IsValid();
      if !valid {
        return Failed;
      }
      var fw := HeaderOf(raw);
      ghost var was := flash;
      OneDownload(was, fw);
      if fw.magic != MAGIC {
        CutOffIsNotIntact(flash);
        return Done;
      }
      r := Copy(fw);
      SameNeed(was, flash);
      SameDownload(was, flash);
      if r != Done {
        return;
      }
      BlocksHold(fw.isize);
      var v := Verify(fw);
      if v == Skipped {
        return Done;
      }
      if v == Mismatch {
        return Failed;
      }
      ghost var copied := flash;
      r := SaveHeader(raw[..INFO_SIZE]);
      StillMatches(copied, flash, fw);
      SameDownload(was, flash);
      if sound && r == Done {
        SavedHeader(flash, raw);
        assert flash[RUN..RUN + fw.isize] == copied[RUN..RUN + fw.isize];
      }
    }

    /**
     The update of `general_boot`, tried up to four times. It may be called again after any end of it, and
     after a loss of power: what it needs it also leaves. Nothing happens without a download, with one for a device
     other than that on record, and with the one that is on record; any other is installed and put on record.
     */
    method UpdateFirmware() returns (lost: bool)
      requires NeedUpdate(flash) ==> Fits(flash)
      modifies this
      ensures Safe(old(flash)) ==> Safe(flash)
      ensures (NeedUpdate(flash) ==> Fits(flash)) && Agree(old(flash), flash, LOAD, |flash|)
      ensures !NeedUpdate(old(flash)) ==> flash == old(flash) && !lost
      ensures NeedUpdate(old(flash)) && sound && !lost ==> forall fw | Intact(old(flash), fw) :: Updated(old(flash), flash, fw)
      ensures forall fw | Intact(old(flash), fw) && fw.isize == 0 :: flash == old(flash) && !lost
      ensures !Fetched(old(flash)) ==> flash == old(flash) && !lost
      ensures Fetched(old(flash)) && Recorded(old(flash)) && Word(old(flash), INFO + 4) != Word(old(flash), LOAD + 4) ==>
                flash == old(flash) && !lost
      ensures Fetched(old(flash)) && Recorded(old(flash)) && Word(old(flash), INFO + 12) == Word(old(flash), LOAD + 12) ==>
                flash == old(flash) && !lost
      ensures forall fw | Intact(old(flash), fw) && fw.isize > 0 && sound && !lost ::
                (Recorded(old(flash)) ==> Word(old(flash), INFO + 4) == fw.devid && Word(old(flash), INFO + 12) != fw.dcrc) ==>
                  && RUN + fw.isize <= |flash| && flash[RUN..RUN + fw.isize] == Image(old(flash), fw)
                  && flash[INFO..INFO + INFO_SIZE] == old(flash)[LOAD..LOAD + INFO_SIZE]
    {
      lost := false;
      DownloadOnFlash(flash);
      var need := NeedsUpdate();
      if !need {
        return;
      }
      hide Word, Fetched, Recorded;
      ghost var was := flash;
      var i, repeat := 0, true;
      while repeat
        invariant |flash| == |was| && Agree(was, flash, LOAD, |flash|) && Safe(flash) && Fits(flash) && 0 <= i <= 4
        invariant repeat ==> NeedUpdate(flash) && i < 4
        invariant i == 0 ==> flash == was && repeat
        invariant i > 0 && sound ==> forall fw | Intact(was, fw) :: Updated(was, flash, fw)
        invariant forall fw | Intact(was, fw) && fw.isize == 0 :: flash == was
        decreases 4 - i, repeat
      {
        ghost var before := flash;
        var r := CopyDecomp();
        SameDownload(before, flash);
        if r == PowerLost {
          return true;
        }
        repeat := r == Failed && i < 3;
        i := i + 1;
      }
    }
  }

  /** The run region holds the image, and the next boot sees no reason to update if and only if the image is not empty. */
  ghost predicate Updated(was: seq<byte>, now: seq<byte>, fw: Header)
    requires Intact(was, fw)
  {
    && RUN + fw.isize <= |now| && |now| == |was| && now[RUN..RUN + fw.isize] == Image(was, fw)
    && (NeedUpdate(now) <==> fw.isize == 0)
    && (fw.isize > 0 ==> now[INFO..INFO + INFO_SIZE] == was[LOAD..LOAD + INFO_SIZE])
  }

  /** An intact download has the words of its header. */
  lemma DownloadOnFlash(flash: seq<byte>)
    ensures forall fw | Intact(flash, fw) ::
              && Fetched(flash) && fw.devid == Word(flash, LOAD + 4) && fw.dcrc == Word(flash, LOAD + 12)
  {
    hide Checksum;
    if LOAD + HEADER <= |flash| {
      SliceWord(flash, LOAD, HEADER, 0);
      SliceWord(flash, LOAD, HEADER, 4);
      SliceWord(flash, LOAD, HEADER, 12);
    }
  }

  lemma BlocksHold(n: nat)
    ensures n <= Blocks(n)
  {
  }

  lemma ZeroHeader(raw: seq<byte>)
    requires |raw| == HEADER && forall k | 0 <= k < HEADER :: raw[k] == 0
    ensures HeaderOf(raw) == NO_HEADER
  {
  }

  lemma OneDownload(flash: seq<byte>, fw: Header)
    ensures Downloaded(flash, fw) ==> forall g | Intact(flash, g) :: g == fw
  {
  }

  lemma CutOffIsNotIntact(flash: seq<byte>)
    requires CutOff(flash)
    ensures forall fw :: !Intact(flash, fw)
  {
  }

  lemma SliceWord(s: seq<byte>, at: nat, n: nat, k: nat)
    requires at + n <= |s| && k + 4 <= n
    ensures Word(s[at..at + n], k) == Word(s, at + k)
  {
  }
}
