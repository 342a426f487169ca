/** What becomes of a file that is written, without the steps of writing it. */
module WriterLaws {
  import opened Wrappers
  import opened Bytes
  import opened Headers
  import opened ExtraField
  import opened Snapshot
  import opened Writer

  // ---------------------------------------------------------------- which files fail

  /** How the contents of a file are encoded: an entry of declared size zero is stored as it is. */
  function EncodedWith(f: File): Config {
    if f.snap.usize == 0 then Config(0, 0, NotEncrypted, f.snap.config.comment) else f.snap.config
  }

  function OutputOf(f: File, pipe: Pipeline): Output
    requires f.source.Content?
  {
    pipe.encode(EncodedWith(f), f.source.data, f.source.draw)
  }

  /** The header is written first, and its sizes are put in afterwards: for plain files of known size
      and a destination that can seek. */
  predicate PutsIn(f: File, isSeeker: bool) {
    isSeeker && !f.snap.isDir && f.snap.config.encryption == NotEncrypted && f.snap.usize != -1
  }

  /** The sizes that would have to be put in need more than 32 bits. */
  predicate NeedsMore(f: File, pipe: Pipeline)
    requires !f.source.Unreadable?
  {
    match f.source
    case Raw(_, _) => f.snap.usize >= 0x1_0000_0000 || (f.snap.config.scheme != 0 && f.snap.usize != 0
                                                        && f.snap.csize >= 0x1_0000_0000)
    case Content(data, _) => |data| >= 0x1_0000_0000 || |OutputOf(f, pipe).out| >= 0x1_0000_0000
  }

  /** The error of a file, the first that applies; directories have none. */
  lemma FailsWith(f: File, isSeeker: bool, pipe: Pipeline)
    ensures f.snap.isDir ==> Failure(f, isSeeker, pipe) == None
    ensures !f.snap.isDir && f.source.Unreadable? ==> Failure(f, isSeeker, pipe) == Some(OpenFailed)
    ensures !f.snap.isDir && f.source.Raw? && !f.source.complete ==> Failure(f, isSeeker, pipe) == Some(CopyFailed)
    ensures !f.snap.isDir && f.source.Content? && !OutputOf(f, pipe).ok ==>
              Failure(f, isSeeker, pipe) == Some(EncodeFailed)
    ensures !f.snap.isDir && f.source.Content? && OutputOf(f, pipe).ok && !RightSize(f) ==>
              Failure(f, isSeeker, pipe) == Some(SizeMismatch)
    ensures Delivers(f, pipe) ==>
              Failure(f, isSeeker, pipe) == if PutsIn(f, isSeeker) && NeedsMore(f, pipe) then Some(TooLarge) else None
  {
    if f.snap.usize == 0 {
      assert Prepared(f).config == EncodedWith(f);
    }
    if Delivers(f, pipe) && f.source.Content? {
      EncodeMeaning(Prepared(f), f.source, pipe);
      EncodeMeaning(StreamSnap(Prepared(f), isSeeker), f.source, pipe);
    }
  }

  /** The declared size is that of the contents, or unknown. */
  predicate RightSize(f: File) {
    f.source.Content? ==> f.snap.usize == -1 || f.snap.usize == |f.source.data|
  }

  /** The source can be read to its end and encoded, and has the declared size, if one is. */
  predicate Delivers(f: File, pipe: Pipeline) {
    && !f.snap.isDir && !f.source.Unreadable? && (f.source.Raw? ==> f.source.complete)
    && (f.source.Content? ==> OutputOf(f, pipe).ok) && RightSize(f)
  }

  /** The same in parallel: entries of declared size zero do not fail, as nobody looks at their source, and
      no file is too large. */
  lemma ParallelFailsWith(f: File, pipe: Pipeline)
    ensures f.snap.isDir || f.snap.usize == 0 ==> CompressFile(f, pipe) == Encoding([], Prepared(f), None)
    ensures !f.snap.isDir && f.snap.usize != 0 ==>
              CompressFile(f, pipe).err == if Delivers(f, pipe) then None else Failure(f, false, pipe)
  {
    FailsWith(f, false, pipe);
    if f.snap.usize != 0 && f.source.Content? {
      assert OutputOf(f, pipe) == pipe.encode(f.snap.config, f.source.data, f.source.draw);
    }
  }

  // ---------------------------------------------------------------- what is written

  /** A descriptor follows the data exactly if the destination cannot seek and the file is neither a
      directory nor encrypted nor one of Deflate64; then, and otherwise only if it was on before, the
      flag for that is on in both headers. */
  lemma DescriptorIff(f: File, isSeeker: bool, pipe: Pipeline, r: Record, at: nat)
    requires Written(f, isSeeker, pipe, r) && RecordOk(r, at)
    ensures var follows := !isSeeker && !f.snap.isDir && f.snap.config.encryption == NotEncrypted
                           && f.snap.config.scheme != 9;
            && (r.descriptor != [] <==> follows)
            && (Bit(r.local.flags, 3) <==> follows || Bit(f.snap.flags, 3))
            && (Bit(r.central.flags, 3) <==> follows || Bit(f.snap.flags, 3))
  {
    var p := Prepared(f).(offset := r.snap.offset);
    var t := StreamSnap(p, isSeeker);
    EncodeMeaning(if Streams(f, isSeeker) then t else p, f.source, pipe);
    SetBitExactly(p.flags, DESCRIPTOR, DESCRIPTOR);
    FlagBits(r.snap);
    FlagBits(t);
    FlagBits(p);
  }

  /** The contents of a file go through the pipeline, and its CRC, that of the contents, into both
      headers; only encrypted AES entries show none.  Without a descriptor the local header shows it, with
      one the descriptor does. */
  lemma ContentsWritten(f: File, isSeeker: bool, pipe: Pipeline, r: Record, at: nat)
    requires Written(f, isSeeker, pipe, r) && RecordOk(r, at) && f.source.Content? && !f.snap.isDir
    ensures var (e, data) := (OutputOf(f, pipe), f.source.data);
            var crc := if EncodedWith(f).encryption == Aes256 then 0 else pipe.crc(data);
            && e.ok && r.payload == e.out && r.central.crc == crc
            && r.central.usize == Min(0xFFFF_FFFF, |data|) && r.central.csize == Min(0xFFFF_FFFF, |e.out|)
            && (r.descriptor == [] ==>
                  (r.local.crc, r.local.usize, r.local.csize) == (crc, r.central.usize, r.central.csize))
            && (r.descriptor != [] ==> r.descriptor == EncodeDescriptor(crc, |e.out|, |data|))
  {
    var p := Prepared(f).(offset := r.snap.offset);
    assert p.config == EncodedWith(f);
    var t := StreamSnap(p, isSeeker);
    EncodeMeaning(if Streams(f, isSeeker) then t else p, f.source, pipe);
    SmallClamp(|f.source.data|);
    SmallClamp(|r.payload|);
  }

  lemma SmallClamp(n: nat)
    ensures Clamp(n) == Min(0xFFFF_FFFF, n) && (n <= MAX_UINT32 ==> ToU32(n) == n)
  {
  }

  /** Nothing of a failed file stays in the destination exactly if it was one that is encoded to a
      temporary file first: a directory, an encrypted file, for a destination that can seek one of
      unknown size, for any other one of Deflate64. */
  lemma LeavesNothingIff(f: File, offset: int, isSeeker: bool, pipe: Pipeline)
    ensures Leftover(f, offset, isSeeker, pipe) == [] <==>
            || f.snap.isDir || f.snap.config.encryption != NotEncrypted
            || (if isSeeker then f.snap.usize == -1 else f.snap.config.scheme == 9)
  {
    if Streams(f, isSeeker) {
      assert |LocalFixed(LocalOf(StreamSnap(Prepared(f).(offset := offset), isSeeker)))| == 30;
    }
  }
}
