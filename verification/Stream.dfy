/** `StreamReader`: reading an archive from front to back without its directory. */
module Stream {
  import opened Wrappers
  import opened Bytes
  import opened Headers
  import opened ExtraField
  import opened Snapshot
  import opened SignatureReader
  import W = Writer

  // ---------------------------------------------------------------- one entry, as functions of the stream

  function DescriptorSig(): bytes {
    LE(4, W.DESCRIPTOR_SIGNATURE)
  }

  /** How many bytes `readDataDescriptor` takes, with or without a signature in front. */
  function DescriptorWidth(rest: bytes, zip64: bool): nat {
    (if |rest| >= 4 && rest[..4] == DescriptorSig() then 8 else 4) + (if zip64 then 16 else 8)
  }

  datatype Descriptor = Descriptor(crc: u32, csize: int, usize: int)

  function DescriptorAt(rest: bytes, zip64: bool): Option<Descriptor> {
    if |rest| < DescriptorWidth(rest, zip64) then None
    else
      var o := if rest[..4] == DescriptorSig() then 4 else 0;
      if zip64 then Some(Descriptor(U32(rest[o..o + 4]), ToInt64(U64(rest[o + 4..o + 12])),
                                    ToInt64(U64(rest[o + 12..o + 20]))))
      else Some(Descriptor(U32(rest[o..o + 4]), U32(rest[o + 4..o + 8]), U32(rest[o + 8..o + 12])))
  }

  function ConfOfLocal(h: LocalHeader): Conf {
    ConfOf(SharedOfLocal(h))
  }

  predicate Flagged(h: LocalHeader) {
    Bit(h.flags, DESCRIPTOR)
  }

  /** The reader of an opened entry, below decryption and decompression. */
  datatype Raw = Limited(left: int) | UntilSignature | Unlimited

  /** An opened entry; `ended` when its descriptor has been read. */
  datatype Opened = Opened(raw: Raw, ended: bool)

  /** The current entry, with the compressed size that `OpenRaw` may have changed. */
  datatype Current = Current(h: LocalHeader, csize: int, reading: Option<Opened>)

  /** The reader between two calls: the current entry, and the stream. */
  datatype State = State(cur: Option<Current>, rest: bytes)

  /** What is left after the data descriptor; None when it is not complete. */
  function AfterDescriptor(rest: bytes, h: LocalHeader): Option<bytes> {
    var w := DescriptorWidth(rest, ConfOfLocal(h).hasZip64);
    if |rest| < w then None else Some(rest[w..])
  }

  /** What is left of the stream after the data of an entry that was not opened has been skipped; None
      on an error. */
  function AfterSkip(rest: bytes, h: LocalHeader, csize: int): Option<bytes> {
    if Flagged(h) then
      var f := First(rest, DescriptorSig(), 0);
      if f.None? then None else AfterDescriptor(rest[f.value..], h)
    else if csize > |rest| then None else if csize <= 0 then Some(rest) else Some(rest[csize..])
  }

  /** How many bytes an opened entry gives until it reports the end. */
  function DataLength(o: Opened, rest: bytes): (n: nat)
    ensures n <= |rest|
  {
    if o.ended then 0
    else
      match o.raw
      case Limited(left) => if left <= 0 then 0 else Min(left, |rest|)
      case UntilSignature => CopyLength(rest, DescriptorSig())
      case Unlimited => |rest|
  }

  /** What is left of the stream when an opened entry has been read to its end. */
  function AfterOpened(rest: bytes, h: LocalHeader, o: Opened): Option<bytes> {
    var more := rest[DataLength(o, rest)..];
    if Flagged(h) && !o.ended then AfterDescriptor(more, h) else Some(more)
  }

  /** Where the next header is looked for. */
  function After(s: State): Option<bytes> {
    if s.cur.None? then Some(s.rest)
    else
      var c := s.cur.value;
      if c.reading.None? then AfterSkip(s.rest, c.h, c.csize) else AfterOpened(s.rest, c.h, c.reading.value)
  }

  datatype Result = Entry(h: LocalHeader) | End | Failed

  function NextHeader(rest: bytes): (Result, State) {
    if rest == [] then (End, State(None, rest))
    else if |rest| < 4 then (Failed, State(None, rest))
    else if U32(rest[..4]) == LOCAL_SIGNATURE then
      match ReadLocal(rest[4..])
      case None => (Failed, State(None, rest))
      case Some((h, more)) => (Entry(h), State(Some(Current(h, ConfOfLocal(h).csize, None)), more))
    else if U32(rest[..4]) == CENTRAL_SIGNATURE then (End, State(None, rest[4..]))
    else (Failed, State(None, rest[4..]))
  }

  /** `Next`. */
  function Step(s: State): (Result, State) {
    var after := After(s);
    if after.None? then (Failed, State(None, s.rest)) else NextHeader(after.value)
  }

  /** Entries whose data is what the raw reader gives. */
  predicate Plain(h: LocalHeader) {
    ConfOfLocal(h).scheme == STORE && !Bit(h.flags, ENCRYPTED)
  }

  /** The raw reader that `OpenRaw` gives for a stored entry. */
  function RawOf(h: LocalHeader): Raw {
    var size := ConfOfLocal(h).usize;
    if Flagged(h) && size == 0 then UntilSignature else Limited(size)
  }

  /** The raw reader for any entry: without a size, the end of other data is left to the decompressor. */
  function RawFor(c: Current): Raw {
    if ConfOfLocal(c.h).scheme == STORE then RawOf(c.h)
    else if Flagged(c.h) && c.csize == 0 then Unlimited
    else Limited(c.csize)
  }

  /** `OpenRaw` replaces the compressed size of a stored entry by its uncompressed size. */
  function RawOpened(c: Current): Current {
    if ConfOfLocal(c.h).scheme == STORE then c.(csize := ConfOfLocal(c.h).usize) else c
  }

  function OpenedEntry(c: Current): Current {
    RawOpened(c).(reading := Some(Opened(RawFor(c), false)))
  }

  datatype ReadError = NoDescriptor | BadChecksum | BadSize

  /** The comparison at the end of an opened entry with a descriptor. */
  function Judge(d: Option<Descriptor>, crc: u32, size: nat, skipCRC: bool): Option<ReadError> {
    if d.None? then Some(NoDescriptor)
    else if skipCRC then None
    else if crc != d.value.crc then Some(BadChecksum)
    else if size != d.value.usize % 0x1_0000_0000_0000_0000 then Some(BadSize)
    else None
  }

  /** What the end of an opened entry will report, with `given` already read. */
  function Verdict(c: Current, rest: bytes, given: bytes, crc: bytes -> u32, skipCRC: bool): Option<ReadError>
    requires c.reading.Some?
  {
    var n := DataLength(c.reading.value, rest);
    if !Flagged(c.h) || c.reading.value.ended then None
    else Judge(DescriptorAt(rest[n..], ConfOfLocal(c.h).hasZip64), crc(given + rest[..n]), |given| + n, skipCRC)
  }

  // ---------------------------------------------------------------- the reader

  class StreamReader {
    const br: BufReader
    const crc: bytes -> u32
    var cur: Option<Current>
    var sigR: SignatureReader?
    /** What has been read from the opened entry. */
    var given: bytes
    var skipCRC: bool

    ghost predicate Valid()
      reads this, br, sigR
    {
      br.Valid() && (Scanning() ==> sigR != null && sigR.r == br && sigR.sig == DescriptorSig() && sigR.Valid())
    }

    /** An entry is open that ends at the signature of its descriptor. */
    predicate Scanning()
      reads this
    {
      cur.Some? && cur.value.reading.Some? && cur.value.reading.value.raw.UntilSignature?
        && !cur.value.reading.value.ended
    }

    predicate IsOpen()
      reads this
    {
      cur.Some? && cur.value.reading.Some?
    }

    ghost function Now(): State
      reads this, br
      requires br.Valid()
    {
      State(cur, br.Rest())
    }

    /** The bytes the opened entry still gives. */
    ghost function Left(): nat
      reads this, br
      requires br.Valid() && IsOpen()
    {
      DataLength(cur.value.reading.value, br.Rest())
    }

    /** What the end of the opened entry will report. */
    ghost function AtItsEnd(): Option<ReadError>
      reads this, br
      requires br.Valid() && IsOpen()
    {
      Verdict(cur.value, br.Rest(), given, crc, skipCRC)
    }

    constructor (br: BufReader, crc: bytes -> u32)
      requires br.Valid()
      ensures Valid() && this.br == br && this.crc == crc && Now() == State(None, br.Rest()) && sigR == null && !skipCRC
    {
      this.br, this.crc, cur, sigR, given, skipCRC := br, crc, None, null, [], false;
    }

    /** 16 or 24 bytes, or four less when there is no signature. */
    method ReadDataDescriptor(zip64: bool) returns (d: Option<Descriptor>)
      requires Valid() && !Scanning()
      modifies br
      ensures Valid() && d == DescriptorAt(old(br.Rest()), zip64)
      ensures d.Some? ==> br.Rest() == old(br.Rest())[DescriptorWidth(old(br.Rest()), zip64)..]
    {
      ghost var rest := br.Rest();
      if |br.Rest()| < 4 {
        return None;
      }
      var head := br.Read(4);
      var n := if head == DescriptorSig() then (if zip64 then 20 else 12) else (if zip64 then 16 else 8);
      if |br.Rest()| < n {
        return None;
      }
      var body := br.Read(n);
      assert rest[4..][n..] == rest[4 + n..];
      Shifted(rest, n);
      var buf := head + body;
      assert buf == rest[..4 + n];
      var o := if head == DescriptorSig() then 4 else 0;
      return if zip64 then Some(Descriptor(U32(buf[o..o + 4]), ToInt64(U64(buf[o + 4..o + 12])),
                                           ToInt64(U64(buf[o + 12..o + 20]))))
        else Some(Descriptor(U32(buf[o..o + 4]), U32(buf[o + 4..o + 8]), U32(buf[o + 8..o + 12])));
    }

    method OpenRaw() returns (raw: Raw)
      requires Valid() && cur.Some? && cur.value.reading.None?
      modifies this`cur
      ensures Valid() && Now() == old(Now()).(cur := Some(RawOpened(old(cur).value))) && raw == RawFor(old(cur).value)
    {
      var c := cur.value;
      var stored := ConfOfLocal(c.h).scheme == STORE;
      if stored {
        c := c.(csize := ConfOfLocal(c.h).usize);
        cur := Some(c);
      }
      if Flagged(c.h) && c.csize == 0 {
        return if stored then UntilSignature else Unlimited;
      }
      return Limited(c.csize);
    }

    /** `Open` for a stored entry that is not encrypted. */
    method Open()
      requires Valid() && cur.Some? && cur.value.reading.None? && Plain(cur.value.h)
      modifies this
      ensures Valid() && Now() == old(Now()).(cur := Some(OpenedEntry(old(cur).value)))
      ensures given == [] && skipCRC == old(skipCRC) && (sigR == old(sigR) || fresh(sigR))
    {
      var raw := OpenRaw();
      if raw.UntilSignature? {
        sigR := new SignatureReader(br, DescriptorSig());
      }
      cur := Some(cur.value.(reading := Some(Opened(raw, false))));
      given := [];
    }

    /** One read from an opened entry, into a buffer of `n` bytes.  Neither where the next header is
        looked for nor what the end will report depends on how much is read. */
    method Read(n: nat) returns (out: bytes, eof: bool, err: Option<ReadError>)
      requires Valid() && IsOpen() && n > 0
      modifies this`cur, this`given, br, sigR
      ensures Valid() && |out| <= n && |out| <= old(Left()) && out == old(br.Rest())[..|out|]
              && given == old(given) + out
      ensures !eof ==> out != [] && br.Rest() == old(br.Rest())[|out|..] && err.None? && IsOpen()
      ensures !eof ==> AtItsEnd() == old(AtItsEnd()) && (Ended() <==> old(Ended()))
      ensures eof ==> err == old(AtItsEnd()) && |out| == old(Left())
      ensures err != Some(NoDescriptor) ==>
              IsOpen() && After(Now()) == old(After(Now())) && Left() == old(Left()) - |out|
      ensures err != Some(NoDescriptor) && eof ==> Left() == 0 && After(Now()) == Some(br.Rest())
      ensures err == Some(NoDescriptor) ==> old(After(Now())) == None
    {
      if cur.value.reading.value.ended {
        assert given + [] == given;
        return [], true, None;
      }
      out, eof := ReadRaw(n);
      err := None;
      if eof && Flagged(cur.value.h) {
        err := AtEnd();
      }
    }

    predicate Ended()
      reads this
      requires IsOpen()
    {
      cur.value.reading.value.ended
    }

    /** The same below the check at the end.  That more comes than the declared size cannot happen: a
        limited reader ends there, and without a declared size nothing is compared before the end. */
    method ReadRaw(n: nat) returns (out: bytes, eof: bool)
      requires Valid() && IsOpen() && n > 0 && !Ended()
      modifies this`cur, this`given, br, sigR
      ensures Valid() && |out| <= n && |out| <= old(Left()) && out == old(br.Rest())[..|out|]
              && given == old(given) + out
      ensures br.Rest() == old(br.Rest())[|out|..] && (!eof ==> out != [])
      ensures IsOpen() && !Ended() && cur.value.h == old(cur).value.h
      ensures After(Now()) == old(After(Now())) && Left() == old(Left()) - |out| && (eof ==> Left() == 0)
      ensures AtItsEnd() == old(AtItsEnd())
    {
      ghost var c, rest := cur.value, br.Rest();
      if Scanning() {
        out, eof := ReadScanning(n);
      } else {
        out, eof := ReadLimited(n);
      }
      given := given + out;
      VerdictStays(c, cur.value, rest, |out|, old(given), crc, skipCRC);
    }

    method ReadLimited(n: nat) returns (out: bytes, eof: bool)
      requires Valid() && IsOpen() && n > 0 && !Ended() && !Scanning()
      modifies this`cur, br
      ensures Valid() && |out| <= n && |out| <= old(Left()) && out == old(br.Rest())[..|out|]
      ensures br.Rest() == old(br.Rest())[|out|..] && (!eof ==> out != [])
      ensures IsOpen() && !Ended() && cur.value.h == old(cur).value.h
      ensures After(Now()) == old(After(Now())) && Left() == old(Left()) - |out| && (eof ==> Left() == 0)
    {
      var o := cur.value.reading.value;
      if |br.Rest()| == 0 || (o.raw.Limited? && o.raw.left <= 0) {
        return [], true;
      }
      ghost var rest := br.Rest();
      out := br.Read(if o.raw.Limited? then Min(n, Min(o.raw.left, |br.Rest()|)) else Min(n, |br.Rest()|));
      if o.raw.Limited? {
        cur := Some(cur.value.(reading := Some(Opened(Limited(o.raw.left - |out|), false))));
      }
      GoesOn(rest, |out|, cur.value.h, o, cur.value.reading.value);
      return out, false;
    }

    method ReadScanning(n: nat) returns (out: bytes, eof: bool)
      requires Valid() && n > 0 && Scanning()
      modifies br, sigR
      ensures Valid() && |out| <= n && |out| <= old(Left()) && out == old(br.Rest())[..|out|]
      ensures br.Rest() == old(br.Rest())[|out|..] && (!eof ==> out != [])
      ensures After(Now()) == old(After(Now())) && Left() == old(Left()) - |out| && (eof ==> Left() == 0)
    {
      ghost var rest := br.Rest();
      out, eof := sigR.Read(n);
      ScanGoesOn(rest, |out|, cur.value.h, cur.value.reading.value);
    }

    /** The raw reader has reported the end: the descriptor is read, once, and compared. */
    method AtEnd() returns (err: Option<ReadError>)
      requires Valid() && IsOpen() && !Ended() && Left() == 0 && Flagged(cur.value.h)
      modifies this`cur, br
      ensures Valid() && err == old(AtItsEnd()) && (err == Some(NoDescriptor) <==> old(After(Now())).None?)
      ensures err != Some(NoDescriptor) ==>
                IsOpen() && Left() == 0 && old(After(Now())) == Some(br.Rest()) && After(Now()) == Some(br.Rest())
    {
      var c := cur.value;
      assert given + br.Rest()[..0] == given && br.Rest()[0..] == br.Rest();
      cur := Some(c.(reading := Some(c.reading.value.(ended := true))));
      var d := ReadDataDescriptor(ConfOfLocal(c.h).hasZip64);
      if d.Some? {
        cur := Some(cur.value.(csize := d.value.csize));
      }
      return Judge(d, crc(given), |given|, skipCRC);
    }

    /** `io.Copy` from an opened entry, with any buffer sizes. */
    method ReadAll(sizes: nat -> nat) returns (out: bytes, err: Option<ReadError>)
      requires Valid() && IsOpen() && forall i :: sizes(i) > 0
      modifies this`cur, this`given, br, sigR
      ensures Valid() && err == old(AtItsEnd()) && (err == Some(NoDescriptor) <==> old(After(Now())).None?)
      ensures out == old(br.Rest())[..old(Left())] && given == old(given) + out
      ensures err != Some(NoDescriptor) ==>
                IsOpen() && Left() == 0 && old(After(Now())) == Some(br.Rest()) && After(Now()) == Some(br.Rest())
    {
      ghost var start, total, after, verdict := br.Rest(), Left(), After(Now()), AtItsEnd();
      assert start[..0] == [] && start[0..] == start && given + [] == given;
      out := [];
      var i := 0;
      while true
        invariant Valid() && ReadSoFar(out, start, total, after, verdict) && given == old(given) + out
        decreases Left()
      {
        var more, eof, e := ReadMore(sizes(i), out, start, total, after, verdict);
        Associate(old(given), out, more);
        out := out + more;
        if eof {
          return out, e;
        }
        i := i + 1;
      }
    }

    /** The opened entry after `out` has been read of `total` bytes. */
    ghost predicate ReadSoFar(out: bytes, start: bytes, total: nat, after: Option<bytes>, verdict: Option<ReadError>)
      reads this, br
    {
      && br.Valid() && IsOpen() && |out| <= |start| && out == start[..|out|] && br.Rest() == start[|out|..]
      && |out| + Left() == total && After(Now()) == after && AtItsEnd() == verdict
    }

    method ReadMore(n: nat, ghost out: bytes, ghost start: bytes, ghost total: nat, ghost after: Option<bytes>,
                    ghost verdict: Option<ReadError>)
      returns (more: bytes, eof: bool, err: Option<ReadError>)
      requires Valid() && n > 0 && ReadSoFar(out, start, total, after, verdict)
      modifies this`cur, this`given, br, sigR
      ensures Valid() && given == old(given) + more
      ensures !eof ==> more != [] && ReadSoFar(out + more, start, total, after, verdict)
      ensures eof ==> total <= |start| && out + more == start[..total] && err == verdict
      ensures eof ==> if err == Some(NoDescriptor) then after == None
                      else IsOpen() && Left() == 0 && after == Some(br.Rest()) && After(Now()) == Some(br.Rest())
    {
      more, eof, err := Read(n);
      Advance(start, |out|, |more|);
    }

    /** `skipRemainingData`; the buffer sizes of the copies are free. */
    method SkipRemainingData(sizes: nat -> nat) returns (ok: bool)
      requires Valid() && !skipCRC && forall i :: sizes(i) > 0
      modifies this, br, sigR
      ensures Valid() && !skipCRC && cur.None?
      ensures ok == old(After(Now())).Some? && (ok ==> Some(br.Rest()) == old(After(Now())))
    {
      if cur.None? {
        return true;
      }
      if IsOpen() {
        skipCRC := true;
        var skipped, err := ReadAll(sizes);
        SkippedVerdict(old(cur).value, old(br.Rest()), old(given), crc);
        skipCRC, cur := false, None;
        return err.None?;
      }
      ok := SkipUnopened(sizes);
    }

    method SkipUnopened(sizes: nat -> nat) returns (ok: bool)
      requires Valid() && cur.Some? && cur.value.reading.None? && forall i :: sizes(i) > 0
      modifies this`cur, br
      ensures Valid() && cur.None? && ok == old(After(Now())).Some? && (ok ==> Some(br.Rest()) == old(After(Now())))
    {
      var c := cur.value;
      cur := None;
      if Flagged(c.h) {
        var scan := new SignatureReader(br, DescriptorSig());
        var skipped := Drain(scan, sizes);
        var d := ReadDataDescriptor(ConfOfLocal(c.h).hasZip64);
        return d.Some?;
      }
      if c.csize > |br.Rest()| {
        return false;
      }
      if c.csize > 0 {
        var skipped := br.Read(c.csize);
      }
      return true;
    }

    /** `Next` is one step. */
    method Next(sizes: nat -> nat) returns (r: Result)
      requires Valid() && !skipCRC && forall i :: sizes(i) > 0
      modifies this, br, sigR
      ensures Valid() && !skipCRC && r == Step(old(Now())).0
      ensures !r.Failed? ==> Now() == Step(old(Now())).1
    {
      var ok := SkipRemainingData(sizes);
      if !ok {
        return Failed;
      }
      r := ReadHeader();
    }

    method ReadHeader() returns (r: Result)
      requires Valid() && cur.None?
      modifies this`cur, br
      ensures Valid() && r == NextHeader(old(br.Rest())).0
      ensures !r.Failed? ==> Now() == NextHeader(old(br.Rest())).1
    {
      ghost var rest := br.Rest();
      if |br.Rest()| < 4 {
        return if |br.Rest()| == 0 then End else Failed;
      }
      var sig := br.Read(4);
      assert sig == rest[..4];
      if U32(sig) == LOCAL_SIGNATURE {
        var entry := ReadLocal(br.Rest());
        if entry.None? {
          return Failed;
        }
        LocalRest(br.Rest());
        var header := br.Read(|br.Rest()| - |entry.value.1|);
        cur := Some(Current(entry.value.0, ConfOfLocal(entry.value.0).csize, None));
        return Entry(entry.value.0);
      }
      return if U32(sig) == CENTRAL_SIGNATURE then End else Failed;
    }
  }

  /** Reading on from a place before the signature. */
  lemma ScanGoesOn(rest: bytes, k: nat, h: LocalHeader, o: Opened)
    requires o.raw.UntilSignature? && !o.ended && k <= |rest|
    requires var f := First(rest, DescriptorSig(), 0);
             if f.Some? then k <= f.value else (|rest| >= 4 ==> |rest| - k >= 3) && (|rest| < 4 ==> k == 0)
    ensures DataLength(o, rest[k..]) == DataLength(o, rest) - k
            && AfterOpened(rest[k..], h, o) == AfterOpened(rest, h, o)
  {
    FirstShifts(rest, DescriptorSig(), k);
    GoesOn(rest, k, h, o, o);
  }

  lemma GoesOn(rest: bytes, k: nat, h: LocalHeader, o: Opened, o': Opened)
    requires k <= DataLength(o, rest) && DataLength(o', rest[k..]) == DataLength(o, rest) - k && o'.ended == o.ended
    ensures AfterOpened(rest[k..], h, o') == AfterOpened(rest, h, o)
  {
    Onward(rest, k, DataLength(o, rest) - k, DataLength(o, rest) - k);
  }

  lemma VerdictStays(c: Current, c': Current, rest: bytes, k: nat, given: bytes, crc: bytes -> u32, skipCRC: bool)
    requires c.reading.Some? && c'.reading.Some? && c'.h == c.h && c'.reading.value.ended == c.reading.value.ended
    requires k <= DataLength(c.reading.value, rest)
    requires DataLength(c'.reading.value, rest[k..]) == DataLength(c.reading.value, rest) - k
    ensures Verdict(c', rest[k..], given + rest[..k], crc, skipCRC) == Verdict(c, rest, given, crc, skipCRC)
  {
    var n := DataLength(c.reading.value, rest);
    Onward(rest, k, 0, n - k);
    assert rest[..k] + rest[k..][..n - k] == rest[..n];
    Associate(given, rest[..k], rest[k..][..n - k]);
  }

  /** Without the comparison only a missing descriptor is an error. */
  lemma SkippedVerdict(c: Current, rest: bytes, given: bytes, crc: bytes -> u32)
    requires c.reading.Some?
    ensures var v := Verdict(c, rest, given, crc, true);
            (v.Some? ==> v.value == NoDescriptor) && (v.None? <==> AfterOpened(rest, c.h, c.reading.value).Some?)
  {
  }

  lemma Shifted(rest: bytes, n: nat)
    requires 4 + n <= |rest|
    ensures rest[..4] + rest[4..][..n] == rest[..4 + n]
    ensures forall i, j :: 0 <= i <= j <= 4 + n ==> rest[..4 + n][i..j] == rest[i..j]
  {
  }

  lemma LocalRest(src: bytes)
    requires ReadLocal(src).Some?
    ensures var more := ReadLocal(src).value.1; |more| <= |src| && more == src[|src| - |more|..]
  {
  }
}
