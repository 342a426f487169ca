/** `signatureReader`: gives the bytes of a buffered stream up to a four-byte signature, and leaves the
    stream at the signature. */
module SignatureReader {
  import opened Wrappers
  import opened Bytes

  /** `bufio.Reader` over a source in memory.  A peek is limited by the buffer and by what is left. */
  class BufReader {
    const src: bytes
    const size: nat
    var pos: nat

    ghost predicate Valid()
      reads this
    {
      pos <= |src| && size >= 16
    }

    /** What has not been read yet. */
    function Rest(): bytes
      reads this
      requires Valid()
    {
      src[pos..]
    }

    constructor (src: bytes, size: nat)
      requires size >= 16
      ensures Valid() && this.src == src && this.size == size && pos == 0
    {
      this.src, this.size, this.pos := src, size, 0;
    }

    method Peek(n: nat) returns (buf: bytes)
      requires Valid()
      ensures buf == Rest()[..Min(Min(n, size), |Rest()|)]
    {
      buf := src[pos..pos + Min(Min(n, size), |src| - pos)];
    }

    /** Reads bytes that have been peeked. */
    method Read(n: nat) returns (out: bytes)
      requires Valid() && n <= |Rest()|
      modifies this
      ensures Valid() && out == old(Rest())[..n] && Rest() == old(Rest())[n..]
    {
      out := src[pos..pos + n];
      pos := pos + n;
    }
  }

  /** What stands in a window stands in the whole, at the same place. */
  lemma WindowSig(s: bytes, sig: bytes, k: nat, i: nat)
    requires k <= |s|
    ensures SigAt(s[..k], sig, i) <==> i + |sig| <= k && SigAt(s, sig, i)
  {
    if i + |sig| <= k {
      assert s[..k][i..i + |sig|] == s[i..i + |sig|];
    }
  }

  lemma FirstUnique(s: bytes, sig: bytes, i: nat)
    requires SigAt(s, sig, i) && forall j: nat :: j < i ==> !SigAt(s, sig, j)
    ensures First(s, sig, 0) == Some(i)
  {
  }

  /** After `n` bytes before the first signature are gone, it is `n` bytes nearer. */
  lemma FirstShifts(s: bytes, sig: bytes, n: nat)
    requires n <= |s|
    requires First(s, sig, 0).Some? ==> n <= First(s, sig, 0).value
    ensures First(s, sig, 0).Some? ==> First(s[n..], sig, 0) == Some(First(s, sig, 0).value - n)
    ensures First(s, sig, 0).None? ==> First(s[n..], sig, 0) == None
  {
    forall j: nat
      ensures SigAt(s[n..], sig, j) <==> SigAt(s, sig, n + j)
    {
      if n + j + |sig| <= |s| {
        assert s[n..][j..j + |sig|] == s[n + j..n + j + |sig|];
      }
    }
    if First(s, sig, 0).Some? {
      FirstUnique(s[n..], sig, First(s, sig, 0).value - n);
    }
  }

  /** A window without a signature rules out its places. */
  lemma WindowEmpty(s: bytes, sig: bytes, k: nat)
    requires k <= |s| && First(s[..k], sig, 0).None?
    ensures First(s, sig, 0).Some? ==> First(s, sig, 0).value + |sig| > k
  {
    if First(s, sig, 0).Some? {
      WindowSig(s, sig, k, First(s, sig, 0).value);
    }
  }

  lemma WindowHit(s: bytes, sig: bytes, k: nat)
    requires k <= |s| && First(s[..k], sig, 0).Some?
    ensures First(s, sig, 0) == First(s[..k], sig, 0)
  {
    var i := First(s[..k], sig, 0).value;
    WindowSig(s, sig, k, i);
    forall j: nat | j < i
      ensures !SigAt(s, sig, j)
    {
      WindowSig(s, sig, k, j);
    }
    FirstUnique(s, sig, i);
  }

  class SignatureReader {
    const r: BufReader
    const sig: bytes
    var found: bool

    ghost predicate Valid()
      reads this, r
    {
      r.Valid() && |sig| == 4 && (found ==> First(r.Rest(), sig, 0) == Some(0))
    }

    constructor (r: BufReader, sig: bytes)
      requires r.Valid() && |sig| == 4
      ensures Valid() && this.r == r && this.sig == sig && !found
    {
      this.r, this.sig, this.found := r, sig, false;
    }

    /** One read into a buffer of `n` bytes.  It never passes the signature, makes progress, and ends
        exactly at the signature or with less than four bytes left. */
    method Read(n: nat) returns (out: bytes, eof: bool)
      requires Valid()
      modifies this, r
      ensures Valid() && |out| <= n && |out| <= |old(r.Rest())|
      ensures out == old(r.Rest())[..|out|] && r.Rest() == old(r.Rest())[|out|..]
      ensures var f := First(old(r.Rest()), sig, 0);
              && (f.Some? ==> |out| <= f.value && (eof ==> |out| == f.value))
              && (f.None? ==> (eof ==> out == [] && |r.Rest()| < 4) && (|old(r.Rest())| >= 4 ==> |r.Rest()| >= 3))
              && (f.None? && |old(r.Rest())| < 4 ==> out == [])
      ensures n > 0 && !eof ==> |out| > 0
    {
      if found {
        return [], true;
      }
      ghost var rest := r.Rest();
      var buf := r.Peek(n + 4);
      var idx := First(buf, sig, 0);
      if idx.Some? {
        WindowHit(rest, sig, |buf|);
        FirstShifts(rest, sig, Min(n, idx.value));
        var limit := Min(n, idx.value);
        out := r.Read(limit);
        found := idx.value <= n;
        return out, found;
      }
      WindowEmpty(rest, sig, |buf|);
      if |buf| < 4 {
        return [], true;
      }
      FirstShifts(rest, sig, Min(n, |buf| - 3));
      out := r.Read(Min(n, |buf| - 3));
      return out, false;
    }
  }

  lemma Advance(rest: bytes, here: nat, n: nat)
    requires here + n <= |rest|
    ensures rest[here..][n..] == rest[here + n..] && rest[..here] + rest[here..][..n] == rest[..here + n]
  {
  }

  /** How much of a stream is copied in front of the signature. */
  function CopyLength(rest: bytes, sig: bytes): (n: nat)
    ensures n <= |rest|
  {
    var f := First(rest, sig, 0);
    if f.Some? then f.value else |rest| - Min(3, |rest|)
  }

  /** After `done` bytes. */
  ghost predicate Copied(s: SignatureReader, rest: bytes, done: nat)
    reads s, s.r
  {
    s.Valid() && done <= CopyLength(rest, s.sig) && s.r.Rest() == rest[done..]
  }

  method CopyNext(s: SignatureReader, n: nat, ghost rest: bytes, ghost done: nat) returns (more: bytes, eof: bool)
    requires n > 0 && Copied(s, rest, done)
    modifies s, s.r
    ensures Copied(s, rest, done + |more|) && more == rest[done..done + |more|]
    ensures if eof then done + |more| == CopyLength(rest, s.sig) else more != []
  {
    FirstShifts(rest, s.sig, done);
    more, eof := s.Read(n);
    Advance(rest, done, |more|);
  }

  /** `io.Copy` from a signature reader, with any positive buffer sizes: the output is exactly what
      stands before the first signature, and the stream is left at it; without a signature the last
      three bytes stay. */
  method Drain(s: SignatureReader, sizes: nat -> nat) returns (out: bytes)
    requires s.Valid() && forall i :: sizes(i) > 0
    modifies s, s.r
    ensures s.Valid()
    ensures var (rest, n) := (old(s.r.Rest()), CopyLength(old(s.r.Rest()), s.sig));
            out == rest[..n] && s.r.Rest() == rest[n..]
  {
    ghost var rest := s.r.Rest();
    out := [];
    var i, eof := 0, false;
    while !eof
      invariant Copied(s, rest, |out|) && out == rest[..|out|] && (eof ==> |out| == CopyLength(rest, s.sig))
      decreases !eof, |rest| - |out|
    {
      ghost var done := |out|;
      var more;
      more, eof := CopyNext(s, sizes(i), rest, done);
      out := out + more;
      i := i + 1;
    }
  }
}
