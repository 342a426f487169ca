/** The buffers behind the writers: `memoryBuffer`, which can be written anywhere and read back, and
    `spillBuffer`, which moves its contents to a file when they grow. */
module Buffers {
  import opened Wrappers
  import opened Bytes

  /** `p` written over `old` at a position inside it or at its end. */
  function Overwritten(s: bytes, pos: nat, p: bytes): bytes
    requires pos <= |s|
  {
    s[..pos] + p + if pos + |p| < |s| then s[pos + |p|..] else []
  }

  /** Reading back what was written; everything else is as before. */
  lemma OverwrittenParts(s: bytes, pos: nat, p: bytes)
    requires pos <= |s|
    ensures var r := Overwritten(s, pos, p);
            && |r| == (if pos + |p| < |s| then |s| else pos + |p|)
            && r[..pos] == s[..pos] && r[pos..pos + |p|] == p
            && (pos + |p| < |s| ==> r[pos + |p|..] == s[pos + |p|..])
  {
  }

  /** The front of the storage after `p` was copied into it. */
  lemma FrontAfter(base: bytes, len: nat, pos: nat, p: bytes)
    requires len <= |base| && pos + |p| <= |base|
    ensures var (r, n) := (base[..pos] + p + base[pos + |p|..], if pos + |p| > len then pos + |p| else len);
            && |r| == |base|
            && (pos <= len ==> r[..n] == Overwritten(base[..len], pos, p))
            && (pos > len ==> r[..n] == base[..pos] + p)
  {
  }

  class MemoryBuffer {
    var data: array<byte>
    var len: nat
    var pos: nat

    ghost predicate Valid()
      reads this
    {
      len <= data.Length
    }

    ghost function Contents(): bytes
      reads this, data
      requires Valid()
    {
      data[..len]
    }

    constructor (capacity: nat)
      ensures Valid() && Contents() == [] && pos == 0 && fresh(data)
    {
      data := new byte[capacity](_ => 0);
      len, pos := 0, 0;
    }

    method Read(n: nat) returns (out: bytes)
      requires Valid()
      modifies this`pos
      ensures Valid() && pos == old(pos) + |out|
      ensures old(pos) <= len ==> |out| == Min(n, len - old(pos)) && out == Contents()[old(pos)..pos]
      ensures old(pos) > len ==> out == []
    {
      if pos >= len {
        return [];
      }
      var k := Min(n, len - pos);
      out := data[pos..pos + k];
      assert out == data[..len][pos..pos + k];
      pos := pos + k;
    }

    /** Room for `required` bytes, at least doubling the capacity. */
    method Grow(required: nat)
      requires Valid()
      modifies this`data
      ensures Valid() && Contents() == old(Contents()) && required <= data.Length
      ensures required <= old(data.Length) ==> data == old(data)
      ensures required > old(data.Length) ==> fresh(data) && forall i :: len <= i < data.Length ==> data[i] == 0
    {
      if required > data.Length {
        var newCap := if data.Length * 2 > required then data.Length * 2 else required;
        if newCap < 64 {
          newCap := 64;
        }
        var newData := new byte[newCap](_ => 0);
        forall i | 0 <= i < len {
          newData[i] := data[i];
        }
        assert newData[..len] == data[..len];
        data := newData;
      }
    }

    /** Writing inside the contents or at their end replaces and extends them.  After a seek beyond the
        end, what the gap holds depends on the capacity: zeros in a new array, but whatever an earlier
        use has left there in the old one. */
    method Write(p: bytes)
      requires Valid()
      modifies this, data
      ensures Valid() && pos == old(pos) + |p| && (data == old(data) || fresh(data))
      ensures old(pos) <= old(len) ==> Contents() == Overwritten(old(Contents()), old(pos), p)
      ensures old(pos) > old(len) ==>
                && len == old(pos) + |p| && Contents()[..old(len)] == old(Contents()) && Contents()[old(pos)..] == p
                && forall i :: old(len) <= i < old(pos) ==>
                     Contents()[i] == if old(pos) + |p| > old(data.Length) then 0 else old(data[..])[i]
    {
      var required := pos + |p|;
      Grow(required);
      FrontAfter(data[..], len, pos, p);
      Put(p);
      if required > len {
        len := required;
      }
      pos := required;
    }

    method Put(p: bytes)
      requires pos + |p| <= data.Length
      modifies data
      ensures data[..] == old(data[..])[..pos] + p + old(data[..])[pos + |p|..]
    {
      forall i | 0 <= i < |p| {
        data[pos + i] := p[i];
      }
    }

    method Seek(newPos: nat)
      requires Valid()
      modifies this`pos
      ensures Valid() && pos == newPos && Contents() == old(Contents())
    {
      pos := newPos;
    }

    /** The storage is kept for the next use. */
    method Reset()
      requires Valid()
      modifies this`len, this`pos
      ensures Valid() && Contents() == [] && pos == 0 && data == old(data)
    {
      len, pos := 0, 0;
    }
  }

  /** A buffer that is used again, written beyond its end: bytes of the first use show up in the second. */
  method StaleBytes() returns (s: bytes)
    ensures s == [1, 2, 9]
  {
    var b := new MemoryBuffer(64);
    b.Write([1, 2, 3]);
    assert b.Contents() == [1, 2, 3];
    assert b.data[..][..3] == b.Contents();
    b.Reset();
    b.Seek(2);
    b.Write([9]);
    b.Seek(0);
    ghost var c := b.Contents();
    assert c[..0] == [] && c[2..] == [9];
    assert c == [1, 2, 9];
    s := b.Read(3);
  }

  // ---------------------------------------------------------------- the spill buffer

  class SpillBuffer {
    const threshold: nat
    var mem: bytes
    var disk: Option<bytes>

    /** The contents are in one place, and in memory only up to the threshold. */
    ghost predicate Valid()
      reads this
    {
      |mem| <= threshold && (disk.Some? ==> mem == [])
    }

    function Contents(): bytes
      reads this
    {
      if disk.Some? then disk.value else mem
    }

    constructor (threshold: nat)
      ensures Valid() && Contents() == [] && this.threshold == threshold
    {
      this.threshold, mem, disk := threshold, [], None;
    }

    method SpillToDisk()
      requires Valid() && disk.None?
      modifies this
      ensures Valid() && disk.Some? && Contents() == old(Contents())
    {
      disk := Some(mem);
      mem := [];
    }

    method Write(p: bytes)
      requires Valid()
      modifies this
      ensures Valid() && Contents() == old(Contents()) + p
    {
      if disk.Some? {
        disk := Some(disk.value + p);
        return;
      }
      if |mem| + |p| <= threshold {
        mem := mem + p;
        return;
      }
      SpillToDisk();
      disk := Some(disk.value + p);
    }
  }
}
