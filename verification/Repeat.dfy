/** Items encoded one after the other, and a reader that takes one item at a time. */
module Repeat {
  import opened Wrappers
  import opened Bytes

  function EncodeAll<T>(enc: T -> bytes, items: seq<T>): bytes {
    if items == [] then [] else EncodeAll(enc, items[..|items| - 1]) + enc(items[|items| - 1])
  }

  function Prepend<T>(items: seq<T>, more: Option<seq<T>>): Option<seq<T>> {
    if more.None? then None else Some(items + more.value)
  }

  /** The next `n` items; None when one of them cannot be read. */
  function ReadN<T>(read: bytes -> Option<(T, bytes)>, src: bytes, n: nat): Option<seq<T>>
    decreases n
  {
    if n == 0 then Some([])
    else
      var first := read(src);
      if first.None? then None else Prepend([first.value.0], ReadN(read, first.value.1, n - 1))
  }

  lemma PrependTwice<T>(a: seq<T>, b: seq<T>, more: Option<seq<T>>)
    ensures Prepend(a, Prepend(b, more)) == Prepend(a + b, more)
  {
    if more.Some? {
      assert a + (b + more.value) == a + b + more.value;
    }
  }

  lemma PrependNone<T>(more: Option<seq<T>>)
    ensures Prepend([], more) == more
  {
    if more.Some? {
      assert [] + more.value == more.value;
    }
  }

  function Map<T, U>(view: T -> U, items: seq<T>): (r: seq<U>)
    ensures |r| == |items|
  {
    if items == [] then [] else Map(view, items[..|items| - 1]) + [view(items[|items| - 1])]
  }

  lemma {:induction false} MapAt<T, U>(view: T -> U, items: seq<T>, i: nat)
    requires i < |items|
    ensures Map(view, items)[i] == view(items[i])
  {
    if i < |items| - 1 {
      MapAt(view, items[..|items| - 1], i);
    }
  }

  /** Reading as many items as were written gives those items, if each single one reads back whatever
      follows it. */
  lemma {:induction false} ReadWrittenItems<T, U>(read: bytes -> Option<(U, bytes)>, enc: T -> bytes, view: T -> U,
                                                  items: seq<T>, rest: bytes, k: nat)
    requires forall x, r :: x in items ==> read(enc(x) + r) == Some((view(x), r))
    ensures ReadN(read, EncodeAll(enc, items) + rest, |items| + k) == Prepend(Map(view, items), ReadN(read, rest, k))
  {
    if items == [] {
      assert EncodeAll(enc, items) + rest == rest;
      PrependNone(ReadN(read, rest, k));
    } else {
      var init, x := items[..|items| - 1], items[|items| - 1];
      assert x in items && items == init + [x];
      assert EncodeAll(enc, items) + rest == EncodeAll(enc, init) + (enc(x) + rest);
      ReadWrittenItems(read, enc, view, init, enc(x) + rest, k + 1);
      PrependTwice(Map(view, init), [view(x)], ReadN(read, rest, k));
    }
  }
}
