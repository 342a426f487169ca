/** Searching for a text in content that arrives in chunks, with the end of a chunk carried over. */
module Search {
  import opened Wrappers
  import opened Bytes

  ghost predicate Contains(s: bytes, t: bytes) {
    exists i: nat :: SigAt(s, t, i)
  }

  predicate Has(s: bytes, t: bytes) {
    First(s, t, 0).Some?
  }

  function Flat(chunks: seq<bytes>): bytes {
    if chunks == [] then [] else chunks[0] + Flat(chunks[1..])
  }

  /** What is carried over after a chunk: its end, but only if the chunk is long enough. */
  function Carry(c: bytes, t: bytes, overlap: Option<bytes>): Option<bytes>
    requires t != []
  {
    if |c| >= |t| - 1 then Some(c[|c| - (|t| - 1)..]) else overlap
  }

  /** Whether a chunk, together with what was carried over, shows the text. */
  predicate Hit(c: bytes, t: bytes, overlap: Option<bytes>) {
    (overlap.Some? && Has(overlap.value + c[..Min(|t|, |c|)], t)) || Has(c, t)
  }

  predicate Found(chunks: seq<bytes>, t: bytes, overlap: Option<bytes>)
    requires t != []
  {
    if chunks == [] then false
    else
      var c := chunks[0];
      if c == [] then Found(chunks[1..], t, overlap)
      else Hit(c, t, overlap) || Found(chunks[1..], t, Carry(c, t, overlap))
  }

  /** The loop in `SearchWithContext` for one file; an empty text is never searched for. */
  method SearchFile(chunks: seq<bytes>, t: bytes) returns (found: bool)
    requires t != []
    ensures found == Found(chunks, t, None)
  {
    var overlap: Option<bytes> := None;
    for i := 0 to |chunks|
      invariant Found(chunks[i..], t, overlap) == Found(chunks, t, None)
    {
      ghost var rest := chunks[i..];
      assert rest[0] == chunks[i] && rest[1..] == chunks[i + 1..];
      var c := chunks[i];
      if |c| > 0 {
        if overlap.Some? {
          var combined := overlap.value + c[..Min(|t|, |c|)];
          if Has(combined, t) {
            return true;
          }
        }
        if Has(c, t) {
          return true;
        }
        if |c| >= |t| - 1 {
          overlap := Some(c[|c| - (|t| - 1)..]);
        }
      }
    }
    return false;
  }

  // ---------------------------------------------------------------- when it is right

  /** No chunk that is shorter than the text by two or more is followed by further data. */
  predicate LongEnough(chunks: seq<bytes>, t: bytes) {
    forall i, j :: 0 <= i < j < |chunks| && 0 < |chunks[i]| < |t| - 1 ==> chunks[j] == []
  }

  lemma HasIff(s: bytes, t: bytes)
    ensures Has(s, t) <==> Contains(s, t)
  {
  }

  lemma {:induction false} AllEmpty(chunks: seq<bytes>, t: bytes, overlap: Option<bytes>)
    requires t != [] && forall i :: 0 <= i < |chunks| ==> chunks[i] == []
    ensures Flat(chunks) == [] && !Found(chunks, t, overlap)
  {
    if chunks != [] {
      AllEmpty(chunks[1..], t, overlap);
    }
  }

  /** Where an occurrence in two parts can lie: in the first, in the second, or across, and then in the
      end of the first with the start of the second. */
  lemma Across(before: bytes, c: bytes, t: bytes, o: bytes, d: bytes, i: nat)
    requires t != [] && |before| >= |t| - 1 && o == before[|before| - (|t| - 1)..] && d == o + c[..Min(|t|, |c|)]
    requires SigAt(before + c, t, i)
    ensures i + |t| <= |before| ==> SigAt(before, t, i)
    ensures i >= |before| ==> SigAt(c, t, i - |before|)
    ensures i < |before| < i + |t| ==> SigAt(d, t, i - (|before| - (|t| - 1)))
  {
    var m, s, shift := |t|, before + c, |before| - (|t| - 1);
    MiddlePart(before, c, m);
    if i + m <= |before| {
      assert before[i..i + m] == s[i..i + m];
    } else if i >= |before| {
      Part(s, c, |before|, m, i - |before|);
    } else {
      Part(s, d, shift, m, i - shift);
    }
  }

  lemma AcrossBack(before: bytes, c: bytes, t: bytes, o: bytes, d: bytes, i: nat)
    requires t != [] && |before| >= |t| - 1 && o == before[|before| - (|t| - 1)..] && d == o + c[..Min(|t|, |c|)]
    ensures SigAt(d, t, i) ==> SigAt(before + c, t, i + (|before| - (|t| - 1)))
    ensures SigAt(c, t, i) ==> SigAt(before + c, t, i + |before|)
  {
    MiddlePart(before, c, |t|);
    Part(before + c, d, |before| - (|t| - 1), |t|, i);
    Part(before + c, c, |before|, |t|, i);
  }

  lemma MiddlePart(before: bytes, c: bytes, m: nat)
    requires 0 < m && |before| >= m - 1
    ensures var s, shift, d := before + c, |before| - (m - 1), before[|before| - (m - 1)..] + c[..Min(m, |c|)];
            && s[shift..shift + |d|] == d && s[|before|..|before| + |c|] == c
  {
  }

  lemma Part(s: bytes, d: bytes, shift: nat, m: nat, i: nat)
    ensures i + m <= |d| && shift + |d| <= |s| && s[shift..shift + |d|] == d ==>
            d[i..i + m] == s[i + shift..i + shift + m]
  {
    if i + m <= |d| && shift + |d| <= |s| {
      SubSlice(s, shift, shift + |d|, i, i + m);
    }
  }

  /** An occurrence that ends in the new chunk lies in the chunk or in the carried bytes and its start. */
  lemma StraddleIff(before: bytes, c: bytes, t: bytes, o: bytes)
    requires t != [] && !Contains(before, t)
    requires |before| >= |t| - 1 && o == before[|before| - (|t| - 1)..]
    ensures Contains(before + c, t) <==> Contains(o + c[..Min(|t|, |c|)], t) || Contains(c, t)
  {
    var s, d := before + c, o + c[..Min(|t|, |c|)];
    if Contains(s, t) {
      var i: nat :| SigAt(s, t, i);
      Across(before, c, t, o, d, i);
    }
    if Contains(d, t) {
      var i: nat :| SigAt(d, t, i);
      AcrossBack(before, c, t, o, d, i);
    }
    if Contains(c, t) {
      var i: nat :| SigAt(c, t, i);
      AcrossBack(before, c, t, o, d, i);
    }
  }

  lemma ContainsMore(s: bytes, more: bytes, t: bytes)
    requires Contains(s, t)
    ensures Contains(s + more, t)
  {
    var i: nat :| SigAt(s, t, i);
    assert (s + more)[i..i + |t|] == s[i..i + |t|];
    assert SigAt(s + more, t, i);
  }

  /** What has been carried over stands for everything before. */
  ghost predicate Carried(before: bytes, t: bytes, overlap: Option<bytes>)
    requires t != []
  {
    match overlap
    case None => before == []
    case Some(o) => |before| >= |t| - 1 && o == before[|before| - (|t| - 1)..]
  }

  lemma HitIff(before: bytes, c: bytes, t: bytes, overlap: Option<bytes>)
    requires t != [] && !Contains(before, t) && Carried(before, t, overlap)
    ensures Hit(c, t, overlap) <==> Contains(before + c, t)
    ensures |c| >= |t| - 1 ==> Carried(before + c, t, Carry(c, t, overlap))
  {
    HasIff(c, t);
    if overlap.Some? {
      StraddleIff(before, c, t, overlap.value);
      HasIff(overlap.value + c[..Min(|t|, |c|)], t);
    } else {
      assert before + c == c;
    }
  }

  /** With such chunks the loop reports exactly whether the text occurs in the whole content. */
  lemma {:induction false} SearchRight(before: bytes, chunks: seq<bytes>, t: bytes, overlap: Option<bytes>)
    requires t != [] && !Contains(before, t) && Carried(before, t, overlap) && LongEnough(chunks, t)
    ensures Found(chunks, t, overlap) <==> Contains(before + Flat(chunks), t)
    decreases |chunks|
  {
    if chunks == [] {
      assert before + [] == before;
    } else {
      var c, rest := chunks[0], chunks[1..];
      assert before + c + Flat(rest) == before + (c + Flat(rest));
      assert forall i, j :: 0 <= i < j < |rest| ==> rest[i] == chunks[i + 1] && rest[j] == chunks[j + 1];
      if c == [] {
        assert before + c == before;
        SearchRight(before, rest, t, overlap);
      } else {
        HitIff(before, c, t, overlap);
        if Hit(c, t, overlap) {
          ContainsMore(before + c, Flat(rest), t);
        } else if |c| >= |t| - 1 {
          SearchRight(before + c, rest, t, Carry(c, t, overlap));
        } else {
          assert forall j :: 0 <= j < |rest| ==> rest[j] == chunks[j + 1];
          AllEmpty(rest, t, overlap);
          assert before + c + [] == before + c;
        }
      }
    }
  }

  /** Content shorter than the text is never reported. */
  lemma {:induction false} TooShort(chunks: seq<bytes>, t: bytes, overlap: Option<bytes>)
    requires t != [] && |Flat(chunks)| + (if overlap.Some? then |t| - 1 else 0) < |t|
    ensures !Found(chunks, t, overlap)
    decreases |chunks|
  {
    if chunks != [] {
      assert |Flat(chunks)| == |chunks[0]| + |Flat(chunks[1..])|;
      TooShort(chunks[1..], t, if chunks[0] == [] then overlap else Carry(chunks[0], t, overlap));
    }
  }

  // ---------------------------------------------------------------- when it is not

  /** A carried end that is not followed by the next bytes: a match is invented. */
  lemma MatchInvented()
    ensures Found([[9, 1, 2], [9], [3]], [1, 2, 3], None)
    ensures !Contains(Flat([[9, 1, 2], [9], [3]]), [1, 2, 3])
  {
    var t: bytes := [1, 2, 3];
    var a: bytes, b: bytes, c: bytes := [9, 1, 2], [9], [3];
    assert Carry(a, t, None) == Some([1, 2]);
    assert Carry(b, t, Some([1, 2])) == Some([1, 2]);
    assert [1, 2] + c[..1] == t;
    assert SigAt(t, t, 0);
    HasIff([1, 2] + c[..1], t);
    assert Hit(c, t, Some([1, 2]));
    assert [a, b, c][1..] == [b, c] && [b, c][1..] == [c];
    assert Found([c], t, Some([1, 2]));
    assert Found([b, c], t, Some([1, 2]));
    assert Flat([c]) == c + Flat([]) == c;
    assert Flat([b, c]) == b + c && Flat([a, b, c]) == a + (b + c) == [9, 1, 2, 9, 3];
    var s: bytes := [9, 1, 2, 9, 3];
    assert s[0..3][0] == 9 && s[1..4][2] == 9 && s[2..5][0] == 2;
    assert !SigAt(s, t, 0) && !SigAt(s, t, 1) && !SigAt(s, t, 2);
  }

  /** A one directly followed by a two. */
  ghost predicate Pair(s: bytes) {
    exists k: nat :: k + 1 < |s| && s[k] == 1 && s[k + 1] == 2
  }

  lemma PairInText(s: bytes, t: bytes)
    requires Has(s, t) && Pair(t)
    ensures Pair(s)
  {
    var i := First(s, t, 0).value;
    var k: nat :| k + 1 < |t| && t[k] == 1 && t[k + 1] == 2;
    assert s[i..i + |t|] == t;
    assert s[i + k] == 1 && s[i + k + 1] == 2;
  }

  /** A text with the pair is not found when no chunk has the pair and no chunk that is carried over
      has a one. */
  lemma {:induction false} PairMissed(chunks: seq<bytes>, t: bytes, overlap: Option<bytes>)
    requires t != [] && Pair(t)
    requires forall i :: 0 <= i < |chunks| ==> !Pair(chunks[i]) && (|chunks[i]| >= |t| - 1 ==> 1 !in chunks[i])
    requires overlap.Some? ==> 1 !in overlap.value
    ensures !Found(chunks, t, overlap)
    decreases |chunks|
  {
    if chunks != [] {
      var c := chunks[0];
      NoPair(c, t, overlap);
      PairMissed(chunks[1..], t, if c == [] then overlap else Carry(c, t, overlap));
    }
  }

  lemma NoPair(c: bytes, t: bytes, overlap: Option<bytes>)
    requires Pair(t) && !Pair(c) && (overlap.Some? ==> 1 !in overlap.value)
    ensures !Hit(c, t, overlap)
  {
    if Has(c, t) {
      PairInText(c, t);
    }
    if overlap.Some? {
      var start := c[..Min(|t|, |c|)];
      if Has(overlap.value + start, t) {
        PairInText(overlap.value + start, t);
      }
      PairBehind(overlap.value, start);
      PairInFront(c, |start|);
    }
  }

  lemma NotOne(o: bytes, k: nat)
    requires 1 !in o
    ensures k < |o| ==> o[k] != 1
  {
    assert k < |o| ==> o[k] in o;
  }

  lemma PairBehind(o: bytes, c: bytes)
    requires 1 !in o
    ensures Pair(o + c) ==> Pair(c)
  {
    if Pair(o + c) {
      var k: nat :| k + 1 < |o + c| && (o + c)[k] == 1 && (o + c)[k + 1] == 2;
      NotOne(o, k);
      assert c[k - |o|] == 1 && c[k - |o| + 1] == 2;
    }
  }

  lemma PairInFront(c: bytes, n: nat)
    requires n <= |c|
    ensures Pair(c[..n]) ==> Pair(c)
  {
    if Pair(c[..n]) {
      var k: nat :| k + 1 < n && c[..n][k] == 1 && c[..n][k + 1] == 2;
      assert c[k] == 1 && c[k + 1] == 2;
    }
  }

  // ---------------------------------------------------------------- which chunk lengths are safe

  function Start(lens: seq<nat>, k: nat): nat
    requires k <= |lens|
  {
    if k == 0 then 0 else Start(lens, k - 1) + lens[k - 1]
  }

  lemma {:induction false} StartGrows(lens: seq<nat>, j: nat, k: nat)
    requires j <= k <= |lens|
    ensures Start(lens, j) <= Start(lens, k)
  {
    if j < k {
      StartGrows(lens, j, k - 1);
    }
  }

  predicate LengthsAre(chunks: seq<bytes>, lens: seq<nat>) {
    |chunks| == |lens| && forall i :: 0 <= i < |chunks| ==> |chunks[i]| == lens[i]
  }

  predicate SafeLengths(lens: seq<nat>, m: nat) {
    forall i, j :: 0 <= i < j < |lens| && 0 < lens[i] < m - 1 ==> lens[j] == 0
  }

  /** The content cut into chunks of these lengths. */
  function Cut(content: bytes, lens: seq<nat>, k: nat): (chunks: seq<bytes>)
    requires k <= |lens| && Start(lens, |lens|) == |content|
    ensures |chunks| == |lens| - k
    decreases |lens| - k
  {
    if k == |lens| then []
    else
      StartGrows(lens, k + 1, |lens|);
      [content[Start(lens, k)..Start(lens, k + 1)]] + Cut(content, lens, k + 1)
  }

  lemma {:induction false} CutFlat(content: bytes, lens: seq<nat>, k: nat)
    requires k <= |lens| && Start(lens, |lens|) == |content|
    ensures Start(lens, k) <= |content| && Flat(Cut(content, lens, k)) == content[Start(lens, k)..]
    decreases |lens| - k
  {
    StartGrows(lens, k, |lens|);
    if k < |lens| {
      StartGrows(lens, k + 1, |lens|);
      CutFlat(content, lens, k + 1);
      assert Cut(content, lens, k)[1..] == Cut(content, lens, k + 1);
      TwoParts(content, Start(lens, k), Start(lens, k + 1));
    }
  }

  lemma TwoParts(s: bytes, a: nat, b: nat)
    requires a <= b <= |s|
    ensures s[a..] == s[a..b] + s[b..]
  {
  }

  lemma {:induction false} CutAt(content: bytes, lens: seq<nat>, k: nat, i: nat)
    requires k <= i < |lens| && Start(lens, |lens|) == |content|
    ensures Start(lens, i) <= Start(lens, i + 1) <= |content|
    ensures Cut(content, lens, k)[i - k] == content[Start(lens, i)..Start(lens, i + 1)]
    decreases |lens| - k
  {
    StartGrows(lens, i + 1, |lens|);
    if k < i {
      CutAt(content, lens, k + 1, i);
    }
  }

  /** Content with the pair exactly around position `b`, and a text around it that occurs nowhere else. */
  function Probe(n: nat, b: nat, w: nat, m: nat): (s: bytes)
    ensures |s| == n
  {
    seq(n, i requires 0 <= i < n => if i == b - 1 then 1 else if i == b then 2 else if w <= i < w + m then 0 else 3)
  }

  /** Whenever a short chunk is followed by more data, and there is room for the text at all, some
      content contains a text that the loop misses. */
  lemma TextMissed(lens: seq<nat>, m: nat, i: nat, j: nat) returns (chunks: seq<bytes>, t: bytes)
    requires i < j < |lens| && 0 < lens[i] < m - 1 && lens[j] > 0 && Start(lens, |lens|) >= m
    ensures LengthsAre(chunks, lens) && |t| == m && t != []
    ensures Contains(Flat(chunks), t) && !Found(chunks, t, None)
  {
    var n, b := Start(lens, |lens|), Start(lens, i + 1);
    StartGrows(lens, i + 1, j);
    StartGrows(lens, j + 1, |lens|);
    assert 0 < b < n;
    var w := Min(b - 1, n - m);
    var content := Probe(n, b, w, m);
    t := content[w..w + m];
    chunks := Cut(content, lens, 0);
    CutFlat(content, lens, 0);
    assert content[0..] == content && SigAt(content, t, w);
    assert t[b - 1 - w] == 1 && t[b - 1 - w + 1] == 2;
    forall k: nat | k < |lens|
      ensures |chunks[k]| == lens[k] && !Pair(chunks[k]) && (|chunks[k]| >= m - 1 ==> 1 !in chunks[k])
    {
      CutAt(content, lens, 0, k);
      ProbeChunk(content, lens, m, i, k, w);
    }
    PairMissed(chunks, t, None);
  }

  lemma ProbeChunk(content: bytes, lens: seq<nat>, m: nat, i: nat, k: nat, w: nat)
    requires i < |lens| && k < |lens| && 0 < lens[i] < m - 1
    requires content == Probe(Start(lens, |lens|), Start(lens, i + 1), w, m)
    ensures Start(lens, k) <= Start(lens, k + 1) <= |content|
    ensures var c := content[Start(lens, k)..Start(lens, k + 1)];
            |c| == lens[k] && !Pair(c) && (|c| >= m - 1 ==> 1 !in c)
  {
    var b := Start(lens, i + 1);
    StartGrows(lens, k + 1, |lens|);
    var c := content[Start(lens, k)..Start(lens, k + 1)];
    if k < i {
      StartGrows(lens, k + 1, i);
    } else if k > i {
      StartGrows(lens, i + 1, k);
    }
    assert forall x :: 0 <= x < |c| ==> c[x] == content[Start(lens, k) + x];
    assert k != i ==> 1 !in c;
  }

  /** The loop is right for every content and every text of `m` bytes, read in chunks of these lengths,
      if and only if no short chunk is followed by more data, or there is less data than text. */
  lemma SearchRightIff(lens: seq<nat>, m: nat)
    requires m > 0
    ensures (forall chunks, t :: LengthsAre(chunks, lens) && |t| == m ==>
                    (Found(chunks, t, None) <==> Contains(Flat(chunks), t)))
       <==> SafeLengths(lens, m) || Start(lens, |lens|) < m
  {
    if SafeLengths(lens, m) || Start(lens, |lens|) < m {
      forall chunks, t | LengthsAre(chunks, lens) && |t| == m
        ensures Found(chunks, t, None) <==> Contains(Flat(chunks), t)
      {
        if SafeLengths(lens, m) {
          assert [] + Flat(chunks) == Flat(chunks);
          SearchRight([], chunks, t, None);
        } else {
          FlatLength(chunks, lens, 0);
          TooShort(chunks, t, None);
        }
      }
    } else {
      var i, j :| 0 <= i < j < |lens| && 0 < lens[i] < m - 1 && lens[j] != 0;
      var chunks, t := TextMissed(lens, m, i, j);
      assert LengthsAre(chunks, lens) && |t| == m;
    }
  }

  lemma {:induction false} FlatLength(chunks: seq<bytes>, lens: seq<nat>, k: nat)
    requires k <= |lens| && |chunks| == |lens| - k && forall i :: 0 <= i < |chunks| ==> |chunks[i]| == lens[k + i]
    ensures Start(lens, k) + |Flat(chunks)| == Start(lens, |lens|)
    decreases |chunks|
  {
    if chunks != [] {
      FlatLength(chunks[1..], lens, k + 1);
    }
  }
}
