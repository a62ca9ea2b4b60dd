/** What lies where in raw bytes, said without the printer or the parser: a word is the sum of four bytes by
    their weights, a string is its length and its characters, a list of words its length and its words. */
module RawBytes {
  import opened WireFormat

  predicate WordAt(d: Bytes, p: nat, n: int) {
    p + 4 <= |d| &&
    n == (d[p] as int) * 0x100_0000 + (d[p + 1] as int) * 0x1_0000 + (d[p + 2] as int) * 0x100 + d[p + 3]
  }

  predicate ByteAt(d: Bytes, p: nat, b: int) {
    p < |d| && d[p] == b
  }

  predicate TextAt(d: Bytes, p: nat, s: Bytes) {
    WordAt(d, p, |s|) && p + 4 + |s| <= |d| && d[p + 4..p + 4 + |s|] == s
  }

  predicate WordsAt(d: Bytes, p: nat, arr: seq<UInt32>) {
    WordAt(d, p, |arr|) && forall i | 0 <= i < |arr| :: WordAt(d, p + 4 + 4 * i, arr[i])
  }

  // ----- the byte order of words

  /** The first byte that differs decides. */
  predicate Before(a: Bytes, b: Bytes) {
    exists k | 0 <= k < |a| && k < |b| :: a[k] < b[k] && a[..k] == b[..k]
  }

  lemma WordBytes(n: UInt32)
    ensures var d := PutWord(n);
            n == (d[0] as int) * 0x100_0000 + (d[1] as int) * 0x1_0000 + (d[2] as int) * 0x100 + d[3]
  {
  }

  lemma WordOfBytes(b0: int, b1: int, b2: int, b3: int)
    ensures WordOf(b0, b1, b2, b3) == b0 * 0x100_0000 + b1 * 0x1_0000 + b2 * 0x100 + b3
  {
  }

  /** Words compare as their bytes do, from the first byte on. */
  lemma OrderOfBytes(m: UInt32, n: UInt32)
    ensures m < n <==> Before(PutWord(m), PutWord(n))
  {
    hide PutWord;
    var a, b := PutWord(m), PutWord(n);
    WordBytes(m);
    WordBytes(n);
    if m < n {
      if a[0] != b[0] {
        assert a[0] < b[0] && a[..0] == b[..0];
      } else if a[1] != b[1] {
        assert a[1] < b[1] && a[..1] == b[..1];
      } else if a[2] != b[2] {
        assert a[2] < b[2] && a[..2] == b[..2];
      } else {
        assert a[3] < b[3] && a[..3] == b[..3];
      }
    } else if Before(a, b) {
      var k :| 0 <= k < 4 && a[k] < b[k] && a[..k] == b[..k];
      assert forall i | 0 <= i < k :: a[i] == a[..k][i] == b[i];
    }
  }

  /** The places 0 to 3 in some order. */
  predicate Permutation(order: seq<nat>) {
    |order| == 4 && (forall i | 0 <= i < 4 :: order[i] < 4) &&
    forall i, j | 0 <= i < j < 4 :: order[i] != order[j]
  }

  function Reordered(b: Bytes, order: seq<nat>): (r: Bytes)
    requires |b| == 4 && Permutation(order)
    ensures |r| == 4
  {
    [b[order[0]], b[order[1]], b[order[2]], b[order[3]]]
  }

  ghost predicate Monotone(order: seq<nat>)
    requires Permutation(order)
  {
    forall m: UInt32, n: UInt32 ::
      m < n <==> Before(Reordered(PutWord(m), order), Reordered(PutWord(n), order))
  }

  /** No other order of the four bytes has this property. */
  lemma OnlyThisOrder(order: seq<nat>)
    requires Permutation(order)
    ensures Monotone(order) <==> order == [0, 1, 2, 3]
  {
    hide PutWord;
    if order == [0, 1, 2, 3] {
      forall m: UInt32, n: UInt32
        ensures m < n <==> Before(Reordered(PutWord(m), order), Reordered(PutWord(n), order))
      {
        assert Reordered(PutWord(m), order) == PutWord(m) && Reordered(PutWord(n), order) == PutWord(n);
        OrderOfBytes(m, n);
      }
    } else {
      var k := if order[0] != 0 then 0 else if order[1] != 1 then 1 else 2;
      var m, n := Unit(order[k]), Unit(k);
      var a, b := Reordered(PutWord(m), order), Reordered(PutWord(n), order);
      UnitBytes(k);
      UnitBytes(order[k]);
      assert forall i | 0 <= i < k :: a[i] == 0 == b[i];
      assert b[k] == 0 && a[k] == 1 && m < n;
      assert !Before(a, b);
    }
  }

  /** The word whose only non-zero byte is a one at place `k`. */
  function Unit(k: nat): UInt32
    requires k < 4
  {
    if k == 0 then 0x100_0000 else if k == 1 then 0x1_0000 else if k == 2 then 0x100 else 1
  }

  lemma UnitBytes(k: nat)
    requires k < 4
    ensures forall i | 0 <= i < 4 :: PutWord(Unit(k))[i] == if i == k then 1 else 0
  {
    assert PutWord(0x100_0000) == [1, 0, 0, 0] && PutWord(0x1_0000) == [0, 1, 0, 0];
    assert PutWord(0x100) == [0, 0, 1, 0] && PutWord(1) == [0, 0, 0, 1];
  }

  // ----- items and records at their places

  predicate Holds(d: Bytes, p: nat, b: Bytes) {
    p + |b| <= |d| && d[p..p + |b|] == b
  }

  lemma SliceOfSlice(d: Bytes, p: nat, n: nat, from: nat, to: nat)
    requires p + n <= |d| && from <= to <= n
    ensures d[p..p + n][from..to] == d[p + from..p + to]
  {
    var a, b := d[p..p + n][from..to], d[p + from..p + to];
    assert |a| == |b| && forall i | 0 <= i < |a| :: a[i] == d[p + from + i] == b[i];
  }

  lemma HoldsBoth(d: Bytes, p: nat, a: Bytes, b: Bytes)
    requires Holds(d, p, a + b)
    ensures Holds(d, p, a) && Holds(d, p + |a|, b)
  {
    var n := |a + b|;
    SliceOfSlice(d, p, n, 0, |a|);
    SliceOfSlice(d, p, n, |a|, n);
    assert (a + b)[..|a|] == a && (a + b)[|a|..] == b;
  }

  lemma HoldsWord(d: Bytes, p: nat, n: UInt32)
    requires Holds(d, p, PutWord(n))
    ensures WordAt(d, p, n)
  {
    hide PutWord;
    WordBytes(n);
    var b := d[p..p + 4];
    assert b[0] == d[p] && b[1] == d[p + 1] && b[2] == d[p + 2] && b[3] == d[p + 3];
  }

  lemma HoldsText(d: Bytes, p: nat, s: Bytes)
    requires |s| < TWO_32 && Holds(d, p, PutWord(|s|)) && Holds(d, p + 4, s)
    ensures TextAt(d, p, s)
  {
    HoldsWord(d, p, |s|);
  }

  /** The encoding of `ws` starts at `p`. */
  ghost predicate Sits(d: Bytes, p: nat, ws: seq<Wire>) {
    Holds(d, p, Encode(ws))
  }

  ghost predicate ItemSits(d: Bytes, p: nat, w: Wire) {
    Holds(d, p, EncodeOne(w))
  }

  /** Where the i-th item of a record starts. */
  ghost function Offset(ws: seq<Wire>, i: nat): nat
    requires i <= |ws|
  {
    Size(ws[..i])
  }

  /** The items of a record follow each other without a gap. */
  lemma ItemsSit(d: Bytes, p: nat, ws: seq<Wire>)
    requires Sits(d, p, ws)
    ensures Offset(ws, 0) == 0 && Offset(ws, |ws|) == Size(ws)
    ensures forall i | 0 <= i < |ws| ::
              Offset(ws, i + 1) == Offset(ws, i) + SizeOne(ws[i]) && ItemSits(d, p + Offset(ws, i), ws[i])
  {
    hide Encode, EncodeOne, Offset;
    forall i | 0 <= i < |ws|
      ensures Offset(ws, i + 1) == Offset(ws, i) + SizeOne(ws[i]) && ItemSits(d, p + Offset(ws, i), ws[i])
    {
      ItemOf(d, p, ws, i);
    }
    Ends(ws);
  }

  lemma Ends(ws: seq<Wire>)
    ensures Offset(ws, 0) == 0 && Offset(ws, |ws|) == Size(ws)
  {
    hide EncodeOne, EncodeRows;
    assert ws[..|ws|] == ws;
  }

  lemma SitsBoth(d: Bytes, p: nat, u: seq<Wire>, v: seq<Wire>)
    requires Sits(d, p, u + v)
    ensures Sits(d, p, u) && Sits(d, p + Size(u), v)
  {
    hide Encode, Holds;
    EncodeConcat(u, v);
    HoldsBoth(d, p, Encode(u), Encode(v));
  }

  lemma ItemOf(d: Bytes, p: nat, ws: seq<Wire>, i: nat)
    requires Sits(d, p, ws) && i < |ws|
    ensures ItemSits(d, p + Offset(ws, i), ws[i])
    ensures Offset(ws, i + 1) == Offset(ws, i) + SizeOne(ws[i])
  {
    hide EncodeOne, EncodeRows, Encode, Holds;
    var u, w, v := ws[..i], ws[i], ws[i + 1..];
    assert ws == (u + [w]) + v && ws[..i + 1] == u + [w];
    EncodeConcat(u + [w], v);
    EncodeSnoc(u, w);
    HoldsBoth(d, p, Encode(u) + EncodeOne(w), Encode(v));
    HoldsBoth(d, p, Encode(u), EncodeOne(w));
  }

  // What sits at a place, in plain bytes.

  lemma WordSits(d: Bytes, p: nat, n: UInt32)
    requires ItemSits(d, p, U32(n))
    ensures WordAt(d, p, n) && SizeOne(U32(n)) == 4
  {
    hide PutWord, Holds;
    HoldsWord(d, p, n);
  }

  lemma ByteSits(d: Bytes, p: nat, b: Byte)
    requires ItemSits(d, p, U8(b))
    ensures ByteAt(d, p, b) && SizeOne(U8(b)) == 1
  {
    assert d[p..p + 1][0] == d[p];
  }

  lemma TextSize(s: Bytes)
    ensures SizeOne(Str(s)) == 4 + |s|
  {
  }

  lemma TextSits(d: Bytes, p: nat, s: Bytes)
    requires ItemSits(d, p, Str(s)) && |s| < TWO_32
    ensures TextAt(d, p, s) && SizeOne(Str(s)) == 4 + |s|
  {
    hide PutWord;
    HoldsBoth(d, p, PutWord(|s|), s);
    HoldsWord(d, p, |s|);
  }

  lemma ListSits(d: Bytes, p: nat, rows: seq<Row>)
    requires ItemSits(d, p, Arr(rows)) && |rows| < TWO_32
    ensures WordAt(d, p, |rows|) && Holds(d, p + 4, EncodeRows(rows))
    ensures SizeOne(Arr(rows)) == 4 + |EncodeRows(rows)|
  {
    hide PutWord, Holds, EncodeRows;
    HoldsBoth(d, p, PutWord(|rows|), EncodeRows(rows));
    HoldsWord(d, p, |rows|);
  }

  lemma TailSits(d: Bytes, p: nat, tag: UInt32, body: seq<Wire>)
    requires ItemSits(d, p, Tail(tag, body))
    ensures WordAt(d, p, tag) && Sits(d, p + 4, body) && SizeOne(Tail(tag, body)) == 4 + Size(body)
  {
    hide PutWord, Holds, Encode;
    HoldsBoth(d, p, PutWord(tag), Encode(body));
    HoldsWord(d, p, tag);
  }

  /** Where bytes are accepted, what was read sits at their front. */
  lemma AcceptedSits(layout: Layout, d: Bytes)
    requires Decode(layout, d).Done?
    ensures Sits(d, 0, Decode(layout, d).value) && Size(Decode(layout, d).value) <= |d|
  {
    hide Decode, Encode, Typed, Fits;
    EncodeDecode(layout, d);
    var Done(ws, rest) := Decode(layout, d);
    assert d[..|Encode(ws)|] == Encode(ws);
  }

  lemma WrittenSits(ws: seq<Wire>, rest: Bytes)
    ensures Sits(Encode(ws) + rest, 0, ws)
  {
    hide Encode;
    assert (Encode(ws) + rest)[..|Encode(ws)|] == Encode(ws);
  }
}
