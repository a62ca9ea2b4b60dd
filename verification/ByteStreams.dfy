/** `net::ByteStream` as the bodies use it: a reader over a received buffer and a writer into a
    caller's buffer.  A read or write that does not fit sets a sticky flag and moves nothing.

    Each stream carries a ghost transcript.  The reader's says which layout it has been asked to
    read since `origin` and what it saw; its validity ties that to the eager parser `Decode`, so a
    method that ignores every failure and tests the flag once at the end is proved, step by step,
    to agree with a parser that stops at the first failure. */
module ByteStreams {
  import opened WireFormat
  import opened RawBytes

  datatype Input = Failed | Left(bytes: Bytes)

  ghost function Run(layout: Layout, input: Input): Parsed<seq<Wire>> {
    match input case Failed => Fail case Left(b) => Decode(layout, b)
  }

  ghost function RunRows(row: Layout, n: nat, input: Input): Parsed<seq<Row>> {
    match input case Failed => Fail case Left(b) => DecodeRows(row, n, b)
  }

  ghost function Outcome<T>(value: T, rest: Input): Parsed<T> {
    match rest case Failed => Fail case Left(r) => Done(value, r)
  }

  /** The count a list starts with; a count that cannot be read stays at its initial 0. */
  ghost function CountAhead(input: Input): UInt32 {
    if input.Left? && TakeWord(input.bytes).Done? then TakeWord(input.bytes).value else 0
  }

  lemma CountSeen(r0: Input, n: UInt32, r1: Input)
    requires Run([Word], r0) == Outcome([U32(n)], r1) && (r1.Failed? ==> n == 0)
    ensures n == CountAhead(r0)
  {
    if r0.Left? {
      DecodeSingle(Word, r0.bytes);
    }
  }

  lemma NoRows(row: Layout, r: Input)
    ensures RunRows(row, 0, r) == Outcome([], r)
  {
  }

  lemma NoRowsWritten(head: Bytes)
    ensures head == head + EncodeRows([])
  {
  }

  lemma TextAhead(b: Bytes, p: nat)
    requires p <= |b|
    ensures DecodeOne(Text, b[p..]) ==
            if |b| - p < 4 then Fail
            else
              var n := WordOf(b[p], b[p + 1], b[p + 2], b[p + 3]);
              if |b| - p - 4 < n then Fail else Done(Str(b[p + 4..p + 4 + n]), b[p + 4 + n..])
    ensures |b| - p >= 4 ==>
              var n := WordOf(b[p], b[p + 1], b[p + 2], b[p + 3]);
              0 <= n < TWO_32 && (|b| - p - 4 >= n ==> TextAt(b, p, b[p + 4..p + 4 + n]))
  {
    hide WordOf, Decode, DecodeRows;
    if |b| - p >= 4 {
      var n := WordOf(b[p], b[p + 1], b[p + 2], b[p + 3]);
      WordOfBytes(b[p], b[p + 1], b[p + 2], b[p + 3]);
      assert b[p..][4..] == b[p + 4..];
      if |b| - p - 4 >= n {
        assert b[p + 4..][..n] == b[p + 4..p + 4 + n] && b[p + 4..][n..] == b[p + 4 + n..];
      }
    }
  }

  /** One more row read: `mid` is where it starts, `after` where it ends. */
  lemma RowRead(row: Layout, start: Input, rows: seq<Row>, mid: Input, ws: seq<Wire>, after: Input)
    requires RunRows(row, |rows|, start) == Outcome(rows, mid)
    requires Run(row, mid) == Outcome(ws, after)
    ensures RunRows(row, |rows| + 1, start) == Outcome(rows + [Row(ws)], after)
  {
    hide Decode;
  }

  /** One more row written after `head`. */
  lemma RowWritten(head: Bytes, rows: seq<Row>, sent: seq<Wire>, ws: seq<Wire>)
    requires Encode(sent) == head + EncodeRows(rows)
    ensures Encode(sent + ws) == head + EncodeRows(rows + [Row(ws)])
  {
    hide Encode, EncodeRows, EncodeOne;
    EncodeConcat(sent, ws);
    EncodeRowsSnoc(rows, ws);
  }

  class ByteReader {
    const data: array<Byte>
    const len: UInt32
    var pos: nat
    var fail: bool
    ghost const input: Bytes
    ghost var origin: Input
    ghost var layout: Layout
    ghost var seen: seq<Wire>

    ghost predicate InBounds()
      reads this
    {
      pos <= len == |input|
    }

    /** What is left to read. */
    ghost function Rest(): Input
      requires InBounds()
      reads this
    {
      if fail then Failed else Left(input[pos..])
    }

    /** The array still holds the input. */
    ghost predicate Intact()
      reads data
    {
      len <= data.Length && data[..len] == input
    }

    lemma Reads(from: nat, to: nat)
      requires Intact() && from <= to <= len == |input|
      ensures len <= data.Length && data[from..to] == input[from..to]
      ensures forall k | from <= k < to :: data[k] == input[k]
    {
      assert data[..len][from..to] == data[from..to];
    }

    ghost predicate Valid()
      reads this, data
    {
      InBounds() && Intact() && Run(layout, origin) == Outcome(seen, Rest())
    }

    /** The transcript grew by `shapes` and `ws`; unless the stream failed, `ws` is what it held. */
    twostate predicate Took(shapes: Layout, ws: seq<Wire>)
      reads this, data
    {
      && Valid()
      && origin == old(origin)
      && layout == old(layout) + shapes
      && seen == old(seen) + ws
    }

    /** A failed read leaves its target as it was. */
    ghost predicate Kept<T>(value: T, target: T)
      reads this
    {
      fail ==> value == target
    }

    constructor (data: array<Byte>, len: UInt32)
      requires len <= data.Length
      ensures this.data == data && this.len == len && Valid() && !fail
      ensures input == data[..len] && origin == Left(input) && layout == [] && seen == []
    {
      this.data, this.len, pos, fail, input := data, len, 0, false, data[..len];
      origin, layout, seen := Left(data[..len]), [], [];
    }

    method ReadByte(target: Byte) returns (v: Byte)
      requires Valid()
      modifies this
      ensures Took([Octet], [U8(v)])
      ensures Kept(v, target)
      ensures fail == (old(fail) || len - old(pos) < 1) && pos == old(pos) + if fail then 0 else 1
      ensures !fail ==> v == input[old(pos)]
    {
      hide Decode, DecodeRows;
      v := target;
      Extend(Octet);
      if fail || len - pos < 1 {
        fail := true;
      } else {
        v := data[pos];
        pos := pos + 1;
      }
      layout, seen := layout + [Octet], seen + [U8(v)];
    }

    method ReadWord(target: UInt32) returns (v: UInt32)
      requires Valid()
      modifies this
      ensures Took([Word], [U32(v)])
      ensures Kept(v, target)
      ensures fail == (old(fail) || len - old(pos) < 4) && pos == old(pos) + if fail then 0 else 4
      ensures !fail ==> WordAt(input, old(pos), v)
      ensures !fail ==> v == (input[old(pos)] as int) * 0x100_0000 + (input[old(pos) + 1] as int) * 0x1_0000 +
                             (input[old(pos) + 2] as int) * 0x100 + input[old(pos) + 3]
    {
      hide Decode, DecodeRows, Intact;
      v := target;
      Extend(Word);
      if fail || len - pos < 4 {
        fail := true;
      } else {
        Reads(pos, pos + 4);
        v := WordOf(data[pos], data[pos + 1], data[pos + 2], data[pos + 3]);
        assert TakeWord(input[pos..]) == Done(v, input[pos + 4..]);
        pos := pos + 4;
      }
      layout, seen := layout + [Word], seen + [U32(v)];
    }

    method ReadString(target: Bytes) returns (s: Bytes)
      requires Valid()
      modifies this
      ensures Took([Text], [Str(s)])
      ensures Kept(s, target)
      ensures pos == old(pos) + if fail then 0 else 4 + |s|
      ensures (old(fail) ==> fail) && (!fail ==> TextAt(input, old(pos), s))
    {
      hide Decode, WordOf, TextAt, Intact;
      s := target;
      ExtendText();
      if fail || len - pos < 4 {
        fail := true;
      } else {
        Reads(pos, pos + 4);
        var n := WordOf(data[pos], data[pos + 1], data[pos + 2], data[pos + 3]);
        if len - pos - 4 < n {
          fail := true;
        } else {
          Reads(pos + 4, pos + 4 + n);
          s := data[pos + 4..pos + 4 + n];
          pos := pos + 4 + n;
        }
      }
      layout, seen := layout + [Text], seen + [Str(s)];
    }

    lemma ExtendText()
      requires Valid()
      ensures Run(layout + [Text], origin) ==
              if fail || len - pos < 4 then Fail
              else
                var n := WordOf(input[pos], input[pos + 1], input[pos + 2], input[pos + 3]);
                if len - pos - 4 < n then Fail
                else Done(seen + [Str(input[pos + 4..pos + 4 + n])], input[pos + 4 + n..])
      ensures len - pos >= 4 ==>
                var n := WordOf(input[pos], input[pos + 1], input[pos + 2], input[pos + 3]);
                0 <= n < TWO_32 && (len - pos - 4 >= n ==> TextAt(input, pos, input[pos + 4..pos + 4 + n]))
    {
      hide Decode, DecodeOne, DecodeRows, WordOf, TextAt, Intact;
      Extend(Text);
      TextAhead(input, pos);
    }

    lemma Extend(shape: Shape)
      requires Valid()
      ensures Run(layout + [shape], origin) ==
              if fail then Fail
              else match DecodeOne(shape, input[pos..])
                   case Fail => Fail
                   case Done(w, r) => Done(seen + [w], r)
    {
      if origin.Left? {
        DecodeSnoc(layout, shape, origin.bytes);
      }
    }

    lemma Standing()
      requires Valid()
      ensures pos <= |input| == len && Run(layout, origin) == Outcome(seen, Rest())
      ensures Rest() == if fail then Failed else Left(input[pos..])
    {
    }

    /** What was read without failing since the transcript `(l, s)` stood at `p` is what the input holds
        between the two positions. */
    lemma SeenSits(l: Layout, s: seq<Wire>, p: nat, r0: Input, shapes: Layout, ws: seq<Wire>)
      requires Valid() && !fail && p <= len
      requires Run(l, origin) == Outcome(s, r0) && (r0.Left? ==> r0.bytes == input[p..])
      requires layout == l + shapes && seen == s + ws
      ensures Sits(input, p, ws) && pos == p + Size(ws) <= |input|
    {
      hide Decode, Encode, Fits, Typed;
      DecodeConcat(l, shapes, origin.bytes);
      var r := r0.bytes;
      var v := Decode(shapes, r).value;
      assert v == (s + v)[|s|..] == (s + ws)[|s|..] == ws;
      EncodeDecode(shapes, r);
      assert r[..Size(ws)] == Encode(ws);
      SliceOfSlice(input, p, |r|, 0, Size(ws));
    }

    /** A transcript begun from nothing says what was parsed since. */
    lemma Whole(shapes: Layout, ws: seq<Wire>)
      requires Valid() && layout == [] + shapes && seen == [] + ws
      ensures Run(shapes, origin) == Outcome(ws, Rest())
    {
      assert [] + shapes == shapes && [] + ws == ws;
    }

    /** Start a new transcript at the current position. */
    ghost method Begin()
      requires Valid()
      modifies this`origin, this`layout, this`seen
      ensures Valid() && origin == Rest() == old(Rest()) && layout == [] && seen == []
    {
      origin, layout, seen := Rest(), [], [];
    }

    /** Return to an outer transcript `(o, l, s)` that stood at `r0`, now that a count and that
        many rows have been read from there. */
    ghost method EndList(o: Input, l: Layout, s: seq<Wire>, r0: Input, r1: Input, row: Layout, rows: seq<Row>)
      requires InBounds() && Intact() && |rows| < TWO_32
      requires Run(l, o) == Outcome(s, r0)
      requires Run([Word], r0) == Outcome([U32(|rows|)], r1)
      requires RunRows(row, |rows|, r1) == Outcome(rows, Rest())
      modifies this`origin, this`layout, this`seen
      ensures Valid() && origin == o && layout == l + [List(row)] && seen == s + [Arr(rows)]
    {
      hide Decode, DecodeRows, TakeWord;
      origin, layout, seen := o, l + [List(row)], s + [Arr(rows)];
      if o.Left? {
        DecodeSnoc(l, List(row), o.bytes);
        if r0.Left? {
          DecodeSingle(Word, r0.bytes);
        }
      }
    }

    /** The same for a tag and the tail it governs. */
    ghost method EndTail(o: Input, l: Layout, s: seq<Wire>, r0: Input, r1: Input,
                         onZero: bool, tail: Layout, tag: UInt32, ws: seq<Wire>)
      requires InBounds() && Intact()
      requires Run(l, o) == Outcome(s, r0)
      requires Run([Word], r0) == Outcome([U32(tag)], r1)
      requires if (tag == 0) == onZero then Run(tail, r1) == Outcome(ws, Rest()) else ws == [] && Rest() == r1
      modifies this`origin, this`layout, this`seen
      ensures Valid() && origin == o
      ensures layout == l + [Tagged(onZero, tail)] && seen == s + [Tail(tag, ws)]
    {
      hide Decode, DecodeRows, TakeWord;
      origin, layout, seen := o, l + [Tagged(onZero, tail)], s + [Tail(tag, ws)];
      if o.Left? {
        DecodeSnoc(l, Tagged(onZero, tail), o.bytes);
        if r0.Left? {
          DecodeSingle(Word, r0.bytes);
        }
      }
    }
  }

  lemma HoldsHere(data: array<Byte>, p: nat, b: Bytes)
    requires p + |b| <= data.Length && data[p..p + |b|] == b
    ensures Holds(data[..], p, b)
  {
  }

  method Fill(data: array<Byte>, pos: nat, bytes: Bytes)
    requires pos + |bytes| <= data.Length
    modifies data
    ensures data[..pos] == old(data[..pos]) && data[pos..pos + |bytes|] == bytes
    ensures data[pos + |bytes|..] == old(data[pos + |bytes|..])
  {
    for i := 0 to |bytes|
      invariant forall k | 0 <= k < data.Length ::
                  data[k] == if pos <= k < pos + i then bytes[k - pos] else old(data[k])
    {
      data[pos + i] := bytes[i];
    }
  }

  class ByteWriter {
    const data: array<Byte>
    const cap: UInt32
    var pos: nat
    var fail: bool
    ghost const orig: Bytes
    ghost var sent: seq<Wire>

    /** The stream fails exactly when what it was asked to hold exceeds its capacity; otherwise it
        holds all of it, and everything past the cursor is as it was. */
    ghost predicate Valid()
      reads this, data
    {
      && pos <= cap <= data.Length == |orig|
      && (fail <==> Size(sent) > cap)
      && (!fail ==> pos == Size(sent))
      && pos <= Size(sent)
      && data[..pos] == Encode(sent)[..pos]
      && data[pos..] == orig[pos..]
    }

    twostate predicate Sends(ws: seq<Wire>)
      reads this, data
    {
      Valid() && sent == old(sent) + ws
    }

    constructor (data: array<Byte>, cap: UInt32)
      requires cap <= data.Length
      ensures this.data == data && this.cap == cap && Valid() && sent == [] && orig == data[..]
    {
      this.data, this.cap, pos, fail := data, cap, 0, false;
      orig, sent := data[..], [];
    }

    lemma Written()
      requires Valid()
      ensures data[cap..] == orig[cap..]
      ensures !fail ==> data[..] == Encode(sent) + orig[Size(sent)..]
    {
      assert data[cap..] == data[pos..][cap - pos..] && orig[cap..] == orig[pos..][cap - pos..];
      assert data[..] == data[..pos] + data[pos..];
    }

    method WriteByte(b: Byte)
      requires Valid()
      modifies this, data
      ensures Sends([U8(b)])
      ensures fail == (old(fail) || cap - old(pos) < 1) && pos == old(pos) + if fail then 0 else 1
      ensures !fail ==> data[old(pos)] == b
    {
      Put([b], U8(b));
    }

    method WriteWord(n: UInt32)
      requires Valid()
      modifies this, data
      ensures Sends([U32(n)])
      ensures fail == (old(fail) || cap - old(pos) < 4) && pos == old(pos) + if fail then 0 else 4
      ensures !fail ==> n == (data[old(pos)] as int) * 0x100_0000 + (data[old(pos) + 1] as int) * 0x1_0000 +
                             (data[old(pos) + 2] as int) * 0x100 + data[old(pos) + 3]
    {
      WordBytes(n);
      Put(PutWord(n), U32(n));
    }

    method WriteString(s: Bytes)
      requires Valid()
      modifies this, data
      ensures Sends([Str(s)])
      ensures fail == (old(fail) || cap - old(pos) < 4 + |s|) && pos == old(pos) + if fail then 0 else 4 + |s|
      ensures !fail ==> TextAt(data[..], old(pos), s)
    {
      hide PutWord, Holds;
      ghost var p, head := pos, PutWord(Low32(|s|));
      Put(PutWord(Low32(|s|)) + s, Str(s));
      if !fail {
        HoldsHere(data, p, head + s);
        HoldsBoth(data[..], p, head, s);
        HoldsText(data[..], p, s);
      }
    }

    method Put(bytes: Bytes, ghost w: Wire)
      requires Valid() && bytes == EncodeOne(w)
      modifies this, data
      ensures Sends([w])
      ensures fail == (old(fail) || cap - old(pos) < |bytes|) && pos == old(pos) + if fail then 0 else |bytes|
      ensures !fail ==> data[old(pos)..pos] == bytes
    {
      hide Encode, EncodeOne;
      EncodeSnoc(sent, w);
      ghost var was := Encode(sent);
      if fail || cap - pos < |bytes| {
        fail := true;
      } else {
        Fill(data, pos, bytes);
        assert data[..pos + |bytes|] == was + bytes;
        assert data[pos + |bytes|..] == orig[pos + |bytes|..];
        pos := pos + |bytes|;
      }
      sent := sent + [w];
    }

    lemma Standing()
      requires Valid()
      ensures !fail ==> pos == Size(sent)
    {
    }

    /** What was written without failing since the transcript `s` stood at `p` is what the array holds
        between the two positions. */
    lemma SentSits(s: seq<Wire>, p: nat, ws: seq<Wire>)
      requires Valid() && !fail && p == Size(s) && sent == s + ws
      ensures Sits(data[..], p, ws) && pos == p + Size(ws) <= cap
    {
      hide Encode;
      EncodeConcat(s, ws);
      assert data[..][p..pos] == data[..pos][p..] == Encode(ws);
    }

    /** A count followed by its rows is one list item. */
    ghost method FoldList(before: seq<Wire>, rows: seq<Row>)
      requires Valid()
      requires Encode(sent) == Encode(before + [U32(Low32(|rows|))]) + EncodeRows(rows)
      modifies this`sent
      ensures Valid() && sent == before + [Arr(rows)]
    {
      hide Encode, EncodeRows, PutWord;
      EncodeSnoc(before, U32(Low32(|rows|)));
      EncodeSnoc(before, Arr(rows));
      assert Encode(before + [Arr(rows)]) == Encode(sent);
      sent := before + [Arr(rows)];
    }

    ghost method FoldTail(before: seq<Wire>, tag: UInt32, ws: seq<Wire>)
      requires Valid() && sent == before + [U32(tag)] + ws
      modifies this`sent
      ensures Valid() && sent == before + [Tail(tag, ws)]
    {
      hide Encode, EncodeRows, PutWord;
      EncodeSnoc(before, Tail(tag, ws));
      EncodeSnoc(before, U32(tag));
      EncodeConcat(before + [U32(tag)], ws);
      assert Encode(before + [Tail(tag, ws)]) == Encode(sent);
      sent := before + [Tail(tag, ws)];
    }
  }
}
