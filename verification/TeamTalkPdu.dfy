/** What every TeamTalk message shares: the attach data that may trail its body, the macros for
    counted arrays of words, and the 32-bit size arithmetic. */
module TeamTalkPdu {
  import opened WireFormat
  import opened RawBytes
  import opened ByteStreams

  // ----- rows of a list

  /** The rows of a list whose elements are written by `wires`. */
  ghost function Rows<T>(wires: T -> seq<Wire>, xs: seq<T>): (rows: seq<Row>)
    ensures |rows| == |xs|
  {
    seq(|xs|, i requires 0 <= i < |xs| => Row(wires(xs[i])))
  }

  lemma RowsSnoc<T>(wires: T -> seq<Wire>, xs: seq<T>, x: T)
    ensures Rows(wires, xs + [x]) == Rows(wires, xs) + [Row(wires(x))]
  {
  }

  lemma RowsTyped<T(!new)>(row: Layout, wires: T -> seq<Wire>, xs: seq<T>)
    requires forall x: T :: Typed(row, wires(x))
    ensures TypedOne(List(row), Arr(Rows(wires, xs)))
  {
    hide Typed;
    forall i | 0 <= i < |xs| ensures Typed(row, Rows(wires, xs)[i].fields) {
      assert Rows(wires, xs)[i].fields == wires(xs[i]);
    }
  }

  lemma RowsInjective<T(!new)>(wires: T -> seq<Wire>, xs: seq<T>, ys: seq<T>)
    requires forall x, y :: wires(x) == wires(y) ==> x == y
    requires Rows(wires, xs) == Rows(wires, ys)
    ensures xs == ys
  {
    forall i | 0 <= i < |xs| ensures xs[i] == ys[i] {
      assert Rows(wires, xs)[i] == Rows(wires, ys)[i];
    }
  }

  /** The sizes of some elements, added up. */
  function Sum<T>(size: T -> nat, xs: seq<T>): nat {
    if xs == [] then 0 else Sum(size, xs[..|xs| - 1]) + size(xs[|xs| - 1])
  }

  /** The encodings of the rows follow each other without a gap. */
  lemma {:induction false} RowsFrom<T(!new)>(d: Bytes, q: nat, wires: T -> seq<Wire>, size: T -> nat, xs: seq<T>)
    requires forall x: T :: Size(wires(x)) == size(x)
    requires Holds(d, q, EncodeRows(Rows(wires, xs)))
    ensures |EncodeRows(Rows(wires, xs))| == Sum(size, xs)
    ensures forall i | 0 <= i < |xs| :: Sits(d, q + Sum(size, xs[..i]), wires(xs[i]))
  {
    hide Encode, EncodeRows, Rows, Sits, Sum;
    NoneToAdd(size);
    if xs == [] {
      EmptyRows(wires);
    } else {
      var k := |xs| - 1;
      var xs', x := xs[..k], xs[k];
      assert xs == xs' + [x];
      RowsSnoc(wires, xs', x);
      EncodeRowsSnoc(Rows(wires, xs'), wires(x));
      AddOne(size, xs', x);
      HoldsBoth(d, q, EncodeRows(Rows(wires, xs')), Encode(wires(x)));
      SitsAt(d, q + |EncodeRows(Rows(wires, xs'))|, wires(x));
      RowsFrom(d, q, wires, size, xs');
      forall i | 0 <= i < |xs| ensures Sits(d, q + Sum(size, xs[..i]), wires(xs[i])) {
        if i < k {
          assert xs'[..i] == xs[..i] && xs'[i] == xs[i];
        }
      }
    }
  }

  lemma NoneToAdd<T>(size: T -> nat)
    ensures Sum(size, []) == 0
  {
  }

  lemma AddOne<T>(size: T -> nat, xs: seq<T>, x: T)
    ensures Sum(size, xs + [x]) == Sum(size, xs) + size(x)
  {
    assert (xs + [x])[..|xs|] == xs;
  }

  lemma SitsAt(d: Bytes, p: nat, ws: seq<Wire>)
    requires Holds(d, p, Encode(ws))
    ensures Sits(d, p, ws)
  {
  }

  lemma EmptyRows<T>(wires: T -> seq<Wire>)
    ensures EncodeRows(Rows(wires, [])) == []
  {
  }

  /** An element costs no more than all of them together. */
  lemma {:induction false} SumCovers<T(!new)>(size: T -> nat, xs: seq<T>)
    requires forall x: T :: size(x) > 0
    ensures |xs| <= Sum(size, xs) && forall i | 0 <= i < |xs| :: size(xs[i]) <= Sum(size, xs)
  {
    if xs != [] {
      var k := |xs| - 1;
      SumCovers(size, xs[..k]);
      assert forall i | 0 <= i < k :: xs[i] == xs[..k][i];
    }
  }

  /** A list is its count and then its rows. */
  lemma RowsSit<T(!new)>(d: Bytes, p: nat, wires: T -> seq<Wire>, size: T -> nat, xs: seq<T>)
    requires forall x: T :: Size(wires(x)) == size(x) > 0
    requires ItemSits(d, p, Arr(Rows(wires, xs))) && SizeOne(Arr(Rows(wires, xs))) < TWO_32
    ensures WordAt(d, p, |xs|) && SizeOne(Arr(Rows(wires, xs))) == 4 + Sum(size, xs)
    ensures forall i | 0 <= i < |xs| ::
              size(xs[i]) < TWO_32 && Sits(d, p + 4 + Sum(size, xs[..i]), wires(xs[i]))
  {
    hide *;
    RowsSize(wires, size, xs);
    SumCovers(size, xs);
    ListSits(d, p, Rows(wires, xs));
    RowsFrom(d, p + 4, wires, size, xs);
  }

  lemma RowsSize<T(!new)>(wires: T -> seq<Wire>, size: T -> nat, xs: seq<T>)
    requires forall x: T :: Size(wires(x)) == size(x)
    ensures SizeOne(Arr(Rows(wires, xs))) == 4 + |EncodeRows(Rows(wires, xs))| == 4 + Sum(size, xs)
  {
    hide Rows, Sum, EncodeRows;
    RowsFrom(EncodeRows(Rows(wires, xs)), 0, wires, size, xs);
  }

  // ----- arrays of words

  ghost function WordWires(n: UInt32): seq<Wire> {
    [U32(n)]
  }

  ghost function WordRows(arr: seq<UInt32>): (rows: seq<Row>)
    ensures |rows| == |arr|
  {
    Rows(WordWires, arr)
  }

  /** Of the `n` words announced at `p` these have been read, up to `pos`. */
  predicate WordsRead(d: Bytes, p: nat, n: UInt32, words: seq<UInt32>, pos: nat) {
    && pos == p + 4 + 4 * |words| && WordAt(d, p, n)
    && forall i | 0 <= i < |words| :: WordAt(d, p + 4 + 4 * i, words[i])
  }

  lemma NoWords(d: Bytes, p: nat, n: UInt32)
    ensures WordRows([]) == [] && (WordAt(d, p, n) ==> WordsRead(d, p, n, [], p + 4))
  {
  }

  lemma OneMoreWord(d: Bytes, p: nat, n: UInt32, words: seq<UInt32>, v: UInt32, pos: nat)
    requires WordsRead(d, p, n, words, pos) && WordAt(d, pos, v)
    ensures WordsRead(d, p, n, words + [v], pos + 4)
  {
    hide WordAt;
  }

  lemma AllWords(d: Bytes, p: nat, words: seq<UInt32>, pos: nat)
    requires |words| < TWO_32 && WordsRead(d, p, |words|, words, pos)
    ensures pos == p + 4 + 4 * |words| && WordsAt(d, p, words)
  {
    hide WordAt;
  }

  lemma WordRowsSnoc(arr: seq<UInt32>, n: UInt32)
    ensures WordRows(arr + [n]) == WordRows(arr) + [Row([U32(n)])]
  {
    RowsSnoc(WordWires, arr, n);
  }

  lemma WordRowsInjective(a: seq<UInt32>, b: seq<UInt32>)
    requires WordRows(a) == WordRows(b)
    ensures a == b
  {
    assert forall m, n :: WordWires(m) == WordWires(n) ==> WordWires(m)[0] == WordWires(n)[0];
    RowsInjective(WordWires, a, b);
  }

  lemma WordRowsTyped(arr: seq<UInt32>)
    ensures TypedOne(List([Word]), Arr(WordRows(arr)))
  {
    RowsTyped([Word], WordWires, arr);
  }

  lemma {:induction false} WordRowsSize(arr: seq<UInt32>)
    ensures |EncodeRows(WordRows(arr))| == 4 * |arr|
  {
    if arr != [] {
      var k := |arr| - 1;
      WordRowsSize(arr[..k]);
      assert arr == arr[..k] + [arr[k]];
      RowsSnoc(WordWires, arr[..k], arr[k]);
      EncodeRowsSnoc(WordRows(arr[..k]), WordWires(arr[k]));
      SizeSnoc();
      assert Size(WordWires(arr[k])) == 4;
    }
  }

  lemma {:induction false} FourEach<T>(xs: seq<T>)
    ensures Sum(_ => 4, xs) == 4 * |xs|
  {
    if xs != [] {
      FourEach(xs[..|xs| - 1]);
    }
  }

  lemma WordsSit(d: Bytes, p: nat, arr: seq<UInt32>)
    requires ItemSits(d, p, Arr(WordRows(arr))) && |arr| < 0x4000_0000 - 1
    ensures WordsAt(d, p, arr) && SizeOne(Arr(WordRows(arr))) == 4 + 4 * |arr|
    ensures WordAt(d, p, |arr|) && forall i | 0 <= i < |arr| :: WordAt(d, p + 4 + 4 * i, arr[i])
  {
    hide Encode, EncodeRows, SizeOne, ItemSits, Sum, Sits, WordAt;
    SizeSnoc();
    forall n: UInt32 ensures Size(WordWires(n)) == 4 {
      WordSize(n);
    }
    ContainerSize(arr);
    RowsSit(d, p, WordWires, _ => 4, arr);
    FourEach(arr);
    forall i | 0 <= i < |arr| ensures WordAt(d, p + 4 + 4 * i, arr[i]) {
      FourEach(arr[..i]);
      ItemsSit(d, p + 4 + 4 * i, WordWires(arr[i]));
      WordSits(d, p + 4 + 4 * i, arr[i]);
    }
  }

  lemma WordsAlone(d: Bytes, p: nat, arr: seq<UInt32>)
    requires Sits(d, p, [Arr(WordRows(arr))]) && Size([Arr(WordRows(arr))]) < TWO_32
    ensures WordsAt(d, p, arr) && Size([Arr(WordRows(arr))]) == 4 + 4 * |arr|
  {
    hide Encode, EncodeRows, ItemSits, Sits, WordRows;
    SizeSnoc();
    ItemsSit(d, p, [Arr(WordRows(arr))]);
    ContainerSize(arr);
    WordsSit(d, p, arr);
  }

  lemma WordSize(n: UInt32)
    ensures SizeOne(U32(n)) == 4
  {
  }

  /** Reads a count and appends that many words to the caller's vector.  Nothing looks at the
      failure flag: the loop runs its full count whatever happens. */
  method ParseWords(reader: ByteReader, target: seq<UInt32>) returns (arr: seq<UInt32>)
    requires reader.Valid()
    modifies reader
    ensures |arr| == |target| + CountAhead(old(reader.Rest())) && target <= arr
    ensures reader.Took([List([Word])], [Arr(WordRows(arr[|target|..]))])
    ensures old(reader.fail) ==> reader.fail
    ensures !reader.fail ==> WordsAt(reader.input, old(reader.pos), arr[|target|..])
    ensures !reader.fail ==> reader.pos == old(reader.pos) + 4 + 4 * (|arr| - |target|)
  {
    hide Decode, DecodeRows, DecodeOne, TakeWord, WordAt, WordRows, ByteReader.Intact, WordsRead, WordsAt;
    ghost var o, l, s, p, r0 := reader.origin, reader.layout, reader.seen, reader.pos, reader.Rest();
    arr := target;
    reader.Begin();
    var n := reader.ReadWord(0);
    reader.Whole([Word], [U32(n)]);
    ghost var r1 := reader.Rest();
    CountSeen(r0, n, r1);
    ghost var words, rows := [], [];
    NoRows([Word], r1);
    NoWords(reader.input, p, n);
    for i := 0 to n
      invariant reader.Valid() && |words| == i && arr == target + words
      invariant old(reader.fail) ==> reader.fail
      invariant !reader.fail ==> WordsRead(reader.input, p, n, words, reader.pos)
      invariant rows == WordRows(words)
      invariant RunRows([Word], i, r1) == Outcome(rows, reader.Rest())
    {
      ghost var mid := reader.Rest();
      reader.Begin();
      var v: UInt32 := *;
      v := reader.ReadWord(v);
      arr := arr + [v];
      reader.Whole([Word], [U32(v)]);
      RowRead([Word], r1, rows, mid, [U32(v)], reader.Rest());
      rows := rows + [Row([U32(v)])];
      WordRowsSnoc(words, v);
      if !reader.fail {
        OneMoreWord(reader.input, p, n, words, v, reader.pos - 4);
      }
      words := words + [v];
    }
    reader.EndList(o, l, s, r0, r1, [Word], rows);
    assert arr[|target|..] == words;
    if !reader.fail {
      AllWords(reader.input, p, words, reader.pos);
    }
  }

  method SerializeWords(writer: ByteWriter, arr: seq<UInt32>)
    requires writer.Valid()
    modifies writer, writer.data
    ensures writer.Sends([Arr(WordRows(arr))]) && (old(writer.fail) ==> writer.fail)
    ensures !writer.fail ==> WordsAt(writer.data[..], old(writer.pos), arr)
    ensures !writer.fail ==> writer.pos == old(writer.pos) + 4 + 4 * |arr|
  {
    hide Encode, EncodeRows, EncodeOne, WordAt, WordsAt, Sits;
    writer.Standing();
    ghost var before, p := writer.sent, writer.pos;
    writer.WriteWord(Low32(|arr|));
    ghost var head := Encode(writer.sent);
    NoRowsWritten(head);
    for i := 0 to |arr|
      invariant writer.Valid()
      invariant Encode(writer.sent) == head + EncodeRows(WordRows(arr[..i])) && (old(writer.fail) ==> writer.fail)
    {
      RowWritten(head, WordRows(arr[..i]), writer.sent, [U32(arr[i])]);
      writer.WriteWord(arr[i]);
      assert arr[..i + 1] == arr[..i] + [arr[i]];
      RowsSnoc(WordWires, arr[..i], arr[i]);
    }
    assert arr[..|arr|] == arr;
    writer.FoldList(before, WordRows(arr));
    if !writer.fail {
      writer.SentSits(before, p, [Arr(WordRows(arr))]);
      WordsAlone(writer.data[..], p, arr);
    }
  }

  /** `sizeof(uint32) + size * sizeof(uint32)`, cast to 32 bits on return. */
  function CalculateContainerByteSize(arr: seq<UInt32>): UInt32 {
    Low32(4 + (if arr == [] then 0 else |arr|) * 4)
  }

  /** The container size is exact modulo 2^32, and first wraps at 2^30 - 1 elements. */
  lemma ContainerSizeWraps(arr: seq<UInt32>)
    ensures CalculateContainerByteSize(arr) == Low32(SizeOne(Arr(WordRows(arr))))
    ensures CalculateContainerByteSize(arr) == SizeOne(Arr(WordRows(arr))) <==> |arr| < 0x4000_0000 - 1
  {
    WordRowsSize(arr);
  }

  lemma ContainerSize(arr: seq<UInt32>)
    ensures SizeOne(Arr(WordRows(arr))) == 4 + 4 * |arr|
  {
    WordRowsSize(arr);
  }

  // ----- arrays of records

  /** One step of the size loop over a list: `size` is the 32-bit size of one element. */
  lemma ListSizeStep<T>(wires: T -> seq<Wire>, xs: seq<T>, i: nat, start: nat, size: UInt32)
    requires i < |xs| && size == Low32(Size(wires(xs[i])))
    ensures Low32(Low32(start + |EncodeRows(Rows(wires, xs[..i]))|) + size) ==
            Low32(start + |EncodeRows(Rows(wires, xs[..i + 1]))|)
  {
    hide Encode, EncodeRows, EncodeOne;
    assert xs[..i + 1] == xs[..i] + [xs[i]];
    RowsSnoc(wires, xs[..i], xs[i]);
    EncodeRowsSnoc(Rows(wires, xs[..i]), wires(xs[i]));
    Low32Add(start + |EncodeRows(Rows(wires, xs[..i]))|, Size(wires(xs[i])));
  }

  // ----- the base class

  datatype AttachDataType = NullType | DbType | PduType

  datatype Option<+T> = None | Some(value: T) {
    function GetOr(default: T): T {
      match this case None => default case Some(v) => v
    }
  }

  /** The part of a message that its base class owns. */
  class BaseTeamTalkPdu {
    const attachDataType: AttachDataType
    var attachData: Bytes

    constructor (attachDataType: AttachDataType)
      ensures this.attachDataType == attachDataType && attachData == []
    {
      this.attachDataType, attachData := attachDataType, [];
    }

    predicate HasAttachData() {
      attachDataType == DbType || attachDataType == PduType
    }

    /** What trails the body on the wire. */
    function AttachLayout(): Layout {
      if HasAttachData() then [Text] else []
    }

    ghost function AttachWires(): seq<Wire>
      reads this
    {
      if HasAttachData() then [Str(attachData)] else []
    }

    function ByteSize(): (size: UInt32)
      reads this
      ensures size == Low32(Size(AttachWires()))
    {
      SizeSnoc();
      if attachDataType != NullType then Low32(4 + |attachData|) else 0
    }

    method SetAttachData(data: Bytes)
      modifies this
      ensures attachData == if attachDataType == NullType then old(attachData) else data
      ensures !HasAttachData() ==> AttachWires() == old(AttachWires())
    {
      if HasAttachData() {
        attachData := data;
      }
    }

    function GetAttachData(): (r: Option<Bytes>)
      reads this
      ensures AttachWires() == match r case None => [] case Some(d) => [Str(d)]
    {
      if HasAttachData() then Some(attachData) else None
    }

    /** The end of `ParseFromArray`: the attach data is read only behind an accepted body. */
    method ParseAttachData(reader: ByteReader, bodyOk: bool) returns (result: bool)
      requires reader.Valid() && bodyOk == !reader.fail
      modifies this, reader
      ensures match Run(old(reader.layout) + AttachLayout(), old(reader.origin))
              case Fail => !result
              case Done(ws, _) => result && ws == old(reader.seen) + AttachWires()
      ensures !result || !HasAttachData() ==> attachData == old(attachData)
    {
      hide Decode, DecodeOne, DecodeRows;
      if reader.origin.Left? {
        DecodeConcat(reader.layout, AttachLayout(), reader.origin.bytes);
      }
      result := bodyOk;
      if result && HasAttachData() {
        attachData := reader.ReadString(attachData);
        result := !reader.fail;
      } else {
        assert reader.layout + [] == reader.layout && reader.seen + [] == reader.seen;
      }
    }

    /** The end of `SerializeToArray`. */
    method SerializeAttachData(writer: ByteWriter, bodyOk: bool) returns (result: bool)
      requires writer.Valid() && bodyOk == !writer.fail
      modifies writer, writer.data
      ensures writer.Valid() && result == !writer.fail
      ensures result <==> Size(old(writer.sent) + AttachWires()) <= writer.cap
      ensures result ==> writer.sent == old(writer.sent) + AttachWires()
    {
      hide Encode, EncodeOne, EncodeRows;
      EncodeConcat(writer.sent, AttachWires());
      result := bodyOk;
      if result && HasAttachData() {
        writer.WriteString(attachData);
        result := !writer.fail;
      } else {
        assert writer.sent + [] == writer.sent;
      }
    }
  }

  // ----- arithmetic of sizes and transcripts

  /** Transcripts grow one item at a time, records are written down whole. */
  lemma AppendTwo<T>(s: seq<T>, a: T, b: T)
    ensures s + [a] + [b] == s + [a, b]
  {
  }

  lemma AppendFour<T>(s: seq<T>, a: T, b: T, c: T, d: T)
    ensures s + [a] + [b] + [c] + [d] == s + [a, b, c, d]
  {
  }

  lemma AppendSeven<T>(s: seq<T>, a: T, b: T, c: T, d: T, e: T, f: T, g: T)
    ensures s + [a] + [b] + [c] + [d] + [e] + [f] + [g] == s + [a, b, c, d, e, f, g]
  {
  }

  lemma AppendEleven<T>(s: seq<T>, a: T, b: T, c: T, d: T, e: T, f: T, g: T, h: T, i: T, j: T, k: T)
    ensures s + [a] + [b] + [c] + [d] + [e] + [f] + [g] + [h] + [i] + [j] + [k] ==
            s + [a, b, c, d, e, f, g, h, i, j, k]
  {
  }

  lemma AppendTwelve<T>(s: seq<T>, a: T, b: T, c: T, d: T, e: T, f: T, g: T, h: T, i: T, j: T, k: T, l: T)
    ensures s + [a] + [b] + [c] + [d] + [e] + [f] + [g] + [h] + [i] + [j] + [k] + [l] ==
            s + [a, b, c, d, e, f, g, h, i, j, k, l]
  {
  }

  lemma Low32Add(a: nat, b: nat)
    ensures Low32(a + Low32(b)) == Low32(a + b) == Low32(Low32(a) + Low32(b))
  {
  }

  lemma SizeConcat(u: seq<Wire>, v: seq<Wire>)
    ensures Size(u + v) == Size(u) + Size(v)
  {
    EncodeConcat(u, v);
  }

  // ----- whole messages

  /** Attach data lies right behind the body. */
  lemma AttachSits(d: Bytes, body: seq<Wire>, base: BaseTeamTalkPdu)
    requires Sits(d, 0, body + base.AttachWires()) && Size(body + base.AttachWires()) < TWO_32
    ensures Sits(d, 0, body) && Size(body) < TWO_32
    ensures base.attachDataType != NullType ==> TextAt(d, Size(body), base.attachData)
  {
    hide Encode, EncodeOne, Holds, TextAt;
    EncodeConcat(body, base.AttachWires());
    HoldsBoth(d, 0, Encode(body), Encode(base.AttachWires()));
    if base.attachDataType != NullType {
      SizeSnoc();
      TextSize(base.attachData);
      ItemsSit(d, Size(body), base.AttachWires());
      assert base.AttachWires()[0] == Str(base.attachData);
      TextSits(d, Size(body), base.attachData);
    }
  }

  /** A message whose true size a 32-bit length can express is parsed back, whatever follows it. */
  lemma PduRoundTrip(layout: Layout, body: seq<Wire>, base: BaseTeamTalkPdu, rest: Bytes)
    requires Typed(layout, body) && Solid(layout)
    requires Size(body + base.AttachWires()) < TWO_32
    ensures Decode(layout + base.AttachLayout(), Encode(body + base.AttachWires()) + rest) ==
            Done(body + base.AttachWires(), rest)
  {
    hide Encode, Decode;
    assert Typed(base.AttachLayout(), base.AttachWires());
    RoundTrip(layout + base.AttachLayout(), body + base.AttachWires(), rest);
  }

  /** Every proper prefix of such a message is rejected. */
  lemma PduPrefixRejected(layout: Layout, body: seq<Wire>, base: BaseTeamTalkPdu, p: Bytes)
    requires Typed(layout, body) && Solid(layout)
    requires Size(body + base.AttachWires()) < TWO_32 && p < Encode(body + base.AttachWires())
    ensures Decode(layout + base.AttachLayout(), p) == Fail
  {
    hide Encode, Decode;
    assert Typed(base.AttachLayout(), base.AttachWires());
    SmallFits(layout + base.AttachLayout(), body + base.AttachWires());
    PrefixRejected(layout + base.AttachLayout(), body + base.AttachWires(), p);
  }

  /** Two messages that differ in their attach data only share the whole encoded body, and any bytes that
      start with that body are read as far by the body's parser. */
  lemma AttachIsATail(layout: Layout, body: seq<Wire>, x: BaseTeamTalkPdu, y: BaseTeamTalkPdu)
    requires Typed(layout, body) && Fits(body)
    ensures Encode(body) <= Encode(body + x.AttachWires()) && Encode(body) <= Encode(body + y.AttachWires())
    ensures var b := Encode(body + x.AttachWires());
            Decode(layout, b) == Done(body, Encode(x.AttachWires())) && b == Encode(body) + Encode(x.AttachWires())
    ensures !x.HasAttachData() ==> Encode(body + x.AttachWires()) == Encode(body)
  {
    hide Encode, Decode;
    EncodeConcat(body, x.AttachWires());
    EncodeConcat(body, y.AttachWires());
    DecodeEncode(layout, body, Encode(x.AttachWires()));
    EmptyBody();
  }

  /** A buffer of exactly `ByteSize()` bytes holds the message if and only if its true size does not
      wrap in 32 bits. */
  lemma ByteSizeSuffices(ws: seq<Wire>)
    ensures Size(ws) <= Low32(Size(ws)) <==> Size(ws) < TWO_32
  {
  }
}
