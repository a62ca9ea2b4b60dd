/** The wire format of TeamTalk bodies: scalars, length-prefixed strings, counted lists of
    records (which may themselves hold lists) and tails that a tag switches on or off.

    `Shape` describes what a parser expects, `Wire` holds what was written, `Encode` is the
    printer and `Decode` the parser that stops at the first read that fails.  Everything is
    defined from the back of the sequence, because the programs read and write in order and a
    loop that has handled i items is then exactly one unfolding away from i + 1. */
module WireFormat {

  const TWO_32 := 0x1_0000_0000

  type Byte = b: int | 0 <= b < 256
  type UInt32 = n: int | 0 <= n < TWO_32
  type Bytes = seq<Byte>

  /** One item of a body.  `Tail(tag, body)` is a word followed by fields that are there or
      not depending on whether the word is zero. */
  datatype Wire =
    | U8(b: Byte)
    | U32(n: UInt32)
    | Str(s: Bytes)
    | Arr(rows: seq<Row>)
    | Tail(tag: UInt32, body: seq<Wire>)

  /** One record of a list. */
  datatype Row = Row(fields: seq<Wire>)

  /** `Tagged(onZero, tail)`: the tail follows its tag exactly when `(tag == 0) == onZero`. */
  datatype Shape =
    | Octet
    | Word
    | Text
    | List(row: seq<Shape>)
    | Tagged(onZero: bool, tail: seq<Shape>)

  type Layout = seq<Shape>

  datatype Parsed<+T> = Fail | Done(value: T, rest: Bytes)

  // ----- printing

  /** The four bytes of a word, most significant first. */
  function PutWord(n: UInt32): (r: Bytes)
    ensures |r| == 4
  {
    [n / 256 / 256 / 256, n / 256 / 256 % 256, n / 256 % 256, n % 256]
  }

  /** Lengths and counts are cast to 32 bits before they are written. */
  function Low32(n: nat): UInt32 {
    n % TWO_32
  }

  function EncodeOne(w: Wire): Bytes
    decreases w, 1
  {
    match w
    case U8(b) => [b]
    case U32(n) => PutWord(n)
    case Str(s) => PutWord(Low32(|s|)) + s
    case Arr(rows) => PutWord(Low32(|rows|)) + EncodeRows(rows)
    case Tail(tag, body) => PutWord(tag) + Encode(body)
  }

  function Encode(ws: seq<Wire>): Bytes
    decreases ws, 0
  {
    if ws == [] then [] else Encode(ws[..|ws| - 1]) + EncodeOne(ws[|ws| - 1])
  }

  function EncodeRows(rows: seq<Row>): Bytes
    decreases rows, 0
  {
    if rows == [] then [] else EncodeRows(rows[..|rows| - 1]) + Encode(rows[|rows| - 1].fields)
  }

  // ----- parsing, stopping at the first failure

  function WordOf(b0: int, b1: int, b2: int, b3: int): int {
    ((b0 * 256 + b1) * 256 + b2) * 256 + b3
  }

  function TakeWord(b: Bytes): Parsed<UInt32> {
    if |b| < 4 then Fail
    else Done(WordOf(b[0], b[1], b[2], b[3]), b[4..])
  }

  function TakeText(b: Bytes): Parsed<Bytes> {
    match TakeWord(b)
    case Fail => Fail
    case Done(n, r) => if |r| < n then Fail else Done(r[..n], r[n..])
  }

  function DecodeOne(shape: Shape, b: Bytes): Parsed<Wire>
    decreases shape, 1, 0
  {
    match shape
    case Octet => if b == [] then Fail else Done(U8(b[0]), b[1..])
    case Word => (match TakeWord(b) case Fail => Fail case Done(n, r) => Done(U32(n), r))
    case Text => (match TakeText(b) case Fail => Fail case Done(s, r) => Done(Str(s), r))
    case List(row) =>
      (match TakeWord(b)
       case Fail => Fail
       case Done(n, r) =>
         match DecodeRows(row, n, r) case Fail => Fail case Done(rows, r') => Done(Arr(rows), r'))
    case Tagged(onZero, tail) =>
      (match TakeWord(b)
       case Fail => Fail
       case Done(tag, r) =>
         if (tag == 0) != onZero then Done(Tail(tag, []), r)
         else match Decode(tail, r) case Fail => Fail case Done(ws, r') => Done(Tail(tag, ws), r'))
  }

  function Decode(layout: Layout, b: Bytes): Parsed<seq<Wire>>
    decreases layout, 0, 0
  {
    if layout == [] then Done([], b)
    else
      match Decode(layout[..|layout| - 1], b)
      case Fail => Fail
      case Done(ws, r) =>
        match DecodeOne(layout[|layout| - 1], r)
        case Fail => Fail
        case Done(w, r') => Done(ws + [w], r')
  }

  function DecodeRows(row: Layout, n: nat, b: Bytes): Parsed<seq<Row>>
    decreases row, 1, n
  {
    if n == 0 then Done([], b)
    else
      match DecodeRows(row, n - 1, b)
      case Fail => Fail
      case Done(rows, r) =>
        match Decode(row, r)
        case Fail => Fail
        case Done(ws, r') => Done(rows + [Row(ws)], r')
  }

  // ----- which values a layout describes

  ghost predicate TypedOne(shape: Shape, w: Wire)
    decreases shape, 1
  {
    match (shape, w)
    case (Octet, U8(_)) => true
    case (Word, U32(_)) => true
    case (Text, Str(_)) => true
    case (List(row), Arr(rows)) => forall i | 0 <= i < |rows| :: Typed(row, rows[i].fields)
    case (Tagged(onZero, tail), Tail(tag, body)) =>
      if (tag == 0) == onZero then Typed(tail, body) else body == []
    case _ => false
  }

  ghost predicate Typed(layout: Layout, ws: seq<Wire>)
    decreases layout, 0
  {
    |layout| == |ws| && forall i | 0 <= i < |ws| :: TypedOne(layout[i], ws[i])
  }

  /** No length or count is cut by the 32-bit cast. */
  ghost predicate FitsOne(w: Wire)
    decreases w, 1
  {
    match w
    case U8(_) => true
    case U32(_) => true
    case Str(s) => |s| < TWO_32
    case Arr(rows) => |rows| < TWO_32 && forall i | 0 <= i < |rows| :: Fits(rows[i].fields)
    case Tail(_, body) => Fits(body)
  }

  ghost predicate Fits(ws: seq<Wire>)
    decreases ws, 0
  {
    forall i | 0 <= i < |ws| :: FitsOne(ws[i])
  }

  // ----- words

  lemma TakePutWord(n: UInt32, rest: Bytes)
    ensures TakeWord(PutWord(n) + rest) == Done(n, rest)
  {
    assert (PutWord(n) + rest)[4..] == rest;
    assert (PutWord(n) + rest)[..4] == PutWord(n);
  }

  lemma SplitByte(q: nat, r: nat)
    requires r < 256
    ensures (q * 256 + r) / 256 == q && (q * 256 + r) % 256 == r
  {
  }

  lemma PutTakeWord(b: Bytes)
    requires TakeWord(b).Done?
    ensures b == PutWord(TakeWord(b).value) + TakeWord(b).rest
  {
    var b0: int, b1: int, b2: int := b[0], b[1], b[2];
    SplitByte(b0, b[1]);
    SplitByte(b0 * 256 + b1, b[2]);
    SplitByte((b0 * 256 + b1) * 256 + b2, b[3]);
    assert PutWord(TakeWord(b).value) == [b[0], b[1], b[2], b[3]];
  }

  lemma EmptyBody()
    ensures Encode([]) == [] && Fits([])
  {
  }

  // ----- parsing inverts printing, whatever follows

  lemma {:induction false} DecodeOneEncodeOne(shape: Shape, w: Wire, rest: Bytes)
    requires TypedOne(shape, w) && FitsOne(w)
    ensures DecodeOne(shape, EncodeOne(w) + rest) == Done(w, rest)
    decreases shape, 1, 0
  {
    hide Encode, EncodeRows, Decode, DecodeRows, PutWord, TakeWord, Typed, Fits;
    match w
    case U8(b) =>
    case U32(n) => TakePutWord(n, rest);
    case Str(s) =>
      assert EncodeOne(w) + rest == PutWord(|s|) + (s + rest);
      TakePutWord(|s|, s + rest);
    case Arr(rows) =>
      assert EncodeOne(w) + rest == PutWord(|rows|) + (EncodeRows(rows) + rest);
      TakePutWord(|rows|, EncodeRows(rows) + rest);
      DecodeRowsEncodeRows(shape.row, rows, rest);
    case Tail(tag, body) =>
      assert EncodeOne(w) + rest == PutWord(tag) + (Encode(body) + rest);
      TakePutWord(tag, Encode(body) + rest);
      if (tag == 0) == shape.onZero {
        DecodeEncode(shape.tail, body, rest);
      } else {
        EmptyBody();
        assert [] + rest == rest;
      }
  }

  lemma {:induction false} DecodeEncode(layout: Layout, ws: seq<Wire>, rest: Bytes)
    requires Typed(layout, ws) && Fits(ws)
    ensures Decode(layout, Encode(ws) + rest) == Done(ws, rest)
    decreases layout, 0, 0
  {
    hide EncodeOne, DecodeOne, EncodeRows, DecodeRows, TypedOne, FitsOne;
    if ws == [] {
      assert Encode(ws) + rest == rest;
    } else {
      var k := |ws| - 1;
      assert Encode(ws) + rest == Encode(ws[..k]) + (EncodeOne(ws[k]) + rest);
      DecodeEncode(layout[..k], ws[..k], EncodeOne(ws[k]) + rest);
      DecodeOneEncodeOne(layout[k], ws[k], rest);
      assert ws[..k] + [ws[k]] == ws;
    }
  }

  lemma {:induction false} DecodeRowsEncodeRows(row: Layout, rows: seq<Row>, rest: Bytes)
    requires forall i | 0 <= i < |rows| :: Typed(row, rows[i].fields) && Fits(rows[i].fields)
    ensures DecodeRows(row, |rows|, EncodeRows(rows) + rest) == Done(rows, rest)
    decreases row, 1, |rows|
  {
    hide Encode, EncodeOne, Decode, DecodeOne, Typed, Fits;
    if rows == [] {
      assert EncodeRows(rows) + rest == rest;
    } else {
      var k := |rows| - 1;
      var last := rows[k].fields;
      assert Typed(row, last) && Fits(last);
      var r := Encode(last) + rest;
      DecodeEncode(row, last, rest);
      DecodeRowsEncodeRows(row, rows[..k], r);
      assert EncodeRows(rows) + rest == EncodeRows(rows[..k]) + r;
      DecodeRowsSnoc(row, rows[..k], last, EncodeRows(rows) + rest, r, rest);
      assert rows[..k] + [Row(last)] == rows;
    }
  }

  lemma DecodeRowsSnoc(row: Layout, rows: seq<Row>, ws: seq<Wire>, b: Bytes, r: Bytes, r': Bytes)
    requires DecodeRows(row, |rows|, b) == Done(rows, r) && Decode(row, r) == Done(ws, r')
    ensures DecodeRows(row, |rows| + 1, b) == Done(rows + [Row(ws)], r')
  {
  }

  // ----- printing inverts parsing: what was consumed is the encoding of what was read

  lemma {:induction false} EncodeOneDecodeOne(shape: Shape, b: Bytes)
    requires DecodeOne(shape, b).Done?
    ensures var Done(w, rest) := DecodeOne(shape, b);
            TypedOne(shape, w) && FitsOne(w) && b == EncodeOne(w) + rest
    decreases shape, 1, 0
  {
    hide Encode, EncodeRows, Decode, DecodeRows, PutWord, TakeWord, Typed, Fits;
    match shape
    case Octet =>
    case Word => PutTakeWord(b);
    case Text =>
      PutTakeWord(b);
      var Done(n, r) := TakeWord(b);
      assert r == r[..n] + r[n..];
    case List(row) =>
      PutTakeWord(b);
      var Done(n, r) := TakeWord(b);
      EncodeRowsDecodeRows(row, n, r);
    case Tagged(onZero, tail) =>
      PutTakeWord(b);
      var Done(tag, r) := TakeWord(b);
      if (tag == 0) == onZero {
        EncodeDecode(tail, r);
      } else {
        EmptyBody();
        assert PutWord(tag) + [] == PutWord(tag);
      }
  }

  lemma {:induction false} EncodeDecode(layout: Layout, b: Bytes)
    requires Decode(layout, b).Done?
    ensures var Done(ws, rest) := Decode(layout, b);
            Typed(layout, ws) && Fits(ws) && b == Encode(ws) + rest
    decreases layout, 0, 0
  {
    hide EncodeOne, DecodeOne, EncodeRows, DecodeRows, TypedOne, FitsOne;
    if layout != [] {
      var k := |layout| - 1;
      EncodeDecode(layout[..k], b);
      var Done(ws, r) := Decode(layout[..k], b);
      EncodeOneDecodeOne(layout[k], r);
      var Done(w, r') := DecodeOne(layout[k], r);
      assert (ws + [w])[..k] == ws;
    }
  }

  lemma {:induction false} EncodeRowsDecodeRows(row: Layout, n: nat, b: Bytes)
    requires DecodeRows(row, n, b).Done?
    ensures var Done(rows, rest) := DecodeRows(row, n, b);
            && |rows| == n
            && (forall i | 0 <= i < n :: Typed(row, rows[i].fields) && Fits(rows[i].fields))
            && b == EncodeRows(rows) + rest
    decreases row, 1, n
  {
    hide Encode, EncodeOne, Decode, DecodeOne, Typed, Fits;
    if n != 0 {
      EncodeRowsDecodeRows(row, n - 1, b);
      var Done(rows, r) := DecodeRows(row, n - 1, b);
      EncodeDecode(row, r);
      var Done(ws, r') := Decode(row, r);
      assert (rows + [Row(ws)])[..n - 1] == rows;
    }
  }

  // ----- consequences

  /** The parser accepts exactly the inputs that start with the encoding of a value of the
      layout; that value and the number of bytes it took are then unique. */
  lemma AcceptsExactlyEncodings(layout: Layout, b: Bytes)
    ensures Decode(layout, b).Done? <==>
            exists ws :: Typed(layout, ws) && Fits(ws) && Encode(ws) <= b
    ensures forall ws | Typed(layout, ws) && Fits(ws) && Encode(ws) <= b ::
              Decode(layout, b) == Done(ws, b[|Encode(ws)|..])
  {
    if Decode(layout, b).Done? {
      EncodeDecode(layout, b);
      assert Encode(Decode(layout, b).value) <= b;
    }
    forall ws | Typed(layout, ws) && Fits(ws) && Encode(ws) <= b
      ensures Decode(layout, b) == Done(ws, b[|Encode(ws)|..])
    {
      assert b == Encode(ws) + b[|Encode(ws)|..];
      DecodeEncode(layout, ws, b[|Encode(ws)|..]);
    }
  }

  /** No encoding is a proper prefix of another, so a truncated one is always rejected. */
  lemma PrefixRejected(layout: Layout, ws: seq<Wire>, p: Bytes)
    requires Typed(layout, ws) && Fits(ws) && p < Encode(ws)
    ensures Decode(layout, p) == Fail
  {
    if Decode(layout, p).Done? {
      EncodeDecode(layout, p);
      AcceptsExactlyEncodings(layout, Encode(ws));
    }
  }

  lemma EncodeInjective(layout: Layout, u: seq<Wire>, v: seq<Wire>)
    requires Typed(layout, u) && Fits(u) && Typed(layout, v) && Fits(v)
    requires Encode(u) == Encode(v)
    ensures u == v
  {
    AcceptsExactlyEncodings(layout, Encode(u));
  }

  lemma EncodeSnoc(ws: seq<Wire>, w: Wire)
    ensures Encode(ws + [w]) == Encode(ws) + EncodeOne(w)
  {
    hide EncodeOne, EncodeRows;
    assert (ws + [w])[..|ws|] == ws;
  }

  lemma EncodeWord(n: UInt32)
    ensures Encode([U32(n)]) == PutWord(n)
  {
    hide PutWord;
    assert [U32(n)] == [] + [U32(n)];
    EncodeSnoc([], U32(n));
  }

  lemma EncodeRowsSnoc(rows: seq<Row>, ws: seq<Wire>)
    ensures EncodeRows(rows + [Row(ws)]) == EncodeRows(rows) + Encode(ws)
  {
    hide EncodeOne, Encode;
    assert (rows + [Row(ws)])[..|rows|] == rows;
  }

  lemma DecodeSnoc(layout: Layout, shape: Shape, b: Bytes)
    ensures Decode(layout + [shape], b) ==
            match Decode(layout, b)
            case Fail => Fail
            case Done(ws, r) =>
              match DecodeOne(shape, r) case Fail => Fail case Done(w, r') => Done(ws + [w], r')
  {
    hide DecodeOne, DecodeRows;
    assert (layout + [shape])[..|layout|] == layout;
  }

  lemma DecodeSingle(shape: Shape, b: Bytes)
    ensures Decode([shape], b) ==
            match DecodeOne(shape, b) case Fail => Fail case Done(w, r) => Done([w], r)
  {
    hide DecodeOne, DecodeRows;
    assert [shape] == [] + [shape];
    DecodeSnoc([], shape, b);
    assert forall w: Wire :: [] + [w] == [w];
  }

  lemma {:induction false} EncodeConcat(u: seq<Wire>, v: seq<Wire>)
    ensures Encode(u + v) == Encode(u) + Encode(v)
  {
    hide EncodeOne, EncodeRows;
    if v == [] {
      assert u + v == u;
    } else {
      var k := |v| - 1;
      assert (u + v)[..|u| + k] == u + v[..k];
      EncodeConcat(u, v[..k]);
    }
  }

  /** Parsing two layouts in a row is parsing the first and then the second on what is left. */
  lemma {:induction false} DecodeConcat(l: Layout, m: Layout, b: Bytes)
    ensures Decode(l + m, b) ==
            match Decode(l, b)
            case Fail => Fail
            case Done(u, r) =>
              match Decode(m, r) case Fail => Fail case Done(v, r') => Done(u + v, r')
  {
    hide DecodeOne, DecodeRows;
    if m == [] {
      assert l + m == l;
      if Decode(l, b).Done? {
        assert Decode(l, b).value + [] == Decode(l, b).value;
      }
    } else {
      var k := |m| - 1;
      assert (l + m)[..|l| + k] == l + m[..k];
      DecodeConcat(l, m[..k], b);
      if Decode(l + m, b).Done? {
        var u := Decode(l, b).value;
        var Done(v, r) := Decode(m[..k], Decode(l, b).rest);
        var w := DecodeOne(m[k], r).value;
        assert (u + v) + [w] == u + (v + [w]);
      }
    }
  }

  // ----- sizes

  /** A non-recursive name for the true size, so that sums over fixed records unfold freely. */
  function Size(ws: seq<Wire>): nat {
    |Encode(ws)|
  }

  function SizeOne(w: Wire): nat {
    |EncodeOne(w)|
  }

  lemma SizeSnoc()
    ensures Size([]) == 0
    ensures forall w :: Size([w]) == SizeOne(w)
    ensures forall ws, w :: Size(ws + [w]) == Size(ws) + SizeOne(w)
  {
    hide EncodeOne, EncodeRows;
    forall ws: seq<Wire>, w: Wire
      ensures Size(ws + [w]) == Size(ws) + SizeOne(w)
    {
      EncodeSnoc(ws, w);
    }
    forall w: Wire
      ensures Size([w]) == SizeOne(w)
    {
      assert [w] == [] + [w];
      EncodeSnoc([], w);
    }
  }

  /** The fewest bytes a value of the shape can take. */
  function LeastOne(shape: Shape): (n: nat)
    ensures n > 0
  {
    if shape.Octet? then 1 else 4
  }

  function Least(layout: Layout): nat {
    if layout == [] then 0 else Least(layout[..|layout| - 1]) + LeastOne(layout[|layout| - 1])
  }

  lemma {:induction false} LeastWithoutOctets(layout: Layout)
    requires forall i | 0 <= i < |layout| :: !layout[i].Octet?
    ensures Least(layout) == 4 * |layout|
  {
    if layout != [] {
      LeastWithoutOctets(layout[..|layout| - 1]);
    }
  }

  lemma {:induction false} LeastIsLower(layout: Layout, ws: seq<Wire>)
    requires Typed(layout, ws)
    ensures |Encode(ws)| >= Least(layout)
  {
    if ws != [] {
      var k := |ws| - 1;
      LeastIsLower(layout[..k], ws[..k]);
    }
  }

  lemma {:induction false} RowsLowerBound(row: Layout, rows: seq<Row>)
    requires forall i | 0 <= i < |rows| :: Typed(row, rows[i].fields)
    ensures |EncodeRows(rows)| >= |rows| * Least(row)
  {
    hide Encode, Least, Typed;
    if rows != [] {
      var k := |rows| - 1;
      RowsLowerBound(row, rows[..k]);
      LeastIsLower(row, rows[k].fields);
      assert |rows| * Least(row) == k * Least(row) + Least(row);
    }
  }

  /** An accepted count is paid for by bytes of the input, whatever the count field says. */
  lemma AcceptedCountIsBounded(row: Layout, b: Bytes)
    requires DecodeOne(List(row), b).Done?
    ensures var Done(w, rest) := DecodeOne(List(row), b);
            && w.Arr? && |w.rows| == TakeWord(b).value
            && |w.rows| * Least(row) <= |b| - 4 - |rest|
  {
    EncodeOneDecodeOne(List(row), b);
    var Done(w, rest) := DecodeOne(List(row), b);
    var Done(n, r) := TakeWord(b);
    EncodeRowsDecodeRows(row, n, r);
    RowsLowerBound(row, w.rows);
  }

  // ----- a true size below 2^32 means no cast cuts anything

  /** Every list of the layout has rows with at least one field. */
  ghost predicate Solid(layout: Layout)
    decreases layout, 0
  {
    forall i | 0 <= i < |layout| :: SolidOne(layout[i])
  }

  ghost predicate SolidOne(shape: Shape)
    decreases shape, 1
  {
    match shape
    case List(row) => row != [] && Solid(row)
    case Tagged(_, tail) => Solid(tail)
    case _ => true
  }

  lemma {:induction false} SmallFits(layout: Layout, ws: seq<Wire>)
    requires Typed(layout, ws) && Solid(layout) && |Encode(ws)| < TWO_32
    ensures Fits(ws)
    decreases layout, 0, 0
  {
    if ws != [] {
      var k := |ws| - 1;
      SmallFits(layout[..k], ws[..k]);
      SmallFitsOne(layout[k], ws[k]);
      forall i | 0 <= i < |ws| ensures FitsOne(ws[i]) {
        if i < k {
          assert FitsOne(ws[..k][i]);
        }
      }
    }
  }

  lemma {:induction false} SmallFitsOne(shape: Shape, w: Wire)
    requires TypedOne(shape, w) && SolidOne(shape) && |EncodeOne(w)| < TWO_32
    ensures FitsOne(w)
    decreases shape, 1, 0
  {
    match w
    case U8(_) =>
    case U32(_) =>
    case Str(_) =>
    case Arr(rows) => SmallFitsRows(shape.row, rows);
    case Tail(tag, body) =>
      if (tag == 0) == shape.onZero {
        SmallFits(shape.tail, body);
      }
  }

  lemma {:induction false} SmallFitsRows(row: Layout, rows: seq<Row>)
    requires forall i | 0 <= i < |rows| :: Typed(row, rows[i].fields)
    requires row != [] && Solid(row) && |EncodeRows(rows)| < TWO_32
    ensures |rows| <= |EncodeRows(rows)|
    ensures forall i | 0 <= i < |rows| :: Fits(rows[i].fields)
    decreases row, 1, |rows|
  {
    if rows != [] {
      var k := |rows| - 1;
      SmallFitsRows(row, rows[..k]);
      SmallFits(row, rows[k].fields);
      LeastIsLower(row, rows[k].fields);
      assert Least(row) > 0;
      forall i | 0 <= i < |rows| ensures Fits(rows[i].fields) {
        if i < k {
          assert Fits(rows[..k][i].fields);
        }
      }
    }
  }

  /** The round trip for every value whose true size a 32-bit length can express. */
  lemma RoundTrip(layout: Layout, ws: seq<Wire>, rest: Bytes)
    requires Typed(layout, ws) && Solid(layout) && |Encode(ws)| < TWO_32
    ensures Decode(layout, Encode(ws) + rest) == Done(ws, rest)
  {
    SmallFits(layout, ws);
    DecodeEncode(layout, ws, rest);
  }
}
