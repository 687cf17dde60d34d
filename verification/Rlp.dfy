/** Recursive Length Prefix (Ethereum Yellow Paper, Appendix B): the encoding of items and
    a strict decoder, each proved to undo the other. */
module Rlp {
  import opened Types

  type Bytes = seq<byte>

  datatype Item = Str(data: Bytes) | List(items: seq<Item>)

  // ---- big-endian numbers --------------------------------------------------

  /** Minimal big-endian bytes; none for zero. */
  function BigEndian(n: nat): Bytes {
    if n == 0 then [] else BigEndian(n / 256) + [(n % 256) as byte]
  }

  function Value(b: Bytes): nat {
    if b == [] then 0 else 256 * Value(b[..|b| - 1]) + b[|b| - 1] as nat
  }

  predicate Minimal(b: Bytes) {
    b == [] || b[0] != 0
  }

  function Pow256(k: nat): (p: nat)
    ensures p > 0
  {
    if k == 0 then 1 else 256 * Pow256(k - 1)
  }

  lemma {:induction false} BigEndianValue(n: nat)
    ensures Value(BigEndian(n)) == n && Minimal(BigEndian(n))
  {
    if n > 0 {
      BigEndianValue(n / 256);
      var b := BigEndian(n);
      assert b[..|b| - 1] == BigEndian(n / 256);
    }
  }

  lemma {:induction false} ValueBigEndian(b: Bytes)
    requires Minimal(b)
    ensures BigEndian(Value(b)) == b
  {
    if b != [] {
      var hi, low := b[..|b| - 1], b[|b| - 1];
      ValueBigEndian(hi);
      assert b == hi + [low];
      assert Value(b) / 256 == Value(hi) && Value(b) % 256 == low as nat;
      assert Value(b) > 0 by { if Value(hi) == 0 { assert hi == BigEndian(0) == []; } }
    }
  }

  lemma {:induction false} ValueBound(b: Bytes)
    ensures Value(b) < Pow256(|b|)
  {
    if b != [] { ValueBound(b[..|b| - 1]); }
  }

  lemma {:induction false} BigEndianLength(n: nat, k: nat)
    ensures n < Pow256(k) <==> |BigEndian(n)| <= k
    decreases k
  {
    if k > 0 && n > 0 { BigEndianLength(n / 256, k - 1); }
  }

  lemma LengthFits(n: nat)
    ensures n < U64_SIZE <==> |BigEndian(n)| <= 8
  {
    assert Pow256(8) == U64_SIZE by {
      assert Pow256(4) == 0x1_0000_0000;
      assert Pow256(6) == 0x1_0000_0000_0000;
    }
    BigEndianLength(n, 8);
  }

  // ---- one header ----------------------------------------------------------

  /** The prefix of a string (0x80) or list (0xc0) of `n` payload bytes. */
  function Header(offset: nat, n: nat): Bytes
    requires offset == 0x80 || offset == 0xc0
    requires n < U64_SIZE
  {
    if n <= 55 then [(offset + n) as byte]
    else
      LengthFits(n);
      [(offset + 55 + |BigEndian(n)|) as byte] + BigEndian(n)
  }

  /** A payload with its prefix; a single byte below 0x80 is its own encoding. */
  function Wrap(list: bool, p: Bytes): Bytes
    requires |p| < U64_SIZE
  {
    if !list && |p| == 1 && p[0] < 0x80 then p
    else Header(if list then 0xc0 else 0x80, |p|) + p
  }

  datatype Head = Head(list: bool, payload: Bytes, rest: Bytes)

  /** Strict inverse of Wrap at the front of `s`: no superfluous prefix, no long form of a
      short length, no leading zero in a length. */
  function Split(s: Bytes): Option<Head> {
    if s == [] then None
    else if s[0] < 0x80 then Some(Head(false, s[..1], s[1..]))
    else
      var list := s[0] >= 0xc0;
      var k := s[0] as nat - if list then 0xc0 else 0x80;
      if k <= 55 then SplitAt(list, s, 1, k)
      else
        var start := 1 + k - 55;
        if |s| < start || s[1] == 0 || Value(s[1..start]) <= 55 then None
        else SplitAt(list, s, start, Value(s[1..start]))
  }

  function SplitAt(list: bool, s: Bytes, start: nat, n: nat): Option<Head> {
    if |s| < start + n || (!list && n == 1 && s[start] < 0x80) then None
    else Some(Head(list, s[start..start + n], s[start + n..]))
  }

  lemma SplitWrapShort(list: bool, p: Bytes, rest: Bytes)
    requires |p| <= 55 && (list || |p| != 1 || p[0] >= 0x80)
    ensures Split(Wrap(list, p) + rest) == Some(Head(list, p, rest))
  {
    var s := Wrap(list, p) + rest;
    assert s == Header(if list then 0xc0 else 0x80, |p|) + p + rest;
    assert s[1..1 + |p|] == p && s[1 + |p|..] == rest;
    assert |p| > 0 ==> s[1] == p[0];
  }

  lemma Pieces(a: Bytes, b: Bytes, c: Bytes, d: Bytes)
    ensures var s := a + b + c + d;
            s[|a|..|a| + |b|] == b && s[|a| + |b|..|a| + |b| + |c|] == c && s[|a| + |b| + |c|..] == d
  {
  }

  /** The decoder's view of a long form: tag, length and payload in place. */
  lemma SplitLongForm(list: bool, tag: byte, len: Bytes, p: Bytes, rest: Bytes)
    requires 1 <= |len| <= 8 && len[0] != 0 && tag as nat == (if list then 0xc0 else 0x80) + 55 + |len|
    requires Value(len) == |p| > 55
    ensures Split([tag] + len + p + rest) == Some(Head(list, p, rest))
  {
    var s := [tag] + len + p + rest;
    Pieces([tag], len, p, rest);
    assert s[0] == tag && s[1] == len[0];
  }

  lemma SplitWrapLong(list: bool, p: Bytes, rest: Bytes)
    requires 55 < |p| < U64_SIZE
    ensures Split(Wrap(list, p) + rest) == Some(Head(list, p, rest))
  {
    var off, len := if list then 0xc0 else 0x80, BigEndian(|p|);
    LengthFits(|p|);
    BigEndianValue(|p|);
    var tag := (off + 55 + |len|) as byte;
    SplitLongForm(list, tag, len, p, rest);
    assert Wrap(list, p) == [tag] + len + p;
  }

  lemma SplitWrap(list: bool, p: Bytes, rest: Bytes)
    requires |p| < U64_SIZE
    ensures Split(Wrap(list, p) + rest) == Some(Head(list, p, rest))
  {
    if !list && |p| == 1 && p[0] < 0x80 {
      var s := p + rest;
      assert s[..1] == p && s[1..] == rest;
    } else if |p| <= 55 {
      SplitWrapShort(list, p, rest);
    } else {
      SplitWrapLong(list, p, rest);
    }
  }

  lemma WrapSplitShort(s: Bytes)
    requires Split(s).Some? && 0x80 <= s[0] && s[0] as nat - (if s[0] >= 0xc0 then 0xc0 else 0x80) <= 55
    ensures var h := Split(s).value;
            |h.payload| <= 55 && s == Wrap(h.list, h.payload) + h.rest && |h.rest| + |h.payload| < |s|
  {
    var h := Split(s).value;
    assert s == [s[0]] + h.payload + h.rest;
  }

  lemma Cut(s: Bytes, i: nat, j: nat)
    requires 1 <= i <= j <= |s|
    ensures s == [s[0]] + s[1..i] + s[i..j] + s[j..]
  {
  }

  lemma WrapSplitLong(s: Bytes)
    requires Split(s).Some? && 0x80 <= s[0] && s[0] as nat - (if s[0] >= 0xc0 then 0xc0 else 0x80) > 55
    ensures var h := Split(s).value;
            |h.payload| < U64_SIZE && s == Wrap(h.list, h.payload) + h.rest && |h.rest| + |h.payload| < |s|
  {
    var h := Split(s).value;
    var off := if h.list then 0xc0 else 0x80;
    var start := s[0] as nat - off - 54;
    assert 2 <= start <= |s| && s[1] != 0;
    var len := s[1..start];
    var n := Value(len);
    assert len[0] == s[1];
    assert BigEndian(n) == len by { ValueBigEndian(len); }
    assert n > 55 && h == Head(h.list, s[start..start + n], s[start + n..]);
    assert n < U64_SIZE by { LengthFits(n); }
    Cut(s, start, start + n);
    assert Header(off, n) == [s[0]] + len;
  }

  lemma WrapSplit(s: Bytes)
    requires Split(s).Some?
    ensures var h := Split(s).value;
            |h.payload| < U64_SIZE && s == Wrap(h.list, h.payload) + h.rest
            && |h.rest| < |s| && (h.list ==> |h.payload| < |s|)
  {
    if s[0] < 0x80 {
      assert s == s[..1] + s[1..];
    } else if s[0] as nat - (if s[0] >= 0xc0 then 0xc0 else 0x80) <= 55 {
      WrapSplitShort(s);
    } else {
      WrapSplitLong(s);
    }
  }

  // ---- items ---------------------------------------------------------------

  function HeaderSize(n: nat): nat {
    if n <= 55 then 1 else 1 + |BigEndian(n)|
  }

  /** Length of an item's encoding. */
  function Size(it: Item): nat
    decreases it, 1
  {
    match it
    case Str(d) => if |d| == 1 && d[0] < 0x80 then 1 else HeaderSize(|d|) + |d|
    case List(items) => HeaderSize(SizeAll(items)) + SizeAll(items)
  }

  function SizeAll(items: seq<Item>): nat
    decreases items, 0
  {
    if items == [] then 0 else Size(items[0]) + SizeAll(items[1..])
  }

  /** Every payload length fits the eight length bytes RLP allows. */
  predicate Fits(it: Item)
    decreases it, 1
  {
    match it
    case Str(d) => |d| < U64_SIZE
    case List(items) => SizeAll(items) < U64_SIZE && FitsAll(items)
  }

  predicate FitsAll(items: seq<Item>)
    decreases items, 0
  {
    items == [] || (Fits(items[0]) && FitsAll(items[1..]))
  }

  function Encode(it: Item): (b: Bytes)
    requires Fits(it)
    ensures |b| == Size(it) > 0
    decreases it, 1
  {
    match it
    case Str(d) => Wrap(false, d)
    case List(items) => Wrap(true, EncodeAll(items))
  }

  function EncodeAll(items: seq<Item>): (b: Bytes)
    requires FitsAll(items)
    ensures |b| == SizeAll(items)
    decreases items, 0
  {
    if items == [] then [] else Encode(items[0]) + EncodeAll(items[1..])
  }

  datatype Parsed = Parsed(item: Item, rest: Bytes)

  /** The item at the front of `s`, and what follows it. */
  function Decode(s: Bytes): (r: Option<Parsed>)
    ensures r.Some? ==> |r.value.rest| < |s|
    decreases |s|, 0
  {
    match Split(s)
    case None => None
    case Some(h) =>
      WrapSplit(s);
      if !h.list then Some(Parsed(Str(h.payload), h.rest))
      else
        match DecodeAll(h.payload)
        case None => None
        case Some(items) => Some(Parsed(List(items), h.rest))
  }

  /** All of `s` as a row of items. */
  function DecodeAll(s: Bytes): Option<seq<Item>>
    decreases |s|, 1
  {
    if s == [] then Some([])
    else
      match Decode(s)
      case None => None
      case Some(p) =>
        match DecodeAll(p.rest)
        case None => None
        case Some(items) => Some([p.item] + items)
  }

  lemma {:induction false} DecodeEncode(it: Item, rest: Bytes)
    requires Fits(it)
    ensures Decode(Encode(it) + rest) == Some(Parsed(it, rest))
    decreases it, 1
  {
    match it
    case Str(d) => SplitWrap(false, d, rest);
    case List(items) =>
      SplitWrap(true, EncodeAll(items), rest);
      DecodeEncodeAll(items);
  }

  lemma {:induction false} DecodeEncodeAll(items: seq<Item>)
    requires FitsAll(items)
    ensures DecodeAll(EncodeAll(items)) == Some(items)
    decreases items, 0
  {
    if items != [] {
      DecodeEncode(items[0], EncodeAll(items[1..]));
      DecodeEncodeAll(items[1..]);
      assert items == [items[0]] + items[1..];
    }
  }

  lemma {:induction false} EncodeDecode(s: Bytes)
    requires Decode(s).Some?
    ensures var p := Decode(s).value; Fits(p.item) && s == Encode(p.item) + p.rest
    decreases |s|, 0
  {
    WrapSplit(s);
    var h := Split(s).value;
    if h.list { EncodeDecodeAll(h.payload); }
  }

  lemma {:induction false} EncodeDecodeAll(s: Bytes)
    requires DecodeAll(s).Some?
    ensures FitsAll(DecodeAll(s).value) && s == EncodeAll(DecodeAll(s).value)
    decreases |s|, 1
  {
    if s != [] {
      EncodeDecode(s);
      var p := Decode(s).value;
      EncodeDecodeAll(p.rest);
      var items := DecodeAll(p.rest).value;
      assert ([p.item] + items)[1..] == items;
    }
  }

  lemma HeadFirst<T>(a: seq<T>, b: seq<T>)
    requires a != []
    ensures a + b == [a[0]] + (a[1..] + b) && a == [a[0]] + a[1..]
  {
  }

  lemma Associative(x: Bytes, y: Bytes, z: Bytes)
    ensures x + (y + z) == (x + y) + z
  {
  }

  lemma EncodeAllCons(x: Item, xs: seq<Item>)
    requires Fits(x) && FitsAll(xs)
    ensures FitsAll([x] + xs) && EncodeAll([x] + xs) == Encode(x) + EncodeAll(xs)
  {
    assert ([x] + xs)[1..] == xs;
  }

  lemma {:induction false} EncodeAllAppend(a: seq<Item>, b: seq<Item>)
    requires FitsAll(a) && FitsAll(b)
    ensures FitsAll(a + b) && EncodeAll(a + b) == EncodeAll(a) + EncodeAll(b)
  {
    if a == [] {
      assert a + b == b;
    } else {
      var x, xs := a[0], a[1..];
      EncodeAllAppend(xs, b);
      EncodeAllCons(x, xs + b);
      HeadFirst(a, b);
      Associative(Encode(x), EncodeAll(xs), EncodeAll(b));
    }
  }
}
