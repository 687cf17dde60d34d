/** EIP-1559 transactions on the wire: the encoders as programs, a strict decoder, and the
    round trips between them. */
module Eip1559 {
  import opened Types
  import opened Rlp
  import opened RlpStreams

  const U256_SIZE: nat := 0x1_0000_0000_0000_0000_0000_0000_0000_0000_0000_0000_0000_0000_0000_0000_0000_0000

  type U256 = n: nat | n < U256_SIZE

  datatype AccessEntry = AccessEntry(address: Address, keys: seq<U256>)

  datatype Transaction = Transaction(
    chainId: U256, nonce: U256, maxPriorityFeePerGas: U256, maxFeePerGas: U256, gasLimit: U256,
    to: Option<Address>, value: U256, data: Bytes, accessList: seq<AccessEntry>)

  datatype Signature = Signature(yParity: byte, r: Hash, s: Hash)

  datatype SignedTransaction = SignedTransaction(rlp: Bytes, withNonce: U256)

  // ---- the items of a transaction ------------------------------------------

  function Scalar(n: nat): Item {
    Str(BigEndian(n))
  }

  function ToItem(to: Option<Address>): Item {
    if to.Some? then Str(to.value) else Str([])
  }

  function KeyItems(keys: seq<U256>): seq<Item> {
    if keys == [] then [] else [Scalar(keys[0])] + KeyItems(keys[1..])
  }

  function EntryItem(x: AccessEntry): Item {
    List([Str(x.address), List(KeyItems(x.keys))])
  }

  function EntryItems(xs: seq<AccessEntry>): seq<Item> {
    if xs == [] then [] else [EntryItem(xs[0])] + EntryItems(xs[1..])
  }

  function UnsignedFields(tx: Transaction): seq<Item> {
    [Scalar(tx.chainId), Scalar(tx.nonce), Scalar(tx.maxPriorityFeePerGas), Scalar(tx.maxFeePerGas),
     Scalar(tx.gasLimit), ToItem(tx.to), Scalar(tx.value), Str(tx.data), List(EntryItems(tx.accessList))]
  }

  /** What `strip_leading_zeros` yields: minimal bytes, but a single zero byte for zero. */
  function Stripped(b: Bytes): Bytes {
    if Value(b) == 0 then [0] else BigEndian(Value(b))
  }

  function SignatureFields(sig: Signature): seq<Item> {
    [Scalar(sig.yParity as nat), Str(Stripped(sig.r)), Str(Stripped(sig.s))]
  }

  function SignedFields(tx: Transaction, sig: Signature): seq<Item> {
    UnsignedFields(tx) + SignatureFields(sig)
  }

  /** The encoding is held in one allocation, so it is shorter than isize::MAX. */
  predicate InMemory(tx: Transaction) {
    SizeAll(UnsignedFields(tx)) < U64_SIZE / 2
  }

  lemma {:induction false} SizeFits(items: seq<Item>)
    requires SizeAll(items) < U64_SIZE
    ensures FitsAll(items)
    decreases items
  {
    if items != [] {
      if items[0].List? { SizeFits(items[0].items); }
      SizeFits(items[1..]);
    }
  }

  lemma {:induction false} SizeAllAppend(a: seq<Item>, b: seq<Item>)
    ensures SizeAll(a + b) == SizeAll(a) + SizeAll(b)
  {
    if a == [] {
      assert a + b == b;
    } else {
      SizeAllAppend(a[1..], b);
      var c := a + b;
      assert c[0] == a[0] && c[1..] == a[1..] + b;
    }
  }

  lemma SizeOfThree(a: Item, b: Item, c: Item)
    ensures SizeAll([a, b, c]) == Size(a) + Size(b) + Size(c)
  {
    assert [a, b, c][1..] == [b, c] && [b, c][1..] == [c] && [c][1..] == [];
    assert SizeAll([c]) == Size(c) + SizeAll([]);
    assert SizeAll([b, c]) == Size(b) + SizeAll([c]);
    assert SizeAll([a, b, c]) == Size(a) + SizeAll([b, c]);
  }

  lemma WordSize()
    ensures Pow256(32) == U256_SIZE
  {
    assert Pow256(8) == U64_SIZE by {
      assert Pow256(4) == 0x1_0000_0000;
      assert Pow256(6) == 0x1_0000_0000_0000;
    }
    Pow256Add(8, 8);
    Pow256Add(16, 16);
  }

  lemma {:induction false} Pow256Add(a: nat, b: nat)
    ensures Pow256(a + b) == Pow256(a) * Pow256(b)
  {
    if a > 0 { Pow256Add(a - 1, b); }
  }

  lemma StrippedSize(h: Hash)
    ensures |Stripped(h)| <= 32
  {
    ValueBound(h);
    BigEndianLength(Value(h), 32);
  }

  lemma MemoryFits(tx: Transaction, sig: Signature)
    requires InMemory(tx)
    ensures FitsAll(UnsignedFields(tx)) && Fits(List(UnsignedFields(tx)))
    ensures FitsAll(SignatureFields(sig)) && Fits(List(SignedFields(tx, sig)))
  {
    StrippedSize(sig.r);
    StrippedSize(sig.s);
    var sf := SignatureFields(sig);
    BigEndianLength(sig.yParity as nat, 1);
    assert Pow256(1) == 256;
    SizeOfThree(sf[0], sf[1], sf[2]);
    assert SizeAll(sf) <= 100;
    SizeAllAppend(UnsignedFields(tx), sf);
    SizeFits(UnsignedFields(tx));
    SizeFits(sf);
    SizeFits(SignedFields(tx, sig));
  }

  // ---- leading zeros -------------------------------------------------------

  /** `to_be_bytes`: exactly `k` big-endian bytes. */
  function Fixed(n: nat, k: nat): (b: Bytes)
    ensures |b| == k
  {
    if k == 0 then [] else Fixed(n / 256, k - 1) + [(n % 256) as byte]
  }

  lemma {:induction false} FixedValue(n: nat, k: nat)
    requires n < Pow256(k)
    ensures Value(Fixed(n, k)) == n
  {
    if k > 0 {
      FixedValue(n / 256, k - 1);
      assert Fixed(n, k)[..k - 1] == Fixed(n / 256, k - 1);
    }
  }

  lemma {:induction false} ZerosAddNothing(b: Bytes, i: nat)
    requires i <= |b| && forall j | 0 <= j < i :: b[j] == 0
    ensures Value(b[i..]) == Value(b)
    decreases |b|
  {
    if i == |b| {
      AllZeros(b);
    } else {
      var hi := b[..|b| - 1];
      ZerosAddNothing(hi, i);
      assert b[i..][..|b| - i - 1] == hi[i..];
    }
  }

  lemma {:induction false} AllZeros(b: Bytes)
    ensures (forall j | 0 <= j < |b| :: b[j] == 0) <==> Value(b) == 0
  {
    if b != [] { AllZeros(b[..|b| - 1]); }
  }

  /** Index of the first nonzero byte, or the length. */
  method FirstNonZero(b: Bytes) returns (i: nat)
    ensures i <= |b| && (forall j | 0 <= j < i :: b[j] == 0) && (i < |b| ==> b[i] != 0)
    ensures i == |b| <==> Value(b) == 0
    ensures i < |b| ==> b[i..] == BigEndian(Value(b))
  {
    i := 0;
    while i < |b| && b[i] == 0
      invariant i <= |b| && forall j | 0 <= j < i :: b[j] == 0
    {
      i := i + 1;
    }
    AllZeros(b);
    ZerosAddNothing(b, i);
    if i < |b| { ValueBigEndian(b[i..]); }
  }

  method StripLeadingZeros(b: Bytes) returns (r: Bytes)
    requires b != []
    ensures r == Stripped(b)
    ensures Value(r) == Value(b) && (Value(b) != 0 <==> Minimal(r))
  {
    var i := FirstNonZero(b);
    r := if i == |b| then b[|b| - 1..] else b[i..];
    BigEndianValue(Value(b));
    if i == |b| { assert r == [0]; }
  }

  method EthRlpAppendU256(n: U256, s: RlpStream)
    modifies s
    ensures s.st == Push(old(s.st), Scalar(n))
  {
    if n == 0 {
      s.AppendEmptyData();
    } else {
      var buf := Fixed(n, 32);
      WordSize();
      FixedValue(n, 32);
      var first := FirstNonZero(buf);
      s.AppendRaw(Str(buf[first..]));
    }
  }

  // ---- the encoders --------------------------------------------------------

  lemma {:induction false} EntryItemsAt(xs: seq<AccessEntry>, i: nat)
    requires i < |xs|
    ensures EntryItems(xs[..i + 1]) == EntryItems(xs[..i]) + [EntryItem(xs[i])]
  {
    assert xs[..i + 1][0] == xs[0] && xs[..i + 1][1..] == xs[1..][..i];
    if i == 0 {
      assert xs[1..][..0] == [];
    } else {
      EntryItemsAt(xs[1..], i - 1);
      assert xs[..i][1..] == xs[1..][..i - 1];
    }
  }

  lemma {:induction false} KeyItemsAt(keys: seq<U256>, i: nat)
    requires i < |keys|
    ensures KeyItems(keys[..i + 1]) == KeyItems(keys[..i]) + [Scalar(keys[i])]
  {
    assert keys[..i + 1][0] == keys[0] && keys[..i + 1][1..] == keys[1..][..i];
    if i == 0 {
      assert keys[1..][..0] == [];
    } else {
      KeyItemsAt(keys[1..], i - 1);
      assert keys[..i][1..] == keys[1..][..i - 1];
    }
  }

  lemma {:induction false} KeyCount(keys: seq<U256>)
    ensures |KeyItems(keys)| == |keys|
  {
    if keys != [] { KeyCount(keys[1..]); }
  }

  lemma {:induction false} EntryCount(xs: seq<AccessEntry>)
    ensures |EntryItems(xs)| == |xs|
  {
    if xs != [] { EntryCount(xs[1..]); }
  }

  method AppendEntry(x: AccessEntry, s: RlpStream)
    modifies s
    ensures s.st == Push(old(s.st), EntryItem(x))
  {
    s.BeginList(2);
    s.AppendRaw(Str(x.address));
    ghost var before := s.st;
    s.BeginList(|x.keys|);
    ghost var list0 := s.st;
    for i := 0 to |x.keys|
      invariant s.st == PushAll(list0, KeyItems(x.keys[..i]))
    {
      EthRlpAppendU256(x.keys[i], s);
      KeyItemsAt(x.keys, i);
      PushAllOne(list0, KeyItems(x.keys[..i]), Scalar(x.keys[i]));
    }
    assert x.keys[..|x.keys|] == x.keys;
    KeyCount(x.keys);
    OpenThenPush(before, KeyItems(x.keys));
    PushAllTwo(Open(old(s.st), 2), Str(x.address), List(KeyItems(x.keys)));
    OpenThenPush(old(s.st), [Str(x.address), List(KeyItems(x.keys))]);
  }

  method AppendAccessList(xs: seq<AccessEntry>, s: RlpStream)
    modifies s
    ensures s.st == Push(old(s.st), List(EntryItems(xs)))
  {
    s.BeginList(|xs|);
    ghost var list0 := s.st;
    for i := 0 to |xs|
      invariant s.st == PushAll(list0, EntryItems(xs[..i]))
    {
      AppendEntry(xs[i], s);
      EntryItemsAt(xs, i);
      PushAllOne(list0, EntryItems(xs[..i]), EntryItem(xs[i]));
    }
    assert xs[..|xs|] == xs;
    EntryCount(xs);
    OpenThenPush(old(s.st), EntryItems(xs));
  }

  /** The nine fields both encoders write first. */
  method AppendCore(tx: Transaction, s: RlpStream)
    modifies s
    ensures s.st == PushAll(old(s.st), UnsignedFields(tx))
  {
    EthRlpAppendU256(tx.chainId, s);
    EthRlpAppendU256(tx.nonce, s);
    EthRlpAppendU256(tx.maxPriorityFeePerGas, s);
    EthRlpAppendU256(tx.maxFeePerGas, s);
    EthRlpAppendU256(tx.gasLimit, s);
    match tx.to {
      case Some(to) => s.AppendRaw(Str(to));
      case None => s.AppendEmptyData();
    }
    EthRlpAppendU256(tx.value, s);
    s.Append(tx.data);
    AppendAccessList(tx.accessList, s);
    NinePushes(old(s.st), UnsignedFields(tx));
  }

  lemma NinePushes(st: Stream, f: seq<Item>)
    requires |f| == 9
    ensures PushAll(st, f) ==
            Push(Push(Push(Push(Push(Push(Push(Push(Push(st, f[0]), f[1]), f[2]), f[3]), f[4]), f[5]), f[6]), f[7]), f[8])
  {
    PushAllThree(st, f[0], f[1], f[2]);
    PushAllThree(PushAll(st, f[..3]), f[3], f[4], f[5]);
    PushAllThree(PushAll(st, f[..6]), f[6], f[7], f[8]);
    assert f[..3] == [f[0], f[1], f[2]];
    assert f[..6] == f[..3] + [f[3], f[4], f[5]] && f == f[..6] + [f[6], f[7], f[8]];
    PushAllAppend(st, f[..3], [f[3], f[4], f[5]]);
    PushAllAppend(st, f[..6], [f[6], f[7], f[8]]);
  }

  lemma OneItem(it: Item)
    requires Fits(it)
    ensures FitsAll([it]) && EncodeAll([it]) == Encode(it)
  {
    assert [it][1..] == [];
    assert EncodeAll([it]) == Encode(it) + EncodeAll([]);
  }

  method EncodeUnsigned(tx: Transaction) returns (b: Bytes)
    requires InMemory(tx)
    ensures Fits(List(UnsignedFields(tx))) && b == Encode(List(UnsignedFields(tx)))
  {
    var s := new RlpStream.NewList(9);
    AppendCore(tx, s);
    OpenThenPush(Stream([], []), UnsignedFields(tx));
    MemoryFits(tx, Signature(0, Fixed(0, 32), Fixed(0, 32)));
    OneItem(List(UnsignedFields(tx)));
    b := s.Out();
  }

  lemma SignedStream(tx: Transaction, sig: Signature)
    ensures var f, sf, list0 := UnsignedFields(tx), SignatureFields(sig), Open(Stream([], []), 12);
            Push(Push(Push(PushAll(list0, f), sf[0]), sf[1]), sf[2]) == Stream([], [List(SignedFields(tx, sig))])
  {
    var f, sf, list0 := UnsignedFields(tx), SignatureFields(sig), Open(Stream([], []), 12);
    PushAllAppend(list0, f, sf);
    PushAllThree(PushAll(list0, f), sf[0], sf[1], sf[2]);
    assert sf == [sf[0], sf[1], sf[2]];
    OpenThenPush(Stream([], []), SignedFields(tx, sig));
  }

  method EncodeSigned(tx: Transaction, sig: Signature) returns (b: Bytes)
    requires InMemory(tx)
    ensures Fits(List(SignedFields(tx, sig))) && b == Encode(List(SignedFields(tx, sig)))
  {
    var s := new RlpStream.NewList(12);
    AppendCore(tx, s);
    // a u8 is written as a scalar: no bytes for zero
    s.Append(if sig.yParity == 0 then [] else [sig.yParity]);
    var r := StripLeadingZeros(sig.r);
    s.Append(r);
    var t := StripLeadingZeros(sig.s);
    s.Append(t);
    ParityByte(sig.yParity);
    SignedStream(tx, sig);
    MemoryFits(tx, sig);
    OneItem(List(SignedFields(tx, sig)));
    b := s.Out();
  }

  lemma ParityByte(y: byte)
    ensures BigEndian(y as nat) == if y == 0 then [] else [y]
  {
    assert y as nat / 256 == 0 && y as nat % 256 == y as nat;
  }
}
