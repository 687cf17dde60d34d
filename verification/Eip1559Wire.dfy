/** The strict transaction decoder, the round trips, and what the signed bytes bind. */
module Eip1559Wire {
  import opened Types
  import opened Rlp
  import opened Eip1559

  // ---- fields back from items ----------------------------------------------

  /** A canonical scalar of at most 32 bytes. */
  function AsScalar(it: Item): (n: Option<U256>)
    ensures n.Some? ==> it == Scalar(n.value)
  {
    if it.Str? && Minimal(it.data) && |it.data| <= 32 then
      ScalarBound(it.data);
      Some(Value(it.data))
    else None
  }

  lemma ScalarBound(b: Bytes)
    requires Minimal(b) && |b| <= 32
    ensures Value(b) < U256_SIZE && BigEndian(Value(b)) == b
  {
    ValueBigEndian(b);
    BigEndianLength(Value(b), 32);
    WordSize();
  }

  lemma AsScalarOf(n: U256)
    ensures AsScalar(Scalar(n)) == Some(n)
  {
    BigEndianValue(n);
    BigEndianLength(n, 32);
    WordSize();
  }

  function AsAddress(it: Item): Option<Address> {
    if it.Str? && |it.data| == 20 then Some(it.data) else None
  }

  function AsTo(it: Item): Option<Option<Address>> {
    if it == Str([]) then Some(None)
    else
      match AsAddress(it)
      case None => None
      case Some(a) => Some(Some(a))
  }

  function AsKeys(items: seq<Item>): (keys: Option<seq<U256>>)
    ensures keys.Some? ==> items == KeyItems(keys.value)
  {
    if items == [] then Some([])
    else
      match (AsScalar(items[0]), AsKeys(items[1..]))
      case (Some(k), Some(rest)) => Some([k] + rest)
      case _ => None
  }

  lemma {:induction false} AsKeysOf(keys: seq<U256>)
    ensures AsKeys(KeyItems(keys)) == Some(keys)
  {
    if keys != [] {
      AsScalarOf(keys[0]);
      AsKeysOf(keys[1..]);
      assert KeyItems(keys)[1..] == KeyItems(keys[1..]);
      assert [keys[0]] + keys[1..] == keys;
    }
  }

  function AsEntry(it: Item): (x: Option<AccessEntry>)
    ensures x.Some? ==> it == EntryItem(x.value)
  {
    if it.List? && |it.items| == 2 && it.items[1].List? then
      match (AsAddress(it.items[0]), AsKeys(it.items[1].items))
      case (Some(a), Some(keys)) => Some(AccessEntry(a, keys))
      case _ => None
    else None
  }

  function AsEntries(items: seq<Item>): (xs: Option<seq<AccessEntry>>)
    ensures xs.Some? ==> items == EntryItems(xs.value)
  {
    if items == [] then Some([])
    else
      match (AsEntry(items[0]), AsEntries(items[1..]))
      case (Some(x), Some(rest)) => Some([x] + rest)
      case _ => None
  }

  lemma {:induction false} AsEntriesOf(xs: seq<AccessEntry>)
    ensures AsEntries(EntryItems(xs)) == Some(xs)
  {
    if xs != [] {
      AsKeysOf(xs[0].keys);
      AsEntriesOf(xs[1..]);
      assert EntryItems(xs)[1..] == EntryItems(xs[1..]);
      assert [xs[0]] + xs[1..] == xs;
    }
  }

  function AsTransaction(f: seq<Item>): (tx: Option<Transaction>)
    ensures tx.Some? ==> f == UnsignedFields(tx.value)
  {
    if |f| == 9 && f[7].Str? && f[8].List? then
      match (AsScalar(f[0]), AsScalar(f[1]), AsScalar(f[2]), AsScalar(f[3]), AsScalar(f[4]),
             AsTo(f[5]), AsScalar(f[6]), AsEntries(f[8].items))
      case (Some(c), Some(n), Some(p), Some(m), Some(g), Some(to), Some(v), Some(xs)) =>
        Some(Transaction(c, n, p, m, g, to, v, f[7].data, xs))
      case _ => None
    else None
  }

  lemma AsTransactionOf(tx: Transaction)
    ensures AsTransaction(UnsignedFields(tx)) == Some(tx)
  {
    AsScalarOf(tx.chainId);
    AsScalarOf(tx.nonce);
    AsScalarOf(tx.maxPriorityFeePerGas);
    AsScalarOf(tx.maxFeePerGas);
    AsScalarOf(tx.gasLimit);
    AsScalarOf(tx.value);
    AsEntriesOf(tx.accessList);
  }

  // ---- the signing payload -------------------------------------------------

  /** 0x02 followed by the unsigned RLP: what is hashed and signed. */
  function SigningPayload(tx: Transaction): Bytes
    requires Fits(List(UnsignedFields(tx)))
  {
    [2] + Encode(List(UnsignedFields(tx)))
  }

  /** The items of a typed envelope that is one RLP list and nothing else. */
  function Envelope(b: Bytes): Option<seq<Item>> {
    if b == [] || b[0] != 2 then None
    else
      match Decode(b[1..])
      case None => None
      case Some(p) => if p.rest == [] && p.item.List? then Some(p.item.items) else None
  }

  lemma EnvelopeOf(f: seq<Item>)
    requires Fits(List(f))
    ensures Envelope([2] + Encode(List(f))) == Some(f)
  {
    var b := [2] + Encode(List(f));
    assert b[1..] == Encode(List(f)) + [];
    DecodeEncode(List(f), []);
  }

  lemma OfEnvelope(b: Bytes)
    requires Envelope(b).Some?
    ensures Fits(List(Envelope(b).value)) && b == [2] + Encode(List(Envelope(b).value))
  {
    EncodeDecode(b[1..]);
    assert b == [b[0]] + b[1..];
  }

  function DecodeUnsigned(b: Bytes): Option<Transaction> {
    match Envelope(b)
    case None => None
    case Some(f) => AsTransaction(f)
  }

  /** Decoding recovers every field of every transaction. */
  lemma DecodeOfPayload(tx: Transaction)
    requires Fits(List(UnsignedFields(tx)))
    ensures DecodeUnsigned(SigningPayload(tx)) == Some(tx)
  {
    EnvelopeOf(UnsignedFields(tx));
    AsTransactionOf(tx);
  }

  /** Whatever the decoder accepts is the encoding of what it returns. */
  lemma PayloadOfDecode(b: Bytes)
    requires DecodeUnsigned(b).Some?
    ensures var tx := DecodeUnsigned(b).value;
            Fits(List(UnsignedFields(tx))) && SigningPayload(tx) == b
  {
    OfEnvelope(b);
  }

  /** Two transactions with the same signing payload are the same transaction. */
  lemma PayloadIsInjective(a: Transaction, b: Transaction)
    requires Fits(List(UnsignedFields(a))) && Fits(List(UnsignedFields(b)))
    requires SigningPayload(a) == SigningPayload(b)
    ensures a == b
  {
    DecodeOfPayload(a);
    DecodeOfPayload(b);
  }

  // ---- the signed transaction ----------------------------------------------

  function WireBytes(tx: Transaction, sig: Signature): Bytes
    requires Fits(List(SignedFields(tx, sig)))
  {
    [2] + Encode(List(SignedFields(tx, sig)))
  }

  /** The signed list's payload is the unsigned list's, then yParity, r and s. */
  lemma SignedExtendsUnsigned(tx: Transaction, sig: Signature)
    requires InMemory(tx)
    ensures FitsAll(SignedFields(tx, sig)) && FitsAll(UnsignedFields(tx)) && FitsAll(SignatureFields(sig))
    ensures EncodeAll(SignedFields(tx, sig)) == EncodeAll(UnsignedFields(tx)) + EncodeAll(SignatureFields(sig))
  {
    MemoryFits(tx, sig);
    EncodeAllAppend(UnsignedFields(tx), SignatureFields(sig));
  }

  /** Recompute the signing payload from the bytes on the wire. */
  function PayloadFromWire(b: Bytes): Option<Bytes> {
    match Envelope(b)
    case None => None
    case Some(f) =>
      if |f| == 12 && Fits(List(f[..9])) then Some([2] + Encode(List(f[..9]))) else None
  }

  lemma WireBindsPayload(tx: Transaction, sig: Signature)
    requires InMemory(tx)
    ensures Fits(List(SignedFields(tx, sig))) && Fits(List(UnsignedFields(tx)))
    ensures PayloadFromWire(WireBytes(tx, sig)) == Some(SigningPayload(tx))
  {
    MemoryFits(tx, sig);
    EnvelopeOf(SignedFields(tx, sig));
    assert SignedFields(tx, sig)[..9] == UnsignedFields(tx);
  }

  datatype Signed = Signed(tx: Transaction, yParity: nat, r: nat, s: nat)

  /** A strict reader of signed transactions: every signature field a canonical scalar. */
  function DecodeSigned(b: Bytes): Option<Signed> {
    match Envelope(b)
    case None => None
    case Some(f) =>
      if |f| != 12 then None
      else
        match (AsTransaction(f[..9]), AsScalar(f[9]), AsScalar(f[10]), AsScalar(f[11]))
        case (Some(tx), Some(y), Some(r), Some(s)) => Some(Signed(tx, y, r, s))
        case _ => None
  }

  lemma StrippedScalar(h: Hash)
    ensures AsScalar(Str(Stripped(h))) == if Value(h) == 0 then None else Some(Value(h))
  {
    ValueBound(h);
    WordSize();
    if Value(h) != 0 { AsScalarOf(Value(h)); }
  }

  /** The wire is canonical exactly when r and s are nonzero: zero is written as a zero
      byte, which no strict reader takes for a number. */
  lemma SignedRoundTripIff(tx: Transaction, sig: Signature)
    requires InMemory(tx)
    ensures Fits(List(SignedFields(tx, sig)))
    ensures DecodeSigned(WireBytes(tx, sig)) ==
            if Value(sig.r) != 0 && Value(sig.s) != 0
            then Some(Signed(tx, sig.yParity as nat, Value(sig.r), Value(sig.s)))
            else None
  {
    MemoryFits(tx, sig);
    var f := SignedFields(tx, sig);
    EnvelopeOf(f);
    assert f[..9] == UnsignedFields(tx);
    AsTransactionOf(tx);
    AsScalarOf(sig.yParity as nat);
    StrippedScalar(sig.r);
    StrippedScalar(sig.s);
  }

  // ---- signing -------------------------------------------------------------

  /** The nonce a wire transaction carries, whatever its signature. */
  function WireNonce(b: Bytes): Option<U256> {
    match Envelope(b)
    case None => None
    case Some(f) => if |f| != 12 then None else AsScalar(f[1])
  }

  lemma WireNonceOf(tx: Transaction, sig: Signature)
    requires InMemory(tx)
    ensures Fits(List(SignedFields(tx, sig))) && WireNonce(WireBytes(tx, sig)) == Some(tx.nonce)
  {
    MemoryFits(tx, sig);
    EnvelopeOf(SignedFields(tx, sig));
    AsScalarOf(tx.nonce);
  }

  /** The wire bytes of this transaction under the key's own signature over its payload. */
  predicate SignedBy(b: Bytes, tx: Transaction, key: Bytes -> Option<Signature>) {
    && Fits(List(UnsignedFields(tx)))
    && var sig := key(SigningPayload(tx));
       sig.Some? && Fits(List(SignedFields(tx, sig.value))) && b == WireBytes(tx, sig.value)
  }

  /** Such bytes are of one transaction only. */
  lemma SignedByOne(b: Bytes, tx: Transaction, other: Transaction,
                    key: Bytes -> Option<Signature>, key': Bytes -> Option<Signature>)
    requires InMemory(tx) && InMemory(other) && SignedBy(b, tx, key) && SignedBy(b, other, key')
    ensures tx == other
  {
    WireBindsPayload(tx, key(SigningPayload(tx)).value);
    WireBindsPayload(other, key'(SigningPayload(other)).value);
    PayloadIsInjective(tx, other);
  }

  lemma SignedByNonce(b: Bytes, tx: Transaction, key: Bytes -> Option<Signature>)
    requires InMemory(tx) && SignedBy(b, tx, key)
    ensures WireNonce(b) == Some(tx.nonce)
  {
    WireNonceOf(tx, key(SigningPayload(tx)).value);
  }

  /** `key` stands for Keccak-256 and the sender's secp256k1 key: a partial function from
      the bytes that are signed to a signature. */
  method SignEip1559Transaction(tx: Transaction, key: Bytes -> Option<Signature>)
    returns (r: Result<SignedTransaction, LocalError>)
    requires InMemory(tx)
    ensures Fits(List(UnsignedFields(tx)))
    ensures r.Ok? <==> key(SigningPayload(tx)).Some?
    ensures r.Err? ==> r.error == Internal
    ensures r.Ok? ==>
              var sig := key(SigningPayload(tx)).value;
              && r.value.withNonce == tx.nonce
              && Fits(List(SignedFields(tx, sig))) && r.value.rlp == WireBytes(tx, sig)
              && WireNonce(r.value.rlp) == Some(tx.nonce)
              && PayloadFromWire(r.value.rlp) == Some(SigningPayload(tx))
    ensures r.Ok? ==> SignedBy(r.value.rlp, tx, key)
  {
    var signingNonce := tx.nonce;
    var unsignedRlp := EncodeUnsigned(tx);
    match key([2] + unsignedRlp) {
      case None => r := Err(Internal);
      case Some(sig) =>
        var signedRlp := EncodeSigned(tx, sig);
        WireNonceOf(tx, sig);
        WireBindsPayload(tx, sig);
        r := Ok(SignedTransaction([2] + signedRlp, signingNonce));
    }
  }

  // ---- storage keys --------------------------------------------------------

  /** EIP-2930, section "Specification": each storage key is a 32-byte string. */
  predicate FixedWidthKeys(items: seq<Item>) {
    forall i | 0 <= i < |items| :: items[i].Str? && |items[i].data| == 32
  }

  /** The encoder trims storage keys like scalars, so its access list is an EIP-2930 one
      exactly when no key starts with a zero byte. */
  lemma {:induction false} KeysFixedWidthIff(keys: seq<U256>)
    ensures FixedWidthKeys(KeyItems(keys)) <==> forall i | 0 <= i < |keys| :: keys[i] >= Pow256(31)
  {
    if keys != [] {
      var items := KeyItems(keys);
      KeysFixedWidthIff(keys[1..]);
      assert items[0] == Scalar(keys[0]) && items[1..] == KeyItems(keys[1..]);
      BigEndianLength(keys[0], 31);
      BigEndianLength(keys[0], 32);
      WordSize();
      assert FixedWidthKeys(items) <==> |BigEndian(keys[0])| == 32 && FixedWidthKeys(items[1..]) by {
        assert forall i | 0 < i < |items| :: items[i] == items[1..][i - 1];
        assert forall i | 0 <= i < |items| - 1 :: items[1..][i] == items[i + 1];
      }
      assert forall i | 0 < i < |keys| :: keys[i] == keys[1..][i - 1];
      assert forall i | 0 <= i < |keys| - 1 :: keys[1..][i] == keys[i + 1];
    }
  }
}
