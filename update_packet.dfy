/**
 * The update datagram built by `send_message`: a type byte 0x01, a one-byte
 * entry count, then one five-byte entry per (identifier, value) pair of the
 * change set, in the order the mapping yields its items.  `bytearray` refuses
 * any element outside 0..255, so a count above 255 or an identifier outside
 * one byte raises instead of producing a packet.
 */
module UpdatePacket {
  import opened Wrappers
  import opened ValueCodec
  import opened Controls

  const UPDATE_TYPE: byte := 0x01
  const MAX_ENTRIES: int := 0xFF

  /**
   * Why `bytearray` refused to build the packet.  The source raises one
   * `ValueError` for both cases and names neither value; the two constructors
   * and their payloads are this model's finer account of that exception.
   */
  datatype EncodeError =
    | CountOutOfRange(count: int)
    | IdentifierOutOfRange(identifier: int)

  /** A change set: `changes.items()` in iteration order, one (identifier, value) pair per key. */
  type Changes = seq<(int, int)>

  predicate DistinctIdentifiers(cs: Changes) {
    forall i, j :: 0 <= i < j < |cs| ==> cs[i].0 != cs[j].0
  }

  predicate IdentifiersAreBytes(cs: Changes) {
    forall i :: 0 <= i < |cs| ==> IsByte(cs[i].0)
  }

  /** Index `j` holds the first identifier, in iteration order, that does not fit in a byte. */
  predicate FirstBadIdentifier(cs: Changes, j: int) {
    0 <= j < |cs| && !IsByte(cs[j].0) && forall k :: 0 <= k < j ==> IsByte(cs[k].0)
  }

  /** One entry: the identifier byte followed by the four value bytes. */
  function Entry(identifier: byte, value: int): (e: seq<byte>)
    ensures |e| == 5
  {
    [identifier] + ValueBytes(value)
  }

  /** The entries of a change set, built by appending one entry per pair, as the loop does. */
  function Entries(cs: Changes): Result<seq<byte>, EncodeError>
    decreases |cs|
  {
    if cs == [] then Success([])
    else
      var prefix := Entries(cs[..|cs| - 1]);
      var (identifier, value) := cs[|cs| - 1];
      if prefix.Failure? then prefix
      else if !IsByte(identifier) then Failure(IdentifierOutOfRange(identifier))
      else Success(prefix.value + Entry(identifier, value))
  }

  /** The specification of `send_message`'s packet: the header, then the entries. */
  function Update(cs: Changes): Result<seq<byte>, EncodeError> {
    if |cs| > MAX_ENTRIES then Failure(CountOutOfRange(|cs|))
    else match Entries(cs)
      case Failure(e) => Failure(e)
      case Success(body) => Success([UPDATE_TYPE, |cs|] + body)
  }

  /** `p` is the datagram `send_message` sends for `cs`. */
  predicate Encodes(cs: Changes, p: seq<byte>) {
    Update(cs).Success? && Update(cs).value == p
  }

  /** Builds the datagram `send_message` hands to `sendto`, appending entry by entry. */
  method BuildUpdate(changes: Changes) returns (r: Result<seq<byte>, EncodeError>)
    ensures r == Update(changes)
  {
    if |changes| > MAX_ENTRIES {
      return Failure(CountOutOfRange(|changes|));
    }
    var packet: seq<byte> := [UPDATE_TYPE, |changes|];
    var i := 0;
    while i < |changes|
      invariant 0 <= i <= |changes|
      invariant Entries(changes[..i]).Success?
      invariant packet == [UPDATE_TYPE, |changes|] + Entries(changes[..i]).value
    {
      var (axis, value) := changes[i];
      assert changes[..i + 1][..i] == changes[..i];
      if !IsByte(axis) {
        EntriesFailureStays(changes, i + 1);
        return Failure(IdentifierOutOfRange(axis));
      }
      packet := packet + [axis] + ValueBytes(value);
      i := i + 1;
    }
    assert changes[..i] == changes;
    return Success(packet);
  }

  /** Once a prefix fails, the whole change set fails with the same error. */
  lemma {:induction false} EntriesFailureStays(cs: Changes, n: nat)
    requires n <= |cs|
    requires Entries(cs[..n]).Failure?
    ensures Entries(cs) == Entries(cs[..n])
    decreases |cs| - n
  {
    if n < |cs| {
      assert cs[..n + 1][..n] == cs[..n];
      EntriesFailureStays(cs, n + 1);
    } else {
      assert cs[..n] == cs;
    }
  }

  /** The entries succeed exactly when every identifier fits in a byte, and otherwise name the first that does not. */
  lemma {:induction false} EntriesOutcome(cs: Changes)
    ensures Entries(cs).Success? <==> IdentifiersAreBytes(cs)
    ensures Entries(cs).Failure? ==>
      exists j :: FirstBadIdentifier(cs, j) && Entries(cs).error == IdentifierOutOfRange(cs[j].0)
    decreases |cs|
  {
    if cs != [] {
      var pre := cs[..|cs| - 1];
      EntriesOutcome(pre);
      assert forall i :: 0 <= i < |pre| ==> pre[i] == cs[i];
      if Entries(pre).Failure? {
        var j :| FirstBadIdentifier(pre, j) && Entries(pre).error == IdentifierOutOfRange(pre[j].0);
        assert FirstBadIdentifier(cs, j);
      } else if !IsByte(cs[|cs| - 1].0) {
        assert FirstBadIdentifier(cs, |cs| - 1);
      }
    }
  }

  /** Entry i of the body occupies bytes 5i .. 5i+4. */
  lemma {:induction false} EntriesLayout(cs: Changes)
    requires Entries(cs).Success?
    ensures |Entries(cs).value| == 5 * |cs|
    ensures forall i :: 0 <= i < |cs| ==>
      IsByte(cs[i].0) && Entries(cs).value[5 * i..5 * i + 5] == Entry(cs[i].0, cs[i].1)
    decreases |cs|
  {
    if cs != [] {
      var pre := cs[..|cs| - 1];
      EntriesLayout(pre);
      var body := Entries(cs).value;
      var pbody := Entries(pre).value;
      assert body == pbody + Entry(cs[|cs| - 1].0, cs[|cs| - 1].1);
      forall i | 0 <= i < |cs|
        ensures IsByte(cs[i].0) && body[5 * i..5 * i + 5] == Entry(cs[i].0, cs[i].1)
      {
        if i < |pre| {
          assert pre[i] == cs[i];
          assert body[5 * i..5 * i + 5] == pbody[5 * i..5 * i + 5];
        } else {
          assert body[5 * i..5 * i + 5] == Entry(cs[|cs| - 1].0, cs[|cs| - 1].1);
        }
      }
    }
  }

  /**
   * Encoding fails exactly when the count exceeds 255 or an identifier lies
   * outside 0..255; the count is checked first, then identifiers in iteration order.
   */
  lemma UpdateOutcome(cs: Changes)
    ensures Update(cs).Success? <==> |cs| <= MAX_ENTRIES && IdentifiersAreBytes(cs)
    ensures |cs| > MAX_ENTRIES ==> Update(cs) == Failure(CountOutOfRange(|cs|))
    ensures |cs| <= MAX_ENTRIES && Update(cs).Failure? ==>
      exists j :: FirstBadIdentifier(cs, j) && Update(cs) == Failure(IdentifierOutOfRange(cs[j].0))
  {
    EntriesOutcome(cs);
  }

  /**
   * The layout of an encoded update: type 0x01, the count, then entry i at
   * bytes 2+5i .. 6+5i holding the identifier and the four value bytes.
   */
  lemma UpdateLayout(cs: Changes)
    requires Update(cs).Success?
    ensures var p := Update(cs).value;
      && |p| == 2 + 5 * |cs|
      && p[0] == UPDATE_TYPE
      && p[1] == |cs|
      && forall i :: 0 <= i < |cs| ==>
           p[2 + 5 * i] == cs[i].0 && p[3 + 5 * i..7 + 5 * i] == ValueBytes(cs[i].1)
  {
    var p := Update(cs).value;
    EntriesLayout(cs);
    var body := Entries(cs).value;
    forall i | 0 <= i < |cs|
      ensures p[2 + 5 * i] == cs[i].0 && p[3 + 5 * i..7 + 5 * i] == ValueBytes(cs[i].1)
    {
      assert p[2 + 5 * i..7 + 5 * i] == body[5 * i..5 * i + 5];
      assert p[2 + 5 * i] == body[5 * i..5 * i + 5][0];
      assert p[3 + 5 * i..7 + 5 * i] == body[5 * i..5 * i + 5][1..];
    }
  }

  /** An empty change set is the two-byte packet [0x01, 0x00]. */
  lemma EmptyUpdate()
    ensures Encodes([], [0x01, 0x00])
  {
    assert Entries([]) == Success([]);
    assert [UPDATE_TYPE, 0] + [] == [0x01, 0x00];
  }

  /** A one-entry change set is the header [0x01, 0x01] followed by its single entry. */
  lemma SingleUpdate(identifier: int, value: int)
    requires IsByte(identifier)
    ensures Encodes([(identifier, value)], [0x01, 0x01, identifier] + ValueBytes(value))
  {
    var cs: Changes := [(identifier, value)];
    assert cs[..0] == [];
    assert Entries(cs[..0]) == Success([]);
    assert Entries(cs) == Success([] + Entry(identifier, value));
    assert Update(cs).value == [UPDATE_TYPE, 1] + Entry(identifier, value);
  }

  /** A change set over named controls has at most 28 entries and therefore always encodes. */
  lemma {:induction false} NamedControlsEncode(cs: Changes)
    requires DistinctIdentifiers(cs)
    requires forall i :: 0 <= i < |cs| ==> IsControlCode(cs[i].0)
    ensures |cs| <= 28
    ensures Update(cs).Success?
  {
    var ids := seq(|cs|, i requires 0 <= i < |cs| => cs[i].0);
    DistinctWithin(ids, ControlCodes());
    ControlCodesSize();
    UpdateOutcome(cs);
  }

  /** The demonstration's button and stick updates, byte for byte. */
  lemma DemonstrationPackets()
    ensures Encodes([(PS.Code(), Pressed.Code())], [0x01, 0x01, 0x82, 0x00, 0x00, 0x00, 0xFF])
    ensures Encodes([(PS.Code(), Released.Code())], [0x01, 0x01, 0x82, 0x00, 0x00, 0x00, 0x00])
    ensures Encodes([(LeftStickX.Code(), -1)], [0x01, 0x01, 0x00, 0xFF, 0xFF, 0xFF, 0xFF])
    ensures Encodes([(LeftStickX.Code(), -32767)], [0x01, 0x01, 0x00, 0xFF, 0xFF, 0x80, 0x01])
  {
    TwosComplementExamples();
    SingleUpdate(0x82, 0xFF);
    SingleUpdate(0x82, 0);
    SingleUpdate(0, -1);
    SingleUpdate(0, -32767);
    assert PS.Code() == 0x82 && Pressed.Code() == 0xFF && Released.Code() == 0 && LeftStickX.Code() == 0;
    var h: seq<byte> := [0x01, 0x01];
    assert h + [0x82] + [0x00, 0x00, 0x00, 0xFF] == [0x01, 0x01, 0x82, 0x00, 0x00, 0x00, 0xFF];
    assert h + [0x82] + [0x00, 0x00, 0x00, 0x00] == [0x01, 0x01, 0x82, 0x00, 0x00, 0x00, 0x00];
    assert h + [0x00] + [0xFF, 0xFF, 0xFF, 0xFF] == [0x01, 0x01, 0x00, 0xFF, 0xFF, 0xFF, 0xFF];
    assert h + [0x00] + [0xFF, 0xFF, 0x80, 0x01] == [0x01, 0x01, 0x00, 0xFF, 0xFF, 0x80, 0x01];
  }

  /** The pair a receiver reads from entry i of a datagram: the identifier and the signed value. */
  function EntryAt(p: seq<byte>, i: nat): (int, int)
    requires 7 + 5 * i <= |p|
  {
    (p[2 + 5 * i], ToSigned32(BigEndian32(p[3 + 5 * i..7 + 5 * i])))
  }

  /**
   * How a receiver reads an update datagram: type 0x01, a count N, exactly
   * 5N further bytes, each entry an identifier and a signed big-endian value.
   * The receiver is not part of the client; this is the reference inverse of
   * the encoder.
   */
  function DecodeUpdate(p: seq<byte>): (r: Option<Changes>)
    ensures r.Some? <==> |p| >= 2 && p[0] == UPDATE_TYPE && |p| == 2 + 5 * (p[1] as int)
    ensures r.Some? ==> |r.value| == p[1] && forall i :: 0 <= i < |r.value| ==> r.value[i] == EntryAt(p, i)
  {
    if |p| >= 2 && p[0] == UPDATE_TYPE && |p| == 2 + 5 * (p[1] as int) then
      Some(seq(p[1], i requires 0 <= i < p[1] => EntryAt(p, i)))
    else
      None
  }

  /** The pair read back from entry i is the identifier and the signed 32-bit image of the value. */
  lemma EntryRoundTrip(cs: Changes, i: nat)
    requires Update(cs).Success? && i < |cs|
    ensures 7 + 5 * i <= |Update(cs).value|
    ensures EntryAt(Update(cs).value, i) == (cs[i].0, Wrap32(cs[i].1))
  {
    UpdateLayout(cs);
    ValueBytesRoundTrip(cs[i].1);
  }

  /**
   * Decoding an encoded update gives back every pair in iteration order, with
   * each value taken as a signed 32-bit integer; values already in that range
   * come back unchanged.
   */
  lemma UpdateRoundTrip(cs: Changes)
    requires Update(cs).Success?
    ensures DecodeUpdate(Update(cs).value).Some?
    ensures var d := DecodeUpdate(Update(cs).value).value;
      |d| == |cs| && forall i :: 0 <= i < |cs| ==> d[i] == (cs[i].0, Wrap32(cs[i].1))
    ensures (forall i :: 0 <= i < |cs| ==> IsInt32(cs[i].1)) ==> DecodeUpdate(Update(cs).value) == Some(cs)
  {
    var p := Update(cs).value;
    UpdateLayout(cs);
    assert DecodeUpdate(p).Some?;
    var d := DecodeUpdate(p).value;
    forall i | 0 <= i < |cs|
      ensures d[i] == (cs[i].0, Wrap32(cs[i].1))
    {
      EntryRoundTrip(cs, i);
    }
    if forall i :: 0 <= i < |cs| ==> IsInt32(cs[i].1) {
      forall i | 0 <= i < |cs|
        ensures d[i] == cs[i]
      {
        SignedRoundTrip(cs[i].1);
      }
      assert d == cs;
    }
  }

  /** Two packets with the same header and the same N five-byte entries are equal. */
  lemma SameEntries(p: seq<byte>, q: seq<byte>, n: nat)
    requires |p| == |q| == 2 + 5 * n
    requires p[0] == q[0] && p[1] == q[1]
    requires forall i :: 0 <= i < n ==> p[2 + 5 * i..7 + 5 * i] == q[2 + 5 * i..7 + 5 * i]
    ensures p == q
  {
    forall k | 2 <= k < |p|
      ensures p[k] == q[k]
    {
      var i := (k - 2) / 5;
      assert p[k] == p[2 + 5 * i..7 + 5 * i][k - 2 - 5 * i];
      assert q[k] == q[2 + 5 * i..7 + 5 * i][k - 2 - 5 * i];
    }
  }

  /** Reading an entry and encoding the pair again reproduces the entry's five bytes. */
  lemma EntryReencodes(p: seq<byte>, i: nat)
    requires 7 + 5 * i <= |p|
    ensures IsByte(EntryAt(p, i).0)
    ensures Entry(EntryAt(p, i).0, EntryAt(p, i).1) == p[2 + 5 * i..7 + 5 * i]
  {
    var b := p[3 + 5 * i..7 + 5 * i];
    SignedReencodes(b);
    assert p[2 + 5 * i..7 + 5 * i] == [p[2 + 5 * i]] + b;
  }

  /** Every datagram the receiver accepts as an update is the encoding of the pairs it reads. */
  lemma DecodeUpdateSound(p: seq<byte>)
    requires DecodeUpdate(p).Some?
    ensures Encodes(DecodeUpdate(p).value, p)
  {
    var cs := DecodeUpdate(p).value;
    forall i | 0 <= i < |cs|
      ensures IsByte(cs[i].0)
    {
      EntryReencodes(p, i);
    }
    UpdateOutcome(cs);
    UpdateLayout(cs);
    var q := Update(cs).value;
    forall i | 0 <= i < |cs|
      ensures q[2 + 5 * i..7 + 5 * i] == p[2 + 5 * i..7 + 5 * i]
    {
      EntryReencodes(p, i);
      assert q[2 + 5 * i..7 + 5 * i] == [q[2 + 5 * i]] + q[3 + 5 * i..7 + 5 * i];
    }
    SameEntries(q, p, |cs|);
  }
}
