/** RUDICS packets (src/acomms/modemdriver/iridium_rudics_packet.cpp): append a
    CRC, convert to base 256 minus the number of reserved characters, replace
    the reserved characters, append a carriage return. */
module RudicsPacket {
  import opened ByteStrings
  import opened BaseConvert

  type uint32 = x: nat | x < 0x1_0000_0000

  /** The checksum is boost::crc_32_type in the original; nothing below depends on which. */
  type Checksum = Bytes -> uint32

  datatype PacketError = TooShortForCr | TooShortForCrc | BadCrc

  datatype ParseResult = Parsed(bytes: Bytes) | Rejected(error: PacketError)

  /** The default reserved set: NUL, CR, LF and 0xff, in this order. */
  const DEFAULT_RESERVED: Bytes := [0, 13, 10, 255]

  /** Fewer than two digits are left when more characters are reserved. */
  predicate Usable(reserved: Bytes) { |reserved| <= 254 }

  function ReducedBase(reserved: Bytes): (base: nat)
    requires Usable(reserved)
    ensures 2 <= base <= 256
  {
    256 - |reserved|
  }

  // ----- network byte order

  function Uint32ToBytes(i: uint32): (s: Bytes)
    ensures |s| == 4
  {
    [i / 0x100_0000, i / 0x1_0000 % 256, i / 0x100 % 256, i % 256]
  }

  function BytesToUint32(s: Bytes): uint32
    requires |s| == 4
  {
    var w: seq<int> := s;
    w[0] * 0x100_0000 + w[1] * 0x1_0000 + w[2] * 0x100 + w[3]
  }

  lemma Uint32RoundTrip(i: uint32)
    ensures BytesToUint32(Uint32ToBytes(i)) == i
  {
    assert i == i / 0x100 * 0x100 + i % 256;
    assert i / 0x100 == i / 0x1_0000 * 0x100 + i / 0x100 % 256;
    assert i / 0x1_0000 == i / 0x100_0000 * 0x100 + i / 0x1_0000 % 256;
  }

  // ----- substitution of reserved characters

  /** std::replace on one character. */
  function Swap(c: byte, old_: byte, new_: byte): byte
  {
    if c == old_ then new_ else c
  }

  function ReplaceAll(s: Bytes, old_: byte, new_: byte): (r: Bytes)
    ensures |r| == |s|
  {
    seq(|s|, j requires 0 <= j < |s| => Swap(s[j], old_, new_))
  }

  /** What the replacements i, i+1, ... of the serializer make of one character. */
  function EscapeFrom(c: byte, reserved: Bytes, i: nat): byte
    requires Usable(reserved) && i <= |reserved|
    decreases |reserved| - i
  {
    if i == |reserved| then c
    else EscapeFrom(Swap(c, reserved[i], ReducedBase(reserved) + i), reserved, i + 1)
  }

  /** The same for the parser, which replaces the other way round. */
  function UnescapeFrom(c: byte, reserved: Bytes, i: nat): byte
    requires Usable(reserved) && i <= |reserved|
    decreases |reserved| - i
  {
    if i == |reserved| then c
    else UnescapeFrom(Swap(c, ReducedBase(reserved) + i, reserved[i]), reserved, i + 1)
  }

  function Escape(s: Bytes, reserved: Bytes): (r: Bytes)
    requires Usable(reserved)
    ensures |r| == |s|
  {
    seq(|s|, j requires 0 <= j < |s| => EscapeFrom(s[j], reserved, 0))
  }

  function Unescape(s: Bytes, reserved: Bytes): (r: Bytes)
    requires Usable(reserved)
    ensures |r| == |s|
  {
    seq(|s|, j requires 0 <= j < |s| => UnescapeFrom(s[j], reserved, 0))
  }

  /** Drops every reserved character ("get rid of extra junk"). */
  function Strip(s: Bytes, reserved: Bytes): Bytes
  {
    if s == [] then []
    else if s[0] in reserved then Strip(s[1..], reserved)
    else [s[0]] + Strip(s[1..], reserved)
  }

  // ----- the codec

  function Protected(bytes: Bytes, includeCrc: bool, crc: Checksum): Bytes
  {
    if includeCrc then bytes + Uint32ToBytes(crc(bytes)) else bytes
  }

  /** A serialized packet without its carriage return. */
  function Body(bytes: Bytes, reserved: Bytes, includeCrc: bool, crc: Checksum): Bytes
    requires Usable(reserved)
  {
    Escape(Convert(Protected(bytes, includeCrc, crc), 256, ReducedBase(reserved)), reserved)
  }

  function Serialize(bytes: Bytes, reserved: Bytes, includeCrc: bool, crc: Checksum): Bytes
    requires Usable(reserved)
  {
    Body(bytes, reserved, includeCrc, crc) + [CR]
  }

  function CheckCrc(bytes: Bytes, crc: Checksum): ParseResult
  {
    if |bytes| < 4 then Rejected(TooShortForCrc)
    else
      var payload := bytes[..|bytes| - 4];
      if BytesToUint32(bytes[|bytes| - 4..]) != crc(payload) then Rejected(BadCrc)
      else Parsed(payload)
  }

  /** The last character is dropped whatever it is, as substr does. */
  function Parse(packet: Bytes, reserved: Bytes, includeCrc: bool, crc: Checksum): ParseResult
    requires Usable(reserved)
  {
    if packet == [] then Rejected(TooShortForCr)
    else
      var digits := Unescape(Strip(packet[..|packet| - 1], reserved), reserved);
      var bytes := Convert(digits, ReducedBase(reserved), 256);
      if includeCrc then CheckCrc(bytes, crc) else Parsed(bytes)
  }

  method SerializePacket(bytes: Bytes, reserved: Bytes, includeCrc: bool, crc: Checksum) returns (packet: Bytes)
    requires Usable(reserved)
    ensures packet == Serialize(bytes, reserved, includeCrc, crc)
  {
    var input := bytes;
    if includeCrc {
      input := input + Uint32ToBytes(crc(bytes));
    }
    packet := ConvertBase(input, 256, ReducedBase(reserved));
    ghost var digits := packet;
    for i := 0 to |reserved|
      invariant |packet| == |digits|
      invariant forall j :: 0 <= j < |digits| ==>
        EscapeFrom(packet[j], reserved, i) == EscapeFrom(digits[j], reserved, 0)
    {
      packet := ReplaceAll(packet, reserved[i], ReducedBase(reserved) + i);
    }
    assert packet == Escape(digits, reserved);
    packet := packet + [CR];
  }

  method ParsePacket(packet: Bytes, reserved: Bytes, includeCrc: bool, crc: Checksum) returns (result: ParseResult)
    requires Usable(reserved)
    ensures result == Parse(packet, reserved, includeCrc, crc)
  {
    if |packet| < 1 {
      return Rejected(TooShortForCr);
    }
    var pkt := Strip(packet[..|packet| - 1], reserved);
    ghost var stripped := pkt;
    for i := 0 to |reserved|
      invariant |pkt| == |stripped|
      invariant forall j :: 0 <= j < |stripped| ==>
        UnescapeFrom(pkt[j], reserved, i) == UnescapeFrom(stripped[j], reserved, 0)
    {
      pkt := ReplaceAll(pkt, ReducedBase(reserved) + i, reserved[i]);
    }
    assert pkt == Unescape(stripped, reserved);
    var bytes := ConvertBase(pkt, ReducedBase(reserved), 256);
    if !includeCrc {
      return Parsed(bytes);
    }
    if |bytes| < 4 {
      return Rejected(TooShortForCrc);
    }
    var given := BytesToUint32(bytes[|bytes| - 4..]);
    bytes := bytes[..|bytes| - 4];
    result := if given != crc(bytes) then Rejected(BadCrc) else Parsed(bytes);
  }

  // ----- which reserved sets work

  /** Each reserved character is a digit, or is already its own substitute. */
  predicate Admissible(reserved: Bytes)
    requires Usable(reserved)
  {
    forall i :: 0 <= i < |reserved| ==>
      reserved[i] < ReducedBase(reserved) || reserved[i] == ReducedBase(reserved) + i
  }

  /** Each reserved digit gets a substitute that is not itself reserved. */
  predicate FreeSubstitutes(reserved: Bytes)
    requires Usable(reserved)
  {
    forall i :: 0 <= i < |reserved| && reserved[i] < ReducedBase(reserved) && reserved[i] !in reserved[..i] ==>
      ReducedBase(reserved) + i !in reserved
  }

  lemma AdmissibleHasFreeSubstitutes(reserved: Bytes)
    requires Usable(reserved) && Admissible(reserved)
    ensures FreeSubstitutes(reserved)
  {
  }

  lemma DefaultReservedAdmissible()
    ensures Usable(DEFAULT_RESERVED) && Admissible(DEFAULT_RESERVED)
  {
  }

  // ----- round trip

  /** `noisy` is `body` with reserved characters inserted anywhere. */
  ghost predicate IsInsertion(body: Bytes, noisy: Bytes, reserved: Bytes)
    decreases |noisy|
  {
    if noisy == [] then body == []
    else
      || (noisy[0] in reserved && IsInsertion(body, noisy[1..], reserved))
      || (body != [] && noisy[0] == body[0] && IsInsertion(body[1..], noisy[1..], reserved))
  }

  /** Whatever reserved characters the line adds, the parser returns the bytes. */
  lemma RoundTrip(bytes: Bytes, reserved: Bytes, includeCrc: bool, crc: Checksum, noisy: Bytes, last: byte)
    requires Usable(reserved) && FreeSubstitutes(reserved)
    requires IsInsertion(Body(bytes, reserved, includeCrc, crc), noisy, reserved)
    ensures Parse(noisy + [last], reserved, includeCrc, crc) == Parsed(bytes)
  {
    var input := Protected(bytes, includeCrc, crc);
    var digits := Convert(input, 256, ReducedBase(reserved));
    var body := Escape(digits, reserved);
    Invertible(input, 256, ReducedBase(reserved));
    EscapeString(digits, reserved);
    StripInsertion(body, noisy, reserved);
    assert (noisy + [last])[..|noisy|] == noisy;
    if includeCrc {
      Uint32RoundTrip(crc(bytes));
      assert input[..|input| - 4] == bytes;
      assert input[|input| - 4..] == Uint32ToBytes(crc(bytes));
    }
  }

  lemma SerializeRoundTrip(bytes: Bytes, reserved: Bytes, includeCrc: bool, crc: Checksum)
    requires Usable(reserved) && FreeSubstitutes(reserved)
    ensures Parse(Serialize(bytes, reserved, includeCrc, crc), reserved, includeCrc, crc) == Parsed(bytes)
  {
    InsertNothing(Body(bytes, reserved, includeCrc, crc), reserved);
    RoundTrip(bytes, reserved, includeCrc, crc, Body(bytes, reserved, includeCrc, crc), CR);
  }

  /** Four bytes, most significant first, are this number. */
  predicate NetworkOrder(field: Bytes, n: nat)
  {
    && |field| == 4
    && field[0] as int * 16777216 + field[1] as int * 65536 + field[2] as int * 256 + field[3] as int == n
  }

  /** Whatever line arrives and whatever is reserved: without a CRC only the empty line is refused;
      with one, what the line says without is refused when it is too short to end in a checksum or ends in
      a wrong one, and only then. */
  lemma CheckedExactly(line: Bytes, reserved: Bytes, crc: Checksum)
    requires Usable(reserved)
    ensures var plain, checked := Parse(line, reserved, false, crc), Parse(line, reserved, true, crc);
            && (|line| == 0 <==> plain == Rejected(TooShortForCr)) && (|line| == 0 <==> checked == Rejected(TooShortForCr))
            && (|line| > 0 ==>
                  && plain.Parsed?
                  && (checked == Rejected(TooShortForCrc) <==> |plain.bytes| < 4)
                  && (forall b, f :: plain.bytes == b + f && |f| == 4 ==>
                        checked == if NetworkOrder(f, crc(b)) then Parsed(b) else Rejected(BadCrc)))
  {
    if |line| > 0 {
      var bytes := Parse(line, reserved, false, crc).bytes;
      forall b, f | bytes == b + f && |f| == 4
        ensures Parse(line, reserved, true, crc) == if NetworkOrder(f, crc(b)) then Parsed(b) else Rejected(BadCrc)
      {
        assert bytes[..|bytes| - 4] == b && bytes[|bytes| - 4..] == f;
      }
    }
  }

  /** A packet with any four bytes at its end, noise included, is accepted with a CRC just when these are
      the checksum of the rest. */
  lemma AcceptedExactly(bytes: Bytes, field: Bytes, reserved: Bytes, crc: Checksum, noisy: Bytes, last: byte)
    requires Usable(reserved) && FreeSubstitutes(reserved) && |field| == 4
    requires IsInsertion(Body(bytes + field, reserved, false, crc), noisy, reserved)
    ensures Parse(noisy + [last], reserved, true, crc)
            == if NetworkOrder(field, crc(bytes)) then Parsed(bytes) else Rejected(BadCrc)
  {
    RoundTrip(bytes + field, reserved, false, crc, noisy, last);
    CheckedExactly(noisy + [last], reserved, crc);
  }

  /** What is too short to end in a checksum is refused as such. */
  lemma ShortRejected(bytes: Bytes, reserved: Bytes, crc: Checksum, noisy: Bytes, last: byte)
    requires Usable(reserved) && FreeSubstitutes(reserved) && |bytes| < 4
    requires IsInsertion(Body(bytes, reserved, false, crc), noisy, reserved)
    ensures Parse(noisy + [last], reserved, true, crc) == Rejected(TooShortForCrc)
  {
    RoundTrip(bytes, reserved, false, crc, noisy, last);
    CheckedExactly(noisy + [last], reserved, crc);
  }

  /** The serialized packet carries the checksum in network order behind the payload. */
  lemma SerializedEndsInChecksum(bytes: Bytes, reserved: Bytes, crc: Checksum)
    requires Usable(reserved) && FreeSubstitutes(reserved)
    ensures exists field :: NetworkOrder(field, crc(bytes))
              && Parse(Serialize(bytes, reserved, true, crc), reserved, false, crc) == Parsed(bytes + field)
  {
    var field := Uint32ToBytes(crc(bytes));
    Uint32RoundTrip(crc(bytes));
    assert NetworkOrder(field, crc(bytes));
    SerializeRoundTrip(bytes + field, reserved, false, crc);
    assert Serialize(bytes, reserved, true, crc) == Serialize(bytes + field, reserved, false, crc);
  }

  /** On the line, a digit that is reserved at its first position i stands as base + i, any other as itself. */
  lemma SubstituteMeans(bytes: Bytes, reserved: Bytes, includeCrc: bool, crc: Checksum, j: nat)
    requires Usable(reserved) && FreeSubstitutes(reserved)
    requires j < |Convert(Protected(bytes, includeCrc, crc), 256, 256 - |reserved|)|
    ensures var digit := Convert(Protected(bytes, includeCrc, crc), 256, 256 - |reserved|)[j];
            var sent := Serialize(bytes, reserved, includeCrc, crc)[j];
            && (digit !in reserved ==> sent == digit)
            && (forall i :: 0 <= i < |reserved| && reserved[i] == digit && digit !in reserved[..i] ==>
                  sent == 256 - |reserved| + i)
  {
    var digits := Convert(Protected(bytes, includeCrc, crc), 256, 256 - |reserved|);
    ConvertIsConversion(Protected(bytes, includeCrc, crc), 256, 256 - |reserved|);
    DigitOnLine(digits[j], reserved);
  }

  lemma DigitOnLine(d: byte, reserved: Bytes)
    requires Usable(reserved) && FreeSubstitutes(reserved) && d < ReducedBase(reserved)
    ensures d !in reserved ==> EscapeFrom(d, reserved, 0) == d
    ensures forall i :: 0 <= i < |reserved| && reserved[i] == d && d !in reserved[..i] ==>
              EscapeFrom(d, reserved, 0) == ReducedBase(reserved) + i
  {
    if d !in reserved {
      EscapeUnaffected(d, reserved, 0);
    }
    forall i | 0 <= i < |reserved| && reserved[i] == d && d !in reserved[..i]
      ensures EscapeFrom(d, reserved, 0) == ReducedBase(reserved) + i
    {
      EscapeReaches(d, reserved, 0, i);
      EscapeUnaffected(ReducedBase(reserved) + i, reserved, i + 1);
    }
  }

  /** Without a CRC the codec loses nothing exactly when the substitutes are free. */
  lemma RoundTripExactly(reserved: Bytes, crc: Checksum)
    requires Usable(reserved)
    ensures (forall bytes :: Parse(Serialize(bytes, reserved, false, crc), reserved, false, crc) == Parsed(bytes))
            <==> FreeSubstitutes(reserved)
  {
    if FreeSubstitutes(reserved) {
      forall bytes ensures Parse(Serialize(bytes, reserved, false, crc), reserved, false, crc) == Parsed(bytes) {
        SerializeRoundTrip(bytes, reserved, false, crc);
      }
    } else {
      var i :| 0 <= i < |reserved| && reserved[i] < ReducedBase(reserved) && reserved[i] !in reserved[..i]
               && ReducedBase(reserved) + i in reserved;
      TakenSubstitute(i, reserved, crc);
    }
  }

  /** The order of the reserved characters matters: 0xff before CR loses CR bytes. */
  lemma OrderMatters(crc: Checksum)
    ensures Parse(Serialize([CR], [255, 13], false, crc), [255, 13], false, crc) != Parsed([CR])
  {
    var reserved: Bytes := [255, 13];
    assert reserved[1] == CR && reserved[..1] == [255] && ReducedBase(reserved) + 1 == reserved[0];
    TakenSubstitute(1, reserved, crc);
  }

  /** No reserved character survives in a packet body. */
  lemma BodyHasNoReserved(bytes: Bytes, reserved: Bytes, includeCrc: bool, crc: Checksum)
    requires Usable(reserved) && FreeSubstitutes(reserved)
    ensures forall j :: 0 <= j < |Body(bytes, reserved, includeCrc, crc)| ==>
              Body(bytes, reserved, includeCrc, crc)[j] !in reserved
  {
    var input := Protected(bytes, includeCrc, crc);
    ConvertIsConversion(input, 256, ReducedBase(reserved));
    EscapeString(Convert(input, 256, ReducedBase(reserved)), reserved);
  }

  /** Framing never shortens what it frames. */
  lemma BodyAtLeastAsLong(bytes: Bytes, reserved: Bytes, includeCrc: bool, crc: Checksum)
    requires Usable(reserved)
    ensures |Body(bytes, reserved, includeCrc, crc)| >= |bytes| + if includeCrc then 4 else 0
  {
    NeverShortens(Protected(bytes, includeCrc, crc), 256, ReducedBase(reserved));
  }

  // ----- one character

  lemma {:induction false} EscapeUnaffected(c: byte, reserved: Bytes, i: nat)
    requires Usable(reserved) && i <= |reserved| && c !in reserved[i..]
    ensures EscapeFrom(c, reserved, i) == c
    decreases |reserved| - i
  {
    if i < |reserved| {
      EscapeUnaffected(c, reserved, i + 1);
    }
  }

  lemma {:induction false} UnescapeUnaffected(c: byte, reserved: Bytes, i: nat)
    requires Usable(reserved) && i <= |reserved| && c < ReducedBase(reserved) + i
    ensures UnescapeFrom(c, reserved, i) == c
    decreases |reserved| - i
  {
    if i < |reserved| {
      UnescapeUnaffected(c, reserved, i + 1);
    }
  }

  /** The first replacement that applies to a reserved character is its first position. */
  lemma {:induction false} EscapeReaches(c: byte, reserved: Bytes, k: nat, i: nat)
    requires Usable(reserved) && k <= i < |reserved|
    requires reserved[i] == c && c !in reserved[..i]
    ensures EscapeFrom(c, reserved, k) == EscapeFrom(ReducedBase(reserved) + i, reserved, i + 1)
    decreases i - k
  {
    if k < i {
      assert reserved[k] in reserved[..i];
      EscapeReaches(c, reserved, k + 1, i);
    }
  }

  lemma {:induction false} UnescapeReaches(reserved: Bytes, k: nat, i: nat)
    requires Usable(reserved) && k <= i < |reserved|
    ensures UnescapeFrom(ReducedBase(reserved) + i, reserved, k) == UnescapeFrom(reserved[i], reserved, i + 1)
    decreases i - k
  {
    if k < i {
      UnescapeReaches(reserved, k + 1, i);
    }
  }

  lemma FirstPosition(c: byte, reserved: Bytes) returns (i: nat)
    requires c in reserved
    ensures i < |reserved| && reserved[i] == c && c !in reserved[..i]
  {
    i := 0;
    while reserved[i] != c
      invariant i < |reserved| && c !in reserved[..i]
      decreases |reserved| - i
    {
      i := i + 1;
    }
  }

  /** The first position of the digit, if it is reserved, gives it a substitute that is not reserved. */
  predicate FreeDigit(d: byte, reserved: Bytes)
    requires Usable(reserved)
  {
    forall i :: 0 <= i < |reserved| && reserved[i] == d && d !in reserved[..i] ==> ReducedBase(reserved) + i !in reserved
  }

  lemma EscapeDigit(d: byte, reserved: Bytes)
    requires Usable(reserved) && FreeDigit(d, reserved)
    requires d < ReducedBase(reserved)
    ensures EscapeFrom(d, reserved, 0) !in reserved
    ensures UnescapeFrom(EscapeFrom(d, reserved, 0), reserved, 0) == d
  {
    if d in reserved {
      var i := FirstPosition(d, reserved);
      EscapeReaches(d, reserved, 0, i);
      EscapeUnaffected(ReducedBase(reserved) + i, reserved, i + 1);
      UnescapeReaches(reserved, 0, i);
      UnescapeUnaffected(d, reserved, i + 1);
    } else {
      EscapeUnaffected(d, reserved, 0);
      UnescapeUnaffected(d, reserved, 0);
    }
  }

  lemma EscapeString(digits: Bytes, reserved: Bytes)
    requires Usable(reserved) && FreeSubstitutes(reserved)
    requires DigitsBelow(digits, ReducedBase(reserved))
    ensures forall j :: 0 <= j < |digits| ==> Escape(digits, reserved)[j] !in reserved
    ensures Unescape(Escape(digits, reserved), reserved) == digits
  {
    forall j | 0 <= j < |digits|
      ensures Escape(digits, reserved)[j] !in reserved
      ensures Unescape(Escape(digits, reserved), reserved)[j] == digits[j]
    {
      EscapeDigit(digits[j], reserved);
    }
  }

  /** Once a substitute is replaced again, it ends as the substitute of a character that was itself one. */
  lemma {:induction false} SubstituteChain(i: nat, k: nat, reserved: Bytes) returns (m: nat)
    requires Usable(reserved) && i < k <= |reserved|
    ensures m < |reserved| && EscapeFrom(ReducedBase(reserved) + i, reserved, k) == ReducedBase(reserved) + m
    ensures m == i || ReducedBase(reserved) <= reserved[m] < ReducedBase(reserved) + m
    decreases |reserved| - k
  {
    if k == |reserved| {
      m := i;
    } else if reserved[k] == ReducedBase(reserved) + i {
      m := SubstituteChain(k, k + 1, reserved);
    } else {
      m := SubstituteChain(i, k + 1, reserved);
    }
  }

  lemma TakenSubstitute(i: nat, reserved: Bytes, crc: Checksum)
    requires Usable(reserved) && i < |reserved|
    requires reserved[i] < ReducedBase(reserved) && reserved[i] !in reserved[..i]
    requires ReducedBase(reserved) + i in reserved
    ensures Parse(Serialize([reserved[i]], reserved, false, crc), reserved, false, crc) != Parsed([reserved[i]])
  {
    var base, d := ReducedBase(reserved), reserved[i];
    var lost := EscapeFrom(d, reserved, 0);
    OneDigit(d, 256, base);
    LostDigit(i, reserved);
    var body := Escape([d], reserved);
    assert body == [lost];
    assert Serialize([d], reserved, false, crc) == body + [CR];
    assert (body + [CR])[..1] == body;
    assert body[1..] == [];
    if lost in reserved {
      assert Strip(body, reserved) == [];
      assert Unescape([], reserved) == [];
      assert Convert([], base, 256) == [];
    } else {
      var other := UnescapeFrom(lost, reserved, 0);
      assert Strip(body, reserved) == body;
      assert Unescape(body, reserved) == [other];
      OneDigit(other, base, 256);
    }
  }

  /** A digit with a taken substitute is stripped by the parser, or comes back as no digit at all. */
  lemma LostDigit(i: nat, reserved: Bytes)
    requires Usable(reserved) && i < |reserved|
    requires reserved[i] < ReducedBase(reserved) && reserved[i] !in reserved[..i]
    requires ReducedBase(reserved) + i in reserved
    ensures var lost := EscapeFrom(reserved[i], reserved, 0);
            lost !in reserved ==> UnescapeFrom(lost, reserved, 0) >= ReducedBase(reserved)
  {
    EscapeReaches(reserved[i], reserved, 0, i);
    var m := SubstituteChain(i, i + 1, reserved);
    if ReducedBase(reserved) + m !in reserved {
      UnescapeReaches(reserved, 0, m);
      UnescapeUnaffected(reserved[m], reserved, m + 1);
    }
  }

  // ----- the same with a checksum

  /** With any given checksum that is zero on the reserved characters, each taken as a payload, nothing is
      lost exactly when the substitutes are free. */
  lemma RoundTripExactlyFor(reserved: Bytes, crc: Checksum)
    requires Usable(reserved) && forall d: byte :: d in reserved ==> crc([d]) == 0
    ensures (forall bytes :: Parse(Serialize(bytes, reserved, true, crc), reserved, true, crc) == Parsed(bytes))
            <==> FreeSubstitutes(reserved)
  {
    if FreeSubstitutes(reserved) {
      forall bytes ensures Parse(Serialize(bytes, reserved, true, crc), reserved, true, crc) == Parsed(bytes) {
        SerializeRoundTrip(bytes, reserved, true, crc);
      }
    } else {
      var i :| 0 <= i < |reserved| && reserved[i] < ReducedBase(reserved) && reserved[i] !in reserved[..i]
               && ReducedBase(reserved) + i in reserved;
      if FreeDigit(0, reserved) {
        TakenWithCrc(i, reserved, crc);
      } else {
        var j :| 0 <= j < |reserved| && reserved[j] == 0 && reserved[j] !in reserved[..j]
                 && ReducedBase(reserved) + j in reserved;
        TakenZero(j, reserved, crc);
      }
    }
  }

  /** Hence over all checksums: a reserved set is safe whatever the checksum exactly when its substitutes are free. */
  lemma RoundTripExactlyWithCrc(reserved: Bytes)
    requires Usable(reserved)
    ensures (forall crc: Checksum, bytes :: Parse(Serialize(bytes, reserved, true, crc), reserved, true, crc) == Parsed(bytes))
            <==> FreeSubstitutes(reserved)
  {
    if FreeSubstitutes(reserved) {
      forall crc: Checksum, bytes
        ensures Parse(Serialize(bytes, reserved, true, crc), reserved, true, crc) == Parsed(bytes)
      {
        SerializeRoundTrip(bytes, reserved, true, crc);
      }
    } else {
      RoundTripExactlyFor(reserved, _ => 0);
    }
  }

  /** With a checksum of zero, one byte is sent as itself and four zeros. */
  lemma SentWithZeros(d: byte, reserved: Bytes, crc: Checksum)
    requires Usable(reserved) && d < ReducedBase(reserved) && crc([d]) == 0
    ensures Convert(Protected([d], true, crc), 256, ReducedBase(reserved)) == [d] + Zeros(4)
  {
    var base := ReducedBase(reserved);
    assert Protected([d], true, crc) == [d] + Zeros(4);
    ConvertIsConversion([d] + Zeros(4), 256, base);
    DigitAndZeros(d, 256);
    DigitAndZeros(d, base);
    Unique(Convert([d] + Zeros(4), 256, base), [d] + Zeros(4), base);
  }

  lemma DigitAndZeros(d: byte, base: nat)
    ensures Value([d] + Zeros(4), base) == d
    ensures MsZeros([d] + Zeros(4)) == if d == 0 then 5 else 4
  {
    OnlyZeros(Zeros(4), base);
    DigitInFront(d, Zeros(4), base);
  }

  /** What the parser accepts as [d] was [d] and a checksum of zero. */
  lemma AcceptedMeans(bytes: Bytes, d: byte, crc: Checksum)
    requires crc([d]) == 0 && CheckCrc(bytes, crc) == Parsed([d])
    ensures bytes == [d] + Zeros(4)
  {
    var field := bytes[|bytes| - 4..];
    assert bytes == bytes[..|bytes| - 4] + field;
    assert BytesToUint32(field) == 0;
    assert field == Zeros(4);
  }

  /** What the parser makes of the digits of a packet. */
  function Decoded(body: Bytes, reserved: Bytes): Bytes
    requires Usable(reserved)
  {
    Unescape(Strip(body, reserved), reserved)
  }

  lemma ParsedMeans(d: byte, reserved: Bytes, crc: Checksum)
    requires Usable(reserved) && d < ReducedBase(reserved) && crc([d]) == 0
    requires Parse(Serialize([d], reserved, true, crc), reserved, true, crc) == Parsed([d])
    ensures var digits := Decoded(Escape([d] + Zeros(4), reserved), reserved);
            Value(digits, ReducedBase(reserved)) == d && MsZeros(digits) == if d == 0 then 5 else 4
  {
    var base, body := ReducedBase(reserved), Escape([d] + Zeros(4), reserved);
    SentWithZeros(d, reserved, crc);
    assert (body + [CR])[..|body|] == body;
    var digits := Decoded(body, reserved);
    AcceptedMeans(Convert(digits, base, 256), d, crc);
    ConvertIsConversion(digits, base, 256);
    DigitAndZeros(d, 256);
  }

  lemma StripOne(c: byte, rest: Bytes, reserved: Bytes)
    ensures Strip([c] + rest, reserved) == if c in reserved then Strip(rest, reserved) else [c] + Strip(rest, reserved)
  {
    assert ([c] + rest)[1..] == rest;
  }

  lemma {:induction false} StripSame(c: byte, s: Bytes, reserved: Bytes)
    requires forall j :: 0 <= j < |s| ==> s[j] == c
    ensures Strip(s, reserved) == if c in reserved then [] else s
  {
    if s != [] {
      StripSame(c, s[1..], reserved);
    }
  }

  /** When zero itself has a taken substitute, the payload of one zero is lost. */
  lemma TakenZero(j: nat, reserved: Bytes, crc: Checksum)
    requires Usable(reserved) && j < |reserved| && reserved[j] == 0 && reserved[j] !in reserved[..j]
    requires ReducedBase(reserved) + j in reserved && crc([0]) == 0
    ensures Parse(Serialize([0], reserved, true, crc), reserved, true, crc) != Parsed([0])
  {
    var base, lost := ReducedBase(reserved), EscapeFrom(0, reserved, 0);
    LostDigit(j, reserved);
    var body := Escape([0] + Zeros(4), reserved);
    assert forall k :: 0 <= k < |body| ==> body[k] == lost;
    StripSame(lost, body, reserved);
    var digits := Decoded(body, reserved);
    assert lost !in reserved ==> digits[0] == UnescapeFrom(lost, reserved, 0);
    if Parse(Serialize([0], reserved, true, crc), reserved, true, crc) == Parsed([0]) {
      ParsedMeans(0, reserved, crc);
      assert false;
    }
  }

  /** Otherwise a digit with a taken substitute is lost as a payload of its own, for any checksum that is zero on it. */
  lemma TakenWithCrc(i: nat, reserved: Bytes, crc: Checksum)
    requires Usable(reserved) && i < |reserved| && reserved[i] < ReducedBase(reserved) && reserved[i] !in reserved[..i]
    requires ReducedBase(reserved) + i in reserved && FreeDigit(0, reserved) && crc([reserved[i]]) == 0
    ensures Parse(Serialize([reserved[i]], reserved, true, crc), reserved, true, crc) != Parsed([reserved[i]])
  {
    var base, d := ReducedBase(reserved), reserved[i];
    var lost := EscapeFrom(d, reserved, 0);
    LostDigit(i, reserved);
    ZerosSurvive(d, reserved);
    OnlyZeros(Zeros(4), base);
    DigitAndZeros(UnescapeFrom(lost, reserved, 0), base);
    if Parse(Serialize([d], reserved, true, crc), reserved, true, crc) == Parsed([d]) {
      ParsedMeans(d, reserved, crc);
      assert false;
    }
  }

  lemma ZerosSurvive(d: byte, reserved: Bytes)
    requires Usable(reserved) && FreeDigit(0, reserved)
    ensures var lost := EscapeFrom(d, reserved, 0);
            Decoded(Escape([d] + Zeros(4), reserved), reserved)
            == if lost in reserved then Zeros(4) else [UnescapeFrom(lost, reserved, 0)] + Zeros(4)
  {
    var lost, zeros := EscapeFrom(d, reserved, 0), Escape(Zeros(4), reserved);
    EscapeDigit(0, reserved);
    assert Escape([d] + Zeros(4), reserved) == [lost] + zeros;
    StripOne(lost, zeros, reserved);
    StripSame(EscapeFrom(0, reserved, 0), zeros, reserved);
    assert Unescape(zeros, reserved) == Zeros(4);
    assert Unescape([lost] + zeros, reserved) == [UnescapeFrom(lost, reserved, 0)] + Zeros(4);
  }

  lemma OneDigit(d: byte, sourceBase: nat, sinkBase: nat)
    requires 2 <= sourceBase && 2 <= sinkBase <= 256 && d < sinkBase
    ensures Convert([d], sourceBase, sinkBase) == [d]
  {
    ConvertIsConversion([d], sourceBase, sinkBase);
    SingleValue(d, sourceBase);
    SingleValue(d, sinkBase);
    Unique(Convert([d], sourceBase, sinkBase), [d], sinkBase);
  }

  lemma SingleValue(d: nat, base: nat)
    ensures Value([d], base) == d
  {
  }

  // ----- insertions

  lemma {:induction false} StripInsertion(body: Bytes, noisy: Bytes, reserved: Bytes)
    requires IsInsertion(body, noisy, reserved)
    requires forall j :: 0 <= j < |body| ==> body[j] !in reserved
    ensures Strip(noisy, reserved) == body
    decreases |noisy|
  {
    if noisy != [] {
      if noisy[0] in reserved {
        StripInsertion(body, noisy[1..], reserved);
      } else {
        StripInsertion(body[1..], noisy[1..], reserved);
        assert body == [body[0]] + body[1..];
      }
    }
  }

  lemma {:induction false} InsertNothing(body: Bytes, reserved: Bytes)
    ensures IsInsertion(body, body, reserved)
  {
    if body != [] {
      InsertNothing(body[1..], reserved);
    }
  }
}
