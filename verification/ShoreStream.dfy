/** The shore side of a RUDICS call: the TCP byte stream is split at carriage
    returns (iridium_shore_rudics.h) and each line is told apart as a control
    line or a data packet (iridium_shore_driver.cpp). */
module ShoreStream {
  import opened ByteStrings
  import opened BaseConvert
  import opened RudicsPacket

  datatype Line = Hello | Bye | Data(payload: Bytes) | Undecodable(error: PacketError)

  const GOBY_LINE: Bytes := [103, 111, 98, 121, 13]
  const BYE_LINE: Bytes := [98, 121, 101, 13]

  /** A C string literal compared with a std::string ends at its first NUL. */
  function CLiteral(s: Bytes): Bytes
  {
    if s == [] || s[0] == 0 then [] else [s[0]] + CLiteral(s[1..])
  }

  /** rudics_line, up to what it does with the decoded message. */
  function Classify(line: Bytes, crc: Checksum): Line
  {
    if line == GOBY_LINE || line == CLiteral([0] + GOBY_LINE) then Hello
    else if line == BYE_LINE then Bye
    else FromPacket(Parse(line, DEFAULT_RESERVED, true, crc))
  }

  function FromPacket(result: ParseResult): Line
  {
    match result
    case Parsed(payload) => Data(payload)
    case Rejected(error) => Undecodable(error)
  }

  function ClassifyAll(lines: seq<Bytes>, crc: Checksum): (r: seq<Line>)
    ensures |r| == |lines|
  {
    seq(|lines|, i requires 0 <= i < |lines| => Classify(lines[i], crc))
  }

  // ----- lines of a stream

  function LineLength(s: Bytes): (n: nat)
    ensures n <= |s| && CR !in s[..n]
    ensures n < |s| ==> s[n] == CR
    ensures CR in s ==> n < |s|
  {
    if s == [] || s[0] == CR then 0 else
      var n := 1 + LineLength(s[1..]);
      assert s[..n] == [s[0]] + s[1..][..n - 1];
      n
  }

  /** The complete lines of a stream, each with its carriage return. */
  function Lines(s: Bytes): seq<Bytes>
    decreases |s|
  {
    var n := LineLength(s);
    if n == |s| then [] else [s[..n] + [CR]] + Lines(s[n + 1..])
  }

  /** What is left after the last carriage return. */
  function Remainder(s: Bytes): Bytes
    decreases |s|
  {
    var n := LineLength(s);
    if n == |s| then s else Remainder(s[n + 1..])
  }

  function Concat(parts: seq<Bytes>): Bytes
  {
    if parts == [] then [] else parts[0] + Concat(parts[1..])
  }

  /** RUDICSConnection: bytes arrive in whatever pieces TCP makes of them. */
  class RudicsConnection {
    var buffer: Bytes

    constructor ()
      ensures buffer == []
    {
      buffer := [];
    }

    /** handle_read after async_read_until has seen a carriage return. */
    method HandleRead() returns (line: Bytes)
      requires CR in buffer
      modifies this
      ensures [line] + Lines(buffer) == Lines(old(buffer))
      ensures Remainder(buffer) == Remainder(old(buffer))
      ensures |buffer| < |old(buffer)|
    {
      var n := LineLength(buffer);
      TakeLine(buffer, n);
      line := buffer[..n] + [CR];
      buffer := buffer[n + 1..];
    }

    method Receive(piece: Bytes) returns (lines: seq<Bytes>)
      modifies this
      ensures lines == Lines(old(buffer) + piece)
      ensures buffer == Remainder(old(buffer) + piece) && CR !in buffer
    {
      buffer := buffer + piece;
      ghost var arrived := buffer;
      lines := [];
      while CR in buffer
        invariant lines + Lines(buffer) == Lines(arrived)
        invariant Remainder(buffer) == Remainder(arrived)
        decreases |buffer|
      {
        var line := HandleRead();
        lines := lines + [line];
      }
    }

    /** However the stream is cut into pieces, the lines are those of the whole stream. */
    method ReceiveAll(pieces: seq<Bytes>) returns (lines: seq<Bytes>)
      requires CR !in buffer
      modifies this
      ensures lines == Lines(old(buffer) + Concat(pieces))
      ensures buffer == Remainder(old(buffer) + Concat(pieces))
    {
      lines := [];
      ghost var start := buffer;
      ghost var arrived := start;
      for i := 0 to |pieces|
        invariant lines == Lines(arrived) && buffer == Remainder(arrived)
        invariant arrived + Concat(pieces[i..]) == start + Concat(pieces)
      {
        NextPiece(arrived, pieces, i);
        var more := Receive(pieces[i]);
        arrived := arrived + pieces[i];
        lines := lines + more;
      }
      assert arrived + [] == arrived;
    }
  }

  lemma NextPiece(arrived: Bytes, pieces: seq<Bytes>, i: nat)
    requires i < |pieces|
    ensures Lines(arrived + pieces[i]) == Lines(arrived) + Lines(Remainder(arrived) + pieces[i])
    ensures Remainder(arrived + pieces[i]) == Remainder(Remainder(arrived) + pieces[i])
    ensures (arrived + pieces[i]) + Concat(pieces[i + 1..]) == arrived + Concat(pieces[i..])
  {
    SplitStream(arrived, pieces[i]);
    assert pieces[i..][0] == pieces[i] && pieces[i..][1..] == pieces[i + 1..];
  }

  lemma TakeLine(s: Bytes, n: nat)
    requires n < |s| && s[n] == CR && CR !in s[..n]
    ensures Lines(s) == [s[..n] + [CR]] + Lines(s[n + 1..])
    ensures Remainder(s) == Remainder(s[n + 1..])
  {
    assert s == s[..n] + [CR] + s[n + 1..];
    FirstLine(s[..n], s[n + 1..]);
  }

  lemma NoLine(s: Bytes)
    requires CR !in s
    ensures Lines(s) == [] && Remainder(s) == s
  {
    assert forall k :: 0 <= k < |s| ==> s[k] != CR;
  }

  lemma FindCr(s: Bytes) returns (n: nat)
    requires CR in s
    ensures n < |s| && s[n] == CR && CR !in s[..n]
  {
    n := LineLength(s);
  }

  lemma {:induction false} SplitStream(a: Bytes, b: Bytes)
    ensures Lines(a + b) == Lines(a) + Lines(Remainder(a) + b)
    ensures Remainder(a + b) == Remainder(Remainder(a) + b)
    decreases |a|
  {
    if CR !in a {
      NoLine(a);
    } else {
      var n := FindCr(a);
      TakeLine(a, n);
      FirstCut(a, b, n);
      TakeLine(a + b, n);
      SplitStream(a[n + 1..], b);
      Regroup([a[..n] + [CR]], Lines(a[n + 1..]), Lines(Remainder(a[n + 1..]) + b));
    }
  }

  lemma FirstCut(a: Bytes, b: Bytes, n: nat)
    requires n < |a|
    ensures (a + b)[..n] == a[..n] && (a + b)[n] == a[n] && (a + b)[n + 1..] == a[n + 1..] + b
  {
  }

  /** One carriage return, at the end. */
  predicate IsLine(line: Bytes)
  {
    |line| > 0 && line[|line| - 1] == CR && CR !in line[..|line| - 1]
  }

  predicate AllLines(lines: seq<Bytes>)
  {
    forall i :: 0 <= i < |lines| ==> IsLine(lines[i])
  }

  /** The lines and the remainder are the stream again, cut behind each carriage return. */
  lemma {:induction false} LinesAreTheStream(s: Bytes)
    ensures Concat(Lines(s)) + Remainder(s) == s && CR !in Remainder(s)
    ensures AllLines(Lines(s))
    decreases |s|
  {
    if CR !in s {
      NoLine(s);
      assert Concat([]) + s == s;
    } else {
      var n := FindCr(s);
      var line, rest := s[..n] + [CR], s[n + 1..];
      TakeLine(s, n);
      LinesAreTheStream(rest);
      LineInFront(s[..n], Lines(rest));
      Associated(line, Concat(Lines(rest)), Remainder(rest));
      PutTogether(s, n);
    }
  }

  lemma PutTogether(s: Bytes, n: nat)
    requires n < |s| && s[n] == CR
    ensures s[..n] + [CR] + s[n + 1..] == s
  {
  }

  lemma Associated(a: Bytes, b: Bytes, c: Bytes)
    ensures a + (b + c) == (a + b) + c
  {
  }

  lemma LineInFront(text: Bytes, lines: seq<Bytes>)
    requires CR !in text && AllLines(lines)
    ensures Concat([text + [CR]] + lines) == text + [CR] + Concat(lines) && AllLines([text + [CR]] + lines)
  {
    var all := [text + [CR]] + lines;
    assert all[1..] == lines;
    EndsInCr(text);
    forall i | 0 <= i < |all| ensures IsLine(all[i]) {
      assert i > 0 ==> all[i] == lines[i - 1];
    }
  }

  lemma EndsInCr(text: Bytes)
    requires CR !in text
    ensures IsLine(text + [CR])
  {
    assert (text + [CR])[..|text|] == text;
  }

  lemma Regroup(x: seq<Bytes>, y: seq<Bytes>, z: seq<Bytes>)
    ensures x + (y + z) == (x + y) + z
  {
  }

  lemma FirstLine(line: Bytes, rest: Bytes)
    requires CR !in line
    ensures Lines(line + [CR] + rest) == [line + [CR]] + Lines(rest)
    ensures Remainder(line + [CR] + rest) == Remainder(rest)
  {
    var s := line + [CR] + rest;
    var n := |line|;
    assert s[..n] == line && s[n + 1..] == rest && s[n] == CR;
    LineLengthIs(s, n);
  }

  lemma {:induction false} LineLengthIs(s: Bytes, n: nat)
    requires n < |s| && s[n] == CR && CR !in s[..n]
    ensures LineLength(s) == n
  {
    if n > 0 {
      assert s[0] in s[..n];
      assert forall i :: 0 <= i < n - 1 ==> s[1..][i] == s[..n][i + 1];
      LineLengthIs(s[1..], n - 1);
    }
  }

  // ----- demultiplexing

  /** The encodings the shore may receive for what was sent: control lines as
      they are, packets with reserved characters other than CR added anywhere. */
  ghost predicate IsEncoding(item: Line, encoded: Bytes, crc: Checksum)
  {
    match item
    case Hello => encoded == GOBY_LINE
    case Bye => encoded == BYE_LINE
    case Data(payload) =>
      && payload != []
      && encoded != [] && encoded[|encoded| - 1] == CR
      && CR !in encoded[..|encoded| - 1]
      && IsInsertion(Body(payload, DEFAULT_RESERVED, true, crc), encoded[..|encoded| - 1], DEFAULT_RESERVED)
    case Undecodable(_) => false
  }

  /** A serialized packet, unchanged, is such an encoding: it has one CR, at its end. */
  lemma SerializedIsEncoding(payload: Bytes, crc: Checksum)
    requires payload != []
    ensures IsEncoding(Data(payload), Serialize(payload, DEFAULT_RESERVED, true, crc), crc)
  {
    var body := Body(payload, DEFAULT_RESERVED, true, crc);
    BodyHasNoReserved(payload, DEFAULT_RESERVED, true, crc);
    InsertNothing(body, DEFAULT_RESERVED);
    assert (body + [CR])[..|body|] == body;
    assert CR == DEFAULT_RESERVED[1];
  }

  /** The receiver gets back exactly the control lines and payloads that were sent. */
  lemma {:induction false} Demultiplex(items: seq<Line>, encoded: seq<Bytes>, crc: Checksum)
    requires |items| == |encoded|
    requires forall i :: 0 <= i < |items| ==> IsEncoding(items[i], encoded[i], crc)
    ensures ClassifyAll(Lines(Concat(encoded)), crc) == items
    ensures Remainder(Concat(encoded)) == []
  {
    if items != [] {
      assert IsEncoding(items[0], encoded[0], crc);
      ClassifyEncoding(items[0], encoded[0], crc);
      Demultiplex(items[1..], encoded[1..], crc);
      OneLine(items[0], encoded[0], crc);
      var line := encoded[0][..|encoded[0]| - 1];
      FirstLine(line, Concat(encoded[1..]));
      ClassifyCons(encoded[0], Lines(Concat(encoded[1..])), crc);
      assert items == [items[0]] + items[1..];
    }
  }

  lemma OneLine(item: Line, encoded: Bytes, crc: Checksum)
    requires IsEncoding(item, encoded, crc)
    ensures encoded != [] && CR !in encoded[..|encoded| - 1]
    ensures encoded == encoded[..|encoded| - 1] + [CR]
  {
  }

  lemma ClassifyCons(line: Bytes, rest: seq<Bytes>, crc: Checksum)
    ensures ClassifyAll([line] + rest, crc) == [Classify(line, crc)] + ClassifyAll(rest, crc)
  {
  }

  lemma ClassifyEncoding(item: Line, encoded: Bytes, crc: Checksum)
    requires IsEncoding(item, encoded, crc)
    ensures Classify(encoded, crc) == item
  {
    if item.Data? {
      OneLine(item, encoded, crc);
      ClassifyPacket(item.payload, encoded[..|encoded| - 1], crc);
    }
  }

  lemma ClassifyPacket(payload: Bytes, noisy: Bytes, crc: Checksum)
    requires payload != [] && IsInsertion(Body(payload, DEFAULT_RESERVED, true, crc), noisy, DEFAULT_RESERVED)
    ensures Classify(noisy + [CR], crc) == Data(payload)
  {
    DefaultReservedAdmissible();
    AdmissibleHasFreeSubstitutes(DEFAULT_RESERVED);
    NoisyPacket(payload, noisy, DEFAULT_RESERVED, crc);
    NoControlLine(noisy + [CR], crc);
  }

  lemma NoisyPacket(payload: Bytes, noisy: Bytes, reserved: Bytes, crc: Checksum)
    requires Usable(reserved) && FreeSubstitutes(reserved)
    requires IsInsertion(Body(payload, reserved, true, crc), noisy, reserved)
    ensures |noisy| >= |payload| + 4 && Parse(noisy + [CR], reserved, true, crc) == Parsed(payload)
  {
    BodyAtLeastAsLong(payload, reserved, true, crc);
    InsertionAtLeastAsLong(Body(payload, reserved, true, crc), noisy, reserved);
    RoundTrip(payload, reserved, true, crc, noisy, CR);
  }

  lemma {:induction false} InsertionAtLeastAsLong(body: Bytes, noisy: Bytes, reserved: Bytes)
    requires IsInsertion(body, noisy, reserved)
    ensures |noisy| >= |body|
    decreases |noisy|
  {
    if noisy != [] {
      if noisy[0] in reserved && IsInsertion(body, noisy[1..], reserved) {
        InsertionAtLeastAsLong(body, noisy[1..], reserved);
      } else {
        InsertionAtLeastAsLong(body[1..], noisy[1..], reserved);
      }
    }
  }

  /** The comparison meant to accept a greeting after a NUL never does: the C
      literal is empty. With a checksum of 0 for no data, as CRC-32 has, such a
      greeting is thrown away as a bad packet. */
  lemma NulBeforeGreetingIsLost(received: Bytes, crc: Checksum)
    requires received == [0] + GOBY_LINE
    requires crc([]) == 0
    ensures Classify(received, crc).Undecodable?
  {
    var line := received[1..5];
    assert received == [0] + line + [CR];
    NoControlLine(received, crc);
    ParseAfterNul(line, crc);
    FailsCrc(line, 252, crc);
  }

  lemma NoControlLine(received: Bytes, crc: Checksum)
    requires |received| > 5
    ensures Classify(received, crc) == FromPacket(Parse(received, DEFAULT_RESERVED, true, crc))
  {
  }

  /** A line, which is never empty, is taken as a greeting only when it is exactly "goby\\r". */
  lemma GreetingExactly(line: Bytes, crc: Checksum)
    requires line != []
    ensures Classify(line, crc) == Hello <==> line == GOBY_LINE
  {
  }

  lemma ParseAfterNul(line: Bytes, crc: Checksum)
    requires DigitsBelow(line, 252)
    requires forall j :: 0 <= j < |line| ==> line[j] !in DEFAULT_RESERVED
    ensures Parse([0] + line + [CR], DEFAULT_RESERVED, true, crc) == CheckCrc(Convert(line, 252, 256), crc)
  {
    var body: Bytes := [0] + line;
    assert (body + [CR])[..|body|] == body && body[1..] == line;
    assert 0 == DEFAULT_RESERVED[0];
    InsertNothing(line, DEFAULT_RESERVED);
    StripInsertion(line, line, DEFAULT_RESERVED);
    UnescapeDigits(line, DEFAULT_RESERVED);
  }

  lemma UnescapeDigits(digits: Bytes, reserved: Bytes)
    requires Usable(reserved) && DigitsBelow(digits, ReducedBase(reserved))
    ensures Unescape(digits, reserved) == digits
  {
    forall j | 0 <= j < |digits| ensures UnescapeFrom(digits[j], reserved, 0) == digits[j] {
      UnescapeUnaffected(digits[j], reserved, 0);
    }
  }

  /** Four digits that do not denote 0 leave no room for anything but a wrong checksum. */
  lemma FailsCrc(digits: Bytes, base: nat, crc: Checksum)
    requires |digits| == 4 && digits[0] > 0 && 2 <= base <= 256 && DigitsBelow(digits, base)
    requires crc([]) == 0
    ensures CheckCrc(Convert(digits, base, 256), crc).Rejected?
  {
    var bytes := Convert(digits, base, 256);
    ConvertIsConversion(digits, base, 256);
    forall k: nat | k <= 4 ensures Pow(base, k) <= Pow(256, k + 0) {
      PowMonotone(base, 256, k);
    }
    GrowsByAtMost(digits, base, 256, 0);
    if |bytes| == 4 {
      NonzeroWord(bytes);
      assert bytes[..0] == [] && bytes[0..] == bytes;
    }
  }

  lemma NonzeroWord(bytes: Bytes)
    requires |bytes| == 4 && Value(bytes, 256) > 0
    ensures BytesToUint32(bytes) > 0
  {
    OnlyZeros(Zeros(4), 256);
    assert bytes != Zeros(4);
  }
}
