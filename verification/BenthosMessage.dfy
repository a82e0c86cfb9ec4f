/** Benthos ATM-900 messages (src/acomms/modemdriver/benthos_atm900_driver.h): a
    header followed by RUDICS packets that reserve only CR and carry no CRC. */
module BenthosMessage {
  import opened Arithmetic
  import opened ByteStrings
  import opened BaseConvert
  import opened RudicsPacket

  const CR_ONLY: Bytes := [CR]

  /** include_crc is false, so the checksum is never asked for. */
  const NO_CRC: Checksum := _ => 0

  /** benthos_absolute_max_frame_size */
  const MAX_FRAME_SIZE := 4091

  /** The DCCL header codec: decoding takes the header off the front of the message. */
  datatype HeaderCodec<!H> = HeaderCodec(encode: H -> Bytes, decode: Bytes -> (H, Bytes))

  ghost predicate PrefixCodec<H(!new)>(codec: HeaderCodec<H>)
  {
    forall h: H, rest: Bytes :: codec.decode(codec.encode(h) + rest) == (h, rest)
  }

  function EncodeFrame(frame: Bytes): Bytes
  {
    Serialize(frame, CR_ONLY, false, NO_CRC)
  }

  function DecodeFrame(body: Bytes): Bytes
  {
    var result := Parse(body + [CR], CR_ONLY, false, NO_CRC);
    if result.Parsed? then result.bytes else []
  }

  /** Sending stops at the first empty frame. */
  function SentFrames(frames: seq<Bytes>): seq<Bytes>
  {
    if frames == [] || frames[0] == [] then [] else [frames[0]] + SentFrames(frames[1..])
  }

  function EncodeFrames(frames: seq<Bytes>): Bytes
  {
    if frames == [] then [] else EncodeFrame(frames[0]) + EncodeFrames(frames[1..])
  }

  function OrNothing(token: Bytes): seq<Bytes>
  {
    if token == [] then [] else [token]
  }

  /** The maximal pieces of token + s that hold no CR, when token holds none. */
  function RunsFrom(token: Bytes, s: Bytes): seq<Bytes>
    decreases |s|
  {
    if s == [] then OrNothing(token)
    else if s[0] == CR then OrNothing(token) + RunsFrom([], s[1..])
    else RunsFrom(token + [s[0]], s[1..])
  }

  function Runs(s: Bytes): seq<Bytes>
  {
    RunsFrom([], s)
  }

  function NonEmpty(tokens: seq<Bytes>): seq<Bytes>
  {
    if tokens == [] then []
    else OrNothing(tokens[0]) + NonEmpty(tokens[1..])
  }

  function DecodeAll(bodies: seq<Bytes>): (r: seq<Bytes>)
    ensures |r| == |bodies|
  {
    seq(|bodies|, i requires 0 <= i < |bodies| => DecodeFrame(bodies[i]))
  }

  /** serialize_benthos_modem_message */
  method SerializeMessage<H>(codec: HeaderCodec<H>, header: H, frames: seq<Bytes>) returns (message: Bytes)
    ensures message == codec.encode(header) + EncodeFrames(SentFrames(frames))
  {
    message := codec.encode(header);
    ghost var prefix := message;
    var i := 0;
    while i < |frames| && frames[i] != []
      invariant 0 <= i <= |frames|
      invariant message + EncodeFrames(SentFrames(frames[i..])) == prefix + EncodeFrames(SentFrames(frames))
    {
      var packet := SerializePacket(frames[i], CR_ONLY, false, NO_CRC);
      SendOne(message, frames[i..]);
      assert frames[i..][1..] == frames[i + 1..];
      message := message + packet;
      i := i + 1;
    }
    assert SentFrames(frames[i..]) == [];
  }

  lemma SendOne(message: Bytes, frames: seq<Bytes>)
    requires frames != [] && frames[0] != []
    ensures message + EncodeFrames(SentFrames(frames))
            == (message + EncodeFrame(frames[0])) + EncodeFrames(SentFrames(frames[1..]))
  {
  }

  /** boost::split at CR with token_compress_on. */
  method SplitAtCr(s: Bytes) returns (tokens: seq<Bytes>)
    ensures NonEmpty(tokens) == Runs(s)
  {
    tokens := [];
    var token: Bytes := [];
    var afterCr := false;
    for i := 0 to |s|
      invariant NonEmpty(tokens) + RunsFrom(token, s[i..]) == Runs(s)
      invariant afterCr ==> token == []
    {
      assert s[i..][0] == s[i] && s[i..][1..] == s[i + 1..];
      if s[i] == CR {
        NonEmptyAppend(tokens, token);
        if !afterCr {
          tokens := tokens + [token];
        }
        token := [];
        afterCr := true;
      } else {
        token := token + [s[i]];
        afterCr := false;
      }
    }
    NonEmptyAppend(tokens, token);
    tokens := tokens + [token];
  }

  /** parse_benthos_modem_message */
  method ParseMessage<H>(codec: HeaderCodec<H>, message: Bytes) returns (header: H, frames: seq<Bytes>)
    ensures header == codec.decode(message).0
    ensures frames == DecodeAll(Runs(codec.decode(message).1))
  {
    var (h, body) := codec.decode(message);
    header := h;
    frames := [];
    var tokens := SplitAtCr(body);
    for i := 0 to |tokens|
      invariant Decoding(tokens, i, frames)
    {
      DecodingStep(tokens, i, frames);
      if tokens[i] != [] {
        var frame := ParseFrame(tokens[i]);
        frames := frames + [frame];
      }
    }
    assert NonEmpty(tokens[|tokens|..]) == [];
    assert frames + DecodeAll([]) == frames;
  }

  /** The first i tokens are decoded. */
  ghost predicate Decoding(tokens: seq<Bytes>, i: nat, frames: seq<Bytes>)
  {
    i <= |tokens| && frames + DecodeAll(NonEmpty(tokens[i..])) == DecodeAll(NonEmpty(tokens))
  }

  lemma DecodingStep(tokens: seq<Bytes>, i: nat, frames: seq<Bytes>)
    requires i < |tokens| && Decoding(tokens, i, frames)
    ensures Decoding(tokens, i + 1, if tokens[i] == [] then frames else frames + [DecodeFrame(tokens[i])])
  {
    assert tokens[i..][0] == tokens[i] && tokens[i..][1..] == tokens[i + 1..];
    DecodeNext(tokens[i..]);
  }

  method ParseFrame(body: Bytes) returns (frame: Bytes)
    ensures frame == DecodeFrame(body)
  {
    var result := ParsePacket(body + [CR], CR_ONLY, false, NO_CRC);
    frame := if result.Parsed? then result.bytes else [];
  }

  lemma DecodeNext(tokens: seq<Bytes>)
    requires tokens != []
    ensures DecodeAll(NonEmpty(tokens))
            == (if tokens[0] == [] then [] else [DecodeFrame(tokens[0])]) + DecodeAll(NonEmpty(tokens[1..]))
  {
  }

  /** Parsing gives back the header and, in order, every frame before the first empty one. */
  lemma MessageRoundTrip<H(!new)>(codec: HeaderCodec<H>, header: H, frames: seq<Bytes>)
    requires PrefixCodec(codec)
    ensures var (h, body) := codec.decode(codec.encode(header) + EncodeFrames(SentFrames(frames)));
            h == header && DecodeAll(Runs(body)) == SentFrames(frames)
    ensures (forall i :: 0 <= i < |frames| ==> frames[i] != []) ==> SentFrames(frames) == frames
  {
    SentAreNonEmpty(frames);
    FramesRoundTrip(SentFrames(frames));
  }

  /** The frames before the first empty one, by their positions. */
  predicate UpToEmpty(frames: seq<Bytes>, n: nat)
  {
    n <= |frames| && (n < |frames| ==> |frames[n]| == 0) && forall i :: 0 <= i < n ==> |frames[i]| > 0
  }

  lemma {:induction false} SentUpToEmpty(frames: seq<Bytes>, n: nat)
    requires UpToEmpty(frames, n)
    ensures SentFrames(frames) == frames[..n]
  {
    if n > 0 {
      assert forall i :: 0 <= i < n - 1 ==> frames[1..][i] == frames[i + 1];
      SentUpToEmpty(frames[1..], n - 1);
      assert frames[..n] == [frames[0]] + frames[1..][..n - 1];
    }
  }

  /** Sending stops at the first empty frame: just the frames before it come back. */
  lemma StopsAtEmpty<H(!new)>(codec: HeaderCodec<H>, header: H, frames: seq<Bytes>, n: nat)
    requires PrefixCodec(codec) && UpToEmpty(frames, n)
    ensures var (h, body) := codec.decode(codec.encode(header) + EncodeFrames(SentFrames(frames)));
            h == header && DecodeAll(Runs(body)) == frames[..n]
  {
    MessageRoundTrip(codec, header, frames);
    SentUpToEmpty(frames, n);
  }

  // ----- what the split means

  function Join(pieces: seq<Bytes>): Bytes
  {
    if pieces == [] then [] else if |pieces| == 1 then pieces[0] else pieces[0] + [CR] + Join(pieces[1..])
  }

  predicate CrFree(pieces: seq<Bytes>)
  {
    forall i :: 0 <= i < |pieces| ==> CR !in pieces[i]
  }

  lemma {:induction false} RunsOfOne(token: Bytes, s: Bytes)
    requires CR !in s
    ensures RunsFrom(token, s) == OrNothing(token + s)
    decreases |s|
  {
    if s == [] {
      assert token + s == token;
    } else {
      assert s[0] in s;
      RunsOfOne(token + [s[0]], s[1..]);
      assert token + [s[0]] + s[1..] == token + s;
    }
  }

  /** Pieces without CR, joined by CRs: the split gives back those that are not empty, in order. */
  lemma {:induction false} RunsOfJoined(pieces: seq<Bytes>)
    requires CrFree(pieces)
    ensures Runs(Join(pieces)) == NonEmpty(pieces)
  {
    if |pieces| == 1 {
      RunsOfOne([], pieces[0]);
      assert [] + pieces[0] == pieces[0] && pieces[1..] == [];
    } else if |pieces| > 1 {
      assert CrFree(pieces[1..]);
      RunsStep([], pieces[0], Join(pieces[1..]));
      assert [] + pieces[0] == pieces[0];
      RunsOfJoined(pieces[1..]);
    }
  }

  /** And every byte string is joined of such pieces. */
  lemma {:induction false} AlwaysJoined(s: Bytes) returns (pieces: seq<Bytes>)
    ensures pieces != [] && CrFree(pieces) && Join(pieces) == s
    decreases |s|
  {
    if s == [] {
      pieces := [[]];
    } else {
      var rest := AlwaysJoined(s[1..]);
      if s[0] == CR {
        pieces := [[]] + rest;
        assert pieces[1..] == rest && [] + [CR] + s[1..] == s;
      } else {
        pieces := [[s[0]] + rest[0]] + rest[1..];
        assert pieces[1..] == rest[1..];
        assert Join(pieces) == [s[0]] + Join(rest);
      }
    }
  }

  /** The promised bound: a frame of at most 4091 bytes grows by at most 4, CR included. */
  lemma FrameSizeBound(frame: Bytes)
    requires |frame| <= MAX_FRAME_SIZE
    ensures |EncodeFrame(frame)| <= |frame| + 4
  {
    forall k: nat | k <= |frame| ensures Pow(256, k) <= Pow(255, k + 3) {
      PowerGap(k);
    }
    GrowsByAtMost(frame, 256, 255, 3);
  }

  // ----- frames

  lemma {:induction false} FramesRoundTrip(frames: seq<Bytes>)
    requires forall i :: 0 <= i < |frames| ==> frames[i] != []
    ensures DecodeAll(Runs(EncodeFrames(frames))) == frames
  {
    if frames != [] {
      var body := Body(frames[0], CR_ONLY, false, NO_CRC);
      FrameBody(frames[0]);
      RunsStep([], body, EncodeFrames(frames[1..]));
      assert [] + body == body;
      FramesRoundTrip(frames[1..]);
      DecodeCons(body, Runs(EncodeFrames(frames[1..])));
      assert frames == [frames[0]] + frames[1..];
    }
  }

  lemma FrameBody(frame: Bytes)
    requires frame != []
    ensures var body := Body(frame, CR_ONLY, false, NO_CRC);
            body != [] && CR !in body && DecodeFrame(body) == frame
  {
    assert CR_ONLY[0] == CR;
    BodyHasNoReserved(frame, CR_ONLY, false, NO_CRC);
    BodyAtLeastAsLong(frame, CR_ONLY, false, NO_CRC);
    SerializeRoundTrip(frame, CR_ONLY, false, NO_CRC);
  }

  lemma DecodeCons(body: Bytes, rest: seq<Bytes>)
    ensures DecodeAll([body] + rest) == [DecodeFrame(body)] + DecodeAll(rest)
  {
  }

  lemma {:induction false} SentAreNonEmpty(frames: seq<Bytes>)
    ensures forall i :: 0 <= i < |SentFrames(frames)| ==> SentFrames(frames)[i] != []
    ensures (forall i :: 0 <= i < |frames| ==> frames[i] != []) ==> SentFrames(frames) == frames
  {
    if frames != [] && frames[0] != [] {
      SentAreNonEmpty(frames[1..]);
      assert frames == [frames[0]] + frames[1..];
    }
  }

  lemma {:induction false} RunsStep(token: Bytes, run: Bytes, rest: Bytes)
    requires CR !in run
    ensures RunsFrom(token, run + [CR] + rest) == OrNothing(token + run) + Runs(rest)
    decreases |run|
  {
    var s := run + [CR] + rest;
    if run == [] {
      assert s[1..] == rest && token + run == token;
    } else {
      assert s[0] == run[0] && s[1..] == run[1..] + [CR] + rest;
      RunsStep(token + [run[0]], run[1..], rest);
      assert token + [run[0]] + run[1..] == token + run;
    }
  }

  lemma {:induction false} NonEmptyAppend(tokens: seq<Bytes>, token: Bytes)
    ensures NonEmpty(tokens + [token]) == NonEmpty(tokens) + OrNothing(token)
  {
    if tokens != [] {
      assert (tokens + [token])[1..] == tokens[1..] + [token];
      NonEmptyAppend(tokens[1..], token);
    } else {
      assert [] + [token] == [token] && [token][1..] == [];
    }
  }

  // ----- 256^k <= 255^(k+3) for k up to 4096

  lemma PowerGap(k: nat)
    requires k <= 4096
    ensures Pow(256, k) <= Pow(255, k + 3)
  {
    var n: nat :| n == 4096;
    RatioAt4096(n);
    RatioShrinks(k, n);
    PowPositive(255, n - k);
    Cancel(Pow(256, k), Pow(255, k + 3), Pow(255, n - k));
  }

  /** 256^k * 255^(n-k) <= 256^n <= 255^3 * 255^n, the factor 255^(n-k) still to be cancelled. */
  lemma RatioShrinks(k: nat, n: nat)
    requires k <= n && Pow(256, n) <= Pow(255, n + 3)
    ensures Pow(256, k) * Pow(255, n - k) <= Pow(255, k + 3) * Pow(255, n - k)
  {
    PowAdd(256, k, n - k);
    PowMonotone(255, 256, n - k);
    MulMonotone(Pow(256, k), Pow(255, n - k), Pow(256, n - k));
    PowAdd(255, k + 3, n - k);
  }

  lemma Cancel(a: nat, b: nat, c: nat)
    requires c > 0 && a * c <= b * c
    ensures a <= b
  {
  }

  /** a/b <= p/q implies (a/b)^n <= (p/q)^n. */
  lemma RatioPower(a: nat, b: nat, p: nat, q: nat, n: nat)
    requires a * q <= p * b
    ensures Pow(a, n) * Pow(q, n) <= Pow(p, n) * Pow(b, n)
  {
    PowMonotone(a * q, p * b, n);
    PowOfProduct(a, q, n);
    PowOfProduct(p, b, n);
  }

  /** Replaces the bound p/q by a rounder one r/s. */
  lemma Coarsen(a: nat, b: nat, p: nat, q: nat, r: nat, s: nat)
    requires q > 0 && a * q <= p * b && p * s <= r * q
    ensures a * s <= r * b
  {
  }

  function Pow16(x: nat): nat
  {
    var x2 := x * x;
    var x4 := x2 * x2;
    var x8 := x4 * x4;
    x8 * x8
  }

  lemma Pow16IsPow(x: nat)
    ensures Pow16(x) == Pow(x, 16)
  {
    PowAdd(x, 1, 1);
    PowAdd(x, 2, 2);
    PowAdd(x, 4, 4);
    PowAdd(x, 8, 8);
    assert Pow(x, 1) == x;
  }

  /** From a bound p/q on (x/y)^n to a bound r/s on (x/y)^(16n). */
  lemma RatioStep(x: nat, y: nat, n: nat, p: nat, q: nat, r: nat, s: nat)
    requires q > 0 && Pow(x, n) * q <= p * Pow(y, n)
    requires Pow16(p) * s <= r * Pow16(q)
    ensures Pow(x, n * 16) * s <= r * Pow(y, n * 16)
  {
    RatioPower(Pow(x, n), Pow(y, n), p, q, 16);
    PowOfPow(x, n, 16);
    PowOfPow(y, n, 16);
    Pow16IsPow(p);
    Pow16IsPow(q);
    PowPositive(q, 16);
    Coarsen(Pow(x, n * 16), Pow(y, n * 16), Pow(p, 16), Pow(q, 16), r, s);
  }

  /** (256/255)^16 <= 1.0647, hence (256/255)^256 <= 2.73, hence (256/255)^4096 <= 255^3. */
  lemma RatioAt4096(n: nat)
    requires n == 4096
    ensures Pow(256, n) <= Pow(255, n + 3)
  {
    var k: nat :| k == 16;
    RatioAt16(k);
    RoundedBounds();
    RatioStep(256, 255, k, 10647, 10000, 273, 100);
    RatioStep(256, 255, k * 16, 273, 100, 16581375, 1);
    var three: nat :| three == 3;
    PowAdd(255, three, n);
    Cube(255);
  }

  lemma RatioAt16(k: nat)
    requires k == 16
    ensures Pow(256, k) * 10000 <= 10647 * Pow(255, k)
  {
    Pow16IsPow(256);
    Pow16IsPow(255);
    SixteenthPowers();
  }

  lemma SixteenthPowers()
    ensures Pow16(256) * 10000 <= 10647 * Pow16(255)
  {
  }

  lemma RoundedBounds()
    ensures Pow16(10647) * 100 <= 273 * Pow16(10000)
    ensures Pow16(273) * 1 <= 16581375 * Pow16(100)
  {
  }

  lemma Cube(x: nat)
    ensures Pow(x, 3) == x * (x * x)
  {
    assert Pow(x, 1) == x;
    assert Pow(x, 2) == x * Pow(x, 1);
  }
}
