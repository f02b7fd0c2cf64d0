/**
  What the payload codec is for: the round trip and where its 24-bit length field limits it,
  the exact language the strict decoder accepts, and the optimality of the encoder.
*/
module PayloadCodecLaws {
  import opened Words
  import opened PayloadCodec

  // ----- Round trip -----

  lemma {:induction false} DecodeRun(n: nat, rest: seq<uint8>)
    requires n >= 1
    ensures DecodeBody(EncodeRun(n) + rest) == DecodeBody(rest).After(ZeroBytes(n))
    decreases n
  {
    var s := EncodeRun(n) + rest;
    if n <= 255 {
      assert s[2..] == rest;
    } else {
      assert s[2..] == EncodeRun(n - 255) + rest;
      DecodeRun(n - 255, rest);
      AfterAfter(DecodeBody(rest), ZeroBytes(255), ZeroBytes(n - 255));
      assert ZeroBytes(255) + ZeroBytes(n - 255) == ZeroBytes(n);
    }
  }

  lemma {:induction false} DecodeEncode(p: seq<uint8>)
    ensures DecodeBody(EncodeBody(p)) == Parsed(p)
    decreases |p|
  {
    if p == [] {
    } else if p[0] != 0 {
      DecodeEncode(p[1..]);
      DecodeLiteral(p[0], EncodeBody(p[1..]));
      assert [p[0]] + p[1..] == p;
    } else {
      var n := ZeroRun(p);
      DecodeEncode(p[n..]);
      DecodeRun(n, EncodeBody(p[n..]));
      assert ZeroBytes(n) + p[n..] == p;
    }
  }

  lemma DecodeLiteral(b: uint8, rest: seq<uint8>)
    requires b != 0
    ensures DecodeBody([b] + rest) == DecodeBody(rest).After([b])
  {
    assert ([b] + rest)[1..] == rest;
  }

  lemma LeRoundTrip4(v: uint32)
    ensures Le(ToLe(v, 4)) == v
  {
    Pow256Values();
    LeRoundTrip(v, 4);
  }

  lemma LowBits(n: nat)
    ensures n % 0x1_0000_0000 % 0x100_0000 == n % 0x100_0000
  {
    var q, r := n / 0x1_0000_0000, n % 0x1_0000_0000;
    assert n == 0x100_0000 * (0x100 * q + r / 0x100_0000) + r % 0x100_0000;
  }

  /** The stream records the payload length exactly, modulo 2^32; the decoder sees it modulo 2^24. */
  lemma CompressedHeader(p: seq<uint8>)
    ensures Le(Compressed(p)[..4]) == |p| % 0x1_0000_0000
    ensures HeaderLength(Compressed(p)) == |p| % 0x100_0000
    ensures Compressed(p)[4..] == EncodeBody(p)
  {
    var length := |p| % 0x1_0000_0000;
    assert Compressed(p)[..4] == ToLe(length, 4);
    LeRoundTrip4(length);
    LowBits(|p|);
  }

  /** Decompressing what was compressed gives the payload back: always with `force`, and without
      it exactly for the payloads whose length fits the 24-bit length field. */
  lemma RoundTrip(p: seq<uint8>)
    ensures Decompressed(Compressed(p), true) == p
    ensures Decompressed(Compressed(p), false) == p <==> |p| < 0x100_0000
  {
    CompressedHeader(p);
    DecodeEncode(p);
  }

  // ----- The accepted language -----

  /** The words of the format: a literal non-zero byte, or a pair `00 k`. */
  datatype Token = Literal(b: uint8) | Zeros(k: uint8) {
    predicate Valid() {
      if Literal? then b != 0 else k != 0
    }

    function Bytes(): seq<uint8> {
      if Literal? then [b] else [0, k]
    }

    function Meaning(): seq<uint8> {
      if Literal? then [b] else ZeroBytes(k)
    }
  }

  predicate AllValid(ts: seq<Token>) {
    forall i :: 0 <= i < |ts| ==> ts[i].Valid()
  }

  function Bytes(ts: seq<Token>): seq<uint8> {
    if ts == [] then [] else ts[0].Bytes() + Bytes(ts[1..])
  }

  function Meaning(ts: seq<Token>): seq<uint8> {
    if ts == [] then [] else ts[0].Meaning() + Meaning(ts[1..])
  }

  lemma {:induction false} DecodeTokens(ts: seq<Token>)
    requires AllValid(ts)
    ensures DecodeBody(Bytes(ts)) == Parsed(Meaning(ts))
  {
    if ts != [] {
      DecodeTokens(ts[1..]);
      assert Bytes(ts)[|ts[0].Bytes()|..] == Bytes(ts[1..]);
    }
  }

  function Tokens(body: seq<uint8>): (ts: seq<Token>)
    requires DecodeBody(body).Parsed?
    ensures AllValid(ts) && Bytes(ts) == body
  {
    if body == [] then []
    else if body[0] != 0 then [Literal(body[0])] + Tokens(body[1..])
    else [Zeros(body[1])] + Tokens(body[2..])
  }

  /** The format is a prefix code: a body has at most one reading. */
  lemma {:induction false} UniqueReading(ts: seq<Token>, us: seq<Token>)
    requires AllValid(ts) && AllValid(us)
    requires Bytes(ts) == Bytes(us)
    ensures ts == us
  {
    if ts != [] && us != [] {
      assert Bytes(ts)[0] == ts[0].Bytes()[0] && Bytes(us)[0] == us[0].Bytes()[0];
      if ts[0].Zeros? {
        assert Bytes(ts)[1] == ts[0].k && Bytes(us)[1] == us[0].k;
      }
      assert ts[0] == us[0];
      assert Bytes(ts[1..]) == Bytes(ts)[|ts[0].Bytes()|..];
      assert Bytes(us[1..]) == Bytes(us)[|us[0].Bytes()|..];
      UniqueReading(ts[1..], us[1..]);
      assert ts == [ts[0]] + ts[1..] && us == [us[0]] + us[1..];
    }
  }

  /** The body of `s` reads as `ts`, and the length it spells out is the one in the header. */
  ghost predicate Spells(s: seq<uint8>, ts: seq<Token>, force: bool) {
    && |s| >= 4 && ts != [] && AllValid(ts) && s[4..] == Bytes(ts)
    && (force || |Meaning(ts)| == HeaderLength(s))
  }

  lemma SpellsMeansAccepted(s: seq<uint8>, ts: seq<Token>, force: bool)
    requires Spells(s, ts, force)
    ensures Decompressed(s, force) == Meaning(ts) != []
  {
    assert |ts[0].Bytes()| >= 1 && |ts[0].Meaning()| >= 1;
    DecodeTokens(ts);
  }

  /** Exactly the well-formed streams produce a payload; the empty answer is always a rejection. */
  lemma AcceptedLanguage(s: seq<uint8>, force: bool)
    ensures Decompressed(s, force) != [] <==> exists ts :: Spells(s, ts, force)
  {
    if Decompressed(s, force) != [] {
      DecodeTokens(Tokens(s[4..]));
      assert Spells(s, Tokens(s[4..]), force);
    }
    if exists ts :: Spells(s, ts, force) {
      var ts :| Spells(s, ts, force);
      SpellsMeansAccepted(s, ts, force);
    }
  }

  /** The top header byte is free: it never changes the answer. */
  lemma TopHeaderByteIgnored(s: seq<uint8>, b: uint8, force: bool)
    requires |s| >= 4
    ensures Decompressed(s[3 := b], force) == Decompressed(s, force)
  {
    var t := s[3 := b];
    assert t[4..] == s[4..];
    HeaderValue(s);
    HeaderValue(t);
  }

  lemma HeaderValue(s: seq<uint8>)
    requires |s| >= 4
    ensures HeaderLength(s) == s[0] as int + 0x100 * s[1] as int + 0x1_0000 * s[2] as int
  {
    var h := s[..4];
    assert h[1..][0] == s[1] && h[1..][1..][0] == s[2] && h[1..][1..][1..] == [s[3]];
    assert Le([s[3]]) == s[3];
    assert Le(h[1..][1..]) == s[2] as int + 0x100 * s[3] as int;
    assert Le(h[1..]) == s[1] as int + 0x100 * Le(h[1..][1..]);
    assert Le(h) == s[0] as int + 0x100 * s[1] as int + 0x1_0000 * s[2] as int + 0x100_0000 * s[3] as int;
  }

  // ----- Cost and optimality -----

  /** The lengths of the maximal zero runs of `p`, in order. */
  function ZeroRuns(p: seq<uint8>): seq<nat>
    decreases |p|
  {
    if p == [] then []
    else if p[0] != 0 then ZeroRuns(p[1..])
    else [ZeroRun(p)] + ZeroRuns(p[ZeroRun(p)..])
  }

  function NonZeros(p: seq<uint8>): nat {
    if p == [] then 0 else (if p[0] != 0 then 1 else 0) + NonZeros(p[1..])
  }

  /** Two bytes for each started block of 255 zeros. */
  function RunCost(n: nat): nat { 2 * ((n + 254) / 255) }

  function TotalRunCost(runs: seq<nat>): nat {
    if runs == [] then 0 else RunCost(runs[0]) + TotalRunCost(runs[1..])
  }

  lemma {:induction false} EncodeRunLength(n: nat)
    requires n >= 1
    ensures |EncodeRun(n)| == RunCost(n)
  {
    if n > 255 {
      EncodeRunLength(n - 255);
    }
  }

  lemma {:induction false} NonZerosSkip(p: seq<uint8>, n: nat)
    requires n <= |p| && forall i :: 0 <= i < n ==> p[i] == 0
    ensures NonZeros(p) == NonZeros(p[n..])
    decreases n
  {
    if n == 0 {
      assert p[0..] == p;
    } else {
      NonZerosSkip(p[1..], n - 1);
      assert p[1..][n - 1..] == p[n..];
    }
  }

  /** The size of a compressed payload: a maximal run of n zeros costs 2 * ceil(n / 255). */
  lemma {:induction false} CompressedSize(p: seq<uint8>)
    ensures |Compressed(p)| == 4 + NonZeros(p) + TotalRunCost(ZeroRuns(p))
    decreases |p|
  {
    if p == [] {
    } else if p[0] != 0 {
      CompressedSize(p[1..]);
    } else {
      var n := ZeroRun(p);
      CompressedSize(p[n..]);
      EncodeRunLength(n);
      NonZerosSkip(p, n);
      assert ([n] + ZeroRuns(p[n..]))[1..] == ZeroRuns(p[n..]);
    }
  }

  lemma {:induction false} ZeroRunPrepend(k: nat, p: seq<uint8>)
    ensures ZeroRun(ZeroBytes(k) + p) == k + ZeroRun(p)
    ensures (ZeroBytes(k) + p)[k + ZeroRun(p)..] == p[ZeroRun(p)..]
  {
    if k == 0 {
      assert ZeroBytes(0) + p == p;
    } else {
      var q := ZeroBytes(k - 1) + p;
      ZeroRunPrepend(k - 1, p);
      assert ZeroBytes(k) + p == [0] + q;
      ZeroRunCons(q);
    }
  }

  /** One token buys at most as much as the encoder spends. */
  lemma PrependZeros(k: uint8, p: seq<uint8>)
    requires k >= 1
    ensures |EncodeBody(ZeroBytes(k) + p)| <= 2 + |EncodeBody(p)|
  {
    hide EncodeBody, ZeroRun, EncodeRun;
    var n, q := ZeroRun(p), ZeroBytes(k) + p;
    ZeroRunPrepend(k, p);
    BodySize(q);
    BodySize(p);
    assert p[n..] == q[k + n..];
  }

  /** The body is the leading run, if any, and the body of what follows it. */
  lemma BodySize(p: seq<uint8>)
    ensures |EncodeBody(p)| == (if ZeroRun(p) == 0 then 0 else RunCost(ZeroRun(p))) + |EncodeBody(p[ZeroRun(p)..])|
  {
    if ZeroRun(p) == 0 {
      assert p[0..] == p;
    } else {
      EncodeRunLength(ZeroRun(p));
    }
  }

  lemma {:induction false} BodyOptimal(body: seq<uint8>)
    requires DecodeBody(body).Parsed?
    ensures |EncodeBody(DecodeBody(body).payload)| <= |body|
    decreases |body|
  {
    if body == [] {
    } else if body[0] != 0 {
      BodyOptimal(body[1..]);
      var p := DecodeBody(body[1..]).payload;
      assert ([body[0]] + p)[1..] == p;
    } else {
      BodyOptimal(body[2..]);
      PrependZeros(body[1], DecodeBody(body[2..]).payload);
    }
  }

  /** No stream the decoder accepts for a payload is shorter than the compressor's. */
  lemma CompressorOptimal(s: seq<uint8>, force: bool)
    requires Decompressed(s, force) != []
    ensures |Compressed(Decompressed(s, force))| <= |s|
  {
    BodyOptimal(s[4..]);
  }
}
