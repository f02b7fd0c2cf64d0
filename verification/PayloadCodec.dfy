/**
  The contract payload codec: zero bytes are run-length encoded as `00 k` with
  1 <= k <= 255, every other byte stands for itself, and a 32-bit length is put in front.
*/
module PayloadCodec {
  import opened Words

  // ----- What the compressor writes -----

  /** The length of the maximal run of zero bytes at the front of `p`. */
  function ZeroRun(p: seq<uint8>): (n: nat)
    ensures n <= |p|
    ensures forall i :: 0 <= i < n ==> p[i] == 0
    ensures n < |p| ==> p[n] != 0
  {
    if p == [] || p[0] != 0 then 0 else 1 + ZeroRun(p[1..])
  }

  function ZeroBytes(n: nat): (z: seq<uint8>)
    ensures |z| == n
    ensures forall i :: 0 <= i < n ==> z[i] == 0
  {
    seq(n, _ => 0)
  }

  /** One maximal zero run: full pairs of 255 first, the remainder last. */
  function EncodeRun(n: nat): (r: seq<uint8>)
    requires n >= 1
    ensures |r| >= 2 && r[0] == 0
  {
    if n <= 255 then [0, n] else [0, 255] + EncodeRun(n - 255)
  }

  function EncodeBody(p: seq<uint8>): seq<uint8>
    decreases |p|
  {
    if p == [] then []
    else if p[0] != 0 then [p[0]] + EncodeBody(p[1..])
    else EncodeRun(ZeroRun(p)) + EncodeBody(p[ZeroRun(p)..])
  }

  /** The whole stream: the payload length truncated to 32 bits, then the body. */
  function Compressed(p: seq<uint8>): (s: seq<uint8>)
    ensures |s| == 4 + |EncodeBody(p)|
  {
    ToLe(|p| % 0x1_0000_0000, 4) + EncodeBody(p)
  }

  /** What is still to be written when `rest` is unread.  Inside a run the leading zero byte of
      the current pair is already out, and `zeros` bytes of the run have been counted. */
  function Pending(inZero: bool, zeros: nat, rest: seq<uint8>): seq<uint8>
    requires inZero ==> zeros >= 1
  {
    if inZero then EncodeRun(zeros + ZeroRun(rest))[1..] + EncodeBody(rest[ZeroRun(rest)..])
    else EncodeBody(rest)
  }

  lemma ZeroRunCons(tail: seq<uint8>)
    ensures ZeroRun([0] + tail) == 1 + ZeroRun(tail)
    ensures ([0] + tail)[ZeroRun([0] + tail)..] == tail[ZeroRun(tail)..]
  {
    assert ([0] + tail)[1..] == tail;
  }

  lemma EncodeBodyRun(tail: seq<uint8>)
    ensures EncodeBody([0] + tail) == EncodeRun(1 + ZeroRun(tail)) + EncodeBody(tail[ZeroRun(tail)..])
  {
    ZeroRunCons(tail);
  }

  lemma EncodeBodyLiteral(b: uint8, tail: seq<uint8>)
    requires b != 0
    ensures EncodeBody([b] + tail) == [b] + EncodeBody(tail) && ZeroRun([b] + tail) == 0
  {
    assert ([b] + tail)[1..] == tail;
  }

  lemma ShortRun(n: nat)
    requires 1 <= n <= 255
    ensures EncodeRun(n)[1..] == [n]
  {
  }

  /** A zero byte read outside a run opens one. */
  lemma PendingOpen(tail: seq<uint8>)
    ensures EncodeBody([0] + tail) == [0] + Pending(true, 1, tail)
  {
    hide EncodeRun, EncodeBody, ZeroRun;
    EncodeBodyRun(tail);
    var r, rest := EncodeRun(1 + ZeroRun(tail)), EncodeBody(tail[ZeroRun(tail)..]);
    assert r + rest == [0] + (r[1..] + rest);
  }

  /** A zero byte read inside a run is counted, unless the counter is full. */
  lemma PendingCount(zeros: nat, tail: seq<uint8>)
    requires 1 <= zeros <= 255
    ensures Pending(true, zeros, [0] + tail) ==
            if zeros == 255 then [255, 0] + Pending(true, 1, tail) else Pending(true, zeros + 1, tail)
  {
    hide EncodeBody, ZeroRun;
    ZeroRunCons(tail);
    if zeros == 255 {
      var n := 1 + ZeroRun(tail);
      var rest := EncodeBody(tail[ZeroRun(tail)..]);
      var r := EncodeRun(n);
      assert EncodeRun(255 + n) == [0, 255] + r;
      assert EncodeRun(255 + n)[1..] + rest == [255, 0] + (r[1..] + rest);
    }
  }

  /** A non-zero byte closes an open run and stands for itself. */
  lemma PendingLiteral(inZero: bool, zeros: nat, b: uint8, tail: seq<uint8>)
    requires inZero ==> 1 <= zeros <= 255
    requires b != 0
    ensures Pending(inZero, zeros, [b] + tail) ==
            if inZero then [zeros] + ([b] + EncodeBody(tail)) else [b] + EncodeBody(tail)
  {
    hide EncodeRun, EncodeBody, ZeroRun;
    var rest := [b] + tail;
    EncodeBodyLiteral(b, tail);
    if inZero {
      ShortRun(zeros);
      assert zeros + ZeroRun(rest) == zeros;
      assert rest[ZeroRun(rest)..] == rest;
    }
  }

  /** The loop of the compressor from the point where `out` is written and `rest` is unread. */
  function Emit(out: seq<uint8>, inZero: bool, zeros: nat, rest: seq<uint8>): seq<uint8>
    decreases |rest|
  {
    if rest == [] then
      if inZero then out + [Wrap8(zeros)] else out
    else
      var b, tail := rest[0], rest[1..];
      if inZero && b == 0 then
        if zeros == 255 then Emit(out + [255] + [0], true, 1, tail) else Emit(out, true, zeros + 1, tail)
      else
        Emit((if inZero then out + [Wrap8(zeros)] else out) + [b], b == 0, 1, tail)
  }

  lemma PendingEnd(inZero: bool, zeros: nat)
    requires inZero ==> 1 <= zeros <= 255
    ensures Pending(inZero, zeros, []) == if inZero then [zeros] else []
  {
    if inZero {
      ShortRun(zeros);
    }
  }

  lemma PendingOutside(rest: seq<uint8>)
    ensures forall zeros :: Pending(false, zeros, rest) == EncodeBody(rest)
  {
  }

  lemma {:induction false} EmitIsPending(out: seq<uint8>, inZero: bool, zeros: nat, rest: seq<uint8>)
    requires inZero ==> 1 <= zeros <= 255
    ensures Emit(out, inZero, zeros, rest) == out + Pending(inZero, zeros, rest)
    decreases |rest|
  {
    hide Pending;
    if rest == [] {
      PendingEnd(inZero, zeros);
    } else {
      var b, tail := rest[0], rest[1..];
      assert rest == [b] + tail;
      PendingOutside(rest);
      PendingOutside(tail);
      if inZero && b == 0 {
        PendingCount(zeros, tail);
        if zeros == 255 {
          EmitIsPending(out + [255] + [0], true, 1, tail);
          assert out + [255] + [0] + Pending(true, 1, tail) == out + ([255, 0] + Pending(true, 1, tail));
        } else {
          EmitIsPending(out, true, zeros + 1, tail);
        }
      } else {
        var closed := if inZero then out + [zeros] else out;
        EmitIsPending(closed + [b], b == 0, 1, tail);
        if b == 0 {
          PendingOpen(tail);
        } else {
          PendingLiteral(inZero, zeros, b, tail);
        }
        Regroup(out, inZero, zeros, b, Pending(b == 0, 1, tail));
      }
    }
  }

  lemma Regroup(out: seq<uint8>, inZero: bool, zeros: nat, b: uint8, rest: seq<uint8>)
    requires inZero ==> zeros <= 255
    ensures (if inZero then out + [zeros] else out) + [b] + rest ==
            out + (if inZero then [zeros] + ([b] + rest) else [b] + rest)
  {
  }

  method Compress(payload: seq<uint8>) returns (result: seq<uint8>)
    ensures result == Compressed(payload)
  {
    var zeros := 0;
    var inZero := false;
    result := [0, 0, 0, 0];
    EmitIsPending(result, false, 0, payload);
    assert payload[0..] == payload;
    for k := 0 to |payload|
      invariant inZero ==> 1 <= zeros <= 255
      invariant Emit(result, inZero, zeros, payload[k..]) == [0, 0, 0, 0] + EncodeBody(payload)
    {
      var b := payload[k];
      assert payload[k..][1..] == payload[k + 1..];
      if inZero {
        if b == 0 {
          if zeros == 255 {
            result := result + [zeros];
            zeros := 0;
            result := result + [0];
          }
          zeros := zeros + 1;
          continue;
        } else {
          result := result + [zeros];
          zeros := 0;
        }
      }
      if b == 0 {
        inZero := true;
        zeros := 1;
      } else {
        inZero := false;
      }
      result := result + [b];
    }
    if inZero {
      result := result + [zeros];
    }
    result := ToLe(|payload| % 0x1_0000_0000, 4) + result[4..];
  }

  // ----- What the decompressor accepts -----

  datatype Parse = Rejected | Parsed(payload: seq<uint8>) {
    function After(prefix: seq<uint8>): Parse {
      if Rejected? then Rejected else Parsed(prefix + payload)
    }
  }

  function DecodeBody(body: seq<uint8>): Parse {
    if body == [] then Parsed([])
    else if body[0] != 0 then DecodeBody(body[1..]).After([body[0]])
    else if |body| == 1 || body[1] == 0 then Rejected
    else DecodeBody(body[2..]).After(ZeroBytes(body[1]))
  }

  /** The length field as the decompressor reads it: the top byte is masked off. */
  function HeaderLength(s: seq<uint8>): nat
    requires |s| >= 4
  {
    Le(s[..4]) % 0x100_0000
  }

  function Decompressed(s: seq<uint8>, force: bool): seq<uint8> {
    if |s| < 5 then []
    else
      match DecodeBody(s[4..])
      case Rejected => []
      case Parsed(p) => if !force && HeaderLength(s) != |p| then [] else p
  }

  /** The loop of the decompressor from the point where `out` is decoded and `rest` is unread. */
  function Absorb(out: seq<uint8>, inZero: bool, rest: seq<uint8>): Parse
    decreases |rest|
  {
    if rest == [] then
      if inZero then Rejected else Parsed(out)
    else if inZero then
      if rest[0] == 0 then Rejected else Absorb(out + ZeroBytes(rest[0]), false, rest[1..])
    else if rest[0] == 0 then Absorb(out, true, rest[1..])
    else Absorb(out + [rest[0]], false, rest[1..])
  }

  lemma {:induction false} AbsorbIsDecode(out: seq<uint8>, rest: seq<uint8>)
    ensures Absorb(out, false, rest) == DecodeBody(rest).After(out)
    decreases |rest|
  {
    if rest == [] {
      assert out + [] == out;
    } else if rest[0] != 0 {
      AbsorbIsDecode(out + [rest[0]], rest[1..]);
      AfterAfter(DecodeBody(rest[1..]), out, [rest[0]]);
    } else if |rest| > 1 && rest[1] != 0 {
      AbsorbIsDecode(out + ZeroBytes(rest[1]), rest[2..]);
      AfterAfter(DecodeBody(rest[2..]), out, ZeroBytes(rest[1]));
      assert rest[1..][1..] == rest[2..];
    } else {
      assert Absorb(out, true, rest[1..]).Rejected?;
    }
  }

  lemma AfterAfter(d: Parse, a: seq<uint8>, b: seq<uint8>)
    ensures d.After(b).After(a) == d.After(a + b)
  {
    if d.Parsed? {
      assert a + (b + d.payload) == a + b + d.payload;
    }
  }

  method Decompress(payload: seq<uint8>, force: bool) returns (result: seq<uint8>)
    ensures result == Decompressed(payload, force)
  {
    if |payload| < 5 {
      return [];
    }
    var size := Le(payload[..4]);
    size := size % 0x100_0000;
    result := [];
    var inZero := false;
    AbsorbIsDecode(result, payload[4..]);
    ghost var decoded := DecodeBody(payload[4..]);
    assert decoded.Parsed? ==> [] + decoded.payload == decoded.payload;
    for i := 4 to |payload|
      invariant Absorb(result, inZero, payload[i..]) == decoded
    {
      var b := payload[i];
      assert payload[i..][1..] == payload[i + 1..];
      if inZero {
        if b == 0 {
          return [];
        }
        ghost var start := result;
        for j := 0 to b
          invariant result == start + ZeroBytes(j)
        {
          result := result + [0];
          assert result == start + ZeroBytes(j + 1);
        }
        inZero := false;
      } else {
        if b == 0 {
          inZero := true;
        } else {
          result := result + [b];
        }
      }
    }
    if inZero {
      return [];
    }
    if size != |result| && !force {
      return [];
    }
  }
}
