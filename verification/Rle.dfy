/** Model of the run-length codec: `encode` of task03/encoder.c and `decode` of
    task03/decoder.c.

    A file is the sequence of its bytes.  The C variable `count` is an unsigned char;
    here it has type `Byte`, so every assignment to it carries the proof obligation
    that it does not wrap around. */
module Rle {

  type Byte = x: int | 0 <= x < 256

  const MAX_COUNT: Byte := 255

  // ----- Reference definitions -----

  /** `n` copies of `b`. */
  function Run(b: Byte, n: nat): (r: seq<Byte>)
    ensures |r| == n
  {
    seq(n, _ => b)
  }

  /** What a stream of (count, byte) pairs stands for; a lone last byte stands for nothing. */
  function Expand(e: seq<Byte>): seq<Byte>
  {
    if |e| < 2 then [] else Run(e[1], e[0]) + Expand(e[2..])
  }

  /** The stream that the encoder still has to write when it holds a run of `count` bytes
      `p` and the input `x` is unread. */
  function EncodeFrom(p: Byte, count: Byte, x: seq<Byte>): seq<Byte>
    requires 1 <= count
    decreases |x|
  {
    if x == [] then [count, p]
    else if x[0] == p && count < MAX_COUNT then EncodeFrom(p, count + 1, x[1..])
    else [count, p] + EncodeFrom(x[0], 1, x[1..])
  }

  /** The encoder's output; nothing is written for an empty input. */
  function Encoding(x: seq<Byte>): seq<Byte>
  {
    if x == [] then [] else EncodeFrom(x[0], 1, x[1..])
  }

  /** Canonical streams: whole pairs, no zero count, and adjacent pairs carry the same
      byte only where the first of them is full. */
  ghost predicate Canonical(e: seq<Byte>)
  {
    && |e| % 2 == 0
    && (forall k :: 0 <= k < |e| && k % 2 == 0 ==> 1 <= e[k])
    && (forall k :: 0 <= k < |e| - 3 && k % 2 == 0 && e[k + 1] == e[k + 3] ==> e[k] == MAX_COUNT)
  }

  lemma ExpandPair(e: seq<Byte>, rest: seq<Byte>, before: seq<Byte>)
    requires 2 <= |e| && e[2..] == rest
    ensures before + Expand(e) == before + Run(e[1], e[0]) + Expand(rest)
  {
  }

  // ----- The programs -----

  /** The greedy loop of `encode`.  `main` never calls it on an empty file. */
  method Encode(input: seq<Byte>) returns (status: int, out: seq<Byte>)
    requires input != []
    ensures status == 0
    ensures Expand(out) == input
    ensures Canonical(out)
    ensures out == Encoding(input)
  {
    var count: Byte := 1;
    var p := input[0];
    var pos := 1;
    out := [];
    while pos < |input|
      invariant 1 <= pos <= |input|
      invariant 1 <= count
      invariant out + EncodeFrom(p, count, input[pos..]) == Encoding(input)
    {
      var c := input[pos];
      assert input[pos..][1..] == input[pos + 1..];
      pos := pos + 1;
      if c == p && count < MAX_COUNT {
        count := count + 1;
        continue;
      }
      out := out + [count];
      out := out + [p];
      p := c;
      count := 1;
    }
    assert input[pos..] == [];
    out := out + [count];
    out := out + [p];
    assert out == Encoding(input);
    RoundTrip(input);
    EncodingIsCanonical(input);
    return 0, out;
  }

  /** The pair-expanding loops of `decode`; status 1 reports a stream that ends inside a pair. */
  method Decode(input: seq<Byte>) returns (status: int, out: seq<Byte>)
    ensures out == Expand(input)
    ensures status == |input| % 2
  {
    status := 0;
    out := [];
    var pos := 0;
    while pos < |input|
      invariant 0 <= pos <= |input| && pos % 2 == 0
      invariant out + Expand(input[pos..]) == Expand(input)
    {
      var count := input[pos];
      pos := pos + 1;
      if pos == |input| {
        status := 1;
        break;
      }
      var c := input[pos];
      pos := pos + 1;
      ghost var before, n := out, count;
      while count != 0
        invariant count <= n
        invariant out == before + Run(c, n - count)
      {
        out := out + [c];
        count := count - 1;
      }
      ExpandPair(input[pos - 2..], input[pos..], before);
    }
  }

  /** `main` of the encoder: an empty file is refused. */
  method EncodeFile(input: seq<Byte>) returns (status: int, out: seq<Byte>)
    ensures status == 0 <==> input != []
    ensures out == Encoding(input)
  {
    if input == [] {
      return 1, [];
    }
    status, out := Encode(input);
  }

  /** `main` of the decoder: fewer than two bytes are refused. */
  method DecodeFile(input: seq<Byte>) returns (status: int, out: seq<Byte>)
    ensures status == 0 <==> 2 <= |input| && |input| % 2 == 0
    ensures out == Expand(input)
  {
    if |input| < 2 {
      return 1, [];
    }
    status, out := Decode(input);
  }

  /** Both programs in a row, as task03/test.sh runs them: the file comes back. */
  method EncodeThenDecode(input: seq<Byte>) returns (status: int, out: seq<Byte>)
    requires input != []
    ensures status == 0 && out == input
  {
    var _, encoded := EncodeFile(input);
    RoundTrip(input);
    EncodingIsCanonical(input);
    status, out := DecodeFile(encoded);
  }

  // ----- The format -----

  /** A run of up to 255 bytes is its length and its byte, in this order; one of 256 begins anew. */
  lemma RunIsPair(b: Byte, n: nat)
    requires 1 <= n <= 255
    ensures Encoding(seq(n, _ => b)) == [n, b]
    ensures Encoding(seq(256, _ => b)) == [255, b, 1, b]
  {
    var one: Byte := 1;
    EncodeFromRun(b, 1, n, []);
    assert seq(n, _ => b)[1..] == Run(b, n - 1) + [];
    EncodeFromRun(b, 1, 255, [b]);
    assert seq(256, _ => b)[1..] == Run(b, 254) + [b];
    assert EncodeFrom(b, 255, [b]) == [255, b] + EncodeFrom(b, one, []);
  }

  /** A pair stands for as many of its second byte as its first byte says. */
  lemma PairIsRun(n: Byte, b: Byte, rest: seq<Byte>)
    ensures Expand([n, b] + rest) == seq(n, _ => b) + Expand(rest)
  {
    assert ([n, b] + rest)[2..] == rest;
  }

  // ----- Round trip -----

  lemma {:induction false} ExpandEncodeFrom(p: Byte, count: Byte, x: seq<Byte>)
    requires 1 <= count
    ensures Expand(EncodeFrom(p, count, x)) == Run(p, count) + x
    decreases |x|
  {
    if x == [] {
      assert Expand([count, p]) == Run(p, count) + Expand([]);
    } else if x[0] == p && count < MAX_COUNT {
      ExpandEncodeFrom(p, count + 1, x[1..]);
      assert Run(p, count + 1) + x[1..] == Run(p, count) + x;
    } else {
      ExpandEncodeFrom(x[0], 1, x[1..]);
      assert Run(x[0], 1) + x[1..] == x;
      assert EncodeFrom(p, count, x)[2..] == EncodeFrom(x[0], 1, x[1..]);
    }
  }

  /** Decoding an encoding gives the input back. */
  lemma RoundTrip(x: seq<Byte>)
    ensures Expand(Encoding(x)) == x
  {
    if x != [] {
      ExpandEncodeFrom(x[0], 1, x[1..]);
      assert Run(x[0], 1) + x[1..] == x;
    }
  }

  lemma {:induction false} ExpandConcat(e: seq<Byte>, f: seq<Byte>)
    requires |e| % 2 == 0
    ensures Expand(e + f) == Expand(e) + Expand(f)
    decreases |e|
  {
    if e == [] {
      assert e + f == f;
    } else {
      ExpandConcat(e[2..], f);
      assert (e + f)[2..] == e[2..] + f;
      assert Run(e[1], e[0]) + (Expand(e[2..]) + Expand(f)) == Expand(e) + Expand(f);
    }
  }

  /** Encodings can be concatenated: the decoder reads two files written one after the
      other as the concatenation of their contents. */
  lemma ConcatenatedEncodings(x: seq<Byte>, y: seq<Byte>)
    ensures Expand(Encoding(x) + Encoding(y)) == x + y
    ensures |Encoding(x) + Encoding(y)| % 2 == 0
  {
    var e, f := Encoding(x), Encoding(y);
    assert |e| % 2 == 0 && Expand(e) == x by {
      EncodingIsCanonical(x);
      RoundTrip(x);
    }
    assert |f| % 2 == 0 && Expand(f) == y by {
      EncodingIsCanonical(y);
      RoundTrip(y);
    }
    ExpandConcat(e, f);
  }

  // ----- Canonical form -----

  lemma {:induction false} CanonicalCons(count: Byte, p: Byte, e: seq<Byte>)
    requires Canonical(e) && 1 <= count
    requires e != [] && p == e[1] ==> count == MAX_COUNT
    ensures Canonical([count, p] + e)
  {
    var f := [count, p] + e;
    forall k | 0 <= k < |f| && k % 2 == 0
      ensures 1 <= f[k]
    {
      assert k == 0 || f[k] == e[k - 2];
    }
    forall k | 0 <= k < |f| - 3 && k % 2 == 0 && f[k + 1] == f[k + 3]
      ensures f[k] == MAX_COUNT
    {
      if k > 0 {
        assert f[k] == e[k - 2] && f[k + 1] == e[k - 2 + 1] && f[k + 3] == e[k - 2 + 3];
      }
    }
  }

  lemma {:induction false} EncodeFromIsCanonical(p: Byte, count: Byte, x: seq<Byte>)
    requires 1 <= count
    ensures var e := EncodeFrom(p, count, x);
            Canonical(e) && 2 <= |e| <= 2 * (|x| + 1) && e[1] == p
    decreases |x|
  {
    if x == [] {
    } else if x[0] == p && count < MAX_COUNT {
      EncodeFromIsCanonical(p, count + 1, x[1..]);
    } else {
      EncodeFromIsCanonical(x[0], 1, x[1..]);
      CanonicalCons(count, p, EncodeFrom(x[0], 1, x[1..]));
    }
  }

  /** The encoder writes canonical streams, at most two bytes for each input byte. */
  lemma EncodingIsCanonical(x: seq<Byte>)
    ensures Canonical(Encoding(x))
    ensures |Encoding(x)| <= 2 * |x|
    ensures x != [] ==> 2 <= |Encoding(x)|
  {
    if x != [] {
      EncodeFromIsCanonical(x[0], 1, x[1..]);
    }
  }

  lemma CanonicalTail(e: seq<Byte>)
    requires Canonical(e) && e != []
    ensures Canonical(e[2..])
  {
    var f := e[2..];
    assert forall k :: 0 <= k < |f| ==> f[k] == e[k + 2];
  }

  /** The encoder, part way through a run that is still shorter than `count`, completes it. */
  lemma {:induction false} EncodeFromRun(p: Byte, have: Byte, count: Byte, y: seq<Byte>)
    requires 1 <= have <= count
    ensures EncodeFrom(p, have, Run(p, count - have) + y) == EncodeFrom(p, count, y)
    decreases count - have
  {
    var x := Run(p, count - have) + y;
    if have == count {
      assert x == y;
    } else {
      assert x[1..] == Run(p, count - have - 1) + y;
      EncodeFromRun(p, have + 1, count, y);
    }
  }

  /** Every canonical stream is the encoding of what it decodes to. */
  lemma {:induction false} CanonicalStreamsAreEncodings(e: seq<Byte>)
    requires Canonical(e)
    ensures Encoding(Expand(e)) == e
    decreases |e|
  {
    if e != [] {
      var count, p, rest := e[0], e[1], e[2..];
      CanonicalTail(e);
      CanonicalStreamsAreEncodings(rest);
      var y := Expand(rest);
      var x := Expand(e);
      assert x == Run(p, count) + y;
      assert x[0] == p && x[1..] == Run(p, count - 1) + y;
      EncodeFromRun(p, 1, count, y);
      if rest != [] {
        assert y[0] == rest[1] == e[3];
      }
      assert EncodeFrom(p, count, y) == [count, p] + Encoding(y);
      assert e == [count, p] + rest;
    }
  }

  /** The encoder's output is the only canonical stream for its input. */
  lemma EncodingIsUnique(x: seq<Byte>, e: seq<Byte>)
    ensures Canonical(e) && Expand(e) == x <==> e == Encoding(x)
  {
    RoundTrip(x);
    EncodingIsCanonical(x);
    if Canonical(e) {
      CanonicalStreamsAreEncodings(e);
    }
  }

  // ----- Optimality -----

  /** A longer run in hand never shortens what is left to write, and costs at most one pair. */
  lemma {:induction false} RunInHand(p: Byte, c: Byte, d: Byte, x: seq<Byte>)
    requires 1 <= c <= d
    ensures |EncodeFrom(p, c, x)| <= |EncodeFrom(p, d, x)| <= |EncodeFrom(p, c, x)| + 2
    decreases |x|
  {
    if x == [] || x[0] != p || c == MAX_COUNT {
    } else if d < MAX_COUNT {
      RunInHand(p, c + 1, d + 1, x[1..]);
    } else {
      RunInHand(p, 1, c + 1, x[1..]);
    }
  }

  /** Putting one pair in front of a stream adds at most one pair to the encoding. */
  lemma OnePairMore(n: Byte, b: Byte, y: seq<Byte>)
    ensures |Encoding(Run(b, n) + y)| <= 2 + |Encoding(y)|
  {
    var x := Run(b, n) + y;
    if n == 0 {
      assert x == y;
    } else {
      assert x[0] == b && x[1..] == Run(b, n - 1) + y;
      EncodeFromRun(b, 1, n, y);
      if y != [] && y[0] == b && n < MAX_COUNT {
        RunInHand(b, 1, n + 1, y[1..]);
      }
    }
  }

  /** No stream at all - zero counts, split runs and a dangling byte included - that the
      decoder expands to `x` is shorter than the encoder's output. */
  lemma {:induction false} EncodingIsOptimal(e: seq<Byte>)
    ensures |Encoding(Expand(e))| <= |e|
    decreases |e|
  {
    if 2 <= |e| {
      EncodingIsOptimal(e[2..]);
      OnePairMore(e[0], e[1], Expand(e[2..]));
    }
  }
}
