/** What a packed span means: varints read one at a time, or elements of a fixed width. */
module Spans {
  import opened Varint

  datatype Decoded = Values(vals: seq<bv64>) | Malformed(error: WireError, offset: nat)

  /** Reading the rest of the span at q one varint at a time, after the values vals. */
  ghost function DecodeFrom(s: seq<bv8>, q: nat, vals: seq<bv64>): Decoded
    requires q <= |s|
    decreases |s| - q
  {
    if q == |s| then Values(vals) else
      match VarintAt(s, q, |s|)
      case Done(v, next) => DecodeFrom(s, next, vals + [v])
      case Fail(e) => Malformed(e, q)
  }

  ghost function DecodeSpan(s: seq<bv8>): Decoded { DecodeFrom(s, 0, []) }

  lemma VarintAdvances(s: seq<bv8>, q: nat)
    requires q <= |s|
    ensures VarintAt(s, q, |s|).Done? ==> q < VarintAt(s, q, |s|).next <= |s|
    ensures q == |s| ==> VarintAt(s, q, |s|).Fail?
  {
  }

  /** The values vals are read one after another, the i-th from cuts[i] to cuts[i + 1]. */
  ghost predicate ReadsTo(s: seq<bv8>, cuts: seq<nat>, vals: seq<bv64>)
  {
    && |cuts| == |vals| + 1 && cuts[0] == 0
    && forall i :: 0 <= i < |vals| ==> cuts[i] <= |s| && VarintAt(s, cuts[i], |s|) == Done(vals[i], cuts[i + 1])
  }

  /** How far the span is read: to its end, or to the first varint that cannot be read. */
  ghost predicate SpanReads(s: seq<bv8>, r: Decoded)
  {
    match r
    case Values(vals) => exists cuts :: ReadsTo(s, cuts, vals) && cuts[|vals|] == |s|
    case Malformed(e, off) =>
      && off < |s| && VarintAt(s, off, |s|) == Fail(e)
      && exists vals, cuts :: ReadsTo(s, cuts, vals) && cuts[|vals|] == off
  }

  lemma {:induction false} ReadsOn(s: seq<bv8>, q: nat, vals: seq<bv64>, cuts: seq<nat>)
    requires q <= |s| && ReadsTo(s, cuts, vals) && cuts[|vals|] == q
    ensures SpanReads(s, DecodeFrom(s, q, vals))
    decreases |s| - q
  {
    hide VarintAt;
    VarintAdvances(s, q);
    if q < |s| && VarintAt(s, q, |s|).Done? {
      var r := VarintAt(s, q, |s|);
      ReadsOn(s, r.next, vals + [r.value], cuts + [r.next]);
    }
  }

  /** The decoded span is what reading it one varint at a time comes to. */
  lemma SpanMeans(s: seq<bv8>)
    ensures SpanReads(s, DecodeSpan(s))
  {
    hide VarintAt;
    ReadsOn(s, 0, [], [0]);
  }

  // ---- the meaning against the encoder -------------------------------------------------------

  function EncodeAll(vals: seq<bv64>): seq<bv8> {
    if vals == [] then [] else Encode(vals[0]) + EncodeAll(vals[1..])
  }

  lemma {:induction false} DecodeEncodedFrom(s: seq<bv8>, q: nat, done: seq<bv64>, rest: seq<bv64>)
    requires q <= |s| && s[q..] == EncodeAll(rest)
    ensures DecodeFrom(s, q, done) == Values(done + rest)
    decreases rest
  {
    hide Encode, VarintAt;
    if rest == [] {
      assert done + rest == done;
    } else {
      var e := Encode(rest[0]);
      assert s[q..q + |e|] == s[q..][..|e|] == e;
      assert s[q + |e|..] == s[q..][|e|..] == EncodeAll(rest[1..]);
      RoundTrip(rest[0], s, q, |s|);
      DecodeEncodedFrom(s, q + |e|, done + [rest[0]], rest[1..]);
      assert done + [rest[0]] + rest[1..] == done + rest;
    }
  }

  /** Round trip: a span of encoded values decodes to exactly those values, in order. */
  lemma DecodeEncoded(vals: seq<bv64>)
    ensures DecodeSpan(EncodeAll(vals)) == Values(vals)
  {
    var s := EncodeAll(vals);
    assert s[0..] == s;
    DecodeEncodedFrom(s, 0, [], vals);
    assert [] + vals == vals;
  }

  /** A span yields no more elements than it has bytes, and fails only at a byte of its own. */
  lemma {:induction false} CountWithinBytes(s: seq<bv8>, q: nat, vals: seq<bv64>)
    requires |vals| <= q <= |s|
    ensures match DecodeFrom(s, q, vals)
            case Values(all) => |all| <= |s| && vals <= all
            case Malformed(_, off) => q <= off < |s|
    decreases |s| - q
  {
    hide VarintAt;
    VarintAdvances(s, q);
    if q < |s| && VarintAt(s, q, |s|).Done? {
      var r := VarintAt(s, q, |s|);
      CountWithinBytes(s, r.next, vals + [r.value]);
    }
  }

  // ---- spans of a fixed width ----------------------------------------------------------------

  /** The whole elements of a span of fixed-width ones. */
  ghost function FixedElements<E>(span: seq<bv8>, width: nat, elem: seq<bv8> -> E): seq<E>
    requires width >= 1
  {
    if |span| < width then [] else [elem(span[..width])] + FixedElements(span[width..], width, elem)
  }

  lemma {:induction false} FixedCount<E>(span: seq<bv8>, width: nat, elem: seq<bv8> -> E)
    requires width == 4 || width == 8
    ensures |FixedElements(span, width, elem)| == |span| / width
  {
    if |span| >= width {
      FixedCount(span[width..], width, elem);
    }
  }

  lemma FixedNext<E>(span: seq<bv8>, q: nat, width: nat, elem: seq<bv8> -> E)
    requires (width == 4 || width == 8) && q + width <= |span|
    ensures FixedElements(span[q..], width, elem) == [elem(span[q..q + width])] + FixedElements(span[q + width..], width, elem)
    ensures SameRemainder(|span|, |span| - q, width) ==> SameRemainder(|span|, |span| - q - width, width)
  {
    assert span[q..][..width] == span[q..q + width] && span[q..][width..] == span[q + width..];
  }

  lemma FixedDone<E>(span: seq<bv8>, width: nat, elem: seq<bv8> -> E)
    requires |span| < width
    ensures FixedElements(span, width, elem) == []
  {
  }

  ghost predicate SameRemainder(x: nat, y: nat, width: nat)
    requires width == 4 || width == 8
  {
    if width == 4 then x % 4 == y % 4 else x % 8 == y % 8
  }

  lemma SmallRemainder(x: nat, y: nat, width: nat)
    requires (width == 4 || width == 8) && SameRemainder(x, y, width) && y < width
    ensures y == x % width
  {
  }
}
