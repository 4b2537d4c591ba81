/**
 Digests over length-prefixed parts. The mixing function itself is a parameter:
 nothing below assumes it is injective. Where two values share a digest the
 lemmas say the values are equal or name the two byte strings that collide.
 */
module Digests {
  import Arithmetic
  import opened Bytes
  import opened LittleEndian

  /** A Rust string or slice: its bytes, with a length that fits in a usize. */
  type Text = s: seq<byte> | |s| < Arithmetic.TWO_64

  /** Four 16-digit words: every digest is 64 bytes of text. */
  type Digest = d: seq<byte> | |d| == 64 witness SixtyFour()

  function SixtyFour(): (r: seq<byte>)
    ensures |r| == 64
  {
    seq(64, _ => 48)
  }

  type Mixer = seq<byte> -> Digest

  /** What is hashed for a list of parts: each part after its length. */
  function Frame(parts: seq<Text>): seq<byte> {
    if parts == [] then [] else Le(|parts[0]|, 8) + (parts[0] + Frame(parts[1..]))
  }

  /** The loop that builds it: each part's length, then the part. */
  method BuildFrame(parts: seq<Text>) returns (bytes: seq<byte>)
    ensures bytes == Frame(parts)
  {
    bytes := [];
    for i := 0 to |parts|
      invariant bytes + Frame(parts[i..]) == Frame(parts)
    {
      assert parts[i..][0] == parts[i] && parts[i..][1..] == parts[i + 1..];
      FrameGrows(bytes, parts[i], Frame(parts[i + 1..]));
      bytes := bytes + Le(|parts[i]|, 8);
      bytes := bytes + parts[i];
    }
    assert bytes + Frame([]) == bytes;
  }

  lemma FrameGrows(front: seq<byte>, part: Text, rest: seq<byte>)
    ensures front + (Le(|part|, 8) + (part + rest)) == front + Le(|part|, 8) + part + rest
  {
    Associate(front, Le(|part|, 8), part + rest);
    Associate(front + Le(|part|, 8), part, rest);
  }

  lemma HeadOfFrame(a: Text, b: Text, s: seq<byte>, t: seq<byte>)
    requires Le(|a|, 8) + (a + s) == Le(|b|, 8) + (b + t)
    ensures a == b && s == t
  {
    SplitEqual(Le(|a|, 8), a + s, Le(|b|, 8), b + t);
    SameLength(|a|, |b|);
    SplitEqual(a, s, b, t);
  }

  lemma SameLength(m: Arithmetic.u64, n: Arithmetic.u64)
    requires Le(m, 8) == Le(n, 8)
    ensures m == n
  {
    assert Le64(m) == Le64(n);
    Le64Injective(m, n);
  }

  /** The framing loses nothing: not the parts, their order, nor where one ends. */
  lemma {:induction false} FrameInjective(ps: seq<Text>, qs: seq<Text>)
    requires Frame(ps) == Frame(qs)
    ensures ps == qs
  {
    if ps != [] && qs != [] {
      HeadOfFrame(ps[0], qs[0], Frame(ps[1..]), Frame(qs[1..]));
      FrameInjective(ps[1..], qs[1..]);
      assert ps == [ps[0]] + ps[1..] && qs == [qs[0]] + qs[1..];
    } else {
      assert |Frame(ps)| == 0 <==> ps == [];
      assert |Frame(qs)| == 0 <==> qs == [];
    }
  }

  function FromParts(h: Mixer, parts: seq<Text>): Digest {
    h(Frame(parts))
  }

  ghost predicate Collision(h: Mixer, x: seq<byte>, y: seq<byte>) {
    x != y && h(x) == h(y)
  }

  lemma PartsOrCollision(h: Mixer, ps: seq<Text>, qs: seq<Text>)
    requires FromParts(h, ps) == FromParts(h, qs)
    ensures ps == qs || Collision(h, Frame(ps), Frame(qs))
  {
    if Frame(ps) == Frame(qs) {
      FrameInjective(ps, qs);
    }
  }


  /** Frames join, and one part's frame is its length in eight bytes, low byte first, and the part. */
  lemma {:induction false} FrameJoins(a: seq<Text>, b: seq<Text>)
    ensures Frame(a + b) == Frame(a) + Frame(b)
  {
    if a == [] {
      assert a + b == b && [] + Frame(b) == Frame(b);
    } else {
      assert (a + b)[0] == a[0] && (a + b)[1..] == a[1..] + b;
      FrameJoins(a[1..], b);
      FrameGrows(Le(|a[0]|, 8), a[0], []);
      Associate(Le(|a[0]|, 8), a[0], Frame(a[1..]) + Frame(b));
      Associate(Le(|a[0]|, 8) + a[0], Frame(a[1..]), Frame(b));
      Associate(Le(|a[0]|, 8), a[0], Frame(a[1..]));
      Associate(a[0], Frame(a[1..]), Frame(b));
    }
  }

  lemma FrameOfOne(part: Text)
    ensures Frame([part]) == Le(|part|, 8) + part && Frame([]) == []
  {
    assert [part][1..] == [] && part + [] == part;
  }
}
