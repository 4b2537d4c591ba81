/** The identity of a token prefix, the node id made from it, and its causal closure. */
module Identity {
  import opened Arithmetic
  import Bytes
  import opened LittleEndian
  import opened Digests

  /** A token vector whose byte form fits in memory. */
  type Tokens = s: seq<u32> | 4 * |s| < TWO_64

  datatype PrefixIdentity = PrefixIdentity(
    modelRoot: Digest,
    tokenizerRoot: Digest,
    tokenSequence: Tokens,
    ropeConfigRoot: Digest,
    layerStart: u32,
    layerEnd: u32,
    headStart: u32,
    headEnd: u32,
    kvType: Text,
    codecVersion: Text,
    runtimeGeneration: u64,
    authorityStateRoot: Digest)

  datatype Closure = Closure(
    modelRoot: Digest,
    tokenizerRoot: Digest,
    tokenSequenceRoot: Digest,
    ropeConfigRoot: Digest,
    layerHeadRoot: Digest,
    kvType: Text,
    codecVersion: Text,
    runtimeGeneration: u64,
    graphGeneration: u64,
    decodeEpoch: u64,
    authorityStateRoot: Digest)

  function TokenBytes(tokens: seq<u32>): (r: seq<Bytes.byte>)
    ensures |r| == 4 * |tokens|
  {
    if tokens == [] then [] else Le32(tokens[0]) + TokenBytes(tokens[1..])
  }

  lemma {:induction false} TokenBytesInjective(a: seq<u32>, b: seq<u32>)
    requires TokenBytes(a) == TokenBytes(b)
    ensures a == b
  {
    if a != [] {
      Bytes.SplitEqual(Le32(a[0]), TokenBytes(a[1..]), Le32(b[0]), TokenBytes(b[1..]));
      Le32Injective(a[0], b[0]);
      TokenBytesInjective(a[1..], b[1..]);
      assert a == [a[0]] + a[1..] && b == [b[0]] + b[1..];
    }
  }

  /** The encoder loop: four bytes a token, then one digest. */
  method TokenSequenceRoot(h: Mixer, identity: PrefixIdentity) returns (root: Digest)
    ensures root == TokenRoot(h, identity.tokenSequence)
  {
    var encoded: seq<Bytes.byte>, tokens := [], identity.tokenSequence;
    for i := 0 to |tokens|
      invariant encoded + TokenBytes(tokens[i..]) == TokenBytes(tokens)
    {
      assert tokens[i..][0] == tokens[i] && tokens[i..][1..] == tokens[i + 1..];
      assert encoded + (Le32(tokens[i]) + TokenBytes(tokens[i + 1..]))
          == encoded + Le32(tokens[i]) + TokenBytes(tokens[i + 1..]);
      encoded := encoded + Le32(tokens[i]);
    }
    assert encoded == TokenBytes(tokens);
    root := FromParts(h, [encoded]);
  }

  function TokenRoot(h: Mixer, tokens: Tokens): Digest {
    FromParts(h, [TokenBytes(tokens)])
  }

  function LayerHeadParts(i: PrefixIdentity): seq<Text> {
    [Le32(i.layerStart), Le32(i.layerEnd), Le32(i.headStart), Le32(i.headEnd)]
  }

  function ClosureOf(h: Mixer, i: PrefixIdentity, graphGeneration: u64, decodeEpoch: u64): Closure {
    Closure(i.modelRoot, i.tokenizerRoot, TokenRoot(h, i.tokenSequence), i.ropeConfigRoot,
            FromParts(h, LayerHeadParts(i)),
            i.kvType, i.codecVersion, i.runtimeGeneration, graphGeneration, decodeEpoch, i.authorityStateRoot)
  }

  function NodeParts(i: PrefixIdentity, tokenRoot: Digest): seq<Text> {
    [i.modelRoot, i.tokenizerRoot, tokenRoot, i.ropeConfigRoot,
     Le32(i.layerStart), Le32(i.layerEnd), Le32(i.headStart), Le32(i.headEnd),
     i.kvType, i.codecVersion, Le64(i.runtimeGeneration), i.authorityStateRoot]
  }

  /** The node id, made from the closure's token root as the code makes it. */
  function NodeId(h: Mixer, i: PrefixIdentity, graphGeneration: u64): Digest {
    FromParts(h, NodeParts(i, ClosureOf(h, i, graphGeneration, 0).tokenSequenceRoot))
  }

  /** The two byte strings that collide when distinct identities share a node id. */
  ghost predicate IdentityCollision(h: Mixer, a: PrefixIdentity, b: PrefixIdentity) {
    || Collision(h, Frame(NodeParts(a, TokenRoot(h, a.tokenSequence))),
                 Frame(NodeParts(b, TokenRoot(h, b.tokenSequence))))
    || Collision(h, Frame([TokenBytes(a.tokenSequence)]), Frame([TokenBytes(b.tokenSequence)]))
  }

  lemma NodePartsInjective(a: PrefixIdentity, s: Digest, b: PrefixIdentity, t: Digest)
    requires NodeParts(a, s) == NodeParts(b, t)
    ensures s == t && a.(tokenSequence := []) == b.(tokenSequence := [])
  {
    var p, q := NodeParts(a, s), NodeParts(b, t);
    assert p[0] == q[0] && p[1] == q[1] && p[2] == q[2] && p[3] == q[3];
    assert p[4] == q[4] && p[5] == q[5] && p[6] == q[6] && p[7] == q[7];
    assert p[8] == q[8] && p[9] == q[9] && p[10] == q[10] && p[11] == q[11];
    hide NodeParts;
    Le32Injective(a.layerStart, b.layerStart);
    Le32Injective(a.layerEnd, b.layerEnd);
    Le32Injective(a.headStart, b.headStart);
    Le32Injective(a.headEnd, b.headEnd);
    Le64Injective(a.runtimeGeneration, b.runtimeGeneration);
  }

  lemma TokenRootOrCollision(h: Mixer, a: Tokens, b: Tokens)
    requires TokenRoot(h, a) == TokenRoot(h, b)
    ensures a == b || Collision(h, Frame([TokenBytes(a)]), Frame([TokenBytes(b)]))
  {
    var s: Text, t: Text := TokenBytes(a), TokenBytes(b);
    PartsOrCollision(h, [s], [t]);
    if [s] == [t] {
      assert [s][0] == [t][0];
      TokenBytesInjective(a, b);
    }
  }

  /** One node id belongs to one identity, whatever the two graph generations. */
  lemma SameIdSameIdentity(h: Mixer, a: PrefixIdentity, g: u64, b: PrefixIdentity, g': u64)
    requires NodeId(h, a, g) == NodeId(h, b, g')
    ensures a == b || IdentityCollision(h, a, b)
  {
    hide Frame, TokenBytes;
    var s, t := TokenRoot(h, a.tokenSequence), TokenRoot(h, b.tokenSequence);
    PartsOrCollision(h, NodeParts(a, s), NodeParts(b, t));
    if NodeParts(a, s) == NodeParts(b, t) {
      NodePartsInjective(a, s, b, t);
      TokenRootOrCollision(h, a.tokenSequence, b.tokenSequence);
      SameButTokens(a, b);
    }
  }

  lemma SameButTokens(a: PrefixIdentity, b: PrefixIdentity)
    requires a.(tokenSequence := []) == b.(tokenSequence := [])
    ensures a == b <==> a.tokenSequence == b.tokenSequence
  {
    var x, y := a.(tokenSequence := []), b.(tokenSequence := []);
    assert x.modelRoot == y.modelRoot && x.kvType == y.kvType;
  }

  // ---- the closure root ---------------------------------------------------------------

  function ClosureParts(c: Closure): seq<Text> {
    [c.modelRoot, c.tokenizerRoot, c.tokenSequenceRoot, c.ropeConfigRoot, c.layerHeadRoot, c.kvType, c.codecVersion,
     Le64(c.runtimeGeneration), Le64(c.graphGeneration), Le64(c.decodeEpoch), c.authorityStateRoot]
  }

  function ClosureRoot(h: Mixer, c: Closure): Digest {
    FromParts(h, ClosureParts(c))
  }

  lemma ClosurePartsInjective(a: Closure, b: Closure)
    requires ClosureParts(a) == ClosureParts(b)
    ensures a == b
  {
    var p, q := ClosureParts(a), ClosureParts(b);
    assert p[0] == q[0] && p[1] == q[1] && p[2] == q[2] && p[3] == q[3] && p[4] == q[4];
    assert p[5] == q[5] && p[6] == q[6] && p[7] == q[7] && p[8] == q[8] && p[9] == q[9] && p[10] == q[10];
    hide ClosureParts;
    Le64Injective(a.runtimeGeneration, b.runtimeGeneration);
    Le64Injective(a.graphGeneration, b.graphGeneration);
    Le64Injective(a.decodeEpoch, b.decodeEpoch);
  }

  /** Equal closure roots mean equal closures, every field of them. */
  lemma SameRootSameClosure(h: Mixer, a: Closure, b: Closure)
    requires ClosureRoot(h, a) == ClosureRoot(h, b)
    ensures a == b || Collision(h, Frame(ClosureParts(a)), Frame(ClosureParts(b)))
  {
    hide Frame;
    PartsOrCollision(h, ClosureParts(a), ClosureParts(b));
    if ClosureParts(a) == ClosureParts(b) {
      ClosurePartsInjective(a, b);
    }
  }


  /** The i-th four bytes are the i-th token's. */
  lemma {:induction false} TokenBytesAt(tokens: seq<u32>, i: nat)
    requires i < |tokens|
    ensures TokenBytes(tokens)[4 * i..4 * i + 4] == Le32(tokens[i])
  {
    var b := TokenBytes(tokens);
    if i > 0 {
      TokenBytesAt(tokens[1..], i - 1);
      assert b[4 * i..4 * i + 4] == b[4..][4 * (i - 1)..4 * (i - 1) + 4];
      assert b[4..] == TokenBytes(tokens[1..]);
    }
  }
}
