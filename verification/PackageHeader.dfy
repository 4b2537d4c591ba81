/** The 128-byte package header. */
module PackageHeader {
  import opened Wrappers
  import opened Arithmetic
  import opened Bytes
  import opened LittleEndian

  const ALIGNMENT: u64 := 4096
  const HEADER_BYTES: u64 := 128

  /** `HARPKG01` */
  const MAGIC: seq<byte> := [72, 65, 82, 80, 75, 71, 48, 49]

  /** A SHA-256 digest; its hexadecimal text is identified with it. */
  type Sha = d: seq<byte> | |d| == 32 witness ZeroBytes(32)

  datatype Header = Header(
    manifestOffset: u64,
    manifestBytes: u64,
    payloadOffset: u64,
    payloadBytes: u64,
    manifestSha: Sha,
    packageRootSha: Sha)

  datatype HeaderError = InvalidMagic | UnsupportedVersion

  /** The fixed part, and four reserved bytes. */
  function Preamble(reserved: seq<byte>): (r: seq<byte>)
    requires |reserved| == 4
    ensures |r| == 24
  {
    MAGIC + Le32(1) + Le32(HEADER_BYTES) + Le32(ALIGNMENT) + reserved
  }

  function Ranges(h: Header): (r: seq<byte>)
    ensures |r| == 32
  {
    Le64(h.manifestOffset) + Le64(h.manifestBytes) + Le64(h.payloadOffset) + Le64(h.payloadBytes)
  }

  /** A header with given reserved bytes: the writer leaves both reserved fields zero. */
  function Laid(h: Header, reserved: seq<byte>, tail: seq<byte>): (r: seq<byte>)
    requires |reserved| == 4 && |tail| == 8
    ensures |r| == HEADER_BYTES
  {
    Preamble(reserved) + Ranges(h) + h.manifestSha + h.packageRootSha + tail
  }

  function HeaderBytes(h: Header): (r: seq<byte>)
    ensures |r| == HEADER_BYTES
  {
    Laid(h, ZeroBytes(4), ZeroBytes(8))
  }

  /** A buffer filled from the front, zero behind. */
  ghost predicate FilledTo(a: array<byte>, done: seq<byte>)
    reads a
  {
    |done| <= a.Length && a[..] == done + ZeroBytes(a.Length - |done|)
  }

  /** Copies a slice to where the filled part ends. */
  method CopyNext(a: array<byte>, start: nat, source: seq<byte>, ghost done: seq<byte>)
    requires start == |done| && start + |source| <= a.Length && FilledTo(a, done)
    modifies a
    ensures FilledTo(a, done + source)
  {
    for i := 0 to |source|
      invariant FilledTo(a, done + source[..i])
    {
      a[start + i] := source[i];
      assert source[..i + 1] == source[..i] + [source[i]];
    }
    assert source[..|source|] == source;
  }

  /** Field by field into a zeroed buffer. */
  method Encode(h: Header) returns (r: seq<byte>)
    ensures r == HeaderBytes(h)
  {
    hide FilledTo, Le32, Le64;
    var bytes := new byte[HEADER_BYTES](_ => 0);
    StartsEmpty(bytes);
    ghost var done: seq<byte> := MAGIC;
    assert [] + MAGIC == done;
    CopyNext(bytes, 0, MAGIC, []);
    CopyNext(bytes, 8, Le32(1), done);
    done := done + Le32(1);
    CopyNext(bytes, 12, Le32(HEADER_BYTES), done);
    done := done + Le32(HEADER_BYTES);
    CopyNext(bytes, 16, Le32(ALIGNMENT), done);
    done := done + Le32(ALIGNMENT);
    SkipsZeros(bytes, done, 4);
    done := done + ZeroBytes(4);
    ghost var preamble := done;
    CopyNext(bytes, 24, Le64(h.manifestOffset), done);
    done := done + Le64(h.manifestOffset);
    CopyNext(bytes, 32, Le64(h.manifestBytes), done);
    done := done + Le64(h.manifestBytes);
    CopyNext(bytes, 40, Le64(h.payloadOffset), done);
    done := done + Le64(h.payloadOffset);
    CopyNext(bytes, 48, Le64(h.payloadBytes), done);
    done := done + Le64(h.payloadBytes);
    RangesJoined(preamble, h);
    CopyNext(bytes, 56, h.manifestSha, done);
    done := done + h.manifestSha;
    CopyNext(bytes, 88, h.packageRootSha, done);
    done := done + h.packageRootSha;
    SkipsZeros(bytes, done, 8);
    r := bytes[..];
    WhollyFilled(bytes, done + ZeroBytes(8));
  }

  lemma RangesJoined(preamble: seq<byte>, h: Header)
    ensures preamble + Le64(h.manifestOffset) + Le64(h.manifestBytes) + Le64(h.payloadOffset)
            + Le64(h.payloadBytes) == preamble + Ranges(h)
  {
    hide Le64;
  }

  lemma StartsEmpty(a: array<byte>)
    requires forall i :: 0 <= i < a.Length ==> a[i] == 0
    ensures FilledTo(a, [])
  {
  }

  lemma SkipsZeros(a: array<byte>, done: seq<byte>, n: nat)
    requires FilledTo(a, done) && |done| + n <= a.Length
    ensures FilledTo(a, done + ZeroBytes(n))
  {
  }

  lemma WhollyFilled(a: array<byte>, done: seq<byte>)
    requires FilledTo(a, done) && |done| == a.Length
    ensures a[..] == done
  {
  }

  function U32At(b: seq<byte>, i: nat): nat
    requires i + 4 <= |b|
  {
    FromLe(b[i..i + 4])
  }

  function U64At(b: seq<byte>, i: nat): (r: u64)
    requires i + 8 <= |b|
  {
    Pow2Of64();
    LeOfFromLe(b[i..i + 8]);
    FromLe(b[i..i + 8])
  }

  function Decode(b: seq<byte>): Result<Header, HeaderError> {
    if |b| < HEADER_BYTES || b[..8] != MAGIC then Err(InvalidMagic)
    else if U32At(b, 8) != 1 || U32At(b, 12) != HEADER_BYTES || U32At(b, 16) != ALIGNMENT then Err(UnsupportedVersion)
    else Ok(Header(U64At(b, 24), U64At(b, 32), U64At(b, 40), U64At(b, 48), b[56..88], b[88..120]))
  }

  lemma SlicesOfPreamble(reserved: seq<byte>, rest: seq<byte>)
    requires |reserved| == 4
    ensures var b := Preamble(reserved) + rest;
            b[..8] == MAGIC && b[8..12] == Le32(1) && b[12..16] == Le32(HEADER_BYTES) && b[16..20] == Le32(ALIGNMENT)
  {
    hide Le32;
  }

  lemma SlicesOfLaid(h: Header, reserved: seq<byte>, tail: seq<byte>)
    requires |reserved| == 4 && |tail| == 8
    ensures var b := Laid(h, reserved, tail);
            && b == Preamble(reserved) + (Ranges(h) + h.manifestSha + h.packageRootSha + tail)
            && b[24..56] == Ranges(h) && b[56..88] == h.manifestSha && b[88..120] == h.packageRootSha
  {
    hide Preamble, Ranges;
  }

  lemma SlicesOfRanges(h: Header, b: seq<byte>)
    requires |b| == HEADER_BYTES && b[24..56] == Ranges(h)
    ensures b[24..32] == Le64(h.manifestOffset) && b[32..40] == Le64(h.manifestBytes)
    ensures b[40..48] == Le64(h.payloadOffset) && b[48..56] == Le64(h.payloadBytes)
  {
    hide Le64;
    var r := Ranges(h);
    assert b[24..32] == r[..8] && b[32..40] == r[8..16] && b[40..48] == r[16..24] && b[48..56] == r[24..32];
  }

  /** Decoding gives back the header whatever stands in the reserved bytes. */
  lemma DecodeOfLaid(h: Header, reserved: seq<byte>, tail: seq<byte>)
    requires |reserved| == 4 && |tail| == 8
    ensures Decode(Laid(h, reserved, tail)) == Ok(h)
  {
    var b := Laid(h, reserved, tail);
    SlicesOfLaid(h, reserved, tail);
    SlicesOfPreamble(reserved, Ranges(h) + h.manifestSha + h.packageRootSha + tail);
    SlicesOfRanges(h, b);
    hide Laid, Preamble, Ranges, Le32, Le64, FromLe;
    Le32Reads(1);
    Le32Reads(HEADER_BYTES);
    Le32Reads(ALIGNMENT);
    Le64Reads(h.manifestOffset);
    Le64Reads(h.manifestBytes);
    Le64Reads(h.payloadOffset);
    Le64Reads(h.payloadBytes);
  }

  lemma Le32OfU32At(b: seq<byte>, i: nat, n: u32)
    requires i + 4 <= |b| && U32At(b, i) == n
    ensures b[i..i + 4] == Le32(n)
  {
    LeOfFromLe(b[i..i + 4]);
  }

  lemma Le64OfU64At(b: seq<byte>, i: nat)
    requires i + 8 <= |b|
    ensures b[i..i + 8] == Le64(U64At(b, i))
  {
    LeOfFromLe(b[i..i + 8]);
  }

  lemma JoinSlices(b: seq<byte>)
    requires |b| == HEADER_BYTES
    ensures b == b[..24] + b[24..56] + b[56..88] + b[88..120] + b[120..]
    ensures b[..24] == b[..8] + b[8..12] + b[12..16] + b[16..20] + b[20..24]
    ensures b[24..56] == b[24..32] + b[32..40] + b[40..48] + b[48..56]
  {
  }

  /** Decoding succeeds exactly on laid-out headers: encode and decode are inverse off the reserved bytes. */
  lemma DecodesExactlyLaid(b: seq<byte>, h: Header)
    requires |b| == HEADER_BYTES
    ensures Decode(b) == Ok(h) <==> b == Laid(h, b[20..24], b[120..])
  {
    if Decode(b) == Ok(h) {
      JoinSlices(b);
      Le32OfU32At(b, 8, 1);
      Le32OfU32At(b, 12, HEADER_BYTES);
      Le32OfU32At(b, 16, ALIGNMENT);
      hide U32At, Le32, Le64;
      Le64OfU64At(b, 24);
      Le64OfU64At(b, 32);
      Le64OfU64At(b, 40);
      Le64OfU64At(b, 48);
    }
    if b == Laid(h, b[20..24], b[120..]) {
      DecodeOfLaid(h, b[20..24], b[120..]);
    }
  }

  /** The fixed bytes of a header, and zeros where nothing stands. */
  lemma HeaderConstants(h: Header)
    ensures var b := HeaderBytes(h);
            && (forall i :: 0 <= i < 8 ==> b[i] == "HARPKG01"[i] as int)
            && b[20..24] == [0, 0, 0, 0] && b[120..128] == [0, 0, 0, 0, 0, 0, 0, 0]
  {
    var b, rest := HeaderBytes(h), Ranges(h) + h.manifestSha + h.packageRootSha + ZeroBytes(8);
    SlicesOfLaid(h, ZeroBytes(4), ZeroBytes(8));
    SlicesOfPreamble(ZeroBytes(4), rest);
    forall i | 0 <= i < 8 ensures b[i] == "HARPKG01"[i] as int {
      assert b[i] == b[..8][i] == MAGIC[i];
    }
    hide Le32, Le64;
    ReservedIsZero(h);
  }

  lemma ReservedIsZero(h: Header)
    ensures HeaderBytes(h)[20..24] == ZeroBytes(4) && HeaderBytes(h)[120..128] == ZeroBytes(8)
  {
    hide Le32, Le64, Ranges;
  }

  /** The numbers and digests of a header, little-endian, each at its place. */
  lemma HeaderLayout(h: Header)
    ensures var b := HeaderBytes(h);
            && FromLe(b[8..12]) == 1 && FromLe(b[12..16]) == 128 && FromLe(b[16..20]) == 4096
            && FromLe(b[24..32]) == h.manifestOffset && FromLe(b[32..40]) == h.manifestBytes
            && FromLe(b[40..48]) == h.payloadOffset && FromLe(b[48..56]) == h.payloadBytes
            && b[56..88] == h.manifestSha && b[88..120] == h.packageRootSha
  {
    SlicesOfLaid(h, ZeroBytes(4), ZeroBytes(8));
    SlicesOfPreamble(ZeroBytes(4), Ranges(h) + h.manifestSha + h.packageRootSha + ZeroBytes(8));
    SlicesOfRanges(h, HeaderBytes(h));
    hide Laid, Preamble, Ranges, Le32, Le64, FromLe;
    Le32Reads(1);
    Le32Reads(HEADER_BYTES);
    Le32Reads(ALIGNMENT);
    Le64Reads(h.manifestOffset);
    Le64Reads(h.manifestBytes);
    Le64Reads(h.payloadOffset);
    Le64Reads(h.payloadBytes);
  }

  /** A header is refused for its first eight bytes, or else for one of three numbers. */
  lemma DecodeAnswers(b: seq<byte>)
    ensures var known := |b| >= 128 && forall i :: 0 <= i < 8 ==> b[i] == "HARPKG01"[i] as int;
            && (Decode(b) == Err(InvalidMagic) <==> !known)
            && (Decode(b).Ok?
                <==> known && FromLe(b[8..12]) == 1 && FromLe(b[12..16]) == 128 && FromLe(b[16..20]) == 4096)
            && (Decode(b).Err? ==> Decode(b).error == InvalidMagic || Decode(b).error == UnsupportedVersion)
  {
    if |b| >= 128 {
      assert (forall i :: 0 <= i < 8 ==> b[i] == "HARPKG01"[i] as int) <==> b[..8] == MAGIC by {
        if forall i :: 0 <= i < 8 ==> b[i] == "HARPKG01"[i] as int {
          assert b[..8] == MAGIC;
        }
        if b[..8] == MAGIC {
          forall i | 0 <= i < 8 ensures b[i] == "HARPKG01"[i] as int {
            assert b[..8][i] == MAGIC[i];
          }
        }
      }
    }
    hide FromLe;
  }
}
