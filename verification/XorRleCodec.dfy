/** The lossless control codec: XOR delta of adjacent bytes, then zero and literal runs. */
module XorRleCodec {
  import opened Wrappers
  import Arithmetic
  import opened Bytes
  import BitOps

  const MAX_RUN: nat := 65535

  datatype CodecError = InvalidPayload

  function XorByte(a: byte, b: byte): (r: byte)
  {
    assert Arithmetic.Pow2(8) == 256 by { Arithmetic.Pow2Of64(); }
    BitOps.XorBounded(a, b, 8);
    BitOps.Xor(a, b)
  }

  // ---- delta ------------------------------------------------------------------

  function Last(s: seq<byte>): byte {
    if s == [] then 0 else s[|s| - 1]
  }

  function Delta(source: seq<byte>): (r: seq<byte>)
    ensures |r| == |source|
  {
    if source == [] then []
    else
      var front := source[..|source| - 1];
      Delta(front) + [XorByte(source[|source| - 1], Last(front))]
  }

  function Undelta(delta: seq<byte>): (r: seq<byte>)
    ensures |r| == |delta|
  {
    if delta == [] then []
    else
      var front := Undelta(delta[..|delta| - 1]);
      front + [XorByte(delta[|delta| - 1], Last(front))]
  }

  lemma {:induction false} UndeltaDelta(source: seq<byte>)
    ensures Undelta(Delta(source)) == source
  {
    if source != [] {
      var n := |source| - 1;
      var front := source[..n];
      UndeltaDelta(front);
      assert Delta(source)[..n] == Delta(front);
      BitOps.XorCancels(source[n], Last(front));
      assert source == front + [source[n]];
    }
  }

  method DeltaEncode(source: seq<byte>) returns (delta: seq<byte>)
    ensures delta == Delta(source)
  {
    delta := [];
    var previous: byte := 0;
    for i := 0 to |source|
      invariant delta == Delta(source[..i]) && previous == Last(source[..i])
    {
      assert source[..i + 1][..i] == source[..i];
      delta := delta + [XorByte(source[i], previous)];
      previous := source[i];
    }
    assert source[..|source|] == source;
  }

  method DeltaDecode(delta: seq<byte>) returns (source: seq<byte>)
    ensures source == Undelta(delta)
  {
    source := [];
    var previous: byte := 0;
    for i := 0 to |delta|
      invariant source == Undelta(delta[..i]) && previous == Last(source)
    {
      assert delta[..i + 1][..i] == delta[..i];
      var value := XorByte(delta[i], previous);
      source := source + [value];
      previous := value;
    }
    assert delta[..|delta|] == delta;
  }

  // ---- run records --------------------------------------------------------------

  datatype Record = Zeros(count: nat) | Literal(bytes: seq<byte>) {
    function Length(): nat {
      if Zeros? then count else |bytes|
    }
  }

  function Expanded(r: Record): seq<byte> {
    if r.Zeros? then ZeroBytes(r.count) else r.bytes
  }

  function ExpandAll(records: seq<Record>): seq<byte> {
    if records == [] then [] else Expanded(records[0]) + ExpandAll(records[1..])
  }

  /** Two bytes, low byte first. */
  function Le16(n: nat): seq<byte>
    requires n <= MAX_RUN
  {
    [n % 256, n / 256]
  }

  function FromLe16(low: byte, high: byte): nat {
    (low as int) + 256 * (high as int)
  }

  lemma Le16Reads(n: nat)
    requires n <= MAX_RUN
    ensures FromLe16(Le16(n)[0], Le16(n)[1]) == n
  {
  }

  function Written(r: Record): seq<byte>
    requires r.Length() <= MAX_RUN
  {
    if r.Zeros? then [0] + Le16(r.count) else [1] + Le16(|r.bytes|) + r.bytes
  }

  ghost predicate Writable(records: seq<Record>) {
    forall i :: 0 <= i < |records| ==> records[i].Length() <= MAX_RUN
  }

  function WriteAll(records: seq<Record>): seq<byte>
    requires Writable(records)
  {
    if records == [] then [] else Written(records[0]) + WriteAll(records[1..])
  }

  // ---- which records the encoder writes --------------------------------------------

  function ZeroEnd(b: seq<byte>, start: nat, i: nat): (e: nat)
    requires start <= i <= |b| && i - start <= MAX_RUN
    ensures i <= e <= |b| && e - start <= MAX_RUN
    decreases |b| - i
  {
    if i < |b| && b[i] == 0 && i - start < MAX_RUN then ZeroEnd(b, start, i + 1) else i
  }

  /** A literal goes on over isolated zeros, but stops before two in a row. */
  predicate LiteralGoesOn(b: seq<byte>, i: nat) {
    i < |b| && (b[i] != 0 || i + 1 >= |b| || b[i + 1] != 0)
  }

  function LiteralEnd(b: seq<byte>, start: nat, i: nat): (e: nat)
    requires start <= i <= |b| && i - start <= MAX_RUN
    ensures i <= e <= |b| && e - start <= MAX_RUN
    decreases |b| - i
  {
    if LiteralGoesOn(b, i) && i - start < MAX_RUN then LiteralEnd(b, start, i + 1) else i
  }

  function RecordAt(b: seq<byte>, i: nat): (r: Record)
    requires i < |b|
    ensures 1 <= r.Length() <= MAX_RUN && i + r.Length() <= |b|
  {
    if b[i] == 0 then
      assert ZeroEnd(b, i, i) == ZeroEnd(b, i, i + 1);
      Zeros(ZeroEnd(b, i, i) - i)
    else
      assert LiteralEnd(b, i, i) == LiteralEnd(b, i, i + 1);
      Literal(b[i..LiteralEnd(b, i, i)])
  }

  function RecordsFrom(b: seq<byte>, i: nat): (r: seq<Record>)
    requires i <= |b|
    ensures Writable(r)
    decreases |b| - i
  {
    if i == |b| then [] else [RecordAt(b, i)] + RecordsFrom(b, i + RecordAt(b, i).Length())
  }

  lemma {:induction false} ZeroEndIsZero(b: seq<byte>, start: nat, i: nat)
    requires start <= i <= |b| && i - start <= MAX_RUN
    ensures forall k :: i <= k < ZeroEnd(b, start, i) ==> b[k] == 0
    ensures var e := ZeroEnd(b, start, i); e < |b| && b[e] == 0 ==> e - start == MAX_RUN
    decreases |b| - i
  {
    if i < |b| && b[i] == 0 && i - start < MAX_RUN {
      ZeroEndIsZero(b, start, i + 1);
    }
  }

  lemma {:induction false} LiteralHasNoZeroPair(b: seq<byte>, start: nat, i: nat)
    requires start <= i <= |b| && i - start <= MAX_RUN
    ensures forall k :: i <= k < LiteralEnd(b, start, i) && k + 1 < |b| ==> b[k] != 0 || b[k + 1] != 0
    ensures var e := LiteralEnd(b, start, i);
            e < |b| && e - start < MAX_RUN ==> e + 1 < |b| && b[e] == 0 && b[e + 1] == 0
    decreases |b| - i
  {
    if LiteralGoesOn(b, i) && i - start < MAX_RUN {
      LiteralHasNoZeroPair(b, start, i + 1);
    }
  }

  /** A zero record is a longest run, and a literal holds no two adjacent zeros. */
  ghost predicate WellChosen(b: seq<byte>, i: nat, r: Record)
    requires i + r.Length() <= |b|
  {
    var e := i + r.Length();
    match r
    case Zeros(n) => e < |b| && b[e] == 0 ==> n == MAX_RUN
    case Literal(bytes) =>
      && bytes != [] && bytes[0] != 0
      && (forall k :: 0 <= k < |bytes| - 1 ==> bytes[k] != 0 || bytes[k + 1] != 0)
      && (e < |b| && |bytes| < MAX_RUN ==> e + 1 < |b| && b[e] == 0 && b[e + 1] == 0)
  }

  lemma RecordIsWellChosen(b: seq<byte>, i: nat)
    requires i < |b|
    ensures WellChosen(b, i, RecordAt(b, i)) && Expanded(RecordAt(b, i)) == b[i..i + RecordAt(b, i).Length()]
  {
    ZeroEndIsZero(b, i, i);
    LiteralHasNoZeroPair(b, i, i);
  }

  /** The records cover b from offset i to its end, each of length 1..65535 and well chosen. */
  ghost predicate AllWellChosen(b: seq<byte>, i: nat, records: seq<Record>)
    requires i <= |b|
    decreases |records|
  {
    if records == [] then i == |b|
    else
      var j := i + records[0].Length();
      && 1 <= records[0].Length() <= MAX_RUN && j <= |b|
      && WellChosen(b, i, records[0])
      && Expanded(records[0]) == b[i..j]
      && AllWellChosen(b, j, records[1..])
  }

  lemma {:induction false} RecordsAreWellChosen(b: seq<byte>, i: nat)
    requires i <= |b|
    ensures AllWellChosen(b, i, RecordsFrom(b, i))
    decreases |b| - i
  {
    if i < |b| {
      RecordIsWellChosen(b, i);
      hide WellChosen, RecordAt, Expanded;
      var records := RecordsFrom(b, i);
      assert records[1..] == RecordsFrom(b, i + RecordAt(b, i).Length());
      RecordsAreWellChosen(b, i + RecordAt(b, i).Length());
    }
  }

  lemma {:induction false} WellChosenExpand(b: seq<byte>, i: nat, records: seq<Record>)
    requires i <= |b| && AllWellChosen(b, i, records)
    ensures ExpandAll(records) == b[i..]
    decreases |records|
  {
    hide WellChosen, Expanded;
    if records != [] {
      var j := i + records[0].Length();
      WellChosenExpand(b, j, records[1..]);
      assert b[i..] == b[i..j] + b[j..];
    }
  }

  // ---- reading records back -----------------------------------------------------------

  /** The decoder from offset i: None for a truncated record or an unknown tag. */
  function ReadFrom(c: seq<byte>, i: nat): Option<seq<byte>>
    requires i <= |c|
    decreases |c| - i
  {
    if i == |c| then Some([])
    else if i + 3 > |c| then None
    else
      var length := FromLe16(c[i + 1], c[i + 2]);
      if c[i] == 0 then Before(ZeroBytes(length), ReadFrom(c, i + 3))
      else if c[i] == 1 then
        if i + 3 + length > |c| then None else Before(c[i + 3..i + 3 + length], ReadFrom(c, i + 3 + length))
      else None
  }

  function Before(s: seq<byte>, rest: Option<seq<byte>>): Option<seq<byte>> {
    match rest
    case None => None
    case Some(t) => Some(s + t)
  }

  /** The record that stands at offset i, if its bytes are all there. */
  lemma ReadOne(c: seq<byte>, i: nat, r: Record)
    requires r.Length() <= MAX_RUN && i + |Written(r)| <= |c| && c[i..i + |Written(r)|] == Written(r)
    ensures ReadFrom(c, i) == Before(Expanded(r), ReadFrom(c, i + |Written(r)|))
  {
    var w := Written(r);
    assert c[i] == w[0] && c[i + 1] == w[1] && c[i + 2] == w[2] by {
      assert c[i..i + |w|][0] == c[i] && c[i..i + |w|][1] == c[i + 1] && c[i..i + |w|][2] == c[i + 2];
    }
    Le16Reads(r.Length());
    if r.Literal? {
      assert c[i + 3..i + |w|] == c[i..i + |w|][3..] == w[3..] == r.bytes;
    }
  }

  /** Every list of writable records reads back as its expansion. */
  lemma {:induction false} ReadWritten(c: seq<byte>, i: nat, records: seq<Record>)
    requires i <= |c| && Writable(records) && c[i..] == WriteAll(records)
    ensures ReadFrom(c, i) == Some(ExpandAll(records))
    decreases |records|
  {
    if records != [] {
      var r, rest := records[0], records[1..];
      SuffixSplit(c, i, Written(r), WriteAll(rest));
      ReadOne(c, i, r);
      hide ReadFrom, Written, Expanded;
      ReadWritten(c, i + |Written(r)|, rest);
    } else {
      assert |c[i..]| == 0;
    }
  }

  /** The record a successful read starts with. */
  lemma RecordRead(c: seq<byte>, i: nat) returns (r: Record)
    requires i < |c| && ReadFrom(c, i).Some?
    ensures r.Length() <= MAX_RUN && i + |Written(r)| <= |c| && c[i..i + |Written(r)|] == Written(r)
  {
    var length := FromLe16(c[i + 1], c[i + 2]);
    Le16OfBytes(c[i + 1], c[i + 2]);
    hide Le16, FromLe16;
    if c[i] == 0 {
      r := Zeros(length);
      assert c[i..i + 3] == [c[i], c[i + 1], c[i + 2]];
    } else {
      var body := c[i + 3..i + 3 + length];
      r := Literal(body);
      assert c[i..i + 3 + length] == [c[i], c[i + 1], c[i + 2]] + body;
    }
  }

  lemma Le16OfBytes(low: byte, high: byte)
    ensures FromLe16(low, high) <= MAX_RUN && Le16(FromLe16(low, high)) == [low, high]
  {
  }

  /** And the decoder accepts nothing else: what it reads is a list of records. */
  lemma {:induction false} ReadIsWritten(c: seq<byte>, i: nat) returns (records: seq<Record>)
    requires i <= |c| && ReadFrom(c, i).Some?
    ensures Writable(records) && c[i..] == WriteAll(records) && ReadFrom(c, i) == Some(ExpandAll(records))
    decreases |c| - i
  {
    if i == |c| {
      records := [];
    } else {
      var r := RecordRead(c, i);
      ReadOne(c, i, r);
      hide ReadFrom;
      var rest := ReadIsWritten(c, i + |Written(r)|);
      WriteOneMore(c, i, r, rest);
      records := [r] + rest;
    }
  }

  lemma WriteOneMore(c: seq<byte>, i: nat, r: Record, rest: seq<Record>)
    requires r.Length() <= MAX_RUN && Writable(rest)
    requires i + |Written(r)| <= |c| && c[i..i + |Written(r)|] == Written(r) && c[i + |Written(r)|..] == WriteAll(rest)
    ensures Writable([r] + rest) && c[i..] == WriteAll([r] + rest)
            && ExpandAll([r] + rest) == Expanded(r) + ExpandAll(rest)
  {
    hide Written, Expanded;
    var j := i + |Written(r)|;
    assert c[i..] == c[i..j] + c[j..];
    assert ([r] + rest)[1..] == rest;
  }

  /** The decoder succeeds exactly on byte strings that are written records. */
  lemma DecodesExactlyRecords(c: seq<byte>, x: seq<byte>)
    ensures ReadFrom(c, 0) == Some(x)
            <==> exists records :: Writable(records) && c == WriteAll(records) && x == ExpandAll(records)
  {
    assert c[0..] == c;
    if ReadFrom(c, 0) == Some(x) {
      var records := ReadIsWritten(c, 0);
      assert Writable(records) && c == WriteAll(records) && x == ExpandAll(records);
    }
    if records :| Writable(records) && c == WriteAll(records) && x == ExpandAll(records) {
      ReadWritten(c, 0, records);
    }
  }

  // ---- the two loops --------------------------------------------------------------------

  /** One round of the encoder loop: the record at `start`, and where the next one begins. */
  method RleRecord(b: seq<byte>, start: nat) returns (next: nat, written: seq<byte>)
    requires start < |b|
    ensures next == start + RecordAt(b, start).Length() && written == Written(RecordAt(b, start))
  {
    hide Le16, LiteralGoesOn;
    var index: int := start;
    if b[index] == 0 {
      while index < |b| && b[index] == 0 && index - start < MAX_RUN
        invariant start <= index <= |b| && index - start <= MAX_RUN
        invariant ZeroEnd(b, start, index) == ZeroEnd(b, start, start)
        decreases |b| - index
      {
        index := index + 1;
      }
      written := [0] + Le16(index - start);
    } else {
      while LiteralGoesOn(b, index) && index - start < MAX_RUN
        invariant start <= index <= |b| && index - start <= MAX_RUN
        invariant LiteralEnd(b, start, index) == LiteralEnd(b, start, start)
        decreases |b| - index
      {
        index := index + 1;
      }
      if index == start {
        index := index + 1;
      }
      written := [1] + Le16(index - start) + b[start..index];
    }
    next := index;
  }

  method RleEncode(b: seq<byte>) returns (result: seq<byte>)
    ensures result == WriteAll(RecordsFrom(b, 0))
  {
    hide RecordAt, Written;
    result := [];
    var index := 0;
    while index < |b|
      invariant 0 <= index <= |b|
      invariant result + WriteAll(RecordsFrom(b, index)) == WriteAll(RecordsFrom(b, 0))
      decreases |b| - index
    {
      WriteStep(b, index);
      ghost var before := result;
      var next, written := RleRecord(b, index);
      result := result + written;
      assert before + (written + WriteAll(RecordsFrom(b, next))) == result + WriteAll(RecordsFrom(b, next));
      index := next;
    }
  }

  lemma WriteStep(b: seq<byte>, i: nat)
    requires i < |b|
    ensures WriteAll(RecordsFrom(b, i))
            == Written(RecordAt(b, i)) + WriteAll(RecordsFrom(b, i + RecordAt(b, i).Length()))
  {
    hide RecordAt, Written;
    var records := RecordsFrom(b, i);
    assert records[1..] == RecordsFrom(b, i + RecordAt(b, i).Length());
  }

  method RleDecode(c: seq<byte>) returns (r: Result<seq<byte>, CodecError>)
    ensures r == match ReadFrom(c, 0) case Some(x) => Ok(x) case None => Err(InvalidPayload)
  {
    var result: seq<byte> := [];
    var index := 0;
    BeforeNothing(ReadFrom(c, 0));
    while index < |c|
      invariant 0 <= index <= |c|
      invariant ReadFrom(c, 0) == Before(result, ReadFrom(c, index))
      decreases |c| - index
    {
      if index + 3 > |c| {
        return Err(InvalidPayload);
      }
      var tag, length := c[index], FromLe16(c[index + 1], c[index + 2]);
      ghost var rest := ReadFrom(c, index);
      index := index + 3;
      if tag == 0 {
        BeforeTwice(result, ZeroBytes(length), ReadFrom(c, index));
        result := result + ZeroBytes(length);
      } else if tag == 1 {
        if index + length > |c| {
          return Err(InvalidPayload);
        }
        BeforeTwice(result, c[index..index + length], ReadFrom(c, index + length));
        result := result + c[index..index + length];
        index := index + length;
      } else {
        return Err(InvalidPayload);
      }
    }
    r := Ok(result);
    assert result + [] == result;
  }

  lemma BeforeNothing(rest: Option<seq<byte>>)
    ensures Before([], rest) == rest
  {
    if rest.Some? {
      assert [] + rest.value == rest.value;
    }
  }

  lemma BeforeTwice(a: seq<byte>, b: seq<byte>, rest: Option<seq<byte>>)
    ensures Before(a, Before(b, rest)) == Before(a + b, rest)
  {
    if rest.Some? {
      assert a + (b + rest.value) == a + b + rest.value;
    }
  }

  // ---- the codec --------------------------------------------------------------------------

  datatype Payload = Payload(
    codecId: string, version: string, bytes: seq<byte>, sourceBytes: nat, metadataBytes: nat, dictionaryBytes: nat,
    scratchBytes: nat
  )

  const CODEC_ID: string := "lossless_q8_xor_rle"
  const VERSION: string := "v1"

  function Decoded(p: Payload): Result<seq<byte>, CodecError> {
    if p.codecId != CODEC_ID || p.version != VERSION then Err(InvalidPayload)
    else
      match ReadFrom(p.bytes, 0)
      case None => Err(InvalidPayload)
      case Some(delta) => if |delta| != p.sourceBytes then Err(InvalidPayload) else Ok(Undelta(delta))
  }

  /** Encoding never fails, and decoding gives the source back, for every byte string. */
  method Encode(source: seq<byte>) returns (p: Payload)
    ensures p == Payload(CODEC_ID, VERSION, WriteAll(RecordsFrom(Delta(source), 0)), |source|, 0, 0, |source|)
    ensures Decoded(p) == Ok(source)
  {
    var delta := DeltaEncode(source);
    var bytes := RleEncode(delta);
    p := Payload(CODEC_ID, VERSION, bytes, |source|, 0, 0, |source|);
    DecodesEncoded(source);
  }

  method Decode(p: Payload) returns (r: Result<seq<byte>, CodecError>)
    ensures r == Decoded(p)
  {
    if p.codecId != CODEC_ID || p.version != VERSION {
      return Err(InvalidPayload);
    }
    var delta := RleDecode(p.bytes);
    if delta.Err? {
      return Err(InvalidPayload);
    }
    var source := DeltaDecode(delta.value);
    if |source| != p.sourceBytes {
      return Err(InvalidPayload);
    }
    r := Ok(source);
  }

  lemma DecodesEncoded(source: seq<byte>)
    ensures ReadFrom(WriteAll(RecordsFrom(Delta(source), 0)), 0) == Some(Delta(source))
    ensures Undelta(Delta(source)) == source
  {
    var delta := Delta(source);
    var records := RecordsFrom(delta, 0);
    RecordsAreWellChosen(delta, 0);
    WellChosenExpand(delta, 0, records);
    hide ReadFrom, RecordsFrom;
    var c := WriteAll(records);
    assert c[0..] == c && delta[0..] == delta;
    ReadWritten(c, 0, records);
    UndeltaDelta(source);
  }


  // ---- the bytes themselves ----------------------------------------------------------------

  /** Each byte of the delta is the source's, exclusive or with the one before it, or with zero. */
  lemma {:induction false} DeltaAt(source: seq<byte>, k: nat)
    requires k < |source|
    ensures Delta(source)[k] == BitOps.Xor(source[k], if k == 0 then 0 else source[k - 1])
  {
    var n := |source| - 1;
    if k < n {
      DeltaAt(source[..n], k);
    }
  }

  /** A record: its tag, its length in two bytes with the low one first, and the bytes of a literal. */
  lemma WrittenIs(r: Record)
    requires r.Length() <= MAX_RUN
    ensures var w := Written(r);
            && |w| >= 3 && w[0] == (if r.Zeros? then 0 else 1)
            && (w[1] as int) + 256 * (w[2] as int) == r.Length()
            && w[3..] == if r.Zeros? then [] else r.bytes
  {
  }
}
