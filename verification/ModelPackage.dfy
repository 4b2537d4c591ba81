/** Writing a package with a self-consistent manifest offset, and verifying one. */
module ModelPackage {
  import opened Wrappers
  import opened Arithmetic
  import opened Bytes
  import opened PackageHeader
  import opened PackageLayout

  /** A manifest: its payload locations, its claims, and everything else as one body. */
  datatype Manifest = Manifest(body: Text, locations: seq<Place>, claims: map<Text, Text>)

  type Serializer = Manifest -> Option<seq<byte>>
  type Parser = seq<byte> -> Option<Manifest>

  /** What serializes parses back as the same manifest. */
  ghost predicate LeftInverse(parse: Parser, serialize: Serializer) {
    forall m: Manifest :: serialize(m).Some? ==> parse(serialize(m).value) == Some(m)
  }

  datatype PackageError =
    | Json
    | UnstableOffset
    | Truncated
    | BadHeader(header: HeaderError)
    | ManifestOverflow
    | PayloadOverflow
    | OutsideFile
    | ManifestChecksum
    | RootChecksum
    | InvalidRange(id: Text)
    | PayloadChecksum(id: Text)
    | SlicePanic

  /** `package_root_sha256` and `manifest_sha256` */
  const ROOT_CLAIM: Text := [112, 97, 99, 107, 97, 103, 101, 95, 114, 111, 111, 116, 95, 115, 104, 97, 50, 53, 54]
  const MANIFEST_CLAIM: Text := [109, 97, 110, 105, 102, 101, 115, 116, 95, 115, 104, 97, 50, 53, 54]

  // ---- the writer ------------------------------------------------------------------

  const ROOM: int := 0x4000_0000_0000_0000

  lemma StartFits(ps: seq<Payload>, offset: nat)
    requires Room(ps, 0) < ROOM && offset < 2 * ROOM
    ensures offset + Room(ps, 0) < TWO_64 && EndOf(ps, 0, offset) < TWO_64
  {
    EndWithinRoom(ps, 0, offset);
  }

  /** The manifest with the payloads placed from this offset on. */
  ghost function Placed(sha: Hasher, m: Manifest, ps: seq<Payload>, offset: nat): Manifest
    requires Room(ps, 0) < ROOM && offset < 2 * ROOM
  {
    StartFits(ps, offset);
    m.(locations := Places(sha, ps, 0, offset))
  }

  /**
   The payloads fit in memory, and so does every manifest that serializes with
   them placed from some offset on; so no cursor comes near 2^64.
   */
  ghost predicate InMemory(sha: Hasher, serialize: Serializer, m: Manifest, ps: seq<Payload>) {
    && Room(ps, 0) < ROOM
    && forall offset: nat :: offset < 2 * ROOM && serialize(Placed(sha, m, ps, offset)).Some? ==>
         |serialize(Placed(sha, m, ps, offset)).value| < ROOM
  }

  /** Six bytes for each byte of a payload's id, and 256 for the rest of its location. */
  function TextRoom(ps: seq<Payload>): nat {
    if ps == [] then 0 else TextRoom(ps[..|ps| - 1]) + 6 * |ps[|ps| - 1].id| + 256
  }

  /** The same for locations. */
  function LocationRoom(places: seq<Place>): nat {
    if places == [] then 0 else LocationRoom(places[..|places| - 1]) + 6 * |places[|places| - 1].id| + 256
  }

  lemma {:induction false} SameRoom(ps: seq<Payload>, places: seq<Place>)
    requires |places| == |ps| && forall j :: 0 <= j < |ps| ==> places[j].id == ps[j].id
    ensures LocationRoom(places) == TextRoom(ps)
  {
    if ps != [] {
      SameRoom(ps[..|ps| - 1], places[..|places| - 1]);
    }
  }

  /** A serializer that never refuses and writes this much for each location meets the assumption. */
  lemma PlainSerializerFits(sha: Hasher, serialize: Serializer, m: Manifest, ps: seq<Payload>, rest: nat)
    requires Room(ps, 0) < ROOM && rest + TextRoom(ps) < ROOM
    requires forall places: seq<Place> ::
               && serialize(m.(locations := places)).Some?
               && |serialize(m.(locations := places)).value| <= rest + LocationRoom(places)
    ensures InMemory(sha, serialize, m, ps)
  {
    hide Places, EndOf, Room;
    forall offset: nat | offset < 2 * ROOM
      ensures |serialize(Placed(sha, m, ps, offset)).value| < ROOM
    {
      StartFits(ps, offset);
      PlacesAreOk(sha, ps, 0, offset);
      var places := Places(sha, ps, 0, offset);
      forall j | 0 <= j < |ps| ensures places[j].id == ps[j].id {
        assert PlaceOk(sha, ps[0 + j], places[j], offset, EndOf(ps, 0, offset));
      }
      SameRoom(ps, places);
    }
  }

  /** Where the payloads start once this manifest is in front of them. */
  function After(manifest: seq<byte>): nat {
    Aligned(HEADER_BYTES + |manifest|)
  }

  lemma AfterFits(manifest: seq<byte>)
    requires |manifest| < ROOM
    ensures HEADER_BYTES + |manifest| <= After(manifest) < 2 * ROOM && After(manifest) % ALIGNMENT == 0
    ensures AlignUp(HEADER_BYTES + |manifest|, ALIGNMENT) == After(manifest)
  {
    AlignedBounds(HEADER_BYTES + |manifest|);
    AlignsWithoutSaturating(HEADER_BYTES + |manifest|);
  }

  ghost function Serialized(
    sha: Hasher, serialize: Serializer, m: Manifest, ps: seq<Payload>, offset: nat
  ): (r: Option<seq<byte>>)
    requires InMemory(sha, serialize, m, ps) && offset < 2 * ROOM
    ensures r.Some? ==> |r.value| < ROOM
  {
    serialize(Placed(sha, m, ps, offset))
  }

  /** Up to `rounds` attempts at an offset that its own manifest confirms. */
  ghost function Settled(
    sha: Hasher, serialize: Serializer, m: Manifest, ps: seq<Payload>, offset: nat, rounds: nat
  ): (r: Option<nat>)
    requires InMemory(sha, serialize, m, ps) && offset < 2 * ROOM && offset % ALIGNMENT == 0
    ensures r.Some? ==> r.value < 2 * ROOM && r.value % ALIGNMENT == 0
    decreases rounds
  {
    if rounds == 0 then Some(offset)
    else
      match Serialized(sha, serialize, m, ps, offset)
      case None => None
      case Some(bytes) =>
        AfterFits(bytes);
        if After(bytes) == offset then Some(offset) else Settled(sha, serialize, m, ps, After(bytes), rounds - 1)
  }

  /** Header, manifest, zeros up to the payload offset, and the payload region. */
  function FileBytes(sha: Hasher, manifest: seq<byte>, offset: u64, region: seq<byte>): seq<byte>
    requires HEADER_BYTES + |manifest| <= offset && |region| < TWO_64
  {
    HeaderBytes(HeaderFor(sha, manifest, offset, region)) + manifest
        + ZeroBytes(offset - HEADER_BYTES - |manifest|) + region
  }

  function HeaderFor(sha: Hasher, manifest: seq<byte>, offset: u64, region: seq<byte>): Header
    requires |manifest| < TWO_64 && |region| < TWO_64
  {
    Header(HEADER_BYTES, |manifest|, offset, |region|, sha(manifest), sha(manifest + region))
  }

  function WithClaims(m: Manifest, root: Sha, manifest: Sha): Manifest {
    m.(claims := m.claims[ROOT_CLAIM := root][MANIFEST_CLAIM := manifest])
  }

  datatype Package = Package(file: seq<byte>, returned: Manifest)

  /** What the writer puts in the file and returns, or why it refuses. */
  ghost function Packed(
    sha: Hasher, serialize: Serializer, m: Manifest, ps: seq<Payload>
  ): Result<Package, PackageError>
    requires InMemory(sha, serialize, m, ps)
  {
    match Settled(sha, serialize, m, ps, ALIGNMENT, 4)
    case None => Err(Json)
    case Some(offset) =>
      match Serialized(sha, serialize, m, ps, offset)
      case None => Err(Json)
      case Some(manifest) =>
        AfterFits(manifest);
        StartFits(ps, offset);
        EndWithinRoom(ps, 0, offset);
        if After(manifest) != offset then Err(UnstableOffset)
        else
          var region := Region(ps, 0, offset);
          Ok(Package(FileBytes(sha, manifest, offset, region),
                     WithClaims(Placed(sha, m, ps, offset), sha(manifest + region), sha(manifest))))
  }

  method Write(
    sha: Hasher, serialize: Serializer, manifest: Manifest, ps: seq<Payload>
  ) returns (r: Result<Package, PackageError>)
    requires InMemory(sha, serialize, manifest, ps)
    ensures r == Packed(sha, serialize, manifest, ps)
  {
    hide After, Aligned, AlignUp, Places, EndOf, Room, Region, HeaderBytes, ZeroBytes;
    var outputManifest, payloadOffset := manifest, ALIGNMENT;
    var round, settled := 0, false;
    while round < 4 && !settled
      invariant 0 <= round <= 4 && 0 <= payloadOffset && payloadOffset < 2 * ROOM && payloadOffset % ALIGNMENT == 0
                && outputManifest == manifest.(locations := outputManifest.locations)
      invariant Settled(sha, serialize, manifest, ps, ALIGNMENT, 4)
             == if settled then Some(payloadOffset) else Settled(sha, serialize, manifest, ps, payloadOffset, 4 - round)
    {
      StartFits(ps, payloadOffset);
      var locations, _ := Locate(sha, ps, payloadOffset);
      outputManifest := outputManifest.(locations := locations);
      assert outputManifest == Placed(sha, manifest, ps, payloadOffset);
      var bytes := serialize(outputManifest);
      if bytes.None? {
        return Err(Json);
      }
      AfterFits(bytes.value);
      var next := AlignUp(HEADER_BYTES + |bytes.value|, ALIGNMENT);
      if next == payloadOffset {
        settled := true;
      } else {
        payloadOffset := next;
      }
      round := round + 1;
    }
    StartFits(ps, payloadOffset);
    var locations, cursor := Locate(sha, ps, payloadOffset);
    outputManifest := outputManifest.(locations := locations);
    assert outputManifest == Placed(sha, manifest, ps, payloadOffset);
    var manifestBytes := serialize(outputManifest);
    if manifestBytes.None? {
      return Err(Json);
    }
    AfterFits(manifestBytes.value);
    var finalOffset := AlignUp(HEADER_BYTES + |manifestBytes.value|, ALIGNMENT);
    if finalOffset != payloadOffset {
      return Err(UnstableOffset);
    }
    EndWithinRoom(ps, 0, payloadOffset);
    var payloadBytes := if cursor < payloadOffset then 0 else cursor - payloadOffset;
    var region := FillRegion(sha, ps, payloadOffset, locations);
    var manifestDigest, packageRoot := sha(manifestBytes.value), sha(manifestBytes.value + region);
    var header := Header(HEADER_BYTES, |manifestBytes.value|, payloadOffset, payloadBytes, manifestDigest, packageRoot);
    var encoded := PackageHeader.Encode(header);
    var file := encoded + manifestBytes.value + ZeroBytes(payloadOffset - HEADER_BYTES - |manifestBytes.value|)
        + region;
    r := Ok(Package(file, WithClaims(outputManifest, packageRoot, manifestDigest)));
  }

  // ---- the reader -------------------------------------------------------------------

  datatype Verified = Verified(manifest: Manifest, packageRoot: Sha, manifestSha: Sha)

  /** One location, checked in wrapping u64 arithmetic; slicing a wrapped range panics. */
  function CheckPlace(sha: Hasher, file: seq<byte>, header: Header, place: Place): Result<(), PackageError> {
    var end := (place.offset + place.bytes) % TWO_64;
    if place.alignment == 0 || place.offset % place.alignment != 0 || place.offset < header.payloadOffset
       || end > header.payloadOffset + header.payloadBytes
    then Err(InvalidRange(place.id))
    else if place.offset > end || end > |file| then Err(SlicePanic)
    else if sha(file[place.offset..end]) != place.sha256 then Err(PayloadChecksum(place.id))
    else Ok(())
  }

  function CheckPlaces(
    sha: Hasher, file: seq<byte>, header: Header, places: seq<Place>, i: nat
  ): Result<(), PackageError>
    requires i <= |places|
    decreases |places| - i
  {
    if i == |places| then Ok(())
    else
      match CheckPlace(sha, file, header, places[i])
      case Err(e) => Err(e)
      case Ok(_) => CheckPlaces(sha, file, header, places, i + 1)
  }

  function Checked(sha: Hasher, parse: Parser, file: seq<byte>): Result<Verified, PackageError> {
    if |file| < HEADER_BYTES then Err(Truncated)
    else
      match Decode(file[..HEADER_BYTES])
      case Err(e) => Err(BadHeader(e))
      case Ok(header) => CheckedBody(sha, parse, file, header)
  }

  predicate RangesInside(file: seq<byte>, header: Header) {
    && header.manifestOffset + header.manifestBytes <= |file|
    && header.payloadOffset + header.payloadBytes <= |file|
    && header.payloadOffset % ALIGNMENT == 0
  }

  function ManifestBlob(file: seq<byte>, header: Header): seq<byte>
    requires RangesInside(file, header)
  {
    file[header.manifestOffset..header.manifestOffset + header.manifestBytes]
  }

  function PayloadBlob(file: seq<byte>, header: Header): seq<byte>
    requires RangesInside(file, header)
  {
    file[header.payloadOffset..header.payloadOffset + header.payloadBytes]
  }

  function CheckedBody(sha: Hasher, parse: Parser, file: seq<byte>, header: Header): Result<Verified, PackageError> {
    if header.manifestOffset + header.manifestBytes >= TWO_64 then Err(ManifestOverflow)
    else if header.payloadOffset + header.payloadBytes >= TWO_64 then Err(PayloadOverflow)
    else if !RangesInside(file, header) then Err(OutsideFile)
    else
      var blob := ManifestBlob(file, header);
      if sha(blob) != header.manifestSha then Err(ManifestChecksum)
      else
        match parse(blob)
        case None => Err(Json)
        case Some(manifest) =>
          var root := sha(blob + PayloadBlob(file, header));
          if root != header.packageRootSha then Err(RootChecksum)
          else
            match CheckPlaces(sha, file, header, manifest.locations, 0)
            case Err(e) => Err(e)
            case Ok(_) => Ok(Verified(manifest, root, sha(blob)))
  }

  method Verify(sha: Hasher, parse: Parser, file: seq<byte>) returns (r: Result<Verified, PackageError>)
    ensures r == Checked(sha, parse, file)
  {
    hide Decode, CheckPlace;
    if |file| < HEADER_BYTES {
      return Err(Truncated);
    }
    var decoded := Decode(file[..HEADER_BYTES]);
    if decoded.Err? {
      return Err(BadHeader(decoded.error));
    }
    var header := decoded.value;
    var manifestEnd := header.manifestOffset + header.manifestBytes;
    if manifestEnd >= TWO_64 {
      return Err(ManifestOverflow);
    }
    var payloadEnd := header.payloadOffset + header.payloadBytes;
    if payloadEnd >= TWO_64 {
      return Err(PayloadOverflow);
    }
    if manifestEnd > |file| || payloadEnd > |file| || header.payloadOffset % ALIGNMENT != 0 {
      return Err(OutsideFile);
    }
    var blob := file[header.manifestOffset..manifestEnd];
    var manifestSha := sha(blob);
    if manifestSha != header.manifestSha {
      return Err(ManifestChecksum);
    }
    var manifest := parse(blob);
    if manifest.None? {
      return Err(Json);
    }
    var region := file[header.payloadOffset..payloadEnd];
    var packageRoot := sha(blob + region);
    if packageRoot != header.packageRootSha {
      return Err(RootChecksum);
    }
    var places := manifest.value.locations;
    for i := 0 to |places|
      invariant CheckPlaces(sha, file, header, places, 0) == CheckPlaces(sha, file, header, places, i)
    {
      var ok := CheckPlace(sha, file, header, places[i]);
      if ok.Err? {
        return Err(ok.error);
      }
    }
    r := Ok(Verified(manifest.value, packageRoot, manifestSha));
  }

  // ---- exactly which files verify ------------------------------------------------------

  /** A place inside the payload range whose bytes have its digest. */
  ghost predicate PlaceHolds(sha: Hasher, file: seq<byte>, header: Header, place: Place) {
    && place.alignment > 0 && place.offset % place.alignment == 0
    && header.payloadOffset <= place.offset && place.offset + place.bytes <= header.payloadOffset + header.payloadBytes
    && place.offset + place.bytes <= |file|
    && sha(file[place.offset..place.offset + place.bytes]) == place.sha256
  }

  lemma PlaceCheckedIff(sha: Hasher, file: seq<byte>, header: Header, place: Place)
    requires header.payloadOffset + header.payloadBytes < TWO_64
    ensures CheckPlace(sha, file, header, place).Ok? <==> PlaceHolds(sha, file, header, place)
  {
    if place.offset + place.bytes >= TWO_64 {
      assert (place.offset + place.bytes) % TWO_64 == place.offset + place.bytes - TWO_64;
    }
  }

  lemma {:induction false} PlacesCheckedIff(sha: Hasher, file: seq<byte>, header: Header, places: seq<Place>, i: nat)
    requires i <= |places| && header.payloadOffset + header.payloadBytes < TWO_64
    ensures CheckPlaces(sha, file, header, places, i).Ok?
            <==> forall j :: i <= j < |places| ==> PlaceHolds(sha, file, header, places[j])
    decreases |places| - i
  {
    hide CheckPlace, PlaceHolds;
    if i < |places| {
      PlaceCheckedIff(sha, file, header, places[i]);
      PlacesCheckedIff(sha, file, header, places, i + 1);
    }
  }

  /** A file that is right up to the places its manifest lists. */
  ghost predicate Fronted(sha: Hasher, parse: Parser, file: seq<byte>, header: Header, v: Verified) {
    && |file| >= HEADER_BYTES && Decode(file[..HEADER_BYTES]) == Ok(header)
    && header.manifestOffset + header.manifestBytes < TWO_64 && header.payloadOffset + header.payloadBytes < TWO_64
    && RangesInside(file, header)
    && parse(ManifestBlob(file, header)) == Some(v.manifest)
    && v.manifestSha == header.manifestSha == sha(ManifestBlob(file, header))
    && v.packageRoot == header.packageRootSha == sha(ManifestBlob(file, header) + PayloadBlob(file, header))
  }

  /** What an accepted file is. */
  ghost predicate Genuine(sha: Hasher, parse: Parser, file: seq<byte>, header: Header, v: Verified) {
    && Fronted(sha, parse, file, header, v)
    && forall j :: 0 <= j < |v.manifest.locations| ==> PlaceHolds(sha, file, header, v.manifest.locations[j])
  }

  /** Verification accepts exactly the genuine files, and says what they hold. */
  lemma VerifiesExactlyGenuine(sha: Hasher, parse: Parser, file: seq<byte>, v: Verified)
    ensures Checked(sha, parse, file) == Ok(v) <==> exists header :: Genuine(sha, parse, file, header, v)
  {
    hide CheckPlaces, PlaceHolds, Decode, ManifestBlob, PayloadBlob, RangesInside;
    if |file| >= HEADER_BYTES && Decode(file[..HEADER_BYTES]).Ok? {
      var header := Decode(file[..HEADER_BYTES]).value;
      if header.payloadOffset + header.payloadBytes < TWO_64 {
        GenuineIff(sha, parse, file, header, v);
      }
      if Checked(sha, parse, file) == Ok(v) {
        assert Genuine(sha, parse, file, header, v);
      }
    }
  }

  lemma GenuineIff(sha: Hasher, parse: Parser, file: seq<byte>, header: Header, v: Verified)
    requires |file| >= HEADER_BYTES && Decode(file[..HEADER_BYTES]) == Ok(header)
             && header.payloadOffset + header.payloadBytes < TWO_64
    ensures CheckedBody(sha, parse, file, header) == Ok(v) <==> Genuine(sha, parse, file, header, v)
  {
    hide CheckPlaces, PlaceHolds, Decode, ManifestBlob, PayloadBlob;
    if RangesInside(file, header) && parse(ManifestBlob(file, header)).Some? {
      PlacesCheckedIff(sha, file, header, parse(ManifestBlob(file, header)).value.locations, 0);
    }
  }

  // ---- which files make the reader panic --------------------------------------------------

  /** A place whose end wraps past 2^64 to somewhere that passes the range check. */
  ghost predicate PlaceWraps(header: Header, place: Place) {
    && place.alignment > 0 && place.offset % place.alignment == 0 && header.payloadOffset <= place.offset
    && TWO_64 <= place.offset + place.bytes <= TWO_64 + header.payloadOffset + header.payloadBytes
  }

  lemma PlacePanicsIff(sha: Hasher, file: seq<byte>, header: Header, place: Place)
    requires header.payloadOffset + header.payloadBytes <= |file| && header.payloadOffset + header.payloadBytes < TWO_64
    ensures CheckPlace(sha, file, header, place) == Err(SlicePanic) <==> PlaceWraps(header, place)
  {
    if place.offset + place.bytes >= TWO_64 {
      assert (place.offset + place.bytes) % TWO_64 == place.offset + place.bytes - TWO_64;
    }
  }

  /** The i-th place wraps and all earlier ones hold. */
  ghost predicate PanicsAt(sha: Hasher, file: seq<byte>, header: Header, places: seq<Place>, from: nat, i: nat) {
    && from <= i < |places| && PlaceWraps(header, places[i])
    && forall j :: from <= j < i ==> PlaceHolds(sha, file, header, places[j])
  }

  lemma {:induction false} PlacesPanicIff(sha: Hasher, file: seq<byte>, header: Header, places: seq<Place>, from: nat)
    requires from <= |places|
    requires header.payloadOffset + header.payloadBytes <= |file| && header.payloadOffset + header.payloadBytes < TWO_64
    ensures CheckPlaces(sha, file, header, places, from) == Err(SlicePanic)
            <==> exists i: nat :: PanicsAt(sha, file, header, places, from, i)
    decreases |places| - from
  {
    hide CheckPlace, PlaceHolds, PlaceWraps;
    if from < |places| {
      PlaceCheckedIff(sha, file, header, places[from]);
      PlacePanicsIff(sha, file, header, places[from]);
      PlacesPanicIff(sha, file, header, places, from + 1);
      var rest, here := CheckPlaces(sha, file, header, places, from + 1), CheckPlace(sha, file, header, places[from]);
      if here.Ok? && rest == Err(SlicePanic) {
        var i: nat :| PanicsAt(sha, file, header, places, from + 1, i);
        assert PanicsAt(sha, file, header, places, from, i);
      } else if here == Err(SlicePanic) {
        assert PanicsAt(sha, file, header, places, from, from);
      }
      if i: nat :| PanicsAt(sha, file, header, places, from, i) {
        assert i > from ==> here.Ok? && PanicsAt(sha, file, header, places, from + 1, i);
      }
    }
  }

  /**
   Verification ends in a slice panic, not in a refusal, exactly for files that are
   right up to their manifest's places and list a wrapped one after places that hold.
   */
  lemma VerifyPanicsIff(sha: Hasher, parse: Parser, file: seq<byte>)
    ensures Checked(sha, parse, file) == Err(SlicePanic)
            <==> exists header, v, i: nat :: Fronted(sha, parse, file, header, v)
                                            && PanicsAt(sha, file, header, v.manifest.locations, 0, i)
  {
    hide CheckPlaces, PanicsAt, Decode, ManifestBlob, PayloadBlob;
    if |file| >= HEADER_BYTES && Decode(file[..HEADER_BYTES]).Ok? {
      var header := Decode(file[..HEADER_BYTES]).value;
      BodyPanicsIff(sha, parse, file, header);
      if Checked(sha, parse, file) == Err(SlicePanic) {
        var v :| exists i: nat ::
          Fronted(sha, parse, file, header, v) && PanicsAt(sha, file, header, v.manifest.locations, 0, i);
        var i: nat :| Fronted(sha, parse, file, header, v) && PanicsAt(sha, file, header, v.manifest.locations, 0, i);
      }
    }
  }

  lemma BodyPanicsIff(sha: Hasher, parse: Parser, file: seq<byte>, header: Header)
    requires |file| >= HEADER_BYTES && Decode(file[..HEADER_BYTES]) == Ok(header)
    ensures CheckedBody(sha, parse, file, header) == Err(SlicePanic)
            <==> exists v :: exists i: nat :: Fronted(sha, parse, file, header, v)
                                             && PanicsAt(sha, file, header, v.manifest.locations, 0, i)
  {
    hide CheckPlaces, PanicsAt, Decode, ManifestBlob, PayloadBlob;
    var payloadEnd := header.payloadOffset + header.payloadBytes;
    if RangesInside(file, header) && payloadEnd < TWO_64 && parse(ManifestBlob(file, header)).Some? {
      var manifest := parse(ManifestBlob(file, header)).value;
      PlacesPanicIff(sha, file, header, manifest.locations, 0);
      var v := Verified(manifest, header.packageRootSha, header.manifestSha);
      if CheckedBody(sha, parse, file, header) == Err(SlicePanic) {
        var i: nat :| PanicsAt(sha, file, header, manifest.locations, 0, i);
        assert Fronted(sha, parse, file, header, v);
      }
    }
  }

  /** A file with no payload whose manifest lists a place that ends at 2^64 makes the reader panic. */
  lemma WrappedPlacePanics(sha: Hasher, parse: Parser, manifest: seq<byte>, onDisk: Manifest, digest: Sha)
    requires |manifest| < ROOM && parse(manifest) == Some(onDisk)
    requires onDisk.locations == [Place([], TWO_64 - ALIGNMENT, ALIGNMENT, ALIGNMENT, digest)]
    ensures HEADER_BYTES + |manifest| <= After(manifest) < TWO_64
            && Checked(sha, parse, FileBytes(sha, manifest, After(manifest), [])) == Err(SlicePanic)
  {
    hide Decode, FileBytes, CheckedBody, ManifestBlob, PayloadBlob, After;
    AfterFits(manifest);
    var offset := After(manifest);
    var file, header := FileBytes(sha, manifest, offset, []), HeaderFor(sha, manifest, offset, []);
    WrittenHeader(sha, manifest, offset, []);
    var v := Verified(onDisk, header.packageRootSha, header.manifestSha);
    assert PanicsAt(sha, file, header, onDisk.locations, 0, 0);
    assert Fronted(sha, parse, file, header, v);
    BodyPanicsIff(sha, parse, file, header);
  }

  // ---- what is written verifies ----------------------------------------------------------

  lemma FileSlices(header: seq<byte>, manifest: seq<byte>, gap: nat, region: seq<byte>)
    requires |header| == HEADER_BYTES
    ensures var file, start := header + manifest + ZeroBytes(gap) + region, HEADER_BYTES + |manifest| + gap;
            && |file| == start + |region| && file[..HEADER_BYTES] == header
            && file[HEADER_BYTES..HEADER_BYTES + |manifest|] == manifest && file[start..start + |region|] == region
  {
  }

  lemma WrittenHeader(sha: Hasher, manifest: seq<byte>, offset: u64, region: seq<byte>)
    requires HEADER_BYTES + |manifest| <= offset && offset % ALIGNMENT == 0 && offset + |region| < TWO_64
    ensures var file, header := FileBytes(sha, manifest, offset, region), HeaderFor(sha, manifest, offset, region);
            && |file| == offset + |region| && Decode(file[..HEADER_BYTES]) == Ok(header) && RangesInside(file, header)
            && ManifestBlob(file, header) == manifest && PayloadBlob(file, header) == region
  {
    hide Decode, HeaderBytes, Laid;
    var header := HeaderFor(sha, manifest, offset, region);
    FileSlices(HeaderBytes(header), manifest, offset - HEADER_BYTES - |manifest|, region);
    assert Decode(HeaderBytes(header)) == Ok(header) by { HeaderReads(header); }
  }

  /** Header encode and decode are inverse. */
  lemma HeaderReads(h: Header)
    ensures Decode(HeaderBytes(h)) == Ok(h)
  {
    hide Decode, Laid;
    DecodeOfLaid(h, ZeroBytes(4), ZeroBytes(8));
  }

  /** Every payload is at its place in the file. */
  lemma PayloadInFile(sha: Hasher, ps: seq<Payload>, offset: nat, file: seq<byte>, j: nat)
    requires EndOf(ps, 0, offset) < TWO_64 && offset <= |file| && file[offset..] == Region(ps, 0, offset) && j < |ps|
    ensures var place := Places(sha, ps, 0, offset)[j];
            && offset <= place.offset && place.offset % ALIGNMENT == 0 && place.alignment == ALIGNMENT
            && place.id == ps[j].id
            && place.offset + place.bytes <= |file| && file[place.offset..place.offset + place.bytes] == ps[j].bytes
            && place.sha256 == sha(ps[j].bytes)
  {
    hide Places, Region, EndOf;
    PlacesAreOk(sha, ps, 0, offset);
    RegionHoldsPayload(sha, ps, 0, offset, j);
    var place := Places(sha, ps, 0, offset)[j];
    assert PlaceOk(sha, ps[0 + j], place, offset, EndOf(ps, 0, offset));
    SliceOfSuffix(file, offset, place.offset, place.offset + place.bytes);
  }

  lemma SliceOfSuffix(s: seq<byte>, i: nat, a: nat, b: nat)
    requires i <= a <= b <= |s|
    ensures s[a..b] == s[i..][a - i..b - i]
  {
  }

  lemma PlacesHold(sha: Hasher, ps: seq<Payload>, offset: u64, file: seq<byte>, header: Header)
    requires EndOf(ps, 0, offset) < TWO_64 && offset <= |file| && file[offset..] == Region(ps, 0, offset)
    requires header.payloadOffset == offset && header.payloadBytes == |Region(ps, 0, offset)|
    ensures forall j :: 0 <= j < |ps| ==> PlaceHolds(sha, file, header, Places(sha, ps, 0, offset)[j])
  {
    hide Places, Region, EndOf;
    forall j | 0 <= j < |ps| ensures PlaceHolds(sha, file, header, Places(sha, ps, 0, offset)[j]) {
      PayloadInFile(sha, ps, offset, file, j);
    }
  }

  /** The offset a successful write used: the one its own manifest confirms. */
  ghost function OffsetUsed(sha: Hasher, serialize: Serializer, m: Manifest, ps: seq<Payload>): nat
    requires InMemory(sha, serialize, m, ps) && Packed(sha, serialize, m, ps).Ok?
  {
    Settled(sha, serialize, m, ps, ALIGNMENT, 4).value
  }

  /**
   Whenever the writer succeeds, verification accepts the file and recovers the
   manifest as it stands on disk, with both checksums.
   */
  lemma WrittenVerifies(sha: Hasher, serialize: Serializer, parse: Parser, m: Manifest, ps: seq<Payload>)
    requires InMemory(sha, serialize, m, ps) && LeftInverse(parse, serialize) && Packed(sha, serialize, m, ps).Ok?
    ensures var package, offset := Packed(sha, serialize, m, ps).value, OffsetUsed(sha, serialize, m, ps);
            && Checked(sha, parse, package.file).Ok?
            && var v := Checked(sha, parse, package.file).value;
               && offset < 2 * ROOM && v.manifest == Placed(sha, m, ps, offset)
               && package.returned == WithClaims(v.manifest, v.packageRoot, v.manifestSha)
  {
    hide After, Aligned, Decode, Places, Region, EndOf, FileBytes, CheckedBody, ManifestBlob, PayloadBlob,
        RangesInside, Settled;
    var offset := OffsetUsed(sha, serialize, m, ps);
    var manifest := Serialized(sha, serialize, m, ps, offset).value;
    AfterFits(manifest);
    StartFits(ps, offset);
    EndWithinRoom(ps, 0, offset);
    WrittenIsGenuine(sha, parse, Placed(sha, m, ps, offset), manifest, ps, offset);
  }

  /** The keys of the two claims, byte for byte. */
  lemma ClaimNames()
    ensures |ROOT_CLAIM| == |"package_root_sha256"| && |MANIFEST_CLAIM| == |"manifest_sha256"|
    ensures forall i :: 0 <= i < |ROOT_CLAIM| ==> ROOT_CLAIM[i] == "package_root_sha256"[i] as int
    ensures forall i :: 0 <= i < |MANIFEST_CLAIM| ==> MANIFEST_CLAIM[i] == "manifest_sha256"[i] as int
    ensures ROOT_CLAIM != MANIFEST_CLAIM
  {
    assert |ROOT_CLAIM| != |MANIFEST_CLAIM|;
  }

  /**
   The returned manifest files each digest under its own claim, as verification
   computes it; everything else of it is the manifest on disk, which is the
   manifest given, with the locations.
   */
  lemma WrittenClaims(sha: Hasher, serialize: Serializer, parse: Parser, m: Manifest, ps: seq<Payload>)
    requires InMemory(sha, serialize, m, ps) && LeftInverse(parse, serialize) && Packed(sha, serialize, m, ps).Ok?
    ensures Checked(sha, parse, Packed(sha, serialize, m, ps).value.file).Ok?
    ensures var package := Packed(sha, serialize, m, ps).value;
            var v, claims := Checked(sha, parse, package.file).value, package.returned.claims;
            && claims.Keys == m.claims.Keys + {ROOT_CLAIM, MANIFEST_CLAIM}
            && claims[ROOT_CLAIM] == v.packageRoot && claims[MANIFEST_CLAIM] == v.manifestSha
            && (forall c :: c in m.claims && c != ROOT_CLAIM && c != MANIFEST_CLAIM ==> claims[c] == m.claims[c])
            && v.manifest.claims == m.claims && package.returned.locations == v.manifest.locations
            && package.returned.body == v.manifest.body == m.body
  {
    hide InMemory, Packed, Checked, Places, OffsetUsed;
    ClaimNames();
    WrittenVerifies(sha, serialize, parse, m, ps);
  }

  lemma WrittenIsGenuine(
    sha: Hasher, parse: Parser, onDisk: Manifest, manifest: seq<byte>, ps: seq<Payload>, offset: u64
  )
    requires HEADER_BYTES + |manifest| <= offset && offset % ALIGNMENT == 0 && EndOf(ps, 0, offset) < TWO_64
    requires parse(manifest) == Some(onDisk) && onDisk.locations == Places(sha, ps, 0, offset)
    ensures |Region(ps, 0, offset)| < TWO_64
    ensures var region := Region(ps, 0, offset);
            Checked(sha, parse, FileBytes(sha, manifest, offset, region))
                == Ok(Verified(onDisk, sha(manifest + region), sha(manifest)))
  {
    hide Decode, Places, Region, EndOf, FileBytes, CheckedBody, ManifestBlob, PayloadBlob, PlaceHolds;
    EndWithinRoom(ps, 0, offset);
    var region := Region(ps, 0, offset);
    var file, header := FileBytes(sha, manifest, offset, region), HeaderFor(sha, manifest, offset, region);
    WrittenHeader(sha, manifest, offset, region);
    assert file[offset..] == PayloadBlob(file, header) by { SuffixIsPayload(file, header); }
    PlacesHold(sha, ps, offset, file, header);
    GenuineIff(sha, parse, file, header, Verified(onDisk, sha(manifest + region), sha(manifest)));
  }

  lemma SuffixIsPayload(file: seq<byte>, header: Header)
    requires RangesInside(file, header) && |file| == header.payloadOffset + header.payloadBytes
    ensures file[header.payloadOffset..] == PayloadBlob(file, header)
  {
  }

  /**
   In a written file every payload stands, whole, at its location: aligned, behind
   the manifest, inside the file, and apart from every other payload.
   */
  lemma WrittenHoldsPayloads(sha: Hasher, serialize: Serializer, m: Manifest, ps: seq<Payload>)
    requires InMemory(sha, serialize, m, ps) && Packed(sha, serialize, m, ps).Ok?
    ensures var package := Packed(sha, serialize, m, ps).value;
            var places := package.returned.locations;
            && |places| == |ps|
            && HEADER_BYTES + |Serialized(sha, serialize, m, ps, OffsetUsed(sha, serialize, m, ps)).value|
               <= OffsetUsed(sha, serialize, m, ps)
            && (forall j :: 0 <= j < |ps| ==>
                 && places[j].id == ps[j].id && places[j].offset % ALIGNMENT == 0
                 && OffsetUsed(sha, serialize, m, ps) <= places[j].offset
                 && places[j].offset + places[j].bytes <= |package.file|
                 && package.file[places[j].offset..places[j].offset + places[j].bytes] == ps[j].bytes)
            && (forall j, k :: 0 <= j < k < |ps| ==> places[j].offset + places[j].bytes <= places[k].offset)
  {
    hide After, Aligned, Decode, Places, Region, EndOf, FileBytes, Settled;
    var offset := OffsetUsed(sha, serialize, m, ps);
    var manifest := Serialized(sha, serialize, m, ps, offset).value;
    AfterFits(manifest);
    StartFits(ps, offset);
    EndWithinRoom(ps, 0, offset);
    var region := Region(ps, 0, offset);
    var file := FileBytes(sha, manifest, offset, region);
    WrittenHeader(sha, manifest, offset, region);
    SuffixIsPayload(file, HeaderFor(sha, manifest, offset, region));
    PlacesAreOk(sha, ps, 0, offset);
    forall j | 0 <= j < |ps|
      ensures var place := Places(sha, ps, 0, offset)[j];
              && place.id == ps[j].id && offset <= place.offset && place.offset % ALIGNMENT == 0
              && place.offset + place.bytes <= |file|
              && file[place.offset..place.offset + place.bytes] == ps[j].bytes
    {
      PayloadInFile(sha, ps, offset, file, j);
    }
  }

  // ---- when the writer succeeds --------------------------------------------------------------

  /** The offset that this offset's manifest asks for. */
  ghost function NextOffset(
    sha: Hasher, serialize: Serializer, m: Manifest, ps: seq<Payload>, offset: nat
  ): (r: Option<nat>)
    requires InMemory(sha, serialize, m, ps) && offset < 2 * ROOM
    ensures r.Some? ==> r.value < 2 * ROOM && r.value % ALIGNMENT == 0
  {
    match Serialized(sha, serialize, m, ps, offset)
    case None => None
    case Some(bytes) =>
      AfterFits(bytes);
      Some(After(bytes))
  }

  /** The writer's successive offsets, from the first. */
  ghost function Attempt(sha: Hasher, serialize: Serializer, m: Manifest, ps: seq<Payload>, k: nat): (r: Option<nat>)
    requires InMemory(sha, serialize, m, ps)
    ensures r.Some? ==> r.value < 2 * ROOM && r.value % ALIGNMENT == 0
  {
    if k == 0 then Some(ALIGNMENT)
    else
      match Attempt(sha, serialize, m, ps, k - 1)
      case None => None
      case Some(offset) => NextOffset(sha, serialize, m, ps, offset)
  }

  lemma {:induction false} SettledIsAttempt(
    sha: Hasher, serialize: Serializer, m: Manifest, ps: seq<Payload>, k: nat, rounds: nat
  )
    requires InMemory(sha, serialize, m, ps) && Attempt(sha, serialize, m, ps, k).Some?
    ensures var offset := Attempt(sha, serialize, m, ps, k).value;
            Settled(sha, serialize, m, ps, offset, rounds) == Attempt(sha, serialize, m, ps, k + rounds)
    decreases rounds
  {
    hide Serialized, After, InMemory;
    if rounds > 0 {
      var offset := Attempt(sha, serialize, m, ps, k).value;
      var next := NextOffset(sha, serialize, m, ps, offset);
      assert Attempt(sha, serialize, m, ps, k + 1) == next;
      if next == Some(offset) {
        FixedStays(sha, serialize, m, ps, k, rounds);
      } else if next.Some? {
        SettledIsAttempt(sha, serialize, m, ps, k + 1, rounds - 1);
      } else {
        LostStays(sha, serialize, m, ps, k + 1, rounds - 1);
      }
    }
  }

  lemma {:induction false} FixedStays(sha: Hasher, serialize: Serializer, m: Manifest, ps: seq<Payload>, k: nat, n: nat)
    requires InMemory(sha, serialize, m, ps) && Attempt(sha, serialize, m, ps, k).Some?
    requires NextOffset(sha, serialize, m, ps, Attempt(sha, serialize, m, ps, k).value)
             == Attempt(sha, serialize, m, ps, k)
    ensures Attempt(sha, serialize, m, ps, k + n) == Attempt(sha, serialize, m, ps, k)
    decreases n
  {
    hide NextOffset, InMemory;
    if n > 0 {
      FixedStays(sha, serialize, m, ps, k, n - 1);
    }
  }

  lemma {:induction false} LostStays(sha: Hasher, serialize: Serializer, m: Manifest, ps: seq<Payload>, k: nat, n: nat)
    requires InMemory(sha, serialize, m, ps) && Attempt(sha, serialize, m, ps, k).None?
    ensures Attempt(sha, serialize, m, ps, k + n).None?
    decreases n
  {
    hide NextOffset, InMemory;
    if n > 0 {
      LostStays(sha, serialize, m, ps, k, n - 1);
    }
  }

  /** The writer succeeds exactly when the fifth attempt confirms the fourth, and then uses it. */
  lemma WriteSucceedsIff(sha: Hasher, serialize: Serializer, m: Manifest, ps: seq<Payload>)
    requires InMemory(sha, serialize, m, ps)
    ensures Packed(sha, serialize, m, ps).Ok?
            <==>
            Attempt(sha, serialize, m, ps, 4).Some?
            && Attempt(sha, serialize, m, ps, 5) == Attempt(sha, serialize, m, ps, 4)
    ensures Packed(sha, serialize, m, ps).Ok?
            ==> Some(OffsetUsed(sha, serialize, m, ps)) == Attempt(sha, serialize, m, ps, 4)
  {
    hide InMemory, Settled, After, Region, EndOf, FileBytes, Places;
    assert Attempt(sha, serialize, m, ps, 0) == Some(ALIGNMENT);
    SettledIsAttempt(sha, serialize, m, ps, 0, 4);
    FifthAttempt(sha, serialize, m, ps);
  }

  lemma FifthAttempt(sha: Hasher, serialize: Serializer, m: Manifest, ps: seq<Payload>)
    requires InMemory(sha, serialize, m, ps)
    ensures Attempt(sha, serialize, m, ps, 5)
            == match Attempt(sha, serialize, m, ps, 4)
               { case None => None case Some(offset) => NextOffset(sha, serialize, m, ps, offset) }
  {
    hide NextOffset, InMemory;
  }

  /**
   Larger offsets give no shorter manifests, and no two manifests for these
   payloads differ by more than three alignment units.
   */
  ghost predicate Steady(sha: Hasher, serialize: Serializer, m: Manifest, ps: seq<Payload>)
    requires InMemory(sha, serialize, m, ps)
  {
    forall a: nat, b: nat :: a <= b < 2 * ROOM ==>
      && Serialized(sha, serialize, m, ps, a).Some? && Serialized(sha, serialize, m, ps, b).Some?
      && |Serialized(sha, serialize, m, ps, a).value| <= |Serialized(sha, serialize, m, ps, b).value|
      && |Serialized(sha, serialize, m, ps, b).value|
         <= |Serialized(sha, serialize, m, ps, a).value| + 3 * ALIGNMENT
  }

  /** Then four attempts are always enough. */
  lemma SteadyWriterSucceeds(sha: Hasher, serialize: Serializer, m: Manifest, ps: seq<Payload>)
    requires InMemory(sha, serialize, m, ps) && Steady(sha, serialize, m, ps)
    ensures Packed(sha, serialize, m, ps).Ok?
  {
    hide InMemory, Steady, Packed;
    var a1 := OneMore(sha, serialize, m, ps, 0, ALIGNMENT);
    assert a1 >= ALIGNMENT;
    var a2 := OneMore(sha, serialize, m, ps, 1, a1);
    NextOffsetGrows(sha, serialize, m, ps, ALIGNMENT, a1);
    var a3 := OneMore(sha, serialize, m, ps, 2, a2);
    NextOffsetGrows(sha, serialize, m, ps, a1, a2);
    var a4 := OneMore(sha, serialize, m, ps, 3, a3);
    NextOffsetGrows(sha, serialize, m, ps, a2, a3);
    var a5 := OneMore(sha, serialize, m, ps, 4, a4);
    NextOffsetGrows(sha, serialize, m, ps, a3, a4);
    NextOffsetGrows(sha, serialize, m, ps, ALIGNMENT, a4);
    FiveUnits(a1, a2, a3, a4, a5);
    WriteSucceedsIff(sha, serialize, m, ps);
  }

  /** One payload, and a manifest that grows by a whole unit with every offset, four times. */
  function Growing(m: Manifest): Option<seq<byte>> {
    var offset := if |m.locations| == 1 then Min(m.locations[0].offset, 5 * ALIGNMENT) else 0;
    Some(ZeroBytes(offset + ALIGNMENT - HEADER_BYTES))
  }

  const ONE_EMPTY: seq<Payload> := [Payload([], [])]

  const NOTHING: Manifest := Manifest([], [], map[])

  /** Three units are the most: with four, the writer gives up one attempt too early. */
  lemma GrowingManifestIsUnstable(sha: Hasher)
    ensures InMemory(sha, Growing, NOTHING, ONE_EMPTY)
    ensures Packed(sha, Growing, NOTHING, ONE_EMPTY) == Err(UnstableOffset)
  {
    GrowingFits(sha);
    hide InMemory, Settled, Attempt, Growing;
    GrowsAlways(sha, 4);
    FirstAttempt(sha, Growing, NOTHING, ONE_EMPTY);
    SettledIsAttempt(sha, Growing, NOTHING, ONE_EMPTY, 0, 4);
    GrowsOnce(sha, 5 * ALIGNMENT);
  }

  lemma GrowingFits(sha: Hasher)
    ensures InMemory(sha, Growing, NOTHING, ONE_EMPTY)
  {
    hide Aligned;
  }

  lemma FirstAttempt(sha: Hasher, serialize: Serializer, m: Manifest, ps: seq<Payload>)
    requires InMemory(sha, serialize, m, ps)
    ensures Attempt(sha, serialize, m, ps, 0) == Some(ALIGNMENT)
  {
  }

  lemma {:induction false} GrowsAlways(sha: Hasher, k: nat)
    requires k <= 4 && InMemory(sha, Growing, NOTHING, ONE_EMPTY)
    ensures Attempt(sha, Growing, NOTHING, ONE_EMPTY, k) == Some((k + 1) * ALIGNMENT)
  {
    hide InMemory, Growing, NextOffset;
    if k > 0 {
      GrowsAlways(sha, k - 1);
      GrowsOnce(sha, k * ALIGNMENT);
    }
  }

  lemma GrowsOnce(sha: Hasher, offset: nat)
    requires offset % ALIGNMENT == 0 && offset <= 5 * ALIGNMENT && InMemory(sha, Growing, NOTHING, ONE_EMPTY)
    ensures NextOffset(sha, Growing, NOTHING, ONE_EMPTY, offset) == Some(offset + ALIGNMENT)
  {
    hide InMemory, Aligned;
    AlignedOfMultiple(offset);
    OnePlace(sha, offset);
    AlignedOfMultiple(offset + ALIGNMENT);
  }

  lemma OnePlace(sha: Hasher, offset: nat)
    requires offset < 2 * ROOM && Aligned(offset) == offset
    ensures Room(ONE_EMPTY, 0) < ROOM
    ensures var places := Placed(sha, NOTHING, ONE_EMPTY, offset).locations; |places| == 1 && places[0].offset == offset
  {
    hide Aligned;
  }

  lemma AlignedOfMultiple(x: nat)
    requires x % ALIGNMENT == 0
    ensures Aligned(x) == x
  {
  }

  lemma OneMore(sha: Hasher, serialize: Serializer, m: Manifest, ps: seq<Payload>, k: nat, offset: nat)
    returns (next: nat)
    requires InMemory(sha, serialize, m, ps) && Steady(sha, serialize, m, ps)
    requires Attempt(sha, serialize, m, ps, k) == Some(offset)
    ensures offset < 2 * ROOM && NextOffset(sha, serialize, m, ps, offset) == Some(next)
    ensures Attempt(sha, serialize, m, ps, k + 1) == Some(next)
    ensures ALIGNMENT <= next < 2 * ROOM && next % ALIGNMENT == 0
  {
    hide InMemory;
    NextOffsetGrows(sha, serialize, m, ps, offset, offset);
    next := NextOffset(sha, serialize, m, ps, offset).value;
  }

  lemma NextOffsetGrows(sha: Hasher, serialize: Serializer, m: Manifest, ps: seq<Payload>, a: nat, b: nat)
    requires InMemory(sha, serialize, m, ps) && Steady(sha, serialize, m, ps) && a <= b < 2 * ROOM
    ensures NextOffset(sha, serialize, m, ps, a).Some? && NextOffset(sha, serialize, m, ps, b).Some?
    ensures var x, y := NextOffset(sha, serialize, m, ps, a).value, NextOffset(sha, serialize, m, ps, b).value;
            ALIGNMENT <= x <= y <= x + 3 * ALIGNMENT
  {
    hide InMemory, Serialized, Aligned;
    var x, y := Serialized(sha, serialize, m, ps, a).value, Serialized(sha, serialize, m, ps, b).value;
    AlignedGrows(HEADER_BYTES + |x|, HEADER_BYTES + |y|);
  }

  lemma AlignedGrows(x: nat, y: nat)
    requires 0 < x <= y <= x + 3 * ALIGNMENT
    ensures ALIGNMENT <= Aligned(x) <= Aligned(y) <= Aligned(x) + 3 * ALIGNMENT
  {
  }

  /** Five multiples of a unit that never go down and stay within three units do not all differ. */
  lemma FiveUnits(a: nat, b: nat, c: nat, d: nat, e: nat)
    requires a % ALIGNMENT == 0 && b % ALIGNMENT == 0 && c % ALIGNMENT == 0 && d % ALIGNMENT == 0 && e % ALIGNMENT == 0
    requires a <= b <= c <= d <= e <= a + 3 * ALIGNMENT
    ensures a == b || b == c || c == d || d == e
  {
  }

  /** A written file: the header, the manifest right behind it, zeros up to the payload offset, and the region. */
  lemma WrittenFile(sha: Hasher, serialize: Serializer, m: Manifest, ps: seq<Payload>)
    requires InMemory(sha, serialize, m, ps) && Packed(sha, serialize, m, ps).Ok?
    ensures var offset := OffsetUsed(sha, serialize, m, ps);
            offset % ALIGNMENT == 0 && Serialized(sha, serialize, m, ps, offset).Some? && EndOf(ps, 0, offset) < TWO_64
    ensures var file, offset := Packed(sha, serialize, m, ps).value.file, OffsetUsed(sha, serialize, m, ps);
            var manifest, region := Serialized(sha, serialize, m, ps, offset).value, Region(ps, 0, offset);
            var header := Header(HEADER_BYTES, |manifest|, offset, |region|, sha(manifest), sha(manifest + region));
            && HEADER_BYTES + |manifest| <= offset < HEADER_BYTES + |manifest| + ALIGNMENT
            && |file| == offset + |region|
            && file[..HEADER_BYTES] == HeaderBytes(header)
            && file[HEADER_BYTES..HEADER_BYTES + |manifest|] == manifest
            && (forall k :: HEADER_BYTES + |manifest| <= k < offset ==> file[k] == 0)
            && file[offset..] == region
  {
    hide After, Aligned, Places, Region, EndOf, Settled, HeaderBytes;
    var offset := OffsetUsed(sha, serialize, m, ps);
    var manifest := Serialized(sha, serialize, m, ps, offset).value;
    AfterFits(manifest);
    AfterIsNear(manifest);
    StartFits(ps, offset);
    EndWithinRoom(ps, 0, offset);
    FileParts(sha, manifest, offset, Region(ps, 0, offset));
  }

  lemma AfterIsNear(manifest: seq<byte>)
    ensures After(manifest) < HEADER_BYTES + |manifest| + ALIGNMENT
  {
    AlignedBounds(HEADER_BYTES + |manifest|);
  }

  lemma FileParts(sha: Hasher, manifest: seq<byte>, offset: u64, region: seq<byte>)
    requires HEADER_BYTES + |manifest| <= offset && offset + |region| < TWO_64
    ensures var file := FileBytes(sha, manifest, offset, region);
            var header := Header(HEADER_BYTES, |manifest|, offset, |region|, sha(manifest), sha(manifest + region));
            && |file| == offset + |region| && file[..HEADER_BYTES] == HeaderBytes(header)
            && file[HEADER_BYTES..HEADER_BYTES + |manifest|] == manifest
            && (forall k :: HEADER_BYTES + |manifest| <= k < offset ==> file[k] == 0) && file[offset..] == region
  {
    hide HeaderBytes;
  }

  // ---- why a file is refused ----------------------------------------------------------------

  /** The checks before the places, in order, each with its error. */
  lemma RefusedBeforePlaces(sha: Hasher, parse: Parser, file: seq<byte>)
    ensures Checked(sha, parse, file) == Err(Truncated) <==> |file| < 128
    ensures forall e ::
              Checked(sha, parse, file) == Err(BadHeader(e)) <==> |file| >= 128 && Decode(file[..128]) == Err(e)
    ensures |file| >= 128 && Decode(file[..128]).Ok? ==>
              var r, header := Checked(sha, parse, file), Decode(file[..128]).value;
              var manifestEnd, payloadEnd := header.manifestOffset + header.manifestBytes,
                                             header.payloadOffset + header.payloadBytes;
              var inside := manifestEnd <= |file| && payloadEnd <= |file| && header.payloadOffset % 4096 == 0;
              && (r == Err(ManifestOverflow) <==> manifestEnd >= TWO_64)
              && (r == Err(PayloadOverflow) <==> manifestEnd < TWO_64 <= payloadEnd)
              && (r == Err(OutsideFile) <==> manifestEnd < TWO_64 && payloadEnd < TWO_64 && !inside)
              && (manifestEnd < TWO_64 && payloadEnd < TWO_64 && inside ==>
                    var manifest, region := file[header.manifestOffset..manifestEnd],
                        file[header.payloadOffset..payloadEnd];
                    && (r == Err(ManifestChecksum) <==> sha(manifest) != header.manifestSha)
                    && (sha(manifest) == header.manifestSha ==>
                          && (r == Err(Json) <==> parse(manifest).None?)
                          && (parse(manifest).Some? ==>
                                (r == Err(RootChecksum) <==> sha(manifest + region) != header.packageRootSha))))
  {
    hide Decode;
    if |file| >= 128 && Decode(file[..128]).Ok? {
      var header := Decode(file[..128]).value;
      if RangesInside(file, header) && parse(ManifestBlob(file, header)).Some? {
        PlaceErrors(sha, file, header, parse(ManifestBlob(file, header)).value.locations, 0);
      }
      hide CheckPlaces;
    }
  }

  /** Places are refused with errors of their own. */
  lemma {:induction false} PlaceErrors(sha: Hasher, file: seq<byte>, header: Header, places: seq<Place>, i: nat)
    requires i <= |places|
    ensures CheckPlaces(sha, file, header, places, i).Err? ==>
              var e := CheckPlaces(sha, file, header, places, i).error;
              e.InvalidRange? || e.PayloadChecksum? || e.SlicePanic?
    decreases |places| - i
  {
    if i < |places| {
      PlaceErrors(sha, file, header, places, i + 1);
    }
  }

  /** A place whose range is refused: unaligned, before the payloads, or ending, modulo 2^64, behind them. */
  predicate BadRange(header: Header, place: Place) {
    || place.alignment == 0 || place.offset % place.alignment != 0 || place.offset < header.payloadOffset
    || (place.offset + place.bytes) % TWO_64 > header.payloadOffset + header.payloadBytes
  }

  /** The first place that does not hold gives the answer: its range, or else its bytes, by its id. */
  lemma {:induction false} PlacesRefuse(
    sha: Hasher, file: seq<byte>, header: Header, places: seq<Place>, i: nat, j: nat
  )
    requires i <= j < |places| && RangesInside(file, header) && header.payloadOffset + header.payloadBytes < TWO_64
    requires (forall k :: i <= k < j ==> PlaceHolds(sha, file, header, places[k]))
             && !PlaceHolds(sha, file, header, places[j])
    ensures CheckPlaces(sha, file, header, places, i)
            == Err(if BadRange(header, places[j]) then InvalidRange(places[j].id)
                   else if PlaceWraps(header, places[j]) then SlicePanic
                   else PayloadChecksum(places[j].id))
    decreases j - i
  {
    PlaceCheckedIff(sha, file, header, places[i]);
    hide PlaceHolds;
    if i < j {
      hide CheckPlace;
      PlacesRefuse(sha, file, header, places, i + 1, j);
    } else {
      OnePlaceRefused(sha, file, header, places[j]);
    }
  }

  lemma OnePlaceRefused(sha: Hasher, file: seq<byte>, header: Header, place: Place)
    requires RangesInside(file, header) && header.payloadOffset + header.payloadBytes < TWO_64
    requires CheckPlace(sha, file, header, place).Err?
    ensures CheckPlace(sha, file, header, place)
            == Err(if BadRange(header, place) then InvalidRange(place.id)
                   else if PlaceWraps(header, place) then SlicePanic
                   else PayloadChecksum(place.id))
  {
    PlacePanicsIff(sha, file, header, place);
  }
}
