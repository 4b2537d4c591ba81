/** A page record: its representations, at most one of a kind, and its counts. */
module PageRecord {
  import opened Wrappers
  import opened Arithmetic
  import opened Digests
  import opened Identity
  import opened PageKey

  datatype Kind =
    | ExactHotQ8 | ReconstructedWarm | ContextFoldLatent | LosslessColdPage | ExactTokenArchive
    | ReconstructionScratch

  datatype Location = Location(storeId: Text, offset: u64, length: u64, generation: u64)

  /** The quality certificate a latent representation carries: its id, and the rest as one body. */
  datatype Certificate = Certificate(id: Digest, body: Text)

  datatype Representation =
    | HotQ8(bytes: u64, place: Option<Location>)
    | Warm(bytes: u64, sourceCodec: Text, place: Option<Location>)
    | Latent(codec: Text, bytes: u64, quality: Certificate, place: Option<Location>)
    | Lossless(bytes: u64, place: Option<Location>)
    | Archive(bytes: u64, archiveRef: Text, place: Option<Location>)
    | Scratch(bytes: u64, ticketId: Text)
  {
    function Kind(): Kind {
      match this
      case HotQ8(_, _) => ExactHotQ8
      case Warm(_, _, _) => ReconstructedWarm
      case Latent(_, _, _, _) => ContextFoldLatent
      case Lossless(_, _) => LosslessColdPage
      case Archive(_, _, _) => ExactTokenArchive
      case Scratch(_, _) => ReconstructionScratch
    }
  }

  datatype Record = Record(
    id: PageId, closure: Closure, representations: seq<Representation>, referenceCount: nat, activeLeases: nat
  )

  /** The first representation of a kind. */
  function Find(reps: seq<Representation>, kind: Kind): (r: Option<Representation>)
    ensures r.Some? ==> r.value in reps && r.value.Kind() == kind
    ensures r.None? ==> forall x :: x in reps ==> x.Kind() != kind
  {
    if reps == [] then None
    else if reps[0].Kind() == kind then Some(reps[0])
    else Find(reps[1..], kind)
  }

  /** All representations of other kinds, in order (`retain`). */
  function Without(reps: seq<Representation>, kind: Kind): (r: seq<Representation>)
    ensures forall x :: x in r <==> x in reps && x.Kind() != kind
  {
    if reps == [] then []
    else if reps[0].Kind() == kind then Without(reps[1..], kind)
    else [reps[0]] + Without(reps[1..], kind)
  }

  function Added(reps: seq<Representation>, rep: Representation): seq<Representation> {
    Without(reps, rep.Kind()) + [rep]
  }

  /** Where the first representation of a kind stands (`position`). */
  function Position(reps: seq<Representation>, kind: Kind): (r: Option<nat>)
    ensures r.Some? ==> r.value < |reps| && reps[r.value].Kind() == kind && Find(reps, kind) == Some(reps[r.value])
    ensures r.None? <==> Find(reps, kind).None?
  {
    if reps == [] then None
    else if reps[0].Kind() == kind then Some(0)
    else
      match Position(reps[1..], kind)
      case None => None
      case Some(i) => Some(i + 1)
  }

  /** No two representations of one kind. */
  ghost predicate OneEach(reps: seq<Representation>) {
    forall i, j :: 0 <= i < j < |reps| ==> reps[i].Kind() != reps[j].Kind()
  }

  lemma {:induction false} FindConcat(a: seq<Representation>, b: seq<Representation>, kind: Kind)
    ensures Find(a + b, kind) == if Find(a, kind).Some? then Find(a, kind) else Find(b, kind)
  {
    if a == [] {
      assert a + b == b;
    } else {
      assert (a + b)[1..] == a[1..] + b;
      FindConcat(a[1..], b, kind);
    }
  }

  lemma {:induction false} FindWithout(reps: seq<Representation>, gone: Kind, kind: Kind)
    ensures Find(Without(reps, gone), kind) == if kind == gone then None else Find(reps, kind)
  {
    if reps != [] {
      FindWithout(reps[1..], gone, kind);
      if reps[0].Kind() != gone {
        assert ([reps[0]] + Without(reps[1..], gone))[1..] == Without(reps[1..], gone);
      }
    }
  }

  /** Adding replaces that kind and leaves every other kind as it was. */
  lemma FindAdded(reps: seq<Representation>, rep: Representation, kind: Kind)
    ensures Find(Added(reps, rep), kind) == if kind == rep.Kind() then Some(rep) else Find(reps, kind)
  {
    FindConcat(Without(reps, rep.Kind()), [rep], kind);
    FindWithout(reps, rep.Kind(), kind);
  }

  lemma {:induction false} WithoutKeepsOneEach(reps: seq<Representation>, kind: Kind)
    requires OneEach(reps)
    ensures OneEach(Without(reps, kind))
  {
    if reps != [] {
      WithoutKeepsOneEach(reps[1..], kind);
      var rest := Without(reps[1..], kind);
      forall x | x in rest ensures x.Kind() != reps[0].Kind() {
        var j :| 0 <= j < |reps[1..]| && reps[1..][j] == x;
        assert x == reps[j + 1];
      }
    }
  }

  lemma AddedKeepsOneEach(reps: seq<Representation>, rep: Representation)
    requires OneEach(reps)
    ensures OneEach(Added(reps, rep))
  {
    WithoutKeepsOneEach(reps, rep.Kind());
  }

  /** Removing the only one of its kind takes that kind away and no other. */
  lemma FindRemoved(reps: seq<Representation>, i: nat, kind: Kind)
    requires OneEach(reps) && i < |reps|
    ensures OneEach(Removed(reps, i))
    ensures Find(Removed(reps, i), kind) == if kind == reps[i].Kind() then None else Find(reps, kind)
  {
    FindConcat(reps[..i], reps[i + 1..], kind);
    FindConcat(reps[..i], reps[i..], kind);
    assert reps == reps[..i] + reps[i..];
    assert reps[i..][0] == reps[i] && reps[i..][1..] == reps[i + 1..];
    RemovedOneEach(reps, i);
  }

  lemma RemovedOneEach(reps: seq<Representation>, i: nat)
    requires OneEach(reps) && i < |reps|
    ensures OneEach(Removed(reps, i))
    ensures forall x :: x in reps[..i] || x in reps[i + 1..] ==> x.Kind() != reps[i].Kind()
  {
    forall x | x in reps[..i] ensures x.Kind() != reps[i].Kind() {
      var j :| 0 <= j < i && reps[..i][j] == x;
      assert reps[j] == x;
    }
    forall x | x in reps[i + 1..] ensures x.Kind() != reps[i].Kind() {
      var j :| 0 <= j < |reps| - i - 1 && reps[i + 1..][j] == x;
      assert reps[i + 1 + j] == x;
    }
  }

  /** At most one representation of this kind. */
  ghost predicate Single(reps: seq<Representation>, kind: Kind) {
    forall i, j :: 0 <= i < j < |reps| && reps[i].Kind() == kind ==> reps[j].Kind() != kind
  }

  lemma {:induction false} FirstPosition(reps: seq<Representation>, kind: Kind)
    requires Position(reps, kind).Some?
    ensures Find(reps[..Position(reps, kind).value], kind).None?
  {
    var i := Position(reps, kind).value;
    if i > 0 {
      FirstPosition(reps[1..], kind);
      assert reps[..i][1..] == reps[1..][..i - 1];
    }
  }

  /** Removing the first of a kind, of however many: other kinds stay, and this one is gone exactly if it was single. */
  lemma FirstRemoved(reps: seq<Representation>, kind: Kind, other: Kind)
    requires Position(reps, kind).Some?
    ensures var after := Removed(reps, Position(reps, kind).value);
            && (other != kind ==> Find(after, other) == Find(reps, other))
            && (Find(after, kind).None? <==> Single(reps, kind))
            && (OneEach(reps) ==> OneEach(after))
  {
    hide OneEach, Single;
    var i := Position(reps, kind).value;
    FirstPosition(reps, kind);
    if other != kind {
      OthersStay(reps, i, other);
    }
    SingleIff(reps, kind, i);
    FindConcat(reps[..i], reps[i + 1..], kind);
    if OneEach(reps) {
      RemovedOneEach(reps, i);
    }
  }

  lemma OthersStay(reps: seq<Representation>, i: nat, other: Kind)
    requires i < |reps| && reps[i].Kind() != other
    ensures Find(Removed(reps, i), other) == Find(reps, other)
  {
    FindConcat(reps[..i], reps[i + 1..], other);
    FindConcat(reps[..i], reps[i..], other);
    assert reps == reps[..i] + reps[i..];
    assert reps[i..][0] == reps[i] && reps[i..][1..] == reps[i + 1..];
  }

  lemma SingleIff(reps: seq<Representation>, kind: Kind, i: nat)
    requires i < |reps| && reps[i].Kind() == kind && Find(reps[..i], kind).None?
    ensures Single(reps, kind) <==> Find(reps[i + 1..], kind).None?
  {
    forall j | 0 <= j < i ensures reps[j].Kind() != kind {
      assert reps[..i][j] == reps[j];
    }
    forall j | i < j < |reps| ensures reps[j] in reps[i + 1..] {
      assert reps[i + 1..][j - i - 1] == reps[j];
    }
    if Single(reps, kind) {
      forall x | x in reps[i + 1..] ensures x.Kind() != kind {
        var j :| 0 <= j < |reps| - i - 1 && reps[i + 1..][j] == x;
        assert reps[i + 1 + j] == x;
      }
    }
  }
}
