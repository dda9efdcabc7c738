/** The random initialisation of Src/main.cpp: every sample gets a vector of
    three draws `rand() % 1001 - 500`, redrawn while it is (0,0,0), and then
    normalised. The C library generator is replaced by a given list of draws. */
module Initialization {
  import opened Geometry
  import opened Options
  import opened Samples

  /** One coordinate made from one draw: an integer in [-500, 500]. */
  function Component(r: nat): (x: real)
    ensures x.Floor as real == x
    ensures -500.0 <= x <= 500.0
  {
    ((r % 1001) - 500) as real
  }

  /** A coordinate a draw can produce. */
  predicate IsDrawComponent(x: real) {
    x.Floor as real == x && -500.0 <= x <= 500.0
  }

  /** A vector a draw can produce: three integral coordinates in [-500, 500]. */
  predicate IsDrawVector(v: Vec3) {
    IsDrawComponent(v.x) && IsDrawComponent(v.y) && IsDrawComponent(v.z)
  }

  /** The vector made from the three draws starting at `at`. */
  function Draw(draws: seq<nat>, at: nat): (v: Vec3)
    requires at + 3 <= |draws|
    ensures IsDrawVector(v)
  {
    Vec3(Component(draws[at]), Component(draws[at + 1]), Component(draws[at + 2]))
  }

  /** The do-while of one sample: the first non-zero vector drawn from `at` on, and
      the position after its three draws, or None when the draws run out first. */
  function FirstNonZero(draws: seq<nat>, at: nat): (r: Option<(Vec3, nat)>)
    ensures r.Some? ==> r.value.0 != Zero && IsDrawVector(r.value.0)
    ensures r.Some? ==> at + 3 <= r.value.1 <= |draws| && (r.value.1 - at) % 3 == 0
    ensures r.Some? ==> Draw(draws, r.value.1 - 3) == r.value.0
    decreases |draws| - at
  {
    if |draws| < at + 3 then None
    else if Draw(draws, at) == Zero then FirstNonZero(draws, at + 3)
    else Some((Draw(draws, at), at + 3))
  }

  /** Every vector rejected on the way was (0,0,0): the draw stops at the first
      non-zero vector, and gives up only when all remaining vectors are zero. */
  lemma {:induction false} FirstNonZeroSkipsZeros(draws: seq<nat>, at: nat)
    ensures FirstNonZero(draws, at).Some? ==>
      forall q :: at <= q < FirstNonZero(draws, at).value.1 - 3 && (q - at) % 3 == 0 ==> Draw(draws, q) == Zero
    ensures FirstNonZero(draws, at).None? ==>
      forall q :: at <= q && q + 3 <= |draws| && (q - at) % 3 == 0 ==> Draw(draws, q) == Zero
    decreases |draws| - at
  {
    if |draws| >= at + 3 && Draw(draws, at) == Zero {
      FirstNonZeroSkipsZeros(draws, at + 3);
    }
  }

  /** The vectors drawn for the first `count` samples, before normalisation, and
      the position in the draws after them; None when the draws run out. */
  function InitialVectors(draws: seq<nat>, count: nat): (r: Option<(seq<Vec3>, nat)>)
    ensures r.Some? ==> |r.value.0| == count && r.value.1 <= |draws|
    ensures r.Some? ==> forall i :: 0 <= i < count ==> r.value.0[i] != Zero && IsDrawVector(r.value.0[i])
  {
    if count == 0 then Some(([], 0))
    else
      match InitialVectors(draws, count - 1)
      case None => None
      case Some((vs, at)) =>
        match FirstNonZero(draws, at)
        case None => None
        case Some((v, next)) => Some((vs + [v], next))
  }

  /** The samples after initialisation: positions kept, normals replaced by the
      normalised drawn vectors. */
  function Initialized(pts: seq<Sample>, vs: seq<Vec3>, sqrt: real -> real): (r: seq<Sample>)
    requires |vs| == |pts|
    requires PositiveRoot(sqrt)
    ensures |r| == |pts| && Positions(r) == Positions(pts)
  {
    seq(|pts|, i requires 0 <= i < |pts| => pts[i].(normal := Normalized(vs[i], sqrt)))
  }

  /** Samples whose normals are, one by one, the normalised vectors are the
      initialised samples. */
  lemma InitStep(before: seq<Sample>, i: nat, vs: seq<Vec3>, v: Vec3, sqrt: real -> real)
    requires i < |before| && |vs| == i
    requires PositiveRoot(sqrt)
    ensures (Initialized(before[..i], vs, sqrt) + before[i..])[i := before[i].(normal := Normalized(v, sqrt))]
      == Initialized(before[..i + 1], vs + [v], sqrt) + before[i + 1..]
  {
  }

  /** No sample is left with the (0,0,0) normal: the drawn vector is never zero and
      normalising a non-zero vector never gives zero. */
  lemma InitializedNormalsNonZero(pts: seq<Sample>, draws: seq<nat>, sqrt: real -> real)
    requires PositiveRoot(sqrt)
    requires InitialVectors(draws, |pts|).Some?
    ensures forall i :: 0 <= i < |pts| ==>
      Initialized(pts, InitialVectors(draws, |pts|).value.0, sqrt)[i].normal != Zero
  {
    var vs := InitialVectors(draws, |pts|).value.0;
    forall i | 0 <= i < |pts|
      ensures Initialized(pts, vs, sqrt)[i].normal != Zero
    {
      NormalizedZeroIff(vs[i], sqrt);
    }
  }

  /** The vectors for one more sample: the next do-while's vector appended, or
      None when that do-while runs out of draws. */
  lemma VectorsStep(draws: seq<nat>, i: nat, vs: seq<Vec3>, at: nat)
    requires InitialVectors(draws, i) == Some((vs, at))
    ensures FirstNonZero(draws, at).None? ==> InitialVectors(draws, i + 1).None?
    ensures FirstNonZero(draws, at).Some? ==>
      InitialVectors(draws, i + 1) == Some((vs + [FirstNonZero(draws, at).value.0], FirstNonZero(draws, at).value.1))
  {
  }

  /** Once the draws have run out for one sample they have run out for every
      later one. */
  lemma {:induction false} ExhaustedStays(draws: seq<nat>, i: nat, m: nat)
    requires i <= m
    requires InitialVectors(draws, i).None?
    ensures InitialVectors(draws, m).None?
    decreases m - i
  {
    if i < m {
      ExhaustedStays(draws, i + 1, m);
    }
  }

  /** The do-while of one sample: draw three components into the normal of sample
      `i`, compare it with (0,0,0) and draw again while equal. Returns the position
      after the accepted draws, or None when the draws run out. */
  method DrawNormal(pts: array<Sample>, i: nat, draws: seq<nat>, at: nat) returns (next: Option<nat>)
    requires i < pts.Length
    modifies pts
    ensures forall j :: 0 <= j < pts.Length && j != i ==> pts[j] == old(pts[j])
    ensures pts[i].position == old(pts[i]).position
    ensures next.Some? <==> FirstNonZero(draws, at).Some?
    ensures next.Some? ==> FirstNonZero(draws, at) == Some((pts[i].normal, next.value))
  {
    var pos := at;
    while true
      invariant at <= pos
      invariant FirstNonZero(draws, pos) == FirstNonZero(draws, at)
      invariant forall j :: 0 <= j < pts.Length && j != i ==> pts[j] == old(pts[j])
      invariant pts[i].position == old(pts[i]).position
      decreases |draws| - pos
    {
      if |draws| < pos + 3 {
        return None;
      }
      pts[i] := pts[i].(normal := Vec3(Component(draws[pos]), Component(draws[pos + 1]), Component(draws[pos + 2])));
      pos := pos + 3;
      var isZero := Equals(pts[i].normal, Zero);
      if !isZero {
        return Some(pos);
      }
    }
  }

  /** The initialisation loop: draw a non-zero vector for each sample in turn and
      normalise it in place. Returns false when the draws run out. */
  method RandomInit(pts: array<Sample>, draws: seq<nat>, sqrt: real -> real) returns (ok: bool)
    requires PositiveRoot(sqrt)
    modifies pts
    ensures ok <==> InitialVectors(draws, pts.Length).Some?
    ensures ok ==> pts[..] == Initialized(old(pts[..]), InitialVectors(draws, pts.Length).value.0, sqrt)
    ensures Positions(pts[..]) == Positions(old(pts[..]))
  {
    var at := 0;
    ghost var drawn: seq<Vec3> := [];
    for i := 0 to pts.Length
      invariant InitialVectors(draws, i) == Some((drawn, at))
      invariant |drawn| == i
      invariant pts[..] == Initialized(old(pts[..])[..i], drawn, sqrt) + old(pts[..])[i..]
      invariant Positions(pts[..]) == Positions(old(pts[..]))
    {
      var next := InitSample(pts, i, draws, at, sqrt);
      VectorsStep(draws, i, drawn, at);
      if next.None? {
        ExhaustedStays(draws, i + 1, pts.Length);
        return false;
      }
      InitStep(old(pts[..]), i, drawn, FirstNonZero(draws, at).value.0, sqrt);
      drawn := drawn + [FirstNonZero(draws, at).value.0];
      at := next.value;
    }
    assert old(pts[..])[..pts.Length] == old(pts[..]);
    assert old(pts[..])[pts.Length..] == [];
    return true;
  }

  /** One pass of the initialisation loop: the do-while for sample `i`, then the
      normalisation of what it drew. */
  method InitSample(pts: array<Sample>, i: nat, draws: seq<nat>, at: nat, sqrt: real -> real) returns (next: Option<nat>)
    requires i < pts.Length
    requires PositiveRoot(sqrt)
    modifies pts
    ensures Positions(pts[..]) == Positions(old(pts[..]))
    ensures next.Some? <==> FirstNonZero(draws, at).Some?
    ensures next.Some? ==> next.value == FirstNonZero(draws, at).value.1
    ensures next.Some? ==> pts[..] == old(pts[..])[i := old(pts[i]).(normal := Normalized(FirstNonZero(draws, at).value.0, sqrt))]
  {
    next := DrawNormal(pts, i, draws, at);
    if next.Some? {
      var n := Normalize(pts[i].normal, sqrt);
      pts[i] := pts[i].(normal := n);
    }
    SamePositions(pts[..], old(pts[..]));
  }
}
