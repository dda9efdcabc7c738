/** One pass of the projection step of `ipsr` (Src/main.cpp): every triangle of the
    reconstructed mesh votes its face vector to the samples the kd-tree finds near
    its centroid; each sample sums the votes addressed to it and the sums are
    normalised. */
module Projection {
  import opened Geometry
  import opened Samples

  /** What one face contributes: the samples it votes for (with repetition) and the
      vector it adds to each of them. */
  datatype FaceVote = FaceVote(neighbors: seq<int>, normal: Vec3)

  /** The vote of a face that is not a triangle: an empty list and a default vector. */
  const NoVote := FaceVote([], Zero)

  /** The vote of face `i`: for a triangle, the `k` nearest samples to its centroid
      and the cross product of two of its edges; for any other face, no vote. */
  function FaceVoteOf(mesh: Mesh, i: int, knn: (Vec3, int) -> seq<int>, k: int): (r: FaceVote)
    requires 0 <= i < |mesh.faces|
    requires TrianglesInRange(mesh)
    ensures |mesh.faces[i]| != 3 ==> r == NoVote
    ensures |mesh.faces[i]| == 3 ==> r.neighbors == knn(FaceCentroid(mesh, i), k)
  {
    var f := mesh.faces[i];
    if |f| == 3 then
      var a, b, c := mesh.vertices[f[0]], mesh.vertices[f[1]], mesh.vertices[f[2]];
      FaceVote(knn(Centroid(a, b, c), k), Cross(Sub(b, a), Sub(c, a)))
    else NoVote
  }

  /** The centroid of triangle `i`. */
  function FaceCentroid(mesh: Mesh, i: int): Vec3
    requires 0 <= i < |mesh.faces| && |mesh.faces[i]| == 3
    requires TrianglesInRange(mesh)
  {
    var f := mesh.faces[i];
    Centroid(mesh.vertices[f[0]], mesh.vertices[f[1]], mesh.vertices[f[2]])
  }

  /** The vector a triangle votes is perpendicular to both of its sides at the
      first corner, so it is a normal of the triangle's plane. */
  lemma FaceVotePerpendicular(mesh: Mesh, i: int, knn: (Vec3, int) -> seq<int>, k: int)
    requires 0 <= i < |mesh.faces| && |mesh.faces[i]| == 3
    requires TrianglesInRange(mesh)
    ensures var f := mesh.faces[i];
      var a, b, c := mesh.vertices[f[0]], mesh.vertices[f[1]], mesh.vertices[f[2]];
      Dot(FaceVoteOf(mesh, i, knn, k).normal, Sub(b, a)) == 0.0
      && Dot(FaceVoteOf(mesh, i, knn, k).normal, Sub(c, a)) == 0.0
  {
    var f := mesh.faces[i];
    var a, b, c := mesh.vertices[f[0]], mesh.vertices[f[1]], mesh.vertices[f[2]];
    CrossPerpendicular(Sub(b, a), Sub(c, a));
  }

  /** The per-face pass: `nearestSamples` and `normals`, one entry per face, start
      empty and are filled in for the triangles only. */
  method FacePass(mesh: Mesh, knn: (Vec3, int) -> seq<int>, k: int) returns (votes: seq<FaceVote>)
    requires TrianglesInRange(mesh)
    ensures |votes| == |mesh.faces|
    ensures forall i :: 0 <= i < |votes| ==> votes[i] == FaceVoteOf(mesh, i, knn, k)
  {
    var a := new FaceVote[|mesh.faces|](_ => NoVote);
    for i := 0 to a.Length
      invariant forall j :: 0 <= j < i ==> a[j] == FaceVoteOf(mesh, j, knn, k)
      invariant forall j :: i <= j < a.Length ==> a[j] == NoVote
    {
      var f := mesh.faces[i];
      if |f| == 3 {
        var c := Add(Add(mesh.vertices[f[0]], mesh.vertices[f[1]]), mesh.vertices[f[2]]);
        c := Scale(c, 1.0 / 3.0);
        var nearest := knn(c, k);
        var normal := Cross(Sub(mesh.vertices[f[1]], mesh.vertices[f[0]]), Sub(mesh.vertices[f[2]], mesh.vertices[f[0]]));
        a[i] := FaceVote(nearest, normal);
      }
    }
    votes := a[..];
  }

  /** What a face with vector `normal` adds to sample `s` while walking the first
      entries `nb` of its neighbour list. */
  function Contribution(normal: Vec3, nb: seq<int>, s: int): Vec3 {
    if nb == [] then Zero
    else
      var r := Contribution(normal, nb[..|nb| - 1], s);
      if nb[|nb| - 1] == s then Add(r, normal) else r
  }

  /** The accumulator of sample `s` after the faces in `votes` have been scattered. */
  function Accumulated(votes: seq<FaceVote>, s: int): Vec3 {
    if votes == [] then Zero
    else
      var last := votes[|votes| - 1];
      Add(Accumulated(votes[..|votes| - 1], s), Contribution(last.normal, last.neighbors, s))
  }

  /** A face adds its vector to a sample once for every time the sample occurs in
      its neighbour list. */
  lemma {:induction false} ContributionCounts(normal: Vec3, nb: seq<int>, s: int)
    ensures Contribution(normal, nb, s) == Scale(normal, multiset(nb)[s] as real)
  {
    if nb == [] {
      ScaleByZero(normal);
    } else {
      var init, last := nb[..|nb| - 1], nb[|nb| - 1];
      ContributionCounts(normal, init, s);
      assert nb == init + [last];
      assert multiset(nb) == multiset(init) + multiset{last};
      if last == s {
        ScaleByNext(normal, multiset(init)[s] as real);
      }
    }
  }

  lemma ScaleByZero(v: Vec3)
    ensures Scale(v, 0.0) == Zero
  {
  }

  lemma ScaleByNext(v: Vec3, m: real)
    ensures Add(Scale(v, m), v) == Scale(v, m + 1.0)
  {
    assert (m + 1.0) * v.x == m * v.x + v.x;
    assert (m + 1.0) * v.y == m * v.y + v.y;
    assert (m + 1.0) * v.z == m * v.z + v.z;
  }

  /** The sum of the votes addressed to sample `s`: each face's vector times the
      number of times `s` is in its neighbour list. */
  function VoteSum(votes: seq<FaceVote>, s: int): Vec3 {
    if votes == [] then Zero
    else
      var last := votes[|votes| - 1];
      Add(VoteSum(votes[..|votes| - 1], s), Scale(last.normal, multiset(last.neighbors)[s] as real))
  }

  /** The accumulator of each sample is the sum of the votes addressed to it. */
  lemma {:induction false} AccumulatedIsVoteSum(votes: seq<FaceVote>, s: int)
    ensures Accumulated(votes, s) == VoteSum(votes, s)
  {
    if votes != [] {
      var last := votes[|votes| - 1];
      AccumulatedIsVoteSum(votes[..|votes| - 1], s);
      ContributionCounts(last.normal, last.neighbors, s);
    }
  }

  /** A sample that no face names stays exactly (0,0,0). */
  lemma {:induction false} UnnamedStaysZero(votes: seq<FaceVote>, s: int)
    requires forall i :: 0 <= i < |votes| ==> s !in votes[i].neighbors
    ensures Accumulated(votes, s) == Zero
  {
    if votes != [] {
      var last := votes[|votes| - 1];
      UnnamedStaysZero(votes[..|votes| - 1], s);
      ContributionCounts(last.normal, last.neighbors, s);
      assert multiset(last.neighbors)[s] == 0;
    }
  }

  /** A face that is not a triangle contributes nothing to any sample. */
  lemma NonTriangleNoVote(mesh: Mesh, i: int, knn: (Vec3, int) -> seq<int>, k: int, s: int)
    requires 0 <= i < |mesh.faces|
    requires TrianglesInRange(mesh)
    requires |mesh.faces[i]| != 3
    ensures Contribution(FaceVoteOf(mesh, i, knn, k).normal, FaceVoteOf(mesh, i, knn, k).neighbors, s) == Zero
  {
  }

  /** Every neighbour index of every vote names a sample. */
  predicate NeighborsInRange(votes: seq<FaceVote>, n: int) {
    forall i, j :: 0 <= i < |votes| && 0 <= j < |votes[i].neighbors| ==> 0 <= votes[i].neighbors[j] < n
  }

  /** The inner scatter loop of one face: add its vector to the slot of every
      sample in its neighbour list, repetitions counted. */
  method ScatterFace(acc: array<Vec3>, vote: FaceVote)
    requires forall j :: 0 <= j < |vote.neighbors| ==> 0 <= vote.neighbors[j] < acc.Length
    modifies acc
    ensures forall s :: 0 <= s < acc.Length ==> acc[s] == Add(old(acc[s]), Contribution(vote.normal, vote.neighbors, s))
  {
    var nb := vote.neighbors;
    for j := 0 to |nb|
      invariant forall s :: 0 <= s < acc.Length ==> acc[s] == Add(old(acc[s]), Contribution(vote.normal, nb[..j], s))
    {
      assert nb[..j + 1][..j] == nb[..j];
      var t := nb[j];
      acc[t] := Add(acc[t], vote.normal);
    }
    assert nb[..|nb|] == nb;
  }

  /** The scatter into `projective_normals`: one slot per sample, starting at
      (0,0,0), receiving every face's votes in turn. */
  method Scatter(n: nat, votes: seq<FaceVote>) returns (acc: array<Vec3>)
    requires NeighborsInRange(votes, n)
    ensures fresh(acc) && acc.Length == n
    ensures forall s :: 0 <= s < n ==> acc[s] == Accumulated(votes, s)
  {
    acc := new Vec3[n](_ => Zero);
    for i := 0 to |votes|
      invariant forall s :: 0 <= s < n ==> acc[s] == Accumulated(votes[..i], s)
    {
      ScatterFace(acc, votes[i]);
      assert votes[..i + 1][..i] == votes[..i];
    }
    assert votes[..|votes|] == votes;
  }

  /** The scatter followed by the normalisation of every slot: each sample's entry
      is its normalised accumulator. */
  method ProjectiveNormals(n: nat, votes: seq<FaceVote>, sqrt: real -> real) returns (proj: seq<Vec3>)
    requires NeighborsInRange(votes, n)
    requires PositiveRoot(sqrt)
    ensures |proj| == n
    ensures forall s :: 0 <= s < n ==> proj[s] == Normalized(Accumulated(votes, s), sqrt)
  {
    var acc := Scatter(n, votes);
    for s := 0 to n
      invariant forall r :: 0 <= r < s ==> acc[r] == Normalized(Accumulated(votes, r), sqrt)
      invariant forall r :: s <= r < n ==> acc[r] == Accumulated(votes, r)
    {
      acc[s] := Normalize(acc[s], sqrt);
    }
    proj := acc[..];
  }
}
