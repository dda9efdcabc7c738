/** `ipsr` of Src/main.cpp: initialise the normals at random, then alternate a
    surface reconstruction with a re-estimation of every normal from the faces
    near it, at most `iters` times, stopping early once the largest changes are
    small, and reconstruct once more at the end. */
module Refinement {
  import opened Geometry
  import opened Options
  import opened Samples
  import opened Text
  import opened Initialization
  import opened Projection
  import opened Convergence
  import opened PlyOutput

  /** The parts of the program that are not modelled: the surface solver, given
      its command-line words and the samples; the kd-tree query, given a point and
      a neighbour count; and the platform square root. */
  datatype External = External(
    reconstruct: (seq<string>, seq<Sample>) -> Mesh,
    knn: (Vec3, int) -> seq<int>,
    sqrt: real -> real)

  /** What the final write depends on and the model does not compute: the inverse
      transform the sampler hands back, how the output stream writes a coordinate,
      and whether the output file can be opened. */
  datatype Sink = Sink(xform: Vec3 -> Vec3, fmt: real -> string, opens: bool)

  /** What the program relies on from those parts for a run over `n` samples: the
      solver's triangles name existing vertices, the kd-tree returns at most `k`
      indices of existing samples, and roots of positive numbers are positive. */
  ghost predicate Honest(ext: External, n: nat) {
    (forall args, pts :: TrianglesInRange(ext.reconstruct(args, pts)))
    && (forall p, k :: 0 <= k ==> |ext.knn(p, k)| <= k)
    && (forall p, k, j :: 0 <= j < |ext.knn(p, k)| ==> 0 <= ext.knn(p, k)[j] < n)
    && PositiveRoot(ext.sqrt)
  }

  /** The words the solver receives: the fixed options, then the depth and the
      point weight as written. */
  function SolverWords(depth: int, weight: string): seq<string> {
    ["PoissonRecon", "--in", "i.ply", "--out", "o.ply", "--bType", "2", "--depth", IntToString(depth), "--pointWeight", weight]
  }

  /** The command line handed to the solver before it is split: those words with
      one space between neighbours. */
  function SolverCommand(depth: int, weight: string): string {
    Join(SolverWords(depth, weight), ' ')
  }

  /** The command is the source's string literal with the depth and the weight
      put in their places. */
  lemma SolverCommandLiteral(depth: int, weight: string)
    ensures SolverCommand(depth, weight)
         == "PoissonRecon --in i.ply --out o.ply --bType 2 --depth " + IntToString(depth) + " --pointWeight " + weight
  {
    var d := IntToString(depth);
    var fixed := ["PoissonRecon", "--in", "i.ply", "--out", "o.ply", "--bType", "2", "--depth"];
    var back := [d, "--pointWeight", weight];
    FixedWordsJoined();
    ValueWordsJoined(d, weight);
    assert SolverWords(depth, weight) == fixed + back;
    JoinAppend(fixed, back, ' ');
    assert Join(fixed, ' ') + [' '] + Join(back, ' ') == (Join(fixed, ' ') + " ") + Join(back, ' ');
  }

  lemma FixedWordsJoined()
    ensures Join(["PoissonRecon", "--in", "i.ply", "--out", "o.ply", "--bType", "2", "--depth"], ' ') + " "
         == "PoissonRecon --in i.ply --out o.ply --bType 2 --depth "
  {
    var front := ["PoissonRecon", "--in", "i.ply", "--out"];
    var middle := ["o.ply", "--bType", "2", "--depth"];
    assert front + middle == ["PoissonRecon", "--in", "i.ply", "--out", "o.ply", "--bType", "2", "--depth"];
    JoinAppend(front, middle, ' ');
    FrontJoined();
    MiddleJoined();
    FixedLiteral();
  }

  lemma FixedLiteral()
    ensures "PoissonRecon --in i.ply --out" + " " + "o.ply --bType 2 --depth" + " "
         == "PoissonRecon --in i.ply --out o.ply --bType 2 --depth "
  {
  }

  lemma FrontJoined()
    ensures Join(["PoissonRecon", "--in", "i.ply", "--out"], ' ') == "PoissonRecon --in i.ply --out"
  {
  }

  lemma MiddleJoined()
    ensures Join(["o.ply", "--bType", "2", "--depth"], ' ') == "o.ply --bType 2 --depth"
  {
  }

  lemma ValueWordsJoined(d: string, weight: string)
    ensures Join([d, "--pointWeight", weight], ' ') == d + " --pointWeight " + weight
  {
    var back := [d, "--pointWeight", weight];
    assert back[1..] == ["--pointWeight", weight];
    assert back[1..][1..] == [weight];
    assert Join(back[1..], ' ') == "--pointWeight" + [' '] + weight;
    assert Join(back, ' ') == d + [' '] + ("--pointWeight" + [' '] + weight);
    assert " --pointWeight " == [' '] + "--pointWeight" + [' '];
  }

  /** Splitting the command gives exactly eleven words, the depth and the weight
      among them unchanged, when the weight is written as one word. */
  lemma SolverCommandWords(depth: int, weight: string)
    requires Word(weight)
    ensures Tokens(SolverCommand(depth, weight), ' ') == SolverWords(depth, weight)
  {
    var words := SolverWords(depth, weight);
    assert forall i :: 0 <= i < |words| ==> words[i] != [] && ' ' !in words[i];
    SplitJoin(words, ' ');
  }

  /** The votes of all faces of a mesh. */
  function Votes(mesh: Mesh, knn: (Vec3, int) -> seq<int>, k: int): (votes: seq<FaceVote>)
    requires TrianglesInRange(mesh)
    ensures |votes| == |mesh.faces|
  {
    seq(|mesh.faces|, i requires 0 <= i < |mesh.faces| => FaceVoteOf(mesh, i, knn, k))
  }

  /** With an honest kd-tree every vote names existing samples. */
  lemma VotesInRange(ext: External, n: nat, mesh: Mesh, k: int)
    requires Honest(ext, n) && TrianglesInRange(mesh)
    ensures NeighborsInRange(Votes(mesh, ext.knn, k), n)
  {
    var votes := Votes(mesh, ext.knn, k);
    forall i, j | 0 <= i < |votes| && 0 <= j < |votes[i].neighbors|
      ensures 0 <= votes[i].neighbors[j] < n
    {
      if |mesh.faces[i]| == 3 {
        var f := mesh.faces[i];
        var a, b, c := mesh.vertices[f[0]], mesh.vertices[f[1]], mesh.vertices[f[2]];
        assert votes[i].neighbors == ext.knn(Centroid(a, b, c), k);
      }
    }
  }

  /** The projected normal of every sample in an epoch: its normalised accumulator. */
  function Projected(args: seq<string>, pts: seq<Sample>, ext: External, k: int): (proj: seq<Vec3>)
    requires Honest(ext, |pts|)
    ensures |proj| == |pts|
  {
    var votes := Votes(ext.reconstruct(args, pts), ext.knn, k);
    seq(|pts|, s requires 0 <= s < |pts| => Normalized(Accumulated(votes, s), ext.sqrt))
  }

  /** The samples and the metric after one epoch. */
  function EpochResult(args: seq<string>, pts: seq<Sample>, ext: External, k: int): (r: (seq<Sample>, Metric))
    requires Honest(ext, |pts|)
    ensures |r.0| == |pts|
  {
    var proj := Projected(args, pts, ext, k);
    var heap := HeapScan(Diffs(pts, proj), HeapCapacity(|pts|));
    (Overwritten(pts, proj), if heap == [] then NotANumber else Mean(SumRoots(heap, ext.sqrt) / |heap| as real))
  }

  /** The epoch loop from `epoch` on: the final samples and the number of epochs
      run when the loop ends, by exhaustion or by convergence. */
  function Run(args: seq<string>, pts: seq<Sample>, epoch: int, iters: int, ext: External, k: int): (r: (seq<Sample>, int))
    requires Honest(ext, |pts|)
    ensures |r.0| == |pts|
    decreases iters - epoch
  {
    if epoch >= iters then (pts, epoch)
    else
      var next := EpochResult(args, pts, ext, k);
      if Converged(next.1) then (next.0, epoch + 1) else Run(args, next.0, epoch + 1, iters, ext, k)
  }

  /** The loop runs at most `iters` epochs, and at least one when `iters` is positive. */
  lemma {:induction false} RunEpochsBounded(args: seq<string>, pts: seq<Sample>, epoch: int, iters: int, ext: External, k: int)
    requires Honest(ext, |pts|)
    ensures epoch >= iters ==> Run(args, pts, epoch, iters, ext, k).1 == epoch
    ensures epoch < iters ==> epoch + 1 <= Run(args, pts, epoch, iters, ext, k).1 <= iters
    decreases iters - epoch
  {
    if epoch < iters {
      var next := EpochResult(args, pts, ext, k);
      if !Converged(next.1) {
        RunEpochsBounded(args, next.0, epoch + 1, iters, ext, k);
      }
    }
  }

  /** The refinement never moves a sample: only normals change. */
  lemma {:induction false} RunKeepsPositions(args: seq<string>, pts: seq<Sample>, epoch: int, iters: int, ext: External, k: int)
    requires Honest(ext, |pts|)
    ensures Positions(Run(args, pts, epoch, iters, ext, k).0) == Positions(pts)
    decreases iters - epoch
  {
    if epoch < iters {
      var next := EpochResult(args, pts, ext, k);
      if !Converged(next.1) {
        RunKeepsPositions(args, next.0, epoch + 1, iters, ext, k);
      }
    }
  }

  /** In one epoch a sample whose accumulator stayed (0,0,0) keeps its normal, and
      every other sample takes its normalised accumulator. */
  lemma EpochUpdate(args: seq<string>, pts: seq<Sample>, ext: External, k: int, s: int)
    requires Honest(ext, |pts|)
    requires 0 <= s < |pts|
    ensures var acc := Accumulated(Votes(ext.reconstruct(args, pts), ext.knn, k), s);
      var next := EpochResult(args, pts, ext, k).0;
      (acc == Zero ==> next[s] == pts[s])
      && (acc != Zero ==> next[s] == pts[s].(normal := Normalized(acc, ext.sqrt)))
  {
    var acc := Accumulated(Votes(ext.reconstruct(args, pts), ext.knn, k), s);
    NormalizedZeroIff(acc, ext.sqrt);
  }

  /** A sample the kd-tree never returns keeps its normal through the whole run. */
  lemma {:induction false} NeverNamedKeepsNormal(args: seq<string>, pts: seq<Sample>, epoch: int, iters: int, ext: External, k: int, s: int)
    requires Honest(ext, |pts|)
    requires 0 <= s < |pts|
    requires forall p, q :: s !in ext.knn(p, q)
    ensures Run(args, pts, epoch, iters, ext, k).0[s] == pts[s]
    decreases iters - epoch
  {
    if epoch < iters {
      var votes := Votes(ext.reconstruct(args, pts), ext.knn, k);
      assert forall i :: 0 <= i < |votes| ==> s !in votes[i].neighbors;
      UnnamedStaysZero(votes, s);
      EpochUpdate(args, pts, ext, k, s);
      var next := EpochResult(args, pts, ext, k);
      if !Converged(next.1) {
        NeverNamedKeepsNormal(args, next.0, epoch + 1, iters, ext, k, s);
      }
    }
  }

  /** When no face finds any sample, an epoch changes no normal and its metric is
      not a number. */
  lemma NoVotesEpoch(args: seq<string>, pts: seq<Sample>, ext: External, k: int)
    requires Honest(ext, |pts|)
    requires forall p, q :: ext.knn(p, q) == []
    ensures EpochResult(args, pts, ext, k) == (pts, NotANumber)
  {
    var proj := Projected(args, pts, ext, k);
    var votes := Votes(ext.reconstruct(args, pts), ext.knn, k);
    forall s | 0 <= s < |pts|
      ensures proj[s] == Zero
    {
      UnnamedStaysZero(votes, s);
      NormalizedZeroIff(Accumulated(votes, s), ext.sqrt);
    }
    NoVotesNoDiffs(pts, proj);
    assert HeapScan(Diffs(pts, proj), HeapCapacity(|pts|)) == [];
    assert Overwritten(pts, proj) == pts;
  }

  /** When no face finds any sample, the heap stays empty, the metric is not a
      number, and the loop never stops early: it runs every epoch. */
  lemma {:induction false} NoVotesRunsEveryEpoch(args: seq<string>, pts: seq<Sample>, epoch: int, iters: int, ext: External, k: int)
    requires Honest(ext, |pts|)
    requires forall p, q :: ext.knn(p, q) == []
    requires epoch <= iters
    ensures Run(args, pts, epoch, iters, ext, k) == (pts, iters)
    decreases iters - epoch
  {
    if epoch < iters {
      NoVotesEpoch(args, pts, ext, k);
      assert Run(args, pts, epoch, iters, ext, k) == Run(args, pts, epoch + 1, iters, ext, k);
      NoVotesRunsEveryEpoch(args, pts, epoch + 1, iters, ext, k);
    }
  }

  /** One epoch on the sample array: reconstruct, let the faces vote, normalise the
      sums, overwrite the voted normals while filling the heap, and average. */
  method RunEpoch(args: seq<string>, pts: array<Sample>, ext: External, k: int) returns (m: Metric)
    requires Honest(ext, pts.Length)
    modifies pts
    ensures (pts[..], m) == EpochResult(args, old(pts[..]), ext, k)
  {
    var mesh := ext.reconstruct(args, pts[..]);
    var votes := FacePass(mesh, ext.knn, k);
    assert votes == Votes(mesh, ext.knn, k);
    VotesInRange(ext, pts.Length, mesh, k);
    var proj := ProjectiveNormals(pts.Length, votes, ext.sqrt);
    assert proj == Projected(args, pts[..], ext, k);
    var heap := ScanAndOverwrite(pts, proj);
    m := Average(heap, ext.sqrt);
  }

  /** The epoch loop of `ipsr`: at most `iters` epochs, leaving early once the
      metric converges; `calls` counts the reconstructions. */
  method Refine(args: seq<string>, pts: array<Sample>, iters: int, ext: External, k: int) returns (epoch: int, calls: int)
    requires Honest(ext, pts.Length)
    modifies pts
    ensures (pts[..], epoch) == Run(args, old(pts[..]), 0, iters, ext, k)
    ensures calls == epoch
  {
    ghost var start := pts[..];
    epoch := 0;
    calls := 0;
    while epoch < iters
      invariant calls == epoch
      invariant Run(args, pts[..], epoch, iters, ext, k) == Run(args, start, 0, iters, ext, k)
      decreases iters - epoch
    {
      ghost var before := pts[..];
      epoch := epoch + 1;
      var m := RunEpoch(args, pts, ext, k);
      calls := calls + 1;
      if Converged(m) {
        assert Run(args, before, epoch - 1, iters, ext, k) == (pts[..], epoch);
        break;
      }
    }
  }

  /** The outcome of a run: the final samples, the final mesh, the number of
      epochs, the number of calls to the solver, whether the output file was
      written and the lines written to it. */
  datatype Outcome = Outcome(samples: seq<Sample>, mesh: Mesh, epochs: int, reconstructions: int,
                             written: bool, file: seq<string>)

  /** `ipsr` from the sampled points on. Returns None only when the draws run out
      during the random initialisation. */
  method Ipsr(samples: seq<Sample>, draws: seq<nat>, iters: int, depth: int, weight: string, k: int, ext: External, sink: Sink)
    returns (r: Option<Outcome>)
    requires Honest(ext, |samples|)
    ensures r.None? <==> InitialVectors(draws, |samples|).None?
    ensures r.Some? ==>
      var start := Initialized(samples, InitialVectors(draws, |samples|).value.0, ext.sqrt);
      var args := Tokens(SolverCommand(depth, weight), ' ');
      var run := Run(args, start, 0, iters, ext, k);
      r.value.samples == run.0 && r.value.epochs == run.1
      && r.value.mesh == ext.reconstruct(args, run.0)
      && r.value.reconstructions == run.1 + 1
      && r.value.written == sink.opens
      && r.value.file == (if sink.opens then PlyText(r.value.mesh, sink.xform, sink.fmt) else [])
  {
    var args := Split(SolverCommand(depth, weight), ' ');
    var pts := new Sample[|samples|](i requires 0 <= i < |samples| => samples[i]);
    assert pts[..] == samples;
    var ok := RandomInit(pts, draws, ext.sqrt);
    if !ok {
      return None;
    }
    var epoch, calls := Refine(args, pts, iters, ext, k);
    var mesh := ext.reconstruct(args, pts[..]);
    calls := calls + 1;
    var written, file := OutputPly(mesh, sink.xform, sink.fmt, sink.opens);
    return Some(Outcome(pts[..], mesh, epoch, calls, written, file));
  }

  /** A run performs at most `iters` epochs, and at least one when `iters` is
      positive. */
  lemma IpsrBounds(samples: seq<Sample>, draws: seq<nat>, iters: int, depth: int, weight: string, k: int, ext: External)
    requires Honest(ext, |samples|)
    requires InitialVectors(draws, |samples|).Some?
    ensures var start := Initialized(samples, InitialVectors(draws, |samples|).value.0, ext.sqrt);
      var args := Tokens(SolverCommand(depth, weight), ' ');
      var run := Run(args, start, 0, iters, ext, k);
      (iters <= 0 ==> run.1 == 0) && (iters > 0 ==> 1 <= run.1 <= iters)
  {
    var start := Initialized(samples, InitialVectors(draws, |samples|).value.0, ext.sqrt);
    RunEpochsBounded(Tokens(SolverCommand(depth, weight), ' '), start, 0, iters, ext, k);
  }
}
