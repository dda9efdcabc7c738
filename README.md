# Iterative Poisson surface reconstruction, modelled in Dafny

This project models iPSR (iterative Poisson surface reconstruction), from the
sampled points up to the file written at the end. The points start with random
normals. Each epoch then does four things:
- it reconstructs a surface;
- it lets every triangle of that surface vote its face vector to the `k` samples
  nearest its centroid;
- it replaces every voted normal by the normalised sum of its votes;
- it measures how much the largest changes moved.

The loop stops after `iters` epochs, or earlier once the mean of the square roots
of the top `ceil(n/1000)` squared changes drops below 0.175. A final reconstruction
is written as an ASCII PLY file. The command-line front end is modelled too: the
flag pairs, the ".ply" name checks, and `valid_parameter` with the cast to `int`.

The modules follow the two source files:

| module | file | models |
|---|---|---|
| `Geometry` | geometry.dfy | the vector arithmetic the loop uses, and `operator==` and `normalize` of Src/utility.h |
| `Samples` | samples.dfy | samples, meshes and `transform` |
| `Text` | text.dfy | `split`, numerals (`to_string`, stream output of integers) and `tolower` |
| `Initialization` | initialization.dfy | the random initialisation loop of `ipsr` |
| `Projection` | projection.dfy | the per-face pass, the scatter into `projective_normals` and their normalisation |
| `Convergence` | convergence.dfy | the top-k min-heap, the normal overwrite and the average |
| `Refinement` | refinement.dfy | the solver command line, one epoch, the epoch loop and `ipsr` as a whole |
| `PlyOutput` | plyoutput.dfy | `output_ply` |
| `CommandLine` | cli.dfy | `main`'s argument loop, `valid_parameter` and the usage check |
| `Options` | options.dfy | an `Option` type |

Each modelled function that loops in the source is a method with a `while` or `for` loop. The
method is proved equal to a specification function, and lemmas state what that
function promises. Examples: `Split` and `Tokens`, `Normalize` and `Normalized`,
`ScanAndOverwrite` and `HeapScan`/`Overwritten`, `RunEpoch` and `EpochResult`,
`Ipsr` and `Run`, `ParseCommandLine` and `ParseFrom`. The sample list that `ipsr`
updates in place is an `array<Sample>`.

In three places the code does something a reader might not expect; the model follows the code:
- An empty heap is not guarded. The average is 0/0, which is not a number. That
  metric never compares below the threshold, so such an epoch never stops the
  loop (`Convergence.Average`, `Refinement.NoVotesRunsEveryEpoch`).
- A point weight that reads as not-a-number passes the check in `main`. Every
  comparison with it is false (`CommandLine.PointWeightAcceptedIff`).
- No check rejects an empty point set before the loop. With no samples the heap
  capacity is 0 and nothing is pushed.

## Model

| member | source | states |
|---|---|---|
| Geometry.SquaredNormExpanded | Src/utility.h:186-188 | the length loop of `normalize` sums to x*x + y*y + z*z |
| Geometry.SquaredNormFacts | Src/utility.h:186-189 | the squared length is never negative, and it is 0 exactly for (0,0,0) |
| Geometry.PartialSquaresFacts | Src/utility.h:187-188 | the running sum of squares is never negative, and it is positive once a coordinate seen so far is not 0 |
| Geometry.SquaredNormScale | Src/utility.h:192-193 | multiplying every coordinate by t multiplies the squared length by t*t |
| Geometry.Equals | Src/utility.h:174-181 | the comparison is true exactly when the two normals agree in every coordinate |
| Geometry.Normalize | Src/utility.h:183-195 | the in-place loop yields `Normalized`: the vector unchanged when its squared length is 0, otherwise each coordinate divided by the root of the squared length |
| Geometry.NormalizedZeroIff | Src/utility.h:189-194 | normalising gives (0,0,0) exactly when the input is (0,0,0), which is returned unchanged |
| Geometry.NormalizedIsUnit | Src/utility.h:189-194 | a vector whose squared length is not 0, normalised with an exact root, has squared length 1 |
| Geometry.NonZeroNormalizedIsUnit | Src/utility.h:186-194 | every vector other than (0,0,0), normalised with an exact root, has squared length 1 |
| Samples.Transformed | Src/utility.h:36-42 | applying the transform keeps the count and every normal, and maps every position through the transform |
| Samples.Transform | Src/utility.h:36-42 | the in-place loop leaves exactly `Transformed` of the old array |
| Text.RunLength | Src/utility.h:206-211 | the do-while stops at the first separator after the token start, or at the end of the string |
| Text.RunLengthOf | Src/utility.h:206-211 | any length that is separator-free and ends at a separator or at the end is the run length |
| Text.Split | Src/utility.h:197-219 | the loop returns exactly `Tokens(s, c)` |
| Text.SkipSeparators | Src/utility.h:203-204 | the first inner loop stops at the end or at a non-separator, and the separators it steps over contribute no token |
| Text.RunEnd | Src/utility.h:206-211 | the do-while ends one past `pos` or later, at a separator or the end, with no separator in between |
| Text.TokensWellFormed | Src/utility.h:201-215 | every token is non-empty and holds no separator |
| Text.TokensOfSeparators | Src/utility.h:201-215 | a string made only of separators, including the empty string, gives no tokens |
| Text.SingleToken | Src/utility.h:197-219 | a non-empty word without separators splits into itself |
| Text.JoinTokens | Src/utility.h:197-219 | joining the tokens with single separators gives the string with leading and trailing separators dropped and runs squeezed to one |
| Text.TokensConcat | Src/utility.h:197-219 | splitting `x + c + y` gives the tokens of `x` followed by the tokens of `y` |
| Text.SplitJoin | Src/utility.h:197-219 | round trip: splitting words joined by single separators gives back the words, when the words are non-empty and separator-free |
| Text.AppendWord | Src/utility.h:197-219 | appending a space and a word appends exactly that word to the tokens |
| Text.Digit | Src/main.cpp:42 | each digit is a character from '0' to '9' |
| Text.NatToString | Src/main.cpp:42 | a numeral is non-empty and made of decimal digits |
| Text.IntToString | Src/main.cpp:42 | the text of an integer is non-empty and has no space |
| Text.IntToStringSign | Src/main.cpp:42 | the text of an integer starts with '-' exactly when the integer is negative, followed by the numeral of its magnitude |
| Text.NatToStringValue | Src/main.cpp:42 | round trip: reading a written numeral back gives the number |
| Text.LowerChar | Src/main.cpp:180-181 | `tolower` maps 'A'..'Z' to 'a'..'z' and leaves every other character alone |
| Text.Lower | Src/main.cpp:180-181 | lower-casing keeps the length and lower-cases each character in place |
| Initialization.Component | Src/main.cpp:60 | `rand() % 1001 - 500.0` is a whole number between -500 and 500 |
| Initialization.Draw | Src/main.cpp:60 | three consecutive draws give a vector of such components |
| Initialization.FirstNonZero | Src/main.cpp:58-61 | the do-while ends on a non-zero drawn vector, after a whole number of three-draw attempts, and that vector is the last attempt |
| Initialization.FirstNonZeroSkipsZeros | Src/main.cpp:58-61 | every attempt before the accepted one drew (0,0,0); when the draws run out, every complete attempt drew (0,0,0) |
| Initialization.InitialVectors | Src/main.cpp:55-64 | one accepted non-zero drawn vector per sample, drawing no more than the draws available |
| Initialization.Initialized | Src/main.cpp:55-64 | initialisation keeps the count and every position |
| Initialization.InitializedNormalsNonZero | Src/main.cpp:55-64 | after initialisation every normal is non-zero: the normalised form of its non-zero draw |
| Initialization.ExhaustedStays | Src/main.cpp:55-64 | once the draws run out for some samples, they run out for every longer run |
| Initialization.VectorsStep | Src/main.cpp:56-63 | the vectors for one more sample are the previous ones plus the next do-while's vector, or none when that do-while runs out |
| Initialization.DrawNormal | Src/main.cpp:58-61 | the do-while for one sample succeeds exactly when `FirstNonZero` does; it stores that vector and changes no other sample and no position |
| Initialization.InitSample | Src/main.cpp:58-62 | one pass of the loop fails exactly when the do-while runs out of draws; otherwise it stores the normalised accepted vector in that sample alone; positions never move |
| Initialization.RandomInit | Src/main.cpp:55-64 | the loop succeeds exactly when the draws suffice, leaves `Initialized` of the old samples, and never moves a position |
| Projection.FacePass | Src/main.cpp:94-109 | one vote per face: a triangle's `k` nearest samples to its centroid with the cross product of two edges; no vote for any other face |
| Projection.FaceVoteOf | Src/main.cpp:101-108 | a face that is not a triangle casts no vote; a triangle votes for the samples the kd-tree returns for its centroid |
| Projection.FaceVotePerpendicular | Src/main.cpp:107 | the vector a triangle votes is perpendicular to both of its sides at the first corner |
| Projection.ContributionCounts | Src/main.cpp:115-120 | a face adds its vector to a sample once per occurrence of the sample in its neighbour list |
| Projection.AccumulatedIsVoteSum | Src/main.cpp:112-121 | each accumulator is the sum over faces of the face vector times the number of times the face named the sample |
| Projection.UnnamedStaysZero | Src/main.cpp:112-121 | a sample no face names keeps the accumulator (0,0,0) |
| Projection.NonTriangleNoVote | Src/main.cpp:101-108 | a face that is not a triangle contributes nothing to any sample |
| Projection.ScatterFace | Src/main.cpp:115-120 | the inner loop adds the face's contribution to every slot and changes nothing else |
| Projection.Scatter | Src/main.cpp:112-121 | a fresh array of one slot per sample that ends holding `Accumulated` for every sample |
| Projection.ProjectiveNormals | Src/main.cpp:112-125 | every sample's entry is its normalised accumulator |
| Convergence.HeapCapacity | Src/main.cpp:128 | `ceil(n / 1000.0)`: the least capacity whose thousandfold covers n, and at least 1 for any non-empty sample list |
| Convergence.Insert | Src/main.cpp:136 | a push keeps the heap sorted, grows it by one, and the top is the pushed value or the old top |
| Convergence.InsertAdds | Src/main.cpp:136 | a push adds exactly the pushed value to the heap's contents and removes nothing |
| Convergence.HeapStep | Src/main.cpp:135-141 | one offer keeps the heap sorted and within its capacity |
| Convergence.HeapScan | Src/main.cpp:129-145 | the heap after the scan is sorted and within its capacity |
| Convergence.HeapScanIsTopK | Src/main.cpp:129-145 | the heap holds a largest `min(cap, count)` of the offered values: a sub-multiset of them, and every value left out is at most the top |
| Convergence.HeapStepKeepsTopK | Src/main.cpp:135-141 | one offer keeps the top-k property |
| Convergence.PushBelowCapacity | Src/main.cpp:135-136 | pushing below capacity keeps the top-k property |
| Convergence.ReplaceTop | Src/main.cpp:137-141 | when the heap is full and the value beats the top, popping and pushing keeps the top-k property |
| Convergence.Overwritten | Src/main.cpp:130-145 | a sample whose projected normal is (0,0,0) keeps its normal; every other sample takes its projected normal; no position moves |
| Convergence.NoVotesNoDiffs | Src/main.cpp:130-134 | with no non-zero projected normal nothing is offered to the heap |
| Convergence.DiffsStep | Src/main.cpp:130-134 | visiting one more sample offers its squared change exactly when its projected normal is non-zero |
| Convergence.Diffs | Src/main.cpp:130-134 | the heap is offered at most one squared change per sample, and none is negative |
| Convergence.Offer | Src/main.cpp:135-141 | the push-or-replace step equals `HeapStep` |
| Convergence.Visit | Src/main.cpp:132-144 | one iteration of the scan: the heap and the sample change only when the projected normal is non-zero, and no other sample changes |
| Convergence.ScanAndOverwrite | Src/main.cpp:128-145 | the scan leaves the heap `HeapScan` of the changes and the samples `Overwritten` |
| Convergence.SumRootsBounds | Src/main.cpp:149-153 | the sum of the roots lies between the count times the least root and the count times the largest |
| Convergence.Average | Src/main.cpp:147-154 | the metric is not a number exactly when the heap is empty, and otherwise it is the mean of the roots |
| Convergence.MeanBounds | Src/main.cpp:147-154 | the mean lies between the least and the largest root |
| Convergence.ConvergedByRoots | Src/main.cpp:147-157 | an empty heap never stops the loop; a heap whose roots all lie at or below a bound under 0.175 stops it, and one whose roots are all at least 0.175 does not |
| Refinement.SolverCommandWords | Src/main.cpp:42-46 | splitting the command gives the solver exactly its eleven words, with the depth and the weight as written, when the weight text is one word |
| Refinement.SolverCommandLiteral | Src/main.cpp:42 | the command is the source's string literal with the depth and the point weight put in their places |
| Refinement.Votes | Src/main.cpp:94-109 | one vote per face of the mesh |
| Refinement.VotesInRange | Src/main.cpp:94-121 | with a kd-tree that returns existing samples, every index the scatter writes names a sample |
| Refinement.Projected | Src/main.cpp:92-125 | one projected normal per sample |
| Refinement.EpochResult | Src/main.cpp:92-154 | an epoch keeps the number of samples |
| Refinement.Run | Src/main.cpp:82-158 | the loop keeps the number of samples |
| Refinement.RunEpochsBounded | Src/main.cpp:82-158 | the loop runs at most `iters` epochs, and at least one when `iters` is positive |
| Refinement.RunKeepsPositions | Src/main.cpp:82-158 | the refinement never moves a sample; only normals change |
| Refinement.EpochUpdate | Src/main.cpp:112-145 | in an epoch a sample with a zero accumulator keeps its normal, and every other sample takes its normalised accumulator |
| Refinement.NeverNamedKeepsNormal | Src/main.cpp:82-158 | a sample the kd-tree never returns keeps its normal for the whole run |
| Refinement.NoVotesEpoch | Src/main.cpp:112-154 | with no votes an epoch changes nothing and its metric is not a number |
| Refinement.NoVotesRunsEveryEpoch | Src/main.cpp:82-158 | with no votes the loop never stops early and runs all `iters` epochs with the samples unchanged |
| Refinement.RunEpoch | Src/main.cpp:85-157 | one epoch on the array leaves the samples and the metric given by `EpochResult` |
| Refinement.Refine | Src/main.cpp:82-158 | the epoch loop leaves the samples and epoch count given by `Run`, and reconstructs once per epoch |
| Refinement.Ipsr | Src/main.cpp:34-162 | `ipsr` fails only when the draws run out. Otherwise it ends with the samples and epoch count of `Run`, reconstructs once more than it ran epochs, and writes `PlyText` of the final mesh exactly when the file opens |
| Refinement.IpsrBounds | Src/main.cpp:82-160 | a run performs between 1 and `iters` epochs when `iters` is positive, and none otherwise |
| PlyOutput.IndexWords | Src/utility.h:86-89 | the numerals of a face's indices, one per index, in order |
| PlyOutput.FaceLineWords | Src/utility.h:86-89 | a face line splits into the face size followed by each index, and the size reads back as the index count |
| PlyOutput.CountLineWords | Src/utility.h:70-74 | a count line splits into "element", the element's name and a numeral that reads back as the count |
| PlyOutput.VertexLineWords | Src/utility.h:78-82 | a vertex line splits into its three coordinates in order, when each is written as one word |
| PlyOutput.WriteFace | Src/utility.h:86-89 | the inner loop writes the face size, then a space and each index |
| PlyOutput.VertexLines | Src/utility.h:78-82 | one line per vertex, in order, each the transformed vertex's coordinates |
| PlyOutput.FaceLines | Src/utility.h:84-90 | one line per face, in order, each that face's line |
| PlyOutput.WriteVertices | Src/utility.h:78-82 | one line per vertex, holding its transformed coordinates, in order |
| PlyOutput.WriteFaces | Src/utility.h:84-90 | one line per face, in order |
| PlyOutput.PlyText | Src/utility.h:69-90 | the file is the nine header lines, one line per transformed vertex, then one line per face |
| PlyOutput.HeaderMatchesBody | Src/utility.h:69-90 | the counts the header declares read back as the numbers of vertex and face lines that follow it |
| PlyOutput.OutputPly | Src/utility.h:55-93 | returns false and writes nothing when the file does not open; otherwise returns true and writes `PlyText` |
| CommandLine.Int32 | Src/main.cpp:208 | `static_cast<int>` gives a signed 32-bit value congruent to the input modulo 2^32 |
| CommandLine.ValidParameterSurvivesCast | Src/utility.h:221-224 | a value passing `valid_parameter` is positive and survives the cast unchanged; 0 and INT_MAX are refused |
| CommandLine.PointWeightAcceptedIff | Src/main.cpp:212-217 | the point weight is accepted exactly when it is finite and non-negative, or not a number |
| CommandLine.LastDot | Src/main.cpp:179 | `min(find_last_of('.'), length())`: the index of the last '.', or the length when there is none |
| CommandLine.IsPlyNameIff | Src/main.cpp:179-186 | a name is accepted exactly when it ends in '.' followed by "ply" in any case; a name with no dot is refused |
| CommandLine.CheckExtension | Src/main.cpp:179-182 | the lower-casing loop and comparison accept exactly the names `IsPlyName` accepts |
| CommandLine.ParseCommandLine | Src/main.cpp:174-256 | the argument loop decides exactly as `ParseFrom` from position 1 and the defaults |
| CommandLine.Apply | Src/main.cpp:176-238 | each flag halts with its own reason exactly when its value fails that flag's check; otherwise it stores the value read (a name, `strtod`'s double, or `strtol`'s number, unchanged by the cast) in its own setting and changes nothing else |
| CommandLine.Finish | Src/main.cpp:246-256 | after the loop the program launches with the settings unchanged, which then hold both names, or stops with the usage |
| CommandLine.ParseFrom | Src/main.cpp:174-256 | a launch holds both names; an unknown-flag stop names a word of the command line that is not a flag; a missing-value stop names a known flag in the last position |
| CommandLine.LaunchFlagsKnown | Src/main.cpp:174-243 | a launch means every position the loop visits holds a known flag with a value after it |
| CommandLine.MainLaunchFlagsKnown | Src/main.cpp:174-243 | from position 1 and the defaults, a launch means positions 1, 3, 5, ... each hold a known flag with a value after it |
| CommandLine.LaunchSettings | Src/main.cpp:174-238 | in a launch, every setting holds the value after the last occurrence of its flag, or its incoming value when the flag does not occur |
| CommandLine.MainLaunchSettings | Src/main.cpp:167-267 | `ipsr` receives, for every setting, the value after the last occurrence of its flag, or the default when the flag does not occur |
| CommandLine.ApplyKeepsReached | Src/main.cpp:176-238 | storing a checked value keeps every setting valid and every name traceable to its flag |
| CommandLine.LaunchIsValidated | Src/main.cpp:174-256 | from any reached configuration, a launch carries a sound configuration with both names set |
| CommandLine.MainLaunchIsValidated | Src/main.cpp:167-267 | `ipsr` is only called with two ".ply" names, each given after its flag, and with settings that pass their checks |
| CommandLine.MinimalCommandLine | Src/main.cpp:167-256 | `prog --in a.ply --out b.ply` launches with the defaults for everything else; without `--out` it prints the usage and stops |

## Left out

- `ply_reader` and `sample_points` are not part of this model. They read the file, sample it on the solver's octree and return the inverse transform. `Ipsr` starts from the sampled points, and the inverse transform is an opaque map in `Sink`.
- The Poisson solver (`poisson_reconstruction`) is an opaque function from the command words and samples to a mesh. The model relies only on its triangles naming existing vertices (`Honest`). The model does not carry the sample weights that the sampler and solver exchange.
- The kd-tree is an opaque query returning at most `k` indices of existing samples. Building it is not modelled.
- Floating point: coordinates are exact reals. `sqrt` is a parameter known only to be positive on positive inputs.
- Geometry.NormalizedIsUnit: proved only under an exact square root. A floating-point `sqrt` gives unit length only up to rounding.
- `rand()` after `srand(0)` is a finite list of draws. The model consumes x, y, z in that order, although C++ leaves the order of the three calls unspecified. Running out of draws ends `Ipsr` with None, which the source cannot do.
- The OpenMP parallel loops are sequential here. Each iteration writes its own slot.
- `printf` progress messages and the usage text are left out. The usage case is the `Usage` reason.
- The text of the point weight is a parameter of the solver command. The text of a coordinate is the `fmt` parameter of `Sink`. `std::to_string` of a double and stream formatting of floats are not modelled.
- `strtol` and `strtod` are parameters. Saturation of `strtol` at the limits of `long` is not modelled. Any value outside the valid range is refused anyway.
- The command line is passed to `ipsr` as parsed settings. Launching `Ipsr` from `main`'s `Config` is not written as one method, because the point weight reaches the solver only as text (`to_string`, Src/main.cpp:42), and the file names reach only `ply_reader` and `output_ply`, which the model abstracts.
- A flag in the last position has no value, and reading `argv[i + 1]` there is undefined behaviour in the source. The model stops with `MissingValue`.
- Whether the output file opens is the `opens` flag of `Sink`. Failures to read the input file are not modelled.
- The two parallel vectors `nearestSamples` and `normals` are one array of `FaceVote` values.
- Refinement.Run: its own contract states only that the sample count is kept. What the loop does is stated by `RunEpochsBounded`, `RunKeepsPositions`, `NeverNamedKeepsNormal` and `NoVotesRunsEveryEpoch`.
- Refinement.EpochResult: its own contract states only that the sample count is kept. What an epoch does is stated by `EpochUpdate`, `NoVotesEpoch` and the contract of `RunEpoch`.
- `output_sample_points_and_normals` and `output_all_points_and_normals` (Src/utility.h:95-172) are not modelled. Their only calls, at Src/main.cpp:163-164, are commented out.
- Refinement.Refine: `calls` counts loop iterations, one per solver call in the body. It is not a log of the solver's invocations.
- Geometry.NonZeroNormalizedIsUnit: proved only under an exact square root, like `NormalizedIsUnit`.
