# Verified models of omnimodem's coding and protocol core

A Dafny model of the forward-error-correction toolkit in `crates/dsp/src/fec`, of the JSC
dictionary codec in `scratch/refvectors/js8/dumper.cpp`, of the duplicate filter in
`crates/dsp/src/ensemble.rs`, and of the auto-save pipeline of the terminal client's Configure
view. Loops, arrays and objects of the program appear as loops, arrays and classes here; each is
proved against a function or predicate that says what it is for, and the theorems are about those.
`dafny verify dfyconfig.toml` checks everything.

Soft bits, LLRs and metrics are exact reals; "minus infinity" is a constructor of its own. Words of
16 and 32 bits wrap explicitly (`Bits.U32`, `Crc.U16`). Code bits are the numbers 0 and 1.

## The parts

- `Bits`, `Options`, `SoftValues`: bits of numbers, registers as bit strings, ring positions, offsets of
  table rows.
- `ConvSpec`, `Conv`, `ConvSurvivors`, `ConvBlock`, `ConvStream`, `ConvTheorems`: the convolutional
  code and its two Viterbi decoders. Both rest on one dynamic-programming argument
  (`ConvSurvivors`). The streaming decoder's ghost history holds every soft value ever pushed; its
  contracts speak of paths through that whole history, so the ring, the stale cells in it and the
  renormalisation are invisible in them. The ring emits the bit `depth - 1` steps before the newest;
  the doc comment says `traceback` steps ago.
- `Walsh`: the in-place Hadamard transform and the soft Walsh decoder with its noise bound.
- `CrcSpec`, `PolyDivision`, `Crc`, `CrcBits`: both checksum routines against long division, what long division
  computes, burst detection, and every bit of message and result by its position. The doc comment of `ftx_compute_crc` says that only the first
  `num_bits` bits are used; the code leaves the other bits of the last byte XORed in, so the remainder
  comes out exactly when these are zero.
- `Jsc`, `JscText`, `JscExact`, `JscCompress`: the dense self-delimiting code, decompression of any
  stream, and greedy compression over an abstract well-formed dictionary.
- `MfskInterleave`, `Forney`, `BitReversal`: interleavers with exact delay and permutation laws.
- `Fano`, `FanoTree`, `FanoStall`: the sequential decoder. Its invariant, its success on clean input,
  and exactly when it finishes at all. Every move forward pulls the threshold back up to the level of
  the new node, not only the first visit of a node, so a node searched in vain is searched again in
  the same way for ever once its parent is below the threshold. `FanoTree.Explore` tells the outcome by
  a recursion on the code tree alone; `Completes` proves it right in both directions. The doc comment
  says that hopeless input exhausts the budget, and it is not the only input that does: after one good
  branch two erased ones stall the search even when all else arrives well (`GoodPathStalls`).
- `Ccir476`, `FecSpec`, `FecDecoder`, `FecLadder`, `FecSync`, `FecRun`: the SITOR code and the FEC-B receiver, the conversion
  tables being those of section 2 and the mode that of section 4 of Annex 1 of Recommendation
  ITU-R M.476-5. The receiver as a function on its state (`FecSpec`), the object that updates its
  buffer in place (`FecDecoder`), its repairs (`FecLadder`) and its phase search (`FecSync`) told without
  their bodies, and whole transmissions through it (`FecRun`). The bit-flip rule
  counts marks from one, so of its two repairs only one works (`FlipRepairs`).
- `Dedup`: the duplicate filter, pruned and unpruned.
- `Autosave`: the Configure view together with a daemon that confirms or fails saves in any order.
  The comment at the leave key promises that every change is saved first; a change made while the
  running save fails is dropped without having been tried, and `DroppedExactly` says when.

"Exactly" in the table below always means if and only if.

## Model

| member | source | states |
|---|---|---|
| `Conv.Encode` | crates/dsp/src/fec/conv.rs:47-59 | for every k of at least 1 and all 32-bit masks the shift-register loop puts out the zero-terminated code word of the low bits of the data: parities over an unbounded register, so wrap-around never shows |
| `Conv.ConvEncoder.Encode` | crates/dsp/src/fec/conv.rs:260-265 | appends the symbols of everything encoded since the last reset plus this bit; no tail |
| `Conv.ConvEncoder.Reset` | crates/dsp/src/fec/conv.rs:268-270 | a reset encoder has no past |
| `Conv.Consider` | crates/dsp/src/fec/conv.rs:84-100 | one trellis edge: a strictly better candidate replaces the metric, bit and predecessor of the state it enters, and nothing else changes; on a tie nothing changes at all |
| `Conv.AddCompareSelect` | crates/dsp/src/fec/conv.rs:79-101 | one step: no live edge beats the new metric of the state it enters, and every finite new metric is that of the edge recorded in the tables |
| `ConvSpec.PathMetricIsCorrelation` | crates/dsp/src/fec/conv.rs:86-93 | the branch metrics collected along an input string sum to the correlation of its code stream with the soft values |
| `ConvSpec.TrellisEdge` | crates/dsp/src/fec/conv.rs:85-89 | edge 2s+b, from a state that keeps only k-1 bits, enters the state and puts out the symbols that the unbounded register would |
| `ConvSpec.SymbolIsConvolution` | crates/dsp/src/fec/conv.rs:52-57 | each symbol is the convolution of the inputs with its generator, modulo two |
| `ConvSpec.ZeroTail` | crates/dsp/src/fec/conv.rs:105-111 | a path that ends in state 0 ends in k-1 zero bits |
| `ConvSurvivors.SurvivorsStep` | crates/dsp/src/fec/conv.rs:78-103 | principle of optimality: one add-compare-select step turns best paths into every state into best paths one bit longer, linked by the recorded decisions |
| `ConvSurvivors.SurvivorsRenormalise` | crates/dsp/src/fec/conv.rs:203-212 | taking one constant off all finite metrics changes no survivor and no comparison; it moves into the offset |
| `ConvSurvivors.FollowBack` | crates/dsp/src/fec/conv.rs:233-237 | one traceback step takes the last bit off a survivor |
| `ConvBlock.Sweep` | crates/dsp/src/fec/conv.rs:73-103 | after all steps the tables chain every survivor back to the start, and each reachable state holds a best path |
| `ConvBlock.TraceBack` | crates/dsp/src/fec/conv.rs:105-113 | following the tables back from state 0 spells its survivor |
| `ConvBlock.ViterbiDecode` | crates/dsp/src/fec/conv.rs:66-114 | the block decoder is maximum likelihood: no block of the same length has a code word that correlates better with the soft values, for every code and every vector of the right length |
| `ConvTheorems.CorrectsErrors` | crates/dsp/src/fec/conv.rs:61-114 | maximum likelihood corrects every pattern of fewer than dmin/2 flipped hard decisions |
| `ConvTheorems.DistinctCodewords` | crates/dsp/src/fec/conv.rs:47-59 | different blocks have different code words when some generator has bit 0 set |
| `ConvTheorems.FarApart` | crates/dsp/src/fec/conv.rs:47-59 | when every generator sees the newest and the oldest bit of the register, code words of different blocks differ in at least 2n places |
| `ConvTheorems.CorrectsFlips` | crates/dsp/src/fec/conv.rs:61-114 | such a code corrects any n - 1 flipped hard decisions, with no assumption on its distance |
| `ConvTheorems.OneFlip` | crates/dsp/src/fec/conv.rs:25-114 | each of the three predefined codes corrects any single flipped code bit |
| `ConvTheorems.RoundTrip` | crates/dsp/src/fec/conv.rs:47-114 | a block whose soft values agree in sign with its code word, each at any confidence, decodes to its data |
| `ConvTheorems.CodewordBit` | crates/dsp/src/fec/conv.rs:47-59 | bit j of step i of a code word is the convolution of the inputs up to i, and zeros before them, with generator j |
| `ConvTheorems.StreamAt` | crates/dsp/src/fec/conv.rs:52-57 | symbol j of step i of the stream is the j-th parity after i+1 input bits |
| `ConvTheorems.StandardCodes` | crates/dsp/src/fec/conv.rs:25-41 | the three predefined codes meet the conditions of the theorems |
| `ConvTheorems.CleanPath` | crates/dsp/src/fec/conv.rs:178-202 | over a stream whose soft values all agree in sign with the symbols sent, every path that puts out other symbols falls strictly behind |
| `ConvTheorems.CleanStreamRecovered` | crates/dsp/src/fec/conv.rs:178-239 | over a clean stream the only best path is the input sent, so what is emitted is that input whatever the traceback depth |
| `ConvStream.StreamingViterbi.constructor` | crates/dsp/src/fec/conv.rs:150-167 | a fresh decoder knows only the empty path; depth is at least one |
| `ConvStream.StreamingViterbi.Push` | crates/dsp/src/fec/conv.rs:178-239 | nothing until `depth` steps are in; from then on the bit emitted is the one `depth - 1` steps before the newest of some input string whose path metric over the whole history is largest: ring reuse, stale cells and renormalisation never show |
| `ConvStream.StreamingViterbi.TotalMetricIsBest` | crates/dsp/src/fec/conv.rs:171-213 | the accumulated score equals the largest path metric over all input strings of that length |
| `ConvStream.Renormalise` | crates/dsp/src/fec/conv.rs:203-212 | the best metric becomes zero, is always finite, and survivors stay survivors at the larger offset |
| `ConvStream.WalkBack` | crates/dsp/src/fec/conv.rs:230-238 | `depth` steps back through the ring reach the survivor's oldest retained bit |
| `ConvStream.RingGrows` | crates/dsp/src/fec/conv.rs:182-214 | writing the newest row keeps every row of the last `depth` steps readable at its ring position |
| `ConvStream.BestState` | crates/dsp/src/fec/conv.rs:223-229 | the last of the states with a largest metric, as `max_by` picks on ties |
| `ConvStream.BestSurvivor` | crates/dsp/src/fec/conv.rs:221-229 | the survivor of a state with a largest metric is a best path of all |
| `Walsh.Butterflies` | crates/dsp/src/fec/fht.rs:25-30 | one inner loop: sums below, differences above, everything else untouched |
| `Walsh.Pass` | crates/dsp/src/fec/fht.rs:23-32 | one middle loop turns all transformed blocks of size h into transformed blocks of size 2h |
| `Walsh.Fht` | crates/dsp/src/fec/fht.rs:18-35 | the in-place triple loop leaves a[k] equal to the quadratic sum of the input with signs (-1)^popcount(k AND i), for every power-of-two length |
| `Walsh.HadIsSum` | crates/dsp/src/fec/fht.rs:18-35 | the recursive halving form equals the quadratic sum |
| `Walsh.SelfInverse` | crates/dsp/src/fec/fht.rs:16-35 | the transform applied twice is n times the input |
| `Walsh.WalshSoftDecode` | crates/dsp/src/fec/fht.rs:42-54 | the first index of largest absolute correlation, and that correlation |
| `Walsh.Orthogonal` | crates/dsp/src/fec/fht.rs:9-14 | row k correlates with the sequence of symbol s to n times the amplitude if k = s and to 0 otherwise |
| `Walsh.NoiseBound` | crates/dsp/src/fec/fht.rs:37-54 | a symbol sent at any amplitude, inverted or not, is decoded under every noise vector whose absolute values sum to less than half of n times the amplitude |
| `Crc.Reflect` | crates/dsp/src/fec/crc.rs:53-60 | reverses the low bits |
| `Crc.Crc` | crates/dsp/src/fec/crc.rs:62-81 | the byte-wise register equals the bit-serial one on the message bits in register order, then reflected and XORed as specified |
| `Crc.AbsorbByte` | crates/dsp/src/fec/crc.rs:66-76 | one byte XORed on top and shifted eight times does what eight serial steps do |
| `CrcBits.MessageBitAt` | crates/dsp/src/fec/crc.rs:66-68 | bit j of the i-th byte as it enters: bit 7 - j of the byte, or bit j when input is reflected |
| `CrcBits.GeneratorBit` | crates/dsp/src/fec/crc.rs:62-76 | the generator below its leading term, coefficient by coefficient |
| `CrcBits.CrcBit` | crates/dsp/src/fec/crc.rs:62-81 | bit k of the result is coefficient k of the remainder, or width - 1 - k when output is reflected, exclusive-or bit k of xorout, and nothing stands above the width |
| `CrcSpec.FeedLoaded` | crates/dsp/src/fec/crc.rs:68-75 | why loading a byte ahead of its shifts is sound |
| `CrcSpec.FeedLinear` | crates/dsp/src/fec/crc.rs:66-76 | the register is linear in start value and message |
| `CrcSpec.FeedIsRemainder` | crates/dsp/src/fec/crc.rs:62-81 | the serial register is the remainder of long division by the generator |
| `PolyDivision.DivisionLaw` | crates/dsp/src/fec/crc.rs:62-81 | what that division computes: r is the remainder of a if and only if a = q * (x^w + poly) + r for some quotient q |
| `Crc.CrcIsRemainder` | crates/dsp/src/fec/crc.rs:62-81 | the register is (message * x^w + init * x^n) mod generator, for every spec of width 8 to 31 and any data |
| `CrcSpec.BurstShows` | crates/dsp/src/fec/crc.rs:66-76 | with an odd generator a nonzero burst no wider than the register leaves a nonzero register, however many zeros surround it |
| `Crc.BurstDetected` | crates/dsp/src/fec/crc.rs:62-81 | two messages that differ only inside a window of at most `width` register-order bits have different checksums, at any length |
| `Crc.FtxComputeCrc` | crates/dsp/src/fec/crc.rs:33-51 | the 16-bit register with unmasked high bits computes the 14-bit value of the counted bits with the uncounted bits of the last byte left XORed in |
| `Crc.CountedIsRemainder` | crates/dsp/src/fec/crc.rs:33-51 | that register is the remainder of the first num_bits bits XOR the uncounted rest of the last byte |
| `CrcBits.FirstBitAt` | crates/dsp/src/fec/crc.rs:39-43 | the bits counted are those of the bytes, highest first |
| `CrcBits.RoutinesAgree` | crates/dsp/src/fec/crc.rs:25-81 | over whole bytes the bit-counted routine and the byte-wise one with the FT8 parameters give the same value |
| `Crc.FtxIsRemainder` | crates/dsp/src/fec/crc.rs:28-51 | it is the remainder of the first num_bits bits if and only if the uncounted bits of the last byte are all zero |
| `Jsc.IntToBits` | scratch/refvectors/js8/dumper.cpp:28-33 | a value is written in as many bits as it needs, or as expected if that is more |
| `Jsc.BitsToInt` | scratch/refvectors/js8/dumper.cpp:34-36 | reads a bit string as a number |
| `Jsc.Codeword` | scratch/refvectors/js8/dumper.cpp:55-64 | bijective base-9 digits of index / 7, stored as 7..15, then index % 7 and the separator flag |
| `Jsc.ParseBits` | scratch/refvectors/js8/dumper.cpp:101-108 | splits a bit stream into digits and marks, reading a flag after each terminal digit |
| `JscText.Decompress` | scratch/refvectors/js8/dumper.cpp:93-122 | the loop over start, k, j and separators equals decoding the parsed stream word by word, and reports exactly when the source would read past its table of eight offsets |
| `JscText.IndexBack` | scratch/refvectors/js8/dumper.cpp:96-115 | the decoder's 32-bit Horner sum plus base[k] gives back every index below 262144: the code is dense |
| `JscText.ParseEncoded` | scratch/refvectors/js8/dumper.cpp:55-108 | concatenated code words parse back into exactly their digits and flags: the code is self-delimiting |
| `JscText.CodeRoundTrip` | scratch/refvectors/js8/dumper.cpp:55-122 | for every list of (index, flag) the decoder yields those words with a space after exactly the flagged ones, and never reads past the table |
| `JscText.ReadsBeyond` | scratch/refvectors/js8/dumper.cpp:96-115 | eight or more times the digit 7 and then a terminal digit do, under every non-empty dictionary |
| `JscExact.LeadExactly` | scratch/refvectors/js8/dumper.cpp:59-60 | the continuation digits of a number are the only digits 7..15 of that value in bijective base nine |
| `JscExact.ParseTiles` | scratch/refvectors/js8/dumper.cpp:101-108 | a stream is read to its end: the digits and flags read, written again, are the stream up to less than one digit, a missing last flag being read as clear |
| `JscExact.WordExactly` | scratch/refvectors/js8/dumper.cpp:111-117 | the decoder takes digits for word `index` if and only if they are the continuation digits of index / 7 and the terminal digit index % 7, and the word is in the table |
| `JscExact.AnyStream` | scratch/refvectors/js8/dumper.cpp:109-122 | on any stream the text is that of the code words the stream starts with, up to the first place where no word follows |
| `JscCompress.Lookup` | scratch/refvectors/js8/dumper.cpp:39-52 | the word of the first list entry the text starts with in the first block for its first character, if any |
| `JscCompress.FoundIsStart` | scratch/refvectors/js8/dumper.cpp:39-52 | on a well-formed table what lookup finds is a non-empty prefix of the text whose recorded size is its length |
| `JscCompress.FoundExactly` | scratch/refvectors/js8/dumper.cpp:39-52 | an index is found if and only if it is that of an entry the text starts with, no earlier entry of the block being a start of the text and no earlier block being for its first character |
| `JscCompress.LongestFound` | scratch/refvectors/js8/dumper.cpp:47-50 | in a block where no entry follows a proper prefix of itself the word found is the longest the text starts with |
| `JscCompress.SplitWords` | scratch/refvectors/js8/dumper.cpp:72-74 | splits at every space, keeping empty parts |
| `JscCompress.JoinSplit` | scratch/refvectors/js8/dumper.cpp:72-74 | joining the parts with single spaces gives the text back |
| `JscCompress.PartsHaveNoSpace` | scratch/refvectors/js8/dumper.cpp:72-74 | no part holds a space |
| `JscCompress.CompressWord` | scratch/refvectors/js8/dumper.cpp:79-87 | emits the greedy code words of one word, flagging the last if a space follows |
| `JscCompress.Compress` | scratch/refvectors/js8/dumper.cpp:69-90 | one pair per greedy token of the text: its code word, and the characters it stands for |
| `JscCompress.PairsStandFor` | scratch/refvectors/js8/dumper.cpp:68-90 | all the bits together are the code of the tokens, all the counts the length of the text they render |
| `JscCompress.TextRoundTrip` | scratch/refvectors/js8/dumper.cpp:69-122 | decompress(compress(text)) == text if and only if greedy lookup uses every word up, for every text and all its spaces |
| `JscCompress.WordsBack` | scratch/refvectors/js8/dumper.cpp:75-88 | otherwise the result is strictly shorter than the text |
| `JscCompress.AlphabetRoundTrip` | scratch/refvectors/js8/dumper.cpp:69-122 | with a one-character entry for every character used, every text comes back |
| `MfskInterleave.MfskInterleaver.ShiftBlock` | crates/dsp/src/fec/interleave.rs:215-221 | every row of one block moves left by one column |
| `MfskInterleave.MfskInterleaver.ReadOut` | crates/dsp/src/fec/interleave.rs:226-230 | reads the anti-diagonal forward, the main diagonal in reverse |
| `MfskInterleave.MfskInterleaver.Block` | crates/dsp/src/fec/interleave.rs:213-231 | one block delays row i by i calls forward, size-1-i in reverse, and disturbs no other block |
| `MfskInterleave.MfskInterleaver.Symbols` | crates/dsp/src/fec/interleave.rs:210-232 | row i comes out exactly i*depth calls late forward, (size-1-i)*depth in reverse, fill before that, for every size, depth and stream |
| `MfskInterleave.DiagInterleaver.Symbols` | crates/dsp/src/fec/interleave.rs:154-171 | the same law at size 2 for the hand-written pair interleaver |
| `MfskInterleave.Lockstep` | crates/dsp/src/fec/interleave.rs:184-232 | at size 2 the two agree call by call |
| `MfskInterleave.RoundTrip` | crates/dsp/src/fec/interleave.rs:184-232 | forward then reverse outputs fill for (size-1)*depth calls, then the input delayed by that many |
| `MfskInterleave.Relay` | crates/dsp/src/fec/interleave.rs:184-232 | one column piped through a forward object and a reverse object fed with all its output comes back (size-1)*depth calls late, fill before that |
| `Forney.DelayLines.constructor` | crates/dsp/src/fec/interleave.rs:91-96 | branch i starts with i*delay default elements, or (rows-1-i)*delay in the de-interleaver (lines 117-122) |
| `Forney.DelayLines.Push` | crates/dsp/src/fec/interleave.rs:99-130 | push t goes to branch b = t mod rows and puts out the element pushed rows * b * delay pushes ago, or rows * (rows - 1 - b) * delay in the de-interleaver, default before that |
| `Forney.RoundTrip` | crates/dsp/src/fec/interleave.rs:80-131 | de-interleaver after interleaver is a pure delay across all branches and queue states |
| `Forney.Latency` | crates/dsp/src/fec/interleave.rs:82-84 | that delay is rows*(rows-1)*delay pushes |
| `Forney.Relay` | crates/dsp/src/fec/interleave.rs:80-131 | one value piped through an interleaver object and its de-interleaver comes back rows*(rows-1)*delay pushes late |
| `BitReversal.ReverseIncrement` | crates/dsp/src/fec/interleave.rs:40-45 | the reverse-carry loop adds one to the reversed bit string |
| `BitReversal.RevNext` | crates/dsp/src/fec/interleave.rs:39-45 | after s steps the loop variable is the bit reversal of s |
| `BitReversal.RevTwice` | crates/dsp/src/fec/interleave.rs:27-48 | reversing twice gives the number back |
| `BitReversal.BitReversalIndices` | crates/dsp/src/fec/interleave.rs:30-48 | the indices are a permutation of 0..n in the order of their reversals, for every n of at least 2 |
| `BitReversal.OnlyAscending` | crates/dsp/src/fec/interleave.rs:27-48 | which leaves only one list |
| `BitReversal.RevBitAt` | crates/dsp/src/fec/interleave.rs:27-29 | bit k of the reversal is bit n - 1 - k |
| `BitReversal.KeptIsPermutation` | crates/dsp/src/fec/interleave.rs:27-48 | skipping the reversals not below n leaves each of 0..n exactly once |
| `BitReversal.Unpermute` | crates/dsp/src/fec/interleave.rs:56-62 | element k goes to idx[k]; positions not named keep the default |
| `BitReversal.PermuteRoundTrip` | crates/dsp/src/fec/interleave.rs:50-62 | unpermute undoes permute for every permutation |
| `BitReversal.UnpermuteRoundTrip` | crates/dsp/src/fec/interleave.rs:50-62 | permute undoes unpermute |
| `Fano.Encode` | crates/dsp/src/fec/fano.rs:36-46 | the encoder is the convolutional code stream with a 31-bit zero tail |
| `Fano.PathSymbols` | crates/dsp/src/fec/fano.rs:91-94 | the branch symbols the search compares with are those of the encoder |
| `Fano.PathSumIsCodeMetric` | crates/dsp/src/fec/fano.rs:90-97 | the metric of a path is the sum of the metrics of the code bits the encoder puts out for it |
| `Fano.ZeroWinsTies` | crates/dsp/src/fec/fano.rs:98-110 | the better child is tried first, and the zero bit on a tie |
| `Fano.RaiseThreshold` | crates/dsp/src/fec/fano.rs:121-124 | raises the threshold by whole steps as far as the metric allows |
| `Fano.TightenBelow` | crates/dsp/src/fec/fano.rs:121-124 | the raised threshold is at most the metric and within one step of it |
| `Fano.VisitNode` | crates/dsp/src/fec/fano.rs:89-137 | one visit: forward to the next untried child, back to the parent, or lower the threshold |
| `Fano.FanoDecode` | crates/dsp/src/fec/fano.rs:56-139 | never more than budget + 1 rounds; returns bits exactly when the search reaches full depth within the budget, and None for short input or a non-positive step |
| `Fano.Reachable` | crates/dsp/src/fec/fano.rs:68-137 | in every reachable state reg[d] and mu[d] are the register and metric sum along the bits chosen, mu[d] >= t, and each edge carries the tried-th best child |
| `Fano.TrueChildBest` | crates/dsp/src/fec/fano.rs:89-103 | at a node of the true path clean metrics make the true child strictly best and not below the node |
| `Fano.CleanCodeword` | crates/dsp/src/fec/fano.rs:56-139 | metrics that favour every bit the encoder sent are clean |
| `Fano.CleanSearch` | crates/dsp/src/fec/fano.rs:56-139 | clean metrics: the data is returned exactly when the budget allows data_len + 32 visits |
| `FanoTree.VisitMoves` | crates/dsp/src/fec/fano.rs:89-137 | in levels of the threshold grid a visit goes down to the next child it meets, else up to a parent it meets, else one level lower |
| `FanoTree.Explored` | crates/dsp/src/fec/fano.rs:80-138 | from entering a node on, the search does what the recursion on the tree says: finds a path, returns to the parent at a known threshold, or is stuck |
| `FanoTree.StuckForEver` | crates/dsp/src/fec/fano.rs:130-137 | a search that comes back to a node with nothing new to try repeats itself on every budget |
| `FanoTree.Completes` | crates/dsp/src/fec/fano.rs:50-139 | the search reaches full depth on some budget if and only if a recursion on the code tree, with no threshold, visit counts or budget, finds a path, and that path is then the one it holds |
| `FanoTree.StraightExactly` | crates/dsp/src/fec/fano.rs:80-138 | it gets there without ever stepping back if and only if along the better branches each metric meets the lower of the two levels before it |
| `FanoStall.StaysAbove` | crates/dsp/src/fec/fano.rs:112-137 | after a first branch that does not lose, the search never stands on a node of negative metric, whatever the budget |
| `FanoStall.Stalls` | crates/dsp/src/fec/fano.rs:50-55 | so it never gets as deep as a level all of whose paths dip below zero on their way |
| `FanoStall.ErasuresStall` | crates/dsp/src/fec/fano.rs:50-139 | one good branch followed by two erased ones stalls it, for every code with odd generators, step and budget |
| `FanoStall.GoodPathStalls` | crates/dsp/src/fec/fano.rs:50-139 | it stalls so although all else arrives well and the metric of the path sent grows with its length |
| `FanoStall.DataLost` | crates/dsp/src/fec/fano.rs:50-139 | with the default code any data so received is lost for every step and budget, though the path sent has a metric of at least 21 |
| `Ccir476.NewCcir476` | crates/dsp/src/fec/ccir476.rs:103-119 | the reverse tables hold, per character, the last valid code that prints it |
| `Ccir476.CharToCode` | crates/dsp/src/fec/ccir476.rs:124-145 | one character: its code under the running shift, or a shift and its code, or nothing |
| `Ccir476.Encode` | crates/dsp/src/fec/ccir476.rs:149-156 | the whole text, from letter shift |
| `Ccir476.ShiftsWhenNeeded` | crates/dsp/src/fec/ccir476.rs:124-145 | one code when the running shift offers the character, a shift and a code when only the other does, nothing when neither does |
| `Ccir476.EncodableExactly` | crates/dsp/src/fec/ccir476.rs:103-145 | a character is sent exactly when some table offers its upper case under a valid code |
| `Ccir476.AllSendable` | crates/dsp/src/fec/ccir476.rs:124-156 | every code sent has weight four and is none of the phasing or idle signals |
| `Ccir476.TextPrints` | crates/dsp/src/fec/ccir476.rs:124-156 | printing the encoded text under the receiver's shift rules shows exactly the upper-cased encodable characters, bell as an apostrophe, carriage return dropped |
| `Ccir476.CreateFec` | crates/dsp/src/fec/ccir476.rs:163-180 | each code and, five places on, its repeat, with phasing signals before and idle signals after |
| `Ccir476.TimeDiversity` | crates/dsp/src/fec/ccir476.rs:163-180 | codeword i is at positions 4 + 2i and 9 + 2i |
| `Ccir476.PhasingAround` | crates/dsp/src/fec/ccir476.rs:163-180 | the phasing signals before the first repeats and the idle signals after the last codewords |
| `Ccir476.AirBitAt` | crates/dsp/src/fec/ccir476.rs:184-194 | bit i on the air is bit i of the codeword |
| `Ccir476.CodesToBits` | crates/dsp/src/fec/ccir476.rs:184-194 | seven bits per code, least significant first |
| `FecDecoder.FlipSmallestBit` | crates/dsp/src/fec/ccir476.rs:369-393 | the flip rule with its count of marks starting at one |
| `FecLadder.FlipRepairs` | crates/dsp/src/fec/ccir476.rs:369-393 | flipping gives a valid word if and only if the word has three marks; the branch meant for five marks never repairs one |
| `FecLadder.LastRungs` | crates/dsp/src/fec/ccir476.rs:427-467 | both copies and their sum invalid: of direct copy, repeat and sum the first with four spaces and three marks is decoded with its weakest space as a mark, answer -1, the copies looked at written back so; when none is, nothing is printed and the answer is -2 |
| `FecLadder.CodeBitAt` | crates/dsp/src/fec/ccir476.rs:262-271 | the bits of a word read are the signs of the window |
| `FecSync.TallyExactly` | crates/dsp/src/fec/ccir476.rs:283-308 | the tally of an offset counts its repeats, and its valid words after the last repeated phasing signal |
| `FecSync.PhaseFound` | crates/dsp/src/fec/ccir476.rs:279-319 | the offset found is the first with the highest total among those with three repeats, and one is found if and only if such a total is above eight |
| `FecSync.TextLocks` | crates/dsp/src/fec/ccir476.rs:279-319 | a buffer full of text in which every other word repeats the one five places earlier is always locked on |
| `FecDecoder.FecBDecoder.FindAlphaCharacters` | crates/dsp/src/fec/ccir476.rs:279-319 | scores the fourteen offsets and returns -1 or one of 35..48 |
| `FecDecoder.FecBDecoder.ProcessCodeword` | crates/dsp/src/fec/ccir476.rs:407-468 | the ladder direct, repeat, sum, flipped copies, with its return values and what it writes back |
| `FecDecoder.FecBDecoder.ProcessOne` | crates/dsp/src/fec/ccir476.rs:485-513 | shift codes, the phase correction on two repeat signals, and the print filter |
| `FecDecoder.FecBDecoder.StepCodeword` | crates/dsp/src/fec/ccir476.rs:352-365 | one codeword step: ladder on every second word, error count, cursor on by seven |
| `FecDecoder.FecBDecoder.FeedBit` | crates/dsp/src/fec/ccir476.rs:251-366 | one soft bit changes the receiver exactly as the functional model says, and returns the newly printed characters |
| `FecLadder.PhaseCorrection` | crates/dsp/src/fec/ccir476.rs:487-492 | of the valid words only a second phasing signal in a row makes the next codeword be decoded too |
| `FecLadder.ErrorsCounted` | crates/dsp/src/fec/ccir476.rs:352-365 | a clean copy takes one error off, a repair adds one, a failure two, never below none; the lock is lost exactly when the count exceeds five |
| `FecLadder.FreshLock` | crates/dsp/src/fec/ccir476.rs:332-350 | a lock starts at the offset found, with decoding on, no errors and letter shift; without an offset the receiver stays unlocked |
| `FecSpec.FeedKeeps` | crates/dsp/src/fec/ccir476.rs:262-366 | under arbitrary soft input the cursor stays in 0..99, every window lies in the buffer, and the error count is in 0..5 while locked |
| `FecSpec.PositionMoves` | crates/dsp/src/fec/ccir476.rs:328-365 | while locked a bit either leaves the next codeword's place in the stream alone or moves it on by exactly seven |
| `FecSpec.StepsAreContiguous` | crates/dsp/src/fec/ccir476.rs:323-366 | over a whole lock the steps are at positions seven apart: no bit is skipped or used twice |
| `FecRun.LadderDelivers` | crates/dsp/src/fec/ccir476.rs:407-436 | what the ladder makes of a pair of copies, one intact or repairable by their sum |
| `FecRun.TakeCodeword` | crates/dsp/src/fec/ccir476.rs:323-366 | seven bits at a decoded position: the right character, no lock lost, error count as predicted |
| `FecRun.Transmission` | crates/dsp/src/fec/ccir476.rs:323-513 | a transmission in which no character is lost and the error count stays within five keeps lock throughout and prints exactly the text |
| `FecRun.Diversity` | crates/dsp/src/fec/ccir476.rs:159-180 | time diversity: one intact copy of each code suffices as long as a damaged repeat is not itself a valid word |
| `FecRun.SignsSpell` | crates/dsp/src/fec/ccir476.rs:395-403 | soft values with the signs of the sent bits, at any confidence, spell the code |
| `FecRun.TextThrough` | crates/dsp/src/fec/ccir476.rs:149-513 | from text to print: encode, time diversity, bits, channel, receiver |
| `FecRun.CleanChannel` | crates/dsp/src/fec/ccir476.rs:149-513 | encoder to print over a clean channel: every text of at least two codewords is shown by a locked, waiting receiver, which also shows that the conditions of TextThrough can be met |
| `Dedup.DedupWindow.Admit` | crates/dsp/src/ensemble.rs:35-49 | novel exactly when no record of equal content lies in offset - window .. offset + window; only then recorded |
| `Dedup.DedupWindow.Prune` | crates/dsp/src/ensemble.rs:54-56 | keeps exactly the records still within one window of the cutoff |
| `Dedup.DedupWindow.PruneToLatest` | crates/dsp/src/ensemble.rs:62-64 | after it at most one record per content remains |
| `Dedup.DedupWindow.Feed` | crates/dsp/src/ensemble.rs:105-118 | one feed of all members: frames let through, records kept and horizon as functions of the past |
| `Dedup.DedupWindow.Clear` | crates/dsp/src/ensemble.rs:75-78 | forgets everything |
| `Dedup.InPieces` | crates/dsp/src/ensemble.rs:105-112 | feeding in pieces is feeding at once, so frames let through keep their order |
| `Dedup.LetThrough` | crates/dsp/src/ensemble.rs:35-49 | one frame alone is let through exactly when every record of equal content is more than the window away |
| `Dedup.PruningUnseen` | crates/dsp/src/ensemble.rs:58-64 | over any run of feeds in order, pruning after every feed never changes what is let through compared with never pruning |
| `Dedup.PruneHarmless` | crates/dsp/src/ensemble.rs:51-56 | a prune is invisible to a later frame, whatever was recorded, if and only if the frame is not older than the horizon or the horizon is within the first window |
| `Dedup.RunApart` | crates/dsp/src/ensemble.rs:35-49 | frames of equal content let through over a run in order are pairwise more than the window apart |
| `Dedup.OneLeft` | crates/dsp/src/ensemble.rs:54-64 | why a pruned history holds one record per content |
| `Autosave.ConfigView.constructor` | clients/omnimodem-tui/internal/app/view_config.go:216 | an opened view counts the loaded form as saved |
| `Autosave.ConfigView.Persist` | clients/omnimodem-tui/internal/app/view_config.go:517-533 | starts a save only when none runs, the form differs from the last confirmed one, and it has a device and a name |
| `Autosave.ConfigView.OnSaveDone` | clients/omnimodem-tui/internal/app/view_config.go:601-646 | a failure advances nothing; a success advances the baseline and starts the next save or closes |
| `Autosave.ConfigView.OnEsc` | clients/omnimodem-tui/internal/app/view_config.go:716-736 | leaving starts the last save, waits for a running one, or closes |
| `Autosave.StepKeeps` | clients/omnimodem-tui/internal/app/view_config.go:517-646 | every event keeps the invariant of the protocol |
| `Autosave.RunKeeps` | clients/omnimodem-tui/internal/app/view_config.go:495-513 | in every interleaving at most one save runs, saves finish in start order, the baseline is the last confirmed one, and a view that closed left none running |
| `Autosave.ClosesSafely` | clients/omnimodem-tui/internal/app/view_config.go:716-736 | a step that closes the view leaves no save running, and the form saved or unsaveable unless that step was a failure |
| `Autosave.StartedHaveDevice` | clients/omnimodem-tui/internal/app/view_config.go:515-533 | every save ever started has a receive device and a name |
| `Autosave.ClosedIsConfirmed` | clients/omnimodem-tui/internal/app/view_config.go:716-736 | a view that closed with no failed last save shows the form the daemon confirmed last, or one without a receive device or a name |
| `Autosave.OfferStarts` | clients/omnimodem-tui/internal/app/view_config.go:517-533 | with none running an offer starts a save exactly when the form differs from the last confirmed one and has a receive device and a name |
| `Autosave.TwoCompletions` | clients/omnimodem-tui/internal/app/view_config.go:601-646 | over any run with edits stopped and saves succeeding, whatever offers and leaving fall in between, at most two saves complete, and the form is durable once none runs |
| `Autosave.OfferNeeded` | clients/omnimodem-tui/internal/app/view_config.go:522-524 | with none running, completions change nothing, and an offer starts a save exactly when the form is not durable |
| `Autosave.LeavingDrains` | clients/omnimodem-tui/internal/app/view_config.go:716-736 | once asked to leave, the view is gone after two completions and one more for each later edit, whatever succeeds or fails |
| `Autosave.DroppedExactly` | clients/omnimodem-tui/internal/app/view_config.go:603-611 | a change is dropped untried exactly when the running save fails while leaving and the form has moved on |
| `Autosave.NeverTried` | clients/omnimodem-tui/internal/app/view_config.go:716-725 | such a run, against the promise that leaving waits until every change is saved |

## Left out

- Rounding, NaN and infinities of `f32` and `f64`; the noise and error bounds hold in exact arithmetic.
- The value of the Fano branch metric (`exp`, `log2`): each code bit position has a given pair of
  metrics, and the lemmas state the inequalities they need.
- The 32-bit visit counter of the Fano search does not overflow here at the largest possible budget.
- Index products in the flat tables (`t * states + s`) are written as repeated sums (`Bits.Cells`),
  and array lengths are unbounded.
- The decoders take convolutional codes with 1 <= k <= 32 and generators below 2^k, the register being a
  `u32`; the encoders take any 32-bit masks.
- `puncture` and `depuncture`, `golay.rs`, the RSID Reed-Solomon encoder, `gray.rs`, `nrzi.rs`, block
  transposes and `diagonal_indices`: finite or easy next to the rest.
- Fht: takes the base-two logarithm of the length as a ghost parameter, the source asserting a power of two.
- MfskInterleaver: the flat table is a three-dimensional array (a two-dimensional one in
  DiagInterleaver), and the variants that pack symbols into the bits of a word are not modelled.
- DelayLines: the interleaver and the de-interleaver are one class that differs in the lengths of
  its lines.
- JscText.Decompress: what the source reads past its table of eight offsets is undefined; where it
  would (`Overruns`, with an example in `ReadsBeyond`) the model stops and says so.
- The real JSC dictionary of 262144 entries: the theorems hold for every table that is well formed.
  NUL characters, at which the source's string comparison ends, are ordinary characters here.
- FEC-B lock acquisition as a success claim: what `find_alpha_characters` returns is proved exactly, but
  not that the best offset is always the right one. The transmission theorems start from a locked receiver.
- Ccir476 text is a string of characters, each clamped to a byte as in the source.
- Content hashing of frames: a frame carries an opaque content key. Offsets do not overflow `u64`.
  The member demodulators of the ensemble are given by the frames they return.
- The Configure view's pickers, rendering, toasts, snapshot refreshes, the per-channel cache of mode
  settings, the identity file, and the three RPCs inside one save, which count as one operation that
  succeeds or fails. `modeSig` is an opaque string. A message is delivered to the view only while it
  is on the stack.
- gRPC, audio, SDR and file plumbing, the other modes, and the TX lease.
