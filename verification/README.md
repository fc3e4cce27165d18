# Verified models of a Reed–Solomon and Viterbi codec, a DNS cache and a GPT partition editor

Dafny models, with proofs, of four components of the repository:

* **Reed–Solomon codec** (`fireos/external/fec`): table construction from a shift register, generator
  polynomial, systematic encoder, and the decoder with erasures — syndromes, Berlekamp–Massey, Chien
  search, Forney — on arrays that mix index and polynomial form. Parametric in symbol size, generator
  register, first root, root spacing, number of roots and padding; (255,223) of section 4 of CCSDS 131.0-B
  is one instance. Modules `Bits`, `GaloisField`, `FieldSums`, `BerlekampMassey`, `ErrorLocator`,
  `ErrorValues`, `CodeTheory`, `DecodeTheory` hold the mathematics, `RsCodec`, `RsEncoder`, `RsDecoder` the
  programs.
* **Viterbi decoders**: one decoder, parametric in the code, the word size of the metrics, the packing of
  the decisions, the start bias and the tie rule; the library's portable and vector decoders for (7,1/2)
  (section 3 of CCSDS 131.0-B), (9,1/2), (9,1/3) and (15,1/6) are its instances. `ConvolutionalCode` holds the
  theory over unbounded integers, `FrameEncoder` the encoder that the frames come from, `ViterbiDecoder` the
  wraparound arrays.
* **DNS cache and DHCP allocator** (`fireos/external/dnsmasq`): the cache's chains, least-recently-used
  list, pending chain and long-name pool as one state (`DnsRecords`), the elementary steps (`DnsSteps`), the
  scans (`DnsScan`), the lookups (`DnsLookup`, `DnsAnswers`, `DnsAliases`, `DnsFates`, `DnsRotation`), batches of insertions
  (`DnsInsert`), what the scans and the end of a batch take out (`DnsSwept`), runs of all operations (`DnsRuns`)
  with two of them worked out (`DnsExamples`), and the class that performs them (`DnsCache`). `DnsLinks` proves
  the pointer assignments that relink list, pending chain and hash chains, all on the same records, against
  the operations on sequences that the cache is made of. `DhcpAllocate` is the address allocator with pings off.
* **GPT fdisk** (`fireos/external/gptfdisk`): free-space search (`GptSpace`), table operations (`GptLayout`),
  CRC-32 (`Crc32`, `CrcCheck`) and header checksums (`GptHeader`, section 5.3 of the UEFI Specification), cgdisk's
  linked list of spaces on the pointer level (`Spaces`), and the chain of extended boot records
  (`EbrChain`, `EbrLayout`).

Conventions. Symbols, words and sectors are natural numbers; where the source's width matters, reduction
modulo the word size is written out. Arrays and lists that the source updates in place are arrays or fields
that methods update, each method proved against a function of the old contents; the theorems are
lemmas about those functions. `dafny verify dfyconfig.toml` checks the whole project.

Four places where the code does less than one would expect, each with an example and the exact condition on
what the caller passes in:

* The primitivity test of `init_rs.h:60` also passes when the register has a shorter period
  (`RsCodec.TestAcceptsImprimitive`); it is right exactly when no proper divisor of nn is a period
  (`RsCodec.PrimitiveIffNoShortPeriod`). The iprim loop stops exactly when prim is coprime to nn.
* A lookup by name can return an alias whose target the same walk then frees (`DnsAliases.StaleAnswer`,
  reached by `DnsExamples.StaleRun`); it does so exactly when the target stands behind the alias in its chain and is one of the records that the
  walk strikes (`DnsFates.LookupAliases`), a condition on the table before the call.
* The search of `cache_insert` for a free record can give up although the list is not empty: the alias of a
  lease enters the table without a scan for its own name, and the scan for the tail's name stops at it
  (`DnsExamples.GiveUpRun`). `DnsRuns.GivesUp` says when, on the table before the search, and
  `DnsRuns.RoomExact` that it does so exactly then; it never does where no record is shadowed
  (`DnsRuns.UnshadowedRoom`).
* The free-space bound of `gpt.cc:2331` compares strictly and passes over some one-sector partitions
  (`GptSpace.OneSectorMissed`, `GptLayout.OverrunningRun`); `GptSpace.Missed` says which, from the table alone, and the bound, the free
  blocks, the creation of a partition and runs of operations are right exactly when none of those is in the
  way (`GptSpace.LastInFreeExact`, `GptSpace.FreeBlocksExact`, `GptLayout.RoomIff`, `GptLayout.LayoutKeptIff`).

## Model

| member | source | states |
|---|---|---|
| `RsDecoder.Decode` | fireos/external/fec/decode_rs.h:71-298 | The in-place decoder: for every codeword `c` with 2 · (errors outside the pad and not declared erased) + erasures ≤ nroots, the block becomes `c`; the count and, when `erasPos` is given, the listed positions are exactly those of the wrong and the erased symbols (0 when nothing was wrong). A result ≤ 0 leaves the block as it was; only the listed positions are written to `erasPos` |
| `RsDecoder.NothingInReach` | fireos/external/fec/decode_rs.h:240-247 | Corollary of the promise of RsDecoder.Decode: a result of -1 implies that no codeword at all lies within reach of the received block |
| `RsDecoder.EncodeThenDecode` | fireos/external/fec/decode_rs.h:81-108 | For every message and every valid parameter set, padding included, encoding and then decoding returns 0 and leaves data and parity unchanged |
| `RsDecoder.CodewordUntouched` | fireos/external/fec/decode_rs.h:102-108 | What the decoder promises pins a codeword down: count 0, nothing changed |
| `DecodeTheory.DecodeRestores` | fireos/external/fec/decode_rs.h:163-297 | For every codeword and every received word within reach of it, erasures included: the roots found are as many as the locator's degree, their positions are exactly the errata, and applying the corrections gives the codeword |
| `DecodeTheory.MinimumDistance` | fireos/external/fec/init_rs.h:87-103 | Two different codewords of one length differ in more than nroots places |
| `DecodeTheory.ParityUnique` | fireos/external/fec/encode_rs.h:37-57 | The data part admits exactly one parity that completes it to a codeword, so any two correct encoders agree |
| `DecodeTheory.SyndromeIsPowerSum` | fireos/external/fec/decode_rs.h:81-93 | Each Horner syndrome of a received word is the power sum of its differences from any codeword, pad included |
| `DecodeTheory.ZeroSyndromes` | fireos/external/fec/decode_rs.h:102-108 | All syndromes zero and a codeword within reach: the word is that codeword, so returning at once is right |
| `DecodeTheory.CorrectablePattern` | fireos/external/fec/decode_rs.h:109-123 | The product of the erasure factors is a legal start of the iteration, and errors and erasures form the pattern its correctness is stated for |
| `DecodeTheory.SearchExact` | fireos/external/fec/decode_rs.h:215-239 | The search over a correct locator, although it stops at the first deg roots, finds every root once and maps each through iprim to its true position |
| `BerlekampMassey.BmRunInv` | fireos/external/fec/decode_rs.h:163-206 | After every step r, for every syndrome sequence and every erasure locator: constant term 1, degree at most el, every syndrome from el up to r predicted, and room left in the auxiliary polynomial |
| `BerlekampMassey.ShiftLosesNothing` | fireos/external/fec/decode_rs.h:179-206 | While steps remain the top entry of b is zero, so moving the array up by one drops no coefficient |
| `BerlekampMassey.CorrectedLocator` | fireos/external/fec/decode_rs.h:183-190 | Adding discrepancy · x · b makes the locator predict syndrome r without losing the earlier ones |
| `ErrorLocator.WeightsVanish` | fireos/external/fec/decode_rs.h:163-206 | A locator that predicts as many consecutive syndromes as there are errors must vanish at each of them |
| `ErrorLocator.SpannedDiscrepancy` | fireos/external/fec/decode_rs.h:170-182 | Once the register spans the errors the discrepancy is zero: the length never grows past errors + erasures |
| `ErrorLocator.LocatorFound` | fireos/external/fec/decode_rs.h:163-214 | Within half the distance the final locator has degree exactly the number of errata and its roots are exactly theirs |
| `ErrorValues.ForneyCorrect` | fireos/external/fec/decode_rs.h:248-290 | At a true location the derivative is nonzero, the evaluator is zero exactly when the error is, and evaluator · scaling / derivative is exactly the error value, for every fcr |
| `ErrorValues.OmegaAtLocation` | fireos/external/fec/decode_rs.h:248-261 | At the inverse of an error location the truncated evaluator reduces to the error value times the locator without that factor |
| `ErrorValues.DerivNonzero` | fireos/external/fec/decode_rs.h:275-279 | The roots of the locator are simple, so den is never zero |
| `RsDecoder.FormSyndromes` | fireos/external/fec/decode_rs.h:81-101 | The arrays end up holding, in index form, the values of the block at the roots of the generator, and the flag says whether any is nonzero |
| `RsDecoder.ErasureLocator` | fireos/external/fec/decode_rs.h:109-123 | The in-place product over the erased positions equals the product of the factors 1 + X z taken one at a time |
| `RsDecoder.Iterate` | fireos/external/fec/decode_rs.h:160-206 | The array loop over lambda, b and t computes the iteration whose invariant is BmRunInv |
| `RsDecoder.ChienSearch` | fireos/external/fec/decode_rs.h:215-239 | The registers advanced in place find exactly the root indices below the stopping point, in order, each with its position |
| `RsDecoder.FormOmega` | fireos/external/fec/decode_rs.h:248-261 | Each coefficient of syndrome times locator modulo x^deg, summed in index form, reaches the array |
| `RsDecoder.ErrorValue` | fireos/external/fec/decode_rs.h:266-291 | The value added for one root index is the fraction that ForneyCorrect is about |
| `RsDecoder.DerivStart` | fireos/external/fec/decode_rs.h:275-279 | Starting at min(deg, nroots - 1) & ~1 visits every odd term of the locator: nothing of the derivative is missed |
| `RsDecoder.ApplyCorrections` | fireos/external/fec/decode_rs.h:262-292 | Corrections reach the data last position first, those in the pad are dropped |
| `RsEncoder.Encode` | fireos/external/fec/encode_rs.h:37-57 | Data followed by the parity left in the register is a codeword: it vanishes at all nroots roots of the generator |
| `RsEncoder.EncodeStep` | fireos/external/fec/encode_rs.h:39-57 | One clock keeps the register equal to data(x) · x^nroots at every root of the generator |
| `RsEncoder.ClockRegister` | fireos/external/fec/encode_rs.h:40-56 | The loop body, which tests only feedback for zero, adds the right multiple of the generator and shifts |
| `CodeTheory.GenRoots` | fireos/external/fec/init_rs.h:87-100 | The product polynomial vanishes at alpha^(prim · (fcr + t)) for every t below nroots |
| `CodeTheory.GenFactor` | fireos/external/fec/init_rs.h:88-100 | Each turn of the loop multiplies the polynomial by (x + its root), at every point |
| `CodeTheory.GenNonzero` | fireos/external/fec/encode_rs.h:48-54 | No coefficient of the generator is zero, which the encoder's additions of logs silently need |
| `FieldSums.SparseVandermonde` | fireos/external/fec/init_rs.h:87-100 | w terms cannot vanish at w consecutive powers unless every coefficient is zero |
| `FieldSums.RootCount` | fireos/external/fec/decode_rs.h:215-239 | A polynomial with n coefficients and nonzero constant term has fewer than n roots |
| `RsCodec.Init` | fireos/external/fec/init_rs.h:12-104 | Null exactly for parameters out of range or a register that is not back at 1 after nn clocks; otherwise a codec whose tables, generator and iprim are all as the coder needs. Its two hypotheses on the caller, for registers that do return: no proper divisor of nn is a period, and prim is coprime to nn |
| `RsCodec.BuildTables` | fireos/external/fec/init_rs.h:48-59 | The register loop leaves in the tables every state it passed, both ways |
| `RsCodec.PrimitiveIffNoShortPeriod` | fireos/external/fec/init_rs.h:60-67 | A register that passes the test is primitive if and only if no proper divisor of nn is a period of it: exactly what the test leaves out |
| `RsCodec.PrimitiveIffAllVisited` | fireos/external/fec/init_rs.h:52-67 | In terms of the tables: if and only if the loop has given every nonzero symbol a logarithm |
| `RsCodec.TestAcceptsImprimitive` | fireos/external/fec/init_rs.h:60-67 | The test alone does not show primitivity: x^4 + x^3 + x^2 + x + 1 passes although its register returns after 5 clocks |
| `RsCodec.FindIprim` | fireos/external/fec/init_rs.h:82-85 | The search stops, and prim · iprim is 1 modulo nn |
| `RsCodec.SearchStopsIffCoprime` | fireos/external/fec/init_rs.h:82-85 | The search for iprim stops if and only if gcd(prim, nn) = 1 |
| `RsCodec.BuildGenerator` | fireos/external/fec/init_rs.h:87-103 | The in-place loops produce the product of the root factors and convert it to index form, no entry being A0 |
| `RsCodec.ModNN` | fireos/external/fec/rs-common.h:20-26 | Repeated folding computes the remainder modulo nn of every nonnegative number and terminates |
| `GaloisField.EveryElementIsPower` | fireos/external/fec/init_rs.h:50-59 | A primitive register reaches every nonzero symbol |
| `GaloisField.MulXor` | fireos/external/fec/init_rs.h:51-59 | Multiplication through the log tables distributes over exclusive or, on both sides |
| `GaloisField.MulAssoc` | fireos/external/fec/init_rs.h:51-59 | Multiplication through the log tables is associative, zero included |
| `ConvolutionalCode.MaximumLikelihood` | fireos/external/fec/viterbi27_port.c:117-191 | After any number of updates the metric of every state is the least start bias plus soft distance over all start states and bit strings that reach it, and the surviving path attains it |
| `ConvolutionalCode.MetricLowerBound` | fireos/external/fec/viterbi27_port.c:117-130 | No encoder run into a state is closer to the received symbols than its metric |
| `ConvolutionalCode.TraceAttains` | fireos/external/fec/viterbi27_port.c:75-104 | The decisions, followed back, give an encoder run into the state at exactly the metric's distance |
| `ConvolutionalCode.NoiseMargin` | fireos/external/fec/vtest27.c:114-131 | A run from the start state whose deviation c satisfies 2c < min(bias, span) + span is the surviving path, bit for bit |
| `ConvolutionalCode.RunsApart` | fireos/external/fec/viterbi27_port.c:112-130 | Two different runs are together a full span of 255 per symbol away from any received sequence where they part, and again where they merge |
| `ConvolutionalCode.SymbolFlips` | fireos/external/fec/fec.h:10-14 | With first and last tap set, changing the newest or the oldest bit inverts every symbol |
| `ConvolutionalCode.Butterfly` | fireos/external/fec/viterbi27_port.c:117-130 | The four branches of a butterfly cost m, span - m, span - m, m: one distance computation serves all four |
| `ConvolutionalCode.MetricSpread` | fireos/external/fec/viterbi27_port.c:136-191 | For runs of any length any two metrics differ by at most max(bias + span (k - 2), span (k - 1)) |
| `ConvolutionalCode.CommonAncestor` | fireos/external/fec/viterbi27_port.c:117-130 | States that agree on all but their j newest bits have metrics at most j spans apart |
| `ViterbiDecoder.WraparoundExact` | fireos/external/fec/viterbi39_mmx.c:129-181 | On metrics reduced modulo the word, comparing by the sign of the wrapped difference takes the decisions of unbounded integers, and the metrics stay the exact ones reduced |
| `ViterbiDecoder.WrapCompare` | fireos/external/fec/viterbi27_port.c:120-126 | A wrapped difference read as signed is the true difference while that stays below half the modulus |
| `ViterbiDecoder.LibraryDecoders` | fireos/external/fec/viterbi615_mmx.c:27-71 | The (7,1/2), (9,1/2), (9,1/3) and (15,1/6) codes have their end taps set, and 32-bit words with the portable start bias and 16-bit words with the vector one are wide enough |
| `ViterbiDecoder.Survivors` | fireos/external/fec/viterbi27_port.c:117-127 | A butterfly computes, for states 2i and 2i + 1, the exact metric modulo the word and the exact decision |
| `ViterbiDecoder.Step` | fireos/external/fec/viterbi39_port.c:139-168 | One bit time turns the metrics of a history into those of the history extended by a group, packs every decision bit of the row and touches no other row |
| `ViterbiDecoder.OrDecision` | fireos/external/fec/viterbi615_port.c:112-126 | OR-ing a packed decision sets one bit and no other, at any word size |
| `ViterbiDecoder.BuildBranchtab` | fireos/external/fec/viterbi27_port.c:45-53 | For every polynomial and butterfly the branch table holds what the encoder sends for register 2i: 255 when an odd number of taps meets a set bit, else 0, the inverse for a negative polynomial |
| `FrameEncoder.SymbolIs` | fireos/external/fec/viterbi27_port.c:49-50 | A symbol is 255 exactly when the number of positions at which register and polynomial both have a bit set is odd, inverted for a negative polynomial |
| `ViterbiDecoder.XorIsDistance` | fireos/external/fec/viterbi27_port.c:112-119 | Exclusive or of a table symbol with a received byte is their distance |
| `ViterbiDecoder.Decoder.Init` | fireos/external/fec/viterbi27_port.c:29-43 | A new frame: every state at the bias, the chosen start state at 0 |
| `ViterbiDecoder.Decoder.Update` | fireos/external/fec/viterbi29_port.c:138-166 | One group of symbols, then the two metric buffers change roles; the decoder stays exact for the longer history |
| `ViterbiDecoder.Decoder.UpdateBlk` | fireos/external/fec/viterbi615_mmx.c:115-183 | A block is heard group by group: afterwards every decision row and every metric is exact for all groups so far |
| `ViterbiDecoder.Decoder.Chainback` | fireos/external/fec/viterbi27_port.c:75-104 | After nbits + k - 1 or more updates the bytes written are the first nbits bits of the surviving path into endstate, first bit most significant; other bytes are left alone |
| `ViterbiDecoder.ChainStep` | fireos/external/fec/viterbi615_port.c:73-99 | One turn of the loop moves the register from the window on one bit of the survivor to the window on the bit before |
| `ViterbiDecoder.StepBack` | fireos/external/fec/viterbi39_mmx.c:75-106 | The decision read is the bit that left the encoder, and the state is the window on its last k - 1 bits |
| `ViterbiDecoder.DecodeFrame` | fireos/external/fec/vtest27.c:114-142 | Init, update and chainback of a frame with k - 1 zero tail bits, against an encoder that shifts into a register of any length and counts tapped bits: when the noise on the symbols it sends is below half the margin, byte j of the output is the low byte of the register after bit 8j + 8; with a partial last byte, its bits with the first most significant |
| `FrameEncoder.CleanIff` | fireos/external/fec/vtest27.c:114-121 | The noise is 0 exactly when every received symbol is the one sent: that frame always decodes |
| `ViterbiDecoder.NoiseIsDeviation` | fireos/external/fec/vtest27.c:114-121 | The deviation that the theory speaks of, on registers cut off at k bits, is the distance from the symbols of that encoder |
| `FrameEncoder.EncoderIsShifted` | fireos/external/fec/vtest27.c:118-121 | The encoder state of the theory is the low end of the uncut register |
| `ViterbiDecoder.ShiftedWindow` | fireos/external/fec/vtest27.c:119-119 | The window of bits the chainback writes is the low end of the register after its last bit |
| `ViterbiDecoder.FrameMargin` | fireos/external/fec/vtest27.c:114-131 | The survivor into state 0 of such a frame carries the sent bits |
| `DnsCache.Cache.AllAnswers` | fireos/external/dnsmasq/src/cache.c:409-472 | The callers' loop — first answer, then the one after each answer — gives exactly the records of the table as it was that answer the question and are not struck by the lookup, once each, hosts and DHCP records first; the table loses the struck records and nothing else, and its chains are in the order of DnsRotation.LookupRearranges |
| `DnsRotation.LookupTurns` | fireos/external/dnsmasq/src/cache.c:419-462 | What a lookup by name makes of its chain: the answers that share the reverse and immortal flags of the first answer stand right in front of it, in order, and all other records that stay keep their order; no other chain changes |
| `DnsRotation.RoundRobin` | fireos/external/dnsmasq/src/cache.c:434-450 | When the answers a1, .., an share these flags, the answers of the chain that is left stand in the order a2, .., an, a1 |
| `DnsRotation.NextLookup` | fireos/external/dnsmasq/src/cache.c:434-450 | Two lookups of the same question in succession, the answers sharing these flags, none an alias and none expiring in between: the second gives the answers rotated by one, so with hosts and DHCP records only its list is the first list with the head moved to the end |
| `DnsRotation.LookupRearranges` | fireos/external/dnsmasq/src/cache.c:409-507 | A lookup by name turns one chain; a lookup by address takes the expired reverse records out of every chain and keeps the order of the rest |
| `DnsFates.LookupAnswers` | fireos/external/dnsmasq/src/cache.c:409-523 | On the table before a lookup, by name or by address: a record is answered if and only if it is hashed, answers the question and is not struck |
| `DnsFates.LookupRemoves` | fireos/external/dnsmasq/src/cache.c:409-523 | A record is in the table after a lookup if and only if it was before and is not struck: by name, struck are the records of the chain that have expired, outdated aliases and aliases for a struck record in front of them; by address, the expired reverse records of all chains |
| `DnsFates.NameAnswers` | fireos/external/dnsmasq/src/cache.c:417-458 | The hosts answers and the cached answers, as sequences, are those of the old chain in chain order |
| `DnsFates.FindFate` | fireos/external/dnsmasq/src/cache.c:417-458 | What the walk of a chain, which removes, links and moves records as it goes, answers and leaves, read off the chain before the walk |
| `DnsCache.Cache.FindBy` | fireos/external/dnsmasq/src/cache.c:474-523 | Both lookups, by name and by address, keep the whole invariant; the first call is the walk and leaves the chains in the order of DnsRotation.LookupRearranges, a later one only follows a link |
| `DnsAnswers.LookupExact` | fireos/external/dnsmasq/src/cache.c:409-472 | The answers of a lookup are exactly the unexpired records of the right name or address and type left in the table, each once, and no surviving record has changed |
| `DnsAnswers.NextAnswer` | fireos/external/dnsmasq/src/cache.c:409-425 | Each link followed from an answer leads to the next one, across the step from hosts records to the head of the list |
| `DnsAnswers.IterationStops` | fireos/external/dnsmasq/src/cache.c:459-470 | The link after the last answer leads nowhere or to a record that the final check rejects |
| `DnsFates.LookupAliases` | fireos/external/dnsmasq/src/cache.c:417-458 | An alias among the answers is outdated when the lookup returns if and only if its target stands behind it in the same chain, as that was before, and is struck |
| `DnsFates.LookupSkipsOutdated` | fireos/external/dnsmasq/src/cache.c:417-431 | No answer of a lookup by name is an alias that was outdated when the lookup began |
| `DnsAliases.StaleAnswer` | fireos/external/dnsmasq/src/cache.c:417-458 | Such an answer exists: an alias in front of its expired target in one chain is returned although the walk then frees the target |
| `DnsExamples.StaleRun` | fireos/external/dnsmasq/src/cache.c:390-407 | That state is reached from cache_init on, by one batch with an alias and its target |
| `DnsLookup.FindExact` | fireos/external/dnsmasq/src/cache.c:417-458 | The walk of one chain, which removes, links and moves records as it goes, meets exactly the live matches |
| `DnsLookup.FindFront` | fireos/external/dnsmasq/src/cache.c:434-448 | The cached answers end up contiguous at the head of the list, last one first |
| `DnsLookup.FindLinks` | fireos/external/dnsmasq/src/cache.c:427-433 | The hosts and DHCP answers end up linked in chain order, and no other link changes |
| `DnsSteps.MoveUpOk` | fireos/external/dnsmasq/src/cache.c:439-450 | The round-robin splice keeps the chain a rearrangement in the order reverse, other, immortal |
| `DnsSteps.HashPosInOrder` | fireos/external/dnsmasq/src/cache.c:118-134 | The place where a record is hashed is behind exactly the records that precede its kind — reverse ones for any other, and those that can expire for an immortal one — so in front of all of its own kind |
| `DnsSteps.FreeAtKeeps` | fireos/external/dnsmasq/src/cache.c:136-178 | Taking a record out of chain and list and freeing it keeps every invariant of the cache, in-use prefix and long-name count included |
| `DnsSteps.GrabKeeps` | fireos/external/dnsmasq/src/cache.c:345-386 | Taking the free tail for a new record, with or without a long-name buffer, keeps every invariant |
| `DnsSteps.CommitKeeps` | fireos/external/dnsmasq/src/cache.c:390-407 | Moving a pending record into the table and to the head of the list keeps every invariant |
| `DnsScan.SweepAllCleans` | fireos/external/dnsmasq/src/cache.c:230-269 | Although each chain is scanned only up to its first immortal non-reverse record, the whole-table scan leaves no expired and no replaced record anywhere |
| `DnsScan.SweepCleans` | fireos/external/dnsmasq/src/cache.c:205-229 | A completed scan of one chain leaves no expired record in it and none that the insertion replaces |
| `DnsSwept.NameScanExact` | fireos/external/dnsmasq/src/cache.c:205-241 | A record is in the table after a scan for a name if and only if it was before and does not leave: it leaves when it has expired, is replaced, is an outdated alias or an alias for a record in front of it that leaves, and no refusing record stands in front of it — all on the chain before |
| `DnsSwept.TableScanExact` | fireos/external/dnsmasq/src/cache.c:242-269 | The scan of the whole table takes out exactly the expired records and the reverse records that the insertion replaces |
| `DnsSwept.RefusedExactly` | fireos/external/dnsmasq/src/cache.c:205-241 | A scan for a name is refused if and only if the chain before it holds a hosts or DHCP record of the name that does not leave |
| `DnsSwept.SweepFate` | fireos/external/dnsmasq/src/cache.c:205-241 | The walk of a scan, which removes as it goes, read off the chain before it: refused or not, and who is left |
| `DnsScan.RefusingRecord` | fireos/external/dnsmasq/src/cache.c:211-222 | A scan is refused only by a hosts or DHCP record of the name that was in the table from the start |
| `DnsScan.SpillTail` | fireos/external/dnsmasq/src/cache.c:318-340 | The scan for the name of the record at the tail leaves a free record there if and only if it does not come to a live hosts or DHCP record of that name before every record that it would free; no hypothesis on what the table holds |
| `DnsScan.SpillExact` | fireos/external/dnsmasq/src/cache.c:205-241 | When that scan stops first it has freed nothing, whatever hosts and DHCP records it unhashed on the way |
| `DnsScan.OwnNameFreesTail` | fireos/external/dnsmasq/src/cache.c:318-340 | Corollary where no hosts or DHCP record shadows a cached one: the scan frees the tail, whatever the name reads as once its buffer is freed |
| `DnsScan.SweepOwnFrees` | fireos/external/dnsmasq/src/cache.c:205-241 | A scan whose name lies in the buffer of a record it frees still removes that record |
| `DnsScan.OwnAddressFreesTail` | fireos/external/dnsmasq/src/cache.c:318-340 | The same for a tail that is a reverse record |
| `DnsRuns.RunConserves` | fireos/external/dnsmasq/src/cache.c:47-67 | From cache_init on, after every sequence of batch starts, insertions, alias targets, batch ends, lookups, table enlargements, entries of any hosts and DHCP records, and removals of the DHCP ones: list and pending chain hold exactly the pool, each record once; in-use records are a prefix of the list and exactly the hashed records that are not hosts or DHCP ones; used, free and unallocated long-name buffers add up; no alias of the batch points at itself or an older record |
| `DnsRuns.AfterGood` | fireos/external/dnsmasq/src/cache.c:205-523 | Each of these operations keeps the whole invariant and the order of alias targets |
| `DnsRuns.UnleasedExact` | fireos/external/dnsmasq/src/cache.c:840-852 | Exactly the records of leases leave the table |
| `DnsRuns.RoomExact` | fireos/external/dnsmasq/src/cache.c:304-343 | The search for room ends with a free record at the tail if and only if the list is not empty and the search does not give up, a condition on the table before it: no cached record has expired, the tail is a forward record in use, and in its chain a live hosts or DHCP record of its name stands before every record that a scan for it would free |
| `DnsRuns.UnshadowedRoom` | fireos/external/dnsmasq/src/cache.c:318-340 | The search never gives up where no hosts or DHCP record shadows a cached one |
| `DnsExamples.GiveUpRun` | fireos/external/dnsmasq/src/cache.c:908-924 | The give-up branch is reached from cache_init on: a name is cached in a cache of one record, a lease enters whose host has that name as an alias, and the next insertion of another name is accepted by its first scan, frees nothing and gives up |
| `DnsExamples.ShadowingEntry` | fireos/external/dnsmasq/src/cache.c:908-924 | So it is after every entry of a live lease record that conflicts with the tail, into a chain that starts with no reverse record, until a cached record expires |
| `DnsInsert.Conservation` | fireos/external/dnsmasq/src/cache.c:136-178 | In every sound state the pool is shared out between list and pending chain, in-use records first, and the buffers add up |
| `DnsSwept.DrainExact` | fireos/external/dnsmasq/src/cache.c:390-407 | Of a batch exactly the records enter the table that are neither outdated aliases before nor aliases for a newer record of the batch that does not enter |
| `DnsSwept.DrainOrder` | fireos/external/dnsmasq/src/cache.c:390-407 | The records of a batch that enter stand at the head of the list, oldest of the batch first, the dropped ones at its tail |
| `DnsInsert.DrainCommits` | fireos/external/dnsmasq/src/cache.c:390-407 | When aliases point at newer records only, these are the ones that are not outdated aliases in the end |
| `DnsInsert.NameScanned` | fireos/external/dnsmasq/src/cache.c:205-229 | After an accepted scan for a name no record of the table refuses it or is replaced by it |
| `DnsInsert.TableScanned` | fireos/external/dnsmasq/src/cache.c:230-269 | After a whole-table scan nothing in the table has expired and nothing is replaced by the insertion |
| `DnsRecords.SameBucket` | fireos/external/dnsmasq/src/cache.c:104-116 | Names equal up to ASCII case hash to the same chain |
| `DnsRecords.HashOfOne` | fireos/external/dnsmasq/src/cache.c:104-116 | One value of the hash: over a mixing table of zeros the name a, or A, goes to chain 46 of 64 |
| `DnsCache.Cache.constructor` | fireos/external/dnsmasq/src/cache.c:47-67 | The new cache is the state every run starts from, all pool records free, with a table of the size for its load |
| `DnsCache.Cache.Rehash` | fireos/external/dnsmasq/src/cache.c:73-102 | When the size for the load exceeds the table's, a table of that size holds exactly the records the old one held, each chain in order and, among records of a kind, the one moved later in front; otherwise nothing changes |
| `DnsCache.Cache.ScanFree` | fireos/external/dnsmasq/src/cache.c:205-269 | The scan on the lists is the sweep the lemmas are about, including the case that it overwrites the name it scans for |
| `DnsCache.Cache.StartInsert` | fireos/external/dnsmasq/src/cache.c:279-290 | A batch given up goes back to the tail of the list, record by record, and nothing else changes |
| `DnsCache.Cache.Insert` | fireos/external/dnsmasq/src/cache.c:292-388 | The new state is the function of the old one that runs are made of. Each outcome that gives nothing has its exact condition: an earlier failure of the batch, a hosts or DHCP record in the chain as it was that refuses the name, a pool that is all uncommitted, a search for room that gives up; otherwise a long name without a buffer, or the new record heads the pending chain and nothing it replaces is left |
| `DnsCache.Cache.MakeRoom` | fireos/external/dnsmasq/src/cache.c:304-343 | The loop ends within three passes and finds a free record if and only if the list is not empty and it does not give up |
| `DnsCache.Cache.SetTarget` | fireos/external/dnsmasq/src/rfc1035.c:638-667 | The callers' write of an alias target keeps every invariant, and the target is newer than the alias |
| `DnsCache.Cache.EndInsert` | fireos/external/dnsmasq/src/cache.c:390-407 | The batch is drained, newest first, unless an insertion failed; every invariant is kept |
| `DnsCache.Cache.EnterStatic` | fireos/external/dnsmasq/src/cache.c:118-134 | Any hosts or DHCP record enters its chain in order; pool and list are untouched |
| `DnsCache.Cache.UnhashDhcp` | fireos/external/dnsmasq/src/cache.c:840-852 | The records of leases leave the table, and no other |
| `DnsCache.TableSize` | fireos/external/dnsmasq/src/cache.c:78-83 | The size chosen is the least of 64, 128, 256, .. that is at least a tenth of what the table is to hold |
| `DnsLinks.Links.Unlink` | fireos/external/dnsmasq/src/cache.c:167-178 | On the pointers of records that stand on the list and in chains at once: the neighbours of a record, or the ends of the list, pass it over; chains and pending records keep their links |
| `DnsLinks.Links.Link` | fireos/external/dnsmasq/src/cache.c:157-164 | On the pointers: the record becomes the head, the rest as before |
| `DnsLinks.Links.LinkTail` | fireos/external/dnsmasq/src/cache.c:141-147 | On the pointers: a freed record becomes the tail, the rest as before |
| `DnsLinks.Links.Push` | fireos/external/dnsmasq/src/cache.c:382-385 | On the pointers: next now links the record into the chain of uncommitted insertions, apart from the list |
| `DnsLinks.Links.Pop` | fireos/external/dnsmasq/src/cache.c:393-406 | On the pointers: the newest record leaves that chain |
| `DnsLinks.Links.SetAnswer` | fireos/external/dnsmasq/src/cache.c:427-430 | On the pointers: the next field of a hosts or DHCP record serves as answer link without touching list, pending chain or table |
| `DnsLinks.Links.Splice` | fireos/external/dnsmasq/src/cache.c:439-443 | On the pointers: the three assignments of the round-robin move record k of one chain to place `to`, both place pointers stay valid, and all other chains and lists keep their links |
| `DnsLinks.Links.Enter` | fireos/external/dnsmasq/src/cache.c:132-133 | On the pointers: the record enters the chain where `up` points |
| `DnsLinks.Links.Leave` | fireos/external/dnsmasq/src/cache.c:452-458 | On the pointers: the record `up` points at leaves its chain |
| `DhcpAllocate.AddressAllocate` | fireos/external/dnsmasq/src/dhcp.c:405-495 | Terminates and gives an address if and only if some eligible range holds an admissible one; the address is the first admissible one on the seeded walk of its range, and ranges whose tags match come first |
| `DhcpAllocate.HashAddress` | fireos/external/dnsmasq/src/dhcp.c:416-417 | The seed is 0x10101 times the sum of the bytes of the hardware address, modulo 2^32 |
| `DhcpAllocate.AllocationMeaning` | fireos/external/dnsmasq/src/dhcp.c:423-490 | Corollary of the two passes: what they return is admissible, in an eligible range, and from a range with matching tags whenever one of those could serve |
| `DhcpAllocate.VisitsAll` | fireos/external/dnsmasq/src/dhcp.c:440-486 | Every address of a range is visited within its size, whatever the seed |
| `DhcpAllocate.VisitsOnce` | fireos/external/dnsmasq/src/dhcp.c:440-486 | The wraparound walk is back at its start after exactly the size of the range and repeats no address before |
| `DhcpAllocate.WalkRange` | fireos/external/dnsmasq/src/dhcp.c:440-486 | The walk over one range returns its first admissible address in walking order, or none when there is none |
| `DhcpAllocate.MatchNetid` | fireos/external/dnsmasq/src/dhcp.c:388-403 | All tags must match, a leading # asks for absence, and an empty filter matches only in the second pass |
| `GptSpace.FindFreeBlocks` | fireos/external/gptfdisk/gpt.cc:2341-2367 | Terminates for all disjoint in-range partitions, whatever their sizes and order; the count is that of the maximal runs of free sectors, and total and largest are theirs with one sector added to each run in front of a partition that the strict comparison passes over |
| `GptSpace.FreeBlocksExact` | fireos/external/gptfdisk/gpt.cc:2341-2367 | The total is the number of free sectors if and only if no partition that is passed over stands directly behind a free sector; then the segments are the free runs |
| `GptSpace.Decomposition` | fireos/external/gptfdisk/gpt.cc:2341-2367 | The free runs and the used partitions together make up the usable range, sector for sector |
| `GptSpace.TotalExact` | fireos/external/gptfdisk/gpt.cc:2341-2367 | The total that FindFreeBlocks reports and the used lengths make up the usable range if and only if no partition that is passed over stands directly behind a free sector; two sectors in every partition are enough |
| `GptSpace.FindFirstInLargest` | fireos/external/gptfdisk/gpt.cc:2276-2293 | The start of the first of the largest runs as the search sizes them; 0 if and only if nothing is free |
| `GptSpace.SelectedIsLargest` | fireos/external/gptfdisk/gpt.cc:2276-2293 | It starts a largest run if and only if some largest run is sized one sector too large or no run in front of the first largest one is one sector shorter and sized one too large |
| `GptSpace.FindFirstAvailable` | fireos/external/gptfdisk/gpt.cc:2228-2258 | The least free sector at or after the start, 0 if and only if there is none |
| `GptSpace.LastInFreeExact` | fireos/external/gptfdisk/gpt.cc:2325-2337 | From a free sector the bound is the last sector of its free run if and only if the nearest partition above, if any, is not passed over: it does not start on the last usable sector, nor fill the one sector before a partition that precedes it in the table and is itself not passed over; equivalently, the bound the loop meets it with is not its start |
| `GptSpace.BoundOfRun` | fireos/external/gptfdisk/gpt.cc:2325-2337 | The bound is never wrong by more than that one sector |
| `GptSpace.LastInFreeIsRunEnd` | fireos/external/gptfdisk/gpt.cc:2325-2337 | With two sectors in every partition the bound is always the end of the run |
| `GptSpace.OneSectorMissed` | fireos/external/gptfdisk/gpt.cc:2325-2337 | The condition can fail: on the last usable sector, and for two adjoining partitions in one table order but not in the other |
| `GptLayout.LayoutKeptIff` | fireos/external/gptfdisk/gpt.cc:1897-1966 | A sequence of create, delete, swap and sort keeps the used partitions pairwise disjoint and inside the usable range throughout if and only if no creation overruns a partition that the bound passes over |
| `GptLayout.OverrunningRun` | fireos/external/gptfdisk/gpt.cc:1920-1940 | Two creations on a blank disk that do overrun |
| `GptLayout.LayoutSafe` | fireos/external/gptfdisk/gpt.cc:1897-1966 | Any such sequence in which each partition has two sectors is safe |
| `GptLayout.GptData.CreatePartition` | fireos/external/gptfdisk/gpt.cc:1920-1940 | Succeeds if and only if the entry is unused and every sector from the aligned start — the multiple below before the one above, as free sectors allow — to the end is free, or all but the last and that one starts a partition passed over; then that entry and no other changes, and the partitions stay disjoint exactly when it is not such an overrun |
| `GptLayout.RoomIff` | fireos/external/gptfdisk/gpt.cc:1926-1936 | Testing only the start and the bound of its free run is the same as testing every sector of the range, up to an overrun of one sector |
| `GptLayout.GptData.DeletePartition` | fireos/external/gptfdisk/gpt.cc:1897-1916 | Blanks the entry if and only if it lies between the lowest and the highest used entry, and no other |
| `GptLayout.GptData.SwapPartitions` | fireos/external/gptfdisk/gpt.cc:1954-1966 | Exchanges two entries if and only if both numbers are legal |
| `GptLayout.GptData.SortGPT` | fireos/external/gptfdisk/gpt.cc:1944-1947 | The same partitions, the used ones in front by ascending start sector |
| `GptLayout.GptData.GetPartRange` | fireos/external/gptfdisk/gpt.cc:2173-2193 | The lowest and the highest used entry |
| `GptLayout.Align` | fireos/external/gptfdisk/gpt.cc:2122-2158 | A sector on a multiple of the alignment stays; another goes to the multiple below when every sector on the way is free, to the one above when that does not hold and that way is free, and stays only when neither way is; reports whether it moved |
| `GptLayout.AlignedExact` | fireos/external/gptfdisk/gpt.cc:2126-2154 | Exactly one sector meets that condition, and it is the one the alignment gives |
| `GptLayout.AlignedMoves` | fireos/external/gptfdisk/gpt.cc:2122-2158 | A sector that is moved goes to a multiple of the alignment less than one step away, across free sectors only |
| `GptLayout.IsFree` | fireos/external/gptfdisk/gpt.cc:2373-2392 | Free exactly when inside the usable range and in no used partition |
| `Crc32.Checksum` | fireos/external/gptfdisk/crc32.cc:32-43 | The table-driven loop gives the bit-serial reflected CRC, preset and complemented, of inputs of any length |
| `CrcCheck.CheckValue` | fireos/external/gptfdisk/crc32.cc:32-43 | The checksum of the digits 1 to 9 is 0xCBF43926, the check value of CRC-32 |
| `CrcCheck.Residue` | fireos/external/gptfdisk/crc32.cc:32-43 | The checksum of any message followed by its own checksum, low byte first, is 0x2144DF1C |
| `Crc32.GenTab` | fireos/external/gptfdisk/crc32.cc:50-72 | Every table entry is eight bit-serial steps of its index |
| `Crc32.EightSteps` | fireos/external/gptfdisk/crc32.cc:32-72 | One table lookup on the low byte does eight steps of any register |
| `Crc32.OneByteDetected` | fireos/external/gptfdisk/crc32.cc:32-43 | Any change confined to one byte changes the checksum, at any length |
| `GptHeader.CheckHeaderCRC` | fireos/external/gptfdisk/gpt.cc:537-580 | Accepts exactly when the stored checksum is that of the checksummed bytes, and leaves the header as it was |
| `GptHeader.AcceptsMeans` | fireos/external/gptfdisk/gpt.cc:537-580 | In bytes: a header is accepted exactly when bytes 16 to 19 hold, low byte first, the checksum of the header with these four zero, over the size that bytes 12 to 15 hold, or 92, zero-filled beyond the header |
| `GptHeader.RecomputeCRCs` | fireos/external/gptfdisk/gpt.cc:585-629 | Both headers get the main header's size in bytes 12 to 15, the checksum of the entries in bytes 88 to 91 and their own in bytes 16 to 19, low byte first, and change nowhere else |
| `GptHeader.RecomputedAccepted` | fireos/external/gptfdisk/gpt.cc:585-629 | After recomputation, with 92 ≤ headerSize ≤ 512 ≤ blockSize, the check accepts both headers, whatever else they hold |
| `GptHeader.ChangeRejected` | fireos/external/gptfdisk/gpt.cc:537-580 | A change of one checksummed byte outside the size field is rejected; this covers the stored checksum as well |
| `Spaces.SpaceList.IdentifySpaces` | fireos/external/gptfdisk/gptcurses.cc:209-212 | A well-formed doubly linked list of length numSpaces that tiles the usable range in order, with exactly one space for every used partition and gaps elsewhere |
| `Spaces.SpaceList.SortSpaces` | fireos/external/gptfdisk/gptcurses.cc:184-204 | The same nodes, relinked while they are walked, ascending by first sector |
| `Spaces.SpaceList.AddEmptySpaces` | fireos/external/gptfdisk/gptcurses.cc:121-148 | Every uncovered sector of the usable range gets into exactly one added gap; the other nodes are kept, and the result is the number of gaps added |
| `Spaces.SpaceList.FillGaps` | fireos/external/gptfdisk/gptcurses.cc:127-146 | The loop walks a list that is re-sorted under it at each insertion, and still closes every gap |
| `Spaces.SpaceList.AddEmptySpace` | fireos/external/gptfdisk/gptcurses.cc:107-117 | One fresh node joins the list, which is sorted again |
| `Spaces.SpaceList.UnlinkSpace` | fireos/external/gptfdisk/gptcurses.cc:152-166 | A node leaves a linked chain, whose ends and links close over it; its own links are cleared |
| `Spaces.SpaceList.LinkToEnd` | fireos/external/gptfdisk/gptcurses.cc:169-181 | A node joins at the end with both links |
| `Spaces.SpaceList.MakeSpacesFromParts` | fireos/external/gptfdisk/gptcurses.cc:88-104 | One fresh space per used partition, in table order |
| `Spaces.SpaceList.EmptySpaces` | fireos/external/gptfdisk/gptcurses.cc:73-83 | The list ends empty |
| `Spaces.PointerFacts` | fireos/external/gptfdisk/gptcurses.cc:127-146 | In a sorted list without overlaps the prev and next links lead to the neighbours on the disk |
| `EbrLayout.SaveAndReload` | fireos/external/gptfdisk/basicmbr.cc:376-438 | Round trip: for a legal table with room to move entries, unless an EFI GPT partition stays beside logicals, what is written reads back from the start of the extended partition as exactly the logicals of the table in disk order, each with start, length and type; the result is the last index used and no other entry changes |
| `EbrLayout.WriteMBRData` | fireos/external/gptfdisk/basicmbr.cc:376-438 | On a legal table the disk holds a chain of boot records for exactly the table's logicals, each link giving the extent from the next record to the end of its logical and the last record linking nowhere, and no other sector changes; it fails if and only if there are logicals and an entry of EFI GPT type other than the one whose place the extended partition takes; in memory the table keeps all its data but extended partitions |
| `EbrLayout.CreateExtended` | fireos/external/gptfdisk/basicmbr.cc:1366-1403 | The logicals stand in disk order from entry 4 on, none lost or added, and one extended partition runs from the sector before the first to the end of the last; it takes the place of one empty entry, named on the table as it was, and every other entry is kept; the failure is exact on that table too |
| `EbrLayout.SlotTraced` | fireos/external/gptfdisk/basicmbr.cc:1312-1360 | Through both moves: the entry whose place the extended partition takes is read off the table as it was |
| `EbrLayout.RemoveLogicalsFromFirstFour` | fireos/external/gptfdisk/basicmbr.cc:1312-1335 | A rearrangement after which the first four entries hold primaries and blanks only; returns how many had to move |
| `EbrLayout.MovePrimariesToFirstFour` | fireos/external/gptfdisk/basicmbr.cc:1339-1360 | A rearrangement after which no primary stands behind the first four entries; returns how many had to move |
| `EbrLayout.SortMBR` | fireos/external/gptfdisk/basicmbr.cc:1162-1165 | The entries from the start index on are rearranged into disk order, the others stay |
| `EbrChain.ReadLogicalParts` | fireos/external/gptfdisk/basicmbr.cc:281-354 | A chain as written is read entry by entry to its end: the loop detection never fires, and entries outside the chain's stay |
| `EbrChain.WriteLogicals` | fireos/external/gptfdisk/basicmbr.cc:408-435 | The records lie in the sectors before their logicals and describe them; each links, with type 0x0f, to the extent of the next record and its logical, the last one has an empty link, and every other sector stays |
| `EbrChain.ChainCovers` | fireos/external/gptfdisk/basicmbr.cc:414-426 | In any chain the extent of each link runs from the next record to the end of the logical behind it |
| `EbrChain.EbrsOutside` | fireos/external/gptfdisk/basicmbr.cc:376-438 | Corollary of the spacing of a chain: every boot record lies inside the extended partition and outside every logical |

## Left out

Reed–Solomon:
- `RsCodec.Init`: asks of a register that passes the test that it has no shorter period, because the source then reads table entries it never wrote, and of prim that it is coprime to nn, because its search for iprim does not end otherwise.
- Codes with nroots = 0, the UNNORMALIZED and DEBUG variants, and failing memory allocation.
- Overflow of int index sums for symbol sizes near the width of int: indices are unbounded integers here.
- Blocks with no codeword within reach, beyond the facts that -1 leaves the data alone and means that nothing is in reach; a nonnegative count then does not imply a codeword.
- Repeated erasure positions, for which nothing but the -1 and zero cases is promised, and arrays eras_pos shorter than nroots, which `RsDecoder.Decode` excludes.
- The older copies of the codec and the dual-basis tables.

Viterbi:
- The saturating SSE and Altivec decoders, the path_metric estimate, the assembly assists and NULL decoder handles.
- Vector decision bytes are modelled as the bit they stand for; the vector code's 16-bit lanes are array elements.
- The vector code's set_viterbi39_polynomial_mmx takes the parity of a negative polynomial directly; the model takes its absolute value, as the portable code does, and negative polynomials are not among the library's.

DNS cache:
- The class `DnsCache.Cache` works on sequences of record numbers; `DnsLinks.Links` proves each relinking step on records that stand on the list and in a chain at once, but the two classes are not joined into one.
- The union of address and alias target is kept as two fields; uid wrap-around, counters, logging and failing allocation are not modelled.
- Reading the hosts file, cache_reload, and the code around the entry of a lease, its scans and its counter uid included: `DnsCache.Cache.EnterStatic` is the step that puts any one such record into the table, with the uid it has.
- What a long name reads as once the scan for it has freed its buffer is a parameter (`scrap`) of `DnsCache.Cache.Insert`; the bytes of the free list that it consists of are not modelled.
- The hash's mixing table is any function.

DHCP allocator:
- Pings, address_available, the other users of the lease table; leases are a set, which does not change during an allocation.
- Empty ranges and the range that is the whole 32-bit space.

GPT:
- 64-bit wrap-around of sector numbers, the protective MBR updated by DeletePartition, names, attributes and type codes.
- std::sort is modelled by a sequence function that is proved to be a rearrangement in order.
- Byte reversal on big-endian hosts; header sizes outside 92 to 512 in the acceptance theorem.
- cgdisk's drawing and menus.

Extended boot records:
- The main boot record in sector 0, CHS fields and the status byte.
- `EbrLayout.Legal` states what is needed of a legal table (disjoint partitions, a free sector before each logical, at most four primaries counting the extended one, room among the later entries); how IsLegal computes it, and the refusal of an illegal table, are not modelled.
- `EbrChain.ReadLogicalParts`: asks for a chain as the writer leaves it; on other disks the reader need not end.

Everywhere: device and file access, sockets, clocks (the time is a parameter), menus and messages.
