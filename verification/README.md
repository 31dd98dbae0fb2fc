# rust-data-bench, modelled in Dafny

rust-data-bench holds two benchmark drivers, and this project models their deterministic core.

- **test-hash** registers sixty-three hash implementations on x86_64 (62 on other targets, 57 on wasm32). Each has an implementation (crate) name, a variant name, and a closure that returns the digest bytes. The driver:
  - sorts the registry by lower-cased variant name;
  - skips entries whose implementation name does not contain the `--filter` string;
  - hashes a buffer of `size` MiB of zeros once on one thread, then `threads` more times in parallel.

  `list-hashes` prints the distinct variant names in sorted order.
- **test-compress** registers codecs. A codec has a source crate, a name, and compress and decompress closures. For each embedded dataset, the driver:
  - compresses and decompresses once;
  - asserts that the round trip restores the data;
  - times `threads` parallel compressions, then `threads` parallel decompressions, each pass's wall time divided by `threads as u32`;
  - sorts the results by compressed size.

## Layout

| file | module | contents |
|---|---|---|
| `wrappers.dfy` | `Wrappers` | `Option`, `Result` |
| `platform.dfy` | `Platform` | the target architectures the `#[cfg]` gates test |
| `seqs.dfy` | `Seqs` | `Filter`, `Map`, subsequences |
| `stable_sort.dfy` | `StableSort` | the reference for Rust's stable `sort_by` / `sort_by_key` |
| `strings.dfy` | `Strings` | ASCII lower-casing, Rust's string order, `str::contains`, the sorted set of names |
| `bytes.dfy` | `Bytes` | `u32_to_vec`, `u64_to_vec`, `u128_to_vec` and `to_le_bytes` |
| `durations.dfy` | `Durations` | `Duration` and `Duration / u32` |
| `hash_bench.dfy` | `HashBench` | `test-hash/src/main.rs` |
| `compress_bench.dfy` | `CompressBench` | `test-compress/src/main.rs` |

### Modelling choices

**Library calls.** The hash and codec libraries are not modelled. They appear as function-valued fields of `HashLib` and `CodecLib`, so every property holds for every library behaviour. A codec function returning `None` means the closure's `unwrap()` failed. The three compressors that unwrap nothing (lz4-flex, lz4-compression, miniz_oxide) return bytes outright.

**Panics.** A panic is an `Err` outcome. There are four kinds:
- an `unwrap()` in a compress closure;
- an `unwrap()` in a decompress closure;
- the `assert_eq!` on the round trip;
- `Duration / 0`.

A panic aborts the whole program. `RunAll` therefore reports the datasets already printed together with the panic that stopped it.

**Rust's stable sort.** `StableSort.Sort` is insertion sort. It is proved to be the only rearrangement that is both sorted and stable (`StableSort.SortCharacterized`), so it equals what Rust's stable sort returns.

**The benchmark loop.** Skipping non-matching entries of the sorted registry is proved to equal sorting the matching entries (`HashBench.BenchmarkedSpec`).

**The registry `perf_test` runs.** `HashBench.PerfTest` takes the registry as a parameter. `perf_test` always passes `hashes()`, which is `HashBench.Hashes(arch)`. The contract holds for every registry, so it holds for that one.

**Durations.** `Duration / u32` follows `Duration::checked_div`:
- seconds and nanoseconds are divided separately;
- the remainders are carried into the nanoseconds;
- a zero divisor panics.

It is proved equal to floor division of the total nanoseconds. `threads as u32` keeps the low 32 bits.

## Model

| member | source | states |
|---|---|---|
| Bytes.U32ToVec | test-hash/src/main.rs:10-16 | `u32_to_vec` gives 4 bytes that decode little-endian to the value |
| Bytes.U64ToVec | test-hash/src/main.rs:18-24 | `u64_to_vec` gives 8 bytes that decode little-endian to the value |
| Bytes.U128ToVec | test-hash/src/main.rs:26-32 | `u128_to_vec` gives 16 bytes that decode little-endian to the value |
| Bytes.PackerBytes | test-hash/src/main.rs:10-32 | byte `i` of each packer's output is `(v >> 8i) & 0xff` |
| Bytes.LittleEndianRoundTrip | test-hash/src/main.rs:10-32 | re-encoding the value a byte string decodes to gives back the same bytes, so the packing is a bijection |
| Bytes.SplitConcatWords | test-hash/src/main.rs:130-147 | lanes written one after another with `to_le_bytes` read back as the same lanes in the same order |
| Bytes.ConcatWordsChunk | test-hash/src/main.rs:130-147 | bytes `8k..8k+8` of the concatenation are the encoding of lane `k` |
| HashBench.StdHasherOutput | test-hash/src/main.rs:41-44 | `std_hasher` yields 8 bytes that decode to the hasher's `finish()` |
| HashBench.TinyKeccakHash | test-hash/src/main.rs:34-39 | `tiny_keccak_hash` always yields 32 bytes, whatever the variant's digest size, each the byte `finalize` wrote there |
| HashBench.HighwayHash128 | test-hash/src/main.rs:129-137 | 16 bytes: lane 0, then lane 1, each little-endian; splitting them gives back the two lanes |
| HashBench.HighwayHash256 | test-hash/src/main.rs:138-147 | 32 bytes: lanes 0 to 3 little-endian in order; splitting them gives back the four lanes |
| HashBench.Apply | test-hash/src/main.rs:48-264 | output per closure kind: XXH-32 keeps the low 32 bits of `finish()`; `u64` results give 8 little-endian bytes; digests pass through; tiny-keccak and HighwayHash give exactly the outputs of `tiny_keccak_hash` and the Highway lane packing |
| HashBench.CoreUngated | test-hash/src/main.rs:87-229 | no entry outside the `#[cfg]` groups comes from `meowhash` or `ring` |
| HashBench.AssembleGating | test-hash/src/main.rs:48-264 | for a registry with the gated groups at their places, MeowHash is present iff x86_64 and `ring` iff not wasm32 |
| HashBench.AssembleFilter | test-hash/src/main.rs:48-264 | dropping the gated entries leaves the ungated groups in source order |
| HashBench.Hashes | test-hash/src/main.rs:48-264 | `hashes()` holds 63 entries on x86_64, 62 on other targets but wasm32, and 57 on wasm32 |
| HashBench.HashesGating | test-hash/src/main.rs:48-264 | `hashes()`: MeowHash is registered exactly on x86_64 and `ring` everywhere but wasm32; every other entry is registered on every target, in the same order |
| HashBench.NameLeTotalPreorder | test-hash/src/main.rs:309-311 | comparing lower-cased variant names is total and transitive, as `sort_by` needs |
| HashBench.SortByName | test-hash/src/main.rs:308-311 | the sorted registry is a permutation, ascending by lower-cased variant name, with names equal after lower-casing in registry order |
| HashBench.Select | test-hash/src/main.rs:327-332 | no filter keeps everything; a filter keeps exactly the entries whose implementation name contains it, each as often as before, in the same relative order |
| HashBench.BenchmarkedSpec | test-hash/src/main.rs:307-332 | the entries run are the sort of the matching entries: right multiset, ascending by name, ties in registry order |
| HashBench.Resize | test-hash/src/main.rs:320-321 | `Vec::resize`: the new length, the old elements kept, and the fill value after them |
| HashBench.Workload | test-hash/src/main.rs:320-321 | the buffer holds `size * 1024 * 1024` bytes, all zero |
| HashBench.Threads | test-hash/src/main.rs:313 | the `--threads` option when given, else the CPU count |
| HashBench.PerfTest | test-hash/src/main.rs:307-341 | one run per entry in sorted filtered order; the output is the closure applied to the zero buffer; the parallel pass makes `threads` calls on that same buffer |
| HashBench.RunEach | test-hash/src/main.rs:327-341 | one run per entry, in order; each closure sees the same buffer once alone and `threads` times in parallel |
| HashBench.ListHashes | test-hash/src/main.rs:381-393 | the listing is strictly increasing and names exactly the registered variants |
| HashBench.ListHashesSpec | test-hash/src/main.rs:381-393 | the listing is the only strictly increasing list of the registered variants, whatever the set's iteration order |
| Strings.ToAsciiLowercase | test-hash/src/main.rs:310 | same length; each character lower-cased when it is `A`..`Z` |
| Strings.LowercaseProperties | test-hash/src/main.rs:310 | lower-casing leaves no ASCII capital, changes nothing else, and is idempotent |
| Strings.LexLe | test-hash/src/main.rs:309-311 | Rust's string order: `a <= b` iff `a` is a prefix of `b` or, at the first position where they differ, `a` has the smaller character |
| Strings.LexLeTotalOrder | test-hash/src/main.rs:309-311 | Rust's string order is total, transitive and antisymmetric |
| Strings.Contains | test-hash/src/main.rs:329 | `contains` holds iff the needle occurs at some offset; the empty needle occurs everywhere |
| Strings.SortedDistinct | test-hash/src/main.rs:383-388 | the collected set contains exactly the names of the input |
| Strings.SortedDistinctIncreasing | test-hash/src/main.rs:383-388 | the collected-then-sorted names are strictly increasing |
| Strings.StrictlyIncreasingUnique | test-hash/src/main.rs:383-388 | two strictly increasing lists with the same members are equal |
| StableSort.Sort | test-compress/src/main.rs:244 | the sort is a permutation of its input |
| StableSort.SortSorted | test-compress/src/main.rs:244 | the result is ordered by the comparison |
| StableSort.SortStable | test-compress/src/main.rs:244 | elements that compare equal keep their input order |
| StableSort.StableSortUnique | test-compress/src/main.rs:244 | two sorted rearrangements that are both stable with respect to each other are equal |
| StableSort.SortCharacterized | test-hash/src/main.rs:308-311 | any sorted, stable rearrangement is `Sort`'s result |
| StableSort.SortFilterCommute | test-hash/src/main.rs:308-332 | filtering a sorted list equals sorting the filtered list |
| Seqs.FilterIsSubseq | test-hash/src/main.rs:327-332 | filtering keeps the relative order of what it keeps |
| Seqs.FilterCount | test-compress/src/main.rs:32 | filtering keeps each satisfying element exactly as often as it occurs and drops the rest |
| Seqs.FilterConcat | test-hash/src/main.rs:48-264 | filtering distributes over concatenation |
| Seqs.MapIsSubseq | test-compress/src/main.rs:33-38 | mapping keeps the subsequence relation |
| Durations.CheckedDiv | test-compress/src/main.rs:225 | `Duration / n` panics iff `n` is zero; otherwise it is the floor of the total nanoseconds over `n` |
| Durations.CarriedNanos | test-compress/src/main.rs:231 | the carried nanoseconds stay below one second and complete the exact quotient |
| CompressBench.Compress | test-compress/src/main.rs:42-172 | lz4-flex, lz4-compression and miniz_oxide cannot panic in compression; every codec calls its own library, at its registered level or setting |
| CompressBench.Decompress | test-compress/src/main.rs:37-171 | each codec decodes with its own library, which is given the smush codec at most, never a level or quality |
| CompressBench.DecompressIgnoresLevel | test-compress/src/main.rs:37 | decompression depends on the codec only, never on its compression level or quality |
| CompressBench.SmushCodecs | test-compress/src/main.rs:14-40 | `smush_codecs` gives at most 14 codecs, each a "smush" codec whose smush codec is enabled |
| CompressBench.SmushCodecsSpec | test-compress/src/main.rs:14-40 | `smush_codecs` keeps exactly the rows whose codec is enabled, in table order; all 14 when every codec is enabled |
| CompressBench.SelectRows | test-compress/src/main.rs:30-39 | filter-then-map keeps each enabled row as often as the table has it and drops the others, in table order |
| CompressBench.Codecs | test-compress/src/main.rs:42-172 | `codecs()` holds the smush codecs, 6 pure-Rust codecs, 3 cloudflare-zlib codecs with `non_rust` on x86_64, and 9 bzip2 and zstd codecs with `non_rust` |
| CompressBench.RustGroup | test-compress/src/main.rs:45-84 | lz4-flex, lz4-compression, snap, then miniz_oxide "zlib-1" at level 1, "zlib-6" at level 9 and "zlib-9" at level 9 |
| CompressBench.CloudflareGroup | test-compress/src/main.rs:86-124 | the cloudflare-zlib codecs compress at levels 1, 6 and 9 |
| CompressBench.Bzip2Group | test-compress/src/main.rs:126-150 | the bzip2 codecs use the fast, best and default settings, in that order |
| CompressBench.ZstdGroup | test-compress/src/main.rs:152-169 | the zstd codecs use levels 0, 1, 2, 3, 11 and 20, in that order |
| CompressBench.CodecsLayout | test-compress/src/main.rs:42-172 | the smush codecs first and only there; then the six pure-Rust codecs in order; then cloudflare-zlib iff `non_rust` on x86_64, then bzip2 and zstd iff `non_rust`; codecs grouped by crate in the order smush, lz4-flex, lz4-compression, snap, miniz_oxide, cloudflare-zlib, bzip2, zstd |
| CompressBench.AssembleLayout | test-compress/src/main.rs:42-172 | the same layout and crate order for any groups from the same crates |
| CompressBench.ThreadsAsU32 | test-compress/src/main.rs:225 | `threads as u32` is the identity below 2^32 |
| CompressBench.Measure | test-compress/src/main.rs:204-239 | success iff the round trip restores the data and `threads as u32` is non-zero; each panic kind iff its stage fails first; the compressed size and the four durations |
| CompressBench.MeasureCalls | test-compress/src/main.rs:209-231 | the calls made are the planned ones (compress, decompress, `threads` compressions, `threads` decompressions) up to the first that panics, or up to the compressions before a zero divisor; only the last call can fail |
| CompressBench.MtDurationBounds | test-compress/src/main.rs:221-231 | a multi-threaded duration times `threads` fits in the pass's wall time, and one nanosecond more per thread does not |
| CompressBench.Collect | test-compress/src/main.rs:202-242 | the codecs are measured in order until the first panic: all values when none fails, else the first failure |
| CompressBench.Outcomes | test-compress/src/main.rs:202-242 | one outcome per codec, in registry order, each that codec's measurement |
| CompressBench.BySizeTotalPreorder | test-compress/src/main.rs:244 | ordering by `compress_size` is total and transitive |
| CompressBench.DatasetResults | test-compress/src/main.rs:202-242 | the codecs are measured in registry order; a dataset panics iff some codec fails, with the first failing codec's panic |
| CompressBench.DatasetResultsSpec | test-compress/src/main.rs:202-244 | without a panic, one output per codec, ascending by compressed size, equal sizes in registry order |
| CompressBench.BenchDataset | test-compress/src/main.rs:202-244 | the measuring loop with an early exit computes the dataset's results |
| CompressBench.Datasets | test-compress/src/main.rs:185-189 | the three inputs, named bincode, json and wasm, in that order |
| CompressBench.UntilErr | test-compress/src/main.rs:198-244 | the values before the first error, and that error if any |
| CompressBench.RunAll | test-compress/src/main.rs:198-244 | datasets are printed in order until one panics; the panic is that dataset's first failure |

## Left out

- Floating-point throughput, compression ratio and speed-up figures are left out. So are printing, the text/CSV formats, `--show-hashes` and multibase encoding. None of these affects the data the drivers compute.
- Command-line parsing (structopt) and the subcommand dispatch in `main` are left out. The parsed options are a `HashOptions` value.
- Clock readings are left out. Elapsed times are inputs: `Elapsed`, `Clock`.
- `num_cpus::get` is left out. The CPU count is a parameter.
- `include_bytes!` is left out. The datasets' contents are parameters.
- `smush::is_codec_enabled`, the `non_rust` cargo feature and the target architecture are parameters.
- The hash and codec algorithms are uninterpreted functions. Constructor arguments such as seeds, keys and the zlib window/strategy are kept only as names or levels.
- Rayon concurrency and the thread-pool build (`build_global().unwrap()`) are left out.
  - A parallel pass is modelled as its list of calls. The order in which those calls run is not modelled.
  - The outputs of the parallel calls are dropped, as in the source.
  - The calls are pure functions of their inputs, so a parallel call cannot panic once the single-threaded call with the same input has succeeded.
- The xxhrs entries are left out because they are commented out in `hashes()`.
- HashBench.Workload: does not model the `usize` overflow of `size * 1024 * 1024`, because sizes are unbounded integers here.
- HashBench.PerfTest: the division of the parallel wall time by `threads as f64` is floating point and is left out; only the calls made are modelled.
- The SipHash-*-128 entries go through `std_hasher` and so yield only the 8 bytes of `finish()`. This is modelled as written.
- The miniz_oxide codec named "zlib-6" compresses at level 9. This is modelled as written.
