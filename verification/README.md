# componentize-go: WIT loading, path and Go toolchain policies in Dafny

componentize-go turns a Go program into a WebAssembly component. Around
the calls into the WIT and component crates, its `src/utils.rs` holds
three small policies. This project models them and proves their
properties:

- `parse_wit` finds the WIT sources and the world to target. It turns the
  raw `--features` arguments into a feature set: each argument is split
  on `,`, then on white space, and empty pieces are dropped. With no
  source path given, it uses the directory `wit`. It pushes every path
  into a `Resolve`, recording one main package per path in input order.
  It then selects the world among those packages.
  - Modules `Text`, `Features` and `WitResolve` (files `text.dfy`,
    `features.dfy`, `resolve.dfy`).
  - The crate's `Resolve::push_path` and `Resolve::select_world` are
    function parameters. The package graph they maintain is a type
    parameter.
- `make_path_absolute` leaves an absolute path alone. It joins a relative
  path onto the current directory.
  - Module `Paths` (`paths.dfy`).
  - Unix path semantics.
  - The current directory is a parameter of type
    `Result<string, IoError>`.
- `check_go_version` gates on the Go toolchain. It runs `go version` and
  refuses a failed run. It refuses output that is not UTF-8. It finds the
  leftmost match of `go(\d+)\.(\d+)\.(\d+)`, reads the three numbers as
  `u32`, and accepts exactly major 1 with minor 25 or later.
  - Modules `Utf8` (`String::from_utf8`), `VersionScan` (the regular
    expression and the decimal reading) and `GoVersion` (the gate). Files
    `utf8.dfy`, `versionscan.dfy` and `goversion.dfy`.
  - The finished process is an input record: exit status, stdout bytes,
    stderr bytes. `None` stands for a process that could not be started.

`Results` (`results.dfy`) holds the `Result` and `Option` types that every
fallible operation returns. `Result` stands for Rust's `Result`. Each `?` of
`parse_wit` and `make_path_absolute` is written out as a `match` that passes
the error on unchanged. The two `?`s of `check_go_version` become the
payload-free errors `SpawnFailed` and `InvalidUtf8` (see "Left out").

The regular expression is specified declaratively:
- `PatternAt` is the language of the pattern at a position.
- `Greedy` says the last `\d+` is maximal.
- `IsLeftmostMatch` is leftmost-first matching.

The scanner `Search`/`MatchAt` is proved to find exactly that match.

## Model

| member | source | states |
|---|---|---|
| Text.Split | src/utils.rs:28 | `str::split` on a set of characters: at least one piece, and no piece contains a separator |
| Text.JoinSplit | src/utils.rs:28 | splitting on one character loses nothing but the separators: joining the pieces with it gives the text back |
| Text.SplitUnion | src/utils.rs:27-29 | splitting on `,` and then splitting each piece on white space equals one split on both sets of characters |
| Text.Words | src/utils.rs:29-30 | a split followed by the empty-piece filter yields only non-empty words free of separators |
| Text.WordsCover | src/utils.rs:29-30 | the words, read back to back, are the text with its separators removed: no other character is lost |
| Text.NonEmpty | src/utils.rs:30 | the filter keeps exactly the non-empty pieces and never lengthens the list |
| Text.NonEmptyAppend | src/utils.rs:29-30 | the filter distributes over concatenation, so filtering inside the `flat_map` equals filtering after it |
| Text.ConcatSplit | src/utils.rs:28 | the pieces of a split, read back to back, are the text with the separators removed |
| Features.SplitWhitespace | src/utils.rs:29 | `split_whitespace` yields non-empty words free of white space that, read back to back, are the text without its white space |
| Features.SplitWhitespaceEach | src/utils.rs:29 | the `flat_map` yields non-empty words free of white space that, read back to back, are all the pieces' text without white space |
| Features.SplitWhitespaceEachIsFiltered | src/utils.rs:29 | `flat_map(split_whitespace)` is the white-space split of every piece followed by one filter of empty pieces |
| Features.TokensAreWords | src/utils.rs:27-30 | the comma, white-space and filter pipeline gives the non-empty pieces of one split on commas and white space together |
| Features.Tokens | src/utils.rs:27-30 | the tokens of an argument are the non-empty pieces of its split on commas and white space; each is non-empty and holds no comma and no white space |
| Features.TokensCoverArgument | src/utils.rs:27-30 | the tokens, read back to back, are the argument minus its commas and white space: no other character is lost |
| Features.FeatureSet | src/utils.rs:26-34 | every member of the feature set is non-empty and holds no comma and no white space |
| Features.FeatureSetMembers | src/utils.rs:26-34 | a string is in the feature set exactly when some argument yields it as a token |
| Features.FeatureSetOrderFree | src/utils.rs:26-34 | argument lists with the same members give the same feature set, whatever their order or repetitions |
| Features.FeatureSetAppend | src/utils.rs:26-34 | arguments given in two batches give the union of the two batches' feature sets |
| Features.InsertAll | src/utils.rs:27-33 | the inner insertion loop adds exactly the tokens of one argument to the set |
| Features.CollectFeatures | src/utils.rs:26-34 | the nested insertion loop, starting from the empty set, builds exactly the feature set |
| Features.ExampleFeatures | src/utils.rs:26-34 | `["a, b", " c "]` and its reversal both give `{a, b, c}` |
| WitResolve.SourcePaths | src/utils.rs:16-19 | an empty path list becomes `["wit"]`; any other list is used as given; the result is never empty |
| WitResolve.InitialResolve | src/utils.rs:22-34 | the fresh resolve copies the `all_features` flag, holds exactly the tokens of the feature arguments and starts from the empty graph |
| WitResolve.PushAll | src/utils.rs:36-40 | no paths give the resolve unchanged and no packages; on success, one main package per path, with the first path's package first, and the feature settings unchanged; a failing first push is the result |
| WitResolve.PushAllSingle | src/utils.rs:37-40 | one path: a successful push records the grown graph and its package, a failing one returns the crate's error unchanged |
| WitResolve.PushAllAppend | src/utils.rs:36-40 | pushing `a + b` is pushing `a` and then `b` from the resolve `a` left: packages come out in input order, and a failure in `a` stops everything |
| WitResolve.ParseWit | src/utils.rs:8-44 | succeeds exactly when all pushes of the source paths and the world selection succeed; the result keeps the flag and the feature set, records one main package per source path and returns the selected world; a failing push or selection returns that error unchanged, as `?` does |
| WitResolve.ParseWitDefaultsToWit | src/utils.rs:16-19 | an empty path list gives the same result as `["wit"]` |
| Paths.IsAbsolute | src/utils.rs:48 | `is_relative` is the negation: a path is absolute exactly when it is non-empty and its first component is the root, the empty piece before a leading `/` |
| Paths.JoinPath | src/utils.rs:49 | `PathBuf::join` on Unix: an absolute argument replaces the base; a relative one follows the base, with one `/` between them when the base is non-empty and does not end in one, and with nothing between them otherwise |
| Paths.JoinPathSegments | src/utils.rs:49 | joining a relative path appends its segments to the base's segments |
| Paths.MakePathAbsolute | src/utils.rs:47-53 | an absolute path comes back unchanged whether or not the current directory is known; a relative one succeeds exactly when the current directory is known, and is then that directory joined with the path, starting with the directory and ending with the path; the directory's error is passed on; with an absolute directory the result is absolute |
| Paths.MakePathAbsoluteSegments | src/utils.rs:47-53 | a relative path's result has the current directory's segments followed by the path's own |
| Paths.MakePathAbsoluteIdempotent | src/utils.rs:47-53 | with an absolute current directory, applying the function to its own result changes nothing |
| Utf8.DecodeScalar | src/utils.rs:107 | one well-formed UTF-8 sequence decodes to a Unicode scalar value in 1 to 4 bytes, and takes one byte exactly when it is ASCII |
| Utf8.Decode | src/utils.rs:107 | `String::from_utf8`: accepted bytes decode to a text of at least a quarter and at most all of their length |
| Utf8.DecodeEncode | src/utils.rs:107 | every text's UTF-8 encoding is accepted and decodes back to the text |
| Utf8.EncodeDecode | src/utils.rs:107 | every accepted byte sequence is the encoding of what it decodes to, so the decoder accepts only shortest forms |
| Utf8.EncodeAscii | src/utils.rs:107 | ASCII text is encoded one byte per character |
| VersionScan.DigitRunIsMaximal | src/utils.rs:108 | the digit run at a position is all digits and is followed by the end or a non-digit |
| VersionScan.MatchAt | src/utils.rs:108-109 | the match of the pattern at one position, when there is one, has three all-digit groups |
| VersionScan.MatchAtSound | src/utils.rs:108-109 | what the scanner returns at a position is an occurrence of the pattern there with a greedy last group |
| VersionScan.MatchAtComplete | src/utils.rs:108-109 | wherever the pattern occurs, the scanner succeeds there with the same first two groups and a last group that extends the occurrence's |
| VersionScan.MatchAtExact | src/utils.rs:108-109 | a greedy occurrence is exactly what the scanner returns at that position |
| VersionScan.MatchAtIff | src/utils.rs:108-109 | the scanner fails at a position exactly when no occurrence of the pattern starts there |
| VersionScan.Search | src/utils.rs:109 | the result is a match at or after the start with no match before it; no result means no match anywhere |
| VersionScan.SearchIsLeftmost | src/utils.rs:108-109 | the search reports exactly the leftmost greedy match, and nothing exactly when the pattern occurs nowhere |
| VersionScan.DecimalValue | src/utils.rs:111-113 | the value `parse` reads from a run of digits is below ten to the number of digits, so nine digits or fewer never overflow `u32` |
| VersionScan.DecimalValueShowNat | src/utils.rs:110-114 | reading a number's decimal spelling gives the number back |
| VersionScan.DecimalValueAppend | src/utils.rs:111-113 | digits are read positionally: the value of a concatenation is the value of its first part shifted by the length of the second, plus the value of the second |
| VersionScan.LeadingZero | src/utils.rs:111-113 | a leading zero does not change the value read, so `025` reads as 25 |
| VersionScan.LeadingDigitBound | src/utils.rs:111-113 | a run of digits that does not start with zero reads as at least ten to one less than its length |
| VersionScan.ShowDecimalValue | src/utils.rs:111-113 | spelling the value read from a run of digits without a superfluous leading zero gives the run back |
| GoVersion.Verdict | src/utils.rs:110-128 | accepts exactly when all three numbers fit in `u32`, major is 1 and minor is at least 25; the overflow outcome arises exactly when some number exceeds `u32`; every other refusal is the unsupported version with its three numbers |
| GoVersion.CheckVersionText | src/utils.rs:108-134 | "cannot parse", carrying the text, exactly when the pattern occurs nowhere; otherwise the verdict on the decimal values of the leftmost match's groups |
| GoVersion.CheckGoVersion | src/utils.rs:97-135 | a process that could not start or a failed run is refused before stdout is read, and the failure carries stderr; stdout that is not UTF-8 gives the decoding error and nothing else does; valid UTF-8 stdout of a successful run is judged by the version text alone; acceptance needs a successful run, valid UTF-8 and an accepted version text |
| GoVersion.CheckGoVersionOfEncoded | src/utils.rs:100-107 | a successful run is judged on the text its stdout encodes; a failed run is refused whatever its stdout holds |
| GoVersion.GateOnReport | src/utils.rs:108-128 | any report `go<major>.<minor>.<patch>`, with no earlier `go<digit>` and no digit after it, is judged on its three numbers; within `u32` it passes exactly for major 1 and minor at least 25, whatever the patch |
| GoVersion.AcceptsGo1253 | src/utils.rs:108-120 | `go version go1.25.3 linux/amd64` passes |
| GoVersion.AcceptsGo1250 | src/utils.rs:117-120 | `go1.25.0` passes |
| GoVersion.AcceptsGo1264 | src/utils.rs:117-120 | `go1.26.4` passes |
| GoVersion.RefusesGo1249 | src/utils.rs:117-128 | `go version go1.24.9 darwin/arm64` is refused as unsupported version 1.24.9 |
| GoVersion.RefusesGo200 | src/utils.rs:117-128 | `go2.0.0` is refused as unsupported version 2.0.0 |
| GoVersion.RefusesTwoPartVersion | src/utils.rs:129-134 | `go1.25`, which has no patch number, is refused as unparsable |

## Left out

- Process spawning, the file system and the current directory are not modelled as effects. The outcome of running `go version` is an input record, and `std::env::current_dir()` is an input `Result`.
- The internals of `Resolve::push_path`, `Resolve::select_world` and `Resolve::default()` are function and value parameters. The wit-parser crate is not part of this model, so its parsing, feature gating and world selection are not modelled.
- `embed_wit` and `module_to_component` (src/utils.rs:55-95) are not modelled. They only chain `wat` parsing, `wit_component` encoding and `fs::write`, which are foreign crates and I/O.
- VersionScan.IsDigit: `\d` is taken to be the ASCII digits. The `regex` crate's `\d` also matches the other Unicode decimal digits, so a version spelled with non-ASCII digits is modelled as no match. In the source it would match, and `parse::<u32>` would then panic.
- GoVersion.Verdict: the panic of `parse::<u32>().unwrap()` on a number above 4294967295 is the outcome `Overflow` rather than a process abort.
- GoVersion.CheckGoVersion: the error values carry the data that goes into each `anyhow!` message, not the formatted text. In particular, stderr is kept as raw bytes rather than passed through `String::from_utf8_lossy`.
- GoVersion.CheckGoVersion: the spawn `io::Error` of `Command::output()?` (src/utils.rs:98) is reduced to `SpawnFailed`, and the `FromUtf8Error` of `String::from_utf8(..)?` (src/utils.rs:107) to `InvalidUtf8`; neither keeps the payload of the source's error, because the model of the process and of decoding has no such detail to pass on.
- Paths.JoinPath: only Unix path syntax is modelled. There are no Windows prefixes or drive letters, `/` is the only separator, and `.`/`..` components are not normalised (the source does not normalise them either).
- Paths.JoinPath: Unix paths are byte strings, while the model's paths are Dafny strings of Unicode scalar values, so paths that are not valid UTF-8 are outside the model. The treatment of `/` is unaffected, because UTF-8 never puts the byte `/` inside a multi-byte character.
- Features.Whitespace: `char::is_whitespace` is the fixed set of the 25 Unicode White_Space code points.
- `debug_assert!` (src/utils.rs:20) is not a separate member. Its condition holds by `SourcePaths`'s contract.
- The CLI (src/command.rs, src/bin/componentize-go.rs), the integration tests (tests/src/lib.rs) and the example Go test are not part of this model: they are argument parsing, orchestration and test fixtures.
