# Bitrix business-process template tool: a Dafny model of its core

`bitrix-bpt-cli-tool` converts Bitrix business-process template files (`.bpt`) to text and back. A `.bpt` file is a compressed byte stream of UTF-8 text. The text is a PHP-serialized value. The tool has three commands:

- `dump` decompresses a file and prints its text, or prints it as an indented tree with `--pretty`.
- `build` compresses a text file into a `.bpt`.
- `info` reports which compression a file uses.

This project models the tool's pure logic and proves properties of it:

- **Compression** (`compression_kind.dfy`, `compression_service.dfy`):
  - The five-valued `CompressionKind`.
  - The header sniff (`DetectCompressionByHeader`).
  - The decode cascade (`DecompressAuto`). It tries the header-matched decompressor, then raw Deflate, then plain UTF-8, then fails.
  - The compress dispatch (`Compress`) and the display labels (`GetHumanReadableName`).
  - The stream codecs and UTF-8 belong to the platform. They are the function-valued fields of `Codecs`, a parameter of every operation. A decoder that returns `None` is a decoder that threw. Round trips are proved under assumptions stated as `requires`: each decoder recovers the text its encoder wrote (`Inverts`, stated per text), and gzip and zlib streams carry their signatures (`GZipFramed`, `ZLibFramed`).
- **Command-line parsing** (`argument_parser.dfy`):
  - The three parsers `ParseDumpArguments`, `ParseBuildArguments` and `ParseInfoArguments`.
  - They share one left-to-right scanner, `Scan`, driven by a per-command flag table.
  - `int.TryParse`, which reads the `--peek` value, is modelled explicitly in `decimal.dfy`.
- **Option records and path resolution** (`command_options.dfy`): `GetInputPath`, the two `GetOutputPath`s, and the property defaults.
- **Serialized-text heuristic and tree printer** (`serialization_service.dfy`):
  - `LooksLikePhpSerialized`, with its regular expression written as an explicit predicate.
  - `DumpPretty` over a dictionary/list/scalar tree. Its output is the sequence of lines it writes.

Behaviour of the code that is easy to miss:

- A lone `0x78` byte is Unknown: the header sniff needs at least two bytes before it names any kind.
- GZip and ZLib streams carry a signature, so the cascade always tries their decoder first. They round-trip for every text that decoder recovers. Deflate and Plain have no signature. They round-trip only when the earlier stages decline the stream (`RoundTrip`, `PlainShadowedByDeflate`).
- Plain encoding returns the UTF-8 bytes of the text.
- The tree printer prints dictionary keys as given, and list elements as `[i]:` with the 0-based position.
- Command-line parsing has exact rules for every token, and they are modelled in full.

## Model

| member | source | states |
|---|---|---|
| `CompressionService.DetectCompressionByHeader` | bitrix-bpt-cli-tool/Services/CompressionService.cs:17-32 | A buffer shorter than 2 bytes is Unknown, even a lone `0x78`. GZip iff the buffer starts `1F 8B`. ZLib iff the length is at least 2 and the first byte is `0x78`, whatever the second byte. Plain and Deflate are never returned. |
| `CompressionService.DecompressAuto` | bitrix-bpt-cli-tool/Services/CompressionService.cs:41-79 | Selection rules. GZip/ZLib are reported iff the sniff named that kind and its decompressor succeeded. Deflate iff the header step produced nothing and Deflate succeeded. Plain iff both failed and UTF-8 decoding succeeded. Unknown iff the result is the failure, which is always "undecodable". Any returned text is what the reported kind's decoder makes of the original, unmodified bytes. |
| `CompressionService.FirstSuccess` | bitrix-bpt-cli-tool/Services/CompressionService.cs:43-78 | The cascade as an ordered list of fallible strategies. A success is the first kind in the list whose decoder accepts the bytes, and every earlier kind refused them. Failure means every kind refused. |
| `CompressionService.DecompressAutoIsFirstSuccess` | bitrix-bpt-cli-tool/Services/CompressionService.cs:43-78 | The cascade equals first-success over [header kind if GZip/ZLib] + [Deflate, Plain]. A failed header attempt is never retried. |
| `CompressionService.CascadeSelects` | bitrix-bpt-cli-tool/Services/CompressionService.cs:43-75 | Both directions: the cascade returns text T as kind k iff the stage for k is reached (all earlier stages declined) and k's decoder yields T. |
| `CompressionService.LenientUtf8NeverFails` | bitrix-bpt-cli-tool/Services/CompressionService.cs:68-78 | If UTF-8 decoding of the bytes succeeds, the cascade never throws, and it reports one of the four real schemes. |
| `CompressionService.Compress` | bitrix-bpt-cli-tool/Services/CompressionService.cs:88-100 | Plain returns exactly the UTF-8 bytes of the text. GZip, ZLib and Deflate each apply their own compressor to those bytes. Failure iff the kind is Unknown, and it is then the unsupported-kind error. |
| `CompressionService.RoundTrip` | bitrix-bpt-cli-tool/Services/CompressionService.cs:41-100 | Assume the kind's decoder recovers this text from what its encoder wrote. Then compressing with GZip or ZLib (given their signatures), or with Deflate or Plain (given that earlier stages decline the stream), and running the cascade returns the original text and the same kind. |
| `CompressionService.PlainShadowedByDeflate` | bitrix-bpt-cli-tool/Services/CompressionService.cs:58-75 | Plain text whose UTF-8 bytes happen to inflate as raw Deflate comes back labelled Deflate, with the inflated text. |
| `CompressionService.GetHumanReadableName` | bitrix-bpt-cli-tool/Services/CompressionService.cs:105-112 | Total: every kind, Unknown included, gets a non-empty label. |
| `CompressionService.HumanReadableNamesDistinct` | bitrix-bpt-cli-tool/Services/CompressionService.cs:105-112 | Different kinds get different labels, so Unknown's default label is shared with no known kind. |
| `Decimal.TryParseInt32` | bitrix-bpt-cli-tool/Services/ArgumentParser.cs:139 | A value is returned only for integer text, and only when it fits in 32 bits. Integer text is optional white space (U+0009 to U+000D, U+0020), then one optional `+` or `-`, then one or more ASCII digits, then optional white space. The value returned is the signed value of those digits. |
| `Decimal.TryParseReadsIntegerText` | bitrix-bpt-cli-tool/Services/ArgumentParser.cs:139 | The converse: integer text parses to its value when that value fits in 32 bits, and fails otherwise. It never wraps around. With the contract of `TryParseInt32`, this means a value is returned iff the text is integer text in range. |
| `Decimal.NatToString` | bitrix-bpt-cli-tool/Services/SerializationService.cs:70 | A list position is written as a non-empty run of ASCII digits without a leading zero. |
| `Decimal.NatToStringRoundTrip` | bitrix-bpt-cli-tool/Services/SerializationService.cs:70 | The digits written for a position read back as that position. |
| `Decimal.TryParseNatToString` | bitrix-bpt-cli-tool/Services/ArgumentParser.cs:139 | Every non-negative 32-bit value in decimal parses back to itself. |
| `Decimal.TryParseOutOfRange` | bitrix-bpt-cli-tool/Services/ArgumentParser.cs:139 | The decimal digits of any number above 2^31-1 fail to parse rather than wrap around. |
| `Decimal.TryParseNegative` | bitrix-bpt-cli-tool/Services/ArgumentParser.cs:139-140 | A minus sign followed by the decimal digits of n, for 0 < n ≤ 2^31, parses to the negative value -n, which the peek check then rejects. |
| `CommandOptions.InputOptions.InputPath` | bitrix-bpt-cli-tool/Models/CommandOptions.cs:23 | The input path is `InPath` when present, else `Input`. |
| `CommandOptions.DumpOptions.OutputPath` | bitrix-bpt-cli-tool/Models/CommandOptions.cs:49 | The dump output path prefers `OutPath`, then `Output`. It is `"-"` exactly when neither holds another value. It never fails. |
| `CommandOptions.BuildOptions.OutputPath` | bitrix-bpt-cli-tool/Models/CommandOptions.cs:75 | Fails iff both `OutPath` and `Output` are absent. Otherwise it returns `OutPath` if present, else `Output`. |
| `CommandOptions.DefaultsResolve` | bitrix-bpt-cli-tool/Models/CommandOptions.cs:13-86 | Defaults: `InPath` is absent, so the input path is `Input`. The dump output is `"-"` and `Pretty` is false. Build has no output file and uses GZip. `PeekLength` is absent. |
| `ArgumentParser.ScanAppend` | bitrix-bpt-cli-tool/Services/ArgumentParser.cs:26-50 | A successful scan stops exactly at the end of the arguments and never skips past it. Scanning more tokens continues from the options it reached. |
| `ArgumentParser.ScanThenSwitch` | bitrix-bpt-cli-tool/Services/ArgumentParser.cs:26-50 | A trailing switch applies its effect to the options reached so far and does nothing else. |
| `ArgumentParser.ScanThenValue` | bitrix-bpt-cli-tool/Services/ArgumentParser.cs:26-50 | A trailing value flag plus value assigns the value on top of the options reached so far: the last one wins. |
| `ArgumentParser.ScanThenDangling` | bitrix-bpt-cli-tool/Services/ArgumentParser.cs:26-50 | A trailing value flag with no value is a missing-value error naming that flag. A trailing non-flag is an unknown-parameter error naming the token. |
| `ArgumentParser.ScanUnknownStops` | bitrix-bpt-cli-tool/Services/ArgumentParser.cs:47-48 | A token outside the flag set, in flag position, is an unknown-parameter error naming that token, whatever arguments follow it. |
| `ArgumentParser.ScanRejectedValueStops` | bitrix-bpt-cli-tool/Services/ArgumentParser.cs:139-140 | A value that its flag rejects fails the scan with the flag's error, whatever arguments follow it. |
| `ArgumentParser.ScanKeeps` | bitrix-bpt-cli-tool/Services/ArgumentParser.cs:26-50 | Any property of the options that every flag keeps holds of the result of a successful scan. |
| `ArgumentParser.ScanReadsOnlyFrom` | bitrix-bpt-cli-tool/Services/ArgumentParser.cs:26-50 | The scan from index i depends only on the arguments from i on. |
| `ArgumentParser.ParsersIgnoreCommandWord` | bitrix-bpt-cli-tool/Services/ArgumentParser.cs:18-26 | All three parsers return the same result whatever the command word at index 0 is: the input is read at index 1 and flag scanning starts at index 2. |
| `ArgumentParser.ParseDumpArguments` | bitrix-bpt-cli-tool/Services/ArgumentParser.cs:16-53 | Fewer than 2 arguments is the missing-input error. Exactly 2 gives the defaults with `Input = args[1]`. |
| `ArgumentParser.DumpInputIsSecondArgument` | bitrix-bpt-cli-tool/Services/ArgumentParser.cs:18-26 | A successful dump parse has at least 2 arguments and `Input == args[1]`, and it never sets `OutPath`. |
| `ArgumentParser.DumpOutputLastWins` | bitrix-bpt-cli-tool/Services/ArgumentParser.cs:30-35 | A final `-o v` or `--out v` overwrites `Output` with `v`, changes no other field, and makes the output path `v`. |
| `ArgumentParser.DumpInPathLastWins` | bitrix-bpt-cli-tool/Services/ArgumentParser.cs:37-41 | A final `--in v` overwrites `InPath` with `v`, changes no other field, and makes the input path `v`. |
| `ArgumentParser.DumpPrettyOnlySetsPretty` | bitrix-bpt-cli-tool/Services/ArgumentParser.cs:43-45 | `--pretty` sets `Pretty` to true and changes nothing else. |
| `ArgumentParser.DumpTrailingTokenErrors` | bitrix-bpt-cli-tool/Services/ArgumentParser.cs:30-48 | A final `-o`, `--out` or `--in` with no value is a missing-value error. Any other token except `--pretty` is an unknown-parameter error. |
| `ArgumentParser.DumpUnknownStops` | bitrix-bpt-cli-tool/Services/ArgumentParser.cs:47-48 | Any token in flag position other than `-o`, `--out`, `--in` and `--pretty` fails the dump parse with the unknown-parameter error, whatever follows it. |
| `ArgumentParser.RequireOutput` | bitrix-bpt-cli-tool/Services/ArgumentParser.cs:110-113 | The options pass, unchanged, iff `Output` or `OutPath` is present and non-empty. |
| `ArgumentParser.ParseBuildArguments` | bitrix-bpt-cli-tool/Services/ArgumentParser.cs:61-114 | Fewer than 2 arguments is the missing-input error. Exactly 2 is the missing-output error. |
| `ArgumentParser.BuildScanKeeps` | bitrix-bpt-cli-tool/Services/ArgumentParser.cs:66-108 | The build flag loop keeps `Input == args[1]`, never sets `OutPath`, and always leaves a real compression scheme. |
| `ArgumentParser.BuildScanOutputFromArgs` | bitrix-bpt-cli-tool/Services/ArgumentParser.cs:76-81 | Whatever `Output` the build flag loop ends with is the token that follows some `-o`/`--out` in the arguments. |
| `ArgumentParser.BuildRequiresOutput` | bitrix-bpt-cli-tool/Services/ArgumentParser.cs:110-111 | A successful build parse has a non-empty `Output`, which is the value of an `-o`/`--out` flag in the arguments, and no `OutPath`. Its output path therefore resolves to `Output` without error. |
| `ArgumentParser.BuildKindLastWins` | bitrix-bpt-cli-tool/Services/ArgumentParser.cs:89-103 | The last of `--gzip`/`--zlib`/`--deflate`/`--plain` determines the kind of the flag loop's result, before or after `-o`, and nothing else changes. The output check ignores the kind, so the full parse succeeds or fails exactly as without the flag. |
| `ArgumentParser.BuildOutputLastWins` | bitrix-bpt-cli-tool/Services/ArgumentParser.cs:76-81 | The last `-o`/`--out` value determines `Output`. An empty last value fails the parse even when an earlier one was non-empty. |
| `ArgumentParser.BuildDefaultsToGZip` | bitrix-bpt-cli-tool/Services/ArgumentParser.cs:66-70 | `build <in> -o <out>` with no kind flag yields GZip, with no `InPath` or `OutPath`. |
| `ArgumentParser.BuildUnknownStops` | bitrix-bpt-cli-tool/Services/ArgumentParser.cs:105-106 | Any token in flag position other than `-o`, `--out`, `--in` and the four kind flags fails the build parse with the unknown-parameter error, whatever follows it. The missing-output check is never reached. |
| `ArgumentParser.PeekValue` | bitrix-bpt-cli-tool/Services/ArgumentParser.cs:139-141 | The `--peek` value is accepted iff it parses as a 32-bit integer ≥ 0, and `PeekLength` then holds exactly that value. Otherwise it is the invalid-peek error. |
| `ArgumentParser.ParseInfoArguments` | bitrix-bpt-cli-tool/Services/ArgumentParser.cs:122-156 | Fewer than 2 arguments is the missing-input error. Exactly 2 gives the defaults with `Input = args[1]`. |
| `ArgumentParser.InfoPeekNonNegative` | bitrix-bpt-cli-tool/Services/ArgumentParser.cs:136-142 | A successful info parse has `Input == args[1]`, and any `PeekLength` is non-negative. |
| `ArgumentParser.InfoPeekLastWins` | bitrix-bpt-cli-tool/Services/ArgumentParser.cs:136-142 | A final `--peek n`, for any n from 0 to 2^31-1, sets `PeekLength` to n and changes nothing else. |
| `ArgumentParser.InfoPeekAcceptsOnlyNonNegative` | bitrix-bpt-cli-tool/Services/ArgumentParser.cs:136-142 | Both directions: a final `--peek v` succeeds iff v parses as a 32-bit integer ≥ 0. Every failure is the invalid-peek error, whether v is not a number, out of range or negative. |
| `ArgumentParser.InfoPeekRejectsNegative` | bitrix-bpt-cli-tool/Services/ArgumentParser.cs:139-140 | A final `--peek` whose value is a minus sign followed by the digits of some n > 0 fails with the invalid-peek error. |
| `ArgumentParser.InfoBadPeekStops` | bitrix-bpt-cli-tool/Services/ArgumentParser.cs:139-140 | A `--peek` value that is not a 32-bit integer ≥ 0 fails the info parse with the invalid-peek error, whatever follows it. |
| `ArgumentParser.InfoInPathLastWins` | bitrix-bpt-cli-tool/Services/ArgumentParser.cs:144-148 | A final `--in v` overwrites `InPath`, changes no other field, and makes the input path `v`. |
| `ArgumentParser.InfoTrailingTokenErrors` | bitrix-bpt-cli-tool/Services/ArgumentParser.cs:136-151 | A final `--peek` or `--in` with no value is a missing-value error. Any other final token is an unknown-parameter error. |
| `ArgumentParser.InfoUnknownStops` | bitrix-bpt-cli-tool/Services/ArgumentParser.cs:150-151 | Any token in flag position other than `--peek` and `--in` fails the info parse with the unknown-parameter error, whatever follows it. |
| `SerializationService.Sample` | bitrix-bpt-cli-tool/Services/SerializationService.cs:22 | The sample is the first min(200, length) characters of the text. |
| `SerializationService.PatternImpliesPrefix` | bitrix-bpt-cli-tool/Services/SerializationService.cs:25-34 | Every string the regular expression (one of the letters a, s, i, b, d, O, a colon, one or more digits, then `:`, `;` or `{`) matches already starts with an accepted prefix, whatever `\d` matches. The regex fallback never changes the answer. |
| `SerializationService.LooksLikePhpSerialized` | bitrix-bpt-cli-tool/Services/SerializationService.cs:16-35 | The empty string does not look serialized. The verdict equals the prefix test alone (`a:`, `s:`, `i:`, `b:`, `N;`, `O:`, `d:`) applied to the whole text. |
| `SerializationService.VerdictIgnoresTail` | bitrix-bpt-cli-tool/Services/SerializationService.cs:22 | Appending anything after the first 200 characters never changes the verdict. |
| `SerializationService.Indent` | bitrix-bpt-cli-tool/Services/SerializationService.cs:55 | The indent for a level is exactly `2*level` spaces. |
| `SerializationService.DumpPretty` | bitrix-bpt-cli-tool/Services/SerializationService.cs:53-79 | Every line written for a node at `level` starts with the `2*level`-space indent. A scalar writes exactly one line, its text at the current indent. An empty dictionary or list writes nothing. |
| `SerializationService.DumpEntries` | bitrix-bpt-cli-tool/Services/SerializationService.cs:59-65 | Every line of a dictionary's rendering carries the dictionary's indent. No entries, no lines. |
| `SerializationService.DumpItems` | bitrix-bpt-cli-tool/Services/SerializationService.cs:67-73 | Every line of a list's rendering carries the list's indent. No elements, no lines. |
| `SerializationService.DumpEntriesConcat` | bitrix-bpt-cli-tool/Services/SerializationService.cs:60-64 | Entries render one after another in enumeration order. The rendering of a split dictionary is the concatenation of the parts' renderings. |
| `SerializationService.DumpItemsConcat` | bitrix-bpt-cli-tool/Services/SerializationService.cs:68-72 | Elements render in order, each with its own 0-based position. The second part of a split list continues numbering at the first part's length. |
| `SerializationService.DumpOneEntry` | bitrix-bpt-cli-tool/Services/SerializationService.cs:62-63 | An entry writes `"<key>:"` at the current indent, followed immediately by its value rendered one level deeper. |
| `SerializationService.DumpOneItem` | bitrix-bpt-cli-tool/Services/SerializationService.cs:70-71 | The element at position i writes `"[i]:"` at the current indent, followed immediately by the element rendered one level deeper. |
| `SerializationService.DumpPrettyShift` | bitrix-bpt-cli-tool/Services/SerializationService.cs:55-77 | The level only indents. Rendering at `level` equals rendering at level 0 with exactly `2*level` spaces put in front of every line. |
| `SerializationService.DumpEntriesShift` | bitrix-bpt-cli-tool/Services/SerializationService.cs:59-65 | The same shift property for a dictionary's entries. |
| `SerializationService.DumpItemsShift` | bitrix-bpt-cli-tool/Services/SerializationService.cs:67-73 | The same shift property for a list's elements. |

## Left out

- The GZip, ZLib and raw Deflate stream algorithms and UTF-8 encoding/decoding (`CompressionService.cs:116-170`, `Encoding.UTF8`) are platform code. They are opaque functions in `Codecs`, and round trips assume they invert each other.
- `CompressionService.RoundTrip`: this does not hold for every text with the real decoders. They read through `new StreamReader(..., Encoding.UTF8)`, which drops a leading byte-order mark. `Encoding.UTF8.GetBytes` writes U+FEFF as `EF BB BF`. So a text that starts with U+FEFF comes back without it under GZip, ZLib and Deflate. The lemma therefore assumes inversion for the one text it is about.
- The ZLib path is the .NET 7+ branch. The older-framework branch, where ZLib always throws `NotSupportedException`, is not modelled.
- .NET's default UTF-8 decoder substitutes U+FFFD rather than throwing, so in practice the cascade's final failure is unreachable (`LenientUtf8NeverFails`). The model still keeps the failure path, as the code does.
- `DeserializePhp` wraps the PhpSerializerNET library. The printer reads an abstract dictionary/list/scalar tree instead.
- How scalars and dictionary keys become text (`ToString`, floats) is not modelled. Each scalar and key carries its text. A null node's text is empty, so it prints as a line holding only the indent (`Scalar("")`). Dictionary key uniqueness is not modelled either, because the printer never relies on it.
- Exception messages (Russian text) become error constructors. Only which error occurs, and the flag or token it names, is modelled.
- `Decimal.TryParseInt32`: culture-specific sign symbols, and the trailing NUL characters .NET tolerates, are not modelled. Signs are `+` and `-`.
- `SerializationService.HasKnownPrefix`: C# `StartsWith(string)` compares with the current culture. The model compares ordinally, so a culture that ignores leading characters such as a soft hyphen could accept more.
- `SerializationService.LooksLikePhpSerialized`: `\d` is ASCII digits in the function. .NET's `\d` also matches other Unicode decimal digits. `PatternImpliesPrefix` holds for every digit class, so the verdict is the same.
- C# string lengths count UTF-16 code units, and Dafny characters are Unicode scalar values. Only the 200-character sample is affected, and the verdict reads just the first two characters.
- `SerializationService.DumpPretty`: the indentation property holds for each line written by `WriteLine`. A key or scalar whose text contains a line break produces further physical output lines, and those lines carry no indent. The model treats each written line as one line.
- `SerializationService.DumpPretty`: `level` is a natural number. A negative level makes .NET throw when building the indent, but callers only pass 0 and `level + 1`. The `TextWriter` becomes the returned sequence of lines.
- File, standard input and standard output access, path normalisation and directory creation (`FileIOService.cs`) are I/O.
- Help text, console output and exit codes (`Program.cs`), and command orchestration (`Commands/*.cs`), are I/O around the core and are not part of this model.
