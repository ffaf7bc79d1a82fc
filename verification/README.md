# URN: a verified model

This project models the Go package `urn`, which handles Uniform Resource Names of the form
`urn:<NID>:<NSS>` (RFC 2141). It covers these parts:

- **The `URN` value:** two byte strings, the namespace identifier (NID) and the
  namespace-specific string (NSS).
- **`New`:** trims both parts and validates them. The NID is checked for its length, for the
  prefixes `x-`, `xy-` and `urn-` that sections 4.1 and 4.3 of RFC 3406 reserve (compared
  case-insensitively), and against its character pattern. The NSS is checked for being
  non-empty and against its pattern of plain bytes and `%HH` escapes.
- **`Parse`, `MustParse` and `parseRawURN`:** `Parse` and `MustParse` trim the input;
  `parseRawURN` then cuts it at the first two colons and demands the literal prefix `urn`, an
  NID that matches its pattern and an NSS that matches its pattern.
- **`String`, `MarshalJSON` and `constructURN`:** render `urn:<nid>:<nss>`, with or without
  double quotes around it.

The model is pure: a datatype for the URN, `Result`/`Outcome`/`Run` datatypes for the Go
`(value, error)` returns and for a panic, and functions and lemmas for everything else. It has
five modules:

- **`ByteStrings`** (`bytes.dfy`) models the functions of Go's `bytes` package that the code
  calls: TrimSpace, SplitN, Join and ToLower (`bytes.Equal` is sequence equality). IndexByte,
  Count and HasPrefix are aids for the model: SplitN searches with IndexByte, its token count
  follows Count, and HasPrefix says where the `urn:` prefix sits. The module also proves how
  these relate: SplitN and Join undo each other, SplitN yields one token per separator plus
  one, and TrimSpace drops only white space.
- **`Urn`** (`urn.dfy`) models `urn.go`: constants, patterns, validators, `New`, `Parse`,
  `MustParse`, `String` and `MarshalJSON`.
- **`UrnProperties`** (`urn_properties.dfy`) holds the promises that span operations:
  - the round trips between `New`, `Parse` and `String`;
  - the `Parse`/`New` asymmetry;
  - the JSON form never needing escapes;
  - NID validation ignoring letter case.
- **`UrnExamples`** (`urn_examples.dfy`) states every scenario of `urn_test.go` as a lemma.
- **`UrnFindings`** (`findings.dfy`) models Go slices with capacity, to state the one defect
  listed under Findings.

Two behaviours of the code are kept as written:

- **`Parse` is more lenient than `New`.** It checks the NID only against its pattern, so it
  accepts a two-byte NID or an `x-`, `xy-` or `urn-` prefix that `New` refuses.
- **Only the literal `xy-` is banned.** Section 4.3 of RFC 3406 bans any two letters followed by
  `-`, but the code checks for `xy-` alone, and so does the model.

## Model

| member | source | states |
|---|---|---|
| ByteStrings.ToLower | urn.go:174-194 | bytes.ToLower keeps the length and lower-cases each ASCII letter in place, leaving every other byte alone |
| ByteStrings.ToLowerFacts | urn.go:174-194 | lower-casing a prefix equals the prefix of the lower-cased input, and lower-casing is idempotent |
| ByteStrings.Count | urn.go:94-100 | the count of a byte is at most the length and is zero exactly when the byte is absent |
| ByteStrings.CountConcat | urn.go:94-100 | counts add up over a concatenation |
| ByteStrings.IndexByte | urn.go:94 | -1 exactly when the byte is absent; otherwise the index of its first occurrence |
| ByteStrings.IndexByteFirst | urn.go:94 | a position holding the byte with no earlier occurrence is what IndexByte returns |
| ByteStrings.TrimLeft | urn.go:48 | the leading-space loop of TrimSpace returns a suffix of its input that does not start with white space |
| ByteStrings.TrimLeftDrops | urn.go:48 | what the leading-space loop drops is all white space |
| ByteStrings.TrimLeftPadded | urn.go:48 | white space in front of a non-space byte is exactly what the leading-space loop drops |
| ByteStrings.TrimRight | urn.go:58 | the trailing-space loop of TrimSpace returns a prefix of its input that does not end in white space |
| ByteStrings.TrimRightDrops | urn.go:58 | what the trailing-space loop drops is all white space |
| ByteStrings.TrimSpace | urn.go:48 | the result is no longer than the input, has no white space at either end, and is the input itself when that is already trimmed |
| ByteStrings.TrimSpaceDrops | urn.go:76 | TrimSpace keeps one contiguous run of its input and drops only white space before and after it |
| ByteStrings.TrimSpaceAt | urn.go:76 | that run starts right after the leading white space |
| ByteStrings.SplitN | urn.go:94 | SplitN with limit n yields between 1 and n tokens |
| ByteStrings.SplitNCount | urn.go:94-100 | SplitN yields one token more than there are separators, capped at n; so three tokens exactly when there are two colons |
| ByteStrings.SplitNJoin | urn.go:94 | joining SplitN's tokens with the separator gives back the input |
| ByteStrings.SplitNTokens | urn.go:94 | every token but the last holds no separator, so the last keeps the rest, colons included |
| ByteStrings.SplitNCons | urn.go:94 | splitting at a first separator cuts right after a separator-free head |
| ByteStrings.SplitThreeJoin | urn.go:94 | SplitN into three undoes Join of three parts when the first two hold no separator |
| ByteStrings.JoinThree | urn.go:150-157 | Join of three parts is the parts with the separator between them |
| ByteStrings.Join | urn.go:150-157 | bytes.Join with a one-byte separator: the parts with the separator between each two (no ensures; JoinThree states it for three parts) |
| Urn.ReservedNidPrefix | urn.go:13 | the bytes of `urn-`, the reserved NID prefix (a constant) |
| Urn.ExperimentalNidPrefix | urn.go:14 | the bytes of `x-`, the experimental NID prefix (a constant) |
| Urn.XyNidPrefix | urn.go:15 | the bytes of `xy-`, the other refused NID prefix (a constant) |
| Urn.UrnPrefix | urn.go:17 | the bytes of `urn`, the first token every URN must have (a constant) |
| Urn.Delimiter | urn.go:18 | the byte `:` that separates the parts (a constant) |
| Urn.MinNidLength | urn.go:34 | an NID has at least 3 bytes (a constant) |
| Urn.MaxNidLength | urn.go:35 | an NID has at most 32 bytes (a constant) |
| Urn.MinNssLength | urn.go:36 | an NSS has at least 1 byte (a constant) |
| Urn.PartsCount | urn.go:93 | parseRawURN cuts the input into at most 3 tokens (a constant) |
| Urn.URN | urn.go:39-42 | an immutable pair of NID and NSS bytes (a datatype) |
| Urn.URN.Construct | urn.go:149-158 | constructURN is `urn`, `:`, the NID, `:`, the NSS |
| Urn.URN.String | urn.go:133-137 | the text form has length NID + NSS + 5, starts with `urn:`, and holds the NID at offset 4, a colon after it and the NSS as the rest |
| Urn.URN.MarshalJSON | urn.go:139-145 | the error result is always nil; the bytes are one double quote, the text form, one double quote |
| Urn.NidPattern | urn.go:21-23 | nidRegexp: 2 to 32 bytes, a letter or digit first, then letters, digits and `-` (a predicate; no ensures) |
| Urn.NssUnits | urn.go:27-29 | nssRegexp's repeated group: a run of `%HH` escapes and NSS bytes (a predicate; NssUnitsIffWellEscaped characterises it) |
| Urn.NssPattern | urn.go:27-29 | nssRegexp: one or more such units (a predicate; no ensures) |
| Urn.HasPrefixFold | urn.go:174-194 | `bytes.Equal(bytes.ToLower(nid[:k]), prefix)`, false when the NID is shorter than the prefix (a predicate; no ensures) |
| Urn.ValidNid | urn.go:160-205 | every rule validateNID checks holds (a predicate; ValidateNid states its link) |
| Urn.ValidNss | urn.go:207-222 | every rule validateNSS checks holds (a predicate; ValidateNss states its link) |
| Urn.Reason | urn.go:160-222 | one constructor per error validateNID and validateNSS return, carrying the NID where the message quotes it (a datatype) |
| Urn.Error | urn.go:52-129 | the wrapped error of New and the four errors of parseRawURN, carrying the bytes their messages quote (a datatype) |
| Urn.ValidateNid | urn.go:160-205 | the first rule broken, in source order, decides the error: too short, too long, `x-`, `xy-`, `urn-` (case-insensitive), pattern; Pass exactly when the NID is valid, and never an NSS reason |
| Urn.ValidateNss | urn.go:207-222 | empty gives the length error, otherwise a pattern mismatch gives the pattern error; Pass exactly when the NSS is valid |
| Urn.New | urn.go:44-72 | succeeds exactly when the trimmed NID and the trimmed NSS are valid, and then holds exactly the trimmed parts; every failure is wrapped; an NID failure carries validateNID's reason and is reported before the NSS is looked at; with a valid NID, an NSS failure carries validateNSS's reason |
| Urn.ParseRaw | urn.go:92-130 | format error exactly when there are fewer than two colons; prefix error exactly when there are two but the bytes do not start with `urn:`, and a prefix error always carries the whole input; a bad NID is the colon-free text between the first two colons; a bad NSS fails its pattern and is a suffix of an input that starts with `urn:` (that it is the rest after the second colon is stated by CheckTokens and InvalidNssAfterNid); a success holds pattern-valid parts that construct back to the input |
| Urn.CheckTokens | urn.go:96-129 | the checks on the three tokens, with the same guarantees as parseRawURN, given only how the tokens lay out the input; a prefix error carries the whole input; a bad NSS is the whole rest after the second colon, following an NID that matched its pattern; three tokens `urn`, a pattern-valid NID and a pattern-valid NSS give exactly the URN of those two |
| Urn.SplitLayout | urn.go:94-96 | three tokens exactly when there are two colons, and then the input is `prefix:nid:rest` with no colon in the prefix or the NID |
| Urn.TokenFacts | urn.go:102-120 | the first token is `urn` exactly when the input starts with `urn:`, and then the NID and the NSS sit at their offsets |
| Urn.UrnParts | urn.go:111-120 | where the NID and the NSS sit in `urn:<nid>:<nss>` |
| Urn.PrefixToken | urn.go:102-103 | a colon-free first token equals `urn` exactly when the input starts with `urn:` |
| Urn.Parse | urn.go:74-78 | parseRawURN of the trimmed input: a success prints back as the trimmed input and holds pattern-valid parts; format and prefix errors exactly as for the trimmed bytes |
| Urn.MustParse | urn.go:80-90 | panics exactly when Parse fails; otherwise returns what Parse returns, which prints back as the trimmed input |
| UrnProperties.HexIsNssByte | urn.go:27-29 | hexadecimal digits are NSS bytes and `%` is not, so a `%` always starts an escape |
| UrnProperties.AllowedAtShift | urn.go:27-29 | dropping a prefix moves each position's verdict to the left |
| UrnProperties.WellEscapedSplit | urn.go:27-29 | the position-by-position NSS rule splits at any point |
| UrnProperties.NssUnitsIffWellEscaped | urn.go:27-29 | the NSS pattern read as a run of units agrees with reading it byte by byte: each byte is an NSS byte or a `%` followed by two hexadecimal digits |
| UrnProperties.NssBytes | urn.go:27-29 | a pattern-valid NSS holds only NSS bytes and `%`, and ends in an NSS byte |
| UrnProperties.NidTrimmed | urn.go:21-23 | a pattern-valid NID has no white space at its ends, so trimming keeps it |
| UrnProperties.StringTrimmed | urn.go:133-137 | the text form of a URN with pattern-valid parts has no white space at its ends |
| UrnProperties.ParseRawParts | urn.go:111-129 | on `urn:<nid>:<nss>` with a colon-free NID, parseRawURN checks the NID pattern, then the NSS pattern, and otherwise returns the two parts |
| UrnProperties.ParseParts | urn.go:74-78 | the same for Parse on the text form, when the NSS does not end in white space |
| UrnProperties.InvalidNssAfterNid | urn.go:111-127 | an NSS error is reported only when the input is `urn:<nid>:<nss>` for a pattern-valid NID |
| UrnProperties.ParseRawConstruct | urn.go:92-158 | parseRawURN inverts constructURN on every URN with pattern-valid parts |
| UrnProperties.ParseString | urn.go:74-78 | Parse inverts String on every URN with pattern-valid parts |
| UrnProperties.NewThenParse | urn.go:44-78 | every URN New builds comes back unchanged from Parse of its text form |
| UrnProperties.ParseThenString | urn.go:74-78 | parsing the text form of a URN Parse returns gives the same URN (that the text form is the trimmed input is Urn.Parse's own ensures) |
| UrnProperties.ParseSkipsNewRules | urn.go:111-118 | a URN with pattern-valid parts whose NID New refuses still parses, while New reports the NID failure |
| UrnProperties.PlainConcat | urn.go:139-145 | bytes that need no JSON escape stay so under concatenation |
| UrnProperties.StringPlain | urn.go:139-145 | the text form of a URN with pattern-valid parts holds no byte JSON would escape |
| UrnProperties.MarshalJSONPlain | urn.go:139-145 | MarshalJSON is a JSON string literal: quotes around the text form, with no byte inside needing an escape |
| UrnProperties.LowerByteClasses | urn.go:174-196 | lower-casing keeps a byte's letter-or-digit and NID classes |
| UrnProperties.HasPrefixFoldLower | urn.go:174-194 | the case-insensitive prefix checks see the same in an NID and in its lower-case form |
| UrnProperties.ValidNidIgnoresCase | urn.go:160-205 | an NID is valid exactly when its lower-case form is |
| UrnExamples.Ascii | urn_test.go:20-53 | the bytes of an ASCII literal, one per character |
| UrnExamples.TextOf | urn_test.go:147 | the text form of a URN built from two literals is the literal `urn:<nid>:<nss>` |
| UrnExamples.FoldMismatch | urn.go:174-194 | one byte that differs after lower-casing rules a prefix out |
| UrnExamples.FoldMatch | urn.go:174-194 | bytes equal to the prefix after lower-casing start with it |
| UrnExamples.NoRefusedPrefix | urn.go:174-194 | an NID starting with none of `x`, `X`, `u`, `U` has no refused prefix |
| UrnExamples.CountTwo | urn.go:96 | two occurrences at different positions count at least twice |
| UrnExamples.AlnumNid | urn.go:21-23 | an NID of 2 to 32 letters and digits matches the pattern, holds no colon and is trimmed |
| UrnExamples.PlainNss | urn.go:27-29 | a non-empty NSS of NSS bytes matches the pattern |
| UrnExamples.NewtonWorldValid | urn_test.go:139-149 | the scenarios' NID `newtonworld` is valid and trimmed |
| UrnExamples.UserNssValid | urn_test.go:139-149 | the NSS `user:test_-user` is valid and trimmed |
| UrnExamples.HexNssValid | urn_test.go:150-160 | the NSS `user:test_-user%2C` is valid and trimmed |
| UrnExamples.ValidUrnNss | urn_test.go:20-28 | the NSS `lol%AC_45:rRR` matches the pattern |
| UrnExamples.NewValid | urn_test.go:139-149 | New accepts `newtonworld` / `user:test_-user`, and the URN prints as `urn:newtonworld:user:test_-user` |
| UrnExamples.NewValidHex | urn_test.go:150-160 | New accepts an NSS with the escape `%2C`, and the URN prints with it |
| UrnExamples.NewTooShort | urn_test.go:161-168 | a one-byte NID gives the too-short error |
| UrnExamples.NewEmpty | urn_test.go:225-232 | empty NID and NSS give the NID too-short error |
| UrnExamples.NewTooLong | urn_test.go:169-176 | a 76-byte NID gives the too-long error |
| UrnExamples.NewReserved | urn_test.go:177-184 | `urn-nid` gives the reserved error |
| UrnExamples.NewExperimental | urn_test.go:185-192 | `x-nid` gives the experimental error |
| UrnExamples.NewXyPrefix | urn_test.go:193-200 | `XY-nid` gives the xy error, in any letter case |
| UrnExamples.NewNidMismatch | urn_test.go:201-208 | `_$nid` gives the pattern error |
| UrnExamples.NewNssEmpty | urn_test.go:209-216 | an empty NSS gives the NSS length error |
| UrnExamples.NewNssMismatch | urn_test.go:217-224 | `%%lol?kek` gives the NSS pattern error |
| UrnExamples.EscapeNssMismatch | urn_test.go:217-224 | `%%lol?kek` has no surrounding white space and validateNSS refuses it with the pattern error |
| UrnExamples.ParseValid | urn_test.go:20-28 | `urn:newtonworld228:lol%AC_45:rRR` parses, the NSS keeping its colon |
| UrnExamples.ParseEmpty | urn_test.go:29-34 | the empty input gives the format error |
| UrnExamples.IrnFacts | urn_test.go:35-40 | `irn:nid456:nss_$:kek` is trimmed, has two colons, and does not start with `urn:` |
| UrnExamples.ParseWrongPrefix | urn_test.go:35-40 | `irn:nid456:nss_$:kek` gives the prefix error carrying the input |
| UrnExamples.ParseWrongNid | urn_test.go:41-46 | `urn:$sdf:nss_$:kek` gives the NID error carrying `$sdf` |
| UrnExamples.ParseWrongNss | urn_test.go:47-53 | `urn:newtonworld228:?kek:lol` gives the NSS error carrying `?kek:lol` |
| UrnExamples.MarshalJSONExample | urn_test.go:115-127 | the JSON form of the test URN is its text form in double quotes |
| UrnExamples.ParseAcceptsShortNid | urn.go:111-118 | `urn:ab:c` parses, while New refuses `ab` as too short |
| UrnExamples.ParseAcceptsExperimentalNid | urn.go:111-118 | `urn:x-ab:c` parses, while New refuses `x-ab` as experimental |
| UrnFindings.Slice.Bytes | urn.go:48 | a slice shows as many bytes as its window is wide |
| UrnFindings.Slice.Cap | urn.go:189 | a slice's capacity is at least its length |
| UrnFindings.Reslice | urn.go:189 | `s[:n]` panics exactly when n exceeds the capacity, and otherwise reads n bytes from the slice's start, the slice's own bytes when n fits its length |
| UrnFindings.Allocate | urn.go:48 | `[]byte(nid)` holds the string's bytes, with capacity for the spare room |
| UrnFindings.SubSlice | urn.go:48 | `s[i:j]` shows the bytes from i to j on the same backing array |
| UrnFindings.TrimStart | urn.go:48 | the offset where TrimSpace's result starts, white space around it |
| UrnFindings.TrimWindow | urn.go:48 | the window of a slice holding a run that white space surrounds |
| UrnFindings.TrimSpaceSlice | urn.go:48 | TrimSpace on a slice shows TrimSpace's bytes, and a non-empty result is a window of the input, followed in the input only by white space |
| UrnFindings.ValidateNidAsWritten | urn.go:160-205 | validateNID with `nid[:4]` unguarded panics exactly on a three-byte NID without spare capacity that passes the `x-` and `xy-` checks |
| UrnFindings.NewNidAsWritten | urn.go:48-50 | the first step of New as written, trimming the fresh allocation and validating it; it panics only when the trimmed NID is three bytes long and the allocation has no spare room |
| UrnFindings.PaddedAbc | urn.go:48 | trimming `"     abc"` leaves `abc` |
| UrnFindings.AbcValid | urn.go:160-205 | `abc` is a valid NID |
| UrnFindings.AsWrittenPanics | urn.go:189 | New with the NID `"     abc"` in a full allocation panics as written, though the trimmed NID is valid |
| UrnFindings.PaddingNotHyphen | urn.go:189 | white space or a zero byte never lower-cases to `-` |
| UrnFindings.AsWrittenMatches | urn.go:189 | when the byte past a three-byte NID is not `-`, validateNID as written agrees with the guarded one unless it panics |
| UrnFindings.TrimmedNext | urn.go:48 | after trimming, the byte past a three-byte NID is trailing white space or zeroed spare room, and any spare room guarantees there is one |
| UrnFindings.AsWrittenAgrees | urn.go:44-50 | the first step of New as written gives the guarded verdict whenever it does not panic, and never panics when the allocation has spare room |

## Left out

- TrimSpace and ToLower are modelled for ASCII only. Go's `bytes.TrimSpace` also strips Unicode
  white space, and `bytes.ToLower` also folds non-ASCII letters.
- Go's regular-expression engine is not modelled. The NID and NSS patterns are stated as
  predicates on the bytes.
- The text of error messages is not modelled. Errors are datatypes naming the failed rule and
  the bytes the message quotes.
- Urn.MustParse: the value a panic carries (the parse error) is not modelled; the result is
  only `Panics`.
- Go slices are byte sequences everywhere except in the module for the Findings row. So the
  main model does not capture sharing of backing arrays, or the capacity that `bytes.TrimSpace`
  leaves on its result.
- Urn.ValidateNid: the reserved-prefix check is guarded by a length of at least four, as the
  code evidently intends. The unguarded form is `UrnFindings.ValidateNidAsWritten`.
- UrnFindings.Allocate: the spare room Go's allocator gives `[]byte(nid)` is a parameter. The
  allocator's size classes are not part of this model.
- Urn.ParseRaw: for an NSS error, its contract says only that the input starts with `urn:`.
  That the NID before the NSS matched its pattern is proved separately, in
  `UrnProperties.InvalidNssAfterNid`.
- `encoding/json` is not modelled. The tests wrap the URN in a struct for `json.Marshal`; the
  model covers `MarshalJSON` alone.
- The testify assertions and the benchmarks (urn_test.go:68-113) are not modelled.
- `bytes.SplitN`, `bytes.Join` and `bytes.Count` are modelled for one-byte separators only. The
  URN delimiter is one byte.

## Findings

| source | as written | input that shows it | evidently intended | confidence | as-written member | corrected member |
|---|---|---|---|---|---|---|
| urn.go:189 | `nid[:4]` is evaluated on an NID of three bytes; it reads past the NID into the slice's spare capacity, and panics when there is none | `New("     abc", "x")`: the eight-byte allocation has no spare room, trimming leaves `abc` with capacity 3, and the slice expression panics | look for the reserved `urn-` prefix only in NIDs of at least four bytes, so `abc` is accepted | medium: not executed; whether the panic happens depends on the allocator's size class for the input | UrnFindings.AsWrittenPanics | Urn.ValidateNid |
