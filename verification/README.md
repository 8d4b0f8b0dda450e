# resolver core, modelled in Dafny

The resolver library turns reference strings such as `${env:HOME}` or
`file:/etc/app.env//DB_HOST` into values. This project models its core:

- **Selector** (`selector/helpers.go`, `selector/navigate.go`):
  - ParsePath splits a dotted path into segments, keeping dots inside `[...]` filters.
  - isFilterToken and parseFilterToken recognise and split `[field=value]` segments.
  - coerce turns the filter value into an int, float, bool or string, and equalCoerced compares it with a tree value.
  - Navigate walks a value tree of maps, sequences and scalars along the segments.
- **Interpolation** (`interpolation.go`):
  - Scans left to right, replacing each `${token}` with the resolver's value.
  - `\${` writes a literal `${`, and a bare `$` is kept as is.
  - Runs up to `maxDepth` passes, stopping as soon as a pass expands nothing.
  - Reports "depth exceeded" if the passes run out while `${` is still in the text.
- **Key/value files** (`file.go`):
  - parseKV reads one `[export ]KEY = VALUE [# comment]` line.
  - This covers inline-comment cutting, single- and double-quoted values and their escapes, and BOM stripping.
  - searchKeyInFile returns the value of the first line that defines a key.
- **Helpers**:
  - splitFileAndKey (`utils.go`) splits a reference at its last `//`.
  - MapWithError (`slices.go`) is the fail-fast map behind ResolveSlice.

Each operation is modelled as a pure function over immutable data, except MapWithError, which is a method with a loop:

| Module | Contents |
|---|---|
| `Values` | The value tree: Go's `any` as a `Value` datatype. |
| `Errors` | The three sentinel errors; `errors.Is` becomes `Errors.Is`, which looks through wrapping. |
| `Strings`, `Strconv` | The standard-library functions the core relies on (TrimSpace, IndexOf, Atoi, ParseBool, …). |

For each operation there is at least one of the following, linked to it by a lemma:

- a reference definition (the character-by-character `RefPass` for the interpolation pass, `SplitOnDots` for bracket-free paths);
- an inverse (escaping for unescaping, `JoinDots` for ParsePath, joining for splitFileAndKey);
- a semantic statement (the first matching line, the first matching element).

Behaviours worth noting:

- Navigate's errors are plain `fmt.Errorf` values. None wraps ErrNotFound or ErrBadPath, so `errors.Is` finds no kind for them.
- parseFilterToken strips every quote character at both ends (`strings.Trim(val, "\"'")`), not one layer of matching quotes. `[k="'v'"]` yields `v`.
- An empty filter key is reported only after the quotes are stripped, and only when Navigate reaches that segment.

## Model

| member | source | states |
|---|---|---|
| SelectorPath.ParsePath | selector/helpers.go:20-52 | ParsePath never fails and never returns an empty list, and joining its tokens with '.' gives back the input: only depth-zero dots are removed. |
| SelectorPath.ParsePathNoBrackets | selector/helpers.go:20-52 | Without brackets, ParsePath equals splitting on every '.' (the reference definition SplitOnDots). |
| SelectorPath.SplitOnDots | selector/helpers.go:35-41 | The reference split: at least one piece, no piece contains '.', and joining with '.' restores the text. |
| SelectorPath.ParsePathJoinDots | selector/helpers.go:20-52 | ParsePath inverts joining with '.' for segments free of '.', '[' and ']', and leaves the bracket depth at zero. |
| SelectorPath.ParsePathFilterSegment | selector/helpers.go:27-43 | In `a.[b].c`, a dot inside the brackets stays in its token, giving three tokens. |
| SelectorPath.ParsePathOpenFilter | selector/helpers.go:27-33 | An unclosed '[' leaves the depth at one, so later dots do not split. |
| SelectorPath.ParsePathStrayClose | selector/helpers.go:30-34 | For plain segments `a` and `b`, a ']' with no '[' open is kept in its token and leaves the depth at zero, so `a].b` parses to `[a + "]", b]`. |
| SelectorPath.ParsePathStrayCloseExample | selector/helpers.go:30-34 | `a].b` parses to `["a]", "b"]`. |
| SelectorPath.ParsePathExampleDotted | selector/helpers.go:14-15 | `servers.0.host` parses to `["servers", "0", "host"]`. |
| SelectorPath.ParsePathExampleFilter | selector/helpers.go:16 | `servers.[name=example.org].ip` parses to `["servers", "[name=example.org]", "ip"]`: the dot inside the brackets stays in its token. |
| SelectorFilter.ParseFilterToken | selector/helpers.go:60-77 | A successful parse has a non-empty, '='-free, trimmed field. The no-'=' error happens exactly when the inner text lacks '='. A token that isFilterToken accepts can only fail with the empty-key error. |
| SelectorFilter.ParseFilterTokenSplit | selector/helpers.go:61-76 | For every key text `k` without '=' and every value `v`, `[k=v]` splits at the first '='. It is an empty-key error exactly when `k` trims to nothing, and otherwise yields the trimmed key and the trimmed, quote-stripped value. |
| SelectorFilter.ParseFilterTokenRoundTrip | selector/helpers.go:59-77 | A filter written as `[field=value]` parses back to the same field and value when the value is trimmed and unquoted; it may contain '='. |
| SelectorFilter.ParseFilterTokenQuoted | selector/helpers.go:69-72 | `[f="w"]` and `[f='w']` both yield `w`. |
| SelectorFilter.StripFilterQuotes | selector/helpers.go:69-72 | A value starting and ending with the same quote loses every quote character at both ends; any other value is unchanged. |
| SelectorFilter.StripFilterQuotesPadded | selector/helpers.go:69-72 | For runs of quotes `a` and `b` with `a` starting as `b` ends, and a middle `w` with no quote at either end, `a w b` is stripped to exactly `w`. |
| SelectorFilter.StripFilterQuotesNested | selector/helpers.go:69-72 | The filter value `"'v'"` is stripped to `v`: both layers of quotes go. |
| SelectorFilter.Coerce | selector/helpers.go:81-94 | Atoi is tried first, then ParseFloat, then a case-insensitive true/false given to ParseBool. An integer result needs Atoi to succeed, and a text no parse accepts stays the original string. Each kind of result is tied to the parse that produced it. |
| SelectorFilter.CoerceNumbersBeforeBools | selector/helpers.go:80-84 | "1", "0" and "-7" coerce to integers, never to booleans. |
| SelectorFilter.CoerceBoolQuirk | selector/helpers.go:88-91 | "True" coerces to true, but "tRuE" coerces to false, because ParseBool's error is ignored. |
| SelectorFilter.CoerceNotNumeral | selector/helpers.go:81-93 | `1a`, which Atoi rejects, stays the raw text when ParseFloat rejects it too. |
| SelectorFilter.EqualCoerced | selector/helpers.go:97-123 | Bool, string and float wants compare only with the same kind. An int want compares numerically with ints and with integral floats. Every other pairing compares the fmt.Sprint renderings. |
| SelectorFilter.TruncMatches | selector/helpers.go:110 | `int(f) == w && float64(int(f)) == f` holds exactly when f equals the integer w. |
| SelectorNavigate.Step | selector/navigate.go:23-78 | On a map, success exactly when the segment is a key, even for filter-shaped segments. On a sequence, a filter-shaped segment goes to the filter branch and anything else to the index branch. A scalar fails with NotAContainer. |
| SelectorNavigate.SelectMatching | selector/navigate.go:42-61 | The result is the first element that is a map holding the field with a value equalCoerced accepts. It fails with NoMatch exactly when no element qualifies. |
| SelectorNavigate.SelectIndex | selector/navigate.go:66-73 | A segment Atoi rejects is InvalidIndex; an index outside `[0, len)` is IndexOutOfBounds; otherwise the result is the element. |
| SelectorNavigate.SelectIndexNotNumeral | selector/navigate.go:65-68 | `1a`, a lone `+` and ` 1` are invalid indices, whatever the sequence holds. |
| SelectorNavigate.Navigate | selector/navigate.go:20-81 | No segments returns the root; a failing first step is the whole result. |
| SelectorNavigate.NavigateAppend | selector/navigate.go:22-80 | Navigating `a + b` is navigating `a`, then `b` from where `a` ended. A failure on `a` is final: no partial result. |
| SelectorNavigate.NavigateAt | selector/navigate.go:20-81 | Navigating along the keys and decimal indices that reach a leaf of a tree returns that leaf unchanged. |
| SelectorNavigate.NavigateParsedPath | selector/navigate.go:18-19 | The same round trip starting from the dotted path text: ParsePath, then Navigate, reaches the leaf. |
| SelectorNavigate.FilterIntMatchesIntegralFloat | selector/navigate.go:35-58 | `[id=n]` selects a map whose `id` is stored as the float n.0. |
| SelectorNavigate.FilterSelectsSingle | selector/navigate.go:35-58 | A filter that a sequence's only element matches selects that element. |
| Strconv.AtoiRoundTrip | selector/navigate.go:66 | Every decimal index parses back to its integer. |
| Strconv.Atoi | selector/navigate.go:66 | Atoi succeeds exactly on an optional '+' or '-' followed by at least one decimal digit and nothing else. The value is the digits' decimal value, negated after '-'. |
| Strconv.AtoiSigned | selector/navigate.go:66 | A '+' in front of a digit string keeps its value and a '-' negates it. |
| Strconv.AtoiRejects | selector/navigate.go:66-68 | The empty text, a lone sign, `1a`, ` 1`, `1 ` and `+-1` are rejected. |
| Interpolation.TokenBounds | interpolation.go:98-109 | The token runs up to the first '}' and the rest follows it. A missing '}' is MissingClosingBrace exactly when there is no '}'; a blank token is EmptyToken. |
| Interpolation.TokenBoundsBlank | interpolation.go:105-107 | A blank `${ }` gives the empty-token error. |
| Interpolation.StepAt | interpolation.go:32-67 | One iteration at a '$' consumes input, and it counts as an expansion only at a `${`. |
| Interpolation.PassIsRefPass | interpolation.go:25-68 | The jump-to-next-'$' pass equals a character-by-character reference scanner on every input and every resolver. |
| Interpolation.PassEscapeFirst | interpolation.go:34-40 | `\${` is written as `${` with the backslash dropped, and it is not an expansion. |
| Interpolation.PassLiteralDollarFirst | interpolation.go:45-50 | A '$' not followed by '{' is written as is. |
| Interpolation.PassTokenFirst | interpolation.go:52-67 | `${` hands the text after it to tokenBounds and the resolver. Their error ends the pass; otherwise the value is written and the pass counts as having expanded. |
| Interpolation.PassUnchanged | interpolation.go:25-31 | Text without `${` passes through unchanged and unexpanded, and a pass expands only text holding `${`. |
| Interpolation.PassSingleToken | interpolation.go:25-68 | A single token between plain text is replaced by its value in one pass. |
| Interpolation.Passes | interpolation.go:20-81 | Text without `${` is returned as is. With no budget left, the result succeeds exactly when no `${` remains. |
| Interpolation.ResolveStringDepth | interpolation.go:17-82 | Text without `${` is returned unchanged. A depth of zero or less runs no pass, so it succeeds exactly when no `${` is present. |
| Interpolation.ResolveString | interpolation.go:11-13 | The eight-pass entry point leaves text without `${` unchanged. |
| Interpolation.After | interpolation.go:20-75 | The text after k passes that all expanded, or None. In the first case the loop ends as the spent budget dictates; in the second it ends early and never reports depth exceeded. |
| Interpolation.ResolveStringDepthExceeded | interpolation.go:77-81 | Depth exceeded is reported exactly when every pass in the budget expanded a token and `${` remains. When none remains, the text after those passes is the result. |
| Interpolation.ResolveStringDepthMonotone | interpolation.go:70-73 | A success is final: a larger budget gives the same text. |
| Interpolation.PassesMonotone | interpolation.go:70-73 | A successful loop gives the same result with one more pass. |
| Interpolation.PassesSettled | interpolation.go:70-73 | A pass that expands nothing ends the loop with its own output. |
| Interpolation.ResolveSingleToken | interpolation.go:17-82 | A single token whose value leaves no `${` resolves at any budget of at least one. |
| Interpolation.TwoLevelExpansion | interpolation.go:17-82 | A value holding a second token needs two passes: depth one reports depth exceeded, and depth two or more gives the fully expanded text. |
| Interpolation.SelfReferenceExceedsDepth | interpolation.go:77-80 | A token whose value is itself is reported as depth exceeded at every budget. |
| Interpolation.FixedPointExceedsEveryDepth | interpolation.go:77-80 | Text that a pass reproduces while expanding is reported as depth exceeded at every budget. |
| Interpolation.ResolverErrorWrapped | interpolation.go:59-63 | A resolver's error aborts the resolution, wrapped with its token, and errors.Is still sees its kind. |
| Interpolation.MissingClosingBraceIsBadPath | interpolation.go:100-103 | `${` without '}' is MissingClosingBrace at any budget of at least one. With no pass at all it is depth exceeded. |
| Interpolation.BlankTokenIsBadPath | interpolation.go:105-107 | A blank token is EmptyToken at any budget of at least one. |
| Interpolation.EscapedTokenStaysLiteral | interpolation.go:34-40 | `\${` outside any token becomes `${` when nothing expands, and the resolver is not consulted. |
| Interpolation.EscapeUndoneByExpansion | interpolation.go:34-40 | When another token expands in the same pass, the `${` written for `\${` is read as a token by the next pass. |
| KeyValueFile.StripBOM | file.go:187-190 | One leading U+FEFF is removed; anything else is unchanged. |
| KeyValueFile.CommentStart | file.go:108-125 | The first position where an unquoted '#' follows white space or starts the text. None exactly when there is no such position. |
| KeyValueFile.CutInlineCommentUnquoted | file.go:108-129 | The trimmed text before the comment, or the whole text trimmed when there is none. |
| KeyValueFile.UnquotedComment | file.go:121-126 | In text without quotes, a '#' starts a comment exactly when it is first or follows white space. |
| KeyValueFile.QuotedHasNoComment | file.go:113-122 | A '#' inside quotes never starts a comment. |
| KeyValueFile.CutAtComment | file.go:121-123 | `v #c` is cut back to `v`. |
| KeyValueFile.UnescapeDoubleQuoted | file.go:147-184 | Unescaping never lengthens the text, and text without a backslash is unchanged. |
| KeyValueFile.UnescapeEscapeDouble | file.go:147-184 | Unescaping undoes escaping for every text. |
| KeyValueFile.UnescapePair | file.go:160-177 | A backslash and the next character become one character: a control character for n, r and t, and the character itself for every other one, unknown escapes included. |
| KeyValueFile.UnescapeTrailingBackslash | file.go:179-182 | A backslash at the very end is kept. |
| KeyValueFile.UnescapeSingleQuoted | file.go:142 | Replacing `\'` by `'` never lengthens the text, and a text holding no `\'` is unchanged. |
| KeyValueFile.UnescapeEscapeSingle | file.go:140-142 | The single-quoted `\'` to `'` replacement undoes escaping every `'`. |
| KeyValueFile.UnquoteValue | file.go:135-145 | The flag is always true, and the result is never longer than the input. |
| KeyValueFile.UnquoteRoundTrip | file.go:135-145 | Quoting with either quote, then unquoting, gives the text back. |
| KeyValueFile.UnquoteUnquoted | file.go:144 | Text not wrapped in a pair of the same quote, such as `"abc'`, `"abc` or a lone `"`, is its own unquoting. |
| KeyValueFile.UnquotePair | file.go:135-143 | A text wrapped in double quotes is its inside, unescaped the double-quoted way; a text wrapped in single quotes is its inside with `\'` replaced by `'`. |
| KeyValueFile.ParseKV | file.go:77-104 | Blank lines, comment lines and lines without '=' define nothing. A definition has a non-empty, trimmed, '='-free key taken from the line, and a trimmed value. |
| KeyValueFile.ParseAssignmentSplit | file.go:86-103 | For every key text `k` without '=', `k=v` splits at that '='. A key trimming to nothing defines nothing; otherwise the trimmed key gets the cleaned value. |
| KeyValueFile.ParseKVEmptyKey | file.go:90-93 | A line whose key is only white space, such as ` = v`, defines nothing. |
| KeyValueFile.LeadingEquals | file.go:90-93 | A trimmed line starting with '=' defines nothing. |
| KeyValueFile.ParseKVTrim | file.go:78 | Trimming the line first changes nothing. |
| KeyValueFile.ParseKVNoExport | file.go:78-86 | A trimmed line that is not a comment and has no `export ` prefix is read as an assignment. |
| KeyValueFile.ParseKVExport | file.go:77-84 | For every `rest`, `export rest` is read as the assignment `TrimSpace(rest)`; a blank `rest` defines nothing. |
| KeyValueFile.ParseKVPlain | file.go:77-104 | `k a = b v`, with white space a and b, defines k as v. |
| KeyValueFile.ParseKVExportPlain | file.go:82-104 | `export k a = b v` defines k as v. |
| KeyValueFile.ParseKVDoubleQuoted | file.go:97-103 | A double-quoted value comes back unescaped and trimmed, with any '#' inside kept. |
| KeyValueFile.ParseKVSingleQuoted | file.go:97-103 | A single-quoted value comes back trimmed, with any '#' or '"' inside kept. |
| KeyValueFile.ParseKVInlineComment | file.go:96-97 | An inline comment after white space is cut off the value. |
| KeyValueFile.SearchKey | file.go:46-65 | A failure is ErrNotFound, and errors.Is sees the NotFound kind. |
| KeyValueFile.SearchKeySpec | file.go:51-64 | A success is the value of the first line defining the key. Failure happens exactly when no line defines it. |
| KeyValueFile.SearchEmptyKey | file.go:57 | The empty key is never found. |
| KeyValueFile.SearchKeyAppend | file.go:51-60 | A definition in earlier lines hides every later one; without one, the later lines decide. |
| Utils.SplitFileAndKey | utils.go:6-13 | With "//" present, file + "//" + key restores the value and the key holds no "//"; without it, the key is empty. |
| Utils.SplitJoin | utils.go:8-12 | Splitting undoes joining with "//" when the key has no "//" and does not start with '/'. The file part may itself hold "//". |
| Utils.SplitEdges | utils.go:8-12 | A trailing "//" gives an empty key, and a leading "//" gives an empty file. |
| Slices.MapWithError | slices.go:26-36 | Succeeds exactly when every call succeeds, with every image in place. Otherwise it returns the first error and no output, and no call is made after it. |

## Left out

- Strconv.Atoi: accepts integers of any size. Go's strconv.Atoi rejects values outside the signed 64-bit range. For such a value Go's coerce falls through to ParseFloat and yields a float64 (selector/helpers.go:82-86), and Navigate reports "not a valid array index" (selector/navigate.go:66-68), where the model yields VInt and IndexOutOfBounds.
- Strings are sequences of Unicode scalar values, not bytes. Go ranges over a string by rune and replaces each invalid UTF-8 byte with U+FFFD. The model has no invalid UTF-8, so that replacement and byte offsets are not modelled. Every delimiter the core scans for is ASCII, so byte and character scanning agree on valid text.
- Values.Value: a float64 is a Dafny `real`. There is no NaN, no infinity, no negative zero and no rounding. Go int and int64 are both VInt.
- SelectorFilter.Coerce and SelectorFilter.EqualCoerced: strconv.ParseFloat and fmt.Sprint are parameters (`Builtins`), not definitions. The contracts hold for every choice of them.
- Errors are reduced to their kinds and causes: `Errors.Err`, `SelectorNavigate.NavError` and `SelectorFilter.FilterError`. The formatted message texts (`fmt.Errorf` with `%q`, offsets) are not modelled.
- SelectorNavigate.Navigate: its errors are plain `fmt.Errorf` values; none wraps ErrNotFound or ErrBadPath, so `errors.Is` finds no kind for them and the model gives them none.
- KeyValueFile.SearchKey: the file is given as its sequence of lines. bufio.Scanner's line splitting (including CR/LF handling), its 1 MiB line limit, and the scanner.Err failure after a too-long line or a read error are not modelled.
- Slices.MapWithError: the mapped function is pure. It cannot panic, block or have effects.
- Interpolation: the resolver, Registry.ResolveVariable, is a pure parameter. The registry, its scheme lookup and every resolver behind it are not part of this model.
- KeyValueFileResolver.Resolve (file.go:16-43) is not modelled, because it opens files: os.ExpandEnv, the empty-path and empty-key checks, os.Open and io.ReadAll. Its pieces are modelled as StripBOM, SplitFileAndKey and SearchKey.
- ResolveSlice (slices.go:12-14) only passes ResolveVariable to MapWithError, so it is covered by Slices.MapWithError with a pure function.
- strings.Builder's buffer growth in the interpolation pass is not modelled; only the text it builds is.
- KeyValueFile.ParseKVInlineComment: stated for a non-empty value `v` only; with `v` empty the line still defines the key as the empty text.
