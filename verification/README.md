# erf — error chains with stack traces, in Dafny

This project models the core of the Go package `erf`.

- An `Erf` node is an error. It holds a message, the format and the arguments it was built from, an optional table binding tag names to argument positions, the error it wraps, and the call sites captured when it was created.
- Nodes and foreign errors form a chain. The chain is walked with `Unwrap`.
- A node renders itself through Go's `fmt.Formatter` protocol:
  - `%s`/`%v` write the message.
  - `%x` writes one block per error of the chain; `%X` writes only the first.
  - A block holds the message lines, the stack trace and, under `+`, the tag line.
  - The width sets the padding, the precision sets the indent, and the `-`, `+`, `' '` and `#` flags select the parts.
- Call sites and stack traces render as `function(0xentry)`. With `+` they add a second line, `file:line +0xoffset`.
- File and function paths are shortened by `trimSrcPath` and `trimDirs`.

The model has six modules:

- `Wrappers` holds `Option` and `Result`.
- `Text` holds the standard-library primitives the renderers use: `bytes.Repeat` and `strings.Repeat`, `strings.Split`/`TrimPrefix`, and fmt's `%#x`, `%d` and `%q`. Its `Join` stands for the renderers' separator loops, which write a separator before every element but the first (erf.go:100-102, erf.go:124-127, stack.go:127-129).
- `Util` models util.go.
- `Stack` models stack.go.
- `Erf` models the record, the chain, arguments, tags and constructors of erf.go.
- `ErfFormat` models `Erf.Format`.

How Go features are represented:

- Go panics become `Failure` values of a `Panic` datatype, one constructor per panic message. The exceptions are the index-range panics of `Arg` and `Caller`, which are preconditions.
- Go's `nil` becomes `None`.
- A `uintptr` is an integer in [0, 2^64). `PC - Entry` wraps modulo 2^64.

Some inputs are parameters of the model:

- the text `errors.New`/`fmt.Errorf` produce, and the error a `%w` verb designates;
- the captured program counters and their resolved frames;
- GOROOT and GOPATH;
- the pad character, width and precision that `getPadWidPrec` derives from a directive (`getPadWidPrec` is not part of this model).

A fmt directive is a `Stack.Directive`: the verb, the set of flags `Flag()` reports, and `Width()`/`Precision()` when present.

`Erf.Format` renders each stack trace through a format string it builds itself, `"%+" + flags + "<wid>.<prec>s"`. Re-parsing that string in fmt has a quirk: when the width is 0, its digit `0` is read as the zero-padding flag, and no width is set. `Stack.Spelled` models this. `ErfFormat.StackDirectiveExplicit` shows the output does not depend on it.

Points of the Go code worth knowing when reading the model:

- `Tags` lists tag names with the scan at erf.go:244, which can drop names (see Findings). `Erf.Format` writes that list as it is.
- The chain walker of erf.go:40-52 has no iteration cap. Termination is structural here, because a chain is a finite datatype.
- A foreign error in the chain renders its full message lines. Under `-` it renders the placeholder `- ` instead.
- Only an empty function name gets a placeholder (`???`). File names and line numbers are written as they are, even when empty or zero.
- The package has no operation that copies a node while dropping its top frames.

## Model

| member | source | states |
|---|---|---|
| Util.TrimSrcPath | util.go:10-21 | The result is a suffix of the path. A path under GOROOT/src/ loses exactly that prefix. Failing that, a path under GOPATH/src/ loses that prefix. Otherwise the path is unchanged. |
| Util.TrimSrcPathPrefersGoroot | util.go:12-15 | When both roots match and differ in length, the GOROOT prefix is the one removed and the GOPATH cut is not taken. |
| Util.TrimDirsFrom | util.go:24-28 | The downward scan from index i stops at the highest '/' in [1, i] and returns the text after it, with no separator between the two. With no separator in that range it returns the input. |
| Util.TrimDirs | util.go:23-30 | The result is a suffix of the input. It is the input when no '/' occurs at index 1 or later. When one does, the result is the text after the last such '/', and it contains no '/'. |
| Util.TrimDirsIdempotent | util.go:23-30 | Trimming directories twice gives the same result as trimming once. |
| Util.TrimDirsKeepsRootSeparator | util.go:24 | The loop stops before index 0, so "/foo" is kept whole, while "a/b/c.go" becomes "c.go". |
| Stack.Offset | stack.go:48 | `PC - Entry` as a uintptr: adding it to Entry modulo 2^64 gives PC. It is the plain difference when Entry ≤ PC. |
| Stack.CallerFormat | stack.go:18-54 | A call site writes nothing exactly when the verb is neither 's' nor 'v'. |
| Stack.CallerFormatLines | stack.go:20-50 | For function and file names without newlines: under 's'/'v' the output is one line, or two with '+'. The pad is '\t', or ' ' under the space flag. The padding width defaults to 0. The indent defaults to 1, or 2 under the space flag. The first line is the padding, the function name shortened by trimSrcPath ("???" when empty), and "(0x<entry>)". The second line is the padding, the indent, the file (also passed through trimDirs under '#'), ":line" and " +0x<pc-entry>". |
| Stack.CallerLinesSplit | stack.go:40-48 | For function and file names without newlines, splitting the output at newlines gives back exactly the head line, or the head and detail lines under '+'. Neither line contains a newline. |
| Stack.CallerVerbsAgree | stack.go:21 | 's' and 'v' render a call site identically. |
| Stack.CallerDetailExtends | stack.go:41-49 | The '+' output is exactly the plain output, a newline, then the detail line (padding, indent, file, line and offset). |
| Stack.CallerIgnoresOtherFlags | stack.go:22-48 | Only the ' ', '+' and '#' flags, the width (absent counts as 0) and the precision affect a call site's output. |
| Stack.Len | stack.go:94-96 | The number of call sites of the trace. It is 0 exactly when the trace has none. |
| Stack.Caller | stack.go:98-103 | The call site stored at the index, which is one of the trace's call sites. The requires is exactly the range [0, Len) outside which stack.go:99-100 panics. |
| Stack.Duplicate | stack.go:81-92 | A nil trace duplicates to nil. A copy has the same length, the same call site at every index and the same program counters. |
| Stack.DuplicateRendersSame | stack.go:81-92 | A duplicate renders exactly like the original under every directive. |
| Stack.TraceFormat | stack.go:109-136 | A trace writes nothing for verbs other than 's'/'v' and nothing without call sites. Otherwise it writes each call site under the caller's own directive, separated by newlines. |
| Stack.ForwardedRendersSame | stack.go:113-125 | Re-spelling the directive as a format string, keeping only the flags '+', '#', ' ' and '0' plus the width and precision, renders every call site as the original directive would. |
| Stack.TraceFormatNonEmpty | stack.go:126-135 | A trace writes something exactly when it has a call site and the verb is 's' or 'v'. |
| Stack.TraceFormatOneLinePerCaller | stack.go:126-131 | For a trace with at least one call site, function and file names without newlines, and no '+', the output splits into exactly Len() lines, and line i is the rendering of Caller(i). |
| Erf.Unwrap | erf.go:32-38 | Unwrap gives what the underlying error unwraps to, nil when there is nothing. What it gives lies strictly inside the error, so repeated unwrapping ends. |
| Erf.ChainFrom | erf.go:43-50 | The walk starts at the error, moves to Unwrap() at each step, and stops at the first error with nothing to unwrap. |
| Erf.UnwrapAll | erf.go:40-52 | The first element is the node itself, each next element is what the previous one unwraps to, and the last unwraps to nil. |
| Erf.ChainUnique | erf.go:40-52 | Any sequence that starts at the error, follows Unwrap and ends where Unwrap gives nil is the walk. |
| Erf.Len | erf.go:163-166 | The number of arguments. It is 0 for a node made by New, whose arguments are nil. |
| Erf.Args | erf.go:176-184 | The copy is nil exactly when the node was made by New. A node made by Newf or Wrap gives a non-nil copy, even with no arguments. The copy has Len() elements and element i is Arg(i). |
| Erf.Arg | erf.go:168-174 | The argument at a valid index is the one stored there. Indexes outside [0, Len) are excluded, since Go panics on them. |
| Erf.NonEmptyNamesHas | erf.go:204-207 | The loop skips only "": every non-empty name passed to Attach is in the ordered list of non-empty names, the list the tag table indexes (Erf.IndexTagsSpec) and the Tags results are stated in. |
| Erf.IndexTagsSpec | erf.go:203-212 | The loop that fills the tag table succeeds exactly when no non-empty name repeats. It then maps each non-empty name to its position and nothing else, with one entry per non-empty name. |
| Erf.Attach | erf.go:193-215 | Attach fails exactly when the node has no arguments, already has tags, gets more names than arguments, or gets a repeated non-empty name. The first failing check decides the panic. On success only the tag table changes: it maps each non-empty name to its position, and every position is below Len(). |
| Erf.Tag | erf.go:222-232 | A node without tags, or a name missing from its table, gives nil. A name bound to an index in [0, Len) gives Arg at that index, and one bound outside that range gives nil. "" is never in a table Attach builds, so it gives nil too; Erf.AttachTag states the rest. |
| Erf.AttachTag | erf.go:222-232 | After Attach, each non-empty name yields the argument at its position. "" and names that were not attached yield nil. |
| Erf.Invert | erf.go:239-242 | The inverse of an injective table has the table's values as keys and maps each index back to its name. |
| Erf.TagsBelowSpec | erf.go:243-248 | Scanning indexes [0, n) of the inverse table lists exactly the names attached at those indexes, in increasing index order. |
| Erf.Tags | erf.go:234-250 | Tags is nil exactly when no tags are attached. Otherwise it lists, in increasing argument index, exactly the names whose index is below the number of attached names. |
| Erf.AttachTags | erf.go:234-250 | After Attach(tags), Tags lists the non-empty names among the first K positions, where K is the number of non-empty names. |
| Erf.AttachTagsListed | erf.go:244-246 | After Attach, a name at position i is listed exactly when i is below the number of non-empty names. |
| Erf.TagsDropsLateName | erf.go:244 | For three arguments tagged "", "name", "reason", Tags gives ["name"] while AllTags gives ["name", "reason"]. |
| Erf.AllTags | erf.go:234-250 | The corrected scan lists exactly the attached names whose index is below Len(), in increasing index order. |
| Erf.AttachAllTags | erf.go:186-250 | After Attach(tags), the corrected scan lists every non-empty name in attachment order. |
| Erf.CopyArgsSpec | erf.go:283-288 | The argument copy fails exactly at a nil argument. Otherwise it keeps every argument in place. |
| Erf.New | erf.go:268-275 | A new node carries the text and no format, arguments, tags or cause. |
| Erf.NewRefusesTags | erf.go:193-196 | A node made by New panics with "args are not using" on every Attach. |
| Erf.Newf | erf.go:277-298 | Newf panics with "arg is nil" exactly when some argument is nil. Otherwise the node keeps the format, all arguments in order, no tags, and the cause fmt.Errorf designates. |
| Erf.Wrap | erf.go:307-316 | Wrap returns nil exactly for nil. Otherwise it returns a node with format "%w" and the wrapped error's message, whose only argument is the wrapped error and which unwraps to it. |
| Erf.Wrapp | erf.go:318-331 | A nil pointer, or a pointer to a nil error, is left alone. Otherwise the slot receives a node that unwraps to the old error and carries its message. |
| Erf.WrapChain | erf.go:40-52 | Wrapping puts exactly one new element in front of the wrapped error's chain. |
| Erf.ThreeLevelChain | erf.go:40-52 | If A wraps B wraps C, and C was made by New, then UnwrapAll(A) is [A, B, C]. |
| Erf.ConstructionKeepsWellFormed | erf.go:193-215 | Attach, Wrap and New only build chains whose tag tables are injective. |
| ErfFormat.Format | erf.go:84-156 | 's'/'v' write the message. 'X' writes the first block followed by the padding. 'x' writes the block and padding of every error of the chain, separated by newlines. Other verbs write nothing. |
| ErfFormat.BlocksAt | erf.go:99-151 | The i-th block of the output belongs to the i-th error of the chain and is followed by the padding. |
| ErfFormat.BlocksOfCause | erf.go:99-103 | A node's blocks are its own block followed by the blocks of the node it wraps. |
| ErfFormat.BlockIgnoresVerb | erf.go:148-150 | 'x' and 'X' render a block identically; they differ only in how many blocks they write. |
| ErfFormat.FormatRecursesIntoCause | erf.go:99-151 | Under 'x', a node whose cause is a node renders as its 'X' output, a newline, and then the cause's 'x' output. |
| ErfFormat.FormatLeafSingleBlock | erf.go:99-151 | Under 'x', a node without a cause renders exactly as under 'X'. |
| ErfFormat.FormatSingleIsPrefix | erf.go:147-150 | The 'X' output always begins the 'x' output. |
| ErfFormat.StackDirectiveExplicit | erf.go:90-97 | Each stack renders as under "%+" plus the ' ' and '#' flags of the call, with explicit width and precision, even when fmt reads a zero width as a flag. |
| ErfFormat.MessageLinesSplit | erf.go:104-111 | The message part splits into the message's lines, each after padding and indent, followed by an empty remainder, so every line ends with a newline. |
| ErfFormat.MessageLinesBare | erf.go:105-110 | Without padding or indent the message part is the message followed by a newline. |
| ErfFormat.StackPartShape | erf.go:112-117 | The stack part is "* " exactly for a node without call sites. Otherwise it is the stack trace rendering. |
| ErfFormat.TagLineShape | erf.go:119-131 | The tag line is empty exactly when Tags() is nil or empty. Otherwise it begins with the padding and "+ " and ends with a newline. |
| ErfFormat.AttachTagLine | erf.go:119-131 | After Attach, the tag line lists the names Tags() gives, which are the non-empty names among the first K positions (K the number of non-empty names). It is the padding, "+ " and their `"name"="value"` pairs separated by spaces, and it is absent when that list is empty. Each such name is paired with the quoted `%v` of the argument at its position. |
| ErfFormat.TagLineDropsLateName | erf.go:119-131 | For two arguments tagged "" and "a", the code writes no tag line, while the corrected line names "a". |
| ErfFormat.AttachTagLineAll | erf.go:234-250 | The corrected tag line, built from AllTags, pairs every non-empty name with its argument in attachment order. Format does not use it. |
| ErfFormat.PlusAppendsTagLine | erf.go:119-132 | The '+' flag changes a node's block only by appending the tag line of Tags(). |
| ErfFormat.BlockStartsWithMessage | erf.go:104-111 | Without '-', every block begins with its error's message lines, each after the padding and the indent. |
| ErfFormat.NodeSuppressed | erf.go:104-118 | With '-', a node's block begins directly with its stack part and a newline. |
| ErfFormat.ForeignSuppressed | erf.go:141-145 | With '-', a foreign error's block is the padding followed by "- " and a newline. |
| ErfFormat.ShortFormIsMessage | erf.go:87-88 | A node made by New writes exactly its text under 's' and 'v', whatever the flags, width and precision. |

## Left out

- Capturing program counters (`PC`, `getPC`, `initialize`, `DefaultPCSize`) and resolving them into frames (`NewStackTrace`, `runtime.CallersFrames`) are left out. The frames are an input. Go's `NewStackTrace` on an empty counter list yields one zero frame, which is therefore not modelled.
- `fmt.Errorf` and `errors.New` are inputs. The message text and the error a `%w` verb designates are parameters of `Erf.Newf`, so `%w` resolution is not modelled.
- `getPadWidPrec` is not part of this model. Its pad, width and precision are a parameter of `ErfFormat.Format`.
- `%q` escapes only `"`, `\`, newline, carriage return and tab. Go's other escapes (other control and non-printable characters, and bytes that are not valid UTF-8) are not modelled. They never add a newline.
- `%v` of an argument is its `Value.text`. fmt's per-type rendering is not modelled, except that nil renders as `<nil>`.
- The path separator is fixed to '/', so `os.PathSeparator` is treated as '/'.
- The thin wrappers `String`, `Error`, `Attach2`, `Errorf`, `Fmt`, `PC` and `Erf.StackTrace` are left out. They only forward to modelled members or to capture. `ErfFormat.StackTraceOf` stands for `Erf.StackTrace` on resolved frames.
- Typed nil arguments (a nil pointer inside an interface) are not represented. An argument is either nil or a value.
- The index-range panics of `Erf.Arg` ("index out of range", erf.go:170-171) and `Stack.Caller` ("out of range", stack.go:99-100) are not `Panic` values: the two functions require an index in [0, Len), so an out-of-range call is excluded rather than modelled.
- `fmt.State.Write` and buffer capacities are left out because they are I/O.
- Erf.Tags: requires an injective tag table. Go's inverse map is nondeterministic when two names share an index. Every table Attach builds is injective (`Erf.ConstructionKeepsWellFormed`).
- Erf.Attach: Go's Attach changes the shared `*Erf` in place (erf.go:213), so a node that already wraps it sees the new tags in its own `%+x` output. Here nodes are immutable values: Attach returns a new node, and errors that already wrap the old node keep the untagged copy.
- ErfFormat.Format: requires every node of the chain to have an injective tag table, for the same reason as `Erf.Tags`.

## Findings

| source | as written | input that shows it | evidently intended | confidence | as-written member | corrected member |
|---|---|---|---|---|---|---|
| erf.go:244 | `Tags` scans argument indexes `0 .. len(m)-1`, where `len(m)` is the number of attached names, so a name attached at an index at or above that count is never listed | `Newf("%v %v %v", a, b, c).Attach("", "name", "reason")`: `Tags()` returns `["name"]` | every attached name, in attachment order: `["name", "reason"]` | not executed | Erf.TagsDropsLateName | Erf.AttachAllTags |

`Erf.Tags` models the scan as written. `Erf.AllTags` is the corrected scan: it reaches every index below `Len()`, and `Erf.AttachAllTags` proves it lists every non-empty name in order. `ErfFormat.Format` renders its tag line with `Erf.Tags` as written (`ErfFormat.TagLine`), so its '+' output omits the same names the code's output does. `ErfFormat.TagLineAll` is the corrected tag line. `ErfFormat.AttachTagLineAll` proves it names every non-empty name, and `ErfFormat.TagLineDropsLateName` shows the two lines differ.
