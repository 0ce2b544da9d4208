/** Call sites and stack traces, and their directive-driven rendering (stack.go).
    Frames arrive already resolved: capturing and resolving program counters
    is the runtime's business and not part of this model. */
module Stack {
  import opened Wrappers
  import opened Text
  import opened Util

  const UintptrLimit: int := 0x1_0000_0000_0000_0000

  /** Go's uintptr on a 64-bit target. */
  type Uintptr = x: int | 0 <= x < UintptrLimit

  /** One resolved frame (StackCaller embeds runtime.Frame). An empty
      function name means the runtime could not name the function. */
  datatype StackCaller = StackCaller(
    functionName: string,
    file: string,
    line: int,
    pc: Uintptr,
    entry: Uintptr)

  /** What a fmt.Formatter can ask of fmt.State: the verb, the flags that
      Flag() reports, and Width() and Precision() when present. */
  datatype Directive = Directive(
    verb: char,
    flags: set<char>,
    width: Option<nat>,
    precision: Option<nat>)

  predicate IsStringVerb(verb: char) {
    verb == 's' || verb == 'v'
  }

  /** The directive fmt hands to a Formatter for the format string
      "%" + flags + width + "." + precision + "s". A width of 0 cannot be
      spelled: fmt reads its digit '0' as the zero-padding flag. */
  function Spelled(flags: set<char>, width: Option<nat>, precision: Option<nat>): Directive
  {
    if width == Some(0) then Directive('s', flags + {'0'}, None, precision)
    else Directive('s', flags, width, precision)
  }

  // The three layout dimensions of a call site (stack.go:22-32).
  function PadChar(d: Directive): char {
    if ' ' in d.flags then ' ' else '\t'
  }

  function PadWidth(d: Directive): nat {
    d.width.GetOr(0)
  }

  function IndentDepth(d: Directive): nat {
    d.precision.GetOr(if ' ' in d.flags then 2 else 1)
  }

  /** PC - Entry as a uintptr subtraction, wrapping around below zero. */
  function Offset(c: StackCaller): (r: Uintptr)
    ensures (c.entry + r) % UintptrLimit == c.pc
    ensures c.entry <= c.pc ==> r == c.pc - c.entry
  {
    (c.pc - c.entry) % UintptrLimit
  }

  function FunctionText(c: StackCaller, env: BuildEnv): string {
    if c.functionName == "" then "???" else TrimSrcPath(c.functionName, env)
  }

  function FileText(c: StackCaller, d: Directive, env: BuildEnv): string {
    var path := TrimSrcPath(c.file, env);
    if '#' in d.flags then TrimDirs(path) else path
  }

  function Padding(d: Directive): (r: string)
    ensures |r| == PadWidth(d)
  {
    Repeat(PadChar(d), PadWidth(d))
  }

  /** The first line of a call site: function name and entry address. */
  function HeadLine(c: StackCaller, d: Directive, env: BuildEnv): (r: string)
    ensures |r| > 0
  {
    Padding(d) + FunctionText(c, env) + "(" + SharpHex(c.entry) + ")"
  }

  /** The detail line of a call site: file, line and offset into the function. */
  function DetailLine(c: StackCaller, d: Directive, env: BuildEnv): string {
    Padding(d) + Repeat(PadChar(d), IndentDepth(d)) + FileText(c, d, env)
      + ":" + Decimal(c.line) + " +" + SharpHex(Offset(c))
  }

  /** StackCaller.Format. */
  function CallerFormat(c: StackCaller, d: Directive, env: BuildEnv): (r: string)
    ensures r == "" <==> !IsStringVerb(d.verb)
  {
    if !IsStringVerb(d.verb) then ""
    else if '+' in d.flags then HeadLine(c, d, env) + "\n" + DetailLine(c, d, env)
    else HeadLine(c, d, env)
  }

  /** Neither the function name nor the file path spans lines. */
  predicate SingleLineNames(c: StackCaller) {
    '\n' !in c.functionName && '\n' !in c.file
  }

  lemma NoNewlineInSuffix(r: string, s: string)
    requires IsSuffix(r, s) && '\n' !in s
    ensures '\n' !in r
  {
    assert forall j :: 0 <= j < |r| ==> r[j] == s[|s| - |r| + j];
  }

  lemma NoNewlineConcat(a: string, b: string)
    requires '\n' !in a && '\n' !in b
    ensures '\n' !in a + b
  {
  }

  lemma NoNewlineInHex(n: nat)
    ensures '\n' !in SharpHex(n)
  {
    assert SharpHex(n) == "0x" + HexDigits(n);
  }

  lemma NoNewlineInPadding(d: Directive)
    ensures '\n' !in Padding(d)
    ensures '\n' !in Repeat(PadChar(d), IndentDepth(d))
  {
  }

  lemma HeadLineSingle(c: StackCaller, d: Directive, env: BuildEnv)
    requires SingleLineNames(c)
    ensures '\n' !in HeadLine(c, d, env)
  {
    NoNewlineInSuffix(TrimSrcPath(c.functionName, env), c.functionName);
    NoNewlineInHex(c.entry);
    NoNewlineInPadding(d);
    var name := FunctionText(c, env);
    NoNewlineConcat(Padding(d), name);
    NoNewlineConcat(Padding(d) + name, "(");
    NoNewlineConcat(Padding(d) + name + "(", SharpHex(c.entry));
    NoNewlineConcat(Padding(d) + name + "(" + SharpHex(c.entry), ")");
  }

  lemma FileTextSingle(c: StackCaller, d: Directive, env: BuildEnv)
    requires '\n' !in c.file
    ensures '\n' !in FileText(c, d, env)
  {
    var path := TrimSrcPath(c.file, env);
    NoNewlineInSuffix(path, c.file);
    if '#' in d.flags {
      NoNewlineInSuffix(TrimDirs(path), path);
    }
  }

  lemma DetailLineSingle(c: StackCaller, d: Directive, env: BuildEnv)
    requires SingleLineNames(c)
    ensures '\n' !in DetailLine(c, d, env)
  {
    FileTextSingle(c, d, env);
    NoNewlineInHex(Offset(c));
    NoNewlineInPadding(d);
    var indent := Repeat(PadChar(d), IndentDepth(d));
    var file := FileText(c, d, env);
    var p1 := Padding(d) + indent;
    NoNewlineConcat(Padding(d), indent);
    NoNewlineConcat(p1, file);
    NoNewlineConcat(p1 + file, ":");
    NoNewlineConcat(p1 + file + ":", Decimal(c.line));
    NoNewlineConcat(p1 + file + ":" + Decimal(c.line), " +");
    NoNewlineConcat(p1 + file + ":" + Decimal(c.line) + " +", SharpHex(Offset(c)));
  }

  /** Neither line of a call site spans lines itself. */
  lemma CallerLinesSplit(c: StackCaller, d: Directive, env: BuildEnv)
    requires IsStringVerb(d.verb) && SingleLineNames(c)
    ensures Split(CallerFormat(c, d, env), '\n')
            == if '+' in d.flags then [HeadLine(c, d, env), DetailLine(c, d, env)] else [HeadLine(c, d, env)]
  {
    HeadLineSingle(c, d, env);
    DetailLineSingle(c, d, env);
    var head := HeadLine(c, d, env);
    if '+' in d.flags {
      var detail := DetailLine(c, d, env);
      assert '\n' !in detail;
      assert CallerFormat(c, d, env) == Join([head, detail], "\n");
      SplitJoin([head, detail], '\n');
    } else {
      SplitNoSeparator(head, '\n');
    }
  }

  /** The layout of one call site: a single line without '+', a second detail
      line with it, and the padding, indent and placeholder defaults. */
  lemma CallerFormatLines(c: StackCaller, d: Directive, env: BuildEnv)
    requires IsStringVerb(d.verb) && SingleLineNames(c)
    ensures
      var pad := if ' ' in d.flags then ' ' else '\t';
      var wid := if d.width.Some? then d.width.value else 0;
      var ind := if d.precision.Some? then d.precision.value else if ' ' in d.flags then 2 else 1;
      var name := if c.functionName == "" then "???" else TrimSrcPath(c.functionName, env);
      var file := if '#' in d.flags then TrimDirs(TrimSrcPath(c.file, env)) else TrimSrcPath(c.file, env);
      var lines := Split(CallerFormat(c, d, env), '\n');
      && |lines| == (if '+' in d.flags then 2 else 1)
      && lines[0] == Repeat(pad, wid) + name + "(" + SharpHex(c.entry) + ")"
      && ('+' in d.flags ==>
            lines[1] == Repeat(pad, wid) + Repeat(pad, ind) + file + ":" + Decimal(c.line) + " +" + SharpHex(Offset(c)))
  {
    CallerLinesSplit(c, d, env);
  }

  /** Splitting a join of separator-free parts gives the parts back. */
  lemma {:induction false} SplitJoin(parts: seq<string>, sep: char)
    requires |parts| >= 1
    requires forall k :: 0 <= k < |parts| ==> sep !in parts[k]
    ensures Split(Join(parts, [sep]), sep) == parts
    decreases |parts|, |parts[0]|
  {
    var s := Join(parts, [sep]);
    if |parts| == 1 {
      SplitNoSeparator(parts[0], sep);
    } else if |parts[0]| == 0 {
      assert s == [sep] + Join(parts[1..], [sep]);
      assert s[1..] == Join(parts[1..], [sep]);
      SplitJoin(parts[1..], sep);
      assert parts == [""] + parts[1..];
    } else {
      var p0 := parts[0][1..];
      var q := [p0] + parts[1..];
      assert q[1..] == parts[1..];
      assert s == [parts[0][0]] + Join(q, [sep]);
      assert s[1..] == Join(q, [sep]);
      SplitJoin(q, sep);
      assert parts[0] == [parts[0][0]] + p0;
      assert Split(s, sep) == [[parts[0][0]] + q[0]] + q[1..];
      assert parts == [[parts[0][0]] + q[0]] + q[1..];
    }
  }

  /** 's' and 'v' render a call site identically. */
  lemma CallerVerbsAgree(c: StackCaller, d: Directive, env: BuildEnv)
    ensures CallerFormat(c, d.(verb := 's'), env) == CallerFormat(c, d.(verb := 'v'), env)
  {
  }

  /** The '+' form is the one-line form, a newline and the detail line. */
  lemma CallerDetailExtends(c: StackCaller, d: Directive, env: BuildEnv)
    requires IsStringVerb(d.verb)
    ensures CallerFormat(c, d.(flags := d.flags + {'+'}), env)
            == CallerFormat(c, d.(flags := d.flags - {'+'}), env) + "\n" + DetailLine(c, d, env)
  {
    var d0 := d.(flags := d.flags - {'+'});
    var d1 := d.(flags := d.flags + {'+'});
    assert PadChar(d0) == PadChar(d1) && PadWidth(d0) == PadWidth(d1);
    assert PadChar(d) == PadChar(d1) && IndentDepth(d) == IndentDepth(d1);
    assert ('#' in d.flags) == ('#' in d1.flags);
    assert DetailLine(c, d1, env) == DetailLine(c, d, env);
  }

  /** Only the ' ', '+' and '#' flags, the width and the precision matter. */
  lemma CallerIgnoresOtherFlags(c: StackCaller, d: Directive, e: Directive, env: BuildEnv)
    requires IsStringVerb(d.verb) && IsStringVerb(e.verb)
    requires d.flags * {' ', '+', '#'} == e.flags * {' ', '+', '#'}
    requires d.width.GetOr(0) == e.width.GetOr(0) && d.precision == e.precision
    ensures CallerFormat(c, d, env) == CallerFormat(c, e, env)
  {
    assert ' ' in d.flags <==> ' ' in d.flags * {' ', '+', '#'};
    assert ' ' in e.flags <==> ' ' in e.flags * {' ', '+', '#'};
    assert '+' in d.flags <==> '+' in d.flags * {' ', '+', '#'};
    assert '+' in e.flags <==> '+' in e.flags * {' ', '+', '#'};
    assert '#' in d.flags <==> '#' in d.flags * {' ', '+', '#'};
    assert '#' in e.flags <==> '#' in e.flags * {' ', '+', '#'};
    assert Padding(d) == Padding(e);
    assert HeadLine(c, d, env) == HeadLine(c, e, env);
    assert DetailLine(c, d, env) == DetailLine(c, e, env);
  }

  /** The resolved frames of one capture; `callers` is the resolution of `pc`. */
  datatype StackTrace = StackTrace(pc: seq<Uintptr>, callers: seq<StackCaller>)

  function Len(t: StackTrace): (n: nat)
    ensures n == 0 <==> t.callers == []
    ensures n == |t.callers|
  {
    |t.callers|
  }

  /** The call site at `index`; Go panics outside [0, Len). */
  function Caller(t: StackTrace, index: int): (c: StackCaller)
    requires 0 <= index < Len(t)
    ensures c in t.callers
    ensures c == t.callers[index]
  {
    t.callers[index]
  }

  /** StackTrace.Duplicate; a nil trace duplicates to nil. */
  function Duplicate(t: Option<StackTrace>): (r: Option<StackTrace>)
    ensures r.None? <==> t.None?
    ensures r.Some? ==> Len(r.value) == Len(t.value)
    ensures r.Some? ==> forall i :: 0 <= i < Len(t.value) ==> Caller(r.value, i) == Caller(t.value, i)
    ensures r.Some? ==> r.value.pc == t.value.pc
  {
    match t
    case None => None
    case Some(t0) => Some(StackTrace(t0.pc[..], t0.callers[..]))
  }

  /** The directive StackTrace.Format spells out for each call site: the
      flags '+', '#', ' ' and '0', the width and the precision, verb 's'. */
  function Forwarded(d: Directive): Directive {
    Spelled(d.flags * {'+', '#', ' ', '0'}, d.width, d.precision)
  }

  function RenderCallers(cs: seq<StackCaller>, d: Directive, env: BuildEnv): (r: seq<string>)
    ensures |r| == |cs|
    ensures forall i :: 0 <= i < |cs| ==> r[i] == CallerFormat(cs[i], d, env)
  {
    seq(|cs|, i requires 0 <= i < |cs| => CallerFormat(cs[i], d, env))
  }

  /** StackTrace.Format: every call site rendered under the same directive,
      newline-separated, with no trailing newline. */
  function TraceFormat(t: StackTrace, d: Directive, env: BuildEnv): (r: string)
    ensures !IsStringVerb(d.verb) ==> r == ""
    ensures IsStringVerb(d.verb) ==> r == Join(RenderCallers(t.callers, d, env), "\n")
    ensures |t.callers| == 0 ==> r == ""
  {
    if IsStringVerb(d.verb) then
      ForwardedRendersSame(t.callers, d, env);
      Join(RenderCallers(t.callers, Forwarded(d), env), "\n")
    else ""
  }

  lemma ForwardedCaller(c: StackCaller, d: Directive, env: BuildEnv)
    requires IsStringVerb(d.verb)
    ensures CallerFormat(c, Forwarded(d), env) == CallerFormat(c, d, env)
  {
    var f := Forwarded(d);
    assert f.flags * {' ', '+', '#'} == d.flags * {' ', '+', '#'};
    assert f.width.GetOr(0) == d.width.GetOr(0);
    CallerIgnoresOtherFlags(c, f, d, env);
  }

  lemma ForwardedRendersSame(cs: seq<StackCaller>, d: Directive, env: BuildEnv)
    requires IsStringVerb(d.verb)
    ensures RenderCallers(cs, Forwarded(d), env) == RenderCallers(cs, d, env)
  {
    var a := RenderCallers(cs, Forwarded(d), env);
    var b := RenderCallers(cs, d, env);
    forall i | 0 <= i < |cs|
      ensures a[i] == b[i]
    {
      ForwardedCaller(cs[i], d, env);
    }
  }

  /** Without '+', the rendering of a trace has exactly one line per call site. */
  lemma TraceFormatOneLinePerCaller(t: StackTrace, d: Directive, env: BuildEnv)
    requires IsStringVerb(d.verb) && '+' !in d.flags && |t.callers| > 0
    requires forall i :: 0 <= i < |t.callers| ==> SingleLineNames(t.callers[i])
    ensures |Split(TraceFormat(t, d, env), '\n')| == Len(t)
    ensures forall i :: 0 <= i < Len(t) ==>
              Split(TraceFormat(t, d, env), '\n')[i] == CallerFormat(Caller(t, i), d, env)
  {
    var parts := RenderCallers(t.callers, d, env);
    forall k | 0 <= k < |parts|
      ensures '\n' !in parts[k]
    {
      CallerFormatLines(t.callers[k], d, env);
      SplitNoSeparatorInverse(parts[k], '\n');
    }
    SplitJoin(parts, '\n');
  }

  /** A text that splits into one piece has no separator. */
  lemma SplitNoSeparatorInverse(s: string, sep: char)
    requires |Split(s, sep)| == 1
    ensures sep !in s
  {
    var r := Split(s, sep);
    assert Join(r, [sep]) == r[0];
  }

  /** A trace with at least one call site never renders empty under 's' or 'v'. */
  lemma TraceFormatNonEmpty(t: StackTrace, d: Directive, env: BuildEnv)
    ensures |t.callers| > 0 && IsStringVerb(d.verb) <==> TraceFormat(t, d, env) != ""
  {
    if IsStringVerb(d.verb) && |t.callers| > 0 {
      var parts := RenderCallers(t.callers, d, env);
      assert parts[0] != "";
      assert |parts| == 1 || Join(parts, "\n") == parts[0] + "\n" + Join(parts[1..], "\n");
    }
  }

  /** A duplicate renders exactly as the original under every directive. */
  lemma DuplicateRendersSame(t: StackTrace, d: Directive, env: BuildEnv)
    ensures TraceFormat(Duplicate(Some(t)).value, d, env) == TraceFormat(t, d, env)
  {
    assert Duplicate(Some(t)).value.callers == t.callers;
  }
}
