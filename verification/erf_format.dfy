/** Erf.Format (erf.go:84-156): the short form of a node, and the block
    layout that lists every error of the chain with its message lines, its
    stack trace and its tags. */
module ErfFormat {
  import opened Wrappers
  import opened Text
  import opened Util
  import Stack
  import opened Erf

  /** The padding character, padding width and indent depth the call derives
      from its directive (getPadWidPrec is not part of this model). */
  datatype PadWidPrec = PadWidPrec(pad: char, width: nat, precision: nat)

  function PaddingOf(p: PadWidPrec): string {
    Repeat(p.pad, p.width)
  }

  function IndentOf(p: PadWidPrec): string {
    Repeat(p.pad, p.precision)
  }

  /** Erf.StackTrace, with the frames already resolved. */
  function StackTraceOf(e: Erf): Stack.StackTrace {
    Stack.StackTrace(e.pc, e.callers)
  }

  /** The directive fmt reports for the stack format "%+" + flags + wid "." prec "s". */
  function StackDirective(d: Stack.Directive, p: PadWidPrec): Stack.Directive {
    Stack.Spelled({'+'} + d.flags * {' ', '#'}, Some(p.width), Some(p.precision))
  }

  /** Each line, prefixed and newline-terminated. */
  function PrefixedLines(lines: seq<string>, prefix: string): string {
    if |lines| == 0 then "" else prefix + lines[0] + "\n" + PrefixedLines(lines[1..], prefix)
  }

  /** The message lines of a block: every line of `msg` after `prefix`. */
  function MessageLines(msg: string, prefix: string): string {
    PrefixedLines(Split(msg, '\n'), prefix)
  }

  function Prefixed(lines: seq<string>, prefix: string): (r: seq<string>)
    ensures |r| == |lines|
    ensures forall i :: 0 <= i < |lines| ==> r[i] == prefix + lines[i]
  {
    seq(|lines|, i requires 0 <= i < |lines| => prefix + lines[i])
  }

  lemma {:induction false} PrefixedLinesJoin(lines: seq<string>, prefix: string)
    ensures PrefixedLines(lines, prefix) == Join(Prefixed(lines, prefix) + [""], "\n")
  {
    if |lines| > 0 {
      PrefixedLinesJoin(lines[1..], prefix);
      var q := Prefixed(lines, prefix) + [""];
      assert q[1..] == Prefixed(lines[1..], prefix) + [""];
    }
  }

  /** The message lines are the message's lines, each after the prefix, then
      an empty remainder: every line ends with a newline. */
  lemma MessageLinesSplit(msg: string, prefix: string)
    requires '\n' !in prefix
    ensures Split(MessageLines(msg, prefix), '\n') == Prefixed(Split(msg, '\n'), prefix) + [""]
  {
    var lines := Split(msg, '\n');
    var q := Prefixed(lines, prefix) + [""];
    PrefixedLinesJoin(lines, prefix);
    forall k | 0 <= k < |q| ensures '\n' !in q[k] {
      if k < |lines| {
        Stack.NoNewlineConcat(prefix, lines[k]);
      }
    }
    Stack.SplitJoin(q, '\n');
  }

  /** Without padding or indent the message lines give back the message. */
  lemma MessageLinesBare(msg: string)
    ensures MessageLines(msg, "") == msg + "\n"
  {
    var lines := Split(msg, '\n');
    PrefixedLinesJoin(lines, "");
    assert forall i :: 0 <= i < |lines| ==> "" + lines[i] == lines[i];
    assert Prefixed(lines, "") == lines;
    JoinSnoc(lines, "", "\n");
  }

  /** `"name"="value"` for each listed tag. */
  function TagPairs(e: Erf, tags: seq<string>): (r: seq<string>)
    ensures |r| == |tags|
    ensures forall i :: 0 <= i < |tags| ==> r[i] == Quote(tags[i]) + "=" + Quote(ShowValue(Tag(e, tags[i])))
  {
    seq(|tags|, i requires 0 <= i < |tags| => Quote(tags[i]) + "=" + Quote(ShowValue(Tag(e, tags[i]))))
  }

  /** A tag line listing `names`: padding, "+ ", then the pairs separated by
      spaces; nothing when there are no names. */
  function TagLineOf(e: Erf, names: seq<string>, padding: string): string {
    if |names| > 0 then padding + "+ " + Join(TagPairs(e, names), " ") + "\n" else ""
  }

  /** The tag line of a block: the names Tags lists, as the code writes it. */
  function TagLine(e: Erf, padding: string): string
    requires TagsInjective(e)
  {
    TagLineOf(e, Tags(e).GetOr([]), padding)
  }

  /** The tag line the corrected scan AllTags would give (see Erf.TagsDropsLateName);
      Format does not use it. */
  function TagLineAll(e: Erf, padding: string): string
    requires TagsInjective(e)
  {
    TagLineOf(e, AllTags(e).GetOr([]), padding)
  }

  /** The tag line is present exactly when Tags lists some name, and is then
      one line after the padding and "+ ". */
  lemma TagLineShape(e: Erf, padding: string)
    requires TagsInjective(e)
    ensures TagLine(e, padding) == "" <==> Tags(e).None? || |Tags(e).value| == 0
    ensures TagLine(e, padding) != "" ==>
              IsPrefix(padding + "+ ", TagLine(e, padding)) && TagLine(e, padding)[|TagLine(e, padding)| - 1] == '\n'
  {
    TagLineOfShape(e, Tags(e).GetOr([]), padding);
  }

  lemma TagLineOfShape(e: Erf, names: seq<string>, padding: string)
    ensures TagLineOf(e, names, padding) == "" <==> |names| == 0
    ensures |names| > 0 ==>
              IsPrefix(padding + "+ ", TagLineOf(e, names, padding))
              && TagLineOf(e, names, padding)[|TagLineOf(e, names, padding)| - 1] == '\n'
  {
    if |names| > 0 {
      var rest := Join(TagPairs(e, names), " ") + "\n";
      PrefixOfConcat(padding + "+ ", rest);
      assert TagLineOf(e, names, padding) == (padding + "+ ") + rest;
    }
  }

  /** After Attach, the tag line pairs the non-empty names among the first K
      positions (K the number of non-empty names) with the arguments at their
      positions, in attachment order; it is absent when that list is empty. */
  lemma AttachTagLine(e: Erf, tags: seq<string>, padding: string)
    requires Attach(e, tags).Success?
    ensures var e2 := Attach(e, tags).value;
      var listed := NonEmptyNames(tags[..|NonEmptyNames(tags)|]);
      && TagLine(e2, padding) == TagLineOf(e2, listed, padding)
      && (listed == [] <==> TagLine(e2, padding) == "")
      && forall i :: 0 <= i < |NonEmptyNames(tags)| && tags[i] != "" ==>
           Quote(tags[i]) + "=" + Quote(ShowValue(Arg(e, i))) in TagPairs(e2, listed)
  {
    var e2 := Attach(e, tags).value;
    var k := |NonEmptyNames(tags)|;
    var prefix := tags[..k];
    var listed := NonEmptyNames(prefix);
    AttachTags(e, tags);
    forall i | 0 <= i < k && tags[i] != ""
      ensures Quote(tags[i]) + "=" + Quote(ShowValue(Arg(e, i))) in TagPairs(e2, listed)
    {
      assert prefix[i] == tags[i];
      NonEmptyNamesHas(prefix, i);
      AttachTag(e, tags, tags[i]);
      var j :| 0 <= j < |listed| && listed[j] == tags[i];
      assert TagPairs(e2, listed)[j] == Quote(tags[i]) + "=" + Quote(ShowValue(Arg(e, i)));
    }
  }

  /** After Attach, the corrected tag line pairs every non-empty name with the
      argument at its position, in attachment order. */
  lemma AttachTagLineAll(e: Erf, tags: seq<string>, padding: string)
    requires Attach(e, tags).Success?
    ensures var e2 := Attach(e, tags).value;
      && TagLineAll(e2, padding) == TagLineOf(e2, NonEmptyNames(tags), padding)
      && (NonEmptyNames(tags) == [] <==> TagLineAll(e2, padding) == "")
      && forall i :: 0 <= i < |tags| && tags[i] != "" ==>
           Quote(tags[i]) + "=" + Quote(ShowValue(Arg(e, i))) in TagPairs(e2, NonEmptyNames(tags))
  {
    var e2 := Attach(e, tags).value;
    var names := NonEmptyNames(tags);
    AttachAllTags(e, tags);
    forall i | 0 <= i < |tags| && tags[i] != ""
      ensures Quote(tags[i]) + "=" + Quote(ShowValue(Arg(e, i))) in TagPairs(e2, names)
    {
      NonEmptyNamesHas(tags, i);
      AttachTag(e, tags, tags[i]);
      var j :| 0 <= j < |names| && names[j] == tags[i];
      assert TagPairs(e2, names)[j] == Quote(tags[i]) + "=" + Quote(ShowValue(Arg(e, i)));
    }
  }

  /** Two arguments tagged "" and "a": the code writes no tag line, since
      Tags lists nothing, while the corrected line names "a". */
  lemma TagLineDropsLateName(args: seq<Value>, padding: string)
    requires |args| == 2 && Nil !in args
    ensures var e := Erf("m", "%v %v", Some(args), None, None, [], []);
      && Attach(e, ["", "a"]).Success?
      && TagLine(Attach(e, ["", "a"]).value, padding) == ""
      && TagLineAll(Attach(e, ["", "a"]).value, padding) != ""
  {
    var e := Erf("m", "%v %v", Some(args), None, None, [], []);
    var tags := ["", "a"];
    assert NoDuplicateNames(tags);
    assert tags[..1] == [""];
    assert [""][..0] == [];
    assert NonEmptyNames([""]) == [];
    assert tags[..|tags| - 1] == [""];
    assert NonEmptyNames(tags) == ["a"];
    AttachTagLine(e, tags, padding);
    AttachTagLineAll(e, tags, padding);
  }

  /** The stack rendering of a node's block, "* " when it is empty: only a
      node without frames gets the placeholder. */
  function StackPart(e2: Erf, d: Stack.Directive, p: PadWidPrec, env: BuildEnv): string {
    var st := Stack.TraceFormat(StackTraceOf(e2), StackDirective(d, p), env);
    if st != "" then st else "* "
  }

  /** Only a node without frames gets the placeholder. */
  lemma StackPartShape(e2: Erf, d: Stack.Directive, p: PadWidPrec, env: BuildEnv)
    ensures e2.callers == [] ==> StackPart(e2, d, p, env) == "* "
    ensures e2.callers != [] ==>
              StackPart(e2, d, p, env) == Stack.TraceFormat(StackTraceOf(e2), StackDirective(d, p), env)
  {
    Stack.TraceFormatNonEmpty(StackTraceOf(e2), StackDirective(d, p), env);
  }

  /** The message lines of a block, absent under '-'. */
  function MessagePart(msg: string, d: Stack.Directive, p: PadWidPrec): string {
    if '-' in d.flags then "" else MessageLines(msg, PaddingOf(p) + IndentOf(p))
  }

  /** The tag line of a node's block, present only under '+'. */
  function TagPart(e2: Erf, d: Stack.Directive, p: PadWidPrec): string
    requires TagsInjective(e2)
  {
    if '+' in d.flags then TagLine(e2, PaddingOf(p)) else ""
  }

  /** The block of one error of the chain, before the padding that closes it. */
  function Block(err: Err, d: Stack.Directive, p: PadWidPrec, env: BuildEnv): string
    requires ChainWellFormed(err)
  {
    match err
    case Node(e2) => MessagePart(e2.message, d, p) + StackPart(e2, d, p, env) + "\n" + TagPart(e2, d, p)
    case _ => if '-' in d.flags then PaddingOf(p) + "- " + "\n" else MessagePart(Message(err), d, p)
  }

  /** Every block closed by the padding, one per error of the chain. */
  function Blocks(chain: seq<Err>, d: Stack.Directive, p: PadWidPrec, env: BuildEnv): (r: seq<string>)
    requires forall x :: x in chain ==> ChainWellFormed(x)
    ensures |r| == |chain|
  {
    if |chain| == 0 then []
    else
      assert forall x :: x in chain[1..] ==> x in chain;
      [Block(chain[0], d, p, env) + PaddingOf(p)] + Blocks(chain[1..], d, p, env)
  }

  /** The i-th block belongs to the i-th error of the chain. */
  lemma {:induction false} BlocksAt(chain: seq<Err>, i: int, d: Stack.Directive, p: PadWidPrec, env: BuildEnv)
    requires forall x :: x in chain ==> ChainWellFormed(x)
    requires 0 <= i < |chain|
    ensures Blocks(chain, d, p, env)[i] == Block(chain[i], d, p, env) + PaddingOf(p)
  {
    if i > 0 {
      assert forall x :: x in chain[1..] ==> x in chain;
      BlocksAt(chain[1..], i - 1, d, p, env);
    }
  }

  /** Erf.Format: 's'/'v' write the message alone; 'x' writes the block of
      every error of the chain, 'X' only the first; other verbs write nothing. */
  function Format(e: Erf, d: Stack.Directive, p: PadWidPrec, env: BuildEnv): (r: string)
    requires ChainWellFormed(Node(e))
    ensures Stack.IsStringVerb(d.verb) ==> r == e.message
    ensures !(Stack.IsStringVerb(d.verb) || d.verb == 'x' || d.verb == 'X') ==> r == ""
    ensures d.verb == 'X' ==> r == Block(Node(e), d, p, env) + PaddingOf(p)
    ensures d.verb == 'x' ==>
              && (forall x :: x in UnwrapAll(e) ==> ChainWellFormed(x))
              && r == Join(Blocks(UnwrapAll(e), d, p, env), "\n")
  {
    if Stack.IsStringVerb(d.verb) then e.message
    else if d.verb == 'x' || d.verb == 'X' then
      ChainElementsWellFormed(Node(e));
      var blocks := Blocks(UnwrapAll(e), d, p, env);
      if d.verb == 'X' then blocks[0] else Join(blocks, "\n")
    else ""
  }

  /** The verb plays no part in a block. */
  lemma BlockIgnoresVerb(err: Err, d: Stack.Directive, v1: char, v2: char, p: PadWidPrec, env: BuildEnv)
    requires ChainWellFormed(err)
    ensures Block(err, d.(verb := v1), p, env) == Block(err, d.(verb := v2), p, env)
  {
    assert d.(verb := v1).flags == d.(verb := v2).flags;
    assert StackDirective(d.(verb := v1), p) == StackDirective(d.(verb := v2), p);
  }

  /** The blocks of a node's chain are its own block, then its cause's blocks. */
  lemma BlocksOfCause(e: Erf, a: Erf, d: Stack.Directive, p: PadWidPrec, env: BuildEnv)
    requires ChainWellFormed(Node(e)) && e.cause == Some(Node(a))
    ensures ChainWellFormed(Node(a))
    ensures forall x :: x in UnwrapAll(e) ==> ChainWellFormed(x)
    ensures forall x :: x in UnwrapAll(a) ==> ChainWellFormed(x)
    ensures Blocks(UnwrapAll(e), d, p, env)
            == [Block(Node(e), d, p, env) + PaddingOf(p)] + Blocks(UnwrapAll(a), d, p, env)
  {
    ChainElementsWellFormed(Node(e));
    ChainElementsWellFormed(Node(a));
    var chain := UnwrapAll(e);
    assert chain == [Node(e)] + UnwrapAll(a);
    assert chain[1..] == UnwrapAll(a);
  }

  /** 'x' on a node whose cause is another node: this node's 'X' block, a
      newline, then the cause's own 'x' rendering. */
  lemma FormatRecursesIntoCause(e: Erf, a: Erf, d: Stack.Directive, p: PadWidPrec, env: BuildEnv)
    requires ChainWellFormed(Node(e)) && e.cause == Some(Node(a))
    ensures ChainWellFormed(Node(a))
    ensures Format(e, d.(verb := 'x'), p, env)
            == Format(e, d.(verb := 'X'), p, env) + "\n" + Format(a, d.(verb := 'x'), p, env)
  {
    var dx := d.(verb := 'x');
    BlocksOfCause(e, a, dx, p, env);
    var b0 := Block(Node(e), dx, p, env) + PaddingOf(p);
    var rs := Blocks(UnwrapAll(a), dx, p, env);
    JoinCons(b0, rs, "\n");
    BlockIgnoresVerb(Node(e), d, 'x', 'X', p, env);
  }

  /** 'x' on a node without a cause is its 'X' rendering. */
  lemma FormatLeafSingleBlock(e: Erf, d: Stack.Directive, p: PadWidPrec, env: BuildEnv)
    requires ChainWellFormed(Node(e)) && e.cause.None?
    ensures Format(e, d.(verb := 'x'), p, env) == Format(e, d.(verb := 'X'), p, env)
  {
    var dx := d.(verb := 'x');
    ChainElementsWellFormed(Node(e));
    var chain := UnwrapAll(e);
    assert chain == [Node(e)];
    assert Blocks(chain, dx, p, env) == [Block(Node(e), dx, p, env) + PaddingOf(p)];
    BlockIgnoresVerb(Node(e), d, 'x', 'X', p, env);
  }

  /** The 'X' rendering always begins the 'x' rendering. */
  lemma FormatSingleIsPrefix(e: Erf, d: Stack.Directive, p: PadWidPrec, env: BuildEnv)
    requires ChainWellFormed(Node(e))
    ensures IsPrefix(Format(e, d.(verb := 'X'), p, env), Format(e, d.(verb := 'x'), p, env))
  {
    var dx := d.(verb := 'x');
    ChainElementsWellFormed(Node(e));
    var chain := UnwrapAll(e);
    assert forall x :: x in chain[1..] ==> x in chain;
    var b0 := Block(Node(e), dx, p, env) + PaddingOf(p);
    var rest := Blocks(chain[1..], dx, p, env);
    assert Blocks(chain, dx, p, env) == [b0] + rest;
    BlockIgnoresVerb(Node(e), d, 'x', 'X', p, env);
    if |rest| > 0 {
      JoinCons(b0, rest, "\n");
      PrefixOfConcat(b0, "\n");
      PrefixOfConcat(b0 + "\n", Join(rest, "\n"));
      PrefixTransitive(b0, b0 + "\n", b0 + "\n" + Join(rest, "\n"));
    } else {
      assert [b0] + rest == [b0];
      PrefixOfConcat(b0, "");
      assert b0 + "" == b0;
    }
  }

  /** The stack of each block is rendered as with "%+s" plus the ' ' and '#'
      flags, an explicit width and an explicit precision, whatever the width. */
  lemma StackDirectiveExplicit(t: Stack.StackTrace, d: Stack.Directive, p: PadWidPrec, env: BuildEnv)
    ensures Stack.TraceFormat(t, StackDirective(d, p), env)
            == Stack.TraceFormat(t, Stack.Directive('s', {'+'} + d.flags * {' ', '#'}, Some(p.width), Some(p.precision)), env)
  {
    var d1 := StackDirective(d, p);
    var d2 := Stack.Directive('s', {'+'} + d.flags * {' ', '#'}, Some(p.width), Some(p.precision));
    var a := Stack.RenderCallers(t.callers, d1, env);
    var b := Stack.RenderCallers(t.callers, d2, env);
    assert d1.flags * {' ', '+', '#'} == d2.flags * {' ', '+', '#'};
    forall i | 0 <= i < |t.callers| ensures a[i] == b[i] {
      Stack.CallerIgnoresOtherFlags(t.callers[i], d1, d2, env);
    }
    assert a == b;
  }

  /** The '+' flag of the call only appends the tag line to a node's block. */
  lemma PlusAppendsTagLine(e2: Erf, d: Stack.Directive, p: PadWidPrec, env: BuildEnv)
    requires ChainWellFormed(Node(e2))
    ensures Block(Node(e2), d.(flags := d.flags + {'+'}), p, env)
            == Block(Node(e2), d.(flags := d.flags - {'+'}), p, env) + TagLine(e2, PaddingOf(p))
  {
    var d1 := d.(flags := d.flags + {'+'});
    var d0 := d.(flags := d.flags - {'+'});
    assert d1.flags * {' ', '#'} == d0.flags * {' ', '#'};
    assert StackDirective(d1, p) == StackDirective(d0, p);
    assert ('-' in d1.flags) == ('-' in d0.flags);
    var head := MessagePart(e2.message, d0, p) + StackPart(e2, d0, p, env) + "\n";
    assert MessagePart(e2.message, d1, p) == MessagePart(e2.message, d0, p);
    assert StackPart(e2, d1, p, env) == StackPart(e2, d0, p, env);
    assert TagPart(e2, d0, p) == "";
    assert TagPart(e2, d1, p) == TagLine(e2, PaddingOf(p));
    assert Block(Node(e2), d0, p, env) == head + "";
    assert head + "" == head;
  }

  /** With '-', a foreign error is a placeholder line: padding then "- ". */
  lemma ForeignSuppressed(err: Err, d: Stack.Directive, p: PadWidPrec, env: BuildEnv)
    requires ChainWellFormed(err) && !err.Node? && '-' in d.flags
    ensures Block(err, d, p, env) == PaddingOf(p) + "- \n"
  {
  }

  /** Without '-', every block begins with the error's message lines, each
      after padding and indent. */
  lemma BlockStartsWithMessage(err: Err, d: Stack.Directive, p: PadWidPrec, env: BuildEnv)
    requires ChainWellFormed(err) && '-' !in d.flags
    ensures IsPrefix(MessageLines(Message(err), PaddingOf(p) + IndentOf(p)), Block(err, d, p, env))
  {
    var msg := MessageLines(Message(err), PaddingOf(p) + IndentOf(p));
    if err.Node? {
      var e2 := err.erf;
      var sp := StackPart(e2, d, p, env);
      assert MessagePart(e2.message, d, p) == msg;
      PrefixOfConcat(msg, sp);
      PrefixOfConcat(msg + sp, "\n");
      PrefixOfConcat(msg + sp + "\n", TagPart(e2, d, p));
      PrefixTransitive(msg, msg + sp, msg + sp + "\n");
      PrefixTransitive(msg, msg + sp + "\n", msg + sp + "\n" + TagPart(e2, d, p));
    } else {
      PrefixOfConcat(msg, "");
      assert msg + "" == msg;
    }
  }

  /** With '-', a node's block holds no message: it begins with its stack
      part (see StackPart for the "* " placeholder). */
  lemma NodeSuppressed(e2: Erf, d: Stack.Directive, p: PadWidPrec, env: BuildEnv)
    requires ChainWellFormed(Node(e2)) && '-' in d.flags
    ensures IsPrefix(StackPart(e2, d, p, env) + "\n", Block(Node(e2), d, p, env))
  {
    var sp := StackPart(e2, d, p, env);
    assert MessagePart(e2.message, d, p) == "";
    assert "" + sp == sp;
    PrefixOfConcat(sp + "\n", TagPart(e2, d, p));
  }

  /** `New("boom")` renders as "boom" under 's' and 'v'. */
  lemma ShortFormIsMessage(text: string, d: Stack.Directive, p: PadWidPrec, env: BuildEnv,
                           pc: seq<Stack.Uintptr>, callers: seq<Stack.StackCaller>)
    requires Stack.IsStringVerb(d.verb)
    ensures ChainWellFormed(Node(New(text, pc, callers)))
    ensures Format(New(text, pc, callers), d, p, env) == text
  {
  }
}
