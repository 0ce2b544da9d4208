/** The error node (erf.go): its record, the chain walker, the argument and
    tag table, and the constructors. The message of a node is the text Go's
    errors.New or fmt.Errorf produced; the cause is what that underlying
    error unwraps to. Both are inputs here, as are the captured frames. */
module Erf {
  import opened Wrappers
  import opened Text
  import Stack

  /** A construction argument (Go's interface{}): nil, or a value whose `%v`
      rendering is `text`. */
  datatype Value = Nil | Concrete(text: string)

  /** fmt's `%v` of an argument. */
  function ShowValue(v: Value): string {
    match v
    case Nil => "<nil>"
    case Concrete(t) => t
  }

  /** Any error a chain can hold. */
  datatype Err =
    | Node(erf: Erf)                            // an *Erf
    | Foreign(msg: string, next: Option<Err>)   // a foreign error with an Unwrap method
    | Opaque(msg: string)                       // a foreign error without one

  /** The Erf record. `cause` is what the underlying error unwraps to;
      `callers` is the resolution of the captured program counters `pc`. */
  datatype Erf = Erf(
    message: string,
    format: string,
    args: Option<seq<Value>>,
    tagIndexes: Option<map<string, int>>,
    cause: Option<Err>,
    pc: seq<Stack.Uintptr>,
    callers: seq<Stack.StackCaller>)

  /** The panics of the package, one per message, except the index-range
      panics of Arg and Stack.Caller, which are preconditions. */
  datatype Panic = ArgsNotUsing | TagsAlreadyAttached | TooManyTags | TagAlreadyDefined | ArgIsNil

  /** Error() of any error in a chain. */
  function Message(err: Err): string {
    match err
    case Node(e) => e.message
    case Foreign(msg, _) => msg
    case Opaque(msg) => msg
  }

  /** Erf.Unwrap: what the underlying error unwraps to, or nil. The cause is
      strictly inside the error, so following Unwrap always comes to an end. */
  function Unwrap(e: Erf): (r: Option<Err>)
    ensures r == e.cause
    ensures r.Some? ==> r.value < Node(e)
  {
    e.cause
  }

  /** One step of the chain walker: Unwrap() for an error that has it, nil otherwise. */
  function Next(err: Err): Option<Err> {
    match err
    case Node(e) => Unwrap(e)
    case Foreign(_, next) => next
    case Opaque(_) => None
  }

  /** The chain from `err` outward, as the loop of UnwrapAll collects it. */
  function ChainFrom(err: Err): (r: seq<Err>)
    ensures |r| >= 1 && r[0] == err
    ensures forall i :: 0 <= i < |r| - 1 ==> Next(r[i]) == Some(r[i + 1])
    ensures Next(r[|r| - 1]).None?
  {
    match err
    case Node(e) => if e.cause.Some? then [err] + ChainFrom(e.cause.value) else [err]
    case Foreign(_, next) => if next.Some? then [err] + ChainFrom(next.value) else [err]
    case Opaque(_) => [err]
  }

  /** Erf.UnwrapAll. */
  function UnwrapAll(e: Erf): (r: seq<Err>)
    ensures |r| >= 1 && r[0] == Node(e)
    ensures forall i :: 0 <= i < |r| - 1 ==> Next(r[i]) == Some(r[i + 1])
    ensures Next(r[|r| - 1]).None?
  {
    ChainFrom(Node(e))
  }

  /** The walk is the only sequence that starts at `err`, follows Next and
      stops where Next is nil. */
  lemma {:induction false} ChainUnique(err: Err, s: seq<Err>)
    requires |s| >= 1 && s[0] == err
    requires forall i :: 0 <= i < |s| - 1 ==> Next(s[i]) == Some(s[i + 1])
    requires Next(s[|s| - 1]).None?
    ensures s == ChainFrom(err)
    decreases |s|
  {
    var r := ChainFrom(err);
    if |s| == 1 {
      assert Next(err).None?;
    } else {
      assert Next(err) == Some(s[1]);
      ChainUnique(s[1], s[1..]);
      var r1 := ChainFrom(s[1]);
      assert r == [err] + r1 by {
        match err
        case Node(e) =>
        case Foreign(_, next) =>
        case Opaque(_) =>
      }
    }
  }

  // ---- Arguments (erf.go:163-184) ----

  /** Erf.Len: the number of arguments (0 for a node without them). */
  function Len(e: Erf): (n: nat)
    ensures e.args.None? ==> n == 0
    ensures e.args.Some? ==> n == |e.args.value|
  {
    if e.args.Some? then |e.args.value| else 0
  }

  /** Erf.Arg; Go panics outside [0, Len). */
  function Arg(e: Erf, index: int): (v: Value)
    requires 0 <= index < Len(e)
    ensures e.args.Some? && v == e.args.value[index]
  {
    e.args.value[index]
  }

  /** Erf.Args: a copy of the arguments, nil when the node was not formatted. */
  function Args(e: Erf): (r: Option<seq<Value>>)
    ensures r.None? <==> e.args.None?
    ensures r.Some? ==> |r.value| == Len(e) && forall i :: 0 <= i < Len(e) ==> r.value[i] == Arg(e, i)
  {
    if e.args.None? then None else Some(e.args.value[..])
  }

  // ---- Tags (erf.go:186-250) ----

  /** No non-empty name occurs twice. */
  predicate NoDuplicateNames(tags: seq<string>) {
    forall i, j :: 0 <= i < j < |tags| && tags[i] != "" ==> tags[i] != tags[j]
  }

  /** The table maps each non-empty name to its position, and nothing else. */
  predicate IndexesPositions(tags: seq<string>, t: map<string, int>) {
    && (forall i :: 0 <= i < |tags| && tags[i] != "" ==> tags[i] in t && t[tags[i]] == i)
    && (forall n :: n in t ==> n != "" && 0 <= t[n] < |tags| && tags[t[n]] == n)
  }

  /** The non-empty names, in order. */
  function NonEmptyNames(tags: seq<string>): (r: seq<string>)
    ensures |r| <= |tags|
    ensures "" !in r
  {
    if |tags| == 0 then []
    else NonEmptyNames(tags[..|tags| - 1]) + (if tags[|tags| - 1] != "" then [tags[|tags| - 1]] else [])
  }

  /** Every non-empty name is among the non-empty names. */
  lemma {:induction false} NonEmptyNamesHas(tags: seq<string>, i: int)
    requires 0 <= i < |tags| && tags[i] != ""
    ensures tags[i] in NonEmptyNames(tags)
  {
    if i < |tags| - 1 {
      var init := tags[..|tags| - 1];
      assert init[i] == tags[i];
      NonEmptyNamesHas(init, i);
    }
  }

  /** The loop of Attach that fills the table, name by name; None where a
      non-empty name is met a second time. */
  function IndexTags(tags: seq<string>): Option<map<string, int>> {
    if |tags| == 0 then Some(map[])
    else
      var last := tags[|tags| - 1];
      match IndexTags(tags[..|tags| - 1])
      case None => None
      case Some(m) =>
        if last == "" then Some(m)
        else if last in m then None
        else Some(m[last := |tags| - 1])
  }

  /** The loop succeeds exactly when no non-empty name repeats, and then maps
      every non-empty name to its position and nothing else. */
  lemma IndexTagsSpec(tags: seq<string>)
    ensures IndexTags(tags).Some? <==> NoDuplicateNames(tags)
    ensures IndexTags(tags).Some? ==> IndexesPositions(tags, IndexTags(tags).value)
    ensures IndexTags(tags).Some? ==> |IndexTags(tags).value| == |NonEmptyNames(tags)|
  {
    IndexTagsPositions(tags);
    IndexTagsSucceeds(tags);
    IndexTagsCount(tags);
  }

  lemma {:induction false} IndexTagsPositions(tags: seq<string>)
    ensures IndexTags(tags).Some? ==> IndexesPositions(tags, IndexTags(tags).value)
  {
    if |tags| > 0 && IndexTags(tags).Some? {
      var init := tags[..|tags| - 1];
      var last := tags[|tags| - 1];
      IndexTagsPositions(init);
      var m := IndexTags(init).value;
      assert forall i :: 0 <= i < |init| ==> init[i] == tags[i];
      if last != "" {
        assert IndexTags(tags).value == m[last := |tags| - 1];
      }
    }
  }

  lemma {:induction false} IndexTagsSucceeds(tags: seq<string>)
    ensures IndexTags(tags).Some? <==> NoDuplicateNames(tags)
  {
    if |tags| > 0 {
      var init := tags[..|tags| - 1];
      var last := tags[|tags| - 1];
      IndexTagsSucceeds(init);
      IndexTagsPositions(init);
      assert forall i :: 0 <= i < |init| ==> init[i] == tags[i];
      if IndexTags(init).Some? {
        var m := IndexTags(init).value;
        if last != "" && last in m {
          assert init[m[last]] == last;
          assert !NoDuplicateNames(tags);
        } else {
          assert NoDuplicateNames(tags) by {
            forall i, j | 0 <= i < j < |tags| && tags[i] != "" ensures tags[i] != tags[j] {
              if j == |tags| - 1 {
                assert init[i] in m;
              }
            }
          }
        }
      } else {
        var i, j :| 0 <= i < j < |init| && init[i] != "" && init[i] == init[j];
        assert tags[i] == tags[j];
      }
    }
  }

  lemma {:induction false} IndexTagsCount(tags: seq<string>)
    ensures IndexTags(tags).Some? ==> |IndexTags(tags).value| == |NonEmptyNames(tags)|
  {
    if |tags| > 0 && IndexTags(tags).Some? {
      var init := tags[..|tags| - 1];
      IndexTagsCount(init);
    }
  }

  predicate Injective(m: map<string, int>) {
    forall a, b :: a in m && b in m && m[a] == m[b] ==> a == b
  }

  /** Tags can only be listed when the table is injective, as every table
      Attach builds is. */
  predicate TagsInjective(e: Erf) {
    e.tagIndexes.Some? ==> Injective(e.tagIndexes.value)
  }

  /** Erf.Attach: binds names to argument positions, once. */
  function Attach(e: Erf, tags: seq<string>): (r: Result<Erf, Panic>)
    ensures r.Failure? <==>
              e.args.None? || e.tagIndexes.Some? || |tags| > Len(e) || !NoDuplicateNames(tags)
    ensures e.args.None? ==> r == Failure(ArgsNotUsing)
    ensures e.args.Some? && e.tagIndexes.Some? ==> r == Failure(TagsAlreadyAttached)
    ensures e.args.Some? && e.tagIndexes.None? && |tags| > Len(e) ==> r == Failure(TooManyTags)
    ensures e.args.Some? && e.tagIndexes.None? && |tags| <= Len(e) && !NoDuplicateNames(tags) ==>
              r == Failure(TagAlreadyDefined)
    ensures r.Success? ==>
              && r.value.tagIndexes.Some?
              && r.value == e.(tagIndexes := r.value.tagIndexes)
              && IndexesPositions(tags, r.value.tagIndexes.value)
              && TagsInjective(r.value)
              && forall n :: n in r.value.tagIndexes.value ==> r.value.tagIndexes.value[n] < Len(e)
  {
    if e.args.None? then Failure(ArgsNotUsing)
    else if e.tagIndexes.Some? then Failure(TagsAlreadyAttached)
    else if |tags| > |e.args.value| then Failure(TooManyTags)
    else
      IndexTagsSpec(tags);
      match IndexTags(tags)
      case None => Failure(TagAlreadyDefined)
      case Some(t) =>
        IndexTagsSpec(tags);
        Success(e.(tagIndexes := Some(t)))
  }

  /** Erf.Tag: the argument a name is bound to, nil when it is bound to none. */
  function Tag(e: Erf, name: string): (v: Value)
    ensures e.tagIndexes.None? ==> v == Nil
    ensures e.tagIndexes.Some? && name !in e.tagIndexes.value ==> v == Nil
    ensures e.tagIndexes.Some? && name in e.tagIndexes.value ==>
      var index := e.tagIndexes.value[name];
      v == if 0 <= index < Len(e) then Arg(e, index) else Nil
  {
    var index := if e.tagIndexes.Some? && name in e.tagIndexes.value then e.tagIndexes.value[name] else -1;
    if index < 0 || index >= Len(e) then Nil else e.args.value[index]
  }

  /** After Attach, a name yields the argument at its position, and "" or an
      unattached name yields nil. */
  lemma AttachTag(e: Erf, tags: seq<string>, name: string)
    requires Attach(e, tags).Success?
    ensures var e2 := Attach(e, tags).value;
      && (forall i :: 0 <= i < |tags| && tags[i] != "" ==> Tag(e2, tags[i]) == Arg(e, i))
      && (name == "" || name !in tags ==> Tag(e2, name) == Nil)
  {
    var e2 := Attach(e, tags).value;
    var t := e2.tagIndexes.value;
    if name in t {
      assert tags[t[name]] == name;
    }
  }

  /** The inverse table Tags builds (index to name). */
  function Invert(t: map<string, int>): (m: map<int, string>)
    requires Injective(t)
    ensures m.Keys == t.Values
    ensures forall n :: n in t ==> t[n] in m && m[t[n]] == n
  {
    var m := map i | i in t.Values :: var n :| n in t && t[n] == i; n;
    assert forall n :: n in t ==> t[n] in m && m[t[n]] == n by {
      forall n | n in t ensures t[n] in m && m[t[n]] == n {
        assert t[n] in t.Values;
        var n2 :| n2 in t && t[n2] == t[n] && m[t[n]] == n2;
      }
    }
    m
  }

  lemma {:induction false} InjectiveValues(t: map<string, int>)
    requires Injective(t)
    ensures |t.Values| == |t|
    decreases |t|
  {
    if |t| > 0 {
      var k :| k in t;
      var t' := t - {k};
      assert t'.Keys == t.Keys - {k};
      assert t'.Values == t.Values - {t[k]} by {
        forall v | v in t.Values - {t[k]} ensures v in t'.Values {
          var k2 :| k2 in t && t[k2] == v;
          assert k2 in t';
        }
      }
      InjectiveValues(t');
    }
  }

  /** The scan of Tags: the names at indexes 0 .. n-1 of the inverse table. */
  function TagsBelow(m: map<int, string>, n: nat): seq<string> {
    if n == 0 then []
    else TagsBelow(m, n - 1) + (if n - 1 in m then [m[n - 1]] else [])
  }

  /** Every listed name is attached at an index in [0, n). */
  predicate ListedBelow(t: map<string, int>, r: seq<string>, n: int) {
    forall k :: 0 <= k < |r| ==> r[k] in t && 0 <= t[r[k]] < n
  }

  /** Listed names appear in strictly increasing argument index. */
  predicate IncreasingIndexes(t: map<string, int>, r: seq<string>) {
    forall k1, k2 :: 0 <= k1 < k2 < |r| ==> r[k1] in t && r[k2] in t && t[r[k1]] < t[r[k2]]
  }

  /** Every name attached at an index in [0, n) is listed. */
  predicate ListsAllBelow(t: map<string, int>, r: seq<string>, n: int) {
    forall name :: name in t && 0 <= t[name] < n ==> name in r
  }

  /** The scan lists, in increasing index, exactly the names whose index lies in [0, n). */
  lemma TagsBelowSpec(t: map<string, int>, n: nat)
    requires Injective(t)
    ensures ListedBelow(t, TagsBelow(Invert(t), n), n)
    ensures IncreasingIndexes(t, TagsBelow(Invert(t), n))
    ensures ListsAllBelow(t, TagsBelow(Invert(t), n), n)
  {
    TagsBelowBounded(t, n);
    TagsBelowIncreasing(t, n);
    TagsBelowComplete(t, n);
  }

  lemma {:induction false} TagsBelowBounded(t: map<string, int>, n: nat)
    requires Injective(t)
    ensures ListedBelow(t, TagsBelow(Invert(t), n), n)
  {
    if n > 0 {
      TagsBelowBounded(t, n - 1);
      var m := Invert(t);
      var r0 := TagsBelow(m, n - 1);
      if n - 1 in m {
        var name :| name in t && t[name] == n - 1;
        assert m[n - 1] == name;
        assert TagsBelow(m, n) == r0 + [name];
      } else {
        assert TagsBelow(m, n) == r0;
      }
    }
  }

  lemma {:induction false} TagsBelowIncreasing(t: map<string, int>, n: nat)
    requires Injective(t)
    ensures IncreasingIndexes(t, TagsBelow(Invert(t), n))
  {
    if n > 0 {
      TagsBelowIncreasing(t, n - 1);
      TagsBelowBounded(t, n - 1);
      var m := Invert(t);
      var r0 := TagsBelow(m, n - 1);
      if n - 1 in m {
        var name :| name in t && t[name] == n - 1;
        assert m[n - 1] == name;
        assert TagsBelow(m, n) == r0 + [name];
      } else {
        assert TagsBelow(m, n) == r0;
      }
    }
  }

  lemma {:induction false} TagsBelowComplete(t: map<string, int>, n: nat)
    requires Injective(t)
    ensures ListsAllBelow(t, TagsBelow(Invert(t), n), n)
  {
    if n > 0 {
      TagsBelowComplete(t, n - 1);
      var m := Invert(t);
      forall name | name in t && t[name] == n - 1
        ensures name in TagsBelow(m, n)
      {
        assert m[n - 1] == name;
      }
    }
  }

  /** Erf.Tags: the attached names in increasing argument index, scanning the
      indexes below the number of attached names. */
  function Tags(e: Erf): (r: Option<seq<string>>)
    requires TagsInjective(e)
    ensures r.None? <==> e.tagIndexes.None?
    ensures r.Some? ==> ListedBelow(e.tagIndexes.value, r.value, |e.tagIndexes.value|)
    ensures r.Some? ==> IncreasingIndexes(e.tagIndexes.value, r.value)
    ensures r.Some? ==> ListsAllBelow(e.tagIndexes.value, r.value, |e.tagIndexes.value|)
  {
    match e.tagIndexes
    case None => None
    case Some(t) =>
      var m := Invert(t);
      InjectiveValues(t);
      TagsBelowSpec(t, |m|);
      Some(TagsBelow(m, |m|))
  }

  /** After Attach, Tags lists the non-empty names among the first K names,
      where K is the number of non-empty names: a name placed at a position
      at or after K is never listed. */
  lemma AttachTags(e: Erf, tags: seq<string>)
    requires Attach(e, tags).Success?
    ensures Tags(Attach(e, tags).value) == Some(NonEmptyNames(tags[..|NonEmptyNames(tags)|]))
  {
    var t := Attach(e, tags).value.tagIndexes.value;
    IndexTagsSpec(tags);
    InvertPositions(tags, t);
    InjectiveValues(t);
    ScanPositions(tags, |NonEmptyNames(tags)|);
  }

  /** The same fact name by name: a name is listed exactly when its position
      is below the number of non-empty names. */
  lemma AttachTagsListed(e: Erf, tags: seq<string>, i: int)
    requires Attach(e, tags).Success?
    requires 0 <= i < |tags| && tags[i] != ""
    ensures tags[i] in Tags(Attach(e, tags).value).value <==> i < |NonEmptyNames(tags)|
  {
    var t := Attach(e, tags).value.tagIndexes.value;
    IndexTagsSpec(tags);
    var r := Tags(Attach(e, tags).value).value;
    if tags[i] in r {
      var k :| 0 <= k < |r| && r[k] == tags[i];
      assert t[r[k]] < |t|;
    }
  }

  /** The inverse table, index to name, of a well-placed list of names. */
  function PositionTable(tags: seq<string>): map<int, string> {
    map i | 0 <= i < |tags| && tags[i] != "" :: tags[i]
  }

  lemma InvertPositions(tags: seq<string>, t: map<string, int>)
    requires IndexesPositions(tags, t)
    ensures Injective(t)
    ensures Invert(t) == PositionTable(tags)
  {
    assert Injective(t) by {
      forall a, b | a in t && b in t && t[a] == t[b] ensures a == b {
        assert tags[t[a]] == a;
      }
    }
    var m := Invert(t);
    var p := PositionTable(tags);
    assert m.Keys == p.Keys by {
      forall i | i in p ensures i in m {
        assert t[tags[i]] == i;
      }
    }
    forall i | i in m ensures m[i] == p[i] {
      var name :| name in t && t[name] == i;
    }
  }

  /** Scanning the first n positions lists the non-empty names among them. */
  lemma {:induction false} ScanPositions(tags: seq<string>, n: nat)
    requires n <= |tags|
    ensures TagsBelow(PositionTable(tags), n) == NonEmptyNames(tags[..n])
  {
    if n > 0 {
      ScanPositions(tags, n - 1);
      assert tags[..n][..n - 1] == tags[..n - 1];
    }
  }

  /** Scanning past the last position adds nothing. */
  lemma {:induction false} ScanPastEnd(tags: seq<string>, n: nat)
    requires n >= |tags|
    ensures TagsBelow(PositionTable(tags), n) == NonEmptyNames(tags)
  {
    if n == |tags| {
      ScanPositions(tags, n);
      assert tags[..n] == tags;
    } else {
      ScanPastEnd(tags, n - 1);
    }
  }

  /** Tags with the scan bound the documentation implies: every index below
      the number of arguments, so that no attached name is dropped. */
  function AllTags(e: Erf): (r: Option<seq<string>>)
    requires TagsInjective(e)
    ensures r.None? <==> e.tagIndexes.None?
    ensures r.Some? ==> ListedBelow(e.tagIndexes.value, r.value, Len(e))
    ensures r.Some? ==> IncreasingIndexes(e.tagIndexes.value, r.value)
    ensures r.Some? ==> ListsAllBelow(e.tagIndexes.value, r.value, Len(e))
  {
    match e.tagIndexes
    case None => None
    case Some(t) =>
      TagsBelowSpec(t, Len(e));
      Some(TagsBelow(Invert(t), Len(e)))
  }

  /** After Attach, AllTags lists every non-empty name in attachment order. */
  lemma AttachAllTags(e: Erf, tags: seq<string>)
    requires Attach(e, tags).Success?
    ensures AllTags(Attach(e, tags).value) == Some(NonEmptyNames(tags))
  {
    var t := Attach(e, tags).value.tagIndexes.value;
    InvertPositions(tags, t);
    ScanPastEnd(tags, Len(e));
  }

  /** Three arguments tagged "", "name", "reason": Tags drops "reason",
      which sits at position 2 while only two names are non-empty. */
  lemma TagsDropsLateName(args: seq<Value>)
    requires |args| == 3
    ensures var e := Erf("m", "%v %v %v", Some(args), None, None, [], []);
      && Attach(e, ["", "name", "reason"]).Success?
      && Tags(Attach(e, ["", "name", "reason"]).value) == Some(["name"])
      && AllTags(Attach(e, ["", "name", "reason"]).value) == Some(["name", "reason"])
  {
    var e := Erf("m", "%v %v %v", Some(args), None, None, [], []);
    var tags := ["", "name", "reason"];
    assert NoDuplicateNames(tags);
    assert Attach(e, tags).Success?;
    NamesOfExample();
    AttachTags(e, tags);
    AttachAllTags(e, tags);
  }

  lemma NamesOfExample()
    ensures NonEmptyNames(["", "name", "reason"]) == ["name", "reason"]
    ensures NonEmptyNames(["", "name", "reason"][..2]) == ["name"]
  {
    var tags := ["", "name", "reason"];
    assert tags[..2] == ["", "name"];
    assert ["", "name"][..1] == [""];
    assert [""][..0] == [];
    assert NonEmptyNames([""]) == [];
    assert NonEmptyNames(["", "name"]) == ["name"];
    assert tags[..|tags| - 1] == ["", "name"];
  }

  // ---- Constructors (erf.go:268-331) ----

  /** The loop of newf that copies the arguments; None at a nil argument. */
  function CopyArgs(args: seq<Value>): Option<seq<Value>> {
    if |args| == 0 then Some([])
    else
      match CopyArgs(args[..|args| - 1])
      case None => None
      case Some(acc) => if args[|args| - 1] == Nil then None else Some(acc + [args[|args| - 1]])
  }

  /** The copy fails exactly on a nil argument and otherwise keeps every argument in place. */
  lemma {:induction false} CopyArgsSpec(args: seq<Value>)
    ensures CopyArgs(args).None? <==> Nil in args
    ensures CopyArgs(args).Some? ==> CopyArgs(args).value == args
  {
    if |args| > 0 {
      var init := args[..|args| - 1];
      CopyArgsSpec(init);
      assert args == init + [args[|args| - 1]];
    }
  }

  /** New: a node from a text, without arguments, tags or cause. */
  function New(text: string, pc: seq<Stack.Uintptr>, callers: seq<Stack.StackCaller>): (e: Erf)
    ensures e.message == text && e.format == ""
    ensures Args(e).None? && Len(e) == 0
    ensures Unwrap(e).None?
    ensures TagsInjective(e) && Tags(e).None?
  {
    Erf(text, "", None, None, None, pc, callers)
  }

  /** A node made by New never takes tags. */
  lemma NewRefusesTags(text: string, pc: seq<Stack.Uintptr>, callers: seq<Stack.StackCaller>, tags: seq<string>)
    ensures Attach(New(text, pc, callers), tags) == Failure(ArgsNotUsing)
  {
  }

  /** Newf (and newf, Errorf): a node from a format and its arguments. The
      message and the cause a `%w` verb designates are what fmt.Errorf makes
      of them, given here. */
  function Newf(format: string, args: seq<Value>, message: string, cause: Option<Err>,
                pc: seq<Stack.Uintptr>, callers: seq<Stack.StackCaller>): (r: Result<Erf, Panic>)
    ensures r.Failure? <==> Nil in args
    ensures r.Failure? ==> r.error == ArgIsNil
    ensures r.Success? ==> Args(r.value) == Some(args) && Len(r.value) == |args|
    ensures r.Success? ==> r.value.format == format && r.value.message == message
    ensures r.Success? ==> Unwrap(r.value) == cause && r.value.tagIndexes.None?
  {
    CopyArgsSpec(args);
    match CopyArgs(args)
    case None => Failure(ArgIsNil)
    case Some(copied) => Success(Erf(message, format, Some(copied), None, cause, pc, callers))
  }

  /** Wrap: nil stays nil; otherwise a node whose message and only argument
      are the wrapped error's, and whose cause is the wrapped error. */
  function Wrap(err: Option<Err>, pc: seq<Stack.Uintptr>, callers: seq<Stack.StackCaller>): (r: Option<Err>)
    ensures r.None? <==> err.None?
    ensures r.Some? ==> r.value.Node? && Unwrap(r.value.erf) == err
    ensures r.Some? ==> Message(r.value) == Message(err.value) && r.value.erf.format == "%w"
    ensures r.Some? ==> Args(r.value.erf) == Some([Concrete(Message(err.value))])
  {
    match err
    case None => None
    case Some(x) =>
      var text := Message(x);
      Some(Node(Newf("%w", [Concrete(text)], text, Some(x), pc, callers).value))
  }

  /** Wrapp: the slot is left alone when the pointer or its error is nil;
      otherwise it receives a node whose cause is the old error. */
  function Wrapp(slot: Option<Option<Err>>, pc: seq<Stack.Uintptr>, callers: seq<Stack.StackCaller>): (r: Option<Option<Err>>)
    ensures slot.None? ==> r.None?
    ensures slot == Some(None) ==> r == Some(None)
    ensures slot.Some? && slot.value.Some? ==>
              && r.Some? && r.value.Some? && r.value.value.Node?
              && Unwrap(r.value.value.erf) == slot.value
              && Message(r.value.value) == Message(slot.value.value)
  {
    match slot
    case None => None
    case Some(None) => Some(None)
    case Some(Some(x)) => Some(Wrap(Some(x), pc, callers))
  }

  /** Wrapping puts exactly one new element in front of the wrapped chain. */
  lemma WrapChain(x: Err, pc: seq<Stack.Uintptr>, callers: seq<Stack.StackCaller>)
    ensures var w := Wrap(Some(x), pc, callers).value;
      UnwrapAll(w.erf) == [w] + ChainFrom(x)
  {
  }

  /** A wraps B wraps C, C made by New: the chain is [A, B, C]. */
  lemma ThreeLevelChain(text: string, pc: seq<Stack.Uintptr>, callers: seq<Stack.StackCaller>)
    ensures var c := Node(New(text, pc, callers));
      var b := Wrap(Some(c), pc, callers).value;
      var a := Wrap(Some(b), pc, callers).value;
      UnwrapAll(a.erf) == [a, b, c]
  {
    var c := Node(New(text, pc, callers));
    var b := Wrap(Some(c), pc, callers).value;
    var a := Wrap(Some(b), pc, callers).value;
    WrapChain(b, pc, callers);
    WrapChain(c, pc, callers);
  }

  // ---- Well-formed chains ----

  /** Every node along the chain has an injective tag table. */
  predicate ChainWellFormed(err: Err) {
    match err
    case Node(e) => TagsInjective(e) && (e.cause.Some? ==> ChainWellFormed(e.cause.value))
    case Foreign(_, next) => next.Some? ==> ChainWellFormed(next.value)
    case Opaque(_) => true
  }

  /** Every element of a well-formed chain is a well-formed error. */
  lemma {:induction false} ChainElementsWellFormed(err: Err)
    requires ChainWellFormed(err)
    ensures forall x :: x in ChainFrom(err) ==> ChainWellFormed(x)
  {
    match err
    case Node(e) =>
      if e.cause.Some? { ChainElementsWellFormed(e.cause.value); }
    case Foreign(_, next) =>
      if next.Some? { ChainElementsWellFormed(next.value); }
    case Opaque(_) =>
  }

  /** The constructors and Attach only build well-formed chains. */
  lemma ConstructionKeepsWellFormed(e: Erf, tags: seq<string>, x: Err,
                                    pc: seq<Stack.Uintptr>, callers: seq<Stack.StackCaller>)
    requires ChainWellFormed(Node(e)) && ChainWellFormed(x)
    ensures Attach(e, tags).Success? ==> ChainWellFormed(Node(Attach(e, tags).value))
    ensures ChainWellFormed(Wrap(Some(x), pc, callers).value)
    ensures forall text :: ChainWellFormed(Node(New(text, pc, callers)))
  {
  }
}
