/**
 The forwarded-argv filter (python/dynamic_runner/_forwarded_argv.py with the
 flag classes of python/dynamic_runner/_framework_flags.py).
 */
module ForwardedArgv {
  const FRAMEWORK_REGENERATED_FLAGS: set<string> := {
    "--secondary", "--secondary-id", "--secondary-quic-port", "--src-network", "--output-dir",
    "--cores", "--max-memory", "--mem-manager-reserved", "--log-dir", "--full-log-dir" }

  const SUBMITTER_LOCAL_FLAGS: set<string> := { "--important-stdio-only" }

  /** What `token.split("=", 1)` leaves in front. */
  function Head(token: string): string {
    if token == [] || token[0] == '=' then [] else [token[0]] + Head(token[1..])
  }

  predicate IsLocal(token: string) {
    token in SUBMITTER_LOCAL_FLAGS
  }

  predicate IsInlinePair(token: string) {
    '=' in token && Head(token) in FRAMEWORK_REGENERATED_FLAGS
  }

  predicate IsRegenerated(token: string) {
    token in FRAMEWORK_REGENERATED_FLAGS
  }

  /** Tokens the filter passes on when it looks at them. */
  predicate Passes(token: string) {
    !IsLocal(token) && !IsInlinePair(token) && !IsRegenerated(token)
  }

  /** Read from the front: a local flag goes, an inline pair goes, a regenerated
      flag goes with whatever token follows it, everything else stays. */
  function Filter(argv: seq<string>): seq<string> {
    if argv == [] then []
    else if IsLocal(argv[0]) || IsInlinePair(argv[0]) then Filter(argv[1..])
    else if IsRegenerated(argv[0]) then (if |argv| == 1 then [] else Filter(argv[2..]))
    else [argv[0]] + Filter(argv[1..])
  }

  method FilterFrameworkArgv(argv: seq<string>) returns (out: seq<string>)
    ensures out == Filter(argv)
  {
    out := [];
    var i := 0;
    while i < |argv|
      invariant 0 <= i <= |argv|
      invariant Filter(argv) == out + Filter(argv[i..])
    {
      var token := argv[i];
      assert argv[i..][0] == token && argv[i..][1..] == argv[i + 1..];
      if token in SUBMITTER_LOCAL_FLAGS {
        i := i + 1;
        continue;
      }
      if '=' in token && Head(token) in FRAMEWORK_REGENERATED_FLAGS {
        i := i + 1;
        continue;
      }
      if token in FRAMEWORK_REGENERATED_FLAGS {
        if i + 1 < |argv| {
          assert argv[i..][2..] == argv[i + 2..];
          i := i + 2;
        } else {
          i := i + 1;
        }
        continue;
      }
      out := out + [token];
      i := i + 1;
    }
  }

  // ---------------------------------------------------------------------
  // Every argv is an interleaving of passed tokens and whole dropped groups
  // ---------------------------------------------------------------------

  datatype Item =
    | Passed(token: string)
    | LocalFlag(token: string)
    | InlinePair(token: string)
    | FlagWithValue(flag: string, value: string)

  predicate WellFormed(item: Item) {
    match item
    case Passed(t) => Passes(t)
    case LocalFlag(t) => IsLocal(t)
    case InlinePair(t) => IsInlinePair(t) && !IsLocal(t)
    case FlagWithValue(f, _) => IsRegenerated(f) && !IsLocal(f) && !IsInlinePair(f)
  }

  function Tokens(item: Item): seq<string> {
    match item
    case FlagWithValue(f, v) => [f, v]
    case Passed(t) => [t]
    case LocalFlag(t) => [t]
    case InlinePair(t) => [t]
  }

  function Render(items: seq<Item>): seq<string> {
    if items == [] then [] else Tokens(items[0]) + Render(items[1..])
  }

  function PassedTokens(items: seq<Item>): seq<string> {
    if items == [] then [] else (if items[0].Passed? then [items[0].token] else []) + PassedTokens(items[1..])
  }

  ghost predicate AllWellFormed(items: seq<Item>) {
    forall i :: 0 <= i < |items| ==> WellFormed(items[i])
  }

  /** `rest` is empty, or one regenerated flag that lost its value. */
  predicate BareTail(rest: seq<string>) {
    rest == [] || (|rest| == 1 && IsRegenerated(rest[0]) && !IsLocal(rest[0]) && !IsInlinePair(rest[0]))
  }

  /** One group at the front is passed on or dropped whole. */
  lemma FilterGroup(item: Item, more: seq<string>)
    requires WellFormed(item)
    ensures Filter(Tokens(item) + more) == (if item.Passed? then [item.token] else []) + Filter(more)
  {
  }

  lemma {:induction false} PrefixedFilter(items: seq<Item>, b: seq<string>)
    requires AllWellFormed(items)
    ensures Filter(Render(items) + b) == PassedTokens(items) + Filter(b)
  {
    if items == [] {
      assert Render(items) + b == b;
    } else {
      var (first, more) := (items[0], Render(items[1..]) + b);
      assert Render(items) + b == Tokens(first) + more;
      FilterGroup(first, more);
      PrefixedFilter(items[1..], b);
    }
  }

  /** However passed tokens and complete groups are interleaved, whatever the
      values contain, the filter returns exactly the passed tokens in order. */
  lemma FilterUndoesInterleaving(items: seq<Item>, rest: seq<string>)
    requires AllWellFormed(items) && BareTail(rest)
    ensures Filter(Render(items) + rest) == PassedTokens(items)
  {
    PrefixedFilter(items, rest);
    assert Filter(rest) == [];
  }

  /** Every argv is such an interleaving, in exactly the way the filter reads it. */
  lemma {:induction false} EveryArgvIsAnInterleaving(argv: seq<string>) returns (items: seq<Item>, rest: seq<string>)
    ensures AllWellFormed(items) && BareTail(rest) && argv == Render(items) + rest
    decreases |argv|
  {
    if argv == [] || BareTail(argv) {
      items, rest := [], argv;
    } else {
      var t := argv[0];
      var first: Item;
      if IsLocal(t) {
        first := LocalFlag(t);
      } else if IsInlinePair(t) {
        first := InlinePair(t);
      } else if IsRegenerated(t) {
        first := FlagWithValue(t, argv[1]);
      } else {
        first := Passed(t);
      }
      var more;
      more, rest := EveryArgvIsAnInterleaving(argv[|Tokens(first)|..]);
      items := [first] + more;
      assert items[1..] == more;
      assert argv == Tokens(first) + argv[|Tokens(first)|..];
      assert Render(items) + rest == Tokens(first) + (Render(more) + rest);
    }
  }

  /** The filter's meaning, both ways: its output is `out` exactly when the input
      interleaves `out` with dropped groups. */
  lemma FilterCharacterized(argv: seq<string>, out: seq<string>)
    ensures Filter(argv) == out <==>
            exists items, rest :: AllWellFormed(items) && BareTail(rest) && argv == Render(items) + rest
                                  && PassedTokens(items) == out
  {
    var items, rest := EveryArgvIsAnInterleaving(argv);
    FilterUndoesInterleaving(items, rest);
    forall i, r | AllWellFormed(i) && BareTail(r) && argv == Render(i) + r && PassedTokens(i) == out
      ensures Filter(argv) == out
    {
      FilterUndoesInterleaving(i, r);
    }
  }

  // ---------------------------------------------------------------------
  // The flags by name
  // ---------------------------------------------------------------------

  lemma {:induction false} HeadExactly(token: string)
    ensures '=' !in Head(token) && Head(token) <= token
    ensures '=' in token ==> Head(token) + "=" <= token
    ensures '=' !in token ==> Head(token) == token
  {
    if token != [] && token[0] != '=' {
      HeadExactly(token[1..]);
      assert token == [token[0]] + token[1..];
    }
  }

  lemma {:induction false} HeadOfPair(flag: string, value: string)
    requires '=' !in flag
    ensures Head(flag + "=" + value) == flag
  {
    if flag != [] {
      HeadOfPair(flag[1..], value);
      assert (flag + "=" + value)[1..] == flag[1..] + "=" + value;
    }
  }

  lemma NoEqualsInFlags(flag: string)
    requires flag in FRAMEWORK_REGENERATED_FLAGS
    ensures '=' !in flag
  {
  }

  /** An inline pair is a regenerated flag, an equals sign and anything at all. */
  lemma InlinePairsExactly(token: string)
    ensures IsInlinePair(token) <==>
            exists flag, value :: flag in FRAMEWORK_REGENERATED_FLAGS && token == flag + "=" + value
  {
    HeadExactly(token);
    if IsInlinePair(token) {
      var flag := Head(token);
      var value := token[|flag| + 1..];
      assert token == flag + "=" + value;
    }
    if exists flag, value :: flag in FRAMEWORK_REGENERATED_FLAGS && token == flag + "=" + value {
      var flag, value :| flag in FRAMEWORK_REGENERATED_FLAGS && token == flag + "=" + value;
      NoEqualsInFlags(flag);
      HeadOfPair(flag, value);
      assert token[|flag|] == '=';
    }
  }

  /** Each regenerated flag by its name goes with its value, in either spelling; the local
      one goes alone. */
  lemma DroppedByName(value: string, rest: seq<string>)
    ensures forall flag :: flag in {"--secondary", "--secondary-id", "--secondary-quic-port", "--src-network",
                                    "--output-dir", "--cores", "--max-memory", "--mem-manager-reserved", "--log-dir",
                                    "--full-log-dir"} ==>
              Filter([flag, value] + rest) == Filter(rest) && Filter([flag + "=" + value] + rest) == Filter(rest)
    ensures Filter(["--important-stdio-only"] + rest) == Filter(rest)
  {
    forall flag | flag in FRAMEWORK_REGENERATED_FLAGS
      ensures Filter([flag, value] + rest) == Filter(rest) && Filter([flag + "=" + value] + rest) == Filter(rest)
    {
      NoEqualsInFlags(flag);
      HeadOfPair(flag, value);
      RegeneratedIsNotLocal(flag);
      SwallowsOne(flag, value, rest);
      var pair := flag + "=" + value;
      assert pair[|flag|] == '=';
      assert IsInlinePair(pair);
      assert ([pair] + rest)[1..] == rest;
    }
    assert (["--important-stdio-only"] + rest)[1..] == rest;
  }

  lemma RegeneratedIsNotLocal(flag: string)
    requires flag in FRAMEWORK_REGENERATED_FLAGS
    ensures !IsLocal(flag)
  {
    assert "--important-stdio-only"[2] == 'i';
  }

  // ---------------------------------------------------------------------
  // Consequences
  // ---------------------------------------------------------------------

  ghost predicate Clean(argv: seq<string>) {
    forall i :: 0 <= i < |argv| ==> Passes(argv[i])
  }

  lemma {:induction false} OutputIsClean(argv: seq<string>)
    ensures Clean(Filter(argv))
    decreases |argv|
  {
    if argv != [] {
      OutputIsClean(argv[1..]);
      if |argv| > 1 { OutputIsClean(argv[2..]); }
    }
  }

  lemma {:induction false} CleanIsFixed(argv: seq<string>)
    requires Clean(argv)
    ensures Filter(argv) == argv
  {
    if argv != [] {
      assert Passes(argv[0]);
      CleanIsFixed(argv[1..]);
      assert argv == [argv[0]] + argv[1..];
    }
  }

  /** Filtering is idempotent, and its fixed points are the argvs with nothing to drop. */
  lemma FilterIsIdempotent(argv: seq<string>)
    ensures Filter(Filter(argv)) == Filter(argv)
    ensures Filter(argv) == argv <==> Clean(argv)
  {
    OutputIsClean(argv);
    CleanIsFixed(Filter(argv));
    if Clean(argv) { CleanIsFixed(argv); }
  }

  /** Tokens in order, some left out. */
  ghost predicate IsSubsequence(s: seq<string>, of: seq<string>)
    decreases |of|
  {
    s == [] || (of != [] && ((s[0] == of[0] && IsSubsequence(s[1..], of[1..])) || IsSubsequence(s, of[1..])))
  }

  lemma {:induction false} OutputIsASubsequence(argv: seq<string>)
    ensures IsSubsequence(Filter(argv), argv)
    decreases |argv|
  {
    if argv != [] {
      OutputIsASubsequence(argv[1..]);
      if Passes(argv[0]) {
        assert Filter(argv)[1..] == Filter(argv[1..]);
      } else if |argv| > 1 && !IsLocal(argv[0]) && !IsInlinePair(argv[0]) {
        OutputIsASubsequence(argv[2..]);
        assert argv[1..][1..] == argv[2..];
        assert IsSubsequence(Filter(argv), argv[1..]);
      }
    }
  }

  /** The documented byte-identical forward set: a node that re-filters its own
      command line, whatever complete groups its launcher put before, between or
      after the forwarded tokens, recovers exactly what was forwarded. */
  lemma RefilteringRecoversTheForwardSet(argv: seq<string>, items: seq<Item>)
    requires AllWellFormed(items) && PassedTokens(items) == Filter(argv)
    ensures Filter(Render(items)) == Filter(argv)
  {
    FilterUndoesInterleaving(items, []);
    assert Render(items) + [] == Render(items);
  }

  /** The filter distributes over concatenation unless the first part ends in a
      flag still waiting for its value, which then swallows the next token. */
  lemma FilterConcat(a: seq<string>, b: seq<string>) returns (dangling: bool)
    ensures Filter(a + b) == Filter(a) + Filter(if dangling && b != [] then b[1..] else b)
    ensures !dangling <==> Complete(a)
  {
    var items, rest := EveryArgvIsAnInterleaving(a);
    FilterUndoesInterleaving(items, rest);
    dangling := rest != [];
    if dangling {
      DanglingSwallows(items, rest[0], b);
      assert rest == [rest[0]];
      NoOtherReading(items, rest[0]);
    } else {
      assert Render(items) + rest == Render(items);
      PrefixedFilter(items, b);
    }
  }

  /** Made of passed tokens and complete groups only. */
  ghost predicate Complete(argv: seq<string>) {
    exists items :: AllWellFormed(items) && argv == Render(items)
  }

  lemma DanglingSwallows(items: seq<Item>, flag: string, b: seq<string>)
    requires AllWellFormed(items) && IsRegenerated(flag) && !IsLocal(flag) && !IsInlinePair(flag)
    ensures Filter(Render(items) + [flag] + b) == PassedTokens(items) + Filter(if b != [] then b[1..] else b)
  {
    assert Render(items) + [flag] + b == Render(items) + ([flag] + b);
    PrefixedFilter(items, [flag] + b);
    FlagSwallows(flag, b);
  }

  lemma FlagSwallows(flag: string, b: seq<string>)
    requires IsRegenerated(flag) && !IsLocal(flag) && !IsInlinePair(flag)
    ensures Filter([flag] + b) == Filter(if b != [] then b[1..] else b)
  {
    if b == [] {
      assert [flag] + b == [flag];
    } else {
      SwallowsOne(flag, b[0], b[1..]);
      assert [flag] + b == [flag, b[0]] + b[1..];
    }
  }

  lemma SwallowsOne(flag: string, value: string, more: seq<string>)
    requires IsRegenerated(flag) && !IsLocal(flag) && !IsInlinePair(flag)
    ensures Filter([flag, value] + more) == Filter(more)
  {
    FilterGroup(FlagWithValue(flag, value), more);
    assert [] + Filter(more) == Filter(more);
  }

  /** An argv that ends in a bare flag has no reading without one. */
  lemma NoOtherReading(items: seq<Item>, flag: string)
    requires AllWellFormed(items) && IsRegenerated(flag) && !IsLocal(flag) && !IsInlinePair(flag)
    ensures !Complete(Render(items) + [flag])
  {
    forall other | AllWellFormed(other) ensures Render(items) + [flag] != Render(other) {
      ReadingsDiffer(items, flag, other);
    }
  }

  lemma {:induction false} ReadingsDiffer(items: seq<Item>, flag: string, other: seq<Item>)
    requires AllWellFormed(items) && AllWellFormed(other)
    requires IsRegenerated(flag) && !IsLocal(flag) && !IsInlinePair(flag)
    ensures Render(items) + [flag] != Render(other)
    decreases |items|
  {
    var a, b := Render(items) + [flag], Render(other);
    if other != [] {
      assert WellFormed(other[0]);
      if items == [] {
        assert a == [flag];
        assert b == Tokens(other[0]) + Render(other[1..]);
        assert b[0] == Tokens(other[0])[0];
      } else {
        assert WellFormed(items[0]);
        assert a == Tokens(items[0]) + (Render(items[1..]) + [flag]);
        assert b == Tokens(other[0]) + Render(other[1..]);
        assert a[0] == Tokens(items[0])[0] && b[0] == Tokens(other[0])[0];
        if a == b {
          assert |Tokens(items[0])| == |Tokens(other[0])|;
          assert a[|Tokens(items[0])|..] == Render(items[1..]) + [flag];
          assert b[|Tokens(items[0])|..] == Render(other[1..]);
          ReadingsDiffer(items[1..], flag, other[1..]);
        }
      }
    }
  }
}
