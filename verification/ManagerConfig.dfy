/**
 The shutdown manager's command line (shutdown-manager/src/config.rs).

 The builder's fourteen optional fields are one map from flag to parsed value.
 */
module ManagerConfig {
  import opened Wrappers
  import opened Numerals

  datatype Flag =
    | ContainerName | StorageRoot | Runroot | TmpPrefix | PidFile
    | PollIntervalSecs | IdleShutdownSecs | SecondaryGraceSecs | ContainerStopGraceSecs
    | WrapperPid | LogFile | PodmanPath | RmPath | PanikFile

  function Spelling(f: Flag): string {
    match f
    case ContainerName => "--container-name"
    case StorageRoot => "--storage-root"
    case Runroot => "--runroot"
    case TmpPrefix => "--tmp-prefix"
    case PidFile => "--pid-file"
    case PollIntervalSecs => "--poll-interval-secs"
    case IdleShutdownSecs => "--idle-shutdown-secs"
    case SecondaryGraceSecs => "--secondary-grace-secs"
    case ContainerStopGraceSecs => "--container-stop-grace-secs"
    case WrapperPid => "--wrapper-pid"
    case LogFile => "--log-file"
    case PodmanPath => "--podman-path"
    case RmPath => "--rm-path"
    case PanikFile => "--panik-file"
  }

  function FlagOf(key: string): Option<Flag> {
    if key == "--container-name" then Some(ContainerName)
    else if key == "--storage-root" then Some(StorageRoot)
    else if key == "--runroot" then Some(Runroot)
    else if key == "--tmp-prefix" then Some(TmpPrefix)
    else if key == "--pid-file" then Some(PidFile)
    else if key == "--poll-interval-secs" then Some(PollIntervalSecs)
    else if key == "--idle-shutdown-secs" then Some(IdleShutdownSecs)
    else if key == "--secondary-grace-secs" then Some(SecondaryGraceSecs)
    else if key == "--container-stop-grace-secs" then Some(ContainerStopGraceSecs)
    else if key == "--wrapper-pid" then Some(WrapperPid)
    else if key == "--log-file" then Some(LogFile)
    else if key == "--podman-path" then Some(PodmanPath)
    else if key == "--rm-path" then Some(RmPath)
    else if key == "--panik-file" then Some(PanikFile)
    else None
  }

  /** The table is read the same way in both directions. */
  lemma FlagTable(f: Flag)
    ensures FlagOf(Spelling(f)) == Some(f)
  {
    assert "--runroot"[3] != "--rm-path"[3];
    assert "--pid-file"[2] != "--log-file"[2];
    assert "--tmp-prefix"[2] != "--panik-file"[2];
    assert "--wrapper-pid"[2] != "--podman-path"[2];
    assert "--poll-interval-secs"[2] != "--idle-shutdown-secs"[2];
  }

  /** The names, one per field of the configuration. */
  lemma SpelledOut()
    ensures Spelling(ContainerName) == "--container-name" && Spelling(StorageRoot) == "--storage-root"
    ensures Spelling(Runroot) == "--runroot" && Spelling(TmpPrefix) == "--tmp-prefix"
    ensures Spelling(PidFile) == "--pid-file" && Spelling(PollIntervalSecs) == "--poll-interval-secs"
    ensures Spelling(IdleShutdownSecs) == "--idle-shutdown-secs" && Spelling(WrapperPid) == "--wrapper-pid"
    ensures Spelling(SecondaryGraceSecs) == "--secondary-grace-secs"
    ensures Spelling(ContainerStopGraceSecs) == "--container-stop-grace-secs"
    ensures Spelling(LogFile) == "--log-file" && Spelling(PodmanPath) == "--podman-path"
    ensures Spelling(RmPath) == "--rm-path" && Spelling(PanikFile) == "--panik-file"
  {
  }

  lemma FlagHasNoEquals(f: Flag)
    ensures '=' !in Spelling(f)
  {
  }

  datatype Value = Text(text: string) | Number(number: nat)

  type Builder = map<Flag, Value>

  datatype ParseError =
    | RequiresValue(key: string)
    | ExpectsPositiveInteger(key: string, got: string)
    | MustBePositive(key: string)
    | PidOutOfRange(pid: nat)
    | UnknownFlag(key: string)
    | Missing(key: string)

  const U32: nat := 0x1_0000_0000
  const U64: nat := 0x1_0000_0000_0000_0000

  /** Rust's `u64` reading: an optional plus sign, at least one digit, no overflow. */
  function ParseU64(s: string): Option<nat> {
    var digits := if s != [] && s[0] == '+' then s[1..] else s;
    if digits != [] && AllDigits(digits) && Decimal(digits) < U64 then Some(Decimal(digits)) else None
  }

  /** `v` writes `n`: perhaps a plus sign, perhaps leading zeros, and its digits. */
  ghost predicate Writes(v: string, n: nat) {
    exists z: nat :: WrittenWith(v, z, n)
  }

  predicate WrittenWith(v: string, z: nat, n: nat) {
    v == Zeros(z) + Digits(n) || v == ['+'] + (Zeros(z) + Digits(n))
  }

  lemma ReadIsWritten(v: string)
    requires ParseU64(v).Some?
    ensures Writes(v, ParseU64(v).value)
  {
    if v[0] == '+' {
      var z := DigitsWritten(v[1..]);
      assert v == ['+'] + v[1..];
      assert WrittenWith(v, z, ParseU64(v).value);
    } else {
      var z := DigitsWritten(v);
      assert WrittenWith(v, z, ParseU64(v).value);
    }
  }

  lemma DigitsParse(digits: string)
    requires digits != [] && AllDigits(digits)
    ensures var r := if Decimal(digits) < U64 then Some(Decimal(digits)) else None;
            ParseU64(digits) == r && ParseU64(['+'] + digits) == r
  {
    DigitAt(digits, 0);
    assert (['+'] + digits)[1..] == digits;
  }

  lemma WrittenIsRead(v: string, z: nat, n: nat)
    requires WrittenWith(v, z, n)
    ensures ParseU64(v) == if n < U64 then Some(n) else None
  {
    DigitsRead(n);
    LeadingZeros(z, Digits(n));
    DigitsParse(Zeros(z) + Digits(n));
  }

  /** A number is read exactly from what writes it, below 2^64. */
  lemma NumbersExactly(v: string, n: nat)
    ensures ParseU64(v) == Some(n) <==> Writes(v, n) && n < 18446744073709551616
  {
    if ParseU64(v) == Some(n) {
      ReadIsWritten(v);
    }
    if Writes(v, n) {
      var z: nat :| WrittenWith(v, z, n);
      WrittenIsRead(v, z, n);
    }
  }

  predicate IsNumeric(f: Flag) {
    f.PollIntervalSecs? || f.IdleShutdownSecs? || f.SecondaryGraceSecs? || f.ContainerStopGraceSecs? || f.WrapperPid?
  }

  /** What one flag makes of its value. */
  function Convert(f: Flag, v: string): Result<Value, ParseError> {
    if !IsNumeric(f) then Ok(Text(v))
    else match ParseU64(v)
      case None => Err(ExpectsPositiveInteger(Spelling(f), v))
      case Some(n) =>
        if n == 0 then Err(MustBePositive(Spelling(f)))
        else if f.WrapperPid? && n >= U32 then Err(PidOutOfRange(n))
        else Ok(Number(n))
  }

  /** What a numeric flag accepts, and what it calls the rest; a text flag accepts anything. */
  lemma ValuesExactly(f: Flag, v: string, n: nat)
    ensures var seconds := f in {PollIntervalSecs, IdleShutdownSecs, SecondaryGraceSecs, ContainerStopGraceSecs};
            var bound := if f == WrapperPid then 4294967296 else 18446744073709551616;
            if seconds || f == WrapperPid then
              && (Convert(f, v) == Ok(Number(n)) <==> Writes(v, n) && 1 <= n < bound)
              && (Convert(f, v) == Err(MustBePositive(Spelling(f))) <==> Writes(v, 0))
              && (Convert(f, v) == Err(PidOutOfRange(n)) <==>
                    f == WrapperPid && Writes(v, n) && 4294967296 <= n < 18446744073709551616)
              && (Convert(f, v) == Err(ExpectsPositiveInteger(Spelling(f), v)) <==>
                    forall k: nat :: k < 18446744073709551616 ==> !Writes(v, k))
            else Convert(f, v) == Ok(Text(v))
  {
    NumbersExactly(v, n);
    NumbersExactly(v, 0);
    forall k: nat | k < 18446744073709551616 ensures Writes(v, k) <==> ParseU64(v) == Some(k) {
      NumbersExactly(v, k);
    }
  }

  datatype Config = Config(
    containerName: string, storageRoot: string, runroot: string, tmpPrefix: string, pidFile: string,
    pollInterval: nat, idleShutdown: nat, secondaryGrace: nat, containerStopGrace: nat,
    wrapperPid: Option<nat>, logFile: Option<string>, podmanPath: string, rmPath: string, panikFile: Option<string>)

  function TextOr(b: Builder, f: Flag, default: string): string {
    if f in b && b[f].Text? then b[f].text else default
  }

  function TextOption(b: Builder, f: Flag): Option<string> {
    if f in b && b[f].Text? then Some(b[f].text) else None
  }

  function NumberOr(b: Builder, f: Flag, default: nat): nat {
    if f in b && b[f].Number? then b[f].number else default
  }

  function Finish(b: Builder): Result<Config, ParseError> {
    if ContainerName !in b then Err(Missing("--container-name"))
    else if StorageRoot !in b then Err(Missing("--storage-root"))
    else if Runroot !in b then Err(Missing("--runroot"))
    else if TmpPrefix !in b then Err(Missing("--tmp-prefix"))
    else if PidFile !in b then Err(Missing("--pid-file"))
    else Ok(Config(
      TextOr(b, ContainerName, ""), TextOr(b, StorageRoot, ""), TextOr(b, Runroot, ""), TextOr(b, TmpPrefix, ""),
      TextOr(b, PidFile, ""),
      NumberOr(b, PollIntervalSecs, 2), NumberOr(b, IdleShutdownSecs, 5), NumberOr(b, SecondaryGraceSecs, 5),
      NumberOr(b, ContainerStopGraceSecs, 10),
      if WrapperPid in b && b[WrapperPid].Number? then Some(b[WrapperPid].number) else None,
      TextOption(b, LogFile), TextOr(b, PodmanPath, "podman"), TextOr(b, RmPath, "rm"), TextOption(b, PanikFile)))
  }

  /** The key before the first `=`, and what follows it, if there is one. */
  function SplitFlag(raw: string): (string, Option<string>) {
    if raw == [] then ([], None)
    else if raw[0] == '=' then ([], Some(raw[1..]))
    else var (key, value) := SplitFlag(raw[1..]); ([raw[0]] + key, value)
  }

  // ---------------------------------------------------------------------
  // Reading the arguments
  // ---------------------------------------------------------------------

  datatype Scanned =
    | Done(b: Builder)
    | Awaiting(b: Builder, key: string, f: Flag)
    | Failed(e: ParseError)

  function Store(b: Builder, f: Flag, v: string): Scanned {
    match Convert(f, v)
    case Err(e) => Failed(e)
    case Ok(x) => Done(b[f := x])
  }

  /** What one more token does to a scan. */
  function Feed(s: Scanned, token: string): Scanned {
    match s
    case Failed(_) => s
    case Awaiting(b, _, f) => Store(b, f, token)
    case Done(b) =>
      var (key, value) := SplitFlag(token);
      match FlagOf(key)
      case None => Failed(UnknownFlag(key))
      case Some(f) => if value.Some? then Store(b, f, value.value) else Awaiting(b, key, f)
  }

  function Scan(s: Scanned, args: seq<string>): Scanned
    decreases |args|
  {
    if args == [] then s else Scan(Feed(s, args[0]), args[1..])
  }

  function Conclude(s: Scanned): Result<Config, ParseError> {
    match s
    case Done(b) => Finish(b)
    case Awaiting(_, key, _) => Err(RequiresValue(key))
    case Failed(e) => Err(e)
  }

  function Parse(args: seq<string>): Result<Config, ParseError> {
    Conclude(Scan(Done(map[]), args))
  }

  lemma {:induction false} FailedStaysFailed(e: ParseError, args: seq<string>)
    ensures Scan(Failed(e), args) == Failed(e)
  {
    if args != [] { FailedStaysFailed(e, args[1..]); }
  }

  /** The loop, which takes a flag and its value together, agrees with the
      token-by-token scan. */
  method ParseArgs(args: seq<string>) returns (r: Result<Config, ParseError>)
    ensures r == Parse(args)
  {
    var b: Builder := map[];
    var i := 0;
    while i < |args|
      invariant 0 <= i <= |args|
      invariant Parse(args) == Conclude(Scan(Done(b), args[i..]))
    {
      var (key, inline) := SplitFlag(args[i]);
      assert args[i..][1..] == args[i + 1..];
      i := i + 1;
      var flag := FlagOf(key);
      if flag.None? {
        FailedStaysFailed(UnknownFlag(key), args[i..]);
        return Err(UnknownFlag(key));
      }
      var v;
      if inline.Some? {
        v := inline.value;
      } else if i < |args| {
        v := args[i];
        assert args[i..][1..] == args[i + 1..];
        i := i + 1;
      } else {
        return Err(RequiresValue(key));
      }
      var x := Convert(flag.value, v);
      if x.Err? {
        FailedStaysFailed(x.error, args[i..]);
        return Err(x.error);
      }
      b := b[flag.value := x.value];
    }
    return Finish(b);
  }

  // ---------------------------------------------------------------------
  // Two spellings, one meaning
  // ---------------------------------------------------------------------

  lemma {:induction false} ScanConcat(s: Scanned, a: seq<string>, b: seq<string>)
    ensures Scan(s, a + b) == Scan(Scan(s, a), b)
    decreases |a|
  {
    if a == [] {
      assert a + b == b;
    } else {
      assert (a + b)[1..] == a[1..] + b;
      ScanConcat(Feed(s, a[0]), a[1..], b);
    }
  }

  lemma {:induction false} SplitJoined(key: string, v: string)
    requires '=' !in key
    ensures SplitFlag(key + "=" + v) == (key, Some(v))
    ensures SplitFlag(key) == (key, None)
  {
    var raw := key + "=" + v;
    if key == [] {
      assert raw[1..] == v;
    } else {
      assert raw[1..] == key[1..] + "=" + v;
      SplitJoined(key[1..], v);
      assert key == [key[0]] + key[1..];
    }
  }

  /** `--flag value` or `--flag=value`. */
  function Spell(f: Flag, v: string, inline: bool): seq<string> {
    if inline then [Spelling(f) + "=" + v] else [Spelling(f), v]
  }

  lemma SpellStores(s: Scanned, f: Flag, v: string, inline: bool)
    ensures s.Done? ==> Scan(s, Spell(f, v, inline)) == Store(s.b, f, v)
    ensures s.Failed? ==> Scan(s, Spell(f, v, inline)) == s
  {
    FlagTable(f);
    FlagHasNoEquals(f);
    SplitJoined(Spelling(f), v);
    ScanOne(s, Spelling(f) + "=" + v);
    ScanOne(s, Spelling(f));
    ScanOne(Feed(s, Spelling(f)), v);
    ScanConcat(s, [Spelling(f)], [v]);
    assert [Spelling(f)] + [v] == [Spelling(f), v];
  }

  lemma ScanOne(s: Scanned, token: string)
    ensures Scan(s, [token]) == Feed(s, token)
  {
  }

  /** Wherever a flag is expected, respelling a pair changes nothing: not the
      configuration, not the error, whatever the value contains. */
  lemma RespellingIsInvisible(pre: seq<string>, f: Flag, v: string, post: seq<string>)
    requires !Scan(Done(map[]), pre).Awaiting?
    ensures Parse(pre + [Spelling(f), v] + post) == Parse(pre + [Spelling(f) + "=" + v] + post)
  {
    var s := Scan(Done(map[]), pre);
    SpellStores(s, f, v, true);
    SpellStores(s, f, v, false);
    ScanConcat(Done(map[]), pre, [Spelling(f), v]);
    ScanConcat(Done(map[]), pre, [Spelling(f) + "=" + v]);
    ScanConcat(Done(map[]), pre + [Spelling(f), v], post);
    ScanConcat(Done(map[]), pre + [Spelling(f) + "=" + v], post);
  }

  /** A flag with its value, and whether they are one token. */
  datatype Pair = Pair(flag: Flag, text: string, inline: bool)

  function Written(p: Pair): seq<string> {
    Spell(p.flag, p.text, p.inline)
  }

  /** A command line of such pairs. */
  function Render(pairs: seq<Pair>): seq<string> {
    if pairs == [] then [] else Render(pairs[..|pairs| - 1]) + Written(pairs[|pairs| - 1])
  }

  /** The value the last occurrence of a flag carries. */
  function Last(pairs: seq<Pair>, f: Flag): Option<string> {
    if pairs == [] then None
    else if pairs[|pairs| - 1].flag == f then Some(pairs[|pairs| - 1].text)
    else Last(pairs[..|pairs| - 1], f)
  }

  ghost predicate AllConvert(pairs: seq<Pair>) {
    forall i :: 0 <= i < |pairs| ==> Convert(pairs[i].flag, pairs[i].text).Ok?
  }

  /** The builder holds, for each flag, the value its last occurrence converts to. */
  ghost predicate HoldsLast(pairs: seq<Pair>, b: Builder) {
    forall f: Flag :: HoldsFor(pairs, b, f)
  }

  ghost predicate HoldsFor(pairs: seq<Pair>, b: Builder, f: Flag) {
    && (f in b <==> Last(pairs, f).Some?)
    && (f in b ==> Convert(f, Last(pairs, f).value) == Ok(b[f]))
  }

  lemma StoreHoldsLast(front: seq<Pair>, b: Builder, p: Pair, x: Value)
    requires HoldsLast(front, b) && Convert(p.flag, p.text) == Ok(x)
    ensures HoldsLast(front + [p], b[p.flag := x])
  {
    var pairs, b' := front + [p], b[p.flag := x];
    assert pairs[..|pairs| - 1] == front;
    forall f: Flag ensures HoldsFor(pairs, b', f) {
      assert HoldsFor(front, b, f);
      assert Last(pairs, f) == if p.flag == f then Some(p.text) else Last(front, f);
    }
  }

  /** The error of the first value that does not convert. */
  function Trouble(pairs: seq<Pair>): Option<ParseError> {
    if pairs == [] then None
    else
      var p := pairs[|pairs| - 1];
      match Trouble(pairs[..|pairs| - 1])
      case Some(e) => Some(e)
      case None => match Convert(p.flag, p.text) case Err(e) => Some(e) case Ok(_) => None
  }

  lemma {:induction false} TroubleConcat(a: seq<Pair>, b: seq<Pair>)
    ensures Trouble(a + b) == if Trouble(a).Some? then Trouble(a) else Trouble(b)
  {
    if b == [] {
      assert a + b == a;
    } else {
      assert (a + b)[..|a + b| - 1] == a + b[..|b| - 1];
      TroubleConcat(a, b[..|b| - 1]);
    }
  }

  lemma TroubleOfOne(p: Pair)
    ensures Trouble([p]) == match Convert(p.flag, p.text) case Err(e) => Some(e) case Ok(_) => None
  {
    assert [p][..0] == [];
  }

  lemma {:induction false} NoTroubleIfAllConvert(pairs: seq<Pair>)
    ensures Trouble(pairs).None? <==> AllConvert(pairs)
  {
    if pairs != [] {
      NoTroubleIfAllConvert(pairs[..|pairs| - 1]);
      assert pairs == pairs[..|pairs| - 1] + [pairs[|pairs| - 1]];
    }
  }

  /** Scanning any rendering: the last occurrence of each flag wins; otherwise
      the first value that does not convert is reported. */
  ghost predicate ScansTo(pairs: seq<Pair>, s: Scanned) {
    match Trouble(pairs)
    case Some(e) => s == Failed(e)
    case None => s.Done? && HoldsLast(pairs, s.b)
  }

  lemma ScansOn(front: seq<Pair>, s: Scanned, p: Pair, s': Scanned)
    requires ScansTo(front, s)
    requires s' == if s.Done? then Store(s.b, p.flag, p.text) else s
    ensures ScansTo(front + [p], s')
  {
    TroubleConcat(front, [p]);
    TroubleOfOne(p);
    if Trouble(front).None? && Convert(p.flag, p.text).Ok? {
      StoreHoldsLast(front, s.b, p, Convert(p.flag, p.text).value);
    }
  }

  lemma {:induction false} ScanRendered(pairs: seq<Pair>)
    ensures ScansTo(pairs, Scan(Done(map[]), Render(pairs)))
  {
    if pairs != [] {
      var front, p := pairs[..|pairs| - 1], pairs[|pairs| - 1];
      ScanRendered(front);
      ScanNext(Render(front), p);
      ScansOn(front, Scan(Done(map[]), Render(front)), p, Scan(Done(map[]), Render(pairs)));
      assert front + [p] == pairs;
    }
  }

  lemma ScanNext(args: seq<string>, p: Pair)
    ensures var s := Scan(Done(map[]), args);
            !s.Awaiting? ==>
              Scan(Done(map[]), args + Written(p)) == if s.Done? then Store(s.b, p.flag, p.text) else s
  {
    SpellStores(Scan(Done(map[]), args), p.flag, p.text, p.inline);
    ScanConcat(Done(map[]), args, Written(p));
  }

  /** Spelling, repetition before the last occurrence and the order of distinct
      flags are all invisible: two command lines whose values convert and whose
      last values agree give the same result. */
  lemma LastOccurrencesDecide(p: seq<Pair>, q: seq<Pair>)
    requires Trouble(p).None? && Trouble(q).None? && forall f: Flag :: Last(p, f) == Last(q, f)
    ensures Parse(Render(p)) == Parse(Render(q))
  {
    ScanRendered(p);
    ScanRendered(q);
    var a, b := Scan(Done(map[]), Render(p)).b, Scan(Done(map[]), Render(q)).b;
    forall f: Flag ensures (f in a <==> f in b) && (f in a ==> a[f] == b[f]) {
      assert HoldsFor(p, a, f) && HoldsFor(q, b, f);
    }
    assert a == b;
  }

  lemma {:induction false} LastIgnoresSwap(p: seq<Pair>, x: Pair, y: Pair, q: seq<Pair>, f: Flag)
    requires x.flag != y.flag
    ensures Last(p + [x, y] + q, f) == Last(p + [y, x] + q, f)
  {
    var a, b := p + [x, y] + q, p + [y, x] + q;
    if q == [] {
      assert a[..|a| - 1] == p + [x] && b[..|b| - 1] == p + [y];
      assert (p + [x])[..|p|] == p && (p + [y])[..|p|] == p;
    } else {
      var q' := q[..|q| - 1];
      assert a[..|a| - 1] == p + [x, y] + q' && b[..|b| - 1] == p + [y, x] + q';
      LastIgnoresSwap(p, x, y, q', f);
    }
  }

  /** Two flags never give the same error. */
  lemma ErrorsNameTheirFlag(x: Pair, y: Pair)
    requires x.flag != y.flag && Convert(x.flag, x.text).Err? && Convert(y.flag, y.text).Err?
    ensures Convert(x.flag, x.text) != Convert(y.flag, y.text)
  {
    FlagTable(x.flag);
    FlagTable(y.flag);
  }

  /** Where neither neighbour, or only one, fails to convert, the first trouble is the same. */
  lemma SwappedTrouble(p: seq<Pair>, x: Pair, y: Pair, q: seq<Pair>)
    requires x.flag != y.flag
    ensures Trouble(p + [x, y] + q) != Trouble(p + [y, x] + q) <==>
            Trouble(p).None? && Convert(x.flag, x.text).Err? && Convert(y.flag, y.text).Err?
  {
    TroubleOfOne(x);
    TroubleOfOne(y);
    TroubleConcat([x], [y]);
    TroubleConcat([y], [x]);
    assert [x] + [y] == [x, y] && [y] + [x] == [y, x];
    TroubleConcat(p, [x, y]);
    TroubleConcat(p, [y, x]);
    TroubleConcat(p + [x, y], q);
    TroubleConcat(p + [y, x], q);
    if Convert(x.flag, x.text).Err? && Convert(y.flag, y.text).Err? {
      ErrorsNameTheirFlag(x, y);
    }
  }

  /** Swapping two neighbouring pairs of different flags, in any spelling, changes the
      result exactly when both fail to convert and nothing before them does: then the
      other failure is reported. */
  lemma DistinctFlagsCommuteExactly(p: seq<Pair>, x: Pair, y: Pair, q: seq<Pair>)
    requires x.flag != y.flag
    ensures Parse(Render(p + [x, y] + q)) != Parse(Render(p + [y, x] + q)) <==>
            AllConvert(p) && Convert(x.flag, x.text).Err? && Convert(y.flag, y.text).Err?
  {
    var a, b := p + [x, y] + q, p + [y, x] + q;
    SwappedTrouble(p, x, y, q);
    NoTroubleIfAllConvert(p);
    SameTroubleSameResult(a);
    SameTroubleSameResult(b);
    if Trouble(a).None? && Trouble(b).None? {
      forall f: Flag ensures Last(a, f) == Last(b, f) {
        LastIgnoresSwap(p, x, y, q, f);
      }
      LastOccurrencesDecide(a, b);
    }
  }

  /** Such neighbours exist. */
  lemma ErrorsDependOnOrder()
    ensures exists x: Pair, y: Pair :: x.flag != y.flag && Parse(Render([x, y])) != Parse(Render([y, x]))
  {
    var x, y := Pair(PollIntervalSecs, "", false), Pair(IdleShutdownSecs, "", false);
    DistinctFlagsCommuteExactly([], x, y, []);
    assert [] + [x, y] + [] == [x, y] && [] + [y, x] + [] == [y, x];
  }

  /** Trouble decides the error, and whatever error a missing flag gives is another one. */
  lemma SameTroubleSameResult(pairs: seq<Pair>)
    ensures Trouble(pairs).Some? ==> Parse(Render(pairs)) == Err(Trouble(pairs).value)
    ensures Trouble(pairs).Some? ==> !Trouble(pairs).value.Missing?
    ensures Trouble(pairs).None? ==> Parse(Render(pairs)).Ok? || Parse(Render(pairs)).error.Missing?
  {
    ScanRendered(pairs);
    TroubleIsNoMissing(pairs);
  }

  lemma {:induction false} TroubleIsNoMissing(pairs: seq<Pair>)
    ensures Trouble(pairs).Some? ==> !Trouble(pairs).value.Missing?
  {
    if pairs != [] { TroubleIsNoMissing(pairs[..|pairs| - 1]); }
  }

  // ---------------------------------------------------------------------
  // Every command line
  // ---------------------------------------------------------------------

  lemma {:induction false} SplitAgain(raw: string)
    ensures var (key, value) := SplitFlag(raw);
            '=' !in key && raw == key + (if value.Some? then "=" + value.value else "")
  {
    if raw != [] && raw[0] != '=' {
      SplitAgain(raw[1..]);
      assert raw == [raw[0]] + raw[1..];
    }
  }

  lemma FlagSpelled(key: string)
    ensures FlagOf(key).Some? ==> key == Spelling(FlagOf(key).value)
  {
  }

  /** Where a flag is expected and no complete pair stands: nothing more, a flag without
      its value, or something that is no flag. */
  predicate Loose(rest: seq<string>) {
    rest == [] || FlagOf(SplitFlag(rest[0]).0).None? || (|rest| == 1 && SplitFlag(rest[0]).1.None?)
  }

  lemma {:induction false} RenderCons(p: Pair, pairs: seq<Pair>)
    ensures Render([p] + pairs) == Written(p) + Render(pairs)
  {
    var all := [p] + pairs;
    if pairs == [] {
      assert all[..0] == [] && all == [p];
    } else {
      assert all[..|all| - 1] == [p] + pairs[..|pairs| - 1];
      RenderCons(p, pairs[..|pairs| - 1]);
    }
  }

  /** Every command line is a list of pairs, each spelled one way or the other, and what
      is loose at its end. */
  lemma {:induction false} EveryArgvIsARendering(args: seq<string>) returns (pairs: seq<Pair>, rest: seq<string>)
    ensures args == Render(pairs) + rest && Loose(rest)
    decreases |args|
  {
    if Loose(args) {
      pairs, rest := [], args;
    } else {
      var p, w := FirstPair(args);
      var more;
      more, rest := EveryArgvIsARendering(args[|w|..]);
      RenderCons(p, more);
      pairs := [p] + more;
      assert args == w + args[|w|..];
    }
  }

  lemma FirstPair(args: seq<string>) returns (p: Pair, w: seq<string>)
    requires !Loose(args)
    ensures w == Written(p) && w <= args && w != []
  {
    var (key, value) := SplitFlag(args[0]);
    SplitAgain(args[0]);
    FlagSpelled(key);
    if value.Some? {
      p := Pair(FlagOf(key).value, value.value, true);
      assert Written(p)[0] == args[0];
    } else {
      p := Pair(FlagOf(key).value, args[1], false);
      assert args[0] == key;
      assert Written(p) == [args[0], args[1]];
    }
    w := Written(p);
  }

  /** What a loose end is reported as. */
  function LooseEnd(rest: seq<string>): ParseError
    requires rest != []
  {
    var key := SplitFlag(rest[0]).0;
    if FlagOf(key).None? then UnknownFlag(key) else RequiresValue(key)
  }

  lemma ScanLoose(b: Builder, rest: seq<string>)
    requires Loose(rest) && rest != []
    ensures Conclude(Scan(Done(b), rest)) == Err(LooseEnd(rest))
  {
    var key := SplitFlag(rest[0]).0;
    if FlagOf(key).None? {
      FailedStaysFailed(UnknownFlag(key), rest[1..]);
    }
  }

  /** The fields of a configuration, flag by flag: a present flag supplies its
      last value, an absent one its documented default. */
  ghost predicate Reads(pairs: seq<Pair>, c: Config) {
    && Last(pairs, ContainerName) == Some(c.containerName)
    && Last(pairs, StorageRoot) == Some(c.storageRoot)
    && Last(pairs, Runroot) == Some(c.runroot)
    && Last(pairs, TmpPrefix) == Some(c.tmpPrefix)
    && Last(pairs, PidFile) == Some(c.pidFile)
    && c.pollInterval == NumberRead(pairs, PollIntervalSecs, 2)
    && c.idleShutdown == NumberRead(pairs, IdleShutdownSecs, 5)
    && c.secondaryGrace == NumberRead(pairs, SecondaryGraceSecs, 5)
    && c.containerStopGrace == NumberRead(pairs, ContainerStopGraceSecs, 10)
    && c.wrapperPid == (match Last(pairs, WrapperPid) case None => None case Some(v) => ParseU64(v))
    && c.logFile == Last(pairs, LogFile)
    && c.podmanPath == TextRead(pairs, PodmanPath, "podman")
    && c.rmPath == TextRead(pairs, RmPath, "rm")
    && c.panikFile == Last(pairs, PanikFile)
  }

  function TextRead(pairs: seq<Pair>, f: Flag, default: string): string {
    match Last(pairs, f) case None => default case Some(v) => v
  }

  function NumberRead(pairs: seq<Pair>, f: Flag, default: nat): nat {
    match Last(pairs, f)
    case None => default
    case Some(v) => if ParseU64(v).Some? then ParseU64(v).value else 0
  }

  ghost predicate HasRequired(pairs: seq<Pair>) {
    && Last(pairs, ContainerName).Some? && Last(pairs, StorageRoot).Some? && Last(pairs, Runroot).Some?
    && Last(pairs, TmpPrefix).Some? && Last(pairs, PidFile).Some?
  }

  lemma TextFor(pairs: seq<Pair>, b: Builder, f: Flag, default: string)
    requires HoldsFor(pairs, b, f) && !IsNumeric(f)
    ensures TextOr(b, f, default) == TextRead(pairs, f, default) && TextOption(b, f) == Last(pairs, f)
    ensures f in b ==> Last(pairs, f) == Some(TextOr(b, f, default))
  {
  }

  lemma NumberFor(pairs: seq<Pair>, b: Builder, f: Flag, default: nat)
    requires HoldsFor(pairs, b, f) && IsNumeric(f)
    ensures NumberOr(b, f, default) == NumberRead(pairs, f, default)
    ensures f in b ==> b[f].Number? && ParseU64(Last(pairs, f).value) == Some(b[f].number)
  {
  }

  lemma FinishReads(pairs: seq<Pair>, b: Builder)
    requires HoldsLast(pairs, b)
    ensures var r := Finish(b); (r.Ok? <==> HasRequired(pairs)) && (r.Ok? ==> Reads(pairs, r.value))
  {
    assert forall f: Flag :: HoldsFor(pairs, b, f);
    TextFor(pairs, b, ContainerName, "");
    TextFor(pairs, b, StorageRoot, "");
    TextFor(pairs, b, Runroot, "");
    TextFor(pairs, b, TmpPrefix, "");
    TextFor(pairs, b, PidFile, "");
    NumberFor(pairs, b, PollIntervalSecs, 2);
    NumberFor(pairs, b, IdleShutdownSecs, 5);
    NumberFor(pairs, b, SecondaryGraceSecs, 5);
    NumberFor(pairs, b, ContainerStopGraceSecs, 10);
    NumberFor(pairs, b, WrapperPid, 0);
    TextFor(pairs, b, LogFile, "");
    TextFor(pairs, b, PodmanPath, "podman");
    TextFor(pairs, b, RmPath, "rm");
    TextFor(pairs, b, PanikFile, "");
  }

  /** The flags that have no default, in the order they are missed. */
  const REQUIRED: seq<Flag> := [ContainerName, StorageRoot, Runroot, TmpPrefix, PidFile]

  ghost predicate FirstMissing(pairs: seq<Pair>, k: nat) {
    k < |REQUIRED| && Last(pairs, REQUIRED[k]).None? && forall j :: 0 <= j < k ==> Last(pairs, REQUIRED[j]).Some?
  }

  lemma FinishMisses(pairs: seq<Pair>, b: Builder)
    requires HoldsLast(pairs, b)
    ensures forall k: nat :: FirstMissing(pairs, k) ==> Finish(b) == Err(Missing(Spelling(REQUIRED[k])))
  {
    forall k: nat | FirstMissing(pairs, k) ensures Finish(b) == Err(Missing(Spelling(REQUIRED[k]))) {
      assert HoldsFor(pairs, b, REQUIRED[0]) && HoldsFor(pairs, b, REQUIRED[1]) && HoldsFor(pairs, b, REQUIRED[2])
             && HoldsFor(pairs, b, REQUIRED[3]) && HoldsFor(pairs, b, REQUIRED[4]);
      assert Last(pairs, REQUIRED[k]).None?;
      assert k > 0 ==> Last(pairs, REQUIRED[0]).Some?;
      assert k > 1 ==> Last(pairs, REQUIRED[1]).Some?;
      assert k > 2 ==> Last(pairs, REQUIRED[2]).Some?;
      assert k > 3 ==> Last(pairs, REQUIRED[3]).Some?;
    }
  }

  /** The meaning of every command line: read as pairs and a loose end, it reports the
      first value that does not convert, else its loose end, else the first missing
      required flag, and otherwise succeeds with exactly the readings of its last values. */
  lemma ParseMeaning(args: seq<string>) returns (pairs: seq<Pair>, rest: seq<string>)
    ensures args == Render(pairs) + rest && Loose(rest)
    ensures Trouble(pairs).Some? ==> Parse(args) == Err(Trouble(pairs).value)
    ensures Trouble(pairs).None? && rest != [] ==> Parse(args) == Err(LooseEnd(rest))
    ensures forall k: nat :: Trouble(pairs).None? && rest == [] && FirstMissing(pairs, k) ==>
              Parse(args) == Err(Missing(Spelling(REQUIRED[k])))
    ensures Parse(args).Ok? <==> AllConvert(pairs) && rest == [] && HasRequired(pairs)
    ensures Parse(args).Ok? ==> Reads(pairs, Parse(args).value)
  {
    pairs, rest := EveryArgvIsARendering(args);
    ScanRendered(pairs);
    ScanConcat(Done(map[]), Render(pairs), rest);
    NoTroubleIfAllConvert(pairs);
    var s := Scan(Done(map[]), Render(pairs));
    if Trouble(pairs).Some? {
      FailedStaysFailed(s.e, rest);
    } else if rest != [] {
      ScanLoose(s.b, rest);
    } else {
      FinishReads(pairs, s.b);
      FinishMisses(pairs, s.b);
    }
  }

  /** Hence a configuration depends on nothing but the last value of each flag: two
      command lines that parse, and whose last values agree, give the same one. */
  lemma SameLastValuesSameConfig(a: seq<string>, b: seq<string>) returns (p: seq<Pair>, q: seq<Pair>)
    requires Parse(a).Ok? && Parse(b).Ok?
    ensures a == Render(p) && b == Render(q)
    ensures (forall f: Flag :: Last(p, f) == Last(q, f)) ==> Parse(a) == Parse(b)
  {
    var r, r';
    p, r := ParseMeaning(a);
    q, r' := ParseMeaning(b);
    assert a == Render(p) && b == Render(q);
    NoTroubleIfAllConvert(p);
    NoTroubleIfAllConvert(q);
    if forall f: Flag :: Last(p, f) == Last(q, f) {
      LastOccurrencesDecide(p, q);
    }
  }
}
