/**
 POSIX shell quoting (crates/dynrunner-gateway/src/shell.rs), against a
 tokenizer that follows the quoting and token rules of sections 2.2.1, 2.2.2
 and 2.3 of the POSIX Shell Command Language (IEEE Std 1003.1).
 */
module ShellQuote {
  import opened Wrappers

  // ---------------------------------------------------------------------
  // The shell's reading of a command line
  // ---------------------------------------------------------------------

  datatype Mode = Unquoted | SingleQuoted | Escaped

  /** Words read so far and the word being read, if one has begun. */
  datatype Reading = Reading(words: seq<string>, word: Option<string>, mode: Mode)

  predicate IsBlank(c: char) {
    c == ' ' || c == '\t'
  }

  /** Characters that, unquoted, mean more than themselves: operators, expansion,
      double quotes, comments, newlines and patterns. */
  predicate IsSpecial(c: char) {
    c in "|&;<>()$`\"\n*?[#~=%!{}"
  }

  function Append(r: Reading, c: char): Reading {
    r.(word := Some((if r.word.Some? then r.word.value else "") + [c]),
       mode := if r.mode.Escaped? then Unquoted else r.mode)
  }

  /** One character; `None` when it would be more than literal text. */
  function Consume(r: Reading, c: char): Option<Reading> {
    match r.mode
    case SingleQuoted => if c == '\'' then Some(r.(mode := Unquoted)) else Some(Append(r, c))
    case Escaped => if c == '\n' then Some(r.(mode := Unquoted)) else Some(Append(r, c))
    case Unquoted =>
      if c == '\'' then Some(r.(mode := SingleQuoted, word := Some(if r.word.Some? then r.word.value else "")))
      else if c == '\\' then Some(r.(mode := Escaped))
      else if IsBlank(c) then
        Some(if r.word.Some? then Reading(r.words + [r.word.value], None, Unquoted) else r)
      else if IsSpecial(c) then None
      else Some(Append(r, c))
  }

  function Read(r: Reading, s: string): Option<Reading>
    decreases |s|
  {
    if s == [] then Some(r)
    else match Consume(r, s[0])
      case None => None
      case Some(r') => Read(r', s[1..])
  }

  /** The words of a complete command line of literal text. */
  function Tokenize(s: string): Option<seq<string>> {
    match Read(Reading([], None, Unquoted), s)
    case Some(Reading(words, word, Unquoted)) => Some(words + if word.Some? then [word.value] else [])
    case _ => None
  }

  // ---------------------------------------------------------------------
  // Quoting
  // ---------------------------------------------------------------------

  function Escape(s: string): string {
    if s == [] then []
    else Escape(s[..|s| - 1]) + if s[|s| - 1] == '\'' then "'\\''" else [s[|s| - 1]]
  }

  function Quoted(s: string): string {
    "'" + Escape(s) + "'"
  }

  function Joined(parts: seq<string>): string {
    if parts == [] then []
    else if |parts| == 1 then Quoted(parts[0])
    else Joined(parts[..|parts| - 1]) + " " + Quoted(parts[|parts| - 1])
  }

  method QuoteWord(s: string) returns (out: string)
    ensures out == Quoted(s)
  {
    out := "'";
    for i := 0 to |s|
      invariant out == "'" + Escape(s[..i])
    {
      assert s[..i + 1][..i] == s[..i];
      if s[i] == '\'' {
        out := out + "'\\''";
      } else {
        out := out + [s[i]];
      }
    }
    assert s[..|s|] == s;
    out := out + "'";
  }

  method JoinWords(parts: seq<string>) returns (out: string)
    ensures out == Joined(parts)
  {
    out := "";
    var first := true;
    for i := 0 to |parts|
      invariant out == Joined(parts[..i])
      invariant first <==> i == 0
    {
      assert parts[..i + 1][..i] == parts[..i];
      if !first {
        out := out + " ";
      }
      first := false;
      var q := QuoteWord(parts[i]);
      out := out + q;
    }
    assert parts[..|parts|] == parts;
  }

  // ---------------------------------------------------------------------
  // The round trip
  // ---------------------------------------------------------------------

  lemma {:induction false} ReadConcat(r: Reading, a: string, b: string)
    requires Read(r, a).Some?
    ensures Read(r, a + b) == Read(Read(r, a).value, b)
    decreases |a|
  {
    if a == [] {
      assert a + b == b;
    } else {
      assert (a + b)[1..] == a[1..] + b;
      ReadConcat(Consume(r, a[0]).value, a[1..], b);
    }
  }

  lemma ReadOne(r: Reading, c: char)
    ensures Read(r, [c]) == Consume(r, c)
  {
  }

  /** Leaving the quotes, escaping one quote and entering them again adds one quote. */
  lemma ReadEscapedQuote(words: seq<string>, w: string)
    ensures Read(Reading(words, Some(w), SingleQuoted), "'\\''") == Some(Reading(words, Some(w + "'"), SingleQuoted))
  {
  }

  lemma {:induction false} ReadEscape(words: seq<string>, w: string, s: string)
    ensures Read(Reading(words, Some(w), SingleQuoted), Escape(s)) == Some(Reading(words, Some(w + s), SingleQuoted))
  {
    var r := Reading(words, Some(w), SingleQuoted);
    if s == [] {
      assert w + s == w;
    } else {
      var front, c := s[..|s| - 1], s[|s| - 1];
      ReadEscape(words, w, front);
      ReadConcat(r, Escape(front), if c == '\'' then "'\\''" else [c]);
      assert w + front + [c] == w + s;
      if c == '\'' {
        ReadEscapedQuote(words, w + front);
      } else {
        ReadOne(Reading(words, Some(w + front), SingleQuoted), c);
      }
    }
  }

  /** From the unquoted state the shell reads a quoted string back to the
      unquoted state, with exactly that string appended to the current word. */
  lemma ReadQuoted(words: seq<string>, word: Option<string>, s: string)
    ensures Read(Reading(words, word, Unquoted), Quoted(s))
         == Some(Reading(words, Some((if word.Some? then word.value else "") + s), Unquoted))
  {
    var w := if word.Some? then word.value else "";
    var r := Reading(words, word, Unquoted);
    ReadOne(r, '\'');
    ReadConcat(r, "'", Escape(s));
    ReadEscape(words, w, s);
    ReadConcat(r, "'" + Escape(s), "'");
    ReadOne(Reading(words, Some(w + s), SingleQuoted), '\'');
  }

  lemma {:induction false} ReadJoined(parts: seq<string>)
    requires parts != []
    ensures Read(Reading([], None, Unquoted), Joined(parts))
         == Some(Reading(parts[..|parts| - 1], Some(parts[|parts| - 1]), Unquoted))
  {
    var start := Reading([], None, Unquoted);
    var front, last := parts[..|parts| - 1], parts[|parts| - 1];
    if |parts| == 1 {
      ReadQuoted([], None, last);
      assert front == [] && "" + last == last;
    } else {
      ReadJoined(front);
      var held := front[..|front| - 1];
      ReadConcat(start, Joined(front), " ");
      ReadOne(Reading(held, Some(front[|front| - 1]), Unquoted), ' ');
      assert held + [front[|front| - 1]] == front;
      ReadConcat(start, Joined(front) + " ", Quoted(last));
      ReadQuoted(front, None, last);
      assert "" + last == last;
    }
  }

  /** Whatever the arguments contain, the shell reads a joined command line back
      as exactly those arguments. */
  lemma JoinRoundTrips(parts: seq<string>)
    ensures Tokenize(Joined(parts)) == Some(parts)
  {
    if parts != [] {
      ReadJoined(parts);
      assert parts[..|parts| - 1] + [parts[|parts| - 1]] == parts;
    }
  }

  /** Hence no two argument lists share a command line. */
  lemma JoinIsInjective(a: seq<string>, b: seq<string>)
    requires Joined(a) == Joined(b)
    ensures a == b
  {
    JoinRoundTrips(a);
    JoinRoundTrips(b);
  }

  // ---------------------------------------------------------------------
  // Against Python's shlex.join
  // ---------------------------------------------------------------------

  /** The characters Python's `shlex.quote` leaves bare. */
  predicate IsSafe(c: char) {
    'a' <= c <= 'z' || 'A' <= c <= 'Z' || '0' <= c <= '9' || c in "_@%+=:,./-"
  }

  predicate AllSafe(s: string) {
    forall i :: 0 <= i < |s| ==> IsSafe(s[i])
  }

  function ShlexEscape(s: string): string {
    if s == [] then []
    else ShlexEscape(s[..|s| - 1]) + if s[|s| - 1] == '\'' then "'\"'\"'" else [s[|s| - 1]]
  }

  function ShlexQuoted(s: string): string {
    if s == [] then "''" else if AllSafe(s) then s else "'" + ShlexEscape(s) + "'"
  }

  function ShlexJoined(parts: seq<string>): string {
    if parts == [] then []
    else if |parts| == 1 then ShlexQuoted(parts[0])
    else ShlexQuoted(parts[0]) + (" " + ShlexJoined(parts[1..]))
  }

  /** Parts the two write alike: empty, or in need of quotes and free of quotes. */
  predicate QuotedAlike(s: string) {
    s == [] || (!AllSafe(s) && '\'' !in s)
  }

  lemma {:induction false} NothingToEscape(s: string)
    requires '\'' !in s
    ensures Escape(s) == s && ShlexEscape(s) == s
  {
    if s != [] {
      NothingToEscape(s[..|s| - 1]);
      assert s == s[..|s| - 1] + [s[|s| - 1]];
    }
  }

  lemma {:induction false} EscapeConcat(a: string, b: string)
    ensures Escape(a + b) == Escape(a) + Escape(b) && ShlexEscape(a + b) == ShlexEscape(a) + ShlexEscape(b)
  {
    if b == [] {
      assert a + b == a;
    } else {
      assert (a + b)[..|a + b| - 1] == a + b[..|b| - 1];
      EscapeConcat(a, b[..|b| - 1]);
    }
  }

  lemma {:induction false} FirstQuote(s: string) returns (k: nat)
    requires '\'' in s
    ensures k < |s| && s[k] == '\'' && '\'' !in s[..k]
  {
    if s[0] == '\'' {
      k := 0;
    } else {
      var k' := FirstQuote(s[1..]);
      k := k' + 1;
      assert s[..k] == [s[0]] + s[1..][..k'];
    }
  }

  /** At its first quote the two spellings part for good. */
  lemma EscapesPart(s: string, k: nat)
    requires k < |s| && s[k] == '\'' && '\'' !in s[..k]
    ensures |Escape(s)| > k + 1 && Escape(s)[k + 1] == '\\'
    ensures |ShlexEscape(s)| > k + 1 && ShlexEscape(s)[k + 1] == '"'
  {
    var front, back := s[..k], s[k + 1..];
    assert s == front + ("'" + back);
    EscapeConcat(front, "'" + back);
    EscapeConcat("'", back);
    NothingToEscape(front);
    OneQuote();
    SecondAfter(front, "'\\''", Escape(back));
    SecondAfter(front, "'\"'\"'", ShlexEscape(back));
  }

  lemma SecondAfter(a: string, b: string, c: string)
    requires |b| >= 2
    ensures |a + (b + c)| > |a| + 1 && (a + (b + c))[|a| + 1] == b[1]
  {
  }

  lemma OneQuote()
    ensures Escape("'") == "'\\''" && ShlexEscape("'") == "'\"'\"'"
  {
    assert "'"[..0] == [];
  }

  /** A part not written alike shows, whatever follows it. */
  lemma DifferenceShows(s: string, x: string, y: string)
    requires !QuotedAlike(s)
    ensures Quoted(s) + x != ShlexQuoted(s) + y
  {
    var a, b := Quoted(s) + x, ShlexQuoted(s) + y;
    if AllSafe(s) {
      assert a[0] == '\'' && b[0] == s[0] && IsSafe(s[0]);
    } else {
      var k := FirstQuote(s);
      EscapesPart(s, k);
      assert a[k + 2] == Escape(s)[k + 1] && b[k + 2] == ShlexEscape(s)[k + 1];
    }
  }

  lemma AlikeIsEqual(s: string)
    requires QuotedAlike(s)
    ensures Quoted(s) == ShlexQuoted(s)
  {
    if s != [] { NothingToEscape(s); }
  }

  lemma {:induction false} JoinedCons(p: string, rest: seq<string>)
    requires rest != []
    ensures Joined([p] + rest) == Quoted(p) + (" " + Joined(rest))
  {
    var all, front, last := [p] + rest, rest[..|rest| - 1], rest[|rest| - 1];
    assert all[..|all| - 1] == [p] + front && all[|all| - 1] == last;
    if front == [] {
      assert rest == [last] && [p] + front == [p];
    } else {
      JoinedCons(p, front);
      assert Joined(all) == Quoted(p) + (" " + Joined(front)) + " " + Quoted(last);
    }
  }

  /** The documented equivalence with `shlex.join`, as text: it holds exactly when every
      part is empty, or needs quotes and contains none. */
  lemma {:induction false} JoinsAgreeExactly(parts: seq<string>)
    ensures Joined(parts) == ShlexJoined(parts) <==> forall i :: 0 <= i < |parts| ==> QuotedAlike(parts[i])
  {
    if parts != [] {
      var p, rest := parts[0], parts[1..];
      assert parts == [p] + rest;
      if rest != [] { JoinedCons(p, rest); }
      JoinsAgreeExactly(rest);
      var x, y := if rest == [] then "" else " " + Joined(rest), if rest == [] then "" else " " + ShlexJoined(rest);
      if QuotedAlike(p) {
        AlikeIsEqual(p);
        TailsDecide(Quoted(p), x, y);
        assert x == y <==> Joined(rest) == ShlexJoined(rest) by {
          if rest != [] { TailsDecide(" ", Joined(rest), ShlexJoined(rest)); }
        }
        assert (forall i :: 0 <= i < |parts| ==> QuotedAlike(parts[i])) <==>
               (forall i :: 0 <= i < |rest| ==> QuotedAlike(rest[i])) by {
          assert forall i :: 0 <= i < |rest| ==> rest[i] == parts[i + 1];
          assert forall i :: 0 < i < |parts| ==> parts[i] == rest[i - 1];
        }
      } else {
        DifferenceShows(p, x, y);
      }
    }
  }

  lemma TailsDecide(a: string, x: string, y: string)
    ensures a + x == a + y <==> x == y
  {
    if a + x == a + y {
      assert x == (a + x)[|a|..] && y == (a + y)[|a|..];
    }
  }
}
