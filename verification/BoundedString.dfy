/**
 The self-truncating string (crates/dynrunner-core/src/bounded_string.rs).  A
 string is its sequence of Unicode scalar values; what is capped is the length of
 its UTF-8 encoding.
 */
module BoundedString {

  type Byte = b: int | 0 <= b < 256

  type Bytes = seq<Byte>

  /** UTF-8 of one scalar value (section 3 of RFC 3629). */
  function EncodeChar(c: char): Bytes {
    var v := c as int;
    if v < 0x80 then [v]
    else if v < 0x800 then [0xC0 + v / 0x40, 0x80 + v % 0x40]
    else if v < 0x10000 then [0xE0 + v / 0x1000, 0x80 + v / 0x40 % 0x40, 0x80 + v % 0x40]
    else [0xF0 + v / 0x40000, 0x80 + v / 0x1000 % 0x40, 0x80 + v / 0x40 % 0x40, 0x80 + v % 0x40]
  }

  function Utf8(s: string): Bytes {
    if s == [] then [] else EncodeChar(s[0]) + Utf8(s[1..])
  }

  /** `char::len_utf8`. */
  function LenUtf8(c: char): nat {
    var v := c as int;
    if v < 0x80 then 1 else if v < 0x800 then 2 else if v < 0x10000 then 3 else 4
  }

  predicate IsContinuation(b: Byte) {
    0x80 <= b < 0xC0
  }

  /** `str::is_char_boundary`, read off the bytes alone. */
  predicate IsBoundary(bytes: Bytes, at: nat) {
    at == |bytes| || (at < |bytes| && !IsContinuation(bytes[at]))
  }

  lemma CharShape(c: char)
    ensures |EncodeChar(c)| == LenUtf8(c)
    ensures !IsContinuation(EncodeChar(c)[0])
    ensures forall i :: 1 <= i < |EncodeChar(c)| ==> IsContinuation(EncodeChar(c)[i])
  {
  }

  /** How many bits a form of `n` bytes carries. */
  function Room(n: nat): nat
    requires 1 <= n <= 4
  {
    match n case 1 => 0x80 case 2 => 0x800 case 3 => 0x10000 case 4 => 0x200000
  }

  /** The value a form carries: what its lead byte leaves free, then six bits a byte. */
  function Carried(b: Bytes): int
    requires 1 <= |b| <= 4
  {
    match |b|
    case 1 => b[0] as int
    case 2 => (b[0] as int - 0xC0) * 0x40 + (b[1] as int - 0x80)
    case 3 => ((b[0] as int - 0xE0) * 0x40 + (b[1] as int - 0x80)) * 0x40 + (b[2] as int - 0x80)
    case 4 => (((b[0] as int - 0xF0) * 0x40 + (b[1] as int - 0x80)) * 0x40 + (b[2] as int - 0x80)) * 0x40 + (b[3] as int - 0x80)
  }

  /** A character is written in the shortest form with room for it, which carries exactly
      its value; a single byte is the character itself, and only ASCII has one. */
  lemma CharExactly(c: char)
    ensures var (b, v) := (EncodeChar(c), c as int);
            && 1 <= |b| == LenUtf8(c) <= 4 && v < Room(|b|) && (|b| > 1 ==> Room(|b| - 1) <= v)
            && Carried(b) == v
            && (|b| == 1 <==> v < 128) && (|b| == 1 ==> b == [v])
  {
    var v := c as int;
    assert v == v / 0x40 * 0x40 + v % 0x40;
    assert v / 0x40 == v / 0x1000 * 0x40 + v / 0x40 % 0x40;
    assert v / 0x1000 == v / 0x40000 * 0x40 + v / 0x1000 % 0x40;
  }

  /** Which form it is, the lead byte tells: below 128, 192 and on, 224 and on, 240 and on. */
  lemma LeadByteTells(c: char)
    ensures var b := EncodeChar(c);
            && (|b| == 1 <==> b[0] < 0x80) && (|b| == 2 <==> 0xC2 <= b[0] < 0xE0)
            && (|b| == 3 <==> 0xE0 <= b[0] < 0xF0) && (|b| == 4 <==> 0xF0 <= b[0] < 0xF5)
  {
  }

  lemma {:induction false} Utf8Concat(a: string, b: string)
    ensures Utf8(a + b) == Utf8(a) + Utf8(b)
  {
    if a == [] {
      assert a + b == b;
    } else {
      assert (a + b)[1..] == a[1..] + b;
      Utf8Concat(a[1..], b);
    }
  }

  /** The bytes alone say where characters end: an offset is a boundary exactly when
      the bytes before it encode some number of whole characters. */
  lemma {:induction false} BoundariesAreCharacterEnds(s: string, at: nat)
    requires at <= |Utf8(s)|
    ensures IsBoundary(Utf8(s), at) <==> exists k :: 0 <= k <= |s| && |Utf8(s[..k])| == at
  {
    if s == [] {
      assert s[..0] == [];
      assert |Utf8(s[..0])| == at;
    } else {
      var first := EncodeChar(s[0]);
      CharShape(s[0]);
      assert Utf8(s) == first + Utf8(s[1..]);
      assert s[..0] == [] && |Utf8(s[..0])| == 0;
      forall k | 1 <= k <= |s| ensures |Utf8(s[..k])| == |first| + |Utf8(s[1..][..k - 1])| {
        assert s[..k][1..] == s[1..][..k - 1];
      }
      if at >= |first| {
        BoundariesAreCharacterEnds(s[1..], at - |first|);
        assert IsBoundary(Utf8(s), at) <==> IsBoundary(Utf8(s[1..]), at - |first|);
        if IsBoundary(Utf8(s), at) {
          var k :| 0 <= k <= |s[1..]| && |Utf8(s[1..][..k])| == at - |first|;
          assert |Utf8(s[..k + 1])| == |first| + |Utf8(s[1..][..(k + 1) - 1])|;
        } else {
          forall k | 0 <= k <= |s| ensures |Utf8(s[..k])| != at {
            if k > 0 {
              assert |Utf8(s[..k])| == |first| + |Utf8(s[1..][..k - 1])|;
            }
          }
        }
      }
    }
  }

  lemma {:induction false} PrefixLengthsGrow(s: string, i: nat, j: nat)
    requires i < j <= |s|
    ensures |Utf8(s[..i])| + LenUtf8(s[i]) <= |Utf8(s[..j])|
    ensures Utf8(s[..i]) <= Utf8(s[..j])
  {
    assert s[..j] == s[..i] + s[i..j];
    Utf8Concat(s[..i], s[i..j]);
    assert s[i..j][0] == s[i];
    CharShape(s[i]);
  }

  /** The documented truncation rule: whole characters from the front, at most `cap`
      bytes of them, and no longer prefix of whole characters fits. */
  ghost predicate LongestPrefix(r: string, s: string, cap: nat) {
    r <= s && |Utf8(r)| <= cap && forall p :: p <= s && |Utf8(p)| <= cap ==> |p| <= |r|
  }

  method TruncateInPlace(s: string, cap: nat) returns (r: string)
    ensures LongestPrefix(r, s, cap)
  {
    var len := ByteLength(s);
    if len <= cap {
      assert s[..|s|] == s;
      return s;
    }
    var i, end := 0, 0;
    assert s[..0] == [];
    while i < |s| && end + LenUtf8(s[i]) <= cap
      invariant 0 <= i <= |s|
      invariant end == |Utf8(s[..i])| <= cap
    {
      ByteLengthStep(s, i);
      end := end + LenUtf8(s[i]);
      i := i + 1;
    }
    r := s[..i];
    forall p | p <= s && |Utf8(p)| <= cap ensures |p| <= i {
      assert p == s[..|p|];
      if |p| > i {
        PrefixLengthsGrow(s, i, |p|);
      }
    }
  }

  lemma ByteLengthStep(s: string, i: nat)
    requires i < |s|
    ensures |Utf8(s[..i + 1])| == |Utf8(s[..i])| + LenUtf8(s[i])
  {
    assert s[..i + 1] == s[..i] + [s[i]];
    Utf8Concat(s[..i], [s[i]]);
    assert Utf8([s[i]]) == EncodeChar(s[i]);
    CharShape(s[i]);
  }

  method ByteLength(s: string) returns (n: nat)
    ensures n == |Utf8(s)|
  {
    n := 0;
    assert s[..0] == [];
    for i := 0 to |s|
      invariant n == |Utf8(s[..i])|
    {
      ByteLengthStep(s, i);
      n := n + LenUtf8(s[i]);
    }
    assert s[..|s|] == s;
  }

  // ---------------------------------------------------------------------
  // What the rule means for the bytes on the wire
  // ---------------------------------------------------------------------

  /** Seen from the bytes: the kept bytes are a prefix of the given ones, cut at a
      character boundary, and every boundary within the cap is at or before the cut. */
  lemma CutIsTheLastBoundary(s: string, cap: nat, r: string, at: nat)
    requires LongestPrefix(r, s, cap)
    ensures Utf8(r) <= Utf8(s) && IsBoundary(Utf8(s), |Utf8(r)|)
    ensures |Utf8(r)| < at <= cap && at <= |Utf8(s)| ==> !IsBoundary(Utf8(s), at)
  {
    PrefixIsACut(s, r);
    if |Utf8(r)| < at <= cap && at <= |Utf8(s)| && IsBoundary(Utf8(s), at) {
      BoundariesAreCharacterEnds(s, at);
      var k :| 0 <= k <= |s| && |Utf8(s[..k])| == at;
      CutsFitInside(s, cap, r, k);
    }
  }

  lemma CutsFitInside(s: string, cap: nat, r: string, k: nat)
    requires LongestPrefix(r, s, cap) && k <= |s| && |Utf8(s[..k])| <= cap
    ensures |Utf8(s[..k])| <= |Utf8(r)|
  {
    assert s[..k] <= s && r == s[..|r|];
    if k < |r| {
      PrefixLengthsGrow(s, k, |r|);
    }
  }

  lemma PrefixIsACut(s: string, r: string)
    requires r <= s
    ensures Utf8(r) <= Utf8(s) && IsBoundary(Utf8(s), |Utf8(r)|)
  {
    assert r == s[..|r|] && s == s[..|s|];
    if |r| < |s| {
      PrefixLengthsGrow(s, |r|, |s|);
    }
    BoundariesAreCharacterEnds(s, |Utf8(r)|);
  }

  /** A cut loses fewer than four bytes of the room, and nothing is cut from a string
      that fits. */
  lemma RoomLost(s: string, cap: nat, r: string)
    requires LongestPrefix(r, s, cap)
    ensures r == s <==> |Utf8(s)| <= cap
    ensures r != s ==> cap < |Utf8(r)| + LenUtf8(s[|r|]) <= |Utf8(r)| + 4
  {
    assert r == s[..|r|] && s == s[..|s|];
    if |Utf8(s)| <= cap {
      assert s <= s;
    }
    if |r| < |s| {
      ByteLengthStep(s, |r|);
      assert s[..|r| + 1] <= s;
    }
  }

  /** The cap applied again, on deserialising, changes nothing; a tighter cap applied
      afterwards is the tighter cap alone. */
  lemma CapsCompose(s: string, cap: nat, tighter: nat, r: string, r': string)
    requires tighter <= cap && LongestPrefix(r, s, cap) && LongestPrefix(r', r, tighter)
    ensures LongestPrefix(r', s, tighter)
    ensures tighter == cap ==> r' == r
  {
  }
}
