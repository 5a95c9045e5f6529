/** The parts of the Java platform the index servlet relies on: `null`, bytes,
    `Character.isWhitespace`, `String.isBlank`, `String.strip`,
    `String.equalsIgnoreCase` and `String.getBytes(UTF_8)`. */
module Java {

  /** A Java reference that may be `null`. */
  datatype Option<T> = None | Some(value: T)

  /** A Java `byte`, written as its unsigned value. */
  newtype byte = b: int | 0 <= b < 256

  /** `Character.isWhitespace`: the Unicode space, line and paragraph separators
      except the no-break spaces U+00A0, U+2007 and U+202F, together with the
      controls U+0009..U+000D and U+001C..U+001F. */
  predicate IsWhitespace(c: char) {
    ('\t' <= c <= '\r') || ('\U{1C}' <= c <= ' ')
    || c == '\U{1680}'
    || ('\U{2000}' <= c <= '\U{2006}') || ('\U{2008}' <= c <= '\U{200A}')
    || c == '\U{2028}' || c == '\U{2029}' || c == '\U{205F}' || c == '\U{3000}'
  }

  /** `String.isBlank`: empty, or whitespace only. */
  predicate IsBlank(s: string) {
    forall i :: 0 <= i < |s| ==> IsWhitespace(s[i])
  }

  /** `s` is `t` with nothing but whitespace before and after it. */
  ghost predicate WhitespaceFramed(s: string, t: string) {
    exists i :: 0 <= i <= |s| - |t| && s[i..i + |t|] == t && IsBlank(s[..i]) && IsBlank(s[i + |t|..])
  }

  /** `String.stripLeading`. */
  function StripLeading(s: string): (r: string)
    ensures |r| <= |s| && r == s[|s| - |r|..]
    ensures IsBlank(s[..|s| - |r|])
    ensures r == [] || !IsWhitespace(r[0])
  {
    if s != [] && IsWhitespace(s[0]) then
      var t := s[1..];
      var r := StripLeading(t);
      assert s[..|s| - |r|] == [s[0]] + t[..|t| - |r|];
      assert s[|s| - |r|..] == t[|t| - |r|..];
      r
    else
      s
  }

  /** `String.stripTrailing`. */
  function StripTrailing(s: string): (r: string)
    ensures |r| <= |s| && r == s[..|r|]
    ensures IsBlank(s[|r|..])
    ensures r == [] || !IsWhitespace(r[|r| - 1])
  {
    if s != [] && IsWhitespace(s[|s| - 1]) then
      var t := s[..|s| - 1];
      var r := StripTrailing(t);
      assert s[|r|..] == t[|r|..] + [s[|s| - 1]];
      assert s[..|r|] == t[..|r|];
      r
    else
      s
  }

  /** `String.strip`: all leading and all trailing whitespace removed. */
  function Strip(s: string): (r: string)
    ensures r == [] <==> IsBlank(s)
    ensures r == [] || (!IsWhitespace(r[0]) && !IsWhitespace(r[|r| - 1]))
    ensures WhitespaceFramed(s, r)
  {
    StripEmpty(s);
    StripFramed(s);
    StripTrailing(StripLeading(s))
  }

  /** `strip` leaves nothing exactly when the string is blank. */
  lemma StripEmpty(s: string)
    ensures StripTrailing(StripLeading(s)) == [] <==> IsBlank(s)
  {
    var lead := StripLeading(s);
    var i := |s| - |lead|;
    if StripTrailing(lead) == [] {
      assert s == s[..i] + lead;
      BlankConcat(s[..i], lead);
    }
  }

  /** `strip` leaves a piece of the string framed by whitespace. */
  lemma StripFramed(s: string)
    ensures WhitespaceFramed(s, StripTrailing(StripLeading(s)))
  {
    var lead := StripLeading(s);
    var r := StripTrailing(lead);
    var i := |s| - |lead|;
    assert lead == s[i..] && r == lead[..|r|];
    SliceOfSuffix(s, i, |r|);
    FramedAt(s, r, i);
  }

  /** A witness for `WhitespaceFramed`. */
  lemma FramedAt(s: string, t: string, i: nat)
    requires i + |t| <= |s| && s[i..i + |t|] == t
    requires IsBlank(s[..i]) && IsBlank(s[i + |t|..])
    ensures WhitespaceFramed(s, t)
  {
  }

  /** Slicing a suffix is slicing the whole string further along. */
  lemma SliceOfSuffix(s: string, i: nat, n: nat)
    requires i + n <= |s|
    ensures s[i..i + n] == s[i..][..n]
    ensures s[i + n..] == s[i..][n..]
  {
  }

  /** Two blank strings make a blank string. */
  lemma BlankConcat(a: string, b: string)
    requires IsBlank(a) && IsBlank(b)
    ensures IsBlank(a + b)
  {
    forall k | 0 <= k < |a + b| ensures IsWhitespace((a + b)[k]) {
      if k >= |a| { assert (a + b)[k] == b[k - |a|]; }
    }
  }

  /** Removing whitespace in front of a string that does not start with whitespace
      gives that string back. */
  lemma {:induction false} StripLeadingPast(a: string, u: string)
    requires IsBlank(a)
    requires u == [] || !IsWhitespace(u[0])
    ensures StripLeading(a + u) == u
  {
    if a == [] {
      assert a + u == u;
    } else {
      assert (a + u)[1..] == a[1..] + u;
      StripLeadingPast(a[1..], u);
    }
  }

  /** Removing whitespace behind a string that does not end with whitespace gives
      that string back. */
  lemma {:induction false} StripTrailingPast(u: string, b: string)
    requires IsBlank(b)
    requires u == [] || !IsWhitespace(u[|u| - 1])
    ensures StripTrailing(u + b) == u
  {
    if b == [] {
      assert u + b == u;
    } else {
      assert (u + b)[..|u + b| - 1] == u + b[..|b| - 1];
      StripTrailingPast(u, b[..|b| - 1]);
    }
  }

  /** `strip` is determined by its description: whatever string is framed by
      whitespace and neither starts nor ends with whitespace is the result. */
  lemma StripUnique(a: string, t: string, b: string)
    requires IsBlank(a) && IsBlank(b)
    requires t == [] || (!IsWhitespace(t[0]) && !IsWhitespace(t[|t| - 1]))
    ensures Strip(a + t + b) == t
  {
    if t == [] {
      assert a + t + b == a + b;
      BlankConcat(a, b);
    } else {
      assert a + t + b == a + (t + b);
      StripLeadingPast(a, t + b);
      StripTrailingPast(t, b);
    }
  }

  /** `strip` is idempotent. */
  lemma StripIdempotent(s: string)
    ensures Strip(Strip(s)) == Strip(s)
  {
    var t := Strip(s);
    assert [] + t + [] == t;
    StripUnique([], t, []);
  }

  /** The case-insensitive form of a character, as `equalsIgnoreCase` compares
      it against an ASCII character: ASCII letters fold to lower case, and so do
      the four non-ASCII letters whose Java upper or lower case is an ASCII
      letter (long s, dotless i, dotted capital I and the Kelvin sign). */
  function FoldCase(c: char): (f: char)
  {
    if 'A' <= c <= 'Z' then (c as int + 32) as char
    else if c == '\U{17F}' then 's'
    else if c == '\U{131}' || c == '\U{130}' then 'i'
    else if c == '\U{212A}' then 'k'
    else c
  }

  /** `a.equalsIgnoreCase(b)`, for a non-null `b`. */
  predicate EqualsIgnoreCase(a: string, b: string) {
    |a| == |b| && forall i :: 0 <= i < |a| ==> FoldCase(a[i]) == FoldCase(b[i])
  }

  /** `Character.toUpperCase`, written out only for the characters whose upper
      case is an ASCII letter; every other character is left as it is. */
  function JavaToUpperCase(c: char): char {
    if 'a' <= c <= 'z' then (c as int - 32) as char
    else if c == '\U{17F}' then 'S'
    else if c == '\U{131}' then 'I'
    else c
  }

  /** `Character.toLowerCase`, written out only for the characters whose lower
      case is an ASCII letter; every other character is left as it is. */
  function JavaToLowerCase(c: char): char {
    if 'A' <= c <= 'Z' then (c as int + 32) as char
    else if c == '\U{130}' then 'i'
    else if c == '\U{212A}' then 'k'
    else c
  }

  /** The per-character rule of `String.equalsIgnoreCase`: equal, or equal in
      upper case, or equal in the lower case of the upper case. */
  predicate JavaCharsEqualIgnoreCase(c1: char, c2: char) {
    c1 == c2
    || JavaToUpperCase(c1) == JavaToUpperCase(c2)
    || JavaToLowerCase(JavaToUpperCase(c1)) == JavaToLowerCase(JavaToUpperCase(c2))
  }

  /** Against an ASCII character, folding case agrees with Java's rule. */
  lemma FoldCaseAgainstAscii(c1: char, c2: char)
    requires c1 as int < 0x80
    ensures FoldCase(c1) == FoldCase(c2) <==> JavaCharsEqualIgnoreCase(c1, c2)
  {
    if 'A' <= c2 <= 'Z' {
      assert JavaToUpperCase(c2) == c2;
    }
  }

  /** `EqualsIgnoreCase` is `String.equalsIgnoreCase` whenever its first string
      is ASCII: the same length, and Java's rule at every position. */
  lemma EqualsIgnoreCaseIsJavaRule(a: string, b: string)
    requires forall i :: 0 <= i < |a| ==> a[i] as int < 0x80
    ensures EqualsIgnoreCase(a, b)
        <==> |a| == |b| && forall i :: 0 <= i < |a| ==> JavaCharsEqualIgnoreCase(a[i], b[i])
  {
    if |a| == |b| {
      forall i | 0 <= i < |a|
        ensures FoldCase(a[i]) == FoldCase(b[i]) <==> JavaCharsEqualIgnoreCase(a[i], b[i])
      {
        FoldCaseAgainstAscii(a[i], b[i]);
      }
    }
  }

  /** The UTF-8 encoding of one character. */
  function Utf8Char(c: char): (r: seq<byte>)
    ensures 1 <= |r| <= 4
    ensures |r| == 1 <==> c as int < 0x80
    ensures |r| == 1 ==> r[0] as int == c as int
  {
    var cp := c as int;
    if cp < 0x80 then
      [cp as byte]
    else if cp < 0x800 then
      [(0xC0 + cp / 0x40) as byte, (0x80 + cp % 0x40) as byte]
    else if cp < 0x1_0000 then
      [(0xE0 + cp / 0x1000) as byte, (0x80 + cp / 0x40 % 0x40) as byte, (0x80 + cp % 0x40) as byte]
    else
      [(0xF0 + cp / 0x4_0000) as byte, (0x80 + cp / 0x1000 % 0x40) as byte,
       (0x80 + cp / 0x40 % 0x40) as byte, (0x80 + cp % 0x40) as byte]
  }

  /** `s.getBytes(StandardCharsets.UTF_8)`: the characters' encodings one after
      the other. */
  function Utf8(s: string): seq<byte> {
    Concat(seq(|s|, i requires 0 <= i < |s| => Utf8Char(s[i])))
  }

  /** The byte strings of `parts`, one after the other. */
  function Concat(parts: seq<seq<byte>>): seq<byte> {
    if parts == [] then [] else parts[0] + Concat(parts[1..])
  }

  lemma {:induction false} ConcatAppend(x: seq<seq<byte>>, y: seq<seq<byte>>)
    ensures Concat(x + y) == Concat(x) + Concat(y)
  {
    if x == [] {
      assert x + y == y;
    } else {
      assert (x + y)[1..] == x[1..] + y;
      ConcatAppend(x[1..], y);
    }
  }

  /** Encoding a concatenation encodes the parts one after the other. */
  lemma Utf8Append(a: string, b: string)
    ensures Utf8(a + b) == Utf8(a) + Utf8(b)
  {
    var pa := seq(|a|, i requires 0 <= i < |a| => Utf8Char(a[i]));
    var pb := seq(|b|, i requires 0 <= i < |b| => Utf8Char(b[i]));
    assert seq(|a + b|, i requires 0 <= i < |a + b| => Utf8Char((a + b)[i])) == pa + pb;
    ConcatAppend(pa, pb);
  }

  lemma {:induction false} ConcatLength(parts: seq<seq<byte>>)
    requires forall i :: 0 <= i < |parts| ==> 1 <= |parts[i]| <= 4
    ensures |parts| <= |Concat(parts)| <= 4 * |parts|
  {
    if parts != [] {
      ConcatLength(parts[1..]);
    }
  }

  /** Every character takes between one and four bytes. */
  lemma Utf8Length(s: string)
    ensures |s| <= |Utf8(s)| <= 4 * |s|
  {
    ConcatLength(seq(|s|, i requires 0 <= i < |s| => Utf8Char(s[i])));
  }

  lemma {:induction false} ConcatSingletons(parts: seq<seq<byte>>)
    requires forall i :: 0 <= i < |parts| ==> |parts[i]| == 1
    ensures |Concat(parts)| == |parts|
    ensures forall i :: 0 <= i < |parts| ==> Concat(parts)[i] == parts[i][0]
  {
    if parts != [] {
      ConcatSingletons(parts[1..]);
    }
  }

  /** An ASCII string encodes to one byte per character, holding its code. */
  lemma Utf8Ascii(s: string)
    requires forall i :: 0 <= i < |s| ==> s[i] as int < 0x80
    ensures |Utf8(s)| == |s|
    ensures forall i :: 0 <= i < |s| ==> Utf8(s)[i] as int == s[i] as int
  {
    ConcatSingletons(seq(|s|, i requires 0 <= i < |s| => Utf8Char(s[i])));
  }
}
