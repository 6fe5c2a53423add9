/** Which bytes are UTF-8: those of a sequence of Unicode scalar values (section 3.9 of the
    Unicode standard, table 3-6). */
module Utf8 {
  import opened Avro

  predicate Scalar(c: nat) {
    c < 0xD800 || 0xE000 <= c < 0x110000
  }

  type Rune = c: nat | Scalar(c)

  /** Six bits of the number a continuation byte. */
  function RuneBytes(c: Rune): Bytes {
    assert Scalar(c);
    if c < 0x80 then [c]
    else if c < 0x800 then [0xC0 + c / 0x40, 0x80 + c % 0x40]
    else if c < 0x10000 then [0xE0 + c / 0x1000, 0x80 + c / 0x40 % 0x40, 0x80 + c % 0x40]
    else [0xF0 + c / 0x40000, 0x80 + c / 0x1000 % 0x40, 0x80 + c / 0x40 % 0x40, 0x80 + c % 0x40]
  }

  function TextBytes(cs: seq<Rune>): Bytes {
    if |cs| == 0 then [] else RuneBytes(cs[0]) + TextBytes(cs[1..])
  }

  /** A leading byte and its continuation bytes, neither overlong nor a surrogate. */
  predicate Shaped(b: Bytes) {
    || (|b| == 1 && b[0] <= 0x7F)
    || (|b| == 2 && 0xC2 <= b[0] <= 0xDF && Tail(b[1]))
    || (|b| == 3 && 0xE0 <= b[0] <= 0xEF && Tail(b[1]) && Tail(b[2])
        && (b[0] == 0xE0 ==> b[1] >= 0xA0) && (b[0] == 0xED ==> b[1] <= 0x9F))
    || (|b| == 4 && 0xF0 <= b[0] <= 0xF4 && Tail(b[1]) && Tail(b[2]) && Tail(b[3])
        && (b[0] == 0xF0 ==> b[1] >= 0x90) && (b[0] == 0xF4 ==> b[1] <= 0x8F))
  }

  lemma RuneShaped(c: Rune)
    ensures Shaped(RuneBytes(c))
  {
    assert Scalar(c);
  }

  lemma ShapedValid(b: Bytes, rest: Bytes)
    requires Shaped(b) && ValidUtf8(rest)
    ensures ValidUtf8(b + rest)
  {
    var s := b + rest;
    assert s[|b|..] == rest;
  }

  lemma RuneValid(c: Rune, rest: Bytes)
    requires ValidUtf8(rest)
    ensures ValidUtf8(RuneBytes(c) + rest)
  {
    hide ValidUtf8, RuneBytes, Shaped;
    RuneShaped(c);
    ShapedValid(RuneBytes(c), rest);
  }

  lemma {:induction false} TextValid(cs: seq<Rune>)
    ensures ValidUtf8(TextBytes(cs))
  {
    if |cs| > 0 {
      hide ValidUtf8, RuneBytes;
      TextValid(cs[1..]);
      RuneValid(cs[0], TextBytes(cs[1..]));
    } else {
      assert ValidUtf8([]);
    }
  }

  /** What the first character of a text is. */
  lemma RuneFound(s: Bytes) returns (c: Rune, rest: Bytes)
    requires |s| > 0 && ValidUtf8(s)
    ensures s == RuneBytes(c) + rest && ValidUtf8(rest)
  {
    if s[0] <= 0x7F {
      c, rest := s[0], s[1..];
    } else if s[0] <= 0xDF {
      c := TwoBytes(s);
      rest := s[2..];
    } else if s[0] <= 0xEF {
      c := ThreeBytes(s);
      rest := s[3..];
    } else {
      c := FourBytes(s);
      rest := s[4..];
    }
  }

  lemma TwoBytes(s: Bytes) returns (c: Rune)
    requires |s| >= 2 && 0xC2 <= s[0] <= 0xDF && Tail(s[1])
    ensures RuneBytes(c) == s[..2]
  {
    c := (s[0] as int - 0xC0) * 0x40 + (s[1] - 0x80);
  }

  lemma ThreeBytes(s: Bytes) returns (c: Rune)
    requires |s| >= 3 && 0xE0 <= s[0] <= 0xEF && Tail(s[1]) && Tail(s[2])
    requires (s[0] == 0xE0 ==> s[1] >= 0xA0) && (s[0] == 0xED ==> s[1] <= 0x9F)
    ensures RuneBytes(c) == s[..3]
  {
    var high: int := (s[0] as int - 0xE0) * 0x40 + (s[1] - 0x80);
    c := high * 0x40 + (s[2] - 0x80);
    assert c / 0x40 == high && c / 0x1000 == s[0] - 0xE0;
  }

  lemma FourBytes(s: Bytes) returns (c: Rune)
    requires |s| >= 4 && 0xF0 <= s[0] <= 0xF4 && Tail(s[1]) && Tail(s[2]) && Tail(s[3])
    requires (s[0] == 0xF0 ==> s[1] >= 0x90) && (s[0] == 0xF4 ==> s[1] <= 0x8F)
    ensures RuneBytes(c) == s[..4]
  {
    var top: int := (s[0] as int - 0xF0) * 0x40 + (s[1] - 0x80);
    var high := top * 0x40 + (s[2] - 0x80);
    c := high * 0x40 + (s[3] - 0x80);
    assert c / 0x40 == high && c / 0x1000 == top && c / 0x40000 == s[0] - 0xF0;
  }

  lemma {:induction false} TextFound(s: Bytes) returns (cs: seq<Rune>)
    requires ValidUtf8(s)
    ensures s == TextBytes(cs)
    decreases |s|
  {
    hide ValidUtf8, RuneBytes;
    if |s| == 0 {
      cs := [];
    } else {
      var c, rest := RuneFound(s);
      RuneSome(c);
      var more := TextFound(rest);
      cs := [c] + more;
      assert cs[1..] == more;
    }
  }

  lemma RuneSome(c: Rune)
    ensures |RuneBytes(c)| > 0
  {
  }

  /** The bytes accepted as a string are exactly those of some text. */
  lemma ValidExactly(s: Bytes)
    ensures ValidUtf8(s) <==> exists cs :: s == TextBytes(cs)
  {
    hide ValidUtf8, TextBytes;
    if ValidUtf8(s) {
      var cs := TextFound(s);
    }
    if cs: seq<Rune> :| s == TextBytes(cs) {
      TextValid(cs);
    }
  }
}
