/** The few stout string helpers the modelled code calls (`strings::replace`,
    `strings::remove`, `strings::tokenize`, `strings::format("%.2X", …)`),
    each given the meaning the callers rely on. */
module Strings {
  import opened Wrappers

  /** An unsigned 8-bit value, the `BYTE` of the Windows headers. */
  newtype byte = x: int | 0 <= x < 256

  /** `strings::replace(s, from, to)` for one-character `from` and `to`:
      every occurrence of `from` becomes `to`, nothing else moves. */
  function ReplaceChar(s: string, from: char, to: char): (r: string)
    ensures |r| == |s|
    ensures forall i :: 0 <= i < |s| ==> r[i] == (if s[i] == from then to else s[i])
  {
    seq(|s|, i requires 0 <= i < |s| => if s[i] == from then to else s[i])
  }

  /** `strings::remove(s, prefix, strings::Mode::PREFIX)`. */
  function RemovePrefix(s: string, prefix: string): (r: string)
    ensures prefix <= s ==> prefix + r == s
    ensures !(prefix <= s) ==> r == s
  {
    if prefix <= s then s[|prefix|..] else s
  }

  /** Every character of `s` other than `c`, in order. */
  function Remove(s: string, c: char): string
  {
    if s == [] then [] else (if s[0] == c then [] else [s[0]]) + Remove(s[1..], c)
  }

  /** The concatenation of a sequence of strings. */
  function Flatten(ss: seq<string>): string
  {
    if ss == [] then [] else ss[0] + Flatten(ss[1..])
  }

  /** `strings::tokenize(s, sep)` with `current` the token being read:
      maximal runs of characters other than `sep`, empty runs dropped. */
  function TokenizeFrom(s: string, sep: char, current: string): (tokens: seq<string>)
    requires sep !in current
    ensures forall i :: 0 <= i < |tokens| ==> tokens[i] != [] && sep !in tokens[i]
    ensures Flatten(tokens) == current + Remove(s, sep)
  {
    if s == [] then
      if current == [] then [] else [current]
    else if s[0] == sep then
      var rest := TokenizeFrom(s[1..], sep, []);
      if current == [] then rest else [current] + rest
    else
      assert current + Remove(s, sep) == (current + [s[0]]) + Remove(s[1..], sep);
      TokenizeFrom(s[1..], sep, current + [s[0]])
  }

  /** `strings::tokenize(s, sep)`: the non-empty, separator-free pieces of
      `s`, which together hold every other character of `s` in order. */
  function Tokenize(s: string, sep: char): seq<string>
  {
    TokenizeFrom(s, sep, [])
  }

  /** The empty string has no tokens. */
  lemma TokenizeEmpty(sep: char)
    ensures Tokenize([], sep) == []
  {
  }

  /** A token being read continues up to the end of a separator-free rest. */
  lemma {:induction false} TokenizeFromWithoutSeparator(s: string, sep: char, current: string)
    requires sep !in current && sep !in s && current + s != []
    ensures TokenizeFrom(s, sep, current) == [current + s]
    decreases |s|
  {
    if s == [] {
      assert current + s == current;
    } else {
      assert s[0] in s && s[0] != sep;
      TokenizeFromWithoutSeparator(s[1..], sep, current + [s[0]]);
      assert (current + [s[0]]) + s[1..] == current + s;
    }
  }

  /** A non-empty string without the separator is a single token. */
  lemma TokenizeWithoutSeparator(s: string, sep: char)
    requires s != [] && sep !in s
    ensures Tokenize(s, sep) == [s]
  {
    TokenizeFromWithoutSeparator(s, sep, []);
    assert [] + s == s;
  }

  /** A separator ends the token being read: what follows it is tokenized
      on its own. */
  lemma {:induction false} TokenizeFromSplits(a: string, b: string, sep: char, current: string)
    requires sep !in current
    ensures TokenizeFrom(a + [sep] + b, sep, current) == TokenizeFrom(a, sep, current) + Tokenize(b, sep)
    decreases |a|
  {
    var s := a + [sep] + b;
    if a == [] {
      assert s[0] == sep && s[1..] == b;
    } else {
      assert s[0] == a[0] && s[1..] == a[1..] + [sep] + b;
      if a[0] == sep {
        TokenizeFromSplits(a[1..], b, sep, []);
      } else {
        TokenizeFromSplits(a[1..], b, sep, current + [a[0]]);
      }
    }
  }

  /** Tokenizing breaks at every separator: the tokens of `a`, a separator
      and `b` are the tokens of `a` followed by those of `b`. With
      `TokenizeEmpty` and `TokenizeWithoutSeparator` this determines the
      tokens of every string. */
  lemma TokenizeSplits(a: string, b: string, sep: char)
    ensures Tokenize(a + [sep] + b, sep) == Tokenize(a, sep) + Tokenize(b, sep)
  {
    TokenizeFromSplits(a, b, sep, []);
  }

  /** The parts joined with `sep` between each two of them. */
  function Join(parts: seq<string>, sep: char): string
  {
    if parts == [] then []
    else if |parts| == 1 then parts[0]
    else parts[0] + [sep] + Join(parts[1..], sep)
  }

  /** Tokenizing undoes joining: non-empty, separator-free parts joined by
      the separator tokenize back to the same parts. */
  lemma {:induction false} TokenizeJoin(parts: seq<string>, sep: char)
    requires forall i :: 0 <= i < |parts| ==> parts[i] != [] && sep !in parts[i]
    ensures Tokenize(Join(parts, sep), sep) == parts
    decreases |parts|
  {
    if parts == [] {
      TokenizeEmpty(sep);
    } else if |parts| == 1 {
      TokenizeWithoutSeparator(parts[0], sep);
    } else {
      TokenizeJoin(parts[1..], sep);
      TokenizeSplits(parts[0], Join(parts[1..], sep), sep);
      TokenizeWithoutSeparator(parts[0], sep);
    }
  }

  /** One upper-case hexadecimal digit. */
  function HexDigit(n: int): (c: char)
    requires 0 <= n < 16
    ensures ('0' <= c <= '9') || ('A' <= c <= 'F')
  {
    if n < 10 then (48 + n) as char else (55 + n) as char
  }

  /** The value of a hexadecimal digit of either case, if it is one. */
  function HexValue(c: char): (v: Option<int>)
    ensures v.Some? ==> 0 <= v.value < 16
  {
    if '0' <= c <= '9' then Some(c as int - 48)
    else if 'A' <= c <= 'F' then Some(c as int - 55)
    else if 'a' <= c <= 'f' then Some(c as int - 87)
    else None
  }

  /** `strings::format("%.2X", b)`: two upper-case hexadecimal digits. */
  function FormatHex2(b: byte): (s: string)
    ensures |s| == 2
  {
    [HexDigit(b as int / 16), HexDigit(b as int % 16)]
  }

  /** Reading the two digits back gives the byte. */
  lemma FormatHex2RoundTrip(b: byte)
    ensures HexValue(FormatHex2(b)[0]).Some? && HexValue(FormatHex2(b)[1]).Some?
    ensures HexValue(FormatHex2(b)[0]).value * 16 + HexValue(FormatHex2(b)[1]).value == b as int
  {
  }

  /** Different bytes are formatted differently. */
  lemma FormatHex2Injective(a: byte, b: byte)
    requires FormatHex2(a) == FormatHex2(b)
    ensures a == b
  {
    FormatHex2RoundTrip(a);
    FormatHex2RoundTrip(b);
  }
}
