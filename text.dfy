/**
 * The handful of Rust string and byte operations the core relies on, written out
 * with their exact edge cases: `str::split` on one character, `join`, `trim`,
 * `usize::to_string`, `<usize as FromStr>::from_str` and `String::into_bytes`
 * (UTF-8 encoding).
 */
module Text {
  import opened Wrappers

  newtype byte = x: int | 0 <= x < 256

  // ---------------------------------------------------------------------------
  // split / join

  /** `s.split(sep)`: the pieces between occurrences of `sep`; always at least one piece. */
  function Split(s: string, sep: char): (r: seq<string>)
    ensures |r| >= 1
    ensures forall i :: 0 <= i < |r| ==> sep !in r[i]
  {
    if |s| == 0 then [""]
    else if s[0] == sep then [""] + Split(s[1..], sep)
    else
      var t := Split(s[1..], sep);
      [[s[0]] + t[0]] + t[1..]
  }

  /** `parts.join(sep)` (the empty list joins to the empty string). */
  function Join(parts: seq<string>, sep: char): string
  {
    if |parts| == 0 then ""
    else if |parts| == 1 then parts[0]
    else parts[0] + [sep] + Join(parts[1..], sep)
  }

  /** Splitting and joining again gives the original text back. */
  lemma {:induction false} JoinSplit(s: string, sep: char)
    ensures Join(Split(s, sep), sep) == s
  {
    if |s| == 0 {
    } else if s[0] == sep {
      JoinSplit(s[1..], sep);
      assert s == [sep] + s[1..];
    } else {
      JoinSplit(s[1..], sep);
      var t := Split(s[1..], sep);
      assert s == [s[0]] + s[1..];
      if |t| == 1 {
      } else {
        assert Join(t, sep) == t[0] + [sep] + Join(t[1..], sep);
        assert ([[s[0]] + t[0]] + t[1..])[1..] == t[1..];
      }
    }
  }

  /** A piece free of `sep` followed by `sep` is split off as one piece. */
  lemma {:induction false} SplitPrefix(a: string, sep: char, rest: string)
    requires sep !in a
    ensures Split(a + [sep] + rest, sep) == [a] + Split(rest, sep)
  {
    if |a| == 0 {
      assert a + [sep] + rest == [sep] + rest;
    } else {
      SplitPrefix(a[1..], sep, rest);
      assert (a + [sep] + rest)[1..] == a[1..] + [sep] + rest;
      assert a == [a[0]] + a[1..];
      assert (a + [sep] + rest)[0] == a[0] && a[0] != sep;
    }
  }

  /** For a text without `sep`, `split` yields the text itself. */
  lemma {:induction false} SplitFree(a: string, sep: char)
    requires sep !in a
    ensures Split(a, sep) == [a]
  {
    if |a| > 0 {
      SplitFree(a[1..], sep);
      assert a == [a[0]] + a[1..];
    }
  }

  /** Joining pieces that do not contain `sep` and splitting again recovers the pieces. */
  lemma {:induction false} SplitJoin(parts: seq<string>, sep: char)
    requires |parts| >= 1
    requires forall i :: 0 <= i < |parts| ==> sep !in parts[i]
    ensures Split(Join(parts, sep), sep) == parts
  {
    if |parts| == 1 {
      SplitFree(parts[0], sep);
    } else {
      SplitJoin(parts[1..], sep);
      SplitPrefix(parts[0], sep, Join(parts[1..], sep));
      assert parts == [parts[0]] + parts[1..];
    }
  }

  /** `.filter(|s| !s.is_empty())`: keeps the non-empty pieces, in order. */
  function NonEmpty(parts: seq<string>): (r: seq<string>)
    ensures |r| <= |parts|
    ensures forall i :: 0 <= i < |r| ==> r[i] != [] && r[i] in parts
  {
    if |parts| == 0 then []
    else (if parts[0] == "" then [] else [parts[0]]) + NonEmpty(parts[1..])
  }

  lemma {:induction false} NonEmptyKeeps(parts: seq<string>)
    requires forall i :: 0 <= i < |parts| ==> parts[i] != ""
    ensures NonEmpty(parts) == parts
  {
    if |parts| > 0 {
      NonEmptyKeeps(parts[1..]);
      assert parts == [parts[0]] + parts[1..];
    }
  }

  /** Non-empty pieces inside `Join` make a non-empty text. */
  lemma {:induction false} JoinEmpty(parts: seq<string>, sep: char)
    requires forall i :: 0 <= i < |parts| ==> parts[i] != ""
    ensures Join(parts, sep) == "" <==> |parts| == 0
  {
    if |parts| >= 2 {
      assert |Join(parts, sep)| >= |parts[0]|;
    }
  }

  // ---------------------------------------------------------------------------
  // prefixes, suffixes, whitespace

  predicate StartsWith(s: string, c: char) { |s| > 0 && s[0] == c }

  predicate EndsWith(s: string, c: char) { |s| > 0 && s[|s| - 1] == c }

  /** Rust's `char::is_whitespace`: the Unicode White_Space property. */
  predicate IsWhitespace(c: char)
  {
    var n := c as int;
    n == 0x20 || 0x09 <= n <= 0x0D || n == 0x85 || n == 0xA0 || n == 0x1680
    || 0x2000 <= n <= 0x200A || n == 0x2028 || n == 0x2029 || n == 0x202F
    || n == 0x205F || n == 0x3000
  }

  /** `str::trim_start`: drops leading whitespace (see `TrimStartDrops`). */
  function TrimStart(s: string): string
  {
    if |s| > 0 && IsWhitespace(s[0]) then TrimStart(s[1..]) else s
  }

  /** `str::trim_end`: drops trailing whitespace (see `TrimEndDrops`). */
  function TrimEnd(s: string): string
  {
    if |s| > 0 && IsWhitespace(s[|s| - 1]) then TrimEnd(s[..|s| - 1]) else s
  }

  /** `trim_start` leaves a suffix: it drops only whitespace, and stops at the first character that is not. */
  lemma {:induction false} TrimStartDrops(s: string)
    ensures |TrimStart(s)| <= |s| && TrimStart(s) == s[|s| - |TrimStart(s)|..]
    ensures TrimStart(s) != "" ==> !IsWhitespace(TrimStart(s)[0])
    ensures forall i :: 0 <= i < |s| - |TrimStart(s)| ==> IsWhitespace(s[i])
    decreases |s|
  {
    if |s| > 0 && IsWhitespace(s[0]) {
      TrimStartDrops(s[1..]);
      assert forall i :: 1 <= i < |s| ==> s[i] == s[1..][i - 1];
    }
  }

  /** `trim_end` leaves a prefix: it drops only whitespace, and stops at the last character that is not. */
  lemma {:induction false} TrimEndDrops(s: string)
    ensures |TrimEnd(s)| <= |s| && TrimEnd(s) == s[..|TrimEnd(s)|]
    ensures TrimEnd(s) != "" ==> !IsWhitespace(TrimEnd(s)[|TrimEnd(s)| - 1])
    ensures forall i :: |TrimEnd(s)| <= i < |s| ==> IsWhitespace(s[i])
    decreases |s|
  {
    if |s| > 0 && IsWhitespace(s[|s| - 1]) {
      TrimEndDrops(s[..|s| - 1]);
      assert forall i :: 0 <= i < |s| - 1 ==> s[i] == s[..|s| - 1][i];
    }
  }

  /** `str::trim`: drops leading and trailing whitespace. */
  function Trim(s: string): (r: string)
  {
    TrimEnd(TrimStart(s))
  }

  /** `trim` gives the empty text exactly when every character is whitespace. */
  lemma TrimEmpty(s: string)
    ensures Trim(s) == "" <==> forall i :: 0 <= i < |s| ==> IsWhitespace(s[i])
  {
    var a := TrimStart(s);
    var k := |s| - |a|;
    TrimStartDrops(s);
    TrimEndDrops(a);
    assert a == s[k..];
    if a != "" {
      assert a[0] == s[k];
    }
  }

  /** Trimming a text that has no whitespace at either end changes nothing. */
  lemma TrimClean(s: string)
    requires s != [] ==> !IsWhitespace(s[0]) && !IsWhitespace(s[|s| - 1])
    ensures Trim(s) == s
  {
  }

  /** Leading whitespace in front of a text that starts with a non-space is all `trim_start` drops. */
  lemma {:induction false} TrimStartSkips(ws: string, t: string)
    requires forall i :: 0 <= i < |ws| ==> IsWhitespace(ws[i])
    requires t != "" ==> !IsWhitespace(t[0])
    ensures TrimStart(ws + t) == t
    decreases |ws|
  {
    if |ws| > 0 {
      assert (ws + t)[1..] == ws[1..] + t;
      TrimStartSkips(ws[1..], t);
    } else {
      assert ws + t == t;
    }
  }

  /** Trailing whitespace after a text that ends with a non-space is all `trim_end` drops. */
  lemma {:induction false} TrimEndSkips(t: string, ws: string)
    requires forall i :: 0 <= i < |ws| ==> IsWhitespace(ws[i])
    requires t != "" ==> !IsWhitespace(t[|t| - 1])
    ensures TrimEnd(t + ws) == t
    decreases |ws|
  {
    if |ws| > 0 {
      assert (t + ws)[..|t + ws| - 1] == t + ws[..|ws| - 1];
      TrimEndSkips(t, ws[..|ws| - 1]);
    } else {
      assert t + ws == t;
    }
  }

  /** Trimming whitespace around a text without whitespace at its ends gives the text back. */
  lemma TrimAround(before: string, t: string, after: string)
    requires forall i :: 0 <= i < |before| ==> IsWhitespace(before[i])
    requires forall i :: 0 <= i < |after| ==> IsWhitespace(after[i])
    requires t != "" ==> !IsWhitespace(t[0]) && !IsWhitespace(t[|t| - 1])
    ensures Trim(before + t + after) == t
  {
    if t == "" {
      var ws := before + after;
      assert before + t + after == ws;
      forall i | 0 <= i < |ws|
        ensures IsWhitespace(ws[i])
      {
        if i < |before| {
          assert ws[i] == before[i];
        } else {
          assert ws[i] == after[i - |before|];
        }
      }
      TrimEmpty(ws);
    } else {
      assert before + t + after == before + (t + after);
      assert (t + after)[0] == t[0];
      TrimStartSkips(before, t + after);
      TrimEndSkips(t, after);
    }
  }

  // ---------------------------------------------------------------------------
  // decimal numbers

  /** `usize::MAX` on a 64-bit target. */
  const UsizeMax: nat := 0xFFFF_FFFF_FFFF_FFFF

  predicate IsDigit(c: char) { '0' as int <= c as int <= '9' as int }

  predicate AllDigits(s: string) { forall i :: 0 <= i < |s| ==> IsDigit(s[i]) }

  function DigitChar(d: nat): (c: char)
    requires d < 10
    ensures IsDigit(c) && c as int - '0' as int == d
  {
    ('0' as int + d) as char
  }

  /** `n.to_string()`: the decimal digits of `n`, without leading zeros. */
  function Decimal(n: nat): (r: string)
    ensures |r| >= 1
    ensures forall i :: 0 <= i < |r| ==> IsDigit(r[i])
    ensures |r| > 1 ==> r[0] != '0'
  {
    if n < 10 then [DigitChar(n)] else Decimal(n / 10) + [DigitChar(n % 10)]
  }

  /** The value of a string of decimal digits, most significant first. */
  function DigitsValue(s: string): nat
    requires AllDigits(s)
  {
    if |s| == 0 then 0
    else
      assert IsDigit(s[|s| - 1]);
      DigitsValue(s[..|s| - 1]) * 10 + (s[|s| - 1] as int - '0' as int)
  }

  /**
   * `s.parse::<usize>()`: one optional leading `+`, then at least one decimal digit,
   * and a value that fits in a `usize`; anything else is an error (`None`).
   */
  function ParseUsize(s: string): Option<nat>
  {
    if |s| == 0 then None
    else if (s[0] == '+' || s[0] == '-') && |s| == 1 then None
    else
      var digits := if s[0] == '+' then s[1..] else s;
      if AllDigits(digits) then
        if DigitsValue(digits) <= UsizeMax then Some(DigitsValue(digits)) else None
      else None
  }

  lemma {:induction false} DecimalValue(n: nat)
    ensures DigitsValue(Decimal(n)) == n
  {
    if n >= 10 {
      DecimalValue(n / 10);
      var d := Decimal(n);
      assert d[..|d| - 1] == Decimal(n / 10);
    }
  }

  /** Printing a `usize` in decimal and parsing it again gives the number back. */
  lemma ParseDecimal(n: nat)
    requires n <= UsizeMax
    ensures ParseUsize(Decimal(n)) == Some(n)
  {
    DecimalValue(n);
  }

  /** What `parse::<usize>()` accepts, stated from the other side: a parsed value names its digits. */
  lemma ParseUsizeSound(s: string, n: nat)
    requires ParseUsize(s) == Some(n)
    ensures n <= UsizeMax
    ensures |s| >= 1 && (s[0] == '+' || IsDigit(s[0]))
    ensures forall i :: 1 <= i < |s| ==> IsDigit(s[i])
  {
    var digits := if s[0] == '+' then s[1..] else s;
    assert AllDigits(digits);
    if s[0] == '+' {
      forall i | 1 <= i < |s| ensures IsDigit(s[i]) {
        assert digits[i - 1] == s[i];
      }
    } else {
      assert IsDigit(digits[0]);
    }
  }

  // ---------------------------------------------------------------------------
  // UTF-8

  /** The UTF-8 encoding of one Unicode scalar value: one to four bytes. */
  function EncodeChar(c: char): (r: seq<byte>)
    ensures 1 <= |r| <= 4
    ensures (c as int < 0x80) <==> |r| == 1
  {
    var n := c as int;
    if n < 0x80 then [n as byte]
    else if n < 0x800 then [(0xC0 + n / 0x40) as byte, (0x80 + n % 0x40) as byte]
    else if n < 0x10000 then
      [(0xE0 + n / 0x1000) as byte, (0x80 + (n / 0x40) % 0x40) as byte, (0x80 + n % 0x40) as byte]
    else
      [(0xF0 + n / 0x40000) as byte, (0x80 + (n / 0x1000) % 0x40) as byte,
       (0x80 + (n / 0x40) % 0x40) as byte, (0x80 + n % 0x40) as byte]
  }

  /** `String::into_bytes` / `str::as_bytes`: the UTF-8 encoding of a string. */
  function Utf8(s: string): seq<byte>
  {
    if |s| == 0 then [] else EncodeChar(s[0]) + Utf8(s[1..])
  }

  /** Encoding a concatenation is concatenating the encodings. */
  lemma {:induction false} Utf8Append(a: string, b: string)
    ensures Utf8(a + b) == Utf8(a) + Utf8(b)
  {
    if |a| > 0 {
      Utf8Append(a[1..], b);
      assert (a + b)[1..] == a[1..] + b;
      assert (a + b)[0] == a[0];
      calc {
        Utf8(a + b);
        EncodeChar(a[0]) + Utf8(a[1..] + b);
        EncodeChar(a[0]) + (Utf8(a[1..]) + Utf8(b));
        (EncodeChar(a[0]) + Utf8(a[1..])) + Utf8(b);
      }
    } else {
      assert a + b == b;
    }
  }

  /** A scalar value `n` read back from `len` bytes, if `n` is one. */
  function Scalar(n: int, len: nat): Option<(char, nat)>
  {
    if 0 <= n < 0xD800 || 0xE000 <= n < 0x11_0000 then Some((n as char, len)) else None
  }

  /** Reads back the first character of a byte sequence laid out as `EncodeChar` writes it. */
  function DecodeFirst(b: seq<byte>): (r: Option<(char, nat)>)
    ensures r.Some? ==> 1 <= r.value.1 <= |b|
  {
    if |b| == 0 then None
    else
      var b0 := b[0] as int;
      if b0 < 0x80 then Scalar(b0, 1)
      else if b0 < 0xC0 then None
      else if b0 < 0xE0 then
        if |b| < 2 then None else Scalar((b0 - 0xC0) * 0x40 + (b[1] as int - 0x80), 2)
      else if b0 < 0xF0 then
        if |b| < 3 then None
        else Scalar(((b0 - 0xE0) * 0x40 + (b[1] as int - 0x80)) * 0x40 + (b[2] as int - 0x80), 3)
      else
        if |b| < 4 then None
        else Scalar((((b0 - 0xF0) * 0x40 + (b[1] as int - 0x80)) * 0x40 + (b[2] as int - 0x80)) * 0x40
                    + (b[3] as int - 0x80), 4)
  }

  lemma DecodeEncode2(c: char, rest: seq<byte>)
    requires 0x80 <= c as int < 0x800
    ensures DecodeFirst(EncodeChar(c) + rest) == Some((c, 2))
  {
    var n := c as int;
    var e := EncodeChar(c) + rest;
    assert e[0] as int == 0xC0 + n / 0x40 && e[1] as int == 0x80 + n % 0x40;
    assert (n / 0x40) * 0x40 + n % 0x40 == n;
  }

  lemma DecodeEncode3(c: char, rest: seq<byte>)
    requires 0x800 <= c as int < 0x10000
    ensures DecodeFirst(EncodeChar(c) + rest) == Some((c, 3))
  {
    var n := c as int;
    var e := EncodeChar(c) + rest;
    var q := n / 0x40;
    assert e[0] as int == 0xE0 + n / 0x1000;
    assert e[1] as int == 0x80 + q % 0x40 && e[2] as int == 0x80 + n % 0x40;
    assert n / 0x1000 == q / 0x40;
    assert (q / 0x40) * 0x40 + q % 0x40 == q;
    assert q * 0x40 + n % 0x40 == n;
  }

  lemma DecodeEncode4(c: char, rest: seq<byte>)
    requires 0x10000 <= c as int
    ensures DecodeFirst(EncodeChar(c) + rest) == Some((c, 4))
  {
    var n := c as int;
    var e := EncodeChar(c) + rest;
    var q := n / 0x40;
    var p := n / 0x1000;
    assert n / 0x1000 == q / 0x40;
    assert n / 0x40000 == p / 0x40;
    assert e[0] as int == 0xF0 + p / 0x40;
    assert e[1] as int == 0x80 + p % 0x40;
    assert e[2] as int == 0x80 + q % 0x40 && e[3] as int == 0x80 + n % 0x40;
    assert (p / 0x40) * 0x40 + p % 0x40 == p;
    assert p * 0x40 + q % 0x40 == q;
    assert q * 0x40 + n % 0x40 == n;
  }

  lemma DecodeEncodeChar(c: char, rest: seq<byte>)
    ensures DecodeFirst(EncodeChar(c) + rest) == Some((c, |EncodeChar(c)|))
  {
    var n := c as int;
    if n < 0x80 {
    } else if n < 0x800 {
      DecodeEncode2(c, rest);
    } else if n < 0x10000 {
      DecodeEncode3(c, rest);
    } else {
      DecodeEncode4(c, rest);
    }
  }

  /** Reads back a whole byte sequence written by `Utf8`; `None` where it does not fit that layout. */
  function Utf8Decode(b: seq<byte>): Option<string>
    decreases |b|
  {
    if |b| == 0 then Some("")
    else match DecodeFirst(b)
      case None => None
      case Some((c, len)) =>
        match Utf8Decode(b[len..])
        case None => None
        case Some(s) => Some([c] + s)
  }

  /** UTF-8 decoding undoes the encoding, so `into_bytes` loses nothing and is injective. */
  lemma {:induction false} Utf8RoundTrip(s: string)
    ensures Utf8Decode(Utf8(s)) == Some(s)
  {
    if |s| > 0 {
      Utf8RoundTrip(s[1..]);
      DecodeEncodeChar(s[0], Utf8(s[1..]));
      var e := Utf8(s);
      assert e[|EncodeChar(s[0])|..] == Utf8(s[1..]);
      assert s == [s[0]] + s[1..];
    }
  }

  /** On ASCII text the encoding is one byte per character, equal to its code. */
  lemma {:induction false} Utf8Ascii(s: string)
    requires forall i :: 0 <= i < |s| ==> s[i] as int < 0x80
    ensures |Utf8(s)| == |s|
    ensures forall i :: 0 <= i < |s| ==> Utf8(s)[i] as int == s[i] as int
  {
    if |s| > 0 {
      Utf8Ascii(s[1..]);
    }
  }
}
