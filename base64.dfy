/** The base64 codec behind `atob` (client/src/lib/templateManager.ts, line 135).
    Decoding follows the forgiving-base64 decode that `atob` runs in the
    browser; on canonical input it agrees with section 4 of RFC 4648. The
    encoder is the canonical, padded RFC 4648 section 4 encoding: the form a
    data URL produced from a file's bytes carries. */
module Base64 {
  import opened Wrappers

  type Byte = x: int | 0 <= x < 256

  /** One base64 digit, the six bits a character of the alphabet stands for. */
  type Sextet = x: int | 0 <= x < 64

  /** The alphabet of section 4 of RFC 4648: `A`-`Z`, `a`-`z`, `0`-`9`, `+`, `/`. */
  function CharOf(v: Sextet): char {
    if v < 26 then ('A' as int + v) as char
    else if v < 52 then ('a' as int + (v - 26)) as char
    else if v < 62 then ('0' as int + (v - 52)) as char
    else if v == 62 then '+'
    else '/'
  }

  /** The digit a character stands for, or `None` for a character outside the alphabet. */
  function SextetOf(c: char): Option<Sextet> {
    if 'A' <= c <= 'Z' then Some(c as int - 'A' as int)
    else if 'a' <= c <= 'z' then Some(c as int - 'a' as int + 26)
    else if '0' <= c <= '9' then Some(c as int - '0' as int + 52)
    else if c == '+' then Some(62)
    else if c == '/' then Some(63)
    else None
  }

  /** `SextetOf` reads back every digit `CharOf` writes, and the alphabet
      holds exactly one character per digit. */
  lemma AlphabetBijective(v: Sextet, c: char)
    ensures SextetOf(CharOf(v)) == Some(v)
    ensures SextetOf(c) == Some(v) ==> CharOf(v) == c
  {
  }

  // ---------------------------------------------------------------------------
  // Encoding
  // ---------------------------------------------------------------------------

  /** The digits of the bytes: each group of three bytes gives four digits, a
      trailing pair three digits and a trailing single byte two, the unused
      low bits being zero. */
  function ToSextets(b: seq<Byte>): seq<Sextet>
    decreases |b|
  {
    if |b| >= 3 then
      [b[0] / 4, (b[0] % 4) * 16 + b[1] / 16, (b[1] % 16) * 4 + b[2] / 64, b[2] % 64]
      + ToSextets(b[3..])
    else if |b| == 2 then [b[0] / 4, (b[0] % 4) * 16 + b[1] / 16, (b[1] % 16) * 4]
    else if |b| == 1 then [b[0] / 4, (b[0] % 4) * 16]
    else []
  }

  /** The digits written as alphabet characters. */
  function Chars(v: seq<Sextet>): (s: string)
    ensures |s| == |v|
  {
    seq(|v|, i requires 0 <= i < |v| => CharOf(v[i]))
  }

  /** The `=` characters that fill the last group of four. */
  function Padding(n: nat): string {
    if n % 3 == 1 then "==" else if n % 3 == 2 then "=" else ""
  }

  /** The canonical padded base64 text of `b`: whole groups of four
      characters, `4 * ceil(|b| / 3)` in all, each an alphabet character or
      the padding `=`. */
  function Encode(b: seq<Byte>): (r: string)
    ensures |r| == 4 * ((|b| + 2) / 3)
    ensures |r| % 4 == 0
    ensures forall k :: 0 <= k < |r| ==> SextetOf(r[k]).Some? || r[k] == '='
  {
    ToSextetsLength(b);
    Chars(ToSextets(b)) + Padding(|b|)
  }

  /** The number of digits: four per full group, then 2 or 3 for a partial one. */
  lemma {:induction false} ToSextetsLength(b: seq<Byte>)
    ensures |ToSextets(b)| == 4 * (|b| / 3) + (if |b| % 3 == 0 then 0 else |b| % 3 + 1)
    decreases |b|
  {
    if |b| >= 3 {
      ToSextetsLength(b[3..]);
    }
  }

  // ---------------------------------------------------------------------------
  // Forgiving decoding, as `atob` does it
  // ---------------------------------------------------------------------------

  /** ASCII whitespace: tab, line feed, form feed, carriage return, space. */
  predicate IsAsciiWhitespace(c: char) {
    c == '\t' || c == '\n' || c == '\U{000C}' || c == '\r' || c == ' '
  }

  /** The text with its ASCII whitespace removed: a single whitespace
      character goes, any other single character stays. */
  function RemoveWhitespace(s: string): (r: string)
    ensures forall k :: 0 <= k < |r| ==> !IsAsciiWhitespace(r[k])
    ensures |r| <= |s|
    ensures |s| == 1 ==> r == if IsAsciiWhitespace(s[0]) then [] else s
  {
    if s == [] then []
    else if IsAsciiWhitespace(s[0]) then RemoveWhitespace(s[1..])
    else [s[0]] + RemoveWhitespace(s[1..])
  }

  /** Whitespace removal works character by character: it distributes over
      concatenation, so the other characters survive, in their order. */
  lemma {:induction false} RemoveWhitespaceAppend(a: string, b: string)
    ensures RemoveWhitespace(a + b) == RemoveWhitespace(a) + RemoveWhitespace(b)
    decreases |a|
  {
    if a == [] {
      assert a + b == b;
    } else {
      assert (a + b)[1..] == a[1..] + b;
      RemoveWhitespaceAppend(a[1..], b);
    }
  }

  /** Text without whitespace is left as it is. */
  lemma {:induction false} RemoveWhitespaceKeeps(s: string)
    requires forall k :: 0 <= k < |s| ==> !IsAsciiWhitespace(s[k])
    ensures RemoveWhitespace(s) == s
  {
    if s != [] {
      RemoveWhitespaceKeeps(s[1..]);
    }
  }

  /** When the length is a multiple of four, one or two trailing `=` go;
      otherwise nothing does. */
  function StripPadding(d: string): string {
    if |d| % 4 != 0 then d
    else if |d| >= 2 && d[|d| - 2..] == "==" then d[..|d| - 2]
    else if |d| >= 1 && d[|d| - 1] == '=' then d[..|d| - 1]
    else d
  }

  /** The digits of the text, or `None` when some character is outside the
      alphabet (an `=` left inside the text included). */
  function Digits(s: string): (r: Option<seq<Sextet>>)
    ensures r.Some? <==> forall k :: 0 <= k < |s| ==> SextetOf(s[k]).Some?
    ensures r.Some? ==> |r.value| == |s| && Chars(r.value) == s
  {
    if s == [] then Some([])
    else match (SextetOf(s[0]), Digits(s[1..]))
      case (Some(v), Some(rest)) =>
        assert Chars([v] + rest) == [s[0]] + Chars(rest) by {
          AlphabetBijective(v, s[0]);
        }
        Some([v] + rest)
      case _ => None
  }

  /** The bytes the digits stand for: every four digits give three bytes,
      three trailing digits two bytes and two trailing digits one byte; the
      low bits of the last digit that make no whole byte are dropped. */
  function FromSextets(v: seq<Sextet>): seq<Byte>
    requires |v| % 4 != 1
    decreases |v|
  {
    if |v| >= 4 then
      var a, b, c, d: int := v[0], v[1], v[2], v[3];
      [a * 4 + b / 16, (b % 16) * 16 + c / 4, (c % 4) * 64 + d] + FromSextets(v[4..])
    else if |v| == 3 then
      var a, b, c: int := v[0], v[1], v[2];
      [a * 4 + b / 16, (b % 16) * 16 + c / 4]
    else if |v| == 2 then
      var a, b: int := v[0], v[1];
      [a * 4 + b / 16]
    else []
  }

  /** Three bytes per four digits, rounded down. */
  lemma {:induction false} FromSextetsLength(v: seq<Sextet>)
    requires |v| % 4 != 1
    ensures |FromSextets(v)| == (3 * |v|) / 4
    decreases |v|
  {
    if |v| >= 4 {
      FromSextetsLength(v[4..]);
    }
  }

  /** Forgiving base64 decode: remove whitespace, strip the padding, fail on
      a length of the form `4k + 1` or a character outside the alphabet,
      otherwise decode the digits. It succeeds exactly when neither failure
      applies, and then yields three bytes per four digits, rounded down. */
  function ForgivingDecode(s: string): (r: Option<seq<Byte>>)
    ensures var d := StripPadding(RemoveWhitespace(s));
      r.Some? <==> |d| % 4 != 1 && forall k :: 0 <= k < |d| ==> SextetOf(d[k]).Some?
    ensures r.Some? ==> |r.value| == (3 * |StripPadding(RemoveWhitespace(s))|) / 4
  {
    var d := StripPadding(RemoveWhitespace(s));
    if |d| % 4 == 1 then None
    else match Digits(d)
      case None => None
      case Some(v) =>
        FromSextetsLength(v);
        Some(FromSextets(v))
  }

  /** The "binary string" `atob` returns: one character per byte, the
      character code being the byte. */
  function BinaryString(b: seq<Byte>): (s: string)
    ensures |s| == |b|
    ensures forall k :: 0 <= k < |s| ==> s[k] as int == b[k]
  {
    seq(|b|, i requires 0 <= i < |b| => b[i] as char)
  }

  /** `atob`: the decoded bytes as a binary string, or `None` where the
      browser throws an InvalidCharacterError. With `d` the text left after
      whitespace removal and padding stripping, it succeeds exactly when the
      length of `d` is not of the form `4k + 1` and `d` holds only alphabet
      characters; the result then has `3 * |d| / 4` characters (rounded
      down), every character code below 256. */
  function Atob(s: string): (r: Option<string>)
    ensures var d := StripPadding(RemoveWhitespace(s));
      r.Some? <==> |d| % 4 != 1 && forall k :: 0 <= k < |d| ==> SextetOf(d[k]).Some?
    ensures r.Some? ==> |r.value| == (3 * |StripPadding(RemoveWhitespace(s))|) / 4
    ensures r.Some? ==> forall k :: 0 <= k < |r.value| ==> r.value[k] as int < 256
  {
    match ForgivingDecode(s)
    case None => None
    case Some(b) => Some(BinaryString(b))
  }

  // ---------------------------------------------------------------------------
  // Round trip
  // ---------------------------------------------------------------------------

  /** Decoding the digits of some bytes gives back those bytes. */
  lemma {:induction false} FromToSextets(b: seq<Byte>)
    ensures |ToSextets(b)| % 4 != 1
    ensures FromSextets(ToSextets(b)) == b
    decreases |b|
  {
    ToSextetsLength(b);
    if |b| >= 3 {
      var q: seq<Sextet> := [b[0] / 4, (b[0] % 4) * 16 + b[1] / 16, (b[1] % 16) * 4 + b[2] / 64, b[2] % 64];
      var rest := ToSextets(b[3..]);
      assert ToSextets(b) == q + rest;
      assert (q + rest)[4..] == rest;
      FromToSextets(b[3..]);
      assert b == b[..3] + b[3..];
    }
  }

  /** Stripping the padding of an encoding leaves exactly its digits. */
  lemma StripEncodePadding(b: seq<Byte>)
    ensures StripPadding(Encode(b)) == Chars(ToSextets(b))
  {
    ToSextetsLength(b);
    var c := Chars(ToSextets(b));
    var e := Encode(b);
    if |b| % 3 == 1 {
      assert e[|e| - 2..] == "==";
      assert e[..|e| - 2] == c;
    } else if |b| % 3 == 2 {
      assert e[|e| - 2..] != "==" by {
        assert e[|e| - 2] == c[|c| - 1] != '=';
      }
      assert e[..|e| - 1] == c;
    } else if |b| > 0 {
      assert e == c;
      assert e[|e| - 2..] != "==" by {
        assert e[|e| - 1] == c[|c| - 1] != '=';
      }
    }
  }

  /** The digits written as characters read back as the same digits. */
  lemma DigitsOfChars(v: seq<Sextet>)
    ensures Digits(Chars(v)) == Some(v)
  {
    var d := Digits(Chars(v));
    assert d.Some? by {
      forall k | 0 <= k < |Chars(v)| ensures SextetOf(Chars(v)[k]).Some? {
        AlphabetBijective(v[k], Chars(v)[k]);
      }
    }
    forall k | 0 <= k < |v| ensures d.value[k] == v[k] {
      assert Chars(d.value)[k] == Chars(v)[k];
      AlphabetBijective(d.value[k], Chars(v)[k]);
      AlphabetBijective(v[k], Chars(v)[k]);
    }
    assert d.value == v;
  }

  /** Round trip: forgiving decoding of the canonical encoding of any byte
      sequence, the empty one included, gives back exactly those bytes. */
  lemma {:induction false} DecodeEncode(b: seq<Byte>)
    ensures ForgivingDecode(Encode(b)) == Some(b)
  {
    var e, v := Encode(b), ToSextets(b);
    assert forall k :: 0 <= k < |e| ==> !IsAsciiWhitespace(e[k]);
    RemoveWhitespaceKeeps(e);
    StripEncodePadding(b);
    DigitsOfChars(v);
    FromToSextets(b);
    var d := StripPadding(RemoveWhitespace(e));
    assert d == Chars(v) && |d| % 4 != 1;
  }

  /** Round trip through `atob`: the binary string of the original bytes. */
  lemma AtobEncode(b: seq<Byte>)
    ensures Atob(Encode(b)) == Some(BinaryString(b))
  {
    DecodeEncode(b);
  }

  /** Text of length `4k + 1` after whitespace removal is always rejected,
      whatever its characters. */
  lemma RejectsLengthOneModFour(s: string)
    requires |RemoveWhitespace(s)| % 4 == 1
    ensures ForgivingDecode(s) == None
  {
  }

  /** `atob("undefined")` fails: nine characters, a length of the form `4k + 1`. */
  lemma UndefinedRejected()
    ensures ForgivingDecode("undefined") == None
  {
    var u := "undefined";
    assert forall k :: 0 <= k < |u| ==> !IsAsciiWhitespace(u[k]);
    RemoveWhitespaceKeeps(u);
  }

  /** A character outside the alphabet that survives whitespace removal and
      padding stripping makes the decode fail. */
  lemma RejectsStrayCharacter(s: string, k: nat)
    requires k < |StripPadding(RemoveWhitespace(s))|
    requires SextetOf(StripPadding(RemoveWhitespace(s))[k]).None?
    ensures ForgivingDecode(s) == None
  {
  }
}
