/**
 * Colour values: `toInt` and `parseRGB` (assets/js/app.js), which accept
 * `#RRGGBB` / `RRGGBB` hex or three numbers separated by commas, spaces or
 * slashes, and give "no value" for anything else.
 */
module Rgb {
  import opened Wrappers
  import opened Text

  /** The `[r, g, b]` array that `parseRGB` returns. */
  datatype Rgb = Rgb(r: int, g: int, b: int)

  predicate IsDigit(c: char) { '0' <= c <= '9' }

  predicate IsHexDigit(c: char) { IsDigit(c) || 'a' <= c <= 'f' || 'A' <= c <= 'F' }

  function HexValue(c: char): (v: nat)
    requires IsHexDigit(c)
    ensures v < 16
  {
    if IsDigit(c) then c as int - '0' as int
    else if 'a' <= c <= 'f' then c as int - 'a' as int + 10
    else c as int - 'A' as int + 10
  }

  predicate AllHex(s: string) { forall i :: 0 <= i < |s| ==> IsHexDigit(s[i]) }

  /** The test `/^#?[0-9a-f]{6}$/i`. */
  predicate IsHexColor(s: string) {
    (|s| == 6 && AllHex(s)) || (|s| == 7 && s[0] == '#' && AllHex(s[1..]))
  }

  /** `parseInt(h.slice(i, i + 2), 16)` on two hex digits. */
  function HexByte(h: string, i: nat): (v: nat)
    requires i + 2 <= |h| && IsHexDigit(h[i]) && IsHexDigit(h[i + 1])
    ensures v <= 255
  {
    16 * HexValue(h[i]) + HexValue(h[i + 1])
  }

  /** A character of the class `[,\s/]`. */
  predicate IsSeparator(c: char) { c == ',' || c == '/' || IsSpace(c) }

  predicate NoSeparator(s: string) { forall i :: 0 <= i < |s| ==> !IsSeparator(s[i]) }

  /** Drops the leading run of separators. */
  function DropSeparators(s: string): (r: string)
    ensures |r| <= |s| && r == s[|s| - |r|..]
    ensures r == [] || !IsSeparator(r[0])
    ensures s != [] && IsSeparator(s[0]) ==> |r| < |s|
  {
    if s != [] && IsSeparator(s[0]) then DropSeparators(s[1..]) else s
  }

  /**
   * `s.split(/[,\s/]+/)`: the text between maximal runs of separators, with an
   * empty first (last) piece when `s` starts (ends) with a separator.
   */
  function SplitSeparators(s: string): (r: seq<string>)
    ensures |r| >= 1
    decreases |s|
  {
    if s == [] then [[]]
    else if IsSeparator(s[0]) then [[]] + SplitSeparators(DropSeparators(s))
    else
      var rest := SplitSeparators(s[1..]);
      [[s[0]] + rest[0]] + rest[1..]
  }

  /** The pieces hold no separator, and only the first and the last can be empty. */
  lemma {:induction false} SplitSeparatorsShape(s: string)
    ensures forall k :: 0 <= k < |SplitSeparators(s)| ==> NoSeparator(SplitSeparators(s)[k])
    ensures forall k :: 0 < k < |SplitSeparators(s)| - 1 ==> SplitSeparators(s)[k] != []
    decreases |s|
  {
    if s != [] && IsSeparator(s[0]) {
      var t := DropSeparators(s);
      SplitSeparatorsShape(t);
      var r := SplitSeparators(s);
      assert r == [[]] + SplitSeparators(t);
      assert forall k :: 0 < k < |r| ==> r[k] == SplitSeparators(t)[k - 1];
    } else if s != [] {
      SplitSeparatorsShape(s[1..]);
      var rest := SplitSeparators(s[1..]);
      var r := SplitSeparators(s);
      assert r == [[s[0]] + rest[0]] + rest[1..];
      assert forall k :: 0 < k < |r| ==> r[k] == rest[k];
      assert NoSeparator(r[0]) by {
        forall i | 0 <= i < |r[0]| ensures !IsSeparator(r[0][i]) {
          if i > 0 { assert r[0][i] == rest[0][i - 1]; }
        }
      }
    }
  }

  /** `s.split(/[,\s/]+/).map(x => x.trim()).filter(Boolean)`. */
  function Tokens(s: string): seq<string> {
    DropEmpty(TrimAll(SplitSeparators(s)))
  }

  /** Every token is non-empty and free of separators. */
  lemma TokensShape(s: string)
    ensures forall k :: 0 <= k < |Tokens(s)| ==> Tokens(s)[k] != [] && NoSeparator(Tokens(s)[k])
  {
    var pieces := SplitSeparators(s);
    SplitSeparatorsShape(s);
    NoSeparatorTrimmed(pieces);
    var r := Tokens(s);
    assert forall k :: 0 <= k < |r| ==> r[k] in pieces;
  }

  /** A piece without separators has no whitespace, so `trim` leaves it alone. */
  lemma NoSeparatorTrimmed(ps: seq<string>)
    requires forall k :: 0 <= k < |ps| ==> NoSeparator(ps[k])
    ensures TrimAll(ps) == ps
  {
  }

  predicate AllDigits(s: string) { forall i :: 0 <= i < |s| ==> IsDigit(s[i]) }

  /** The value of a string of decimal digits. */
  function DecimalValue(d: string): (v: nat)
    requires AllDigits(d)
  {
    if d == [] then 0 else 10 * DecimalValue(d[..|d| - 1]) + (d[|d| - 1] as int - '0' as int)
  }

  /**
   * `toInt`: the number a token denotes, or `null`. Only decimal integers with
   * an optional sign are modelled (the model's stand-in for `Number`).
   */
  function ToInt(t: string): (r: Option<int>)
    ensures r.Some? ==> t != [] && NoSeparator(t)
  {
    if |t| > 1 && (t[0] == '+' || t[0] == '-') && AllDigits(t[1..]) then
      var v: int := DecimalValue(t[1..]);
      Some(if t[0] == '-' then -v else v)
    else if |t| > 0 && AllDigits(t) then
      Some(DecimalValue(t))
    else
      None
  }

  predicate IsByteColor(c: Rgb) { 0 <= c.r <= 255 && 0 <= c.g <= 255 && 0 <= c.b <= 255 }

  /** The three bytes of a string that passed the hex test. */
  function ParseHex(s: string): (c: Rgb)
    requires IsHexColor(s)
    ensures IsByteColor(c)
  {
    var h := if s[0] == '#' then s[1..] else s;
    Rgb(HexByte(h, 0), HexByte(h, 2), HexByte(h, 4))
  }

  /** Three tokens that are all numbers, or "no value". */
  function ParseTokens(tokens: seq<string>): (r: Option<Rgb>)
    ensures r.Some? <==> |tokens| == 3 && forall k :: 0 <= k < 3 ==> ToInt(tokens[k]).Some?
    ensures r.Some? ==> r.value == Rgb(ToInt(tokens[0]).value, ToInt(tokens[1]).value, ToInt(tokens[2]).value)
  {
    if |tokens| == 3 && ToInt(tokens[0]).Some? && ToInt(tokens[1]).Some? && ToInt(tokens[2]).Some? then
      Some(Rgb(ToInt(tokens[0]).value, ToInt(tokens[1]).value, ToInt(tokens[2]).value))
    else
      None
  }

  /** `parseRGB(raw)`. */
  function ParseRGB(raw: string): (r: Option<Rgb>)
    ensures raw == [] ==> r == None
    ensures raw != [] && IsHexColor(Trim(raw)) ==> r.Some? && IsByteColor(r.value)
    ensures raw != [] && !IsHexColor(Trim(raw)) ==> r == ParseTokens(Tokens(Trim(raw)))
  {
    if raw == [] then None
    else
      var s := Trim(raw);
      if IsHexColor(s) then Some(ParseHex(s)) else ParseTokens(Tokens(s))
  }

  // ---- Formatting, the inverse direction ----

  function HexDigitChar(v: nat): (c: char)
    requires v < 16
    ensures IsHexDigit(c) && HexValue(c) == v
  {
    if v < 10 then ('0' as int + v) as char else ('a' as int + v - 10) as char
  }

  /** Two lower-case hex digits for a byte. */
  function Hex2(v: nat): (s: string)
    requires v <= 255
    ensures |s| == 2 && AllHex(s) && HexByte(s, 0) == v
  {
    [HexDigitChar(v / 16), HexDigitChar(v % 16)]
  }

  /** `RRGGBB`, with a leading `#` when `hash` holds. */
  function HexColor(c: Rgb, hash: bool): (s: string)
    requires IsByteColor(c)
    ensures IsHexColor(s)
  {
    (if hash then "#" else "") + Hex2(c.r) + Hex2(c.g) + Hex2(c.b)
  }

  /** Decimal digits of a natural number, most significant first. */
  function ShowNat(n: nat): (s: string)
    ensures s != [] && AllDigits(s) && DecimalValue(s) == n
  {
    if n < 10 then [('0' as int + n) as char]
    else
      var s := ShowNat(n / 10) + [('0' as int + n % 10) as char];
      assert s[..|s| - 1] == ShowNat(n / 10);
      s
  }

  function ShowInt(n: int): (s: string)
    ensures s != [] && NoSeparator(s) && IsDigit(s[|s| - 1]) && !IsSpace(s[0])
  {
    if n < 0 then "-" + ShowNat(-n) else ShowNat(n)
  }

  lemma ShowIntRoundTrip(n: int)
    ensures ToInt(ShowInt(n)) == Some(n)
  {
    if n < 0 {
      assert ShowInt(n)[1..] == ShowNat(-n);
    }
  }

  /** Any `#RRGGBB` or `RRGGBB` spelling of a byte colour parses back to that colour. */
  lemma HexRoundTrip(c: Rgb, hash: bool)
    requires IsByteColor(c)
    ensures ParseRGB(HexColor(c, hash)) == Some(c)
  {
    HexTextParses(HexColor(c, hash));
    HexDigitsRoundTrip(c, hash);
  }

  /** Text that passes the hex test is trimmed, so it is read as hex. */
  lemma HexTextParses(s: string)
    requires IsHexColor(s)
    ensures ParseRGB(s) == Some(ParseHex(s))
  {
    assert s[|s| - 1] == s[1..][|s| - 2];
    assert Trimmed(s);
  }

  lemma HexDigitsRoundTrip(c: Rgb, hash: bool)
    requires IsByteColor(c)
    ensures ParseHex(HexColor(c, hash)) == c
  {
    var s := HexColor(c, hash);
    var h := if s[0] == '#' then s[1..] else s;
    assert h == Hex2(c.r) + Hex2(c.g) + Hex2(c.b);
    assert h[0..2] == Hex2(c.r) && h[2] == Hex2(c.g)[0] && h[3] == Hex2(c.g)[1];
    assert h[4] == Hex2(c.b)[0] && h[5] == Hex2(c.b)[1];
  }

  predicate AllSeparators(s: string) { forall i :: 0 <= i < |s| ==> IsSeparator(s[i]) }

  lemma {:induction false} DropSeparatorsPrefix(sep: string, rest: string)
    requires AllSeparators(sep)
    requires rest == [] || !IsSeparator(rest[0])
    ensures DropSeparators(sep + rest) == rest
  {
    if sep == [] {
      assert sep + rest == rest;
    } else {
      assert (sep + rest)[1..] == sep[1..] + rest;
      DropSeparatorsPrefix(sep[1..], rest);
    }
  }

  /** A separator-free word followed by text that starts with a separator. */
  lemma {:induction false} SplitAfterWord(w: string, t: string)
    requires NoSeparator(w)
    requires t == [] || IsSeparator(t[0])
    ensures SplitSeparators(w + t) == [w + SplitSeparators(t)[0]] + SplitSeparators(t)[1..]
  {
    if w == [] {
      assert w + t == t;
      assert SplitSeparators(t) == [SplitSeparators(t)[0]] + SplitSeparators(t)[1..];
    } else {
      var p := SplitSeparators(t);
      assert (w + t)[0] == w[0] && (w + t)[1..] == w[1..] + t;
      SplitAfterWord(w[1..], t);
      var rest := SplitSeparators(w[1..] + t);
      assert rest == [w[1..] + p[0]] + p[1..];
      assert SplitSeparators(w + t) == [[w[0]] + rest[0]] + rest[1..];
      assert [w[0]] + (w[1..] + p[0]) == w + p[0];
    }
  }

  /** The pieces of `w + sep + rest`: the word, then the pieces of `rest`. */
  lemma SplitWordSep(w: string, sep: string, rest: string)
    requires NoSeparator(w) && sep != [] && AllSeparators(sep)
    requires rest == [] || !IsSeparator(rest[0])
    ensures SplitSeparators(w + sep + rest) == [w] + SplitSeparators(rest)
  {
    assert w + sep + rest == w + (sep + rest);
    DropSeparatorsPrefix(sep, rest);
    assert SplitSeparators(sep + rest) == [[]] + SplitSeparators(rest);
    SplitAfterWord(w, sep + rest);
    assert w + [] == w;
  }

  lemma {:induction false} SplitWord(w: string)
    requires NoSeparator(w)
    ensures SplitSeparators(w) == [w]
  {
    SplitAfterWord(w, []);
    assert w + [] == w;
  }

  /** Three separator-free words joined by separator runs tokenise back to the words. */
  lemma JoinedTokens(x: string, sep1: string, y: string, sep2: string, z: string)
    requires x != [] && y != [] && z != [] && NoSeparator(x) && NoSeparator(y) && NoSeparator(z)
    requires sep1 != [] && AllSeparators(sep1) && sep2 != [] && AllSeparators(sep2)
    ensures Tokens(x + sep1 + y + sep2 + z) == [x, y, z]
  {
    JoinedPieces(x, sep1, y, sep2, z);
    WordTokens(x + sep1 + y + sep2 + z, [x, y, z]);
  }

  lemma JoinedPieces(x: string, sep1: string, y: string, sep2: string, z: string)
    requires x != [] && y != [] && z != [] && NoSeparator(x) && NoSeparator(y) && NoSeparator(z)
    requires sep1 != [] && AllSeparators(sep1) && sep2 != [] && AllSeparators(sep2)
    ensures SplitSeparators(x + sep1 + y + sep2 + z) == [x, y, z]
  {
    var yz := y + sep2 + z;
    SplitWord(z);
    assert !IsSeparator(z[0]);
    SplitWordSep(y, sep2, z);
    assert x + sep1 + y + sep2 + z == x + sep1 + yz;
    assert yz[0] == y[0];
    SplitWordSep(x, sep1, yz);
  }

  /** When the pieces are already non-empty words, they are the tokens. */
  lemma WordTokens(s: string, ws: seq<string>)
    requires SplitSeparators(s) == ws
    requires forall k :: 0 <= k < |ws| ==> ws[k] != [] && NoSeparator(ws[k])
    ensures Tokens(s) == ws
  {
    NoSeparatorTrimmed(ws);
    DropEmptyKeeps(ws);
  }

  /** A string holding a separator fails the hex test. */
  lemma SeparatorNotHex(s: string, i: nat)
    requires i < |s| && IsSeparator(s[i])
    ensures !IsHexColor(s)
  {
    if |s| == 7 && s[0] == '#' && i > 0 {
      assert s[1..][i - 1] == s[i];
    }
  }

  /** `"R<sep>G<sep>B"` with decimal numbers parses back to those numbers. */
  lemma DelimitedRoundTrip(c: Rgb, sep1: string, sep2: string)
    requires sep1 != [] && AllSeparators(sep1)
    requires sep2 != [] && AllSeparators(sep2)
    ensures ParseRGB(ShowInt(c.r) + sep1 + ShowInt(c.g) + sep2 + ShowInt(c.b)) == Some(c)
  {
    var x, y, z := ShowInt(c.r), ShowInt(c.g), ShowInt(c.b);
    var s := x + sep1 + y + sep2 + z;
    assert s[0] == x[0] && s[|s| - 1] == z[|z| - 1];
    assert s[|x|] == sep1[0];
    DelimitedText(s, |x|);
    JoinedTokens(x, sep1, y, sep2, z);
    NumbersParse(c);
  }

  /** A trimmed string with a separator in it goes down the token path. */
  lemma DelimitedText(s: string, i: nat)
    requires i < |s| && IsSeparator(s[i]) && !IsSpace(s[0]) && !IsSpace(s[|s| - 1])
    ensures ParseRGB(s) == ParseTokens(Tokens(s))
  {
    assert Trimmed(s);
    SeparatorNotHex(s, i);
  }

  /** The three numbers, written in decimal, parse back. */
  lemma NumbersParse(c: Rgb)
    ensures ParseTokens([ShowInt(c.r), ShowInt(c.g), ShowInt(c.b)]) == Some(c)
  {
    ShowIntRoundTrip(c.r);
    ShowIntRoundTrip(c.g);
    ShowIntRoundTrip(c.b);
  }
}
