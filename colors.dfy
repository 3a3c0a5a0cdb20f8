/** Colours. Nodes take the palette's colours in turn; a link takes its
    source node's colour, converted from `#rrggbb` to a translucent
    `rgba(r,g,b,0.3)` string. */
module Colors {
  import opened Arith
  import opened Seqs
  import opened Graph

  datatype Option<T> = None | Some(value: T)

  /** The palettes offered for selection. */
  const DefaultPalette: seq<string> := ["#41484f", "#015651", "#49dd5b", "#48bfaf", "#4c2d83"]
  const HighContrastPalette: seq<string> :=
    ["#e41a1c", "#377eb8", "#4daf4a", "#984ea3", "#ff7f00", "#ffff33", "#a65628", "#f781bf"]
  const EarthyPalette: seq<string> :=
    ["#b58900", "#cb4b16", "#268bd2", "#2aa198", "#859900", "#6c71c4", "#d33682", "#073642", "#fdf6e3"]

  /** `[color_palette[i % len(color_palette)] for i in range(n)]` */
  function NodeColors(palette: seq<string>, n: nat): (cs: seq<string>)
    requires |palette| > 0
    ensures |cs| == n
    ensures forall i :: 0 <= i < n ==> cs[i] == palette[i % |palette|]
  {
    seq(n, i requires 0 <= i < n => palette[i % |palette|])
  }

  /** The first nodes take the palette in order, and the colours repeat
      with the palette's length as period. */
  lemma NodeColorsCycle(palette: seq<string>, n: nat)
    requires |palette| > 0
    ensures forall i :: 0 <= i < n && i < |palette| ==> NodeColors(palette, n)[i] == palette[i]
    ensures forall i :: 0 <= i && i + |palette| < n ==>
              NodeColors(palette, n)[i + |palette|] == NodeColors(palette, n)[i]
  {
    var p := |palette|;
    var cs := NodeColors(palette, n);
    forall i | 0 <= i < n && i < p
      ensures cs[i] == palette[i]
    {
      DivModUnique(i, p, 0, i);
    }
    forall i | 0 <= i && i + p < n
      ensures cs[i + p] == cs[i]
    {
      ModShift(i, p);
      assert cs[i + p] == palette[(i + p) % p];
    }
  }

  lemma ModShift(i: nat, p: nat)
    requires p > 0
    ensures (i + p) % p == i % p
  {
    var q, r := i / p, i % p;
    assert i + p == (q + 1) * p + r;
    DivModUnique(i + p, p, q + 1, r);
  }

  lemma DivModUnique(x: int, p: int, q: int, r: int)
    requires p > 0 && 0 <= r < p && x == q * p + r
    ensures x % p == r
  {
    var q', r' := x / p, x % p;
    assert (q - q') * p == r' - r;
    MulSign(q - q', p);
    MulSign(q' - q, p);
    assert (q' - q) * p == r - r';
  }

  predicate IsHexDigit(c: char) {
    '0' <= c <= '9' || 'a' <= c <= 'f' || 'A' <= c <= 'F'
  }

  function HexDigitValue(c: char): (v: nat)
    requires IsHexDigit(c)
    ensures v < 16
  {
    if '0' <= c <= '9' then (c - '0') as nat
    else if 'a' <= c <= 'f' then (c - 'a') as nat + 10
    else (c - 'A') as nat + 10
  }

  predicate AllHex(s: string) {
    forall i :: 0 <= i < |s| ==> IsHexDigit(s[i])
  }

  /** The number a string of hex digits denotes, most significant first. */
  function HexValue(s: string): nat
    requires AllHex(s)
  {
    if s == [] then 0
    else
      var n := |s| - 1;
      assert AllHex(s[..n]) by {
        forall i | 0 <= i < n
          ensures IsHexDigit(s[..n][i])
        {
          assert s[..n][i] == s[i];
        }
      }
      HexValue(s[..n]) * 16 + HexDigitValue(s[n])
  }

  /** The characters `int()` skips around its argument: space, tab,
      newline, carriage return, vertical tab and form feed. The separators
      `\x1c` to `\x1f`, which `str.strip` would remove, are not among them. */
  predicate IsSpace(c: char) {
    c == ' ' || c == '\t' || c == '\n' || c == '\r' || c == '\U{B}' || c == '\U{C}'
  }

  function StripLeft(s: string): string
  {
    if |s| > 0 && IsSpace(s[0]) then StripLeft(s[1..]) else s
  }

  function StripRight(s: string): string
  {
    if |s| > 0 && IsSpace(s[|s| - 1]) then StripRight(s[..|s| - 1]) else s
  }

  /** Stripping the front removes a run of whitespace and stops at the
      first character that is not whitespace. */
  lemma {:induction false} StripLeftSpec(s: string)
    ensures |StripLeft(s)| <= |s| && StripLeft(s) == s[|s| - |StripLeft(s)|..]
    ensures |StripLeft(s)| > 0 ==> !IsSpace(StripLeft(s)[0])
    ensures forall i :: 0 <= i < |s| - |StripLeft(s)| ==> IsSpace(s[i])
  {
    if |s| > 0 && IsSpace(s[0]) {
      StripLeftSpec(s[1..]);
      var t := StripLeft(s[1..]);
      assert s[1..][|s| - 1 - |t|..] == s[|s| - |t|..];
      forall i | 0 <= i < |s| - |t|
        ensures IsSpace(s[i])
      {
        if i > 0 {
          assert s[1..][i - 1] == s[i];
        }
      }
    }
  }

  /** Stripping the back removes a run of whitespace and stops at the
      last character that is not whitespace. */
  lemma {:induction false} StripRightSpec(s: string)
    ensures |StripRight(s)| <= |s| && StripRight(s) == s[..|StripRight(s)|]
    ensures |StripRight(s)| > 0 ==> !IsSpace(StripRight(s)[|StripRight(s)| - 1])
    ensures forall i :: |StripRight(s)| <= i < |s| ==> IsSpace(s[i])
  {
    if |s| > 0 && IsSpace(s[|s| - 1]) {
      var n := |s| - 1;
      StripRightSpec(s[..n]);
      var t := StripRight(s[..n]);
      assert s[..n][..|t|] == s[..|t|];
      forall i | |t| <= i < |s|
        ensures IsSpace(s[i])
      {
        if i < n {
          assert s[..n][i] == s[i];
        }
      }
    }
  }

  /** `int(s, 16)` on the one- and two-character fields that `hex_to_rgba`
      cuts out: surrounding whitespace is ignored, a sign is allowed, and
      at least one hex digit must follow; anything else is a `ValueError`,
      here `None`. */
  function ParseInt16(s: string): Option<int>
  {
    var t := StripRight(StripLeft(s));
    if |t| > 0 && (t[0] == '+' || t[0] == '-') then
      var digits := t[1..];
      if |digits| > 0 && AllHex(digits) then
        var v: int := HexValue(digits);
        Some(if t[0] == '-' then -v else v)
      else None
    else if |t| > 0 && AllHex(t) then Some(HexValue(t))
    else None
  }

  /** `s.lstrip("#")` */
  function LStripHash(s: string): string
  {
    if |s| > 0 && s[0] == '#' then LStripHash(s[1..]) else s
  }

  function Min(a: nat, b: nat): nat {
    if a <= b then a else b
  }

  /** `s[i:j]` for `0 <= i <= j`: the bounds are clipped to the string. */
  function Slice(s: string, i: nat, j: nat): string
    requires i <= j
  {
    s[Min(i, |s|)..Min(j, |s|)]
  }

  datatype Rgb = Rgb(r: int, g: int, b: int)

  /** The three `int(..., 16)` calls of `hex_to_rgba`, left to right; the
      first one to fail makes the whole conversion fail. */
  function ParseRgb(hexColor: string): Option<Rgb>
  {
    var h := LStripHash(hexColor);
    match ParseInt16(Slice(h, 0, 2))
    case None => None
    case Some(r) =>
      match ParseInt16(Slice(h, 2, 4))
      case None => None
      case Some(g) =>
        match ParseInt16(Slice(h, 4, 6))
        case None => None
        case Some(b) => Some(Rgb(r, g, b))
  }

  /** `str(n)` */
  function DecimalString(n: int): string
    decreases if n < 0 then 1 - n else n
  {
    if n < 0 then "-" + DecimalString(-n)
    else if n < 10 then [('0' as int + n) as char]
    else DecimalString(n / 10) + [('0' as int + n % 10) as char]
  }

  predicate IsDecimalDigit(c: char) {
    '0' <= c <= '9'
  }

  /** The number a string of decimal digits denotes. */
  function DecimalValue(s: string): nat
    requires forall i :: 0 <= i < |s| ==> IsDecimalDigit(s[i])
  {
    if s == [] then 0
    else
      var n := |s| - 1;
      assert forall i :: 0 <= i < n ==> s[..n][i] == s[i];
      assert IsDecimalDigit(s[n]);
      DecimalValue(s[..n]) * 10 + (s[n] as int - '0' as int) as nat
  }

  /** `str` of a non-negative number is a non-empty string of digits that
      reads back as the number. */
  lemma {:induction false} DecimalRoundTrip(n: nat)
    ensures |DecimalString(n)| > 0
    ensures forall i :: 0 <= i < |DecimalString(n)| ==> IsDecimalDigit(DecimalString(n)[i])
    ensures DecimalValue(DecimalString(n)) == n
  {
    var s := DecimalString(n);
    if n >= 10 {
      DecimalRoundTrip(n / 10);
      var front := DecimalString(n / 10);
      assert s == front + [('0' as int + n % 10) as char];
      assert s[..|s| - 1] == front;
    }
  }

  /** The text `hex_to_rgba` returns, from the parsed components. */
  function RgbaText(c: Rgb): string
  {
    "rgba(" + DecimalString(c.r) + "," + DecimalString(c.g) + "," + DecimalString(c.b) + ",0.3)"
  }

  /** `hex_to_rgba(hex_color)` with the default alpha 0.3. */
  function HexToRgba(hexColor: string): (r: Option<string>)
    ensures r.Some? <==> ParseRgb(hexColor).Some?
    ensures r.Some? ==> r.value == RgbaText(ParseRgb(hexColor).value)
  {
    match ParseRgb(hexColor)
    case None => None
    case Some(c) => Some(RgbaText(c))
  }

  /** A two-digit field reads as a number from 0 to 255. */
  lemma TwoHexDigits(a: char, b: char)
    requires IsHexDigit(a) && IsHexDigit(b)
    ensures ParseInt16([a, b]) == Some(16 * HexDigitValue(a) + HexDigitValue(b))
    ensures 0 <= 16 * HexDigitValue(a) + HexDigitValue(b) <= 255
  {
    var s := [a, b];
    assert !IsSpace(a) && !IsSpace(b);
    assert s[0] == a;
    assert StripLeft(s) == s;
    assert StripRight(s) == s;
    assert s[..1] == [a] && [a][..0] == [];
    assert HexValue([a]) == HexDigitValue(a);
    assert HexValue(s) == 16 * HexDigitValue(a) + HexDigitValue(b);
  }

  /** A two-character field that starts with anything other than
      whitespace, a sign or a hex digit is a `ValueError`. */
  lemma LeadingJunkFails(a: char, b: char)
    requires !IsSpace(a) && !IsHexDigit(a) && a != '+' && a != '-'
    ensures ParseInt16([a, b]) == None
  {
    var s := [a, b];
    assert s[0] == a;
    assert StripLeft(s) == s;
    var t := StripRight(s);
    if IsSpace(b) {
      assert s[..|s| - 1] == [a];
      assert [a][0] == a;
      assert StripRight([a]) == [a];
      assert t == [a];
    }
    assert t[0] == a;
  }

  /** The information separators `\x1c` to `\x1f` are not skipped:
      a colour such as `#\x1c1ffff` makes `hex_to_rgba` fail. */
  lemma SeparatorFails()
    ensures ParseInt16("\U{1C}1") == None
    ensures ParseRgb("#\U{1C}1ffff") == None
  {
    LeadingJunkFails('\U{1C}', '1');
    assert LStripHash("#\U{1C}1ffff") == "\U{1C}1ffff";
    assert Slice("\U{1C}1ffff", 0, 2) == "\U{1C}1";
  }

  /** The two characters from position `i` of `h`, when both are hex
      digits, read as the byte they spell. */
  lemma HexField(h: string, i: nat)
    requires i + 2 <= |h| && IsHexDigit(h[i]) && IsHexDigit(h[i + 1])
    ensures ParseInt16(Slice(h, i, i + 2)) == Some(16 * HexDigitValue(h[i]) + HexDigitValue(h[i + 1]))
  {
    SliceOfTwo(h, i);
    TwoHexDigits(h[i], h[i + 1]);
  }

  lemma SliceOfTwo(h: string, i: nat)
    requires i + 2 <= |h|
    ensures Slice(h, i, i + 2) == [h[i], h[i + 1]]
  {
  }

  /** `#` followed by six hex digits. */
  predicate IsHexColor(s: string) {
    |s| == 7 && s[0] == '#' && AllHex(s[1..])
  }

  /** A well-formed colour converts, and each component is the byte its
      two digits spell. */
  lemma HexColorComponents(s: string)
    requires IsHexColor(s)
    ensures ParseRgb(s).Some?
    ensures var c := ParseRgb(s).value;
      && c.r == 16 * HexDigitValue(s[1]) + HexDigitValue(s[2])
      && c.g == 16 * HexDigitValue(s[3]) + HexDigitValue(s[4])
      && c.b == 16 * HexDigitValue(s[5]) + HexDigitValue(s[6])
      && 0 <= c.r <= 255 && 0 <= c.g <= 255 && 0 <= c.b <= 255
  {
    var h := s[1..];
    assert IsHexDigit(h[0]);
    assert LStripHash(h) == h;
    assert LStripHash(s) == h;
    HexField(h, 0);
    HexField(h, 2);
    HexField(h, 4);
  }

  function HexChar(v: nat): (c: char)
    requires v < 16
    ensures IsHexDigit(c) && HexDigitValue(c) == v
  {
    if v < 10 then ('0' as int + v) as char else ('a' as int + v - 10) as char
  }

  /** The `#rrggbb` spelling of a colour with components in 0..255. */
  function ToHexColor(c: Rgb): string
    requires 0 <= c.r < 256 && 0 <= c.g < 256 && 0 <= c.b < 256
  {
    ['#', HexChar(c.r / 16), HexChar(c.r % 16), HexChar(c.g / 16), HexChar(c.g % 16),
     HexChar(c.b / 16), HexChar(c.b % 16)]
  }

  /** Converting the `#rrggbb` spelling of a colour gives back its
      components. */
  lemma HexColorRoundTrip(c: Rgb)
    requires 0 <= c.r < 256 && 0 <= c.g < 256 && 0 <= c.b < 256
    ensures IsHexColor(ToHexColor(c))
    ensures ParseRgb(ToHexColor(c)) == Some(c)
    ensures HexToRgba(ToHexColor(c)) == Some(RgbaText(c))
  {
    var s := ToHexColor(c);
    assert forall i :: 0 <= i < 6 ==> s[1..][i] == s[i + 1];
    HexColorComponents(s);
    var p := ParseRgb(s).value;
    SplitByte(c.r);
    SplitByte(c.g);
    SplitByte(c.b);
    assert s[1] == HexChar(c.r / 16) && s[2] == HexChar(c.r % 16);
    assert s[3] == HexChar(c.g / 16) && s[4] == HexChar(c.g % 16);
    assert s[5] == HexChar(c.b / 16) && s[6] == HexChar(c.b % 16);
    assert p.r == c.r;
    assert p.g == c.g;
    assert p.b == c.b;
  }

  lemma SplitByte(v: int)
    requires 0 <= v < 256
    ensures 0 <= v / 16 < 16 && 16 * (v / 16) + v % 16 == v
  {
  }

  /** Every colour of the offered palettes is well formed, so it converts
      and its components are bytes. */
  lemma PalettesWellFormed()
    ensures forall i :: 0 <= i < |DefaultPalette| ==> IsHexColor(DefaultPalette[i])
    ensures forall i :: 0 <= i < |HighContrastPalette| ==> IsHexColor(HighContrastPalette[i])
    ensures forall i :: 0 <= i < |EarthyPalette| ==> IsHexColor(EarthyPalette[i])
  {
    forall i | 0 <= i < |DefaultPalette|
      ensures IsHexColor(DefaultPalette[i])
    {
      AllHexOfDigits(DefaultPalette[i]);
    }
    forall i | 0 <= i < |HighContrastPalette|
      ensures IsHexColor(HighContrastPalette[i])
    {
      AllHexOfDigits(HighContrastPalette[i]);
    }
    forall i | 0 <= i < |EarthyPalette|
      ensures IsHexColor(EarthyPalette[i])
    {
      AllHexOfDigits(EarthyPalette[i]);
    }
  }

  lemma AllHexOfDigits(s: string)
    requires |s| == 7 && s[0] == '#'
    requires IsHexDigit(s[1]) && IsHexDigit(s[2]) && IsHexDigit(s[3])
    requires IsHexDigit(s[4]) && IsHexDigit(s[5]) && IsHexDigit(s[6])
    ensures IsHexColor(s)
  {
    assert forall i :: 0 <= i < 6 ==> s[1..][i] == s[i + 1];
  }

  /** `[hex_to_rgba(node_color_list[label_idx[s]]) for s in df["source"]]`:
      every link's colour, or `None` when one of them fails to convert. */
  function LinkColors(g: seq<Edge>, labels: seq<Label>, nodeColors: seq<string>): (r: Option<seq<string>>)
    requires forall k :: 0 <= k < |g| ==> g[k].source in labels
    requires |nodeColors| == |labels|
    ensures r.Some? <==> forall k :: 0 <= k < |g| ==> HexToRgba(nodeColors[SourceIndices(g, labels)[k]]).Some?
    ensures r.Some? ==> |r.value| == |g| && forall k :: 0 <= k < |g| ==>
              r.value[k] == HexToRgba(nodeColors[SourceIndices(g, labels)[k]]).value
  {
    var idx := SourceIndices(g, labels);
    if forall k :: 0 <= k < |g| ==> HexToRgba(nodeColors[idx[k]]).Some? then
      Some(seq(|g|, k requires 0 <= k < |g| && HexToRgba(nodeColors[idx[k]]).Some? =>
        HexToRgba(nodeColors[idx[k]]).value))
    else None
  }
}
