/** The colour-key parser: `hex_to_rgb` and `parse_color_range`, which turn
    `#RRGGBB` or `R,G,B` and a tolerance into per-channel BGR bounds. */
module ColorKey {
  import opened Base
  import opened Decimal
  import opened Image

  datatype ColorError =
    | BadHexGroup        // `int(g, 16)` refused a two-character group
    | WrongFieldCount    // `r, g, b = map(...)` did not unpack into three
    | BadDecimal         // `int(part)` refused a field
    | ComponentTooLarge  // a decimal component above 255

  datatype Rgb = Rgb(r: Byte, g: Byte, b: Byte)

  /** The inclusive per-channel bounds handed to cv2.inRange, in BGR order. */
  datatype Bounds = Bounds(lower: Bgr, upper: Bgr)

  // ---------------------------------------------------------------- hex path

  predicate IsHexDigit(c: char) {
    '0' <= c <= '9' || 'a' <= c <= 'f' || 'A' <= c <= 'F'
  }

  function HexDigitValue(c: char): (d: nat)
    requires IsHexDigit(c)
    ensures d < 16
  {
    if '0' <= c <= '9' then c as int - '0' as int
    else if 'a' <= c <= 'f' then c as int - 'a' as int + 10
    else c as int - 'A' as int + 10
  }

  function HexChar(d: nat): (c: char)
    requires d < 16
    ensures IsHexDigit(c) && HexDigitValue(c) == d
  {
    "0123456789ABCDEF"[d]
  }

  /** `s.lstrip('#')`: drops every leading `#`. */
  function StripHashes(s: string): (r: string)
    ensures |r| <= |s| && r == s[|s| - |r|..]
    ensures r == [] || r[0] != '#'
    ensures forall k :: 0 <= k < |s| - |r| ==> s[k] == '#'
  {
    if s != [] && s[0] == '#' then StripHashes(s[1..]) else s
  }

  /** Python's slice `s[i:j]`, which clips both ends to the string. */
  function Slice(s: string, i: nat, j: nat): (r: string)
    requires i <= j
    ensures |r| <= j - i
    ensures j <= |s| ==> r == s[i..j]
    ensures i <= |s| <= j ==> r == s[i..]
    ensures |s| <= i ==> r == []
  {
    var a := if i < |s| then i else |s|;
    var b := if j < |s| then j else |s|;
    s[a..b]
  }

  /** `int(g, 16)` on a slice of at most two characters, restricted to
      canonical hex digits. */
  function HexGroup(g: string): (r: Result<Byte, ColorError>)
    requires |g| <= 2
    ensures r.Ok? <==> g != [] && forall k :: 0 <= k < |g| ==> IsHexDigit(g[k])
    ensures r.Ok? && |g| == 1 ==> r.value == HexDigitValue(g[0])
    ensures r.Ok? && |g| == 2 ==> r.value == 16 * HexDigitValue(g[0]) + HexDigitValue(g[1])
  {
    if g == [] || !IsHexDigit(g[0]) || (|g| == 2 && !IsHexDigit(g[1])) then Err(BadHexGroup)
    else if |g| == 1 then Ok(HexDigitValue(g[0]))
    else Ok(16 * HexDigitValue(g[0]) + HexDigitValue(g[1]))
  }

  /** `hex_to_rgb`: strip the `#`s, then read the groups at offsets 0, 2, 4. */
  function HexToRgb(s: string): (r: Result<Rgb, ColorError>)
    ensures r.Ok? ==> |StripHashes(s)| >= 5
  {
    var h := StripHashes(s);
    var r :- HexGroup(Slice(h, 0, 2));
    var g :- HexGroup(Slice(h, 2, 4));
    var b :- HexGroup(Slice(h, 4, 6));
    Ok(Rgb(r, g, b))
  }

  function Hashes(k: nat): (s: string)
    ensures |s| == k && forall i :: 0 <= i < k ==> s[i] == '#'
  {
    seq(k, _ => '#')
  }

  predicate AllHex(d: string) {
    forall k :: 0 <= k < |d| ==> IsHexDigit(d[k])
  }

  function HexPair(hi: char, lo: char): Byte
    requires IsHexDigit(hi) && IsHexDigit(lo)
  {
    16 * HexDigitValue(hi) + HexDigitValue(lo)
  }

  lemma StripHashesPrefix(k: nat, d: string)
    requires d != [] && d[0] != '#'
    ensures StripHashes(Hashes(k) + d) == d
  {
    var s := Hashes(k) + d;
    assert s[k] == d[0];
  }

  /** Any run of leading `#`s, six hex digits, then anything: the three
      two-digit groups are the channels, and whatever follows the sixth
      digit is ignored. */
  lemma HexToRgbReadsSixDigits(k: nat, d: string, rest: string)
    requires |d| == 6 && AllHex(d)
    ensures HexToRgb(Hashes(k) + d + rest)
         == Ok(Rgb(HexPair(d[0], d[1]), HexPair(d[2], d[3]), HexPair(d[4], d[5])))
  {
    var h := d + rest;
    assert Hashes(k) + d + rest == Hashes(k) + h;
    StripHashesPrefix(k, h);
    assert h[..6] == d;
    HexGroupAt(h, 0);
    HexGroupAt(h, 2);
    HexGroupAt(h, 4);
  }

  /** Two hex digits at offset `o` make one channel. */
  lemma HexGroupAt(h: string, o: nat)
    requires o + 2 <= |h| && IsHexDigit(h[o]) && IsHexDigit(h[o + 1])
    ensures HexGroup(Slice(h, o, o + 2)) == Ok(HexPair(h[o], h[o + 1]))
  {
    assert Slice(h, o, o + 2) == [h[o], h[o + 1]];
  }

  /** Parsing succeeds only on hex digits: the first six characters after
      the `#`s (five when that is all there is) are all hex digits. */
  lemma HexToRgbNeedsHexDigits(s: string)
    ensures HexToRgb(s).Ok? ==> var h := StripHashes(s);
              forall k :: 0 <= k < |h| && k < 6 ==> IsHexDigit(h[k])
  {
    var h := StripHashes(s);
    if HexToRgb(s).Ok? {
      assert HexGroup(Slice(h, 0, 2)).Ok? && HexGroup(Slice(h, 2, 4)).Ok? && HexGroup(Slice(h, 4, 6)).Ok?;
      forall k | 0 <= k < |h| && k < 6
        ensures IsHexDigit(h[k])
      {
        if k < 2 {
          assert h[k] == Slice(h, 0, 2)[k];
        } else if k < 4 {
          assert h[k] == Slice(h, 2, 4)[k - 2];
        } else {
          assert h[k] == Slice(h, 4, 6)[k - 4];
        }
      }
    }
  }

  /** A leading `#` with fewer than six hex digits after the `#`s: a group
      that comes out empty is refused. */
  lemma HexToRgbTooShort(k: nat, d: string)
    requires |d| <= 4 && (d == [] || d[0] != '#')
    ensures HexToRgb(Hashes(k) + d).Err?
  {
    if d != [] {
      StripHashesPrefix(k, d);
    } else {
      assert Hashes(k) + d == Hashes(k);
    }
  }

  // ------------------------------------------------------------ decimal path

  /** `s.split(',')`. */
  function Split(s: string): (parts: seq<string>)
    ensures |parts| >= 1
    ensures forall k :: 0 <= k < |parts| ==> ',' !in parts[k]
    ensures ',' !in s ==> parts == [s]
  {
    if s == [] then [[]]
    else if s[0] == ',' then [[]] + Split(s[1..])
    else
      var t := Split(s[1..]);
      assert s == [s[0]] + s[1..];
      [[s[0]] + t[0]] + t[1..]
  }

  lemma {:induction false} SplitNoComma(a: string)
    requires ',' !in a
    ensures Split(a) == [a]
  {
    if a != [] {
      SplitNoComma(a[1..]);
      assert [a[0]] + a[1..] == a;
    }
  }

  lemma {:induction false} SplitAtComma(a: string, b: string)
    requires ',' !in a
    ensures Split(a + [','] + b) == [a] + Split(b)
  {
    if a == [] {
      assert a + [','] + b == [','] + b;
      assert ([','] + b)[1..] == b;
    } else {
      assert (a + [','] + b)[1..] == a[1..] + [','] + b;
      SplitAtComma(a[1..], b);
      assert [a[0]] + a[1..] == a;
    }
  }

  /** `int(part)`, restricted to canonical digit strings. */
  function DecimalComponent(part: string): (r: Result<nat, ColorError>)
    ensures r.Ok? <==> part != [] && AllDigits(part)
    ensures r.Ok? ==> r.value == Value(part)
    ensures r.Err? ==> r.error == BadDecimal
  {
    match ParseNat(part)
    case None => Err(BadDecimal)
    case Some(n) => Ok(n)
  }

  /** `r, g, b = map(int, s.split(','))`. The map is lazy, so unpacking
      converts the fields in order, up to a fourth, and only then finds out
      that the count is wrong: a field `int()` refuses wins over a wrong
      count. The components must then fit in a `uint8`. */
  function DecimalTriple(s: string): (r: Result<Rgb, ColorError>)
    ensures r.Ok? ==> var parts := Split(s);
              |parts| == 3 && ParseNat(parts[0]) == Some(r.value.r as nat) &&
              ParseNat(parts[1]) == Some(r.value.g as nat) && ParseNat(parts[2]) == Some(r.value.b as nat)
  {
    var parts := Split(s);
    var r :- DecimalComponent(parts[0]);
    if |parts| < 2 then Err(WrongFieldCount)
    else
      var g :- DecimalComponent(parts[1]);
      if |parts| < 3 then Err(WrongFieldCount)
      else
        var b :- DecimalComponent(parts[2]);
        if |parts| > 3 then
          if DecimalComponent(parts[3]).Err? then Err(BadDecimal) else Err(WrongFieldCount)
        else if r > 255 || g > 255 || b > 255 then Err(ComponentTooLarge)
        else Ok(Rgb(r, g, b))
  }

  /** `int()` accepts each of the first `n` fields. */
  predicate FieldsParse(parts: seq<string>, n: nat)
    requires n <= |parts|
  {
    forall k :: 0 <= k < n ==> ParseNat(parts[k]).Some?
  }

  /** Each of three accepted fields fits in a `uint8`. */
  predicate FieldsFit(parts: seq<string>)
    requires |parts| == 3 && FieldsParse(parts, 3)
  {
    forall k :: 0 <= k < 3 ==> ParseNat(parts[k]).value <= 255
  }

  /** Which error `DecimalTriple` reports: a field `int()` refuses among the
      first four, else a count other than three, else a component above
      255; otherwise the three values. */
  lemma DecimalTripleOutcome(s: string)
    ensures var parts := Split(s);
            var r := DecimalTriple(s);
            && (r == Err(BadDecimal) <==> !FieldsParse(parts, Min(|parts|, 4)))
            && (r == Err(WrongFieldCount) <==> |parts| != 3 && FieldsParse(parts, Min(|parts|, 4)))
            && (r == Err(ComponentTooLarge) <==> |parts| == 3 && FieldsParse(parts, 3) && !FieldsFit(parts))
            && (r.Ok? <==> |parts| == 3 && FieldsParse(parts, 3) && FieldsFit(parts))
  {
    var parts := Split(s);
    var r := DecimalTriple(s);
    var n := Min(|parts|, 4);
    assert n == if |parts| < 4 then |parts| else 4;
    if ParseNat(parts[0]).None? {
      assert r == Err(BadDecimal) && !FieldsParse(parts, n);
    } else if |parts| == 1 {
      assert r == Err(WrongFieldCount) && FieldsParse(parts, n);
    } else if ParseNat(parts[1]).None? {
      assert r == Err(BadDecimal) && !FieldsParse(parts, n);
    } else if |parts| == 2 {
      assert r == Err(WrongFieldCount) && FieldsParse(parts, n);
    } else if ParseNat(parts[2]).None? {
      assert r == Err(BadDecimal) && !FieldsParse(parts, n);
    } else if |parts| > 3 && ParseNat(parts[3]).None? {
      assert r == Err(BadDecimal) && !FieldsParse(parts, n);
    } else if |parts| > 3 {
      assert r == Err(WrongFieldCount) && FieldsParse(parts, n);
    } else {
      assert FieldsParse(parts, 3);
    }
  }

  /** The colour half of `parse_color_range`: a string that starts with `#`
      is hex, anything else is a decimal triple. */
  function ParseColor(s: string): (r: Result<Rgb, ColorError>)
    ensures r.Ok? ==> (s != [] && s[0] == '#') || ',' in s
  {
    if s != [] && s[0] == '#' then HexToRgb(s) else DecimalTriple(s)
  }

  function HexByte(x: Byte): string {
    [HexChar(x / 16), HexChar(x % 16)]
  }

  lemma HexByteRoundTrip(x: Byte)
    ensures |HexByte(x)| == 2 && AllHex(HexByte(x))
    ensures HexPair(HexByte(x)[0], HexByte(x)[1]) == x
  {
  }

  /** `#RRGGBB` with upper-case digits. */
  function ToHex(c: Rgb): string {
    "#" + HexByte(c.r) + HexByte(c.g) + HexByte(c.b)
  }

  /** `R,G,B` in shortest decimal. */
  function ToDecimal(c: Rgb): string {
    Digits(c.r) + "," + Digits(c.g) + "," + Digits(c.b)
  }

  lemma ParseColorHexRoundTrip(c: Rgb)
    ensures ParseColor(ToHex(c)) == Ok(c)
  {
    var d := HexByte(c.r) + HexByte(c.g) + HexByte(c.b);
    assert ToHex(c) == Hashes(1) + d + [];
    HexByteRoundTrip(c.r);
    HexByteRoundTrip(c.g);
    HexByteRoundTrip(c.b);
    assert |d| == 6 && AllHex(d);
    assert HexPair(d[0], d[1]) == c.r;
    assert HexPair(d[2], d[3]) == c.g;
    assert HexPair(d[4], d[5]) == c.b;
    HexToRgbReadsSixDigits(1, d, []);
  }

  lemma DigitsHaveNoComma(n: nat)
    ensures ',' !in Digits(n) && Digits(n)[0] != '#'
  {
    assert IsDigit(Digits(n)[0]);
  }

  lemma ParseColorDecimalRoundTrip(c: Rgb)
    ensures ParseColor(ToDecimal(c)) == Ok(c)
  {
    var r, g, b := Digits(c.r), Digits(c.g), Digits(c.b);
    DigitsHaveNoComma(c.r);
    DigitsHaveNoComma(c.g);
    DigitsHaveNoComma(c.b);
    assert ToDecimal(c) == r + [','] + (g + [','] + b);
    SplitAtComma(r, g + [','] + b);
    SplitAtComma(g, b);
    SplitNoComma(b);
    assert Split(ToDecimal(c)) == [r, g, b];
    ParseDigits(c.r);
    ParseDigits(c.g);
    ParseDigits(c.b);
  }

  /** A string without `#` in front and without a comma is never a colour:
      `int()` refuses it unless it is a number, and a lone number does not
      unpack into three. */
  lemma ParseColorNeedsCommas(s: string)
    requires (s == [] || s[0] != '#') && ',' !in s
    ensures ParseColor(s) == Err(if ParseNat(s).Some? then WrongFieldCount else BadDecimal)
  {
    SplitNoComma(s);
  }

  /** `00FF00` without its `#` fails in `int()`, not in the unpacking. */
  lemma BareHexIsRefusedByInt()
    ensures ParseColor("00FF00") == Err(BadDecimal)
  {
    ParseColorNeedsCommas("00FF00");
  }

  /** A fourth field is converted before the count is checked: `1,2,3,x`
      fails in `int()`. */
  lemma FourthFieldIsConverted()
    ensures ParseColor("1,2,3,x") == Err(BadDecimal)
  {
    assert "1,2,3,x" == "1" + [','] + ("2" + [','] + ("3" + [','] + "x"));
    assert ParseNat("x").None?;
    FourthFieldDecides("1", "2", "3", "x");
  }

  /** With three accepted fields and a fourth, the fourth is converted too:
      the run fails in `int()` if it is refused and in the unpacking if not. */
  lemma FourthFieldDecides(a: string, b: string, c: string, d: string)
    requires ',' !in a && ',' !in b && ',' !in c && ',' !in d
    requires ParseNat(a).Some? && ParseNat(b).Some? && ParseNat(c).Some?
    ensures DecimalTriple(a + [','] + (b + [','] + (c + [','] + d)))
         == Err(if ParseNat(d).Some? then WrongFieldCount else BadDecimal)
  {
    FourFields(a, b, c, d);
  }

  lemma FourFields(a: string, b: string, c: string, d: string)
    requires ',' !in a && ',' !in b && ',' !in c && ',' !in d
    ensures Split(a + [','] + (b + [','] + (c + [','] + d))) == [a, b, c, d]
  {
    SplitNoComma(d);
    SplitAtComma(c, d);
    SplitAtComma(b, c + [','] + d);
    SplitAtComma(a, b + [','] + (c + [','] + d));
  }

  /** With too few fields, a bad one still fails in `int()` first. */
  lemma FieldErrorBeforeCount()
    ensures ParseColor("a,b") == Err(BadDecimal)
    ensures ParseColor("1,2") == Err(WrongFieldCount)
  {
    SplitNoComma("b");
    SplitAtComma("a", "b");
    assert "a,b" == "a" + [','] + "b";
    SplitNoComma("2");
    SplitAtComma("1", "2");
    assert "1,2" == "1" + [','] + "2";
  }

  // ------------------------------------------------------------------ bounds

  /** NumPy `uint8` arithmetic: the result wraps modulo 256. */
  function Wrap8(x: int): (r: Byte)
    ensures exists q :: x == r + 256 * q
  {
    assert x == x % 256 + 256 * (x / 256);
    x % 256
  }

  /** `np.clip(x, 0, 255)`. */
  function Clip(x: int): (r: Byte)
    ensures 0 <= x <= 255 ==> r == x
    ensures x < 0 ==> r == 0
    ensures x > 255 ==> r == 255
  {
    if x < 0 then 0 else if x > 255 then 255 else x
  }

  /** `parse_color_range` as written: `color_bgr - tolerance` and
      `color_bgr + tolerance` are computed in `uint8` and wrap before the
      clip sees them. */
  function KeyBoundsAsWritten(c: Rgb, t: int): (bd: Bounds)
    requires 0 <= t <= 255
    ensures bd == Bounds(Bgr(Wrap8(c.b - t), Wrap8(c.g - t), Wrap8(c.r - t)),
                         Bgr(Wrap8(c.b + t), Wrap8(c.g + t), Wrap8(c.r + t)))
  {
    Bounds(Bgr(Clip(Wrap8(c.b - t)), Clip(Wrap8(c.g - t)), Clip(Wrap8(c.r - t))),
           Bgr(Clip(Wrap8(c.b + t)), Clip(Wrap8(c.g + t)), Clip(Wrap8(c.r + t))))
  }

  /** Pixel `p` lies within `t` of the key colour on every channel. */
  predicate Near(p: Bgr, c: Rgb, t: int) {
    && -t <= p.b - c.b <= t
    && -t <= p.g - c.g <= t
    && -t <= p.r - c.r <= t
  }

  /** The bounds the clip was meant to produce: each channel's band
      `[c - t, c + t]` clamped to 0..255. Then a pixel is in the band exactly
      when it is within the tolerance of the key colour on every channel. */
  function KeyBounds(c: Rgb, t: int): (bd: Bounds)
    requires 0 <= t <= 255
    ensures bd.lower.b <= c.b <= bd.upper.b
    ensures bd.lower.g <= c.g <= bd.upper.g
    ensures bd.lower.r <= c.r <= bd.upper.r
    ensures forall p :: InBand(p, bd.lower, bd.upper) <==> Near(p, c, t)
  {
    Bounds(Bgr(Max(0, c.b - t), Max(0, c.g - t), Max(0, c.r - t)),
           Bgr(Min(255, c.b + t), Min(255, c.g + t), Min(255, c.r + t)))
  }

  /** No channel's band reaches past 0 or 255. */
  predicate NoWrap(c: Rgb, t: int) {
    && t <= c.b <= 255 - t
    && t <= c.g <= 255 - t
    && t <= c.r <= 255 - t
  }

  /** One channel as written: its band `[(x - t) mod 256, (x + t) mod 256]`
      holds `x`, and equals the clamped band, exactly when it does not wrap. */
  lemma WrapChannel(x: Byte, t: int)
    requires 0 <= t <= 255
    ensures Wrap8(x - t) <= x <= Wrap8(x + t) <==> t <= x <= 255 - t
    ensures Wrap8(x - t) == Max(0, x - t) && Wrap8(x + t) == Min(255, x + t) <==> t <= x <= 255 - t
  {
    if x - t < 0 {
      assert Wrap8(x - t) == x - t + 256;
    } else {
      assert Wrap8(x - t) == x - t;
    }
    if x + t > 255 {
      assert Wrap8(x + t) == x + t - 256;
    } else {
      assert Wrap8(x + t) == x + t;
    }
  }

  /** The bounds as written are the intended clamped bounds exactly when no
      channel's band reaches past 0 or 255. */
  lemma AsWrittenIsClampedIff(c: Rgb, t: int)
    requires 0 <= t <= 255
    ensures KeyBoundsAsWritten(c, t) == KeyBounds(c, t) <==> NoWrap(c, t)
  {
    WrapChannel(c.b, t);
    WrapChannel(c.g, t);
    WrapChannel(c.r, t);
  }

  /** As written, the key colour itself is background exactly when no
      channel's band wraps. */
  lemma AsWrittenKeyIsBackgroundIff(c: Rgb, t: int)
    requires 0 <= t <= 255
    ensures var bd := KeyBoundsAsWritten(c, t);
            InBand(Bgr(c.b, c.g, c.r), bd.lower, bd.upper) <==> NoWrap(c, t)
  {
    WrapChannel(c.b, t);
    WrapChannel(c.g, t);
    WrapChannel(c.r, t);
  }

  /** The documented green-screen call `--color "#00FF00"` with the default
      tolerance 30: every band wraps and comes out inverted, so no pixel at
      all is background. */
  lemma GreenScreenAsWritten()
    ensures KeyBoundsAsWritten(Rgb(0, 255, 0), 30) == Bounds(Bgr(226, 225, 226), Bgr(30, 29, 30))
    ensures forall p :: !InBand(p, Bgr(226, 225, 226), Bgr(30, 29, 30))
  {
  }

  /** `parse_color_range` as written. */
  function ParseColorRangeAsWritten(s: string, t: int): (r: Result<Bounds, ColorError>)
    requires 0 <= t <= 255
    ensures r.Ok? <==> ParseColor(s).Ok?
    ensures r.Ok? ==> r.value == KeyBoundsAsWritten(ParseColor(s).value, t)
    ensures r.Ok? ==> var c := ParseColor(s).value;
              InBand(Bgr(c.b, c.g, c.r), r.value.lower, r.value.upper) <==> NoWrap(c, t)
    ensures r.Ok? && NoWrap(ParseColor(s).value, t) ==>
              forall p :: InBand(p, r.value.lower, r.value.upper) <==> Near(p, ParseColor(s).value, t)
  {
    var c :- ParseColor(s);
    AsWrittenKeyIsBackgroundIff(c, t);
    AsWrittenIsClampedIff(c, t);
    Ok(KeyBoundsAsWritten(c, t))
  }

  /** Where no channel's band reaches past 0 or 255, the key as written and
      the intended key are the same bounds. */
  lemma ParseColorRangeAgree(s: string, t: int)
    requires 0 <= t <= 255
    ensures ParseColorRangeAsWritten(s, t).Err? <==> ParseColorRange(s, t).Err?
    ensures ParseColor(s).Ok? && NoWrap(ParseColor(s).value, t) ==>
              ParseColorRangeAsWritten(s, t) == ParseColorRange(s, t)
  {
    if ParseColor(s).Ok? {
      AsWrittenIsClampedIff(ParseColor(s).value, t);
    }
  }

  /** `parse_color_range` with the clamp it evidently intends. */
  function ParseColorRange(s: string, t: int): (r: Result<Bounds, ColorError>)
    requires 0 <= t <= 255
    ensures r.Ok? <==> ParseColor(s).Ok?
    ensures r.Ok? ==> forall p :: InBand(p, r.value.lower, r.value.upper) <==> Near(p, ParseColor(s).value, t)
  {
    var c :- ParseColor(s);
    Ok(KeyBounds(c, t))
  }
}
