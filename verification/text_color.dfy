/** Choosing black or white text over a background color (card.py
    `GetLegibleTextColor`). */
module TextColor {
  import opened Common
  import opened PyText

  predicate IsHexDigit(c: char)
  {
    '0' <= c <= '9' || 'a' <= c <= 'f' || 'A' <= c <= 'F'
  }

  function HexDigitValue(c: char): (v: nat)
    requires IsHexDigit(c)
    ensures v < 16
  {
    if '0' <= c <= '9' then c as nat - '0' as nat
    else if 'a' <= c <= 'f' then c as nat - 'a' as nat + 10
    else c as nat - 'A' as nat + 10
  }

  /** `int(s, 16)` for a string of hex digits; any other string (the empty
      one included) raises ValueError. */
  function ParseHex(s: string): (r: Result<nat>)
    ensures r.Ok? <==> s != [] && forall i :: 0 <= i < |s| ==> IsHexDigit(s[i])
  {
    if s == [] then Raised("ValueError") else HexValue(s)
  }

  function HexValue(s: string): (r: Result<nat>)
    ensures r.Ok? <==> forall i :: 0 <= i < |s| ==> IsHexDigit(s[i])
    decreases |s|
  {
    if s == [] then Ok(0)
    else
      var last := s[|s| - 1];
      if !IsHexDigit(last) then Raised("ValueError")
      else
        match HexValue(s[..|s| - 1])
        case Ok(v) => Ok(16 * v + HexDigitValue(last))
        case Raised(e) =>
          assert exists i :: 0 <= i < |s| - 1 && !IsHexDigit(s[i]);
          Raised(e)
  }

  /** `s.strip(c)`: the string with every leading and trailing `c` removed
      (StripIsTrimmedSlice locates it inside `s`). */
  function Strip(s: string, c: char): (r: string)
    ensures |r| <= |s|
    ensures r != [] ==> r[0] != c && r[|r| - 1] != c
    ensures r == [] <==> forall i :: 0 <= i < |s| ==> s[i] == c
    ensures s != [] && s[0] != c && s[|s| - 1] != c ==> r == s
  {
    StripEnd(StripStart(s, c), c)
  }

  /** The stripped string is the slice of `s` starting at `i` with only `c`
      on either side of it; since it neither starts nor ends with `c`, what
      was removed is exactly the whole leading and the whole trailing run. */
  lemma StripIsTrimmedSlice(s: string, c: char) returns (i: nat)
    ensures i + |Strip(s, c)| <= |s|
    ensures Strip(s, c) == s[i..i + |Strip(s, c)|]
    ensures forall k :: 0 <= k < i ==> s[k] == c
    ensures forall k :: i + |Strip(s, c)| <= k < |s| ==> s[k] == c
  {
    var t := StripStart(s, c);
    i := |s| - |t|;
    TrimmedSlice(s, c, i, StripEnd(t, c));
  }

  lemma TrimmedSlice(s: string, c: char, i: nat, r: string)
    requires i <= |s| && |r| <= |s| - i && r == s[i..][..|r|]
    requires forall k :: |r| <= k < |s| - i ==> s[i..][k] == c
    ensures r == s[i..i + |r|]
    ensures forall k :: i + |r| <= k < |s| ==> s[k] == c
  {
    forall k | i + |r| <= k < |s|
      ensures s[k] == c
    {
      assert s[k] == s[i..][k - i];
    }
  }

  function StripStart(s: string, c: char): (r: string)
    ensures |r| <= |s| && r == s[|s| - |r|..]
    ensures r != [] ==> r[0] != c
    ensures forall k :: 0 <= k < |s| - |r| ==> s[k] == c
  {
    if s != [] && s[0] == c then StripStart(s[1..], c) else s
  }

  function StripEnd(s: string, c: char): (r: string)
    ensures |r| <= |s| && r == s[..|r|]
    ensures r != [] ==> r[|r| - 1] != c
    ensures forall k :: |r| <= k < |s| ==> s[k] == c
  {
    if s != [] && s[|s| - 1] == c then StripEnd(s[..|s| - 1], c) else s
  }

  /** The six-digit form of a color: a three-digit color has each digit
      doubled; anything else is kept. */
  function Expand(rgb: string): (r: string)
    ensures |rgb| != 3 ==> r == rgb
    ensures |rgb| == 3 ==> |r| == 6 && forall i :: 0 <= i < 6 ==> r[i] == rgb[i / 2]
  {
    if |rgb| == 3 then [rgb[0], rgb[0], rgb[1], rgb[1], rgb[2], rgb[2]] else rgb
  }

  /** Dark text exactly when the weighted luminance of the channels is above
      128; the comparison is made on the weights 0.299, 0.587, 0.114 scaled
      by 1000, which agrees with the exact real-valued luminance. */
  function TextOver(red: nat, green: nat, blue: nat): (r: string)
    ensures r == "#000" || r == "#fff"
    ensures r == "#000" <==> red as real * 0.299 + green as real * 0.587 + blue as real * 0.114 > 128.0
  {
    if 299 * red + 587 * green + 114 * blue > 128000 then "#000" else "#fff"
  }

  /** GetLegibleTextColor. */
  function GetLegibleTextColor(background: string): (r: Result<string>)
    ensures r.Ok? ==> r.value == "#000" || r.value == "#fff"
    ensures var rgb := Expand(Strip(background, '#'));
            r.Ok? <==> ParseHex(Slice(rgb, 0, 2)).Ok? && ParseHex(Slice(rgb, 2, 4)).Ok? &&
                       ParseHex(Slice(rgb, 4, 6)).Ok?
  {
    var rgb := Expand(Strip(background, '#'));
    var red, green, blue := ParseHex(Slice(rgb, 0, 2)), ParseHex(Slice(rgb, 2, 4)), ParseHex(Slice(rgb, 4, 6));
    if red.Ok? && green.Ok? && blue.Ok? then Ok(TextOver(red.value, green.value, blue.value))
    else Raised("ValueError")
  }

  predicate AllHex(s: string)
  {
    forall i :: 0 <= i < |s| ==> IsHexDigit(s[i])
  }

  /** A string that neither starts nor ends with `c`, behind any number
      of leading `c`, strips back to itself. */
  lemma StripLeading(n: nat, d: string, c: char)
    requires d != [] && d[0] != c && d[|d| - 1] != c
    ensures Strip(seq(n, _ => c) + d, c) == d
  {
    StripStartLeading(n, d, c);
  }

  lemma {:induction false} StripStartLeading(n: nat, d: string, c: char)
    requires d != [] && d[0] != c
    ensures StripStart(seq(n, _ => c) + d, c) == d
  {
    var s := seq(n, _ => c) + d;
    if n == 0 {
      assert s == d;
    } else {
      assert s[0] == c;
      assert s[1..] == seq(n - 1, _ => c) + d;
      StripStartLeading(n - 1, d, c);
    }
  }

  /** Two hex digits parse to the byte they spell, high digit first. */
  lemma ParsePair(a: char, b: char)
    requires IsHexDigit(a) && IsHexDigit(b)
    ensures ParseHex([a, b]) == Ok(16 * HexDigitValue(a) + HexDigitValue(b))
  {
    assert [a, b][..1] == [a];
    assert [a][..0] == [];
    assert HexValue([]) == Ok(0);
    assert HexValue([a]) == Ok(HexDigitValue(a));
    assert HexValue([a, b]) == Ok(16 * HexDigitValue(a) + HexDigitValue(b));
  }

  /** The three channel bytes of a six-digit color. */
  function Channels(d: string): (nat, nat, nat)
    requires |d| == 6 && AllHex(d)
  {
    (16 * HexDigitValue(d[0]) + HexDigitValue(d[1]),
     16 * HexDigitValue(d[2]) + HexDigitValue(d[3]),
     16 * HexDigitValue(d[4]) + HexDigitValue(d[5]))
  }

  /** A background that strips to six hex digits gets the text color of
      its three channel bytes. */
  lemma ColorOfSixDigits(background: string, d: string)
    requires Strip(background, '#') == d
    requires |d| == 6 && AllHex(d)
    ensures var ch := Channels(d);
            GetLegibleTextColor(background) == Ok(TextOver(ch.0, ch.1, ch.2))
  {
    assert Expand(d) == d;
    ChannelBytes(d);
  }

  /** The three two-digit slices of six hex digits parse to its bytes. */
  lemma ChannelBytes(d: string)
    requires |d| == 6 && AllHex(d)
    ensures ParseHex(Slice(d, 0, 2)) == Ok(Channels(d).0)
    ensures ParseHex(Slice(d, 2, 4)) == Ok(Channels(d).1)
    ensures ParseHex(Slice(d, 4, 6)) == Ok(Channels(d).2)
  {
    assert Slice(d, 0, 2) == [d[0], d[1]];
    assert Slice(d, 2, 4) == [d[2], d[3]];
    assert Slice(d, 4, 6) == [d[4], d[5]];
    ParsePair(d[0], d[1]);
    ParsePair(d[2], d[3]);
    ParsePair(d[4], d[5]);
  }

  /** Six hex digits, after any number of leading `#`, parse; the text color
      is decided by the three channel bytes. */
  lemma SixDigitColorParses(n: nat, d: string)
    requires |d| == 6 && AllHex(d)
    ensures var ch := Channels(d);
            GetLegibleTextColor(seq(n, _ => '#') + d) == Ok(TextOver(ch.0, ch.1, ch.2))
  {
    StripLeading(n, d, '#');
    ColorOfSixDigits(seq(n, _ => '#') + d, d);
  }

  /** A background that strips to three hex digits gets the text color of
      their doubled six-digit form. */
  lemma ColorOfThreeDigits(background: string, a: char, b: char, c: char)
    requires Strip(background, '#') == [a, b, c]
    requires IsHexDigit(a) && IsHexDigit(b) && IsHexDigit(c)
    ensures AllHex([a, a, b, b, c, c])
    ensures var ch := Channels([a, a, b, b, c, c]);
            GetLegibleTextColor(background) == Ok(TextOver(ch.0, ch.1, ch.2))
  {
    var long := [a, a, b, b, c, c];
    DoubledHex(a, b, c);
    ExpandThree(a, b, c);
    ChannelBytes(long);
  }

  lemma ExpandThree(a: char, b: char, c: char)
    ensures Expand([a, b, c]) == [a, a, b, b, c, c]
  {
  }

  /** One leading `#` strips away. */
  lemma StripOneHash(s: string)
    requires |s| >= 2 && s[0] == '#' && s[1] != '#' && s[|s| - 1] != '#'
    ensures Strip(s, '#') == s[1..]
  {
    var d := s[1..];
    assert d[0] == s[1] && d[|d| - 1] == s[|s| - 1];
    assert StripStart(d, '#') == d;
    assert StripStart(s, '#') == d;
    assert StripEnd(d, '#') == d;
  }

  lemma ShortFormColor(a: char, b: char, c: char)
    requires IsHexDigit(a) && IsHexDigit(b) && IsHexDigit(c)
    ensures AllHex([a, a, b, b, c, c])
    ensures var ch := Channels([a, a, b, b, c, c]);
            GetLegibleTextColor(['#', a, b, c]) == Ok(TextOver(ch.0, ch.1, ch.2))
  {
    var short := ['#', a, b, c];
    assert short[1..] == [a, b, c];
    StripOneHash(short);
    ColorOfThreeDigits(short, a, b, c);
    DoubledHex(a, b, c);
  }

  lemma DoubledHex(a: char, b: char, c: char)
    requires IsHexDigit(a) && IsHexDigit(b) && IsHexDigit(c)
    ensures AllHex([a, a, b, b, c, c])
  {
  }

  lemma LongFormColor(a: char, b: char, c: char)
    requires IsHexDigit(a) && IsHexDigit(b) && IsHexDigit(c)
    ensures AllHex([a, a, b, b, c, c])
    ensures var ch := Channels([a, a, b, b, c, c]);
            GetLegibleTextColor(['#', a, a, b, b, c, c]) == Ok(TextOver(ch.0, ch.1, ch.2))
  {
    var background := ['#', a, a, b, b, c, c];
    assert background[1..] == [a, a, b, b, c, c];
    DoubledHex(a, b, c);
    StripOneHash(background);
    ColorOfSixDigits(background, background[1..]);
  }

  /** The three-digit short form gives the same text color as its doubled
      six-digit form. */
  lemma ShortFormMatchesLongForm(a: char, b: char, c: char)
    requires IsHexDigit(a) && IsHexDigit(b) && IsHexDigit(c)
    ensures GetLegibleTextColor(['#', a, b, c]) == GetLegibleTextColor(['#', a, a, b, b, c, c])
  {
    ShortFormColor(a, b, c);
    LongFormColor(a, b, c);
  }

  /** A brighter background never turns dark text into light text. */
  lemma BrighterKeepsDarkText(r0: nat, g0: nat, b0: nat, r1: nat, g1: nat, b1: nat)
    requires r0 <= r1 && g0 <= g1 && b0 <= b1
    requires TextOver(r0, g0, b0) == "#000"
    ensures TextOver(r1, g1, b1) == "#000"
  {
  }
}
